/** src/js_sandbox.rs: `writeFile` / `readFile` and their per-run quotas. */
module SandboxQuota {
  import opened Wrappers
  import opened Utf8
  import Base64

  const USIZE_MAX := Base64.USIZE_MAX

  function SaturatingAdd(a: nat, b: nat): nat {
    if a + b > USIZE_MAX then USIZE_MAX else a + b
  }

  function Min(a: nat, b: nat): nat {
    if a < b then a else b
  }

  datatype Limits = Limits(maxFileBytes: nat, maxFilesPerRun: nat, maxTotalBytesPerRun: nat)

  /** `WriteLimits::default` and `ReadLimits::default`. */
  const DEFAULT_LIMITS := Limits(32 * 1024 * 1024, 64, 256 * 1024 * 1024)

  /** Limits far enough below `usize::MAX` that saturation cannot hide a breach. */
  predicate IsUnsaturated(limits: Limits) {
    limits.maxFileBytes < USIZE_MAX / 4 - 2 && limits.maxTotalBytesPerRun < USIZE_MAX
  }

  lemma DefaultLimitsAreUnsaturated()
    ensures IsUnsaturated(DEFAULT_LIMITS)
  {
  }

  datatype Usage = Usage(filesWritten: nat, bytesWritten: nat, filesRead: nat, bytesRead: nat)

  // Writing

  /**
   * One `writeFile` call: its arguments, and what path resolution (`pathAllowed`) and the atomic write
   * (`diskWrites`) answer if they are reached.
   */
  datatype WriteCall = WriteCall(data: seq<byte>, encoding: string, pathAllowed: bool, diskWrites: bool)

  datatype WriteRejection =
    | WriteCountReached
    | WriteTooLarge(estimated: nat)
    | WritePathRejected
    | InvalidBase64
    | WriteEncodingUnsupported
    | WriteTotalExceeded
    | WriteFailed

  function EstimatedLength(data: seq<byte>, encoding: string): Option<nat> {
    if encoding == "utf8" then Some(|data|)
    else if encoding == "base64" then Some(Base64.EstimatedLength(data))
    else None
  }

  /** The checks of `write_file_to_roots` in their order; on success, the bytes put on disk. */
  function WriteFileToRoots(limits: Limits, u: Usage, call: WriteCall): Result<seq<byte>, WriteRejection> {
    var estimated := EstimatedLength(call.data, call.encoding);
    if u.filesWritten >= limits.maxFilesPerRun then Err(WriteCountReached)
    else if estimated.Some? && estimated.value > limits.maxFileBytes then Err(WriteTooLarge(estimated.value))
    else if !call.pathAllowed then Err(WritePathRejected)
    else
      var decoded :=
        if call.encoding == "utf8" then Ok(call.data)
        else if call.encoding == "base64" then
          (match Base64.Decode(call.data) case Some(bytes) => Ok(bytes) case None => Err(InvalidBase64))
        else Err(WriteEncodingUnsupported);
      if decoded.Err? then decoded
      else if SaturatingAdd(u.bytesWritten, |decoded.value|) > limits.maxTotalBytesPerRun then Err(WriteTotalExceeded)
      else if !call.diskWrites then Err(WriteFailed)
      else decoded
  }

  function AfterWrite(limits: Limits, u: Usage, call: WriteCall): Usage {
    match WriteFileToRoots(limits, u, call)
    case Ok(bytes) =>
      u.(filesWritten := u.filesWritten + 1, bytesWritten := SaturatingAdd(u.bytesWritten, |bytes|))
    case Err(_) => u
  }

  // Reading

  /** An open file: what it yields when read, and after how many bytes reading fails, if it does. */
  datatype Reader = Reader(content: seq<byte>, failsAfter: Option<nat>)

  /**
   * One `readFile` call: `opens` stands for the type pre-check, the open and the handle's metadata, which
   * report `statLength`; the file may have changed size by the time it is read.
   */
  datatype ReadCall = ReadCall(encoding: string, pathAllowed: bool, opens: bool, statLength: nat, reader: Reader)

  datatype ReadRejection =
    | ReadEncodingUnsupported
    | ReadCountReached
    | ReadPathRejected
    | Unreadable
    | ReadTooLarge
    | ReadTotalExceeded
    | ReadFailed
    | GrewPastAllowance
    | NotUtf8

  /** How a read ends: nothing pulled, or the bytes pulled and (on success) the text handed back. */
  datatype ReadOutcome =
    | Refused(why: ReadRejection)
    | Wasted(pulled: nat, why: ReadRejection)
    | Contents(raw: seq<byte>, text: seq<byte>)

  /** At most `allowed + 1` bytes; `None` for an I/O error. */
  function ReadBounded(reader: Reader, allowed: nat): (r: (seq<byte>, Option<bool>))
    ensures |r.0| <= allowed + 1
    ensures r.1.Some? ==> (r.1.value <==> |r.0| > allowed)
  {
    var wanted := Min(|reader.content|, SaturatingAdd(allowed, 1));
    if reader.failsAfter.Some? && reader.failsAfter.value < wanted
      then (reader.content[..reader.failsAfter.value], None)
    else (reader.content[..wanted], Some(wanted > allowed))
  }

  /** What decoding makes of the bytes pulled within the allowance. */
  function Deliver(encoding: string, bytes: seq<byte>): ReadOutcome {
    if encoding == "base64" then Contents(bytes, Base64.Encode(bytes))
    else if Utf8.Decode(bytes).Some? then Contents(bytes, bytes)
    else Wasted(|bytes|, NotUtf8)
  }

  function ReadFileOutcome(limits: Limits, u: Usage, call: ReadCall): ReadOutcome {
    if call.encoding != "utf8" && call.encoding != "base64" then Refused(ReadEncodingUnsupported)
    else if u.filesRead >= limits.maxFilesPerRun then Refused(ReadCountReached)
    else if !call.pathAllowed then Refused(ReadPathRejected)
    else if !call.opens then Refused(Unreadable)
    else if call.statLength > limits.maxFileBytes then Refused(ReadTooLarge)
    else if SaturatingAdd(u.bytesRead, call.statLength) > limits.maxTotalBytesPerRun then Refused(ReadTotalExceeded)
    else
      var allowed := Min(limits.maxFileBytes, Base64.SaturatingSub(limits.maxTotalBytesPerRun, u.bytesRead));
      var (bytes, exceeded) := ReadBounded(call.reader, allowed);
      match exceeded
      case None => Wasted(|bytes|, ReadFailed)
      case Some(true) => Wasted(|bytes|, GrewPastAllowance)
      case Some(false) => Deliver(call.encoding, bytes)
  }

  function Pulled(outcome: ReadOutcome): nat {
    match outcome
    case Refused(_) => 0
    case Wasted(pulled, _) => pulled
    case Contents(raw, _) => |raw|
  }

  function AfterRead(limits: Limits, u: Usage, call: ReadCall): Usage {
    var outcome := ReadFileOutcome(limits, u, call);
    if outcome.Refused? then u
    else u.(filesRead := u.filesRead + 1, bytesRead := SaturatingAdd(u.bytesRead, Pulled(outcome)))
  }

  /** The counters of one script run. */
  class SandboxState {
    const writeLimits: Limits
    const readLimits: Limits
    var filesWritten: nat
    var bytesWritten: nat
    var filesRead: nat
    var bytesRead: nat

    constructor (writeLimits: Limits, readLimits: Limits)
      ensures this.writeLimits == writeLimits && this.readLimits == readLimits
      ensures CurrentUsage() == Usage(0, 0, 0, 0)
    {
      this.writeLimits, this.readLimits := writeLimits, readLimits;
      filesWritten, bytesWritten, filesRead, bytesRead := 0, 0, 0, 0;
    }

    function CurrentUsage(): Usage
      reads this
    {
      Usage(filesWritten, bytesWritten, filesRead, bytesRead)
    }

    method WriteFile(call: WriteCall) returns (r: Result<seq<byte>, WriteRejection>)
      modifies this`filesWritten, this`bytesWritten
      ensures r == WriteFileToRoots(writeLimits, old(CurrentUsage()), call)
      ensures CurrentUsage() == AfterWrite(writeLimits, old(CurrentUsage()), call)
    {
      if filesWritten >= writeLimits.maxFilesPerRun {
        return Err(WriteCountReached);
      }
      var estimated := EstimatedLength(call.data, call.encoding);
      if estimated.Some? && estimated.value > writeLimits.maxFileBytes {
        return Err(WriteTooLarge(estimated.value));
      }
      if !call.pathAllowed {
        return Err(WritePathRejected);
      }
      var bytes := call.data;
      if call.encoding == "base64" {
        var decoded := Base64.Decode(call.data);
        if decoded.None? {
          return Err(InvalidBase64);
        }
        bytes := decoded.value;
      } else if call.encoding != "utf8" {
        return Err(WriteEncodingUnsupported);
      }
      if SaturatingAdd(bytesWritten, |bytes|) > writeLimits.maxTotalBytesPerRun {
        return Err(WriteTotalExceeded);
      }
      if !call.diskWrites {
        return Err(WriteFailed);
      }
      filesWritten := filesWritten + 1;
      bytesWritten := SaturatingAdd(bytesWritten, |bytes|);
      return Ok(bytes);
    }

    method ReadFile(call: ReadCall) returns (r: ReadOutcome)
      modifies this`filesRead, this`bytesRead
      ensures r == ReadFileOutcome(readLimits, old(CurrentUsage()), call)
      ensures CurrentUsage() == AfterRead(readLimits, old(CurrentUsage()), call)
    {
      if call.encoding != "utf8" && call.encoding != "base64" {
        return Refused(ReadEncodingUnsupported);
      }
      if filesRead >= readLimits.maxFilesPerRun {
        return Refused(ReadCountReached);
      }
      if !call.pathAllowed {
        return Refused(ReadPathRejected);
      }
      if !call.opens {
        return Refused(Unreadable);
      }
      if call.statLength > readLimits.maxFileBytes {
        return Refused(ReadTooLarge);
      }
      if SaturatingAdd(bytesRead, call.statLength) > readLimits.maxTotalBytesPerRun {
        return Refused(ReadTotalExceeded);
      }
      var allowed := Min(readLimits.maxFileBytes, Base64.SaturatingSub(readLimits.maxTotalBytesPerRun, bytesRead));
      var (bytes, exceeded) := ReadBounded(call.reader, allowed);
      filesRead := filesRead + 1;
      bytesRead := SaturatingAdd(bytesRead, |bytes|);
      match exceeded
      case None => return Wasted(|bytes|, ReadFailed);
      case Some(true) => return Wasted(|bytes|, GrewPastAllowance);
      case Some(false) => return Deliver(call.encoding, bytes);
    }
  }

  // Whole runs

  datatype Call = Write(w: WriteCall) | Read(r: ReadCall)

  datatype Event = Wrote(result: Result<seq<byte>, WriteRejection>) | DidRead(outcome: ReadOutcome)

  function Step(wl: Limits, rl: Limits, u: Usage, call: Call): (Usage, Event) {
    match call
    case Write(w) => (AfterWrite(wl, u, w), Wrote(WriteFileToRoots(wl, u, w)))
    case Read(r) => (AfterRead(rl, u, r), DidRead(ReadFileOutcome(rl, u, r)))
  }

  /** The usage after a run of calls, and what each call did. */
  function Run(wl: Limits, rl: Limits, calls: seq<Call>): (Usage, seq<Event>) {
    if calls == [] then (Usage(0, 0, 0, 0), [])
    else
      var (u, events) := Run(wl, rl, calls[..|calls| - 1]);
      var (u', event) := Step(wl, rl, u, calls[|calls| - 1]);
      (u', events + [event])
  }

  /**
   * Totals over a run, counted from what the calls did and not from the counters. What is
   * handed back counts twice: as raw file contents, and as the text the script receives.
   */
  datatype Totals = Totals(
    filesWritten: nat, bytesWritten: nat, filesPulled: nat, bytesPulled: nat, rawHandedBack: nat, textHandedBack: nat)

  function Tally(t: Totals, event: Event): Totals {
    match event
    case Wrote(Ok(bytes)) => t.(filesWritten := t.filesWritten + 1, bytesWritten := t.bytesWritten + |bytes|)
    case Wrote(Err(_)) => t
    case DidRead(Refused(_)) => t
    case DidRead(Wasted(pulled, _)) => t.(filesPulled := t.filesPulled + 1, bytesPulled := t.bytesPulled + pulled)
    case DidRead(Contents(raw, text)) =>
      t.(filesPulled := t.filesPulled + 1, bytesPulled := t.bytesPulled + |raw|,
         rawHandedBack := t.rawHandedBack + |raw|, textHandedBack := t.textHandedBack + |text|)
  }

  function TallyAll(events: seq<Event>): Totals {
    if events == [] then Totals(0, 0, 0, 0, 0, 0) else Tally(TallyAll(events[..|events| - 1]), events[|events| - 1])
  }

  /** A base64 payload within the cap is written in full, one over it is refused, and nothing else decides. */
  lemma CapIsExact(limits: Limits, u: Usage, call: WriteCall)
    requires IsUnsaturated(limits) && call.encoding == "base64" && Base64.Decode(call.data).Some?
    requires u.filesWritten < limits.maxFilesPerRun
    ensures WriteFileToRoots(limits, u, call).Err? && WriteFileToRoots(limits, u, call).error.WriteTooLarge? <==>
            |Base64.Decode(call.data).value| > limits.maxFileBytes
  {
    Base64.EstimateIsExact(call.data);
    Base64.DecodedLength(call.data);
    if 3 * |call.data| > USIZE_MAX {
      assert Base64.EstimatedLength(call.data) >= USIZE_MAX / 4 - 2;
      assert |Base64.Decode(call.data).value| >= USIZE_MAX / 4 - 2;
    }
  }

  lemma WriteIsWithinFileLimit(limits: Limits, u: Usage, call: WriteCall)
    requires IsUnsaturated(limits) && WriteFileToRoots(limits, u, call).Ok?
    ensures |WriteFileToRoots(limits, u, call).value| <= limits.maxFileBytes
    ensures u.bytesWritten <= limits.maxTotalBytesPerRun ==>
      u.bytesWritten + |WriteFileToRoots(limits, u, call).value| <= limits.maxTotalBytesPerRun
  {
    if call.encoding == "base64" {
      CapIsExact(limits, u, call);
    }
  }

  /** What holds between the counters, the totals and the limits after any sequence of calls. */
  predicate WithinQuota(wl: Limits, rl: Limits, u: Usage, t: Totals) {
    && u.filesWritten == t.filesWritten <= wl.maxFilesPerRun
    && u.bytesWritten == t.bytesWritten <= wl.maxTotalBytesPerRun
    && u.filesRead == t.filesPulled <= rl.maxFilesPerRun
    && u.bytesRead == t.bytesPulled <= rl.maxTotalBytesPerRun + 1
    && t.rawHandedBack <= t.bytesPulled
    && t.rawHandedBack <= rl.maxTotalBytesPerRun
    && 3 * t.textHandedBack <= 4 * (t.rawHandedBack + 2 * t.filesPulled)
  }

  /** A base64 read hands back four characters for every three bytes or part of them, a UTF-8 read the bytes. */
  lemma TextIsNotMuchLonger(limits: Limits, u: Usage, call: ReadCall)
    requires ReadFileOutcome(limits, u, call).Contents?
    ensures var Contents(raw, text) := ReadFileOutcome(limits, u, call);
            && |text| == (if call.encoding == "base64" then 4 * ((|raw| + 2) / 3) else |raw|)
            && 3 * |text| <= 4 * (|raw| + 2)
  {
    Base64.EncodedLength(ReadFileOutcome(limits, u, call).raw);
  }

  lemma StepKeepsQuota(wl: Limits, rl: Limits, u: Usage, t: Totals, call: Call)
    requires IsUnsaturated(wl) && IsUnsaturated(rl) && WithinQuota(wl, rl, u, t)
    ensures var (u', event) := Step(wl, rl, u, call); WithinQuota(wl, rl, u', Tally(t, event))
  {
    match call
    case Write(w) =>
      if WriteFileToRoots(wl, u, w).Ok? {
        WriteIsWithinFileLimit(wl, u, w);
      }
    case Read(r) =>
      if ReadFileOutcome(rl, u, r).Contents? { TextIsNotMuchLonger(rl, u, r); }
  }

  /** The quotas hold over every sequence of calls, whatever fails, grows or does not decode. */
  lemma {:induction false} QuotasHold(wl: Limits, rl: Limits, calls: seq<Call>)
    requires IsUnsaturated(wl) && IsUnsaturated(rl)
    ensures var (u, events) := Run(wl, rl, calls);
      && WithinQuota(wl, rl, u, TallyAll(events))
      && forall i :: 0 <= i < |events| && events[i].Wrote? && events[i].result.Ok? ==>
        |events[i].result.value| <= wl.maxFileBytes
  {
    if calls != [] {
      var before := calls[..|calls| - 1];
      var last := calls[|calls| - 1];
      QuotasHold(wl, rl, before);
      var (u, events) := Run(wl, rl, before);
      StepKeepsQuota(wl, rl, u, TallyAll(events), last);
      var event := Step(wl, rl, u, last).1;
      assert (events + [event])[..|events|] == events;
      if last.Write? && WriteFileToRoots(wl, u, last.w).Ok? {
        WriteIsWithinFileLimit(wl, u, last.w);
      }
    }
  }

  /** A read that pulls anything uses up quota, so no file can be re-read for ever. */
  lemma EveryPullIsCounted(limits: Limits, u: Usage, call: ReadCall)
    requires IsUnsaturated(limits) && u.bytesRead <= limits.maxTotalBytesPerRun + 1
    ensures !ReadFileOutcome(limits, u, call).Refused? ==>
      && AfterRead(limits, u, call).filesRead == u.filesRead + 1
      && AfterRead(limits, u, call).bytesRead == u.bytesRead + Pulled(ReadFileOutcome(limits, u, call))
    ensures u.filesRead >= limits.maxFilesPerRun || u.bytesRead > limits.maxTotalBytesPerRun ==>
            ReadFileOutcome(limits, u, call).Refused?
  {
  }

  /** Base64 text written with `writeFile` comes back unchanged from `readFile`. */
  lemma Base64RoundTrip(wl: Limits, u: Usage, w: WriteCall, rl: Limits, u': Usage, r: ReadCall)
    requires IsUnsaturated(rl)
    requires w.encoding == "base64" && WriteFileToRoots(wl, u, w).Ok?
    requires r.encoding == "base64" && r.reader.content == WriteFileToRoots(wl, u, w).value
    requires ReadFileOutcome(rl, u', r).Contents?
    ensures ReadFileOutcome(rl, u', r).text == w.data
  {
    Base64.EncodeInvertsDecode(w.data);
    var allowed := Min(rl.maxFileBytes, Base64.SaturatingSub(rl.maxTotalBytesPerRun, u'.bytesRead));
    var content := r.reader.content;
    assert ReadBounded(r.reader, allowed).1 == Some(false);
    assert ReadBounded(r.reader, allowed).0 == content;
  }
}
