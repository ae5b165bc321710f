/**
 * src/js_sandbox.rs: `write_tmp_name` and `write_atomic`. Any number of calls in one
 * process write into one directory, interleaved at every file operation, each of which
 * may fail.
 */
module AtomicWrite {
  import opened Wrappers
  import opened Utf8

  // Temporary names

  function Decimal(n: nat): (s: string)
    ensures s != "" && forall i :: 0 <= i < |s| ==> '0' <= s[i] <= '9'
  {
    (if n < 10 then "" else Decimal(n / 10)) + [Digit(n % 10)]
  }

  function Digit(d: nat): char
    requires d < 10
  {
    (d as char) + '0'
  }

  function TmpName(file: string, pid: nat, nanos: nat, seq_: nat): string {
    "." + file + "." + Decimal(pid) + "." + Decimal(nanos) + "." + Decimal(seq_) + ".tmp"
  }

  lemma DecimalParts(n: nat)
    ensures var s := Decimal(n); s[|s| - 1] == Digit(n % 10) && s[..|s| - 1] == if n < 10 then "" else Decimal(n / 10)
  {
  }

  function DecimalValue(s: string): int {
    if s == "" then 0 else 10 * DecimalValue(s[..|s| - 1]) + (s[|s| - 1] as int - '0' as int)
  }

  lemma {:induction false} DecimalReadsBack(n: nat)
    ensures DecimalValue(Decimal(n)) == n
  {
    DecimalParts(n);
    if n >= 10 { DecimalReadsBack(n / 10); }
  }

  lemma DecimalIsInjective(a: nat, b: nat)
    requires Decimal(a) == Decimal(b)
    ensures a == b
  {
    DecimalReadsBack(a);
    DecimalReadsBack(b);
  }

  predicate HasNoDot(s: string) {
    forall i :: 0 <= i < |s| ==> s[i] != '.'
  }

  /** The part after the last dot is determined. */
  lemma LastFieldIsDetermined(x: string, s: string, y: string, t: string)
    requires x + "." + s == y + "." + t && HasNoDot(s) && HasNoDot(t)
    ensures s == t
  {
    var w := x + "." + s;
    assert w[|x|] == '.' && w[|y|] == '.';
    assert forall i :: |x| < i < |w| ==> w[i] == s[i - |x| - 1];
    assert forall i :: |y| < i < |w| ==> w[i] == t[i - |y| - 1];
    assert |x| == |y|;
    assert s == w[|w| - |s|..] && t == w[|w| - |t|..];
  }

  /** The process-wide counter makes the names of all calls different. */
  lemma TmpNameDeterminesCounter(f: string, p: nat, n: nat, q: nat, g: string, o: nat, m: nat, r: nat)
    requires TmpName(f, p, n, q) == TmpName(g, o, m, r)
    ensures q == r
  {
    var x := "." + f + "." + Decimal(p) + "." + Decimal(n);
    var y := "." + g + "." + Decimal(o) + "." + Decimal(m);
    DropSuffix(x + "." + Decimal(q), y + "." + Decimal(r), ".tmp");
    LastFieldIsDetermined(x, Decimal(q), y, Decimal(r));
    DecimalIsInjective(q, r);
  }

  lemma DropSuffix(a: string, b: string, suffix: string)
    requires a + suffix == b + suffix
    ensures a == b
  {
    var w := a + suffix;
    assert a == w[..|w| - |suffix|] && b == w[..|w| - |suffix|];
  }

  // One call, run alone

  datatype Faults = Faults(open: bool, write: Option<nat>, rename: bool, unlink: bool)

  class Directory {
    var entries: map<string, seq<byte>>

    constructor (entries: map<string, seq<byte>>)
      ensures this.entries == entries
    {
      this.entries := entries;
    }

    /**
     * With `faults.write == Some(n)` the write stops after `n` bytes. A call leaves every
     * other name alone, with one exception: cleanup removes a file already bearing the
     * temporary name, although the exclusive create refused to open it.
     */
    method WriteAtomic(dest: string, payload: seq<byte>, tmp: string, faults: Faults) returns (ok: bool)
      requires tmp != dest
      modifies this
      ensures ok <==> tmp !in old(entries) && !faults.open && faults.write.None? && !faults.rename
      ensures ok ==> entries == old(entries)[dest := payload]
      ensures !ok && !faults.unlink ==> entries == old(entries) - {tmp}
      ensures !ok && faults.unlink ==> entries - {tmp} == old(entries) - {tmp}
      ensures !ok && faults.unlink && tmp in old(entries) ==> entries == old(entries)
      ensures !ok && faults.unlink && tmp in entries && tmp !in old(entries) ==> entries[tmp] <= payload
    {
      if faults.open || tmp in entries {
        if !faults.unlink { entries := entries - {tmp}; }
        return false;
      }
      entries := entries[tmp := []];
      var n := 0;
      while n < |payload|
        invariant n <= |payload|
        invariant entries == old(entries)[tmp := payload[..n]]
      {
        if faults.write == Some(n) { break; }
        assert payload[..n] + [payload[n]] == payload[..n + 1];
        entries := entries[tmp := entries[tmp] + [payload[n]]];
        n := n + 1;
      }
      if faults.write.Some? || faults.rename {
        if !faults.unlink { entries := entries - {tmp}; }
        return false;
      }
      assert payload[..n] == payload;
      entries := entries[dest := entries[tmp]] - {tmp};
      return true;
    }
  }

  // Many calls

  /** A process, and the destinations its calls write. */
  datatype Process = Process(pid: nat, dests: set<string>)

  /** Names the process might give its temporary files. */
  ghost predicate IsTmpName(proc: Process, name: string) {
    exists file, nanos, seq_ :: file in proc.dests && name == TmpName(file, proc.pid, nanos, seq_)
  }

  /** No destination is a name for a temporary file of another. */
  ghost predicate IsSeparate(proc: Process) {
    forall d :: d in proc.dests ==> !IsTmpName(proc, d)
  }

  datatype Pc =
    | Started
    | Named(tmp: string, seq_: nat)
    | Writing(tmp: string, seq_: nat, written: nat)
    | MustUnlink(tmp: string, seq_: nat)
    | Returned(ok: bool)
      /** Failed, and the cleanup failed too. */
    | ReturnedLeaking(tmp: string, seq_: nat)

  datatype Writer = Writer(dest: string, payload: seq<byte>, pc: Pc)

  datatype Entry = Entry(id: int, dest: string, payload: seq<byte>)

  /**
   * `drawn` lists who drew each counter value, `log` the renames so far. `owner` and
   * `visible` split the directory into the calls' temporary files and all others; `removed`
   * are files that were there before and that a refused create led to unlink.
   */
  datatype Shared = Shared(
    dir: map<string, seq<byte>>, drawn: seq<int>, log: seq<Entry>,
    owner: map<string, int>, visible: map<string, seq<byte>>, removed: set<string>)

  datatype State = State(shared: Shared, writers: map<int, Writer>)

  datatype Event =
    | Spawn(id: int, dest: string, payload: seq<byte>)
      /** `nanos` is the clock, `chunk` what one `write` accepts. */
    | Step(id: int, nanos: nat, chunk: nat, fails: bool)

  /** The exclusive create. */
  function Opened(s: Shared, id: int, tmp: string): Shared {
    s.(dir := s.dir[tmp := []], owner := s.owner[tmp := id])
  }

  function Appended(s: Shared, tmp: string, bytes: seq<byte>): Shared
    requires tmp in s.dir
  {
    s.(dir := s.dir[tmp := s.dir[tmp] + bytes])
  }

  function Renamed(s: Shared, id: int, w: Writer, tmp: string): Shared
    requires tmp in s.dir
  {
    s.(dir := s.dir[w.dest := s.dir[tmp]] - {tmp}, owner := s.owner - {tmp},
       visible := s.visible[w.dest := s.dir[tmp]], log := s.log + [Entry(id, w.dest, w.payload)])
  }

  function Unlinked(s: Shared, tmp: string): Shared {
    s.(dir := s.dir - {tmp}, owner := s.owner - {tmp}, visible := s.visible - {tmp},
       removed := if tmp in s.visible then s.removed + {tmp} else s.removed)
  }

  function Advance(s: Shared, proc: Process, id: int, w: Writer, nanos: nat, chunk: nat, fails: bool)
    : (Shared, Writer)
  {
    match w.pc
    case Started =>
      (s.(drawn := s.drawn + [id]), w.(pc := Named(TmpName(w.dest, proc.pid, nanos, |s.drawn|), |s.drawn|)))
    case Named(tmp, q) =>
      if fails || tmp in s.dir then (s, w.(pc := MustUnlink(tmp, q)))
      else (Opened(s, id, tmp), w.(pc := Writing(tmp, q, 0)))
    case Writing(tmp, q, n) =>
      if fails || tmp !in s.dir || n > |w.payload| then (s, w.(pc := MustUnlink(tmp, q)))
      else if n < |w.payload| then
        var m := if n + chunk < |w.payload| then n + chunk else |w.payload|;
        (Appended(s, tmp, w.payload[n..m]), w.(pc := Writing(tmp, q, m)))
      else (Renamed(s, id, w, tmp), w.(pc := Returned(true)))
    case MustUnlink(tmp, q) =>
      if fails then (s, w.(pc := if tmp in s.owner then ReturnedLeaking(tmp, q) else Returned(false)))
      else (Unlinked(s, tmp), w.(pc := Returned(false)))
    case Returned(_) => (s, w)
    case ReturnedLeaking(_, _) => (s, w)
  }

  predicate IsFresh(s: State, id: int) {
    id !in s.writers
  }

  function Next(s: State, proc: Process, e: Event): State {
    match e
    case Spawn(id, dest, payload) =>
      if IsFresh(s, id) && dest in proc.dests then s.(writers := s.writers[id := Writer(dest, payload, Started)]) else s
    case Step(id, nanos, chunk, fails) =>
      if id in s.writers then
        var (shared, w) := Advance(s.shared, proc, id, s.writers[id], nanos, chunk, fails);
        State(shared, s.writers[id := w])
      else s
  }

  /** The directory after the renames, by name. */
  function Published(dir: map<string, seq<byte>>, log: seq<Entry>): map<string, seq<byte>> {
    if log == [] then dir
    else Published(dir, log[..|log| - 1])[log[|log| - 1].dest := log[|log| - 1].payload]
  }

  // The invariant

  /** The name is one that a call has drawn, after `count` draws. */
  ghost predicate IsDrawn(count: nat, proc: Process, name: string) {
    exists file: string, nanos: nat, q: nat ::
      file in proc.dests && q < count && name == TmpName(file, proc.pid, nanos, q)
  }

  ghost predicate SharedInv(s: Shared, init: map<string, seq<byte>>, proc: Process) {
    && s.dir.Keys == s.visible.Keys + s.owner.Keys && s.visible.Keys !! s.owner.Keys
    && (forall name :: name in s.visible ==> s.dir[name] == s.visible[name])
    && (forall name :: name in s.visible && IsTmpName(proc, name) ==> name in init)
    && s.visible == Published(init - s.removed, s.log)
    && (forall k :: 0 <= k < |s.log| ==> !IsTmpName(proc, s.log[k].dest))
    && (forall name :: name in s.removed ==> name in init && IsDrawn(|s.drawn|, proc, name))
  }

  ghost predicate Drew(s: Shared, proc: Process, id: int, tmp: string, q: nat) {
    && q < |s.drawn| && s.drawn[q] == id
    && exists file, nanos :: file in proc.dests && tmp == TmpName(file, proc.pid, nanos, q)
  }

  ghost predicate IsLoggedOnce(s: Shared, id: int, w: Writer) {
    exists k :: 0 <= k < |s.log| && s.log[k] == Entry(id, w.dest, w.payload)
      && forall j :: 0 <= j < |s.log| && s.log[j].id == id ==> j == k
  }

  ghost predicate IsNotLogged(s: Shared, id: int) {
    forall k :: 0 <= k < |s.log| ==> s.log[k].id != id
  }

  predicate Owns(s: Shared, id: int, tmp: string) {
    tmp in s.owner && s.owner[tmp] == id
  }

  ghost predicate WriterInv(s: Shared, proc: Process, id: int, w: Writer) {
    && w.dest in proc.dests && !IsTmpName(proc, w.dest)
    && (if w.pc == Returned(true) then IsLoggedOnce(s, id, w) else IsNotLogged(s, id))
    && match w.pc
       case Started => true
       case Named(tmp, q) => Drew(s, proc, id, tmp, q) && tmp !in s.owner
       case Writing(tmp, q, n) =>
         Drew(s, proc, id, tmp, q) && Owns(s, id, tmp) && n <= |w.payload| && tmp in s.dir
           && s.dir[tmp] == w.payload[..n]
       case MustUnlink(tmp, q) => Drew(s, proc, id, tmp, q) && (tmp in s.owner ==> Owns(s, id, tmp))
       case Returned(_) => true
       case ReturnedLeaking(tmp, q) => Drew(s, proc, id, tmp, q) && Owns(s, id, tmp)
  }

  function TmpOf(w: Writer): Option<string> {
    match w.pc
    case Started => None
    case Named(tmp, _) => Some(tmp)
    case Writing(tmp, _, _) => Some(tmp)
    case MustUnlink(tmp, _) => Some(tmp)
    case Returned(_) => None
    case ReturnedLeaking(tmp, _) => Some(tmp)
  }

  /** Every temporary file belongs to a call that still has to remove it, or could not. */
  ghost predicate OwnersInv(s: State) {
    forall name :: name in s.shared.owner ==>
      s.shared.owner[name] in s.writers && TmpOf(s.writers[s.shared.owner[name]]) == Some(name)
  }

  /** Whatever was published is some call's complete payload, under its destination. */
  ghost predicate LogInv(s: State) {
    forall k :: 0 <= k < |s.shared.log| ==>
      var e := s.shared.log[k];
      e.id in s.writers && s.writers[e.id].dest == e.dest && s.writers[e.id].payload == e.payload
  }

  ghost predicate Inv(s: State, init: map<string, seq<byte>>, proc: Process) {
    && SharedInv(s.shared, init, proc)
    && OwnersInv(s)
    && LogInv(s)
    && forall id :: id in s.writers ==> WriterInv(s.shared, proc, id, s.writers[id])
  }

  // Each step keeps it

  lemma NamesDiffer(s: Shared, proc: Process, a: int, tmp: string, q: nat, b: int, other: string, r: nat)
    requires Drew(s, proc, a, tmp, q) && Drew(s, proc, b, other, r) && a != b
    ensures tmp != other
  {
    if tmp == other {
      var f, n :| tmp == TmpName(f, proc.pid, n, q);
      var g, m :| other == TmpName(g, proc.pid, m, r);
      TmpNameDeterminesCounter(f, proc.pid, n, q, g, proc.pid, m, r);
      assert false;
    }
  }

  lemma DrewIsTmpName(s: Shared, proc: Process, id: int, tmp: string, q: nat)
    requires Drew(s, proc, id, tmp, q)
    ensures IsTmpName(proc, tmp)
  {
  }

  lemma DrawnIsTmpName(count: nat, proc: Process, name: string)
    requires IsDrawn(count, proc, name)
    ensures IsTmpName(proc, name)
  {
    var file: string, nanos: nat, q: nat :|
      file in proc.dests && q < count && name == TmpName(file, proc.pid, nanos, q);
  }

  /** A new counter value gives a name no temporary file bears. */
  lemma NewNameIsUnused(s: State, init: map<string, seq<byte>>, proc: Process, id: int, nanos: nat)
    requires Inv(s, init, proc) && id in s.writers
    ensures TmpName(s.writers[id].dest, proc.pid, nanos, |s.shared.drawn|) !in s.shared.owner
  {
    var tmp := TmpName(s.writers[id].dest, proc.pid, nanos, |s.shared.drawn|);
    if tmp in s.shared.owner {
      var other := s.shared.owner[tmp];
      assert WriterInv(s.shared, proc, other, s.writers[other]);
      var q := s.writers[other].pc.seq_;
      assert Drew(s.shared, proc, other, tmp, q);
      var f, n :| tmp == TmpName(f, proc.pid, n, q);
      TmpNameDeterminesCounter(f, proc.pid, n, q, s.writers[id].dest, proc.pid, nanos, |s.shared.drawn|);
      assert false;
    }
  }

  lemma PublishedSnoc(init: map<string, seq<byte>>, log: seq<Entry>, e: Entry)
    ensures Published(init, log + [e]) == Published(init, log)[e.dest := e.payload]
  {
    assert (log + [e])[..|log|] == log;
  }

  /** What a call may change: its own temporary file, its destination, and its own entries. */
  ghost predicate LeavesOthers(s: Shared, after: Shared, id: int, own: Option<string>) {
    && s.drawn <= after.drawn && s.log <= after.log
    && (forall k :: |s.log| <= k < |after.log| ==> after.log[k].id == id)
    && (forall name :: Some(name) != own ==> (name in s.owner <==> name in after.owner))
    && (forall name :: Some(name) != own && name in s.owner ==>
          after.owner[name] == s.owner[name] && name in s.dir && name in after.dir && after.dir[name] == s.dir[name])
  }

  ghost predicate OwnedAreTmpNames(s: Shared, proc: Process) {
    forall name :: name in s.owner ==> IsTmpName(proc, name)
  }

  /** A step on `own` keeps the directory in order and the files of others untouched. */
  ghost predicate IsSafeStep(s: Shared, after: Shared, init: map<string, seq<byte>>, proc: Process, id: int,
      own: Option<string>) {
    SharedInv(after, init, proc) && LeavesOthers(s, after, id, own)
  }

  lemma OpenIsSafe(s: Shared, init: map<string, seq<byte>>, proc: Process, id: int, tmp: string)
    requires SharedInv(s, init, proc) && tmp !in s.dir && IsTmpName(proc, tmp)
    ensures IsSafeStep(s, Opened(s, id, tmp), init, proc, id, Some(tmp))
  {
  }

  lemma AppendIsSafe(s: Shared, init: map<string, seq<byte>>, proc: Process, id: int, tmp: string, bytes: seq<byte>)
    requires SharedInv(s, init, proc) && tmp in s.dir && tmp in s.owner
    ensures IsSafeStep(s, Appended(s, tmp, bytes), init, proc, id, Some(tmp))
  {
  }

  lemma {:induction false} RemoveBefore(dir: map<string, seq<byte>>, log: seq<Entry>, name: string)
    requires forall k :: 0 <= k < |log| ==> log[k].dest != name
    ensures Published(dir - {name}, log) == Published(dir, log) - {name}
  {
    if log != [] { RemoveBefore(dir, log[..|log| - 1], name); }
  }

  lemma UnlinkKeepsVisible(s: Shared, init: map<string, seq<byte>>, proc: Process, tmp: string)
    requires SharedInv(s, init, proc) && IsTmpName(proc, tmp)
    ensures Unlinked(s, tmp).visible == Published(init - Unlinked(s, tmp).removed, s.log)
  {
    if tmp in s.visible {
      RemoveBefore(init - s.removed, s.log, tmp);
      assert init - (s.removed + {tmp}) == (init - s.removed) - {tmp};
    } else {
      assert s.visible - {tmp} == s.visible;
    }
  }

  lemma UnlinkKeepsShared(s: Shared, init: map<string, seq<byte>>, proc: Process, tmp: string)
    requires SharedInv(s, init, proc) && IsTmpName(proc, tmp) && IsDrawn(|s.drawn|, proc, tmp)
    ensures SharedInv(Unlinked(s, tmp), init, proc)
  {
    UnlinkKeepsVisible(s, init, proc, tmp);
  }

  lemma UnlinkIsSafe(s: Shared, init: map<string, seq<byte>>, proc: Process, id: int, tmp: string, q: nat)
    requires SharedInv(s, init, proc) && Drew(s, proc, id, tmp, q)
    ensures IsSafeStep(s, Unlinked(s, tmp), init, proc, id, Some(tmp))
  {
    DrewIsTmpName(s, proc, id, tmp, q);
    UnlinkKeepsShared(s, init, proc, tmp);
  }

  lemma RenameKeepsShared(s: Shared, init: map<string, seq<byte>>, proc: Process, id: int, w: Writer, tmp: string)
    requires SharedInv(s, init, proc) && w.dest !in s.owner
    requires tmp in s.dir && tmp in s.owner && s.dir[tmp] == w.payload && !IsTmpName(proc, w.dest)
    ensures SharedInv(Renamed(s, id, w, tmp), init, proc)
  {
    PublishedSnoc(init - s.removed, s.log, Entry(id, w.dest, w.payload));
    assert w.dest != tmp;
  }

  lemma RenameIsSafe(s: Shared, init: map<string, seq<byte>>, proc: Process, id: int, w: Writer, tmp: string)
    requires SharedInv(s, init, proc) && OwnedAreTmpNames(s, proc)
    requires tmp in s.dir && tmp in s.owner && s.dir[tmp] == w.payload && !IsTmpName(proc, w.dest)
    ensures IsSafeStep(s, Renamed(s, id, w, tmp), init, proc, id, Some(tmp))
  {
    assert w.dest !in s.owner;
    RenameKeepsShared(s, init, proc, id, w, tmp);
  }

  lemma StayIsSafe(s: Shared, init: map<string, seq<byte>>, proc: Process, id: int, own: Option<string>)
    requires SharedInv(s, init, proc)
    ensures IsSafeStep(s, s, init, proc, id, own)
    ensures IsSafeStep(s, s.(drawn := s.drawn + [id]), init, proc, id, own)
  {
    forall name | name in s.removed ensures IsDrawn(|s.drawn + [id]|, proc, name) {
      assert IsDrawn(|s.drawn|, proc, name);
    }
  }

  lemma ChunkIsSafe(s: Shared, init: map<string, seq<byte>>, proc: Process, id: int, w: Writer, nanos: nat, chunk: nat)
    requires SharedInv(s, init, proc) && w.pc.Writing? && w.pc.written < |w.payload|
    requires w.pc.tmp in s.owner && w.pc.tmp in s.dir
    ensures IsSafeStep(s, Advance(s, proc, id, w, nanos, chunk, false).0, init, proc, id, Some(w.pc.tmp))
  {
    var n := w.pc.written;
    AppendIsSafe(s, init, proc, id, w.pc.tmp, w.payload[n..if n + chunk < |w.payload| then n + chunk else |w.payload|]);
  }

  lemma PublishIsSafe(s: Shared, init: map<string, seq<byte>>, proc: Process, id: int, w: Writer, nanos: nat,
      chunk: nat)
    requires SharedInv(s, init, proc) && OwnedAreTmpNames(s, proc) && w.pc.Writing? && w.pc.written == |w.payload|
    requires w.pc.tmp in s.owner && !IsTmpName(proc, w.dest)
    requires w.pc.tmp in s.dir && s.dir[w.pc.tmp] == w.payload[..w.pc.written]
    ensures IsSafeStep(s, Advance(s, proc, id, w, nanos, chunk, false).0, init, proc, id, Some(w.pc.tmp))
  {
    assert w.payload[..w.pc.written] == w.payload;
    RenameIsSafe(s, init, proc, id, w, w.pc.tmp);
  }

  /** No call touches a temporary file that is not its own. */
  lemma AdvanceLeavesOthers(s: Shared, init: map<string, seq<byte>>, proc: Process, id: int, w: Writer, nanos: nat,
      chunk: nat, fails: bool)
    requires SharedInv(s, init, proc) && WriterInv(s, proc, id, w) && OwnedAreTmpNames(s, proc)
    ensures IsSafeStep(s, Advance(s, proc, id, w, nanos, chunk, fails).0, init, proc, id, TmpOf(w))
  {
    StayIsSafe(s, init, proc, id, TmpOf(w));
    if w.pc.Writing? && !fails {
      DrewIsTmpName(s, proc, id, w.pc.tmp, w.pc.seq_);
      if w.pc.written < |w.payload| {
        ChunkIsSafe(s, init, proc, id, w, nanos, chunk);
      } else {
        PublishIsSafe(s, init, proc, id, w, nanos, chunk);
      }
    } else if w.pc.Named? && !fails && w.pc.tmp !in s.dir {
      DrewIsTmpName(s, proc, id, w.pc.tmp, w.pc.seq_);
      OpenIsSafe(s, init, proc, id, w.pc.tmp);
    } else if w.pc.MustUnlink? && !fails {
      UnlinkIsSafe(s, init, proc, id, w.pc.tmp, w.pc.seq_);
    }
  }

  lemma AdvanceKeepsWriter(s: Shared, init: map<string, seq<byte>>, proc: Process, id: int, w: Writer, nanos: nat,
      chunk: nat, fails: bool)
    requires SharedInv(s, init, proc) && WriterInv(s, proc, id, w)
    requires w.pc.Started? ==> TmpName(w.dest, proc.pid, nanos, |s.drawn|) !in s.owner
    ensures var (after, u) := Advance(s, proc, id, w, nanos, chunk, fails);
            WriterInv(after, proc, id, u)
  {
    var (after, u) := Advance(s, proc, id, w, nanos, chunk, fails);
    match w.pc
    case Writing(tmp, q, n) =>
      if !fails && n == |w.payload| {
        assert after.log[|s.log|] == Entry(id, w.dest, w.payload);
      }
    case _ =>
  }

  lemma OwnersHaveTmpNames(s: State, init: map<string, seq<byte>>, proc: Process)
    requires Inv(s, init, proc)
    ensures OwnedAreTmpNames(s.shared, proc)
  {
    forall name | name in s.shared.owner ensures IsTmpName(proc, name) {
      var id := s.shared.owner[name];
      assert WriterInv(s.shared, proc, id, s.writers[id]);
      DrewIsTmpName(s.shared, proc, id, name, s.writers[id].pc.seq_);
    }
  }

  lemma OthersKeepInv(s: Shared, after: Shared, proc: Process, id: int, w: Writer, other: int, v: Writer)
    requires LeavesOthers(s, after, id, TmpOf(w)) && other != id
    requires WriterInv(s, proc, id, w) && WriterInv(s, proc, other, v)
    ensures WriterInv(after, proc, other, v)
  {
    if TmpOf(w).Some? && TmpOf(v).Some? {
      NamesDiffer(s, proc, id, TmpOf(w).value, w.pc.seq_, other, TmpOf(v).value, v.pc.seq_);
    }
    if v.pc == Returned(true) {
      var k :| 0 <= k < |s.log| && s.log[k] == Entry(other, v.dest, v.payload)
        && forall j :: 0 <= j < |s.log| && s.log[j].id == other ==> j == k;
      assert after.log[k] == Entry(other, v.dest, v.payload);
    }
  }

  lemma StepKeepsOwners(s: State, init: map<string, seq<byte>>, proc: Process, id: int, nanos: nat, chunk: nat,
      fails: bool)
    requires Inv(s, init, proc) && id in s.writers
    ensures OwnersInv(Next(s, proc, Step(id, nanos, chunk, fails)))
  {
    assert WriterInv(s.shared, proc, id, s.writers[id]);
  }

  lemma StepKeepsLog(s: State, proc: Process, id: int, nanos: nat, chunk: nat, fails: bool)
    requires LogInv(s) && id in s.writers
    ensures LogInv(Next(s, proc, Step(id, nanos, chunk, fails)))
  {
    var w := s.writers[id];
    var u := Advance(s.shared, proc, id, w, nanos, chunk, fails).1;
    assert u.dest == w.dest && u.payload == w.payload;
  }

  lemma StepKeepsWriters(s: State, init: map<string, seq<byte>>, proc: Process, id: int, nanos: nat, chunk: nat,
      fails: bool)
    requires Inv(s, init, proc) && id in s.writers
    ensures var after := Next(s, proc, Step(id, nanos, chunk, fails));
            SharedInv(after.shared, init, proc) && forall k :: k in after.writers ==>
              WriterInv(after.shared, proc, k, after.writers[k])
  {
    var w := s.writers[id];
    var (after, u) := Advance(s.shared, proc, id, w, nanos, chunk, fails);
    NewNameIsUnused(s, init, proc, id, nanos);
    OwnersHaveTmpNames(s, init, proc);
    AdvanceKeepsWriter(s.shared, init, proc, id, w, nanos, chunk, fails);
    AdvanceLeavesOthers(s.shared, init, proc, id, w, nanos, chunk, fails);
    forall other | other in s.writers && other != id ensures WriterInv(after, proc, other, s.writers[other]) {
      OthersKeepInv(s.shared, after, proc, id, w, other, s.writers[other]);
    }
  }

  lemma StepKeepsInv(s: State, init: map<string, seq<byte>>, proc: Process, id: int, nanos: nat, chunk: nat,
      fails: bool)
    requires Inv(s, init, proc) && id in s.writers
    ensures Inv(Next(s, proc, Step(id, nanos, chunk, fails)), init, proc)
  {
    StepKeepsWriters(s, init, proc, id, nanos, chunk, fails);
    StepKeepsOwners(s, init, proc, id, nanos, chunk, fails);
    StepKeepsLog(s, proc, id, nanos, chunk, fails);
  }

  lemma NextKeepsInv(s: State, init: map<string, seq<byte>>, proc: Process, e: Event)
    requires Inv(s, init, proc) && IsSeparate(proc)
    ensures Inv(Next(s, proc, e), init, proc)
  {
    match e
    case Step(id, nanos, chunk, fails) => if id in s.writers { StepKeepsInv(s, init, proc, id, nanos, chunk, fails); }
    case Spawn(id, dest, payload) =>
      if id !in s.writers {
        assert forall k :: 0 <= k < |s.shared.log| ==> s.shared.log[k].id in s.writers;
      }
  }

  function Run(s: State, proc: Process, events: seq<Event>): State
    decreases |events|
  {
    if events == [] then s else Run(Next(s, proc, events[0]), proc, events[1..])
  }

  function Initial(dir: map<string, seq<byte>>): State {
    State(Shared(dir, [], [], map[], dir, {}), map[])
  }

  lemma {:induction false} RunKeepsInv(s: State, init: map<string, seq<byte>>, proc: Process, events: seq<Event>)
    requires Inv(s, init, proc) && IsSeparate(proc)
    ensures Inv(Run(s, proc, events), init, proc)
    decreases |events|
  {
    if events != [] {
      NextKeepsInv(s, init, proc, events[0]);
      RunKeepsInv(Next(s, proc, events[0]), init, proc, events[1..]);
    }
  }

  // Main results

  lemma ReachedInv(dir: map<string, seq<byte>>, proc: Process, events: seq<Event>)
    requires IsSeparate(proc)
    ensures Inv(Run(Initial(dir), proc, events), dir, proc)
  {
    assert Published(dir - {}, []) == dir;
    RunKeepsInv(Initial(dir), dir, proc, events);
  }

  /** `log[k]` is the last rename onto `name`. */
  ghost predicate IsLastOnto(log: seq<Entry>, name: string, k: int) {
    0 <= k < |log| && log[k].dest == name && forall j :: k < j < |log| ==> log[j].dest != name
  }

  lemma {:induction false} NeverPublished(dir: map<string, seq<byte>>, log: seq<Entry>, name: string)
    requires forall k :: 0 <= k < |log| ==> log[k].dest != name
    ensures (name in Published(dir, log) <==> name in dir) && (name in dir ==> Published(dir, log)[name] == dir[name])
  {
    if log != [] { NeverPublished(dir, log[..|log| - 1], name); }
  }

  lemma {:induction false} LastOntoIsVisible(dir: map<string, seq<byte>>, log: seq<Entry>, name: string, k: int)
    requires IsLastOnto(log, name, k)
    ensures name in Published(dir, log) && Published(dir, log)[name] == log[k].payload
  {
    if k < |log| - 1 {
      LastOntoIsVisible(dir, log[..|log| - 1], name, k);
    }
  }

  lemma {:induction false} FindLastOnto(log: seq<Entry>, name: string) returns (k: nat)
    ensures k < |log| ==> IsLastOnto(log, name, k)
    ensures k >= |log| ==> forall j :: 0 <= j < |log| ==> log[j].dest != name
  {
    if log == [] || log[|log| - 1].dest == name {
      k := if log == [] then 0 else |log| - 1;
    } else {
      k := FindLastOnto(log[..|log| - 1], name);
      if k >= |log| - 1 { k := |log|; }
    }
  }

  /** The name is as it was, or holds the payload of the last rename onto it. */
  lemma PublishedIsInitialOrLast(dir: map<string, seq<byte>>, log: seq<Entry>, name: string)
    ensures
      || ((name in Published(dir, log) <==> name in dir) && (name in dir ==> Published(dir, log)[name] == dir[name])
          && forall j :: 0 <= j < |log| ==> log[j].dest != name)
      || (name in Published(dir, log)
          && exists k :: IsLastOnto(log, name, k) && Published(dir, log)[name] == log[k].payload)
  {
    var k := FindLastOnto(log, name);
    if k < |log| {
      LastOntoIsVisible(dir, log, name, k);
    } else {
      NeverPublished(dir, log, name);
    }
  }

  /** Some call writes exactly `payload` to `name`. */
  ghost predicate IsPayloadOfSome(s: State, name: string, payload: seq<byte>) {
    exists id :: id in s.writers && s.writers[id].dest == name && s.writers[id].payload == payload
  }

  /** The name is as it was, or holds the complete payload of one call that writes to it. */
  ghost predicate IsIntact(dir: map<string, seq<byte>>, s: State, name: string) {
    || ((name in s.shared.dir <==> name in dir) && (name in dir ==> s.shared.dir[name] == dir[name]))
    || (name in s.shared.dir && IsPayloadOfSome(s, name, s.shared.dir[name]))
  }

  /**
   * At every moment a destination holds what it held at first, or the complete payload of
   * one call that was renamed onto it; never a mixture or a part.
   */
  lemma DestinationIsInitialOrOneCompletePayload(dir: map<string, seq<byte>>, proc: Process, events: seq<Event>,
      name: string)
    requires IsSeparate(proc) && !IsTmpName(proc, name)
    ensures IsIntact(dir, Run(Initial(dir), proc, events), name)
  {
    var s := Run(Initial(dir), proc, events);
    ReachedInv(dir, proc, events);
    OwnersHaveTmpNames(s, dir, proc);
    var left := dir - s.shared.removed;
    if IsDrawn(|s.shared.drawn|, proc, name) { DrawnIsTmpName(|s.shared.drawn|, proc, name); }
    PublishedIsInitialOrLast(left, s.shared.log, name);
    if k :| IsLastOnto(s.shared.log, name, k) && Published(left, s.shared.log)[name] == s.shared.log[k].payload {
      assert s.shared.log[k].id in s.writers;
    }
  }

  /** A call that reports success published its payload once; one that reports failure never did. */
  lemma CallPublishesOnceOrNever(dir: map<string, seq<byte>>, proc: Process, events: seq<Event>, id: int)
    requires IsSeparate(proc)
    requires id in Run(Initial(dir), proc, events).writers
    ensures var s := Run(Initial(dir), proc, events);
            var w := s.writers[id];
            && (w.pc == Returned(true) ==> IsLoggedOnce(s.shared, id, w))
            && (w.pc == Returned(false) || w.pc.ReturnedLeaking? ==> IsNotLogged(s.shared, id))
            && (w.pc.Named? && w.pc.tmp in s.shared.dir ==> w.pc.tmp in dir && s.shared.dir[w.pc.tmp] == dir[w.pc.tmp])
  {
    var s := Run(Initial(dir), proc, events);
    ReachedInv(dir, proc, events);
    var w := s.writers[id];
    assert WriterInv(s.shared, proc, id, w);
    if w.pc.Named? {
      DrewIsTmpName(s.shared, proc, id, w.pc.tmp, w.pc.seq_);
      NeverPublished(dir - s.shared.removed, s.shared.log, w.pc.tmp);
    }
  }

  /** No call is under way, and no cleanup failed. */
  ghost predicate HaveAllReturned(s: State) {
    forall id :: id in s.writers ==> s.writers[id].pc.Returned?
  }

  lemma OwnerHasNotReturned(s: State, name: string)
    requires OwnersInv(s) && name in s.shared.owner
    ensures !HaveAllReturned(s)
  {
    var id := s.shared.owner[name];
    assert TmpOf(s.writers[id]) == Some(name);
    assert !s.writers[id].pc.Returned?;
  }

  lemma NoOwners(s: State)
    requires OwnersInv(s) && HaveAllReturned(s)
    ensures s.shared.owner.Keys == {}
  {
    if name :| name in s.shared.owner { OwnerHasNotReturned(s, name); }
  }

  lemma DirectoryIsVisible(s: Shared, init: map<string, seq<byte>>, proc: Process)
    requires SharedInv(s, init, proc) && s.owner.Keys == {}
    ensures s.dir == Published(init - s.removed, s.log)
  {
    assert s.dir.Keys == s.visible.Keys;
    assert s.dir == s.visible;
  }

  /**
   * When every call has returned and every cleanup succeeded, no temporary file of theirs is
   * left: the directory is the initial one less the files removed, with the renames applied
   * in order.
   */
  lemma NoTemporaryFileIsLeft(dir: map<string, seq<byte>>, proc: Process, events: seq<Event>)
    requires IsSeparate(proc)
    requires HaveAllReturned(Run(Initial(dir), proc, events))
    ensures var s := Run(Initial(dir), proc, events); s.shared.dir == Published(dir - s.shared.removed, s.shared.log)
  {
    var s := Run(Initial(dir), proc, events);
    ReachedInv(dir, proc, events);
    NoOwners(s);
    DirectoryIsVisible(s.shared, dir, proc);
  }

  /**
   * Of the files that were there before, only those bearing a name some call has drawn are
   * ever removed; every other file of temporary form stays as it was.
   */
  lemma OnlyDrawnNamesAreRemoved(dir: map<string, seq<byte>>, proc: Process, events: seq<Event>, name: string)
    requires IsSeparate(proc) && name in dir && IsTmpName(proc, name)
    ensures var s := Run(Initial(dir), proc, events);
            && (name in s.shared.removed ==> IsDrawn(|s.shared.drawn|, proc, name))
            && (name !in s.shared.removed ==> name in s.shared.dir && s.shared.dir[name] == dir[name])
  {
    var s := Run(Initial(dir), proc, events);
    ReachedInv(dir, proc, events);
    NeverPublished(dir - s.shared.removed, s.shared.log, name);
  }

  /** Any other file is the temporary file of a call still under way or whose cleanup failed. */
  lemma EveryStrayFileBelongsToAFailedCall(dir: map<string, seq<byte>>, proc: Process, events: seq<Event>, name: string)
    requires IsSeparate(proc)
    requires var s := Run(Initial(dir), proc, events);
             name in s.shared.dir && name !in Published(dir - s.shared.removed, s.shared.log)
    ensures var s := Run(Initial(dir), proc, events);
            exists id :: id in s.writers && TmpOf(s.writers[id]) == Some(name) && !s.writers[id].pc.Named?
  {
    var s := Run(Initial(dir), proc, events);
    ReachedInv(dir, proc, events);
    var id := s.shared.owner[name];
    assert WriterInv(s.shared, proc, id, s.writers[id]);
    assert TmpOf(s.writers[id]) == Some(name);
  }

  // Which destinations are safe together

  /** A temporary name is longer than the name it is made for. */
  lemma OneDestinationIsSeparate(pid: nat, dest: string)
    ensures IsSeparate(Process(pid, {dest}))
  {
    forall nanos, seq_ ensures |TmpName(dest, pid, nanos, seq_)| > |dest| {
    }
  }

  /** Whatever the name, calls that write to one destination leave it intact. */
  lemma OneDestinationIsIntact(dir: map<string, seq<byte>>, pid: nat, dest: string, events: seq<Event>)
    ensures IsIntact(dir, Run(Initial(dir), Process(pid, {dest}), events), dest)
  {
    OneDestinationIsSeparate(pid, dest);
    DestinationIsInitialOrOneCompletePayload(dir, Process(pid, {dest}), events, dest);
  }

  lemma {:induction false} RunConcat(s: State, proc: Process, a: seq<Event>, b: seq<Event>)
    ensures Run(s, proc, a + b) == Run(Run(s, proc, a), proc, b)
    decreases |a|
  {
    if a == [] {
      assert a + b == b;
    } else {
      assert (a + b)[1..] == a[1..] + b;
      RunConcat(Next(s, proc, a[0]), proc, a[1..], b);
    }
  }

  ghost predicate Reaches(proc: Process, s: State) {
    exists events :: Run(Initial(map[]), proc, events) == s
  }

  lemma ReachesNext(proc: Process, s: State, e: Event, t: State)
    requires Reaches(proc, s) && Next(s, proc, e) == t
    ensures Reaches(proc, t)
  {
    var events :| Run(Initial(map[]), proc, events) == s;
    RunConcat(Initial(map[]), proc, events, [e]);
    assert Run(s, proc, [e]) == Run(t, proc, []);
    assert Run(Initial(map[]), proc, events + [e]) == t;
  }

  /** Call `id` takes a step from `w` to `u`, among calls `others`. */
  lemma ReachesStep(proc: Process, s: Shared, others: map<int, Writer>, id: int, w: Writer, nanos: nat, chunk: nat,
      after: Shared, u: Writer)
    requires Reaches(proc, State(s, others[id := w]))
    requires Advance(s, proc, id, w, nanos, chunk, false).0 == after
            && Advance(s, proc, id, w, nanos, chunk, false).1 == u
    ensures Reaches(proc, State(after, others[id := u]))
  {
    assert others[id := w][id := u] == others[id := u];
    ReachesNext(proc, State(s, others[id := w]), Step(id, nanos, chunk, false), State(after, others[id := u]));
  }

  lemma ReachesSpawn(proc: Process, s: Shared, others: map<int, Writer>, id: int, dest: string, payload: seq<byte>)
    requires Reaches(proc, State(s, others)) && id !in others && dest in proc.dests
    ensures Reaches(proc, State(s, others[id := Writer(dest, payload, Started)]))
  {
    ReachesNext(proc, State(s, others), Spawn(id, dest, payload),
      State(s, others[id := Writer(dest, payload, Started)]));
  }

  function OnlyDrawn(drawn: seq<int>): Shared {
    Shared(map[], drawn, [], map[], map[], {})
  }

  /** Calls numbered below `q` that have written nothing, and all mean to write `x` to `f`. */
  ghost predicate AreIdle(calls: map<int, Writer>, q: nat, f: string, x: seq<byte>) {
    forall id :: id in calls ==> id < q && calls[id].dest == f && calls[id].payload == x
  }

  /** Calls that only draw their names advance the counter to any value. */
  lemma {:induction false} CounterReaches(proc: Process, f: string, x: seq<byte>, q: nat)
    returns (calls: map<int, Writer>, drawn: seq<int>)
    requires f in proc.dests
    ensures |drawn| == q && AreIdle(calls, q, f, x) && Reaches(proc, State(OnlyDrawn(drawn), calls))
  {
    if q == 0 {
      calls, drawn := map[], [];
      assert Run(Initial(map[]), proc, []) == State(OnlyDrawn([]), map[]);
    } else {
      var before, ids := CounterReaches(proc, f, x, q - 1);
      var id := q - 1;
      var named := Writer(f, x, Named(TmpName(f, proc.pid, 0, q - 1), q - 1));
      ReachesSpawn(proc, OnlyDrawn(ids), before, id, f, x);
      ReachesStep(proc, OnlyDrawn(ids), before, id, Writer(f, x, Started), 0, 0, OnlyDrawn(ids + [id]), named);
      calls, drawn := before[id := named], ids + [id];
    }
  }

  /** The directory, and who owns what, after call `id` has written all of `payload` to `tmp`. */
  function Written(s: Shared, id: int, tmp: string, payload: seq<byte>): Shared {
    s.(dir := s.dir[tmp := payload], owner := s.owner[tmp := id], drawn := s.drawn + [id])
  }

  /** A new call draws a free name, creates the file and writes all of its payload. */
  lemma ReachesWritten(proc: Process, s: Shared, others: map<int, Writer>, id: int, dest: string, payload: seq<byte>,
      nanos: nat)
    requires Reaches(proc, State(s, others)) && id !in others && dest in proc.dests && payload != []
    requires TmpName(dest, proc.pid, nanos, |s.drawn|) !in s.dir
    ensures var tmp := TmpName(dest, proc.pid, nanos, |s.drawn|);
            var w := Writer(dest, payload, Writing(tmp, |s.drawn|, |payload|));
            Reaches(proc, State(Written(s, id, tmp, payload), others[id := w]))
  {
    var q := |s.drawn|;
    var tmp := TmpName(dest, proc.pid, nanos, q);
    var drew := s.(drawn := s.drawn + [id]);
    var created := Opened(drew, id, tmp);
    ReachesSpawn(proc, s, others, id, dest, payload);
    ReachesStep(proc, s, others, id, Writer(dest, payload, Started), nanos, 0, drew,
      Writer(dest, payload, Named(tmp, q)));
    ReachesStep(proc, drew, others, id, Writer(dest, payload, Named(tmp, q)), nanos, 0, created,
      Writer(dest, payload, Writing(tmp, q, 0)));
    assert created.dir[tmp] + payload[0..|payload|] == payload;
    assert created.dir[tmp := payload] == Written(s, id, tmp, payload).dir;
    ReachesStep(proc, created, others, id, Writer(dest, payload, Writing(tmp, q, 0)), nanos, |payload|,
                Written(s, id, tmp, payload), Writer(dest, payload, Writing(tmp, q, |payload|)));
  }

  /** `f` holds `y`, though call `q` reported success in writing `x` to it, and no call wrote `y` to it. */
  ghost predicate HoldsForeignPayload(s: State, q: nat, f: string, x: seq<byte>, y: seq<byte>) {
    && s.shared.dir == map[f := y]
    && q in s.writers && s.writers[q] == Writer(f, x, Returned(true))
    && forall id :: id in s.writers && s.writers[id].dest == f ==> s.writers[id].payload == x
  }

  /** Call `q` renames what call `q + 1` has put in the place of its temporary file `d`. */
  lemma RenameForeign(proc: Process, s: Shared, idle: map<int, Writer>, q: nat, d: string, f: string, x: seq<byte>,
      y: seq<byte>)
    requires AreIdle(idle, q, f, x) && s.dir == map[d := y] && d != f
    requires Reaches(proc, State(s, idle[q + 1 := Writer(d, y, Returned(true))][q := Writer(f, x, Writing(d, q, |x|))]))
    ensures exists t :: Reaches(proc, t) && HoldsForeignPayload(t, q, f, x, y)
  {
    var others := idle[q + 1 := Writer(d, y, Returned(true))];
    var first := Writer(f, x, Writing(d, q, |x|));
    var after := Renamed(s, q, first, d);
    ReachesStep(proc, s, others, q, first, 0, 0, after, Writer(f, x, Returned(true)));
    assert after.dir == map[f := y];
    assert HoldsForeignPayload(State(after, others[q := Writer(f, x, Returned(true))]), q, f, x, y);
  }

  /** Call `q + 1` writes to the temporary name `d` of call `q`. */
  lemma ReachesOverwritten(proc: Process, f: string, nanos: nat, q: nat, x: seq<byte>, y: seq<byte>)
    returns (idle: map<int, Writer>, after: Shared)
    requires f in proc.dests && TmpName(f, proc.pid, nanos, q) in proc.dests && x != [] && y != []
    ensures var d := TmpName(f, proc.pid, nanos, q);
            && AreIdle(idle, q, f, x) && after.dir == map[d := y]
            && Reaches(proc, State(after, idle[q + 1 := Writer(d, y, Returned(true))][q := Writer(f, x,
              Writing(d, q, |x|))]))
  {
    var d := TmpName(f, proc.pid, nanos, q);
    var t := TmpName(d, proc.pid, nanos, q + 1);
    assert |t| > |d|;
    var drawn: seq<int>;
    idle, drawn := CounterReaches(proc, f, x, q);
    ReachesWritten(proc, OnlyDrawn(drawn), idle, q, f, x, nanos);
    var one := Written(OnlyDrawn(drawn), q, d, x);
    var first, second := Writer(f, x, Writing(d, q, |x|)), Writer(d, y, Writing(t, q + 1, |y|));
    ReachesWritten(proc, one, idle[q := first], q + 1, d, y, nanos);
    var two := Written(one, q + 1, t, y);
    after := Renamed(two, q + 1, second, t);
    ReachesStep(proc, two, idle[q := first], q + 1, second, nanos, 0, after, Writer(d, y, Returned(true)));
    assert after.dir == map[d := y];
    assert idle[q + 1 := Writer(d, y, Returned(true))][q := first]
      == idle[q := first][q + 1 := Writer(d, y, Returned(true))];
  }

  /**
   * A destination that is a temporary name of another breaks the protocol, whatever the
   * counter value that gives it.
   */
  lemma TmpFormDestinationSwapsPayloads(proc: Process, f: string, nanos: nat, q: nat, x: seq<byte>, y: seq<byte>)
    requires f in proc.dests && TmpName(f, proc.pid, nanos, q) in proc.dests && x != [] && y != []
    ensures exists s :: Reaches(proc, s) && HoldsForeignPayload(s, q, f, x, y)
  {
    var d := TmpName(f, proc.pid, nanos, q);
    assert |d| > |f|;
    var idle, after := ReachesOverwritten(proc, f, nanos, q, x, y);
    RenameForeign(proc, after, idle, q, d, f, x, y);
  }

  /** Every run from every directory leaves every destination intact. */
  ghost predicate KeepsDestinations(proc: Process) {
    forall dir, events, name :: name in proc.dests ==> IsIntact(dir, Run(Initial(dir), proc, events), name)
  }

  /** A process keeps its destinations exactly when none is a temporary name of another. */
  lemma DestinationsAreKeptExactly(proc: Process)
    ensures KeepsDestinations(proc) <==> IsSeparate(proc)
  {
    if IsSeparate(proc) {
      forall dir, events, name | name in proc.dests ensures IsIntact(dir, Run(Initial(dir), proc, events), name) {
        DestinationIsInitialOrOneCompletePayload(dir, proc, events, name);
      }
    } else {
      SomeDestinationIsSwapped(proc);
    }
  }

  lemma SomeDestinationIsSwapped(proc: Process)
    requires !IsSeparate(proc)
    ensures !KeepsDestinations(proc)
  {
    var d :| d in proc.dests && IsTmpName(proc, d);
    var f, nanos, q :| f in proc.dests && d == TmpName(f, proc.pid, nanos, q);
    TmpFormDestinationSwapsPayloads(proc, f, nanos, q, [0], [1]);
    var s :| Reaches(proc, s) && HoldsForeignPayload(s, q, f, [0], [1]);
    var events :| Run(Initial(map[]), proc, events) == s;
    assert !IsIntact(map[], Run(Initial(map[]), proc, events), f);
  }
}
