/**
 * src/profile_registry.rs `rebuild` and src/server.rs: swapping the profile table under
 * its lock, ticking the changed paths after the lock is dropped, and event streams whose
 * client reads its profile again on every tick.
 */
module ProfileReload {
  import opened Wrappers
  import opened Ascii

  datatype ProfileConfig = ProfileConfig(path: string, endpoints: seq<string>, jsExecution: bool, toonOutput: bool)

  datatype Context = Context(allowed: set<string>, jsExecution: bool, toonOutput: bool)

  type Table = map<string, Context>

  /** What a client of a profile can tell: its endpoints, and whether scripts are offered. */
  datatype Surface = Surface(allowed: set<string>, jsExecution: bool)

  /** The broadcast channel keeps this many messages for a slow receiver. */
  const CAPACITY := 16

  function ContextOf(p: ProfileConfig): Context {
    Context((set e | e in p.endpoints), p.jsExecution, p.toonOutput)
  }

  /** Keyed by lower-cased path; a later profile replaces an earlier one of the same path. */
  function TableOf(profiles: seq<ProfileConfig>): Table {
    if profiles == [] then map[]
    else
      var last := profiles[|profiles| - 1];
      TableOf(profiles[..|profiles| - 1])[Lower(last.path) := ContextOf(last)]
  }

  function SurfaceAt(t: Table, path: string): Option<Surface> {
    if path in t then Some(Surface(t[path].allowed, t[path].jsExecution)) else None
  }

  ghost predicate HasNoDuplicates(s: seq<string>) {
    forall i, j :: 0 <= i < j < |s| ==> s[i] != s[j]
  }

  /** Each path whose surface changed, once, in any order. */
  ghost predicate AreTicksFor(ticks: seq<string>, before: Table, after: Table) {
    HasNoDuplicates(ticks) && forall path :: path in ticks <==> SurfaceAt(before, path) != SurfaceAt(after, path)
  }

  // One rebuild

  /** Compares the tables entry by entry; the map's iteration order is arbitrary. */
  method Diff(before: Table, after: Table) returns (changed: seq<string>)
    ensures AreTicksFor(changed, before, after)
  {
    changed := [];
    var todo := after.Keys;
    while todo != {}
      invariant todo <= after.Keys
      invariant HasNoDuplicates(changed)
      invariant forall path :: path in changed <==>
        path in after && path !in todo && SurfaceAt(before, path) != SurfaceAt(after, path)
    {
      var path :| path in todo;
      todo := todo - {path};
      var dirty := path !in before || before[path].allowed != after[path].allowed
        || before[path].jsExecution != after[path].jsExecution;
      if dirty {
        changed := changed + [path];
      }
    }
    var former := before.Keys;
    while former != {}
      invariant former <= before.Keys
      invariant HasNoDuplicates(changed)
      invariant forall path :: path in changed <==>
        (path in after || (path in before && path !in former)) && SurfaceAt(before, path) != SurfaceAt(after, path)
    {
      var path :| path in former;
      former := former - {path};
      if path !in after {
        changed := changed + [path];
      }
    }
  }

  class Registry {
    var profiles: Table
    /** Every tick sent on the profile channel. */
    var sent: seq<string>

    constructor ()
      ensures profiles == map[] && sent == []
    {
      profiles, sent := map[], [];
    }

    method Rebuild(config: seq<ProfileConfig>)
      modifies this
      ensures profiles == TableOf(config)
      ensures old(sent) <= sent && AreTicksFor(sent[|old(sent)|..], old(profiles), profiles)
    {
      var table: Table := map[];
      for i := 0 to |config|
        invariant table == TableOf(config[..i])
        invariant profiles == old(profiles) && sent == old(sent)
      {
        assert config[..i + 1][..i] == config[..i];
        table := table[Lower(config[i].path) := ContextOf(config[i])];
      }
      assert config[..|config|] == config;
      var changed := Diff(profiles, table);
      profiles := table;
      for i := 0 to |changed|
        invariant profiles == table
        invariant sent == old(sent) + changed[..i]
      {
        sent := sent + [changed[i]];
      }
      assert changed[..|changed|] == changed && sent[|old(sent)|..] == changed;
    }
  }

  /** The lookup key of a path is decided by the last profile of that path, whatever its case. */
  lemma {:induction false} LastProfileOfAPathWins(profiles: seq<ProfileConfig>, path: string)
    ensures path in TableOf(profiles) <==> exists i :: 0 <= i < |profiles| && Lower(profiles[i].path) == path
    ensures path in TableOf(profiles) ==>
      exists i :: 0 <= i < |profiles| && Lower(profiles[i].path) == path
        && TableOf(profiles)[path] == ContextOf(profiles[i])
        && forall j :: i < j < |profiles| ==> Lower(profiles[j].path) != path
  {
    if profiles != [] {
      var before, last := profiles[..|profiles| - 1], profiles[|profiles| - 1];
      LastProfileOfAPathWins(before, path);
      assert Lower(profiles[|profiles| - 1].path) == Lower(last.path);
      if Lower(last.path) != path && path in TableOf(before) {
        var i :| 0 <= i < |before| && Lower(before[i].path) == path && TableOf(before)[path] == ContextOf(before[i])
          && forall j :: i < j < |before| ==> Lower(before[j].path) != path;
        assert profiles[i] == before[i];
        assert forall j :: i < j < |profiles| ==> Lower(profiles[j].path) != path;
      }
      if j :| 0 <= j < |profiles| && Lower(profiles[j].path) == path {
        assert j < |before| ==> before[j] == profiles[j];
      }
    }
  }

  predicate SameButToon(p: ProfileConfig, q: ProfileConfig) {
    p.path == q.path && p.endpoints == q.endpoints && p.jsExecution == q.jsExecution
  }

  lemma {:induction false} SurfaceIgnoresToon(a: seq<ProfileConfig>, b: seq<ProfileConfig>, path: string)
    requires |a| == |b| && forall i :: 0 <= i < |a| ==> SameButToon(a[i], b[i])
    ensures SurfaceAt(TableOf(a), path) == SurfaceAt(TableOf(b), path)
  {
    if a != [] {
      SurfaceIgnoresToon(a[..|a| - 1], b[..|b| - 1], path);
      assert SameButToon(a[|a| - 1], b[|b| - 1]);
    }
  }

  /** Rebuilding from the same profiles, or with only output formats changed, ticks nothing. */
  lemma UnchangedProfilesTickNothing(a: seq<ProfileConfig>, b: seq<ProfileConfig>, ticks: seq<string>)
    requires |a| == |b| && forall i :: 0 <= i < |a| ==> SameButToon(a[i], b[i])
    requires AreTicksFor(ticks, TableOf(a), TableOf(b))
    ensures ticks == []
  {
    assert ticks != [] ==> ticks[0] in ticks;
    if ticks != [] {
      SurfaceIgnoresToon(a, b, ticks[0]);
    }
  }

  // Many rebuilds and streams

  /**
   * A stream of one profile: its place in the channel, tick frames the client has yet to act on, and what it last
   * read.
   */
  datatype Stream = Stream(path: string, next: nat, frames: nat, view: Option<Surface>)

  /** `unsent` holds, for each rebuild past its swap, the ticks it has still to send. */
  datatype State = State(table: Table, unsent: map<int, seq<string>>, log: seq<string>, streams: map<int, Stream>)

  datatype Event =
    | Swap(id: int, config: seq<ProfileConfig>, ticks: seq<string>)
    | Send(id: int)
    | Open(stream: int, path: string)
    | Receive(stream: int)
    | Reread(stream: int)

  predicate HasLagged(log: seq<string>, next: nat) {
    |log| > next + CAPACITY
  }

  /** `recv`: on overflow the receiver is moved to the oldest message kept, and forwards. */
  function AfterReceive(log: seq<string>, s: Stream): Stream {
    if HasLagged(log, s.next) then s.(next := |log| - CAPACITY, frames := s.frames + 1)
    else if s.next < |log| then s.(next := s.next + 1, frames := s.frames + (if log[s.next] == s.path then 1 else 0))
    else s
  }

  ghost function Next(s: State, e: Event): State {
    match e
    case Swap(id, config, ticks) =>
      if id !in s.unsent && AreTicksFor(ticks, s.table, TableOf(config))
      then s.(table := TableOf(config), unsent := s.unsent[id := ticks]) else s
    case Send(id) =>
      if id in s.unsent && s.unsent[id] != []
      then s.(log := s.log + [s.unsent[id][0]], unsent := s.unsent[id := s.unsent[id][1..]]) else s
    case Open(k, path) =>
      if k !in s.streams then s.(streams := s.streams[k := Stream(Lower(path), |s.log|, 1, None)]) else s
    case Receive(k) => if k in s.streams then s.(streams := s.streams[k := AfterReceive(s.log, s.streams[k])]) else s
    case Reread(k) =>
      if k in s.streams && s.streams[k].frames > 0
      then
        var t := s.streams[k];
        s.(streams := s.streams[k := t.(frames := t.frames - 1, view := SurfaceAt(s.table, t.path))])
      else s
  }

  ghost predicate IsUnsent(s: State, path: string) {
    exists id :: id in s.unsent && path in s.unsent[id]
  }

  predicate IsQueued(log: seq<string>, t: Stream) {
    HasLagged(log, t.next) || (t.next <= |log| && t.path in log[t.next..])
  }

  /** A tick for the stream is outstanding somewhere between the swap and the client's reading. */
  ghost predicate IsTickPending(s: State, t: Stream) {
    t.frames > 0 || IsQueued(s.log, t) || IsUnsent(s, t.path)
  }

  ghost predicate StreamInv(s: State, t: Stream) {
    t.next <= |s.log| && (t.view != SurfaceAt(s.table, t.path) ==> IsTickPending(s, t))
  }

  ghost predicate Inv(s: State) {
    forall k :: k in s.streams ==> StreamInv(s, s.streams[k])
  }

  lemma SwapKeepsStreamInv(s: State, id: int, config: seq<ProfileConfig>, ticks: seq<string>, t: Stream)
    requires StreamInv(s, t) && id !in s.unsent && AreTicksFor(ticks, s.table, TableOf(config))
    ensures StreamInv(Next(s, Swap(id, config, ticks)), t)
  {
    var after := Next(s, Swap(id, config, ticks));
    if SurfaceAt(s.table, t.path) != SurfaceAt(after.table, t.path) {
      assert t.path in after.unsent[id];
    } else if IsUnsent(s, t.path) {
      var other :| other in s.unsent && t.path in s.unsent[other];
      assert other in after.unsent && t.path in after.unsent[other];
    }
  }

  lemma SendKeepsStreamInv(s: State, id: int, t: Stream)
    requires StreamInv(s, t) && id in s.unsent && s.unsent[id] != []
    ensures StreamInv(Next(s, Send(id)), t)
  {
    var after := Next(s, Send(id));
    var first := s.unsent[id][0];
    assert after.log[t.next..] == s.log[t.next..] + [first];
    if IsUnsent(s, t.path) {
      var other :| other in s.unsent && t.path in s.unsent[other];
      if other == id {
        assert t.path == first || t.path in after.unsent[id];
      } else {
        assert t.path in after.unsent[other];
      }
    }
  }

  lemma ReceiveKeepsStreamInv(s: State, t: Stream)
    requires StreamInv(s, t)
    ensures StreamInv(s, AfterReceive(s.log, t))
  {
    if t.next < |s.log| {
      assert s.log[t.next..] == [s.log[t.next]] + s.log[t.next + 1..];
    }
  }

  lemma NextKeepsInv(s: State, e: Event)
    requires Inv(s)
    ensures Inv(Next(s, e))
  {
    var after := Next(s, e);
    forall k | k in after.streams ensures StreamInv(after, after.streams[k]) {
      if k in s.streams {
        assert StreamInv(s, s.streams[k]);
        match e
        case Swap(id, config, ticks) =>
          if after != s { SwapKeepsStreamInv(s, id, config, ticks, s.streams[k]); }
        case Send(id) =>
          if after != s { SendKeepsStreamInv(s, id, s.streams[k]); }
        case Receive(_) => ReceiveKeepsStreamInv(s, s.streams[k]);
        case _ =>
      }
    }
  }

  ghost function Run(s: State, events: seq<Event>): State
    decreases |events|
  {
    if events == [] then s else Run(Next(s, events[0]), events[1..])
  }

  function Initial(config: seq<ProfileConfig>): State {
    State(TableOf(config), map[], [], map[])
  }

  lemma {:induction false} RunKeepsInv(s: State, events: seq<Event>)
    requires Inv(s)
    ensures Inv(Run(s, events))
    decreases |events|
  {
    if events != [] {
      NextKeepsInv(s, events[0]);
      RunKeepsInv(Next(s, events[0]), events[1..]);
    }
  }

  // Main results

  /** In every run, a stream whose view differs from the registry still has a tick coming. */
  lemma StaleStreamHasTickPending(config: seq<ProfileConfig>, events: seq<Event>, k: int)
    requires var s := Run(Initial(config), events);
             k in s.streams && s.streams[k].view != SurfaceAt(s.table, s.streams[k].path)
    ensures var s := Run(Initial(config), events); IsTickPending(s, s.streams[k])
  {
    RunKeepsInv(Initial(config), events);
  }

  ghost predicate IsQuiet(s: State) {
    && (forall id :: id in s.unsent ==> s.unsent[id] == [])
    && forall k :: k in s.streams ==> s.streams[k].next == |s.log| && s.streams[k].frames == 0
  }

  /** Once rebuilds have sent their ticks and clients acted on them, every view is current. */
  lemma QuietStreamsAreCurrent(config: seq<ProfileConfig>, events: seq<Event>, k: int)
    requires IsQuiet(Run(Initial(config), events)) && k in Run(Initial(config), events).streams
    ensures var s := Run(Initial(config), events);
            s.streams[k].view == SurfaceAt(s.table, s.streams[k].path)
  {
    var s := Run(Initial(config), events);
    RunKeepsInv(Initial(config), events);
    assert StreamInv(s, s.streams[k]);
  }

  ghost predicate IsAllSent(s: State) {
    forall id :: id in s.unsent ==> s.unsent[id] == []
  }

  ghost predicate IsCurrent(s: State, k: int) {
    k in s.streams && s.streams[k].view == SurfaceAt(s.table, s.streams[k].path)
  }

  /** A stale stream becomes current by receiving and re-reading alone, once rebuilds have sent their ticks. */
  lemma {:induction false} StaleStreamCatchesUp(s: State, k: int) returns (events: seq<Event>)
    requires Inv(s) && k in s.streams && IsAllSent(s)
    ensures forall i :: 0 <= i < |events| ==> events[i] == Receive(k) || events[i] == Reread(k)
    ensures IsCurrent(Run(s, events), k) && Run(s, events).table == s.table
    decreases |s.log| - s.streams[k].next
  {
    var t := s.streams[k];
    assert StreamInv(s, t);
    events := [];
    if t.frames > 0 {
      events := [Reread(k)];
      assert Run(s, events) == Run(Next(s, Reread(k)), []);
    } else if t.view != SurfaceAt(s.table, t.path) {
      var n := Next(s, Receive(k));
      NextKeepsInv(s, Receive(k));
      var rest := StaleStreamCatchesUp(n, k);
      events := [Receive(k)] + rest;
      assert events[0] == Receive(k) && events[1..] == rest;
    }
  }
}
