/**
 * src/js_sandbox.rs and src/registry.rs: the generation-stamped search index, the
 * guarded catalogue cache under it, and any number of `search_tools` calls and
 * catalogue changes interleaved at every lock acquisition and await.
 */
module SearchCache {
  import opened Wrappers
  import opened SearchRanking
  import opened Tools

  type Catalog = seq<ToolInfo>

  /** Where one `search_tools` call stands; `gen` is the generation it read first. */
  datatype Call =
    | Started
    | ReadGeneration(gen: nat)
    | CacheEmpty(gen: nat)
    | Refreshing(gen: nat, before: nat)
    | Rebuilt(gen: nat, before: nat, catalog: nat)
    | HasCatalog(gen: nat, catalog: nat)
    | Missed(gen: nat, catalog: nat)
      /** Scores the documents of version `docs` against the tools of version `catalog`. */
    | Done(gen: nat, docs: nat, catalog: nat, settled: bool)

  /** A cached value is the number of the catalogue version it was built from. */
  datatype Shared = Shared(
    versions: seq<Catalog>,       // every catalogue the adapters have offered; the last is live
    bumpedAt: seq<nat>,           // for each generation, the version that was live when it began
    catalogCache: Option<nat>,
    searchCache: Option<(nat, nat)>)

  datatype State = State(shared: Shared, calls: map<int, Call>)

  datatype Event =
    | Mutate(catalog: Catalog)    // adapters change; not yet announced
    | Invalidate                  // clear the catalogue cache and bump, under its write lock
    | Spawn(id: int)
    | Step(id: int)

  function Generation(s: Shared): int {
    |s.bumpedAt| - 1
  }

  function Live(s: Shared): int {
    |s.versions| - 1
  }

  function Initial(catalog: Catalog): State {
    State(Shared([catalog], [0], None, None), map[])
  }

  /** The generation is current and every change has been announced. */
  predicate Settled(s: Shared, gen: nat) {
    gen == Generation(s) && gen < |s.bumpedAt| && s.bumpedAt[gen] == Live(s)
  }

  /** The stamp equals the call's generation and the lengths agree. */
  predicate Hits(s: Shared, gen: nat, catalog: nat)
    requires SharedInv(s) && catalog < |s.versions|
  {
    match s.searchCache
    case Some((stamp, docs)) => stamp == gen && |s.versions[docs]| == |s.versions[catalog]|
    case None => false
  }

  function Advance(s: Shared, c: Call): (Shared, Call)
    requires SharedInv(s) && CallInv(s, c)
  {
    match c
    case Started => (s, ReadGeneration(Generation(s)))
    case ReadGeneration(g) => (s, if s.catalogCache.Some? then HasCatalog(g, s.catalogCache.value) else CacheEmpty(g))
    case CacheEmpty(g) => (s, Refreshing(g, Generation(s)))
    case Refreshing(g, before) => (s, Rebuilt(g, before, Live(s)))
    case Rebuilt(g, before, v) =>
      (if before == Generation(s) then s.(catalogCache := Some(v)) else s, HasCatalog(g, v))
    case HasCatalog(g, v) =>
      (s, if Hits(s, g, v) then Done(g, s.searchCache.value.1, v, Settled(s, g)) else Missed(g, v))
    case Missed(g, v) => (s.(searchCache := Some((g, v))), Done(g, v, v, Settled(s, g)))
    case Done(_, _, _, _) => (s, c)
  }

  function Next(s: State, e: Event): State
    requires Inv(s)
  {
    match e
    case Mutate(catalog) => s.(shared := s.shared.(versions := s.shared.versions + [catalog]))
    case Invalidate => s.(shared := s.shared.(catalogCache := None, bumpedAt := s.shared.bumpedAt + [Live(s.shared)]))
    case Spawn(id) => if id in s.calls then s else s.(calls := s.calls[id := Started])
    case Step(id) =>
      if id !in s.calls then s
      else
        var (shared, c) := Advance(s.shared, s.calls[id]);
        State(shared, s.calls[id := c])
  }

  /** Version `v` exists and is no older than the start of generation `gen`. */
  predicate BuiltSince(s: Shared, gen: nat, v: nat) {
    gen < |s.bumpedAt| && s.bumpedAt[gen] <= v < |s.versions|
  }

  predicate CallInv(s: Shared, c: Call) {
    match c
    case Started => true
    case ReadGeneration(g) => g <= Generation(s)
    case CacheEmpty(g) => g <= Generation(s)
    case Refreshing(g, before) => g <= before <= Generation(s)
    case Rebuilt(g, before, v) => BuiltSince(s, g, v) && BuiltSince(s, before, v)
    case HasCatalog(g, v) => BuiltSince(s, g, v)
    case Missed(g, v) => BuiltSince(s, g, v)
    case Done(g, d, v, settled) =>
      BuiltSince(s, g, d) && BuiltSince(s, g, v) && |s.versions[d]| == |s.versions[v]| && (settled ==> d == v)
  }

  predicate IsMonotone(a: seq<nat>) {
    forall g, h :: 0 <= g <= h < |a| ==> a[g] <= a[h]
  }

  predicate SharedInv(s: Shared) {
    && |s.versions| > 0 && |s.bumpedAt| > 0
    && IsMonotone(s.bumpedAt) && s.bumpedAt[Generation(s)] < |s.versions|
    && (s.catalogCache.Some? ==> BuiltSince(s, Generation(s), s.catalogCache.value))
    && (s.searchCache.Some? ==> BuiltSince(s, s.searchCache.value.0, s.searchCache.value.1))
  }

  predicate Inv(s: State) {
    SharedInv(s.shared) && forall id :: id in s.calls ==> CallInv(s.shared, s.calls[id])
  }

  lemma AdvanceKeepsInv(s: Shared, c: Call)
    requires SharedInv(s) && CallInv(s, c)
    ensures var (t, d) := Advance(s, c);
            SharedInv(t) && CallInv(t, d) && t.versions == s.versions && t.bumpedAt == s.bumpedAt
  {
  }

  /** More versions and more generations leave a call's invariant alone. */
  lemma CallInvIsStable(s: Shared, t: Shared, c: Call)
    requires CallInv(s, c) && s.versions <= t.versions && s.bumpedAt <= t.bumpedAt
    ensures CallInv(t, c)
  {
  }

  lemma InvalidateKeepsSharedInv(s: Shared)
    requires SharedInv(s)
    ensures SharedInv(s.(catalogCache := None, bumpedAt := s.bumpedAt + [Live(s)]))
  {
    assert forall g :: 0 <= g < |s.bumpedAt| ==> s.bumpedAt[g] <= s.bumpedAt[Generation(s)];
  }

  lemma NextKeepsSharedInv(s: State, e: Event)
    requires Inv(s)
    ensures SharedInv(Next(s, e).shared)
    ensures s.shared.versions <= Next(s, e).shared.versions && s.shared.bumpedAt <= Next(s, e).shared.bumpedAt
  {
    if e.Step? && e.id in s.calls { AdvanceKeepsInv(s.shared, s.calls[e.id]); }
    if e.Invalidate? { InvalidateKeepsSharedInv(s.shared); }
  }

  lemma NextKeepsInv(s: State, e: Event)
    requires Inv(s)
    ensures Inv(Next(s, e))
    ensures s.shared.versions <= Next(s, e).shared.versions && s.shared.bumpedAt <= Next(s, e).shared.bumpedAt
  {
    NextKeepsSharedInv(s, e);
    var t := Next(s, e);
    forall id | id in t.calls ensures CallInv(t.shared, t.calls[id]) {
      if e == Step(id) {
        AdvanceKeepsInv(s.shared, s.calls[id]);
      } else if id in s.calls {
        CallInvIsStable(s.shared, t.shared, s.calls[id]);
      }
    }
  }

  /** The state a run reaches. */
  function Run(s: State, events: seq<Event>): (t: State)
    requires Inv(s)
    ensures Inv(t)
    decreases |events|
  {
    if events == [] then s
    else
      NextKeepsInv(s, events[0]);
      Run(Next(s, events[0]), events[1..])
  }

  // Main results

  /** A cached index was built from a catalogue of its stamped generation or a later one. */
  lemma CachedIndexIsNoOlderThanItsStamp(catalog: Catalog, events: seq<Event>)
    ensures var s := Run(Initial(catalog), events).shared;
            s.searchCache.Some? ==>
              && s.searchCache.value.0 <= Generation(s)
              && s.bumpedAt[s.searchCache.value.0] <= s.searchCache.value.1 <= Live(s)
  {
    assert Inv(Run(Initial(catalog), events));
  }

  function Scores(s: State, c: Call, dist: Distance, docOf: ToolInfo -> ToolDoc, query: seq<string>,
      limit: Option<nat>): seq<ToolInfo>
    requires Inv(s) && CallInv(s.shared, c) && c.Done?
  {
    Page(dist, query, Index(docOf, s.shared.versions[c.docs]), s.shared.versions[c.catalog], limit)
  }

  /** What the call would return had it indexed the catalogue it holds. */
  function ScoresWithoutCache(s: State, c: Call, dist: Distance, docOf: ToolInfo -> ToolDoc, query: seq<string>,
      limit: Option<nat>): seq<ToolInfo>
    requires Inv(s) && CallInv(s.shared, c) && c.Done?
  {
    Page(dist, query, Index(docOf, s.shared.versions[c.catalog]), s.shared.versions[c.catalog], limit)
  }

  /**
   * A call that found its generation current and every change announced when it looked
   * the index up returns what it would have returned without the cache, in every run.
   */
  lemma SettledCallIsExact(catalog: Catalog, events: seq<Event>, id: int, dist: Distance, docOf: ToolInfo -> ToolDoc,
      query: seq<string>, limit: Option<nat>)
    requires var s := Run(Initial(catalog), events);
             id in s.calls && s.calls[id].Done? && s.calls[id].settled
    ensures var s := Run(Initial(catalog), events);
            Scores(s, s.calls[id], dist, docOf, query, limit)
              == ScoresWithoutCache(s, s.calls[id], dist, docOf, query, limit)
  {
    var s := Run(Initial(catalog), events);
    assert CallInv(s.shared, s.calls[id]);
  }

  /** Every search the call could be making returns what it would without the cache. */
  ghost predicate IsExact(s: State, c: Call, dist: Distance, docOf: ToolInfo -> ToolDoc)
    requires Inv(s) && CallInv(s.shared, c) && c.Done?
  {
    forall query, limit :: Scores(s, c, dist, docOf, query, limit)
      == ScoresWithoutCache(s, c, dist, docOf, query, limit)
  }

  lemma ExactWhenIndexServes(s: State, c: Call, dist: Distance, docOf: ToolInfo -> ToolDoc)
    requires Inv(s) && CallInv(s.shared, c) && c.Done?
    ensures IsExact(s, c, dist, docOf) <==>
            IndexServes(dist, docOf, s.shared.versions[c.docs], s.shared.versions[c.catalog])
  {
    var a, b := s.shared.versions[c.docs], s.shared.versions[c.catalog];
    forall query, limit
      ensures PagesAgree(a, b, dist, docOf, query, limit) <==>
              Scores(s, c, dist, docOf, query, limit) == ScoresWithoutCache(s, c, dist, docOf, query, limit)
    {
    }
  }

  /**
   * A finished call is exact for every search exactly when its index serves its tools: so it is
   * when the documents are equal, and is not when some query matches just one of the two at
   * some place.
   */
  lemma CallIsExactExactly(catalog: Catalog, events: seq<Event>, id: int, dist: Distance, docOf: ToolInfo -> ToolDoc)
    requires var s := Run(Initial(catalog), events); id in s.calls && s.calls[id].Done?
    ensures var s := Run(Initial(catalog), events);
            var c := s.calls[id];
            && c.docs < |s.shared.versions| && c.catalog < |s.shared.versions|
            && var a, b := s.shared.versions[c.docs], s.shared.versions[c.catalog];
               && (IsExact(s, c, dist, docOf) <==> IndexServes(dist, docOf, a, b))
               && (Index(docOf, a) == Index(docOf, b) ==> IsExact(s, c, dist, docOf))
               && (|b| <= MAX_LIMIT && HasDistinctTools(b) && MatchDifferently(dist, docOf, a, b) ==>
                     !IsExact(s, c, dist, docOf))
  {
    var s := Run(Initial(catalog), events);
    var c := s.calls[id];
    assert CallInv(s.shared, c);
    ExactWhenIndexServes(s, c, dist, docOf);
    IndexServesWhen(dist, docOf, s.shared.versions[c.docs], s.shared.versions[c.catalog]);
  }

  lemma {:induction false} RunConcat(s: State, a: seq<Event>, b: seq<Event>)
    requires Inv(s)
    ensures Run(s, a + b) == Run(Run(s, a), b)
    decreases |a|
  {
    if a == [] {
      assert a + b == b;
    } else {
      NextKeepsInv(s, a[0]);
      assert (a + b)[1..] == a[1..] + b;
      RunConcat(Next(s, a[0]), a[1..], b);
    }
  }

  predicate HasGeneration(c: Call) {
    !c.Started?
  }

  /** A call reads its generation once, and reads the current one. */
  lemma GenerationIsReadOnce(s: State, e: Event, id: int)
    requires Inv(s)
    requires id in Next(s, e).calls && HasGeneration(Next(s, e).calls[id])
    ensures Next(s, e).calls[id].gen ==
            if id in s.calls && HasGeneration(s.calls[id]) then s.calls[id].gen else Generation(s.shared)
  {
  }

  lemma {:induction false} LaterCallsReadLaterGenerations(s: State, events: seq<Event>, id: int, floor: nat)
    requires Inv(s) && floor <= Generation(s.shared)
    requires id in s.calls && HasGeneration(s.calls[id]) ==> s.calls[id].gen >= floor
    ensures var t := Run(s, events);
            && s.shared.bumpedAt <= t.shared.bumpedAt && s.shared.versions <= t.shared.versions
            && (id in t.calls && HasGeneration(t.calls[id]) ==> t.calls[id].gen >= floor)
    decreases |events|
  {
    if events != [] {
      var n := Next(s, events[0]);
      NextKeepsInv(s, events[0]);
      if id in n.calls && HasGeneration(n.calls[id]) { GenerationIsReadOnce(s, events[0], id); }
      LaterCallsReadLaterGenerations(n, events[1..], id, floor);
    }
  }

  /**
   * A call begun after an announcement scores documents and tools at least as new as
   * the catalogue that was announced, whatever happened before and happens meanwhile.
   */
  lemma NoCallServesWhatWasInvalidated(catalog: Catalog, before: seq<Event>, after: seq<Event>, id: int)
    requires id !in Run(Initial(catalog), before).calls
    requires var t := Run(Initial(catalog), before + [Invalidate] + after); id in t.calls && t.calls[id].Done?
    ensures var s := Run(Initial(catalog), before);
            var t := Run(Initial(catalog), before + [Invalidate] + after);
            && s.shared.versions <= t.shared.versions
            && Live(s.shared) <= t.calls[id].docs < |t.shared.versions|
            && Live(s.shared) <= t.calls[id].catalog < |t.shared.versions|
            && |t.shared.versions[t.calls[id].docs]| == |t.shared.versions[t.calls[id].catalog]|
  {
    var s := Run(Initial(catalog), before);
    RunConcat(Initial(catalog), before, [Invalidate]);
    RunConcat(Initial(catalog), before + [Invalidate], after);
    var bumped := Next(s, Invalidate);
    NextKeepsInv(s, Invalidate);
    assert Run(s, [Invalidate]) == Run(bumped, []);
    LaterCallsReadLaterGenerations(bumped, after, id, Generation(bumped.shared));
    var t := Run(bumped, after);
    assert CallInv(t.shared, t.calls[id]);
    assert t.shared.bumpedAt[Generation(bumped.shared)] <= t.shared.bumpedAt[t.calls[id].gen];
  }
}
