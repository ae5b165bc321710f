/**
 * src/js_sandbox.rs and src/registry.rs: the runs of the generation-stamped search index in
 * which a call scores the documents of one catalogue against the tools of another, and exactly
 * when it then returns a wrong page.
 */
module SearchMixture {
  import opened Wrappers
  import opened Tools
  import opened SearchRanking
  import opened SearchCache

  ghost predicate Reaches(s: State, t: State) {
    Inv(s) && Inv(t) && exists events :: Run(s, events) == t
  }

  lemma ReachesNext(s: State, t: State, e: Event, u: State)
    requires Reaches(s, t) && Next(t, e) == u
    ensures Reaches(s, u)
  {
    var events :| Run(s, events) == t;
    RunConcat(s, events, [e]);
    NextKeepsInv(t, e);
    assert Run(t, [e]) == Run(Next(t, e), []);
    assert Run(s, events + [e]) == Next(t, e);
  }

  /** A state with call 0 at `c0` and call 1 at `c1`. */
  function Two(x: Shared, c0: Call, c1: Call): State {
    State(x, map[0 := c0, 1 := c1])
  }

  lemma Reaches0(s: State, x: Shared, c: Call, y: Shared, d: Call)
    requires Reaches(s, State(x, map[0 := c]))
    requires SharedInv(x) && CallInv(x, c) && Advance(x, c) == (y, d)
    ensures Reaches(s, State(y, map[0 := d]))
  {
    assert map[0 := c][0 := d] == map[0 := d];
    ReachesNext(s, State(x, map[0 := c]), Step(0), State(y, map[0 := d]));
  }

  lemma ReachesFirst(s: State, x: Shared, c: Call, other: Call, y: Shared, d: Call)
    requires Reaches(s, Two(x, c, other))
    requires SharedInv(x) && CallInv(x, c) && Advance(x, c) == (y, d)
    ensures Reaches(s, Two(y, d, other))
  {
    assert map[0 := c, 1 := other][0 := d] == map[0 := d, 1 := other];
    ReachesNext(s, Two(x, c, other), Step(0), Two(y, d, other));
  }

  lemma ReachesSecond(s: State, x: Shared, other: Call, c: Call, y: Shared, d: Call)
    requires Reaches(s, Two(x, other, c))
    requires SharedInv(x) && CallInv(x, c) && Advance(x, c) == (y, d)
    ensures Reaches(s, Two(y, other, d))
  {
    assert map[0 := other, 1 := c][1 := d] == map[0 := other, 1 := d];
    ReachesNext(s, Two(x, other, c), Step(1), Two(y, other, d));
  }

  lemma ReachesSpawn(s: State, x: Shared, c: Call)
    requires Reaches(s, State(x, map[0 := c]))
    ensures Reaches(s, Two(x, c, Started))
  {
    assert map[0 := c][1 := Started] == map[0 := c, 1 := Started];
    ReachesNext(s, State(x, map[0 := c]), Spawn(1), Two(x, c, Started));
  }

  lemma ReachesRebuilt(a: Catalog)
    ensures Reaches(Initial(a), State(Initial(a).shared, map[0 := Rebuilt(0, 0, 0)]))
  {
    var s := Initial(a);
    var x := s.shared;
    assert Run(s, []) == s;
    ReachesNext(s, s, Spawn(0), State(x, map[0 := Started]));
    Reaches0(s, x, Started, x, ReadGeneration(0));
    Reaches0(s, x, ReadGeneration(0), x, CacheEmpty(0));
    Reaches0(s, x, CacheEmpty(0), x, Refreshing(0, 0));
    Reaches0(s, x, Refreshing(0, 0), x, Rebuilt(0, 0, 0));
  }

  lemma ReachesFilled(a: Catalog)
    ensures Reaches(Initial(a), State(Shared([a], [0], Some(0), Some((0, 0))), map[0 := Done(0, 0, 0, true)]))
  {
    var s := Initial(a);
    ReachesRebuilt(a);
    var x := Shared([a], [0], Some(0), None);
    Reaches0(s, s.shared, Rebuilt(0, 0, 0), x, HasCatalog(0, 0));
    Reaches0(s, x, HasCatalog(0, 0), x, Missed(0, 0));
    Reaches0(s, x, Missed(0, 0), x.(searchCache := Some((0, 0))), Done(0, 0, 0, true));
  }

  /** Some search of the finished call returns another page than it would without the cache. */
  ghost predicate ServesWrongResult(s: State, id: int, dist: Distance, docOf: ToolInfo -> ToolDoc) {
    && Inv(s) && id in s.calls && CallInv(s.shared, s.calls[id]) && s.calls[id].Done?
    && !IsExact(s, s.calls[id], dist, docOf)
  }

  /** Wherever the index of `a` does not serve the tools of `b`, the call returns a wrong result. */
  ghost predicate ServesWrongly(s: State, id: int, a: Catalog, b: Catalog) {
    forall dist: Distance, docOf: ToolInfo -> ToolDoc ::
      !IndexServes(dist, docOf, a, b) ==> ServesWrongResult(s, id, dist, docOf)
  }

  lemma MixtureIsWrong(s: State, id: int)
    requires Inv(s) && id in s.calls && s.calls[id].Done?
    ensures var c := s.calls[id];
            CallInv(s.shared, c) && ServesWrongly(s, id, s.shared.versions[c.docs], s.shared.versions[c.catalog])
  {
    var c := s.calls[id];
    assert CallInv(s.shared, c);
    var a, b := s.shared.versions[c.docs], s.shared.versions[c.catalog];
    forall dist: Distance, docOf: ToolInfo -> ToolDoc | !IndexServes(dist, docOf, a, b)
      ensures ServesWrongResult(s, id, dist, docOf)
    {
      ExactWhenIndexServes(s, c, dist, docOf);
    }
  }

  lemma SecondAwaitsCatalog(a: Catalog, b: Catalog)
    ensures Reaches(Initial(a), Two(Shared([a, b], [0, 1], None, Some((0, 0))), Done(0, 0, 0, true), ReadGeneration(0)))
  {
    var s := Initial(a);
    var c := Done(0, 0, 0, true);
    var x := Shared([a], [0], Some(0), Some((0, 0)));
    ReachesFilled(a);
    ReachesSpawn(s, x, c);
    ReachesSecond(s, x, c, Started, x, ReadGeneration(0));
    var y := x.(versions := [a, b]);
    ReachesNext(s, Two(x, c, ReadGeneration(0)), Mutate(b), Two(y, c, ReadGeneration(0)));
    var z := Shared([a, b], [0, 1], None, Some((0, 0)));
    ReachesNext(s, Two(y, c, ReadGeneration(0)), Invalidate, Two(z, c, ReadGeneration(0)));
  }

  /**
   * When the generation moves between a call's reading it and its lookup, the call can
   * score the documents of any catalogue against the tools of any other of that length.
   */
  lemma BumpBeforeLookupMixesCatalogs(a: Catalog, b: Catalog)
    requires |a| == |b|
    ensures exists t :: Reaches(Initial(a), t) && t.shared.versions == [a, b] && Generation(t.shared) == 1
              && 1 in t.calls && t.calls[1] == Done(0, 0, 1, false)
              && ServesWrongly(t, 1, a, b)
  {
    var s := Initial(a);
    var c := Done(0, 0, 0, true);
    var z := Shared([a, b], [0, 1], None, Some((0, 0)));
    SecondAwaitsCatalog(a, b);
    ReachesSecond(s, z, c, ReadGeneration(0), z, CacheEmpty(0));
    ReachesSecond(s, z, c, CacheEmpty(0), z, Refreshing(0, 1));
    ReachesSecond(s, z, c, Refreshing(0, 1), z, Rebuilt(0, 1, 1));
    var w := z.(catalogCache := Some(1));
    ReachesSecond(s, z, c, Rebuilt(0, 1, 1), w, HasCatalog(0, 1));
    ReachesSecond(s, w, c, HasCatalog(0, 1), w, Done(0, 0, 1, false));
    MixtureIsWrong(Two(w, c, Done(0, 0, 1, false)), 1);
  }

  /** Two calls that found the catalogue cache empty, before anything has changed. */
  lemma ReachesBothRefreshing(a: Catalog)
    ensures Reaches(Initial(a), Two(Initial(a).shared, Refreshing(0, 0), Refreshing(0, 0)))
  {
    var s := Initial(a);
    var x := s.shared;
    assert Run(s, []) == s;
    ReachesNext(s, s, Spawn(0), State(x, map[0 := Started]));
    Reaches0(s, x, Started, x, ReadGeneration(0));
    Reaches0(s, x, ReadGeneration(0), x, CacheEmpty(0));
    Reaches0(s, x, CacheEmpty(0), x, Refreshing(0, 0));
    var c := Refreshing(0, 0);
    ReachesSpawn(s, x, c);
    ReachesSecond(s, x, c, Started, x, ReadGeneration(0));
    ReachesSecond(s, x, c, ReadGeneration(0), x, CacheEmpty(0));
    ReachesSecond(s, x, c, CacheEmpty(0), x, Refreshing(0, 0));
  }

  /** The first `k` catalogues have been offered, nothing was announced and nothing is cached. */
  function Unannounced(vs: seq<Catalog>, k: nat): Shared
    requires k <= |vs|
  {
    Shared(vs[..k], [0], None, None)
  }

  /** Adapters go on changing while both calls wait. */
  lemma {:induction false} ReachesLaterVersion(s: State, vs: seq<Catalog>, k: nat, m: nat, c0: Call, c1: Call)
    requires 0 < k <= m <= |vs| && Reaches(s, Two(Unannounced(vs, k), c0, c1))
    ensures Reaches(s, Two(Unannounced(vs, m), c0, c1))
    decreases m
  {
    if k < m {
      ReachesLaterVersion(s, vs, k, m - 1, c0, c1);
      assert vs[..m] == vs[..m - 1] + [vs[m - 1]];
      ReachesNext(s, Two(Unannounced(vs, m - 1), c0, c1), Mutate(vs[m - 1]), Two(Unannounced(vs, m), c0, c1));
    }
  }

  /** Call 0 rebuilds the catalogue at version `i`, and later call 1 at version `j`. */
  lemma FirstRebuildsEarlier(vs: seq<Catalog>, i: nat, j: nat)
    requires i < j < |vs|
    ensures Reaches(Initial(vs[0]), Two(Unannounced(vs, |vs|), Rebuilt(0, 0, i), Rebuilt(0, 0, j)))
  {
    var s := Initial(vs[0]);
    var c := Refreshing(0, 0);
    ReachesBothRefreshing(vs[0]);
    assert Unannounced(vs, 1) == s.shared;
    ReachesLaterVersion(s, vs, 1, i + 1, c, c);
    ReachesFirst(s, Unannounced(vs, i + 1), c, c, Unannounced(vs, i + 1), Rebuilt(0, 0, i));
    ReachesLaterVersion(s, vs, i + 1, j + 1, Rebuilt(0, 0, i), c);
    ReachesSecond(s, Unannounced(vs, j + 1), Rebuilt(0, 0, i), c, Unannounced(vs, j + 1), Rebuilt(0, 0, j));
    ReachesLaterVersion(s, vs, j + 1, |vs|, Rebuilt(0, 0, i), Rebuilt(0, 0, j));
  }

  /** Call 1 rebuilds the catalogue at version `j`, and later call 0 at version `i`. */
  lemma SecondRebuildsEarlier(vs: seq<Catalog>, i: nat, j: nat)
    requires j < i < |vs|
    ensures Reaches(Initial(vs[0]), Two(Unannounced(vs, |vs|), Rebuilt(0, 0, i), Rebuilt(0, 0, j)))
  {
    var s := Initial(vs[0]);
    var c := Refreshing(0, 0);
    ReachesBothRefreshing(vs[0]);
    assert Unannounced(vs, 1) == s.shared;
    ReachesLaterVersion(s, vs, 1, j + 1, c, c);
    ReachesSecond(s, Unannounced(vs, j + 1), c, c, Unannounced(vs, j + 1), Rebuilt(0, 0, j));
    ReachesLaterVersion(s, vs, j + 1, i + 1, c, Rebuilt(0, 0, j));
    ReachesFirst(s, Unannounced(vs, i + 1), c, Rebuilt(0, 0, j), Unannounced(vs, i + 1), Rebuilt(0, 0, i));
    ReachesLaterVersion(s, vs, i + 1, |vs|, Rebuilt(0, 0, i), Rebuilt(0, 0, j));
  }

  /**
   * With the generation at 0 throughout, while changes are not yet announced, a call can score
   * the documents of any version against the tools of any other of that length.
   */
  lemma UnannouncedChangeMixesCatalogs(vs: seq<Catalog>, i: nat, j: nat)
    requires i < |vs| && j < |vs| && i != j && |vs[i]| == |vs[j]|
    ensures exists t :: Reaches(Initial(vs[0]), t) && t.shared.versions == vs && Generation(t.shared) == 0
              && 1 in t.calls && t.calls[1] == Done(0, i, j, false) && ServesWrongly(t, 1, vs[i], vs[j])
  {
    var s := Initial(vs[0]);
    var x := Shared(vs, [0], None, None);
    assert Unannounced(vs, |vs|) == x;
    if i < j { FirstRebuildsEarlier(vs, i, j); } else { SecondRebuildsEarlier(vs, i, j); }
    var y := x.(catalogCache := Some(i));
    var c := Rebuilt(0, 0, j);
    ReachesFirst(s, x, Rebuilt(0, 0, i), c, y, HasCatalog(0, i));
    ReachesFirst(s, y, HasCatalog(0, i), c, y, Missed(0, i));
    var z := y.(searchCache := Some((0, i)));
    ReachesFirst(s, y, Missed(0, i), c, z, Done(0, i, i, false));
    var w := z.(catalogCache := Some(j));
    ReachesSecond(s, z, Done(0, i, i, false), c, w, HasCatalog(0, j));
    ReachesSecond(s, w, Done(0, i, i, false), HasCatalog(0, j), w, Done(0, i, j, false));
    MixtureIsWrong(Two(w, Done(0, i, i, false), Done(0, i, j, false)), 1);
  }

  /** Some run over the versions `vs` scores the documents of version `i` against the tools of version `j`. */
  ghost predicate CanMix(vs: seq<Catalog>, i: nat, j: nat)
    requires vs != []
  {
    exists t, id :: Reaches(Initial(vs[0]), t) && t.shared.versions == vs
      && id in t.calls && t.calls[id].Done? && t.calls[id].docs == i && t.calls[id].catalog == j
  }

  /** The length check rules out exactly the mixtures of catalogues of different lengths. */
  lemma CatalogsMixExactly(vs: seq<Catalog>, i: nat, j: nat)
    requires i < |vs| && j < |vs| && i != j
    ensures CanMix(vs, i, j) <==> |vs[i]| == |vs[j]|
  {
    if |vs[i]| == |vs[j]| {
      UnannouncedChangeMixesCatalogs(vs, i, j);
      var t :| Reaches(Initial(vs[0]), t) && t.shared.versions == vs && 1 in t.calls
        && t.calls[1] == Done(0, i, j, false);
      assert t.calls[1].docs == i && t.calls[1].catalog == j;
    }
    if CanMix(vs, i, j) {
      var t, id :| Reaches(Initial(vs[0]), t) && t.shared.versions == vs
        && id in t.calls && t.calls[id].Done? && t.calls[id].docs == i && t.calls[id].catalog == j;
      assert CallInv(t.shared, t.calls[id]);
    }
  }

  ghost predicate CanServeWrongResult(vs: seq<Catalog>, dist: Distance, docOf: ToolInfo -> ToolDoc)
    requires vs != []
  {
    exists t, id :: Reaches(Initial(vs[0]), t) && t.shared.versions == vs && ServesWrongResult(t, id, dist, docOf)
  }

  /** Two versions of one length, the index of one of which does not serve the tools of the other. */
  ghost predicate IsConfusable(vs: seq<Catalog>, dist: Distance, docOf: ToolInfo -> ToolDoc) {
    exists i, j :: 0 <= i < |vs| && 0 <= j < |vs| && |vs[i]| == |vs[j]| && !IndexServes(dist, docOf, vs[i], vs[j])
  }

  lemma ServedUnder(t: State, id: int, a: Catalog, b: Catalog, dist: Distance, docOf: ToolInfo -> ToolDoc)
    requires ServesWrongly(t, id, a, b)
    ensures IndexServes(dist, docOf, a, b) || ServesWrongResult(t, id, dist, docOf)
  {
  }

  lemma ConfusableIsServed(vs: seq<Catalog>, dist: Distance, docOf: ToolInfo -> ToolDoc, i: nat, j: nat)
    requires i < |vs| && j < |vs| && |vs[i]| == |vs[j]|
    ensures IndexServes(dist, docOf, vs[i], vs[j]) || CanServeWrongResult(vs, dist, docOf)
  {
    IndexServesWhen(dist, docOf, vs[i], vs[j]);
    if i != j {
      UnannouncedChangeMixesCatalogs(vs, i, j);
      var t :| Reaches(Initial(vs[0]), t) && t.shared.versions == vs && ServesWrongly(t, 1, vs[i], vs[j]);
      ServedUnder(t, 1, vs[i], vs[j], dist, docOf);
    }
  }

  lemma WrongResultNeedsConfusable(t: State, id: int, dist: Distance, docOf: ToolInfo -> ToolDoc)
    requires ServesWrongResult(t, id, dist, docOf)
    ensures IsConfusable(t.shared.versions, dist, docOf)
  {
    var c := t.calls[id];
    ExactWhenIndexServes(t, c, dist, docOf);
    assert |t.shared.versions[c.docs]| == |t.shared.versions[c.catalog]|;
  }

  /** Over given versions some run returns a wrong result exactly when two of them are confusable. */
  lemma WrongResultsExactly(vs: seq<Catalog>, dist: Distance, docOf: ToolInfo -> ToolDoc)
    requires vs != []
    ensures CanServeWrongResult(vs, dist, docOf) <==> IsConfusable(vs, dist, docOf)
  {
    if IsConfusable(vs, dist, docOf) {
      var i, j :| 0 <= i < |vs| && 0 <= j < |vs| && |vs[i]| == |vs[j]| && !IndexServes(dist, docOf, vs[i], vs[j]);
      ConfusableIsServed(vs, dist, docOf, i, j);
    }
    if CanServeWrongResult(vs, dist, docOf) {
      var t, id :| Reaches(Initial(vs[0]), t) && t.shared.versions == vs && ServesWrongResult(t, id, dist, docOf);
      WrongResultNeedsConfusable(t, id, dist, docOf);
    }
  }
}
