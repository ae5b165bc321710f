/** src/js_sandbox.rs: scoring and ranking in `search_tools`. Scores are in tenths. */
module SearchRanking {
  import opened Wrappers
  import opened Sequences
  import opened Ascii
  import opened Tools
  import Utf8

  datatype ToolDoc = ToolDoc(
    nameLower: string, nameTokens: seq<string>, descLower: string, descTokens: seq<string>,
    endpointTokens: seq<string>, schemaPropTokens: seq<string>)

  /** The edit distance between two tokens; any function will do. */
  type Distance = (string, string) -> nat

  const MIN_SCORE := 10

  function FuzzyThreshold(length: nat): nat {
    if length <= 3 then 0 else if length <= 5 then 1 else 2
  }

  function Max(a: int, b: int): int {
    if a < b then b else a
  }

  /** The least distance from `q` to one of `tokens`. */
  function MinDistance(dist: Distance, q: string, tokens: seq<string>): Option<nat> {
    if tokens == [] then None
    else
      match MinDistance(dist, q, tokens[1..])
      case Some(d) => if dist(q, tokens[0]) < d then Some(dist(q, tokens[0])) else Some(d)
      case None => Some(dist(q, tokens[0]))
  }

  function FuzzyScore(best: Option<nat>, threshold: nat, full: int, step: int, floor: int): int {
    if best.Some? && best.value <= threshold then Max(full - step * best.value, floor) else 0
  }

  /** The best score of one query token over the fields of a document; 0 means no match. */
  function ScoreQueryToken(dist: Distance, q: string, doc: ToolDoc): (score: nat)
    ensures score > 0 ==> score >= 4
  {
    var threshold := FuzzyThreshold(|q|);
    var exact := if q in doc.nameTokens then 100 else 0;
    var namePrefix := if q <= doc.nameLower then 70 else 0;
    var tokenPrefix := if exists t :: t in doc.nameTokens && q <= t then 50 else 0;
    var nameInfix := if Contains(doc.nameLower, q) then 35 else 0;
    var otherExact := if q in doc.descTokens || q in doc.endpointTokens || q in doc.schemaPropTokens then 30 else 0;
    var descInfix := if Contains(doc.descLower, q) then 15 else 0;
    var nameFuzzy := if threshold > 0 then FuzzyScore(MinDistance(dist, q, doc.nameTokens), threshold, 20, 5, 5) else 0;
    var descFuzzy := if threshold > 0 then FuzzyScore(MinDistance(dist, q, doc.descTokens), threshold, 10, 3, 2) else 0;
    Max(exact, Max(namePrefix, Max(tokenPrefix, Max(nameInfix,
      Max(otherExact, Max(descInfix, Max(nameFuzzy, descFuzzy)))))))
  }

  /** Sum of the token scores, and how many tokens matched. */
  function BaseScore(dist: Distance, query: seq<string>, doc: ToolDoc): nat {
    if query == [] then 0 else ScoreQueryToken(dist, query[0], doc) + BaseScore(dist, query[1..], doc)
  }

  function MatchedTokens(dist: Distance, query: seq<string>, doc: ToolDoc): (n: nat)
    ensures n <= |query|
  {
    if query == [] then 0
    else (if ScoreQueryToken(dist, query[0], doc) > 0 then 1 else 0) + MatchedTokens(dist, query[1..], doc)
  }

  function TotalScore(dist: Distance, query: seq<string>, doc: ToolDoc): nat {
    var matched := MatchedTokens(dist, query, doc);
    BaseScore(dist, query, doc) + 10 * matched + (if matched == |query| then 20 else 0)
  }

  predicate MatchesAny(dist: Distance, query: seq<string>, doc: ToolDoc) {
    exists q :: q in query && ScoreQueryToken(dist, q, doc) > 0
  }

  lemma {:induction false} MatchedTokensCountsMatches(dist: Distance, query: seq<string>, doc: ToolDoc)
    ensures MatchedTokens(dist, query, doc) > 0 <==> MatchesAny(dist, query, doc)
    ensures BaseScore(dist, query, doc) >= 4 * MatchedTokens(dist, query, doc)
  {
    if query != [] {
      MatchedTokensCountsMatches(dist, query[1..], doc);
      assert query[0] in query;
      assert forall q :: q in query <==> q == query[0] || q in query[1..];
    }
  }

  /** The MIN_SCORE cut never removes a tool with a matching token. */
  lemma MinScoreNeverCuts(dist: Distance, query: seq<string>, doc: ToolDoc)
    requires MatchedTokens(dist, query, doc) > 0
    ensures TotalScore(dist, query, doc) >= MIN_SCORE + 4
  {
    MatchedTokensCountsMatches(dist, query, doc);
  }

  // The order of results

  type Scored = (nat, ToolInfo)

  /** Byte-wise comparison of UTF-8 strings is comparison by code points. */
  predicate NameLess(a: string, b: string) {
    b != "" && (a == "" || a[0] < b[0] || (a[0] == b[0] && NameLess(a[1..], b[1..])))
  }

  function NameBytes(t: ToolInfo): nat {
    |Utf8.Encode(t.name)|
  }

  /** Score descending, then name length, then name. */
  predicate Before(a: Scored, b: Scored) {
    || a.0 > b.0
    || (a.0 == b.0 && NameBytes(a.1) < NameBytes(b.1))
    || (a.0 == b.0 && NameBytes(a.1) == NameBytes(b.1) && NameLess(a.1.name, b.1.name))
  }

  lemma {:induction false} NameLessIsTotal(a: string, b: string)
    ensures a == b || NameLess(a, b) || NameLess(b, a)
    ensures !(NameLess(a, b) && NameLess(b, a)) && !NameLess(a, a)
  {
    if a != "" {
      NameLessIsTotal(a[1..], if b != "" then b[1..] else "");
      if b != "" && a[0] == b[0] && a[1..] == b[1..] {
        assert a == [a[0]] + a[1..] && b == [b[0]] + b[1..];
      }
    }
  }

  lemma {:induction false} NameLessIsTransitive(a: string, b: string, c: string)
    requires NameLess(a, b) && NameLess(b, c)
    ensures NameLess(a, c)
  {
    if a != "" && a[0] == b[0] && b[0] == c[0] {
      NameLessIsTransitive(a[1..], b[1..], c[1..]);
    }
  }

  lemma BeforeIsStrict(a: Scored, b: Scored)
    ensures !(Before(a, b) && Before(b, a))
    ensures a.1.name != b.1.name ==> Before(a, b) || Before(b, a)
  {
    NameLessIsTotal(a.1.name, b.1.name);
  }

  lemma BeforeIsTransitive(a: Scored, b: Scored, c: Scored)
    requires Before(a, b) && Before(b, c)
    ensures Before(a, c)
  {
    if NameLess(a.1.name, b.1.name) && NameLess(b.1.name, c.1.name) {
      NameLessIsTransitive(a.1.name, b.1.name, c.1.name);
    }
  }

  ghost predicate IsRanked(s: seq<Scored>) {
    forall i, j :: 0 <= i < j < |s| ==> Before(s[i], s[j])
  }

  function Insert(x: Scored, s: seq<Scored>): seq<Scored> {
    if s == [] || !Before(s[0], x) then [x] + s else [s[0]] + Insert(x, s[1..])
  }

  /** `sort_by` with the comparison above; equal entries keep their order. */
  function Sort(s: seq<Scored>): seq<Scored> {
    if s == [] then [] else Insert(s[0], Sort(s[1..]))
  }

  lemma {:induction false} InsertMembers(x: Scored, s: seq<Scored>, y: Scored)
    ensures y in Insert(x, s) <==> y == x || y in s
  {
    if s != [] && Before(s[0], x) {
      InsertMembers(x, s[1..], y);
      assert y in s <==> y == s[0] || y in s[1..];
    }
  }

  lemma {:induction false} SortMembers(s: seq<Scored>, y: Scored)
    ensures y in Sort(s) <==> y in s
  {
    if s != [] {
      SortMembers(s[1..], y);
      InsertMembers(s[0], Sort(s[1..]), y);
      assert y in s <==> y == s[0] || y in s[1..];
    }
  }

  lemma PrependRanked(x: Scored, s: seq<Scored>)
    requires IsRanked(s) && forall y :: y in s ==> Before(x, y)
    ensures IsRanked([x] + s)
  {
  }

  lemma {:induction false} InsertRanked(x: Scored, s: seq<Scored>)
    requires IsRanked(s) && forall y :: y in s ==> x.1.name != y.1.name
    ensures IsRanked(Insert(x, s))
  {
    if s != [] {
      assert s[0] in s;
      if !Before(s[0], x) {
        BeforeIsStrict(x, s[0]);
        forall y | y in s ensures Before(x, y) {
          if y != s[0] { BeforeIsTransitive(x, s[0], y); }
        }
        PrependRanked(x, s);
      } else {
        InsertRanked(x, s[1..]);
        forall y | y in Insert(x, s[1..]) ensures Before(s[0], y) {
          InsertMembers(x, s[1..], y);
        }
        PrependRanked(s[0], Insert(x, s[1..]));
      }
    }
  }

  ghost predicate HasDistinctNames(s: seq<Scored>) {
    forall i, j :: 0 <= i < j < |s| ==> s[i].1.name != s[j].1.name
  }

  lemma {:induction false} SortRanks(s: seq<Scored>)
    requires HasDistinctNames(s)
    ensures IsRanked(Sort(s))
  {
    if s != [] {
      SortRanks(s[1..]);
      forall y | y in Sort(s[1..]) ensures s[0].1.name != y.1.name {
        SortMembers(s[1..], y);
      }
      InsertRanked(s[0], Sort(s[1..]));
    }
  }

  /** A strictly ranked sequence is determined by its members. */
  lemma {:induction false} RankingIsUnique(p: seq<Scored>, q: seq<Scored>)
    requires IsRanked(p) && IsRanked(q) && forall y :: y in p <==> y in q
    ensures p == q
  {
    assert q != [] ==> q[0] in q;
    if p != [] {
      assert p[0] in p;
      if p[0] != q[0] {
        BeforeIsStrict(p[0], q[0]);
      }
      forall y ensures y in p[1..] <==> y in q[1..] {
        TailMembers(p, y);
        TailMembers(q, y);
      }
      RankingIsUnique(p[1..], q[1..]);
      assert p == [p[0]] + p[1..] && q == [q[0]] + q[1..];
    }
  }

  lemma TailMembers(p: seq<Scored>, y: Scored)
    requires p != [] && IsRanked(p)
    ensures y in p[1..] <==> y in p && y != p[0]
  {
    if y in p[1..] {
      BeforeIsStrict(p[0], y);
    }
  }

  // Searching

  const DEFAULT_LIMIT := 20
  const MAX_LIMIT := 200

  function EffectiveLimit(limit: Option<nat>): nat {
    var l := if limit.Some? then limit.value else DEFAULT_LIMIT;
    if l < MAX_LIMIT then l else MAX_LIMIT
  }

  /** What one document adds to the candidates: nothing unless some query token matches. */
  function Entry(dist: Distance, query: seq<string>, doc: ToolDoc, tool: ToolInfo): seq<Scored> {
    if MatchesAny(dist, query, doc) then [(TotalScore(dist, query, doc), tool)] else []
  }

  /** The documents and tools taken in pairs, without those no query token matches. */
  function Candidates(dist: Distance, query: seq<string>, docs: seq<ToolDoc>, catalog: seq<ToolInfo>): seq<Scored> {
    if docs == [] || catalog == [] then []
    else
      Entry(dist, query, docs[0], catalog[0])
      + Candidates(dist, query, docs[1..], catalog[1..])
  }

  function Take<T>(s: seq<T>, n: nat): seq<T> {
    if |s| <= n then s else s[..n]
  }

  function Listed(s: seq<Scored>): (r: seq<ToolInfo>)
    ensures |r| == |s| && forall i :: 0 <= i < |s| ==> r[i] == s[i].1
  {
    seq(|s|, i requires 0 <= i < |s| => s[i].1)
  }

  function Page(dist: Distance, query: seq<string>, docs: seq<ToolDoc>, catalog: seq<ToolInfo>,
      limit: Option<nat>): seq<ToolInfo> {
    if query == [] then Take(catalog, EffectiveLimit(limit))
    else Listed(Take(Sort(Candidates(dist, query, docs, catalog)), EffectiveLimit(limit)))
  }

  lemma CandidatesStep(dist: Distance, query: seq<string>, docs: seq<ToolDoc>, catalog: seq<ToolInfo>, i: nat,
      done: seq<Scored>)
    requires i < |docs| && i < |catalog|
    ensures done + Candidates(dist, query, docs[i..], catalog[i..])
         == (done + Entry(dist, query, docs[i], catalog[i])) + Candidates(dist, query, docs[i + 1..], catalog[i + 1..])
  {
    assert docs[i..][1..] == docs[i + 1..] && catalog[i..][1..] == catalog[i + 1..];
    Associative(done, Entry(dist, query, docs[i], catalog[i]),
      Candidates(dist, query, docs[i + 1..], catalog[i + 1..]));
  }

  /** One turn of the scoring loop: skip without a match, cut below `MIN_SCORE`, else keep. */
  method ScoreDocument(dist: Distance, query: seq<string>, doc: ToolDoc, tool: ToolInfo) returns (entry: seq<Scored>)
    ensures entry == Entry(dist, query, doc, tool)
  {
    MatchedTokensCountsMatches(dist, query, doc);
    var matched := MatchedTokens(dist, query, doc);
    if matched == 0 {
      return [];
    }
    MinScoreNeverCuts(dist, query, doc);
    var total := TotalScore(dist, query, doc);
    if total < MIN_SCORE {
      return [];
    }
    return [(total, tool)];
  }

  /** Scores the documents pair by pair, applies the cut and sorts. */
  method SearchTools(dist: Distance, query: seq<string>, docs: seq<ToolDoc>, catalog: seq<ToolInfo>, limit: Option<nat>)
    returns (page: seq<ToolInfo>)
    ensures page == Page(dist, query, docs, catalog, limit)
  {
    if query == [] {
      return Take(catalog, EffectiveLimit(limit));
    }
    var scored: seq<Scored> := [];
    var i := 0;
    while i < |docs| && i < |catalog|
      invariant i <= |docs| && i <= |catalog|
      invariant Candidates(dist, query, docs, catalog) == scored + Candidates(dist, query, docs[i..], catalog[i..])
    {
      CandidatesStep(dist, query, docs, catalog, i, scored);
      var entry := ScoreDocument(dist, query, docs[i], catalog[i]);
      scored := scored + entry;
      i := i + 1;
    }
    assert Candidates(dist, query, docs[i..], catalog[i..]) == [];
    assert Candidates(dist, query, docs, catalog) == scored;
    page := Listed(Take(Sort(scored), EffectiveLimit(limit)));
  }

  // What a search with a fresh index returns

  function Index(docOf: ToolInfo -> ToolDoc, catalog: seq<ToolInfo>): (docs: seq<ToolDoc>)
    ensures |docs| == |catalog| && forall i :: 0 <= i < |catalog| ==> docs[i] == docOf(catalog[i])
  {
    seq(|catalog|, i requires 0 <= i < |catalog| => docOf(catalog[i]))
  }

  ghost predicate HasDistinctTools(catalog: seq<ToolInfo>) {
    forall i, j :: 0 <= i < j < |catalog| ==> catalog[i].name != catalog[j].name
  }

  /** All matches of a search, best first. */
  function Matches(dist: Distance, docOf: ToolInfo -> ToolDoc, query: seq<string>,
      catalog: seq<ToolInfo>): seq<Scored> {
    Sort(Candidates(dist, query, Index(docOf, catalog), catalog))
  }

  lemma {:induction false} CandidatesAreTheMatches(dist: Distance, docOf: ToolInfo -> ToolDoc, query: seq<string>,
      catalog: seq<ToolInfo>, y: Scored)
    ensures y in Candidates(dist, query, Index(docOf, catalog), catalog)
       <==> y.1 in catalog && MatchesAny(dist, query, docOf(y.1)) && y.0 == TotalScore(dist, query, docOf(y.1))
  {
    if catalog != [] {
      CandidatesAreTheMatches(dist, docOf, query, catalog[1..], y);
      assert Index(docOf, catalog)[1..] == Index(docOf, catalog[1..]);
      assert y.1 in catalog <==> y.1 == catalog[0] || y.1 in catalog[1..];
    }
  }

  lemma {:induction false} CandidatesHaveDistinctNames(dist: Distance, docOf: ToolInfo -> ToolDoc, query: seq<string>,
      catalog: seq<ToolInfo>)
    requires HasDistinctTools(catalog)
    ensures HasDistinctNames(Candidates(dist, query, Index(docOf, catalog), catalog))
  {
    if catalog != [] {
      var rest := catalog[1..];
      CandidatesHaveDistinctNames(dist, docOf, query, rest);
      assert Index(docOf, catalog)[1..] == Index(docOf, rest);
      var tail := Candidates(dist, query, Index(docOf, rest), rest);
      forall y | y in tail ensures y.1.name != catalog[0].name {
        CandidatesAreTheMatches(dist, docOf, query, rest, y);
      }
    }
  }

  /** The ranking holds every tool that matches some token and no other, strictly ordered. */
  lemma MatchesAreRankedAndComplete(dist: Distance, docOf: ToolInfo -> ToolDoc, query: seq<string>,
      catalog: seq<ToolInfo>)
    requires HasDistinctTools(catalog)
    ensures IsRanked(Matches(dist, docOf, query, catalog))
    ensures forall y :: y in Matches(dist, docOf, query, catalog) <==>
              y.1 in catalog && MatchesAny(dist, query, docOf(y.1)) && y.0 == TotalScore(dist, query, docOf(y.1))
  {
    CandidatesHaveDistinctNames(dist, docOf, query, catalog);
    SortRanks(Candidates(dist, query, Index(docOf, catalog), catalog));
    forall y ensures y in Matches(dist, docOf, query, catalog) <==>
              y.1 in catalog && MatchesAny(dist, query, docOf(y.1)) && y.0 == TotalScore(dist, query, docOf(y.1))
    {
      SortMembers(Candidates(dist, query, Index(docOf, catalog), catalog), y);
      CandidatesAreTheMatches(dist, docOf, query, catalog, y);
    }
  }

  lemma PageOfRanking(all: seq<Scored>, n: nat, k: nat)
    requires IsRanked(all) && k < |all|
    ensures all[k].1 in Listed(Take(all, n)) || (|Listed(Take(all, n))| == n
              && forall i :: 0 <= i < n ==> Listed(Take(all, n))[i] == all[i].1 && Before(all[i], all[k]))
  {
    var page := Listed(Take(all, n));
    if k < |page| { assert page[k] == all[k].1; }
  }

  function ScoredAs(dist: Distance, docOf: ToolInfo -> ToolDoc, query: seq<string>, t: ToolInfo): Scored {
    (TotalScore(dist, query, docOf(t)), t)
  }

  /** A page is full or holds every match, and what it leaves out ranks after all it holds. */
  lemma PageHoldsTheBest(dist: Distance, docOf: ToolInfo -> ToolDoc, query: seq<string>, catalog: seq<ToolInfo>,
      limit: Option<nat>, t: ToolInfo)
    requires HasDistinctTools(catalog) && query != []
    requires t in catalog && MatchesAny(dist, query, docOf(t))
    ensures var page := Page(dist, query, Index(docOf, catalog), catalog, limit);
            t in page || (|page| == EffectiveLimit(limit)
              && forall u :: u in page ==> Before(ScoredAs(dist, docOf, query, u), ScoredAs(dist, docOf, query, t)))
  {
    var page := Page(dist, query, Index(docOf, catalog), catalog, limit);
    var all := Matches(dist, docOf, query, catalog);
    MatchesAreRankedAndComplete(dist, docOf, query, catalog);
    var entry := ScoredAs(dist, docOf, query, t);
    assert entry in all;
    var k :| 0 <= k < |all| && all[k] == entry;
    PageOfRanking(all, EffectiveLimit(limit), k);
    if t !in page {
      forall i | 0 <= i < |page| ensures Before(ScoredAs(dist, docOf, query, page[i]), entry) {
        assert all[i] in all;
      }
    }
  }

  /** The result does not depend on the order in which the registry lists its tools. */
  lemma PageIgnoresCatalogOrder(dist: Distance, docOf: ToolInfo -> ToolDoc, query: seq<string>, a: seq<ToolInfo>,
      b: seq<ToolInfo>, limit: Option<nat>)
    requires HasDistinctTools(a) && HasDistinctTools(b) && query != []
    requires forall t :: t in a <==> t in b
    ensures Page(dist, query, Index(docOf, a), a, limit) == Page(dist, query, Index(docOf, b), b, limit)
  {
    MatchesAreRankedAndComplete(dist, docOf, query, a);
    MatchesAreRankedAndComplete(dist, docOf, query, b);
    RankingIsUnique(Matches(dist, docOf, query, a), Matches(dist, docOf, query, b));
  }

  lemma SmallerLimitIsPrefix(dist: Distance, query: seq<string>, docs: seq<ToolDoc>, catalog: seq<ToolInfo>,
      small: nat, large: nat)
    requires small <= large
    ensures Page(dist, query, docs, catalog, Some(small)) <= Page(dist, query, docs, catalog, Some(large))
  {
    var s, l := EffectiveLimit(Some(small)), EffectiveLimit(Some(large));
    if query != [] {
      TakesNest(Sort(Candidates(dist, query, docs, catalog)), s, l);
    }
  }

  lemma TakesNest(all: seq<Scored>, small: nat, large: nat)
    requires small <= large
    ensures Listed(Take(all, small)) <= Listed(Take(all, large))
  {
  }

  // Searching with the index of another catalogue

  /** The page over the documents of `a` and the tools of `b` is the page over those of `b`. */
  predicate PagesAgree(
      a: seq<ToolInfo>, b: seq<ToolInfo>, dist: Distance, docOf: ToolInfo -> ToolDoc, query: seq<string>,
      limit: Option<nat>)
  {
    Page(dist, query, Index(docOf, a), b, limit) == Page(dist, query, Index(docOf, b), b, limit)
  }

  lemma {:induction false} CandidateAt(dist: Distance, query: seq<string>, docs: seq<ToolDoc>, catalog: seq<ToolInfo>,
      y: Scored)
    returns (i: nat)
    requires y in Candidates(dist, query, docs, catalog)
    ensures i < |docs| && i < |catalog| && y.1 == catalog[i] && MatchesAny(dist, query, docs[i])
  {
    if y in Entry(dist, query, docs[0], catalog[0]) {
      i := 0;
    } else {
      var j := CandidateAt(dist, query, docs[1..], catalog[1..], y);
      i := j + 1;
    }
  }

  lemma {:induction false} EveryMatchIsCandidate(dist: Distance, query: seq<string>, docs: seq<ToolDoc>,
      catalog: seq<ToolInfo>, i: nat)
    requires i < |docs| && i < |catalog| && MatchesAny(dist, query, docs[i])
    ensures (TotalScore(dist, query, docs[i]), catalog[i]) in Candidates(dist, query, docs, catalog)
  {
    if i > 0 {
      EveryMatchIsCandidate(dist, query, docs[1..], catalog[1..], i - 1);
    }
  }

  lemma {:induction false} CandidatesAreNoMore(dist: Distance, query: seq<string>, docs: seq<ToolDoc>,
      catalog: seq<ToolInfo>)
    ensures |Candidates(dist, query, docs, catalog)| <= |catalog|
  {
    if docs != [] && catalog != [] {
      CandidatesAreNoMore(dist, query, docs[1..], catalog[1..]);
    }
  }

  lemma {:induction false} SortKeepsLength(s: seq<Scored>)
    ensures |Sort(s)| == |s|
  {
    if s != [] {
      SortKeepsLength(s[1..]);
      InsertAddsOne(s[0], Sort(s[1..]));
    }
  }

  lemma {:induction false} InsertAddsOne(x: Scored, s: seq<Scored>)
    ensures |Insert(x, s)| == |s| + 1
  {
    if s != [] && Before(s[0], x) { InsertAddsOne(x, s[1..]); }
  }

  /** When everything fits on a page, a tool is on it exactly when it is a candidate. */
  lemma FullPageHoldsCandidates(dist: Distance, query: seq<string>, docs: seq<ToolDoc>, catalog: seq<ToolInfo>,
      t: ToolInfo)
    requires |catalog| <= MAX_LIMIT && query != []
    ensures t in Page(dist, query, docs, catalog, Some(MAX_LIMIT)) <==>
            exists y :: y in Candidates(dist, query, docs, catalog) && y.1 == t
  {
    var all := Candidates(dist, query, docs, catalog);
    var page := Page(dist, query, docs, catalog, Some(MAX_LIMIT));
    CandidatesAreNoMore(dist, query, docs, catalog);
    SortKeepsLength(all);
    assert page == Listed(Sort(all));
    if t in page {
      var i :| 0 <= i < |page| && page[i] == t;
      SortMembers(all, Sort(all)[i]);
      assert Sort(all)[i] in all;
    }
    if y :| y in all && y.1 == t {
      SortMembers(all, y);
      var i :| 0 <= i < |Sort(all)| && Sort(all)[i] == y;
      assert page[i] == t;
    }
  }

  /** On a full page a tool is listed exactly when the query matches the document at its place. */
  lemma MixedPageHoldsExactly(dist: Distance, docOf: ToolInfo -> ToolDoc, query: seq<string>, a: seq<ToolInfo>,
      b: seq<ToolInfo>, i: nat)
    requires |a| == |b| <= MAX_LIMIT && HasDistinctTools(b) && i < |b| && query != []
    ensures b[i] in Page(dist, query, Index(docOf, a), b, Some(MAX_LIMIT)) <==> MatchesAny(dist, query, docOf(a[i]))
  {
    var docs := Index(docOf, a);
    FullPageHoldsCandidates(dist, query, docs, b, b[i]);
    if MatchesAny(dist, query, docOf(a[i])) {
      EveryMatchIsCandidate(dist, query, docs, b, i);
    }
    if y :| y in Candidates(dist, query, docs, b) && y.1 == b[i] {
      var j := CandidateAt(dist, query, docs, b, y);
      assert i == j;
    }
  }

  /** The index of `a` serves the tools of `b`: every search finds what it would with their own index. */
  ghost predicate IndexServes(dist: Distance, docOf: ToolInfo -> ToolDoc, a: seq<ToolInfo>, b: seq<ToolInfo>) {
    forall query, limit :: PagesAgree(a, b, dist, docOf, query, limit)
  }

  /** Some query matches just one of the two documents at some place. */
  ghost predicate MatchDifferently(dist: Distance, docOf: ToolInfo -> ToolDoc, a: seq<ToolInfo>, b: seq<ToolInfo>) {
    exists i, query :: 0 <= i < |a| && i < |b|
      && MatchesAny(dist, query, docOf(a[i])) != MatchesAny(dist, query, docOf(b[i]))
  }

  /** Equal documents serve each other's tools; documents that match differently do not. */
  lemma IndexServesWhen(dist: Distance, docOf: ToolInfo -> ToolDoc, a: seq<ToolInfo>, b: seq<ToolInfo>)
    ensures Index(docOf, a) == Index(docOf, b) ==> IndexServes(dist, docOf, a, b)
    ensures |a| == |b| <= MAX_LIMIT && HasDistinctTools(b) && MatchDifferently(dist, docOf, a, b) ==>
              !IndexServes(dist, docOf, a, b)
  {
    if |a| == |b| <= MAX_LIMIT && HasDistinctTools(b) && MatchDifferently(dist, docOf, a, b) {
      var i, query :| 0 <= i < |a| && i < |b|
        && MatchesAny(dist, query, docOf(a[i])) != MatchesAny(dist, query, docOf(b[i]));
      MixedPageHoldsExactly(dist, docOf, query, a, b, i);
      MixedPageHoldsExactly(dist, docOf, query, b, b, i);
      assert !PagesAgree(a, b, dist, docOf, query, Some(MAX_LIMIT));
    }
  }

  /** Tool `i` of `b` is found with the index of `a` just when it is with its own. */
  predicate FindsSame(dist: Distance, docOf: ToolInfo -> ToolDoc, a: seq<ToolInfo>, b: seq<ToolInfo>,
      query: seq<string>, i: nat)
    requires i < |b|
  {
    b[i] in Page(dist, query, Index(docOf, a), b, Some(MAX_LIMIT)) <==>
    b[i] in Page(dist, query, Index(docOf, b), b, Some(MAX_LIMIT))
  }

  /** Order aside, every query finds the right tools exactly when no documents match differently. */
  lemma SameToolsFoundExactly(dist: Distance, docOf: ToolInfo -> ToolDoc, a: seq<ToolInfo>, b: seq<ToolInfo>)
    requires |a| == |b| <= MAX_LIMIT && HasDistinctTools(b)
    ensures (forall query, i :: 0 <= i < |b| ==> FindsSame(dist, docOf, a, b, query, i))
            <==> !MatchDifferently(dist, docOf, a, b)
  {
    forall query, i | 0 <= i < |b|
      ensures FindsSame(dist, docOf, a, b, query, i)
              <==> (MatchesAny(dist, query, docOf(a[i])) <==> MatchesAny(dist, query, docOf(b[i])))
    {
      if query != [] {
        MixedPageHoldsExactly(dist, docOf, query, a, b, i);
        MixedPageHoldsExactly(dist, docOf, query, b, b, i);
      }
    }
    if MatchDifferently(dist, docOf, a, b) {
      var i, query :| 0 <= i < |a| && i < |b|
        && MatchesAny(dist, query, docOf(a[i])) != MatchesAny(dist, query, docOf(b[i]));
      assert !FindsSame(dist, docOf, a, b, query, i);
    }
  }
}
