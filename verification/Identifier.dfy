/** src/js_sandbox.rs, `split_identifier`, for ASCII input. */
module Identifier {
  import opened Ascii
  import Sequences

  /** The three named boundaries, between positions `i - 1` and `i`. */
  predicate IsBoundary(s: string, i: nat)
    requires 0 < i < |s|
  {
    || IsDigit(s[i - 1]) != IsDigit(s[i])
    || (IsLowerCase(s[i - 1]) && IsUpperCase(s[i]))
    || (IsUpperCase(s[i - 1]) && IsUpperCase(s[i]) && i + 1 < |s| && IsLowerCase(s[i + 1]))
  }

  /** Position `i` opens a token: alphanumeric, and preceded by a separator or a boundary. */
  predicate IsStart(s: string, i: nat)
    requires i < |s|
  {
    IsAlphanumeric(s[i]) && (i == 0 || !IsAlphanumeric(s[i - 1]) || IsBoundary(s, i))
  }

  type Span = (nat, nat)

  /** A token's stretch of `s`: it opens at a start, has no start inside, and cannot be extended. */
  predicate IsTokenSpan(s: string, span: Span) {
    && span.0 < span.1 <= |s|
    && IsStart(s, span.0)
    && (forall i :: span.0 < i < span.1 ==> IsAlphanumeric(s[i]) && !IsStart(s, i))
    && (span.1 == |s| || !IsAlphanumeric(s[span.1]) || IsStart(s, span.1))
  }

  predicate NoAlphanumeric(s: string, from: nat, to: nat)
    requires to <= |s|
  {
    forall i :: from <= i < to ==> !IsAlphanumeric(s[i])
  }

  /** Where the k-th gap between spans begins. */
  function GapStart(spans: seq<Span>, k: nat): nat
    requires k <= |spans|
  {
    if k == 0 then 0 else spans[k - 1].1
  }

  /** The k-th span is a token's, and only separators lie before it. */
  predicate IsNextToken(s: string, spans: seq<Span>, k: nat)
    requires k < |spans|
  {
    IsTokenSpan(s, spans[k]) && GapStart(spans, k) <= spans[k].0 && NoAlphanumeric(s, GapStart(spans, k), spans[k].0)
  }

  /** `spans` are the token stretches of `s[..end]`, in order, with only separators left out. */
  ghost predicate IsSplit(s: string, spans: seq<Span>, end: nat)
    requires end <= |s|
  {
    && (forall k :: 0 <= k < |spans| ==> IsNextToken(s, spans, k))
    && GapStart(spans, |spans|) <= end
    && NoAlphanumeric(s, GapStart(spans, |spans|), end)
  }

  /** The lower-cased text of a span (empty for a span outside `s`). */
  function TokenAt(s: string, span: Span): string {
    if span.0 <= span.1 <= |s| then Lower(s[span.0..span.1]) else ""
  }

  function TokensOf(s: string, spans: seq<Span>): seq<string> {
    seq(|spans|, k requires 0 <= k < |spans| => TokenAt(s, spans[k]))
  }

  lemma AddToken(s: string, spans: seq<Span>, span: Span)
    requires IsTokenSpan(s, span) && IsSplit(s, spans, span.0)
    ensures IsSplit(s, spans + [span], span.1)
    ensures TokensOf(s, spans + [span]) == TokensOf(s, spans) + [TokenAt(s, span)]
  {
    var more := spans + [span];
    forall k | 0 <= k < |more| ensures IsNextToken(s, more, k) {
      if k < |spans| {
        assert IsNextToken(s, spans, k);
      }
    }
  }

  lemma AddSeparator(s: string, spans: seq<Span>, end: nat)
    requires end < |s| && IsSplit(s, spans, end) && !IsAlphanumeric(s[end])
    ensures IsSplit(s, spans, end + 1)
  {
  }

  /** `s[start..i]` is what the loop has collected of the next token before position `i`. */
  predicate IsPending(s: string, start: nat, i: nat)
    requires start <= i <= |s|
  {
    if start == i then i == 0 || !IsAlphanumeric(s[i - 1])
    else IsStart(s, start) && forall j :: start < j < i ==> IsAlphanumeric(s[j]) && !IsStart(s, j)
  }

  lemma Collect(s: string, start: nat, i: nat)
    requires start <= i < |s| && IsPending(s, start, i) && IsAlphanumeric(s[i])
    ensures start < i && IsBoundary(s, i) ==> IsStart(s, i) && IsPending(s, i, i + 1)
    ensures start == i || !IsBoundary(s, i) ==> IsPending(s, start, i + 1)
    ensures start < i ==> (IsStart(s, i) <==> IsBoundary(s, i))
  {
    assert start < i ==> IsAlphanumeric(s[i - 1]);
  }

  /** A collected token that cannot be extended is recorded. */
  lemma Flush(s: string, spans: seq<Span>, start: nat, i: nat)
    requires start < i <= |s| && IsPending(s, start, i) && IsSplit(s, spans, start)
    requires i == |s| || !IsAlphanumeric(s[i]) || IsStart(s, i)
    ensures IsSplit(s, spans + [(start, i)], i)
    ensures TokensOf(s, spans + [(start, i)]) == TokensOf(s, spans) + [Lower(s[start..i])]
  {
    AddToken(s, spans, (start, i));
  }

  /** `tokens` are the lower-cased token stretches of `s`, in order, separators left out. */
  ghost predicate IsTokenization(s: string, tokens: seq<string>) {
    exists spans :: IsSplit(s, spans, |s|) && tokens == TokensOf(s, spans)
  }

  method SplitIdentifier(s: string) returns (tokens: seq<string>)
    ensures IsTokenization(s, tokens)
  {
    tokens := [];
    ghost var spans: seq<Span> := [];
    var current := "";
    ghost var start := 0;
    for i := 0 to |s|
      invariant start <= i && current == s[start..i] && IsPending(s, start, i)
      invariant IsSplit(s, spans, start) && tokens == TokensOf(s, spans)
    {
      var c := s[i];
      if !IsAlphanumeric(c) {
        if current != "" {
          Flush(s, spans, start, i);
          tokens, spans := tokens + [Lower(current)], spans + [(start, i)];
          current := "";
        }
        AddSeparator(s, spans, i);
        start := i + 1;
      } else {
        Collect(s, start, i);
        if current == "" {
          current := [c];
        } else {
          if IsBoundary(s, i) {
            Flush(s, spans, start, i);
            tokens, spans := tokens + [Lower(current)], spans + [(start, i)];
            current := "";
            start := i;
          }
          current := current + [c];
        }
      }
    }
    if current != "" {
      Flush(s, spans, start, |s|);
      tokens, spans := tokens + [Lower(current)], spans + [(start, |s|)];
    }
  }

  // Consequences

  /** The lower-cased alphanumeric characters of `s`, in order. */
  function LowerAlphanumerics(s: string): string {
    if s == "" then ""
    else (if IsAlphanumeric(s[0]) then [LowerChar(s[0])] else "") + LowerAlphanumerics(s[1..])
  }

  function Concat(tokens: seq<string>): string {
    if tokens == [] then "" else tokens[0] + Concat(tokens[1..])
  }

  predicate IsAlphanumericRun(s: string, from: nat, to: nat)
    requires to <= |s|
  {
    forall i :: from <= i < to ==> IsAlphanumeric(s[i])
  }

  lemma {:induction false} AllAlphanumeric(s: string, from: nat, to: nat)
    requires from <= to <= |s| && IsAlphanumericRun(s, from, to)
    ensures LowerAlphanumerics(s[from..]) == Lower(s[from..to]) + LowerAlphanumerics(s[to..])
    decreases |s| - from
  {
    if from < to {
      AllAlphanumeric(s, from + 1, to);
      assert s[from..][1..] == s[from + 1..];
      assert Lower(s[from..to]) == [LowerChar(s[from])] + Lower(s[from + 1..to]);
      Sequences.Associative([LowerChar(s[from])], Lower(s[from + 1..to]), LowerAlphanumerics(s[to..]));
    } else {
      assert Lower(s[from..to]) == "";
    }
  }

  lemma {:induction false} Separators(s: string, from: nat, to: nat)
    requires from <= to <= |s| && NoAlphanumeric(s, from, to)
    ensures LowerAlphanumerics(s[from..]) == LowerAlphanumerics(s[to..])
    decreases |s| - from
  {
    if from < to {
      Separators(s, from + 1, to);
      assert s[from..][1..] == s[from + 1..];
    }
  }

  /** One gap and one token further on. */
  lemma ConservativeStep(s: string, from: nat, span: Span)
    requires IsTokenSpan(s, span) && from <= span.0 && NoAlphanumeric(s, from, span.0)
    ensures LowerAlphanumerics(s[from..]) == TokenAt(s, span) + LowerAlphanumerics(s[span.1..])
  {
    Separators(s, from, span.0);
    AllAlphanumeric(s, span.0, span.1);
  }

  lemma ConcatFrom(tokens: seq<string>, k: nat)
    requires k < |tokens|
    ensures Concat(tokens[k..]) == tokens[k] + Concat(tokens[k + 1..])
  {
    assert tokens[k..][1..] == tokens[k + 1..];
  }

  /** The tokens from the k-th on spell the alphanumeric characters after the first k. */
  lemma {:induction false} ConservativeFrom(s: string, spans: seq<Span>, k: nat)
    requires IsSplit(s, spans, |s|) && k <= |spans|
    ensures GapStart(spans, k) <= |s|
    ensures LowerAlphanumerics(s[GapStart(spans, k)..]) == Concat(TokensOf(s, spans)[k..])
    decreases |spans| - k
  {
    if k == |spans| {
      Separators(s, GapStart(spans, k), |s|);
    } else {
      assert IsNextToken(s, spans, k);
      ConservativeStep(s, GapStart(spans, k), spans[k]);
      ConservativeFrom(s, spans, k + 1);
      ConcatFrom(TokensOf(s, spans), k);
    }
  }

  /** The tokens spell the lower-cased alphanumeric characters of the input, in order. */
  lemma SplitIsConservative(s: string, tokens: seq<string>)
    requires IsTokenization(s, tokens)
    ensures Concat(tokens) == LowerAlphanumerics(s)
  {
    var spans :| IsSplit(s, spans, |s|) && tokens == TokensOf(s, spans);
    ConservativeFrom(s, spans, 0);
    assert s[0..] == s && tokens[0..] == tokens;
  }

  /** The span that covers an alphanumeric character. */
  lemma {:induction false} Covering(s: string, spans: seq<Span>, end: nat, i: nat) returns (k: nat)
    requires end <= |s| && IsSplit(s, spans, end) && i < end && IsAlphanumeric(s[i])
    ensures k < |spans| && spans[k].0 <= i < spans[k].1
  {
    k := |spans|;
    while k > 0 && i < spans[k - 1].0
      invariant k <= |spans|
      invariant i < (if k == |spans| then end else spans[k].0)
    {
      k := k - 1;
    }
    if k < |spans| {
      assert IsNextToken(s, spans, k);
    }
    k := k - 1;
  }

  /** Between two adjacent alphanumeric characters there is a cut exactly at the named boundaries. */
  lemma CutsAreBoundaries(s: string, spans: seq<Span>, i: nat)
    requires IsSplit(s, spans, |s|) && 0 < i < |s| && IsAlphanumeric(s[i - 1]) && IsAlphanumeric(s[i])
    ensures (exists k :: 0 <= k < |spans| && spans[k].0 == i) <==> IsBoundary(s, i)
  {
    var k := Covering(s, spans, |s|, i);
    assert IsNextToken(s, spans, k);
    assert IsBoundary(s, i) <==> IsStart(s, i);
    forall j | 0 <= j < |spans| && spans[j].0 == i ensures IsStart(s, i) {
      assert IsNextToken(s, spans, j);
    }
    assert IsStart(s, i) ==> spans[k].0 == i;
  }

  /** A token that starts where another does is that token. */
  lemma SameStartSameSpan(s: string, x: Span, y: Span)
    requires IsTokenSpan(s, x) && IsTokenSpan(s, y) && x.0 == y.0
    ensures x.1 <= y.1
  {
  }

  lemma NextStart(s: string, from: nat, x: Span, y: Span)
    requires IsTokenSpan(s, x) && from <= x.0 && IsTokenSpan(s, y)
    requires from <= y.0 && NoAlphanumeric(s, from, y.0)
    ensures y.0 <= x.0
  {
    assert IsAlphanumeric(s[x.0]);
  }

  lemma {:induction false} SpansAreUnique(s: string, p: seq<Span>, q: seq<Span>, n: nat)
    requires IsSplit(s, p, |s|) && IsSplit(s, q, |s|) && n <= |p|
    ensures n <= |q| && p[..n] == q[..n]
  {
    if n > 0 {
      SpansAreUnique(s, p, q, n - 1);
      var k := n - 1;
      assert IsNextToken(s, p, k);
      assert GapStart(p, k) == GapStart(q, k) by {
        if k > 0 { assert p[..k][k - 1] == q[..k][k - 1]; }
      }
      assert IsAlphanumeric(s[p[k].0]);
      assert k < |q|;
      assert IsNextToken(s, q, k);
      NextStart(s, GapStart(p, k), p[k], q[k]);
      NextStart(s, GapStart(p, k), q[k], p[k]);
      SameStartSameSpan(s, p[k], q[k]);
      SameStartSameSpan(s, q[k], p[k]);
      assert p[..n] == p[..k] + [p[k]] && q[..n] == q[..k] + [q[k]];
    }
  }

  /** There is only one way to split. */
  lemma SplitIsUnique(s: string, p: seq<string>, q: seq<string>)
    requires IsTokenization(s, p) && IsTokenization(s, q)
    ensures p == q
  {
    var x :| IsSplit(s, x, |s|) && p == TokensOf(s, x);
    var y :| IsSplit(s, y, |s|) && q == TokensOf(s, y);
    SpansAreUnique(s, x, y, |x|);
    SpansAreUnique(s, y, x, |y|);
    assert x[..|x|] == x && y[..|x|] == y;
  }

  /** Every token is non-empty and a fixed point: it splits into just itself. */
  lemma TokenIsFixedPoint(s: string, tokens: seq<string>, t: string)
    requires IsTokenization(s, tokens) && t in tokens
    ensures t != "" && IsTokenization(t, [t])
  {
    var spans :| IsSplit(s, spans, |s|) && tokens == TokensOf(s, spans);
    var k :| 0 <= k < |tokens| && tokens[k] == t;
    assert IsNextToken(s, spans, k);
    SpanIsFixedPoint(s, spans[k]);
  }

  /** A lower-case run without a start inside is its own only token. */
  lemma WholeStringIsToken(t: string)
    requires t != "" && forall i :: 0 <= i < |t| ==> IsAlphanumeric(t[i]) && !IsUpperCase(t[i])
    requires forall i :: 0 < i < |t| ==> !IsStart(t, i)
    ensures IsTokenization(t, [t])
  {
    var spans: seq<Span> := [(0, |t|)];
    assert IsTokenSpan(t, spans[0]);
    assert IsNextToken(t, spans, 0);
    LoweredIsItself(t);
    assert TokensOf(t, spans) == [t];
    assert IsSplit(t, spans, |t|);
  }

  lemma LoweredIsItself(t: string)
    requires forall i :: 0 <= i < |t| ==> !IsUpperCase(t[i])
    ensures TokenAt(t, (0, |t|)) == t
  {
    assert t[0..|t|] == t;
  }

  lemma SpanIsFixedPoint(s: string, span: Span)
    requires IsTokenSpan(s, span)
    ensures TokenAt(s, span) != "" && IsTokenization(TokenAt(s, span), [TokenAt(s, span)])
  {
    LoweredTokenHasNoBoundary(s, span);
    WholeStringIsToken(TokenAt(s, span));
  }

  lemma LoweredTokenIsAlphanumeric(s: string, span: Span, i: nat)
    requires IsTokenSpan(s, span) && i < span.1 - span.0
    ensures IsAlphanumeric(s[span.0 + i])
    ensures TokenAt(s, span)[i] == LowerChar(s[span.0 + i])
    ensures IsAlphanumeric(TokenAt(s, span)[i]) && !IsUpperCase(TokenAt(s, span)[i])
  {
    assert s[span.0..span.1][i] == s[span.0 + i];
  }

  lemma LoweredTokenHasNoBoundary(s: string, span: Span)
    requires IsTokenSpan(s, span)
    ensures var t := TokenAt(s, span);
      && (forall i :: 0 <= i < |t| ==> IsAlphanumeric(t[i]) && !IsUpperCase(t[i]))
      && (forall i :: 0 < i < |t| ==> !IsStart(t, i))
  {
    var t := TokenAt(s, span);
    forall i | 0 <= i < |t| ensures IsAlphanumeric(t[i]) && !IsUpperCase(t[i]) {
      LoweredTokenIsAlphanumeric(s, span, i);
    }
    forall i | 0 < i < |t| ensures !IsStart(t, i) {
      LoweredTokenIsAlphanumeric(s, span, i);
      LoweredTokenIsAlphanumeric(s, span, i - 1);
      assert !IsStart(s, span.0 + i);
    }
  }

  // The tokens, as a function

  /** What the loop has recorded and collected after `i` characters. */
  lemma {:induction false} SplitPrefix(s: string, i: nat) returns (spans: seq<Span>, start: nat)
    requires i <= |s|
    ensures start <= i && IsPending(s, start, i) && IsSplit(s, spans, start)
  {
    if i == 0 {
      spans, start := [], 0;
    } else {
      spans, start := SplitPrefix(s, i - 1);
      if !IsAlphanumeric(s[i - 1]) {
        if start < i - 1 {
          Flush(s, spans, start, i - 1);
          spans := spans + [(start, i - 1)];
        }
        AddSeparator(s, spans, i - 1);
        start := i;
      } else {
        Collect(s, start, i - 1);
        if start < i - 1 && IsBoundary(s, i - 1) {
          Flush(s, spans, start, i - 1);
          spans, start := spans + [(start, i - 1)], i - 1;
        }
      }
    }
  }

  lemma TokenizationExists(s: string)
    ensures exists tokens :: IsTokenization(s, tokens)
  {
    var spans, start := SplitPrefix(s, |s|);
    if start < |s| {
      Flush(s, spans, start, |s|);
      spans := spans + [(start, |s|)];
    }
    assert IsTokenization(s, TokensOf(s, spans));
  }

  /** The one tokenization of `s`. */
  ghost function Tokens(s: string): (tokens: seq<string>)
    ensures IsTokenization(s, tokens)
  {
    TokenizationExists(s);
    var tokens :| IsTokenization(s, tokens);
    tokens
  }

  lemma TokensAre(s: string, tokens: seq<string>)
    requires IsTokenization(s, tokens)
    ensures Tokens(s) == tokens
  {
    SplitIsUnique(s, Tokens(s), tokens);
  }
}
