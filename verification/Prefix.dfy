/** src/prefix.rs: the `{server_type}__{instance}__{tool}` name codec. */
module Prefix {
  import opened Wrappers
  import Sequences

  const DELIMITER := "__"

  function EncodeToolName(serverType: string, instance: Option<string>, tool: string): string {
    match instance
    case Some(inst) => serverType + DELIMITER + (inst + DELIMITER + tool)
    case None => serverType + DELIMITER + tool
  }

  predicate DelimiterAt(s: string, i: int) {
    0 <= i <= |s| - 2 && s[i] == '_' && s[i + 1] == '_'
  }

  predicate HasDelimiter(s: string) {
    exists i :: 0 <= i < |s| && DelimiterAt(s, i)
  }

  /** The position of the leftmost delimiter, or the length when there is none. */
  function FindDelimiter(s: string): (i: nat)
    ensures i <= |s|
    ensures forall j :: 0 <= j < i ==> !DelimiterAt(s, j)
    ensures i < |s| ==> DelimiterAt(s, i)
    ensures i == |s| <==> !HasDelimiter(s)
  {
    if |s| < 2 then |s|
    else if DelimiterAt(s, 0) then 0
    else
      var i := FindDelimiter(s[1..]);
      assert forall j :: 1 <= j ==> (DelimiterAt(s, j) <==> DelimiterAt(s[1..], j - 1));
      assert i == |s| - 1 <==> !HasDelimiter(s) by {
        if i < |s| - 1 {
          assert DelimiterAt(s, i + 1);
        }
      }
      i + 1
  }

  datatype PrefixError = MissingSegment | EmptySegment | EmptyTool

  datatype ToolName = ToolName(serverType: string, instance: Option<string>, tool: string)

  /** `splitn(3, "__")` and the checks on its parts. */
  function DecodeToolName(prefixed: string): Result<ToolName, PrefixError> {
    var i := FindDelimiter(prefixed);
    if i == |prefixed| then Err(MissingSegment)
    else
      var serverType, rest := prefixed[..i], prefixed[i + 2..];
      var j := FindDelimiter(rest);
      var second := rest[..j];
      if serverType == "" || second == "" then Err(EmptySegment)
      else if j == |rest| then Ok(ToolName(serverType, None, second))
      else
        var tool := rest[j + 2..];
        if tool == "" then Err(EmptyTool) else Ok(ToolName(serverType, Some(second), tool))
  }

  /** A segment that the leftmost following delimiter closes: non-empty, delimiter-free, not ending in `_`. */
  predicate IsSegment(s: string) {
    s != "" && !HasDelimiter(s) && s[|s| - 1] != '_'
  }

  /** The leftmost delimiter of `s + "__" + rest` follows `s` exactly when `s` neither holds one nor ends in `_`. */
  lemma LeftmostDelimiter(s: string, rest: string)
    ensures FindDelimiter(s + DELIMITER + rest) == |s| <==> !HasDelimiter(s) && (s == "" || s[|s| - 1] != '_')
  {
    var all := s + DELIMITER + rest;
    var i := FindDelimiter(all);
    assert DelimiterAt(all, |s|);
    assert forall k :: 0 <= k < |s| ==> all[k] == s[k];
    assert forall k :: 0 <= k < |s| - 1 ==> (DelimiterAt(all, k) <==> DelimiterAt(s, k));
    if s != "" && s[|s| - 1] == '_' {
      assert DelimiterAt(all, |s| - 1);
    }
    if HasDelimiter(s) {
      var k :| 0 <= k < |s| && DelimiterAt(s, k);
      assert DelimiterAt(all, k);
    }
  }

  lemma SplitAtDelimiter(s: string, i: nat)
    requires DelimiterAt(s, i)
    ensures s == s[..i] + DELIMITER + s[i + 2..]
  {
    assert s[i..i + 2] == DELIMITER;
  }

  /** Encoding undoes decoding, on every string the decoder accepts. */
  lemma EncodeInvertsDecode(prefixed: string)
    requires DecodeToolName(prefixed).Ok?
    ensures var name := DecodeToolName(prefixed).value;
      EncodeToolName(name.serverType, name.instance, name.tool) == prefixed
  {
    var i := FindDelimiter(prefixed);
    SplitAtDelimiter(prefixed, i);
    var rest := prefixed[i + 2..];
    var j := FindDelimiter(rest);
    if j < |rest| {
      SplitAtDelimiter(rest, j);
      Sequences.Associative(rest[..j], DELIMITER, rest[j + 2..]);
    }
  }

  /** The names the codec can carry. */
  predicate IsEncodable(name: ToolName) {
    && IsSegment(name.serverType)
    && name.tool != ""
    && match name.instance
       case Some(inst) => IsSegment(inst)
       case None => !HasDelimiter(name.tool)
  }

  lemma DecodeSplit(first: string, rest: string)
    requires FindDelimiter(first + DELIMITER + rest) == |first|
    ensures (first + DELIMITER + rest)[..|first|] == first
    ensures (first + DELIMITER + rest)[|first| + 2..] == rest
  {
  }

  /** What follows the first delimiter of an encoded name. */
  function Tail(instance: Option<string>, tool: string): string {
    if instance.Some? then instance.value + DELIMITER + tool else tool
  }

  /** The decoder's second cut. */
  function DecodeTail(rest: string): Result<(Option<string>, string), PrefixError> {
    var j := FindDelimiter(rest);
    if rest[..j] == "" then Err(EmptySegment)
    else if j == |rest| then Ok((None, rest))
    else if rest[j + 2..] == "" then Err(EmptyTool)
    else Ok((Some(rest[..j]), rest[j + 2..]))
  }

  lemma DecodeInTwoCuts(first: string, rest: string)
    requires FindDelimiter(first + DELIMITER + rest) == |first| && first != ""
    ensures DecodeToolName(first + DELIMITER + rest) ==
            var t := DecodeTail(rest);
            if t.Ok? then Ok(ToolName(first, t.value.0, t.value.1)) else Err(t.error)
  {
    var all := first + DELIMITER + rest;
    DecodeSplit(first, rest);
    assert DelimiterAt(all, |first|) && FindDelimiter(all) < |all|;
    CutAfterFirst(all);
  }

  /** The decoder, with its second cut named. */
  lemma CutAfterFirst(prefixed: string)
    requires FindDelimiter(prefixed) < |prefixed| && FindDelimiter(prefixed) > 0
    ensures DecodeToolName(prefixed) ==
            var i := FindDelimiter(prefixed);
            var t := DecodeTail(prefixed[i + 2..]);
            if t.Ok? then Ok(ToolName(prefixed[..i], t.value.0, t.value.1)) else Err(t.error)
  {
    var i := FindDelimiter(prefixed);
    var first, rest := prefixed[..i], prefixed[i + 2..];
    var j := FindDelimiter(rest);
    var second := rest[..j];
    assert |first| == i && first != "";
    if j == |rest| {
      assert second == rest;
    } else {
      var tool := rest[j + 2..];
    }
  }

  predicate IsTail(instance: Option<string>, tool: string) {
    tool != "" && if instance.Some? then IsSegment(instance.value) else !HasDelimiter(tool)
  }

  lemma DecodeTailInvertsTail(instance: Option<string>, tool: string)
    ensures DecodeTail(Tail(instance, tool)) == Ok((instance, tool)) <==> IsTail(instance, tool)
  {
    var rest := Tail(instance, tool);
    if instance.Some? {
      var inst := instance.value;
      LeftmostDelimiter(inst, tool);
      if FindDelimiter(rest) == |inst| {
        DecodeSplit(inst, tool);
        assert DelimiterAt(rest, |inst|);
      }
    } else {
      assert rest[..|rest|] == rest;
    }
  }

  lemma FirstCut(prefixed: string)
    requires DecodeToolName(prefixed).Ok?
    ensures DecodeToolName(prefixed).value.serverType == prefixed[..FindDelimiter(prefixed)]
  {
  }

  lemma EncodedHasTail(name: ToolName)
    ensures EncodeToolName(name.serverType, name.instance, name.tool) ==
            name.serverType + DELIMITER + Tail(name.instance, name.tool)
  {
    if name.instance.Some? {
      Sequences.Associative(name.instance.value, DELIMITER, name.tool);
    }
  }

  /** Decoding undoes encoding exactly for the encodable names. */
  lemma DecodeInvertsEncode(name: ToolName)
    ensures DecodeToolName(EncodeToolName(name.serverType, name.instance, name.tool)) == Ok(name) <==> IsEncodable(name)
  {
    var rest := Tail(name.instance, name.tool);
    var all := name.serverType + DELIMITER + rest;
    EncodedHasTail(name);
    LeftmostDelimiter(name.serverType, rest);
    DecodeTailInvertsTail(name.instance, name.tool);
    if FindDelimiter(all) == |name.serverType| && name.serverType != "" {
      DecodeInTwoCuts(name.serverType, rest);
    } else if DecodeToolName(all).Ok? {
      FirstCut(all);
    }
  }

  /** Two encodable names never collide. */
  lemma EncodingIsInjective(a: ToolName, b: ToolName)
    requires IsEncodable(a) && IsEncodable(b)
    requires EncodeToolName(a.serverType, a.instance, a.tool) == EncodeToolName(b.serverType, b.instance, b.tool)
    ensures a == b
  {
    DecodeInvertsEncode(a);
    DecodeInvertsEncode(b);
  }

  /** As a bare prefix a segment is recovered whatever the tool, so catalogues can use any tool names. */
  lemma PrefixIsRecovered(prefix: string, prefix': string, tool: string, tool': string)
    requires IsSegment(prefix) && IsSegment(prefix')
    requires EncodeToolName(prefix, None, tool) == EncodeToolName(prefix', None, tool')
    ensures prefix == prefix' && tool == tool'
  {
    LeftmostDelimiter(prefix, tool);
    LeftmostDelimiter(prefix', tool');
    DecodeSplit(prefix, tool);
    DecodeSplit(prefix', tool');
  }

  // Prefixes in one catalogue

  /** What configuration asks of a tool prefix: `^[a-z0-9][a-z0-9_-]*$`. */
  predicate IsValidPrefix(s: string) {
    s != "" && forall i :: 0 <= i < |s| ==>
      'a' <= s[i] <= 'z' || '0' <= s[i] <= '9' || (i > 0 && (s[i] == '_' || s[i] == '-'))
  }

  predicate Separable(p: string, q: string) {
    !(p + DELIMITER <= q + DELIMITER) && !(q + DELIMITER <= p + DELIMITER)
  }

  /** Two endpoints can come to share a tool name exactly when their prefixes are not separable. */
  lemma PrefixesCollideExactly(p: string, q: string)
    ensures !Separable(p, q) <==>
            exists t, u :: t != "" && u != "" && EncodeToolName(p, None, t) == EncodeToolName(q, None, u)
  {
    var a, b := p + DELIMITER, q + DELIMITER;
    if a <= b {
      SharedName(p, q);
    } else if b <= a {
      SharedName(q, p);
    } else {
      forall t, u ensures EncodeToolName(p, None, t) != EncodeToolName(q, None, u) {
        if a + t == b + u {
          StartsOfOneString(a, t, b, u);
        }
      }
    }
  }

  lemma StartsOfOneString(a: string, t: string, b: string, u: string)
    requires a + t == b + u
    ensures a <= b || b <= a
  {
    var whole := a + t;
    assert a == whole[..|a|] && b == whole[..|b|];
  }

  lemma SharedName(p: string, q: string)
    requires p + DELIMITER <= q + DELIMITER
    ensures exists t, u :: t != "" && u != "" && EncodeToolName(p, None, t) == EncodeToolName(q, None, u)
    ensures exists t, u :: t != "" && u != "" && EncodeToolName(q, None, t) == EncodeToolName(p, None, u)
  {
    var a, b := p + DELIMITER, q + DELIMITER;
    var t := b[|a|..] + "x";
    assert b == a + b[|a|..];
    assert a + t == b + "x";
    assert EncodeToolName(p, None, t) == EncodeToolName(q, None, "x");
  }

  /** Distinct prefixes that are segments never collide, whatever the tools are called. */
  lemma DistinctSegmentsAreSeparable(p: string, q: string)
    requires IsSegment(p) && IsSegment(q) && p != q
    ensures Separable(p, q)
  {
    if p + DELIMITER <= q + DELIMITER { NotAProperStart(p, q); }
    if q + DELIMITER <= p + DELIMITER { NotAProperStart(q, p); }
  }

  lemma NotAProperStart(p: string, q: string)
    requires IsSegment(q) && p + DELIMITER <= q + DELIMITER
    ensures p == q
  {
    var all := q + DELIMITER;
    LeftmostDelimiter(q, "");
    assert all + "" == all;
    assert all[..|p| + 2] == p + DELIMITER;
    assert all[|p|] == (p + DELIMITER)[|p|] && all[|p| + 1] == (p + DELIMITER)[|p| + 1];
    assert DelimiterAt(all, |p|);
    assert p == all[..|p|];
  }

  /** Configuration accepts pairs of prefixes that are distinct and yet collide. */
  lemma ValidPrefixesMayCollide(tool: string)
    ensures IsValidPrefix("a") && IsValidPrefix("a__b") && !Separable("a", "a__b")
    ensures EncodeToolName("a", None, "b__" + tool) == EncodeToolName("a__b", None, tool)
  {
    assert "a" + DELIMITER <= "a__b" + DELIMITER;
    assert "a" + DELIMITER + ("b__" + tool) == "a__b" + DELIMITER + tool;
  }
}
