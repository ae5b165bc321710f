/** Wrapped URI templates under RFC 6570 level-1 expansion (src/resource_uri.rs, slot #5). */
module UriTemplate {
  import opened Wrappers
  import opened Utf8
  import opened ResourceUri
  import Sequences

  // RFC 6570, level 1

  predicate IsReserved(c: char) {
    || c == ':' || c == '/' || c == '?' || c == '#' || c == '[' || c == ']' || c == '@' || c == '!' || c == '$'
    || c == '&' || c == '\'' || c == '(' || c == ')' || c == '*' || c == '+' || c == ',' || c == ';' || c == '='
  }

  /** A `varchar` without escapes (section 2.3): ALPHA / DIGIT / `_`. */
  predicate IsVarChar(c: char) {
    'a' <= c <= 'z' || 'A' <= c <= 'Z' || '0' <= c <= '9' || c == '_'
  }

  predicate IsNameChar(c: char) {
    IsVarChar(c) || c == '.'
  }

  /** Position `i` lies inside `s`, and the one before it holds no dot. */
  predicate IsInnerAfterNoDot(s: string, i: int) {
    0 < i < |s| - 1 && s[i - 1] != '.'
  }

  /** A `varname`: varchars, with single dots between them. */
  predicate IsName(name: string) {
    && name != ""
    && (forall i :: 0 <= i < |name| ==> IsNameChar(name[i]))
    && forall i :: 0 <= i < |name| && name[i] == '.' ==> IsInnerAfterNoDot(name, i)
  }

  lemma NameCharacters(name: string)
    requires IsName(name)
    ensures forall i :: 0 <= i < |name| ==> IsUnreserved(name[i]) && !IsBrace(name[i]) && name[i] != '/'
    ensures IsAllUnreserved(name) && '}' !in name && '/' !in name
  {
    forall i | 0 <= i < |name| ensures IsUnreserved(name[i]) && !IsBrace(name[i]) && name[i] != '/' {
      assert IsNameChar(name[i]);
    }
  }

  function FindClose(s: string): (i: nat)
    ensures i <= |s|
    ensures '}' !in s[..i]
    ensures i < |s| ==> s[i] == '}'
  {
    if s == "" || s[0] == '}' then 0
    else
      var rest := FindClose(s[1..]);
      assert s[..1 + rest] == [s[0]] + s[1..][..rest];
      1 + rest
  }

  /** `s` opens with an expression `{name}`. */
  predicate StartsWithExpression(s: string) {
    s != "" && s[0] == '{' && FindClose(s) < |s| && 1 <= FindClose(s) && IsName(s[1..FindClose(s)])
  }

  /** Literals and `{name}` expressions only (RFC 6570 section 1.2). */
  predicate IsLevel1(s: string) {
    if s == "" then true
    else if s[0] == '{' then StartsWithExpression(s) && IsLevel1(s[FindClose(s) + 1..])
    else s[0] != '}' && IsLevel1(s[1..])
  }

  /** `s` opens with an escape `%HH`. */
  predicate StartsWithTriplet(s: string) {
    |s| >= 3 && s[0] == '%' && HexValue(s[1]).Some? && HexValue(s[2]).Some?
  }

  /** An undefined variable has the empty expansion (section 3.2.1). */
  function ValueOf(env: map<string, string>, name: string): string {
    if name in env then env[name] else ""
  }

  /** Section 3.1 for literals, section 3.2.2 for expressions. */
  function Expand(env: map<string, string>, s: string): string
    requires IsLevel1(s)
  {
    if s == "" then ""
    else if StartsWithExpression(s) then
      var close := FindClose(s);
      PercentEncode(Plain, Utf8.Encode(ValueOf(env, s[1..close]))) + Expand(env, s[close + 1..])
    else if StartsWithTriplet(s) then
      s[..3] + Expand(env, TripletTail(s))
    else if IsUnreserved(s[0]) || IsReserved(s[0]) then
      [s[0]] + Expand(env, s[1..])
    else
      PercentEncode(Plain, EncodeChar(s[0])) + Expand(env, s[1..])
  }

  function TripletTail(s: string): (t: string)
    requires IsLevel1(s) && StartsWithTriplet(s)
    ensures IsLevel1(t) && t == s[3..]
  {
    TripletIsLiteral(s);
    s[3..]
  }

  lemma TripletIsLiteral(s: string)
    requires StartsWithTriplet(s)
    ensures IsLevel1(s) <==> IsLevel1(s[3..])
  {
    var s1 := s[1..];
    var s2 := s1[1..];
    assert s1[0] == s[1] && s2[0] == s[2] && s2[1..] == s[3..];
    assert IsLevel1(s) <==> IsLevel1(s1);
    assert IsLevel1(s1) <==> IsLevel1(s2);
    assert IsLevel1(s2) <==> IsLevel1(s2[1..]);
  }

  /** The template with every value put in verbatim. */
  function Substitute(env: map<string, string>, s: string): string
    requires IsLevel1(s)
  {
    if s == "" then ""
    else if StartsWithExpression(s) then
      var close := FindClose(s);
      ValueOf(env, s[1..close]) + Substitute(env, s[close + 1..])
    else [s[0]] + Substitute(env, s[1..])
  }

  // Expanding a wrapped template

  lemma CopiedLiteral(env: map<string, string>, c: char, rest: string)
    requires IsUnreserved(c) || IsReserved(c)
    requires IsLevel1(rest)
    ensures IsLevel1([c] + rest) && Expand(env, [c] + rest) == [c] + Expand(env, rest)
  {
    var s := [c] + rest;
    assert s[0] == c && s[1..] == rest && c != '{' && c != '}' && c != '%';
  }

  lemma {:induction false} CopiedLiterals(env: map<string, string>, literal: string, rest: string)
    requires forall i :: 0 <= i < |literal| ==> IsUnreserved(literal[i]) || IsReserved(literal[i])
    requires IsLevel1(rest)
    ensures IsLevel1(literal + rest) && Expand(env, literal + rest) == literal + Expand(env, rest)
  {
    if literal == "" {
      assert literal + rest == rest;
    } else {
      var tail := literal[1..] + rest;
      CopiedLiterals(env, literal[1..], rest);
      CopiedLiteral(env, literal[0], tail);
      Sequences.HeadTail(literal, rest);
      Sequences.HeadTail(literal, Expand(env, rest));
    }
  }

  predicate NoBraces(bs: seq<byte>) {
    forall i :: 0 <= i < |bs| ==> !IsBrace(bs[i] as char)
  }

  /** One encoded byte is copied by expansion. */
  lemma CopiedByte(env: map<string, string>, b: byte, rest: string)
    requires !IsBrace(b as char) && IsLevel1(rest)
    ensures IsLevel1(EncodeByte(Template, b) + rest)
    ensures Expand(env, EncodeByte(Template, b) + rest) == EncodeByte(Template, b) + Expand(env, rest)
  {
    EncodeSetIsComplementOfUnreserved(Template, b);
    var head := EncodeByte(Template, b);
    var s := head + rest;
    if MustEncode(Template, b) {
      assert s[0] == '%' && s[1] == head[1] && s[2] == head[2];
      assert s[..3] == head && s[3..] == rest;
      TripletIsLiteral(s);
    } else {
      assert s[1..] == rest;
    }
  }

  lemma {:induction false} CopiedBytes(env: map<string, string>, bs: seq<byte>, rest: string)
    requires NoBraces(bs) && IsLevel1(rest)
    ensures IsLevel1(PercentEncode(Template, bs) + rest)
    ensures Expand(env, PercentEncode(Template, bs) + rest) == PercentEncode(Template, bs) + Expand(env, rest)
  {
    if bs == [] {
      assert PercentEncode(Template, bs) + rest == rest;
    } else {
      var head, tail := EncodeByte(Template, bs[0]), PercentEncode(Template, bs[1..]);
      CopiedBytes(env, bs[1..], rest);
      CopiedByte(env, bs[0], tail + rest);
      Sequences.Associative(head, tail, rest);
      Sequences.Associative(head, tail, Expand(env, rest));
    }
  }

  lemma {:induction false} PercentEncodeConcat(set_: EncodeSet, a: seq<byte>, b: seq<byte>)
    ensures PercentEncode(set_, a + b) == PercentEncode(set_, a) + PercentEncode(set_, b)
  {
    if a == [] {
      assert a + b == b;
    } else {
      assert (a + b)[1..] == a[1..] + b;
      PercentEncodeConcat(set_, a[1..], b);
    }
  }

  /** Wrapping leaves an expression as it is. */
  lemma {:induction false} KeptCharacters(s: string)
    requires forall i :: 0 <= i < |s| ==> IsUnreserved(s[i]) || IsBrace(s[i])
    ensures PercentEncode(Template, Utf8.Encode(s)) == s
  {
    if s != "" {
      KeptCharacters(s[1..]);
      var b := s[0] as int;
      assert EncodeChar(s[0]) == [b];
      EncodeSetIsComplementOfUnreserved(Template, b);
      assert s == [s[0]] + s[1..];
    }
  }

  lemma {:induction false} FindCloseAt(name: string, rest: string)
    requires '}' !in name
    ensures FindClose(name + "}" + rest) == |name|
  {
    if name != "" {
      assert (name + "}" + rest)[1..] == name[1..] + "}" + rest;
      FindCloseAt(name[1..], rest);
    }
  }

  lemma ExpressionThen(env: map<string, string>, name: string, rest: string)
    requires IsName(name) && IsLevel1(rest)
    ensures IsLevel1("{" + name + "}" + rest)
    ensures Expand(env, "{" + name + "}" + rest) ==
            PercentEncode(Plain, Utf8.Encode(ValueOf(env, name))) + Expand(env, rest)
  {
    var s := "{" + name + "}" + rest;
    assert s == ("{" + name) + "}" + rest;
    NameCharacters(name);
    FindCloseAt("{" + name, rest);
    assert s[1..FindClose(s)] == name;
    assert s[FindClose(s) + 1..] == rest;
  }

  function Payload(s: string): string {
    PercentEncode(Template, Utf8.Encode(s))
  }

  lemma PayloadConcat(s: string, t: string)
    ensures Payload(s + t) == Payload(s) + Payload(t)
  {
    Utf8.EncodeConcat(s, t);
    PercentEncodeConcat(Template, Utf8.Encode(s), Utf8.Encode(t));
  }

  /** What expanding the payload of `s` and decoding it comes to. */
  ghost predicate IsPutIn(env: map<string, string>, s: string) {
    && IsLevel1(s) && IsLevel1(Payload(s))
    && PercentDecode(Utf8.Encode(Expand(env, Payload(s)))) == Utf8.Encode(Substitute(env, s))
  }

  lemma PutInExpression(env: map<string, string>, name: string, rest: string)
    requires IsName(name) && IsPutIn(env, rest)
    ensures IsLevel1(Payload("{" + name + "}" + rest))
    ensures PercentDecode(Utf8.Encode(Expand(env, Payload("{" + name + "}" + rest)))) ==
            Utf8.Encode(ValueOf(env, name)) + Utf8.Encode(Substitute(env, rest))
  {
    PayloadConcat("{" + name + "}", rest);
    NameCharacters(name);
    KeptCharacters("{" + name + "}");
    ExpressionThen(env, name, Payload(rest));
    var value := Utf8.Encode(ValueOf(env, name));
    Utf8.EncodeConcat(PercentEncode(Plain, value), Expand(env, Payload(rest)));
    PercentRoundTrip(Plain, value, Utf8.Encode(Expand(env, Payload(rest))));
  }

  lemma PutInLiteral(env: map<string, string>, c: char, rest: string)
    requires !IsBrace(c) && IsPutIn(env, rest)
    ensures IsLevel1(Payload([c] + rest))
    ensures PercentDecode(Utf8.Encode(Expand(env, Payload([c] + rest))))
            == EncodeChar(c) + Utf8.Encode(Substitute(env, rest))
  {
    var bs := EncodeChar(c);
    assert NoBraces(bs);
    assert ([c] + rest)[0] == c && ([c] + rest)[1..] == rest;
    assert Utf8.Encode([c] + rest) == bs + Utf8.Encode(rest);
    PercentEncodeConcat(Template, bs, Utf8.Encode(rest));
    CopiedBytes(env, bs, Payload(rest));
    Utf8.EncodeConcat(PercentEncode(Template, bs), Expand(env, Payload(rest)));
    PercentRoundTrip(Template, bs, Utf8.Encode(Expand(env, Payload(rest))));
  }

  lemma ExpressionParts(s: string)
    requires StartsWithExpression(s)
    ensures s == "{" + s[1..FindClose(s)] + "}" + s[FindClose(s) + 1..]
  {
  }

  lemma EncodedSubstitution(env: map<string, string>, s: string)
    requires IsLevel1(s) && s != ""
    ensures Utf8.Encode(Substitute(env, s)) ==
            if StartsWithExpression(s)
            then Utf8.Encode(ValueOf(env, s[1..FindClose(s)])) + Utf8.Encode(Substitute(env, s[FindClose(s) + 1..]))
            else EncodeChar(s[0]) + Utf8.Encode(Substitute(env, s[1..]))
  {
    if StartsWithExpression(s) {
      Utf8.EncodeConcat(ValueOf(env, s[1..FindClose(s)]), Substitute(env, s[FindClose(s) + 1..]));
    } else {
      Utf8.EncodeConcat([s[0]], Substitute(env, s[1..]));
      OneCharacter(s[0]);
    }
  }

  /** Expanding the wrapped payload and decoding it puts every value in verbatim. */
  lemma {:induction false} ExpandedPayload(env: map<string, string>, s: string)
    requires IsLevel1(s)
    ensures IsPutIn(env, s)
  {
    if s != "" {
      EncodedSubstitution(env, s);
      if StartsWithExpression(s) {
        ExpandedPayload(env, s[FindClose(s) + 1..]);
        ExpressionParts(s);
        PutInExpression(env, s[1..FindClose(s)], s[FindClose(s) + 1..]);
      } else {
        ExpandedPayload(env, s[1..]);
        PutInLiteral(env, s[0], s[1..]);
        assert s == [s[0]] + s[1..];
      }
    }
  }

  lemma OneCharacter(c: char)
    ensures Utf8.Encode([c]) == EncodeChar(c)
  {
    assert [c][1..] == "" && EncodeChar(c) + [] == EncodeChar(c);
  }

  // The wrapper around it, for any endpoint name

  lemma {:induction false} CloseIsFirst(s: string, i: nat)
    requires i < |s| && s[i] == '}' && '}' !in s[..i]
    ensures FindClose(s) == i
  {
    if i > 0 {
      assert s[..i][0] == s[0];
      assert s[1..][..i - 1] == s[..i][1..];
      CloseIsFirst(s[1..], i - 1);
    }
  }

  lemma FirstClose(a: string, b: string)
    requires FindClose(a + b) < |a| || FindClose(a) < |a|
    ensures FindClose(a + b) == FindClose(a)
  {
    var all := a + b;
    if FindClose(all) < |a| {
      assert a[..FindClose(all)] == all[..FindClose(all)];
      CloseIsFirst(a, FindClose(all));
    }
    if FindClose(a) < |a| {
      assert all[..FindClose(a)] == a[..FindClose(a)];
      CloseIsFirst(all, FindClose(a));
    }
  }

  lemma EndsBeforeSlash(a: string, b: string, i: nat)
    requires b != "" && b[0] == '/' && i < |a + b|
    requires (a + b)[i] != '/' && forall k :: 0 <= k < i ==> (a + b)[k] != '/'
    ensures i < |a|
  {
    assert (a + b)[|a|] == '/';
  }

  /** An expression does not reach over a slash. */
  lemma ExpressionUpToSlash(a: string, b: string)
    requires a != "" && b != "" && b[0] == '/'
    ensures StartsWithExpression(a + b) <==> StartsWithExpression(a)
    ensures StartsWithExpression(a) ==> FindClose(a + b) == FindClose(a)
  {
    var all := a + b;
    if StartsWithExpression(a) {
      FirstClose(a, b);
      assert a[1..FindClose(a)] == all[1..FindClose(a)];
    }
    if StartsWithExpression(all) {
      var i := FindClose(all);
      NameCharacters(all[1..i]);
      forall k | 0 <= k < i ensures all[k] != '/' {
        assert k > 0 ==> all[1..i][k - 1] == all[k];
      }
      EndsBeforeSlash(a, b, i);
      FirstClose(a, b);
      assert a[1..i] == all[1..i];
    }
  }

  /** Nor does an escape. */
  lemma TripletUpToSlash(a: string, b: string)
    requires a != "" && b != "" && b[0] == '/'
    ensures StartsWithTriplet(a + b) <==> StartsWithTriplet(a)
  {
    var all := a + b;
    assert forall i :: 0 <= i < |a| ==> all[i] == a[i];
    assert all[|a|] == '/' && HexValue('/').None?;
  }

  ghost predicate ExpandsByParts(env: map<string, string>, a: string, b: string) {
    IsLevel1(a) && IsLevel1(b) && IsLevel1(a + b) && Expand(env, a + b) == Expand(env, a) + Expand(env, b)
  }

  lemma ExpandExpression(env: map<string, string>, s: string)
    requires StartsWithExpression(s) && IsLevel1(s[FindClose(s) + 1..])
    ensures IsLevel1(s)
    ensures Expand(env, s) == ExpandedValue(env, s[1..FindClose(s)]) + Expand(env, s[FindClose(s) + 1..])
  {
  }

  lemma PartsOfConcat(a: string, b: string, i: nat)
    requires 1 <= i < |a|
    ensures (a + b)[1..i] == a[1..i] && (a + b)[i + 1..] == a[i + 1..] + b
  {
  }

  function ExpandedValue(env: map<string, string>, name: string): string {
    PercentEncode(Plain, Utf8.Encode(ValueOf(env, name)))
  }

  lemma ExpressionByParts(env: map<string, string>, a: string, b: string)
    requires StartsWithExpression(a) && StartsWithExpression(a + b) && FindClose(a + b) == FindClose(a)
    requires ExpandsByParts(env, a[FindClose(a) + 1..], b)
    ensures ExpandsByParts(env, a, b)
  {
    var i := FindClose(a);
    PartsOfConcat(a, b, i);
    ExpandExpression(env, a);
    ExpandExpression(env, a + b);
    Sequences.Associative(ExpandedValue(env, a[1..i]), Expand(env, a[i + 1..]), Expand(env, b));
  }

  lemma TripletByParts(env: map<string, string>, a: string, b: string)
    requires StartsWithTriplet(a) && ExpandsByParts(env, a[3..], b)
    ensures ExpandsByParts(env, a, b)
  {
    var all := a + b;
    assert all[3..] == a[3..] + b && all[..3] == a[..3];
    TripletIsLiteral(a);
    TripletIsLiteral(all);
    Sequences.Associative(a[..3], Expand(env, a[3..]), Expand(env, b));
  }

  function ExpandedLiteral(c: char): string {
    if IsUnreserved(c) || IsReserved(c) then [c] else PercentEncode(Plain, EncodeChar(c))
  }

  lemma ExpandLiteral(env: map<string, string>, s: string)
    requires s != "" && !IsBrace(s[0]) && !StartsWithTriplet(s) && IsLevel1(s[1..])
    ensures IsLevel1(s) && Expand(env, s) == ExpandedLiteral(s[0]) + Expand(env, s[1..])
  {
  }

  lemma LiteralByParts(env: map<string, string>, a: string, b: string)
    requires a != "" && !IsBrace(a[0]) && !StartsWithTriplet(a) && !StartsWithTriplet(a + b)
    requires ExpandsByParts(env, a[1..], b)
    ensures ExpandsByParts(env, a, b)
  {
    assert (a + b)[1..] == a[1..] + b;
    ExpandLiteral(env, a);
    ExpandLiteral(env, a + b);
    Sequences.Associative(ExpandedLiteral(a[0]), Expand(env, a[1..]), Expand(env, b));
  }

  /** Expansion of a level-1 name in front of a slash goes part by part. */
  lemma {:induction false} ExpandUpToSlash(env: map<string, string>, a: string, b: string)
    requires IsLevel1(a) && IsLevel1(b) && b != "" && b[0] == '/'
    ensures ExpandsByParts(env, a, b)
  {
    if a == "" {
      assert a + b == b && "" + Expand(env, b) == Expand(env, b);
    } else if StartsWithExpression(a) {
      ExpressionUpToSlash(a, b);
      ExpandUpToSlash(env, a[FindClose(a) + 1..], b);
      ExpressionByParts(env, a, b);
    } else if StartsWithTriplet(a) {
      TripletIsLiteral(a);
      ExpandUpToSlash(env, a[3..], b);
      TripletByParts(env, a, b);
    } else {
      TripletUpToSlash(a, b);
      ExpandUpToSlash(env, a[1..], b);
      LiteralByParts(env, a, b);
    }
  }

  lemma {:induction false} Level1UpToSlash(a: string, b: string)
    requires b != "" && b[0] == '/' && IsLevel1(b)
    ensures IsLevel1(a + b) <==> IsLevel1(a)
  {
    if a == "" {
      assert a + b == b;
    } else if a[0] == '{' {
      ExpressionUpToSlash(a, b);
      if StartsWithExpression(a) {
        var n := FindClose(a) + 1;
        assert (a + b)[n..] == a[n..] + b;
        Level1UpToSlash(a[n..], b);
      }
    } else {
      assert (a + b)[1..] == a[1..] + b;
      Level1UpToSlash(a[1..], b);
    }
  }

  lemma {:induction false} Level1AfterLiterals(literal: string, rest: string)
    requires forall i :: 0 <= i < |literal| ==> !IsBrace(literal[i])
    ensures IsLevel1(literal + rest) <==> IsLevel1(rest)
  {
    if literal == "" {
      assert literal + rest == rest;
    } else {
      assert (literal + rest)[1..] == literal[1..] + rest;
      Level1AfterLiterals(literal[1..], rest);
    }
  }

  /** The wrapped template in three parts. */
  lemma WrappedParts(endpoint: string, s: string)
    ensures EncodeResourceUriTemplate(endpoint, s) == WRAPPER_PREFIX + (endpoint + ("/" + Payload(s)))
  {
  }

  /** The wrapped template is of level 1 exactly when the endpoint name, read as a template, is. */
  lemma WrappedIsLevel1Exactly(endpoint: string, s: string)
    requires IsLevel1(s)
    ensures IsLevel1(EncodeResourceUriTemplate(endpoint, s)) <==> IsLevel1(endpoint)
  {
    WrappedParts(endpoint, s);
    ExpandedPayload(map[], s);
    Level1AfterLiterals("/", Payload(s));
    Level1UpToSlash(endpoint, "/" + Payload(s));
    Level1AfterLiterals(WRAPPER_PREFIX, endpoint + ("/" + Payload(s)));
  }

  lemma ExpandWrapped(env: map<string, string>, endpoint: string, s: string)
    requires IsLevel1(endpoint) && IsLevel1(s)
    ensures IsLevel1(EncodeResourceUriTemplate(endpoint, s)) && IsLevel1(Payload(s))
    ensures Expand(env, EncodeResourceUriTemplate(endpoint, s)) ==
            WRAPPER_PREFIX + (Expand(env, endpoint) + ("/" + Expand(env, Payload(s))))
  {
    WrappedParts(endpoint, s);
    ExpandedPayload(env, s);
    CopiedLiterals(env, "/", Payload(s));
    ExpandUpToSlash(env, endpoint, "/" + Payload(s));
    CopiedLiterals(env, WRAPPER_PREFIX, endpoint + ("/" + Payload(s)));
  }

  /**
   * Expanding a wrapped template and decoding gives the template's verbatim instance, under
   * the expansion of the endpoint name, which expansion takes for a part of the template.
   */
  lemma ExpandThenDecode(env: map<string, string>, endpoint: string, s: string)
    requires IsLevel1(endpoint) && IsLevel1(s)
    ensures IsLevel1(EncodeResourceUriTemplate(endpoint, s))
    ensures IsWrappableEndpoint(Expand(env, endpoint)) ==>
              DecodeResourceUri(Expand(env, EncodeResourceUriTemplate(endpoint, s))) ==
              Ok((Expand(env, endpoint), Substitute(env, s)))
  {
    ExpandWrapped(env, endpoint, s);
    var name, payload := Expand(env, endpoint), Expand(env, Payload(s));
    if IsWrappableEndpoint(name) {
      ExpandedPayload(env, s);
      assert WRAPPER_PREFIX + (name + ("/" + payload)) == WRAPPER_PREFIX + name + "/" + payload;
      DecodeWrapped(name, payload);
      Utf8.DecodeEncode(Substitute(env, s));
    }
  }

  // When that instance is also the expansion of the original template

  /** Section 3.1 copies every literal of `s`, and every value used is unreserved. */
  predicate IsCopiedVerbatim(env: map<string, string>, s: string)
    requires IsLevel1(s)
  {
    if s == "" then true
    else if StartsWithExpression(s) then
      IsAllUnreserved(ValueOf(env, s[1..FindClose(s)])) && IsCopiedVerbatim(env, s[FindClose(s) + 1..])
    else if StartsWithTriplet(s) then IsCopiedVerbatim(env, TripletTail(s))
    else (IsUnreserved(s[0]) || IsReserved(s[0])) && IsCopiedVerbatim(env, s[1..])
  }

  lemma EncodedHead(v: string)
    requires v != ""
    ensures PercentEncode(Plain, Utf8.Encode(v)) == PercentEncode(Plain, EncodeChar(v[0]))
            + PercentEncode(Plain, Utf8.Encode(v[1..]))
    ensures |Utf8.Encode(v)| == |EncodeChar(v[0])| + |Utf8.Encode(v[1..])|
  {
    PercentEncodeConcat(Plain, EncodeChar(v[0]), Utf8.Encode(v[1..]));
  }

  lemma {:induction false} UnreservedIsUnchanged(v: string)
    requires IsAllUnreserved(v)
    ensures PercentEncode(Plain, Utf8.Encode(v)) == v
  {
    if v != "" {
      UnreservedIsUnchanged(v[1..]);
      EncodedHead(v);
      EncodedCharacter(v[0]);
      assert v == [v[0]] + v[1..];
    }
  }

  lemma {:induction false} EncodingNeverShortens(v: string)
    ensures |PercentEncode(Plain, Utf8.Encode(v))| >= |Utf8.Encode(v)|
    ensures !IsAllUnreserved(v) ==> |PercentEncode(Plain, Utf8.Encode(v))| > |Utf8.Encode(v)|
  {
    if v != "" {
      EncodingNeverShortens(v[1..]);
      EncodedHead(v);
      EncodedCharacter(v[0]);
    }
  }

  /** Percent-encoding is the identity on unreserved text and lengthens any other. */
  lemma EncodingLengthens(v: string)
    ensures IsAllUnreserved(v) ==> PercentEncode(Plain, Utf8.Encode(v)) == v
    ensures !IsAllUnreserved(v) ==> |PercentEncode(Plain, Utf8.Encode(v))| > |Utf8.Encode(v)|
    ensures |PercentEncode(Plain, Utf8.Encode(v))| >= |Utf8.Encode(v)|
  {
    EncodingNeverShortens(v);
    if IsAllUnreserved(v) { UnreservedIsUnchanged(v); }
  }

  lemma EncodedCharacter(c: char)
    ensures IsUnreserved(c) ==> PercentEncode(Plain, EncodeChar(c)) == [c]
    ensures !IsUnreserved(c) ==> |PercentEncode(Plain, EncodeChar(c))| == 3 * |EncodeChar(c)|
  {
    var bs := EncodeChar(c);
    forall i | 0 <= i < |bs| ensures MustEncode(Plain, bs[i]) <==> !IsUnreserved(c) {
      EncodeSetIsComplementOfUnreserved(Plain, bs[i]);
    }
    UniformLength(bs);
    if IsUnreserved(c) {
      assert bs == [c as int] && bs[1..] == [];
    }
  }

  lemma {:induction false} UniformLength(bs: seq<byte>)
    ensures (forall i :: 0 <= i < |bs| ==> MustEncode(Plain, bs[i])) ==> |PercentEncode(Plain, bs)| == 3 * |bs|
  {
    if bs != [] {
      UniformLength(bs[1..]);
    }
  }

  lemma {:induction false} PercentEncodeIsAscii(set_: EncodeSet, bs: seq<byte>)
    ensures Utf8.IsAscii(PercentEncode(set_, bs))
  {
    if bs != [] {
      PercentEncodeIsAscii(set_, bs[1..]);
    }
  }

  lemma AsciiLength(s: string)
    requires Utf8.IsAscii(s)
    ensures |Utf8.Encode(s)| == |s|
  {
    Utf8.EncodeAscii(s);
  }

  lemma SubstituteLiteral(env: map<string, string>, s: string)
    requires IsLevel1(s) && s != "" && s[0] != '{'
    ensures IsLevel1(s[1..]) && Substitute(env, s) == [s[0]] + Substitute(env, s[1..])
  {
  }

  lemma SubstituteTriplet(env: map<string, string>, s: string)
    requires IsLevel1(s) && StartsWithTriplet(s)
    ensures Substitute(env, s) == s[..3] + Substitute(env, TripletTail(s))
  {
    var s1, s2, s3 := s[1..], s[2..], s[3..];
    assert s1[1..] == s2 && s2[1..] == s3;
    SubstituteLiteral(env, s);
    SubstituteLiteral(env, s1);
    SubstituteLiteral(env, s2);
    var rest := Substitute(env, s3);
    assert s[..3] == [s[0]] + ([s[1]] + [s[2]]);
    Sequences.Associative([s[0]], [s[1]] + [s[2]], rest);
    Sequences.Associative([s[1]], [s[2]], rest);
  }

  lemma EncodeSplit(s: string, head: string, tail: string)
    requires s == head + tail
    ensures |Utf8.Encode(s)| == |Utf8.Encode(head)| + |Utf8.Encode(tail)|
  {
    Utf8.EncodeConcat(head, tail);
  }

  /** Expansion equals verbatim substitution, or is strictly longer. */
  lemma {:induction false} ExpansionVersusSubstitution(env: map<string, string>, s: string)
    requires IsLevel1(s)
    ensures IsCopiedVerbatim(env, s) ==> Expand(env, s) == Substitute(env, s)
    ensures !IsCopiedVerbatim(env, s) ==> |Utf8.Encode(Expand(env, s))| > |Utf8.Encode(Substitute(env, s))|
  {
    if s == "" {
    } else if StartsWithExpression(s) {
      var rest := s[FindClose(s) + 1..];
      var value := ValueOf(env, s[1..FindClose(s)]);
      var encoded := PercentEncode(Plain, Utf8.Encode(value));
      ExpansionVersusSubstitution(env, rest);
      EncodingLengthens(value);
      PercentEncodeIsAscii(Plain, Utf8.Encode(value));
      AsciiLength(encoded);
      EncodeSplit(Expand(env, s), encoded, Expand(env, rest));
      EncodeSplit(Substitute(env, s), value, Substitute(env, rest));
    } else if StartsWithTriplet(s) {
      var rest := TripletTail(s);
      ExpansionVersusSubstitution(env, rest);
      SubstituteTriplet(env, s);
      EncodeSplit(Expand(env, s), s[..3], Expand(env, rest));
      EncodeSplit(Substitute(env, s), s[..3], Substitute(env, rest));
    } else {
      var c, rest := s[0], s[1..];
      ExpansionVersusSubstitution(env, rest);
      EncodeSplit(Substitute(env, s), [c], Substitute(env, rest));
      if IsUnreserved(c) || IsReserved(c) {
        EncodeSplit(Expand(env, s), [c], Expand(env, rest));
      } else {
        var encoded := PercentEncode(Plain, EncodeChar(c));
        EncodedCharacter(c);
        PercentEncodeIsAscii(Plain, EncodeChar(c));
        AsciiLength(encoded);
        EncodeSplit(Expand(env, s), encoded, Expand(env, rest));
      }
    }
  }

  // Which endpoint names expansion leaves alone

  /** Section 3.1 copies all of `s`: no braces, and only unreserved or reserved characters and escapes. */
  predicate IsCopiedLiteral(s: string) {
    if s == "" then true
    else if StartsWithTriplet(s) then IsCopiedLiteral(s[3..])
    else (IsUnreserved(s[0]) || IsReserved(s[0])) && IsCopiedLiteral(s[1..])
  }

  lemma {:induction false} CopiedLiteralIsFixed(env: map<string, string>, s: string)
    requires IsCopiedLiteral(s)
    ensures IsLevel1(s) && Expand(env, s) == s
  {
    if s != "" {
      if StartsWithTriplet(s) {
        CopiedLiteralIsFixed(env, s[3..]);
        TripletIsLiteral(s);
        assert s == s[..3] + s[3..];
      } else {
        CopiedLiteralIsFixed(env, s[1..]);
        assert s == [s[0]] + s[1..];
      }
    }
  }

  predicate HasNoBrace(s: string) {
    forall i :: 0 <= i < |s| ==> !IsBrace(s[i])
  }

  lemma {:induction false} EncodedHasNoBrace(bs: seq<byte>)
    ensures HasNoBrace(PercentEncode(Plain, bs))
  {
    if bs != [] {
      EncodedHasNoBrace(bs[1..]);
      EncodeSetIsComplementOfUnreserved(Plain, bs[0]);
    }
  }

  lemma {:induction false} ExpandedHasNoBrace(env: map<string, string>, s: string)
    requires IsLevel1(s)
    ensures HasNoBrace(Expand(env, s))
  {
    if s == "" {
    } else if StartsWithExpression(s) {
      EncodedHasNoBrace(Utf8.Encode(ValueOf(env, s[1..FindClose(s)])));
      ExpandedHasNoBrace(env, s[FindClose(s) + 1..]);
    } else if StartsWithTriplet(s) {
      ExpandedHasNoBrace(env, TripletTail(s));
      assert forall i :: 0 <= i < 3 ==> !IsBrace(s[i]);
    } else {
      EncodedHasNoBrace(EncodeChar(s[0]));
      ExpandedHasNoBrace(env, s[1..]);
    }
  }

  lemma {:induction false} LiteralsStay(env: map<string, string>, s: string)
    requires HasNoBrace(s)
    ensures IsLevel1(s) && Substitute(env, s) == s
    ensures IsCopiedVerbatim(env, s) <==> IsCopiedLiteral(s)
    decreases |s|
  {
    if s != "" {
      LiteralsStay(env, s[1..]);
      assert s == [s[0]] + s[1..];
      if StartsWithTriplet(s) {
        LiteralsStay(env, s[3..]);
      }
    }
  }

  /** Expansion leaves a string alone exactly when section 3.1 copies all of it. */
  lemma FixedExactlyWhenCopied(env: map<string, string>, s: string)
    requires IsLevel1(s)
    ensures Expand(env, s) == s <==> IsCopiedLiteral(s)
  {
    if IsCopiedLiteral(s) {
      CopiedLiteralIsFixed(env, s);
    }
    if Expand(env, s) == s {
      ExpandedHasNoBrace(env, s);
      LiteralsStay(env, s);
      ExpansionVersusSubstitution(env, s);
    }
  }

  lemma {:induction false} EncodedHasNoSlash(bs: seq<byte>)
    ensures '/' !in PercentEncode(Plain, bs)
  {
    if bs != [] {
      EncodedHasNoSlash(bs[1..]);
      EncodeSetIsComplementOfUnreserved(Plain, bs[0]);
    }
  }

  /** Expansion brings no slash into a name. */
  lemma {:induction false} NoNewSlash(env: map<string, string>, s: string)
    requires IsLevel1(s) && '/' !in s
    ensures '/' !in Expand(env, s)
  {
    if s == "" {
    } else if StartsWithExpression(s) {
      EncodedHasNoSlash(Utf8.Encode(ValueOf(env, s[1..FindClose(s)])));
      NoNewSlash(env, s[FindClose(s) + 1..]);
    } else if StartsWithTriplet(s) {
      NoNewSlash(env, TripletTail(s));
    } else {
      EncodedHasNoSlash(EncodeChar(s[0]));
      NoNewSlash(env, s[1..]);
    }
  }

  lemma EmptyNameIsRejected(payload: string)
    ensures DecodeResourceUri(WRAPPER_PREFIX + ("" + ("/" + payload))).Err?
  {
    assert (WRAPPER_PREFIX + ("" + ("/" + payload)))[|WRAPPER_PREFIX|..] == "/" + payload;
    assert FindSlash("/" + payload) == 0;
  }

  lemma Regroup(name: string, payload: string)
    ensures WRAPPER_PREFIX + (name + ("/" + payload)) == WRAPPER_PREFIX + name + "/" + payload
  {
  }

  lemma WrappableNameIsKept(name: string, payload: string)
    requires IsWrappableEndpoint(name)
    ensures var r := DecodeResourceUri(WRAPPER_PREFIX + (name + ("/" + payload))); r.Ok? ==> r.value.0 == name
  {
    Regroup(name, payload);
    DecodeWrapped(name, payload);
  }

  /** Any decode of a string with a slash-free name in front gives that name. */
  lemma DecodedName(name: string, payload: string)
    requires '/' !in name
    ensures var r := DecodeResourceUri(WRAPPER_PREFIX + (name + ("/" + payload))); r.Ok? ==> r.value.0 == name
  {
    if name == "" { EmptyNameIsRejected(payload); } else { WrappableNameIsKept(name, payload); }
  }

  /**
   * Expanding the wrapped template and decoding it gives the endpoint and the expansion of the
   * original template exactly when the wrapper can carry the name, section 3.1 copies all of
   * it, and expansion changes neither literals nor values of the template.
   */
  lemma WrappingCommutesWithExpansion(env: map<string, string>, endpoint: string, s: string)
    requires IsLevel1(endpoint) && IsLevel1(s)
    ensures IsLevel1(EncodeResourceUriTemplate(endpoint, s))
    ensures DecodeResourceUri(Expand(env, EncodeResourceUriTemplate(endpoint, s))) == Ok((endpoint, Expand(env, s)))
            <==> IsWrappableEndpoint(endpoint) && IsCopiedLiteral(endpoint) && IsCopiedVerbatim(env, s)
  {
    ExpandThenDecode(env, endpoint, s);
    ExpandWrapped(env, endpoint, s);
    FixedExactlyWhenCopied(env, endpoint);
    ExpansionVersusSubstitution(env, s);
    var wrapped := Expand(env, EncodeResourceUriTemplate(endpoint, s));
    if DecodeResourceUri(wrapped) == Ok((endpoint, Expand(env, s))) {
      DecodedShape(wrapped);
      NoNewSlash(env, endpoint);
      DecodedName(Expand(env, endpoint), Expand(env, Payload(s)));
    }
  }

  /** A freeform name that expansion changes: the instance names an endpoint `a%20b`. */
  lemma SpaceInNameIsEscaped(env: map<string, string>, s: string)
    requires IsLevel1(s)
    ensures IsLevel1("a b") && IsLevel1(EncodeResourceUriTemplate("a b", s))
    ensures DecodeResourceUri(Expand(env, EncodeResourceUriTemplate("a b", s))) == Ok(("a%20b", Substitute(env, s)))
  {
    ExpandSpace(env);
    ExpandThenDecode(env, "a b", s);
  }

  lemma ExpandSpace(env: map<string, string>)
    ensures IsLevel1("a b") && Expand(env, "a b") == "a%20b"
  {
    var space: byte := ' ' as int;
    assert EncodeChar(' ') == [space] && [space][1..] == [];
    assert EncodeByte(Plain, space) == "%20";
    assert PercentEncode(Plain, EncodeChar(' ')) == "%20";
    assert "b"[1..] == "" && " b"[1..] == "b" && "a b"[1..] == " b";
    assert Expand(env, "b") == "b";
    assert Expand(env, " b") == "%20b";
  }

  // Beyond level 1

  lemma {:induction false} SetsDifferInBraces(bs: seq<byte>)
    requires NoBraces(bs)
    ensures PercentEncode(Template, bs) == PercentEncode(Plain, bs)
  {
    if bs != [] {
      SetsDifferInBraces(bs[1..]);
    }
  }

  lemma {:induction false} BracelessBytes(s: string)
    requires HasNoBrace(s)
    ensures NoBraces(Utf8.Encode(s))
  {
    if s != "" {
      BracelessBytes(s[1..]);
      assert NoBraces(EncodeChar(s[0]));
    }
  }

  /** Wrapping leaves a text without braces alone exactly when all of it is unreserved. */
  lemma KeptExactlyWhenUnreserved(body: string)
    requires HasNoBrace(body)
    ensures Payload(body) == body <==> IsAllUnreserved(body)
    ensures !IsAllUnreserved(body) ==> |Payload(body)| > |body|
  {
    BracelessBytes(body);
    SetsDifferInBraces(Utf8.Encode(body));
    EncodingLengthens(body);
    BytesAreNoFewer(body);
  }

  /** The payload of an expression, whatever stands between the braces. */
  lemma ExpressionPayload(body: string)
    ensures Payload("{" + body + "}") == "{" + Payload(body) + "}"
  {
    KeptCharacters("{");
    KeptCharacters("}");
    PayloadConcat("{", body);
    PayloadConcat("{" + body, "}");
  }

  /** An expression survives wrapping exactly when every character between its braces is unreserved. */
  lemma ExpressionSurvivesExactly(endpoint: string, body: string)
    requires HasNoBrace(body)
    ensures EncodeResourceUriTemplate(endpoint, "{" + body + "}") == WRAPPER_PREFIX + endpoint + "/" + "{" + body + "}"
            <==> IsAllUnreserved(body)
  {
    var head := WRAPPER_PREFIX + endpoint + "/";
    ExpressionPayload(body);
    KeptExactlyWhenUnreserved(body);
    assert EncodeResourceUriTemplate(endpoint, "{" + body + "}") == head + ("{" + Payload(body) + "}");
    assert head + "{" + body + "}" == head + ("{" + body + "}");
    assert |head + ("{" + Payload(body) + "}")| == |head| + |Payload(body)| + 2;
  }

  /** Section 2.2: the operators of levels 2 and 3, and those reserved for extensions. */
  predicate IsOperator(c: char) {
    || c == '+' || c == '#' || c == '.' || c == '/' || c == ';' || c == '?' || c == '&'
    || c == '=' || c == ',' || c == '!' || c == '@' || c == '|'
  }

  /** Of all operators only the label operator `.` survives; so does no `:` or `*` modifier and no list of names. */
  lemma OnlyLabelsSurvive(endpoint: string, op: char, name: string, rest: string)
    requires IsOperator(op) && IsName(name) && HasNoBrace(rest)
    ensures EncodeResourceUriTemplate(endpoint, "{" + ([op] + name) + "}")
            == WRAPPER_PREFIX + endpoint + "/" + "{" + ([op] + name) + "}"
            <==> op == '.'
    ensures rest != "" && (rest[0] == ':' || rest[0] == '*' || rest[0] == ',') ==>
            EncodeResourceUriTemplate(endpoint, "{" + (name + rest) + "}")
              != WRAPPER_PREFIX + endpoint + "/" + "{" + (name + rest) + "}"
  {
    NameCharacters(name);
    var body := [op] + name;
    assert body[0] == op && forall i :: 1 <= i < |body| ==> body[i] == name[i - 1];
    ExpressionSurvivesExactly(endpoint, body);
    var list := name + rest;
    assert rest != "" ==> list[|name|] == rest[0];
    assert forall i :: 0 <= i < |list| ==> list[i] == if i < |name| then name[i] else rest[i - |name|];
    ExpressionSurvivesExactly(endpoint, list);
  }
}
