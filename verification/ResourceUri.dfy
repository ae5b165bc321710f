/** src/resource_uri.rs: the reversible `mcp-relay://{endpoint}/{payload}` wrapper. */
module ResourceUri {
  import opened Wrappers
  import opened Utf8
  import Sequences

  const WRAPPER_PREFIX := "mcp-relay://"

  /** `ENCODE_SET` (Plain) and `ENCODE_SET_TEMPLATE` (Template). */
  datatype EncodeSet = Plain | Template

  /** The visible characters both sets list. */
  predicate IsEncodedPunctuation(c: char) {
    || c == ' ' || c == '!' || c == '"' || c == '#' || c == '$' || c == '%' || c == '&' || c == '\'' || c == '('
    || c == ')' || c == '*' || c == '+' || c == ',' || c == '/' || c == ':' || c == ';' || c == '<' || c == '='
    || c == '>' || c == '?' || c == '@' || c == '[' || c == '\\' || c == ']' || c == '^' || c == '`' || c == '|'
  }

  /** Non-ASCII bytes and controls are always encoded; braces only by the plain set. */
  predicate MustEncode(set_: EncodeSet, b: byte) {
    || b < 0x20
    || b >= 0x7F
    || IsEncodedPunctuation(b as char)
    || (set_.Plain? && IsBrace(b as char))
  }

  predicate IsBrace(c: char) {
    c == '{' || c == '}'
  }

  /** RFC 3986 section 2.3. */
  predicate IsUnreserved(c: char) {
    'a' <= c <= 'z' || 'A' <= c <= 'Z' || '0' <= c <= '9' || c == '-' || c == '.' || c == '_' || c == '~'
  }

  function HexDigit(n: int): (c: char)
    requires 0 <= n < 16
    ensures HexValue(c) == Some(n)
  {
    if n < 10 then (n + '0' as int) as char else (n - 10 + 'A' as int) as char
  }

  function HexValue(c: char): (v: Option<int>)
    ensures v.Some? ==> 0 <= v.value < 16
  {
    if '0' <= c <= '9' then Some(c as int - '0' as int)
    else if 'A' <= c <= 'F' then Some(c as int - 'A' as int + 10)
    else if 'a' <= c <= 'f' then Some(c as int - 'a' as int + 10)
    else None
  }

  function EncodeByte(set_: EncodeSet, b: byte): string {
    if MustEncode(set_, b) then ['%', HexDigit(b / 16), HexDigit(b % 16)] else [b as char]
  }

  function PercentEncode(set_: EncodeSet, bs: seq<byte>): string {
    if bs == [] then "" else EncodeByte(set_, bs[0]) + PercentEncode(set_, bs[1..])
  }

  /** True when `bs` starts with an escape `%HH`. */
  predicate StartsWithEscape(bs: seq<byte>) {
    |bs| >= 3 && bs[0] == '%' as int && HexValue(bs[1] as char).Some? && HexValue(bs[2] as char).Some?
  }

  /** A `%` that does not start an escape stands for itself. */
  function PercentDecode(bs: seq<byte>): (r: seq<byte>)
    ensures |r| <= |bs|
  {
    if bs == [] then []
    else if StartsWithEscape(bs) then
      [HexValue(bs[1] as char).value * 16 + HexValue(bs[2] as char).value] + PercentDecode(bs[3..])
    else [bs[0]] + PercentDecode(bs[1..])
  }

  function Wrap(set_: EncodeSet, endpoint: string, original: string): string {
    WRAPPER_PREFIX + endpoint + "/" + PercentEncode(set_, Utf8.Encode(original))
  }

  function EncodeResourceUri(endpoint: string, original: string): string {
    Wrap(Plain, endpoint, original)
  }

  function EncodeResourceUriTemplate(endpoint: string, original: string): string {
    Wrap(Template, endpoint, original)
  }

  /** With one active endpoint nothing is wrapped. */
  function MaybeWrap(set_: EncodeSet, endpoint: string, original: string, skipWrap: bool): string {
    if skipWrap then original else Wrap(set_, endpoint, original)
  }

  function MaybeEncodeResourceUri(endpoint: string, original: string, skipWrap: bool): string {
    MaybeWrap(Plain, endpoint, original, skipWrap)
  }

  /** Index of the first `/`, or the length when there is none. */
  function FindSlash(s: string): (i: nat)
    ensures i <= |s|
    ensures '/' !in s[..i]
    ensures i < |s| ==> s[i] == '/'
  {
    if s == "" || s[0] == '/' then 0
    else
      var rest := FindSlash(s[1..]);
      assert s[..1 + rest] == [s[0]] + s[1..][..rest];
      1 + rest
  }

  datatype UriError = MissingPrefix | MissingSeparator | EmptyEndpoint | InvalidUtf8

  function DecodeResourceUri(wrapped: string): Result<(string, string), UriError> {
    if !(WRAPPER_PREFIX <= wrapped) then Err(MissingPrefix)
    else
      var body := wrapped[|WRAPPER_PREFIX|..];
      var slash := FindSlash(body);
      if slash == |body| then Err(MissingSeparator)
      else if slash == 0 then Err(EmptyEndpoint)
      else
        match Utf8.Decode(PercentDecode(Utf8.Encode(body[slash + 1..])))
        case None => Err(InvalidUtf8)
        case Some(original) => Ok((body[..slash], original))
  }

  function MaybeDecodeResourceUri(incoming: string, skipWrap: bool): Result<(Option<string>, string), UriError> {
    if skipWrap then Ok((None, incoming))
    else
      match DecodeResourceUri(incoming)
      case Ok((endpoint, original)) => Ok((Some(endpoint), original))
      case Err(e) => Err(e)
  }

  /**
   * The names the wrapper can carry, since the decoder ends the name at the first slash. The
   * configuration only asks that a name be non-empty.
   */
  predicate IsWrappableEndpoint(endpoint: string) {
    endpoint != "" && '/' !in endpoint
  }

  // The two encode sets

  /** The listed set is exactly the complement of RFC 3986 "unreserved" (plus, for templates, the braces). */
  lemma EncodeSetIsComplementOfUnreserved(set_: EncodeSet, b: byte)
    ensures MustEncode(set_, b) <==> !IsUnreserved(b as char) && (set_.Template? ==> !IsBrace(b as char))
  {
  }

  /** A string of unreserved characters and `%HH` escapes (RFC 3986 sections 2.1 and 2.3). */
  predicate IsUnreservedOrEscapes(s: string) {
    || s == ""
    || (IsUnreserved(s[0]) && IsUnreservedOrEscapes(s[1..]))
    || (|s| >= 3 && s[0] == '%' && HexValue(s[1]).Some? && HexValue(s[2]).Some? && IsUnreservedOrEscapes(s[3..]))
  }

  lemma {:induction false} PayloadIsUnreservedOrEscapes(bs: seq<byte>)
    ensures IsUnreservedOrEscapes(PercentEncode(Plain, bs))
  {
    if bs != [] {
      EncodeSetIsComplementOfUnreserved(Plain, bs[0]);
      PayloadIsUnreservedOrEscapes(bs[1..]);
      var head, tail := EncodeByte(Plain, bs[0]), PercentEncode(Plain, bs[1..]);
      assert (head + tail)[|head|..] == tail;
    }
  }

  // Round trips

  lemma EncodeByteIsAscii(set_: EncodeSet, b: byte)
    ensures Utf8.IsAscii(EncodeByte(set_, b))
  {
  }

  /** Decoding undoes the escape of one byte, whatever follows. */
  lemma DecodeStep(set_: EncodeSet, b: byte, rest: seq<byte>)
    ensures PercentDecode(Utf8.Encode(EncodeByte(set_, b)) + rest) == [b] + PercentDecode(rest)
  {
    var text := EncodeByte(set_, b);
    var bs := Utf8.Encode(text);
    EncodeByteIsAscii(set_, b);
    Utf8.EncodeAscii(text);
    var all := bs + rest;
    assert all[|bs|..] == rest;
    assert all[0] == bs[0];
    if MustEncode(set_, b) {
      assert all[1] == bs[1] && all[2] == bs[2];
      assert HexValue(all[1] as char) == Some(b / 16) && HexValue(all[2] as char) == Some(b % 16);
      assert StartsWithEscape(all);
    } else {
      assert IsEncodedPunctuation('%');
      assert !StartsWithEscape(all);
    }
  }

  lemma DecodeThen(set_: EncodeSet, b: byte, tail: string, rest: seq<byte>)
    ensures PercentDecode(Utf8.Encode(EncodeByte(set_, b) + tail) + rest) ==
            [b] + PercentDecode(Utf8.Encode(tail) + rest)
  {
    var head := Utf8.Encode(EncodeByte(set_, b));
    Utf8.EncodeConcat(EncodeByte(set_, b), tail);
    Sequences.Associative(head, Utf8.Encode(tail), rest);
    DecodeStep(set_, b, Utf8.Encode(tail) + rest);
  }

  lemma {:induction false} PercentRoundTrip(set_: EncodeSet, bs: seq<byte>, rest: seq<byte>)
    ensures PercentDecode(Utf8.Encode(PercentEncode(set_, bs)) + rest) == bs + PercentDecode(rest)
  {
    if bs == [] {
      assert [] + rest == rest;
    } else {
      DecodeThen(set_, bs[0], PercentEncode(set_, bs[1..]), rest);
      PercentRoundTrip(set_, bs[1..], rest);
      Sequences.HeadTail(bs, PercentDecode(rest));
    }
  }

  lemma {:induction false} FindSlashAfter(endpoint: string, rest: string)
    requires '/' !in endpoint
    ensures FindSlash(endpoint + "/" + rest) == |endpoint|
  {
    if endpoint != "" {
      assert (endpoint + "/" + rest)[1..] == endpoint[1..] + "/" + rest;
      FindSlashAfter(endpoint[1..], rest);
    }
  }

  /** Decoding a string of the wrapper's shape looks only at the payload. */
  lemma DecodeWrapped(endpoint: string, payload: string)
    requires IsWrappableEndpoint(endpoint)
    ensures DecodeResourceUri(WRAPPER_PREFIX + endpoint + "/" + payload) ==
      match Utf8.Decode(PercentDecode(Utf8.Encode(payload)))
      case None => Err(InvalidUtf8)
      case Some(original) => Ok((endpoint, original))
  {
    var wrapped := WRAPPER_PREFIX + endpoint + "/" + payload;
    assert wrapped == WRAPPER_PREFIX + (endpoint + "/" + payload);
    assert wrapped[|WRAPPER_PREFIX|..] == endpoint + "/" + payload;
    FindSlashAfter(endpoint, payload);
    assert (endpoint + "/" + payload)[|endpoint| + 1..] == payload;
    assert (endpoint + "/" + payload)[..|endpoint|] == endpoint;
  }

  lemma PayloadDecodes(set_: EncodeSet, bs: seq<byte>)
    ensures PercentDecode(Utf8.Encode(PercentEncode(set_, bs))) == bs
  {
    PercentRoundTrip(set_, bs, []);
    assert Utf8.Encode(PercentEncode(set_, bs)) + [] == Utf8.Encode(PercentEncode(set_, bs));
    assert bs + PercentDecode([]) == bs;
  }

  /** `decode_resource_uri` inverts both the plain and the template wrapper, for every original. */
  lemma DecodeInvertsWrap(set_: EncodeSet, endpoint: string, original: string)
    requires IsWrappableEndpoint(endpoint)
    ensures DecodeResourceUri(Wrap(set_, endpoint, original)) == Ok((endpoint, original))
  {
    DecodeWrapped(endpoint, PercentEncode(set_, Utf8.Encode(original)));
    PayloadDecodes(set_, Utf8.Encode(original));
    Utf8.DecodeEncode(original);
  }

  /** A wrapped URI reads back exactly when the endpoint name is non-empty and slash-free. */
  lemma WrapRoundTripsExactly(set_: EncodeSet, endpoint: string, original: string)
    ensures DecodeResourceUri(Wrap(set_, endpoint, original)) == Ok((endpoint, original)) <==>
            IsWrappableEndpoint(endpoint)
  {
    if IsWrappableEndpoint(endpoint) {
      DecodeInvertsWrap(set_, endpoint, original);
    }
  }

  lemma {:induction false} EncodingIsNoShorter(set_: EncodeSet, bs: seq<byte>)
    ensures |PercentEncode(set_, bs)| >= |bs|
  {
    if bs != [] {
      EncodingIsNoShorter(set_, bs[1..]);
    }
  }

  lemma {:induction false} BytesAreNoFewer(s: string)
    ensures |Utf8.Encode(s)| >= |s|
  {
    if s != "" {
      BytesAreNoFewer(s[1..]);
    }
  }

  /** A wrapped URI is never the original. */
  lemma WrapLengthens(set_: EncodeSet, endpoint: string, original: string)
    ensures |Wrap(set_, endpoint, original)| > |original|
  {
    EncodingIsNoShorter(set_, Utf8.Encode(original));
    BytesAreNoFewer(original);
  }

  // Names with a slash

  lemma DecodeOneByte(bs: seq<byte>)
    requires bs != [] && !StartsWithEscape(bs)
    ensures PercentDecode(bs) == [bs[0]] + PercentDecode(bs[1..])
  {
  }

  function EscapedByte(bs: seq<byte>): byte
    requires StartsWithEscape(bs)
  {
    HexValue(bs[1] as char).value * 16 + HexValue(bs[2] as char).value
  }

  lemma DecodeOneEscape(bs: seq<byte>)
    requires StartsWithEscape(bs)
    ensures PercentDecode(bs) == [EscapedByte(bs)] + PercentDecode(bs[3..])
  {
  }

  lemma EscapeEndsBeforeSlash(a: seq<byte>, b: seq<byte>)
    requires a != [] && a[|a| - 1] == '/' as int
    ensures StartsWithEscape(a + b) <==> StartsWithEscape(a)
    ensures StartsWithEscape(a) ==> |a| > 3 && EscapedByte(a + b) == EscapedByte(a)
  {
    assert forall i :: 0 <= i < |a| ==> (a + b)[i] == a[i];
  }

  /** No escape reaches over a slash. */
  lemma {:induction false} DecodeUpToSlash(a: seq<byte>, b: seq<byte>)
    requires a != [] && a[|a| - 1] == '/' as int
    ensures PercentDecode(a + b) == PercentDecode(a) + PercentDecode(b)
  {
    var all := a + b;
    EscapeEndsBeforeSlash(a, b);
    if StartsWithEscape(a) {
      assert all[3..] == a[3..] + b;
      DecodeOneEscape(a);
      DecodeOneEscape(all);
      DecodeUpToSlash(a[3..], b);
      Sequences.Associative([EscapedByte(a)], PercentDecode(a[3..]), PercentDecode(b));
    } else {
      assert all[1..] == a[1..] + b;
      DecodeOneByte(a);
      DecodeOneByte(all);
      if |a| == 1 {
        assert a[1..] + b == b;
      } else {
        DecodeUpToSlash(a[1..], b);
      }
      Sequences.Associative([a[0]], PercentDecode(a[1..]), PercentDecode(b));
    }
  }

  lemma {:induction false} NothingToDecode(bs: seq<byte>)
    requires forall i :: 0 <= i < |bs| ==> bs[i] != '%' as int
    ensures PercentDecode(bs) == bs
  {
    if bs != [] {
      NothingToDecode(bs[1..]);
    }
  }

  predicate IsAllUnreserved(s: string) {
    forall i :: 0 <= i < |s| ==> IsUnreserved(s[i])
  }

  lemma PlainBytes(s: string)
    requires IsAllUnreserved(s)
    ensures PercentDecode(Utf8.Encode(s + "/")) == Utf8.Encode(s + "/")
    ensures Utf8.Encode(s + "/") != [] && Utf8.Encode(s + "/")[|Utf8.Encode(s + "/")| - 1] == '/' as int
  {
    Utf8.EncodeAscii(s + "/");
    var bs := Utf8.Encode(s + "/");
    forall i | 0 <= i < |bs| ensures bs[i] != '%' as int {
      assert bs[i] == (s + "/")[i] as int;
      assert i < |s| ==> IsUnreserved(s[i]);
    }
    NothingToDecode(bs);
  }

  /** The wrapper cuts a name with a slash in two: its tail moves into the original. */
  lemma SlashInNameIsCut(set_: EncodeSet, head: string, tail: string, original: string)
    requires IsWrappableEndpoint(head) && IsAllUnreserved(tail)
    ensures DecodeResourceUri(Wrap(set_, head + "/" + tail, original)) == Ok((head, tail + "/" + original))
  {
    var bs := Utf8.Encode(original);
    var payload := tail + "/" + PercentEncode(set_, bs);
    assert Wrap(set_, head + "/" + tail, original) == WRAPPER_PREFIX + head + "/" + payload;
    DecodeWrapped(head, payload);
    Utf8.EncodeConcat(tail + "/", PercentEncode(set_, bs));
    PlainBytes(tail);
    DecodeUpToSlash(Utf8.Encode(tail + "/"), Utf8.Encode(PercentEncode(set_, bs)));
    PayloadDecodes(set_, bs);
    Utf8.EncodeConcat(tail + "/", original);
    Utf8.DecodeEncode(tail + "/" + original);
  }

  /** Wrapping is injective in both arguments. */
  lemma WrapIsInjective(set_: EncodeSet, endpoint: string, original: string, endpoint': string, original': string)
    requires IsWrappableEndpoint(endpoint) && IsWrappableEndpoint(endpoint')
    requires Wrap(set_, endpoint, original) == Wrap(set_, endpoint', original')
    ensures endpoint == endpoint' && original == original'
  {
    DecodeInvertsWrap(set_, endpoint, original);
    DecodeInvertsWrap(set_, endpoint', original');
  }

  // Nesting

  /** Wraps `original` for `endpoints[0]`, the result for `endpoints[1]`, and so on. */
  function WrapAll(endpoints: seq<string>, original: string): string {
    if endpoints == [] then original
    else EncodeResourceUri(endpoints[|endpoints| - 1], WrapAll(endpoints[..|endpoints| - 1], original))
  }

  /** `n` successive decodes: the endpoints in the order met, and what remains. */
  function UnwrapAll(n: nat, wrapped: string): Result<(seq<string>, string), UriError> {
    if n == 0 then Ok(([], wrapped))
    else
      match DecodeResourceUri(wrapped)
      case Err(e) => Err(e)
      case Ok((endpoint, inner)) =>
        match UnwrapAll(n - 1, inner)
        case Err(e) => Err(e)
        case Ok((endpoints, original)) => Ok(([endpoint] + endpoints, original))
  }

  function Reverse(xs: seq<string>): seq<string> {
    if xs == [] then [] else [xs[|xs| - 1]] + Reverse(xs[..|xs| - 1])
  }

  /** n nested wraps are undone by n decodes, in reverse order. */
  lemma {:induction false} UnwrapAllInvertsWrapAll(endpoints: seq<string>, original: string)
    requires forall i :: 0 <= i < |endpoints| ==> IsWrappableEndpoint(endpoints[i])
    ensures UnwrapAll(|endpoints|, WrapAll(endpoints, original)) == Ok((Reverse(endpoints), original))
  {
    if endpoints != [] {
      var last, inner := endpoints[|endpoints| - 1], endpoints[..|endpoints| - 1];
      DecodeInvertsWrap(Plain, last, WrapAll(inner, original));
      UnwrapAllInvertsWrapAll(inner, original);
    }
  }

  // What a successful decode says about its input

  lemma DecodedShape(wrapped: string)
    requires DecodeResourceUri(wrapped).Ok?
    ensures var (endpoint, original) := DecodeResourceUri(wrapped).value;
      && IsWrappableEndpoint(endpoint)
      && |Utf8.Encode(original)| < |Utf8.Encode(wrapped)|
  {
    var (endpoint, original) := DecodeResourceUri(wrapped).value;
    var payload := wrapped[|WRAPPER_PREFIX| + |endpoint| + 1..];
    var head := wrapped[..|WRAPPER_PREFIX| + |endpoint| + 1];
    var body := wrapped[|WRAPPER_PREFIX|..];
    assert body[|endpoint| + 1..] == payload;
    Utf8.EncodeDecode(PercentDecode(Utf8.Encode(payload)));
    assert wrapped == head + payload;
    Utf8.EncodeConcat(head, payload);
    assert Utf8.Encode(head) != [];
  }

  /** A decode never returns its own input, so a decodable URI is never dispatched unchanged by decoding. */
  lemma DecodeMakesProgress(wrapped: string, endpoint: string)
    ensures DecodeResourceUri(wrapped) != Ok((endpoint, wrapped))
  {
    if DecodeResourceUri(wrapped).Ok? {
      DecodedShape(wrapped);
    }
  }
}
