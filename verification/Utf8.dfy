/** UTF-8 (RFC 3629): the byte view behind every Rust `str` the relay handles. */
module Utf8 {
  import opened Wrappers

  type byte = b: int | 0 <= b < 256

  function EncodeChar(c: char): (bs: seq<byte>)
    ensures 1 <= |bs| <= 4
  {
    var n := c as int;
    if n < 0x80 then [n]
    else if n < 0x800 then [0xC0 + n / 0x40, 0x80 + n % 0x40]
    else if n < 0x1_0000 then [0xE0 + n / 0x1000, 0x80 + n / 0x40 % 0x40, 0x80 + n % 0x40]
    else [0xF0 + n / 0x4_0000, 0x80 + n / 0x1000 % 0x40, 0x80 + n / 0x40 % 0x40, 0x80 + n % 0x40]
  }

  function Encode(s: string): seq<byte> {
    if s == "" then [] else EncodeChar(s[0]) + Encode(s[1..])
  }

  predicate IsContinuation(b: byte) {
    0x80 <= b < 0xC0
  }

  /** The six payload bits of a continuation byte. */
  function Low(b: byte): int {
    b - 0x80
  }

  predicate IsScalar(n: int) {
    0 <= n < 0xD800 || 0xE000 <= n < 0x11_0000
  }

  datatype First = Malformed | First(c: char, width: nat)

  /** Accepts `n` as the scalar of a `width`-byte sequence: no overlong forms, no surrogates. */
  function Accept(n: int, least: int, width: nat): First {
    if n >= least && IsScalar(n) then First(n as char, width) else Malformed
  }

  /** Decodes the first scalar value of `bs`. */
  function DecodeFirst(bs: seq<byte>): First
    requires bs != []
  {
    var b: int := bs[0];
    if b < 0x80 then First(b as char, 1)
    else if 0xC0 <= b < 0xE0 && |bs| >= 2 && IsContinuation(bs[1]) then
      Accept((b - 0xC0) * 0x40 + Low(bs[1]), 0x80, 2)
    else if 0xE0 <= b < 0xF0 && |bs| >= 3 && IsContinuation(bs[1]) && IsContinuation(bs[2]) then
      Accept((b - 0xE0) * 0x1000 + Low(bs[1]) * 0x40 + Low(bs[2]), 0x800, 3)
    else if 0xF0 <= b < 0xF8 && |bs| >= 4 && IsContinuation(bs[1]) && IsContinuation(bs[2])
      && IsContinuation(bs[3]) then
      Accept((b - 0xF0) * 0x4_0000 + Low(bs[1]) * 0x1000 + Low(bs[2]) * 0x40 + Low(bs[3]), 0x1_0000, 4)
    else Malformed
  }

  /** Strict decoding, as `String::from_utf8` does it. */
  function Decode(bs: seq<byte>): Option<string> {
    if bs == [] then Some("")
    else
      match DecodeFirst(bs)
      case Malformed => None
      case First(c, width) =>
        if width == 0 || width > |bs| then None
        else
          match Decode(bs[width..])
          case None => None
          case Some(rest) => Some([c] + rest)
  }

  lemma SplitDigits(n: nat)
    ensures n == n / 0x40 * 0x40 + n % 0x40
    ensures n / 0x40 == n / 0x1000 * 0x40 + n / 0x40 % 0x40
    ensures n / 0x1000 == n / 0x4_0000 * 0x40 + n / 0x1000 % 0x40
  {
    assert n / 0x1000 == n / 0x40 / 0x40;
    assert n / 0x4_0000 == n / 0x1000 / 0x40;
  }

  lemma JoinDigits(a: nat, b: nat, c: nat, d: nat)
    requires b < 0x40 && c < 0x40 && d < 0x40
    ensures var n := a * 0x4_0000 + b * 0x1000 + c * 0x40 + d;
      n / 0x4_0000 == a && n / 0x1000 % 0x40 == b && n / 0x40 % 0x40 == c && n % 0x40 == d
  {
    var n := a * 0x4_0000 + b * 0x1000 + c * 0x40 + d;
    assert n / 0x40 == a * 0x1000 + b * 0x40 + c;
    assert n / 0x1000 == a * 0x40 + b;
  }

  lemma DecodeFirstEncodeChar(c: char, rest: seq<byte>)
    ensures DecodeFirst(EncodeChar(c) + rest) == First(c, |EncodeChar(c)|)
  {
    var n := c as int;
    var bs, all := EncodeChar(c), EncodeChar(c) + rest;
    SplitDigits(n);
    assert all[0] == bs[0];
    if n >= 0x80 { assert all[1] == bs[1]; }
    if n >= 0x800 { assert all[2] == bs[2]; }
    if n >= 0x1_0000 { assert all[3] == bs[3]; }
  }

  lemma DecodeStep(c: char, rest: seq<byte>)
    ensures Decode(EncodeChar(c) + rest) == (match Decode(rest) case None => None case Some(s) => Some([c] + s))
  {
    var head := EncodeChar(c);
    DecodeFirstEncodeChar(c, rest);
    assert (head + rest)[|head|..] == rest;
  }

  /** Every string survives the trip through its bytes. */
  lemma {:induction false} DecodeEncode(s: string)
    ensures Decode(Encode(s)) == Some(s)
  {
    if s != "" {
      DecodeStep(s[0], Encode(s[1..]));
      DecodeEncode(s[1..]);
      assert s == [s[0]] + s[1..];
    }
  }

  lemma EncodeTwo(a: nat, b: nat)
    requires 0x80 <= a * 0x40 + b && a < 0x20 && b < 0x40
    ensures EncodeChar((a * 0x40 + b) as char) == [0xC0 + a, 0x80 + b]
  {
    JoinDigits(0, 0, a, b);
  }

  lemma EncodeThree(a: nat, b: nat, c: nat)
    requires var n := a * 0x1000 + b * 0x40 + c; 0x800 <= n && IsScalar(n)
    requires a < 0x10 && b < 0x40 && c < 0x40
    ensures EncodeChar((a * 0x1000 + b * 0x40 + c) as char) == [0xE0 + a, 0x80 + b, 0x80 + c]
  {
    JoinDigits(0, a, b, c);
  }

  lemma EncodeFour(a: nat, b: nat, c: nat, d: nat)
    requires var n := a * 0x4_0000 + b * 0x1000 + c * 0x40 + d; 0x1_0000 <= n && IsScalar(n)
    requires a < 0x8 && b < 0x40 && c < 0x40 && d < 0x40
    ensures EncodeChar((a * 0x4_0000 + b * 0x1000 + c * 0x40 + d) as char) == [0xF0 + a, 0x80 + b, 0x80 + c, 0x80 + d]
  {
    JoinDigits(a, b, c, d);
  }

  lemma DecodedWidth(bs: seq<byte>)
    requires bs != [] && DecodeFirst(bs).First?
    ensures DecodeFirst(bs).width <= |bs|
    ensures DecodeFirst(bs).width ==
            if bs[0] < 0x80 then 1 else if bs[0] < 0xE0 then 2 else if bs[0] < 0xF0 then 3 else 4
  {
  }

  lemma EncodeDecodeFirst(bs: seq<byte>)
    requires bs != [] && DecodeFirst(bs).First?
    ensures 1 <= DecodeFirst(bs).width <= |bs|
    ensures EncodeChar(DecodeFirst(bs).c) == bs[..DecodeFirst(bs).width]
  {
    DecodedWidth(bs);
    var width := DecodeFirst(bs).width;
    if width == 1 {
      assert bs[..1] == [bs[0]];
    } else if width == 2 {
      EncodeTwo(bs[0] - 0xC0, Low(bs[1]));
      assert bs[..2] == [bs[0], bs[1]];
    } else if width == 3 {
      EncodeThree(bs[0] - 0xE0, Low(bs[1]), Low(bs[2]));
      assert bs[..3] == [bs[0], bs[1], bs[2]];
    } else {
      EncodeFour(bs[0] - 0xF0, Low(bs[1]), Low(bs[2]), Low(bs[3]));
      assert bs[..4] == [bs[0], bs[1], bs[2], bs[3]];
    }
  }

  lemma EncodeCons(c: char, rest: string)
    ensures Encode([c] + rest) == EncodeChar(c) + Encode(rest)
  {
    assert ([c] + rest)[1..] == rest;
  }

  lemma DecodeParts(bs: seq<byte>)
    requires bs != [] && Decode(bs).Some?
    ensures DecodeFirst(bs).First? && DecodeFirst(bs).width <= |bs|
    ensures Decode(bs[DecodeFirst(bs).width..]).Some?
    ensures Decode(bs).value == [DecodeFirst(bs).c] + Decode(bs[DecodeFirst(bs).width..]).value
  {
  }

  lemma Rejoin(bs: seq<byte>, n: nat)
    requires n <= |bs|
    ensures bs == bs[..n] + bs[n..]
  {
  }

  /** The decoder accepts only the shortest form, so it is inverted by the encoder. */
  lemma {:induction false} EncodeDecode(bs: seq<byte>)
    requires Decode(bs).Some?
    ensures Encode(Decode(bs).value) == bs
    decreases |bs|
  {
    if bs != [] {
      DecodeParts(bs);
      EncodeDecodeFirst(bs);
      var First(c, width) := DecodeFirst(bs);
      EncodeDecode(bs[width..]);
      EncodeCons(c, Decode(bs[width..]).value);
      Rejoin(bs, width);
    }
  }

  lemma {:induction false} EncodeConcat(s: string, t: string)
    ensures Encode(s + t) == Encode(s) + Encode(t)
  {
    if s == "" {
      assert s + t == t;
    } else {
      assert (s + t)[1..] == s[1..] + t;
      EncodeConcat(s[1..], t);
    }
  }

  predicate IsAscii(s: string) {
    forall i :: 0 <= i < |s| ==> s[i] < 128 as char
  }

  lemma {:induction false} EncodeAscii(s: string)
    requires IsAscii(s)
    ensures |Encode(s)| == |s|
    ensures forall i :: 0 <= i < |s| ==> Encode(s)[i] == s[i] as int
  {
    if s != "" {
      EncodeAscii(s[1..]);
    }
  }
}
