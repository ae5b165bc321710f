/** The strict base64 engine (RFC 4648 section 4, canonical per section 3.5) behind writeFile and readFile. */
module Base64 {
  import opened Wrappers
  import opened Utf8

  type sextet = n: int | 0 <= n < 64

  const PAD: byte := '=' as int

  function Symbol(n: sextet): (b: byte)
    ensures SymbolValue(b) == Some(n)
  {
    if n < 26 then n + 'A' as int
    else if n < 52 then n - 26 + 'a' as int
    else if n < 62 then n - 52 + '0' as int
    else if n == 62 then '+' as int
    else '/' as int
  }

  function SymbolValue(b: byte): (v: Option<sextet>)
    ensures b == PAD ==> v == None
  {
    var c := b as char;
    if 'A' <= c <= 'Z' then Some(b - 'A' as int)
    else if 'a' <= c <= 'z' then Some(b - 'a' as int + 26)
    else if '0' <= c <= '9' then Some(b - '0' as int + 52)
    else if c == '+' then Some(62)
    else if c == '/' then Some(63)
    else None
  }

  lemma SymbolOfValue(b: byte)
    requires SymbolValue(b).Some?
    ensures Symbol(SymbolValue(b).value) == b
  {
  }

  // Three bytes as four sextets, and back

  function S0(a: byte): sextet { a / 4 }
  function S1(a: byte, b: byte): sextet { a % 4 * 16 + b / 16 }
  function S2(b: byte, c: byte): sextet { b % 16 * 4 + c / 64 }
  function S3(c: byte): sextet { c % 64 }

  function B0(p: int, q: int): byte
    requires 0 <= p < 64 && 0 <= q < 64
  {
    p * 4 + q / 16
  }

  function B1(q: int, r: int): byte
    requires 0 <= q < 64 && 0 <= r < 64
  {
    q % 16 * 16 + r / 4
  }

  function B2(r: int, s: int): byte
    requires 0 <= r < 64 && 0 <= s < 64
  {
    r % 4 * 64 + s
  }

  lemma BytesOfSextets(a: byte, b: byte, c: byte)
    ensures B0(S0(a), S1(a, b)) == a && B1(S1(a, b), S2(b, c)) == b && B2(S2(b, c), S3(c)) == c
  {
  }

  lemma SextetsOfBytes(p: sextet, q: sextet, r: sextet, s: sextet)
    ensures S0(B0(p, q)) == p && S1(B0(p, q), B1(q, r)) == q && S2(B1(q, r), B2(r, s)) == r && S3(B2(r, s)) == s
  {
    FirstTwoSextets(p, q, B1(q, r));
    ThirdSextet(q, r, B2(r, s));
  }

  lemma FirstTwoSextets(p: sextet, q: sextet, b: byte)
    requires b / 16 == q % 16
    ensures S0(B0(p, q)) == p && S1(B0(p, q), b) == q
  {
    assert B0(p, q) / 4 == p && B0(p, q) % 4 == q / 16;
  }

  lemma ThirdSextet(q: sextet, r: sextet, c: byte)
    requires c / 64 == r % 4
    ensures S2(B1(q, r), c) == r && B1(q, r) / 16 == q % 16
  {
    assert B1(q, r) % 16 == r / 4;
  }

  function Encode1(a: byte): seq<byte> {
    [Symbol(S0(a)), Symbol(S1(a, 0)), PAD, PAD]
  }

  function Encode2(a: byte, b: byte): seq<byte> {
    [Symbol(S0(a)), Symbol(S1(a, b)), Symbol(S2(b, 0)), PAD]
  }

  function Encode3(a: byte, b: byte, c: byte): seq<byte> {
    [Symbol(S0(a)), Symbol(S1(a, b)), Symbol(S2(b, c)), Symbol(S3(c))]
  }

  function Encode(bytes: seq<byte>): seq<byte> {
    if bytes == [] then []
    else if |bytes| == 1 then Encode1(bytes[0])
    else if |bytes| == 2 then Encode2(bytes[0], bytes[1])
    else Encode3(bytes[0], bytes[1], bytes[2]) + Encode(bytes[3..])
  }

  /** A group of four symbols without padding. */
  function DecodeFull(g: seq<byte>): (r: Option<seq<byte>>)
    requires |g| == 4
    ensures r.Some? ==> |r.value| == 3
  {
    match (SymbolValue(g[0]), SymbolValue(g[1]), SymbolValue(g[2]), SymbolValue(g[3]))
    case (Some(p), Some(q), Some(r), Some(s)) => Some([B0(p, q), B1(q, r), B2(r, s)])
    case _ => None
  }

  /** The last group: padding is required, and the bits it cuts off must be zero. */
  function DecodeLast(g: seq<byte>): (r: Option<seq<byte>>)
    requires |g| == 4
  {
    if g[3] != PAD then DecodeFull(g)
    else if g[2] != PAD then
      match (SymbolValue(g[0]), SymbolValue(g[1]), SymbolValue(g[2]))
      case (Some(p), Some(q), Some(r)) => if r % 4 == 0 then Some([B0(p, q), B1(q, r)]) else None
      case _ => None
    else
      match (SymbolValue(g[0]), SymbolValue(g[1]))
      case (Some(p), Some(q)) => if q % 16 == 0 then Some([B0(p, q)]) else None
      case _ => None
  }

  function Decode(s: seq<byte>): Option<seq<byte>> {
    if s == [] then Some([])
    else if |s| < 4 then None
    else if |s| == 4 then DecodeLast(s)
    else
      match (DecodeFull(s[..4]), Decode(s[4..]))
      case (Some(head), Some(tail)) => Some(head + tail)
      case _ => None
  }

  // Round trips

  lemma DecodeGroup(a: byte, b: byte, c: byte)
    ensures DecodeFull(Encode3(a, b, c)) == Some([a, b, c])
    ensures DecodeLast(Encode3(a, b, c)) == Some([a, b, c])
  {
    FullOfFourSymbols(S0(a), S1(a, b), S2(b, c), S3(c));
    BytesOfSextets(a, b, c);
  }

  lemma FullOfFourSymbols(p: sextet, q: sextet, r: sextet, s: sextet)
    ensures var g := [Symbol(p), Symbol(q), Symbol(r), Symbol(s)];
            DecodeFull(g) == Some([B0(p, q), B1(q, r), B2(r, s)]) && DecodeLast(g) == DecodeFull(g)
  {
    var g := [Symbol(p), Symbol(q), Symbol(r), Symbol(s)];
    assert SymbolValue(g[0]) == Some(p) && SymbolValue(g[1]) == Some(q) && SymbolValue(g[2]) == Some(r);
    assert SymbolValue(g[3]) == Some(s) && g[3] != PAD;
  }

  lemma LastOfTwoSymbols(p: sextet, q: sextet)
    requires q % 16 == 0
    ensures DecodeLast([Symbol(p), Symbol(q), PAD, PAD]) == Some([B0(p, q)])
  {
    var g := [Symbol(p), Symbol(q), PAD, PAD];
    assert SymbolValue(g[0]) == Some(p) && SymbolValue(g[1]) == Some(q);
  }

  lemma LastOfThreeSymbols(p: sextet, q: sextet, r: sextet)
    requires r % 4 == 0
    ensures DecodeLast([Symbol(p), Symbol(q), Symbol(r), PAD]) == Some([B0(p, q), B1(q, r)])
  {
    var g := [Symbol(p), Symbol(q), Symbol(r), PAD];
    assert SymbolValue(g[0]) == Some(p) && SymbolValue(g[1]) == Some(q) && SymbolValue(g[2]) == Some(r);
  }

  lemma DecodeOne(a: byte)
    ensures DecodeLast(Encode1(a)) == Some([a])
  {
    LastOfTwoSymbols(S0(a), S1(a, 0));
    BytesOfSextets(a, 0, 0);
  }

  lemma DecodeTwo(a: byte, b: byte)
    ensures DecodeLast(Encode2(a, b)) == Some([a, b])
  {
    LastOfThreeSymbols(S0(a), S1(a, b), S2(b, 0));
    BytesOfSextets(a, b, 0);
  }

  lemma DecodeShort(a: byte, b: byte)
    ensures Decode(Encode([a])) == Some([a])
    ensures Decode(Encode([a, b])) == Some([a, b])
  {
    assert Encode([a]) == Encode1(a) && Encode([a, b]) == Encode2(a, b);
    DecodeOne(a);
    DecodeTwo(a, b);
  }

  lemma ShortParts(bytes: seq<byte>)
    requires 1 <= |bytes| <= 2
    ensures bytes == if |bytes| == 1 then [bytes[0]] else [bytes[0], bytes[|bytes| - 1]]
  {
  }

  lemma DecodeLong(a: byte, b: byte, c: byte, rest: seq<byte>)
    requires Decode(Encode(rest)) == Some(rest)
    ensures Decode(Encode3(a, b, c) + Encode(rest)) == Some([a, b, c] + rest)
  {
    DecodeGroup(a, b, c);
    DecodeThen(Encode3(a, b, c), Encode(rest));
  }

  lemma {:induction false} DecodeInvertsEncode(bytes: seq<byte>)
    ensures Decode(Encode(bytes)) == Some(bytes)
  {
    if 1 <= |bytes| <= 2 {
      ShortParts(bytes);
      DecodeShort(bytes[0], bytes[|bytes| - 1]);
    } else if |bytes| >= 3 {
      DecodeInvertsEncode(bytes[3..]);
      DecodeLong(bytes[0], bytes[1], bytes[2], bytes[3..]);
      assert bytes == [bytes[0], bytes[1], bytes[2]] + bytes[3..];
    }
  }

  lemma DecodeThen(group: seq<byte>, rest: seq<byte>)
    requires |group| == 4 && DecodeFull(group).Some? && Decode(rest).Some?
    ensures Decode(group + rest) == Some(DecodeFull(group).value + Decode(rest).value)
  {
    var all := group + rest;
    assert all[..4] == group && all[4..] == rest;
    if rest == [] {
      assert all == group && DecodeFull(group).value + [] == DecodeFull(group).value;
    }
  }

  lemma EncodeFull(g: seq<byte>)
    requires |g| == 4 && DecodeFull(g).Some?
    ensures var r := DecodeFull(g).value; Encode3(r[0], r[1], r[2]) == g
  {
    SymbolOfValue(g[0]);
    SymbolOfValue(g[1]);
    SymbolOfValue(g[2]);
    SymbolOfValue(g[3]);
    SextetsOfBytes(SymbolValue(g[0]).value, SymbolValue(g[1]).value, SymbolValue(g[2]).value, SymbolValue(g[3]).value);
  }

  lemma PaddedSextets(p: sextet, q: sextet, r: sextet)
    ensures q % 16 == 0 ==> S1(B0(p, q), 0) == q
    ensures r % 4 == 0 ==> S2(B1(q, r), 0) == r
    ensures S0(B0(p, q)) == p && S1(B0(p, q), B1(q, r)) == q
  {
    if q % 16 == 0 { FirstTwoSextets(p, q, 0); }
    if r % 4 == 0 { ThirdSextet(q, r, 0); }
    FirstTwoSextets(p, q, B1(q, r));
  }

  lemma EncodeTwoSymbols(g: seq<byte>)
    requires |g| == 4 && g[3] == PAD && g[2] == PAD && DecodeLast(g).Some?
    ensures Encode(DecodeLast(g).value) == g
  {
    var p, q := SymbolValue(g[0]).value, SymbolValue(g[1]).value;
    SymbolOfValue(g[0]);
    SymbolOfValue(g[1]);
    PaddedSextets(p, q, 0);
    assert DecodeLast(g).value == [B0(p, q)];
    assert Encode([B0(p, q)]) == [Symbol(p), Symbol(q), PAD, PAD];
  }

  lemma EncodeThreeSymbols(g: seq<byte>)
    requires |g| == 4 && g[3] == PAD && g[2] != PAD && DecodeLast(g).Some?
    ensures Encode(DecodeLast(g).value) == g
  {
    var p, q, r := SymbolValue(g[0]).value, SymbolValue(g[1]).value, SymbolValue(g[2]).value;
    SymbolOfValue(g[0]);
    SymbolOfValue(g[1]);
    SymbolOfValue(g[2]);
    PaddedSextets(p, q, r);
    assert DecodeLast(g).value == [B0(p, q), B1(q, r)];
    assert Encode([B0(p, q), B1(q, r)]) == [Symbol(p), Symbol(q), Symbol(r), PAD];
  }

  lemma EncodeLast(g: seq<byte>)
    requires |g| == 4 && DecodeLast(g).Some?
    ensures Encode(DecodeLast(g).value) == g
  {
    if g[3] != PAD {
      var r := DecodeLast(g).value;
      EncodeFull(g);
      assert r[3..] == [] && Encode3(r[0], r[1], r[2]) + [] == Encode3(r[0], r[1], r[2]);
    } else if g[2] == PAD {
      EncodeTwoSymbols(g);
    } else {
      EncodeThreeSymbols(g);
    }
  }

  /** Every accepted string is the canonical encoding of what it decodes to. */
  lemma {:induction false} EncodeInvertsDecode(s: seq<byte>)
    requires Decode(s).Some?
    ensures Encode(Decode(s).value) == s
  {
    if |s| == 4 {
      EncodeLast(s);
    } else if |s| > 4 {
      var head, tail := DecodeFull(s[..4]).value, Decode(s[4..]).value;
      EncodeFull(s[..4]);
      EncodeInvertsDecode(s[4..]);
      assert (head + tail)[3..] == tail;
      assert s == s[..4] + s[4..];
    }
  }

  lemma ThreeMore(n: nat)
    requires n >= 3
    ensures 4 * ((n + 2) / 3) == 4 + 4 * ((n - 3 + 2) / 3)
  {
  }

  lemma EncodedGroup(bytes: seq<byte>)
    requires |bytes| >= 3
    ensures |Encode(bytes)| == 4 + |Encode(bytes[3..])|
  {
  }

  lemma {:induction false} EncodedLength(bytes: seq<byte>)
    ensures |Encode(bytes)| == 4 * ((|bytes| + 2) / 3)
  {
    if |bytes| >= 3 {
      EncodedLength(bytes[3..]);
      EncodedGroup(bytes);
      ThreeMore(|bytes|);
    }
  }

  // The size estimate

  /** How many of the last two bytes are `=`. */
  function PaddingCount(s: seq<byte>): (n: nat)
    ensures n <= 2
  {
    (if |s| >= 1 && s[|s| - 1] == PAD then 1 else 0) + (if |s| >= 2 && s[|s| - 2] == PAD then 1 else 0)
  }

  const USIZE_MAX := 0xFFFF_FFFF_FFFF_FFFF

  /** `saturating_mul` on a 64-bit `usize`. */
  function SaturatingMul(a: nat, b: nat): nat {
    if a * b > USIZE_MAX then USIZE_MAX else a * b
  }

  function SaturatingSub(a: nat, b: nat): nat {
    if a < b then 0 else a - b
  }

  function EstimatedLength(s: seq<byte>): nat {
    SaturatingSub(SaturatingMul(|s|, 3) / 4, PaddingCount(s))
  }

  /** The number of groups of four. */
  function Groups(s: seq<byte>): nat {
    if |s| < 4 then 0 else 1 + Groups(s[4..])
  }

  lemma {:induction false} DecodedLength(s: seq<byte>)
    requires Decode(s).Some?
    ensures |s| == 4 * Groups(s) && |Decode(s).value| == 3 * Groups(s) - PaddingCount(s)
  {
    if |s| == 4 {
      assert Groups(s[4..]) == 0;
      LastGroupLength(s);
    } else if |s| > 4 {
      DecodedLength(s[4..]);
      assert PaddingCount(s[4..]) == PaddingCount(s);
    }
  }

  lemma LastGroupLength(g: seq<byte>)
    requires |g| == 4 && DecodeLast(g).Some?
    ensures |DecodeLast(g).value| == 3 - PaddingCount(g)
  {
  }

  /**
   * The pre-decode estimate is the decoded length of every accepted string, exactly as long as
   * tripling the length does not saturate.
   */
  lemma EstimateIsExact(s: seq<byte>)
    requires Decode(s).Some?
    ensures EstimatedLength(s) == |Decode(s).value| <==> 3 * |s| <= USIZE_MAX
  {
    DecodedLength(s);
    var k := Groups(s);
    assert |s| * 3 == 12 * k;
    assert 12 * k / 4 == 3 * k;
    assert USIZE_MAX / 4 == 0x3FFF_FFFF_FFFF_FFFF;
  }
}
