/** The texts of identities, nonces and tokens: hexadecimal, UUID and base64url, and that the
    parsers accept exactly one text for each value. */
module Identifiers {
  import opened Options
  import opened CanonicalString
  import opened JsonLiteral

  predicate Octets(s: string)
  {
    forall i :: 0 <= i < |s| ==> s[i] as int < 256
  }

  // ---------------------------------------------------------------- hexadecimal

  function HexOctet(c: char): string
    requires c as int < 256
  {
    [HEX[c as int / 16], HEX[c as int % 16]]
  }

  function Hex(b: string): (t: string)
    requires Octets(b)
    ensures |t| == 2 * |b|
  {
    if b == [] then [] else HexOctet(b[0]) + Hex(b[1..])
  }

  /** `hex.DecodeString`: both cases of the letters are accepted. */
  function Unhex(t: string): (b: Option<string>)
    ensures b.Some? ==> |t| == 2 * |b.value| && Octets(b.value)
  {
    if t == [] then Some([])
    else if |t| == 1 then None
    else
      var high, low, rest := HexDigit(t[0]), HexDigit(t[1]), Unhex(t[2..]);
      if high.Some? && low.Some? && rest.Some? then Some([Byte(16 * high.value + low.value)] + rest.value) else None
  }

  function LowerChar(c: char): char
  {
    if 'A' <= c <= 'Z' then (c as int + 32) as char else c
  }

  function ToLower(t: string): (l: string)
    ensures |l| == |t|
  {
    seq(|t|, i requires 0 <= i < |t| => LowerChar(t[i]))
  }

  lemma HexDigitIsExact(c: char, v: int)
    requires 0 <= v < 16
    ensures HexDigit(c) == Some(v) <==> LowerChar(c) == HEX[v]
  {
  }

  lemma OctetIsExact(x: char, y: char, c: char)
    requires c as int < 256
    ensures HexDigit(x) == Some(c as int / 16) && HexDigit(y) == Some(c as int % 16) <==>
            [LowerChar(x), LowerChar(y)] == HexOctet(c)
  {
    HexDigitIsExact(x, c as int / 16);
    HexDigitIsExact(y, c as int % 16);
    assert [LowerChar(x), LowerChar(y)] == HexOctet(c) <==>
           LowerChar(x) == HEX[c as int / 16] && LowerChar(y) == HEX[c as int % 16];
  }

  lemma OctetOfDigits(high: int, low: int, c: char)
    requires 0 <= high < 16 && 0 <= low < 16 && c as int < 256
    ensures Byte(16 * high + low) == c <==> high == c as int / 16 && low == c as int % 16
  {
  }

  lemma UnhexStep(t: string, b: string)
    requires |t| >= 2 && b != [] && Octets(b)
    ensures Unhex(t) == Some(b) <==>
      && HexDigit(t[0]) == Some(b[0] as int / 16) && HexDigit(t[1]) == Some(b[0] as int % 16)
      && Unhex(t[2..]) == Some(b[1..])
  {
    UnhexParts(HexDigit(t[0]), HexDigit(t[1]), Unhex(t[2..]), b);
  }

  lemma UnhexParts(high: Option<int>, low: Option<int>, rest: Option<string>, b: string)
    requires (high.Some? ==> 0 <= high.value < 16) && (low.Some? ==> 0 <= low.value < 16) && b != [] && Octets(b)
    ensures (high.Some? && low.Some? && rest.Some? && [Byte(16 * high.value + low.value)] + rest.value == b) <==>
      high == Some(b[0] as int / 16) && low == Some(b[0] as int % 16) && rest == Some(b[1..])
  {
    assert b == [b[0]] + b[1..];
    if high.Some? && low.Some? && rest.Some? {
      OctetOfDigits(high.value, low.value, b[0]);
      SplitAtOne(Byte(16 * high.value + low.value), rest.value, b[0], b[1..]);
    }
  }

  lemma HexStep(t: string, b: string)
    requires |t| >= 2 && b != [] && Octets(b)
    ensures ToLower(t) == Hex(b) <==>
      [LowerChar(t[0]), LowerChar(t[1])] == HexOctet(b[0]) && ToLower(t[2..]) == Hex(b[1..])
  {
    assert ToLower(t) == [LowerChar(t[0]), LowerChar(t[1])] + ToLower(t[2..]);
    SplitAtTwo([LowerChar(t[0]), LowerChar(t[1])], ToLower(t[2..]), HexOctet(b[0]), Hex(b[1..]));
  }

  /** Up to the case of the letters, decoding accepts one text for each value, the encoded one. */
  lemma {:induction false} UnhexIsExact(t: string, b: string)
    requires Octets(b)
    ensures Unhex(t) == Some(b) <==> ToLower(t) == Hex(b)
  {
    if |t| >= 2 && b != [] {
      UnhexIsExact(t[2..], b[1..]);
      OctetIsExact(t[0], t[1], b[0]);
      UnhexStep(t, b);
      HexStep(t, b);
    }
  }

  lemma SplitAtOne(a: char, x: string, b: char, y: string)
    ensures [a] + x == [b] + y <==> a == b && x == y
  {
    assert ([a] + x)[1..] == x && ([b] + y)[1..] == y;
    assert ([a] + x)[0] == a && ([b] + y)[0] == b;
  }

  lemma SplitAtTwo(a: string, x: string, b: string, y: string)
    requires |a| == 2 && |b| == 2
    ensures a + x == b + y <==> a == b && x == y
  {
    assert (a + x)[2..] == x && (b + y)[2..] == y;
    assert (a + x)[..2] == a && (b + y)[..2] == b;
  }

  // ---------------------------------------------------------------- UUIDs, section 4 of RFC 9562

  predicate Uuid(v: string)
  {
    |v| == 16 && Octets(v)
  }

  const ZERO_UUID: string := ZEROS + ZEROS
  const ZEROS: string := ['\0', '\0', '\0', '\0', '\0', '\0', '\0', '\0']

  predicate Version4(v: string)
    requires Uuid(v)
  {
    v[6] as int / 16 == 4 && v[8] as int / 64 == 2
  }

  predicate Dashed(t: string)
  {
    |t| == 36 && t[8] == '-' && t[13] == '-' && t[18] == '-' && t[23] == '-'
  }

  function Compact(t: string): string
    requires Dashed(t)
  {
    t[..8] + t[9..13] + t[14..18] + t[19..23] + t[24..]
  }

  function Grouped(h: string): string
    requires |h| == 32
  {
    h[..8] + "-" + h[8..12] + "-" + h[12..16] + "-" + h[16..20] + "-" + h[20..]
  }

  function UuidText(v: string): (t: string)
    requires Uuid(v)
    ensures |t| == 36
  {
    Grouped(Hex(v))
  }

  lemma CompactKeepsAll(t: string)
    requires Dashed(t)
    ensures Grouped(Compact(t)) == t
  {
    var h := Compact(t);
    assert h[..8] == t[..8] && h[8..12] == t[9..13] && h[12..16] == t[14..18];
    assert h[16..20] == t[19..23] && h[20..] == t[24..];
    assert t == t[..8] + "-" + t[9..13] + "-" + t[14..18] + "-" + t[19..23] + "-" + t[24..];
  }

  lemma GroupingIsExact(t: string, h: string)
    requires |h| == 32
    ensures t == Grouped(h) <==> Dashed(t) && Compact(t) == h
  {
    if t == Grouped(h) {
      assert Dashed(t);
      assert t[..8] == h[..8] && t[9..13] == h[8..12] && t[14..18] == h[12..16];
      assert t[19..23] == h[16..20] && t[24..] == h[20..];
      assert h == h[..8] + h[8..12] + h[12..16] + h[16..20] + h[20..];
    } else if Dashed(t) {
      CompactKeepsAll(t);
    }
  }

  lemma LowerKeepsGrouping(t: string)
    ensures Dashed(ToLower(t)) <==> Dashed(t)
    ensures Dashed(t) ==> Compact(ToLower(t)) == ToLower(Compact(t))
  {
  }

  /** `parseUUID` of both packages: one takes lower case only and can demand version 4.  For every
      identity exactly one text is accepted, up to the case of the letters where that is allowed. */
  method ParseUuid(text: string, lowerOnly: bool, requireV4: bool) returns (r: Option<string>)
    ensures r.Some? ==> Uuid(r.value)
    ensures forall v | Uuid(v) :: r == Some(v) <==>
      && (if lowerOnly then text else ToLower(text)) == UuidText(v)
      && v != ZERO_UUID && (requireV4 ==> Version4(v))
  {
    LowerKeepsGrouping(text);
    forall v | Uuid(v)
      ensures ToLower(text) == UuidText(v) <==> Dashed(text) && Unhex(Compact(text)) == Some(v)
    {
      GroupingIsExact(ToLower(text), Hex(v));
      if Dashed(text) { UnhexIsExact(Compact(text), v); }
    }
    forall v | Uuid(v)
      ensures text == UuidText(v) <==> ToLower(text) == text && ToLower(text) == UuidText(v)
    {
      UuidTextIsLower(v);
    }
    if !Dashed(text) || (lowerOnly && ToLower(text) != text) {
      return None;
    }
    var decoded := Unhex(Compact(text));
    if decoded.None? || decoded.value == ZERO_UUID || (requireV4 && !Version4(decoded.value)) {
      return None;
    }
    r := decoded;
  }

  lemma {:induction false} HexIsLower(b: string)
    requires Octets(b)
    ensures ToLower(Hex(b)) == Hex(b)
  {
    if b != [] {
      HexIsLower(b[1..]);
      OctetIsLower(b[0]);
      LowerOfBoth(HexOctet(b[0]), Hex(b[1..]));
    }
  }

  lemma OctetIsLower(c: char)
    requires c as int < 256
    ensures ToLower(HexOctet(c)) == HexOctet(c)
  {
    HexDigitIsExact(HEX[c as int / 16], c as int / 16);
    HexDigitIsExact(HEX[c as int % 16], c as int % 16);
  }

  lemma LowerOfBoth(a: string, b: string)
    ensures ToLower(a + b) == ToLower(a) + ToLower(b)
  {
  }

  lemma UuidTextIsLower(v: string)
    requires Uuid(v)
    ensures ToLower(UuidText(v)) == UuidText(v)
  {
    HexIsLower(v);
    forall i | 0 <= i < 32 ensures LowerChar(Hex(v)[i]) == Hex(v)[i] {
      assert ToLower(Hex(v))[i] == LowerChar(Hex(v)[i]);
    }
  }

  lemma {:induction false} HexAt(b: string, i: nat)
    requires Octets(b) && i < |b|
    ensures Hex(b)[2 * i] == HEX[b[i] as int / 16] && Hex(b)[2 * i + 1] == HEX[b[i] as int % 16]
  {
    if i > 0 {
      HexAt(b[1..], i - 1);
    }
  }

  /** From `at` on, `t` holds the digits of `h` from `from` up to `to`. */
  predicate Holds(t: string, at: nat, h: string, from: nat, to: nat)
    requires from <= to <= |h| && at + to - from <= |t|
  {
    t[at..at + to - from] == h[from..to]
  }

  /** `hex.Encode(dst[at:], v[from:to])`. */
  method HexEncode(dst: array<char>, at: nat, v: string, from: nat, to: nat)
    requires Octets(v) && from <= to <= |v| && at + 2 * (to - from) <= dst.Length
    modifies dst
    ensures Holds(dst[..], at, Hex(v), 2 * from, 2 * to)
    ensures forall i :: 0 <= i < dst.Length && !(at <= i < at + 2 * (to - from)) ==> dst[i] == old(dst[i])
  {
    for n := from to to
      invariant forall i :: at <= i < at + 2 * (n - from) ==> dst[i] == Hex(v)[i - at + 2 * from]
      invariant forall i :: 0 <= i < dst.Length && !(at <= i < at + 2 * (n - from)) ==> dst[i] == old(dst[i])
    {
      HexAt(v, n);
      dst[at + 2 * (n - from)] := HEX[v[n] as int / 16];
      dst[at + 2 * (n - from) + 1] := HEX[v[n] as int % 16];
    }
  }

  lemma Assemble(t: string, h: string)
    requires Dashed(t) && |h| == 32
    requires Holds(t, 0, h, 0, 8) && Holds(t, 9, h, 8, 12) && Holds(t, 14, h, 12, 16) && Holds(t, 19, h, 16, 20)
    requires Holds(t, 24, h, 20, 32)
    ensures t == Grouped(h)
  {
    assert t == t[0..8] + "-" + t[9..13] + "-" + t[14..18] + "-" + t[19..23] + "-" + t[24..36];
  }

  /** `formatUUID`: five runs of hexadecimal digits written into one buffer, with dashes between. */
  method FormatUuid(v: string) returns (text: string)
    requires Uuid(v)
    ensures text == UuidText(v)
  {
    var encoded := new char[36];
    HexEncode(encoded, 0, v, 0, 4);
    ghost var a := encoded[0..8];
    encoded[8] := '-';
    HexEncode(encoded, 9, v, 4, 6);
    ghost var b := encoded[9..13];
    assert encoded[0..8] == a;
    encoded[13] := '-';
    HexEncode(encoded, 14, v, 6, 8);
    ghost var c := encoded[14..18];
    assert encoded[0..8] == a && encoded[9..13] == b;
    encoded[18] := '-';
    HexEncode(encoded, 19, v, 8, 10);
    ghost var d := encoded[19..23];
    assert encoded[0..8] == a && encoded[9..13] == b && encoded[14..18] == c;
    encoded[23] := '-';
    HexEncode(encoded, 24, v, 10, 16);
    assert encoded[0..8] == a && encoded[9..13] == b && encoded[14..18] == c && encoded[19..23] == d;
    text := encoded[..];
    Assemble(text, Hex(v));
  }

  predicate CanonicalUuid(text: string, v: string)
  {
    Uuid(v) && v != ZERO_UUID && UuidText(v) == text
  }

  /** A delivery identity is taken in its canonical text only, though parsing would take more. */
  method ParseDeliveryIdentity(text: string) returns (r: Option<string>)
    ensures forall v :: r == Some(v) <==> CanonicalUuid(text, v)
  {
    var parsed := ParseUuid(text, false, false);
    forall v | CanonicalUuid(text, v) ensures parsed == Some(v) {
      UuidTextIsLower(v);
    }
    if parsed.None? {
      return None;
    }
    var again := FormatUuid(parsed.value);
    if again != text {
      return None;
    }
    r := parsed;
    UuidTextIsLower(parsed.value);
  }

  // ---------------------------------------------------------------- base64url, section 5 of RFC 4648

  function Sextet(v: int): char
    requires 0 <= v < 64
  {
    if v < 26 then ('A' as int + v) as char
    else if v < 52 then ('a' as int + v - 26) as char
    else if v < 62 then ('0' as int + v - 52) as char
    else if v == 62 then '-'
    else '_'
  }

  /** The alphabet of section 5 of RFC 4648, in its order. */
  lemma SextetIsUrlSafe(v: int)
    requires 0 <= v < 64
    ensures v < 26 ==> Sextet(v) == "ABCDEFGHIJKLMNOPQRSTUVWXYZ"[v]
    ensures 26 <= v < 52 ==> Sextet(v) == "abcdefghijklmnopqrstuvwxyz"[v - 26]
    ensures 52 <= v ==> Sextet(v) == "0123456789-_"[v - 52]
  {
    if v >= 52 {
      assert Sextet(v) == "0123456789-_"[v - 52];
    }
  }

  function SextetValue(c: char): (v: Option<int>)
    ensures v.Some? ==> 0 <= v.value < 64
  {
    if 'A' <= c <= 'Z' then Some(c as int - 'A' as int)
    else if 'a' <= c <= 'z' then Some(c as int - 'a' as int + 26)
    else if '0' <= c <= '9' then Some(c as int - '0' as int + 52)
    else if c == '-' then Some(62)
    else if c == '_' then Some(63)
    else None
  }

  function OctetAt(b: string, i: nat): (v: int)
    requires Octets(b)
    ensures 0 <= v < 256
  {
    if i < |b| then b[i] as int else 0
  }

  /** The `i`th six bits of up to three bytes, which count as zero behind the end. */
  function SextetAt(b: string, i: nat): (v: int)
    requires Octets(b) && |b| <= 3 && i < 4
    ensures 0 <= v < 64 && (i > |b| ==> v == 0)
  {
    match i
    case 0 => OctetAt(b, 0) / 4
    case 1 => OctetAt(b, 0) % 4 * 16 + OctetAt(b, 1) / 16
    case 2 => OctetAt(b, 1) % 16 * 4 + OctetAt(b, 2) / 64
    case _ => OctetAt(b, 2) % 64
  }

  /** The characters for up to three bytes, without padding. */
  function EncodeGroup(b: string): (t: string)
    requires Octets(b) && 1 <= |b| <= 3
    ensures |t| == |b| + 1
  {
    [Sextet(SextetAt(b, 0)), Sextet(SextetAt(b, 1)), Sextet(SextetAt(b, 2)), Sextet(SextetAt(b, 3))][..|b| + 1]
  }

  function Base64(b: string): (t: string)
    requires Octets(b)
    ensures |t| == (4 * |b| + 2) / 3
  {
    if b == [] then []
    else if |b| <= 3 then EncodeGroup(b)
    else EncodeGroup(b[..3]) + Base64(b[3..])
  }

  function Joined(p: int, q: int, r: int, s: int): (b: string)
    requires 0 <= p < 64 && 0 <= q < 64 && 0 <= r < 64 && 0 <= s < 64
    ensures |b| == 3 && Octets(b)
  {
    [Byte(p * 4 + q / 16), Byte(q % 16 * 16 + r / 4), Byte(r % 4 * 64 + s)]
  }

  /** The bytes of two to four characters; the unused low bits of the last character are ignored. */
  function DecodeGroup(t: string): (b: Option<string>)
    requires |t| <= 4
    ensures b.Some? ==> Octets(b.value)
  {
    if |t| < 2 then None
    else
      var p, q := SextetValue(t[0]), SextetValue(t[1]);
      var r := if |t| > 2 then SextetValue(t[2]) else Some(0);
      var s := if |t| > 3 then SextetValue(t[3]) else Some(0);
      if p.None? || q.None? || r.None? || s.None? then None
      else Some(Joined(p.value, q.value, r.value, s.value)[..|t| - 1])
  }

  function DecodeGroups(t: string): (b: Option<string>)
    ensures b.Some? ==> Octets(b.value)
  {
    if t == [] then Some([])
    else if |t| <= 4 then DecodeGroup(t)
    else
      var first, rest := DecodeGroup(t[..4]), DecodeGroups(t[4..]);
      if first.Some? && rest.Some? then Some(first.value + rest.value) else None
  }

  function WithoutNewlines(t: string): string
  {
    if t == [] then []
    else (if t[0] == '\r' || t[0] == '\n' then [] else [t[0]]) + WithoutNewlines(t[1..])
  }

  /** `base64.RawURLEncoding.DecodeString`, which skips line ends and does not look at unused bits. */
  function Unbase64(t: string): (b: Option<string>)
    ensures b.Some? ==> Octets(b.value)
  {
    DecodeGroups(WithoutNewlines(t))
  }

  lemma SextetRoundTrip(v: int)
    requires 0 <= v < 64
    ensures SextetValue(Sextet(v)) == Some(v)
  {
  }

  lemma BitsAreKept(x: int, y: int, z: int)
    requires 0 <= x < 256 && 0 <= y < 256 && 0 <= z < 256
    ensures Joined(x / 4, x % 4 * 16 + y / 16, y % 16 * 4 + z / 64, z % 64) == [Byte(x), Byte(y), Byte(z)]
  {
    FirstOctet(x, y / 16);
    SecondOctet(x % 4, y, z / 64);
    ThirdOctet(y % 16, z);
  }

  lemma FirstOctet(x: int, next: int)
    requires 0 <= x < 256 && 0 <= next < 16
    ensures x / 4 * 4 + (x % 4 * 16 + next) / 16 == x
  {
  }

  lemma SecondOctet(before: int, y: int, next: int)
    requires 0 <= before < 4 && 0 <= y < 256 && 0 <= next < 4
    ensures (before * 16 + y / 16) % 16 * 16 + (y % 16 * 4 + next) / 4 == y
  {
  }

  lemma ThirdOctet(before: int, z: int)
    requires 0 <= before < 16 && 0 <= z < 256
    ensures (before * 4 + z / 64) % 4 * 64 + z % 64 == z
  {
  }

  lemma SextetsKeepTheBits(b: string)
    requires Octets(b) && |b| <= 3
    ensures Joined(SextetAt(b, 0), SextetAt(b, 1), SextetAt(b, 2), SextetAt(b, 3)) ==
      [Byte(OctetAt(b, 0)), Byte(OctetAt(b, 1)), Byte(OctetAt(b, 2))]
  {
    BitsAreKept(OctetAt(b, 0), OctetAt(b, 1), OctetAt(b, 2));
  }

  lemma EncodedSextet(b: string, i: nat)
    requires Octets(b) && 1 <= |b| <= 3 && i <= |b|
    ensures SextetValue(EncodeGroup(b)[i]) == Some(SextetAt(b, i))
  {
    SextetRoundTrip(SextetAt(b, i));
  }

  lemma DecodedSextets(t: string, p: int, q: int, r: int, s: int)
    requires 2 <= |t| <= 4 && 0 <= p < 64 && 0 <= q < 64 && 0 <= r < 64 && 0 <= s < 64
    requires SextetValue(t[0]) == Some(p) && SextetValue(t[1]) == Some(q)
    requires if |t| > 2 then SextetValue(t[2]) == Some(r) else r == 0
    requires if |t| > 3 then SextetValue(t[3]) == Some(s) else s == 0
    ensures DecodeGroup(t) == Some(Joined(p, q, r, s)[..|t| - 1])
  {
  }

  lemma GroupRoundTrip(b: string)
    requires Octets(b) && 1 <= |b| <= 3
    ensures DecodeGroup(EncodeGroup(b)) == Some(b)
  {
    forall i: nat | i <= |b| ensures SextetValue(EncodeGroup(b)[i]) == Some(SextetAt(b, i)) {
      EncodedSextet(b, i);
    }
    DecodedSextets(EncodeGroup(b), SextetAt(b, 0), SextetAt(b, 1), SextetAt(b, 2), SextetAt(b, 3));
    SextetsKeepTheBits(b);
    assert [Byte(OctetAt(b, 0)), Byte(OctetAt(b, 1)), Byte(OctetAt(b, 2))][..|b|] == b;
  }

  lemma {:induction false} GroupsRoundTrip(b: string)
    requires Octets(b)
    ensures DecodeGroups(Base64(b)) == Some(b)
  {
    if 0 < |b| <= 3 {
      GroupRoundTrip(b);
    } else if b != [] {
      GroupRoundTrip(b[..3]);
      GroupsRoundTrip(b[3..]);
      var first, rest := EncodeGroup(b[..3]), Base64(b[3..]);
      assert (first + rest)[..4] == first && (first + rest)[4..] == rest;
      assert b == b[..3] + b[3..];
    }
  }

  predicate Clean(t: string)
  {
    forall i :: 0 <= i < |t| ==> SextetValue(t[i]).Some?
  }

  lemma {:induction false} Base64IsClean(b: string)
    requires Octets(b)
    ensures Clean(Base64(b))
  {
    if 0 < |b| <= 3 {
      GroupRoundTrip(b);
    } else if b != [] {
      GroupRoundTrip(b[..3]);
      Base64IsClean(b[3..]);
    }
  }

  lemma {:induction false} CleanHasNoNewlines(t: string)
    requires Clean(t)
    ensures WithoutNewlines(t) == t
  {
    if t != [] {
      CleanHasNoNewlines(t[1..]);
    }
  }

  lemma Base64RoundTrip(b: string)
    requires Octets(b)
    ensures Unbase64(Base64(b)) == Some(b)
  {
    Base64IsClean(b);
    CleanHasNoNewlines(Base64(b));
    GroupsRoundTrip(b);
  }

  /** How nonces, tokens and signatures of a fixed size are read: decode, then compare the text with
      the encoding of the result.  Exactly one text is accepted for each value. */
  method ParseBase64(text: string, size: nat) returns (r: Option<string>)
    ensures r.Some? ==> Octets(r.value)
    ensures forall b | Octets(b) :: r == Some(b) <==> |b| == size && text == Base64(b)
  {
    forall b | Octets(b) && text == Base64(b)
      ensures Unbase64(text) == Some(b)
    {
      Base64RoundTrip(b);
    }
    if |text| != (4 * size + 2) / 3 {
      return None;
    }
    var decoded := Unbase64(text);
    if decoded.None? || |decoded.value| != size || Base64(decoded.value) != text {
      return None;
    }
    r := decoded;
  }
}
