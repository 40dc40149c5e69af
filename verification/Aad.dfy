/** The additional authenticated data that binds a protected value to where it belongs. */
module Aad {
  import opened Options
  import opened CanonicalString
  import opened Identifiers

  const TAG := "MS_ONCALL_GATEWAY_PAYLOAD_PROTECTION"
  const EVENT := 1
  const DIGEST := 2
  const INT64 := 0x8000_0000_0000_0000
  const UINT32 := 0x1_0000_0000

  /** Where a protected value belongs. */
  datatype Context = Context(
    protection: int, purpose: int, format: int, identity: string, principal: string, destination: string, keyId: string)

  predicate ValidAadString(s: string)
  {
    ValidUtf8(s) && |s| < UINT32
  }

  /** The values of the fields' Go types. */
  predicate Typed(c: Context)
  {
    -INT64 <= c.protection < INT64 && -INT64 <= c.format < INT64 && 0 <= c.purpose < 256 && Uuid(c.identity)
  }

  predicate ValidContext(c: Context)
  {
    && Typed(c) && c.protection > 0 && c.format > 0 && c.identity != ZERO_UUID
    && (c.purpose == EVENT || c.purpose == DIGEST)
    && c.principal != "" && ValidAadString(c.principal)
    && c.destination != "" && ValidAadString(c.destination)
    && c.keyId != "" && ValidAadString(c.keyId)
  }

  // ---------------------------------------------------------------- big-endian integers

  function BigEndian(v: nat, n: nat): (b: string)
    ensures |b| == n
  {
    if n == 0 then [] else BigEndian(v / 256, n - 1) + [Byte(v % 256)]
  }

  function Value(b: string): int
  {
    if b == [] then 0 else Value(b[..|b| - 1]) * 256 + b[|b| - 1] as int
  }

  function Power256(n: nat): nat
  {
    if n == 0 then 1 else 256 * Power256(n - 1)
  }

  lemma {:induction false} BigEndianKeepsTheValue(v: nat, n: nat)
    requires v < Power256(n)
    ensures Value(BigEndian(v, n)) == v
  {
    if n > 0 {
      BigEndianKeepsTheValue(v / 256, n - 1);
      assert BigEndian(v, n)[..n - 1] == BigEndian(v / 256, n - 1);
    }
  }

  // ---------------------------------------------------------------- the encoding

  /** A string behind its length. */
  function Prefixed(s: string): string
  {
    BigEndian(|s|, 4) + s
  }

  function Strings(c: Context): string
  {
    Prefixed(c.principal) + (Prefixed(c.destination) + Prefixed(c.keyId))
  }

  function AadBytes(c: Context): string
    requires ValidContext(c)
  {
    TAG + ([Byte(0)] + (BigEndian(c.protection, 8) + ([Byte(c.purpose)] + (BigEndian(c.format, 8) +
    (c.identity + Strings(c))))))
  }

  // ---------------------------------------------------------------- reading it

  /** A string behind its four-byte length, and what follows it. */
  function ReadPrefixed(t: string): Option<(string, string)>
  {
    if |t| < 4 then None
    else
      var n := Value(t[..4]);
      if n < 0 || 4 + n > |t| then None else Some((t[4..4 + n], t[4 + n..]))
  }

  /** The context that the documented layout spells: the tag, a zero byte, the protection version in eight
      bytes, the purpose in one, the format version in eight, the delivery identity in sixteen, and then
      principal, destination and key behind their lengths. */
  function ReadContext(t: string): Option<Context>
  {
    if |t| < 70 || t[..36] != "MS_ONCALL_GATEWAY_PAYLOAD_PROTECTION" || t[36] as int != 0 then None
    else
      var principal := ReadPrefixed(t[70..]);
      if principal.None? then None
      else
        var destination := ReadPrefixed(principal.value.1);
        if destination.None? then None
        else
          var key := ReadPrefixed(destination.value.1);
          if key.None? || key.value.1 != [] then None
          else
            Some(Context(Value(t[37..45]), t[45] as int, Value(t[46..54]), t[54..70],
                         principal.value.0, destination.value.0, key.value.0))
  }

  lemma PrefixedReadsBack(s: string, rest: string)
    requires |s| < UINT32
    ensures ReadPrefixed(Prefixed(s) + rest) == Some((s, rest))
  {
    var n, t := BigEndian(|s|, 4), Prefixed(s) + rest;
    assert Power256(4) == UINT32;
    BigEndianKeepsTheValue(|s|, 4);
    assert t[..4] == n && t[4..4 + |s|] == s && t[4 + |s|..] == rest;
  }

  lemma StringsReadBack(c: Context)
    requires ValidContext(c)
    ensures var rest, last := Prefixed(c.destination) + Prefixed(c.keyId), Prefixed(c.keyId);
            && ReadPrefixed(Strings(c)) == Some((c.principal, rest))
            && ReadPrefixed(rest) == Some((c.destination, last)) && ReadPrefixed(last) == Some((c.keyId, []))
  {
    PrefixedReadsBack(c.principal, Prefixed(c.destination) + Prefixed(c.keyId));
    PrefixedReadsBack(c.destination, Prefixed(c.keyId));
    PrefixedReadsBack(c.keyId, []);
    assert Prefixed(c.keyId) + [] == Prefixed(c.keyId);
  }

  /** Fixed-size pieces lie where their sizes put them. */
  lemma Pieces(tag: string, zero: string, v: string, p: string, f: string, id: string, rest: string)
    requires |tag| == 36 && |zero| == 1 && |v| == 8 && |p| == 1 && |f| == 8 && |id| == 16
    ensures var t := tag + (zero + (v + (p + (f + (id + rest)))));
            && |t| >= 70 && t[..36] == tag && t[36] == zero[0] && t[37..45] == v && t[45] == p[0] && t[46..54] == f
            && t[54..70] == id && t[70..] == rest
  {
  }

  /** Reading inverts the encoding, field by field and in the documented order. */
  lemma AadReadsBack(c: Context)
    requires ValidContext(c)
    ensures ReadContext(AadBytes(c)) == Some(c)
  {
    assert INT64 <= Power256(8);
    BigEndianKeepsTheValue(c.protection, 8);
    BigEndianKeepsTheValue(c.format, 8);
    StringsReadBack(c);
    Pieces(TAG, [Byte(0)], BigEndian(c.protection, 8), [Byte(c.purpose)], BigEndian(c.format, 8), c.identity,
           Strings(c));
  }

  /** The bytes determine every field of the context. */
  lemma AadIdentifiesTheContext(c: Context, d: Context)
    requires ValidContext(c) && ValidContext(d)
    ensures AadBytes(c) == AadBytes(d) <==> c == d
  {
    AadReadsBack(c);
    AadReadsBack(d);
  }

  // ---------------------------------------------------------------- building it

  method BuildAad(c: Context) returns (r: Option<string>)
    requires Typed(c)
    ensures r.Some? <==> ValidContext(c)
    ensures r.Some? ==> r.value == AadBytes(c)
  {
    if c.protection <= 0 || c.format <= 0 || c.identity == ZERO_UUID || (c.purpose != EVENT && c.purpose != DIGEST) {
      return None;
    }
    var strings := [c.principal, c.destination, c.keyId];
    for n := 0 to 3
      invariant forall k :: 0 <= k < n ==> strings[k] != "" && ValidAadString(strings[k])
    {
      if strings[n] == "" || !ValidAadString(strings[n]) {
        return None;
      }
    }
    assert strings[0] == c.principal && strings[1] == c.destination && strings[2] == c.keyId;
    var aad := TAG;
    aad := aad + [Byte(0)];
    aad := aad + BigEndian(c.protection, 8);
    aad := aad + [Byte(c.purpose)];
    aad := aad + BigEndian(c.format, 8);
    aad := aad + c.identity;
    Flatten(TAG, [Byte(0)], BigEndian(c.protection, 8), [Byte(c.purpose)], BigEndian(c.format, 8), c.identity,
            Strings(c));
    ghost var head := aad;
    aad := AppendAadString(aad, c.principal);
    aad := AppendAadString(aad, c.destination);
    aad := AppendAadString(aad, c.keyId);
    Flatten3(head, Prefixed(c.principal), Prefixed(c.destination), Prefixed(c.keyId));
    r := Some(aad);
  }

  method AppendAadString(aad: string, value: string) returns (out: string)
    ensures out == aad + Prefixed(value)
  {
    out := aad + BigEndian(|value|, 4);
    out := out + value;
  }

  lemma Flatten(a: string, b: string, c: string, d: string, e: string, f: string, x: string)
    ensures (((((a + b) + c) + d) + e) + f) + x == a + (b + (c + (d + (e + (f + x)))))
  {
  }

  lemma Flatten3(h: string, a: string, b: string, c: string)
    ensures ((h + a) + b) + c == h + (a + (b + c))
  {
  }
}
