/** Signed requests: which texts are accepted, and that the bytes a request is signed over
    determine every signed field. */
module Signing {
  import opened Options
  import opened Decimals
  import opened Identifiers

  const SCHEME := "MSOnCall-HMAC-SHA256 Credential="
  const SEPARATOR := ", Signature="
  const PATH_PREFIX := "/v1/goalert/contact-method/"
  const TOKEN_PREFIX := "mso1_"
  const DOMAIN := "MS_ONCALL_GATEWAY_REQUEST_V1"
  const UINT64 := 0x1_0000_0000_0000_0000

  // ---------------------------------------------------------------- timestamps

  /** A timestamp is accepted exactly in its shortest decimal form, up to the largest unsigned 64-bit value. */
  method ParseTimestamp(value: string) returns (r: Option<nat>)
    ensures forall n: nat :: r == Some(n) <==> n < UINT64 && value == DecimalNat(n)
  {
    forall n: nat | value == DecimalNat(n) ensures DigitsValue(value) == n && (|value| == 1 || value[0] != '0') {
      DigitsOfDecimal(n);
      DecimalHasNoLeadingZero(n);
    }
    if value == "" || (|value| > 1 && value[0] == '0') {
      return None;
    }
    for index := 0 to |value|
      invariant forall i :: 0 <= i < index ==> '0' <= value[i] <= '9'
    {
      if value[index] < '0' || value[index] > '9' {
        return None;
      }
    }
    DecimalOfDigits(value);
    var parsed := DigitsValue(value);
    r := if parsed < UINT64 then Some(parsed) else None;
  }

  // ---------------------------------------------------------------- the authorization header

  predicate At(s: string, i: nat, part: string)
  {
    i + |part| <= |s| && s[i..i + |part|] == part
  }

  /** `strings.Index`: where `part` first occurs at or after `from`. */
  function IndexFrom(s: string, part: string, from: nat): (r: Option<nat>)
    ensures r.Some? ==> from <= r.value && At(s, r.value, part) && forall i :: from <= i < r.value ==> !At(s, i, part)
    ensures r.None? ==> forall i :: from <= i <= |s| ==> !At(s, i, part)
    decreases |s| - from
  {
    if from > |s| then None else if At(s, from, part) then Some(from) else IndexFrom(s, part, from + 1)
  }

  predicate ValidCredential(c: string)
  {
    Uuid(c) && c != ZERO_UUID && Version4(c)
  }

  function AuthorizationText(c: string, signature: string): string
    requires Uuid(c) && Octets(signature)
  {
    SCHEME + (UuidText(c) + (SEPARATOR + Base64(signature)))
  }

  /** No comma, no space and no control character. */
  predicate Plain(s: string)
  {
    forall i :: 0 <= i < |s| ==> s[i] > ' ' && s[i] != ','
  }

  lemma {:induction false} HexIsPlain(b: string)
    requires Octets(b)
    ensures Plain(Hex(b))
  {
    if b != [] {
      HexIsPlain(b[1..]);
    }
  }

  lemma UuidTextIsPlain(v: string)
    requires Uuid(v)
    ensures Plain(UuidText(v))
  {
    HexIsPlain(v);
  }

  lemma Base64IsPlain(b: string)
    requires Octets(b)
    ensures Plain(Base64(b))
  {
    Base64IsClean(b);
    forall i | 0 <= i < |Base64(b)| ensures Base64(b)[i] > ' ' && Base64(b)[i] != ',' {
      assert SextetValue(Base64(b)[i]).Some?;
    }
  }

  lemma StartsWithComma(s: string, i: nat, part: string)
    requires part != "" && part[0] == ',' && At(s, i, part)
    ensures i < |s| && s[i] == ','
  {
    assert s[i..i + |part|][0] == s[i];
  }

  lemma NoneInPlain(s: string, part: string)
    requires part != "" && part[0] == ',' && Plain(s)
    ensures IndexFrom(s, part, 0).None?
  {
    var found := IndexFrom(s, part, 0);
    if found.Some? {
      StartsWithComma(s, found.value, part);
    }
  }

  /** A separator that starts with a comma is found right behind a text without commas. */
  lemma FirstSeparator(c: string, part: string, tail: string)
    requires part != "" && part[0] == ',' && Plain(c)
    ensures IndexFrom(c + (part + tail), part, 0) == Some(|c|)
  {
    var s := c + (part + tail);
    assert s[|c|..|c| + |part|] == part;
    assert At(s, |c|, part);
    var first := IndexFrom(s, part, 0).value;
    if first < |c| {
      StartsWithComma(s, first, part);
    }
  }

  /** Splitting a text behind its first part at the first separator gives back what it was put together from. */
  lemma SplitInverts(scheme: string, c: string, part: string, tail: string, value: string)
    requires part != "" && part[0] == ',' && Plain(c) && value == scheme + (c + (part + tail))
    ensures scheme <= value && IndexFrom(value[|scheme|..], part, 0) == Some(|c|)
    ensures value[|scheme|..][..|c|] == c && value[|scheme|..][|c| + |part|..] == tail
  {
    assert value[..|scheme|] == scheme;
    assert value[|scheme|..] == c + (part + tail);
    FirstSeparator(c, part, tail);
  }

  lemma SplitKeepsAll(scheme: string, part: string, value: string, at: nat)
    requires scheme <= value && At(value[|scheme|..], at, part)
    ensures value == scheme + (value[|scheme|..][..at] + (part + value[|scheme|..][at + |part|..]))
  {
    var remainder := value[|scheme|..];
    assert value == scheme + remainder;
    assert remainder == remainder[..at] + (remainder[at..at + |part|] + remainder[at + |part|..]);
  }

  lemma AuthorizationSplits(value: string, c: string, s: string)
    requires Uuid(c) && Octets(s) && value == AuthorizationText(c, s)
    ensures SCHEME <= value && IndexFrom(value[|SCHEME|..], SEPARATOR, 0) == Some(36)
    ensures value[|SCHEME|..][..36] == UuidText(c) && value[|SCHEME|..][36 + |SEPARATOR|..] == Base64(s)
  {
    UuidTextIsPlain(c);
    SplitInverts(SCHEME, UuidText(c), SEPARATOR, Base64(s), value);
  }

  /** A header is accepted exactly if it is the one text for a credential and a signature. */
  method ParseAuthorization(value: string) returns (r: Option<(string, string)>)
    ensures forall c, s :: r == Some((c, s)) <==> Authorizes(value, c, s)
  {
    forall c, s | Authorizes(value, c, s)
      ensures SCHEME <= value && IndexFrom(value[|SCHEME|..], SEPARATOR, 0) == Some(36)
      ensures UuidText(c) == value[|SCHEME|..][..36] && Base64(s) == value[|SCHEME|..][36 + |SEPARATOR|..]
    {
      AuthorizationSplits(value, c, s);
    }
    if !(SCHEME <= value) {
      return None;
    }
    var remainder := value[|SCHEME|..];
    var separator := IndexFrom(remainder, SEPARATOR, 0);
    if separator.None? || separator.value == 0 {
      return None;
    }
    SplitKeepsAll(SCHEME, SEPARATOR, value, separator.value);
    r := ParseParts(remainder[..separator.value], remainder[separator.value + |SEPARATOR|..]);
  }

  predicate Authorizes(value: string, c: string, s: string)
  {
    ValidCredential(c) && Octets(s) && |s| == 32 && value == AuthorizationText(c, s)
  }

  method ParseParts(credentialText: string, signatureText: string) returns (r: Option<(string, string)>)
    ensures forall c, s :: r == Some((c, s)) <==>
      ValidCredential(c) && Octets(s) && |s| == 32 && credentialText == UuidText(c) && signatureText == Base64(s)
  {
    forall s | Octets(s) && signatureText == Base64(s) ensures IndexFrom(signatureText, SEPARATOR, 0).None? {
      Base64IsPlain(s);
      NoneInPlain(Base64(s), SEPARATOR);
    }
    if IndexFrom(signatureText, SEPARATOR, 0).Some? {
      return None;
    }
    var credential := ParseUuid(credentialText, true, true);
    if credential.None? {
      return None;
    }
    var signature := ParseBase64(signatureText, 32);
    if signature.None? {
      return None;
    }
    r := Some((credential.value, signature.value));
  }

  // ---------------------------------------------------------------- the request

  datatype Error = RequestInvalid | AuthenticationFailed

  datatype Request = Request(
    verb: string, path: string, delivery: string, authorization: seq<string>, timestamp: seq<string>,
    nonce: seq<string>, body: string)

  datatype Parsed = Parsed(
    path: string, delivery: string, credential: string, signature: string, timestampText: string, timestamp: nat,
    nonceText: string, nonce: string, body: string)

  predicate PathOf(path: string, token: string)
  {
    Octets(token) && |token| == 32 && path == PATH_PREFIX + (TOKEN_PREFIX + Base64(token))
  }

  /** Each text of a parsed request is the one text of its value. */
  ghost predicate WellParsed(p: Parsed)
  {
    && (exists token :: PathOf(p.path, token)) && (exists v :: CanonicalUuid(p.delivery, v))
    && ValidCredential(p.credential) && Octets(p.signature) && |p.signature| == 32
    && p.timestamp < UINT64 && p.timestampText == DecimalNat(p.timestamp)
    && Octets(p.nonce) && |p.nonce| == 16 && p.nonceText == Base64(p.nonce)
  }

  /** The request with exactly the headers of `p`. */
  predicate RequestOf(q: Request, p: Parsed)
    requires Uuid(p.credential) && Octets(p.signature)
  {
    && q.verb == "POST" && q.path == p.path && q.delivery == p.delivery && q.body == p.body
    && q.authorization == [AuthorizationText(p.credential, p.signature)]
    && q.timestamp == [p.timestampText] && q.nonce == [p.nonceText]
  }

  /** A `POST` to a contact method's path for a delivery that has an identity. */
  ghost predicate Addressed(q: Request)
  {
    q.verb == "POST" && (exists token :: PathOf(q.path, token)) && exists v :: CanonicalUuid(q.delivery, v)
  }

  method ValidCanonicalPath(path: string) returns (ok: bool)
    ensures ok <==> exists token :: PathOf(path, token)
  {
    var prefix := PATH_PREFIX + TOKEN_PREFIX;
    forall token | Octets(token)
      ensures path == PATH_PREFIX + (TOKEN_PREFIX + Base64(token)) <==>
              prefix <= path && path[|prefix|..] == Base64(token)
    {
      PrefixSplits(PATH_PREFIX, TOKEN_PREFIX, Base64(token), path);
    }
    if !(PATH_PREFIX <= path) || !(TOKEN_PREFIX <= path[|PATH_PREFIX|..]) {
      return false;
    }
    var token := ParseBase64(path[|prefix|..], 32);
    ok := token.Some?;
    assert ok ==> PathOf(path, token.value);
  }

  lemma PrefixSplits(a: string, b: string, x: string, path: string)
    ensures path == a + (b + x) <==> a + b <= path && path[|a + b|..] == x
    ensures a + b <= path <==> a <= path && b <= path[|a|..]
  {
    assert a + (b + x) == (a + b) + x;
    if a + b <= path {
      assert path == (a + b) + path[|a + b|..];
      assert a <= path;
      assert path[|a|..][..|b|] == path[|a|..|a| + |b|] == (a + b)[|a|..];
    }
    if a <= path && b <= path[|a|..] {
      assert path == a + path[|a|..] && path[|a|..] == b + path[|a|..][|b|..];
      assert path[..|a + b|] == a + b;
    }
  }

  predicate Space(c: char)
  {
    c == ' ' || c == '\t' || c == '\n' || c as int == 11 || c as int == 12 || c == '\r'
  }

  predicate HeaderText(s: string)
  {
    && s != "" && !Space(s[0]) && !Space(s[|s| - 1])
    && forall i :: 0 <= i < |s| ==> s[i] != '\r' && s[i] != '\n'
  }

  function ExactlyOne(values: seq<string>): Option<string>
  {
    if |values| != 1 || !HeaderText(values[0]) then None else Some(values[0])
  }

  lemma PlainIsHeaderText(s: string)
    requires Plain(s) && s != ""
    ensures HeaderText(s)
  {
  }

  lemma JoinedHeaderText(a: string, b: string, c: string, d: string)
    requires HeaderText(a + "x") && Plain(b) && HeaderText(c + "x") && Plain(d) && a != "" && c != "" && d != ""
    ensures HeaderText(a + (b + (c + d)))
  {
    var s := a + (b + (c + d));
    assert s[0] == (a + "x")[0];
    assert s[|s| - 1] == d[|d| - 1];
    assert forall i :: 0 <= i < |a| ==> (a + "x")[i] == a[i];
    assert forall i :: 0 <= i < |c| ==> (c + "x")[i] == c[i];
  }

  lemma AuthorizationIsHeaderText(c: string, s: string)
    requires Uuid(c) && Octets(s) && |s| == 32
    ensures HeaderText(AuthorizationText(c, s))
  {
    UuidTextIsPlain(c);
    Base64IsPlain(s);
    JoinedHeaderText(SCHEME, UuidText(c), SEPARATOR, Base64(s));
  }

  lemma HeadersOfParsed(p: Parsed)
    requires WellParsed(p)
    ensures HeaderText(AuthorizationText(p.credential, p.signature))
    ensures HeaderText(p.timestampText) && HeaderText(p.nonceText)
  {
    AuthorizationIsHeaderText(p.credential, p.signature);
    PlainIsHeaderText(p.timestampText);
    Base64IsPlain(p.nonce);
    PlainIsHeaderText(p.nonceText);
  }

  lemma OneOfEach(q: Request)
    ensures forall p :: WellParsed(p) && RequestOf(q, p) ==>
      && ExactlyOne(q.authorization) == Some(AuthorizationText(p.credential, p.signature))
      && ExactlyOne(q.timestamp) == Some(p.timestampText) && ExactlyOne(q.nonce) == Some(p.nonceText)
  {
    forall p | WellParsed(p) && RequestOf(q, p)
      ensures ExactlyOne(q.authorization) == Some(AuthorizationText(p.credential, p.signature))
      ensures ExactlyOne(q.timestamp) == Some(p.timestampText) && ExactlyOne(q.nonce) == Some(p.nonceText)
    {
      HeadersOfParsed(p);
    }
  }

  /** A request is accepted exactly if it is the request of some well-formed fields, which it determines. */
  method ParseRequest(q: Request) returns (r: Result<Parsed, Error>)
    ensures r.Ok? ==> WellParsed(r.value) && RequestOf(q, r.value)
    ensures forall p :: WellParsed(p) && RequestOf(q, p) ==> r == Ok(p)
    ensures r == Err(RequestInvalid) <==> !Addressed(q)
  {
    OneOfEach(q);
    var addressed := CheckAddress(q);
    if !addressed {
      return Err(RequestInvalid);
    }
    r := ParseHeaders(q, ExactlyOne(q.authorization), ExactlyOne(q.timestamp), ExactlyOne(q.nonce));
  }

  method CheckAddress(q: Request) returns (ok: bool)
    ensures ok <==> Addressed(q)
  {
    if q.verb != "POST" {
      return false;
    }
    ok := ValidCanonicalPath(q.path);
    if !ok {
      return false;
    }
    var delivery := ParseDeliveryIdentity(q.delivery);
    assert delivery.Some? ==> CanonicalUuid(q.delivery, delivery.value);
    ok := delivery.Some?;
  }

  method ParseHeaders(
      q: Request, authorization: Option<string>, timestampText: Option<string>, nonceText: Option<string>)
    returns (r: Result<Parsed, Error>)
    ensures r.Err? ==> r.error == AuthenticationFailed
    ensures forall p :: r == Ok(p) <==>
      && p.path == q.path && p.delivery == q.delivery && p.body == q.body
      && authorization.Some? && Authorizes(authorization.value, p.credential, p.signature)
      && timestampText == Some(p.timestampText) && p.timestamp < UINT64 && p.timestampText == DecimalNat(p.timestamp)
      && nonceText == Some(p.nonceText) && Octets(p.nonce) && |p.nonce| == 16 && p.nonceText == Base64(p.nonce)
  {
    if authorization.None? || timestampText.None? || nonceText.None? {
      return Err(AuthenticationFailed);
    }
    var credential := ParseAuthorization(authorization.value);
    if credential.None? {
      return Err(AuthenticationFailed);
    }
    var timestamp := ParseTimestamp(timestampText.value);
    if timestamp.None? {
      return Err(AuthenticationFailed);
    }
    var nonce := ParseBase64(nonceText.value, 16);
    if nonce.None? {
      return Err(AuthenticationFailed);
    }
    r := Ok(Parsed(q.path, q.delivery, credential.value.0, credential.value.1, timestampText.value, timestamp.value,
                   nonceText.value, nonce.value, q.body));
    assert Authorizes(authorization.value, credential.value.0, credential.value.1);
  }

  // ---------------------------------------------------------------- the signed bytes

  function Join(parts: seq<string>): string
  {
    if parts == [] then "" else if |parts| == 1 then parts[0] else parts[0] + ("\n" + Join(parts[1..]))
  }

  predicate OneLine(s: string)
  {
    '\n' !in s
  }

  function Lines(audience: string, p: Parsed, digest: string): seq<string>
    requires Uuid(audience) && Uuid(p.credential) && Octets(digest)
  {
    [DOMAIN, UuidText(audience), "POST", p.path, UuidText(p.credential), p.delivery, p.timestampText, p.nonceText,
     Hex(digest)]
  }

  function SigningInput(audience: string, p: Parsed, digest: string): string
    requires Uuid(audience) && Uuid(p.credential) && Octets(digest)
  {
    Join(Lines(audience, p, digest))
  }

  /** The lines of a text, cut at every newline. */
  function SplitLines(t: string): (ls: seq<string>)
    ensures |ls| > 0
  {
    if t == [] then [""]
    else
      var ls := SplitLines(t[1..]);
      if t[0] == '\n' then [""] + ls else [[t[0]] + ls[0]] + ls[1..]
  }

  lemma {:induction false} SplitOneLine(a: string)
    requires OneLine(a)
    ensures SplitLines(a) == [a]
  {
    if a != [] {
      SplitOneLine(a[1..]);
      assert a == [a[0]] + a[1..];
    }
  }

  lemma {:induction false} SplitAtNewline(a: string, rest: string)
    requires OneLine(a)
    ensures SplitLines(a + ("\n" + rest)) == [a] + SplitLines(rest)
  {
    var t := a + ("\n" + rest);
    if a == [] {
      assert t == "\n" + rest && t[1..] == rest;
    } else {
      SplitAtNewline(a[1..], rest);
      assert t[1..] == a[1..] + ("\n" + rest);
      assert a == [a[0]] + a[1..];
    }
  }

  /** Cutting joined lines gives back the lines. */
  lemma {:induction false} SplitInvertsJoin(parts: seq<string>)
    requires parts != [] && forall i :: 0 <= i < |parts| ==> OneLine(parts[i])
    ensures SplitLines(Join(parts)) == parts
  {
    if |parts| == 1 {
      SplitOneLine(parts[0]);
      assert parts == [parts[0]];
    } else {
      SplitInvertsJoin(parts[1..]);
      SplitAtNewline(parts[0], Join(parts[1..]));
      assert parts == [parts[0]] + parts[1..];
    }
  }

  lemma PathIsOneLine(path: string, token: string)
    requires PathOf(path, token)
    ensures OneLine(path)
  {
    Base64IsPlain(token);
  }

  lemma PlainIsOneLine(s: string)
    requires Plain(s)
    ensures OneLine(s)
  {
  }

  lemma FieldsAreLines(p: Parsed)
    requires WellParsed(p)
    ensures OneLine(p.path) && OneLine(p.delivery) && OneLine(p.timestampText) && OneLine(p.nonceText)
  {
    var token :| PathOf(p.path, token);
    var v :| CanonicalUuid(p.delivery, v);
    PathIsOneLine(p.path, token);
    UuidTextIsPlain(v);
    PlainIsOneLine(p.delivery);
    PlainIsOneLine(p.timestampText);
    Base64IsPlain(p.nonce);
    PlainIsOneLine(p.nonceText);
  }

  lemma LinesAreLines(audience: string, p: Parsed, digest: string)
    requires Uuid(audience) && WellParsed(p) && Octets(digest)
    ensures forall i :: 0 <= i < 9 ==> OneLine(Lines(audience, p, digest)[i])
  {
    FieldsAreLines(p);
    UuidTextIsPlain(audience);
    PlainIsOneLine(UuidText(audience));
    UuidTextIsPlain(p.credential);
    PlainIsOneLine(UuidText(p.credential));
    HexIsPlain(digest);
    PlainIsOneLine(Hex(digest));
  }

  lemma UuidReadsBack(v: string)
    requires Uuid(v)
    ensures Dashed(UuidText(v)) && Unhex(Compact(UuidText(v))) == Some(v)
  {
    GroupingIsExact(UuidText(v), Hex(v));
    HexReadsBack(v);
  }

  lemma HexReadsBack(b: string)
    requires Octets(b)
    ensures Unhex(Hex(b)) == Some(b)
  {
    HexIsLower(b);
    UnhexIsExact(Hex(b), b);
  }

  /** The nine lines that a request is signed over, as their readers see them: the domain, the audience, the
      method, the path, the credential, the delivery, the timestamp, the nonce and the digest of the body. */
  ghost predicate SpellsRequest(ls: seq<string>, audience: string, p: Parsed, digest: string)
  {
    && |ls| == 9 && ls[0] == "MS_ONCALL_GATEWAY_REQUEST_V1" && ls[2] == "POST"
    && Dashed(ls[1]) && Unhex(Compact(ls[1])) == Some(audience) && ToLower(ls[1]) == ls[1]
    && ls[3] == p.path
    && Dashed(ls[4]) && Unhex(Compact(ls[4])) == Some(p.credential) && ToLower(ls[4]) == ls[4]
    && ls[5] == p.delivery
    && ls[6] == p.timestampText && DigitsValue(ls[6]) == p.timestamp
    && ls[7] == p.nonceText && Unbase64(ls[7]) == Some(p.nonce)
    && Unhex(ls[8]) == Some(digest) && ToLower(ls[8]) == ls[8]
  }

  /** Cut at its newlines, the signed text spells the request. */
  lemma SigningInputSpells(audience: string, p: Parsed, digest: string)
    requires Uuid(audience) && WellParsed(p) && Octets(digest)
    ensures SpellsRequest(SplitLines(SigningInput(audience, p, digest)), audience, p, digest)
  {
    LinesAreLines(audience, p, digest);
    SplitInvertsJoin(Lines(audience, p, digest));
    UuidReadsBack(audience);
    UuidReadsBack(p.credential);
    UuidTextIsLower(audience);
    UuidTextIsLower(p.credential);
    HexIsLower(digest);
    DigitsOfDecimal(p.timestamp);
    Base64RoundTrip(p.nonce);
    HexReadsBack(digest);
  }

  /** The same fields, apart from the signature and the body that the digest stands for. */
  predicate SameSigned(p: Parsed, q: Parsed)
  {
    p.(signature := q.signature, body := q.body) == q
  }

  /** For parsed requests the signed bytes determine the audience, every signed field and the body's digest. */
  lemma SigningInputDetermines(a: string, p: Parsed, d: string, a': string, p': Parsed, d': string)
    requires Uuid(a) && Uuid(a') && WellParsed(p) && WellParsed(p') && Octets(d) && Octets(d')
    ensures SigningInput(a, p, d) == SigningInput(a', p', d') <==> a == a' && SameSigned(p, p') && d == d'
  {
    SigningInputSpells(a, p, d);
    SigningInputSpells(a', p', d');
  }
}
