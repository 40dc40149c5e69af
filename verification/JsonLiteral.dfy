/** Reading JSON string literals: the decoder that section 7 of RFC 8259 prescribes, the check
    that every surrogate escape is paired, and what both say about canonical literals. */
module JsonLiteral {
  import opened Options
  import opened CanonicalString

  // ---------------------------------------------------------------- decoding, section 7 of RFC 8259

  function HexDigit(c: char): (v: Option<int>)
    ensures v.Some? ==> 0 <= v.value < 16
  {
    if '0' <= c <= '9' then Some(c as int - '0' as int)
    else if 'a' <= c <= 'f' then Some(c as int - 'a' as int + 10)
    else if 'A' <= c <= 'F' then Some(c as int - 'A' as int + 10)
    else None
  }

  /** The value of four hexadecimal digits. */
  function Hex4(h: string): (v: Option<int>)
    requires |h| == 4
    ensures v.Some? ==> 0 <= v.value < 0x10000
  {
    var a, b, c, d := HexDigit(h[0]), HexDigit(h[1]), HexDigit(h[2]), HexDigit(h[3]);
    if a.Some? && b.Some? && c.Some? && d.Some?
    then Some(a.value * 0x1000 + b.value * 0x100 + c.value * 0x10 + d.value) else None
  }

  predicate High(v: int) { 0xD800 <= v <= 0xDBFF }

  predicate Low(v: int) { 0xDC00 <= v <= 0xDFFF }

  function ShortEscape(c: char): Option<char>
  {
    if c == '"' || c == '\\' || c == '/' then Some(c)
    else if c == 'b' then Some(Byte(8))
    else if c == 'f' then Some(Byte(12))
    else if c == 'n' then Some('\n')
    else if c == 'r' then Some('\r')
    else if c == 't' then Some('\t')
    else None
  }

  /** A decoded literal and what follows its closing quote. */
  datatype Decoded = Decoded(value: string, rest: string)

  function Prepend(p: string, d: Option<Decoded>): Option<Decoded>
  {
    if d.None? then None else Some(Decoded(p + d.value.value, d.value.rest))
  }

  function CombineSurrogates(high: int, low: int): (v: int)
    requires High(high) && Low(low)
    ensures CodePoint(v)
  {
    0x10000 + (high - 0xD800) * 0x400 + (low - 0xDC00)
  }

  /** Decodes what follows an opening quote, up to and including the closing one. */
  function Decode(s: string): (d: Option<Decoded>)
    ensures d.Some? ==> |d.value.rest| < |s|
    decreases |s|
  {
    if s == [] then None
    else if s[0] == '"' then Some(Decoded([], s[1..]))
    else if s[0] != '\\' then
      if s[0] as int < 0x20 then None else Prepend([s[0]], Decode(s[1..]))
    else if |s| < 2 then None
    else if s[1] != 'u' then
      if ShortEscape(s[1]).None? then None else Prepend([ShortEscape(s[1]).value], Decode(s[2..]))
    else if |s| < 6 || Hex4(s[2..6]).None? then None
    else
      var v := Hex4(s[2..6]).value;
      if Low(v) then None
      else if !High(v) then Prepend(EncodeRune(v), Decode(s[6..]))
      else if |s| >= 12 && s[6] == '\\' && s[7] == 'u' && Hex4(s[8..12]).Some? && Low(Hex4(s[8..12]).value) then
        Prepend(EncodeRune(CombineSurrogates(v, Hex4(s[8..12]).value)), Decode(s[12..]))
      else None
  }

  // ---------------------------------------------------------------- canonical literals decode to their value

  lemma Split40(v: int, q: int, r: int)
    requires v == q * 0x40 + r && 0 <= r < 0x40
    ensures v / 0x40 == q && v % 0x40 == r
  {
  }

  lemma Split1000(v: int, q: int, r: int)
    requires v == q * 0x1000 + r && 0 <= r < 0x1000
    ensures v / 0x1000 == q
  {
  }

  lemma Split40000(v: int, q: int, r: int)
    requires v == q * 0x40000 + r && 0 <= r < 0x40000
    ensures v / 0x40000 == q
  {
  }

  lemma SixBitGroups(v: int, a: int, b: int, c: int, d: int)
    requires 0 <= a && 0 <= b < 0x40 && 0 <= c < 0x40 && 0 <= d < 0x40
    requires v == a * 0x40000 + b * 0x1000 + c * 0x40 + d
    ensures v % 0x40 == d && v / 0x40 % 0x40 == c && v / 0x1000 % 0x40 == b && v / 0x40000 == a
    ensures v / 0x1000 == a * 0x40 + b && v / 0x40 == a * 0x1000 + b * 0x40 + c
  {
    Split40(v, a * 0x1000 + b * 0x40 + c, d);
    Split40(a * 0x1000 + b * 0x40 + c, a * 0x40 + b, c);
    Split1000(v, a * 0x40 + b, c * 0x40 + d);
    Split40(a * 0x40 + b, a, b);
    Split40000(v, a, b * 0x1000 + c * 0x40 + d);
  }

  /** Decoding a code point and encoding it again gives back the same bytes. */
  lemma EncodeInvertsValue(s: string)
    requires RuneLen(s) > 0
    ensures CodePoint(RuneValue(s)) && EncodeRune(RuneValue(s)) == s[..RuneLen(s)]
  {
    var v, n := RuneValue(s), RuneLen(s);
    if n == 2 {
      SixBitGroups(v, 0, 0, s[0] as int - 0xC0, s[1] as int - 0x80);
    } else if n == 3 {
      SixBitGroups(v, 0, s[0] as int - 0xE0, s[1] as int - 0x80, s[2] as int - 0x80);
    } else if n == 4 {
      SixBitGroups(v, s[0] as int - 0xF0, s[1] as int - 0x80, s[2] as int - 0x80, s[3] as int - 0x80);
    }
  }

  /** Before `tail`, the text `p` is read as `value`. */
  predicate StandsFor(p: string, value: string, tail: string)
  {
    Decode(p + tail) == Prepend(value, Decode(tail))
  }

  lemma {:induction false} LiteralRun(p: string, tail: string)
    requires forall i :: 0 <= i < |p| ==> p[i] as int >= 0x20 && p[i] != '"' && p[i] != '\\'
    ensures StandsFor(p, p, tail)
  {
    if p == [] {
      EmptyRun(tail);
    } else {
      LiteralRun(p[1..], tail);
      LongerRun(p[0], p[1..], tail);
      assert [p[0]] + p[1..] == p;
    }
  }

  lemma EmptyRun(tail: string)
    ensures StandsFor([], [], tail)
  {
    assert [] + tail == tail;
    PrependNothing(Decode(tail));
  }

  lemma LongerRun(c: char, p: string, tail: string)
    requires c as int >= 0x20 && c != '"' && c != '\\' && StandsFor(p, p, tail)
    ensures StandsFor([c] + p, [c] + p, tail)
  {
    Assoc([c], p, tail);
    DecodeLiteral(c, p + tail);
    PrependTwice([c], p, Decode(tail));
  }

  lemma PrependNothing(d: Option<Decoded>)
    ensures Prepend([], d) == d
  {
    assert d.Some? ==> [] + d.value.value == d.value.value;
  }

  lemma PrependTwice(a: string, b: string, d: Option<Decoded>)
    ensures Prepend(a, Prepend(b, d)) == Prepend(a + b, d)
  {
    assert d.Some? ==> a + (b + d.value.value) == (a + b) + d.value.value;
  }

  lemma DecodeLiteral(c: char, tail: string)
    requires c as int >= 0x20 && c != '"' && c != '\\'
    ensures Decode([c] + tail) == Prepend([c], Decode(tail))
  {
    assert ([c] + tail)[1..] == tail;
  }

  lemma DecodeUnit(h: string, tail: string)
    requires |h| == 4 && Hex4(h).Some? && !High(Hex4(h).value) && !Low(Hex4(h).value)
    ensures Decode("\\u" + h + tail) == Prepend(EncodeRune(Hex4(h).value), Decode(tail))
  {
    var s := "\\u" + h + tail;
    assert s[0] == '\\' && s[1] == 'u' && s[2..6] == h && s[6..] == tail;
  }

  lemma DecodeShort(c: char, tail: string)
    requires c != 'u' && ShortEscape(c).Some?
    ensures Decode(['\\', c] + tail) == Prepend([ShortEscape(c).value], Decode(tail))
  {
    var s := ['\\', c] + tail;
    assert s[0] == '\\' && s[1] == c && s[2..] == tail;
  }

  lemma DecodeAscii(c: char, tail: string)
    requires c as int < 0x80
    ensures StandsFor(EscapeAscii(c), [c], tail)
  {
    if Plain(c) {
      LiteralRun([c], tail);
    } else if c == '"' || c == '\\' {
      DecodeShort(c, tail);
    } else if c as int == 8 {
      DecodeShort('b', tail);
    } else if c as int == 12 {
      DecodeShort('f', tail);
    } else if c == '\n' {
      DecodeShort('n', tail);
    } else if c == '\r' {
      DecodeShort('r', tail);
    } else if c == '\t' {
      DecodeShort('t', tail);
    } else {
      DecodeControl(c, tail);
    }
  }

  lemma HexPair(v: int)
    requires 0 <= v < 0x80
    ensures HexDigit(HEX[v / 16]) == Some(v / 16) && HexDigit(HEX[v % 16]) == Some(v % 16)
  {
  }

  lemma DecodeControl(c: char, tail: string)
    requires c as int < 0x80
    ensures Decode("\\u00" + [HEX[c as int / 16], HEX[c as int % 16]] + tail) == Prepend([c], Decode(tail))
  {
    var h := ['0', '0', HEX[c as int / 16], HEX[c as int % 16]];
    HexPair(c as int);
    assert Hex4(h) == Some(c as int);
    DecodeUnit(h, tail);
    assert "\\u00" + [HEX[c as int / 16], HEX[c as int % 16]] + tail == "\\u" + h + tail;
  }

  lemma DecodeFirst(s: string, tail: string)
    requires RuneLen(s) > 0
    ensures StandsFor(EscapeFirst(s), s[..RuneLen(s)], tail)
  {
    if RuneLen(s) == 1 {
      DecodeAscii(s[0], tail);
      assert s[..1] == [s[0]];
    } else if Separator(RuneValue(s)) {
      var h := ['2', '0', '2', HEX[RuneValue(s) % 16]];
      assert Hex4(h) == Some(RuneValue(s));
      DecodeUnit(h, tail);
      EncodeInvertsValue(s);
      assert SeparatorEscape(RuneValue(s)) == "\\u" + h;
    } else {
      LiteralRun(s[..RuneLen(s)], tail);
    }
  }

  lemma ClosingQuote(rest: string)
    ensures Reads([] + "\"" + rest, [], rest)
  {
    assert ([] + "\"" + rest)[1..] == rest;
  }

  predicate Reads(text: string, value: string, rest: string)
  {
    Decode(text) == Some(Decoded(value, rest))
  }

  lemma ReadsOneMore(s: string, tail: string, rest: string)
    requires ValidUtf8(s) && s != [] && Reads(tail, s[RuneLen(s)..], rest)
    ensures Reads(EscapeFirst(s) + tail, s, rest)
  {
    DecodeFirst(s, tail);
    ReadsBoth(EscapeFirst(s), s[..RuneLen(s)], tail, s[RuneLen(s)..], rest);
    assert s == s[..RuneLen(s)] + s[RuneLen(s)..];
  }

  lemma ReadsBoth(p: string, first: string, tail: string, value: string, rest: string)
    requires StandsFor(p, first, tail) && Reads(tail, value, rest)
    ensures Reads(p + tail, first + value, rest)
  {
  }

  /** The canonical literal of every valid string decodes to that string, whatever follows it. */
  lemma {:induction false} EscapeRoundTrip(s: string, rest: string)
    requires ValidUtf8(s)
    ensures Reads(Escape(s) + "\"" + rest, s, rest)
  {
    if s == [] {
      ClosingQuote(rest);
    } else {
      var n := RuneLen(s);
      EscapeRoundTrip(s[n..], rest);
      ReadsOneMore(s, Escape(s[n..]) + "\"" + rest, rest);
      Reassociate(EscapeFirst(s), Escape(s[n..]), "\"", rest);
    }
  }

  lemma OpenQuote(body: string, rest: string)
    ensures (("\"" + body + "\"") + rest)[1..] == body + "\"" + rest
  {
  }

  lemma QuoteDecodes(a: string, x: string)
    requires ValidUtf8(a)
    ensures Quote(a) + x != [] && (Quote(a) + x)[0] == '"' && Decode((Quote(a) + x)[1..]) == Some(Decoded(a, x))
  {
    EscapeRoundTrip(a, x);
    OpenQuote(Escape(a), x);
  }

  /** Canonical literals are self-delimiting: no literal is a prefix of another one's text. */
  lemma QuoteIsPrefixFree(a: string, b: string, x: string, y: string)
    requires ValidUtf8(a) && ValidUtf8(b) && Quote(a) + x == Quote(b) + y
    ensures a == b && x == y
  {
    QuoteDecodes(a, x);
    QuoteDecodes(b, y);
  }

  // ---------------------------------------------------------------- the grammar of a literal's body

  /** One element of a literal, as the grammar of section 7 of RFC 8259 has it. */
  datatype Element = Literal(c: char) | Short(c: char) | Unit(h: string)

  predicate WellFormedElement(e: Element)
  {
    match e
    case Literal(c) => c as int >= 0x20 && c != '"' && c != '\\'
    case Short(c) => ShortEscape(c).Some?
    case Unit(h) => |h| == 4 && Hex4(h).Some?
  }

  predicate WellFormed(es: seq<Element>)
  {
    forall i :: 0 <= i < |es| ==> WellFormedElement(es[i])
  }

  function Text(e: Element): string
  {
    match e
    case Literal(c) => [c]
    case Short(c) => ['\\', c]
    case Unit(h) => "\\u" + h
  }

  function Render(es: seq<Element>): string
  {
    if es == [] then [] else Text(es[0]) + Render(es[1..])
  }

  predicate HighUnit(e: Element)
  {
    e.Unit? && |e.h| == 4 && Hex4(e.h).Some? && High(Hex4(e.h).value)
  }

  predicate LowUnit(e: Element)
  {
    e.Unit? && |e.h| == 4 && Hex4(e.h).Some? && Low(Hex4(e.h).value)
  }

  /** Every surrogate escape is half of an adjacent high and low pair, section 8.2 of RFC 8259. */
  predicate Paired(es: seq<Element>)
  {
    if es == [] then true
    else if HighUnit(es[0]) then |es| >= 2 && LowUnit(es[1]) && Paired(es[2..])
    else !LowUnit(es[0]) && Paired(es[1..])
  }

  // ---------------------------------------------------------------- the surrogate check

  /** The check on what is left of a literal, closing quote included. */
  predicate Check(s: string)
    decreases |s|
  {
    if |s| <= 1 then true
    else if s[0] != '\\' then Check(s[1..])
    else if |s| == 2 || s[1] != 'u' then Check(s[2..])
    else if |s| <= 5 || Hex4(s[2..6]).None? then false
    else
      var v := Hex4(s[2..6]).value;
      if High(v) then
        |s| > 11 && s[6] == '\\' && s[7] == 'u' && Hex4(s[8..12]).Some? && Low(Hex4(s[8..12]).value) && Check(s[12..])
      else !Low(v) && Check(s[6..])
  }

  /** Scans the literal `data`, quotes included, skipping each escape in one go. */
  method ValidSurrogateEscapes(data: string) returns (ok: bool)
    ensures data != [] ==> ok == Check(data[1..])
    ensures forall es :: WellFormed(es) && data == "\"" + (Render(es) + "\"") ==> (ok <==> Paired(es))
  {
    forall es | WellFormed(es) && data == "\"" + (Render(es) + "\"") ensures Check(data[1..]) == Paired(es) {
      assert data[1..] == Render(es) + "\"";
      CheckIsExact(es);
    }
    var i := 1;
    while i < |data| - 1
      invariant 1 <= i && (data != [] ==> i <= |data| && Check(data[1..]) == Check(data[i..]))
      decreases |data| - i
    {
      ghost var s := data[i..];
      if data[i] != '\\' {
        assert s[1..] == data[i + 1..];
        i := i + 1;
        continue;
      }
      i := i + 1;
      if i >= |data| - 1 || data[i] != 'u' {
        assert s[2..] == data[i + 1..];
        i := i + 1;
        continue;
      }
      if i + 4 >= |data| {
        return false;
      }
      assert s[2..6] == data[i + 1..i + 5];
      var value := Hex4(data[i + 1..i + 5]);
      if value.None? {
        return false;
      }
      i := i + 4;
      if High(value.value) {
        if i + 6 >= |data| || data[i + 1] != '\\' || data[i + 2] != 'u' {
          return false;
        }
        assert s[8..12] == data[i + 3..i + 7];
        var low := Hex4(data[i + 3..i + 7]);
        if low.None? || !Low(low.value) {
          return false;
        }
        i := i + 6;
        assert s[12..] == data[i + 1..];
      } else if Low(value.value) {
        return false;
      } else {
        assert s[6..] == data[i + 1..];
      }
      i := i + 1;
    }
    return true;
  }

  /** The text of a literal's remaining elements starts as the next element does. */
  lemma FirstText(es: seq<Element>, rest: string)
    requires WellFormed(es) && es != []
    ensures WellFormed(es[1..])
    ensures Render(es) + rest == Text(es[0]) + (Render(es[1..]) + rest)
  {
  }

  predicate StartsLow(t: string)
  {
    |t| >= 6 && t[0] == '\\' && t[1] == 'u' && Hex4(t[2..6]).Some? && Low(Hex4(t[2..6]).value)
  }

  /** After a high surrogate, what follows is a low one exactly if the next element is. */
  lemma NextIsLow(es: seq<Element>, rest: string)
    requires WellFormed(es) && (rest == [] || rest[0] == '"')
    ensures StartsLow(Render(es) + rest) <==> (es != [] && LowUnit(es[0]))
  {
    if es != [] {
      FirstText(es, rest);
      var t := Render(es) + rest;
      if es[0].Unit? {
        assert t[2..6] == es[0].h;
      }
    }
  }

  lemma CheckAfterHigh(h: string, t: string)
    requires |h| == 4 && Hex4(h).Some? && High(Hex4(h).value)
    ensures Check(("\\u" + h) + t) <==> StartsLow(t) && Check(t[6..])
  {
    var s := ("\\u" + h) + t;
    assert s[2..6] == h && s[6..] == t;
    if |t| >= 6 {
      assert s[8..12] == t[2..6] && s[12..] == t[6..];
    }
  }

  lemma TextAfterLow(es: seq<Element>, rest: string)
    requires WellFormed(es) && |es| >= 2 && es[1].Unit?
    ensures (Render(es[1..]) + rest)[6..] == Render(es[2..]) + rest
  {
    FirstText(es[1..], rest);
    assert es[1..][1..] == es[2..];
  }

  lemma CheckElement(e: Element, t: string)
    requires WellFormedElement(e) && !HighUnit(e) && t != []
    ensures Check(Text(e) + t) <==> !LowUnit(e) && Check(t)
  {
    var s := Text(e) + t;
    match e
    case Literal(c) => assert s[1..] == t;
    case Short(c) => assert s[2..] == t;
    case Unit(h) => assert s[2..6] == h && s[6..] == t;
  }

  lemma CheckHigh(es: seq<Element>)
    requires WellFormed(es) && es != [] && HighUnit(es[0])
    requires |es| >= 2 ==> Check(Render(es[2..]) + "\"") == Paired(es[2..])
    ensures Check(Render(es) + "\"") == Paired(es)
  {
    FirstText(es, "\"");
    CheckAfterHigh(es[0].h, Render(es[1..]) + "\"");
    NextIsLow(es[1..], "\"");
    if |es| >= 2 && LowUnit(es[1]) {
      TextAfterLow(es, "\"");
    }
  }

  /** On every grammatical literal the check says exactly whether its surrogate escapes are paired. */
  lemma {:induction false} CheckIsExact(es: seq<Element>)
    requires WellFormed(es)
    ensures Check(Render(es) + "\"") == Paired(es)
    decreases |es|
  {
    if es == [] {
      assert Render(es) + "\"" == "\"";
    } else {
      FirstText(es, "\"");
      if HighUnit(es[0]) {
        if |es| >= 2 {
          CheckIsExact(es[2..]);
        }
        CheckHigh(es);
      } else {
        CheckElement(es[0], Render(es[1..]) + "\"");
        CheckIsExact(es[1..]);
      }
    }
  }

  lemma DecodeAfterHigh(h: string, t: string)
    requires |h| == 4 && Hex4(h).Some? && High(Hex4(h).value)
    ensures Decode(("\\u" + h) + t).Some? <==> StartsLow(t) && Decode(t[6..]).Some?
  {
    var s := ("\\u" + h) + t;
    assert s[2..6] == h && s[6..] == t;
    if |t| >= 6 {
      assert s[8..12] == t[2..6] && s[12..] == t[6..];
    }
  }

  lemma DecodeElement(e: Element, t: string)
    requires WellFormedElement(e) && !HighUnit(e)
    ensures Decode(Text(e) + t).Some? <==> !LowUnit(e) && Decode(t).Some?
  {
    var s := Text(e) + t;
    match e
    case Literal(c) => assert s[1..] == t;
    case Short(c) => assert s[2..] == t;
    case Unit(h) => assert s[2..6] == h && s[6..] == t;
  }

  /** A grammatical literal denotes a string exactly if its surrogate escapes are paired, that is, exactly if
      the check accepts it. */
  lemma {:induction false} DecodableIffPaired(es: seq<Element>, rest: string)
    requires WellFormed(es)
    ensures Decode(Render(es) + ("\"" + rest)).Some? <==> Paired(es)
    decreases |es|
  {
    var end := "\"" + rest;
    if es == [] {
      assert Render(es) + end == end;
    } else {
      var t := Render(es[1..]) + end;
      FirstText(es, end);
      if HighUnit(es[0]) {
        DecodeAfterHigh(es[0].h, t);
        NextIsLow(es[1..], end);
        if |es| >= 2 && LowUnit(es[1]) {
          TextAfterLow(es, end);
          DecodableIffPaired(es[2..], rest);
        }
      } else {
        DecodeElement(es[0], t);
        DecodableIffPaired(es[1..], rest);
      }
    }
  }

  // ---------------------------------------------------------------- canonical literals pass the check

  lemma {:induction false} DecodedPasses(s: string)
    requires Decode(s).Some? && Decode(s).value.rest == []
    ensures Check(s)
    decreases |s|
  {
    if s[0] == '"' {
    } else if s[0] != '\\' {
      DecodedPasses(s[1..]);
    } else if s[1] != 'u' {
      DecodedPasses(s[2..]);
    } else if High(Hex4(s[2..6]).value) {
      DecodedPasses(s[12..]);
    } else {
      DecodedPasses(s[6..]);
    }
  }

  /** Every canonical literal passes the surrogate check. */
  lemma CanonicalPasses(value: string)
    requires ValidUtf8(value)
    ensures Check(Quote(value)[1..])
  {
    QuoteDecodes(value, []);
    assert Quote(value) + [] == Quote(value);
    DecodedPasses(Quote(value)[1..]);
  }

  // ---------------------------------------------------------------- canonical literals are grammatical

  lemma RenderStep(e: Element, es: seq<Element>)
    ensures Render([e] + es) == Text(e) + Render(es)
  {
    assert ([e] + es)[1..] == es;
  }

  predicate RendersApart(a: seq<Element>, b: seq<Element>)
  {
    Render(a + b) == Render(a) + Render(b)
  }

  lemma RendersNothing(b: seq<Element>)
    ensures RendersApart([], b)
  {
    assert [] + b == b && "" + Render(b) == Render(b);
  }

  lemma RendersOneMore(e: Element, a: seq<Element>, b: seq<Element>)
    requires RendersApart(a, b)
    ensures RendersApart([e] + a, b)
  {
    assert ([e] + a) + b == [e] + (a + b);
    RenderStep(e, a + b);
    RenderStep(e, a);
    Assoc(Text(e), Render(a), Render(b));
  }

  lemma {:induction false} RenderBoth(a: seq<Element>, b: seq<Element>)
    ensures RendersApart(a, b)
  {
    if a == [] {
      RendersNothing(b);
    } else {
      RenderBoth(a[1..], b);
      RendersOneMore(a[0], a[1..], b);
      assert a == [a[0]] + a[1..];
    }
  }

  /** A run of bytes that need no escape, one element each. */
  function Literals(t: string): (es: seq<Element>)
    ensures |es| == |t| && forall i :: 0 <= i < |t| ==> es[i] == Literal(t[i])
  {
    if t == [] then [] else [Literal(t[0])] + Literals(t[1..])
  }

  lemma {:induction false} RenderLiterals(t: string)
    ensures Render(Literals(t)) == t
  {
    if t != [] {
      RenderLiterals(t[1..]);
      assert Literals(t)[1..] == Literals(t[1..]);
    }
  }

  lemma RenderOne(e: Element)
    ensures Render([e]) == Text(e)
  {
    assert [e][1..] == [];
  }

  /** An escape that canonical format 1 has: the short one where there is one, and otherwise four lower-case
      digits, for control characters, `<`, `>`, `&` and the two separators. */
  predicate Documented(e: Element)
  {
    match e
    case Literal(_) => true
    case Short(c) => c != '/'
    case Unit(h) =>
      && |h| == 4 && Hex4(h).Some? && (forall i :: 0 <= i < 4 ==> !('A' <= h[i] <= 'F'))
      && var v := Hex4(h).value;
         || (v < 0x20 && v !in {8, 9, 10, 12, 13}) || v in {0x26, 0x3C, 0x3E, 0x2028, 0x2029}
  }

  lemma UnitElement(c: char) returns (e: Element)
    requires (c as int < 0x20 && c as int !in {8, 9, 10, 12, 13}) || c == '<' || c == '>' || c == '&'
    ensures WellFormedElement(e) && Documented(e)
    ensures Text(e) == "\\u00" + [HEX[c as int / 16], HEX[c as int % 16]]
  {
    HexPair(c as int);
    e := Unit(['0', '0', HEX[c as int / 16], HEX[c as int % 16]]);
    assert Hex4(e.h) == Some(c as int);
  }

  lemma AsciiElement(c: char) returns (e: Element)
    requires c as int < 0x80
    ensures WellFormedElement(e) && Documented(e) && Text(e) == EscapeAscii(c)
  {
    if Plain(c) {
      e := Literal(c);
    } else if c == '"' || c == '\\' {
      e := Short(c);
    } else if c as int == 8 {
      e := Short('b');
    } else if c as int == 12 {
      e := Short('f');
    } else if c == '\n' {
      e := Short('n');
    } else if c == '\r' {
      e := Short('r');
    } else if c == '\t' {
      e := Short('t');
    } else {
      e := UnitElement(c);
    }
  }

  lemma SeparatorElement(v: int) returns (e: Element)
    requires Separator(v)
    ensures WellFormedElement(e) && Documented(e) && Text(e) == SeparatorEscape(v)
  {
    e := Unit(['2', '0', '2', HEX[v % 16]]);
  }

  lemma HighBytes(s: string)
    requires RuneLen(s) > 1
    ensures forall i :: 0 <= i < RuneLen(s) ==> s[i] as int >= 0x80
  {
  }

  lemma FirstElements(s: string) returns (es: seq<Element>)
    requires RuneLen(s) > 0
    ensures WellFormed(es) && Render(es) == EscapeFirst(s) && forall i :: 0 <= i < |es| ==> Documented(es[i])
  {
    if RuneLen(s) == 1 {
      var e := AsciiElement(s[0]);
      RenderOne(e);
      es := [e];
    } else if Separator(RuneValue(s)) {
      var e := SeparatorElement(RuneValue(s));
      RenderOne(e);
      es := [e];
    } else {
      HighBytes(s);
      RenderLiterals(s[..RuneLen(s)]);
      es := Literals(s[..RuneLen(s)]);
    }
  }

  /** The body of every canonical literal follows the grammar: no raw quote, backslash or control byte, no
      escape that is not one, and none that the format does not have. */
  lemma {:induction false} CanonicalIsGrammatical(value: string) returns (es: seq<Element>)
    requires ValidUtf8(value)
    ensures WellFormed(es) && Render(es) == Escape(value) && forall i :: 0 <= i < |es| ==> Documented(es[i])
  {
    if value == [] {
      es := [];
    } else {
      var rest := CanonicalIsGrammatical(value[RuneLen(value)..]);
      var first := FirstElements(value);
      RenderBoth(first, rest);
      es := first + rest;
    }
  }

  /** No byte of a canonical body is a control character or one of `<`, `>` and `&`, and nowhere
      in it do three bytes encode a line or paragraph separator. */
  ghost predicate Harmless(t: string)
  {
    && (forall i :: 0 <= i < |t| ==> t[i] as int >= 0x20 && t[i] != '<' && t[i] != '>' && t[i] != '&')
    && (forall i :: 0 <= i < |t| - 2 ==> !SeparatorAt(t, i))
  }

  predicate SeparatorAt(t: string, i: int)
    requires 0 <= i < |t| - 2
  {
    t[i] as int == 0xE2 && t[i + 1] as int == 0x80 && (t[i + 2] as int == 0xA8 || t[i + 2] as int == 0xA9)
  }

  lemma AsciiBytes(c: char, i: int)
    requires c as int < 0x80 && 0 <= i < |EscapeAscii(c)|
    ensures var x := EscapeAscii(c)[i];
            0x20 <= x as int < 0x80 && x != '<' && x != '>' && x != '&'
  {
    HexPair(c as int);
  }

  /** In one character's canonical text only the lead byte of an unescaped character can be 0xE2. */
  lemma FirstBytes(s: string, i: int)
    requires RuneLen(s) > 0 && 0 <= i < |EscapeFirst(s)|
    ensures var x := EscapeFirst(s)[i];
            && x as int >= 0x20 && x != '<' && x != '>' && x != '&'
            && (x as int == 0xE2 ==> i == 0 && RuneLen(s) == 3 && EscapeFirst(s) == s[..3] && !Separator(RuneValue(s)))
  {
    if RuneLen(s) == 1 {
      AsciiBytes(s[0], i);
    }
  }

  lemma NoSeparatorFirst(s: string, tail: string, i: int)
    requires RuneLen(s) > 0 && 0 <= i < |EscapeFirst(s)| && i < |EscapeFirst(s) + tail| - 2
    ensures !SeparatorAt(EscapeFirst(s) + tail, i)
  {
    FirstBytes(s, i);
    assert (EscapeFirst(s) + tail)[i] == EscapeFirst(s)[i];
  }

  lemma HarmlessFirst(s: string, tail: string)
    requires RuneLen(s) > 0 && Harmless(tail)
    ensures Harmless(EscapeFirst(s) + tail)
  {
    var n := |EscapeFirst(s)|;
    var t := EscapeFirst(s) + tail;
    forall i | 0 <= i < |t|
      ensures t[i] as int >= 0x20 && t[i] != '<' && t[i] != '>' && t[i] != '&'
    {
      if i < n { FirstBytes(s, i); } else { assert t[i] == tail[i - n]; }
    }
    forall i | 0 <= i < |t| - 2
      ensures !SeparatorAt(t, i)
    {
      if i < n { NoSeparatorFirst(s, tail, i); } else { assert !SeparatorAt(tail, i - n); }
    }
  }

  lemma {:induction false} CanonicalIsHarmless(value: string)
    requires ValidUtf8(value)
    ensures Harmless(Escape(value))
  {
    if value != [] {
      CanonicalIsHarmless(value[RuneLen(value)..]);
      HarmlessFirst(value, Escape(value[RuneLen(value)..]));
    }
  }
}
