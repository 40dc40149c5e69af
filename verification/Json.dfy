/** Objects of strings, integers and objects as compact JSON text, and the reader that RFC 8259 prescribes
    for such text. */
module Json {
  import opened Options
  import opened CanonicalString
  import opened JsonLiteral
  import opened Decimals

  datatype Value = Text(text: string) | Number(number: int) | Object(members: Members)

  /** The members of an object, in the order they are written in. */
  datatype Members = End | Then(name: string, value: Value, rest: Members)

  // ---------------------------------------------------------------- writing

  predicate Writable(v: Value)
  {
    match v
    case Text(s) => PrintableAscii(s) || ValidUtf8(s)
    case Number(_) => true
    case Object(ms) => AllWritable(ms)
  }

  predicate AllWritable(ms: Members)
  {
    ms.Then? ==> PrintableAscii(ms.name) && Writable(ms.value) && AllWritable(ms.rest)
  }

  lemma TextIsUtf8(s: string)
    requires Writable(Text(s))
    ensures ValidUtf8(s)
  {
    if PrintableAscii(s) {
      AsciiIsUtf8(s);
    }
  }

  lemma WithMember(name: string, value: Value, rest: Members)
    requires PrintableAscii(name) && Writable(value) && AllWritable(rest)
    ensures AllWritable(Then(name, value, rest))
  {
  }

  /** The text of a value, followed by `tail`. */
  function Write(v: Value, tail: string): string
    requires Writable(v)
    decreases v, 0
  {
    match v
    case Text(s) =>
      TextIsUtf8(s);
      Quote(s) + tail
    case Number(n) => Decimal(n) + tail
    case Object(ms) => "{" + WriteMembers(ms, "}" + tail)
  }

  function WriteMembers(ms: Members, tail: string): string
    requires AllWritable(ms)
    decreases ms, 0
  {
    match ms
    case End => tail
    case Then(name, value, rest) =>
      AsciiIsUtf8(name);
      Quote(name) + (":" + Write(value, Following(rest, tail)))
  }

  /** The members behind another one. */
  function Following(ms: Members, tail: string): string
    requires AllWritable(ms)
    decreases ms, 1
  {
    if ms.End? then tail else "," + WriteMembers(ms, tail)
  }

  lemma FollowingMember(name: string, value: Value, rest: Members, tail: string)
    requires AllWritable(Then(name, value, rest))
    ensures ValidUtf8(name)
    ensures Following(Then(name, value, rest), tail) ==
            "," + (Quote(name) + (":" + Write(value, Following(rest, tail))))
  {
    AsciiIsUtf8(name);
  }

  lemma FirstMember(name: string, value: Value, rest: Members, tail: string)
    requires AllWritable(Then(name, value, rest))
    ensures ValidUtf8(name)
    ensures Write(Object(Then(name, value, rest)), tail) ==
            "{" + (Quote(name) + (":" + Write(value, Following(rest, "}" + tail))))
  {
    AsciiIsUtf8(name);
  }

  // ---------------------------------------------------------------- reading

  datatype Parsed = Parsed(value: Value, rest: string)

  datatype ParsedMembers = ParsedMembers(members: Members, rest: string)

  predicate Digit(c: char)
  {
    '0' <= c <= '9'
  }

  function DigitRun(t: string): (n: nat)
    ensures n <= |t|
  {
    if t == [] || !Digit(t[0]) then 0 else 1 + DigitRun(t[1..])
  }

  /** An integer without fraction or exponent and without a superfluous zero, section 6 of RFC 8259. */
  function ReadNumber(t: string): (r: Option<Parsed>)
    ensures r.Some? ==> |r.value.rest| < |t|
  {
    if t != [] && t[0] == '-' then ReadDigits(t[1..], -1) else ReadDigits(t, 1)
  }

  function ReadDigits(t: string, sign: int): (r: Option<Parsed>)
    ensures r.Some? ==> |r.value.rest| < |t|
  {
    var n := DigitRun(t);
    if n == 0 || (n > 1 && t[0] == '0') || (n < |t| && t[n] in {'.', 'e', 'E'}) then None
    else Some(Parsed(Number(sign * DigitsValue(t[..n])), t[n..]))
  }

  /** One value and what follows it, sections 3, 4, 6 and 7 of RFC 8259, without arrays, literal names and
      insignificant white space. */
  function Read(t: string): (r: Option<Parsed>)
    ensures r.Some? ==> |r.value.rest| < |t|
    decreases |t|, 0
  {
    if t == [] then None
    else if t[0] == '"' then
      var d := Decode(t[1..]);
      if d.None? then None else Some(Parsed(Text(d.value.value), d.value.rest))
    else if t[0] == '{' then
      if |t| > 1 && t[1] == '}' then Some(Parsed(Object(End), t[2..]))
      else
        var ms := ReadMembers(t[1..]);
        if ms.None? then None else Some(Parsed(Object(ms.value.members), ms.value.rest))
    else ReadNumber(t)
  }

  /** The members of an object from its first name on, up to and including the closing brace. */
  function ReadMembers(t: string): (r: Option<ParsedMembers>)
    ensures r.Some? ==> |r.value.rest| < |t|
    decreases |t|, 1
  {
    if t == [] || t[0] != '"' then None
    else
      var name := Decode(t[1..]);
      if name.None? || name.value.rest == [] || name.value.rest[0] != ':' then None
      else
        var value := Read(name.value.rest[1..]);
        if value.None? || value.value.rest == [] then None
        else if value.value.rest[0] == '}' then
          Some(ParsedMembers(Then(name.value.value, value.value.value, End), value.value.rest[1..]))
        else if value.value.rest[0] != ',' then None
        else
          var more := ReadMembers(value.value.rest[1..]);
          if more.None? then None
          else Some(ParsedMembers(Then(name.value.value, value.value.value, more.value.members), more.value.rest))
  }

  // ---------------------------------------------------------------- written text reads back

  /** What may follow a value inside an object or at the end of the text. */
  predicate Delimited(tail: string)
  {
    tail == [] || tail[0] == ',' || tail[0] == '}'
  }

  lemma {:induction false} RunOf(digits: string, tail: string)
    requires Decimals.Digits(digits) && Delimited(tail)
    ensures DigitRun(digits + tail) == |digits|
  {
    if digits == [] {
      assert digits + tail == tail;
    } else {
      RunOf(digits[1..], tail);
      assert (digits + tail)[1..] == digits[1..] + tail;
    }
  }

  lemma RunReadsBack(digits: string, sign: int, tail: string)
    requires Decimals.Digits(digits) && digits != [] && (|digits| > 1 ==> digits[0] != '0') && Delimited(tail)
    ensures ReadDigits(digits + tail, sign) == Some(Parsed(Number(sign * DigitsValue(digits)), tail))
  {
    RunOf(digits, tail);
    assert (digits + tail)[..|digits|] == digits && (digits + tail)[|digits|..] == tail;
  }

  lemma DigitsReadBack(n: nat, sign: int, tail: string)
    requires Delimited(tail)
    ensures ReadDigits(DecimalNat(n) + tail, sign) == Some(Parsed(Number(sign * n), tail))
  {
    DecimalHasNoLeadingZero(n);
    RunReadsBack(DecimalNat(n), sign, tail);
    DigitsOfDecimal(n);
  }

  lemma NumberReadsBack(n: int, tail: string)
    requires Delimited(tail)
    ensures Read(Decimal(n) + tail) == Some(Parsed(Number(n), tail))
  {
    if n < 0 {
      DigitsReadBack(-n, -1, tail);
      Assoc("-", DecimalNat(-n), tail);
      assert ("-" + (DecimalNat(-n) + tail))[1..] == DecimalNat(-n) + tail;
    } else {
      DigitsReadBack(n, 1, tail);
      assert Digit((DecimalNat(n) + tail)[0]);
    }
  }

  lemma TextReadsBack(s: string, tail: string)
    requires ValidUtf8(s)
    ensures Read(Quote(s) + tail) == Some(Parsed(Text(s), tail))
  {
    QuoteDecodes(s, tail);
  }

  lemma FollowingIsDelimited(ms: Members, tail: string)
    requires AllWritable(ms)
    ensures Delimited(Following(ms, "}" + tail))
  {
  }

  lemma EmptyReadsBack(tail: string)
    ensures Read("{" + ("}" + tail)) == Some(Parsed(Object(End), tail))
  {
    var t := "{" + ("}" + tail);
    assert t[0] == '{' && t[1] == '}' && t[2..] == tail;
  }

  /** Reading inverts writing, whatever follows the value. */
  lemma {:induction false} ReadsBack(v: Value, tail: string)
    requires Writable(v) && Delimited(tail)
    ensures Read(Write(v, tail)) == Some(Parsed(v, tail))
    decreases v
  {
    match v
    case Text(s) =>
      TextIsUtf8(s);
      TextReadsBack(s, tail);
    case Number(n) => NumberReadsBack(n, tail);
    case Object(ms) =>
      if ms.End? {
        EmptyReadsBack(tail);
      } else {
        MembersReadBack(ms, tail);
        ObjectReadsBack(WriteMembers(ms, "}" + tail), ms, tail);
      }
  }

  lemma ObjectReadsBack(t: string, ms: Members, tail: string)
    requires t != [] && t[0] == '"' && ReadMembers(t) == Some(ParsedMembers(ms, tail))
    ensures Read("{" + t) == Some(Parsed(Object(ms), tail))
  {
    assert ("{" + t)[0] == '{' && ("{" + t)[1] == '"' && ("{" + t)[1..] == t;
  }

  lemma {:induction false} MembersReadBack(ms: Members, tail: string)
    requires AllWritable(ms) && ms.Then?
    ensures var t := WriteMembers(ms, "}" + tail);
            t != [] && t[0] == '"' && ReadMembers(t) == Some(ParsedMembers(ms, tail))
    decreases ms
  {
    var after := Following(ms.rest, "}" + tail);
    FollowingIsDelimited(ms.rest, tail);
    ReadsBack(ms.value, after);
    if ms.rest.Then? {
      MembersReadBack(ms.rest, tail);
    }
    AsciiIsUtf8(ms.name);
    MemberReadsBack(ms.name, ms.value, Write(ms.value, after), ms.rest, after, tail);
  }

  lemma MemberReadsBack(name: string, value: Value, text: string, rest: Members, after: string, tail: string)
    requires PrintableAscii(name) && ValidUtf8(name) && Read(text) == Some(Parsed(value, after))
    requires AllWritable(rest) && after == Following(rest, "}" + tail)
    requires rest.Then? ==> ReadMembers(WriteMembers(rest, "}" + tail)) == Some(ParsedMembers(rest, tail))
    ensures var t := Quote(name) + (":" + text);
            t != [] && t[0] == '"' && ReadMembers(t) == Some(ParsedMembers(Then(name, value, rest), tail))
  {
    QuoteDecodes(name, ":" + text);
    assert (":" + text)[1..] == text;
    assert after[1..] == if rest.End? then tail else WriteMembers(rest, "}" + tail);
  }
}
