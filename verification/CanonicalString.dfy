/** JSON string literals at the byte level.  A Go string is a `string` whose characters are its
    bytes; a character above 255 occurs in no valid UTF-8 string. */
module CanonicalString {
  // ---------------------------------------------------------------- UTF-8, section 4 of RFC 3629

  predicate Between(c: char, lo: int, hi: int)
  {
    lo <= c as int <= hi
  }

  predicate Tail(c: char)
  {
    Between(c, 0x80, 0xBF)
  }

  /** The length of the encoded character that `s` starts with, or 0 if it starts with none. */
  function RuneLen(s: string): (n: nat)
    ensures n <= |s| && n <= 4 && (n == 0 || n == 1 ==> s == [] || n == 0 || s[0] as int < 0x80)
  {
    if s == [] then 0
    else if s[0] as int < 0x80 then 1
    else if |s| >= 2 && Between(s[0], 0xC2, 0xDF) && Tail(s[1]) then 2
    else if |s| >= 3 && Tail(s[2])
            && (|| (s[0] as int == 0xE0 && Between(s[1], 0xA0, 0xBF))
                || (s[0] as int == 0xED && Between(s[1], 0x80, 0x9F))
                || (Between(s[0], 0xE1, 0xEF) && s[0] as int != 0xED && Tail(s[1]))) then 3
    else if |s| >= 4 && Tail(s[2]) && Tail(s[3])
            && (|| (s[0] as int == 0xF0 && Between(s[1], 0x90, 0xBF))
                || (s[0] as int == 0xF4 && Between(s[1], 0x80, 0x8F))
                || (Between(s[0], 0xF1, 0xF3) && Tail(s[1]))) then 4
    else 0
  }

  predicate ValidUtf8(s: string)
  {
    s == [] || (RuneLen(s) > 0 && ValidUtf8(s[RuneLen(s)..]))
  }

  predicate PrintableAscii(s: string)
  {
    forall i :: 0 <= i < |s| ==> 0x20 <= s[i] as int <= 0x7E
  }

  lemma {:induction false} AsciiIsUtf8(s: string)
    requires PrintableAscii(s)
    ensures ValidUtf8(s)
  {
    if s != [] {
      AsciiIsUtf8(s[1..]);
    }
  }

  /** The six bits that a byte behind the first one contributes. */
  function Low6(c: char): int
  {
    c as int - 0x80
  }

  /** The code point of the encoded character that `s` starts with. */
  function RuneValue(s: string): int
    requires RuneLen(s) > 0
  {
    match RuneLen(s)
    case 1 => s[0] as int
    case 2 => (s[0] as int - 0xC0) * 0x40 + Low6(s[1])
    case 3 => (s[0] as int - 0xE0) * 0x1000 + Low6(s[1]) * 0x40 + Low6(s[2])
    case _ => (s[0] as int - 0xF0) * 0x40000 + Low6(s[1]) * 0x1000 + Low6(s[2]) * 0x40 + Low6(s[3])
  }

  predicate CodePoint(v: int)
  {
    0 <= v < 0xD800 || 0xE000 <= v <= 0x10FFFF
  }

  function Byte(v: int): char
    requires 0 <= v < 256
  {
    v as char
  }

  function EncodeRune(v: int): string
    requires CodePoint(v)
  {
    if v < 0x80 then [Byte(v)]
    else if v < 0x800 then [Byte(0xC0 + v / 0x40), Byte(0x80 + v % 0x40)]
    else if v < 0x10000 then [Byte(0xE0 + v / 0x1000), Byte(0x80 + v / 0x40 % 0x40), Byte(0x80 + v % 0x40)]
    else [Byte(0xF0 + v / 0x40000), Byte(0x80 + v / 0x1000 % 0x40), Byte(0x80 + v / 0x40 % 0x40), Byte(0x80 + v % 0x40)]
  }

  // ---------------------------------------------------------------- the canonical escaping

  const LINE_SEPARATOR := 0x2028
  const PARAGRAPH_SEPARATOR := 0x2029
  const HEX := "0123456789abcdef"

  predicate Plain(c: char)
  {
    c as int >= 0x20 && c != '"' && c != '\\' && c != '<' && c != '>' && c != '&'
  }

  function EscapeAscii(c: char): string
    requires c as int < 0x80
  {
    if Plain(c) then [c]
    else if c == '"' || c == '\\' then ['\\', c]
    else if c as int == 8 then "\\b"
    else if c as int == 12 then "\\f"
    else if c == '\n' then "\\n"
    else if c == '\r' then "\\r"
    else if c == '\t' then "\\t"
    else "\\u00" + [HEX[c as int / 16], HEX[c as int % 16]]
  }

  predicate Separator(v: int)
  {
    v == LINE_SEPARATOR || v == PARAGRAPH_SEPARATOR
  }

  /** The escape of a line or paragraph separator, built from the last digit of its code point. */
  function SeparatorEscape(v: int): string
    requires Separator(v)
  {
    "\\u202" + [HEX[v % 16]]
  }

  /** The canonical text of the one encoded character that `s` starts with. */
  function EscapeFirst(s: string): string
    requires RuneLen(s) > 0
  {
    if RuneLen(s) == 1 then EscapeAscii(s[0])
    else if Separator(RuneValue(s)) then SeparatorEscape(RuneValue(s))
    else s[..RuneLen(s)]
  }

  function Escape(s: string): string
    requires ValidUtf8(s)
  {
    if s == [] then [] else EscapeFirst(s) + Escape(s[RuneLen(s)..])
  }

  function Quote(s: string): string
    requires ValidUtf8(s)
  {
    "\"" + Escape(s) + "\""
  }

  predicate AtCharacter(value: string, start: int, index: int)
  {
    0 <= start <= index <= |value| && ValidUtf8(value[index..])
  }

  /** What the result will be, with the run `value[start..index]` still to be copied to `out` and
      the rest of `value` still to be read. */
  function Pending(out: string, value: string, start: nat, index: nat): string
    requires AtCharacter(value, start, index)
  {
    out + value[start..index] + Escape(value[index..])
  }

  /** What is left behind the next character of `value`. */
  lemma NextCharacter(value: string, index: nat, size: nat)
    requires index < |value| && ValidUtf8(value[index..]) && size == RuneLen(value[index..])
    ensures 0 < size <= |value| - index && ValidUtf8(value[index + size..])
    ensures Escape(value[index..]) == EscapeFirst(value[index..]) + Escape(value[index + size..])
  {
    assert value[index..][size..] == value[index + size..];
  }

  lemma RunGrows(out: string, run: string, next: string, rest: string)
    ensures out + run + (next + rest) == out + (run + next) + rest
  {
  }

  lemma RunEnds(out: string, run: string, next: string, rest: string)
    ensures out + run + (next + rest) == (out + run + next) + [] + rest
  {
  }

  lemma Slices(value: string, start: nat, index: nat, size: nat)
    requires start <= index && index + size <= |value|
    ensures value[start..index + size] == value[start..index] + value[index..index + size]
    ensures value[index..][..size] == value[index..index + size]
    ensures value[index + size..index + size] == []
  {
  }

  /** The run grows by a character that needs no escape. */
  lemma CopyOn(out: string, value: string, start: nat, index: nat, size: nat)
    requires AtCharacter(value, start, index) && index < |value| && size == RuneLen(value[index..])
    requires EscapeFirst(value[index..]) == value[index..][..size]
    ensures AtCharacter(value, start, index + size)
    ensures Pending(out, value, start, index + size) == Pending(out, value, start, index)
  {
    NextCharacter(value, index, size);
    Slices(value, start, index, size);
    RunGrows(out, value[start..index], value[index..index + size], Escape(value[index + size..]));
  }

  /** The run is copied out, followed by an escaped character. */
  lemma Flush(out: string, value: string, start: nat, index: nat, size: nat, out': string)
    requires AtCharacter(value, start, index) && index < |value| && size == RuneLen(value[index..])
    requires out' == out + value[start..index] + EscapeFirst(value[index..])
    ensures AtCharacter(value, index + size, index + size)
    ensures Pending(out', value, index + size, index + size) == Pending(out, value, start, index)
  {
    NextCharacter(value, index, size);
    Slices(value, start, index, size);
    RunEnds(out, value[start..index], EscapeFirst(value[index..]), Escape(value[index + size..]));
  }

  method AppendEscape(data: string, character: char) returns (out: string)
    requires character as int < 0x80 && !Plain(character)
    ensures out == data + EscapeAscii(character)
  {
    if character == '"' || character == '\\' {
      out := data + ['\\', character];
    } else if character as int == 8 {
      out := data + "\\b";
    } else if character as int == 12 {
      out := data + "\\f";
    } else if character == '\n' {
      out := data + "\\n";
    } else if character == '\r' {
      out := data + "\\r";
    } else if character == '\t' {
      out := data + "\\t";
    } else {
      out := data + ("\\u00" + [HEX[character as int / 16], HEX[character as int % 16]]);
    }
  }

  lemma Assoc(a: string, b: string, c: string)
    ensures (a + b) + c == a + (b + c)
  {
  }

  lemma Reassociate(a: string, b: string, c: string, d: string)
    ensures (a + b + c) + d == a + (b + c + d)
  {
  }

  lemma Finish(out: string, value: string, start: nat, data: string)
    requires start <= |value| && ValidUtf8(value) && AtCharacter(value, start, |value|)
    requires Pending(out, value, start, |value|) == data + "\"" + Escape(value)
    ensures out + value[start..] + "\"" == data + Quote(value)
  {
    calc {
      out + value[start..];
    == { assert value[start..|value|] == value[start..]; assert value[|value|..] == []; }
      Pending(out, value, start, |value|);
    == data + "\"" + Escape(value);
    }
    Reassociate(data, "\"", Escape(value), "\"");
  }

  /** One character at or above 0x80: a separator is escaped, any other one joins the run. */
  method StepRune(data: string, value: string, start: nat, index: nat) returns (out: string, start': nat, index': nat)
    requires AtCharacter(value, start, index) && index < |value| && value[index] as int >= 0x80
    ensures index < index' && AtCharacter(value, start', index')
    ensures Pending(out, value, start', index') == Pending(data, value, start, index)
  {
    var runeValue, size := RuneValue(value[index..]), RuneLen(value[index..]);
    if !Separator(runeValue) {
      CopyOn(data, value, start, index, size);
      return data, start, index + size;
    }
    out := data + value[start..index];
    out := out + SeparatorEscape(runeValue);
    Flush(data, value, start, index, size, out);
    start', index' := index + size, index + size;
  }

  /** One ASCII character: it joins the run, or the run is copied and the character escaped. */
  method StepAscii(data: string, value: string, start: nat, index: nat) returns (out: string, start': nat, index': nat)
    requires AtCharacter(value, start, index) && index < |value| && value[index] as int < 0x80
    ensures index < index' && AtCharacter(value, start', index')
    ensures Pending(out, value, start', index') == Pending(data, value, start, index)
  {
    if Plain(value[index]) {
      CopyOn(data, value, start, index, 1);
      return data, start, index + 1;
    }
    out := data + value[start..index];
    out := AppendEscape(out, value[index]);
    Flush(data, value, start, index, 1, out);
    start', index' := index + 1, index + 1;
  }

  /** Appends the canonical literal of `value`, copying runs of unescaped bytes in one piece.
      The run that is still to be copied is `value[start..index]`. */
  method AppendCanonicalString(data: string, value: string) returns (ok: bool, out: string)
    ensures ok <==> ValidUtf8(value)
    ensures ok ==> out == data + Quote(value)
  {
    if !ValidUtf8(value) {
      return false, [];
    }
    out := data + "\"";
    var start, index := 0, 0;
    ghost var goal := out + Escape(value);
    assert value[0..] == value && Pending(out, value, 0, 0) == goal;
    while index < |value|
      invariant AtCharacter(value, start, index)
      invariant Pending(out, value, start, index) == goal
      decreases |value| - index
    {
      if value[index] as int >= 0x80 {
        out, start, index := StepRune(out, value, start, index);
      } else {
        out, start, index := StepAscii(out, value, start, index);
      }
    }
    Finish(out, value, start, data);
    out := out + value[start..];
    out := out + "\"";
    ok := true;
  }
}
