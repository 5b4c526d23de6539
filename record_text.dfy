/**
 * The stored text of a referral record.
 *
 * The page writes the record with `JSON.stringify({code, expiry})` and reads it
 * back with `JSON.parse`. This module fixes the text that the writer produces,
 * `{"code":"<escaped code>","expiry":<decimal digits>}`, and a decoder that
 * may fail. The decoder also accepts `{"code":"<escaped code>"}`, a record
 * whose `expiry` is missing; such a record is never live.
 */
module RecordText {
  import opened Wrappers

  /** A decoded referral record; `expiry` is None when the text carries no number. */
  datatype Record = Record(code: string, expiry: Option<nat>)

  const CodeOpen: string := "{\"code\":\""
  const ExpiryField: string := ",\"expiry\":"

  predicate IsDigit(c: char) { '0' <= c <= '9' }

  predicate AllDigits(s: string) { forall i :: 0 <= i < |s| ==> IsDigit(s[i]) }

  function DigitChar(d: nat): (c: char)
    requires d < 10
    ensures IsDigit(c)
  {
    ('0' as int + d) as char
  }

  function DigitValue(c: char): nat
  {
    if IsDigit(c) then c as int - '0' as int else 0
  }

  /** The decimal text of `n`, as `JSON.stringify` writes an integral number. */
  function NatText(n: nat): (s: string)
    ensures |s| >= 1 && AllDigits(s)
    decreases n
  {
    if n < 10 then [DigitChar(n)] else NatText(n / 10) + [DigitChar(n % 10)]
  }

  /** The value of a run of decimal digits, read left to right. */
  function DigitsValue(s: string): nat
    decreases |s|
  {
    if s == [] then 0 else DigitsValue(s[..|s| - 1]) * 10 + DigitValue(s[|s| - 1])
  }

  /** The length of the run of digits at the front of `s`. */
  function DigitRun(s: string): (k: nat)
    ensures k <= |s| && AllDigits(s[..k])
    ensures k < |s| ==> !IsDigit(s[k])
    decreases |s|
  {
    if s == [] || !IsDigit(s[0]) then 0 else 1 + DigitRun(s[1..])
  }

  /** Reads a natural number at the front of `s`, returning it and the text after it. */
  function ParseNat(s: string): (r: Option<(nat, string)>)
    ensures r.Some? ==> |r.value.1| < |s| && r.value.1 == s[|s| - |r.value.1|..]
  {
    var k := DigitRun(s);
    if k == 0 || (k > 1 && s[0] == '0') then None else Some((DigitsValue(s[..k]), s[k..]))
  }

  /** The lower-case hexadecimal digit for `d`. */
  function HexDigit(d: nat): char
    requires d < 16
  {
    if d < 10 then ('0' as int + d) as char else ('a' as int + d - 10) as char
  }

  /** The value of a hexadecimal digit of either case, or None. */
  function HexDigitValue(c: char): (r: Option<nat>)
    ensures r.Some? ==> r.value < 16
  {
    if '0' <= c <= '9' then Some(c as int - '0' as int)
    else if 'a' <= c <= 'f' then Some(c as int - 'a' as int + 10)
    else if 'A' <= c <= 'F' then Some(c as int - 'A' as int + 10)
    else None
  }

  /** The value of four hexadecimal digits, or None. */
  function Hex4Value(s: string): (r: Option<nat>)
    requires |s| == 4
    ensures r.Some? ==> r.value < 0x10000
  {
    match (HexDigitValue(s[0]), HexDigitValue(s[1]), HexDigitValue(s[2]), HexDigitValue(s[3]))
    case (Some(a), Some(b), Some(c), Some(d)) => Some(a * 4096 + b * 256 + c * 16 + d)
    case _ => None
  }

  /**
   * How `JSON.stringify` writes one character inside a string literal: a quote
   * and a backslash behind a backslash, the five control characters with a
   * short escape as such, the other control characters as `\u00xx`, and
   * everything else as itself.
   */
  function EscapeChar(c: char): (e: string)
    ensures |e| >= 1 && e[0] != '"'
  {
    if c == '"' then ['\\', '"']
    else if c == '\\' then ['\\', '\\']
    else if c as int == 8 then ['\\', 'b']
    else if c == '\t' then ['\\', 't']
    else if c == '\n' then ['\\', 'n']
    else if c as int == 12 then ['\\', 'f']
    else if c == '\r' then ['\\', 'r']
    else if c < ' ' then ['\\', 'u', '0', '0', HexDigit(c as int / 16), HexDigit(c as int % 16)]
    else [c]
  }

  /** The body of a string literal as `JSON.stringify` writes it. */
  function Escape(s: string): string
    decreases |s|
  {
    if s == [] then [] else EscapeChar(s[0]) + Escape(s[1..])
  }

  /**
   * Reads one character of a string literal body as `JSON.parse` does: a raw
   * character other than a quote, a backslash or a control character, or one of
   * the escapes `\" \\ \/ \b \f \n \r \t \uXXXX`.
   */
  function ReadChar(s: string): (r: Option<(char, string)>)
    requires s != []
    ensures r.Some? ==> |r.value.1| < |s| && r.value.1 == s[|s| - |r.value.1|..]
  {
    if s[0] < ' ' || s[0] == '"' then None
    else if s[0] != '\\' then Some((s[0], s[1..]))
    else if |s| < 2 then None
    else
      var e := s[1];
      if e == '"' || e == '\\' || e == '/' then Some((e, s[2..]))
      else if e == 'b' then Some((8 as char, s[2..]))
      else if e == 'f' then Some((12 as char, s[2..]))
      else if e == 'n' then Some(('\n', s[2..]))
      else if e == 'r' then Some(('\r', s[2..]))
      else if e == 't' then Some(('\t', s[2..]))
      else if e == 'u' && |s| >= 6 then
        match Hex4Value(s[2..6])
        case Some(v) => if 0xD800 <= v < 0xE000 then None else Some((v as char, s[6..]))
        case None => None
      else None
  }

  /**
   * Reads the body of a string literal up to its closing quote, returning the
   * string and the text after the quote; fails on a missing quote, a raw control
   * character or an unknown escape.
   */
  function ParseString(s: string): (r: Option<(string, string)>)
    ensures r.Some? ==> |r.value.1| < |s| && r.value.1 == s[|s| - |r.value.1|..]
    decreases |s|
  {
    if s == [] then None
    else if s[0] == '"' then Some(([], s[1..]))
    else
      match ReadChar(s)
      case None => None
      case Some((c, rest)) =>
        match ParseString(rest)
        case Some((d, tail)) => Some(([c] + d, tail))
        case None => None
  }

  /** The text the store writes for a code and an expiry. */
  function Encode(code: string, expiry: nat): (s: string)
    ensures |s| > |CodeOpen| && s[..|CodeOpen|] == CodeOpen && s[|s| - 1] == '}'
  {
    CodeOpen + Escape(code) + "\"" + ExpiryField + NatText(expiry) + "}"
  }

  /** Decodes a stored text; None when the text is not a record. */
  function Decode(s: string): (r: Option<Record>)
    ensures r.Some? ==> |s| > |CodeOpen| && s[..|CodeOpen|] == CodeOpen && s[|s| - 1] == '}'
  {
    if |s| < |CodeOpen| || s[..|CodeOpen|] != CodeOpen then None
    else
      match ParseString(s[|CodeOpen|..])
      case None => None
      case Some((code, rest)) => DecodeExpiry(code, rest)
  }

  /** What follows the code: the closing brace alone, or the `expiry` field and the brace. */
  function DecodeExpiry(code: string, rest: string): (r: Option<Record>)
    ensures r.Some? ==> rest != [] && rest[|rest| - 1] == '}'
  {
    if rest == "}" then Some(Record(code, None))
    else if |rest| < |ExpiryField| || rest[..|ExpiryField|] != ExpiryField then None
    else
      match ParseNat(rest[|ExpiryField|..])
      case Some((n, tail)) => if tail == "}" then Some(Record(code, Some(n))) else None
      case None => None
  }

  lemma {:induction false} NatTextValue(n: nat)
    ensures DigitsValue(NatText(n)) == n
    decreases n
  {
    var s := NatText(n);
    if n < 10 {
      assert s[..|s| - 1] == [];
    } else {
      NatTextValue(n / 10);
      assert s[..|s| - 1] == NatText(n / 10);
    }
  }

  /** The digit run of a string of digits followed by a non-digit is that string. */
  lemma {:induction false} DigitRunOver(d: string, rest: string)
    requires AllDigits(d)
    requires rest == [] || !IsDigit(rest[0])
    ensures DigitRun(d + rest) == |d|
    decreases |d|
  {
    if d != [] {
      assert (d + rest)[1..] == d[1..] + rest;
      DigitRunOver(d[1..], rest);
    } else {
      assert d + rest == rest;
    }
  }

  /** The decimal text of a number has no leading zero. */
  lemma {:induction false} NatTextNoLeadingZero(n: nat)
    ensures |NatText(n)| > 1 ==> NatText(n)[0] != '0'
    decreases n
  {
    if n >= 10 {
      NatTextNoLeadingZero(n / 10);
      assert NatText(n)[0] == NatText(n / 10)[0];
    }
  }

  /** A number followed by a non-digit reads back as itself. */
  lemma ParseNatText(n: nat, rest: string)
    requires rest == [] || !IsDigit(rest[0])
    ensures ParseNat(NatText(n) + rest) == Some((n, rest))
  {
    var d := NatText(n);
    var s := d + rest;
    DigitRunOver(d, rest);
    NatTextNoLeadingZero(n);
    assert s[..|d|] == d;
    NatTextValue(n);
  }

  lemma HexDigitRoundTrip(d: nat)
    requires d < 16
    ensures HexDigitValue(HexDigit(d)) == Some(d)
  {
  }

  /** One escaped character followed by anything reads back as that character. */
  lemma ReadEscapedChar(c: char, rest: string)
    ensures ReadChar(EscapeChar(c) + rest) == Some((c, rest))
  {
    var s := EscapeChar(c) + rest;
    if c < ' ' && c as int != 8 && c != '\t' && c != '\n' && c as int != 12 && c != '\r' {
      var hi, lo := c as int / 16, c as int % 16;
      HexDigitRoundTrip(hi);
      HexDigitRoundTrip(lo);
      assert s[2..6] == ['0', '0', HexDigit(hi), HexDigit(lo)];
      assert Hex4Value(s[2..6]) == Some(c as int);
      assert s[6..] == rest;
    } else if |EscapeChar(c)| == 2 {
      assert s[2..] == rest;
    } else {
      assert s[1..] == rest;
    }
  }

  lemma EscapeCons(c: string, rest: string)
    requires c != []
    ensures Escape(c) + "\"" + rest == EscapeChar(c[0]) + (Escape(c[1..]) + "\"" + rest)
  {
  }

  /** An escaped string followed by a quote reads back as itself. */
  lemma {:induction false} ParseEscaped(c: string, rest: string)
    ensures ParseString(Escape(c) + "\"" + rest) == Some((c, rest))
    decreases |c|
  {
    if c == [] {
      assert Escape(c) + "\"" + rest == "\"" + rest;
      assert ("\"" + rest)[1..] == rest;
    } else {
      var tail := Escape(c[1..]) + "\"" + rest;
      var s := EscapeChar(c[0]) + tail;
      EscapeCons(c, rest);
      ParseEscaped(c[1..], rest);
      ReadEscapedChar(c[0], tail);
      ParseStringStep(s, c[0], tail, c[1..], rest);
      assert [c[0]] + c[1..] == c;
    }
  }

  /** Whatever the store writes decodes to the code and expiry it wrote. */
  lemma DecodeEncode(code: string, expiry: nat)
    ensures Decode(Encode(code, expiry)) == Some(Record(code, Some(expiry)))
  {
    var tail := ExpiryField + NatText(expiry) + "}";
    var s := Encode(code, expiry);
    assert s == CodeOpen + (Escape(code) + "\"" + tail);
    assert s[..|CodeOpen|] == CodeOpen;
    assert s[|CodeOpen|..] == Escape(code) + "\"" + tail;
    ParseEscaped(code, tail);
    DecodeExpiryField(code, expiry);
  }

  /** The `expiry` field the store writes reads back as its number. */
  lemma DecodeExpiryField(code: string, expiry: nat)
    ensures DecodeExpiry(code, ExpiryField + NatText(expiry) + "}") == Some(Record(code, Some(expiry)))
  {
    var tail := ExpiryField + NatText(expiry) + "}";
    assert |tail| > 1;
    assert tail[..|ExpiryField|] == ExpiryField;
    assert tail[|ExpiryField|..] == NatText(expiry) + "}";
    ParseNatText(expiry, "}");
  }

  /** One character read, then the rest of the literal: the two parts join. */
  lemma ParseStringStep(s: string, c: char, rest: string, d: string, tail: string)
    requires s != [] && s[0] != '"'
    requires ReadChar(s) == Some((c, rest)) && ParseString(rest) == Some((d, tail))
    ensures ParseString(s) == Some(([c] + d, tail))
  {
  }

  /** A leading zero in the expiry, which `JSON.parse` refuses, makes the text no record. */
  lemma DecodeRejectsLeadingZero()
    ensures Decode("{\"code\":\"A\",\"expiry\":099}") == None
  {
    var s := "{\"code\":\"A\",\"expiry\":099}";
    assert s[..|CodeOpen|] == CodeOpen;
    assert s[|CodeOpen|..] == "A\",\"expiry\":099}";
    assert ParseString("\",\"expiry\":099}") == Some(([], ",\"expiry\":099}"));
    assert "A\",\"expiry\":099}"[1..] == "\",\"expiry\":099}";
    assert ReadChar("A\",\"expiry\":099}") == Some(('A', "\",\"expiry\":099}"));
    ParseStringStep("A\",\"expiry\":099}", 'A', "\",\"expiry\":099}", [], ",\"expiry\":099}");
    assert ['A'] + [] == "A";
    assert ",\"expiry\":099}"[|ExpiryField|..] == "099}";
    assert DigitRun("099}") == 3;
  }

  /** A raw line feed inside the code, which `JSON.parse` refuses, makes the text no record. */
  lemma DecodeRejectsRawControl(rest: string)
    ensures Decode(CodeOpen + "A\nB" + rest) == None
  {
    var s := CodeOpen + "A\nB" + rest;
    assert s[..|CodeOpen|] == CodeOpen;
    assert s[|CodeOpen|..] == "A\nB" + rest;
    assert ReadChar("\nB" + rest) == None;
    assert ParseString("\nB" + rest) == None;
    assert ParseString("A\nB" + rest) == None;
  }

  /** A `\uXXXX` escape reads as the character it names, as `JSON.parse` reads it. */
  lemma DecodeUnicodeEscape()
    ensures Decode("{\"code\":\"\\u0041\"}") == Some(Record("A", None))
  {
    var s := "{\"code\":\"\\u0041\"}";
    assert s[..|CodeOpen|] == CodeOpen;
    assert s[|CodeOpen|..] == "\\u0041\"}";
    assert "\\u0041\"}"[2..6] == "0041";
    assert Hex4Value("0041") == Some(65);
    assert ReadChar("\\u0041\"}") == Some(('A', "\"}"));
    assert ParseString("\"}") == Some(([], "}"));
    ParseStringStep("\\u0041\"}", 'A', "\"}", [], "}");
    assert ['A'] + [] == "A";
  }

  /** `JSON.parse("null")` yields a value whose `expiry` cannot be read: no record. */
  lemma DecodeRejectsNull()
    ensures Decode("null") == None
  {
  }
}
