/** The canonical configuration text and its grammar (runtime/model_input.cpp). */
module ConfigText {
  import opened Options

  /** A parse from the front of a text: what was read, and the rest. */
  datatype Parsed<T> = Failed | Parsed(value: T, rest: string)

  const LIMIT: nat := 0x1_0000_0000_0000_0000

  // ------------------------------------------------------------------ numbers

  predicate IsDigit(c: char) { '0' <= c <= '9' }

  function Digit(n: nat): char
    requires n < 10
  {
    ('0' as int + n) as char
  }

  /** Without leading zeros. */
  function Decimal(n: nat): string {
    if n < 10 then [Digit(n)] else Decimal(n / 10) + [Digit(n % 10)]
  }

  function DigitCount(s: string): (n: nat)
    ensures n <= |s|
  {
    if s != "" && IsDigit(s[0]) then 1 + DigitCount(s[1..]) else 0
  }

  predicate AllDigits(s: string) { forall i :: 0 <= i < |s| ==> IsDigit(s[i]) }

  function DigitsValue(s: string): nat
    requires AllDigits(s)
  {
    if s == "" then 0 else 10 * DigitsValue(s[..|s| - 1]) + (s[|s| - 1] as int - '0' as int)
  }

  lemma {:induction false} CountedAreDigits(s: string)
    ensures AllDigits(s[..DigitCount(s)])
  {
    if s != "" && IsDigit(s[0]) {
      CountedAreDigits(s[1..]);
      var n := DigitCount(s);
      assert forall i :: 1 <= i < n ==> s[..n][i] == s[1..][..n - 1][i - 1];
    }
  }

  /** All the digits there are; no leading zero, and a value of 64 bits. */
  function Number(s: string): Parsed<nat> {
    var n := DigitCount(s);
    CountedAreDigits(s);
    if n == 0 || (n > 1 && s[0] == '0') then Failed
    else if DigitsValue(s[..n]) >= LIMIT then Failed
    else Parsed(DigitsValue(s[..n]), s[n..])
  }

  predicate NoDigit(rest: string) { rest == "" || !IsDigit(rest[0]) }

  lemma {:induction false} DecimalIs(n: nat)
    ensures AllDigits(Decimal(n)) && DigitsValue(Decimal(n)) == n
    ensures Decimal(n) != "" && (|Decimal(n)| > 1 ==> Decimal(n)[0] != '0') && (n > 0 ==> Decimal(n)[0] != '0')
  {
    if n >= 10 {
      DecimalIs(n / 10);
      var s := Decimal(n);
      assert s[..|s| - 1] == Decimal(n / 10);
    }
  }

  lemma {:induction false} CountAll(s: string, rest: string)
    requires AllDigits(s) && NoDigit(rest)
    ensures DigitCount(s + rest) == |s|
  {
    if s == "" {
      assert s + rest == rest;
    } else {
      assert (s + rest)[0] == s[0] && (s + rest)[1..] == s[1..] + rest;
      CountAll(s[1..], rest);
    }
  }

  lemma NumberOfDecimal(n: nat, rest: string)
    requires NoDigit(rest)
    ensures Number(Decimal(n) + rest) == if n < 18446744073709551616 then Parsed(n, rest) else Failed
  {
    hide Decimal, DigitCount, DigitsValue;
    DecimalIs(n);
    CountAll(Decimal(n), rest);
    var s := Decimal(n) + rest;
    assert s[..|Decimal(n)|] == Decimal(n) && s[|Decimal(n)|..] == rest;
  }

  // ------------------------------------------------------------------ strings

  /** The letter that stands for a control character behind a backslash. */
  function Letter(c: char): Option<char> {
    if c == '"' then Some('"')
    else if c == '\\' then Some('\\')
    else if c as int == 8 then Some('b')
    else if c as int == 12 then Some('f')
    else if c == '\n' then Some('n')
    else if c == '\r' then Some('r')
    else if c == '\t' then Some('t')
    else None
  }

  /** What a letter behind a backslash stands for. */
  function Meant(letter: char): Option<char> {
    if letter == '"' then Some('"')
    else if letter == '\\' then Some('\\')
    else if letter == '/' then Some('/')
    else if letter == 'b' then Some(8 as char)
    else if letter == 'f' then Some(12 as char)
    else if letter == 'n' then Some('\n')
    else if letter == 'r' then Some('\r')
    else if letter == 't' then Some('\t')
    else None
  }

  /** Printable as it is, or with a letter of its own. */
  predicate Escapable(c: char) { Letter(c).Some? || c as int >= 0x20 }

  /** The seven escapes; every other character from the space up stands for itself, and nothing
      else can be spelled. */
  lemma EscapesAre(c: char)
    ensures Escape('"') == "\\\"" && Escape('\\') == "\\\\" && Escape('\n') == "\\n" && Escape('\r') == "\\r"
    ensures Escape('\t') == "\\t" && Escape(8 as char) == "\\b" && Escape(12 as char) == "\\f"
    ensures c as int >= 32 && c != '"' && c != '\\' ==> Escape(c) == [c]
    ensures Escapable(c) <==> c as int >= 32 || c as int == 8 || c as int == 9 || c as int == 10 || c as int == 12
                              || c as int == 13
  {
  }

  predicate Quotable(s: string) { forall i :: 0 <= i < |s| ==> Escapable(s[i]) }

  function Escape(c: char): string { if Letter(c).Some? then ['\\', Letter(c).value] else [c] }

  function Escaped(s: string): string { if s == "" then "" else Escape(s[0]) + Escaped(s[1..]) }

  /** Nothing at all when some character has no spelling. */
  function Quote(s: string): string { if Quotable(s) then "\"" + Escaped(s) + "\"" else "" }

  /** From behind an opening quote to behind the closing one. */
  function Unquoted(s: string): Parsed<string>
    decreases |s|
  {
    if s == "" then Failed
    else if s[0] == '"' then Parsed("", s[1..])
    else if s[0] as int < 0x20 then Failed
    else if s[0] != '\\' then Prefixed(s[0], Unquoted(s[1..]))
    else if |s| == 1 || Meant(s[1]).None? then Failed
    else Prefixed(Meant(s[1]).value, Unquoted(s[2..]))
  }

  function Prefixed(c: char, p: Parsed<string>): Parsed<string> {
    if p.Failed? then Failed else Parsed([c] + p.value, p.rest)
  }

  function Text(s: string): Parsed<string> { if s != "" && s[0] == '"' then Unquoted(s[1..]) else Failed }

  lemma {:induction false} UnquotedEscaped(v: string, rest: string)
    requires Quotable(v)
    ensures Unquoted(Escaped(v) + "\"" + rest) == Parsed(v, rest)
  {
    hide Letter, Meant;
    var s := Escaped(v) + "\"" + rest;
    if v == "" {
      assert s[0] == '"' && s[1..] == rest;
    } else {
      UnquotedEscaped(v[1..], rest);
      LetterMeans(v[0]);
      var more := Escaped(v[1..]) + "\"" + rest;
      assert s == Escape(v[0]) + more;
      assert v == [v[0]] + v[1..];
      if Letter(v[0]).Some? { assert s[2..] == more; } else { assert s[1..] == more; }
    }
  }

  lemma LetterMeans(c: char)
    ensures Letter(c).Some? ==> Meant(Letter(c).value) == Some(c)
    ensures Letter(c).None? ==> c != '"' && c != '\\'
  {
  }

  lemma TextOfQuote(v: string, rest: string)
    requires Quotable(v)
    ensures Text(Quote(v) + rest) == Parsed(v, rest)
  {
    hide Unquoted, Escaped, Escapable;
    UnquotedEscaped(v, rest);
    assert (Quote(v) + rest)[1..] == Escaped(v) + "\"" + rest;
  }

  /** What is read from a string literal can be quoted again. */
  lemma {:induction false} UnquotedIsQuotable(s: string)
    ensures Unquoted(s).Parsed? ==> Quotable(Unquoted(s).value)
    decreases |s|
  {
    if s != "" && s[0] != '"' && s[0] as int >= 0x20 {
      if s[0] != '\\' {
        UnquotedIsQuotable(s[1..]);
      } else if |s| > 1 && Meant(s[1]).Some? {
        UnquotedIsQuotable(s[2..]);
      }
    }
  }
}
