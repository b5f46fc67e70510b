/** Printing and parsing the canonical configuration (runtime/model_input.cpp). */
module ConfigGrammar {
  import opened Options
  import opened ConfigUtf8
  import opened ConfigText

  datatype Entry = Entry(name: string, value: nat)

  /** The domain cycles are an ordered map: names strictly increasing. */
  datatype Limits = Limits(deadlockWindow: Option<nat>, maxDomainCycles: seq<Entry>, maxTicks: Option<nat>)

  const NO_LIMITS := Limits(None, [], None)

  /** Byte-wise order of names. */
  predicate Below(a: string, b: string) {
    b != "" && (a == "" || a[0] < b[0] || (a[0] == b[0] && Below(a[1..], b[1..])))
  }

  predicate Ordered(entries: seq<Entry>) {
    forall i :: 0 < i < |entries| ==> Below(entries[i - 1].name, entries[i].name)
  }

  predicate Fits(n: Option<nat>) { n.Some? ==> n.value < 18446744073709551616 }

  /** What the record type allows: an ordered map and 64-bit numbers. */
  predicate Typed(l: Limits) {
    && Fits(l.deadlockWindow) && Fits(l.maxTicks) && Ordered(l.maxDomainCycles)
    && forall e :: e in l.maxDomainCycles ==> e.value < 18446744073709551616 && Bytes(e.name)
  }

  // ------------------------------------------------------------------ printing

  function HeadToken(): string { "{\"deadlock_window\":" }

  function CyclesToken(): string { ",\"max_domain_cycles\":{" }

  function TicksToken(): string { ",\"max_ticks\":" }

  function KindToken(): string { "\"schema\":\"pycircuit-model-config\"" }

  function VersionToken(): string { ",\"version\":\"1\"}" }

  function EndToken(): string { "," + (KindToken() + VersionToken()) }


  function OptionalText(n: Option<nat>): string { if n.Some? then Decimal(n.value) else "null" }

  function EntriesText(entries: seq<Entry>): string {
    if entries == [] then ""
    else
      Quote(entries[0].name) + ":" + Decimal(entries[0].value)
      + if |entries| == 1 then "" else "," + EntriesText(entries[1..])
  }

  function Canonical(l: Limits): string {
    HeadToken() + OptionalText(l.deadlockWindow) + CyclesToken() + EntriesText(l.maxDomainCycles) + "}" + TicksToken()
      + OptionalText(l.maxTicks) + EndToken()
  }

  // ------------------------------------------------------------------- parsing

  predicate Starts(s: string, token: string) { |token| <= |s| && s[..|token|] == token }

  function After(s: string, token: string): string { if |token| <= |s| then s[|token|..] else "" }

  function OptionalNumber(s: string): Parsed<Option<nat>> {
    if Starts(s, "null") then Parsed(None, After(s, "null"))
    else
      match Number(s)
      case Failed => Failed
      case Parsed(n, rest) => Parsed(Some(n), rest)
  }

  /** One name, a colon and a number; names nonempty and increasing. */
  function OneEntry(s: string, prior: string): Parsed<Entry> {
    match Text(s)
    case Failed => Failed
    case Parsed(name, rest) =>
      if name == "" || !Below(prior, name) || !Starts(rest, ":") then Failed
      else
        match Number(After(rest, ":"))
        case Failed => Failed
        case Parsed(value, more) => Parsed(Entry(name, value), more)
  }

  lemma OneEntryShrinks(s: string, prior: string)
    ensures OneEntry(s, prior).Parsed? ==> |OneEntry(s, prior).rest| < |s|
  {
    if s != "" { UnquotedShrinks(s[1..]); }
  }

  lemma {:induction false} UnquotedShrinks(s: string)
    ensures Unquoted(s).Parsed? ==> |Unquoted(s).rest| < |s|
    decreases |s|
  {
    if s != "" && s[0] != '"' && s[0] as int >= 0x20 {
      if s[0] != '\\' {
        UnquotedShrinks(s[1..]);
      } else if |s| > 1 && Meant(s[1]).Some? {
        UnquotedShrinks(s[2..]);
      }
    }
  }

  function Entries(s: string, prior: string): Parsed<seq<Entry>>
    decreases |s|
  {
    OneEntryShrinks(s, prior);
    match OneEntry(s, prior)
    case Failed => Failed
    case Parsed(entry, rest) =>
      if Starts(rest, "}") then Parsed([entry], After(rest, "}"))
      else if !Starts(rest, ",") then Failed
      else
        match Entries(After(rest, ","), entry.name)
        case Failed => Failed
        case Parsed(more, last) => Parsed([entry] + more, last)
  }

  function Cycles(s: string): Parsed<seq<Entry>> {
    if Starts(s, "}") then Parsed([], After(s, "}")) else Entries(s, "")
  }

  /** The last field and the fixed end, once the others are read. */
  function Closing(window: Option<nat>, cycles: seq<Entry>, rest: string): Option<Limits> {
    if !Starts(rest, TicksToken()) then None
    else
      match OptionalNumber(After(rest, TicksToken()))
      case Failed => None
      case Parsed(ticks, last) => if last == EndToken() then Some(Limits(window, cycles, ticks)) else None
  }

  /** The first field, up to the brace that opens the cycles. */
  function Opening(input: string): Parsed<Option<nat>> {
    if !Starts(input, HeadToken()) then Failed
    else
      match OptionalNumber(After(input, HeadToken()))
      case Failed => Failed
      case Parsed(window, rest) =>
        if Starts(rest, CyclesToken()) then Parsed(window, After(rest, CyclesToken())) else Failed
  }

  /** Everything between the first brace and the last. */
  function Fields(input: string): Option<Limits> {
    match Opening(input)
    case Failed => None
    case Parsed(window, rest) =>
      match Cycles(rest)
      case Failed => None
      case Parsed(cycles, more) => Closing(window, cycles, more)
  }

  function Parse(input: string): Option<Limits> {
    if !Valid(input) then None
    else if input == "{}" then Some(NO_LIMITS)
    else
      match Fields(input)
      case None => None
      case Some(limits) => if Canonical(limits) == input then Some(limits) else None
  }

  // --------------------------------------------------------------- printing, then parsing

  lemma TokenBack(token: string, rest: string)
    ensures Starts(token + rest, token) && After(token + rest, token) == rest
  {
    assert (token + rest)[..|token|] == token && (token + rest)[|token|..] == rest;
  }

  lemma OptionalBack(n: Option<nat>, rest: string)
    requires Fits(n) && NoDigit(rest)
    ensures OptionalNumber(OptionalText(n) + rest) == Parsed(n, rest)
  {
    hide Decimal, Number;
    if n.None? {
      TokenBack("null", rest);
    } else {
      NumberOfDecimal(n.value, rest);
      NoNull(n.value, rest);
    }
  }

  lemma NoNull(n: nat, rest: string)
    ensures !Starts(Decimal(n) + rest, "null")
  {
    hide Decimal;
    DecimalIs(n);
    var d := Decimal(n);
    assert IsDigit(d[0]) && (d + rest)[0] == d[0];
  }

  predicate Printable(name: string) { name != "" && Quotable(name) }

  lemma EntryBack(e: Entry, prior: string, rest: string)
    requires e.value < LIMIT && Below(prior, e.name) && NoDigit(rest)
    ensures OneEntry(Quote(e.name) + ":" + Decimal(e.value) + rest, prior)
         == if Printable(e.name) then Parsed(e, rest) else Failed
  {
    hide Decimal, Number, Escaped, Unquoted, Below, Escapable;
    var s, tail := Quote(e.name) + ":" + Decimal(e.value) + rest, ":" + (Decimal(e.value) + rest);
    assert s == Quote(e.name) + tail;
    if Quotable(e.name) {
      TextOfQuote(e.name, tail);
      TokenBack(":", Decimal(e.value) + rest);
      NumberOfDecimal(e.value, rest);
    } else {
      assert s[0] == ':';
    }
  }

  lemma OrderedRest(entries: seq<Entry>)
    requires Ordered(entries) && |entries| > 1
    ensures Ordered(entries[1..]) && Below(entries[0].name, entries[1..][0].name)
  {
    hide Below;
    var rest := entries[1..];
    assert Below(entries[1 - 1].name, entries[1].name);
    forall i | 0 < i < |rest| ensures Below(rest[i - 1].name, rest[i].name) {
      assert Below(entries[i + 1 - 1].name, entries[i + 1].name);
    }
  }

  /** The entries read back exactly as printed, or not at all when some name has no spelling. */
  lemma {:induction false} EntriesBack(entries: seq<Entry>, prior: string, rest: string)
    requires entries != [] && Ordered(entries) && Below(prior, entries[0].name)
    requires forall e :: e in entries ==> e.value < LIMIT
    ensures Entries(EntriesText(entries) + "}" + rest, prior)
         == if forall e :: e in entries ==> Printable(e.name) then Parsed(entries, rest) else Failed
  {
    hide Quote, Decimal, OneEntry, Below, Ordered, Printable;
    var e := entries[0];
    var printed := Quote(e.name) + ":" + Decimal(e.value);
    if |entries| == 1 {
      assert entries == [e];
      assert EntriesText(entries) + "}" + rest == printed + ("}" + rest);
      EntryBack(e, prior, "}" + rest);
      TokenBack("}", rest);
    } else {
      var more := EntriesText(entries[1..]) + "}" + rest;
      assert EntriesText(entries) + "}" + rest == printed + ("," + more);
      EntryBack(e, prior, "," + more);
      NotBrace(more);
      TokenBack(",", more);
      OrderedRest(entries);
      assert forall x :: x in entries[1..] ==> x in entries;
      EntriesBack(entries[1..], e.name, rest);
      assert entries == [e] + entries[1..];
    }
  }

  lemma NotBrace(more: string)
    ensures !Starts("," + more, "}")
  {
    assert ("," + more)[..1] == ",";
  }

  predicate AllPrintable(l: Limits) { forall e :: e in l.maxDomainCycles ==> Printable(e.name) }

  lemma CyclesBack(entries: seq<Entry>, rest: string)
    requires Ordered(entries) && forall e :: e in entries ==> e.value < LIMIT
    ensures Cycles(EntriesText(entries) + "}" + rest)
         == if forall e :: e in entries ==> Printable(e.name) then Parsed(entries, rest) else Failed
  {
    hide Entries, Printable, Quote, Decimal;
    if entries == [] {
      assert EntriesText(entries) + "}" + rest == "}" + rest;
      TokenBack("}", rest);
    } else if entries[0].name == "" {
      EmptyFirst(entries, rest);
    } else {
      EntriesNotBrace(entries, rest);
      EntriesBack(entries, "", rest);
    }
  }

  /** An empty first name: read as a string, refused as a name. */
  lemma EmptyFirst(entries: seq<Entry>, rest: string)
    requires entries != [] && entries[0].name == ""
    ensures Cycles(EntriesText(entries) + "}" + rest) == Failed && !Printable(entries[0].name) && entries[0] in entries
  {
    hide Decimal, Unquoted, Entries;
    var s := EntriesText(entries) + "}" + rest;
    EmptyQuoted();
    var tail := s[2..];
    assert s == "\"\"" + tail;
    assert s[..1] == "\"";
    EmptyRefused(tail);
  }

  lemma EmptyQuoted()
    ensures Quote("") == "\"\"" && Quotable("")
  {
  }

  lemma EmptyRefused(tail: string)
    ensures Entries("\"\"" + tail, "") == Failed
  {
    hide Unquoted, Number;
    EmptyQuoted();
    TextOfQuote("", tail);
  }

  lemma EntriesNotBrace(entries: seq<Entry>, rest: string)
    requires entries != []
    ensures !Starts(EntriesText(entries) + "}" + rest, "}")
  {
    hide Decimal, Escaped, Escapable;
    var s := EntriesText(entries) + "}" + rest;
    assert s[0] == (if Quotable(entries[0].name) then '"' else ':');
    StartsBrace(s);
  }

  lemma StartsBrace(s: string)
    requires s != ""
    ensures Starts(s, "}") <==> s[0] == '}'
  {
    assert s[..1] == [s[0]];
  }

  lemma OpeningBack(window: Option<nat>, rest: string)
    requires Fits(window)
    ensures Opening(HeadToken() + (OptionalText(window) + (CyclesToken() + rest))) == Parsed(window, rest)
  {
    hide OptionalNumber, OptionalText, Starts, After, HeadToken;
    TokenBack(HeadToken(), OptionalText(window) + (CyclesToken() + rest));
    OptionalBack(window, CyclesToken() + rest);
    TokenBack(CyclesToken(), rest);
  }

  lemma ClosingBack(window: Option<nat>, cycles: seq<Entry>, ticks: Option<nat>)
    requires Fits(ticks)
    ensures Closing(window, cycles, TicksToken() + (OptionalText(ticks) + EndToken()))
            == Some(Limits(window, cycles, ticks))
  {
    hide OptionalNumber, OptionalText, Starts, After, TicksToken, KindToken, VersionToken;
    TokenBack(TicksToken(), OptionalText(ticks) + EndToken());
    assert EndToken()[0] == ',';
    OptionalBack(ticks, EndToken());
  }

  lemma FieldsBack(l: Limits)
    requires Typed(l)
    ensures Fields(Canonical(l)) == if AllPrintable(l) then Some(l) else None
  {
    hide Opening, Closing, OptionalText, Cycles, EntriesText, Printable, Ordered, HeadToken, CyclesToken, TicksToken,
      EndToken;
    var closing := TicksToken() + (OptionalText(l.maxTicks) + EndToken());
    var cycles := EntriesText(l.maxDomainCycles) + "}" + closing;
    assert Canonical(l) == HeadToken() + (OptionalText(l.deadlockWindow) + (CyclesToken() + cycles));
    OpeningBack(l.deadlockWindow, cycles);
    CyclesBack(l.maxDomainCycles, closing);
    ClosingBack(l.deadlockWindow, l.maxDomainCycles, l.maxTicks);
  }

  // ------------------------------------------------------------------- UTF-8

  lemma AsciiFirst(c: char, s: string)
    requires c as int < 0x80
    ensures Valid([c] + s) <==> Valid(s)
  {
    assert Step([c] + s) == 1 && ([c] + s)[1..] == s;
  }

  predicate Ascii(s: string) { forall i :: 0 <= i < |s| ==> s[i] as int < 0x80 }

  lemma {:induction false} AsciiPrefix(w: string, s: string)
    requires Ascii(w)
    ensures Valid(w + s) <==> Valid(s)
  {
    if w == "" {
      assert w + s == s;
    } else {
      assert w + s == [w[0]] + (w[1..] + s);
      AsciiFirst(w[0], w[1..] + s);
      AsciiPrefix(w[1..], s);
    }
  }

  lemma EscapeShape(c: char)
    ensures c as int < 0x80 ==> Ascii(Escape(c))
    ensures c as int >= 0x80 ==> Escape(c) == [c]
    ensures Escape(c) != "" && Escape(c)[0] as int < 0x80 <==> c as int < 0x80
  {
  }

  lemma QuoteFirst(rest: string)
    ensures (Escaped("") + "\"" + rest)[0] == '"'
  {
  }

  /** The bytes above ASCII at the front of an escaped name are those of the name. */
  lemma {:induction false} HighPrefix(name: string, rest: string, n: nat)
    requires var s := Escaped(name) + "\"" + rest; n <= |s| && forall i :: 0 <= i < n ==> s[i] as int >= 0x80
    ensures var s := Escaped(name) + "\"" + rest;
            n <= |name| && name[..n] == s[..n] && s[n..] == Escaped(name[n..]) + "\"" + rest
  {
    hide Escape;
    var s := Escaped(name) + "\"" + rest;
    if n == 0 {
      assert name[0..] == name;
    } else {
      assert s[0] as int >= 0x80;
      QuoteFirst(rest);
      assert name != "";
      EscapeShape(name[0]);
      var more := Escaped(name[1..]) + "\"" + rest;
      assert s == Escape(name[0]) + more;
      assert s == [name[0]] + more;
      forall i | 0 <= i < n - 1 ensures more[i] as int >= 0x80 { assert s[i + 1] == more[i]; }
      HighPrefix(name[1..], rest, n - 1);
      hide Escaped;
      assert name[..n] == [name[0]] + name[1..][..n - 1];
      assert s[..n] == [name[0]] + more[..n - 1];
      assert s[n..] == more[n - 1..] && name[n..] == name[1..][n - 1..];
    }
  }

  /** Bytes of a well-formed multi-byte sequence are all above ASCII. */
  lemma StepIsHigh(s: string)
    requires s != "" && Bytes(s) && Step(s) > 0 && s[0] as int >= 0x80
    ensures forall i :: 0 <= i < Step(s) ==> s[i] as int >= 0x80
  {
    var cp := EncodedAtStep(s);
    hide Step;
    var e := Encoded(cp);
    assert forall i :: 0 <= i < |e| ==> s[i] == e[i];
    EncodedIsHigh(cp);
  }

  lemma EncodedIsHigh(cp: nat)
    requires Scalar(cp)
    ensures forall i :: 0 <= i < |Encoded(cp)| && Encoded(cp)[0] as int >= 0x80 ==> Encoded(cp)[i] as int >= 0x80
  {
  }

  /** A name may be checked before or after it is escaped. */
  lemma {:induction false} EscapedValid(name: string, rest: string)
    requires Bytes(name) && Bytes(rest)
    ensures Valid(Escaped(name) + "\"" + rest) <==> Valid(name) && Valid(rest)
    decreases |name|
  {
    hide Step, Escape;
    var s := Escaped(name) + "\"" + rest;
    if name == "" {
      assert s == ['"'] + rest;
      AsciiFirst('"', rest);
    } else if name[0] as int < 0x80 {
      assert forall c :: c in name[1..] ==> c in name;
      EscapeShape(name[0]);
      assert s == Escape(name[0]) + (Escaped(name[1..]) + "\"" + rest);
      AsciiPrefix(Escape(name[0]), Escaped(name[1..]) + "\"" + rest);
      assert name == [name[0]] + name[1..];
      AsciiFirst(name[0], name[1..]);
      EscapedValid(name[1..], rest);
    } else {
      EscapedBytes(name);
      EscapedHigh(name, rest);
    }
  }

  lemma {:induction false} EscapedBytes(name: string)
    requires Bytes(name)
    ensures Bytes(Escaped(name))
  {
    if name != "" {
      assert name[0] in name && forall c :: c in name[1..] ==> c in name;
      EscapedBytes(name[1..]);
    }
  }

  lemma {:induction false} EscapedHigh(name: string, rest: string)
    requires name != "" && name[0] as int >= 0x80 && Bytes(name) && Bytes(rest) && Bytes(Escaped(name))
    ensures Valid(Escaped(name) + "\"" + rest) <==> Valid(name) && Valid(rest)
    decreases |name|, 0
  {
    hide Step, Escape, Escaped;
    var s := Escaped(name) + "\"" + rest;
    FirstHigh(name, rest);
    SameStep(name, rest);
    if Step(name) > 0 {
      var n := Step(name);
      assert forall c :: c in name[n..] ==> c in name;
      EscapedValid(name[n..], rest);
    }
  }

  lemma FirstHigh(name: string, rest: string)
    requires name != "" && name[0] as int >= 0x80
    ensures var s := Escaped(name) + "\"" + rest; s != "" && s[0] == name[0]
  {
    EscapeShape(name[0]);
  }

  /** The check takes the same step over a name and over its escaped form. */
  lemma SameStep(name: string, rest: string)
    requires name != "" && name[0] as int >= 0x80 && Bytes(name) && Bytes(rest) && Bytes(Escaped(name))
    requires var s := Escaped(name) + "\"" + rest; s != "" && s[0] == name[0]
    ensures var s := Escaped(name) + "\"" + rest;
            Step(s) == Step(name) && (Step(s) > 0 ==> s[Step(s)..] == Escaped(name[Step(name)..]) + "\"" + rest)
  {
    hide Step, Escape, Escaped, Encoded;
    if Step(Escaped(name) + "\"" + rest) > 0 { StepOfName(name, rest); }
    if Step(name) > 0 { StepOfEscaped(name, rest); }
  }

  lemma StepOfName(name: string, rest: string)
    requires name != "" && name[0] as int >= 0x80 && Bytes(rest) && Bytes(Escaped(name))
    requires var s := Escaped(name) + "\"" + rest; s != "" && s[0] == name[0] && Step(s) > 0
    ensures var s := Escaped(name) + "\"" + rest;
            Step(s) == Step(name) && s[Step(s)..] == Escaped(name[Step(name)..]) + "\"" + rest
  {
    hide Step, Escape, Escaped, Encoded;
    var s := Escaped(name) + "\"" + rest;
    var n := Step(s);
    StepIsHigh(s);
    HighPrefix(name, rest, n);
    var cp := EncodedAtStep(s);
    StepOfEncoded(cp, name[n..]);
    assert name == name[..n] + name[n..];
  }

  lemma StepOfEscaped(name: string, rest: string)
    requires name != "" && name[0] as int >= 0x80 && Bytes(name) && Step(name) > 0
    ensures Step(Escaped(name) + "\"" + rest) == Step(name)
  {
    hide Step, Escape, Escaped, Encoded;
    var s := Escaped(name) + "\"" + rest;
    var n := Step(name);
    var cp := EncodedAtStep(name);
    StepIsHigh(name);
    HighEscapes(name, n);
    assert s[..n] == Escaped(name)[..n];
    StepOfEncoded(cp, s[n..]);
    assert s == s[..n] + s[n..];
  }

  lemma {:induction false} HighEscapes(name: string, n: nat)
    requires n <= |name| && forall i :: 0 <= i < n ==> name[i] as int >= 0x80
    ensures n <= |Escaped(name)| && Escaped(name)[..n] == name[..n]
  {
    hide Escape;
    if n > 0 {
      EscapeShape(name[0]);
      HighEscapes(name[1..], n - 1);
      assert name[..n] == [name[0]] + name[1..][..n - 1];
    }
  }

  lemma AsciiValid(s: string)
    requires Ascii(s)
    ensures Valid(s) && Bytes(s)
  {
    AsciiPrefix(s, "");
    assert s + "" == s;
  }

  lemma {:induction false} DecimalAscii(n: nat)
    ensures Ascii(Decimal(n))
  {
    DecimalIs(n);
    var d := Decimal(n);
    forall i | 0 <= i < |d| ensures d[i] as int < 0x80 { assert IsDigit(d[i]); }
  }

  lemma OptionalAscii(n: Option<nat>)
    ensures Ascii(OptionalText(n))
  {
    if n.Some? { DecimalAscii(n.value); }
  }

  lemma BytesAdd(a: string, b: string)
    requires Bytes(a) && Bytes(b)
    ensures Bytes(a + b)
  {
  }

  lemma AsciiAdd(a: string, b: string)
    requires Ascii(a) && Ascii(b)
    ensures Ascii(a + b)
  {
  }

  lemma EntryValid(e: Entry, rest: string)
    requires Quotable(e.name) && Bytes(e.name) && Bytes(rest)
    ensures var s := Quote(e.name) + ":" + Decimal(e.value) + rest;
            Bytes(s) && (Valid(s) <==> Valid(e.name) && Valid(rest))
  {
    hide Valid, Escaped, Decimal, Escapable;
    var tail := ":" + Decimal(e.value) + rest;
    DecimalAscii(e.value);
    AsciiAdd(":", Decimal(e.value));
    AsciiPrefix(":" + Decimal(e.value), rest);
    AsciiValid(":" + Decimal(e.value));
    BytesAdd(":" + Decimal(e.value), rest);
    EscapedBytes(e.name);
    EscapedValid(e.name, tail);
    var quoted := Escaped(e.name) + "\"" + tail;
    AsciiFirst('"', quoted);
    BytesAdd(Escaped(e.name), "\"" + tail);
    assert Escaped(e.name) + ("\"" + tail) == quoted;
    assert Quote(e.name) + ":" + Decimal(e.value) + rest == ['"'] + quoted;
  }

  predicate Spelled(entries: seq<Entry>) { forall e :: e in entries ==> Quotable(e.name) && Bytes(e.name) }

  predicate NamesValid(entries: seq<Entry>) { forall e :: e in entries ==> Valid(e.name) }

  lemma FirstAndRest(entries: seq<Entry>)
    requires entries != []
    ensures Spelled(entries) <==> Quotable(entries[0].name) && Bytes(entries[0].name) && Spelled(entries[1..])
    ensures NamesValid(entries) <==> Valid(entries[0].name) && NamesValid(entries[1..])
  {
    hide Quotable, Bytes, Valid;
    assert forall e :: e in entries <==> e == entries[0] || e in entries[1..] by {
      assert entries == [entries[0]] + entries[1..];
    }
  }

  /** The first entry of a list, and what follows it. */
  function FollowingText(entries: seq<Entry>, rest: string): string
    requires entries != []
  {
    if |entries| == 1 then rest else "," + (EntriesText(entries[1..]) + rest)
  }

  lemma FirstEntryText(entries: seq<Entry>, rest: string)
    requires entries != []
    ensures EntriesText(entries) + rest
         == Quote(entries[0].name) + ":" + Decimal(entries[0].value) + FollowingText(entries, rest)
  {
    hide Quote, Decimal;
  }

  lemma {:induction false} EntriesValid(entries: seq<Entry>, rest: string)
    requires Bytes(rest) && Spelled(entries)
    ensures var s := EntriesText(entries) + rest; Bytes(s) && (Valid(s) <==> NamesValid(entries) && Valid(rest))
    decreases |entries|, 1
  {
    hide Valid, Quote, Decimal, Quotable, Bytes, Spelled, NamesValid, EntriesText, FollowingText;
    if entries == [] {
      NoEntries(entries, rest);
      NoNames(entries);
    } else {
      FirstAndRest(entries);
      FirstEntryText(entries, rest);
      FollowingValid(entries, rest);
      EntryValid(entries[0], FollowingText(entries, rest));
    }
  }

  lemma NoEntries(entries: seq<Entry>, rest: string)
    requires entries == []
    ensures EntriesText(entries) + rest == rest
  {
  }

  lemma {:induction false} FollowingValid(entries: seq<Entry>, rest: string)
    requires entries != [] && Bytes(rest) && Spelled(entries[1..])
    ensures var s := FollowingText(entries, rest); Bytes(s) && (Valid(s) <==> NamesValid(entries[1..]) && Valid(rest))
    decreases |entries|, 0
  {
    hide Valid, Bytes, Spelled, NamesValid, EntriesText;
    if |entries| == 1 {
      NoNames(entries[1..]);
    } else {
      EntriesValid(entries[1..], rest);
      CommaValid(EntriesText(entries[1..]) + rest);
    }
  }

  lemma NoNames(entries: seq<Entry>)
    requires entries == []
    ensures NamesValid(entries)
  {
  }

  lemma CommaValid(more: string)
    requires Bytes(more)
    ensures Bytes("," + more) && (Valid("," + more) <==> Valid(more))
  {
    AsciiFirst(',', more);
    assert "," + more == [','] + more;
  }

  lemma TokensAscii()
    ensures Ascii(HeadToken()) && Ascii(CyclesToken()) && Ascii(TicksToken()) && Ascii(EndToken())
  {
    ShortTokens();
    hide Ascii;
    BraceAscii();
    KindAscii();
    AsciiAdd(KindToken(), VersionToken());
    AsciiAdd(",", KindToken() + VersionToken());
  }

  lemma ShortTokens()
    ensures Ascii(HeadToken()) && Ascii(CyclesToken()) && Ascii(TicksToken())
  {
  }

  lemma KindAscii()
    ensures Ascii(KindToken()) && Ascii(VersionToken())
  {
  }

  /** The whole text is well-formed exactly when every name is. */
  lemma CanonicalValid(l: Limits)
    requires Spelled(l.maxDomainCycles)
    ensures Valid(Canonical(l)) <==> NamesValid(l.maxDomainCycles)
  {
    hide Valid, Quotable, Bytes, Spelled, NamesValid, EntriesText, OptionalText, Ascii;
    hide HeadToken, CyclesToken, TicksToken, EndToken;
    TokensAscii();
    OptionalAscii(l.deadlockWindow);
    OptionalAscii(l.maxTicks);
    var front := HeadToken() + OptionalText(l.deadlockWindow) + CyclesToken();
    var back := "}" + TicksToken() + OptionalText(l.maxTicks) + EndToken();
    AsciiAdd(HeadToken(), OptionalText(l.deadlockWindow));
    AsciiAdd(HeadToken() + OptionalText(l.deadlockWindow), CyclesToken());
    BraceAscii();
    AsciiAdd("}", TicksToken());
    AsciiAdd("}" + TicksToken(), OptionalText(l.maxTicks));
    AsciiAdd("}" + TicksToken() + OptionalText(l.maxTicks), EndToken());
    AsciiValid(back);
    EntriesValid(l.maxDomainCycles, back);
    AsciiPrefix(front, EntriesText(l.maxDomainCycles) + back);
    assert Canonical(l) == front + (EntriesText(l.maxDomainCycles) + back);
  }

  lemma BraceAscii()
    ensures Ascii("}") && Ascii(",")
  {
  }

  // ------------------------------------------------------------------ both ways

  predicate Admissible(l: Limits) {
    forall e :: e in l.maxDomainCycles ==> Printable(e.name) && Valid(e.name)
  }

  lemma NotEmptyObject(l: Limits)
    ensures Canonical(l) != "{}"
  {
    assert |Canonical(l)| >= |HeadToken()| > 2;
  }

  /** Parsing undoes printing for exactly the limits whose names are nonempty, well-formed and
      spelled with printable characters or the seven escapes; for all others it refuses. */
  lemma ParseUndoesPrint(l: Limits)
    requires Typed(l)
    ensures Parse(Canonical(l)) == if Admissible(l) then Some(l) else None
  {
    hide Canonical, Fields, Valid, Printable, Typed;
    NotEmptyObject(l);
    FieldsBack(l);
    if AllPrintable(l) {
      NamesOf(l);
      CanonicalValid(l);
    }
  }

  lemma NamesOf(l: Limits)
    requires Typed(l) && AllPrintable(l)
    ensures Spelled(l.maxDomainCycles)
  {
    hide Quotable, Bytes;
  }

  // ------------------------------------------------------------ parsing, then printing

  lemma {:induction false} UnquotedBytes(s: string)
    requires Bytes(s)
    ensures Unquoted(s).Parsed? ==> Bytes(Unquoted(s).value) && Bytes(Unquoted(s).rest)
    decreases |s|
  {
    if s != "" {
      assert s[0] in s;
      SuffixBytes(s, 1);
      if s[0] != '"' && s[0] as int >= 0x20 {
        if s[0] != '\\' {
          UnquotedBytes(s[1..]);
        } else if |s| > 1 && Meant(s[1]).Some? {
          SuffixBytes(s, 2);
          UnquotedBytes(s[2..]);
        }
      }
    }
  }

  lemma SuffixBytes(s: string, n: nat)
    requires Bytes(s) && n <= |s|
    ensures Bytes(s[n..])
  {
    assert forall c :: c in s[n..] ==> c in s;
  }

  lemma EntryParsed(s: string, prior: string)
    requires Bytes(s)
    ensures var p := OneEntry(s, prior);
            p.Parsed? ==> && Printable(p.value.name) && Bytes(p.value.name) && p.value.value < LIMIT
                          && Below(prior, p.value.name) && Bytes(p.rest)
  {
    hide Unquoted, Below, DigitsValue, Quotable;
    if s != "" {
      SuffixBytes(s, 1);
      UnquotedBytes(s[1..]);
      UnquotedIsQuotable(s[1..]);
      if OneEntry(s, prior).Parsed? {
        var rest := Text(s).rest;
        SuffixBytes(rest, 1);
        SuffixBytes(rest[1..], DigitCount(rest[1..]));
      }
    }
  }

  /** Names read are nonempty, quotable, increasing; numbers fit. */
  predicate Read(entries: seq<Entry>, prior: string) {
    && Ordered(entries) && (entries != [] ==> Below(prior, entries[0].name))
    && forall e :: e in entries ==> Printable(e.name) && Bytes(e.name) && e.value < LIMIT
  }

  lemma ReadStep(e: Entry, more: seq<Entry>, prior: string)
    requires Printable(e.name) && Bytes(e.name) && e.value < LIMIT && Below(prior, e.name) && Read(more, e.name)
    ensures Read([e] + more, prior)
  {
    hide Below, Printable, Bytes;
    var all := [e] + more;
    forall i | 0 < i < |all| ensures Below(all[i - 1].name, all[i].name) {
      if i > 1 { assert Below(more[i - 1 - 1].name, more[i - 1].name); }
    }
  }

  lemma {:induction false} EntriesParsed(s: string, prior: string)
    requires Bytes(s)
    ensures Entries(s, prior).Parsed? ==> Read(Entries(s, prior).value, prior)
    decreases |s|
  {
    hide OneEntry, Below, Printable, Bytes, Read;
    EntryParsed(s, prior);
    OneEntryShrinks(s, prior);
    var p := OneEntry(s, prior);
    if p.Parsed? {
      NothingRead(p.value.name);
      ReadStep(p.value, [], prior);
      assert [p.value] + [] == [p.value];
      if !Starts(p.rest, "}") && Starts(p.rest, ",") {
        SuffixBytes(p.rest, 1);
        EntriesParsed(p.rest[1..], p.value.name);
        if Entries(p.rest[1..], p.value.name).Parsed? {
          ReadStep(p.value, Entries(p.rest[1..], p.value.name).value, prior);
        }
      }
    }
  }

  lemma NothingRead(prior: string)
    ensures Read([], prior)
  {
  }

  lemma NumberFits(s: string)
    ensures Number(s).Parsed? ==> Number(s).value < LIMIT && exists n: nat :: n <= |s| && Number(s).rest == s[n..]
    ensures OptionalNumber(s).Parsed? ==> Fits(OptionalNumber(s).value)
    ensures OptionalNumber(s).Parsed? ==> exists n: nat :: n <= |s| && OptionalNumber(s).rest == s[n..]
  {
    hide DigitsValue;
    if OptionalNumber(s).Parsed? {
      if Starts(s, "null") {
        assert OptionalNumber(s).rest == s[4..];
      } else {
        assert OptionalNumber(s).rest == s[DigitCount(s)..];
      }
    }
  }

  lemma CyclesParsed(s: string)
    requires Bytes(s)
    ensures Cycles(s).Parsed? ==> Read(Cycles(s).value, "")
  {
    hide Entries, Read, Bytes;
    NothingRead("");
    EntriesParsed(s, "");
  }

  lemma FieldsTyped(input: string)
    requires Bytes(input)
    ensures Fields(input).Some? ==> Typed(Fields(input).value) && AllPrintable(Fields(input).value)
  {
    hide OptionalNumber, Opening, Cycles, Number, Below, Printable, TicksToken, EndToken;
    if Fields(input).Some? {
      OpeningTyped(input);
      CyclesParsed(Opening(input).rest);
      NumberFits(After(Cycles(Opening(input).rest).rest, TicksToken()));
    }
  }

  lemma OpeningTyped(input: string)
    requires Bytes(input) && Opening(input).Parsed?
    ensures Fits(Opening(input).value) && Bytes(Opening(input).rest)
  {
    hide OptionalNumber, HeadToken, CyclesToken;
    var start := After(input, HeadToken());
    SuffixBytes(input, |HeadToken()|);
    NumberFits(start);
    var window := OptionalNumber(start);
    var n: nat :| n <= |start| && window.rest == start[n..];
    SuffixBytes(start, n);
    SuffixBytes(window.rest, |CyclesToken()|);
  }

  /** Every accepted text is the empty object or the canonical text of what was read, and what was
      read is a record whose names have the form printing requires. */
  lemma PrintUndoesParse(input: string)
    requires Bytes(input) && Parse(input).Some?
    ensures var l := Parse(input).value;
            Typed(l) && Admissible(l) && (input == Canonical(l) || (input == "{}" && l == NO_LIMITS))
  {
    hide Canonical, Fields, Valid, Printable, Typed;
    EmptyTyped();
    if input != "{}" {
      FieldsTyped(input);
      var l := Fields(input).value;
      NamesOf(l);
      CanonicalValid(l);
    }
  }

  lemma EmptyTyped()
    ensures Typed(NO_LIMITS)
  {
  }

  // ----------------------------------------------------------------- the order of names

  /** The first difference of two names is at k: there the first ends, or has the smaller byte. */
  predicate DiffersAt(a: string, b: string, k: nat) {
    && k <= |a| && k <= |b| && a[..k] == b[..k]
    && (k == |a| < |b| || (k < |a| && k < |b| && a[k] < b[k]))
  }

  ghost predicate Precedes(a: string, b: string) { exists k: nat :: DiffersAt(a, b, k) }

  lemma BelowDiffers(a: string, b: string) returns (k: nat)
    requires Below(a, b)
    ensures DiffersAt(a, b, k)
  {
    if a == "" || a[0] < b[0] {
      k := 0;
    } else {
      var n := BelowDiffers(a[1..], b[1..]);
      k := n + 1;
      assert a[..k] == [a[0]] + a[1..][..n] && b[..k] == [b[0]] + b[1..][..n];
    }
  }

  lemma {:induction false} DiffersBelow(a: string, b: string, k: nat)
    requires DiffersAt(a, b, k)
    ensures Below(a, b)
    decreases k
  {
    if k > 0 {
      assert a[..k][0] == b[..k][0];
      assert a[1..][..k - 1] == a[..k][1..] && b[1..][..k - 1] == b[..k][1..];
      DiffersBelow(a[1..], b[1..], k - 1);
    }
  }

  /** The order the parser checks is the lexicographic one. */
  lemma BelowIsPrecedes(a: string, b: string)
    ensures Below(a, b) <==> Precedes(a, b)
  {
    if Below(a, b) { var k := BelowDiffers(a, b); }
    if Precedes(a, b) {
      var k: nat :| DiffersAt(a, b, k);
      DiffersBelow(a, b, k);
    }
  }

  lemma {:induction false} BelowTransitive(a: string, b: string, c: string)
    requires Below(a, b) && Below(b, c)
    ensures Below(a, c)
  {
    if a != "" && a[0] == b[0] == c[0] { BelowTransitive(a[1..], b[1..], c[1..]); }
  }

  lemma {:induction false} BelowDistinct(a: string)
    ensures !Below(a, a)
  {
    if a != "" { BelowDistinct(a[1..]); }
  }

  lemma {:induction false} OrderedApart(entries: seq<Entry>, i: nat, j: nat)
    requires Ordered(entries) && i < j < |entries|
    ensures Below(entries[i].name, entries[j].name)
    decreases j
  {
    hide Below;
    assert Below(entries[j - 1].name, entries[j].name);
    if i < j - 1 {
      OrderedApart(entries, i, j - 1);
      BelowTransitive(entries[i].name, entries[j - 1].name, entries[j].name);
    }
  }

  /** The names of an accepted text are pairwise different and in lexicographic order. */
  lemma NamesInOrder(input: string, i: nat, j: nat)
    requires Bytes(input) && Parse(input).Some? && i < j < |Parse(input).value.maxDomainCycles|
    ensures var entries := Parse(input).value.maxDomainCycles;
            Precedes(entries[i].name, entries[j].name) && entries[i].name != entries[j].name
  {
    hide Parse, Canonical, Below, Printable, Precedes;
    var entries := Parse(input).value.maxDomainCycles;
    PrintUndoesParse(input);
    OrderedApart(entries, i, j);
    BelowIsPrecedes(entries[i].name, entries[j].name);
    BelowDistinct(entries[i].name);
  }

  // ----------------------------------------------------------------------- the text itself

  /** The canonical text, spelled out around its numbers and entries. */
  lemma CanonicalSpelled(l: Limits)
    ensures Canonical(l)
         == "{\"deadlock_window\":" + OptionalText(l.deadlockWindow)
            + ",\"max_domain_cycles\":{" + EntriesText(l.maxDomainCycles) + "}"
            + ",\"max_ticks\":" + OptionalText(l.maxTicks)
            + ("," + ("\"schema\":\"pycircuit-model-config\"" + ",\"version\":\"1\"}"))
  {
    hide OptionalText, EntriesText;
  }

  lemma SampleNumbers()
    ensures OptionalText(None) == "null" && OptionalText(Some(907)) == "907"
  {
    assert Decimal(907) == Decimal(90) + ['7'];
    assert Decimal(90) == Decimal(9) + ['0'];
  }

  lemma SampleNames()
    ensures Quote("a") == "\"a\"" && Quote("b\n") == "\"b\\n\""
  {
    assert "a"[1..] == "" && "b\n"[1..] == "\n" && "\n"[1..] == "";
    assert Escaped("\n") == Escape('\n') + Escaped("");
  }

  /** Entries are separated by commas, each a quoted name, a colon and a number. */
  lemma SampleEntries()
    ensures EntriesText([Entry("a", 1), Entry("b\n", 2)]) == "\"a\":1,\"b\\n\":2"
  {
    hide Quote;
    SampleNames();
    var rest := [Entry("b\n", 2)];
    assert [Entry("a", 1), Entry("b\n", 2)][1..] == rest;
    assert EntriesText(rest) == Quote("b\n") + ":" + Decimal(2);
    assert Decimal(1) == "1" && Decimal(2) == "2";
  }
}
