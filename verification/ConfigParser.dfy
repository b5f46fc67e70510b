/** The configuration parser and printer as they run (runtime/model_input.cpp): a cursor moving
    over the text, strings and maps built by appending. */
module ConfigParser {
  import opened Options
  import opened ConfigUtf8
  import opened ConfigText
  import opened ConfigGrammar

  /** What was read before, in front of what is read next. */
  function Behind(read: string, p: Parsed<string>): Parsed<string> {
    if p.Failed? then Failed else Parsed(read + p.value, p.rest)
  }

  lemma BehindOne(read: string, c: char, p: Parsed<string>)
    ensures Behind(read, Prefixed(c, p)) == Behind(read + [c], p)
  {
    if p.Parsed? { assert read + ([c] + p.value) == (read + [c]) + p.value; }
  }

  lemma BehindNothing(p: Parsed<string>)
    ensures Behind("", p) == p
  {
    if p.Parsed? { assert "" + p.value == p.value; }
  }

  class Parser {
    const input: string
    var cursor: nat

    ghost predicate Inside()
      reads this
    {
      cursor <= |input|
    }

    function Rest(): string
      reads this
      requires Inside()
    {
      input[cursor..]
    }

    constructor (text: string)
      ensures input == text && Inside() && Rest() == text
    {
      input, cursor := text, 0;
    }

    method Take(token: string) returns (ok: bool)
      requires Inside()
      modifies this
      ensures Inside() && ok == Starts(old(Rest()), token)
      ensures Rest() == if ok then After(old(Rest()), token) else old(Rest())
    {
      ok := cursor + |token| <= |input| && input[cursor..cursor + |token|] == token;
      if cursor + |token| <= |input| { assert Rest()[..|token|] == input[cursor..cursor + |token|]; }
      if ok { cursor := cursor + |token|; }
    }

    /** Past all the digits there are. */
    method SkipDigits()
      requires Inside()
      modifies this
      ensures Inside() && cursor == old(cursor) + DigitCount(old(Rest()))
    {
      while cursor < |input| && IsDigit(input[cursor])
        invariant Inside() && old(cursor) <= cursor
        invariant DigitCount(old(Rest())) == cursor - old(cursor) + DigitCount(Rest())
      {
        assert Rest()[1..] == input[cursor + 1..];
        cursor := cursor + 1;
      }
    }

    method UnsignedInteger() returns (r: Option<nat>)
      requires Inside()
      modifies this
      ensures Inside() && (r.Some? <==> Number(old(Rest())).Parsed?)
      ensures r.Some? ==> r.value == Number(old(Rest())).value && Rest() == Number(old(Rest())).rest
    {
      var start := cursor;
      SkipDigits();
      CountedAreDigits(input[start..]);
      assert input[start..][..cursor - start] == input[start..cursor];
      assert input[start..][cursor - start..] == input[cursor..];
      if start == cursor || (cursor - start > 1 && input[start] == '0') { return None; }
      var value := DigitsValue(input[start..cursor]);
      r := if value < LIMIT then Some(value) else None;
    }

    /** A quoted string, its escapes resolved. */
    method String() returns (r: Option<string>)
      requires Inside()
      modifies this
      ensures Inside() && (r.Some? <==> Text(old(Rest())).Parsed?)
      ensures r.Some? ==> r.value == Text(old(Rest())).value && Rest() == Text(old(Rest())).rest
    {
      var quoted := Take("\"");
      QuoteTaken(old(Rest()));
      if !quoted { return None; }
      ghost var body := Rest();
      var result := "";
      BehindNothing(Unquoted(body));
      while cursor < |input|
        invariant Inside() && Unquoted(body) == Behind(result, Unquoted(Rest()))
        decreases |input| - cursor
      {
        ghost var rest := Rest();
        var value := input[cursor];
        assert rest[1..] == input[cursor + 1..];
        cursor := cursor + 1;
        if value == '"' {
          assert result + "" == result;
          return Some(result);
        }
        if value as int < 0x20 { return None; }
        if value != '\\' {
          BehindOne(result, value, Unquoted(Rest()));
          result := result + [value];
        } else {
          if cursor == |input| { return None; }
          var meant := Meant(input[cursor]);
          assert rest[2..] == input[cursor + 1..];
          cursor := cursor + 1;
          if meant.None? { return None; }
          BehindOne(result, meant.value, Unquoted(Rest()));
          result := result + [meant.value];
        }
      }
      r := None;
    }

    method OptionalUnsigned() returns (r: Option<Option<nat>>)
      requires Inside()
      modifies this
      ensures Inside() && (r.Some? <==> OptionalNumber(old(Rest())).Parsed?)
      ensures r.Some? ==> r.value == OptionalNumber(old(Rest())).value && Rest() == OptionalNumber(old(Rest())).rest
    {
      hide Number, Starts, After;
      var isNull := Take("null");
      if isNull { return Some(None); }
      var number := UnsignedInteger();
      r := if number.Some? then Some(number) else None;
    }
  }

  lemma QuoteTaken(s: string)
    ensures Starts(s, "\"") <==> s != "" && s[0] == '"'
    ensures Starts(s, "\"") ==> After(s, "\"") == s[1..]
  {
    if s != "" { assert s[..1] == [s[0]]; }
  }

  method ReadEntry(parser: Parser, prior: string) returns (r: Option<Entry>)
    requires parser.Inside()
    modifies parser
    ensures parser.Inside() && (r.Some? <==> OneEntry(old(parser.Rest()), prior).Parsed?)
    ensures r.Some? ==> r.value == OneEntry(old(parser.Rest()), prior).value
    ensures r.Some? ==> parser.Rest() == OneEntry(old(parser.Rest()), prior).rest
  {
    hide Number, Text, Below, Starts, After;
    var name := parser.String();
    if name.None? || name.value == "" || !Below(prior, name.value) { return None; }
    var colon := parser.Take(":");
    if !colon { return None; }
    var value := parser.UnsignedInteger();
    r := if value.Some? then Some(Entry(name.value, value.value)) else None;
  }

  function EntriesBehind(read: seq<Entry>, p: Parsed<seq<Entry>>): Parsed<seq<Entry>> {
    if p.Failed? then Failed else Parsed(read + p.value, p.rest)
  }

  lemma EntriesBehindOne(read: seq<Entry>, e: Entry, p: Parsed<seq<Entry>>)
    ensures (if p.Failed? then Failed else Parsed(read + ([e] + p.value), p.rest)) == EntriesBehind(read + [e], p)
  {
    if p.Parsed? { assert read + ([e] + p.value) == (read + [e]) + p.value; }
  }

  /** The loop over the names, each above the one before it. */
  method ReadEntries(parser: Parser) returns (r: Option<seq<Entry>>)
    requires parser.Inside()
    modifies parser
    ensures parser.Inside() && (r.Some? <==> Entries(old(parser.Rest()), "").Parsed?)
    ensures r.Some? ==>
              var read := Entries(old(parser.Rest()), ""); r.value == read.value && parser.Rest() == read.rest
  {
    hide OneEntry, Starts, After;
    ghost var body := parser.Rest();
    var entries: seq<Entry>, prior := [], "";
    if Entries(body, "").Parsed? { assert [] + Entries(body, "").value == Entries(body, "").value; }
    while true
      invariant parser.Inside() && Entries(body, "") == EntriesBehind(entries, Entries(parser.Rest(), prior))
      decreases |parser.input| - parser.cursor
    {
      ghost var rest := parser.Rest();
      OneEntryShrinks(rest, prior);
      var entry := ReadEntry(parser, prior);
      if entry.None? { return None; }
      ghost var behind := parser.Rest();
      var closed := parser.Take("}");
      if closed { return Some(entries + [entry.value]); }
      var comma := parser.Take(",");
      if !comma { return None; }
      ShorterAfter(behind, ",");
      EntriesBehindOne(entries, entry.value, Entries(parser.Rest(), entry.value.name));
      entries, prior := entries + [entry.value], entry.value.name;
    }
  }

  lemma ShorterAfter(s: string, token: string)
    ensures |After(s, token)| <= |s|
  {
  }

  method ReadCycles(parser: Parser) returns (r: Option<seq<Entry>>)
    requires parser.Inside()
    modifies parser
    ensures parser.Inside() && (r.Some? <==> Cycles(old(parser.Rest())).Parsed?)
    ensures r.Some? ==> r.value == Cycles(old(parser.Rest())).value && parser.Rest() == Cycles(old(parser.Rest())).rest
  {
    hide Entries, Starts, After;
    var none := parser.Take("}");
    if none { return Some([]); }
    r := ReadEntries(parser);
  }

  method ReadClosing(parser: Parser, window: Option<nat>, cycles: seq<Entry>) returns (r: Option<Limits>)
    requires parser.Inside()
    modifies parser
    ensures r == Closing(window, cycles, old(parser.Rest()))
  {
    hide OptionalNumber, Starts, After, TicksToken, EndToken;
    var ok := parser.Take(TicksToken());
    if !ok { return None; }
    var ticks := parser.OptionalUnsigned();
    if ticks.None? { return None; }
    TakenWhole(parser.Rest());
    ok := parser.Take(EndToken());
    if !ok || parser.cursor != |parser.input| { return None; }
    r := Some(Limits(window, cycles, ticks.value));
  }

  method ReadOpening(parser: Parser) returns (r: Option<Option<nat>>)
    requires parser.Inside()
    modifies parser
    ensures parser.Inside() && (r.Some? <==> Opening(old(parser.Rest())).Parsed?)
    ensures r.Some? ==>
              var read := Opening(old(parser.Rest())); r.value == read.value && parser.Rest() == read.rest
  {
    hide OptionalNumber, Starts, After, HeadToken, CyclesToken;
    var ok := parser.Take(HeadToken());
    if !ok { return None; }
    var window := parser.OptionalUnsigned();
    if window.None? { return None; }
    ok := parser.Take(CyclesToken());
    if !ok { return None; }
    r := window;
  }

  method ReadFields(parser: Parser) returns (r: Option<Limits>)
    requires parser.Inside()
    modifies parser
    ensures r == Fields(old(parser.Rest()))
  {
    hide Opening, Cycles, Closing;
    var window := ReadOpening(parser);
    if window.None? { return None; }
    var cycles := ReadCycles(parser);
    if cycles.None? { return None; }
    r := ReadClosing(parser, window.value, cycles.value);
  }

  lemma TakenWhole(last: string)
    ensures last == EndToken() <==> Starts(last, EndToken()) && After(last, EndToken()) == ""
  {
    if Starts(last, EndToken()) { assert last == last[..|EndToken()|] + last[|EndToken()|..]; }
  }

  method ParseModelConfig(input: string) returns (r: Option<Limits>)
    ensures r == Parse(input)
  {
    hide Valid, Fields, Canonical;
    var valid := IsValidUtf8(input);
    if !valid { return None; }
    if input == "{}" { return Some(NO_LIMITS); }
    var parser := new Parser(input);
    var limits := ReadFields(parser);
    if limits.None? { return None; }
    var canonical := PrintConfig(limits.value);
    r := if canonical == input then limits else None;
  }

  // ------------------------------------------------------------------- printing

  /** A quoted string, or nothing when a character has no spelling. */
  method PrintQuoted(value: string) returns (r: string)
    ensures r == Quote(value)
  {
    hide Letter, Escape;
    var output, index := "\"", 0;
    assert value[0..] == value && "" + Escaped(value) == Escaped(value);
    while index < |value|
      invariant index <= |value| && forall i :: 0 <= i < index ==> Escapable(value[i])
      invariant "\"" + Escaped(value) == output + Escaped(value[index..])
    {
      var c := value[index];
      if Letter(c).None? && c as int < 0x20 { return ""; }
      EscapedFront(value[index..]);
      assert value[index..][1..] == value[index + 1..];
      Regroup(output, "", Escape(c), Escaped(value[index + 1..]));
      output := output + Escape(c);
      index := index + 1;
    }
    r := output + "\"";
  }

  lemma EscapedFront(s: string)
    requires s != ""
    ensures Escaped(s) == Escape(s[0]) + Escaped(s[1..])
  {
  }

  method PrintEntries(entries: seq<Entry>) returns (r: string)
    ensures r == EntriesText(entries)
  {
    hide Quote, Decimal, Continued;
    r := "";
    var first := true;
    ContinuedFirst(entries);
    assert entries[0..] == entries && "" + EntriesText(entries) == EntriesText(entries);
    for index := 0 to |entries|
      invariant first == (index == 0)
      invariant EntriesText(entries) == r + Continued(entries[index..], first)
    {
      var name := PrintQuoted(entries[index].name);
      ContinuedFront(entries[index..], first);
      assert entries[index..][1..] == entries[index + 1..];
      var comma, piece := if first then "" else ",", name + ":" + Decimal(entries[index].value);
      Regroup(r, comma, piece, Continued(entries[index + 1..], false));
      r := r + comma + piece;
      first := false;
    }
  }

  lemma Regroup(a: string, b: string, c: string, d: string)
    ensures a + (b + c + d) == a + b + c + d
  {
  }

  /** The text of the entries still to print. */
  function Continued(entries: seq<Entry>, first: bool): string {
    if entries == [] || first then EntriesText(entries) else "," + EntriesText(entries)
  }

  lemma ContinuedFirst(entries: seq<Entry>)
    ensures Continued(entries, true) == EntriesText(entries) && Continued([], false) == ""
  {
  }

  lemma ContinuedFront(entries: seq<Entry>, first: bool)
    requires entries != []
    ensures Continued(entries, first)
         == (if first then "" else ",") + (Quote(entries[0].name) + ":" + Decimal(entries[0].value))
           + Continued(entries[1..], false)
  {
    hide Quote, Decimal;
  }

  method PrintConfig(l: Limits) returns (r: string)
    ensures r == Canonical(l)
  {
    hide EntriesText, OptionalText;
    var cycles := PrintEntries(l.maxDomainCycles);
    r := HeadToken() + OptionalText(l.deadlockWindow) + CyclesToken() + cycles + "}" + TicksToken()
      + OptionalText(l.maxTicks) + EndToken();
  }
}
