/** The single-pass scan for duplicate object keys in JSON text (compiler/tools/link.cpp). */
module JsonKeys {

  import opened Options

  // ----------------------------------------------------------------- the scan

  /** `Undefined` is a pop from an empty stack, or a read past the end of the text. */
  datatype Verdict = Unique | Refused | Undefined

  predicate Space(c: char) { c == ' ' || c == '\t' || c == '\r' || c == '\n' }

  /** Length of the rest of a string literal after its opening quote, closing quote included; a
      backslash takes the character after it along, past the end if need be. */
  function LiteralLength(s: string): nat {
    if s == "" then 0
    else if s[0] == '\\' then 2 + (if |s| >= 2 then LiteralLength(s[2..]) else 0)
    else if s[0] == '"' then 1
    else 1 + LiteralLength(s[1..])
  }

  function SkipSpace(s: string): (t: string)
    ensures |t| <= |s|
  {
    if s != "" && Space(s[0]) then SkipSpace(s[1..]) else s
  }

  /** What the scan says of the rest of a text, with the key sets of the objects it is inside,
      innermost last.  `decode` reads a quoted string literal. */
  function Scan(rest: string, objects: seq<set<string>>, decode: string -> Option<string>): Verdict
    decreases |rest|
  {
    if rest == "" then Unique
    else
      var tail := rest[1..];
      if rest[0] == '{' then Scan(tail, objects + [{}], decode)
      else if rest[0] == '}' then
        if objects == [] then Undefined else Scan(tail, objects[..|objects| - 1], decode)
      else if rest[0] == '"' then
        var n := LiteralLength(tail);
        if n > |tail| then Undefined
        else
          var next := tail[n..];
          var after := SkipSpace(next);
          if after == "" || after[0] != ':' then Scan(next, objects, decode)
          else
            var key := decode("\"" + tail[..n]);
            if key.None? || objects == [] || key.value in objects[|objects| - 1] then Refused
            else Scan(next, objects[..|objects| - 1] + [objects[|objects| - 1] + {key.value}], decode)
      else Scan(tail, objects, decode)
  }

  // ------------------------------------------------------------------ JSON text

  /** A JSON value as it is spelled: whitespace wherever the grammar allows it, strings by the raw
      characters between their quotes. */
  datatype Json =
    | Plain(text: string)
    | Quoted(raw: string)
    | Array(open: string, items: Items)
    | Object(open: string, members: Members)

  datatype Items = NoItems | Item(value: Json, after: string, before: string, more: Items)

  datatype Members =
    | NoMembers
    | Member(raw: string, keyAfter: string, valueBefore: string, value: Json, after: string, before: string,
             more: Members)

  function Text(j: Json): string {
    match j
    case Plain(text) => text
    case Quoted(raw) => "\"" + raw + "\""
    case Array(open, items) => "[" + open + ItemsText(items) + "]"
    case Object(open, members) => "{" + open + MembersText(members) + "}"
  }

  function ItemsText(items: Items): string {
    match items
    case NoItems => ""
    case Item(value, after, before, more) =>
      Text(value) + after + (if more.NoItems? then "" else "," + before + ItemsText(more))
  }

  function MembersText(members: Members): string {
    match members
    case NoMembers => ""
    case Member(raw, keyAfter, valueBefore, value, after, before, more) =>
      "\"" + raw + "\"" + keyAfter + ":" + valueBefore + Text(value) + after
      + (if more.NoMembers? then "" else "," + before + MembersText(more))
  }

  /** Section 2 of RFC 8259: space, horizontal tab, line feed and carriage return. */
  predicate Whitespace(c: char) { c as int == 32 || c as int == 9 || c as int == 10 || c as int == 13 }

  predicate Spaces(s: string) { forall c :: c in s ==> Whitespace(c) }

  /** The inside of a string literal: no bare quote, and every backslash has its character. */
  predicate Raw(s: string) {
    s == "" || (if s[0] == '\\' then |s| >= 2 && Raw(s[2..]) else s[0] != '"' && Raw(s[1..]))
  }

  /** Numbers and the three words: no quote and no brace. */
  predicate PlainText(s: string) {
    s != "" && forall c :: c in s ==> c != '"' && c != '{' && c != '}' && c != ':' && !Whitespace(c)
  }

  predicate Spelled(j: Json, decode: string -> Option<string>) {
    match j
    case Plain(text) => PlainText(text)
    case Quoted(raw) => Raw(raw)
    case Array(open, items) => Spaces(open) && ItemsSpelled(items, decode)
    case Object(open, members) => Spaces(open) && MembersSpelled(members, decode)
  }

  predicate ItemsSpelled(items: Items, decode: string -> Option<string>) {
    match items
    case NoItems => true
    case Item(value, after, before, more) =>
      Spelled(value, decode) && Spaces(after) && Spaces(before) && ItemsSpelled(more, decode)
  }

  /** A valid text's keys are valid strings, so they decode. */
  predicate MembersSpelled(members: Members, decode: string -> Option<string>) {
    match members
    case NoMembers => true
    case Member(raw, keyAfter, valueBefore, value, after, before, more) =>
      && Raw(raw) && decode("\"" + raw + "\"").Some?
      && Spaces(keyAfter) && Spaces(valueBefore) && Spaces(after) && Spaces(before)
      && Spelled(value, decode) && MembersSpelled(more, decode)
  }

  // ----------------------------------------------------------- what it should decide

  function Key(raw: string, decode: string -> Option<string>): string {
    var k := decode("\"" + raw + "\"");
    if k.Some? then k.value else ""
  }

  function Keys(members: Members, decode: string -> Option<string>): seq<string> {
    match members
    case NoMembers => []
    case Member(raw, _, _, _, _, _, more) => [Key(raw, decode)] + Keys(more, decode)
  }

  predicate Distinct(keys: seq<string>) { forall i, j :: 0 <= i < j < |keys| ==> keys[i] != keys[j] }

  /** Every object at every depth has pairwise distinct decoded keys. */
  predicate KeysDistinct(j: Json, decode: string -> Option<string>) {
    match j
    case Plain(_) => true
    case Quoted(_) => true
    case Array(_, items) => ItemsDistinct(items, decode)
    case Object(_, members) => Distinct(Keys(members, decode)) && ValuesDistinct(members, decode)
  }

  predicate ItemsDistinct(items: Items, decode: string -> Option<string>) {
    match items
    case NoItems => true
    case Item(value, _, _, more) => KeysDistinct(value, decode) && ItemsDistinct(more, decode)
  }

  predicate ValuesDistinct(members: Members, decode: string -> Option<string>) {
    match members
    case NoMembers => true
    case Member(_, _, _, value, _, _, more) => KeysDistinct(value, decode) && ValuesDistinct(more, decode)
  }

  // ------------------------------------------------------------------ the proof

  /** What may follow a value: not a colon, however much space comes first. */
  predicate NoColon(rest: string) { var after := SkipSpace(rest); after == "" || after[0] != ':' }

  lemma {:induction false} SpacesSkipped(w: string, rest: string)
    requires Spaces(w)
    ensures SkipSpace(w + rest) == SkipSpace(rest)
  {
    if w != "" {
      assert w[0] in w;
      assert (w + rest)[1..] == w[1..] + rest;
      SpacesSkipped(w[1..], rest);
    } else {
      assert w + rest == rest;
    }
  }

  predicate Quiet(s: string) { forall c :: c in s ==> c != '"' && c != '{' && c != '}' }

  /** Characters that are neither quotes nor braces are passed over. */
  lemma {:induction false} ScanQuiet(w: string, rest: string, objects: seq<set<string>>,
                                     decode: string -> Option<string>)
    requires Quiet(w)
    ensures Scan(w + rest, objects, decode) == Scan(rest, objects, decode)
  {
    if w != "" {
      assert w[0] in w;
      assert (w + rest)[1..] == w[1..] + rest;
      assert forall c :: c in w[1..] ==> c in w;
      ScanQuiet(w[1..], rest, objects, decode);
    } else {
      assert w + rest == rest;
    }
  }

  lemma {:induction false} LiteralEnds(raw: string, rest: string)
    requires Raw(raw)
    ensures LiteralLength(raw + "\"" + rest) == |raw| + 1
  {
    var s := raw + "\"" + rest;
    if raw == "" {
      assert s[0] == '"';
    } else if raw[0] == '\\' {
      assert s[2..] == raw[2..] + "\"" + rest;
      LiteralEnds(raw[2..], rest);
    } else {
      assert s[1..] == raw[1..] + "\"" + rest;
      LiteralEnds(raw[1..], rest);
    }
  }

  /** A literal in the text, cut where it ends. */
  lemma LiteralCut(raw: string, rest: string)
    requires Raw(raw)
    ensures var s := "\"" + raw + "\"" + rest;
            var n := LiteralLength(s[1..]);
            && s != "" && s[0] == '"' && n <= |s[1..]| && s[1..][n..] == rest && "\"" + s[1..][..n] == "\"" + raw + "\""
  {
    var s := "\"" + raw + "\"" + rest;
    assert s[1..] == raw + "\"" + rest;
    LiteralEnds(raw, rest);
    assert s[1..][|raw| + 1..] == rest;
    assert s[1..][..|raw| + 1] == raw + "\"";
  }

  lemma ScanValueString(raw: string, rest: string, objects: seq<set<string>>, decode: string -> Option<string>)
    requires Raw(raw) && NoColon(rest)
    ensures Scan("\"" + raw + "\"" + rest, objects, decode) == Scan(rest, objects, decode)
  {
    hide LiteralLength;
    LiteralCut(raw, rest);
  }

  /** The scan at a literal before a colon. */
  lemma ScanLiteral(tail: string, objects: seq<set<string>>, decode: string -> Option<string>)
    requires var n := LiteralLength(tail); n <= |tail| && SkipSpace(tail[n..]) != "" && SkipSpace(tail[n..])[0] == ':'
    requires objects != [] && decode("\"" + tail[..LiteralLength(tail)]).Some?
    ensures var n, outer, top := LiteralLength(tail), objects[..|objects| - 1], objects[|objects| - 1];
            var key := decode("\"" + tail[..n]).value;
            Scan("\"" + tail, objects, decode)
            == if key in top then Refused else Scan(tail[n..], outer + [top + {key}], decode)
  {
    hide LiteralLength, SkipSpace;
    assert ("\"" + tail)[1..] == tail;
  }

  lemma ScanKey(raw: string, keyAfter: string, rest: string, objects: seq<set<string>>,
                decode: string -> Option<string>)
    requires Raw(raw) && Spaces(keyAfter) && decode("\"" + raw + "\"").Some? && objects != []
    ensures var outer, top, key := objects[..|objects| - 1], objects[|objects| - 1], Key(raw, decode);
            Scan("\"" + raw + "\"" + (keyAfter + ":" + rest), objects, decode)
            == if key in top then Refused else Scan(keyAfter + ":" + rest, outer + [top + {key}], decode)
  {
    hide LiteralLength, Scan, SkipSpace, Raw, Spaces;
    var follows := keyAfter + ":" + rest;
    var s := "\"" + raw + "\"" + follows;
    LiteralCut(raw, follows);
    assert s == "\"" + s[1..];
    assert follows == keyAfter + (":" + rest);
    SpacesSkipped(keyAfter, ":" + rest);
    ColonStays(rest);
    ScanLiteral(s[1..], objects, decode);
  }

  lemma ColonStays(rest: string)
    ensures SkipSpace(":" + rest) == ":" + rest
  {
  }

  /** Keys new to a set and to each other. */
  predicate Fresh(keys: seq<string>, top: set<string>) {
    Distinct(keys) && forall k :: k in keys ==> k !in top
  }

  lemma FreshStep(key: string, keys: seq<string>, top: set<string>)
    ensures Fresh([key] + keys, top) <==> key !in top && Fresh(keys, top + {key})
  {
    var all := [key] + keys;
    assert forall i :: 0 <= i < |keys| ==> all[i + 1] == keys[i];
    assert all[0] == key;
    if Fresh(all, top) {
      forall i, j | 0 <= i < j < |keys| ensures keys[i] != keys[j] { assert all[i + 1] != all[j + 1]; }
      forall k | k in keys ensures k !in top + {key} {
        var i :| 0 <= i < |keys| && keys[i] == k;
        assert all[0] != all[i + 1] && k in all;
      }
    }
    if key !in top && Fresh(keys, top + {key}) {
      forall i, j | 0 <= i < j < |all| ensures all[i] != all[j] {
        if i == 0 { assert all[j] in keys; } else { assert keys[i - 1] != keys[j - 1]; }
      }
    }
  }

  lemma SpacesQuiet(w: string, rest: string, objects: seq<set<string>>, decode: string -> Option<string>)
    requires Spaces(w)
    ensures Scan(w + rest, objects, decode) == Scan(rest, objects, decode)
  {
    assert forall c :: c in w ==> Whitespace(c);
    ScanQuiet(w, rest, objects, decode);
  }

  lemma OnePassed(c: char, rest: string, objects: seq<set<string>>, decode: string -> Option<string>)
    requires c != '"' && c != '{' && c != '}'
    ensures Scan([c] + rest, objects, decode) == Scan(rest, objects, decode)
  {
    assert ([c] + rest)[1..] == rest;
  }

  lemma AfterSpaces(w: string, c: char, rest: string)
    requires Spaces(w) && c != ':' && !Space(c)
    ensures NoColon(w + ([c] + rest))
  {
    SpacesSkipped(w, [c] + rest);
  }

  lemma Opened(rest: string, objects: seq<set<string>>, decode: string -> Option<string>)
    ensures Scan("{" + rest, objects, decode) == Scan(rest, objects + [{}], decode)
  {
    assert ("{" + rest)[1..] == rest;
  }

  lemma Closed(rest: string, objects: seq<set<string>>, top: set<string>, decode: string -> Option<string>)
    ensures Scan("}" + rest, objects + [top], decode) == Scan(rest, objects, decode)
  {
    assert ("}" + rest)[1..] == rest;
    assert (objects + [top])[..|objects|] == objects;
  }

  lemma PlainQuiet(s: string)
    requires PlainText(s)
    ensures Quiet(s)
  {
  }

  /** Over the text of one value the scan comes back to where it was, unless some object in it
      repeats a key; then it refuses, whatever follows. */
  lemma {:induction false} ScanJson(j: Json, rest: string, objects: seq<set<string>>, decode: string -> Option<string>)
    requires Spelled(j, decode) && NoColon(rest)
    ensures Scan(Text(j) + rest, objects, decode)
         == if KeysDistinct(j, decode) then Scan(rest, objects, decode) else Refused
    decreases j, 0
  {
    hide Scan, SkipSpace, Raw;
    match j {
      case Plain(text) =>
        PlainQuiet(text);
        ScanQuiet(text, rest, objects, decode);
      case Quoted(raw) =>
        ScanValueString(raw, rest, objects, decode);
      case Array(open, items) =>
        var inside := ItemsText(items) + ("]" + rest);
        assert Text(j) + rest == "[" + (open + inside);
        OnePassed('[', open + inside, objects, decode);
        SpacesQuiet(open, inside, objects, decode);
        ScanItems(items, rest, objects, decode);
        OnePassed(']', rest, objects, decode);
      case Object(open, members) =>
        ScanObject(open, members, rest, objects, decode);
    }
  }

  lemma {:induction false} ScanItems(items: Items, rest: string, objects: seq<set<string>>,
                                     decode: string -> Option<string>)
    requires ItemsSpelled(items, decode)
    ensures Scan(ItemsText(items) + ("]" + rest), objects, decode)
         == if ItemsDistinct(items, decode) then Scan("]" + rest, objects, decode) else Refused
    decreases items, 0
  {
    hide Scan, SkipSpace;
    match items {
      case NoItems =>
        assert ItemsText(items) + ("]" + rest) == "]" + rest;
      case Item(value, after, before, more) =>
        var follows := if more.NoItems? then "]" + rest else "," + (before + (ItemsText(more) + ("]" + rest)));
        assert ItemsText(items) + ("]" + rest) == Text(value) + (after + follows);
        AfterSpaces(after, follows[0], follows[1..]);
        assert [follows[0]] + follows[1..] == follows;
        ScanJson(value, after + follows, objects, decode);
        SpacesQuiet(after, follows, objects, decode);
        if !more.NoItems? {
          OnePassed(',', before + (ItemsText(more) + ("]" + rest)), objects, decode);
          SpacesQuiet(before, ItemsText(more) + ("]" + rest), objects, decode);
          ScanItems(more, rest, objects, decode);
        }
    }
  }

  lemma {:induction false} ScanObject(open: string, members: Members, rest: string, objects: seq<set<string>>,
                                      decode: string -> Option<string>)
    requires Spaces(open) && MembersSpelled(members, decode)
    ensures Scan(Text(Object(open, members)) + rest, objects, decode)
         == if KeysDistinct(Object(open, members), decode) then Scan(rest, objects, decode) else Refused
    decreases members, 1
  {
    hide Scan, Spaces, MembersSpelled, MembersText, Keys, ValuesDistinct;
    var inside := MembersText(members) + ("}" + rest);
    assert Text(Object(open, members)) + rest == "{" + (open + inside);
    Opened(open + inside, objects, decode);
    SpacesQuiet(open, inside, objects + [{}], decode);
    ScanMembers(members, rest, objects, {}, decode);
  }

  lemma {:induction false} ScanMembers(members: Members, rest: string, objects: seq<set<string>>, top: set<string>,
                                       decode: string -> Option<string>)
    requires MembersSpelled(members, decode)
    ensures Scan(MembersText(members) + ("}" + rest), objects + [top], decode)
         == if Fresh(Keys(members, decode), top) && ValuesDistinct(members, decode)
            then Scan(rest, objects, decode) else Refused
    decreases members, 0
  {
    hide Scan, SkipSpace, Distinct;
    match members {
      case NoMembers =>
        assert MembersText(members) + ("}" + rest) == "}" + rest;
        Closed(rest, objects, top, decode);
        NoneFresh(top);
      case Member(raw, keyAfter, valueBefore, value, after, before, more) =>
        var tail := MemberTail(before, more, rest);
        MemberText(members, rest);
        hide Raw, Spaces, MembersText, Fresh, MemberTail;
        var key := Key(raw, decode);
        ScanKey(raw, keyAfter, valueBefore + (Text(value) + (after + tail)), objects + [top], decode);
        assert (objects + [top])[..|objects|] == objects;
        TailStarts(before, more, rest);
        ScanMember(keyAfter, valueBefore, value, after, tail, objects + [top + {key}], decode);
        FreshStep(key, Keys(more, decode), top);
        ScanTail(before, more, rest, objects, top + {key}, decode);
    }
  }

  /** What follows a member: the closing brace, or a comma and the other members. */
  function MemberTail(before: string, more: Members, rest: string): string {
    if more.NoMembers? then "}" + rest else "," + (before + (MembersText(more) + ("}" + rest)))
  }

  lemma TailStarts(before: string, more: Members, rest: string)
    ensures var t := MemberTail(before, more, rest); t != "" && t[0] != ':' && !Space(t[0])
  {
  }

  lemma MemberText(members: Members, rest: string)
    requires members.Member?
    ensures var m := members;
            MembersText(m) + ("}" + rest)
            == "\"" + m.raw + "\""
               + (m.keyAfter + ":" + (m.valueBefore + (Text(m.value) + (m.after + MemberTail(m.before, m.more, rest)))))
  {
    hide Text;
  }

  lemma {:induction false} ScanTail(before: string, more: Members, rest: string, objects: seq<set<string>>,
                                    top: set<string>, decode: string -> Option<string>)
    requires Spaces(before) && MembersSpelled(more, decode)
    ensures Scan(MemberTail(before, more, rest), objects + [top], decode)
         == if Fresh(Keys(more, decode), top) && ValuesDistinct(more, decode)
            then Scan(rest, objects, decode) else Refused
    decreases more, 1
  {
    hide Scan, Spaces, MembersSpelled, Fresh, MembersText;
    if more.NoMembers? {
      Closed(rest, objects, top, decode);
      NoneFresh(top);
    } else {
      OnePassed(',', before + (MembersText(more) + ("}" + rest)), objects + [top], decode);
      SpacesQuiet(before, MembersText(more) + ("}" + rest), objects + [top], decode);
      ScanMembers(more, rest, objects, top, decode);
    }
  }

  lemma NoneFresh(top: set<string>)
    ensures Fresh([], top)
  {
  }

  /** From behind a key to the end of its value. */
  lemma {:induction false} ScanMember(keyAfter: string, valueBefore: string, value: Json, after: string, tail: string,
                                      objects: seq<set<string>>, decode: string -> Option<string>)
    requires Spaces(keyAfter) && Spaces(valueBefore) && Spaces(after) && Spelled(value, decode)
    requires tail != "" && tail[0] != ':' && !Space(tail[0])
    ensures Scan(keyAfter + ":" + (valueBefore + (Text(value) + (after + tail))), objects, decode)
         == if KeysDistinct(value, decode) then Scan(tail, objects, decode) else Refused
    decreases value, 1
  {
    hide Scan, SkipSpace, Spaces, Space, Spelled, KeysDistinct, Text;
    var inside := valueBefore + (Text(value) + (after + tail));
    assert keyAfter + ":" + inside == keyAfter + ([':'] + inside);
    SpacesQuiet(keyAfter, [':'] + inside, objects, decode);
    OnePassed(':', inside, objects, decode);
    SpacesQuiet(valueBefore, Text(value) + (after + tail), objects, decode);
    assert [tail[0]] + tail[1..] == tail;
    AfterSpaces(after, tail[0], tail[1..]);
    ScanJson(value, after + tail, objects, decode);
    SpacesQuiet(after, tail, objects, decode);
  }

  /** On the text of a JSON value with space around it, the scan is defined, and it accepts exactly
      when every object at every depth has pairwise distinct keys once decoded. */
  lemma ScanDecides(before: string, j: Json, after: string, decode: string -> Option<string>)
    requires Spaces(before) && Spelled(j, decode) && Spaces(after)
    ensures Scan(before + Text(j) + after, [], decode) == if KeysDistinct(j, decode) then Unique else Refused
  {
    assert before + Text(j) + after == before + (Text(j) + after);
    SpacesQuiet(before, Text(j) + after, [], decode);
    assert after + "" == after;
    SpacesSkipped(after, "");
    ScanJson(j, after, [], decode);
    SpacesQuiet(after, "", [], decode);
  }

  // ------------------------------------------------------------------------ a text

  const SAMPLE_ITEMS := Item(Plain("-1.5e3"), "\r\n", "", Item(Quoted("}{"), "", "", NoItems))
  const SAMPLE_LAST := Member("b", "", "", Object("", NoMembers), "", "", NoMembers)
  const SAMPLE_MEMBERS := Member("a\\\"", " ", "\t", Array("", SAMPLE_ITEMS), " ", "\n", SAMPLE_LAST)

  /** A value with an escaped quote in a key, all four kinds of whitespace, an empty object and
      braces inside a string. */
  const SAMPLE := Object(" ", SAMPLE_MEMBERS)

  lemma SampleRaw()
    ensures Raw("a\\\"") && Raw("}{") && Raw("b")
  {
    assert "a\\\""[1..] == "\\\"" && "\\\""[2..] == "";
    assert "}{"[1..] == "{" && "{"[1..] == "";
    assert "b"[1..] == "";
  }

  lemma SamplePieces()
    ensures Spaces(" ") && Spaces("\t") && Spaces("\r\n") && Spaces("\n") && Spaces("") && PlainText("-1.5e3")
  {
  }

  /** It is spelled as JSON, so the scan is decided on it. */
  lemma SampleIsSpelled(decode: string -> Option<string>)
    requires decode("\"" + "a\\\"" + "\"").Some? && decode("\"" + "b" + "\"").Some?
    ensures Spelled(SAMPLE, decode)
  {
    hide Raw;
    SampleRaw();
    SamplePieces();
    hide Spaces, PlainText;
    assert ItemsSpelled(SAMPLE_ITEMS, decode);
    assert MembersSpelled(SAMPLE_LAST, decode);
  }

  // ------------------------------------------------------------------- the loop

  function Cut(s: string, n: nat): string { if n <= |s| then s[n..] else "" }

  lemma LiteralStep(s: string)
    requires s != ""
    ensures LiteralLength(s)
         == if s[0] == '\\' then 2 + LiteralLength(Cut(s, 2))
            else if s[0] == '"' then 1
            else 1 + LiteralLength(Cut(s, 1))
  {
  }

  lemma CutTwice(s: string, m: nat, n: nat)
    ensures Cut(Cut(s, m), n) == Cut(s, m + n)
  {
  }

  lemma CutPast(s: string, n: nat)
    requires n >= |s|
    ensures LiteralLength(Cut(s, n)) == 0
  {
  }

  /** From an index inside a literal to the index past its closing quote. */
  method FindEnd(text: string, start: nat) returns (index: nat)
    requires start <= |text|
    ensures index == start + LiteralLength(text[start..])
  {
    hide LiteralLength;
    index := start;
    while index < |text|
      invariant start <= index && start + LiteralLength(text[start..]) == index + LiteralLength(Cut(text, index))
      decreases |text| - index
    {
      LiteralStep(Cut(text, index));
      CutTwice(text, index, 1);
      CutTwice(text, index, 2);
      hide Cut;
      if text[index] == '\\' {
        index := index + 2;
      } else {
        var closing := text[index] == '"';
        index := index + 1;
        if closing { return; }
      }
    }
    CutPast(text, index);
  }

  method SkipSpaces(text: string, start: nat) returns (after: nat)
    requires start <= |text|
    ensures start <= after <= |text| && text[after..] == SkipSpace(text[start..])
  {
    after := start;
    while after < |text| && Space(text[after])
      invariant start <= after <= |text| && SkipSpace(text[after..]) == SkipSpace(text[start..])
    {
      assert text[after..][1..] == text[after + 1..];
      after := after + 1;
    }
  }

  /** A string literal that starts at `start`: a key if a colon follows, and then new to its
      object.  A backslash at the very end takes the index past the text. */
  method ReadLiteral(text: string, start: nat, objects: seq<set<string>>, decode: string -> Option<string>)
    returns (index: nat, after: seq<set<string>>, ended: Option<Verdict>)
    requires start < |text| && text[start] == '"'
    ensures ended.None? ==> start < index <= |text|
    ensures Scan(text[start..], objects, decode)
         == if ended.Some? then ended.value else Scan(text[index..], after, decode)
  {
    hide LiteralLength, SkipSpace;
    ghost var tail := text[start + 1..];
    assert text[start..][1..] == tail;
    index := FindEnd(text, start + 1);
    after, ended := objects, None;
    if index > |text| { return index, objects, Some(Undefined); }
    assert tail[index - start - 1..] == text[index..];
    assert text[start..index] == "\"" + tail[..index - start - 1];
    var colon := SkipSpaces(text, index);
    if colon < |text| && text[colon] == ':' {
      var key := decode(text[start..index]);
      if key.None? || objects == [] || key.value in objects[|objects| - 1] {
        ended := Some(Refused);
      } else {
        after := objects[..|objects| - 1] + [objects[|objects| - 1] + {key.value}];
      }
    }
  }

  method UniqueJsonKeys(text: string, decode: string -> Option<string>) returns (verdict: Verdict)
    ensures verdict == Scan(text, [], decode)
  {
    hide LiteralLength, SkipSpace;
    var objects: seq<set<string>>, index := [], 0;
    assert text[0..] == text;
    while index < |text|
      invariant index <= |text| && Scan(text, [], decode) == Scan(text[index..], objects, decode)
    {
      var next := text[index];
      assert text[index..][1..] == text[index + 1..];
      if next == '"' {
        var ended;
        index, objects, ended := ReadLiteral(text, index, objects, decode);
        if ended.Some? { return ended.value; }
      } else {
        if next == '{' {
          objects := objects + [{}];
        } else if next == '}' {
          if objects == [] { return Undefined; }
          objects := objects[..|objects| - 1];
        }
        index := index + 1;
      }
    }
    verdict := Unique;
  }
}
