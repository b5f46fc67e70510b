/** UTF-8 admission of a configuration text (runtime/model_input.cpp).  A text is a string whose
    characters are bytes. */
module ConfigUtf8 {

  predicate Bytes(s: string) { forall c :: c in s ==> c as int < 256 }

  function Byte(s: string, i: nat): nat
    requires i < |s|
  {
    s[i] as int
  }

  // ------------------------------------------------------- RFC 3629, section 3

  /** Unicode scalar values: no surrogates. */
  predicate Scalar(cp: nat) { cp < 0xD800 || 0xE000 <= cp < 0x11_0000 }

  function Tail(cp: nat): char { (128 + cp % 64) as char }

  /** The shortest, and only well-formed, encoding of a scalar value. */
  function Encoded(cp: nat): string
    requires Scalar(cp)
  {
    if cp < 0x80 then [cp as char]
    else if cp < 0x800 then [(0xC0 + cp / 64) as char, Tail(cp)]
    else if cp < 0x1_0000 then [(0xE0 + cp / 0x1000) as char, Tail(cp / 64), Tail(cp)]
    else [(0xF0 + cp / 0x4_0000) as char, Tail(cp / 0x1000), Tail(cp / 64), Tail(cp)]
  }

  predicate Scalars(cps: seq<nat>) { forall i :: 0 <= i < |cps| ==> Scalar(cps[i]) }

  function EncodedAll(cps: seq<nat>): string
    requires Scalars(cps)
  {
    if cps == [] then "" else Encoded(cps[0]) + EncodedAll(cps[1..])
  }

  // ------------------------------------------------------------- the byte check

  datatype Lead = BadLead | Lead(count: nat, bits: nat, minimum: nat)

  /** What a byte that is not ASCII announces. */
  function LeadOf(lead: nat): Lead {
    if lead / 32 == 6 then Lead(1, lead % 32, 0x80)
    else if lead / 16 == 14 then Lead(2, lead % 16, 0x800)
    else if lead / 8 == 30 then Lead(3, lead % 8, 0x1_0000)
    else BadLead
  }

  datatype Gathered = BadTail | Gathered(cp: nat)

  /** The continuation bytes shifted in, six bits each. */
  function Gather(s: string, from: nat, count: nat, cp: nat): Gathered
    requires from + count <= |s|
    decreases count
  {
    if count == 0 then Gathered(cp)
    else if Byte(s, from) / 64 != 2 then BadTail
    else Gather(s, from + 1, count - 1, cp * 64 + Byte(s, from) % 64)
  }

  /** Length of the encoding at the front, or zero if there is none. */
  function Step(s: string): (n: nat)
    requires s != ""
    ensures n <= |s|
  {
    var lead := Byte(s, 0);
    if lead < 0x80 then 1
    else
      match LeadOf(lead)
      case BadLead => 0
      case Lead(count, bits, minimum) =>
        if 1 + count > |s| then 0
        else
          match Gather(s, 1, count, bits)
          case BadTail => 0
          case Gathered(cp) =>
            if cp < minimum || cp > 0x10FFFF || 0xD800 <= cp <= 0xDFFF then 0 else 1 + count
  }

  predicate Valid(s: string)
    decreases |s|
  {
    s == "" || (Step(s) > 0 && Valid(s[Step(s)..]))
  }

  method ReadTail(input: string, from: nat, count: nat, bits: nat) returns (r: Gathered)
    requires from + count <= |input|
    ensures r == Gather(input, from, count, bits)
  {
    var cp: nat, index := bits, from;
    while index < from + count
      invariant from <= index <= from + count
      invariant Gather(input, from, count, bits) == Gather(input, index, from + count - index, cp)
    {
      var continuation := input[index] as int;
      if continuation / 64 != 2 { return BadTail; }
      cp := cp * 64 + continuation % 64;
      index := index + 1;
    }
    r := Gathered(cp);
  }

  lemma {:induction false} GatherSuffix(s: string, start: nat, from: nat, count: nat, cp: nat)
    requires start + from + count <= |s|
    ensures Gather(s[start..], from, count, cp) == Gather(s, start + from, count, cp)
    decreases count
  {
    if count > 0 && Byte(s, start + from) / 64 == 2 {
      GatherSuffix(s, start, from + 1, count - 1, cp * 64 + Byte(s, start + from) % 64);
    }
  }

  method IsValidUtf8(input: string) returns (ok: bool)
    ensures ok == Valid(input)
  {
    hide Gather, LeadOf, Scalar;
    var index := 0;
    assert input[0..] == input;
    while index < |input|
      invariant index <= |input| && (Valid(input) <==> Valid(input[index..]))
      decreases |input| - index
    {
      ghost var start := index;
      ghost var rest := input[start..];
      var lead := input[index] as int;
      index := index + 1;
      if lead >= 0x80 {
        var announced := LeadOf(lead);
        if announced.BadLead? { return false; }
        if index + announced.count > |input| { return false; }
        var gathered := ReadTail(input, index, announced.count, announced.bits);
        GatherSuffix(input, start, 1, announced.count, announced.bits);
        if gathered.BadTail? || gathered.cp < announced.minimum || gathered.cp > 0x10FFFF
           || 0xD800 <= gathered.cp <= 0xDFFF {
          return false;
        }
        index := index + announced.count;
      }
      assert Step(rest) == index - start;
      assert rest[index - start..] == input[index..];
    }
    ok := true;
  }

  // -------------------------------------------------------------- what it accepts

  /** The three shapes of a leading byte, both ways. */
  lemma LeadIs(lead: nat)
    ensures var a := LeadOf(lead);
            && (a.Lead? ==> 1 <= a.count <= 3)
            && (a.Lead? && a.count == 1 ==> lead == 0xC0 + a.bits && a.bits < 32 && a.minimum == 0x80)
            && (a.Lead? && a.count == 2 ==> lead == 0xE0 + a.bits && a.bits < 16 && a.minimum == 0x800)
            && (a.Lead? && a.count == 3 ==> lead == 0xF0 + a.bits && a.bits < 8 && a.minimum == 0x1_0000)
            && (0xC0 <= lead < 0xE0 ==> a == Lead(1, lead - 0xC0, 0x80))
            && (0xE0 <= lead < 0xF0 ==> a == Lead(2, lead - 0xE0, 0x800))
            && (0xF0 <= lead < 0xF8 ==> a == Lead(3, lead - 0xF0, 0x1_0000))
  {
  }

  lemma StepOfEncoded(cp: nat, rest: string)
    requires Scalar(cp)
    ensures Step(Encoded(cp) + rest) == |Encoded(cp)|
  {
    hide LeadOf, Gather, Tail;
    var s := Encoded(cp) + rest;
    LeadIs(Byte(s, 0));
    if cp < 0x80 {
    } else if cp < 0x800 {
      Gather1(s, cp / 64, cp);
    } else if cp < 0x1_0000 {
      Gather2(s, cp / 0x1000, cp);
    } else {
      Gather3(s, cp / 0x4_0000, cp);
    }
  }

  lemma Gather1(s: string, bits: nat, cp: nat)
    requires |s| >= 2 && s[1] == Tail(cp) && bits == cp / 64 && cp <= 0x10FFFF
    ensures Gather(s, 1, 1, bits) == Gathered(cp)
  {
    assert Gather(s, 2, 0, cp) == Gathered(cp);
  }

  lemma Gather2(s: string, bits: nat, cp: nat)
    requires |s| >= 3 && s[1] == Tail(cp / 64) && s[2] == Tail(cp) && bits == cp / 0x1000 && cp <= 0x10FFFF
    ensures Gather(s, 1, 2, bits) == Gathered(cp)
  {
    assert cp / 64 / 64 == cp / 0x1000;
    assert Gather(s, 3, 0, cp) == Gathered(cp);
    assert Gather(s, 2, 1, cp / 64) == Gathered(cp);
  }

  lemma Gather3(s: string, bits: nat, cp: nat)
    requires |s| >= 4 && s[1] == Tail(cp / 0x1000) && s[2] == Tail(cp / 64) && s[3] == Tail(cp) && bits == cp / 0x4_0000
    requires cp <= 0x10FFFF
    ensures Gather(s, 1, 3, bits) == Gathered(cp)
  {
    assert cp / 64 / 64 == cp / 0x1000 && cp / 0x1000 / 64 == cp / 0x4_0000;
    assert Gather(s, 4, 0, cp) == Gathered(cp);
    assert Gather(s, 3, 1, cp / 64) == Gathered(cp);
    assert Gather(s, 2, 2, cp / 0x1000) == Gathered(cp);
  }

  /** Every step of the check is over the encoding of one scalar value. */
  lemma EncodedAtStep(s: string) returns (cp: nat)
    requires s != "" && Bytes(s) && Step(s) > 0
    ensures Scalar(cp) && s[..Step(s)] == Encoded(cp)
  {
    hide LeadOf, Gather, Tail;
    var lead := Byte(s, 0);
    assert s[0] in s;
    LeadIs(lead);
    if lead < 0x80 {
      cp := lead;
    } else {
      var announced := LeadOf(lead);
      var n := announced.count;
      cp := Gather(s, 1, n, announced.bits).cp;
      if n == 1 {
        Tail1(s, announced.bits, cp);
      } else if n == 2 {
        Tail2(s, announced.bits, cp);
      } else {
        Tail3(s, announced.bits, cp);
      }
    }
  }

  lemma Tail1(s: string, bits: nat, cp: nat)
    requires |s| >= 2 && Gather(s, 1, 1, bits) == Gathered(cp)
    ensures s[1] == Tail(cp) && cp / 64 == bits
  {
    assert Gather(s, 2, 0, bits * 64 + Byte(s, 1) % 64) == Gathered(cp);
  }

  lemma Tail2(s: string, bits: nat, cp: nat)
    requires |s| >= 3 && Gather(s, 1, 2, bits) == Gathered(cp)
    ensures s[1] == Tail(cp / 64) && s[2] == Tail(cp) && cp / 0x1000 == bits
  {
    var first := bits * 64 + Byte(s, 1) % 64;
    assert Gather(s, 2, 1, first) == Gathered(cp);
    assert Gather(s, 3, 0, first * 64 + Byte(s, 2) % 64) == Gathered(cp);
    assert cp / 64 / 64 == cp / 0x1000;
  }

  lemma Tail3(s: string, bits: nat, cp: nat)
    requires |s| >= 4 && Gather(s, 1, 3, bits) == Gathered(cp)
    ensures s[1] == Tail(cp / 0x1000) && s[2] == Tail(cp / 64) && s[3] == Tail(cp) && cp / 0x4_0000 == bits
  {
    var first := bits * 64 + Byte(s, 1) % 64;
    var second := first * 64 + Byte(s, 2) % 64;
    assert Gather(s, 2, 2, first) == Gathered(cp);
    assert Gather(s, 3, 1, second) == Gathered(cp);
    assert Gather(s, 4, 0, second * 64 + Byte(s, 3) % 64) == Gathered(cp);
    assert cp / 64 == second && second / 64 == first && first / 64 == bits;
    assert cp / 64 / 64 == cp / 0x1000 && cp / 0x1000 / 64 == cp / 0x4_0000;
  }

  /** The check accepts exactly the concatenations of encodings of scalar values. */
  lemma {:induction false} ValidIsEncoded(s: string) returns (cps: seq<nat>)
    requires Bytes(s) && Valid(s)
    ensures Scalars(cps) && s == EncodedAll(cps)
    decreases |s|
  {
    hide Step, Encoded, Scalar;
    cps := [];
    if s != "" {
      var cp := EncodedAtStep(s);
      var n := Step(s);
      assert forall c :: c in s[n..] ==> c in s;
      var rest := ValidIsEncoded(s[n..]);
      cps := [cp] + rest;
      assert cps[1..] == rest;
      assert s == s[..n] + s[n..];
    }
  }

  lemma {:induction false} EncodedIsValid(cps: seq<nat>)
    requires Scalars(cps)
    ensures Valid(EncodedAll(cps))
  {
    if cps != [] {
      hide Step, Encoded, Scalar;
      EncodedIsValid(cps[1..]);
      EncodedThenValid(cps[0], EncodedAll(cps[1..]));
    }
  }

  lemma EncodedThenValid(cp: nat, rest: string)
    requires Scalar(cp) && Valid(rest)
    ensures Valid(Encoded(cp) + rest)
  {
    StepOfEncoded(cp, rest);
    var s := Encoded(cp) + rest;
    assert |Encoded(cp)| > 0;
    hide Encoded, Step;
    assert s[|Encoded(cp)|..] == rest;
  }
}
