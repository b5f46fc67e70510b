/** Sticky bits: a word whose lowest bit also stands for everything that was cut off below it
    rounds as the exact value does. */
module FloatSticky {
  import opened Bits
  import opened Scaling
  import opened FloatValue
  import opened FloatFormats

  /** Right shift with every bit shifted out ORed into the lowest bit that stays. */
  function Jammed(value: nat, amount: nat): nat {
    var kept := Shifted(value, amount);
    if Dropped(value, amount) != 0 && kept % 2 == 0 then kept + 1 else kept
  }

  /** Against every even number of the jammed word's units, the jammed word compares as the
      exact number does, and it never hits one when something was jammed. */
  lemma JamCompares(x: nat, d: nat, c: int)
    requires c % 2 == 0
    ensures x < Scale(c, d) <==> Jammed(x, d) < c
    ensures x > Scale(c, d) <==> Jammed(x, d) > c
  {
    hide Scale, Shifted, Dropped, Pow2;
    SplitAt(x, d);
    var kept, low := Shifted(x, d), Dropped(x, d);
    ScaleOrder(c, kept, d);
    ScaleOrder(kept + 1, c, d);
    ScaleAdds(kept, 1, d);
    ScaleOne(d);
  }

  /** An even number of units and a jammed one may be added or subtracted as if nothing had
      been jammed yet. */
  lemma JamSum(even: nat, x: nat, d: nat)
    requires even % 2 == 0
    ensures Scale(even, d) + x >= 0 && Jammed(Scale(even, d) + x, d) == even + Jammed(x, d)
  {
    hide Scale, Shifted, Dropped, Pow2;
    SplitAt(x, d);
    ScaleZero(d);
    ScaleOrder(0, even, d);
    ScaleAdds(even, Shifted(x, d), d);
    SplitUnique(Scale(even, d) + x, d, even + Shifted(x, d), Dropped(x, d));
  }

  lemma JamDifference(even: nat, x: nat, d: nat)
    requires even % 2 == 0 && x <= Scale(even, d)
    ensures Jammed(x, d) <= even && Jammed(Scale(even, d) - x, d) == even - Jammed(x, d)
  {
    hide Scale, Shifted, Dropped, Pow2;
    var kept, low := Shifted(x, d), Dropped(x, d);
    DifferenceSplits(even, x, d);
    if low == 0 {
      SplitUnique(Scale(even, d) - x, d, even - kept, 0);
    } else {
      SplitUnique(Scale(even, d) - x, d, even - kept - 1, Pow2(d) - low);
    }
  }

  lemma DifferenceSplits(even: nat, x: nat, d: nat)
    requires x <= Scale(even, d)
    ensures var kept, low, y := Shifted(x, d), Dropped(x, d), Scale(even, d) - x;
            && low < Pow2(d) && kept <= even
            && (low == 0 ==> y == Scale(even - kept, d))
            && (low > 0 ==> kept < even && y == Scale(even - kept - 1, d) + Pow2(d) - low)
  {
    hide Scale, Shifted, Dropped, Pow2;
    SplitAt(x, d);
    var kept := Shifted(x, d);
    ScaleOrder(kept, even, d);
    ScaleAdds(even, kept, d);
    ScaleAdds(even - kept, 1, d);
    ScaleOne(d);
  }

  // ------------------------------------------------------------ rounding what was jammed

  lemma JammedZero(x: nat, d: nat)
    ensures Jammed(x, d) == 0 <==> x == 0
  {
    hide Scale, Shifted, Dropped, Pow2;
    SplitAt(x, d);
    ScaleZero(d);
    if x == 0 { SplitUnique(0, d, 0, 0); }
  }

  /** The word `y` at scale `high` compares with every even number of its own units as x does. */
  ghost predicate Tracks(x: Exact, y: nat, high: nat) {
    forall k: int {:trigger Scale(k, high)} | k % 2 == 0 ::
      (Less(2 * Scale(k, high), x) <==> k < y) && (Same(2 * Scale(k, high), x) <==> k == y)
  }

  lemma JamTracks(x: nat, d: nat, low: nat)
    ensures Scale(x, low) >= 0 && Tracks(Whole(Scale(x, low)), Jammed(x, d), low + d)
  {
    hide Scale, Jammed, Pow2;
    ScaleZero(low);
    ScaleOrder(0, x, low);
    forall k: int {:trigger Scale(k, low + d)} | k % 2 == 0
      ensures Less(2 * Scale(k, low + d), Whole(Scale(x, low))) <==> k < Jammed(x, d)
      ensures Same(2 * Scale(k, low + d), Whole(Scale(x, low))) <==> k == Jammed(x, d)
    {
      JamCompares(x, d, k);
      ScaleScale(k, d, low);
      ScaleOrder(Scale(k, d), x, low);
      ScaleOrder(x, Scale(k, d), low);
    }
  }

  /** c units at scale `place`, seen from a scale below it. */
  lemma Rescaled(c: int, place: nat, high: nat)
    requires high < place
    ensures Scale(c, place - high) % 2 == 0
    ensures Scale(Scale(c, place - high), high) == Scale(c, place)
  {
    hide Scale, Pow2;
    ScaleScale(c, place - high, high);
    ScaleNext(c, place - high - 1);
  }

  /** The exact value and the word that tracks it stand on the same side of c * 2^place. */
  lemma SameSide(x: Exact, y: nat, high: nat, c: int, place: nat)
    requires Tracks(x, y, high) && high < place
    ensures Scale(y, high) >= 0
    ensures Less(2 * Scale(c, place), x) <==> Less(2 * Scale(c, place), Whole(Scale(y, high)))
    ensures Same(2 * Scale(c, place), x) <==> Same(2 * Scale(c, place), Whole(Scale(y, high)))
  {
    hide Scale, Pow2;
    ScaleZero(high);
    ScaleOrder(0, y, high);
    Rescaled(c, place, high);
    var k := Scale(c, place - high);
    ScaleOrder(k, y, high);
  }

  lemma TrackedBinade(f: Format, x: Exact, y: nat, high: nat, e: nat)
    requires Supported(f) && Tracks(x, y, high) && high < Base(f) + e
    requires Scale(y, high) >= 0 && InBinade(f, Whole(Scale(y, high)), e)
    ensures InBinade(f, x, e)
  {
    hide Scale, Pow2, Base, Tracks, Less, Same;
    SameSide(x, y, high, Pow2(f.precision + 1), Base(f) + e);
    SameSide(x, y, high, Pow2(f.precision), Base(f) + e);
  }

  lemma TrackedHalfAway(f: Format, x: Exact, y: nat, high: nat, e: nat, t: nat)
    requires Supported(f) && Tracks(x, y, high) && high + 1 < Base(f) + e
    requires Scale(y, high) >= 0 && HalfAway(f, Whole(Scale(y, high)), e, t)
    ensures HalfAway(f, x, e, t)
  {
    hide Scale, Pow2, Base, Tracks, Less, Same;
    var place := Base(f) + e;
    var u: int := t;
    SameSide(x, y, high, 2 * u - 1, place - 1);
    SameSide(x, y, high, 2 * u + 1, place - 1);
    ScaleNext(2 * u - 1, place - 1);
    ScaleNext(2 * u + 1, place - 1);
  }

  /** Rounding a word that tracks an exact value is rounding the value, provided the rounding
      drops two or more bits: a sticky bit is then as good as everything it stands for. */
  lemma TrackRounds(f: Format, x: Exact, y: nat, high: nat)
    requires Supported(f) && Proper(x) && Tracks(x, y, high) && y >= Pow2(f.precision + 2)
    ensures var n := RoundedWord(f, y, high);
            Nearest(f, x, n) && (Same(2 * Value(f, n), x) <==> Value(f, n) == Scale(y, high))
  {
    hide Scale, Pow2, Base, Value, Nearest, Binade, Quanta, InBinade, HalfAway, Tracks, Less;
    var e, t := Binade(f, y, high), Quanta(f, y, high);
    PlaceAbove(f, y, high, f.precision + 2);
    InItsBinade(f, y, high);
    QuantaRange(f, y, high);
    QuantaHalfAway(f, y, high);
    TrackedBinade(f, x, y, high, e);
    TrackedHalfAway(f, x, y, high, e, t);
    RoundingIsNearest(f, x, e, t);
    ValueOfQuanta(f, e, t);
    SameSide(x, y, high, t, Base(f) + e);
    hide Same;
    SameWhole(Value(f, RoundedWord(f, y, high)), Scale(y, high));
  }

  lemma SameWhole(v: int, w: nat)
    ensures Same(2 * v, Whole(w)) <==> v == w
  {
  }

  /** Jamming discarded bits into the lowest bit never changes a later rounding. */
  lemma JamRounds(f: Format, x: nat, d: nat, low: nat)
    requires Supported(f) && x > 0
    requires Dropped(x, d) != 0 ==> Jammed(x, d) >= Pow2(f.precision + 2)
    ensures Scale(x, low) >= 0
    ensures var n := RoundedWord(f, Jammed(x, d), low + d);
            && Nearest(f, Whole(Scale(x, low)), n)
            && (Value(f, n) == Scale(x, low) <==> Value(f, n) == Scale(Jammed(x, d), low + d))
  {
    hide Scale, Pow2, Jammed, Shifted, Dropped, Value, Nearest, RoundedWord, Tracks, Same;
    var y, high := Jammed(x, d), low + d;
    JamTracks(x, d, low);
    if Dropped(x, d) == 0 {
      RoundedIsNearest(f, y, high);
      JammedExact(x, d);
      ScaleScale(y, d, low);
    } else {
      TrackRounds(f, Whole(Scale(x, low)), y, high);
      SameWhole(Value(f, RoundedWord(f, y, high)), Scale(x, low));
    }
  }

  lemma JammedExact(x: nat, d: nat)
    requires Dropped(x, d) == 0
    ensures Scale(Jammed(x, d), d) == x
  {
    hide Scale, Shifted, Dropped, Pow2;
    SplitAt(x, d);
  }

  lemma PlaceAbove(f: Format, y: nat, high: nat, k: nat)
    requires Supported(f) && k >= f.precision && y >= Pow2(k)
    ensures Base(f) + Binade(f, y, high) >= high + k - f.precision
  {
    hide Pow2, Leading;
    if Leading(y) < k { Pow2Grows(Leading(y) + 1, k); }
    LeadingRange(f, y, high);
  }
}
