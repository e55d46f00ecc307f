/** Which baselines keep a cohort spaced from its last publication, whatever is reported next: the rule compares
    with the baseline, readers compare with the last row. */
module PrivacyExact {
  import opened Statistics
  import opened Privacy

  /** The counts an unforced row is published with. */
  function Rolled(base: Counts, reported: Counts, minimum: int): Counts {
    if base.valid >= minimum && Unsafe(base, reported, minimum) then base else reported
  }

  predicate SameBuckets(p: Counts, c: Counts) {
    && p.numericFail == c.numericFail && p.score60 == c.score60 && p.score70 == c.score70
    && p.score80 == c.score80 && p.score90 == c.score90 && p.excellent == c.excellent
    && p.good == c.good && p.medium == c.medium && p.levelPass == c.levelPass && p.levelFail == c.levelFail
  }

  predicate SameCounts(p: Counts, c: Counts) {
    SameBuckets(p, c) && p.valid == c.valid && p.pass == c.pass && p.fail == c.fail && p.numeric == c.numeric
  }

  /** The baseline tells no less than the last row: every count is the same, and so is the score sum of a
      large numeric group.  A minimum of one lets counts move freely, so only that group is compared. */
  predicate Alike(last: Counts, base: Counts, minimum: int) {
    && (minimum >= 2 ==> SameCounts(last, base))
    && (last.numeric >= minimum ==>
        base.valid >= minimum && base.numeric == last.numeric && base.sumX100 == last.sumX100)
  }

  // ------------------------------------------------------- alike is enough

  lemma SpacedTransfers(last: Counts, base: Counts, reported: Counts, minimum: int)
    requires minimum >= 2 && Alike(last, base, minimum) && Spaced(base, reported, minimum)
    ensures Spaced(last, reported, minimum)
  {}

  lemma AlikeIsSpaced(last: Counts, base: Counts, minimum: int)
    requires minimum >= 1 && Alike(last, base, minimum)
    ensures Spaced(last, base, minimum)
  {}

  /** With a minimum of one only the score sum of the same numeric count can give anything away. */
  lemma AlikeSpacesOne(last: Counts, base: Counts, reported: Counts)
    requires Alike(last, base, 1) && (base.valid >= 1 ==> Spaced(base, reported, 1))
    ensures Spaced(last, reported, 1)
  {
    assert CountsStep(last, reported, 1);
  }

  lemma AlikeSpaces(last: Counts, base: Counts, reported: Counts, minimum: int)
    requires minimum >= 1 && last.valid >= minimum && Alike(last, base, minimum)
    ensures Spaced(last, Rolled(base, reported, minimum), minimum)
  {
    UnsafeExactlyWhenNotSpaced(base, reported, minimum);
    if base.valid >= minimum && Unsafe(base, reported, minimum) { AlikeIsSpaced(last, base, minimum); }
    else if minimum == 1 { AlikeSpacesOne(last, base, reported); }
    else { SpacedTransfers(last, base, reported, minimum); }
  }

  // ---------------------------------------------------- and it is necessary

  /** One more than `a`, on the side that leads away from `b`. */
  function Past(a: int, b: int): int { if a > b then a + 1 else a - 1 }

  lemma PastSteps(a: int, b: int, minimum: int)
    requires minimum >= 2 && a != b && Steps(a, b, minimum)
    ensures Steps(b, Past(a, b), minimum) && !Steps(a, Past(a, b), minimum)
    ensures Abs(Past(a, b) - b) > minimum
  {}

  /** The first bucket that differs, moved one past the last row's. */
  function BucketPast(last: Counts, base: Counts): Counts {
    if last.numericFail != base.numericFail then base.(numericFail := Past(last.numericFail, base.numericFail))
    else if last.score60 != base.score60 then base.(score60 := Past(last.score60, base.score60))
    else if last.score70 != base.score70 then base.(score70 := Past(last.score70, base.score70))
    else if last.score80 != base.score80 then base.(score80 := Past(last.score80, base.score80))
    else if last.score90 != base.score90 then base.(score90 := Past(last.score90, base.score90))
    else if last.excellent != base.excellent then base.(excellent := Past(last.excellent, base.excellent))
    else if last.good != base.good then base.(good := Past(last.good, base.good))
    else if last.medium != base.medium then base.(medium := Past(last.medium, base.medium))
    else if last.levelPass != base.levelPass then base.(levelPass := Past(last.levelPass, base.levelPass))
    else base.(levelFail := Past(last.levelFail, base.levelFail))
  }

  lemma BucketPastBreaks(last: Counts, base: Counts, minimum: int)
    requires minimum >= 2 && Spaced(last, base, minimum) && !SameBuckets(last, base)
    ensures Spaced(base, BucketPast(last, base), minimum) && !Spaced(last, BucketPast(last, base), minimum)
    ensures ValidCounts(base) ==> ValidCounts(BucketPast(last, base))
  {
    if last.numericFail != base.numericFail { PastSteps(last.numericFail, base.numericFail, minimum); }
    else if last.score60 != base.score60 { PastSteps(last.score60, base.score60, minimum); }
    else if last.score70 != base.score70 { PastSteps(last.score70, base.score70, minimum); }
    else if last.score80 != base.score80 { PastSteps(last.score80, base.score80, minimum); }
    else if last.score90 != base.score90 { PastSteps(last.score90, base.score90, minimum); }
    else if last.excellent != base.excellent { PastSteps(last.excellent, base.excellent, minimum); }
    else if last.good != base.good { PastSteps(last.good, base.good, minimum); }
    else if last.medium != base.medium { PastSteps(last.medium, base.medium, minimum); }
    else if last.levelPass != base.levelPass { PastSteps(last.levelPass, base.levelPass, minimum); }
    else { PastSteps(last.levelFail, base.levelFail, minimum); }
  }

  /** More grades on one side or both, the numeric ones among them as given. */
  function Grown(base: Counts, pass: int, fail: int, numeric: int): Counts {
    base.(valid := base.valid + pass + fail, pass := base.pass + pass, fail := base.fail + fail,
          numeric := base.numeric + numeric)
  }

  /** The first total that differs, moved one past the last row's; the other totals grow with it. */
  function TotalPast(last: Counts, base: Counts, minimum: int): Counts {
    var pass, fail := Past(last.pass, base.pass) - base.pass, Past(last.fail, base.fail) - base.fail;
    if last.pass != base.pass then Grown(base, pass, minimum + Abs(pass), 0)
    else if last.fail != base.fail then Grown(base, minimum + Abs(fail), fail, 0)
    else if last.valid != base.valid then base.(valid := Past(last.valid, base.valid))
    else if last.numeric > base.numeric then
      var more := last.numeric + 1 - base.numeric; Grown(base, more, 0, more)
    else Grown(base, base.numeric - last.numeric + 1, 0, 0)
  }

  lemma TotalPastBreaks(last: Counts, base: Counts, minimum: int)
    requires minimum >= 2 && Spaced(last, base, minimum) && SameBuckets(last, base) && !SameCounts(last, base)
    ensures Spaced(base, TotalPast(last, base, minimum), minimum)
    ensures !Spaced(last, TotalPast(last, base, minimum), minimum)
    ensures ValidCounts(last) && ValidCounts(base) ==> ValidCounts(TotalPast(last, base, minimum))
  {
    if last.pass != base.pass { PastSteps(last.pass, base.pass, minimum); }
    else if last.fail != base.fail { PastSteps(last.fail, base.fail, minimum); }
    else if last.valid != base.valid { PastSteps(last.valid, base.valid, minimum); }
  }

  /** Counts a next snapshot can report so that what is published is not spaced from the last row. */
  function Breaking(last: Counts, base: Counts, minimum: int): Counts {
    if minimum >= 2 then
      if base.valid < minimum then last.(levelFail := last.levelFail + 1)
      else if !Spaced(last, base, minimum) then base
      else if !SameBuckets(last, base) then BucketPast(last, base)
      else TotalPast(last, base, minimum)
    else if base.valid >= minimum && base.numeric == last.numeric then base
    else last.(sumX100 := if last.sumX100 == 0 then 1 else last.sumX100 - 1)
  }

  /** A small baseline rolls nothing back. */
  lemma SmallBaselineBreaks(last: Counts, base: Counts, minimum: int)
    requires minimum >= 2 && last.valid >= minimum && base.valid < minimum
    ensures !Spaced(last, Rolled(base, Breaking(last, base, minimum), minimum), minimum)
    ensures ValidCounts(last) ==> ValidCounts(Breaking(last, base, minimum))
  {
    assert !Steps(last.levelFail, last.levelFail + 1, minimum);
  }

  lemma LargeBaselineBreaks(last: Counts, base: Counts, minimum: int)
    requires minimum >= 2 && base.valid >= minimum && !Alike(last, base, minimum)
    ensures Spaced(base, Breaking(last, base, minimum), minimum)
    ensures !Spaced(last, Breaking(last, base, minimum), minimum)
    ensures ValidCounts(last) && ValidCounts(base) ==> ValidCounts(Breaking(last, base, minimum))
  {
    if Spaced(last, base, minimum) {
      if SameBuckets(last, base) {
        TotalPastBreaks(last, base, minimum);
      } else {
        BucketPastBreaks(last, base, minimum);
      }
    }
  }

  lemma MinimumOneBreaks(last: Counts, base: Counts)
    requires last.valid >= 1 && !Alike(last, base, 1)
    ensures base.valid >= 1 ==> Spaced(base, Breaking(last, base, 1), 1)
    ensures !Spaced(last, Breaking(last, base, 1), 1)
    ensures ValidCounts(last) && ValidCounts(base) ==> ValidCounts(Breaking(last, base, 1))
  {}

  lemma BreakingBreaks(last: Counts, base: Counts, minimum: int)
    requires minimum >= 1 && last.valid >= minimum && !Alike(last, base, minimum)
    ensures !Spaced(last, Rolled(base, Breaking(last, base, minimum), minimum), minimum)
    ensures ValidCounts(last) && ValidCounts(base) ==> ValidCounts(Breaking(last, base, minimum))
  {
    UnsafeExactlyWhenNotSpaced(base, Breaking(last, base, minimum), minimum);
    if minimum == 1 { MinimumOneBreaks(last, base); }
    else if base.valid < minimum { SmallBaselineBreaks(last, base, minimum); }
    else { LargeBaselineBreaks(last, base, minimum); }
  }

  /** Whatever is reported next, the published counts are spaced from the last row's: this holds exactly when the
      baseline is alike, and it makes no difference whether only valid counts are ever reported. */
  lemma SpacedExactlyWhenAlike(last: Counts, base: Counts, minimum: int)
    requires minimum >= 1 && last.valid >= minimum
    ensures (forall reported :: Spaced(last, Rolled(base, reported, minimum), minimum)) <==> Alike(last, base, minimum)
    ensures ValidCounts(last) && ValidCounts(base) ==>
              ((forall reported :: ValidCounts(reported) ==> Spaced(last, Rolled(base, reported, minimum), minimum))
               <==> Alike(last, base, minimum))
  {
    if Alike(last, base, minimum) {
      forall reported ensures Spaced(last, Rolled(base, reported, minimum), minimum) {
        AlikeSpaces(last, base, reported, minimum);
      }
    } else {
      BreakingBreaks(last, base, minimum);
    }
  }
}
