/** What the sums of a group mean: every column counts the grades its name says, read off the score text or the
    stored score, and the score sum is the sum of the scores up to rounding. */
module SourceBuckets {
  import opened Wrappers
  import opened Statistics
  import opened SourceTerms
  import opened SourceAggregate

  datatype Column =
    | Valid | Pass | Fail | Numeric
    | NumericFail | Score60 | Score70 | Score80 | Score90
    | Excellent | Good | Medium | LevelPass | LevelFail

  function Field(c: Counts, column: Column): int {
    match column
    case Valid => c.valid case Pass => c.pass case Fail => c.fail case Numeric => c.numeric
    case NumericFail => c.numericFail case Score60 => c.score60 case Score70 => c.score70
    case Score80 => c.score80 case Score90 => c.score90
    case Excellent => c.excellent case Good => c.good case Medium => c.medium
    case LevelPass => c.levelPass case LevelFail => c.levelFail
  }

  /** The grade's score lies in `[low, high)`. */
  predicate Scored(g: Grade, low: real, high: real) {
    NumericScore(g).Some? && low <= NumericScore(g).value < high
  }

  predicate Labelled(g: Grade, labels: seq<string>) { NumericScore(g).None? && g.scoreText in labels }

  predicate Fails(g: Grade) { Scored(g, 0.0, 60.0) || Labelled(g, ["不及格", "不合格", "未通过"]) }

  /** A score of 60 or more, or a passing label. */
  predicate Passes(g: Grade) {
    || (NumericScore(g).Some? && NumericScore(g).value >= 60.0)
    || Labelled(g, ["优秀", "优", "良好", "良", "中等", "中", "及格", "合格", "通过", "免修", "已批准免修"])
  }

  /** The grades a column counts. */
  predicate Falls(g: Grade, column: Column) {
    match column
    case Valid => Passes(g) || Fails(g)
    case Pass => Passes(g)
    case Fail => Fails(g)
    case Numeric => NumericScore(g).Some?
    case NumericFail => Scored(g, 0.0, 60.0)
    case Score60 => Scored(g, 60.0, 70.0)
    case Score70 => Scored(g, 70.0, 80.0)
    case Score80 => Scored(g, 80.0, 90.0)
    case Score90 => NumericScore(g).Some? && 90.0 <= NumericScore(g).value <= 100.0
    case Excellent => Labelled(g, ["优秀", "优"])
    case Good => Labelled(g, ["良好", "良"])
    case Medium => Labelled(g, ["中等", "中"])
    case LevelPass => Labelled(g, ["及格", "合格", "通过", "免修", "已批准免修"])
    case LevelFail => Labelled(g, ["不及格", "不合格", "未通过"])
  }

  /** The grades that belong to a row: of its term and course, and for an instructor row, taught by that one
      teacher in a known class. */
  predicate Belongs(g: Grade, k: Group) {
    && g.termId == k.termId && g.termCode == k.termCode && g.courseCode == k.courseCode
    && match k.dimension
       case CourseDimension => k.teacherName == ""
       case InstructorDimension =>
         && g.teacherName == k.teacherName != "" && g.selectionId != ""
         && forall i :: 0 <= i < |g.teacherName| ==> g.teacherName[i] !in ",，、;；/"
       case OtherDimension(_) => false
  }

  /** The grades of a row that a column counts. */
  function Count(grades: seq<Grade>, k: Group, column: Column): nat {
    if grades == [] then 0
    else
      var g := grades[|grades| - 1];
      Count(grades[..|grades| - 1], k, column) + (if Belongs(g, k) && Falls(g, column) then 1 else 0)
  }

  lemma InGroupExactly(g: Grade, k: Group)
    ensures InGroup(g, k) <==> Belongs(g, k) && Falls(g, Valid)
  {
    ClassifiedExactly(g);
    SeparatorsExactly(g.teacherName);
  }

  lemma SeparatorsExactly(name: string)
    ensures HasSeparator(name) <==> !forall i :: 0 <= i < |name| ==> name[i] !in ",，、;；/"
  {
    forall c: char ensures c in [',', '，', '、', ';', '；', '/'] <==> c in ",，、;；/" { Separators(c); }
  }

  lemma Separators(c: char)
    ensures c in [',', '，', '、', ';', '；', '/'] <==> c in ",，、;；/"
  {
    assert ",，、;；/" == [',', '，', '、', ';', '；', '/'];
  }

  lemma ScoreInRange(g: Grade)
    ensures NumericScore(g).Some? ==> 0.0 <= NumericScore(g).value <= 100.0
  {}

  lemma ClassifiedExactly(g: Grade)
    ensures Passed(g) == Some(true) <==> Passes(g)
    ensures Passed(g) == Some(false) <==> Fails(g)
  {
    ScoreInRange(g);
    LabelsAre(g.scoreText);
  }

  lemma LabelsAre(t: string)
    ensures t in PASSING
            <==> t in ["优秀", "优", "良好", "良", "中等", "中", "及格", "合格", "通过", "免修", "已批准免修"]
    ensures t in LEVEL_FAIL <==> t in ["不及格", "不合格", "未通过"]
    ensures t in EXCELLENT <==> t in ["优秀", "优"]
    ensures t in GOOD <==> t in ["良好", "良"]
    ensures t in MEDIUM <==> t in ["中等", "中"]
    ensures t in LEVEL_PASS <==> t in ["及格", "合格", "通过", "免修", "已批准免修"]
    ensures t in PASSING ==> t !in LEVEL_FAIL
  {
    LevelsAreDisjoint(t);
  }

  lemma ScoreCounts(x: real, column: Column)
    requires 0.0 <= x <= 100.0
    ensures Field(NumericCounts(x), column)
            == match column
               case Valid => 1 case Numeric => 1
               case Pass => One(60.0 <= x) case Fail => One(x < 60.0) case NumericFail => One(x < 60.0)
               case Score60 => One(60.0 <= x < 70.0) case Score70 => One(70.0 <= x < 80.0)
               case Score80 => One(80.0 <= x < 90.0) case Score90 => One(90.0 <= x)
               case _ => 0
  {}

  lemma NumericGradeCounts(g: Grade, column: Column)
    requires NumericScore(g).Some?
    ensures Field(Contribution(g), column) == if Falls(g, column) then 1 else 0
  {
    ScoreInRange(g);
    ScoreCounts(NumericScore(g).value, column);
  }

  /** What is known of the label of a grade without a score. */
  datatype Label = Label(passing: bool, failing: bool, excellent: bool, good: bool, medium: bool, pass: bool)

  function LabelOf(t: string): Label {
    Label(t in PASSING, t in LEVEL_FAIL, t in EXCELLENT, t in GOOD, t in MEDIUM, t in LEVEL_PASS)
  }

  /** The columns such a grade is counted in. */
  predicate LabelFalls(l: Label, column: Column) {
    match column
    case Valid => true
    case Pass => l.passing case Fail => !l.passing && l.failing
    case Excellent => l.excellent case Good => l.good case Medium => l.medium
    case LevelPass => l.pass case LevelFail => l.failing
    case _ => false
  }

  /** The columns of a grade without a score, written out. */
  function Columns(l: Label): Counts {
    Counts(1, One(l.passing), One(!l.passing && l.failing), 0, 0, 0, 0, 0, 0, 0,
           One(l.excellent), One(l.good), One(l.medium), One(l.pass), One(l.failing))
  }

  lemma ColumnsFall(l: Label, column: Column)
    ensures Field(Columns(l), column) == One(LabelFalls(l, column))
  {}

  lemma LevelColumns(t: string)
    ensures LevelCounts(t) == Columns(LabelOf(t))
  {}

  lemma LabelCounts(t: string, l: Label, column: Column)
    requires l == LabelOf(t)
    ensures Field(LevelCounts(t), column) == One(LabelFalls(l, column))
  {
    LevelColumns(t);
    ColumnsFall(l, column);
  }

  lemma LabelFallsExactly(g: Grade, l: Label, column: Column)
    requires NumericScore(g).None? && Falls(g, Valid) && l == LabelOf(g.scoreText)
    ensures LabelFalls(l, column) <==> Falls(g, column)
  {
    LabelsAre(g.scoreText);
  }

  lemma LabelledGradeCounts(g: Grade, column: Column)
    requires NumericScore(g).None? && Falls(g, Valid)
    ensures Field(Contribution(g), column) == if Falls(g, column) then 1 else 0
  {
    LabelFallsExactly(g, LabelOf(g.scoreText), column);
    LabelCounts(g.scoreText, LabelOf(g.scoreText), column);
    LabelContributes(g);
  }

  lemma LabelContributes(g: Grade)
    requires NumericScore(g).None?
    ensures Contribution(g) == LevelCounts(g.scoreText)
  {}

  /** One grade adds one to exactly the columns that count it. */
  lemma OneGradeCounts(g: Grade, column: Column)
    requires Falls(g, Valid)
    ensures Field(Contribution(g), column) == if Falls(g, column) then 1 else 0
  {
    if NumericScore(g).Some? { NumericGradeCounts(g, column); } else { LabelledGradeCounts(g, column); }
  }

  lemma FieldAdds(a: Counts, b: Counts, column: Column)
    ensures Field(a.Plus(b), column) == Field(a, column) + Field(b, column)
  {}

  lemma FallsIsValid(g: Grade, column: Column)
    requires Falls(g, column)
    ensures Falls(g, Valid)
  {
    ScoreInRange(g);
  }

  lemma OneMoreCounted(sums: Counts, g: Grade, k: Group, column: Column)
    ensures Field(if InGroup(g, k) then sums.Plus(Contribution(g)) else sums, column)
            == Field(sums, column) + (if Belongs(g, k) && Falls(g, column) then 1 else 0)
  {
    InGroupExactly(g, k);
    if InGroup(g, k) {
      OneGradeCounts(g, column);
      FieldAdds(sums, Contribution(g), column);
    } else if Belongs(g, k) && Falls(g, column) {
      FallsIsValid(g, column);
    }
  }

  /** Every column of a group counts exactly the grades of the group that its name says. */
  lemma {:induction false} ColumnsCount(grades: seq<Grade>, k: Group, column: Column)
    ensures Field(GroupSums(grades, k), column) == Count(grades, k, column)
  {
    if grades != [] {
      var front, g := grades[..|grades| - 1], grades[|grades| - 1];
      ColumnsCount(front, k, column);
      OneMoreCounted(GroupSums(front, k), g, k, column);
    }
  }

  // ------------------------------------------------------------- the score sum

  /** The sum of a group's scores. */
  function ScoreTotal(grades: seq<Grade>, k: Group): real {
    if grades == [] then 0.0
    else
      var g := grades[|grades| - 1];
      ScoreTotal(grades[..|grades| - 1], k)
      + (if Belongs(g, k) && NumericScore(g).Some? then NumericScore(g).value else 0.0)
  }

  lemma RoundIsNear(x: real)
    ensures x - 0.5 < Round(x) as real <= x + 0.5
  {}

  /** The stored sum is a hundred times that, within half a unit for each numeric grade. */
  lemma {:induction false} SumIsNear(grades: seq<Grade>, k: Group)
    ensures var s := GroupSums(grades, k); var exact := 100.0 * ScoreTotal(grades, k);
            exact - 0.5 * s.numeric as real <= s.sumX100 as real <= exact + 0.5 * s.numeric as real
  {
    if grades != [] {
      var front, g := grades[..|grades| - 1], grades[|grades| - 1];
      SumIsNear(front, k);
      InGroupExactly(g, k);
      if NumericScore(g).Some? {
        ScoreInRange(g);
        RoundIsNear(NumericScore(g).value * 100.0);
        assert Falls(g, Valid);
      }
    }
  }

  // ------------------------------------------------------- reading a score text

  /** A number with its decimal point moved to the right. */
  function Shifted(x: real, places: nat): real
    decreases places
  {
    if places == 0 then x else Shifted(10.0 * x, places - 1)
  }

  lemma {:induction false} ShiftedSum(x: real, y: real, places: nat)
    ensures Shifted(x + y, places) == Shifted(x, places) + Shifted(y, places)
    decreases places
  {
    if places > 0 {
      assert 10.0 * (x + y) == 10.0 * x + 10.0 * y;
      ShiftedSum(10.0 * x, 10.0 * y, places - 1);
    }
  }

  lemma {:induction false} ShiftedOnce(x: real, places: nat)
    ensures Shifted(10.0 * x, places) == 10.0 * Shifted(x, places)
    decreases places
  {
    if places > 0 { ShiftedOnce(10.0 * x, places - 1); }
  }

  /** The digits of two strings in a row. */
  lemma {:induction false} ParseJoined(a: string, b: string)
    requires AllDigits(a) && AllDigits(b)
    ensures ParseNat(a + b) as real == Shifted(ParseNat(a) as real, |b|) + ParseNat(b) as real
  {
    if b == [] {
      assert a + b == a;
    } else {
      var front := b[..|b| - 1];
      assert (a + b)[..|a + b| - 1] == a + front && (a + b)[|a + b| - 1] == b[|b| - 1];
      ParseJoined(a, front);
      ShiftedOnce(ParseNat(a) as real, |front|);
    }
  }

  lemma {:induction false} FractionDenotes(s: string)
    requires AllDigits(s)
    ensures Shifted(Fraction(s), |s|) == ParseNat(s) as real
  {
    if s != [] {
      var rest := s[1..];
      FractionDenotes(rest);
      assert s == [s[0]] + rest;
      ParseJoined([s[0]], rest);
      OneDigit(s[0]);
      assert 10.0 * Fraction(s) == DigitValue(s[0]) as real + Fraction(rest);
      ShiftedSum(DigitValue(s[0]) as real, Fraction(rest), |rest|);
    }
  }

  lemma OneDigit(c: char)
    requires IsDigit(c)
    ensures ParseNat([c]) == DigitValue(c)
  {
    assert [c][..0] == [];
  }

  /** A decimal numeral is the number of all its digits, with the point moved back past the decimals. */
  lemma DecimalDenotes(whole: string, decimals: string)
    requires AllDigits(whole) && AllDigits(decimals) && whole != [] && decimals != []
    ensures var s := whole + "." + decimals;
            IsNumeral(s) && Shifted(NumeralValue(s), |decimals|) == ParseNat(whole + decimals) as real
  {
    DecimalSplits(whole, decimals);
    PartsDenote(whole, decimals, NumeralValue(whole + "." + decimals));
  }

  lemma PartsDenote(whole: string, decimals: string, value: real)
    requires AllDigits(whole) && AllDigits(decimals) && value == ParseNat(whole) as real + Fraction(decimals)
    ensures Shifted(value, |decimals|) == ParseNat(whole + decimals) as real
  {
    FractionDenotes(decimals);
    ParseJoined(whole, decimals);
    ShiftedSum(ParseNat(whole) as real, Fraction(decimals), |decimals|);
  }

  lemma DecimalSplits(whole: string, decimals: string)
    requires AllDigits(whole) && AllDigits(decimals) && whole != [] && decimals != []
    ensures var s := whole + "." + decimals;
            IsNumeral(s) && NumeralValue(s) == ParseNat(whole) as real + Fraction(decimals)
  {
    var s, d := whole + "." + decimals, |whole|;
    assert s[..d] == whole && s[d] == '.' && s[d + 1..] == decimals;
    assert !IsDigit(s[d]);
    DotFound(s, d);
  }

  lemma {:induction false} DotFound(s: string, d: nat)
    requires d < |s| && s[d] == '.' && forall i :: 0 <= i < d ==> IsDigit(s[i])
    ensures DotIndex(s) == d
  {
    if d > 0 { DotFound(s[1..], d - 1); }
  }

  /** The score of a grade: the number its text denotes, to two decimals and at most 100; without a text, the stored
      score in that range; a text that is no number, or too large a one, has none. */
  lemma ScoreIsRead(g: Grade)
    ensures IsNumeral(g.scoreText) && NumeralValue(g.scoreText) <= 100.0 ==>
              NumericScore(g).Some?
              && NumeralValue(g.scoreText) - 0.005 <= NumericScore(g).value <= NumeralValue(g.scoreText) + 0.005
    ensures IsNumeral(g.scoreText) && NumeralValue(g.scoreText) >= 100.005 ==> NumericScore(g).None?
    ensures g.scoreText != "" && !IsNumeral(g.scoreText) ==> NumericScore(g).None?
    ensures g.scoreText == "" && g.score.Some? && 0.0 <= g.score.value <= 100.0 ==> NumericScore(g) == g.score
    ensures g.scoreText == "" && (g.score.None? || !(0.0 <= g.score.value <= 100.0)) ==> NumericScore(g).None?
  {
    if IsNumeral(g.scoreText) { NumeralNatural(g.scoreText); }
  }

  lemma NumeralNatural(s: string)
    requires IsNumeral(s)
    ensures NumeralValue(s) >= 0.0
  {
    if !AllDigits(s) {
      NumeralSplits(s);
      FractionNatural(s[DotIndex(s) + 1..]);
    }
  }

  lemma {:induction false} FractionNatural(s: string)
    requires AllDigits(s)
    ensures Fraction(s) >= 0.0
  {
    if s != [] { FractionNatural(s[1..]); }
  }

  /** A whole number up to 100 is read as it stands, whatever is stored beside it. */
  lemma WholeScoreIsRead(g: Grade)
    requires AllDigits(g.scoreText) && g.scoreText != "" && ParseNat(g.scoreText) <= 100
    ensures NumericScore(g) == Some(ParseNat(g.scoreText) as real)
  {
    var n := ParseNat(g.scoreText);
    assert Round(n as real * 100.0) == n * 100;
    assert (n * 100) as real / 100.0 == n as real;
  }
}
