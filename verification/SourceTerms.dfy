/** Term identities as the source writes them, down to their characters: recognising them and
    proving that recognised terms are never confused. */
module SourceTerms {
  import opened Wrappers
  import opened Statistics

  // ------------------------------------------------------------- decimals

  predicate IsDigit(c: char) { '0' <= c <= '9' }

  predicate AllDigits(s: string) { forall i :: 0 <= i < |s| ==> IsDigit(s[i]) }

  function DigitValue(c: char): nat requires IsDigit(c) { (c - '0') as nat }

  function DigitChar(d: nat): char requires d < 10 { '0' + d as char }

  function ParseNat(s: string): nat
    requires AllDigits(s)
  {
    if s == [] then 0 else 10 * ParseNat(s[..|s| - 1]) + DigitValue(s[|s| - 1])
  }

  function FormatNat(n: nat): string {
    if n < 10 then [DigitChar(n)] else FormatNat(n / 10) + [DigitChar(n % 10)]
  }

  function FormatInt(n: int): string { if n < 0 then "-" + FormatNat(-n) else FormatNat(n) }

  lemma {:induction false} FormatRoundTrip(n: nat)
    ensures FormatNat(n) != [] && AllDigits(FormatNat(n)) && ParseNat(FormatNat(n)) == n
  {
    if n >= 10 {
      FormatRoundTrip(n / 10);
      var s := FormatNat(n);
      assert s[..|s| - 1] == FormatNat(n / 10);
    } else {
      assert [DigitChar(n)][..0] == [];
    }
  }

  /** Digit strings of one length are determined by their value. */
  lemma {:induction false} SameLengthSameValue(s: string, t: string)
    requires AllDigits(s) && AllDigits(t) && |s| == |t| && ParseNat(s) == ParseNat(t)
    ensures s == t
  {
    if s != [] {
      SameLastDigit(ParseNat(s[..|s| - 1]), s[|s| - 1], ParseNat(t[..|t| - 1]), t[|t| - 1]);
      SameLengthSameValue(s[..|s| - 1], t[..|t| - 1]);
      assert s == s[..|s| - 1] + [s[|s| - 1]];
      assert t == t[..|t| - 1] + [t[|t| - 1]];
    }
  }

  lemma SameLastDigit(a: nat, x: char, b: nat, y: char)
    requires IsDigit(x) && IsDigit(y) && 10 * a + DigitValue(x) == 10 * b + DigitValue(y)
    ensures a == b && x == y
  {}

  /** Text before the first separator is determined by the whole. */
  lemma SplitAtSeparator(a: string, x: string, b: string, y: string, sep: char)
    requires sep !in a && sep !in b && a + [sep] + x == b + [sep] + y
    ensures a == b && x == y
  {
    var s := a + [sep] + x;
    assert s[|a|] == sep && s[|b|] == sep;
    assert forall i :: 0 <= i < |a| ==> s[i] == a[i] && s[i] != sep;
    assert forall i :: 0 <= i < |b| ==> s[i] == b[i] && s[i] != sep;
    assert s[..|a|] == a && s[..|b|] == b;
    assert s[|a| + 1..] == x && s[|b| + 1..] == y;
  }

  lemma FormatNatInjective(a: nat, b: nat)
    requires FormatNat(a) == FormatNat(b)
    ensures a == b
  {
    FormatRoundTrip(a);
    FormatRoundTrip(b);
  }

  // ------------------------------------------------------------------ terms

  datatype TermIdentity = TermIdentity(level: string, periodId: string, termLabel: string)

  function TrimLeft(s: string): string {
    if s != [] && IsSpace(s[0]) then TrimLeft(s[1..]) else s
  }

  function TrimRight(s: string): string {
    if s != [] && IsSpace(s[|s| - 1]) then TrimRight(s[..|s| - 1]) else s
  }

  function TrimSpace(s: string): string { TrimRight(TrimLeft(s)) }

  predicate Trimmed(s: string) { s == [] || (!IsSpace(s[0]) && !IsSpace(s[|s| - 1])) }

  /** `^([0-9]{4})(summer|autumn|spring)term$`, with the three season names of the source. */
  predicate IsUndergraduateTerm(s: string) {
    |s| == 8 && AllDigits(s[..4]) && s[6..] == "学期" && s[4..6] in ["夏季", "秋季", "春季"]
  }

  /** `^([0-9]{4})-([0-9]{4})(summer-autumn|spring)$`. */
  predicate IsGraduateTerm(s: string) {
    |s| == 11 && AllDigits(s[..4]) && s[4] == '-' && AllDigits(s[5..9]) && s[9..] in ["夏秋", "春季"]
  }

  function UndergraduateOrdinal(season: string): string {
    if season == "夏季" then "1" else if season == "秋季" then "2" else "3"
  }

  function UndergraduateStart(termId: string): int
    requires IsUndergraduateTerm(termId)
  {
    ParseNat(termId[..4]) - (if termId[4..6] == "春季" then 1 else 0)
  }

  function UndergraduatePeriod(start: int, ordinal: string): string {
    FormatInt(start) + "-" + FormatInt(start + 1) + "-" + ordinal
  }

  function GraduatePeriod(start: nat, ordinal: string): string { FormatInt(start) + ":" + ordinal }

  /** Only the two known formats are recognised, and the term code must agree with them. */
  function NormalizeSourceTerm(rawId: string, rawCode: string): Option<TermIdentity> {
    var termId, termCode := TrimSpace(rawId), TrimSpace(rawCode);
    if IsUndergraduateTerm(termId) then
      var season := termId[4..6];
      var ordinal := UndergraduateOrdinal(season);
      var start := UndergraduateStart(termId);
      var periodId := UndergraduatePeriod(start, ordinal);
      if termCode != periodId then None
      else
        var labelYear := if ordinal == "3" then start + 1 else start;
        Some(TermIdentity(UNDERGRADUATE, periodId, FormatInt(labelYear) + " " + season + "学期"))
    else if IsGraduateTerm(termId) then
      var start, end := ParseNat(termId[..4]), ParseNat(termId[5..9]);
      var spring := termId[9..] == "春季";
      if end != start + 1 then None
      else if termCode != FormatInt(start) + "-" + FormatInt(end) + "-" + (if spring then "3" else "2") then None
      else Some(TermIdentity(GRADUATE, GraduatePeriod(start, if spring then "12" else "11"),
                             FormatInt(start) + "-" + FormatInt(end) + " 学年" + termId[9..] + "学期"))
    else None
  }

  lemma DigitsHaveNoSeparator(n: nat)
    ensures '-' !in FormatNat(n) && ':' !in FormatNat(n)
  {
    FormatRoundTrip(n);
  }

  /** The first character of a formatted number tells whether it is negative. */
  lemma SignShows(n: int)
    ensures FormatInt(n) != [] && (FormatInt(n)[0] == '-' <==> n < 0)
  {
    FormatRoundTrip(if n >= 0 then n else -n);
  }

  lemma UndergraduatePeriodInjective(a: int, x: string, b: int, y: string)
    requires a >= -1 && b >= -1 && |x| == |y| == 1
    requires UndergraduatePeriod(a, x) == UndergraduatePeriod(b, y)
    ensures a == b && x == y
  {
    PeriodEnds(a, x);
    PeriodEnds(b, y);
    PeriodStarts(a, x);
    PeriodStarts(b, y);
    if a >= 0 {
      SameStart(a, FormatInt(a + 1) + "-" + x, b, FormatInt(b + 1) + "-" + y);
    }
  }

  lemma PeriodEnds(a: int, x: string)
    requires |x| == 1
    ensures var p := UndergraduatePeriod(a, x); p != [] && x == [p[|p| - 1]]
  {}

  lemma PeriodStarts(a: int, x: string)
    ensures var p := UndergraduatePeriod(a, x);
            p == FormatInt(a) + "-" + (FormatInt(a + 1) + "-" + x) && (p[0] == '-' <==> a < 0)
  {
    SignShows(a);
    assert UndergraduatePeriod(a, x) == FormatInt(a) + "-" + (FormatInt(a + 1) + "-" + x);
  }

  lemma SameStart(a: nat, x: string, b: nat, y: string)
    requires FormatInt(a) + "-" + x == FormatInt(b) + "-" + y
    ensures a == b
  {
    DigitsHaveNoSeparator(a);
    DigitsHaveNoSeparator(b);
    assert "-" == ['-'];
    SplitAtSeparator(FormatNat(a), x, FormatNat(b), y, '-');
    FormatNatInjective(a, b);
  }

  lemma GraduatePeriodInjective(a: nat, x: string, b: nat, y: string)
    requires GraduatePeriod(a, x) == GraduatePeriod(b, y)
    ensures a == b && x == y
  {
    DigitsHaveNoSeparator(a);
    DigitsHaveNoSeparator(b);
    assert GraduatePeriod(a, x) == FormatNat(a) + [':'] + x;
    assert GraduatePeriod(b, y) == FormatNat(b) + [':'] + y;
    SplitAtSeparator(FormatNat(a), x, FormatNat(b), y, ':');
    FormatNatInjective(a, b);
  }

  /** Two recognised terms with the same level and period are the same term: statistics of
      different source terms can never collide in one partition. */
  lemma RecognisedTermsAreDistinct(id1: string, code1: string, id2: string, code2: string)
    requires Trimmed(id1) && Trimmed(code1) && Trimmed(id2) && Trimmed(code2)
    requires NormalizeSourceTerm(id1, code1).Some? && NormalizeSourceTerm(id2, code2).Some?
    requires var a, b := NormalizeSourceTerm(id1, code1).value, NormalizeSourceTerm(id2, code2).value;
             a.level == b.level && a.periodId == b.periodId
    ensures id1 == id2 && code1 == code2
  {
    assert TrimSpace(id1) == id1 && TrimSpace(id2) == id2 && TrimSpace(code1) == code1 && TrimSpace(code2) == code2;
    RecognisedCode(id1, code1);
    RecognisedCode(id2, code2);
    if IsUndergraduateTerm(id1) {
      SameUndergraduateTerm(id1, id2);
    } else {
      SameGraduateTerm(id1, id2);
    }
  }

  /** The code a recognised term must have. */
  function ExpectedCode(id: string): string
    requires IsUndergraduateTerm(id) || IsGraduateTerm(id)
  {
    if IsUndergraduateTerm(id) then UndergraduatePeriod(UndergraduateStart(id), UndergraduateOrdinal(id[4..6]))
    else
      FormatInt(ParseNat(id[..4])) + "-" + FormatInt(ParseNat(id[5..9])) + "-"
      + (if id[9..] == "春季" then "3" else "2")
  }

  /** What a recognised term says of its text. */
  lemma RecognisedCode(id: string, code: string)
    requires TrimSpace(id) == id && TrimSpace(code) == code && NormalizeSourceTerm(id, code).Some?
    ensures IsUndergraduateTerm(id) || IsGraduateTerm(id)
    ensures code == ExpectedCode(id)
    ensures var term := NormalizeSourceTerm(id, code).value;
            if IsUndergraduateTerm(id) then term.level == UNDERGRADUATE && term.periodId == ExpectedCode(id)
            else
              term.level == GRADUATE && ParseNat(id[5..9]) == ParseNat(id[..4]) + 1
              && term.periodId == GraduatePeriod(ParseNat(id[..4]), if id[9..] == "春季" then "12" else "11")
  {}

  lemma SameUndergraduateTerm(s: string, t: string)
    requires IsUndergraduateTerm(s) && IsUndergraduateTerm(t)
    requires UndergraduatePeriod(UndergraduateStart(s), UndergraduateOrdinal(s[4..6]))
             == UndergraduatePeriod(UndergraduateStart(t), UndergraduateOrdinal(t[4..6]))
    ensures s == t
  {
    UndergraduatePeriodInjective(UndergraduateStart(s), UndergraduateOrdinal(s[4..6]), UndergraduateStart(t),
        UndergraduateOrdinal(t[4..6]));
    assert s[4..6] == t[4..6];
    SameLengthSameValue(s[..4], t[..4]);
    assert s == s[..4] + s[4..6] + s[6..] && t == t[..4] + t[4..6] + t[6..];
  }

  lemma SameGraduateTerm(s: string, t: string)
    requires IsGraduateTerm(s) && IsGraduateTerm(t)
    requires ParseNat(s[5..9]) == ParseNat(s[..4]) + 1 && ParseNat(t[5..9]) == ParseNat(t[..4]) + 1
    requires GraduatePeriod(ParseNat(s[..4]), if s[9..] == "春季" then "12" else "11")
             == GraduatePeriod(ParseNat(t[..4]), if t[9..] == "春季" then "12" else "11")
    ensures s == t
  {
    GraduatePeriodInjective(ParseNat(s[..4]), if s[9..] == "春季" then "12" else "11",
                            ParseNat(t[..4]), if t[9..] == "春季" then "12" else "11");
    assert "12"[1] != "11"[1];
    SameLengthSameValue(s[..4], t[..4]);
    SameLengthSameValue(s[5..9], t[5..9]);
    assert s == s[..4] + [s[4]] + s[5..9] + s[9..] && t == t[..4] + [t[4]] + t[5..9] + t[9..];
  }

  /** A recognised term passes the snapshot's identity check. */
  lemma RecognisedTermsAreValid(id: string, code: string)
    requires NormalizeSourceTerm(id, code).Some? && !Blank(code)
    ensures var t := NormalizeSourceTerm(id, code).value; ValidTermIdentity(t.level, t.periodId, t.termLabel, code)
  {
    var t := NormalizeSourceTerm(id, code).value;
    assert !IsSpace('期');
    assert t.termLabel[|t.termLabel| - 1] == '期';
    var last := t.periodId[|t.periodId| - 1];
    assert last == '1' || last == '2' || last == '3';
    assert !IsSpace(last);
  }

  // ------------------------------------------------------- what terms stand for

  /** What is left of a text between the blanks around it. */
  lemma TrimSpaceIsMiddle(s: string) returns (before: string, after: string)
    ensures s == before + TrimSpace(s) + after && Blank(before) && Blank(after) && Trimmed(TrimSpace(s))
  {
    before := TrimLeftDrops(s);
    after := TrimRightDrops(TrimLeft(s));
    assert s == before + (TrimSpace(s) + after);
    TrimmedBoth(s);
  }

  lemma {:induction false} TrimLeftDrops(s: string) returns (before: string)
    ensures s == before + TrimLeft(s) && Blank(before) && (TrimLeft(s) != [] ==> !IsSpace(TrimLeft(s)[0]))
  {
    before := [];
    if s != [] && IsSpace(s[0]) {
      var rest := TrimLeftDrops(s[1..]);
      before := [s[0]] + rest;
      assert s == [s[0]] + s[1..];
    }
  }

  lemma {:induction false} TrimRightDrops(s: string) returns (after: string)
    ensures s == TrimRight(s) + after && Blank(after)
    ensures TrimRight(s) != [] ==> TrimRight(s)[0] == s[0] && !IsSpace(TrimRight(s)[|TrimRight(s)| - 1])
  {
    after := [];
    if s != [] && IsSpace(s[|s| - 1]) {
      var rest := TrimRightDrops(s[..|s| - 1]);
      after := rest + [s[|s| - 1]];
      assert s == s[..|s| - 1] + [s[|s| - 1]];
    }
  }

  lemma TrimmedBoth(s: string)
    ensures Trimmed(TrimSpace(s))
  {
    var before := TrimLeftDrops(s);
    var after := TrimRightDrops(TrimLeft(s));
  }

  /** The years of an academic year, as they are written in codes. */
  function Years(start: int): string { FormatInt(start) + "-" + FormatInt(start + 1) }

  /** The code a season term of a calendar year must have: summer and autumn open the academic year that starts in
      the year, spring closes the one that started the year before. */
  function SeasonCode(year: nat, season: string): string {
    if season == "夏季" then Years(year) + "-1" else if season == "秋季" then Years(year) + "-2" else Years(year - 1) + "-3"
  }

  /** A season term is recognised exactly under its code; it is labelled with its own year and season. */
  lemma SeasonTermMeans(id: string, code: string, digits: string, season: string)
    requires TrimSpace(id) == digits + season + "学期" && |digits| == 4 && AllDigits(digits)
    requires season in ["夏季", "秋季", "春季"]
    ensures NormalizeSourceTerm(id, code)
            == if TrimSpace(code) == SeasonCode(ParseNat(digits), season)
               then Some(TermIdentity("undergraduate", TrimSpace(code),
                                      FormatInt(ParseNat(digits)) + " " + season + "学期"))
               else None
  {
    var term := digits + season + "学期";
    assert term[..4] == digits && term[4..6] == season && term[6..] == "学期";
    SeasonPeriod(ParseNat(digits), season);
  }

  lemma SeasonPeriod(year: nat, season: string)
    requires season in ["夏季", "秋季", "春季"]
    ensures UndergraduatePeriod(year - (if season == "春季" then 1 else 0), UndergraduateOrdinal(season))
            == SeasonCode(year, season)
  {
    assert "夏季"[0] != "春季"[0] && "秋季"[0] != "春季"[0] && "夏季"[0] != "秋季"[0];
  }

  /** A graduate term is recognised exactly when it names consecutive years and has its code. */
  lemma GraduateTermMeans(id: string, code: string, from: string, to: string, season: string)
    requires TrimSpace(id) == from + "-" + to + season && |from| == |to| == 4 && AllDigits(from) && AllDigits(to)
    requires season in ["夏秋", "春季"]
    ensures NormalizeSourceTerm(id, code)
            == if ParseNat(to) == ParseNat(from) + 1
                  && TrimSpace(code) == Years(ParseNat(from)) + (if season == "夏秋" then "-2" else "-3")
               then Some(TermIdentity("graduate", FormatInt(ParseNat(from)) + (if season == "夏秋" then ":11" else ":12"),
                                      Years(ParseNat(from)) + " 学年" + season + "学期"))
               else None
  {
    var term := from + "-" + to + season;
    assert term[..4] == from && term[4] == '-' && term[5..9] == to && term[9..] == season;
    assert !IsUndergraduateTerm(term);
    GraduateCode(ParseNat(from), season == "春季");
    assert "夏秋"[0] != "春季"[0];
  }

  lemma GraduateCode(start: nat, spring: bool)
    ensures FormatInt(start) + "-" + FormatInt(start + 1) + "-" + (if spring then "3" else "2")
            == Years(start) + (if spring then "-3" else "-2")
    ensures GraduatePeriod(start, if spring then "12" else "11") == FormatInt(start) + (if spring then ":12" else ":11")
  {
  }

  /** Nothing else is recognised. */
  lemma OnlyTheseTerms(id: string, code: string) returns (a: string, b: string, season: string)
    requires NormalizeSourceTerm(id, code).Some?
    ensures (TrimSpace(id) == a + season + "学期" && |a| == 4 && AllDigits(a) && season in ["夏季", "秋季", "春季"])
            || (TrimSpace(id) == a + "-" + b + season && |a| == |b| == 4 && AllDigits(a) && AllDigits(b)
                && season in ["夏秋", "春季"])
  {
    var term := TrimSpace(id);
    a := term[..4];
    if IsUndergraduateTerm(term) {
      b, season := "", term[4..6];
      assert term == a + season + term[6..];
    } else {
      b, season := term[5..9], term[9..];
      assert term == a + [term[4]] + b + season;
    }
  }
}
