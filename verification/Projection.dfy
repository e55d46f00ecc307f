/** The all-term course list: the grouped query over per-term rows, the projection built at
    publication time, and the proof that readers cannot tell them apart. */
module Projection {
  import opened Wrappers
  import opened Statistics

  // ------------------------------------------------------------ name order

  /** Code-point order, the order Go compares strings in. */
  predicate Above(a: string, b: string) {
    if a == [] then false
    else if b == [] then true
    else a[0] > b[0] || (a[0] == b[0] && Above(a[1..], b[1..]))
  }

  lemma {:induction false} AboveIsTransitive(a: string, b: string, c: string)
    requires !Above(a, b) && !Above(b, c)
    ensures !Above(a, c)
  {
    if a != [] && b != [] && c != [] && a[0] == b[0] == c[0] {
      AboveIsTransitive(a[1..], b[1..], c[1..]);
    }
  }

  lemma {:induction false} AboveIsAsymmetric(a: string, b: string)
    requires Above(a, b)
    ensures !Above(b, a)
  {
    if a != [] && b != [] && a[0] == b[0] { AboveIsAsymmetric(a[1..], b[1..]); }
  }

  // ------------------------------------------------------- grouped query

  function KeyOf(row: CourseRow): ProjectionKey { ProjectionKey(row.key.level, row.key.code) }

  function Keys(rows: seq<CourseRow>): set<ProjectionKey> { set row | row in rows :: KeyOf(row) }

  /** COUNT(*) of one group. */
  function TermCount(rows: seq<CourseRow>, k: ProjectionKey): nat {
    if rows == [] then 0
    else TermCount(rows[..|rows| - 1], k) + (if KeyOf(rows[|rows| - 1]) == k then 1 else 0)
  }

  /** The fifteen SUM columns of one group. */
  function Sums(rows: seq<CourseRow>, k: ProjectionKey): Counts {
    if rows == [] then ZERO
    else
      var rest := Sums(rows[..|rows| - 1], k);
      if KeyOf(rows[|rows| - 1]) == k then rest.Plus(rows[|rows| - 1].stats) else rest
  }

  /** MAX(course_name) of one group, as a left-to-right scan. */
  function MaxName(rows: seq<CourseRow>, k: ProjectionKey): Option<string> {
    if rows == [] then None
    else
      var rest := MaxName(rows[..|rows| - 1], k);
      var last := rows[|rows| - 1];
      if KeyOf(last) != k then rest
      else if rest.None? || Above(last.courseName, rest.value) then Some(last.courseName)
      else rest
  }

  lemma {:induction false} MaxNameIsMax(rows: seq<CourseRow>, k: ProjectionKey)
    ensures MaxName(rows, k).Some? <==> k in Keys(rows)
    ensures MaxName(rows, k).Some? ==>
              && (exists row :: row in rows && KeyOf(row) == k && row.courseName == MaxName(rows, k).value)
              && (forall row :: row in rows && KeyOf(row) == k ==> !Above(row.courseName, MaxName(rows, k).value))
  {
    if rows != [] {
      var front, last := rows[..|rows| - 1], rows[|rows| - 1];
      assert rows == front + [last];
      MaxNameIsMax(front, k);
      if KeyOf(last) == k {
        var best := MaxName(rows, k).value;
        assert !Above(last.courseName, best) by {
          if Above(last.courseName, best) { AboveIsAsymmetric(last.courseName, best); }
        }
        forall row | row in rows && KeyOf(row) == k ensures !Above(row.courseName, best) {
          if row in front {
            var old_ := MaxName(front, k).value;
            if best != old_ {
              AboveIsAsymmetric(best, old_);
              AboveIsTransitive(row.courseName, old_, best);
            }
          }
        }
      }
    }
  }

  function GroupRow(rows: seq<CourseRow>, k: ProjectionKey): (r: CoursePassRate)
    requires k in Keys(rows)
  {
    MaxNameIsMax(rows, k);
    CoursePassRate(k, MaxName(rows, k).value, TermCount(rows, k), Sums(rows, k))
  }

  /** A search without keyword and term; an empty string leaves a dimension unrestricted. */
  datatype Search = Search(courseCode: string, level: string)

  predicate Matches(s: Search, k: ProjectionKey) {
    (s.courseCode == "" || k.code == s.courseCode) && (s.level == "" || k.level == s.level)
  }

  function Filtered(rows: seq<CourseRow>, s: Search): seq<CourseRow> {
    if rows == [] then []
    else
      var rest := Filtered(rows[..|rows| - 1], s);
      if Matches(s, KeyOf(rows[|rows| - 1])) then rest + [rows[|rows| - 1]] else rest
  }

  /** WHERE filters the per-term rows, GROUP BY aggregates them, HAVING drops small groups. */
  function GroupedQuery(rows: seq<CourseRow>, s: Search, minimum: int): set<CoursePassRate> {
    var filtered := Filtered(rows, s);
    set k | k in Keys(filtered) && Sums(filtered, k).valid >= minimum :: GroupRow(filtered, k)
  }

  lemma {:induction false} FilteredGroups(rows: seq<CourseRow>, s: Search, k: ProjectionKey)
    ensures Matches(s, k) ==>
              && (k in Keys(Filtered(rows, s)) <==> k in Keys(rows))
              && Sums(Filtered(rows, s), k) == Sums(rows, k)
              && TermCount(Filtered(rows, s), k) == TermCount(rows, k)
              && MaxName(Filtered(rows, s), k) == MaxName(rows, k)
    ensures k in Keys(Filtered(rows, s)) ==> Matches(s, k)
  {
    if rows != [] {
      var front, last := rows[..|rows| - 1], rows[|rows| - 1];
      FilteredGroups(front, s, k);
      assert rows == front + [last];
      var rest := Filtered(front, s);
      if Matches(s, KeyOf(last)) {
        assert (rest + [last])[..|rest|] == rest;
        assert forall row :: row in rest + [last] <==> row in rest || row == last;
      }
    }
  }

  // ------------------------------------------------- publication-time projection

  ghost predicate DistinctKeys(rows: seq<ProjectionRow>) {
    forall i, j :: 0 <= i < j < |rows| ==> rows[i].rate.key != rows[j].rate.key
  }

  /** One row per group, in any order, each the group's aggregate. */
  ghost predicate IsProjection(rows: seq<ProjectionRow>, batchId: nat, values: seq<CourseRow>) {
    && DistinctKeys(rows)
    && (forall i :: 0 <= i < |rows| ==>
          rows[i].batchId == batchId && rows[i].rate.key in Keys(values)
          && rows[i].rate == GroupRow(values, rows[i].rate.key))
    && (forall k :: k in Keys(values) ==> exists i :: 0 <= i < |rows| && rows[i].rate.key == k)
  }

  /** Adding one per-term row to the accumulator of its course. */
  function Absorb(row: CoursePassRate, value: CourseRow): CoursePassRate {
    CoursePassRate(row.key, if Above(value.courseName, row.courseName) then value.courseName else row.courseName,
                   row.termCount + 1, row.stats.Plus(value.stats))
  }

  lemma OneMoreValue(front: seq<CourseRow>, value: CourseRow, k: ProjectionKey)
    ensures Keys(front + [value]) == Keys(front) + {KeyOf(value)}
    ensures k in Keys(front) && k != KeyOf(value) ==> GroupRow(front + [value], k) == GroupRow(front, k)
    ensures k in Keys(front) && k == KeyOf(value) ==> GroupRow(front + [value], k) == Absorb(GroupRow(front, k), value)
    ensures k !in Keys(front) && k == KeyOf(value)
            ==> GroupRow(front + [value], k) == CoursePassRate(k, value.courseName, 1, ZERO.Plus(value.stats))
  {
    assert forall r :: r in front + [value] <==> r in front || r == value;
    assert (front + [value])[..|front|] == front;
    MaxNameIsMax(front, k);
    if k !in Keys(front) { AbsentGroup(front, k); }
  }

  /** Groups the per-term rows with one accumulator per course, then lists the accumulators. */
  method CoursePassRateEntities(batchId: nat, values: seq<CourseRow>) returns (rows: seq<ProjectionRow>)
    ensures IsProjection(rows, batchId, values)
  {
    var grouped: map<ProjectionKey, CoursePassRate> := map[];
    for i := 0 to |values|
      invariant grouped.Keys == Keys(values[..i])
      invariant forall k :: k in grouped ==> grouped[k] == GroupRow(values[..i], k)
    {
      assert values[..i + 1] == values[..i] + [values[i]];
      grouped := Accumulate(values[..i], values[i], grouped);
    }
    assert values[..|values|] == values;
    rows := ListGroups(batchId, grouped);
  }

  method Accumulate(ghost front: seq<CourseRow>, value: CourseRow, before: map<ProjectionKey, CoursePassRate>)
    returns (grouped: map<ProjectionKey, CoursePassRate>)
    requires before.Keys == Keys(front) && forall k :: k in before ==> before[k] == GroupRow(front, k)
    ensures grouped.Keys == Keys(front + [value])
    ensures forall k :: k in grouped ==> grouped[k] == GroupRow(front + [value], k)
  {
    var key := KeyOf(value);
    OtherGroupsStay(front, value);
    OneMoreValue(front, value, key);
    var row := if key in before then before[key] else CoursePassRate(key, value.courseName, 0, ZERO);
    if key in before && Above(value.courseName, row.courseName) {
      row := row.(courseName := value.courseName);
    }
    row := row.(termCount := row.termCount + 1, stats := row.stats.Plus(value.stats));
    grouped := before[key := row];
  }

  lemma OtherGroupsStay(front: seq<CourseRow>, value: CourseRow)
    ensures Keys(front + [value]) == Keys(front) + {KeyOf(value)}
    ensures forall k :: k in Keys(front) && k != KeyOf(value) ==> GroupRow(front + [value], k) == GroupRow(front, k)
  {
    OneMoreValue(front, value, KeyOf(value));
    forall k | k in Keys(front) && k != KeyOf(value) ensures GroupRow(front + [value], k) == GroupRow(front, k) {
      OneMoreValue(front, value, k);
    }
  }

  method ListGroups(batchId: nat, grouped: map<ProjectionKey, CoursePassRate>) returns (rows: seq<ProjectionRow>)
    requires forall k :: k in grouped ==> grouped[k].key == k
    ensures DistinctKeys(rows)
    ensures forall i :: 0 <= i < |rows| ==>
              rows[i].rate.key in grouped && rows[i] == ProjectionRow(batchId, grouped[rows[i].rate.key])
    ensures forall k :: k in grouped ==> exists i :: 0 <= i < |rows| && rows[i].rate.key == k
  {
    rows := [];
    var todo := grouped.Keys;
    while todo != {}
      invariant todo <= grouped.Keys
      invariant DistinctKeys(rows)
      invariant forall i :: 0 <= i < |rows| ==>
                  rows[i].rate.key in grouped && rows[i].rate.key !in todo
                  && rows[i] == ProjectionRow(batchId, grouped[rows[i].rate.key])
      invariant forall k :: k in grouped && k !in todo ==> exists i :: 0 <= i < |rows| && rows[i].rate.key == k
      decreases todo
    {
      var k :| k in todo;
      ghost var before := rows;
      rows := rows + [ProjectionRow(batchId, grouped[k])];
      assert rows[|before|].rate.key == k;
      assert forall i :: 0 <= i < |before| ==> rows[i] == before[i];
      todo := todo - {k};
    }
  }

  lemma {:induction false} AbsentGroup(values: seq<CourseRow>, k: ProjectionKey)
    requires k !in Keys(values)
    ensures TermCount(values, k) == 0 && Sums(values, k) == ZERO
  {
    if values != [] {
      assert values[|values| - 1] in values;
      assert forall r :: r in values[..|values| - 1] ==> r in values;
      AbsentGroup(values[..|values| - 1], k);
    }
  }

  /** How many stored rows a reader with this search and minimum may see. */
  function LiveCount(rows: seq<ProjectionRow>, s: Search, minimum: int): nat {
    if rows == [] then 0
    else
      var last := rows[|rows| - 1].rate;
      LiveCount(rows[..|rows| - 1], s, minimum)
      + (if last.stats.valid >= minimum && Matches(s, last.key) then 1 else 0)
  }

  const UNRESTRICTED := Search("", "")

  method CountCoursePassRates(rows: seq<ProjectionRow>, minimum: int) returns (count: nat)
    ensures count == LiveCount(rows, UNRESTRICTED, minimum)
  {
    count := 0;
    for i := 0 to |rows|
      invariant count == LiveCount(rows[..i], UNRESTRICTED, minimum)
    {
      assert rows[..i + 1][..i] == rows[..i];
      if rows[i].rate.stats.valid >= minimum { count := count + 1; }
    }
    assert rows[..|rows|] == rows;
  }

  // ------------------------------------------------------------ reader paths

  function ProjectionQuery(rows: seq<ProjectionRow>, s: Search, minimum: int): set<CoursePassRate> {
    set row | row in rows && row.rate.stats.valid >= minimum && Matches(s, row.rate.key) :: row.rate
  }

  predicate UsesCachedCount(batch: Batch, s: Search, minimum: int) {
    batch.minimumSampleSize > 0 && batch.minimumSampleSize == minimum && s.courseCode == "" && s.level == ""
  }

  /** The projection path and the grouped path return the same courses, for every filter and minimum. */
  lemma ProjectionRefinesGrouped(
    rows: seq<ProjectionRow>, batchId: nat, values: seq<CourseRow>, s: Search, minimum: int)
    requires IsProjection(rows, batchId, values)
    ensures ProjectionQuery(rows, s, minimum) == GroupedQuery(values, s, minimum)
  {
    var filtered := Filtered(values, s);
    forall rate | rate in ProjectionQuery(rows, s, minimum) ensures rate in GroupedQuery(values, s, minimum) {
      FilteredGroups(values, s, rate.key);
      assert rate == GroupRow(filtered, rate.key);
    }
    forall rate | rate in GroupedQuery(values, s, minimum) ensures rate in ProjectionQuery(rows, s, minimum) {
      FilteredGroups(values, s, rate.key);
      var i :| 0 <= i < |rows| && rows[i].rate.key == rate.key;
      assert rows[i] in rows;
    }
  }

  /** A count of matching rows is the number of distinct courses the reader is shown. */
  lemma {:induction false} LiveCountIsCardinality(rows: seq<ProjectionRow>, s: Search, minimum: int)
    requires DistinctKeys(rows)
    ensures LiveCount(rows, s, minimum) == |ProjectionQuery(rows, s, minimum)|
  {
    if rows == [] {
      assert ProjectionQuery(rows, s, minimum) == {};
    } else {
      var front, last := rows[..|rows| - 1], rows[|rows| - 1];
      LiveCountIsCardinality(front, s, minimum);
      assert rows == front + [last];
      QueryGrows(front, last, s, minimum);
      assert last.rate !in ProjectionQuery(front, s, minimum);
    }
  }

  lemma QueryGrows(front: seq<ProjectionRow>, last: ProjectionRow, s: Search, minimum: int)
    ensures ProjectionQuery(front + [last], s, minimum)
            == ProjectionQuery(front, s, minimum)
               + (if last.rate.stats.valid >= minimum && Matches(s, last.rate.key) then {last.rate} else {})
  {
    var rows := front + [last];
    assert forall r :: r in rows <==> r in front || r == last;
  }

  // ------------------------------------------------------------ conservation

  function Total(values: seq<CourseRow>): Counts {
    if values == [] then ZERO else Total(values[..|values| - 1]).Plus(values[|values| - 1].stats)
  }

  function ProjectedTotal(rows: seq<ProjectionRow>): Counts {
    if rows == [] then ZERO else ProjectedTotal(rows[..|rows| - 1]).Plus(rows[|rows| - 1].rate.stats)
  }

  function ProjectedTerms(rows: seq<ProjectionRow>): int {
    if rows == [] then 0 else ProjectedTerms(rows[..|rows| - 1]) + rows[|rows| - 1].rate.termCount
  }

  /** Group sums over the listed keys. */
  function SumsOver(ks: seq<ProjectionKey>, values: seq<CourseRow>): Counts {
    if ks == [] then ZERO else SumsOver(ks[..|ks| - 1], values).Plus(Sums(values, ks[|ks| - 1]))
  }

  function TermsOver(ks: seq<ProjectionKey>, values: seq<CourseRow>): int {
    if ks == [] then 0 else TermsOver(ks[..|ks| - 1], values) + TermCount(values, ks[|ks| - 1])
  }

  lemma PlusReorders(a: Counts, b: Counts, c: Counts)
    ensures a.Plus(b.Plus(c)) == a.Plus(b).Plus(c) && a.Plus(c).Plus(b) == a.Plus(b).Plus(c)
  {}

  lemma ZeroIsUnit(a: Counts)
    ensures a.Plus(ZERO) == a && ZERO.Plus(a) == a
  {}

  lemma {:induction false} OneMoreRow(ks: seq<ProjectionKey>, values: seq<CourseRow>, last: CourseRow)
    requires forall i, j :: 0 <= i < j < |ks| ==> ks[i] != ks[j]
    ensures SumsOver(ks, values + [last])
            == if KeyOf(last) in ks then SumsOver(ks, values).Plus(last.stats) else SumsOver(ks, values)
    ensures TermsOver(ks, values + [last])
            == TermsOver(ks, values) + (if KeyOf(last) in ks then 1 else 0)
  {
    if ks != [] {
      var front, k := ks[..|ks| - 1], ks[|ks| - 1];
      OneMoreRow(front, values, last);
      assert ks == front + [k];
      assert (values + [last])[..|values|] == values;
      PlusReorders(SumsOver(front, values), Sums(values, k), last.stats);
      assert KeyOf(last) in ks <==> KeyOf(last) in front || KeyOf(last) == k;
      if KeyOf(last) == k { assert k !in front; }
    }
  }

  lemma {:induction false} GroupsCoverTotal(ks: seq<ProjectionKey>, values: seq<CourseRow>)
    requires forall i, j :: 0 <= i < j < |ks| ==> ks[i] != ks[j]
    requires forall row :: row in values ==> KeyOf(row) in ks
    ensures SumsOver(ks, values) == Total(values) && TermsOver(ks, values) == |values|
  {
    if values == [] {
      EmptyGroups(ks, values);
      EmptyTerms(ks, values);
    } else {
      var front, last := values[..|values| - 1], values[|values| - 1];
      assert values == front + [last];
      GroupsCoverTotal(ks, front);
      OneMoreRow(ks, front, last);
    }
  }

  lemma {:induction false} EmptyGroups(ks: seq<ProjectionKey>, none: seq<CourseRow>)
    requires none == []
    ensures SumsOver(ks, none) == ZERO
  {
    if ks != [] {
      EmptyGroups(ks[..|ks| - 1], none);
      ZeroIsUnit(ZERO);
    }
  }

  lemma {:induction false} EmptyTerms(ks: seq<ProjectionKey>, none: seq<CourseRow>)
    requires none == []
    ensures TermsOver(ks, none) == 0
  {
    if ks != [] { EmptyTerms(ks[..|ks| - 1], none); }
  }

  lemma {:induction false} ProjectedAlongKeys(rows: seq<ProjectionRow>, ks: seq<ProjectionKey>, values: seq<CourseRow>)
    requires |rows| == |ks|
    requires forall i :: 0 <= i < |rows| ==>
              rows[i].rate.stats == Sums(values, ks[i]) && rows[i].rate.termCount == TermCount(values, ks[i])
    ensures ProjectedTotal(rows) == SumsOver(ks, values) && ProjectedTerms(rows) == TermsOver(ks, values)
  {
    if rows != [] { ProjectedAlongKeys(rows[..|rows| - 1], ks[..|ks| - 1], values); }
  }

  /** Nothing is lost or counted twice: projection rows add up to the per-term rows. */
  lemma ProjectionConserves(rows: seq<ProjectionRow>, batchId: nat, values: seq<CourseRow>)
    requires IsProjection(rows, batchId, values)
    ensures ProjectedTotal(rows) == Total(values)
    ensures ProjectedTerms(rows) == |values|
  {
    var ks := seq(|rows|, i requires 0 <= i < |rows| => rows[i].rate.key);
    forall row | row in values ensures KeyOf(row) in ks {
      assert KeyOf(row) in Keys(values);
      var i :| 0 <= i < |rows| && rows[i].rate.key == KeyOf(row);
      assert ks[i] == KeyOf(row);
    }
    GroupsCoverTotal(ks, values);
    ProjectedAlongKeys(rows, ks, values);
  }

  /** Sums of valid counts are valid counts. */
  lemma {:induction false} SumsStayValid(values: seq<CourseRow>, k: ProjectionKey)
    requires forall row :: row in values ==> ValidCounts(row.stats)
    requires k in Keys(values)
    ensures ValidCounts(Sums(values, k))
  {
    var front, last := values[..|values| - 1], values[|values| - 1];
    assert forall r :: r in values <==> r in front || r == last by { assert values == front + [last]; }
    if k in Keys(front) {
      SumsStayValid(front, k);
      if KeyOf(last) == k { ValidCountsAdd(Sums(front, k), last.stats); }
    } else {
      AbsentGroup(front, k);
      ZeroIsUnit(last.stats);
    }
  }

  lemma {:induction false} SumsStayPartitioned(values: seq<CourseRow>, k: ProjectionKey)
    requires forall row :: row in values ==> Consistent(row.stats)
    ensures Consistent(Sums(values, k))
  {
    if values != [] {
      var front, last := values[..|values| - 1], values[|values| - 1];
      assert forall r :: r in values <==> r in front || r == last by { assert values == front + [last]; }
      SumsStayPartitioned(front, k);
      if KeyOf(last) == k { ConsistentAdd(Sums(front, k), last.stats); }
    }
  }
}
