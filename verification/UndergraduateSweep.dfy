/** The second phase of the undergraduate merge: group rows by identity and week set, sort each group
    by section and sweep it once, keeping the running maximum end. */
module UndergraduateSweep {
  import opened Timetable
  import opened UndergraduateMerge

  // ------------------------------------------------------------------ sorting

  predicate NotAfter(a: Course, b: Course) { a.start < b.start || (a.start == b.start && a.end <= b.end) }

  predicate Sorted(s: seq<Course>) { forall i, j :: 0 <= i < j < |s| ==> NotAfter(s[i], s[j]) }

  /** Stable insertion: after every row that is not after it. */
  function InsertRow(c: Course, s: seq<Course>): (r: seq<Course>)
    requires Sorted(s)
    ensures Sorted(r) && |r| == |s| + 1 && forall x :: x in r <==> x == c || x in s
  {
    if s == [] then [c]
    else
      assert s == [s[0]] + s[1..];
      if NotAfter(s[0], c) then
        var rest := InsertRow(c, s[1..]);
        assert forall x :: x in rest ==> NotAfter(s[0], x);
        [s[0]] + rest
      else [c] + s
  }

  function SortRows(s: seq<Course>): (r: seq<Course>)
    ensures Sorted(r) && |r| == |s| && forall x :: x in r <==> x in s
  {
    if s == [] then []
    else
      assert s == s[..|s| - 1] + [s[|s| - 1]];
      InsertRow(s[|s| - 1], SortRows(s[..|s| - 1]))
  }

  // -------------------------------------------------------------------- sweep

  predicate SectionsTouch(left: Course, right: Course) {
    left.start <= right.end + 1 && right.start <= left.end + 1
  }

  predicate InRange(c: Course, section: int) { c.start <= section <= c.end }

  ghost predicate CoversSection(rows: seq<Course>, section: int) {
    exists i :: 0 <= i < |rows| && InRange(rows[i], section)
  }

  predicate Gapped(rows: seq<Course>) {
    AllWellFormed(rows) && forall i, j :: 0 <= i < j < |rows| ==> rows[i].end + 1 < rows[j].start
  }

  /** A group's rows: one identity, one week set. */
  predicate OneGroup(rows: seq<Course>, k: GroupKey) { forall c :: c in rows ==> GroupKeyOf(c) == k }

  /** The ID an output of group `k` carries. */
  predicate IdSettled(r: Course, k: GroupKey) {
    r.id == if k.identity.boundary == NoId || HasCoursePrefix(k.identity.boundary)
        then DerivedId(r) else k.identity.boundary
  }

  predicate BelongsTo(r: Course, k: GroupKey) { r.base == k.identity.base && r.weeks == k.weeks }

  lemma AppendSection(rows: seq<Course>, c: Course)
    ensures forall section ::
              CoversSection(rows + [c], section)
              <==> CoversSection(rows, section) || InRange(c, section)
  {
    forall section ensures CoversSection(rows + [c], section) <==> CoversSection(rows, section) || InRange(c, section) {
      assert (rows + [c])[|rows|] == c;
      if i :| 0 <= i < |rows| && InRange(rows[i], section) { assert InRange((rows + [c])[i], section); }
    }
  }

  /** State of the sweep: closed blocks, the open block, and how many rows were consumed. */
  ghost predicate SweepInv(group: seq<Course>, k: GroupKey, closed: seq<Course>, current: Course, n: nat) {
    && n <= |group|
    && (forall r :: r in closed ==> BelongsTo(r, k) && IdSettled(r, k))
    && (exists g :: g in group && current.base == g.base && current.id == g.id && current.weeks == g.weeks)
    && (forall section ::
          CoversSection(group[..n], section)
          <==> CoversSection(closed, section) || InRange(current, section))
    && (AllWellFormed(group) ==>
          Gapped(closed) && current.WellFormed()
          && (forall r :: r in closed ==> r.end + 1 < current.start)
          && forall j :: n <= j < |group| ==> current.start <= group[j].start)
  }

  lemma CloseKeeps(group: seq<Course>, k: GroupKey, closed: seq<Course>, current: Course, n: nat)
    requires OneGroup(group, k) && Sorted(group) && n < |group| && SweepInv(group, k, closed, current, n)
    requires !SectionsTouch(current, group[n])
    ensures SweepInv(group, k, closed + [current.(id := FinalizedId(current))], group[n], n + 1)
  {
    var g :| g in group && current.base == g.base && current.id == g.id && current.weeks == g.weeks;
    var done := current.(id := FinalizedId(current));
    AppendSection(closed, done);
    AppendSection(group[..n], group[n]);
    assert group[..n + 1] == group[..n] + [group[n]];
    assert group[n] in group;
    if AllWellFormed(group) {
      assert current.end + 1 < group[n].start;
      assert forall j :: n < j < |group| ==> NotAfter(group[n], group[j]);
    }
  }

  lemma ExtendKeeps(group: seq<Course>, k: GroupKey, closed: seq<Course>, current: Course, n: nat, wider: Course)
    requires Sorted(group) && n < |group| && SweepInv(group, k, closed, current, n) && SectionsTouch(current, group[n])
    requires wider == current.(start := if group[n].start < current.start then group[n].start else current.start,
                               end := if group[n].end > current.end then group[n].end else current.end)
    ensures SweepInv(group, k, closed, wider, n + 1)
  {
    AppendSection(group[..n], group[n]);
    assert group[..n + 1] == group[..n] + [group[n]];
    assert group[n] in group;
    assert forall section :: InRange(wider, section) <==> InRange(current, section) || InRange(group[n], section);
  }

  lemma SweepStarts(group: seq<Course>, k: GroupKey)
    requires group != [] && Sorted(group)
    ensures SweepInv(group, k, [], group[0], 1)
  {
    AppendSection([], group[0]);
    assert [] + [group[0]] == group[..1];
    assert group[0] in group;
    assert forall j :: 1 <= j < |group| ==> NotAfter(group[0], group[j]);
  }

  lemma SweepEnds(group: seq<Course>, k: GroupKey, closed: seq<Course>, current: Course)
    requires OneGroup(group, k) && SweepInv(group, k, closed, current, |group|)
    ensures var result := closed + [current.(id := FinalizedId(current))];
            && (forall section :: CoversSection(result, section) <==> CoversSection(group, section))
            && (forall r :: r in result ==> BelongsTo(r, k) && IdSettled(r, k))
            && (AllWellFormed(group) ==> Gapped(result))
  {
    assert group[..|group|] == group;
    var g :| g in group && current.base == g.base && current.id == g.id && current.weeks == g.weeks;
    AppendSection(closed, current.(id := FinalizedId(current)));
  }

  /** One pass over a sorted group. */
  method Sweep(group: seq<Course>, ghost k: GroupKey) returns (result: seq<Course>)
    requires group != [] && OneGroup(group, k) && Sorted(group)
    ensures forall section :: CoversSection(result, section) <==> CoversSection(group, section)
    ensures forall r :: r in result ==> BelongsTo(r, k) && IdSettled(r, k)
    ensures AllWellFormed(group) ==> Gapped(result)
  {
    result := [];
    var current := group[0];
    SweepStarts(group, k);
    for n := 1 to |group|
      invariant SweepInv(group, k, result, current, n)
    {
      var course := group[n];
      if !SectionsTouch(current, course) {
        CloseKeeps(group, k, result, current, n);
        result := result + [current.(id := FinalizedId(current))];
        current := course;
      } else {
        ghost var before := current;
        if course.start < current.start { current := current.(start := course.start); }
        if course.end > current.end { current := current.(end := course.end); }
        ExtendKeeps(group, k, result, before, n, current);
      }
    }
    SweepEnds(group, k, result, current);
    result := result + [current.(id := FinalizedId(current))];
  }

  // ----------------------------------------------------------------- grouping

  /** The rows of one group, in input order. */
  function Members(rows: seq<Course>, k: GroupKey): (r: seq<Course>)
    ensures OneGroup(r, k) && forall c :: c in r <==> c in rows && GroupKeyOf(c) == k
  {
    if rows == [] then []
    else
      assert rows == rows[..|rows| - 1] + [rows[|rows| - 1]];
      Members(rows[..|rows| - 1], k) + (if GroupKeyOf(rows[|rows| - 1]) == k then [rows[|rows| - 1]] else [])
  }

  ghost predicate Grouped(rows: seq<Course>, groups: map<GroupKey, seq<Course>>, order: seq<GroupKey>) {
    && (forall k :: k in order <==> k in groups)
    && (forall i, j :: 0 <= i < j < |order| ==> order[i] != order[j])
    && (forall k :: k in groups ==> groups[k] == Members(rows, k) && groups[k] != [])
    && (forall k :: k !in groups ==> Members(rows, k) == [])
  }

  lemma MembersGrow(front: seq<Course>, c: Course, k: GroupKey)
    ensures Members(front + [c], k) == Members(front, k) + (if GroupKeyOf(c) == k then [c] else [])
  {
    assert (front + [c])[..|front|] == front;
  }

  lemma GroupGrows(
    front: seq<Course>, c: Course, key: GroupKey, groups: map<GroupKey, seq<Course>>, order: seq<GroupKey>)
    requires Grouped(front, groups, order) && key == GroupKeyOf(c)
    ensures key in groups ==> Grouped(front + [c], groups[key := groups[key] + [c]], order)
    ensures key !in groups ==> Grouped(front + [c], groups[key := [c]], order + [key])
  {
    forall k ensures Members(front + [c], k) == if k == key then Members(front, k) + [c] else Members(front, k) {
      MembersGrow(front, c, k);
    }
    if key in groups { OldGroupGrows(front, front + [c], c, key, groups, order); }
    else { NewGroupOpens(front, front + [c], c, key, groups, order); }
  }

  lemma OldGroupGrows(
    front: seq<Course>, rows: seq<Course>, c: Course, key: GroupKey, groups: map<GroupKey, seq<Course>>,
    order: seq<GroupKey>)
    requires Grouped(front, groups, order) && key in groups
    requires forall k :: Members(rows, k) == if k == key then Members(front, k) + [c] else Members(front, k)
    ensures Grouped(rows, groups[key := groups[key] + [c]], order)
  {
    var grown := groups[key := groups[key] + [c]];
    forall k | k in grown ensures grown[k] == Members(rows, k) && grown[k] != [] {
      assert groups[k] == Members(front, k);
    }
    forall k | k !in grown ensures Members(rows, k) == [] { assert k !in groups && k != key; }
  }

  lemma NewGroupOpens(
    front: seq<Course>, rows: seq<Course>, c: Course, key: GroupKey, groups: map<GroupKey, seq<Course>>,
    order: seq<GroupKey>)
    requires Grouped(front, groups, order) && key !in groups
    requires forall k :: Members(rows, k) == if k == key then Members(front, k) + [c] else Members(front, k)
    ensures Grouped(rows, groups[key := [c]], order + [key])
  {
    NewKeyListed(order, key, groups, [c]);
    NewGroupMembers(front, rows, c, key, groups);
  }

  lemma NewGroupMembers(
    front: seq<Course>, rows: seq<Course>, c: Course, key: GroupKey, groups: map<GroupKey, seq<Course>>)
    requires key !in groups
    requires forall k :: k in groups ==> groups[k] == Members(front, k) && groups[k] != []
    requires forall k :: k !in groups ==> Members(front, k) == []
    requires forall k :: Members(rows, k) == if k == key then Members(front, k) + [c] else Members(front, k)
    ensures var grown := groups[key := [c]];
            && (forall k :: k in grown ==> grown[k] == Members(rows, k) && grown[k] != [])
            && (forall k :: k !in grown ==> Members(rows, k) == [])
  {
    assert Members(rows, key) == [] + [c] == [c];
  }

  lemma NewKeyListed(order: seq<GroupKey>, key: GroupKey, groups: map<GroupKey, seq<Course>>, members: seq<Course>)
    requires (forall k :: k in order <==> k in groups) && key !in groups
    requires forall i, j :: 0 <= i < j < |order| ==> order[i] != order[j]
    ensures forall k :: k in order + [key] <==> k in groups[key := members]
    ensures var longer := order + [key]; forall i, j :: 0 <= i < j < |longer| ==> longer[i] != longer[j]
  {
    assert forall i :: 0 <= i < |order| ==> order[i] in order;
  }

  /** Groups with their keys in order of first appearance. */
  method GroupRows(rows: seq<Course>) returns (groups: map<GroupKey, seq<Course>>, order: seq<GroupKey>)
    ensures Grouped(rows, groups, order)
  {
    groups, order := map[], [];
    for i := 0 to |rows|
      invariant Grouped(rows[..i], groups, order)
    {
      assert rows[..i + 1] == rows[..i] + [rows[i]];
      groups, order := GroupRow(rows[..i], rows[i], groups, order);
    }
    assert rows[..|rows|] == rows;
  }

  method GroupRow(ghost front: seq<Course>, row: Course, before: map<GroupKey, seq<Course>>, listed: seq<GroupKey>)
    returns (groups: map<GroupKey, seq<Course>>, order: seq<GroupKey>)
    requires Grouped(front, before, listed)
    ensures Grouped(front + [row], groups, order)
  {
    groups, order := before, listed;
    var key := GroupKeyOf(row);
    GroupGrows(front, row, key, groups, order);
    if key !in groups {
      order := order + [key];
      groups := groups[key := [row]];
    } else {
      groups := groups[key := groups[key] + [row]];
    }
  }

  // ------------------------------------------------------------------- result

  /** Which sections the outputs of one group cover. */
  ghost predicate GroupCovers(result: seq<Course>, keys: seq<GroupKey>, k: GroupKey, section: int)
    requires |keys| == |result|
  {
    exists i :: 0 <= i < |result| && keys[i] == k && InRange(result[i], section)
  }

  ghost predicate OutputsSettled(result: seq<Course>, keys: seq<GroupKey>) {
    |keys| == |result| && forall i :: 0 <= i < |result| ==>
        BelongsTo(result[i], keys[i]) && IdSettled(result[i], keys[i])
  }

  /** Within a group outputs ascend and leave a gap: they are the maximal runs of its sections. */
  ghost predicate OutputsGapped(result: seq<Course>, keys: seq<GroupKey>)
    requires |keys| == |result|
  {
    AllWellFormed(result) && forall i, j :: 0 <= i < j < |result| && keys[i] == keys[j] ==>
        result[i].end + 1 < result[j].start
  }

  /** What the second phase promises of its input rows. */
  ghost predicate AdjacentMerged(rows: seq<Course>, result: seq<Course>, keys: seq<GroupKey>) {
    && OutputsSettled(result, keys)
    && (forall k, section :: GroupCovers(result, keys, k, section) <==> CoversSection(Members(rows, k), section))
    && (AllWellFormed(rows) ==> OutputsGapped(result, keys))
  }

  lemma GroupAppended(result: seq<Course>, keys: seq<GroupKey>, k: GroupKey, block: seq<Course>)
    requires |keys| == |result| && k !in keys
    requires forall r :: r in block ==> BelongsTo(r, k) && IdSettled(r, k)
    ensures var result', keys' := result + block, keys + seq(|block|, _ => k);
            && (OutputsSettled(result, keys) ==> OutputsSettled(result', keys'))
            && (forall other, section :: other != k ==> (GroupCovers(result', keys', other, section)
                <==> GroupCovers(result, keys, other, section)))
            && (forall section :: GroupCovers(result', keys', k, section) <==> CoversSection(block, section))
            && (OutputsGapped(result, keys) && Gapped(block) ==> OutputsGapped(result', keys'))
  {
    var result', keys' := result + block, keys + seq(|block|, _ => k);
    forall other, section | other != k
      ensures GroupCovers(result', keys', other, section) <==> GroupCovers(result, keys, other, section)
    {
      if i :| 0 <= i < |result| && keys[i] == other && InRange(result[i], section) {
        assert keys'[i] == other && InRange(result'[i], section);
      }
    }
    forall section ensures GroupCovers(result', keys', k, section) <==> CoversSection(block, section) {
      if i :| 0 <= i < |block| && InRange(block[i], section) {
        assert keys'[|result| + i] == k && InRange(result'[|result| + i], section);
      }
      if i :| 0 <= i < |result'| && keys'[i] == k && InRange(result'[i], section) {
        assert i >= |result| && InRange(block[i - |result|], section);
      }
    }
  }

  /** The groups listed in `done` are merged. */
  ghost predicate MergedSoFar(rows: seq<Course>, done: seq<GroupKey>, result: seq<Course>, keys: seq<GroupKey>) {
    && OutputsSettled(result, keys) && (forall k :: k in keys ==> k in done)
    && (forall k, section :: k in done ==> (GroupCovers(result, keys, k, section)
        <==> CoversSection(Members(rows, k), section)))
    && (AllWellFormed(rows) ==> OutputsGapped(result, keys))
  }

  lemma NextGroupMerged(
    rows: seq<Course>, done: seq<GroupKey>, result: seq<Course>, keys: seq<GroupKey>, k: GroupKey, block: seq<Course>)
    requires MergedSoFar(rows, done, result, keys) && k !in done
    requires forall r :: r in block ==> BelongsTo(r, k) && IdSettled(r, k)
    requires forall section :: CoversSection(block, section) <==> CoversSection(Members(rows, k), section)
    requires AllWellFormed(rows) ==> Gapped(block)
    ensures MergedSoFar(rows, done + [k], result + block, keys + seq(|block|, _ => k))
  {
    GroupAppended(result, keys, k, block);
  }

  /** Sorts and sweeps every group, in order of first appearance. */
  method MergeAdjacent(rows: seq<Course>) returns (result: seq<Course>, ghost keys: seq<GroupKey>)
    ensures AdjacentMerged(rows, result, keys)
    ensures forall b, section, week :: BaseCovers(result, b, section, week) <==> BaseCovers(rows, b, section, week)
  {
    var groups, order := GroupRows(rows);
    result, keys := [], [];
    for n := 0 to |order|
      invariant MergedSoFar(rows, order[..n], result, keys)
    {
      var k := order[n];
      assert k in order && k !in order[..n];
      var block := MergeGroup(rows, groups[k], k);
      NextGroupMerged(rows, order[..n], result, keys, k, block);
      result := result + block;
      keys := keys + seq(|block|, _ => k);
      assert order[..n + 1] == order[..n] + [k];
    }
    assert order[..|order|] == order;
    AllGroupsMerged(rows, groups, order, result, keys);
    AdjacentKeepsPoints(rows, result, keys);
  }

  /** Sorts and sweeps the rows of one group. */
  method MergeGroup(ghost rows: seq<Course>, group: seq<Course>, ghost k: GroupKey) returns (block: seq<Course>)
    requires group == Members(rows, k) && group != []
    ensures forall r :: r in block ==> BelongsTo(r, k) && IdSettled(r, k)
    ensures forall section :: CoversSection(block, section) <==> CoversSection(Members(rows, k), section)
    ensures AllWellFormed(rows) ==> Gapped(block)
  {
    SortingKeepsSections(group);
    block := Sweep(SortRows(group), k);
  }

  lemma AllGroupsMerged(
    rows: seq<Course>, groups: map<GroupKey, seq<Course>>, order: seq<GroupKey>, result: seq<Course>,
    keys: seq<GroupKey>)
    requires Grouped(rows, groups, order) && MergedSoFar(rows, order, result, keys)
    ensures AdjacentMerged(rows, result, keys)
  {
    forall k, section ensures GroupCovers(result, keys, k, section) <==> CoversSection(Members(rows, k), section) {
      if k !in order { assert Members(rows, k) == []; }
    }
  }

  lemma SortingKeepsSections(group: seq<Course>)
    ensures forall section :: CoversSection(SortRows(group), section) <==> CoversSection(group, section)
    ensures AllWellFormed(group) ==> AllWellFormed(SortRows(group))
  {
    var sorted := SortRows(group);
    forall section ensures CoversSection(sorted, section) <==> CoversSection(group, section) {
      if i :| 0 <= i < |group| && InRange(group[i], section) { assert group[i] in sorted; }
      if i :| 0 <= i < |sorted| && InRange(sorted[i], section) { assert sorted[i] in group; }
    }
  }

  /** The whole merge: pool the weeks of each placement, then merge adjacent ranges. */
  method MergeUndergraduateCourses(courses: seq<Course>)
    returns (result: seq<Course>, ghost placed: seq<Course>, ghost keys: seq<GroupKey>)
    ensures Pooled(courses, placed) && AdjacentMerged(placed, result, keys)
    ensures forall b, section, week :: BaseCovers(result, b, section, week) <==> BaseCovers(courses, b, section, week)
  {
    var rows := PoolPlacements(courses);
    placed := rows;
    result, keys := MergeAdjacent(rows);
    forall b, section, week ensures BaseCovers(result, b, section, week) <==> BaseCovers(courses, b, section, week) {
      MergePreservesCoverage(courses, placed, result, keys, b, section, week);
    }
  }

  // ------------------------------------------------------------------ theorems

  ghost predicate BaseCovers(courses: seq<Course>, b: Base, section: int, week: int) {
    exists i :: 0 <= i < |courses| && courses[i].base == b && Occupies(courses[i], section, week)
  }

  lemma MembersCover(rows: seq<Course>, b: Base, section: int, week: int)
    ensures BaseCovers(rows, b, section, week)
            <==> exists k: GroupKey ::
                   k.identity.base == b && week in k.weeks && CoversSection(Members(rows, k), section)
  {
    if i :| 0 <= i < |rows| && rows[i].base == b && Occupies(rows[i], section, week) {
      var k := GroupKeyOf(rows[i]);
      assert rows[i] in Members(rows, k);
      var j :| 0 <= j < |Members(rows, k)| && Members(rows, k)[j] == rows[i];
      assert InRange(Members(rows, k)[j], section);
      assert k.identity.base == b && week in k.weeks && CoversSection(Members(rows, k), section);
    }
    if k: GroupKey :| k.identity.base == b && week in k.weeks && CoversSection(Members(rows, k), section) {
      var j :| 0 <= j < |Members(rows, k)| && InRange(Members(rows, k)[j], section);
      var c := Members(rows, k)[j];
      assert c in rows && GroupKeyOf(c) == k;
      var i :| 0 <= i < |rows| && rows[i] == c;
      assert Occupies(rows[i], section, week);
    }
  }

  lemma KeyedCoverage(courses: seq<Course>, b: Base, section: int, week: int)
    ensures BaseCovers(courses, b, section, week)
            <==> exists k: IdentityKey :: k.base == b && CoversKey(courses, k, section, week)
  {
    if i :| 0 <= i < |courses| && courses[i].base == b && Occupies(courses[i], section, week) {
      assert IdentityKeyOf(courses[i]).base == b && CoversKey(courses, IdentityKeyOf(courses[i]), section, week);
    }
  }

  /** Two-phase merging preserves meaning: the occupied (course, section, week) points are exactly
      those of the input, reversed ranges included. */
  lemma MergePreservesCoverage(
    courses: seq<Course>, placed: seq<Course>, result: seq<Course>, keys: seq<GroupKey>, b: Base, section: int,
    week: int)
    requires Pooled(courses, placed) && AdjacentMerged(placed, result, keys)
    ensures BaseCovers(result, b, section, week) <==> BaseCovers(courses, b, section, week)
  {
    KeyedCoverage(courses, b, section, week);
    KeyedCoverage(placed, b, section, week);
    AdjacentKeepsCoverage(placed, result, keys, b, section, week);
  }

  lemma AdjacentKeepsCoverage(
    rows: seq<Course>, result: seq<Course>, keys: seq<GroupKey>, b: Base, section: int, week: int)
    requires AdjacentMerged(rows, result, keys)
    ensures BaseCovers(result, b, section, week) <==> BaseCovers(rows, b, section, week)
  {
    MembersCover(rows, b, section, week);
  }

  lemma AdjacentKeepsPoints(rows: seq<Course>, result: seq<Course>, keys: seq<GroupKey>)
    requires AdjacentMerged(rows, result, keys)
    ensures forall b, section, week :: BaseCovers(result, b, section, week) <==> BaseCovers(rows, b, section, week)
  {
    forall b, section, week ensures BaseCovers(result, b, section, week) <==> BaseCovers(rows, b, section, week) {
      AdjacentKeepsCoverage(rows, result, keys, b, section, week);
    }
  }

  /** An ID supplied from outside that does not look derived. */
  predicate Foreign(id: CourseId) { id.Explicit? && !("course-" <= id.text) }

  /** Every output stands for a row of its identity and weeks.  It keeps that row's ID if it is a foreign one, and
      else carries the ID derived from its own, merged placement. */
  lemma OutputIds(rows: seq<Course>, result: seq<Course>, keys: seq<GroupKey>, i: nat) returns (c: Course)
    requires AdjacentMerged(rows, result, keys) && AllWellFormed(rows) && i < |result|
    ensures c in rows && IdentityKeyOf(c) == keys[i].identity && c.base == result[i].base && c.weeks == result[i].weeks
    ensures result[i].id
            == if Foreign(c.id) then c.id else Derived(Placement(result[i].base, result[i].start, result[i].end))
  {
    assert result[i] in result && result[i].WellFormed() && InRange(result[i], result[i].start);
    assert GroupCovers(result, keys, keys[i], result[i].start);
    var j: nat :| j < |Members(rows, keys[i])| && InRange(Members(rows, keys[i])[j], result[i].start);
    c := Members(rows, keys[i])[j];
    assert c in Members(rows, keys[i]);
    assert BelongsTo(result[i], keys[i]) && IdSettled(result[i], keys[i]);
  }

  /** Outputs of one group are maximal: the sections next to an output are not covered by its group. */
  lemma OutputsAreMaximal(rows: seq<Course>, result: seq<Course>, keys: seq<GroupKey>, i: nat)
    requires AdjacentMerged(rows, result, keys) && AllWellFormed(rows) && i < |result|
    ensures !CoversSection(Members(rows, keys[i]), result[i].start - 1)
    ensures !CoversSection(Members(rows, keys[i]), result[i].end + 1)
    ensures forall section :: InRange(result[i], section) ==> CoversSection(Members(rows, keys[i]), section)
  {
    forall j | 0 <= j < |result| && keys[j] == keys[i]
      ensures !InRange(result[j], result[i].start - 1) && !InRange(result[j], result[i].end + 1)
    {
      assert result[j] in result && result[i] in result;
    }
    assert !GroupCovers(result, keys, keys[i], result[i].start - 1);
    assert !GroupCovers(result, keys, keys[i], result[i].end + 1);
    assert forall section :: InRange(result[i], section) ==> GroupCovers(result, keys, keys[i], section);
  }
}
