/** The graduate timetable merge: fragments are folded in one at a time, first by exact placement,
    then by collapsing touching entries until none touch. */
module GraduateMerge {
  import opened Timetable

  /** Identity ignores the class number and the ID. */
  function Identity(c: Course): Base { c.base.(classNum := "") }

  function UniqueWeeks(weeks: seq<int>): (r: seq<int>)
    ensures Ascending(r) && forall x :: x in r <==> x in weeks && x > 0
  {
    SortedWeeks(PositiveWeeks(weeks))
  }

  function MergeWeeks(left: seq<int>, right: seq<int>): (r: seq<int>)
    ensures Ascending(r) && forall x :: x in r <==> (x in left || x in right) && x > 0
  {
    UniqueWeeks(left + right)
  }

  predicate SameIdentity(left: Course, right: Course) {
    && left.base.periodId == right.base.periodId && left.base.weekday == right.base.weekday
    && left.base.name == right.base.name && left.base.teacher == right.base.teacher
    && left.base.campus == right.base.campus && left.base.location == right.base.location
    && left.base.note == right.base.note
    && (left.base.courseCode != "" || right.base.courseCode != "" ==> left.base.courseCode == right.base.courseCode)
  }

  predicate SamePlacement(left: Course, right: Course) {
    SameIdentity(left, right) && UniqueWeeks(left.weeks) == UniqueWeeks(right.weeks)
  }

  // --------------------------------------------------------------- meaning

  ghost predicate Point(c: Course, id: Base, section: int, week: int) {
    Identity(c) == id && c.start <= section <= c.end && week > 0 && week in c.weeks
  }

  /** The (identity, section, positive week) points a list occupies. */
  ghost predicate Covers(courses: seq<Course>, id: Base, section: int, week: int) {
    exists i :: 0 <= i < |courses| && Point(courses[i], id, section, week)
  }

  predicate Mergeable(left: Course, right: Course) { SamePlacement(left, right) && Touch(left, right) }

  predicate Settled(courses: seq<Course>) {
    forall i, j :: 0 <= i < j < |courses| ==> !Mergeable(courses[i], courses[j])
  }

  /** Both lists occupy the same points. */
  ghost predicate SameCoverage(a: seq<Course>, b: seq<Course>) {
    forall id, section, week :: Covers(a, id, section, week) <==> Covers(b, id, section, week)
  }

  function Remove<T>(s: seq<T>, i: nat): (r: seq<T>)
    requires i < |s|
    ensures |r| == |s| - 1 && forall k :: 0 <= k < |r| ==> r[k] == s[if k < i then k else k + 1]
  {
    s[..i] + s[i + 1..]
  }

  // ----------------------------------------------------------- exact phase

  predicate SameSpot(a: Course, b: Course) { SameIdentity(a, b) && a.start == b.start && a.end == b.end }

  /** The entry is one of the same course on the same sections. */
  predicate OnSpot(c: Course, spot: Course) {
    Identity(c) == Identity(spot) && c.start == spot.start && c.end == spot.end
  }

  lemma SameSpotExactly(a: Course, b: Course)
    ensures SameSpot(a, b) <==> OnSpot(a, b)
  {}

  /** The entries on other spots, in order. */
  function Elsewhere(courses: seq<Course>, spot: Course): seq<Course> {
    if courses == [] then []
    else
      var last := courses[|courses| - 1];
      Elsewhere(courses[..|courses| - 1], spot) + (if OnSpot(last, spot) then [] else [last])
  }

  /** The positive week belongs to the fragment or to some entry on its spot. */
  ghost predicate PooledWeek(courses: seq<Course>, spot: Course, week: int) {
    week > 0 && (week in spot.weeks || exists c :: c in courses && OnSpot(c, spot) && week in c.weeks)
  }

  /** What collecting a fragment leaves: one entry on its spot, at the place and with the base and ID of the first
      one there, or at the end; in it exactly the weeks of all entries there and of the fragment; and every other
      entry as it was, in the same order. */
  ghost predicate CollectedAt(before: seq<Course>, course: Course, now: seq<Course>, at: nat) {
    && at < |now| && OnSpot(now[at], course)
    && Ascending(now[at].weeks) && (forall week :: week in now[at].weeks <==> PooledWeek(before, course, week))
    && (forall j :: 0 <= j < |now| && j != at ==> !OnSpot(now[j], course))
    && Elsewhere(now, course) == Elsewhere(before, course)
    && at <= |before| && now[..at] == before[..at]
    && now[at] == (if at < |before| then before[at] else course).(weeks := now[at].weeks)
  }

  ghost predicate Collects(before: seq<Course>, course: Course, now: seq<Course>) {
    exists at :: CollectedAt(before, course, now, at)
  }

  lemma ElsewhereGrows(front: seq<Course>, c: Course, spot: Course)
    ensures Elsewhere(front + [c], spot) == Elsewhere(front, spot) + (if OnSpot(c, spot) then [] else [c])
  {
    assert (front + [c])[..|front|] == front;
  }

  lemma PooledGrows(front: seq<Course>, c: Course, spot: Course, week: int)
    ensures PooledWeek(front + [c], spot, week)
            <==> PooledWeek(front, spot, week) || (week > 0 && OnSpot(c, spot) && week in c.weeks)
  {
    assert c in front + [c] && forall x :: x in front ==> x in front + [c];
  }

  /** An entry on another spot changes nothing. */
  lemma PassedBy(front: seq<Course>, c: Course, course: Course, now: seq<Course>, at: nat)
    requires CollectedAt(front, course, now, at) && at < |front| && !OnSpot(c, course)
    ensures CollectedAt(front + [c], course, now + [c], at)
  {
    ElsewhereGrows(front, c, course);
    ElsewhereGrows(now, c, course);
    forall week ensures PooledWeek(front + [c], course, week) <==> PooledWeek(front, course, week) {
      PooledGrows(front, c, course, week);
    }
  }

  lemma {:induction false} NoneThere(front: seq<Course>, spot: Course)
    requires forall c :: c in front ==> !OnSpot(c, spot)
    ensures Elsewhere(front, spot) == front
    ensures forall week :: PooledWeek(front, spot, week) <==> week > 0 && week in spot.weeks
  {
    if front != [] {
      var before, last := front[..|front| - 1], front[|front| - 1];
      assert front == before + [last];
      NoneThere(before, spot);
    }
  }

  /** The first entry on the spot takes the fragment's weeks. */
  lemma FirstTakes(front: seq<Course>, c: Course, course: Course, taken: Course)
    requires OnSpot(c, course) && forall x :: x in front ==> !OnSpot(x, course)
    requires taken == c.(weeks := MergeWeeks(c.weeks, course.weeks))
    ensures CollectedAt(front + [c], course, front + [taken], |front|)
  {
    NoneThere(front, course);
    ElsewhereGrows(front, c, course);
    ElsewhereGrows(front, taken, course);
    forall week ensures week in taken.weeks <==> PooledWeek(front + [c], course, week) {
      PooledGrows(front, c, course, week);
    }
    forall j | 0 <= j < |front| ensures !OnSpot((front + [taken])[j], course) { assert front[j] in front; }
  }

  lemma {:induction false} ElsewhereIgnores(now: seq<Course>, at: nat, wider: Course, spot: Course)
    requires at < |now| && OnSpot(now[at], spot) && OnSpot(wider, spot)
    ensures Elsewhere(now[at := wider], spot) == Elsewhere(now, spot)
  {
    var front := now[..|now| - 1];
    if at < |now| - 1 {
      assert now[at := wider][..|now| - 1] == front[at := wider];
      ElsewhereIgnores(front, at, wider, spot);
    } else {
      assert now[at := wider][..|now| - 1] == front;
    }
  }

  /** A further entry on the spot gives its weeks to the first one and goes. */
  lemma Absorbed(front: seq<Course>, c: Course, course: Course, now: seq<Course>, at: nat, wider: Course)
    requires CollectedAt(front, course, now, at) && at < |front| && OnSpot(c, course)
    requires wider == now[at].(weeks := MergeWeeks(now[at].weeks, c.weeks))
    ensures CollectedAt(front + [c], course, now[at := wider], at)
  {
    ElsewhereGrows(front, c, course);
    ElsewhereIgnores(now, at, wider, course);
    forall week ensures week in wider.weeks <==> PooledWeek(front + [c], course, week) {
      PooledGrows(front, c, course, week);
    }
    assert now[at := wider][..at] == now[..at] == front[..at] == (front + [c])[..at];
  }

  /** No entry is on the spot: the fragment is added at the end. */
  lemma Appended(courses: seq<Course>, course: Course)
    requires course.weeks == UniqueWeeks(course.weeks) && forall c :: c in courses ==> !OnSpot(c, course)
    ensures CollectedAt(courses, course, courses + [course], |courses|)
  {
    NoneThere(courses, course);
    ElsewhereGrows(courses, course, course);
    forall j | 0 <= j < |courses| ensures !OnSpot((courses + [course])[j], course) { assert courses[j] in courses; }
  }

  /** The first `n` entries are done, and stand before `index`. */
  ghost predicate Scanned(
    courses: seq<Course>, course: Course, now: seq<Course>, index: int, exactIndex: int, n: nat) {
    && n <= |courses| && 0 <= index <= |now| && now[index..] == courses[n..] && -1 <= exactIndex < index
    && (exactIndex == -1 ==> now[..index] == courses[..n] && forall c :: c in courses[..n] ==> !OnSpot(c, course))
    && (exactIndex >= 0 ==> exactIndex < n && CollectedAt(courses[..n], course, now[..index], exactIndex))
  }

  lemma NextIsNext(courses: seq<Course>, course: Course, now: seq<Course>, index: int, exactIndex: int, n: nat)
    requires Scanned(courses, course, now, index, exactIndex, n) && index < |now|
    ensures n < |courses| && now[index] == courses[n] && courses[..n + 1] == courses[..n] + [courses[n]]
    ensures now[index + 1..] == courses[n + 1..]
  {
    assert now[index..][0] == courses[n..][0];
    assert now[index..][1..] == courses[n..][1..];
  }

  lemma ScanPasses(courses: seq<Course>, course: Course, now: seq<Course>, index: int, exactIndex: int, n: nat)
    requires Scanned(courses, course, now, index, exactIndex, n) && index < |now| && !OnSpot(now[index], course)
    ensures Scanned(courses, course, now, index + 1, exactIndex, n + 1)
  {
    NextIsNext(courses, course, now, index, exactIndex, n);
    assert now[..index + 1] == now[..index] + [now[index]];
    if exactIndex >= 0 { PassedBy(courses[..n], now[index], course, now[..index], exactIndex); }
  }

  lemma ScanFinds(
    courses: seq<Course>, course: Course, now: seq<Course>, index: int, n: nat, wider: seq<Course>)
    requires Scanned(courses, course, now, index, -1, n) && index < |now| && OnSpot(now[index], course)
    requires wider == now[index := now[index].(weeks := MergeWeeks(now[index].weeks, course.weeks))]
    ensures Scanned(courses, course, wider, index + 1, index, n + 1)
  {
    NextIsNext(courses, course, now, index, -1, n);
    FirstTakes(courses[..n], courses[n], course, wider[index]);
    assert wider[..index + 1] == courses[..n] + [wider[index]];
    assert wider[index + 1..] == now[index + 1..];
  }

  lemma ScanAbsorbs(
    courses: seq<Course>, course: Course, now: seq<Course>, index: int, exactIndex: int, n: nat, wider: seq<Course>)
    requires Scanned(courses, course, now, index, exactIndex, n) && index < |now| && OnSpot(now[index], course)
    requires exactIndex >= 0
    requires wider == now[exactIndex := now[exactIndex].(weeks := MergeWeeks(now[exactIndex].weeks, now[index].weeks))]
    ensures Scanned(courses, course, Remove(wider, index), index, exactIndex, n + 1)
  {
    NextIsNext(courses, course, now, index, exactIndex, n);
    Absorbed(courses[..n], courses[n], course, now[..index], exactIndex, wider[exactIndex]);
    assert Remove(wider, index)[..index] == now[..index][exactIndex := wider[exactIndex]];
    assert Remove(wider, index)[index..] == now[index + 1..];
  }

  lemma {:induction false} ElsewhereMembers(courses: seq<Course>, spot: Course)
    ensures forall c :: c in Elsewhere(courses, spot) <==> c in courses && !OnSpot(c, spot)
  {
    if courses != [] {
      var front, last := courses[..|courses| - 1], courses[|courses| - 1];
      assert courses == front + [last];
      ElsewhereMembers(front, spot);
    }
  }

  /** Entry by entry: what is left is the collecting entry, or was elsewhere before. */
  lemma CollectedEntries(before: seq<Course>, course: Course, now: seq<Course>, at: nat)
    requires CollectedAt(before, course, now, at)
    ensures forall c :: c in now <==> c == now[at] || (c in before && !OnSpot(c, course))
  {
    ElsewhereMembers(before, course);
    ElsewhereMembers(now, course);
  }

  /** The points are those before, plus the fragment's. */
  lemma CollectedCovers(before: seq<Course>, course: Course, now: seq<Course>, at: nat)
    requires CollectedAt(before, course, now, at)
    ensures forall id, section, week ::
              Covers(now, id, section, week) <==> Covers(before, id, section, week) || Point(course, id, section, week)
  {
    CollectedEntries(before, course, now, at);
    forall id, section, week
      ensures Covers(now, id, section, week)
              <==> Covers(before, id, section, week) || Point(course, id, section, week)
    {
      CoversByEntry(now, id, section, week);
      CoversByEntry(before, id, section, week);
      assert Point(now[at], id, section, week)
          <==> Identity(course) == id && course.start <= section <= course.end && PooledWeek(before, course, week);
    }
  }

  lemma CoversByEntry(courses: seq<Course>, id: Base, section: int, week: int)
    ensures Covers(courses, id, section, week) <==> exists c :: c in courses && Point(c, id, section, week)
  {
    if c :| c in courses && Point(c, id, section, week) {
      var i :| 0 <= i < |courses| && courses[i] == c;
    }
  }

  /** Ranges stay well-formed, and a list written in the fragment's weeks stays in them. */
  lemma CollectedKeeps(before: seq<Course>, course: Course, now: seq<Course>, at: nat)
    requires CollectedAt(before, course, now, at) && course.weeks == UniqueWeeks(course.weeks)
    ensures AllWellFormed(before) && course.WellFormed() ==> AllWellFormed(now)
    ensures HaveWeeks(before, course.weeks) ==> HaveWeeks(now, course.weeks)
  {
    CollectedEntries(before, course, now, at);
    if HaveWeeks(before, course.weeks) { AscendingUnique(now[at].weeks, course.weeks); }
  }

  /** Dropping an entry loses exactly its own points, unless another entry has them. */
  lemma DropEntry(courses: seq<Course>, i: nat)
    requires i < |courses|
    ensures forall id, section, week ::
              Covers(courses, id, section, week)
              <==> Covers(Remove(courses, i), id, section, week) || Point(courses[i], id, section, week)
  {
    var fewer := Remove(courses, i);
    forall id, section, week
      ensures Covers(courses, id, section, week)
              <==> Covers(fewer, id, section, week) || Point(courses[i], id, section, week)
    {
      if j :| 0 <= j < |courses| && Point(courses[j], id, section, week) {
        assert j < i ==> fewer[j] == courses[j];
        assert j > i ==> fewer[j - 1] == courses[j];
      }
      if j :| 0 <= j < |fewer| && Point(fewer[j], id, section, week) {
        assert fewer[j] == if j < i then courses[j] else courses[j + 1];
      }
    }
  }

  lemma AppendEntry(courses: seq<Course>, c: Course)
    ensures forall id, section, week ::
              Covers(courses + [c], id, section, week)
              <==> Covers(courses, id, section, week) || Point(c, id, section, week)
  {
    forall id, section, week
      ensures Covers(courses + [c], id, section, week)
              <==> Covers(courses, id, section, week) || Point(c, id, section, week)
    {
      assert (courses + [c])[|courses|] == c;
      if j :| 0 <= j < |courses| && Point(courses[j], id, section, week) {
        assert (courses + [c])[j] == courses[j];
      }
    }
  }

  /** Collects the fragment into the first entry on the same spot, absorbing any further ones. */
  method ExactPhase(courses: seq<Course>, course: Course) returns (result: seq<Course>)
    requires course.weeks == UniqueWeeks(course.weeks)
    ensures Collects(courses, course, result)
  {
    result := courses;
    var exactIndex := -1;
    var index := 0;
    while index < |result|
      invariant -1 <= exactIndex < index <= |result|
      invariant ExactFrom(course, result, index, exactIndex) == ExactFrom(course, courses, 0, -1)
      decreases |result| - index
    {
      if SameSpot(result[index], course) {
        result := Visited(course, result, index, exactIndex);
        if exactIndex == -1 {
          exactIndex := index;
        } else {
          index := index - 1;
        }
      }
      index := index + 1;
    }
    if exactIndex == -1 {
      result := result + [course];
    }
    ExactCollects(courses, course);
  }

  lemma ExactCollects(courses: seq<Course>, course: Course)
    requires course.weeks == UniqueWeeks(course.weeks)
    ensures Collects(courses, course, ExactFrom(course, courses, 0, -1))
  {
    assert courses[0..] == courses && courses[..0] == [];
    ScanCollects(courses, course, courses, 0, -1, 0);
  }

  /** What the rest of the loop makes of a list whose first `index` entries are done. */
  function ExactFrom(course: Course, now: seq<Course>, index: int, exactIndex: int): seq<Course>
    requires -1 <= exactIndex < index <= |now|
    decreases |now| - index
  {
    if index == |now| then if exactIndex == -1 then now + [course] else now
    else if !SameSpot(now[index], course) then ExactFrom(course, now, index + 1, exactIndex)
    else
      var after := Visited(course, now, index, exactIndex);
      if exactIndex == -1 then ExactFrom(course, after, index + 1, index)
      else ExactFrom(course, after, index, exactIndex)
  }

  lemma {:induction false} ScanCollects(
    courses: seq<Course>, course: Course, now: seq<Course>, index: int, exactIndex: int, n: nat)
    requires Scanned(courses, course, now, index, exactIndex, n) && course.weeks == UniqueWeeks(course.weeks)
    ensures Collects(courses, course, ExactFrom(course, now, index, exactIndex))
    decreases |now| - index
  {
    if index == |now| {
      ScanEnds(courses, course, now, index, exactIndex, n);
    } else {
      var after, next, found := ScanOne(courses, course, now, index, exactIndex, n);
      ScanCollects(courses, course, after, next, found, n + 1);
    }
  }

  lemma ScanOne(courses: seq<Course>, course: Course, now: seq<Course>, index: int, exactIndex: int, n: nat)
    returns (after: seq<Course>, next: int, found: int)
    requires Scanned(courses, course, now, index, exactIndex, n) && index < |now|
    ensures Scanned(courses, course, after, next, found, n + 1) && |after| - next < |now| - index
    ensures ExactFrom(course, now, index, exactIndex) == ExactFrom(course, after, next, found)
  {
    SameSpotExactly(now[index], course);
    if !SameSpot(now[index], course) {
      ScanPasses(courses, course, now, index, exactIndex, n);
      after, next, found := now, index + 1, exactIndex;
    } else if exactIndex == -1 {
      after := ScanFirst(courses, course, now, index, n);
      next, found := index + 1, index;
    } else {
      after := ScanAgain(courses, course, now, index, exactIndex, n);
      next, found := index, exactIndex;
    }
  }

  lemma ScanFirst(courses: seq<Course>, course: Course, now: seq<Course>, index: int, n: nat)
    returns (after: seq<Course>)
    requires Scanned(courses, course, now, index, -1, n) && index < |now| && OnSpot(now[index], course)
    ensures after == Visited(course, now, index, -1) && |after| == |now|
    ensures Scanned(courses, course, after, index + 1, index, n + 1)
  {
    after := Visited(course, now, index, -1);
    ScanFinds(courses, course, now, index, n, after);
  }

  lemma ScanAgain(courses: seq<Course>, course: Course, now: seq<Course>, index: int, exactIndex: int, n: nat)
    returns (after: seq<Course>)
    requires Scanned(courses, course, now, index, exactIndex, n) && index < |now| && OnSpot(now[index], course)
    requires exactIndex >= 0
    ensures after == Visited(course, now, index, exactIndex) && |after| == |now| - 1
    ensures Scanned(courses, course, after, index, exactIndex, n + 1)
  {
    var keeper := now[exactIndex];
    ScanAbsorbs(courses, course, now, index, exactIndex, n,
                now[exactIndex := keeper.(weeks := MergeWeeks(keeper.weeks, now[index].weeks))]);
    after := Visited(course, now, index, exactIndex);
  }

  /** An entry on the spot: the first one takes the fragment's weeks, a further one gives its own to the first. */
  function Visited(course: Course, now: seq<Course>, index: int, exactIndex: int): seq<Course>
    requires -1 <= exactIndex < index < |now|
  {
    if exactIndex == -1 then now[index := now[index].(weeks := MergeWeeks(now[index].weeks, course.weeks))]
    else
      var keeper := now[exactIndex];
      Remove(now[exactIndex := keeper.(weeks := MergeWeeks(keeper.weeks, now[index].weeks))], index)
  }

  lemma ScanEnds(courses: seq<Course>, course: Course, now: seq<Course>, index: int, exactIndex: int, n: nat)
    requires Scanned(courses, course, now, index, exactIndex, n) && index == |now|
    requires course.weeks == UniqueWeeks(course.weeks)
    ensures Collects(courses, course, if exactIndex == -1 then now + [course] else now)
  {
    assert courses[n..] == [] && courses[..n] == courses && now[..index] == now;
    if exactIndex == -1 { Appended(courses, course); } else { CollectedThere(courses, course, now, exactIndex); }
  }

  lemma CollectedThere(courses: seq<Course>, course: Course, now: seq<Course>, at: nat)
    requires CollectedAt(courses, course, now, at)
    ensures Collects(courses, course, now)
  {}

  // -------------------------------------------------------- collapse phase

  function Hull(left: Course, right: Course): Course {
    left.(start := if right.start < left.start then right.start else left.start,
          end := if right.end > left.end then right.end else left.end)
  }

  /** The first touching pair in scan order, if any. */
  method FindMergeable(courses: seq<Course>) returns (found: bool, leftIndex: nat, rightIndex: nat)
    ensures found ==> leftIndex < rightIndex < |courses| && Mergeable(courses[leftIndex], courses[rightIndex])
    ensures !found ==> Settled(courses)
  {
    leftIndex := 0;
    while leftIndex < |courses|
      invariant leftIndex <= |courses|
      invariant forall i, j :: 0 <= i < leftIndex && i < j < |courses| ==> !Mergeable(courses[i], courses[j])
    {
      rightIndex := leftIndex + 1;
      while rightIndex < |courses|
        invariant leftIndex < rightIndex <= |courses|
        invariant forall j :: leftIndex < j < rightIndex ==> !Mergeable(courses[leftIndex], courses[j])
      {
        if Mergeable(courses[leftIndex], courses[rightIndex]) {
          return true, leftIndex, rightIndex;
        }
        rightIndex := rightIndex + 1;
      }
      leftIndex := leftIndex + 1;
    }
    found, rightIndex := false, 0;
  }

  /** Replacing an entry by one with more points, then dropping the entry those points came from. */
  lemma CollapseKeepsCoverage(courses: seq<Course>, l: nat, r: nat)
    requires l < r < |courses| && Mergeable(courses[l], courses[r])
    ensures SameCoverage(courses, Remove(courses[l := Hull(courses[l], courses[r])], r))
  {
    var hull := Hull(courses[l], courses[r]);
    var wider := courses[l := hull];
    var fewer := Remove(wider, r);
    DropEntry(wider, r);
    forall id, section, week ensures Covers(courses, id, section, week) <==> Covers(wider, id, section, week) {
      if i :| 0 <= i < |courses| && Point(courses[i], id, section, week) {
        assert Point(wider[i], id, section, week);
      }
      if i :| 0 <= i < |wider| && Point(wider[i], id, section, week) {
        assert i != l ==> Point(courses[i], id, section, week);
        assert Point(courses[i], id, section, week) || Point(courses[r], id, section, week);
      }
    }
    forall id, section, week | Point(wider[r], id, section, week) ensures Covers(fewer, id, section, week) {
      assert Point(wider[l], id, section, week) && fewer[l] == wider[l];
    }
  }

  /** `openers[i]` is the entry that `now[i]` goes back to: the earliest of those it took in.  Only its range can have
      grown, and every entry lies inside one that goes back to it or to an earlier one of the same course and weeks. */
  ghost predicate Survivors(before: seq<Course>, now: seq<Course>, openers: seq<nat>) {
    && |openers| == |now| && (forall i, j :: 0 <= i < j < |now| ==> openers[i] < openers[j])
    && (forall i :: 0 <= i < |now| ==> Widened(before, openers[i], now[i]))
    && (forall j :: 0 <= j < |before| ==> TakenIn(now, openers, before[j], j))
  }

  /** Some entry that goes back to position `j` or before takes the range in. */
  ghost predicate TakenIn(now: seq<Course>, openers: seq<nat>, c: Course, j: nat)
    requires |openers| == |now|
  {
    exists i :: 0 <= i < |now| && openers[i] <= j && Within(c, now[i])
  }

  predicate Widened(before: seq<Course>, opener: nat, c: Course) {
    opener < |before| && c == before[opener].(start := c.start, end := c.end)
  }

  /** What entries must share to be collapsed. */
  function Kind(c: Course): (Base, seq<int>) { (Identity(c), UniqueWeeks(c.weeks)) }

  lemma SameKind(a: Course, b: Course)
    ensures SamePlacement(a, b) <==> Kind(a) == Kind(b)
  {}

  predicate Within(c: Course, wide: Course) {
    Kind(c) == Kind(wide) && wide.start <= c.start && c.end <= wide.end
  }

  lemma HullTakesIn(left: Course, right: Course, c: Course)
    requires Kind(left) == Kind(right) && (Within(c, left) || Within(c, right))
    ensures Within(c, Hull(left, right))
  {}

  /** Where the entry at `i` is once entry `r` went into entry `l`. */
  function Moved(i: nat, l: nat, r: nat): nat
    requires l < r
  {
    if i == r then l else if i < r then i else i - 1
  }

  lemma MovedEntry(
    now: seq<Course>, openers: seq<nat>, l: nat, r: nat, after: seq<Course>, rest: seq<nat>, i: nat)
    requires |openers| == |now| && l < r < |now| && openers[l] < openers[r] && i < |now|
    requires after == Remove(now[l := Hull(now[l], now[r])], r) && rest == Remove(openers, r)
    ensures var k := Moved(i, l, r);
            && k < |after| == |rest| && rest[k] <= openers[i]
            && after[k] == if i == l || i == r then Hull(now[l], now[r]) else now[i]
  {}

  lemma TakenInHull(
    now: seq<Course>, openers: seq<nat>, l: nat, r: nat, after: seq<Course>, rest: seq<nat>, c: Course, j: nat)
    requires |openers| == |now| && l < r < |now| && Kind(now[l]) == Kind(now[r]) && openers[l] < openers[r]
    requires after == Remove(now[l := Hull(now[l], now[r])], r) && rest == Remove(openers, r)
    requires TakenIn(now, openers, c, j)
    ensures TakenIn(after, rest, c, j)
  {
    var i: nat :| i < |now| && openers[i] <= j && Within(c, now[i]);
    MovedEntry(now, openers, l, r, after, rest, i);
    if i == l || i == r { HullTakesIn(now[l], now[r], c); }
    assert rest[Moved(i, l, r)] <= j && Within(c, after[Moved(i, l, r)]);
  }

  lemma SurvivorsCollapse(
    before: seq<Course>, now: seq<Course>, openers: seq<nat>, l: nat, r: nat, after: seq<Course>, rest: seq<nat>)
    requires Survivors(before, now, openers) && l < r < |now| && Mergeable(now[l], now[r])
    requires after == Remove(now[l := Hull(now[l], now[r])], r) && rest == Remove(openers, r)
    ensures Survivors(before, after, rest)
  {
    SameKind(now[l], now[r]);
    forall j | 0 <= j < |before| ensures TakenIn(after, rest, before[j], j) {
      TakenInHull(now, openers, l, r, after, rest, before[j], j);
    }
    WidenedStay(before, now, openers, l, r, after, rest);
  }

  lemma WidenedStay(
    before: seq<Course>, now: seq<Course>, openers: seq<nat>, l: nat, r: nat, after: seq<Course>, rest: seq<nat>)
    requires |openers| == |now| && l < r < |now|
    requires forall i :: 0 <= i < |now| ==> Widened(before, openers[i], now[i])
    requires forall i, j :: 0 <= i < j < |now| ==> openers[i] < openers[j]
    requires after == Remove(now[l := Hull(now[l], now[r])], r) && rest == Remove(openers, r)
    ensures forall i, j :: 0 <= i < j < |after| ==> rest[i] < rest[j]
    ensures forall i :: 0 <= i < |after| ==> Widened(before, rest[i], after[i])
  {
    assert Widened(before, openers[l], Hull(now[l], now[r]));
  }

  lemma SurvivorsStart(courses: seq<Course>, openers: seq<nat>)
    requires |openers| == |courses| && forall i :: 0 <= i < |courses| ==> openers[i] == i
    ensures Survivors(courses, courses, openers)
  {
    forall j | 0 <= j < |courses|
      ensures Widened(courses, openers[j], courses[j]) && TakenIn(courses, openers, courses[j], j)
    {
      TakenBySelf(courses, openers, j);
    }
  }

  lemma TakenBySelf(courses: seq<Course>, openers: seq<nat>, j: nat)
    requires |openers| == |courses| && j < |courses| && openers[j] == j
    ensures Widened(courses, openers[j], courses[j]) && TakenIn(courses, openers, courses[j], j)
  {
    assert Within(courses[j], courses[j]);
  }

  /** What collapsing never loses: the points, well-formed ranges, and the weeks of a list written in one week set. */
  ghost predicate Collapses(courses: seq<Course>, now: seq<Course>) {
    && SameCoverage(courses, now) && (AllWellFormed(courses) ==> AllWellFormed(now))
    && (forall weeks :: HaveWeeks(courses, weeks) ==> HaveWeeks(now, weeks))
  }

  lemma CollapseOnce(courses: seq<Course>, now: seq<Course>, l: nat, r: nat)
    requires Collapses(courses, now) && l < r < |now| && Mergeable(now[l], now[r])
    ensures Collapses(courses, Remove(now[l := Hull(now[l], now[r])], r))
  {
    CollapseKeepsCoverage(now, l, r);
    var wider := now[l := Hull(now[l], now[r])];
    assert now[l] in now && now[r] in now;
    assert forall c :: c in Remove(wider, r) ==> c == wider[l] || c in now;
  }

  /** Collapses touching entries until none are left; every round removes one entry. */
  method CollapsePhase(courses: seq<Course>) returns (result: seq<Course>)
    ensures Settled(result) && Collapses(courses, result)
    ensures GoesBackTo(courses, result)
    ensures Settled(courses) ==> result == courses
  {
    result := courses;
    ghost var openers: seq<nat> := seq(|courses|, i => i);
    SurvivorsStart(courses, openers);
    while true
      invariant CollapsedTo(courses, result, openers)
      invariant Settled(courses) ==> result == courses
      decreases |result|
    {
      var found, l, r := FindMergeable(result);
      if !found { break; }
      RoundKeeps(courses, result, openers, l, r);
      result := Remove(result[l := Hull(result[l], result[r])], r);
      openers := Remove(openers, r);
    }
  }

  ghost predicate CollapsedTo(courses: seq<Course>, now: seq<Course>, openers: seq<nat>) {
    Collapses(courses, now) && Survivors(courses, now, openers)
  }

  lemma RoundKeeps(courses: seq<Course>, now: seq<Course>, openers: seq<nat>, l: nat, r: nat)
    requires CollapsedTo(courses, now, openers) && l < r < |now| && Mergeable(now[l], now[r])
    ensures CollapsedTo(courses, Remove(now[l := Hull(now[l], now[r])], r), Remove(openers, r))
  {
    CollapseOnce(courses, now, l, r);
    SurvivorsCollapse(courses, now, openers, l, r, Remove(now[l := Hull(now[l], now[r])], r), Remove(openers, r));
  }

  // ------------------------------------------------------------ the merge

  /** Adds one fragment: the points afterwards are exactly the old ones plus the fragment's, and no
      two entries with one identity and week set touch. */
  method MergeGraduateCourse(courses: seq<Course>, fragment: Course) returns (result: seq<Course>)
    ensures Settled(result)
    ensures forall id, section, week ::
              Covers(result, id, section, week)
              <==> Covers(courses, id, section, week) || Point(fragment, id, section, week)
    ensures AllWellFormed(courses) && fragment.WellFormed() ==> AllWellFormed(result)
    ensures HaveWeeks(courses, UniqueWeeks(fragment.weeks)) ==> HaveWeeks(result, UniqueWeeks(fragment.weeks))
    ensures CollectedFirst(courses, fragment.(weeks := UniqueWeeks(fragment.weeks)), result)
  {
    var course := fragment.(weeks := UniqueWeeks(fragment.weeks));
    AscendingUnique(UniqueWeeks(course.weeks), course.weeks);
    var collected := ExactPhase(courses, course);
    result := CollapsePhase(collected);
    MergedCourse(courses, fragment, course, collected, result);
  }

  lemma MergedCourse(
    courses: seq<Course>, fragment: Course, course: Course, collected: seq<Course>, result: seq<Course>)
    requires course == fragment.(weeks := UniqueWeeks(fragment.weeks)) && course.weeks == UniqueWeeks(course.weeks)
    requires Collects(courses, course, collected)
    requires Collapses(collected, result) && GoesBackTo(collected, result)
    requires Settled(collected) ==> result == collected
    ensures forall id, section, week ::
              Covers(result, id, section, week)
              <==> Covers(courses, id, section, week) || Point(fragment, id, section, week)
    ensures AllWellFormed(courses) && fragment.WellFormed() ==> AllWellFormed(result)
    ensures HaveWeeks(courses, course.weeks) ==> HaveWeeks(result, course.weeks)
    ensures CollectedFirst(courses, course, result)
  {
    var at :| CollectedAt(courses, course, collected, at);
    CollectedKeeps(courses, course, collected, at);
    CollectedCovers(courses, course, collected, at);
    MergedPoints(courses, fragment, course, collected, result);
  }

  lemma MergedPoints(
    courses: seq<Course>, fragment: Course, course: Course, collected: seq<Course>, result: seq<Course>)
    requires course == fragment.(weeks := UniqueWeeks(fragment.weeks)) && SameCoverage(collected, result)
    requires forall id, section, week ::
               Covers(collected, id, section, week)
               <==> Covers(courses, id, section, week) || Point(course, id, section, week)
    ensures forall id, section, week ::
              Covers(result, id, section, week)
              <==> Covers(courses, id, section, week) || Point(fragment, id, section, week)
  {
    forall id, section, week
      ensures Covers(result, id, section, week)
              <==> Covers(courses, id, section, week) || Point(fragment, id, section, week)
    {
      assert Covers(collected, id, section, week) <==> Covers(result, id, section, week);
      assert Point(course, id, section, week) <==> Point(fragment, id, section, week);
    }
  }

  /** The fragment was collected on its spot; every entry of the result goes back to the earliest of those it took
      in, and without a touching pair nothing is collapsed. */
  ghost predicate CollectedFirst(courses: seq<Course>, course: Course, result: seq<Course>) {
    exists collected, at ::
      CollectedAt(courses, course, collected, at) && GoesBackTo(collected, result)
      && (Settled(collected) ==> result == collected)
  }

  ghost predicate GoesBackTo(before: seq<Course>, now: seq<Course>) {
    exists openers :: Survivors(before, now, openers)
  }

  /** Fragments of one course on different sections never touch. */
  ghost predicate Apart(fragments: seq<Course>) {
    forall f, g :: f in fragments && g in fragments && Identity(f) == Identity(g) && Touch(f, g) ==> OnSpot(f, g)
  }

  /** The fragment that opened the spot of an entry: the entry has its base and ID. */
  ghost predicate OpenedBy(fragments: seq<Course>, c: Course, m: nat) {
    && m < |fragments| && OnSpot(fragments[m], c) && c.base == fragments[m].base && c.id == fragments[m].id
    && forall j :: 0 <= j < m ==> !OnSpot(fragments[j], c)
  }

  /** The entry stands for all fragments on its spot: it has the base and ID of the first of them, and its weeks are
      exactly their positive weeks. */
  ghost predicate StandsFor(fragments: seq<Course>, c: Course) {
    && (exists m: nat :: OpenedBy(fragments, c, m)) && Ascending(c.weeks)
    && forall week :: week in c.weeks <==> week > 0 && exists f :: f in fragments && OnSpot(f, c) && week in f.weeks
  }

  ghost predicate HasEntry(result: seq<Course>, f: Course) { exists c :: c in result && OnSpot(f, c) }

  predicate OneEach(courses: seq<Course>) {
    forall i, j :: 0 <= i < j < |courses| ==> !OnSpot(courses[i], courses[j])
  }

  /** One entry for each spot, standing for its fragments. */
  ghost predicate OnePerSpot(fragments: seq<Course>, result: seq<Course>) {
    && OneEach(result)
    && (forall c :: c in result ==> StandsFor(fragments, c))
    && (forall f :: f in fragments ==> HasEntry(result, f))
  }

  /** The parser's fold over all fragments of a page. */
  method MergeAll(fragments: seq<Course>) returns (result: seq<Course>)
    ensures GraduateMerged(fragments, result)
    ensures Apart(fragments) ==> OnePerSpot(fragments, result)
  {
    result := [];
    for i := 0 to |fragments|
      invariant GraduateMerged(fragments[..i], result)
      invariant Apart(fragments[..i]) ==> OnePerSpot(fragments[..i], result)
    {
      ghost var before := result;
      assert fragments[..i + 1] == fragments[..i] + [fragments[i]];
      result := MergeGraduateCourse(result, fragments[i]);
      MergedGrows(fragments[..i], before, fragments[i], result);
      if Apart(fragments[..i] + [fragments[i]]) { SpotsGrow(fragments[..i], before, fragments[i], result); }
    }
    assert fragments[..|fragments|] == fragments;
  }

  /** What the graduate merge promises of its whole input. */
  ghost predicate GraduateMerged(fragments: seq<Course>, result: seq<Course>) {
    && Settled(result) && SameCoverage(fragments, result)
    && (AllWellFormed(fragments) ==> AllWellFormed(result))
    && forall weeks :: (forall c :: c in fragments ==> UniqueWeeks(c.weeks) == weeks) ==> HaveWeeks(result, weeks)
  }

  lemma MergedGrows(front: seq<Course>, before: seq<Course>, c: Course, result: seq<Course>)
    requires GraduateMerged(front, before) && Settled(result)
    requires AllWellFormed(before) && c.WellFormed() ==> AllWellFormed(result)
    requires forall id, section, week ::
               Covers(result, id, section, week) <==> Covers(before, id, section, week) || Point(c, id, section, week)
    requires HaveWeeks(before, UniqueWeeks(c.weeks)) ==> HaveWeeks(result, UniqueWeeks(c.weeks))
    ensures GraduateMerged(front + [c], result)
  {
    AppendEntry(front, c);
    assert c in front + [c] && forall x :: x in front ==> x in front + [c];
    forall weeks | forall x :: x in front + [c] ==> UniqueWeeks(x.weeks) == weeks ensures HaveWeeks(result, weeks) {
      assert c in front + [c] && forall x :: x in front ==> x in front + [c];
    }
  }

  lemma SpotsGrow(front: seq<Course>, before: seq<Course>, f: Course, result: seq<Course>)
    requires Apart(front) ==> OnePerSpot(front, before)
    requires Apart(front + [f]) && CollectedFirst(before, f.(weeks := UniqueWeeks(f.weeks)), result)
    ensures Apart(front) && OnePerSpot(front + [f], result)
  {
    var course := f.(weeks := UniqueWeeks(f.weeks));
    assert f in front + [f] && forall x :: x in front ==> x in front + [f];
    var collected, at :| CollectedAt(before, course, collected, at) && GoesBackTo(collected, result)
                         && (Settled(collected) ==> result == collected);
    SpotsCollected(front, before, f, course, collected, at);
    SpotsSettled(front + [f], collected);
  }

  /** Entries that stand for fragments apart from each other do not touch. */
  lemma SpotsSettled(fragments: seq<Course>, result: seq<Course>)
    requires Apart(fragments) && OnePerSpot(fragments, result)
    ensures Settled(result)
  {
    forall i, j | 0 <= i < j < |result| ensures !Mergeable(result[i], result[j]) {
      assert result[i] in result && result[j] in result;
      NotTouching(fragments, result[i], result[j]);
    }
  }

  lemma NotTouching(fragments: seq<Course>, a: Course, b: Course)
    requires Apart(fragments) && StandsFor(fragments, a) && StandsFor(fragments, b) && !OnSpot(a, b)
    ensures !Mergeable(a, b)
  {
    var m: nat :| OpenedBy(fragments, a, m);
    var n: nat :| OpenedBy(fragments, b, n);
    var f, g := fragments[m], fragments[n];
    assert f in fragments && g in fragments;
    assert Touch(a, b) ==> Touch(f, g);
    assert SameIdentity(a, b) ==> Identity(f) == Identity(g);
  }

  lemma SpotsCollected(
    front: seq<Course>, before: seq<Course>, f: Course, course: Course, collected: seq<Course>, at: nat)
    requires OnePerSpot(front, before) && CollectedAt(before, course, collected, at)
    requires course == f.(weeks := UniqueWeeks(f.weeks))
    ensures OnePerSpot(front + [f], collected)
  {
    CollectedEntries(before, course, collected, at);
    DistinctAfter(before, course, collected, at);
    forall c | c in collected ensures StandsFor(front + [f], c) {
      if c == collected[at] { CollectorStands(front, before, f, course, collected, at); }
      else { StandsStill(front, f, c); }
    }
    forall g | g in front + [f] ensures HasEntry(collected, g) {
      if OnSpot(g, course) {
        assert collected[at] in collected && OnSpot(g, collected[at]);
      } else {
        assert g in front && HasEntry(before, g);
        var c :| c in before && OnSpot(g, c);
        assert c in collected;
      }
    }
  }

  lemma DistinctAfter(before: seq<Course>, course: Course, collected: seq<Course>, at: nat)
    requires CollectedAt(before, course, collected, at)
    requires OneEach(before)
    ensures OneEach(collected)
  {
    ElsewhereOneEach(before, course);
    OneEachFromElsewhere(collected, course);
    forall i, j | 0 <= i < j < |collected| ensures !OnSpot(collected[i], collected[j]) {
      if i == at || j == at { assert !OnSpot(collected[if i == at then j else i], course); }
    }
  }

  lemma {:induction false} ElsewhereOneEach(courses: seq<Course>, spot: Course)
    requires OneEach(courses)
    ensures OneEach(Elsewhere(courses, spot))
  {
    if courses != [] {
      var front, last := courses[..|courses| - 1], courses[|courses| - 1];
      var rest := Elsewhere(front, spot);
      ElsewhereOneEach(front, spot);
      ElsewhereMembers(front, spot);
      forall i | 0 <= i < |rest| ensures !OnSpot(rest[i], last) {
        assert rest[i] in front;
        var n :| 0 <= n < |front| && front[n] == rest[i];
        assert !OnSpot(courses[n], courses[|courses| - 1]);
      }
    }
  }

  lemma {:induction false} OneEachFromElsewhere(courses: seq<Course>, spot: Course)
    requires OneEach(Elsewhere(courses, spot))
    ensures forall i, j :: 0 <= i < j < |courses| && !OnSpot(courses[i], spot) && !OnSpot(courses[j], spot) ==>
              !OnSpot(courses[i], courses[j])
  {
    if courses != [] {
      var front, last := courses[..|courses| - 1], courses[|courses| - 1];
      var rest := Elsewhere(front, spot);
      assert forall i :: 0 <= i < |rest| ==> rest[i] == Elsewhere(courses, spot)[i];
      OneEachFromElsewhere(front, spot);
      ElsewhereMembers(front, spot);
      forall i | 0 <= i < |front| && !OnSpot(front[i], spot) && !OnSpot(last, spot)
        ensures !OnSpot(front[i], last)
      {
        assert front[i] in rest;
        LastDiffers(rest, last, front[i]);
      }
    }
  }

  lemma LastDiffers(rest: seq<Course>, last: Course, c: Course)
    requires OneEach(rest + [last]) && c in rest
    ensures !OnSpot(c, last)
  {
    var n :| 0 <= n < |rest| && rest[n] == c;
    assert (rest + [last])[n] == c && (rest + [last])[|rest|] == last;
  }

  lemma CollectorStands(
    front: seq<Course>, before: seq<Course>, f: Course, course: Course, collected: seq<Course>, at: nat)
    requires OnePerSpot(front, before) && CollectedAt(before, course, collected, at)
    requires course == f.(weeks := UniqueWeeks(f.weeks))
    ensures StandsFor(front + [f], collected[at])
  {
    var c := collected[at];
    CollectorOpened(front, before, f, course, collected, at);
    forall week ensures week in c.weeks
                        <==> week > 0 && exists g :: g in front + [f] && OnSpot(g, c) && week in g.weeks {
      CollectorWeek(front, before, f, course, week);
      assert PooledWeek(before, course, week) <==> week in c.weeks;
    }
  }

  lemma CollectorWeek(front: seq<Course>, before: seq<Course>, f: Course, course: Course, week: int)
    requires OnePerSpot(front, before) && course == f.(weeks := UniqueWeeks(f.weeks))
    ensures PooledWeek(before, course, week)
            <==> week > 0 && exists g :: g in front + [f] && OnSpot(g, course) && week in g.weeks
  {
    assert f in front + [f] && forall x :: x in front ==> x in front + [f];
    if week > 0 { EntryWeek(front, before, course, week); }
  }

  /** The weeks of the entries on a spot are those of the fragments there. */
  lemma EntryWeek(front: seq<Course>, before: seq<Course>, spot: Course, week: int)
    requires OnePerSpot(front, before) && week > 0
    ensures (exists b :: b in before && OnSpot(b, spot) && week in b.weeks)
            <==> (exists g :: g in front && OnSpot(g, spot) && week in g.weeks)
  {
    if b :| b in before && OnSpot(b, spot) && week in b.weeks {
      assert StandsFor(front, b);
      var g :| g in front && OnSpot(g, b) && week in g.weeks;
      assert OnSpot(g, spot);
    }
    if g :| g in front && OnSpot(g, spot) && week in g.weeks {
      assert HasEntry(before, g);
      var b :| b in before && OnSpot(g, b);
      assert StandsFor(front, b);
    }
  }

  lemma CollectorOpened(
    front: seq<Course>, before: seq<Course>, f: Course, course: Course, collected: seq<Course>, at: nat)
    requires OnePerSpot(front, before) && CollectedAt(before, course, collected, at)
    requires course == f.(weeks := UniqueWeeks(f.weeks))
    ensures exists m: nat :: OpenedBy(front + [f], collected[at], m)
  {
    if at < |before| {
      assert before[at] in before && StandsFor(front, before[at]);
      var m: nat :| OpenedBy(front, before[at], m);
      assert OpenedBy(front + [f], collected[at], m);
    } else {
      forall j | 0 <= j < |front| ensures !OnSpot(front[j], course) {
        assert front[j] in front && HasEntry(before, front[j]);
        if b :| b in before && OnSpot(front[j], b) {
          var n :| 0 <= n < |before| && before[n] == b;
          assert collected[..at][n] == b;
        }
      }
      assert OpenedBy(front + [f], collected[at], |front|);
    }
  }

  lemma StandsStill(front: seq<Course>, f: Course, c: Course)
    requires StandsFor(front, c) && !OnSpot(f, c)
    ensures StandsFor(front + [f], c)
  {
    var m: nat :| OpenedBy(front, c, m);
    assert OpenedBy(front + [f], c, m);
  }
}
