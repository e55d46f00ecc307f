/** The undergraduate timetable merge: rows with one placement pool their weeks, then every group of
    one identity and week set is sorted and swept once. */
module UndergraduateMerge {
  import opened Timetable

  function MergeScheduleWeeks(left: seq<int>, right: seq<int>): (r: seq<int>)
    ensures Ascending(r) && forall x :: x in r <==> x in left || x in right
  {
    SortedWeeks(left + right)
  }

  function DerivedId(c: Course): CourseId { Derived(Placement(c.base, c.start, c.end)) }

  predicate HasCoursePrefix(id: CourseId) { id.Derived? || (id.Explicit? && "course-" <= id.text) }

  function FinalizedId(c: Course): CourseId { if c.id == NoId || HasCoursePrefix(c.id) then DerivedId(c) else c.id }

  /** Rows with equal keys are the same placement of the same course. */
  datatype PlacementKey = PlacementKey(id: CourseId, placement: Placement)

  function PlacementKeyOf(c: Course): PlacementKey { PlacementKey(c.id, Placement(c.base, c.start, c.end)) }

  /** Identity independent of the section range: an ID that is not derived from the row is kept. */
  datatype IdentityKey = IdentityKey(base: Base, boundary: CourseId)

  function IdentityKeyOf(c: Course): IdentityKey {
    IdentityKey(c.base, if c.id != NoId && c.id != DerivedId(c) then c.id else NoId)
  }

  /** The row has no ID, or the one derived from itself. */
  predicate Unnamed(c: Course) { c.id == NoId || c.id == Derived(Placement(c.base, c.start, c.end)) }

  /** Rows have one identity exactly when everything but sections, weeks and ID agrees, and either neither was named
      from outside its own placement, or both were, by the same ID. */
  lemma IdentityExactly(a: Course, b: Course)
    ensures IdentityKeyOf(a) == IdentityKeyOf(b)
            <==> a.base == b.base && ((Unnamed(a) && Unnamed(b)) || (!Unnamed(a) && !Unnamed(b) && a.id == b.id))
  {}

  datatype GroupKey = GroupKey(identity: IdentityKey, weeks: seq<int>)

  function GroupKeyOf(c: Course): GroupKey { GroupKey(IdentityKeyOf(c), c.weeks) }

  // --------------------------------------------------------- placement phase

  ghost predicate CoversKey(courses: seq<Course>, k: IdentityKey, section: int, week: int) {
    exists i :: 0 <= i < |courses| && IdentityKeyOf(courses[i]) == k && Occupies(courses[i], section, week)
  }

  ghost predicate SameKeyCoverage(a: seq<Course>, b: seq<Course>) {
    forall k, section, week :: CoversKey(a, k, section, week) <==> CoversKey(b, k, section, week)
  }

  lemma AppendRow(courses: seq<Course>, c: Course)
    ensures forall k, section, week ::
              CoversKey(courses + [c], k, section, week)
              <==> CoversKey(courses, k, section, week) || (IdentityKeyOf(c) == k && Occupies(c, section, week))
  {
    forall k, section, week
      ensures CoversKey(courses + [c], k, section, week)
              <==> CoversKey(courses, k, section, week) || (IdentityKeyOf(c) == k && Occupies(c, section, week))
    {
      assert (courses + [c])[|courses|] == c;
      if i :| 0 <= i < |courses| && IdentityKeyOf(courses[i]) == k && Occupies(courses[i], section, week) {
        assert (courses + [c])[i] == courses[i];
      }
    }
  }

  lemma PoolWeeks(courses: seq<Course>, i: nat, c: Course, wider: seq<Course>)
    requires i < |courses| && PlacementKeyOf(courses[i]) == PlacementKeyOf(c)
    requires wider == courses[i := courses[i].(weeks := MergeScheduleWeeks(courses[i].weeks, c.weeks))]
    ensures forall k, section, week ::
              CoversKey(wider, k, section, week)
              <==> CoversKey(courses, k, section, week) || (IdentityKeyOf(c) == k && Occupies(c, section, week))
  {
    forall k, section, week
      ensures CoversKey(wider, k, section, week)
              <==> CoversKey(courses, k, section, week) || (IdentityKeyOf(c) == k && Occupies(c, section, week))
    {
      assert IdentityKeyOf(wider[i]) == IdentityKeyOf(courses[i]) == IdentityKeyOf(c);
      assert Occupies(wider[i], section, week) <==> Occupies(courses[i], section, week) || Occupies(c, section, week);
      if j :| 0 <= j < |wider| && IdentityKeyOf(wider[j]) == k && Occupies(wider[j], section, week) {
        assert j != i ==> IdentityKeyOf(courses[j]) == k && Occupies(courses[j], section, week);
      }
      if j :| 0 <= j < |courses| && IdentityKeyOf(courses[j]) == k && Occupies(courses[j], section, week) {
        assert j != i ==> IdentityKeyOf(wider[j]) == k && Occupies(wider[j], section, week);
      }
    }
  }

  predicate InputWeeks(courses: seq<Course>, weeks: seq<int>) {
    forall c :: c in courses ==> SortedWeeks(c.weeks) == weeks
  }

  /** Inputs written in one week set stay in it. */
  ghost predicate WeeksKept(courses: seq<Course>, placed: seq<Course>) {
    forall weeks :: InputWeeks(courses, weeks) ==> HaveWeeks(placed, weeks)
  }

  /** Every row stands for an input with the same placement. */
  ghost predicate PlacementsFrom(courses: seq<Course>, placed: seq<Course>) {
    forall p :: p in placed ==> exists c :: c in courses && PlacementKeyOf(p) == PlacementKeyOf(c)
  }

  predicate DistinctPlacements(placed: seq<Course>) {
    forall i, j :: 0 <= i < j < |placed| ==> PlacementKeyOf(placed[i]) != PlacementKeyOf(placed[j])
  }

  /** What the placement phase promises. */
  ghost predicate Pooled(courses: seq<Course>, placed: seq<Course>) {
    SameKeyCoverage(courses, placed) && WeeksKept(courses, placed) && PlacementsFrom(courses, placed)
        && DistinctPlacements(placed)
  }

  function Normalised(c: Course): Course { c.(weeks := MergeScheduleWeeks([], c.weeks)) }

  lemma NormalisedSame(c: Course)
    ensures PlacementKeyOf(Normalised(c)) == PlacementKeyOf(c) && IdentityKeyOf(Normalised(c)) == IdentityKeyOf(c)
    ensures Normalised(c).weeks == SortedWeeks(c.weeks)
    ensures forall section, week :: Occupies(Normalised(c), section, week) <==> Occupies(c, section, week)
  {
    assert [] + c.weeks == c.weeks;
  }

  /** Rows with one placement key pool their weeks in the first of them. */
  method PoolPlacements(courses: seq<Course>) returns (placed: seq<Course>)
    ensures Pooled(courses, placed)
  {
    placed := [];
    var indexes: map<PlacementKey, nat> := map[];
    for i := 0 to |courses|
      invariant Pooled(courses[..i], placed)
      invariant forall k :: k in indexes ==> indexes[k] < |placed| && PlacementKeyOf(placed[indexes[k]]) == k
      invariant forall j :: 0 <= j < |placed| ==> PlacementKeyOf(placed[j]) in indexes
    {
      placed, indexes := PoolOne(courses[..i], placed, indexes, courses[i]);
      assert courses[..i + 1] == courses[..i] + [courses[i]];
    }
    assert courses[..|courses|] == courses;
  }

  method PoolOne(ghost front: seq<Course>, before: seq<Course>, seen: map<PlacementKey, nat>, c: Course)
    returns (placed: seq<Course>, indexes: map<PlacementKey, nat>)
    requires Pooled(front, before)
    requires forall k :: k in seen ==> seen[k] < |before| && PlacementKeyOf(before[seen[k]]) == k
    requires forall j :: 0 <= j < |before| ==> PlacementKeyOf(before[j]) in seen
    ensures Pooled(front + [c], placed)
    ensures forall k :: k in indexes ==> indexes[k] < |placed| && PlacementKeyOf(placed[indexes[k]]) == k
    ensures forall j :: 0 <= j < |placed| ==> PlacementKeyOf(placed[j]) in indexes
  {
    var course := Normalised(c);
    NormalisedSame(c);
    var key := PlacementKeyOf(course);
    if key in seen {
      indexes := seen;
      placed := before[seen[key] := before[seen[key]].(weeks := MergeScheduleWeeks(before[seen[key]].weeks,
          course.weeks))];
      PooledInto(front, before, c, seen[key], placed);
    } else {
      indexes := seen[key := |before|];
      placed := before + [course];
      PooledNew(front, before, c, placed);
    }
  }

  lemma PooledNew(front: seq<Course>, before: seq<Course>, c: Course, placed: seq<Course>)
    requires Pooled(front, before) && placed == before + [Normalised(c)]
    requires forall j :: 0 <= j < |before| ==> PlacementKeyOf(before[j]) != PlacementKeyOf(c)
    ensures Pooled(front + [c], placed)
  {
    NormalisedSame(c);
    AppendRow(before, Normalised(c));
    AppendRow(front, c);
    forall weeks | InputWeeks(front + [c], weeks) ensures HaveWeeks(placed, weeks) {
      assert c in front + [c] && InputWeeks(front, weeks) && HaveWeeks(before, weeks);
    }
  }

  lemma PooledInto(front: seq<Course>, before: seq<Course>, c: Course, index: nat, placed: seq<Course>)
    requires Pooled(front, before) && index < |before| && PlacementKeyOf(before[index]) == PlacementKeyOf(c)
    requires placed
            == before[index := before[index].(weeks := MergeScheduleWeeks(before[index].weeks, Normalised(c).weeks))]
    ensures Pooled(front + [c], placed)
  {
    NormalisedSame(c);
    PoolWeeks(before, index, Normalised(c), placed);
    AppendRow(front, c);
    assert before[index] in before && forall p :: p in placed ==> p in before || p == placed[index];
    forall weeks | InputWeeks(front + [c], weeks) ensures HaveWeeks(placed, weeks) {
      assert c in front + [c] && InputWeeks(front, weeks) && HaveWeeks(before, weeks);
      AscendingUnique(placed[index].weeks, weeks);
    }
  }
}
