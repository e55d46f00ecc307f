/** Timetable entries, the points they occupy, and the fact both merge algorithms rest on: a family
    of pairwise non-touching section ranges is determined by the sections it covers. */
module Timetable {
  /** Everything that identifies a course except its sections, weeks and ID. */
  datatype Base = Base(
    periodId: string, courseCode: string, classNum: string, name: string, teacher: string,
    campus: string, location: string, note: string, weekday: int)

  /** The fields a derived ID is the digest of. */
  datatype Placement = Placement(base: Base, start: int, end: int)

  /** An entry's ID: none, the digest of a placement, or a text supplied from outside. */
  datatype CourseId = NoId | Derived(placement: Placement) | Explicit(text: string)

  datatype Course = Course(id: CourseId, base: Base, start: int, end: int, weeks: seq<int>)
  {
    predicate WellFormed() { start <= end }
  }

  predicate AllWellFormed(courses: seq<Course>) {
    forall c :: c in courses ==> c.WellFormed()
  }

  // ------------------------------------------------------------------ weeks

  predicate Ascending(s: seq<int>) { forall i, j :: 0 <= i < j < |s| ==> s[i] < s[j] }

  /** Ordered insertion without duplicates. */
  function Insert(w: int, s: seq<int>): (r: seq<int>)
    requires Ascending(s)
    ensures Ascending(r) && forall x :: x in r <==> x == w || x in s
  {
    if s == [] then [w]
    else if w == s[0] then s
    else if w < s[0] then Before(w, s)
    else
      assert s == [s[0]] + s[1..];
      Before(s[0], Insert(w, s[1..]))
  }

  function Before(w: int, s: seq<int>): (r: seq<int>)
    requires Ascending(s) && forall x :: x in s ==> w < x
    ensures Ascending(r) && forall x :: x in r <==> x == w || x in s
  {
    assert forall i :: 0 <= i < |s| ==> s[i] in s;
    [w] + s
  }

  /** The distinct weeks in ascending order: a set filled in a loop, then sorted. */
  function SortedWeeks(weeks: seq<int>): (r: seq<int>)
    ensures Ascending(r) && forall x :: x in r <==> x in weeks
  {
    if weeks == [] then []
    else
      assert weeks == weeks[..|weeks| - 1] + [weeks[|weeks| - 1]];
      Insert(weeks[|weeks| - 1], SortedWeeks(weeks[..|weeks| - 1]))
  }

  function PositiveWeeks(weeks: seq<int>): (r: seq<int>)
    ensures forall x :: x in r <==> x in weeks && x > 0
  {
    if weeks == [] then []
    else
      assert weeks == weeks[..|weeks| - 1] + [weeks[|weeks| - 1]];
      PositiveWeeks(weeks[..|weeks| - 1]) + (if weeks[|weeks| - 1] > 0 then [weeks[|weeks| - 1]] else [])
  }

  /** Ascending lists with the same members are the same list. */
  lemma {:induction false} AscendingUnique(s: seq<int>, t: seq<int>)
    requires Ascending(s) && Ascending(t) && (forall x :: x in s ==> x in t) && (forall x :: x in t ==> x in s)
    ensures s == t
  {
    forall i | 0 <= i < |s| ensures s[i] in t { assert s[i] in s; }
    forall i | 0 <= i < |t| ensures t[i] in s { assert t[i] in t; }
    assert (s != [] ==> s[0] in t) && (t != [] ==> t[0] in s);
    if s != [] && t != [] {
      assert s[0] in t && t[0] in s;
      assert s[0] == t[0];
      assert s == [s[0]] + s[1..] && t == [t[0]] + t[1..];
      assert forall x :: x in s[1..] <==> x in s && x != s[0];
      assert forall x :: x in t[1..] <==> x in t && x != t[0];
      AscendingUnique(s[1..], t[1..]);
    }
  }

  /** Every entry carries the one list of weeks. */
  predicate HaveWeeks(courses: seq<Course>, weeks: seq<int>) { forall c :: c in courses ==> c.weeks == weeks }

  // --------------------------------------------------------------- coverage

  /** A point of the timetable: a section of a course in one week. */
  ghost predicate Occupies(c: Course, section: int, week: int) {
    c.start <= section <= c.end && week in c.weeks
  }

  predicate Touch(left: Course, right: Course) {
    right.start <= left.end + 1 && right.end >= left.start - 1
  }

  // ------------------------------------------------------ section intervals

  datatype Interval = Interval(lo: int, hi: int)

  ghost predicate Separate(f: set<Interval>) {
    && (forall a :: a in f ==> a.lo <= a.hi)
    && (forall a, b :: a in f && b in f && a != b ==> a.hi + 1 < b.lo || b.hi + 1 < a.lo)
  }

  ghost predicate CoveredBy(f: set<Interval>, x: int) { exists a :: a in f && a.lo <= x <= a.hi }

  /** The interval covering a point of a separate family ends where the coverage does. */
  lemma BoundsAreGaps(f: set<Interval>, a: Interval)
    requires Separate(f) && a in f
    ensures !CoveredBy(f, a.lo - 1) && !CoveredBy(f, a.hi + 1)
  {}

  /** Separate families with the same coverage are equal: the maximal intervals are unique. */
  lemma SeparateIsCanonical(f: set<Interval>, g: set<Interval>)
    requires Separate(f) && Separate(g) && forall x :: CoveredBy(f, x) <==> CoveredBy(g, x)
    ensures f == g
  {
    forall a | a in f ensures a in g { IntervalCarriesOver(f, g, a); }
    forall a | a in g ensures a in f { IntervalCarriesOver(g, f, a); }
  }

  lemma IntervalCarriesOver(f: set<Interval>, g: set<Interval>, a: Interval)
    requires Separate(f) && Separate(g) && a in f && forall x :: CoveredBy(f, x) <==> CoveredBy(g, x)
    ensures a in g
  {
    assert CoveredBy(f, a.lo);
    var b :| b in g && b.lo <= a.lo <= b.hi;
    BoundsAreGaps(f, a);
    BoundsAreGaps(g, b);
    assert b.lo <= a.lo - 1 <= b.hi ==> CoveredBy(g, a.lo - 1);
    assert b.lo <= a.hi + 1 <= b.hi ==> CoveredBy(g, a.hi + 1);
    assert a.lo <= b.hi + 1 <= a.hi ==> CoveredBy(f, b.hi + 1);
  }
}
