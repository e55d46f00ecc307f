/** When the two timetable merges agree: on fragments of one week set, folding the graduate merge in any
    order yields the ranges of the undergraduate group-sort-sweep exactly where class numbers and foreign
    IDs do not cut a course. */
module MergeAgreement {
  import opened Timetable
  import G = GraduateMerge
  import U = UndergraduateMerge
  import S = UndergraduateSweep

  /** Well-formed fragments in one non-empty set of weeks. */
  ghost predicate Plain(fragments: seq<Course>, weeks: seq<int>) {
    && AllWellFormed(fragments) && weeks != [] && (forall w :: w in weeks ==> w > 0)
    && forall c :: c in fragments ==> SortedWeeks(c.weeks) == weeks
  }

  /** The class number and a foreign ID, which only the undergraduate merge looks at, never tell apart
      two fragments that are the same course to the graduate merge. */
  ghost predicate OneIdentity(fragments: seq<Course>) {
    forall c, d :: c in fragments && d in fragments && G.Identity(c) == G.Identity(d) ==>
        U.IdentityKeyOf(c) == U.IdentityKeyOf(d)
  }

  ghost predicate SectionOf(courses: seq<Course>, b: Base, x: int) {
    exists c :: c in courses && G.Identity(c) == b && c.start <= x <= c.end
  }

  /** The section ranges a list holds for one identity. */
  ghost function Ranges(courses: seq<Course>, b: Base): set<Interval> {
    set c | c in courses && G.Identity(c) == b :: Interval(c.start, c.end)
  }

  /** A list that holds, per identity, separate ranges covering exactly the fragments' sections, each once. */
  ghost predicate Canonical(fragments: seq<Course>, result: seq<Course>) {
    && (forall b, x :: SectionOf(result, b, x) <==> SectionOf(fragments, b, x))
    && AllWellFormed(result)
    && forall i, j :: 0 <= i < |result| && 0 <= j < |result| && i != j && G.Identity(result[i]) == G.Identity(result[j])
         ==> result[i].end + 1 < result[j].start || result[j].end + 1 < result[i].start
  }

  lemma CanonicalSeparate(fragments: seq<Course>, result: seq<Course>, b: Base)
    requires Canonical(fragments, result)
    ensures Separate(Ranges(result, b))
    ensures forall x :: CoveredBy(Ranges(result, b), x) <==> SectionOf(fragments, b, x)
  {
    forall p, q | p in Ranges(result, b) && q in Ranges(result, b) && p != q
      ensures p.hi + 1 < q.lo || q.hi + 1 < p.lo
    {
      var c :| c in result && G.Identity(c) == b && p == Interval(c.start, c.end);
      var d :| d in result && G.Identity(d) == b && q == Interval(d.start, d.end);
      var i :| 0 <= i < |result| && result[i] == c;
      var j :| 0 <= j < |result| && result[j] == d;
      assert i != j;
    }
    forall x ensures CoveredBy(Ranges(result, b), x) <==> SectionOf(fragments, b, x) {
      if SectionOf(fragments, b, x) {
        assert SectionOf(result, b, x);
        var c :| c in result && G.Identity(c) == b && c.start <= x <= c.end;
        assert Interval(c.start, c.end) in Ranges(result, b);
      }
      if CoveredBy(Ranges(result, b), x) {
        var p :| p in Ranges(result, b) && p.lo <= x <= p.hi;
        var c :| c in result && G.Identity(c) == b && p == Interval(c.start, c.end);
        assert SectionOf(result, b, x);
      }
    }
  }

  lemma CanonicalUnique(f: seq<Course>, g: seq<Course>, r: seq<Course>, s: seq<Course>, b: Base)
    requires Canonical(f, r) && Canonical(g, s) && forall c :: c in f <==> c in g
    ensures Ranges(r, b) == Ranges(s, b)
  {
    CanonicalSeparate(f, r, b);
    CanonicalSeparate(g, s, b);
    assert forall x :: SectionOf(f, b, x) <==> SectionOf(g, b, x);
    SeparateIsCanonical(Ranges(r, b), Ranges(s, b));
  }

  // --------------------------------------------------------- the graduate side

  lemma PlainWeeks(fragments: seq<Course>, weeks: seq<int>, c: Course)
    requires Plain(fragments, weeks) && c in fragments
    ensures G.UniqueWeeks(c.weeks) == weeks && forall w :: w in weeks <==> w in c.weeks && w > 0
  {
    assert forall w :: w in c.weeks <==> w in SortedWeeks(c.weeks);
    AscendingUnique(G.UniqueWeeks(c.weeks), weeks);
  }

  /** With one week set, section coverage is point coverage in any one of its weeks. */
  lemma SectionIsPoint(courses: seq<Course>, weeks: seq<int>, b: Base, x: int)
    requires weeks != [] && weeks[0] > 0 && forall c :: c in courses ==> weeks[0] in c.weeks
    ensures SectionOf(courses, b, x) <==> G.Covers(courses, b, x, weeks[0])
  {
    if SectionOf(courses, b, x) {
      var c :| c in courses && G.Identity(c) == b && c.start <= x <= c.end;
      var i :| 0 <= i < |courses| && courses[i] == c;
      assert G.Point(courses[i], b, x, weeks[0]);
    }
    if G.Covers(courses, b, x, weeks[0]) {
      var i :| 0 <= i < |courses| && G.Point(courses[i], b, x, weeks[0]);
      assert courses[i] in courses;
    }
  }

  lemma GraduateCanonical(fragments: seq<Course>, result: seq<Course>, weeks: seq<int>)
    requires Plain(fragments, weeks) && G.GraduateMerged(fragments, result)
    ensures Canonical(fragments, result) && HaveWeeks(result, weeks)
  {
    forall c | c in fragments
      ensures G.UniqueWeeks(c.weeks) == weeks && weeks[0] in c.weeks
    {
      PlainWeeks(fragments, weeks, c);
    }
    assert HaveWeeks(result, weeks);
    assert weeks[0] in weeks;
    forall b, x ensures SectionOf(result, b, x) <==> SectionOf(fragments, b, x) {
      SectionIsPoint(result, weeks, b, x);
      SectionIsPoint(fragments, weeks, b, x);
    }
    forall i, j | 0 <= i < |result| && 0 <= j < |result| && i != j && G.Identity(result[i]) == G.Identity(result[j])
      ensures result[i].end + 1 < result[j].start || result[j].end + 1 < result[i].start
    {
      var l, r := if i < j then i else j, if i < j then j else i;
      assert result[l] in result && result[r] in result;
      assert !G.Mergeable(result[l], result[r]);
    }
  }

  // ---------------------------------------------------- the undergraduate side

  lemma PlacedPlain(fragments: seq<Course>, placed: seq<Course>, weeks: seq<int>)
    requires Plain(fragments, weeks) && U.Pooled(fragments, placed)
    ensures AllWellFormed(placed) && HaveWeeks(placed, weeks)
  {
    assert U.InputWeeks(fragments, weeks);
    forall p | p in placed ensures p.WellFormed() {
      var c :| c in fragments && U.PlacementKeyOf(p) == U.PlacementKeyOf(c);
      assert c.WellFormed();
    }
  }

  /** Some fragment with the key covers the section. */
  ghost predicate KeyCovers(fragments: seq<Course>, key: U.IdentityKey, x: int) {
    exists c :: c in fragments && U.IdentityKeyOf(c) == key && S.InRange(c, x)
  }

  lemma PlacedKeyCovers(fragments: seq<Course>, placed: seq<Course>, weeks: seq<int>, p: Course, x: int)
    requires Plain(fragments, weeks) && U.Pooled(fragments, placed) && p in placed && S.InRange(p, x)
    ensures KeyCovers(fragments, U.IdentityKeyOf(p), x)
  {
    PlacedPlain(fragments, placed, weeks);
    var w := weeks[0];
    assert w in weeks && w in p.weeks;
    var j :| 0 <= j < |placed| && placed[j] == p;
    assert Occupies(placed[j], x, w) && U.CoversKey(placed, U.IdentityKeyOf(p), x, w);
    assert U.CoversKey(fragments, U.IdentityKeyOf(p), x, w);
    var i :| 0 <= i < |fragments| && U.IdentityKeyOf(fragments[i]) == U.IdentityKeyOf(p)
        && Occupies(fragments[i], x, w);
    assert fragments[i] in fragments && S.InRange(fragments[i], x);
  }

  lemma PlacedSections(fragments: seq<Course>, placed: seq<Course>, weeks: seq<int>, b: Base, x: int)
    requires Plain(fragments, weeks) && U.Pooled(fragments, placed)
    ensures SectionOf(placed, b, x) <==> SectionOf(fragments, b, x)
  {
    if SectionOf(fragments, b, x) {
      var c :| c in fragments && G.Identity(c) == b && c.start <= x <= c.end;
      var p := PlacedForKey(fragments, placed, weeks, c, x);
    }
    if SectionOf(placed, b, x) {
      var p :| p in placed && G.Identity(p) == b && p.start <= x <= p.end;
    }
  }

  /** Every output stands for a placed row of its group. */
  lemma OutputKey(placed: seq<Course>, result: seq<Course>, keys: seq<U.GroupKey>, i: nat) returns (p: Course)
    requires S.AdjacentMerged(placed, result, keys) && AllWellFormed(placed) && i < |result|
    ensures p in placed && U.GroupKeyOf(p) == keys[i] && p.base == result[i].base && p.weeks == result[i].weeks
    ensures result[i].WellFormed()
  {
    assert result[i] in result;
    p := OutputMember(placed, result, keys, i, result[i].start);
  }

  /** The key of an output is the key of a fragment of the same course. */
  lemma OutputFragment(
    fragments: seq<Course>, placed: seq<Course>, result: seq<Course>, keys: seq<U.GroupKey>, weeks: seq<int>, i: nat)
    returns (c: Course)
    requires Plain(fragments, weeks) && U.Pooled(fragments, placed) && S.AdjacentMerged(placed, result, keys)
    requires i < |result|
    ensures c in fragments && G.Identity(c) == G.Identity(result[i]) && keys[i] == U.GroupKey(U.IdentityKeyOf(c), weeks)
    ensures result[i].weeks == weeks && result[i].WellFormed()
  {
    PlacedPlain(fragments, placed, weeks);
    var p := OutputKey(placed, result, keys, i);
    c :| c in fragments && U.PlacementKeyOf(p) == U.PlacementKeyOf(c);
  }

  /** The undergraduate merge keeps the sections of every course; its outputs leave gaps between them as
      soon as it sees one identity per course. */
  lemma UndergraduateCanonical(
    fragments: seq<Course>, placed: seq<Course>, result: seq<Course>, keys: seq<U.GroupKey>, weeks: seq<int>)
    requires Plain(fragments, weeks) && U.Pooled(fragments, placed) && S.AdjacentMerged(placed, result, keys)
    ensures forall b, x :: SectionOf(result, b, x) <==> SectionOf(fragments, b, x)
    ensures OneIdentity(fragments) ==> Canonical(fragments, result)
    ensures HaveWeeks(result, weeks)
  {
    PlacedPlain(fragments, placed, weeks);
    forall b, x ensures SectionOf(result, b, x) <==> SectionOf(fragments, b, x) {
      PlacedSections(fragments, placed, weeks, b, x);
      OutputSections(placed, result, keys, b, x);
    }
    forall i | 0 <= i < |result| ensures result[i].weeks == weeks && result[i].WellFormed() {
      var c := OutputFragment(fragments, placed, result, keys, weeks, i);
    }
    forall i, j | 0 <= i < j < |result| && G.Identity(result[i]) == G.Identity(result[j]) && OneIdentity(fragments)
      ensures result[i].end + 1 < result[j].start
    {
      var c := OutputFragment(fragments, placed, result, keys, weeks, i);
      var d := OutputFragment(fragments, placed, result, keys, weeks, j);
      assert keys[i] == keys[j];
    }
  }

  lemma OutputSections(placed: seq<Course>, result: seq<Course>, keys: seq<U.GroupKey>, b: Base, x: int)
    requires AllWellFormed(placed) && S.AdjacentMerged(placed, result, keys)
    ensures SectionOf(result, b, x) <==> SectionOf(placed, b, x)
  {
    if SectionOf(result, b, x) {
      var r :| r in result && G.Identity(r) == b && r.start <= x <= r.end;
      var i :| 0 <= i < |result| && result[i] == r;
      var p := OutputMember(placed, result, keys, i, x);
    }
    if SectionOf(placed, b, x) {
      var p :| p in placed && G.Identity(p) == b && p.start <= x <= p.end;
      var i := OutputForMember(placed, result, keys, p, x);
    }
  }

  lemma OutputMember(placed: seq<Course>, result: seq<Course>, keys: seq<U.GroupKey>, i: nat, x: int)
    returns (p: Course)
    requires S.AdjacentMerged(placed, result, keys) && i < |result| && S.InRange(result[i], x)
    ensures p in placed && U.GroupKeyOf(p) == keys[i] && S.InRange(p, x) && p.base == result[i].base
    ensures p.weeks == result[i].weeks
  {
    assert S.GroupCovers(result, keys, keys[i], x) && S.BelongsTo(result[i], keys[i]);
    var members := S.Members(placed, keys[i]);
    var j :| 0 <= j < |members| && S.InRange(members[j], x);
    p := members[j];
    assert p in members;
  }

  // ------------------------------------------------------------------ theorem

  /** Where a course goes on from one section to the next, every identity that covers the one section
      covers the other: class numbers and foreign IDs never cut a run of its sections. */
  ghost predicate Unsplit(fragments: seq<Course>, b: Base) {
    forall key, x, y :: GoesOn(fragments, b, key, x, y) ==> KeyCovers(fragments, key, y)
  }

  /** An identity of the course covers one section, and the course covers the one next to it. */
  ghost predicate GoesOn(fragments: seq<Course>, b: Base, key: U.IdentityKey, x: int, y: int) {
    key.base.(classNum := "") == b && KeyCovers(fragments, key, x) && (y == x - 1 || y == x + 1)
        && SectionOf(fragments, b, y)
  }

  lemma OutputKeyCovers(
    fragments: seq<Course>, placed: seq<Course>, result: seq<Course>, keys: seq<U.GroupKey>, weeks: seq<int>,
    i: nat, x: int)
    requires Plain(fragments, weeks) && U.Pooled(fragments, placed) && S.AdjacentMerged(placed, result, keys)
    requires i < |result| && S.InRange(result[i], x)
    ensures KeyCovers(fragments, keys[i].identity, x)
  {
    var p := OutputMember(placed, result, keys, i, x);
    PlacedKeyCovers(fragments, placed, weeks, p, x);
  }

  /** A section some fragment covers under a key is covered by an output of that key. */
  lemma KeyComesOut(
    fragments: seq<Course>, placed: seq<Course>, result: seq<Course>, keys: seq<U.GroupKey>, weeks: seq<int>,
    key: U.IdentityKey, x: int) returns (i: nat)
    requires Plain(fragments, weeks) && U.Pooled(fragments, placed) && S.AdjacentMerged(placed, result, keys)
    requires KeyCovers(fragments, key, x)
    ensures i < |result| && keys[i].identity == key && S.InRange(result[i], x) && result[i].base == key.base
  {
    var c :| c in fragments && U.IdentityKeyOf(c) == key && S.InRange(c, x);
    var p := PlacedForKey(fragments, placed, weeks, c, x);
    i := OutputForMember(placed, result, keys, p, x);
  }

  lemma PlacedForKey(fragments: seq<Course>, placed: seq<Course>, weeks: seq<int>, c: Course, x: int)
    returns (p: Course)
    requires Plain(fragments, weeks) && U.Pooled(fragments, placed) && c in fragments && S.InRange(c, x)
    ensures p in placed && U.IdentityKeyOf(p) == U.IdentityKeyOf(c) && S.InRange(p, x)
  {
    var w := weeks[0];
    assert w in weeks;
    PlainWeeks(fragments, weeks, c);
    var i :| 0 <= i < |fragments| && fragments[i] == c;
    assert Occupies(fragments[i], x, w) && U.CoversKey(fragments, U.IdentityKeyOf(c), x, w);
    assert U.CoversKey(placed, U.IdentityKeyOf(c), x, w);
    var j :| 0 <= j < |placed| && U.IdentityKeyOf(placed[j]) == U.IdentityKeyOf(c) && Occupies(placed[j], x, w);
    p := placed[j];
  }

  lemma OutputForMember(placed: seq<Course>, result: seq<Course>, keys: seq<U.GroupKey>, p: Course, x: int)
    returns (i: nat)
    requires S.AdjacentMerged(placed, result, keys) && p in placed && S.InRange(p, x)
    ensures i < |result| && keys[i] == U.GroupKeyOf(p) && S.InRange(result[i], x) && result[i].base == p.base
  {
    var k := U.GroupKeyOf(p);
    var members := S.Members(placed, k);
    assert p in members;
    var j :| 0 <= j < |members| && members[j] == p;
    assert S.CoversSection(members, x) && S.GroupCovers(result, keys, k, x);
    i :| 0 <= i < |result| && keys[i] == k && S.InRange(result[i], x);
    assert S.BelongsTo(result[i], k);
  }

  /** Ranges that end where the course does are separate. */
  lemma BoundedRangesSeparate(ranges: set<Interval>)
    requires forall p :: p in ranges ==> p.lo <= p.hi && !CoveredBy(ranges, p.lo - 1) && !CoveredBy(ranges, p.hi + 1)
    ensures Separate(ranges)
  {
    forall p, q | p in ranges && q in ranges && p != q ensures p.hi + 1 < q.lo || q.hi + 1 < p.lo {
      assert q.lo <= p.lo - 1 <= q.hi ==> CoveredBy(ranges, p.lo - 1);
      assert q.lo <= p.hi + 1 <= q.hi ==> CoveredBy(ranges, p.hi + 1);
      assert p.lo <= q.lo - 1 <= p.hi ==> CoveredBy(ranges, q.lo - 1);
      assert p.lo <= q.hi + 1 <= p.hi ==> CoveredBy(ranges, q.hi + 1);
    }
  }

  lemma SameIdentitySameKey(
    fragments: seq<Course>, placed: seq<Course>, result: seq<Course>, keys: seq<U.GroupKey>, weeks: seq<int>,
    i: nat, j: nat)
    requires Plain(fragments, weeks) && U.Pooled(fragments, placed) && S.AdjacentMerged(placed, result, keys)
    requires i < |result| && j < |result| && keys[j].identity == keys[i].identity
    ensures keys[i] == keys[j] && result[i].WellFormed() && result[j].WellFormed()
  {
    var c := OutputFragment(fragments, placed, result, keys, weeks, i);
    var d := OutputFragment(fragments, placed, result, keys, weeks, j);
  }

  /** An output ends where its identity's sections do. */
  lemma OutputBounded(
    fragments: seq<Course>, placed: seq<Course>, result: seq<Course>, keys: seq<U.GroupKey>, weeks: seq<int>,
    i: nat, y: int)
    requires Plain(fragments, weeks) && U.Pooled(fragments, placed) && S.AdjacentMerged(placed, result, keys)
    requires i < |result| && (y == result[i].start - 1 || y == result[i].end + 1)
    ensures !KeyCovers(fragments, keys[i].identity, y)
  {
    PlacedPlain(fragments, placed, weeks);
    forall j | 0 <= j < |result| && keys[j].identity == keys[i].identity ensures !S.InRange(result[j], y) {
      SameIdentitySameKey(fragments, placed, result, keys, weeks, i, j);
    }
    if KeyCovers(fragments, keys[i].identity, y) {
      var j := KeyComesOut(fragments, placed, result, keys, weeks, keys[i].identity, y);
    }
  }

  lemma UnsplitBounded(
    fragments: seq<Course>, placed: seq<Course>, result: seq<Course>, keys: seq<U.GroupKey>, weeks: seq<int>,
    i: nat, b: Base)
    requires Plain(fragments, weeks) && U.Pooled(fragments, placed) && S.AdjacentMerged(placed, result, keys)
    requires Unsplit(fragments, b) && i < |result| && G.Identity(result[i]) == b
    ensures result[i].WellFormed()
    ensures !SectionOf(fragments, b, result[i].start - 1) && !SectionOf(fragments, b, result[i].end + 1)
  {
    var c := OutputFragment(fragments, placed, result, keys, weeks, i);
    var key, lo, hi := keys[i].identity, result[i].start, result[i].end;
    OutputKeyCovers(fragments, placed, result, keys, weeks, i, lo);
    OutputKeyCovers(fragments, placed, result, keys, weeks, i, hi);
    OutputBounded(fragments, placed, result, keys, weeks, i, lo - 1);
    OutputBounded(fragments, placed, result, keys, weeks, i, hi + 1);
    assert !GoesOn(fragments, b, key, lo, lo - 1) && !GoesOn(fragments, b, key, hi, hi + 1);
  }

  lemma UnsplitSeparates(
    fragments: seq<Course>, placed: seq<Course>, result: seq<Course>, keys: seq<U.GroupKey>, weeks: seq<int>, b: Base)
    requires Plain(fragments, weeks) && U.Pooled(fragments, placed) && S.AdjacentMerged(placed, result, keys)
    requires Unsplit(fragments, b)
    ensures Separate(Ranges(result, b))
  {
    UndergraduateCanonical(fragments, placed, result, keys, weeks);
    forall p | p in Ranges(result, b)
      ensures p.lo <= p.hi && !CoveredBy(Ranges(result, b), p.lo - 1) && !CoveredBy(Ranges(result, b), p.hi + 1)
    {
      var r :| r in result && G.Identity(r) == b && p == Interval(r.start, r.end);
      var i :| 0 <= i < |result| && result[i] == r;
      UnsplitBounded(fragments, placed, result, keys, weeks, i, b);
      RangesCover(result, b, r.start - 1);
      RangesCover(result, b, r.end + 1);
    }
    BoundedRangesSeparate(Ranges(result, b));
  }

  lemma SeparateUnsplits(
    fragments: seq<Course>, placed: seq<Course>, result: seq<Course>, keys: seq<U.GroupKey>, weeks: seq<int>, b: Base)
    requires Plain(fragments, weeks) && U.Pooled(fragments, placed) && S.AdjacentMerged(placed, result, keys)
    requires Separate(Ranges(result, b))
    ensures Unsplit(fragments, b)
  {
    UndergraduateCanonical(fragments, placed, result, keys, weeks);
    forall key, x, y | GoesOn(fragments, b, key, x, y) ensures KeyCovers(fragments, key, y) {
      var i := KeyComesOut(fragments, placed, result, keys, weeks, key, x);
      RangesCover(result, b, y);
      var p := Interval(result[i].start, result[i].end);
      assert result[i] in result && p in Ranges(result, b);
      var q :| q in Ranges(result, b) && q.lo <= y <= q.hi;
      assert p == q;
      OutputKeyCovers(fragments, placed, result, keys, weeks, i, y);
    }
  }

  /** On one week set the merges keep the same sections of every course, whatever the order of the graduate
      fold; they keep the same ranges of a course exactly when its fragments are unsplit. */
  lemma MergesAgree(
    fragments: seq<Course>, reordered: seq<Course>, weeks: seq<int>, graduate: seq<Course>,
    placed: seq<Course>, undergraduate: seq<Course>, keys: seq<U.GroupKey>, b: Base)
    requires Plain(fragments, weeks) && forall c :: c in fragments <==> c in reordered
    requires G.GraduateMerged(reordered, graduate)
    requires U.Pooled(fragments, placed) && S.AdjacentMerged(placed, undergraduate, keys)
    ensures forall x :: SectionOf(graduate, b, x) <==> SectionOf(undergraduate, b, x)
    ensures Ranges(graduate, b) == Ranges(undergraduate, b) <==> Unsplit(fragments, b)
    ensures Canonical(fragments, graduate) && (OneIdentity(fragments) ==> Canonical(fragments, undergraduate))
    ensures HaveWeeks(graduate, weeks) && HaveWeeks(undergraduate, weeks)
  {
    assert Plain(reordered, weeks);
    GraduateCanonical(reordered, graduate, weeks);
    UndergraduateCanonical(fragments, placed, undergraduate, keys, weeks);
    CanonicalSeparate(reordered, graduate, b);
    assert forall d, x :: SectionOf(reordered, d, x) <==> SectionOf(fragments, d, x);
    if Unsplit(fragments, b) {
      UnsplitSeparates(fragments, placed, undergraduate, keys, weeks, b);
      forall x ensures CoveredBy(Ranges(undergraduate, b), x) <==> CoveredBy(Ranges(graduate, b), x) {
        RangesCover(undergraduate, b, x);
      }
      SeparateIsCanonical(Ranges(graduate, b), Ranges(undergraduate, b));
    }
    if Ranges(graduate, b) == Ranges(undergraduate, b) {
      SeparateUnsplits(fragments, placed, undergraduate, keys, weeks, b);
    }
  }

  lemma RangesCover(courses: seq<Course>, b: Base, x: int)
    ensures CoveredBy(Ranges(courses, b), x) <==> SectionOf(courses, b, x)
  {
    if SectionOf(courses, b, x) {
      var c :| c in courses && G.Identity(c) == b && c.start <= x <= c.end;
      assert Interval(c.start, c.end) in Ranges(courses, b);
    }
  }

  /** Courses of one identity per course are unsplit. */
  lemma OneIdentityIsUnsplit(fragments: seq<Course>, b: Base)
    requires OneIdentity(fragments)
    ensures Unsplit(fragments, b)
  {
    forall key, x, y | GoesOn(fragments, b, key, x, y) ensures KeyCovers(fragments, key, y) {
      var c :| c in fragments && U.IdentityKeyOf(c) == key && S.InRange(c, x);
      var d :| d in fragments && G.Identity(d) == b && d.start <= y <= d.end;
      assert G.Identity(c) == G.Identity(d) && S.InRange(d, y);
    }
  }

  // ---------------------------------------------------- two classes, one course

  const SEMINAR: Base := Base("2025-2026-1", "C1", "", "Seminar", "Li", "West", "Room 1", "", 1)

  /** Sections 1-2 of class 1 and 2-3 of class 2, in week 1. */
  const TWO_CLASSES: seq<Course> := [
    Course(NoId, SEMINAR.(classNum := "1"), 1, 2, [1]), Course(NoId, SEMINAR.(classNum := "2"), 2, 3, [1])]

  lemma TwoClassesAreSplit()
    ensures Plain(TWO_CLASSES, [1]) && !Unsplit(TWO_CLASSES, SEMINAR)
  {
    var one, two := TWO_CLASSES[0], TWO_CLASSES[1];
    var key := U.IdentityKeyOf(one);
    assert one in TWO_CLASSES && S.InRange(one, 2) && KeyCovers(TWO_CLASSES, key, 2);
    assert two in TWO_CLASSES && G.Identity(two) == SEMINAR && SectionOf(TWO_CLASSES, SEMINAR, 3);
    assert GoesOn(TWO_CLASSES, SEMINAR, key, 2, 3);
    forall c | c in TWO_CLASSES && U.IdentityKeyOf(c) == key ensures !S.InRange(c, 3) { assert c == one || c == two; }
    assert !KeyCovers(TWO_CLASSES, key, 3);
    forall c | c in TWO_CLASSES ensures SortedWeeks(c.weeks) == [1] { AscendingUnique(SortedWeeks([1]), [1]); }
  }

  /** Merging them both ways gives different ranges. */
  method OverlappingClassesDisagree() returns (graduate: seq<Course>, undergraduate: seq<Course>)
    ensures Ranges(graduate, SEMINAR) == {Interval(1, 3)}
    ensures Ranges(undergraduate, SEMINAR) != {Interval(1, 3)}
  {
    graduate := G.MergeAll(TWO_CLASSES);
    ghost var placed, keys;
    undergraduate, placed, keys := S.MergeUndergraduateCourses(TWO_CLASSES);
    TwoClassesAreSplit();
    MergesAgree(TWO_CLASSES, TWO_CLASSES, [1], graduate, placed, undergraduate, keys, SEMINAR);
    SeminarJoined(graduate);
  }

  lemma SeminarJoined(graduate: seq<Course>)
    requires Plain(TWO_CLASSES, [1]) && G.GraduateMerged(TWO_CLASSES, graduate)
    ensures Ranges(graduate, SEMINAR) == {Interval(1, 3)}
  {
    GraduateCanonical(TWO_CLASSES, graduate, [1]);
    CanonicalSeparate(TWO_CLASSES, graduate, SEMINAR);
    var whole := {Interval(1, 3)};
    forall x ensures CoveredBy(whole, x) <==> SectionOf(TWO_CLASSES, SEMINAR, x) {
      assert TWO_CLASSES[0] in TWO_CLASSES && TWO_CLASSES[1] in TWO_CLASSES;
      assert 1 <= x <= 3 ==> Interval(1, 3) in whole;
      assert forall c :: c in TWO_CLASSES ==> c == TWO_CLASSES[0] || c == TWO_CLASSES[1];
    }
    SeparateIsCanonical(Ranges(graduate, SEMINAR), whole);
  }

  /** The graduate fold is confluent: any two orders of the fragments give the same ranges. */
  lemma GraduateFoldConfluent(
    fragments: seq<Course>, reordered: seq<Course>, weeks: seq<int>, one: seq<Course>, other: seq<Course>)
    requires Plain(fragments, weeks) && forall c :: c in fragments <==> c in reordered
    requires G.GraduateMerged(fragments, one) && G.GraduateMerged(reordered, other)
    ensures forall b :: Ranges(one, b) == Ranges(other, b)
    ensures |one| == |other|
  {
    assert Plain(reordered, weeks);
    GraduateCanonical(fragments, one, weeks);
    GraduateCanonical(reordered, other, weeks);
    forall b ensures Ranges(one, b) == Ranges(other, b) { CanonicalUnique(fragments, reordered, one, other, b); }
    SameSize(one, other);
  }

  datatype Block = Block(base: Base, range: Interval)

  ghost function Blocks(courses: seq<Course>): set<Block> {
    set c | c in courses :: Block(G.Identity(c), Interval(c.start, c.end))
  }

  lemma {:induction false} BlocksCount(courses: seq<Course>)
    requires forall i, j :: 0 <= i < j < |courses| ==>
               Block(G.Identity(courses[i]), Interval(courses[i].start, courses[i].end))
               != Block(G.Identity(courses[j]), Interval(courses[j].start, courses[j].end))
    ensures |Blocks(courses)| == |courses|
  {
    if courses == [] {
      assert Blocks(courses) == {};
    } else {
      var front, c := courses[..|courses| - 1], courses[|courses| - 1];
      BlocksCount(front);
      var block := Block(G.Identity(c), Interval(c.start, c.end));
      assert courses == front + [c];
      assert Blocks(courses) == Blocks(front) + {block};
      assert block !in Blocks(front);
    }
  }

  lemma BlocksDiffer(fragments: seq<Course>, result: seq<Course>)
    requires Canonical(fragments, result)
    ensures forall i, j :: 0 <= i < j < |result| ==>
              Block(G.Identity(result[i]), Interval(result[i].start, result[i].end))
              != Block(G.Identity(result[j]), Interval(result[j].start, result[j].end))
  {
    forall i | 0 <= i < |result| ensures result[i].WellFormed() { assert result[i] in result; }
  }

  lemma SameSize(one: seq<Course>, other: seq<Course>)
    requires exists f, g :: Canonical(f, one) && Canonical(g, other)
    requires forall b :: Ranges(one, b) == Ranges(other, b)
    ensures |one| == |other|
  {
    forall block ensures block in Blocks(one) <==> block in Blocks(other) {
      assert block in Blocks(one) <==> block.range in Ranges(one, block.base);
      assert block in Blocks(other) <==> block.range in Ranges(other, block.base);
    }
    assert Blocks(one) == Blocks(other);
    var f, g :| Canonical(f, one) && Canonical(g, other);
    BlocksDiffer(f, one);
    BlocksDiffer(g, other);
    BlocksCount(one);
    BlocksCount(other);
  }
}
