/** What a course list shows, without the query that computes it: one row for each course that the search selects,
    made of all the per-term rows of that course. */
module ProjectionShown {
  import opened Statistics
  import opened Projection

  /** The per-term rows of one course, in order. */
  function TermsOf(rows: seq<CourseRow>, level: string, code: string): seq<CourseRow> {
    if rows == [] then []
    else
      var last := rows[|rows| - 1];
      TermsOf(rows[..|rows| - 1], level, code)
      + (if last.key.level == level && last.key.code == code then [last] else [])
  }

  /** The first difference decides; a text is greater than its own beginning. */
  predicate Greater(a: string, b: string) {
    exists i :: 0 <= i < |a| && i <= |b| && a[..i] == b[..i] && (i == |b| || a[i] > b[i])
  }

  /** The row of one course: how many terms it has, the sums over them, and the greatest of its names. */
  ghost predicate Shows(terms: seq<CourseRow>, rate: CoursePassRate) {
    && terms != [] && rate.termCount == |terms| && rate.stats == Total(terms)
    && (exists t :: t in terms && t.courseName == rate.courseName)
    && (forall t :: t in terms ==> !Greater(t.courseName, rate.courseName))
  }

  /** Is this row in the list of a search for a course code and an education level, either of them free when empty? */
  ghost predicate Shown(rows: seq<CourseRow>, code: string, level: string, minimum: int, rate: CoursePassRate) {
    && Shows(TermsOf(rows, rate.key.level, rate.key.code), rate) && rate.stats.valid >= minimum
    && (code == "" || rate.key.code == code) && (level == "" || rate.key.level == level)
  }

  lemma {:induction false} AboveExactly(a: string, b: string)
    ensures Above(a, b) <==> Greater(a, b)
  {
    if a != [] && b != [] && a[0] == b[0] {
      AboveExactly(a[1..], b[1..]);
      if i :| 0 <= i < |a[1..]| && i <= |b[1..]| && a[1..][..i] == b[1..][..i]
              && (i == |b[1..]| || a[1..][i] > b[1..][i]) {
        assert a[..i + 1] == [a[0]] + a[1..][..i] == [b[0]] + b[1..][..i] == b[..i + 1];
        assert Greater(a, b);
      }
      if i :| 0 <= i < |a| && i <= |b| && a[..i] == b[..i] && (i == |b| || a[i] > b[i]) {
        assert i > 0;
        assert a[1..][..i - 1] == a[..i][1..] == b[..i][1..] == b[1..][..i - 1];
        assert Greater(a[1..], b[1..]);
      }
    } else if a != [] {
      assert a[..0] == b[..0];
      if i :| 0 <= i < |a| && i <= |b| && a[..i] == b[..i] && (i == |b| || a[i] > b[i]) {
        assert i > 0 ==> a[..i][0] == b[..i][0];
      }
    }
  }

  lemma {:induction false} TermsAre(rows: seq<CourseRow>, k: ProjectionKey)
    ensures TermCount(rows, k) == |TermsOf(rows, k.level, k.code)|
    ensures Sums(rows, k) == Total(TermsOf(rows, k.level, k.code))
    ensures forall t :: t in TermsOf(rows, k.level, k.code) <==> t in rows && KeyOf(t) == k
  {
    if rows != [] {
      var front, last := rows[..|rows| - 1], rows[|rows| - 1];
      TermsAre(front, k);
      assert rows == front + [last];
      var terms := TermsOf(front, k.level, k.code);
      if KeyOf(last) == k { TotalGrows(terms, last); } else { assert terms + [] == terms; }
    }
  }

  lemma TotalGrows(terms: seq<CourseRow>, last: CourseRow)
    ensures Total(terms + [last]) == Total(terms).Plus(last.stats)
  {
    assert (terms + [last])[..|terms|] == terms;
  }

  lemma GroupRowShows(rows: seq<CourseRow>, k: ProjectionKey)
    requires k in Keys(rows)
    ensures Shows(TermsOf(rows, k.level, k.code), GroupRow(rows, k))
  {
    TermsAre(rows, k);
    MaxNameIsMax(rows, k);
    var row :| row in rows && KeyOf(row) == k;
    assert row in TermsOf(rows, k.level, k.code);
    forall t | t in TermsOf(rows, k.level, k.code) ensures !Greater(t.courseName, GroupRow(rows, k).courseName) {
      AboveExactly(t.courseName, GroupRow(rows, k).courseName);
    }
  }

  /** Two rows that show the same terms are the same but for the key. */
  lemma ShowsOnce(terms: seq<CourseRow>, a: CoursePassRate, b: CoursePassRate)
    requires Shows(terms, a) && Shows(terms, b)
    ensures a.courseName == b.courseName && a.termCount == b.termCount && a.stats == b.stats
  {
    AboveExactly(a.courseName, b.courseName);
    AboveExactly(b.courseName, a.courseName);
    AboveOrEqual(a.courseName, b.courseName);
  }

  lemma {:induction false} AboveOrEqual(a: string, b: string)
    ensures Above(a, b) || Above(b, a) || a == b
  {
    if a != [] && b != [] && a[0] == b[0] {
      AboveOrEqual(a[1..], b[1..]);
      assert a == [a[0]] + a[1..] && b == [b[0]] + b[1..];
    }
  }

  /** The grouped query shows exactly these rows. */
  lemma ShownExactly(rows: seq<CourseRow>, s: Search, minimum: int, rate: CoursePassRate)
    ensures rate in GroupedQuery(rows, s, minimum) <==> Shown(rows, s.courseCode, s.level, minimum, rate)
  {
    var k := rate.key;
    FilteredGroups(rows, s, k);
    TermsAre(rows, k);
    if rate in GroupedQuery(rows, s, minimum) {
      GroupRowIs(rows, s, k);
      GroupRowShows(rows, k);
    }
    if Shown(rows, s.courseCode, s.level, minimum, rate) {
      var t :| t in TermsOf(rows, k.level, k.code);
      assert t in rows && KeyOf(t) == k;
      GroupRowIs(rows, s, k);
      GroupRowShows(rows, k);
      ShowsOnce(TermsOf(rows, k.level, k.code), rate, GroupRow(rows, k));
    }
  }

  /** Filtering changes no group that the search selects. */
  lemma GroupRowIs(rows: seq<CourseRow>, s: Search, k: ProjectionKey)
    requires k in Keys(rows) && Matches(s, k)
    ensures k in Keys(Filtered(rows, s)) && GroupRow(Filtered(rows, s), k) == GroupRow(rows, k)
  {
    FilteredGroups(rows, s, k);
  }
}
