/**
  The order `ReadFilms` lists films in: `ORDER BY <field> <direction>`
  over one of three columns. Titles compare character by character (the
  "C" collation); ratings and dates by value. Rows whose sort values are
  equal keep ascending id order, which makes the listing deterministic.
 */
module Ordering {
  import opened Store

  datatype Field = Title | Rating | ReleaseDate

  datatype Direction = Asc | Desc

  /** A film as the listing query returns it. */
  datatype FilmRow = FilmRow(id: Id, film: Film)

  /** Strict lexicographic order on strings. */
  predicate LexLess(a: string, b: string)
    decreases |a|
  {
    |b| > 0 && (|a| == 0 || a[0] < b[0] || (a[0] == b[0] && LexLess(a[1..], b[1..])))
  }

  lemma {:induction false} LexLessIrreflexive(a: string)
    ensures !LexLess(a, a)
    decreases |a|
  {
    if |a| > 0 {
      LexLessIrreflexive(a[1..]);
    }
  }

  lemma {:induction false} LexLessTransitive(a: string, b: string, c: string)
    requires LexLess(a, b) && LexLess(b, c)
    ensures LexLess(a, c)
    decreases |a|
  {
    if |a| > 0 && a[0] == b[0] && b[0] == c[0] {
      LexLessTransitive(a[1..], b[1..], c[1..]);
    }
  }

  lemma {:induction false} LexLessTotal(a: string, b: string)
    ensures a == b || LexLess(a, b) || LexLess(b, a)
    decreases |a|
  {
    if |a| > 0 && |b| > 0 && a[0] == b[0] {
      LexLessTotal(a[1..], b[1..]);
      if a[1..] == b[1..] {
        assert a == [a[0]] + a[1..] && b == [b[0]] + b[1..];
      }
    }
  }

  /** The sort value of `x` is strictly below that of `y`, in ascending terms. */
  predicate KeyLess(x: Film, y: Film, field: Field)
  {
    match field
    case Title => LexLess(x.title, y.title)
    case Rating => x.rating < y.rating
    case ReleaseDate => x.releaseDate.day < y.releaseDate.day
  }

  predicate KeyEq(x: Film, y: Film, field: Field)
  {
    match field
    case Title => x.title == y.title
    case Rating => x.rating == y.rating
    case ReleaseDate => x.releaseDate == y.releaseDate
  }

  /** Row `a` may be listed before row `b`. */
  predicate Precedes(a: FilmRow, b: FilmRow, field: Field, dir: Direction)
  {
    || (dir == Asc && KeyLess(a.film, b.film, field))
    || (dir == Desc && KeyLess(b.film, a.film, field))
    || (KeyEq(a.film, b.film, field) && a.id <= b.id)
  }

  lemma PrecedesTotal(a: FilmRow, b: FilmRow, field: Field, dir: Direction)
    ensures Precedes(a, b, field, dir) || Precedes(b, a, field, dir)
  {
    if field == Title {
      LexLessTotal(a.film.title, b.film.title);
    }
  }

  lemma PrecedesTransitive(a: FilmRow, b: FilmRow, c: FilmRow, field: Field, dir: Direction)
    requires Precedes(a, b, field, dir) && Precedes(b, c, field, dir)
    ensures Precedes(a, c, field, dir)
  {
    if field == Title {
      var x, y, z := a.film.title, b.film.title, c.film.title;
      if LexLess(x, y) && LexLess(y, z) { LexLessTransitive(x, y, z); }
      if LexLess(z, y) && LexLess(y, x) { LexLessTransitive(z, y, x); }
    }
  }

  predicate Sorted(rows: seq<FilmRow>, field: Field, dir: Direction)
  {
    forall i, j :: 0 <= i < j < |rows| ==> Precedes(rows[i], rows[j], field, dir)
  }

  /** Insert one row into a sorted list, before the first row it precedes. */
  function Insert(x: FilmRow, rows: seq<FilmRow>, field: Field, dir: Direction): (r: seq<FilmRow>)
    requires Sorted(rows, field, dir)
    ensures multiset(r) == multiset(rows) + multiset{x}
    ensures Sorted(r, field, dir)
  {
    if |rows| == 0 then [x]
    else if Precedes(x, rows[0], field, dir) then
      PrependSorted(x, rows, field, dir);
      [x] + rows
    else
      PrecedesTotal(x, rows[0], field, dir);
      var tail := Insert(x, rows[1..], field, dir);
      KeepHeadSorted(x, rows, tail, field, dir);
      [rows[0]] + tail
  }

  /** A row preceding the head of a sorted list may go in front of it. */
  lemma PrependSorted(x: FilmRow, rows: seq<FilmRow>, field: Field, dir: Direction)
    requires Sorted(rows, field, dir) && |rows| > 0 && Precedes(x, rows[0], field, dir)
    ensures Sorted([x] + rows, field, dir)
  {
    var r := [x] + rows;
    forall j | 1 <= j < |r|
      ensures Precedes(x, r[j], field, dir)
    {
      if j > 1 { PrecedesTransitive(x, rows[0], rows[j - 1], field, dir); }
    }
  }

  /** The head of a sorted list stays in front of the rest with a row it precedes inserted. */
  lemma KeepHeadSorted(x: FilmRow, rows: seq<FilmRow>, tail: seq<FilmRow>, field: Field, dir: Direction)
    requires Sorted(rows, field, dir) && |rows| > 0 && Precedes(rows[0], x, field, dir)
    requires multiset(tail) == multiset(rows[1..]) + multiset{x} && Sorted(tail, field, dir)
    ensures multiset([rows[0]] + tail) == multiset(rows) + multiset{x}
    ensures Sorted([rows[0]] + tail, field, dir)
  {
    forall j | 0 <= j < |tail|
      ensures Precedes(rows[0], tail[j], field, dir)
    {
      assert tail[j] in multiset(tail);
      assert tail[j] == x || tail[j] in multiset(rows[1..]);
      if tail[j] != x {
        var k :| 0 <= k < |rows[1..]| && rows[1..][k] == tail[j];
        assert rows[k + 1] == tail[j];
      }
    }
    assert rows == [rows[0]] + rows[1..];
  }

  /** Sort rows for `ORDER BY field dir`, by insertion. */
  function SortRows(rows: seq<FilmRow>, field: Field, dir: Direction): (r: seq<FilmRow>)
    ensures multiset(r) == multiset(rows)
    ensures Sorted(r, field, dir)
  {
    if |rows| == 0 then []
    else
      assert rows == [rows[0]] + rows[1..];
      Insert(rows[0], SortRows(rows[1..], field, dir), field, dir)
  }

  /**
    Sorting fixes the listing: two sorted arrangements of the same rows with
    distinct ids are the same sequence. So the order `ReadFilms` pages
    through does not depend on the order the rows were stored in.
   */
  lemma {:induction false} SortedIsUnique(a: seq<FilmRow>, b: seq<FilmRow>, field: Field, dir: Direction)
    requires multiset(a) == multiset(b)
    requires Sorted(a, field, dir) && Sorted(b, field, dir)
    requires DistinctIds(a)
    ensures a == b
    decreases |a|
  {
    assert |a| == |multiset(a)| == |b|;
    if |a| > 0 {
      SameHead(a, b, field, dir);
      DropHead(a, field, dir);
      DropHead(b, field, dir);
      SortedIsUnique(a[1..], b[1..], field, dir);
      assert a == [a[0]] + a[1..] && b == [b[0]] + b[1..];
    }
  }

  /** No two rows of the list share an id. */
  predicate DistinctIds(a: seq<FilmRow>)
  {
    forall i, j :: 0 <= i < j < |a| ==> a[i].id != a[j].id
  }

  /** The first of two sorted arrangements of the same distinct rows is the same row. */
  lemma SameHead(a: seq<FilmRow>, b: seq<FilmRow>, field: Field, dir: Direction)
    requires multiset(a) == multiset(b) && |a| > 0
    requires Sorted(a, field, dir) && Sorted(b, field, dir)
    requires DistinctIds(a)
    ensures |b| > 0 && a[0] == b[0]
  {
    assert a[0] in multiset(b) && b[0] in multiset(a);
    var i :| 0 <= i < |b| && b[i] == a[0];
    var k :| 0 <= k < |a| && a[k] == b[0];
    if a[0] != b[0] {
      PrecedesAntisymmetric(a[0], b[0], field, dir);
      assert false;
    }
  }

  /** Dropping the head keeps a list sorted, its ids distinct, and removes one copy of the head. */
  lemma DropHead(a: seq<FilmRow>, field: Field, dir: Direction)
    requires |a| > 0
    ensures multiset(a[1..]) == multiset(a) - multiset{a[0]}
    ensures Sorted(a, field, dir) ==> Sorted(a[1..], field, dir)
    ensures DistinctIds(a) ==> DistinctIds(a[1..])
  {
    assert a == [a[0]] + a[1..];
  }

  lemma PrecedesAntisymmetric(a: FilmRow, b: FilmRow, field: Field, dir: Direction)
    requires Precedes(a, b, field, dir) && Precedes(b, a, field, dir)
    ensures a.id == b.id
  {
    if field == Title {
      var x, y := a.film.title, b.film.title;
      if LexLess(x, y) && LexLess(y, x) {
        LexLessTransitive(x, y, x);
        LexLessIrreflexive(x);
      }
      if LexLess(x, y) && x == y { LexLessIrreflexive(x); }
      if LexLess(y, x) && x == y { LexLessIrreflexive(x); }
    }
  }
}
