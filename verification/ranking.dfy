/** Ranking of one similarity row: `sorted(enumerate(row), key=score,
    reverse=True)`. Python's sort is stable also with `reverse=True`, so rows
    of equal score keep their input order, which for `enumerate` is ascending
    row index. Only the order of the scores matters, so scores are reals. */
module Ranking {

  /** An `(index, score)` pair of `enumerate(row)`. */
  datatype Scored = Scored(index: nat, score: real)

  /** `list(enumerate(row))`. */
  function Enumerate(row: seq<real>): (r: seq<Scored>)
    ensures |r| == |row|
    ensures forall i :: 0 <= i < |row| ==> r[i].index == i && r[i].score == row[i]
  {
    seq(|row|, i requires 0 <= i < |row| => Scored(i, row[i]))
  }

  /** Scores never increase along `s`. */
  ghost predicate NonIncreasing(s: seq<Scored>)
  {
    forall i, j :: 0 <= i < j < |s| ==> s[i].score >= s[j].score
  }

  /** Indices strictly increase along `s` (true of `enumerate`). */
  ghost predicate IndicesAscending(s: seq<Scored>)
  {
    forall i, j :: 0 <= i < j < |s| ==> s[i].index < s[j].index
  }

  /** The strict order the ranking follows: higher score first, and on equal
      scores the lower index first. */
  predicate Before(a: Scored, b: Scored)
  {
    a.score > b.score || (a.score == b.score && a.index < b.index)
  }

  /** Every earlier entry of `s` comes strictly Before every later one. */
  ghost predicate Ordered(s: seq<Scored>)
  {
    forall i, j :: 0 <= i < j < |s| ==> Before(s[i], s[j])
  }

  /** Places `x` in front of the first entry of `s` whose score it reaches, so
      that it follows every entry of strictly higher score. */
  function InsertDesc(x: Scored, s: seq<Scored>): (r: seq<Scored>)
    ensures |r| == |s| + 1
    ensures multiset(r) == multiset(s) + multiset{x}
    ensures r[0] == x || (|s| > 0 && r[0] == s[0])
  {
    if s == [] || x.score >= s[0].score then [x] + s
    else
      assert s == [s[0]] + s[1..];
      [s[0]] + InsertDesc(x, s[1..])
  }

  /** Stable descending insertion sort: the head of the input is inserted in
      front of every entry of the sorted rest that it ties. */
  function SortDesc(xs: seq<Scored>): (r: seq<Scored>)
    ensures |r| == |xs|
    ensures multiset(r) == multiset(xs)
  {
    if xs == [] then []
    else
      assert xs == [xs[0]] + xs[1..];
      InsertDesc(xs[0], SortDesc(xs[1..]))
  }

  /** The ranked list of a similarity row. */
  function Ranked(row: seq<real>): (ranked: seq<Scored>)
  {
    SortDesc(Enumerate(row))
  }

  lemma {:induction false} InsertDescNonIncreasing(x: Scored, s: seq<Scored>)
    requires NonIncreasing(s)
    ensures NonIncreasing(InsertDesc(x, s))
  {
    if s == [] || x.score >= s[0].score {
    } else {
      var t := InsertDesc(x, s[1..]);
      InsertDescNonIncreasing(x, s[1..]);
      assert s[0].score >= t[0].score;
      assert InsertDesc(x, s) == [s[0]] + t;
    }
  }

  /** The sort leaves scores non-increasing, whatever its input. */
  lemma {:induction false} SortDescNonIncreasing(xs: seq<Scored>)
    ensures NonIncreasing(SortDesc(xs))
  {
    if xs != [] {
      SortDescNonIncreasing(xs[1..]);
      InsertDescNonIncreasing(xs[0], SortDesc(xs[1..]));
    }
  }

  lemma {:induction false} InsertDescOrdered(x: Scored, s: seq<Scored>)
    requires Ordered(s)
    requires forall i :: 0 <= i < |s| ==> x.index < s[i].index
    ensures Ordered(InsertDesc(x, s))
  {
    if s == [] || x.score >= s[0].score {
      var r := [x] + s;
      assert forall j :: 1 <= j < |r| ==> Before(x, r[j]) by {
        forall j | 1 <= j < |r|
          ensures Before(x, r[j])
        {
          if j > 1 {
            assert Before(s[0], s[j - 1]);
          }
        }
      }
    } else {
      var t := InsertDesc(x, s[1..]);
      InsertDescOrdered(x, s[1..]);
      assert Before(s[0], t[0]);
      assert InsertDesc(x, s) == [s[0]] + t;
    }
  }

  /** Stability: sorting an input whose indices ascend yields entries ordered
      by descending score and, among equal scores, by ascending index. */
  lemma {:induction false} SortDescOrdered(xs: seq<Scored>)
    requires IndicesAscending(xs)
    ensures Ordered(SortDesc(xs))
  {
    if xs != [] {
      var rest := SortDesc(xs[1..]);
      SortDescOrdered(xs[1..]);
      forall i | 0 <= i < |rest|
        ensures xs[0].index < rest[i].index
      {
        assert rest[i] in multiset(xs[1..]);
        var k :| 0 <= k < |xs[1..]| && xs[1..][k] == rest[i];
        assert xs[k + 1] == rest[i];
      }
      InsertDescOrdered(xs[0], rest);
    }
  }

  /** Two Ordered arrangements of the same entries are the same sequence:
      the ranking is fully determined by the scores and indices. */
  lemma {:induction false} OrderedUnique(a: seq<Scored>, b: seq<Scored>)
    requires multiset(a) == multiset(b)
    requires Ordered(a) && Ordered(b)
    ensures a == b
  {
    if |a| == 0 {
      assert |b| == |multiset(b)| == 0;
    } else {
      assert |b| == |multiset(b)| == |a|;
      assert a[0] in multiset(b);
      var k :| 0 <= k < |b| && b[k] == a[0];
      assert b[0] in multiset(a);
      var m :| 0 <= m < |a| && a[m] == b[0];
      // Before is a strict order, so neither head can come Before the other.
      assert k != 0 ==> Before(b[0], a[0]);
      assert m != 0 ==> Before(a[0], b[0]);
      assert a[0] == b[0];
      assert a == [a[0]] + a[1..];
      assert b == [b[0]] + b[1..];
      assert multiset(a) == multiset{a[0]} + multiset(a[1..]);
      assert multiset(b) == multiset{a[0]} + multiset(b[1..]);
      assert multiset(a[1..]) == multiset(a) - multiset{a[0]};
      assert multiset(b[1..]) == multiset(b) - multiset{a[0]};
      OrderedUnique(a[1..], b[1..]);
    }
  }

  /** The ranked list of a row: a permutation of `enumerate(row)`, ordered by
      descending score with ties in ascending index order, and the only
      permutation so ordered. */
  lemma RankedSpec(row: seq<real>)
    ensures multiset(Ranked(row)) == multiset(Enumerate(row))
    ensures NonIncreasing(Ranked(row))
    ensures Ordered(Ranked(row))
    ensures forall s :: multiset(s) == multiset(Enumerate(row)) && Ordered(s) ==> s == Ranked(row)
  {
    SortDescNonIncreasing(Enumerate(row));
    SortDescOrdered(Enumerate(row));
    forall s | multiset(s) == multiset(Enumerate(row)) && Ordered(s)
      ensures s == Ranked(row)
    {
      OrderedUnique(s, Ranked(row));
    }
  }
}
