/** The query path `get_recommendations`: resolve the typed title to a catalog
    title, take the similarity row of the first row carrying that title, rank
    the row, drop the first-ranked entry and keep the next `k`, numbering them
    from 1. The fuzzy matcher is an oracle whose answer is a parameter. */
module Recommend {
  import opened Catalog
  import opened Ranking

  /** One recommendation record: `{'title', 'similarity_score', 'rank'}`. */
  datatype Recommendation = Recommendation(title: string, similarityScore: real, rank: nat)

  /** The pair returned by `get_recommendations`: `(None, message)` when the
      typed title matched nothing, `(recommendations, close_match)` otherwise. */
  datatype QueryResult =
    | NoMatch(message: string)
    | Matched(recommendations: seq<Recommendation>, matchedTitle: string)

  const NoMatchMessage: string := "Hmm, couldn't find that one. Try another movie title?"

  /** The similarity matrix of an `n`-row catalog is `n` by `n`. */
  ghost predicate SquareMatrix(similarity: seq<seq<real>>, n: nat)
  {
    |similarity| == n && forall i :: 0 <= i < |similarity| ==> |similarity[i]| == n
  }

  /** `movies_data[movies_data['title'] == t].index[0]`: the first row whose
      title is `t` (the frame keeps its default 0..n-1 index). */
  function FirstIndexOf(titles: seq<string>, t: string): (r: nat)
    requires t in titles
    ensures r < |titles| && titles[r] == t
    ensures forall j :: 0 <= j < r ==> titles[j] != t
  {
    if titles[0] == t then 0 else 1 + FirstIndexOf(titles[1..], t)
  }

  /** Python's normalisation of a slice bound `i` on a list of length `n`:
      a negative bound counts from the end, then the bound is clamped to 0..n. */
  function SliceBound(i: int, n: nat): (r: nat)
    ensures r <= n
    ensures 0 <= i <= n ==> r == i
    ensures i > n ==> r == n
    ensures i < 0 && 0 <= i + n ==> r == i + n
    ensures i + n < 0 ==> r == 0
  {
    if i < 0 then (if i + n < 0 then 0 else i + n)
    else if i > n then n
    else i
  }

  /** Python's `s[start:stop]`: the items of `s` whose positions `p` satisfy
      `lo <= p < hi` for the normalised bounds `lo` and `hi`, in order. */
  function Slice<T>(s: seq<T>, start: int, stop: int): (r: seq<T>)
    ensures |r| == Max(0, SliceBound(stop, |s|) - SliceBound(start, |s|))
    ensures forall p :: 0 <= p < |r| ==> r[p] == s[SliceBound(start, |s|) + p]
  {
    var lo := SliceBound(start, |s|);
    var hi := SliceBound(stop, |s|);
    if lo < hi then s[lo..hi] else []
  }

  /** `sorted_similar_movies[1:k+1]`: the ranked entries that are recommended. */
  function Picks(row: seq<real>, k: int): (picks: seq<Scored>)
  {
    Slice(Ranked(row), 1, k + 1)
  }

  /** Record `rec` at output position `i` stands for the ranked entry `pick`:
      rank `i + 1`, the catalog title of the row `pick` names, and that row's
      score in the query row. */
  ghost predicate AlignedRecord(rec: Recommendation, i: nat, pick: Scored,
                                titles: seq<string>, row: seq<real>)
  {
    && pick.index < |titles| && pick.index < |row|
    && rec.title == titles[pick.index]
    && rec.similarityScore == row[pick.index]
    && rec.rank == i + 1
  }

  /** The loop that numbers the picked entries from 1 and looks up their
      titles. Each pick is an entry `(j, row[j])` of the query row `row`. */
  function ToRecords(picks: seq<Scored>, titles: seq<string>, row: seq<real>)
    : (r: seq<Recommendation>)
    requires forall i :: 0 <= i < |picks| ==>
      picks[i].index < |titles| && picks[i].index < |row| && picks[i].score == row[picks[i].index]
    ensures |r| == |picks|
    ensures forall i :: 0 <= i < |r| ==> AlignedRecord(r[i], i, picks[i], titles, row)
  {
    seq(|picks|, i requires 0 <= i < |picks| =>
      Recommendation(titles[picks[i].index], picks[i].score, i + 1))
  }

  /** Every ranked entry is `(j, row[j])` for a row index `j`, and every row
      index occurs in the ranked list. */
  lemma RankedEntries(row: seq<real>)
    ensures |Ranked(row)| == |row|
    ensures forall p :: 0 <= p < |Ranked(row)| ==>
      Ranked(row)[p].index < |row| && Ranked(row)[p].score == row[Ranked(row)[p].index]
    ensures forall j :: 0 <= j < |row| ==>
      exists p :: 0 <= p < |Ranked(row)| && Ranked(row)[p] == Scored(j, row[j])
  {
    var ranked := Ranked(row);
    var e := Enumerate(row);
    RankedSpec(row);
    forall p | 0 <= p < |ranked|
      ensures ranked[p].index < |row| && ranked[p].score == row[ranked[p].index]
    {
      assert ranked[p] in multiset(e);
      var q :| 0 <= q < |e| && e[q] == ranked[p];
    }
    forall j | 0 <= j < |row|
      ensures exists p :: 0 <= p < |ranked| && ranked[p] == Scored(j, row[j])
    {
      assert e[j] in multiset(ranked);
      var p :| 0 <= p < |ranked| && ranked[p] == e[j];
    }
  }

  function Min(a: int, b: int): (m: int)
    ensures m <= a && m <= b && (m == a || m == b)
  {
    if a <= b then a else b
  }

  function Max(a: int, b: int): (m: int)
    ensures m >= a && m >= b && (m == a || m == b)
  {
    if a >= b then a else b
  }

  /** The number of entries `[1:k+1]` keeps from a ranked list of `n >= 1`
      entries: `min(k, n - 1)` for `k >= 0`; none for `k == -1`; and, since a
      stop below zero counts from the end, `max(0, n + k)` for `k < -1`. */
  function PickCount(k: int, n: nat): (count: int)
  {
    if k >= 0 then Min(k, n - 1)
    else if k == -1 then 0
    else Max(0, n + k)
  }

  /** The picked entries are the ranked list's positions 1 onwards, as many
      as PickCount says. */
  lemma PicksArePrefixAfterTop(row: seq<real>, k: int)
    requires |row| >= 1
    ensures |Picks(row, k)| == PickCount(k, |row|)
    ensures Picks(row, k) == Ranked(row)[1..1 + |Picks(row, k)|]
  {
    RankedEntries(row);
  }

  /** `get_recommendations` with the fuzzy matcher's answer `closeMatch` for
      the typed title (a matched title is one of the catalog's titles). */
  function GetRecommendations(closeMatch: Option<string>, titles: seq<string>,
                              similarity: seq<seq<real>>, k: int): (r: QueryResult)
    requires SquareMatrix(similarity, |titles|)
    requires closeMatch.Some? ==> closeMatch.value in titles
    ensures closeMatch.None? <==> r.NoMatch?
    ensures r.NoMatch? ==> r.message == NoMatchMessage
    ensures r.Matched? ==> r.matchedTitle == closeMatch.value
    ensures r.Matched? ==> |r.recommendations| == PickCount(k, |titles|)
    ensures r.Matched? && k >= 0 ==> |r.recommendations| == Min(k, |titles| - 1)
    ensures r.Matched? ==> forall i :: 0 <= i < |r.recommendations| ==>
      r.recommendations[i].rank == i + 1
    ensures r.Matched? ==> forall i, j :: 0 <= i < j < |r.recommendations| ==>
      r.recommendations[i].similarityScore >= r.recommendations[j].similarityScore
    ensures r.Matched? ==> forall i :: 0 <= i < |r.recommendations| ==>
      r.recommendations[i].title in titles
  {
    match closeMatch
    case None => NoMatch(NoMatchMessage)
    case Some(t) =>
      var q := FirstIndexOf(titles, t);
      var row := similarity[q];
      RankedEntries(row);
      PicksArePrefixAfterTop(row, k);
      SortDescNonIncreasing(Enumerate(row));
      PicksEntries(row, k);
      Matched(ToRecords(Picks(row, k), titles, row), t)
  }

  /** Entries at distinct ranked positions name distinct rows. */
  lemma RankedIndicesDistinct(row: seq<real>)
    ensures forall p, p' :: 0 <= p < p' < |Ranked(row)| ==>
      Ranked(row)[p].index != Ranked(row)[p'].index
  {
    var ranked := Ranked(row);
    RankedSpec(row);
    RankedEntries(row);
    forall p, p' | 0 <= p < p' < |ranked|
      ensures ranked[p].index != ranked[p'].index
    {
      assert Before(ranked[p], ranked[p']);
    }
  }

  /** The first-ranked entry is `(j, row[j])` for the row `j` ranked Before
      every other row: the highest score, and the lowest index among ties. */
  lemma TopIsBest(row: seq<real>)
    requires |row| >= 1
    ensures var top := Ranked(row)[0];
      && top.index < |row| && top.score == row[top.index]
      && forall j :: 0 <= j < |row| && j != top.index ==> Before(top, Scored(j, row[j]))
  {
    var ranked := Ranked(row);
    RankedSpec(row);
    RankedEntries(row);
    forall j | 0 <= j < |row| && j != ranked[0].index
      ensures Before(ranked[0], Scored(j, row[j]))
    {
      var p :| 0 <= p < |ranked| && ranked[p] == Scored(j, row[j]);
    }
  }

  /** Each picked entry is `(j, row[j])` for a row `j`; the picks are in
      ranking order, name distinct rows, and never the first-ranked row,
      whatever its index. */
  lemma PicksEntries(row: seq<real>, k: int)
    requires |row| >= 1
    ensures var picks := Picks(row, k);
      && (forall i :: 0 <= i < |picks| ==>
            picks[i].index < |row| && picks[i].score == row[picks[i].index])
      && (forall i, j :: 0 <= i < j < |picks| ==> Before(picks[i], picks[j]))
      && (forall i, j :: 0 <= i < j < |picks| ==> picks[i].index != picks[j].index)
      && (forall i :: 0 <= i < |picks| ==> picks[i].index != Ranked(row)[0].index)
  {
    var ranked := Ranked(row);
    var picks := Picks(row, k);
    RankedSpec(row);
    RankedEntries(row);
    RankedIndicesDistinct(row);
    PicksArePrefixAfterTop(row, k);
    assert forall i :: 0 <= i < |picks| ==> picks[i] == ranked[i + 1];
  }

  /** Nothing is passed over: a row that is neither first-ranked nor picked
      is ranked after every picked entry. */
  lemma PicksAreBestAfterTop(row: seq<real>, k: int)
    requires |row| >= 1
    ensures var picks := Picks(row, k);
      forall j ::
        (0 <= j < |row| && j != Ranked(row)[0].index
         && (forall i :: 0 <= i < |picks| ==> picks[i].index != j)) ==>
        forall i :: 0 <= i < |picks| ==> Before(picks[i], Scored(j, row[j]))
  {
    var ranked := Ranked(row);
    var picks := Picks(row, k);
    var n := |picks|;
    RankedSpec(row);
    RankedEntries(row);
    PicksArePrefixAfterTop(row, k);
    forall j | 0 <= j < |row| && j != ranked[0].index
        && (forall i :: 0 <= i < n ==> picks[i].index != j)
      ensures forall i :: 0 <= i < n ==> Before(picks[i], Scored(j, row[j]))
    {
      var p :| 0 <= p < |ranked| && ranked[p] == Scored(j, row[j]);
      assert p != 0;
      assert forall i :: 1 <= i <= n ==> ranked[i].index != j by {
        assert forall i :: 0 <= i < n ==> picks[i] == ranked[i + 1];
      }
      forall i | 0 <= i < n
        ensures Before(picks[i], Scored(j, row[j]))
      {
        assert picks[i] == ranked[i + 1];
      }
    }
  }

  /** The records line up with the picked entries: record `i` has rank
      `i + 1`, the catalog title of the row the entry names, and that row's
      score in the query row. */
  lemma RecommendationsAligned(title: string, titles: seq<string>,
                               similarity: seq<seq<real>>, k: int)
    requires SquareMatrix(similarity, |titles|)
    requires title in titles
    ensures GetRecommendations(Some(title), titles, similarity, k).Matched?
    ensures |GetRecommendations(Some(title), titles, similarity, k).recommendations|
         == |Picks(similarity[FirstIndexOf(titles, title)], k)|
    ensures forall i :: 0 <= i < |Picks(similarity[FirstIndexOf(titles, title)], k)| ==>
      AlignedRecord(GetRecommendations(Some(title), titles, similarity, k).recommendations[i],
                    i, Picks(similarity[FirstIndexOf(titles, title)], k)[i],
                    titles, similarity[FirstIndexOf(titles, title)])
  {
  }

  /** When the query row scores strictly highest against itself, it is the
      first-ranked entry and so never recommended. */
  lemma QueryExcludedWhenStrictlyTop(row: seq<real>, q: nat, k: int)
    requires q < |row|
    requires forall j :: 0 <= j < |row| && j != q ==> row[j] < row[q]
    ensures forall i :: 0 <= i < |Picks(row, k)| ==> Picks(row, k)[i].index != q
  {
    TopIsBest(row);
    PicksEntries(row, k);
    var top := Ranked(row)[0];
    assert top.index != q ==> Before(top, Scored(q, row[q]));
  }

  /** Exclusion is by ranked position, not by the query's index: when some
      earlier row scores at least as high as the query row, the query row is
      not ranked first, so it is not dropped, and once `k` reaches `n - 1`
      it is among the recommendations. */
  lemma QueryKeptWhenEarlierTies(row: seq<real>, q: nat, j: nat, k: int)
    requires j < q < |row| && row[j] >= row[q]
    requires k >= |row| - 1
    ensures Ranked(row)[0].index != q
    ensures exists i :: 0 <= i < |Picks(row, k)| && Picks(row, k)[i] == Scored(q, row[q])
  {
    TopIsBest(row);
    RankedEntries(row);
    PicksArePrefixAfterTop(row, k);
    var top := Ranked(row)[0];
    var earlier := Scored(j, row[j]);
    assert top.index == q ==> Before(top, earlier);
    var p :| 0 <= p < |Ranked(row)| && Ranked(row)[p] == Scored(q, row[q]);
    assert Picks(row, k)[p - 1] == Ranked(row)[p];
  }

  /** An instance of QueryKeptWhenEarlierTies: with two rows tied at the top
      and the second one queried, the first is dropped and the query row
      itself is recommended at rank 1. */
  lemma TiedEarlierRowDisplacesQuery()
    ensures GetRecommendations(Some("B"), ["A", "B"], [[1.0, 1.0], [1.0, 1.0]], 1)
         == Matched([Recommendation("B", 1.0, 1)], "B")
  {
    var titles := ["A", "B"];
    var row := [1.0, 1.0];
    assert FirstIndexOf(titles, "B") == 1;
    assert Enumerate(row) == [Scored(0, 1.0), Scored(1, 1.0)];
    assert Ranked(row) == [Scored(0, 1.0), Scored(1, 1.0)];
    assert Picks(row, 1) == [Scored(1, 1.0)];
  }
}
