/** Content-based recommendation: the catalog is a sequence of course names
    (row order), the similarity matrix a sequence of score rows aligned with it. */
module ContentBased {
  import opened Wrappers
  import opened Seqs
  import opened Ranking

  /** The slice [1:9] keeps at most eight entries after the top-ranked one. */
  const MaxRecommendations: nat := 8

  /** Why no recommendation list is produced. `recommend` reports the first two
      with an error message and returns the empty list; the third is the index
      error raised when the queried row is missing from the matrix or a kept
      entry's index lies outside the catalog. */
  datatype RecommendError = CatalogUnavailable | CourseNotFound | RowOutOfRange

  /** The similarity matrix is square, with one row and one column per catalog course. */
  predicate Aligned(names: seq<string>, similarity: seq<seq<int>>)
  {
    |similarity| == |names| && forall i :: 0 <= i < |similarity| ==> |similarity[i]| == |names|
  }

  /** Python's slice [1:9] of a ranked row: the top entry is dropped and at most
      eight of the following entries are kept. */
  function DropTopTake(ranked: seq<Entry>): seq<Entry>
  {
    if |ranked| <= 1 then [] else ranked[1..Min(MaxRecommendations + 1, |ranked|)]
  }

  /** The stable descending ranking of one similarity row. */
  function RankRow(row: seq<int>): seq<Entry>
  {
    SortDescending(Enumerate(row))
  }

  /** The entries of `row` that a recommendation keeps. */
  function Kept(row: seq<int>): seq<Entry>
  {
    DropTopTake(RankRow(row))
  }

  /** Every entry refers to a row of a catalog of `n` courses. */
  predicate IndicesWithin(entries: seq<Entry>, n: nat)
  {
    forall k :: 0 <= k < |entries| ==> entries[k].index < n
  }

  /** Maps entries back to course names by catalog position. */
  function NamesOf(names: seq<string>, entries: seq<Entry>): seq<string>
    requires IndicesWithin(entries, |names|)
  {
    seq(|entries|, k requires 0 <= k < |entries| => names[entries[k].index])
  }

  /** Recommends up to eight courses similar to `course`. The catalog and the
      matrix are `None` when their artifacts failed to load. */
  function Recommend(catalog: Option<seq<string>>, similarity: Option<seq<seq<int>>>, course: string)
    : (r: Result<seq<string>, RecommendError>)
    ensures r == Failure(CatalogUnavailable) <==> catalog.None? || |catalog.value| == 0 || similarity.None?
    ensures r == Failure(CourseNotFound) <==>
              catalog.Some? && |catalog.value| > 0 && similarity.Some? && course !in catalog.value
    ensures r.Success? ==> |r.value| <= MaxRecommendations
    ensures r.Success? ==> forall k :: 0 <= k < |r.value| ==> r.value[k] in catalog.value
  {
    if catalog.None? || |catalog.value| == 0 || similarity.None? then Failure(CatalogUnavailable)
    else
      var names := catalog.value;
      match FirstIndex(names, course)
      case None => Failure(CourseNotFound)
      case Some(i) =>
        if i >= |similarity.value| then Failure(RowOutOfRange)
        else
          var kept := Kept(similarity.value[i]);
          if !IndicesWithin(kept, |names|) then Failure(RowOutOfRange)
          else Success(NamesOf(names, kept))
  }

  /** A contiguous slice of a ranked sequence is ranked. */
  lemma RankedSlice(s: seq<Entry>, lo: nat, hi: nat)
    requires Ranked(s) && lo <= hi <= |s|
    ensures Ranked(s[lo..hi])
  {
    var t := s[lo..hi];
    forall i, j | 0 <= i < j < |t| ensures Before(t[i], t[j]) {
      assert t[i] == s[lo + i] && t[j] == s[lo + j];
    }
  }

  /** Every entry of the ranking of `row` is one of the row's own (index, score) pairs. */
  lemma RankedEntryOfRow(row: seq<int>, p: nat)
    requires p < |RankRow(row)|
    ensures RankRow(row)[p].index < |row|
    ensures RankRow(row)[p] == Entry(RankRow(row)[p].index, row[RankRow(row)[p].index])
  {
    var s := RankRow(row);
    assert s[p] in multiset(s);
    assert s[p] in Enumerate(row);
  }

  /** Every (index, score) pair of `row` has a place in its ranking. */
  lemma RowEntryRanked(row: seq<int>, j: nat) returns (p: nat)
    requires j < |row|
    ensures p < |RankRow(row)| && RankRow(row)[p] == Entry(j, row[j])
  {
    var e := Enumerate(row);
    assert e[j] in multiset(e);
    assert e[j] in multiset(RankRow(row));
    p :| 0 <= p < |RankRow(row)| && RankRow(row)[p] == e[j];
  }

  /** Recommendation is top-k selection on the row: the kept entries are ranked
      (non-increasing scores, equal scores in catalog order), they are the
      row's own pairs, there are min(8, |row| - 1) of them, the dropped top
      entry comes before every other entry, and every entry neither kept nor
      on top ranks after all kept ones. */
  lemma TopKSelection(row: seq<int>)
    requires |row| > 0
    ensures var top := RankRow(row)[0];
            var kept := Kept(row);
            && Ranked(kept)
            && |kept| == Min(MaxRecommendations, |row| - 1)
            && (forall k :: 0 <= k < |kept| ==>
                  kept[k].index < |row| && kept[k].score == row[kept[k].index] && kept[k].index != top.index)
            && (forall j :: 0 <= j < |row| && j != top.index ==> Before(top, Entry(j, row[j])))
            && (forall j :: 0 <= j < |row| && j != top.index && (forall k :: 0 <= k < |kept| ==> kept[k].index != j) ==>
                  forall k :: 0 <= k < |kept| ==> Before(kept[k], Entry(j, row[j])))
  {
    var s := RankRow(row);
    EnumerateIncreasing(row);
    assert Ranked(s);
    var top := s[0];
    var kept := Kept(row);
    var n := Min(MaxRecommendations + 1, |s|);
    if |s| > 1 {
      assert kept == s[1..n];
      RankedSlice(s, 1, n);
    }
    forall k | 0 <= k < |kept|
      ensures kept[k].index < |row| && kept[k].score == row[kept[k].index] && kept[k].index != top.index
    {
      assert kept[k] == s[k + 1];
      RankedEntryOfRow(row, k + 1);
      RankedEntryOfRow(row, 0);
      assert Before(s[0], s[k + 1]);
    }
    forall j | 0 <= j < |row| && j != top.index ensures Before(top, Entry(j, row[j])) {
      var p := RowEntryRanked(row, j);
      assert p != 0;
    }
    forall j | 0 <= j < |row| && j != top.index && (forall k :: 0 <= k < |kept| ==> kept[k].index != j)
      ensures forall k :: 0 <= k < |kept| ==> Before(kept[k], Entry(j, row[j]))
    {
      var p := RowEntryRanked(row, j);
      assert p != 0;
      assert forall q :: 1 <= q <= |kept| ==> s[q].index != j by {
        forall q | 1 <= q <= |kept| ensures s[q].index != j {
          assert kept[q - 1] == s[q];
        }
      }
      assert p > |kept|;
      forall k | 0 <= k < |kept| ensures Before(kept[k], Entry(j, row[j])) {
        assert kept[k] == s[k + 1];
      }
    }
  }

  /** With an aligned matrix nothing is out of range: a catalog course always
      gets min(8, catalog size - 1) recommendations. */
  lemma AlignedRecommendLength(names: seq<string>, similarity: seq<seq<int>>, course: string)
    requires |names| > 0 && Aligned(names, similarity) && course in names
    ensures Recommend(Some(names), Some(similarity), course).Success?
    ensures |Recommend(Some(names), Some(similarity), course).value| == Min(MaxRecommendations, |names| - 1)
  {
    var i := FirstIndex(names, course).value;
    var row := similarity[i];
    TopKSelection(row);
    assert IndicesWithin(Kept(row), |names|);
  }

  /** The result is exactly positions 1..8 of ANY stable descending sort of the
      queried row, mapped back to names: the stable order is unique, so the
      answer does not depend on which stable algorithm ranks the row. */
  lemma RecommendIsStableTopK(names: seq<string>, similarity: seq<seq<int>>, course: string, i: nat, order: seq<Entry>)
    requires |names| > 0 && Aligned(names, similarity)
    requires i < |names| && names[i] == course && forall j :: 0 <= j < i ==> names[j] != course
    requires multiset(order) == multiset(Enumerate(similarity[i])) && Ranked(order)
    ensures IndicesWithin(DropTopTake(order), |names|)
    ensures Recommend(Some(names), Some(similarity), course) == Success(NamesOf(names, DropTopTake(order)))
  {
    var row := similarity[i];
    EnumerateIncreasing(row);
    RankedUnique(order, RankRow(row));
    TopKSelection(row);
    assert FirstIndex(names, course) == Some(i);
  }

  /** The top-ranked entry is dropped, not the queried course as such: when the
      course's self-similarity is strictly greater than every other score of
      its row, its row is never kept, so a course with a unique name is never
      recommended for itself. */
  lemma {:induction false} StrictSelfMaxExcludesQuery(names: seq<string>, similarity: seq<seq<int>>, course: string, i: nat)
    requires |names| > 0 && Aligned(names, similarity)
    requires i < |names| && names[i] == course && forall j :: 0 <= j < |names| && j != i ==> names[j] != course
    requires forall j :: 0 <= j < |names| && j != i ==> similarity[i][j] < similarity[i][i]
    ensures Recommend(Some(names), Some(similarity), course).Success?
    ensures course !in Recommend(Some(names), Some(similarity), course).value
  {
    var row := similarity[i];
    assert FirstIndex(names, course) == Some(i);
    TopKSelection(row);
    var top := RankRow(row)[0];
    RankedEntryOfRow(row, 0);
    assert top.index == i;
    var kept := Kept(row);
    var r := NamesOf(names, kept);
    assert Recommend(Some(names), Some(similarity), course) == Success(r);
    forall k | 0 <= k < |r| ensures r[k] != course {
      assert r[k] == names[kept[k].index];
    }
  }

  /** Counterexample to "a course is never recommended for itself": when an
      earlier catalog row ties with the queried course's self-similarity, the
      earlier row takes rank 0 and is dropped, and the queried course is
      recommended. */
  lemma TieCanRecommendQuery(names: seq<string>, similarity: seq<seq<int>>)
    requires names == ["B", "A"] && Aligned(names, similarity)
    requires similarity[1] == [5, 5]
    ensures Recommend(Some(names), Some(similarity), "A") == Success(["A"])
  {
    var order := [Entry(0, 5), Entry(1, 5)];
    assert Enumerate(similarity[1]) == order;
    assert Ranked(order);
    var kept := order[1..];
    assert DropTopTake(order) == kept;
    assert NamesOf(names, kept) == ["A"];
    RecommendIsStableTopK(names, similarity, "A", 1, order);
  }

  /** Equal scores keep catalog order: over the catalog A, B, C, D, whatever
      the other rows hold, A's row [10, 9, 9, 1] recommends B before C and
      drops A itself. */
  lemma TiesKeepCatalogOrder(names: seq<string>, similarity: seq<seq<int>>)
    requires names == ["A", "B", "C", "D"] && Aligned(names, similarity)
    requires similarity[0] == [10, 9, 9, 1]
    ensures Recommend(Some(names), Some(similarity), "A") == Success(["B", "C", "D"])
  {
    var order := [Entry(0, 10), Entry(1, 9), Entry(2, 9), Entry(3, 1)];
    assert Enumerate(similarity[0]) == order;
    assert Ranked(order);
    var kept := order[1..];
    assert DropTopTake(order) == kept;
    assert NamesOf(names, kept) == ["B", "C", "D"] by {
      var r := NamesOf(names, kept);
      assert |r| == 3 && r[0] == "B" && r[1] == "C" && r[2] == "D";
    }
    RecommendIsStableTopK(names, similarity, "A", 0, order);
  }
}
