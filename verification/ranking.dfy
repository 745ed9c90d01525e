/** Ranking of one similarity row: the row is enumerated into (index, score)
    entries and sorted by score, descending, with a stable sort, so that equal
    scores keep their catalog order. Scores are only ever compared, so they are
    modelled as integers. */
module Ranking {

  /** One entry of an enumerated similarity row: the catalog row it refers to
      and its similarity score. */
  datatype Entry = Entry(index: nat, score: int)

  /** `a` comes before `b` in a stable descending sort of an enumerated row:
      a higher score first, and on equal scores the earlier catalog row first. */
  predicate Before(a: Entry, b: Entry)
  {
    a.score > b.score || (a.score == b.score && a.index < b.index)
  }

  /** Pairs every score of `row` with its position. */
  function Enumerate(row: seq<int>): seq<Entry>
  {
    seq(|row|, i requires 0 <= i < |row| => Entry(i, row[i]))
  }

  /** Scores never increase along `s`. */
  predicate NonIncreasing(s: seq<Entry>)
  {
    forall i, j :: 0 <= i < j < |s| ==> s[i].score >= s[j].score
  }

  /** Every entry of `s` comes before every later one: scores never increase
      and equal scores appear in increasing index order. */
  predicate Ranked(s: seq<Entry>)
  {
    forall i, j :: 0 <= i < j < |s| ==> Before(s[i], s[j])
  }

  /** Indices strictly increase along `s`, as they do in an enumerated row. */
  predicate IncreasingIndices(s: seq<Entry>)
  {
    forall i, j :: 0 <= i < j < |s| ==> s[i].index < s[j].index
  }

  /** Prepending `a` to ranked `t` keeps it ranked when `a` comes before every entry of `t`. */
  lemma ConsRanked(a: Entry, t: seq<Entry>)
    requires Ranked(t)
    requires forall k :: 0 <= k < |t| ==> Before(a, t[k])
    ensures Ranked([a] + t)
  {
    var r := [a] + t;
    forall i, j | 0 <= i < j < |r| ensures Before(r[i], r[j]) {
      if i > 0 {
        assert r[i] == t[i - 1] && r[j] == t[j - 1];
      } else {
        assert r[j] == t[j - 1];
      }
    }
  }

  /** Prepending `a` to non-increasing `t` keeps it non-increasing when no score of `t` exceeds `a`'s. */
  lemma ConsNonIncreasing(a: Entry, t: seq<Entry>)
    requires NonIncreasing(t)
    requires forall k :: 0 <= k < |t| ==> a.score >= t[k].score
    ensures NonIncreasing([a] + t)
  {
    var r := [a] + t;
    forall i, j | 0 <= i < j < |r| ensures r[i].score >= r[j].score {
      if i > 0 {
        assert r[i] == t[i - 1] && r[j] == t[j - 1];
      } else {
        assert r[j] == t[j - 1];
      }
    }
  }

  /** Every entry of `s` occurs in `t` when the two hold the same entries. */
  lemma ElementsOf(s: seq<Entry>, t: seq<Entry>)
    requires multiset(s) == multiset(t)
    ensures forall k :: 0 <= k < |s| ==> s[k] in t
  {
    forall k | 0 <= k < |s| ensures s[k] in t {
      assert s[k] in multiset(s);
    }
  }

  /** The head of an index-increasing `s` has a smaller index than any
      rearrangement of the rest of `s`. */
  lemma HeadIndexSmallest(s: seq<Entry>, rest: seq<Entry>)
    requires |s| > 0 && IncreasingIndices(s)
    requires multiset(rest) == multiset(s[1..])
    ensures forall k :: 0 <= k < |rest| ==> s[0].index < rest[k].index
  {
    forall k | 0 <= k < |rest| ensures s[0].index < rest[k].index {
      assert rest[k] in multiset(rest);
      assert rest[k] in s[1..];
      var j :| 0 <= j < |s| - 1 && s[1..][j] == rest[k];
      assert s[j + 1] == rest[k];
    }
  }

  /** Every index in `s` is greater than `e`'s. */
  predicate IndexBelow(e: Entry, s: seq<Entry>)
  {
    forall k :: 0 <= k < |s| ==> e.index < s[k].index
  }

  /** Putting `e` in front of `s` is right when its score is at least the head's. */
  lemma InsertFront(e: Entry, s: seq<Entry>)
    requires |s| > 0 && e.score >= s[0].score
    ensures NonIncreasing(s) ==> NonIncreasing([e] + s)
    ensures Ranked(s) && IndexBelow(e, s) ==> Ranked([e] + s)
  {
    if NonIncreasing(s) {
      ConsNonIncreasing(e, s);
    }
    if Ranked(s) && IndexBelow(e, s) {
      ConsRanked(e, s);
    }
  }

  /** Keeping the head of `s` in front of `rest`, the insertion of `e` into the
      tail, is right when `e` scores lower than the head. */
  lemma InsertBehind(e: Entry, s: seq<Entry>, rest: seq<Entry>)
    requires |s| > 0 && e.score < s[0].score
    requires multiset(rest) == multiset(s[1..]) + multiset{e}
    requires NonIncreasing(s[1..]) ==> NonIncreasing(rest)
    requires Ranked(s[1..]) && IndexBelow(e, s[1..]) ==> Ranked(rest)
    ensures NonIncreasing(s) ==> NonIncreasing([s[0]] + rest)
    ensures Ranked(s) && IndexBelow(e, s) ==> Ranked([s[0]] + rest)
  {
    var tail := s[1..];
    assert multiset(rest) == multiset(tail + [e]);
    ElementsOf(rest, tail + [e]);
    if NonIncreasing(s) {
      assert NonIncreasing(tail);
      ConsNonIncreasing(s[0], rest);
    }
    if Ranked(s) && IndexBelow(e, s) {
      assert Ranked(tail) && IndexBelow(e, tail);
      ConsRanked(s[0], rest);
    }
  }

  /** Inserts `e` into the score-sorted `s`, in front of the first entry whose
      score is not greater than its own. Entries are only compared by score,
      as `recommend`'s sort key `lambda x: x[1]` does. */
  function Insert(e: Entry, s: seq<Entry>): (r: seq<Entry>)
    ensures |r| == |s| + 1
    ensures multiset(r) == multiset(s) + multiset{e}
    ensures NonIncreasing(s) ==> NonIncreasing(r)
    ensures Ranked(s) && IndexBelow(e, s) ==> Ranked(r)
  {
    if |s| == 0 then [e]
    else if e.score >= s[0].score then
      InsertFront(e, s);
      [e] + s
    else
      var rest := Insert(e, s[1..]);
      InsertBehind(e, s, rest);
      assert s == [s[0]] + s[1..];
      [s[0]] + rest
  }

  /** Stable insertion sort by score, descending. Each element is inserted in
      front of the equal-score elements that follow it in the input, so equal
      scores keep their input order. */
  function SortDescending(s: seq<Entry>): (r: seq<Entry>)
    ensures |r| == |s|
    ensures multiset(r) == multiset(s)
    ensures NonIncreasing(r)
    ensures IncreasingIndices(s) ==> Ranked(r)
  {
    if |s| == 0 then []
    else
      var rest := SortDescending(s[1..]);
      assert s == [s[0]] + s[1..];
      assert IncreasingIndices(s) ==> IncreasingIndices(s[1..]) && IndexBelow(s[0], rest) by {
        if IncreasingIndices(s) {
          HeadIndexSmallest(s, rest);
        }
      }
      Insert(s[0], rest)
  }

  /** Two ranked orderings of the same entries are the same sequence: the
      stable descending order of an enumerated row is unique, whatever stable
      algorithm produced it. */
  lemma {:induction false} RankedUnique(a: seq<Entry>, b: seq<Entry>)
    requires Ranked(a) && Ranked(b)
    requires multiset(a) == multiset(b)
    ensures a == b
    decreases |a|
  {
    if |a| == 0 {
      assert |multiset(b)| == 0;
    } else {
      assert |b| > 0 by {
        assert a[0] in multiset(b);
      }
      RankedHeadsAgree(a, b);
      assert a == [a[0]] + a[1..];
      assert b == [b[0]] + b[1..];
      assert multiset(a[1..]) == multiset(a) - multiset{a[0]};
      assert multiset(b[1..]) == multiset(b) - multiset{b[0]};
      RankedUnique(a[1..], b[1..]);
    }
  }

  /** The head of a ranked sequence comes before every other element of it. */
  lemma RankedHeadFirst(a: seq<Entry>, x: Entry)
    requires Ranked(a) && |a| > 0 && x in a && x != a[0]
    ensures Before(a[0], x)
  {
    var k :| 0 <= k < |a| && a[k] == x;
  }

  /** Two non-empty ranked orderings of the same entries start alike. */
  lemma RankedHeadsAgree(a: seq<Entry>, b: seq<Entry>)
    requires Ranked(a) && Ranked(b) && |a| > 0 && |b| > 0
    requires multiset(a) == multiset(b)
    ensures a[0] == b[0]
  {
    assert a[0] in multiset(b) && b[0] in multiset(a);
    if a[0] != b[0] {
      RankedHeadFirst(b, a[0]);
      RankedHeadFirst(a, b[0]);
      assert false;
    }
  }

  /** An enumerated row has increasing indices, so its sort is ranked. */
  lemma EnumerateIncreasing(row: seq<int>)
    ensures IncreasingIndices(Enumerate(row))
  {
  }
}
