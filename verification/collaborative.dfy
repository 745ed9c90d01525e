/** Collaborative recommendation from the users' histories. The user-user
    cosine similarity is computed by a foreign numeric library and is not
    modelled: its outcome enters as `ranking`, the usernames ordered by
    decreasing similarity to the target user. */
module Collaborative {
  import opened Wrappers
  import opened Seqs
  import opened UserStore

  /** The slice [1:4] of the ranking selects at most three peers. */
  const MaxPeers: nat := 3

  /** `ranking` lists every record's username exactly once, as the index of
      the similarity column does. */
  predicate IsRanking(users: seq<User>, ranking: seq<string>)
  {
    multiset(ranking) == multiset(Usernames(users))
  }

  /** The peers selected from a ranking: ranks 1 to 3. Rank 0, normally the
      target user itself, is dropped. */
  function Peers(ranking: seq<string>): (p: seq<string>)
    ensures |p| <= MaxPeers
    ensures |p| == if |ranking| <= 1 then 0 else Min(MaxPeers, |ranking| - 1)
    ensures forall k :: 0 <= k < |p| ==> p[k] == ranking[k + 1]
  {
    if |ranking| <= 1 then [] else ranking[1..Min(MaxPeers + 1, |ranking|)]
  }

  /** The courses some peer of `peers` has seen that are not in `seen`. */
  function Collected(users: seq<User>, peers: seq<string>, seen: seq<string>): set<string>
  {
    set p, c | p in peers && c in GetUserHistory(users, p) && c !in seen :: c
  }

  /** What the target should be recommended: courses seen by a selected peer
      and not by the target itself. */
  function PeerCourses(users: seq<User>, name: string, ranking: seq<string>): set<string>
  {
    Collected(users, Peers(ranking), GetUserHistory(users, name))
  }

  /** Builds the binary user-by-course matrix: one row per record, one column
      per catalog course; a cell is 1 exactly when that course is both a
      catalog column and in that user's history. */
  method InteractionMatrix(users: seq<User>, columns: seq<string>) returns (m: seq<seq<int>>)
    ensures |m| == |users|
    ensures forall u :: 0 <= u < |m| ==> |m[u]| == |columns|
    ensures forall u, c :: 0 <= u < |users| && 0 <= c < |columns| ==>
              m[u][c] == if columns[c] in users[u].history then 1 else 0
    ensures forall u :: 0 <= u < |users| ==>
              ((forall c :: 0 <= c < |columns| ==> m[u][c] == 0) <==>
               (forall x :: x in users[u].history ==> x !in columns))
  {
    m := [];
    var u := 0;
    while u < |users|
      invariant 0 <= u <= |users| && |m| == u
      invariant forall v :: 0 <= v < u ==> |m[v]| == |columns|
      invariant forall v, c :: 0 <= v < u && 0 <= c < |columns| ==>
                  m[v][c] == if columns[c] in users[v].history then 1 else 0
    {
      var history := users[u].history;
      var row := seq(|columns|, _ => 0);
      var j := 0;
      while j < |history|
        invariant 0 <= j <= |history| && |row| == |columns|
        invariant forall c :: 0 <= c < |columns| ==> row[c] == if columns[c] in history[..j] then 1 else 0
      {
        var course := history[j];
        assert history[..j + 1] == history[..j] + [course];
        if course in columns {
          row := seq(|columns|, c requires 0 <= c < |columns| => if columns[c] == course then 1 else row[c]);
        }
        j := j + 1;
      }
      assert history[..j] == history;
      m := m + [row];
      u := u + 1;
    }
    forall u | 0 <= u < |users|
      ensures (forall c :: 0 <= c < |columns| ==> m[u][c] == 0) <==>
              (forall x :: x in users[u].history ==> x !in columns)
    {
      if forall x :: x in users[u].history ==> x !in columns {
        forall c | 0 <= c < |columns| ensures m[u][c] == 0 {
          assert columns[c] in columns;
        }
      }
    }
  }

  /** Adding one peer adds exactly that peer's unseen courses. */
  lemma CollectedSnoc(users: seq<User>, peers: seq<string>, p: string, seen: seq<string>)
    ensures Collected(users, peers + [p], seen) ==
              Collected(users, peers, seen) + (set c | c in GetUserHistory(users, p) && c !in seen)
  {
    var lhs := Collected(users, peers + [p], seen);
    var rhs := Collected(users, peers, seen) + (set c | c in GetUserHistory(users, p) && c !in seen);
    forall c | c in lhs ensures c in rhs {
      var q :| q in peers + [p] && c in GetUserHistory(users, q) && c !in seen;
      if q != p {
        assert q in peers;
      }
    }
    forall c | c in rhs ensures c in lhs {
      if c in Collected(users, peers, seen) {
        var q :| q in peers && c in GetUserHistory(users, q) && c !in seen;
        assert q in peers + [p];
      } else {
        assert p in peers + [p];
      }
    }
  }

  /** Recommends courses for user `name` from the histories of the peers at
      ranks 1 to 3 of `ranking`, leaving out what `name` has already seen.
      A user without history, or without a record, gets nothing. */
  method Recommend(users: seq<User>, name: string, ranking: seq<string>) returns (r: set<string>)
    requires IsRanking(users, ranking)
    ensures GetUserHistory(users, name) == [] ==> r == {}
    ensures GetUserHistory(users, name) != [] ==> r == PeerCourses(users, name, ranking)
    ensures forall c :: c in r ==> c !in GetUserHistory(users, name)
    ensures forall c :: c in r ==>
              exists k :: 1 <= k <= MaxPeers && k < |ranking| && c in GetUserHistory(users, ranking[k])
  {
    var seen := GetUserHistory(users, name);
    if seen == [] {
      return {};
    }
    var peers := Peers(ranking);
    r := {};
    var k := 0;
    while k < |peers|
      invariant 0 <= k <= |peers|
      invariant r == Collected(users, peers[..k], seen)
    {
      var peer := peers[k];
      var history := GetUserHistory(users, peer);
      var unseen := {};
      var j := 0;
      while j < |history|
        invariant 0 <= j <= |history|
        invariant unseen == set c | c in history[..j] && c !in seen
      {
        assert history[..j + 1] == history[..j] + [history[j]];
        if history[j] !in seen {
          unseen := unseen + {history[j]};
        }
        j := j + 1;
      }
      assert history[..j] == history;
      CollectedSnoc(users, peers[..k], peer, seen);
      assert peers[..k + 1] == peers[..k] + [peer];
      r := r + unseen;
      k := k + 1;
    }
    assert peers[..k] == peers;
    PeerCoursesFromRanks(users, name, ranking);
  }

  /** Every course of the reference result was seen by the user at some rank
      from 1 to 3 and not by the target. */
  lemma PeerCoursesFromRanks(users: seq<User>, name: string, ranking: seq<string>)
    ensures forall c :: c in PeerCourses(users, name, ranking) ==>
              && c !in GetUserHistory(users, name)
              && exists k :: 1 <= k <= MaxPeers && k < |ranking| && c in GetUserHistory(users, ranking[k])
  {
    var peers := Peers(ranking);
    forall c | c in PeerCourses(users, name, ranking)
      ensures exists k :: 1 <= k <= MaxPeers && k < |ranking| && c in GetUserHistory(users, ranking[k])
    {
      var p :| p in peers && c in GetUserHistory(users, p) && c !in GetUserHistory(users, name);
      var i :| 0 <= i < |peers| && peers[i] == p;
      assert ranking[i + 1] == p;
    }
  }

  /** The target user never contributes: if it is ranked among the peers (a
      similarity tie can push it off rank 0), the recommendation is the same
      as from the other selected peers alone. */
  lemma {:induction false} TargetAmongPeersAddsNothing(users: seq<User>, name: string, ranking: seq<string>)
    ensures PeerCourses(users, name, ranking) ==
              Collected(users, RemoveAll(Peers(ranking), name), GetUserHistory(users, name))
  {
    var seen := GetUserHistory(users, name);
    var peers := Peers(ranking);
    var lhs := Collected(users, peers, seen);
    var rhs := Collected(users, RemoveAll(peers, name), seen);
    forall c | c in lhs ensures c in rhs {
      var q :| q in peers && c in GetUserHistory(users, q) && c !in seen;
      assert q != name;
      RemoveAllKeeps(peers, name, q);
    }
    forall c | c in rhs ensures c in lhs {
      var q :| q in RemoveAll(peers, name) && c in GetUserHistory(users, q) && c !in seen;
      RemoveAllKeeps(peers, name, q);
    }
  }

  /** `s` without any occurrence of `x`. */
  function RemoveAll(s: seq<string>, x: string): seq<string>
  {
    if |s| == 0 then [] else (if s[0] == x then [] else [s[0]]) + RemoveAll(s[1..], x)
  }

  /** Removing `x` keeps exactly the other elements. */
  lemma {:induction false} RemoveAllKeeps(s: seq<string>, x: string, y: string)
    ensures y in RemoveAll(s, x) <==> y in s && y != x
  {
    if |s| > 0 {
      RemoveAllKeeps(s[1..], x, y);
      assert s == [s[0]] + s[1..];
    }
  }

  /** Alice and Bob both saw X and Y, Carol saw Z. With Alice ranked first,
      Bob and Carol are both selected peers, and Carol's Z is recommended. */
  lemma ThreeUserScenario(users: seq<User>)
    requires users == [User("alice", "a", ["X", "Y"]), User("bob", "b", ["X", "Y"]), User("carol", "c", ["Z"])]
    ensures PeerCourses(users, "alice", ["alice", "bob", "carol"]) == {"Z"}
  {
    var ranking := ["alice", "bob", "carol"];
    var peers := ["bob", "carol"];
    assert Peers(ranking) == peers;
    assert FirstMatch(users, "alice", 0) && FirstMatch(users, "bob", 1) && FirstMatch(users, "carol", 2);
    var seen := GetUserHistory(users, "alice");
    assert seen == ["X", "Y"];
    assert GetUserHistory(users, "carol") == ["Z"];
    assert GetUserHistory(users, "bob") == ["X", "Y"];
    var got := Collected(users, peers, seen);
    assert "Z" in got by {
      assert peers[1] == "carol";
      assert "Z" !in seen;
      assert "carol" in peers && "Z" in GetUserHistory(users, "carol") && "Z" !in seen;
    }
    forall c | c in got ensures c == "Z" {
      var q :| q in peers && c in GetUserHistory(users, q) && c !in seen;
    }
  }
}
