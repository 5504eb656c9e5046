/** Majorities: the commit candidate of src/raft/state.rs and its overlap with elections. */
module Quorums {
  import opened ByteStrings

  /** How many values are at least `m`. */
  function CountAtLeast(values: seq<nat>, m: nat): (c: nat)
    ensures c <= |values|
  {
    if values == [] then 0
    else CountAtLeast(values[1..], m) + if values[0] >= m then 1 else 0
  }

  ghost predicate Descending(s: seq<nat>) {
    forall i, j :: 0 <= i < j < |s| ==> s[i] >= s[j]
  }

  // ---------------------------------------------------------------- the descending sort

  function Inserted(s: seq<nat>, x: nat): seq<nat> {
    if s == [] || x >= s[0] then [x] + s else [s[0]] + Inserted(s[1..], x)
  }

  function SortedDescending(s: seq<nat>): seq<nat> {
    if s == [] then [] else Inserted(SortedDescending(s[1..]), s[0])
  }

  lemma {:induction false} InsertedOrders(s: seq<nat>, x: nat)
    requires Descending(s)
    ensures Descending(Inserted(s, x)) && |Inserted(s, x)| == |s| + 1
    ensures Inserted(s, x)[0] == if s == [] || x >= s[0] then x else s[0]
  {
    if s != [] && x < s[0] {
      InsertedOrders(s[1..], x);
    }
  }

  lemma {:induction false} InsertedKeeps(s: seq<nat>, x: nat)
    ensures multiset(Inserted(s, x)) == multiset(s) + multiset{x}
  {
    if s != [] && x < s[0] {
      InsertedKeeps(s[1..], x);
      assert s == [s[0]] + s[1..];
    }
  }

  lemma {:induction false} InsertedCounts(s: seq<nat>, x: nat, m: nat)
    ensures CountAtLeast(Inserted(s, x), m) == CountAtLeast(s, m) + if x >= m then 1 else 0
  {
    if s == [] || x >= s[0] {
      assert ([x] + s)[1..] == s;
    } else {
      InsertedCounts(s[1..], x, m);
      assert ([s[0]] + Inserted(s[1..], x))[1..] == Inserted(s[1..], x);
    }
  }

  /** The sort orders the values and keeps them, hence every count of them. */
  lemma {:induction false} SortSorts(s: seq<nat>)
    ensures Descending(SortedDescending(s)) && multiset(SortedDescending(s)) == multiset(s)
    ensures |SortedDescending(s)| == |s|
  {
    if s != [] {
      var rest := SortedDescending(s[1..]);
      SortSorts(s[1..]);
      InsertedOrders(rest, s[0]);
      InsertedKeeps(rest, s[0]);
      assert s == [s[0]] + s[1..];
    }
  }

  lemma {:induction false} SortCounts(s: seq<nat>, m: nat)
    ensures CountAtLeast(SortedDescending(s), m) == CountAtLeast(s, m)
  {
    if s != [] {
      SortCounts(s[1..], m);
      InsertedCounts(SortedDescending(s[1..]), s[0], m);
    }
  }

  /** In descending order, position `k` is at least `m` exactly when more than `k` values are. */
  lemma {:induction false} PositionCounts(s: seq<nat>, k: nat, m: nat)
    requires Descending(s) && k < |s|
    ensures CountAtLeast(s, m) > k <==> s[k] >= m
  {
    if k > 0 {
      PositionCounts(s[1..], k - 1, m);
    } else if s[0] < m {
      NoneAtLeast(s, m);
    }
  }

  lemma {:induction false} NoneAtLeast(s: seq<nat>, m: nat)
    requires forall i :: 0 <= i < |s| ==> s[i] < m
    ensures CountAtLeast(s, m) == 0
  {
    if s != [] {
      NoneAtLeast(s[1..], m);
    }
  }

  // ---------------------------------------------------------------- the majority index

  function MajorityOf(n: nat): nat {
    n / 2 + 1
  }

  /** The value `get_majority_match_index` picks. */
  function MajorityMatch(values: seq<nat>): nat {
    var sorted := SortedDescending(values);
    if MajorityOf(|values|) <= |sorted| then sorted[MajorityOf(|values|) - 1] else 0
  }

  /** It is the greatest index a majority has reached: a majority is at or beyond `m` exactly for the
      `m` up to it. */
  lemma MajorityMatchIsGreatest(values: seq<nat>, m: nat)
    requires values != []
    ensures m <= MajorityMatch(values) <==> CountAtLeast(values, m) >= MajorityOf(|values|)
  {
    var sorted, k := SortedDescending(values), |values| / 2;
    SortSorts(values);
    SortCounts(values, m);
    assert MajorityMatch(values) == sorted[k];
    PositionCounts(sorted, k, m);
  }

  // ---------------------------------------------------------------- sets of nodes

  function MatchOf(matchIndex: map<nat, nat>, id: nat): nat {
    if id in matchIndex then matchIndex[id] else 0
  }

  /** The values collected: every peer's recorded match index, then the leader's own last index. */
  function MatchValues(matchIndex: map<nat, nat>, peers: seq<nat>, leaderLast: nat): seq<nat> {
    seq(|peers|, i requires 0 <= i < |peers| => MatchOf(matchIndex, peers[i])) + [leaderLast]
  }

  /** The peers whose recorded match index is at least `m`. */
  function PeersAtLeast(matchIndex: map<nat, nat>, peers: seq<nat>, m: nat): set<nat> {
    set id | id in peers && MatchOf(matchIndex, id) >= m
  }

  function NodesAtLeast(matchIndex: map<nat, nat>, peers: seq<nat>, self: nat, leaderLast: nat, m: nat): set<nat> {
    PeersAtLeast(matchIndex, peers, m) + if leaderLast >= m then {self} else {}
  }

  lemma MorePeers(matchIndex: map<nat, nat>, peers: seq<nat>, m: nat)
    requires Distinct(peers) && peers != []
    ensures |PeersAtLeast(matchIndex, peers, m)|
         == |PeersAtLeast(matchIndex, peers[1..], m)| + if MatchOf(matchIndex, peers[0]) >= m then 1 else 0
  {
    var rest := PeersAtLeast(matchIndex, peers[1..], m);
    assert peers[0] !in rest;
    assert PeersAtLeast(matchIndex, peers, m) == rest + if MatchOf(matchIndex, peers[0]) >= m then {peers[0]} else {};
  }

  lemma {:induction false} CountIsPeers(matchIndex: map<nat, nat>, peers: seq<nat>, leaderLast: nat, m: nat)
    requires Distinct(peers)
    ensures CountAtLeast(MatchValues(matchIndex, peers, leaderLast), m)
         == |PeersAtLeast(matchIndex, peers, m)| + if leaderLast >= m then 1 else 0
  {
    var values := MatchValues(matchIndex, peers, leaderLast);
    if peers == [] {
      assert values == [leaderLast];
    } else {
      assert values[1..] == MatchValues(matchIndex, peers[1..], leaderLast);
      CountIsPeers(matchIndex, peers[1..], leaderLast, m);
      MorePeers(matchIndex, peers, m);
    }
  }

  function ClusterOf(peers: seq<nat>, self: nat): set<nat> {
    ElementsOf(peers) + {self}
  }

  lemma MajoritiesMeet(all: set<nat>, a: set<nat>, b: set<nat>)
    requires a <= all && b <= all && |a| >= MajorityOf(|all|) && |b| >= MajorityOf(|all|)
    ensures a * b != {}
  {
    var union := a + b;
    assert |a| + |b| == |union| + |a * b|;
    assert |all| == |union| + |all - union|;
    assert |a * b| > 0;
  }

  /** The nodes at or beyond the majority index are themselves a majority, and any set of nodes that
      could win an election holds one of them. */
  lemma MajorityMeetsElections(matchIndex: map<nat, nat>, peers: seq<nat>, self: nat, leaderLast: nat, voters: set<nat>)
    requires Distinct(peers) && self !in peers
    requires voters <= ClusterOf(peers, self) && |voters| >= MajorityOf(|peers| + 1)
    ensures var m := MajorityMatch(MatchValues(matchIndex, peers, leaderLast));
            var holders := NodesAtLeast(matchIndex, peers, self, leaderLast, m);
            |holders| >= MajorityOf(|peers| + 1) && holders * voters != {}
  {
    var values := MatchValues(matchIndex, peers, leaderLast);
    var m := MajorityMatch(values);
    var holders := NodesAtLeast(matchIndex, peers, self, leaderLast, m);
    MajorityMatchIsGreatest(values, m);
    CountIsPeers(matchIndex, peers, leaderLast, m);
    assert self !in PeersAtLeast(matchIndex, peers, m);
    DistinctCount(peers);
    MajoritiesMeet(ClusterOf(peers, self), holders, voters);
  }
}
