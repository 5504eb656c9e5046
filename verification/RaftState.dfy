/** The volatile and persistent state of a Raft node besides its log (src/raft/state.rs). */
module RaftStates {
  import opened ByteStrings
  import opened Quorums

  datatype Role = Follower | Candidate | PreCandidate | Leader

  datatype StateView = StateView(term: nat, votedFor: Option<nat>, role: Role, leaderId: Option<nat>, commitIndex: nat,
                                 lastApplied: nat, nextIndex: map<nat, nat>, matchIndex: map<nat, nat>)

  const INITIAL_STATE := StateView(0, None, Follower, None, 0, 0, map[], map[])

  function FollowerAt(s: StateView, term: nat): StateView {
    s.(term := term, role := Follower, votedFor := None, leaderId := None)
  }

  /** A message of a later term makes its receiver a follower of that term. */
  function Adopt(s: StateView, term: nat): StateView {
    if term > s.term then FollowerAt(s, term) else s
  }

  /** The same number for every one of some nodes. */
  function ForAll(ids: seq<nat>, value: nat): map<nat, nat> {
    map id | id in ids :: value
  }

  lemma ForAllGrows(ids: seq<nat>, i: nat, value: nat)
    requires i < |ids|
    ensures ForAll(ids[..i + 1], value) == ForAll(ids[..i], value)[ids[i] := value]
  {
    assert ids[..i + 1] == ids[..i] + [ids[i]];
  }

  function LeaderAt(s: StateView, self: nat, peers: seq<nat>, lastLogIndex: nat): StateView {
    s.(role := Leader, votedFor := None, leaderId := Some(self),
       nextIndex := ForAll(peers, lastLogIndex + 1), matchIndex := ForAll(peers, 0))
  }

  function NextOf(s: StateView, peer: nat): nat {
    if peer in s.nextIndex then s.nextIndex[peer] else 1
  }

  class RaftState {
    var currentTerm: nat
    var votedFor: Option<nat>
    var role: Role
    var leaderId: Option<nat>
    var commitIndex: nat
    var lastApplied: nat
    var nextIndex: map<nat, nat>
    var matchIndex: map<nat, nat>

    function View(): StateView
      reads this
    {
      StateView(currentTerm, votedFor, role, leaderId, commitIndex, lastApplied, nextIndex, matchIndex)
    }

    constructor ()
      ensures View() == INITIAL_STATE
    {
      currentTerm, votedFor, role, leaderId, commitIndex, lastApplied := 0, None, Follower, None, 0, 0;
      nextIndex, matchIndex := map[], map[];
    }

    method BecomeFollower(term: nat)
      modifies this
      ensures View() == FollowerAt(old(View()), term)
    {
      currentTerm, role, votedFor, leaderId := term, Follower, None, None;
    }

    method BecomeLeader(self: nat, peers: seq<nat>, lastLogIndex: nat)
      modifies this
      ensures View() == LeaderAt(old(View()), self, peers, lastLogIndex)
    {
      role, votedFor, leaderId := Leader, None, Some(self);
      var next, matched := ForAll([], lastLogIndex + 1), ForAll([], 0);
      for i := 0 to |peers|
        invariant next == ForAll(peers[..i], lastLogIndex + 1) && matched == ForAll(peers[..i], 0)
        modifies {}
      {
        ForAllGrows(peers, i, lastLogIndex + 1);
        ForAllGrows(peers, i, 0);
        next, matched := next[peers[i] := lastLogIndex + 1], matched[peers[i] := 0];
      }
      assert peers[..|peers|] == peers;
      nextIndex, matchIndex := next, matched;
    }

    /** The candidate for the commit index: the greatest index a majority of the peers' recorded match
        indices and the leader's own last index have reached. */
    method GetMajorityMatchIndex(peers: seq<nat>, leaderLast: nat) returns (index: nat)
      ensures index == MajorityMatch(MatchValues(matchIndex, peers, leaderLast))
      ensures forall m: nat :: m <= index <==>
        CountAtLeast(MatchValues(matchIndex, peers, leaderLast), m) >= (|peers| + 1) / 2 + 1
    {
      var indices: seq<nat> := [];
      for i := 0 to |peers|
        invariant |indices| == i
        invariant forall j :: 0 <= j < i ==> indices[j] == MatchOf(matchIndex, peers[j])
      {
        indices := indices + [if peers[i] in matchIndex then matchIndex[peers[i]] else 0];
      }
      indices := indices + [leaderLast];
      assert indices == MatchValues(matchIndex, peers, leaderLast);
      ghost var values := indices;
      SortSorts(values);
      indices := SortedDescending(indices);
      var totalNodes := |peers| + 1;
      var majority := totalNodes / 2 + 1;
      index := if majority <= |indices| then indices[majority - 1] else 0;
      forall m: nat ensures m <= index <==> CountAtLeast(values, m) >= majority {
        MajorityMatchIsGreatest(values, m);
      }
    }
  }
}
