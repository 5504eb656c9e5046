/** What a leader does, told without its functions: what a proposal adds, what its requests carry, and
    where an answer moves its indices (src/raft/node.rs). */
module Leadings {
  import opened ByteStrings
  import opened Quorums
  import opened RaftLogs
  import opened RaftStates
  import opened RaftNodes

  // ---------------------------------------------------------------- proposals

  /** A proposal to a leader puts its data into the next entry, of the leader's term; nothing but the
      commit index of a node without peers moves. Others do nothing. */
  lemma ProposalAppended(n: Node, data: Bytes, entryType: EntryType)
    requires Sound(n.log)
    ensures var n' := OnPropose(n, data, entryType);
      var entry := LogEntry(n.log.lastIndex + 1, n.state.term, data, entryType);
      if n.state.role != Leader then n' == n
      else
        && Full(n'.log) == Full(n.log) + [entry] && Settled(n'.log) && n'.log.snapshotIndex == n.log.snapshotIndex
        && n'.log.Get(entry.index) == Some(entry)
        && n'.state.(commitIndex := n.state.commitIndex) == n.state
        && n'.state.commitIndex == (if n.peers == [] then entry.index else n.state.commitIndex)
        && n'.id == n.id && n'.peers == n.peers && n'.snapshotData == n.snapshotData
  {
    if n.state.role == Leader {
      var entry := LogEntry(n.log.lastIndex + 1, n.state.term, data, entryType);
      AppendRefines(n.log, [entry]);
      PointReads(n.log.Appended([entry]), entry.index);
    }
  }

  // ---------------------------------------------------------------- requests

  /** Which request a peer gets: the snapshot, if its next index is covered by it and the data is there,
      and else an append request. */
  lemma RequestChosen(n: Node, peer: nat, max: nat)
    requires Sound(n.log)
    ensures var mark := n.log.snapshotIndex;
      RequestFor(n, peer, max) ==
        if NextOf(n.state, peer) <= mark && n.snapshotData.Some?
        then SendInstall(peer, InstallRequest(n.state.term, n.id, mark, TrueTerm(Full(n.log), mark),
                                              n.snapshotData.value, true))
        else SendAppend(peer, AppendAt(n, NextOf(n.state, peer), max))
  {
  }

  /** How many entries a request from `next` on carries. */
  function SentCount(last: nat, next: nat, max: nat): (n: nat)
    requires next <= last + 1
    ensures n <= max && next + n <= last + 1 && (n == max || next + n == last + 1)
  {
    if next + max <= last + 1 then max else last + 1 - next
  }

  /** What an append request of a leader with a sound log carries: its term, id and commit index, and beyond
      the snapshot the entries from the next index on, as many as there are up to `max`, with the true term
      before them. */
  lemma AppendCarries(n: Node, next: nat, max: nat)
    requires Sound(n.log) && n.log.snapshotIndex < next <= n.log.lastIndex + 1
    ensures var count := SentCount(n.log.lastIndex, next, max);
      AppendAt(n, next, max) ==
        AppendRequest(n.state.term, n.id, next - 1, TrueTerm(Full(n.log), next - 1),
                      Full(n.log)[next - 1..next - 1 + count], n.state.commitIndex)
  {
    RangeUpTo(n.log, next, max, SentCount(n.log.lastIndex, next, max));
    PointReads(n.log, next - 1);
  }

  lemma RangeUpTo(log: LogState, next: nat, max: nat, count: nat)
    requires Sound(log) && log.snapshotIndex < next <= log.lastIndex + 1 && count == SentCount(log.lastIndex, next, max)
    ensures log.Range(next, next + max) == Full(log)[next - 1..next - 1 + count]
  {
    RangeIsSlice(log, next, next + max);
    PieceIs(log.Range(next, next + max), Full(log), RangeStart(log, next), RangeEnd(log, next + max), next, count);
  }

  lemma PieceIs(got: seq<LogEntry>, full: seq<LogEntry>, lo: nat, hi: nat, next: nat, count: nat)
    requires 1 <= lo == next && hi == next + count <= |full| + 1
    requires got == if lo < hi then full[lo - 1..hi - 1] else []
    ensures got == full[next - 1..next - 1 + count]
  {
  }

  /** A peer the leader has no next index for is sent the log from its first entry on. */
  lemma UnknownPeer(n: Node, peer: nat, max: nat)
    requires Sound(n.log) && n.log.snapshotIndex == 0 && peer !in n.state.nextIndex
    ensures RequestFor(n, peer, max) == SendAppend(peer,
      AppendRequest(n.state.term, n.id, 0, 0, Full(n.log)[..SentCount(n.log.lastIndex, 1, max)], n.state.commitIndex))
  {
    RequestChosen(n, peer, max);
    AppendCarries(n, 1, max);
  }

  /** Without the data of its snapshot, which a restart loses, a leader sends a peer that is behind the
      snapshot a request whose entries do not follow its previous index: the request is sound exactly if
      the peer is not behind, or nothing readable is in its window. */
  lemma GapSentExactly(n: Node, peer: nat, max: nat)
    requires Sound(n.log) && 1 <= NextOf(n.state, peer) <= n.log.lastIndex + 1
    ensures var next, mark := NextOf(n.state, peer), n.log.snapshotIndex;
      WellFormed(AppendFor(n, peer, max)) <==> next > mark || next + max <= mark + 1 || mark == n.log.lastIndex
  {
    var next := NextOf(n.state, peer);
    SentNumbered(n.log, next, next + max);
    WindowGap(n.log, next, max);
  }

  /** Entries read from a window are numbered from its start exactly if the window starts there. */
  lemma SentNumbered(log: LogState, next: nat, end: nat)
    requires Sound(log)
    ensures Numbered(log.Range(next, end), next) <==>
      RangeStart(log, next) >= RangeEnd(log, end) || RangeStart(log, next) == next
  {
    RangeIsSlice(log, next, end);
    SoundNumbered(log);
    PieceNumbered(log.Range(next, end), Full(log), RangeStart(log, next), RangeEnd(log, end), next);
  }

  lemma PieceNumbered(got: seq<LogEntry>, full: seq<LogEntry>, lo: nat, hi: nat, start: nat)
    requires Numbered(full, 1) && 1 <= lo && hi <= |full| + 1
    requires got == if lo < hi then full[lo - 1..hi - 1] else []
    ensures Numbered(got, start) <==> lo >= hi || lo == start
  {
    if lo < hi { assert got[0].index == lo; }
  }

  lemma WindowGap(log: LogState, next: nat, max: nat)
    requires log.snapshotIndex <= log.lastIndex && 1 <= next <= log.lastIndex + 1
    ensures RangeStart(log, next) >= RangeEnd(log, next + max) || RangeStart(log, next) == next <==>
      next > log.snapshotIndex || next + max <= log.snapshotIndex + 1 || log.snapshotIndex == log.lastIndex
  {
  }

  /** It is accepted: a restarted leader whose snapshot covers the first of its two entries gets an empty
      follower to store the second without the first. */
  lemma GapAccepted(leader: Node, follower: Node, e: LogEntry, f: LogEntry, max: nat)
    requires e.index == 1 && f.index == 2 && max >= 2
    requires leader.log == Recovered(Recovered(EMPTY_TREE).Appended([e, f]).Compacted(1, e.term).db)
    requires leader.snapshotData == None && NextOf(leader.state, follower.id) == 1
    requires follower.log == Recovered(EMPTY_TREE) && follower.state.term <= leader.state.term
    ensures Settled(leader.log) && Settled(follower.log)
    ensures RequestFor(leader, follower.id, max) == SendAppend(follower.id, AppendFor(leader, follower.id, max))
    ensures var (follower', resp) := OnAppendEntries(follower, AppendFor(leader, follower.id, max));
      resp.success && follower'.log.Get(1) == None && follower'.log.Get(2) == Some(f) && !Sound(follower'.log)
  {
    RestartedLog(e, f);
    RangeIsSlice(leader.log, 1, 1 + max);
    assert [e, f][1..2] == [f];
    assert AppendFor(leader, follower.id, max).entries == [f];
    SecondAlone(f);
  }

  /** The restarted leader's log. */
  lemma RestartedLog(e: LogEntry, f: LogEntry)
    requires e.index == 1 && f.index == 2
    ensures var log := Recovered(Recovered(EMPTY_TREE).Appended([e, f]).Compacted(1, e.term).db);
      Settled(log) && Full(log) == [e, f] && log.snapshotIndex == 1
  {
    var empty := Recovered(EMPTY_TREE);
    var log := empty.Appended([e, f]);
    assert Full(empty) == [] && Settled(empty);
    AppendRefines(empty, [e, f]);
    assert Full(log) == [e, f];
    PointReads(log, 1);
    SnapshotRefines(log, 1);
    RecoverRefines(log.Compacted(1, e.term));
  }

  /** An empty log that takes the second entry. */
  lemma SecondAlone(f: LogEntry)
    requires f.index == 2
    ensures var empty := Recovered(EMPTY_TREE);
      var log := Accepted(empty, [f]);
      Settled(empty) && log.Get(1) == None && log.Get(2) == Some(f) && !Sound(log)
  {
    assert Full(Recovered(EMPTY_TREE)) == [];
    assert WithEntries(map[], [f]) == map[2 := f] by { assert [f][..0] == []; }
  }

  /** A round of heartbeats holds one request for every peer, the node itself left out, in their order. */
  lemma {:induction false} RequestsToPeers(n: Node, peers: seq<nat>, max: nat)
    ensures forall out :: out in RequestsFor(n, peers, max) ==>
      out.peer in peers && out.peer != n.id && out == RequestFor(n, out.peer, max)
    ensures forall p :: p in peers && p != n.id ==> RequestFor(n, p, max) in RequestsFor(n, peers, max)
    ensures n.id !in peers ==>
      && |RequestsFor(n, peers, max)| == |peers|
      && forall i :: 0 <= i < |peers| ==> RequestsFor(n, peers, max)[i].peer == peers[i]
  {
    if peers != [] {
      var before, last := peers[..|peers| - 1], peers[|peers| - 1];
      assert peers == before + [last];
      RequestsToPeers(n, before, max);
    }
  }

  // ---------------------------------------------------------------- a new leader

  /** A new leader starts every peer right after its own log: it first sends no entry but the term of its
      last one, and no majority is counted before an answer. Its vote is forgotten. */
  lemma NewLeaderStarts(n: Node, peer: nat, max: nat)
    requires Settled(n.log) && peer in n.peers
    ensures var n' := n.(state := LeaderAt(n.state, n.id, n.peers, n.log.lastIndex));
      && RequestFor(n', peer, max) == SendAppend(peer,
           AppendRequest(n.state.term, n.id, n.log.lastIndex, n.log.lastTerm, [], n.state.commitIndex))
      && MajorityMatch(MatchValues(n'.state.matchIndex, n.peers, n.log.lastIndex)) == 0
      && MatchOf(n'.state.matchIndex, peer) == 0
      && n'.state.role == Leader && n'.state.leaderId == Some(n.id) && n'.state.votedFor == None
      && n'.state.commitIndex == n.state.commitIndex && n'.state.lastApplied == n.state.lastApplied
  {
    var n' := n.(state := LeaderAt(n.state, n.id, n.peers, n.log.lastIndex));
    RangeIsSlice(n.log, n.log.lastIndex + 1, n.log.lastIndex + 1 + max);
    PointReads(n.log, n.log.lastIndex);
    var values := MatchValues(n'.state.matchIndex, n.peers, n.log.lastIndex);
    ZerosCount(values, |n.peers|);
    MajorityMatchIsGreatest(values, 1);
  }

  lemma {:induction false} ZerosCount(values: seq<nat>, n: nat)
    requires |values| == n + 1 && forall i :: 0 <= i < n ==> values[i] == 0
    ensures CountAtLeast(values, 1) <= 1
  {
    if n > 0 { ZerosCount(values[1..], n - 1); }
  }

  // ---------------------------------------------------------------- answers

  /** The commit index after an answer: the greatest index the commit index or a majority of the match
      indices has reached. */
  lemma CommitIsMajority(s: StateView, peer: nat, resp: AppendResponse, peers: seq<nat>, leaderLast: nat, m: nat)
    ensures var s' := OnAppendResponse(s, peer, resp, peers, leaderLast);
      m <= s'.commitIndex <==>
        m <= s.commitIndex
        || CountAtLeast(MatchValues(s'.matchIndex, peers, leaderLast), m) >= MajorityOf(|peers| + 1)
  {
    var s' := OnAppendResponse(s, peer, resp, peers, leaderLast);
    MajorityMatchIsGreatest(MatchValues(s'.matchIndex, peers, leaderLast), m);
  }

  /** The rest of what an answer moves: the indices of the one who answered. The match index follows
      exactly a success; a refusal sets the next index back to the conflict, or by one if none is named.
      The term of the answer is not looked at: a leader that learns of a later term goes on leading. */
  lemma AnswerMoves(s: StateView, peer: nat, resp: AppendResponse, peers: seq<nat>, leaderLast: nat, other: nat)
    ensures var s' := OnAppendResponse(s, peer, resp, peers, leaderLast);
      && s'.term == s.term && s'.role == s.role && s'.votedFor == s.votedFor && s'.leaderId == s.leaderId
      && s'.lastApplied == s.lastApplied
      && MatchOf(s'.matchIndex, other) ==
           (if other == peer && resp.success then resp.matchIndex else MatchOf(s.matchIndex, other))
      && (other != peer ==> NextOf(s', other) == NextOf(s, other))
      && (resp.success ==> NextOf(s', peer) == MatchOf(s'.matchIndex, peer) + 1)
      && (!resp.success && resp.conflictIndex > 0 ==> NextOf(s', peer) == resp.conflictIndex)
      && (!resp.success && resp.conflictIndex == 0 && NextOf(s, peer) > 0 && peer in s.nextIndex ==>
           NextOf(s', peer) == NextOf(s, peer) - 1)
  {
  }

  /** A refusal from a later term leaves the leader leading its old one: its next request to that peer
      starts one entry earlier, to be refused again. */
  lemma RefusedByLaterTerm(leader: Node, follower: Node, max: nat, leaderLast: nat)
    requires follower.state.term > leader.state.term && leader.state.role == Leader
    requires follower.id in leader.state.nextIndex && NextOf(leader.state, follower.id) >= 2
    ensures var (follower', resp) := OnAppendEntries(follower, AppendFor(leader, follower.id, max));
      var s' := OnAppendResponse(leader.state, follower.id, resp, leader.peers, leaderLast);
      && follower' == follower && resp.term > s'.term && s'.role == Leader
      && AppendFor(leader.(state := s'), follower.id, max).prevLogIndex
           == AppendFor(leader, follower.id, max).prevLogIndex - 1
  {
  }
}
