/** What a node's answers mean: appends, votes, installed snapshots and its own snapshots, told from the
    message and the log, not from the handlers (src/raft/node.rs). */
module Receivings {
  import opened ByteStrings
  import opened RaftLogs
  import opened RaftStates
  import opened RaftNodes

  // ---------------------------------------------------------------- append requests

  /** An append request succeeds exactly if its term is not behind and the log has the entry before. The
      answer carries the term the node had before, and a refused request leaves the log alone. A node
      that gets a request of its own term keeps its role and its vote. */
  lemma AppendAnswered(n: Node, req: AppendRequest)
    ensures var n', resp := OnAppendEntries(n, req).0, OnAppendEntries(n, req).1;
      && resp.term == n.state.term && (resp.success <==> Accepts(n, req))
      && (resp.success ==> resp.matchIndex == req.prevLogIndex + |req.entries|)
      && (!resp.success ==> resp.matchIndex == 0 && n'.log == n.log)
      && (req.term < n.state.term ==> n' == n && resp.conflictIndex == 0)
      && (req.term >= n.state.term ==> n'.state.term == req.term && n'.state.leaderId == Some(req.leaderId))
      && n'.state.role == (if req.term > n.state.term then Follower else n.state.role)
      && n'.state.votedFor == (if req.term > n.state.term then None else n.state.votedFor)
  {
  }

  /** What a refusal for want of the entry before names: the term the log has there, 0 if it has none, and
      the first of the readable indices of that term that lead up to it. */
  lemma RefusalNames(n: Node, req: AppendRequest)
    requires req.term >= n.state.term && !Accepts(n, req)
    ensures var resp := OnAppendEntries(n, req).1;
      && resp.conflictTerm == (match n.log.TermAt(req.prevLogIndex) case Some(t) => t case None => 0)
      && resp.conflictIndex <= req.prevLogIndex
      && (forall i :: resp.conflictIndex <= i < req.prevLogIndex ==> TermOrZero(n.log, i) == resp.conflictTerm)
      && (resp.conflictIndex <= n.log.firstIndex || TermOrZero(n.log, resp.conflictIndex - 1) != resp.conflictTerm)
  {
  }

  /** The commit index a request leaves: the leader's, as far as the log then goes, if the request is
      accepted and the leader's is beyond; else the one the node had. */
  lemma CommitFollows(n: Node, req: AppendRequest)
    ensures var commit := OnAppendEntries(n, req).0.state.commitIndex;
      if Accepts(n, req) && req.leaderCommit > n.state.commitIndex
      then commit <= req.leaderCommit && commit <= LastAfter(n, req)
        && (commit == req.leaderCommit || commit == LastAfter(n, req))
      else commit == n.state.commitIndex
  {
    if Accepts(n, req) {
      assert Accepted(n.log, req.entries).lastIndex == LastAfter(n, req);
    }
  }

  // ---------------------------------------------------------------- votes

  /** When a vote is granted: the term is not behind, the vote is free in that term or was this
      candidate's, and the voter's log is not ahead of the candidate's. */
  lemma VoteGrantedExactly(n: Node, req: VoteRequest)
    ensures OnVote(n, req).1.granted <==>
      && req.term >= n.state.term
      && (req.term > n.state.term || n.state.votedFor == None || n.state.votedFor == Some(req.candidateId))
      && !AheadOf(n.log.lastTerm, n.log.lastIndex, req.lastLogTerm, req.lastLogIndex)
    ensures OnVote(n, req).1.term == n.state.term
  {
  }

  /** What a vote request leaves: the vote is recorded exactly if it was granted and asked for in earnest;
      but a later term is taken over in any case, from a mere pre-vote too. */
  lemma VoteRecorded(n: Node, req: VoteRequest)
    ensures var s, s', granted := n.state, OnVote(n, req).0, OnVote(n, req).1.granted;
      && s'.term == (if req.term > s.term then req.term else s.term)
      && s'.votedFor == (if granted && !req.preVote then Some(req.candidateId)
                         else if req.term > s.term then None else s.votedFor)
      && s'.role == (if req.term > s.term then Follower else s.role)
      && s'.leaderId == (if req.term > s.term then None else s.leaderId)
      && s'.commitIndex == s.commitIndex && s'.lastApplied == s.lastApplied
      && s'.nextIndex == s.nextIndex && s'.matchIndex == s.matchIndex
  {
  }

  /** The request a node makes that stands for election in a term. */
  function Candidacy(c: Node, term: nat): VoteRequest {
    VoteRequest(term, c.id, c.log.lastIndex, c.log.lastTerm, false)
  }

  ghost predicate BehindNobody(c: Node, nodes: set<Node>) {
    forall v :: v in nodes ==> !AheadOf(v.log.lastTerm, v.log.lastIndex, c.log.lastTerm, c.log.lastIndex)
  }

  lemma {:induction false} SomeoneBehindNobody(nodes: set<Node>) returns (c: Node)
    requires nodes != {}
    ensures c in nodes && BehindNobody(c, nodes)
    decreases nodes
  {
    var n :| n in nodes;
    var others := nodes - {n};
    assert nodes == others + {n};
    c := n;
    if others != {} {
      var best := SomeoneBehindNobody(others);
      if !AheadOf(n.log.lastTerm, n.log.lastIndex, best.log.lastTerm, best.log.lastIndex) { c := best; }
    }
  }

  /** Elections can be won: among any nodes there is one that gets every vote in every term beyond all of
      theirs. Any node gets the votes of exactly those whose logs are not ahead of its own. */
  lemma SomeoneIsElectable(nodes: set<Node>) returns (c: Node)
    requires nodes != {}
    ensures c in nodes
    ensures forall term: nat, d, v :: d in nodes && v in nodes && v.state.term < term ==>
      OnVote(v, Candidacy(c, term)).1.granted
      && (OnVote(v, Candidacy(d, term)).1.granted <==>
           !AheadOf(v.log.lastTerm, v.log.lastIndex, d.log.lastTerm, d.log.lastIndex))
  {
    c := SomeoneBehindNobody(nodes);
    forall term: nat, d, v | d in nodes && v in nodes && v.state.term < term
      ensures OnVote(v, Candidacy(c, term)).1.granted
      ensures OnVote(v, Candidacy(d, term)).1.granted <==>
        !AheadOf(v.log.lastTerm, v.log.lastIndex, d.log.lastTerm, d.log.lastIndex)
    {
      VoteGrantedExactly(v, Candidacy(c, term));
      VoteGrantedExactly(v, Candidacy(d, term));
    }
  }

  // ---------------------------------------------------------------- snapshots

  /** What installing a snapshot leaves. The cells and the end of the log stay as they were, even where
      they end before the snapshot; the mark is where the leader says, also after a restart. The commit
      index falls exactly if the snapshot is older than it. */
  lemma InstallLeaves(n: Node, req: InstallRequest)
    ensures var n' := OnInstallSnapshot(n, req);
      && (req.term < n.state.term ==> n' == n)
      && (req.term >= n.state.term ==> n'.state.term == req.term && n'.state.leaderId == Some(req.leaderId))
      && n'.log.db.entries == n.log.db.entries && n'.log.lastIndex == n.log.lastIndex
      && (req.term >= n.state.term && req.done ==>
           && n'.state.commitIndex == n'.state.lastApplied == req.lastIndex && n'.snapshotData == Some(req.data)
           && n'.log.snapshotIndex == req.lastIndex && n'.log.TermAt(req.lastIndex + 1) == TermBeyond(n.log, req)
           && Recovered(n'.log.db).snapshotIndex == req.lastIndex
           && Recovered(n'.log.db).snapshotTerm == n'.log.snapshotTerm == req.lastTerm)
      && (req.term < n.state.term || !req.done ==> n'.log == n.log && n'.snapshotData == n.snapshotData
                                                   && n'.state.commitIndex == n.state.commitIndex)
  {
  }

  /** The term in the cell after the snapshot, if there is such a cell. */
  function TermBeyond(log: LogState, req: InstallRequest): Option<nat> {
    if req.lastIndex + 1 in log.db.entries then Some(log.db.entries[req.lastIndex + 1].term) else None
  }

  /** After `trigger_snapshot` the last entries stay readable, at most half a threshold of them and none
      that was not; the mark carries the term of its entry, and snapshot data is kept if none is made. */
  lemma TriggerLeaves(n: Node, threshold: nat, data: Option<Bytes>)
    requires Sound(n.log)
    ensures var n', last := OnTriggerSnapshot(n, threshold, data), n.log.lastIndex;
      var left := Min(threshold / 2, last - n.log.snapshotIndex);
      && n'.state == n.state && n'.log.lastIndex == last
      && n'.log.snapshotIndex == last - left && n'.log.snapshotTerm == TrueTerm(Full(n.log), last - left)
      && n'.log.Range(0, last + 1) == Full(n.log)[last - left..]
      && n'.snapshotData == (if last - left > n.log.snapshotIndex && data.Some? then data else n.snapshotData)
  {
    TriggerKeepsLog(n, threshold, data);
    TriggerMark(n, threshold, data);
    ReadableTail(OnTriggerSnapshot(n, threshold, data).log);
  }

  lemma TriggerMark(n: Node, threshold: nat, data: Option<Bytes>)
    requires n.log.snapshotIndex <= n.log.lastIndex
    ensures var n', last := OnTriggerSnapshot(n, threshold, data), n.log.lastIndex;
      var mark := last - Min(threshold / 2, last - n.log.snapshotIndex);
      && n'.state == n.state && n'.log.lastIndex == last && n'.log.snapshotIndex == mark
      && n'.snapshotData == (if mark > n.log.snapshotIndex && data.Some? then data else n.snapshotData)
  {
  }

  /** All a sound log lets read. */
  lemma ReadableTail(log: LogState)
    requires Sound(log)
    ensures log.Range(0, log.lastIndex + 1) == Full(log)[log.snapshotIndex..]
  {
    RangeIsSlice(log, 0, log.lastIndex + 1);
    TailIs(log.Range(0, log.lastIndex + 1), Full(log), RangeStart(log, 0), RangeEnd(log, log.lastIndex + 1),
           log.snapshotIndex);
  }

  lemma TailIs(got: seq<LogEntry>, full: seq<LogEntry>, lo: nat, hi: nat, mark: nat)
    requires lo == mark + 1 && hi == |full| + 1 && mark <= |full|
    requires got == if lo < hi then full[lo - 1..hi - 1] else []
    ensures got == full[mark..]
  {
  }
}
