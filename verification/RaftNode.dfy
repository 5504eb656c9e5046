/** A Raft node: its message handlers and what a leader sends (src/raft/node.rs). */
module RaftNodes {
  import opened ByteStrings
  import opened Quorums
  import opened RaftLogs
  import opened RaftStates

  datatype AppendRequest = AppendRequest(term: nat, leaderId: nat, prevLogIndex: nat, prevLogTerm: nat,
                                         entries: seq<LogEntry>, leaderCommit: nat)
  datatype AppendResponse =
    AppendResponse(term: nat, success: bool, matchIndex: nat, conflictIndex: nat, conflictTerm: nat)
  datatype VoteRequest = VoteRequest(term: nat, candidateId: nat, lastLogIndex: nat, lastLogTerm: nat, preVote: bool)
  datatype VoteResponse = VoteResponse(term: nat, granted: bool)
  datatype InstallRequest =
    InstallRequest(term: nat, leaderId: nat, lastIndex: nat, lastTerm: nat, data: Bytes, done: bool)

  datatype Outgoing = SendAppend(peer: nat, append: AppendRequest) | SendInstall(peer: nat, install: InstallRequest)

  /** A node as a value. */
  datatype Node = Node(id: nat, peers: seq<nat>, state: StateView, log: LogState, snapshotData: Option<Bytes>)

  function Min(a: nat, b: nat): nat {
    if a < b then a else b
  }

  function TermOrZero(log: LogState, i: nat): nat {
    OrElse(log.TermAt(i), 0)
  }

  // ---------------------------------------------------------------- receiving entries

  /** Walks back from an index over the readable indices of one term. */
  function Backed(log: LogState, index: nat, term: nat): (c: nat)
    ensures c <= index && (index > log.firstIndex ==> c >= log.firstIndex)
    ensures forall i :: c <= i < index ==> TermOrZero(log, i) == term
    ensures c <= log.firstIndex || TermOrZero(log, c - 1) != term
  {
    if index > log.firstIndex && TermOrZero(log, index - 1) == term then Backed(log, index - 1, term) else index
  }

  /** The requests leaders build: the entries are numbered from the one after `prevLogIndex`. */
  ghost predicate WellFormed(req: AppendRequest) {
    Numbered(req.entries, req.prevLogIndex + 1)
  }

  const MAX_U64: nat := 0xFFFF_FFFF_FFFF_FFFF

  /** `index - 1` on 64 bits. */
  function Before(index: nat): nat {
    if index == 0 then MAX_U64 else index - 1
  }

  /** The log after accepting a request. All that follows the first new index is replaced, even where it
      agrees; a request without entries replaces nothing. */
  function Accepted(log: LogState, entries: seq<LogEntry>): LogState {
    if entries == [] then log
    else if entries[0].index <= log.lastIndex then
      log.TruncatedAfter(Before(entries[0].index)).Appended(entries)
    else log.Appended(entries)
  }

  /** Entry indices start at 1, so that subtracting one from the first does not wrap. */
  predicate Indexed(req: AppendRequest) {
    req.entries != [] ==> req.entries[0].index >= 1
  }

  function OnAppendEntries(n: Node, req: AppendRequest): (Node, AppendResponse) {
    if req.term < n.state.term then (n, AppendResponse(n.state.term, false, 0, 0, 0))
    else
      var s := Adopt(n.state, req.term).(leaderId := Some(req.leaderId));
      if !n.log.HasEntry(req.prevLogIndex, req.prevLogTerm) then
        var term := TermOrZero(n.log, req.prevLogIndex);
        (n.(state := s), AppendResponse(n.state.term, false, 0, Backed(n.log, req.prevLogIndex, term), term))
      else
        var log := Accepted(n.log, req.entries);
        var commit := if req.leaderCommit > s.commitIndex then Min(req.leaderCommit, log.lastIndex) else s.commitIndex;
        (n.(state := s.(commitIndex := commit), log := log),
         AppendResponse(n.state.term, true, req.prevLogIndex + |req.entries|, 0, 0))
  }

  /** The last index if a request is accepted. */
  function LastAfter(n: Node, req: AppendRequest): nat {
    if req.entries == [] then n.log.lastIndex else req.entries[|req.entries| - 1].index
  }

  predicate Accepts(n: Node, req: AppendRequest) {
    req.term >= n.state.term && n.log.HasEntry(req.prevLogIndex, req.prevLogTerm)
  }

  /** The commit index can fall: exactly when an accepted request leaves the log ending before the commit
      index while the leader's commit index is beyond it. It never passes the leader's. */
  lemma CommitFallsExactly(n: Node, req: AppendRequest)
    ensures var commit := OnAppendEntries(n, req).0.state.commitIndex;
            && (commit < n.state.commitIndex <==>
                 Accepts(n, req) && LastAfter(n, req) < n.state.commitIndex < req.leaderCommit)
            && (commit > n.state.commitIndex ==> commit <= req.leaderCommit && commit <= LastAfter(n, req))
  {
    if Accepts(n, req) {
      assert Accepted(n.log, req.entries).lastIndex == LastAfter(n, req);
    }
  }

  /** It happens to any follower that committed the two entries of its log, when the leader goes over
      them again one entry at a time. */
  lemma CommitFalls(n: Node, e: LogEntry, f: LogEntry, leader: nat)
    requires e.index == 1 && f.index == 2 && n.state.commitIndex == 2
    requires n.log == Recovered(EMPTY_TREE).Appended([e, f])
    ensures var req := AppendRequest(n.state.term, leader, 0, 0, [e], 3);
            && Settled(n.log) && Full(n.log) == [e, f] && WellFormed(req)
            && OnAppendEntries(n, req).0.state.commitIndex < 2
  {
    var req := AppendRequest(n.state.term, leader, 0, 0, [e], 3);
    assert Full(Recovered(EMPTY_TREE)) == [] && Settled(Recovered(EMPTY_TREE));
    AppendRefines(Recovered(EMPTY_TREE), [e, f]);
    CommitFallsExactly(n, req);
  }

  // ---------------------------------------------------------------- votes and snapshots

  /** What a vote request does, for the last index and term the receiver's log reports. */
  function OnRequestVote(s: StateView, lastIndex: nat, lastTerm: nat, req: VoteRequest): (StateView, VoteResponse) {
    if req.term < s.term then (s, VoteResponse(s.term, false))
    else
      var a := Adopt(s, req.term);
      var canVote := a.votedFor == None || a.votedFor == Some(req.candidateId);
      var logOk := req.lastLogTerm > lastTerm || (req.lastLogTerm == lastTerm && req.lastLogIndex >= lastIndex);
      var granted := canVote && logOk;
      (if granted && !req.preVote then a.(votedFor := Some(req.candidateId)) else a, VoteResponse(s.term, granted))
  }

  /** Installing a snapshot puts the snapshot mark where the leader says, wherever the log ends. */
  function OnInstallSnapshot(n: Node, req: InstallRequest): Node {
    if req.term < n.state.term then n
    else
      var s := Adopt(n.state, req.term).(leaderId := Some(req.leaderId));
      if !req.done then n.(state := s)
      else n.(state := s.(commitIndex := req.lastIndex, lastApplied := req.lastIndex),
              log := n.log.Compacted(req.lastIndex, req.lastTerm), snapshotData := Some(req.data))
  }

  /** `trigger_snapshot`: the mark goes to half a threshold before the end of the log. */
  function OnTriggerSnapshot(n: Node, threshold: nat, data: Option<Bytes>): Node {
    var index := if n.log.lastIndex > threshold / 2 then n.log.lastIndex - threshold / 2 else 0;
    if index <= n.log.snapshotIndex then n
    else n.(log := n.log.Compacted(index, TermOrZero(n.log, index)),
            snapshotData := if data.Some? then data else n.snapshotData)
  }

  /** Taking a snapshot keeps a sound log as it is, frees none of its cells, and is repeated by a
      restart. */
  lemma TriggerKeepsLog(n: Node, threshold: nat, data: Option<Bytes>)
    requires Sound(n.log)
    ensures var log := OnTriggerSnapshot(n, threshold, data).log;
            && Sound(log) && Full(log) == Full(n.log) && log.db.entries == n.log.db.entries
            && (Settled(n.log) ==> Settled(log) && Recovered(log.db) == log)
  {
    var index := if n.log.lastIndex > threshold / 2 then n.log.lastIndex - threshold / 2 else 0;
    var log := OnTriggerSnapshot(n, threshold, data).log;
    if index > n.log.snapshotIndex { SnapshotRefines(n.log, index); }
    RecoverRefines(log);
  }

  // ---------------------------------------------------------------- leading

  /** A leader appends one entry of its term; alone in its cluster, it commits it. */
  function OnPropose(n: Node, data: Bytes, entryType: EntryType): Node {
    if n.state.role != Leader then n
    else
      var index := n.log.lastIndex + 1;
      var s := if n.peers == [] then n.state.(commitIndex := index) else n.state;
      n.(log := n.log.Appended([LogEntry(index, n.state.term, data, entryType)]), state := s)
  }

  /** The append request a node builds for a peer that is to get the entries from `next` on. */
  function AppendAt(n: Node, next: nat, max: nat): AppendRequest {
    var prev := if next > 0 then next - 1 else 0;
    AppendRequest(n.state.term, n.id, prev, TermOrZero(n.log, prev), n.log.Range(next, next + max), n.state.commitIndex)
  }

  function AppendFor(n: Node, peer: nat, max: nat): AppendRequest {
    AppendAt(n, NextOf(n.state, peer), max)
  }

  function InstallFor(n: Node, data: Bytes): InstallRequest {
    InstallRequest(n.state.term, n.id, n.log.snapshotIndex, n.log.snapshotTerm, data, true)
  }

  /** A peer that is behind the readable log gets the snapshot, if there is one. */
  function RequestFor(n: Node, peer: nat, max: nat): Outgoing {
    if NextOf(n.state, peer) < n.log.firstIndex && n.snapshotData.Some? then
      SendInstall(peer, InstallFor(n, n.snapshotData.value))
    else SendAppend(peer, AppendFor(n, peer, max))
  }

  function RequestsFor(n: Node, peers: seq<nat>, max: nat): seq<Outgoing> {
    if peers == [] then []
    else
      var last := peers[|peers| - 1];
      RequestsFor(n, peers[..|peers| - 1], max) + if last != n.id then [RequestFor(n, last, max)] else []
  }

  /** What a leader does with the answer of a peer. */
  function OnAppendResponse(s: StateView, peer: nat, resp: AppendResponse, peers: seq<nat>,
                            leaderLast: nat): StateView {
    var s' :=
      if resp.success then
        s.(matchIndex := s.matchIndex[peer := resp.matchIndex], nextIndex := s.nextIndex[peer := resp.matchIndex + 1])
      else if resp.conflictIndex > 0 then s.(nextIndex := s.nextIndex[peer := resp.conflictIndex])
      else if peer in s.nextIndex && s.nextIndex[peer] > 0
      then s.(nextIndex := s.nextIndex[peer := s.nextIndex[peer] - 1])
      else s;
    var majority := MajorityMatch(MatchValues(s'.matchIndex, peers, leaderLast));
    if majority > s'.commitIndex then s'.(commitIndex := majority) else s'
  }

  /** The commit index moves only forward, and only to an index that a majority of the recorded match
      indices have reached. (The term of the entry there is not looked at.) */
  lemma CommitBacked(s: StateView, peer: nat, resp: AppendResponse, peers: seq<nat>, leaderLast: nat)
    ensures var s' := OnAppendResponse(s, peer, resp, peers, leaderLast);
            && s'.commitIndex >= s.commitIndex
            && (s'.commitIndex != s.commitIndex ==>
                 CountAtLeast(MatchValues(s'.matchIndex, peers, leaderLast), s'.commitIndex) >= MajorityOf(|peers| + 1))
  {
    var s' := OnAppendResponse(s, peer, resp, peers, leaderLast);
    MajorityMatchIsGreatest(MatchValues(s'.matchIndex, peers, leaderLast), s'.commitIndex);
  }

  function MatchAfter(s: StateView, peer: nat, resp: AppendResponse): map<nat, nat> {
    if resp.success then s.matchIndex[peer := resp.matchIndex] else s.matchIndex
  }

  /** The rule of section 5.4.2 of the Raft paper: by counting, a leader commits only entries of its own
      term. The code keeps it on an answer exactly when no majority is beyond the commit index yet, or
      the entry at the majority index is of the leader's term. */
  lemma CommitRuleExactly(n: Node, peer: nat, resp: AppendResponse, peers: seq<nat>, leaderLast: nat)
    ensures var commit := OnAppendResponse(n.state, peer, resp, peers, leaderLast).commitIndex;
            var m := MajorityMatch(MatchValues(MatchAfter(n.state, peer, resp), peers, leaderLast));
            (commit != n.state.commitIndex ==> n.log.TermAt(commit) == Some(n.state.term))
              <==> m <= n.state.commitIndex || n.log.TermAt(m) == Some(n.state.term)
  {
  }

  /** A leader of a later term commits the entry of an earlier one, as soon as its one peer has it. */
  lemma CommitsEarlierTerm(n: Node, e: LogEntry, peer: nat, resp: AppendResponse)
    requires e.index == 1 && n.log == Recovered(EMPTY_TREE).Appended([e])
    requires n.state.role == Leader && n.state.term > e.term && n.state.commitIndex == 0
    requires resp.success && resp.matchIndex == 1
    ensures OnAppendResponse(n.state, peer, resp, [peer], 1).commitIndex == 1
    ensures Settled(n.log) && n.log.TermAt(1) == Some(e.term) && e.term != n.state.term
  {
    var values := MatchValues(MatchAfter(n.state, peer, resp), [peer], 1);
    assert values == [1, 1];
    assert values[1..] == [1] && values[1..][1..] == [];
    MajorityMatchIsGreatest(values, 1);
    MajorityMatchIsGreatest(values, 2);
    assert Full(Recovered(EMPTY_TREE)) == [] && Settled(Recovered(EMPTY_TREE));
    AppendRefines(Recovered(EMPTY_TREE), [e]);
    PointReads(n.log, 1);
  }

  // ---------------------------------------------------------------- sending snapshots

  /** What a leader does with any answer to a snapshot it sent. */
  function OnInstallResponse(s: StateView, peer: nat, snapshotIndex: nat): StateView {
    s.(matchIndex := s.matchIndex[peer := snapshotIndex], nextIndex := s.nextIndex[peer := snapshotIndex + 1])
  }

  /** A snapshot sent and answered. The peer accepts the next append request, which starts right after the
      snapshot, exactly if its term was not above the leader's; the match index the leader has recorded is
      reached exactly in that case, or if the peer had the entry anyway. */
  lemma AppendFollowsInstall(leader: Node, follower: Node, data: Bytes, max: nat)
    requires leader.log.snapshotIndex >= 1 && leader.log.firstIndex == leader.log.snapshotIndex + 1
    ensures var installed, mark := OnInstallSnapshot(follower, InstallFor(leader, data)), leader.log.snapshotIndex;
            var leader' := leader.(state := OnInstallResponse(leader.state, follower.id, mark));
            var req := AppendFor(leader', follower.id, max);
            && req.prevLogIndex == leader'.state.matchIndex[follower.id] == mark
            && (OnAppendEntries(installed, req).1.success <==> follower.state.term <= leader.state.term)
            && (installed.log.HasEntry(mark, leader.log.snapshotTerm) <==>
                 follower.state.term <= leader.state.term || follower.log.HasEntry(mark, leader.log.snapshotTerm))
  {
  }

  // ---------------------------------------------------------------- terms and votes over runs

  /** One message received. */
  datatype Receipt =
    | ReceivedAppend(append: AppendRequest)
    | ReceivedVote(vote: VoteRequest)
    | ReceivedInstall(install: InstallRequest)

  /** `handle_request_vote` on the node: it looks at the cached end of the log. */
  function OnVote(n: Node, req: VoteRequest): (StateView, VoteResponse) {
    OnRequestVote(n.state, n.log.lastIndex, n.log.lastTerm, req)
  }

  function AfterReceipt(n: Node, r: Receipt): Node {
    match r
    case ReceivedAppend(req) => OnAppendEntries(n, req).0
    case ReceivedVote(req) => n.(state := OnVote(n, req).0)
    case ReceivedInstall(req) => OnInstallSnapshot(n, req)
  }

  function AfterReceipts(n: Node, rs: seq<Receipt>): Node {
    if rs == [] then n else AfterReceipt(AfterReceipts(n, rs[..|rs| - 1]), rs[|rs| - 1])
  }

  /** The last of the receipts grants a real vote to `candidate` in `term`. */
  predicate GrantsVote(n: Node, rs: seq<Receipt>, candidate: nat, term: nat) {
    && rs != []
    && var r := rs[|rs| - 1];
    && r.ReceivedVote? && !r.vote.preVote && r.vote.candidateId == candidate && r.vote.term == term
    && OnVote(AfterReceipts(n, rs[..|rs| - 1]), r.vote).1.granted
  }

  lemma {:induction false} TermsNeverFall(n: Node, rs: seq<Receipt>, i: nat)
    requires i <= |rs|
    ensures AfterReceipts(n, rs[..i]).state.term <= AfterReceipts(n, rs).state.term
    decreases |rs|
  {
    if i == |rs| {
      assert rs[..i] == rs;
    } else {
      TermsNeverFall(n, rs[..|rs| - 1], i);
      assert rs[..|rs| - 1][..i] == rs[..i];
    }
  }

  lemma ReceiptKeepsVote(n: Node, r: Receipt, candidate: nat, term: nat)
    requires n.state.term > term || (n.state.term == term && n.state.votedFor == Some(candidate))
    ensures var s := AfterReceipt(n, r).state; s.term > term || (s.term == term && s.votedFor == Some(candidate))
  {
  }

  /** A real vote stays on record for as long as its term lasts. */
  lemma {:induction false} VoteStays(n: Node, rs: seq<Receipt>, i: nat, candidate: nat, term: nat)
    requires i <= |rs| && GrantsVote(n, rs[..i], candidate, term)
    ensures var s := AfterReceipts(n, rs).state;
            s.term > term || (s.term == term && s.votedFor == Some(candidate))
    decreases |rs|
  {
    if i == |rs| {
      assert rs[..i] == rs;
    } else {
      assert rs[..|rs| - 1][..i] == rs[..i];
      VoteStays(n, rs[..|rs| - 1], i, candidate, term);
      ReceiptKeepsVote(AfterReceipts(n, rs[..|rs| - 1]), rs[|rs| - 1], candidate, term);
    }
  }

  lemma EarlierVoteBinds(n: Node, rs: seq<Receipt>, i: nat, a: nat, b: nat, term: nat)
    requires i < |rs| && GrantsVote(n, rs[..i], a, term) && GrantsVote(n, rs, b, term)
    ensures a == b
  {
    var before := rs[..|rs| - 1];
    assert before[..i] == rs[..i];
    VoteStays(n, before, i, a, term);
  }

  /** Over any run of a node that only receives, starting anywhere and with any log: the term never
      falls, and within one term real votes go to at most one candidate. */
  lemma OneVotePerTerm(n: Node, rs: seq<Receipt>, i: nat, j: nat, a: nat, b: nat, term: nat)
    requires i < j <= |rs|
    ensures AfterReceipts(n, rs[..i]).state.term <= AfterReceipts(n, rs[..j]).state.term
    ensures GrantsVote(n, rs[..i], a, term) && GrantsVote(n, rs[..j], b, term) ==> a == b
  {
    assert rs[..j][..i] == rs[..i];
    TermsNeverFall(n, rs[..j], i);
    if GrantsVote(n, rs[..i], a, term) && GrantsVote(n, rs[..j], b, term) {
      EarlierVoteBinds(n, rs[..j], i, a, b, term);
    }
  }

  /** An election meets the commit candidate: whenever a majority granted a candidate their votes, some
      voter is among the nodes at or beyond the majority match index, and the candidate's log is at
      least as up to date as that voter's. */
  lemma ElectionMeetsCommit(matchIndex: map<nat, nat>, peers: seq<nat>, self: nat, leaderLast: nat, req: VoteRequest,
                            voters: map<nat, Node>)
    requires Distinct(peers) && self !in peers
    requires voters.Keys <= ClusterOf(peers, self) && |voters.Keys| >= MajorityOf(|peers| + 1)
    requires forall v :: v in voters ==> v == req.candidateId || OnVote(voters[v], req).1.granted
    ensures var m := MajorityMatch(MatchValues(matchIndex, peers, leaderLast));
            exists v :: v in voters && v in NodesAtLeast(matchIndex, peers, self, leaderLast, m)
              && (v == req.candidateId
                  || !AheadOf(voters[v].log.lastTerm, voters[v].log.lastIndex, req.lastLogTerm, req.lastLogIndex))
  {
    MajorityMeetsElections(matchIndex, peers, self, leaderLast, voters.Keys);
    var m := MajorityMatch(MatchValues(matchIndex, peers, leaderLast));
    var v :| v in NodesAtLeast(matchIndex, peers, self, leaderLast, m) * voters.Keys;
    assert v in voters;
  }

  /** The order of logs by last term, then last index. */
  predicate AheadOf(term: nat, index: nat, otherTerm: nat, otherIndex: nat) {
    term > otherTerm || (term == otherTerm && index > otherIndex)
  }

  // ---------------------------------------------------------------- the object

  class RaftNode {
    const id: nat
    const peers: seq<nat>
    const maxEntries: nat
    const state: RaftState
    const log: RaftLog

    constructor (id: nat, peers: seq<nat>, maxEntries: nat, state: RaftState, log: RaftLog)
      ensures this.id == id && this.peers == peers && this.maxEntries == maxEntries
      ensures this.state == state && this.log == log
    {
      this.id, this.peers, this.maxEntries, this.state, this.log := id, peers, maxEntries, state, log;
    }

    function Value(): Node
      reads state, log
    {
      Node(id, peers, state.View(), log.State(), log.snapshotData)
    }

    method HandleAppendEntries(req: AppendRequest) returns (resp: AppendResponse)
      modifies state, log
      ensures (Value(), resp) == OnAppendEntries(old(Value()), req)
    {
      var currentTerm := state.currentTerm;
      if req.term < currentTerm {
        return AppendResponse(currentTerm, false, 0, 0, 0);
      }
      if req.term > currentTerm { state.BecomeFollower(req.term); }
      state.leaderId := Some(req.leaderId);
      var has := log.HasEntry(req.prevLogIndex, req.prevLogTerm);
      if !has {
        var conflictIndex, conflictTerm := FindConflict(req.prevLogIndex);
        return AppendResponse(currentTerm, false, 0, conflictIndex, conflictTerm);
      }
      AcceptEntries(req.entries);
      if req.leaderCommit > state.commitIndex {
        state.commitIndex := if req.leaderCommit < log.lastIndex then req.leaderCommit else log.lastIndex;
      }
      resp := AppendResponse(currentTerm, true, req.prevLogIndex + |req.entries|, 0, 0);
    }

    /** The first index of the run of the conflicting term. */
    method FindConflict(prevLogIndex: nat) returns (conflictIndex: nat, conflictTerm: nat)
      ensures conflictTerm == TermOrZero(log.State(), prevLogIndex)
      ensures conflictIndex == Backed(log.State(), prevLogIndex, conflictTerm)
    {
      conflictTerm := TermOrZeroAt(prevLogIndex);
      conflictIndex := prevLogIndex;
      while conflictIndex > log.firstIndex
        invariant Backed(log.State(), conflictIndex, conflictTerm) == Backed(log.State(), prevLogIndex, conflictTerm)
      {
        var term := TermOrZeroAt(conflictIndex - 1);
        if term != conflictTerm { return; }
        conflictIndex := conflictIndex - 1;
      }
    }

    method AcceptEntries(entries: seq<LogEntry>)
      modifies log
      ensures log.State() == Accepted(old(log.State()), entries) && log.snapshotData == old(log.snapshotData)
    {
      if entries == [] { return; }
      var firstNewIndex := entries[0].index;
      if firstNewIndex <= log.lastIndex {
        log.TruncateAfter(Before(firstNewIndex));
      }
      log.Append(entries);
    }

    method HandleRequestVote(req: VoteRequest) returns (resp: VoteResponse)
      modifies state
      ensures (state.View(), resp) == OnVote(old(Value()), req)
    {
      var currentTerm := state.currentTerm;
      if req.term < currentTerm { return VoteResponse(currentTerm, false); }
      if req.term > currentTerm { state.BecomeFollower(req.term); }
      var canVote := state.votedFor == None || state.votedFor == Some(req.candidateId);
      var logOk := req.lastLogTerm > log.lastTerm
        || (req.lastLogTerm == log.lastTerm && req.lastLogIndex >= log.lastIndex);
      var granted := canVote && logOk;
      if granted && !req.preVote { state.votedFor := Some(req.candidateId); }
      resp := VoteResponse(currentTerm, granted);
    }

    method HandleInstallSnapshot(req: InstallRequest) returns (term: nat)
      modifies state, log
      ensures Value() == OnInstallSnapshot(old(Value()), req) && term == old(state.currentTerm)
    {
      term := state.currentTerm;
      if req.term < term { return; }
      if req.term > term { state.BecomeFollower(req.term); }
      state.leaderId := Some(req.leaderId);
      if req.done {
        log.SaveSnapshotWithData(req.lastIndex, req.lastTerm, req.data);
        log.TruncateBefore(req.lastIndex + 1);
        state.commitIndex, state.lastApplied := req.lastIndex, req.lastIndex;
      }
    }

    method TriggerSnapshot(threshold: nat, data: Option<Bytes>)
      modifies log
      ensures Value() == OnTriggerSnapshot(old(Value()), threshold, data)
    {
      var snapshotIndex := if log.lastIndex > threshold / 2 then log.lastIndex - threshold / 2 else 0;
      if snapshotIndex > log.snapshotIndex {
        var snapshotTerm := TermOrZeroAt(snapshotIndex);
        match data {
          case Some(d) => log.SaveSnapshotWithData(snapshotIndex, snapshotTerm, d);
          case None => log.SaveSnapshot(snapshotIndex, snapshotTerm);
        }
        log.TruncateBefore(snapshotIndex + 1);
      }
    }

    method BecomeLeader() returns (sent: seq<Outgoing>)
      modifies state
      ensures Value() == old(Value()).(state := LeaderAt(old(state.View()), id, peers, log.lastIndex))
      ensures sent == RequestsFor(Value(), peers, maxEntries)
    {
      state.BecomeLeader(id, peers, log.lastIndex);
      sent := SendHeartbeats();
    }

    method Propose(data: Bytes) returns (r: Outcome<nat>, sent: seq<Outgoing>)
      modifies state, log
      ensures Value() == OnPropose(old(Value()), data, Normal)
      ensures old(state.role) != Leader ==> r == Failed && sent == []
      ensures old(state.role) == Leader ==> r == Done(log.lastIndex) && sent == RequestsFor(Value(), peers, maxEntries)
    {
      r, sent := ProposeEntry(data, Normal);
    }

    /** `propose_conf_change`: as `propose`, with the other entry type. */
    method ProposeConfChange(data: Bytes) returns (r: Outcome<nat>, sent: seq<Outgoing>)
      modifies state, log
      ensures Value() == OnPropose(old(Value()), data, ConfigChange)
      ensures old(state.role) != Leader ==> r == Failed && sent == []
      ensures old(state.role) == Leader ==> r == Done(log.lastIndex) && sent == RequestsFor(Value(), peers, maxEntries)
    {
      r, sent := ProposeEntry(data, ConfigChange);
    }

    /** `propose_new` appends only: it neither sends nor commits. */
    method ProposeNew(data: Bytes) returns (r: Outcome<()>)
      modifies log
      ensures Value() == OnPropose(old(Value()), data, Normal).(state := old(state.View()))
      ensures r.Done? <==> old(state.role) == Leader
    {
      if state.role != Leader { return Failed; }
      log.Append([LogEntry(log.lastIndex + 1, state.currentTerm, data, Normal)]);
      r := Done(());
    }

    method ProposeEntry(data: Bytes, entryType: EntryType) returns (r: Outcome<nat>, sent: seq<Outgoing>)
      modifies state, log
      ensures Value() == OnPropose(old(Value()), data, entryType)
      ensures old(state.role) != Leader ==> r == Failed && sent == []
      ensures old(state.role) == Leader ==> r == Done(log.lastIndex) && sent == RequestsFor(Value(), peers, maxEntries)
    {
      if state.role != Leader { return Failed, []; }
      var index := log.lastIndex + 1;
      log.Append([LogEntry(index, state.currentTerm, data, entryType)]);
      if peers == [] { state.commitIndex := index; }
      sent := SendHeartbeats();
      r := Done(index);
    }

    /** The sending half of `send_heartbeats`. */
    method SendHeartbeats() returns (sent: seq<Outgoing>)
      ensures sent == if state.role == Leader then RequestsFor(Value(), peers, maxEntries) else []
    {
      if state.role != Leader { return []; }
      sent := [];
      for i := 0 to |peers|
        invariant sent == RequestsFor(Value(), peers[..i], maxEntries)
      {
        assert peers[..i + 1][..i] == peers[..i];
        var peerId := peers[i];
        if peerId != id {
          var out := BuildRequest(peerId);
          sent := sent + [out];
        }
      }
      assert peers[..|peers|] == peers;
    }

    method BuildRequest(peerId: nat) returns (out: Outgoing)
      ensures out == RequestFor(Value(), peerId, maxEntries)
    {
      var next := if peerId in state.nextIndex then state.nextIndex[peerId] else 1;
      if next < log.firstIndex && log.snapshotData.Some? {
        return SendInstall(peerId, InstallRequest(state.currentTerm, id, log.snapshotIndex, log.snapshotTerm,
                                                  log.snapshotData.value, true));
      }
      var append := BuildAppend(next);
      out := SendAppend(peerId, append);
    }

    method BuildAppend(next: nat) returns (req: AppendRequest)
      ensures req == AppendAt(Value(), next, maxEntries)
    {
      var prevLogIndex := if next > 0 then next - 1 else 0;
      var prevLogTerm := TermOrZeroAt(prevLogIndex);
      var entries := log.GetRange(next, next + maxEntries);
      req := AppendRequest(state.currentTerm, id, prevLogIndex, prevLogTerm, entries, state.commitIndex);
    }

    /** `term_at(index).ok().flatten().unwrap_or(0)` */
    method TermOrZeroAt(index: nat) returns (term: nat)
      ensures term == TermOrZero(log.State(), index)
    {
      var t := log.TermAt(index);
      term := OrElse(t, 0);
    }

    /** The answer to a snapshot sent; what it says is not looked at. */
    method HandleInstallResponse(peerId: nat, snapshotIndex: nat)
      modifies state
      ensures state.View() == OnInstallResponse(old(state.View()), peerId, snapshotIndex)
    {
      state.matchIndex := state.matchIndex[peerId := snapshotIndex];
      state.nextIndex := state.nextIndex[peerId := snapshotIndex + 1];
    }

    /** The answer half of `send_heartbeats`, for an answer that arrived. */
    method HandleAppendResponse(peerId: nat, resp: AppendResponse, allPeers: seq<nat>, leaderLast: nat)
      modifies state
      ensures state.View() == OnAppendResponse(old(state.View()), peerId, resp, allPeers, leaderLast)
    {
      if resp.success {
        state.matchIndex := state.matchIndex[peerId := resp.matchIndex];
        state.nextIndex := state.nextIndex[peerId := resp.matchIndex + 1];
      } else if resp.conflictIndex > 0 {
        state.nextIndex := state.nextIndex[peerId := resp.conflictIndex];
      } else if peerId in state.nextIndex && state.nextIndex[peerId] > 0 {
        state.nextIndex := state.nextIndex[peerId := state.nextIndex[peerId] - 1];
      }
      var majority := state.GetMajorityMatchIndex(allPeers, leaderLast);
      if majority > state.commitIndex { state.commitIndex := majority; }
    }
  }
}
