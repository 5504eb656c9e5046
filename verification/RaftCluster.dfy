/** A cluster replicating logs over a network that may lose, duplicate and reorder append requests, its
    nodes restarting at any time (src/raft/node.rs). Snapshots are not taken. */
module RaftClusters {
  import opened ByteStrings
  import opened RaftLogs
  import opened RaftStates
  import opened RaftNodes

  datatype Envelope = Envelope(dst: nat, req: AppendRequest)

  datatype Leadership = Leadership(id: nat, full: seq<LogEntry>)

  /** The nodes, every append request ever sent (a request may be delivered any number of times, at any
      time, or never), and, as history, who led each term and the longest log it had as leader. */
  datatype Cluster = Cluster(nodes: map<nat, Node>, sent: set<Envelope>, led: map<nat, Leadership>)

  // ---------------------------------------------------------------- steps

  datatype Step =
    | ChangeState(id: nat, state: StateView)
    | Restart(id: nat)
    | BecomeLeader(id: nat)
    | Propose(id: nat, data: Bytes, entryType: EntryType)
    | Send(id: nat, peer: nat, max: nat)
    | Deliver(envelope: Envelope)

  /** `ChangeState` stands for everything a node does to its state and not to its log: timeouts, votes,
      answers to append requests and to vote requests. It may set any term, also a lower one; but a node
      does not come out of it leading unless it led that term before. `Restart` loses the state and
      recovers the log. `BecomeLeader` carries the hypothesis of the theorem: a term is led at most once. */
  ghost predicate Enabled(c: Cluster, step: Step) {
    match step
    case ChangeState(id, state) =>
      && id in c.nodes
      && (state.role == Leader ==> c.nodes[id].state.role == Leader && state.term == c.nodes[id].state.term)
    case Restart(id) => id in c.nodes
    case BecomeLeader(id) => id in c.nodes && c.nodes[id].state.term !in c.led
    case Propose(id, _, _) => id in c.nodes
    case Send(id, peer, _) => id in c.nodes && c.nodes[id].state.role == Leader && peer != id
    case Deliver(envelope) => envelope in c.sent && envelope.dst in c.nodes
  }

  ghost function Next(c: Cluster, step: Step): Cluster
    requires Enabled(c, step)
  {
    match step
    case ChangeState(id, state) => c.(nodes := c.nodes[id := c.nodes[id].(state := state)])
    case Restart(id) =>
      var n := c.nodes[id];
      c.(nodes := c.nodes[id := n.(state := INITIAL_STATE, log := Recovered(n.log.db), snapshotData := None)])
    case BecomeLeader(id) =>
      var n := c.nodes[id];
      c.(nodes := c.nodes[id := n.(state := LeaderAt(n.state, id, n.peers, n.log.lastIndex))],
         led := c.led[n.state.term := Leadership(id, Full(n.log))])
    case Propose(id, data, entryType) =>
      var n := OnPropose(c.nodes[id], data, entryType);
      if n.state.role != Leader then c
      else c.(nodes := c.nodes[id := n], led := c.led[n.state.term := Leadership(id, Full(n.log))])
    case Send(id, peer, max) =>
      (match RequestFor(c.nodes[id], peer, max)
       case SendAppend(_, req) => c.(sent := c.sent + {Envelope(peer, req)})
       case SendInstall(_, _) => c)
    case Deliver(envelope) =>
      c.(nodes := c.nodes[envelope.dst := OnAppendEntries(c.nodes[envelope.dst], envelope.req).0])
  }

  ghost predicate Runnable(c: Cluster, steps: seq<Step>)
    decreases |steps|
  {
    steps == [] || (Enabled(c, steps[0]) && Runnable(Next(c, steps[0]), steps[1..]))
  }

  ghost function Run(c: Cluster, steps: seq<Step>): Cluster
    requires Runnable(c, steps)
    decreases |steps|
  {
    if steps == [] then c else Run(Next(c, steps[0]), steps[1..])
  }

  ghost predicate Initial(c: Cluster) {
    && c.sent == {} && c.led == map[]
    && forall id :: id in c.nodes ==>
         c.nodes[id].id == id && c.nodes[id].log == Recovered(EMPTY_TREE) && c.nodes[id].state.role != Leader
  }

  // ---------------------------------------------------------------- the invariant

  /** The log up to position `k` is what the leader of that position's term had there. */
  ghost predicate Anchor(full: seq<LogEntry>, k: nat, led: map<nat, Leadership>)
    requires k < |full|
  {
    var term := full[k].term;
    term in led && k < |led[term].full| && full[..k + 1] == led[term].full[..k + 1]
  }

  ghost predicate Anchored(full: seq<LogEntry>, led: map<nat, Leadership>) {
    Numbered(full, 1) && forall k :: 0 <= k < |full| ==> Anchor(full, k, led)
  }

  ghost predicate NodeOk(n: Node, id: nat, led: map<nat, Leadership>) {
    && n.id == id && Sound(n.log) && n.log.snapshotIndex == 0 && Anchored(Full(n.log), led)
    && (n.state.role == Leader ==> n.state.term in led && led[n.state.term] == Leadership(id, Full(n.log)))
  }

  /** A request with entries is a piece of its term's leader's log, sent by the leader to somebody else. */
  ghost predicate RequestOk(e: Envelope, led: map<nat, Leadership>) {
    e.req.entries != [] ==>
      && e.req.term in led && led[e.req.term].id != e.dst
      && IsPiece(e.req, led[e.req.term].full)
  }

  ghost predicate IsPiece(req: AppendRequest, full: seq<LogEntry>) {
    var prev := req.prevLogIndex;
    && prev + |req.entries| <= |full|
    && req.entries == full[prev..prev + |req.entries|]
    && req.prevLogTerm == TrueTerm(full, prev)
  }

  ghost predicate Invariant(c: Cluster) {
    && (forall id :: id in c.nodes ==> NodeOk(c.nodes[id], id, c.led))
    && (forall e :: e in c.sent ==> RequestOk(e, c.led))
    && (forall term :: term in c.led ==> Anchored(c.led[term].full, c.led))
  }

  // ---------------------------------------------------------------- facts about anchored logs

  /** Two anchored logs with the same term at an index agree up to it. */
  lemma AnchoredAgree(f: seq<LogEntry>, g: seq<LogEntry>, led: map<nat, Leadership>, k: nat)
    requires Anchored(f, led) && Anchored(g, led) && k < |f| && k < |g| && f[k].term == g[k].term
    ensures f[..k + 1] == g[..k + 1]
  {
    assert Anchor(f, k, led) && Anchor(g, k, led);
  }

  lemma AnchoredPrefix(full: seq<LogEntry>, n: nat, led: map<nat, Leadership>)
    requires Anchored(full, led) && n <= |full|
    ensures Anchored(full[..n], led)
  {
    forall k | 0 <= k < n ensures Anchor(full[..n], k, led) {
      assert Anchor(full, k, led);
      assert full[..n][..k + 1] == full[..k + 1];
    }
  }

  /** Every leader's log may have grown, and new terms may have been led. */
  ghost predicate LedGrew(led: map<nat, Leadership>, led': map<nat, Leadership>) {
    forall term :: term in led ==> term in led' && led'[term].id == led[term].id && led[term].full <= led'[term].full
  }

  lemma AnchoredGrew(full: seq<LogEntry>, led: map<nat, Leadership>, led': map<nat, Leadership>)
    requires Anchored(full, led) && LedGrew(led, led')
    ensures Anchored(full, led')
  {
    forall k | 0 <= k < |full| ensures Anchor(full, k, led') {
      assert Anchor(full, k, led);
      var term := full[k].term;
      assert led[term].full[..k + 1] == led'[term].full[..k + 1];
    }
  }

  lemma RequestGrew(e: Envelope, led: map<nat, Leadership>, led': map<nat, Leadership>)
    requires RequestOk(e, led) && LedGrew(led, led')
    ensures RequestOk(e, led')
  {
    if e.req.entries != [] {
      var prev, n := e.req.prevLogIndex, |e.req.entries|;
      var full, full' := led[e.req.term].full, led'[e.req.term].full;
      assert full'[prev..prev + n] == full[prev..prev + n];
    }
  }

  // ---------------------------------------------------------------- steps keep the invariant

  lemma InitialInvariant(c: Cluster)
    requires Initial(c)
    ensures Invariant(c)
  {
    assert Full(Recovered(EMPTY_TREE)) == [];
  }

  lemma ChangeKeeps(c: Cluster, id: nat, state: StateView)
    requires Invariant(c) && Enabled(c, ChangeState(id, state))
    ensures Invariant(Next(c, ChangeState(id, state)))
  {
    assert NodeOk(c.nodes[id], id, c.led);
  }

  lemma RestartKeeps(c: Cluster, id: nat)
    requires Invariant(c) && Enabled(c, Restart(id))
    ensures Invariant(Next(c, Restart(id)))
  {
    assert NodeOk(c.nodes[id], id, c.led);
    RecoverRefines(c.nodes[id].log);
  }

  /** A node's state and log change, and the log it now has is recorded for a term it alone leads. */
  lemma LeadingKeeps(c: Cluster, id: nat, n: Node, led': map<nat, Leadership>)
    requires Invariant(c) && LedGrew(c.led, led') && id in c.nodes
    requires NodeOk(n, id, led') && n.state.role == Leader
    requires led' == c.led[n.state.term := Leadership(id, Full(n.log))]
    ensures Invariant(Cluster(c.nodes[id := n], c.sent, led'))
  {
    forall x | x in c.nodes && x != id ensures NodeOk(c.nodes[x], x, led') {
      assert NodeOk(c.nodes[x], x, c.led);
      AnchoredGrew(Full(c.nodes[x].log), c.led, led');
    }
    forall e | e in c.sent ensures RequestOk(e, led') {
      RequestGrew(e, c.led, led');
    }
    forall term | term in led' ensures Anchored(led'[term].full, led') {
      if term != n.state.term { AnchoredGrew(c.led[term].full, c.led, led'); }
    }
  }

  lemma BecomeLeaderKeeps(c: Cluster, id: nat)
    requires Invariant(c) && Enabled(c, BecomeLeader(id))
    ensures Invariant(Next(c, BecomeLeader(id)))
  {
    var n := c.nodes[id];
    assert NodeOk(n, id, c.led);
    var led' := c.led[n.state.term := Leadership(id, Full(n.log))];
    AnchoredGrew(Full(n.log), c.led, led');
    LeadingKeeps(c, id, n.(state := LeaderAt(n.state, id, n.peers, n.log.lastIndex)), led');
  }

  /** A leader's log and one more entry of its term. */
  lemma AnchoredExtended(full: seq<LogEntry>, e: LogEntry, id: nat, led: map<nat, Leadership>)
    requires Anchored(full, led) && e.index == |full| + 1 && e.term in led && led[e.term] == Leadership(id, full)
    ensures LedGrew(led, led[e.term := Leadership(id, full + [e])])
    ensures Anchored(full + [e], led[e.term := Leadership(id, full + [e])])
  {
    var led' := led[e.term := Leadership(id, full + [e])];
    AnchoredGrew(full, led, led');
    forall k | 0 <= k < |full + [e]| ensures Anchor(full + [e], k, led') {
      if k < |full| {
        assert Anchor(full, k, led');
        assert (full + [e])[..k + 1] == full[..k + 1];
      }
    }
  }

  lemma ProposeKeeps(c: Cluster, id: nat, data: Bytes, entryType: EntryType)
    requires Invariant(c) && Enabled(c, Propose(id, data, entryType))
    ensures Invariant(Next(c, Propose(id, data, entryType)))
  {
    var n := c.nodes[id];
    assert NodeOk(n, id, c.led);
    if n.state.role == Leader {
      var e := LogEntry(n.log.lastIndex + 1, n.state.term, data, entryType);
      AppendRefines(n.log, [e]);
      AnchoredExtended(Full(n.log), e, id, c.led);
      LeadingKeeps(c, id, OnPropose(n, data, entryType), c.led[e.term := Leadership(id, Full(n.log) + [e])]);
    }
  }

  lemma SendKeeps(c: Cluster, id: nat, peer: nat, max: nat)
    requires Invariant(c) && Enabled(c, Send(id, peer, max))
    ensures Invariant(Next(c, Send(id, peer, max)))
  {
    var n := c.nodes[id];
    assert NodeOk(n, id, c.led);
    SentIsPiece(n, NextOf(n.state, peer), max);
  }

  lemma RangeIsPiece(log: LogState, next: nat, max: nat)
    requires Sound(log) && log.snapshotIndex == 0
    ensures var entries, prev := log.Range(next, next + max), if next > 0 then next - 1 else 0;
            entries != [] ==> prev + |entries| <= log.lastIndex && entries == Full(log)[prev..prev + |entries|]
  {
    var lo, hi := if next > 0 then next else 1, RangeEnd(log, next + max);
    assert RangeStart(log, next) == lo;
    RangeIsSlice(log, next, next + max);
    if lo < hi { PieceAt(Full(log), lo, hi); }
  }

  lemma PieceAt(full: seq<LogEntry>, lo: nat, hi: nat)
    requires 1 <= lo <= hi <= |full| + 1
    ensures var piece := full[lo - 1..hi - 1]; lo - 1 + |piece| <= |full| && piece == full[lo - 1..lo - 1 + |piece|]
  {
  }

  lemma SentIsPiece(n: Node, next: nat, max: nat)
    requires Sound(n.log) && n.log.snapshotIndex == 0
    ensures AppendAt(n, next, max).entries != [] ==> IsPiece(AppendAt(n, next, max), Full(n.log))
  {
    RangeIsPiece(n.log, next, max);
    PointReads(n.log, if next > 0 then next - 1 else 0);
  }

  /** Accepting a piece of an anchored log leaves a prefix of that log. */
  lemma AcceptedIsPrefix(log: LogState, req: AppendRequest, full: seq<LogEntry>, led: map<nat, Leadership>)
    requires Sound(log) && log.snapshotIndex == 0 && Anchored(Full(log), led) && Anchored(full, led)
    requires req.entries != [] && IsPiece(req, full) && log.HasEntry(req.prevLogIndex, req.prevLogTerm)
    ensures Indexed(req) && Sound(Accepted(log, req.entries)) && Accepted(log, req.entries).snapshotIndex == 0
    ensures Full(Accepted(log, req.entries)) == full[..req.prevLogIndex + |req.entries|]
  {
    var prev := req.prevLogIndex;
    PointReads(log, prev);
    if prev > 0 { AnchoredAgree(Full(log), full, led, prev - 1); }
    assert Full(log)[..prev] == full[..prev];
    assert Numbered(req.entries, prev + 1);
    ReplaceRefines(log, prev, req.entries);
    assert full[..prev + |req.entries|] == full[..prev] + req.entries;
  }

  /** Accepting entries that follow an index the log has. */
  lemma ReplaceRefines(log: LogState, prev: nat, entries: seq<LogEntry>)
    requires Sound(log) && log.snapshotIndex <= prev <= log.lastIndex && entries != [] && Numbered(entries, prev + 1)
    ensures var log' := Accepted(log, entries);
            Settled(log') && Full(log') == Full(log)[..prev] + entries && log'.snapshotIndex == log.snapshotIndex
  {
    assert entries[0].index == prev + 1;
    TruncateRefines(log, prev);
    AppendRefines(log.TruncatedAfter(prev), entries);
    if prev == log.lastIndex { assert Full(log)[..prev] == Full(log); }
  }

  lemma DeliverKeeps(c: Cluster, e: Envelope)
    requires Invariant(c) && Enabled(c, Deliver(e))
    ensures Invariant(Next(c, Deliver(e)))
  {
    var n := c.nodes[e.dst];
    assert NodeOk(n, e.dst, c.led) && RequestOk(e, c.led);
    DeliveredOk(n, e, c.led);
    assert e.req.entries != [] ==> Anchored(c.led[e.req.term].full, c.led);
  }

  /** Accepting a request replaces the log by a prefix of its leader's, and the receiver is not that
      leader; everything else leaves the log alone. */
  lemma DeliveredLog(n: Node, e: Envelope, led: map<nat, Leadership>)
    requires NodeOk(n, e.dst, led) && RequestOk(e, led)
    requires e.req.entries != [] ==> Anchored(led[e.req.term].full, led)
    ensures var log := OnAppendEntries(n, e.req).0.log;
            && Sound(log) && log.snapshotIndex == 0 && Anchored(Full(log), led)
            && (log != n.log ==> n.state.term <= e.req.term && !(n.state.role == Leader && n.state.term == e.req.term))
  {
    if e.req.entries != [] && e.req.term >= n.state.term && n.log.HasEntry(e.req.prevLogIndex, e.req.prevLogTerm) {
      var full := led[e.req.term].full;
      AcceptedIsPrefix(n.log, e.req, full, led);
      AnchoredPrefix(full, e.req.prevLogIndex + |e.req.entries|, led);
    }
  }

  lemma DeliveredOk(n: Node, e: Envelope, led: map<nat, Leadership>)
    requires NodeOk(n, e.dst, led) && RequestOk(e, led)
    requires e.req.entries != [] ==> Anchored(led[e.req.term].full, led)
    ensures NodeOk(OnAppendEntries(n, e.req).0, e.dst, led)
  {
    DeliveredLog(n, e, led);
  }

  lemma StepKeeps(c: Cluster, step: Step)
    requires Invariant(c) && Enabled(c, step)
    ensures Invariant(Next(c, step))
  {
    match step {
      case ChangeState(id, state) => ChangeKeeps(c, id, state);
      case Restart(id) => RestartKeeps(c, id);
      case BecomeLeader(id) => BecomeLeaderKeeps(c, id);
      case Propose(id, data, entryType) => ProposeKeeps(c, id, data, entryType);
      case Send(id, peer, max) => SendKeeps(c, id, peer, max);
      case Deliver(e) => DeliverKeeps(c, e);
    }
  }

  lemma {:induction false} RunKeeps(c: Cluster, steps: seq<Step>)
    requires Invariant(c) && Runnable(c, steps)
    ensures Invariant(Run(c, steps))
    decreases |steps|
  {
    if steps != [] {
      StepKeeps(c, steps[0]);
      RunKeeps(Next(c, steps[0]), steps[1..]);
    }
  }

  lemma ReachableInvariant(c: Cluster, steps: seq<Step>)
    requires Initial(c) && Runnable(c, steps)
    ensures Invariant(Run(c, steps))
  {
    InitialInvariant(c);
    RunKeeps(c, steps);
  }

  lemma InvariantMatches(c: Cluster, a: nat, b: nat, i: nat)
    requires Invariant(c) && a in c.nodes && b in c.nodes
    requires 1 <= i <= c.nodes[a].log.lastIndex && i <= c.nodes[b].log.lastIndex
    requires TrueTerm(Full(c.nodes[a].log), i) == TrueTerm(Full(c.nodes[b].log), i)
    ensures Full(c.nodes[a].log)[..i] == Full(c.nodes[b].log)[..i]
  {
    assert NodeOk(c.nodes[a], a, c.led) && NodeOk(c.nodes[b], b, c.led);
    AnchoredAgree(Full(c.nodes[a].log), Full(c.nodes[b].log), c.led, i - 1);
  }

  // ---------------------------------------------------------------- theorems

  /** Log Matching (section 5.3 of the Raft paper), in every reachable cluster: if two nodes hold an
      entry with the same index and term, their logs agree up to that index. */
  lemma LogMatching(c: Cluster, steps: seq<Step>, end: Cluster, a: nat, b: nat, i: nat)
    requires Initial(c) && Runnable(c, steps) && end == Run(c, steps)
    requires a in end.nodes && b in end.nodes
    requires 1 <= i <= end.nodes[a].log.lastIndex && i <= end.nodes[b].log.lastIndex
    requires TrueTerm(Full(end.nodes[a].log), i) == TrueTerm(Full(end.nodes[b].log), i)
    ensures Full(end.nodes[a].log)[..i] == Full(end.nodes[b].log)[..i]
  {
    ReachableInvariant(c, steps);
    InvariantMatches(end, a, b, i);
  }

  /** Every request in flight is what the handler takes for granted, and every log is sound: the tree
      holds the entries 1 up to the last index and the fields agree with it. */
  lemma InFlightWellFormed(c: Cluster, steps: seq<Step>, e: Envelope, id: nat)
    requires Initial(c) && Runnable(c, steps)
    ensures e in Run(c, steps).sent ==> WellFormed(e.req) && Indexed(e.req)
    ensures id in Run(c, steps).nodes ==> Sound(Run(c, steps).nodes[id].log)
  {
    ReachableInvariant(c, steps);
    var end := Run(c, steps);
    if e in end.sent && e.req.entries != [] {
      assert RequestOk(e, end.led) && Anchored(end.led[e.req.term].full, end.led);
    }
    if id in end.nodes { assert NodeOk(end.nodes[id], id, end.led); }
  }
}
