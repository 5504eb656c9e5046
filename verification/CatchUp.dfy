/** A leader bringing one follower up to date by repeated append requests (src/raft/node.rs). */
module CatchUps {
  import opened ByteStrings
  import opened RaftLogs
  import opened RaftStates
  import opened RaftNodes
  import opened RaftClusters
  import opened Leadings

  /** Log Matching between two logs. */
  ghost predicate Matching(f: seq<LogEntry>, g: seq<LogEntry>) {
    forall k :: 0 <= k < |f| && k < |g| && f[k].term == g[k].term ==> f[..k + 1] == g[..k + 1]
  }

  /** In every reachable cluster, any two nodes' logs match. */
  lemma ReachableMatching(c: Cluster, steps: seq<Step>, end: Cluster, a: nat, b: nat)
    requires Initial(c) && Runnable(c, steps) && end == Run(c, steps) && a in end.nodes && b in end.nodes
    ensures Matching(Full(end.nodes[a].log), Full(end.nodes[b].log))
  {
    var f, g := Full(end.nodes[a].log), Full(end.nodes[b].log);
    forall k | 0 <= k < |f| && k < |g| && f[k].term == g[k].term ensures f[..k + 1] == g[..k + 1] {
      LogMatching(c, steps, end, a, b, k + 1);
    }
  }

  datatype Pair = Pair(leader: Node, follower: Node)

  /** One request and its answer. */
  function Round(p: Pair, max: nat): Pair {
    var (follower, resp) := OnAppendEntries(p.follower, AppendFor(p.leader, p.follower.id, max));
    var s := OnAppendResponse(p.leader.state, p.follower.id, resp, p.leader.peers, Last(p));
    Pair(p.leader.(state := s), follower)
  }

  function NextIndex(p: Pair): nat {
    NextOf(p.leader.state, p.follower.id)
  }

  function Last(p: Pair): nat {
    p.leader.log.lastIndex
  }

  ghost predicate Unsnapped(log: LogState) {
    Sound(log) && log.snapshotIndex == 0
  }

  /** A leader without snapshots, its follower not in a later term, and a next index in range. */
  ghost predicate CanStart(p: Pair) {
    && Unsnapped(p.leader.log) && Unsnapped(p.follower.log)
    && p.follower.state.term <= p.leader.state.term
    && Matching(Full(p.leader.log), Full(p.follower.log))
    && 1 <= NextIndex(p) <= Last(p) + 1
  }

  /** The follower has the entry before the next index, as the leader has it. */
  predicate Agrees(p: Pair) {
    var prev := if NextIndex(p) > 0 then NextIndex(p) - 1 else 0;
    p.follower.log.HasEntry(prev, TermOrZero(p.leader.log, prev))
  }

  /** Nothing is left to send, and the follower agrees up to there. */
  predicate CaughtUp(p: Pair) {
    NextIndex(p) == Last(p) + 1 && Agrees(p)
  }

  /** Agreement in terms of the entries. */
  lemma AgreesMeans(p: Pair)
    requires Unsnapped(p.leader.log) && Unsnapped(p.follower.log) && 1 <= NextIndex(p) <= Last(p) + 1
    ensures var prev, f, g := NextIndex(p) - 1, Full(p.leader.log), Full(p.follower.log);
            Agrees(p) <==> prev <= |g| && TrueTerm(g, prev) == TrueTerm(f, prev)
  {
    PointReads(p.leader.log, NextIndex(p) - 1);
    PointReads(p.follower.log, NextIndex(p) - 1);
  }

  lemma AgreeingPrefix(p: Pair)
    requires CanStart(p) && Agrees(p)
    ensures NextIndex(p) - 1 <= p.follower.log.lastIndex
    ensures Full(p.follower.log)[..NextIndex(p) - 1] == Full(p.leader.log)[..NextIndex(p) - 1]
  {
    var prev := NextIndex(p) - 1;
    AgreesMeans(p);
    if prev > 0 {
      assert Full(p.leader.log)[prev - 1].term == Full(p.follower.log)[prev - 1].term;
    }
  }

  lemma ConflictReply(p: Pair, max: nat)
    requires CanStart(p) && !Agrees(p)
    ensures 1 <= NextIndex(Round(p, max)) < NextIndex(p)
    ensures Round(p, max).leader.log == p.leader.log && Round(p, max).follower.log == p.follower.log
    ensures Round(p, max).follower.state.term <= Round(p, max).leader.state.term
  {
    var prev := NextIndex(p) - 1;
    assert prev > 0;
    var c := Backed(p.follower.log, prev, TermOrZero(p.follower.log, prev));
    assert NextIndex(Round(p, max)) == c;
  }

  lemma SameLogsStart(p: Pair, before: Pair)
    requires CanStart(before) && p.leader.log == before.leader.log && p.follower.log == before.follower.log
    requires p.follower.state.term <= p.leader.state.term && 1 <= NextIndex(p) <= NextIndex(before)
    ensures CanStart(p)
  {
  }

  /** A conflict answer strictly lowers the next index, keeps it at least 1, and touches neither log. */
  lemma ConflictRound(p: Pair, max: nat)
    requires CanStart(p) && !Agrees(p)
    ensures CanStart(Round(p, max))
    ensures 1 <= NextIndex(Round(p, max)) < NextIndex(p)
    ensures Round(p, max).leader.log == p.leader.log && Round(p, max).follower.log == p.follower.log
  {
    ConflictReply(p, max);
    SameLogsStart(Round(p, max), p);
  }

  /** How many entries the next request carries. */
  function Batch(p: Pair, max: nat): nat {
    if NextIndex(p) <= Last(p) then SentCount(Last(p), NextIndex(p), max) else 0
  }

  function Piece(full: seq<LogEntry>, next: nat, n: nat): seq<LogEntry>
    requires 1 <= next && next - 1 + n <= |full|
  {
    full[next - 1..next - 1 + n]
  }

  lemma SentEntries(p: Pair, max: nat)
    requires CanStart(p)
    ensures AppendFor(p.leader, p.follower.id, max).entries == Piece(Full(p.leader.log), NextIndex(p), Batch(p, max))
  {
    AppendCarries(p.leader, NextIndex(p), max);
  }

  /** The next index is right after `m`, and the follower has the leader's first `m` entries, or what
      it had in `before`. */
  ghost predicate Reached(p: Pair, before: Pair, m: nat) {
    && p.leader.log == before.leader.log && Unsnapped(p.follower.log)
    && p.follower.state.term <= p.leader.state.term && NextIndex(p) == m + 1 && m <= Last(before)
    && (Full(p.follower.log) == Full(before.leader.log)[..m]
        || (p.follower.log == before.follower.log && m == NextIndex(before) - 1))
  }

  /** What the follower makes of a request it accepts. */
  lemma AcceptedLog(p: Pair, max: nat)
    requires CanStart(p) && Agrees(p)
    ensures var prev, n := NextIndex(p) - 1, Batch(p, max);
            var log := Accepted(p.follower.log, AppendFor(p.leader, p.follower.id, max).entries);
            && Unsnapped(log)
            && (if n > 0 then Full(log) == Full(p.leader.log)[..prev + n] else log == p.follower.log)
  {
    var prev, n, full := NextIndex(p) - 1, Batch(p, max), Full(p.leader.log);
    SentEntries(p, max);
    AgreeingPrefix(p);
    if n > 0 {
      SoundNumbered(p.leader.log);
      ReplaceRefines(p.follower.log, prev, Piece(full, NextIndex(p), n));
      assert full[..prev + n] == full[..prev] + full[prev..prev + n];
    }
  }

  lemma AcceptedReaches(p: Pair, max: nat)
    requires CanStart(p) && Agrees(p)
    ensures Reached(Round(p, max), p, NextIndex(p) - 1 + Batch(p, max))
  {
    AcceptedLog(p, max);
    SentEntries(p, max);
  }

  lemma PrefixMatches(full: seq<LogEntry>, m: nat)
    requires m <= |full|
    ensures Matching(full, full[..m])
  {
    var cut := full[..m];
    forall k | 0 <= k < |full| && k < |cut| && full[k].term == cut[k].term ensures full[..k + 1] == cut[..k + 1] {
    }
  }

  lemma ReachedGoesOn(p: Pair, before: Pair, m: nat)
    requires CanStart(before) && Agrees(before) && Reached(p, before, m)
    ensures CanStart(p) && Agrees(p)
  {
    AgreeingPrefix(before);
    PrefixMatches(Full(before.leader.log), m);
    AgreesMeans(p);
    assert Full(p.follower.log)[..m] == Full(p.leader.log)[..m];
    if m > 0 {
      assert Full(p.follower.log)[..m][m - 1] == Full(p.leader.log)[..m][m - 1];
    }
  }

  /** An accepted request advances the next index past the entries sent, and the next one is accepted
      too. */
  lemma AcceptedRound(p: Pair, max: nat)
    requires CanStart(p) && Agrees(p)
    ensures var p' := Round(p, max);
            && CanStart(p') && Agrees(p') && p'.leader.log == p.leader.log
            && NextIndex(p') == NextIndex(p) + Batch(p, max)
  {
    AcceptedReaches(p, max);
    ReachedGoesOn(Round(p, max), p, NextIndex(p) - 1 + Batch(p, max));
  }

  /** How many rounds may still be needed. */
  function RoundsLeft(p: Pair): int {
    if Agrees(p) then Last(p) + 1 - NextIndex(p) else NextIndex(p) + Last(p)
  }

  lemma RoundProgress(p: Pair, max: nat)
    requires CanStart(p) && !CaughtUp(p) && max >= 1
    ensures var p' := Round(p, max);
            CanStart(p') && p'.leader.log == p.leader.log && 0 <= RoundsLeft(p') < RoundsLeft(p)
  {
    if Agrees(p) { AcceptedRound(p, max); } else { ConflictRound(p, max); }
  }

  function Rounds(p: Pair, max: nat, n: nat): Pair
    decreases n
  {
    if n == 0 then p else Rounds(Round(p, max), max, n - 1)
  }

  /** From any start within range, and for any request size of at least one entry, rounds reach
      `CaughtUp`, in at most as many rounds as the next index and the leader's log are long; then the
      leader's log is a prefix of the follower's, whatever the follower had. */
  lemma {:induction false} CatchesUp(p: Pair, max: nat) returns (rounds: nat, end: Pair)
    requires CanStart(p) && max >= 1
    ensures end == Rounds(p, max, rounds) && CaughtUp(end) && CanStart(end)
    ensures end.leader.log == p.leader.log && Full(p.leader.log) <= Full(end.follower.log)
    ensures rounds <= RoundsLeft(p)
    decreases RoundsLeft(p)
  {
    if CaughtUp(p) {
      AgreeingPrefix(p);
      rounds, end := 0, p;
    } else {
      RoundProgress(p, max);
      rounds, end := CatchesUp(Round(p, max), max);
      rounds := rounds + 1;
    }
  }

  // ---------------------------------------------------------------- what catching up brings

  /** One more round after catching up carries the commit index over: the follower has committed what the
      leader had, entry by entry the same. */
  lemma CommitCatchesUp(p: Pair, max: nat)
    requires CanStart(p) && CaughtUp(p) && p.leader.state.commitIndex <= Last(p)
    ensures var commit, f := p.leader.state.commitIndex, Round(p, max).follower;
            && f.state.commitIndex ==
                 (if commit > p.follower.state.commitIndex then commit else p.follower.state.commitIndex)
            && f.log == p.follower.log && Full(p.leader.log)[..commit] == Full(f.log)[..commit]
  {
    var commit := p.leader.state.commitIndex;
    SentEntries(p, max);
    AgreeingPrefix(p);
    assert AppendFor(p.leader, p.follower.id, max).entries == [];
    assert Full(p.leader.log)[..Last(p)][..commit] == Full(p.leader.log)[..commit];
    assert Full(p.follower.log)[..Last(p)][..commit] == Full(p.follower.log)[..commit];
  }

  /** What is proposed to a leader is in the follower's log after catching up, at the index the leader
      gave it and with its term, data and type. */
  lemma ProposalArrives(leader: Node, follower: Node, data: Bytes, entryType: EntryType, max: nat)
    returns (rounds: nat, end: Pair)
    requires Sound(leader.log) && leader.state.role == Leader && max >= 1
    requires CanStart(Pair(OnPropose(leader, data, entryType), follower))
    ensures end == Rounds(Pair(OnPropose(leader, data, entryType), follower), max, rounds) && CaughtUp(end)
    ensures var i := leader.log.lastIndex;
            i < |Full(end.follower.log)|
            && Full(end.follower.log)[i] == LogEntry(i + 1, leader.state.term, data, entryType)
  {
    var n := OnPropose(leader, data, entryType);
    ProposalAppended(leader, data, entryType);
    rounds, end := CatchesUp(Pair(n, follower), max);
    assert Full(n.log)[leader.log.lastIndex] == LogEntry(leader.log.lastIndex + 1, leader.state.term, data, entryType);
  }
}
