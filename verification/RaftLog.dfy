/** The Raft log kept in a tree (src/raft/log.rs). */
module RaftLogs {
  import opened ByteStrings

  datatype EntryType = Normal | ConfigChange | SnapshotEntry

  datatype LogEntry = LogEntry(index: nat, term: nat, data: Bytes, entryType: EntryType)

  type Cells = map<nat, LogEntry>

  /** The tree on disk: one cell per entry, and the metadata cells. */
  datatype LogTree = LogTree(entries: Cells, lastIndex: Option<nat>, lastTerm: Option<nat>,
                             snapshotIndex: Option<nat>, snapshotTerm: Option<nat>)

  const EMPTY_TREE := LogTree(map[], None, None, None, None)

  function OrElse(o: Option<nat>, default: nat): nat {
    match o
    case None => default
    case Some(n) => n
  }

  /** The entry cells `lo` up to `hi` removed one by one. */
  function WithoutCells(cells: Cells, lo: nat, hi: nat): Cells {
    map i | i in cells && !(lo <= i < hi) :: cells[i]
  }

  function WithEntries(cells: Cells, entries: seq<LogEntry>): Cells {
    if entries == [] then cells
    else WithEntries(cells, entries[..|entries| - 1])[entries[|entries| - 1].index := entries[|entries| - 1]]
  }

  /** The object as a value: the tree and the cached fields. Every operation is total. */
  datatype LogState =
    LogState(db: LogTree, firstIndex: nat, lastIndex: nat, lastTerm: nat, snapshotIndex: nat, snapshotTerm: nat) {
    function Get(i: nat): Option<LogEntry> {
      if i >= firstIndex && i in db.entries then Some(db.entries[i]) else None
    }

    /** The entries found at indices `lo` up to `hi`. */
    function Found(lo: nat, hi: nat): seq<LogEntry>
      decreases hi
    {
      if lo >= hi then []
      else Found(lo, hi - 1) + match Get(hi - 1) case Some(e) => [e] case None => []
    }

    function Range(start: nat, end: nat): seq<LogEntry> {
      if start > lastIndex || end < firstIndex then []
      else Found(if start < firstIndex then firstIndex else start, if end < lastIndex + 1 then end else lastIndex + 1)
    }

    function TermAt(i: nat): Option<nat> {
      if i == 0 then Some(0)
      else if i < firstIndex then Some(snapshotTerm)
      else match Get(i)
        case Some(e) => Some(e.term)
        case None => None
    }

    predicate HasEntry(i: nat, term: nat) {
      TermAt(i) == Some(term)
    }

    function Appended(entries: seq<LogEntry>): LogState {
      if entries == [] then this
      else
        var last := entries[|entries| - 1];
        this.(db := db.(entries := WithEntries(db.entries, entries),
                        lastIndex := Some(last.index), lastTerm := Some(last.term)),
              lastIndex := last.index, lastTerm := last.term)
    }

    /** The last term, cached and on disk, follows only if the new last entry can still be read. */
    function TruncatedAfter(i: nat): LogState {
      if i >= lastIndex then this
      else
        var cells := WithoutCells(db.entries, i + 1, lastIndex + 1);
        var term := if i >= firstIndex && i in cells then Some(cells[i].term) else None;
        this.(db := db.(entries := cells, lastIndex := Some(i), lastTerm := if term.Some? then term else db.lastTerm),
              lastIndex := i, lastTerm := OrElse(term, lastTerm))
    }

    function TruncatedBefore(i: nat): LogState {
      if i <= firstIndex then this
      else this.(db := db.(entries := WithoutCells(db.entries, firstIndex, i)), firstIndex := i)
    }

    function SnapshotSaved(i: nat, term: nat): LogState {
      this.(db := db.(snapshotIndex := Some(i), snapshotTerm := Some(term)),
            firstIndex := i + 1, snapshotIndex := i, snapshotTerm := term)
    }

    /** A snapshot saved, and the log then cut before its end. */
    function Compacted(i: nat, term: nat): LogState {
      SnapshotSaved(i, term).TruncatedBefore(i + 1)
    }
  }

  /** Opening a log on a tree. */
  function Recovered(tree: LogTree): LogState {
    var last := OrElse(tree.lastIndex, 0);
    LogState(tree, if tree.snapshotIndex.Some? then tree.snapshotIndex.value + 1 else 1, last,
             if tree.lastIndex.Some? && last in tree.entries then tree.entries[last].term else 0,
             OrElse(tree.snapshotIndex, 0), OrElse(tree.snapshotTerm, 0))
  }

  // ---------------------------------------------------------------- the log a state stands for

  /** Entries numbered consecutively from `start`. */
  ghost predicate Numbered(entries: seq<LogEntry>, start: nat) {
    forall k :: 0 <= k < |entries| ==> entries[k].index == start + k
  }

  /** The cells 1 up to the last index, as a sequence. */
  function Full(s: LogState): (r: seq<LogEntry>)
    ensures |r| == s.lastIndex
    ensures forall k :: 0 <= k < |r| && k + 1 in s.db.entries ==> r[k] == s.db.entries[k + 1]
  {
    seq(s.lastIndex, k requires 0 <= k < s.lastIndex =>
      if k + 1 in s.db.entries then s.db.entries[k + 1] else LogEntry(k + 1, 0, [], Normal))
  }

  /** The term of the entry at an index; 0 where there is none. */
  function TrueTerm(full: seq<LogEntry>, i: nat): nat {
    if 0 < i <= |full| then full[i - 1].term else 0
  }

  /** The tree holds the entries 1 up to the last index, those covered by the snapshot included, and the
      fields agree with each other and with the tree. The cached last term is left out: see `Settled`. */
  ghost predicate Sound(s: LogState) {
    && (forall i :: i in s.db.entries <==> 1 <= i <= s.lastIndex)
    && (forall i :: i in s.db.entries ==> s.db.entries[i].index == i)
    && s.snapshotIndex <= s.lastIndex && s.firstIndex == s.snapshotIndex + 1
    && s.snapshotTerm == TrueTerm(Full(s), s.snapshotIndex)
    && OrElse(s.db.lastIndex, 0) == s.lastIndex
    && OrElse(s.db.snapshotIndex, 0) == s.snapshotIndex && OrElse(s.db.snapshotTerm, 0) == s.snapshotTerm
  }

  ghost predicate Settled(s: LogState) {
    Sound(s) && s.lastTerm == TrueTerm(Full(s), s.lastIndex)
  }

  lemma SoundNumbered(s: LogState)
    requires Sound(s)
    ensures Numbered(Full(s), 1)
  {
    forall k | 0 <= k < s.lastIndex ensures Full(s)[k].index == 1 + k {
      assert k + 1 in s.db.entries;
    }
  }

  // ---------------------------------------------------------------- reads

  /** Point reads: exactly the entries above the snapshot can be read, and the reported term is right at
      and above it; below, it is the snapshot's. */
  lemma PointReads(s: LogState, i: nat)
    requires Sound(s)
    ensures s.Get(i) == if s.snapshotIndex < i <= s.lastIndex then Some(Full(s)[i - 1]) else None
    ensures s.TermAt(i) == if i > s.lastIndex then None
                           else Some(TrueTerm(Full(s), if 0 < i < s.snapshotIndex then s.snapshotIndex else i))
  {
    if 1 <= i <= s.lastIndex { assert i in s.db.entries; }
  }

  lemma {:induction false} FoundIsSlice(s: LogState, lo: nat, hi: nat)
    requires Sound(s) && s.snapshotIndex < lo <= hi <= s.lastIndex + 1
    ensures s.Found(lo, hi) == Full(s)[lo - 1..hi - 1]
    decreases hi
  {
    if lo < hi {
      FoundIsSlice(s, lo, hi - 1);
      PointReads(s, hi - 1);
      assert Full(s)[lo - 1..hi - 1] == Full(s)[lo - 1..hi - 2] + [Full(s)[hi - 2]];
    }
  }

  function RangeStart(s: LogState, start: nat): nat {
    if start <= s.snapshotIndex then s.snapshotIndex + 1 else start
  }

  function RangeEnd(s: LogState, end: nat): nat {
    if end <= s.lastIndex then end else s.lastIndex + 1
  }

  lemma RangeIsFound(s: LogState, start: nat, end: nat)
    requires s.firstIndex == s.snapshotIndex + 1
    ensures s.Range(start, end) == s.Found(RangeStart(s, start), RangeEnd(s, end))
  {
  }

  /** Range reads: the slice of the readable entries within the bounds. */
  lemma RangeIsSlice(s: LogState, start: nat, end: nat)
    requires Sound(s)
    ensures var lo, hi := RangeStart(s, start), RangeEnd(s, end);
            s.Range(start, end) == if lo < hi then Full(s)[lo - 1..hi - 1] else []
  {
    RangeIsFound(s, start, end);
    if RangeStart(s, start) < RangeEnd(s, end) {
      FoundIsSlice(s, RangeStart(s, start), RangeEnd(s, end));
    }
  }

  // ---------------------------------------------------------------- writes

  lemma {:induction false} WithEntriesAt(cells: Cells, entries: seq<LogEntry>, start: nat, i: nat)
    requires Numbered(entries, start)
    ensures i in WithEntries(cells, entries) <==> i in cells || start <= i < start + |entries|
    ensures i in WithEntries(cells, entries) ==>
      WithEntries(cells, entries)[i] == if start <= i < start + |entries| then entries[i - start] else cells[i]
  {
    if entries != [] {
      WithEntriesAt(cells, entries[..|entries| - 1], start, i);
    }
  }

  /** Appending contiguous entries adds them at the end, and settles the last term. */
  lemma AppendRefines(s: LogState, entries: seq<LogEntry>)
    requires Sound(s) && Numbered(entries, s.lastIndex + 1)
    ensures Sound(s.Appended(entries)) && Full(s.Appended(entries)) == Full(s) + entries
    ensures entries != [] || Settled(s) ==> Settled(s.Appended(entries))
  {
    var s', start := s.Appended(entries), s.lastIndex + 1;
    if entries != [] {
      forall i { WithEntriesAt(s.db.entries, entries, start, i); }
      assert s'.lastIndex == s.lastIndex + |entries|;
      forall k | 0 <= k < s'.lastIndex ensures Full(s')[k] == (Full(s) + entries)[k] {
        assert k + 1 in s'.db.entries;
      }
      assert Full(s') == Full(s) + entries;
    }
  }

  /** Truncating at or above the snapshot keeps the entries up to the index. The cached last term stays
      behind when everything readable is gone: it is right then exactly if the entry at the index has
      the term the last entry had. */
  lemma TruncateRefines(s: LogState, i: nat)
    requires Sound(s) && s.snapshotIndex <= i <= s.lastIndex
    ensures Sound(s.TruncatedAfter(i)) && Full(s.TruncatedAfter(i)) == Full(s)[..i]
    ensures i == s.snapshotIndex ==> s.TruncatedAfter(i).lastTerm == s.lastTerm
    ensures Settled(s) ==>
      (Settled(s.TruncatedAfter(i)) <==> i > s.snapshotIndex || s.lastTerm == TrueTerm(Full(s), i))
  {
    var s' := s.TruncatedAfter(i);
    forall k | 0 <= k < i ensures Full(s')[k] == Full(s)[k] {
      assert k + 1 in s.db.entries && k + 1 in s'.db.entries;
    }
    assert Full(s') == Full(s)[..i];
  }

  /** A log of one entry, truncated to nothing: the last term is still the entry's. */
  lemma TruncateLeavesStale(e: LogEntry)
    requires e.index == 1 && e.term > 0
    ensures var s := Recovered(EMPTY_TREE).Appended([e]);
            Settled(s) && Sound(s.TruncatedAfter(0)) && s.TruncatedAfter(0).lastTerm == e.term
            && !Settled(s.TruncatedAfter(0))
  {
    assert Full(Recovered(EMPTY_TREE)) == [] && Settled(Recovered(EMPTY_TREE));
    AppendRefines(Recovered(EMPTY_TREE), [e]);
    TruncateRefines(Recovered(EMPTY_TREE).Appended([e]), 0);
  }

  /** Saving a snapshot moves the first index before the log is cut, so nothing is cut: whatever the
      log, no entry cell is freed. */
  lemma SnapshotFreesNothing(s: LogState, i: nat, term: nat)
    ensures s.Compacted(i, term) == s.SnapshotSaved(i, term)
    ensures s.Compacted(i, term).db.entries == s.db.entries
  {
  }

  /** A snapshot of a live index under that entry's own term keeps the log and moves the mark. */
  lemma SnapshotRefines(s: LogState, i: nat)
    requires Sound(s) && s.snapshotIndex <= i <= s.lastIndex
    ensures var s' := s.Compacted(i, OrElse(s.TermAt(i), 0));
            && Sound(s') && Full(s') == Full(s) && s'.snapshotIndex == i && (Settled(s) ==> Settled(s'))
  {
    PointReads(s, i);
    assert Full(s.Compacted(i, OrElse(s.TermAt(i), 0))) == Full(s);
  }

  /** Recovery finds the same log on the tree, and the right last term even where it was stale. */
  lemma RecoverRefines(s: LogState)
    requires Sound(s)
    ensures var s' := Recovered(s.db); Settled(s') && Full(s') == Full(s) && s'.snapshotIndex == s.snapshotIndex
  {
    var s' := Recovered(s.db);
    assert Full(s') == Full(s);
    if s.lastIndex > 0 { assert s.lastIndex in s.db.entries; }
  }

  // ---------------------------------------------------------------- runs

  /** What the node does to its log: append at the end, replace everything after an index, save a
      snapshot, and restart. */
  datatype LogOp = AppendOp(entries: seq<LogEntry>) | ReplaceOp(after: nat, entries: seq<LogEntry>)
                 | SnapshotOp(index: nat) | RestartOp

  ghost predicate LogOpOk(s: LogState, op: LogOp) {
    match op
    case AppendOp(entries) => Numbered(entries, s.lastIndex + 1)
    case ReplaceOp(after, entries) =>
      s.snapshotIndex <= after <= s.lastIndex && entries != [] && Numbered(entries, after + 1)
    case SnapshotOp(index) => s.snapshotIndex <= index <= s.lastIndex
    case RestartOp => true
  }

  function StepLog(s: LogState, op: LogOp): LogState {
    match op
    case AppendOp(entries) => s.Appended(entries)
    case ReplaceOp(after, entries) => s.TruncatedAfter(after).Appended(entries)
    case SnapshotOp(index) => s.Compacted(index, OrElse(s.TermAt(index), 0))
    case RestartOp => Recovered(s.db)
  }

  function RunLog(s: LogState, ops: seq<LogOp>): LogState {
    if ops == [] then s else StepLog(RunLog(s, ops[..|ops| - 1]), ops[|ops| - 1])
  }

  ghost predicate LogRunnable(s: LogState, ops: seq<LogOp>) {
    ops == [] || (LogRunnable(s, ops[..|ops| - 1]) && LogOpOk(RunLog(s, ops[..|ops| - 1]), ops[|ops| - 1]))
  }

  /** The reference: the entries appended and not replaced. It knows nothing of snapshots, restarts,
      cells or cached fields. */
  function Kept(ops: seq<LogOp>): seq<LogEntry> {
    if ops == [] then []
    else
      var before := Kept(ops[..|ops| - 1]);
      match ops[|ops| - 1]
      case AppendOp(entries) => before + entries
      case ReplaceOp(after, entries) => (if after <= |before| then before[..after] else before) + entries
      case _ => before
  }

  function LastMark(ops: seq<LogOp>): nat {
    if ops == [] then 0
    else match ops[|ops| - 1]
      case SnapshotOp(index) => index
      case _ => LastMark(ops[..|ops| - 1])
  }

  lemma {:induction false} LogRunSettled(ops: seq<LogOp>)
    requires LogRunnable(Recovered(EMPTY_TREE), ops)
    ensures var s := RunLog(Recovered(EMPTY_TREE), ops);
            Settled(s) && Full(s) == Kept(ops) && s.snapshotIndex == LastMark(ops)
  {
    if ops != [] {
      var before := ops[..|ops| - 1];
      LogRunSettled(before);
      var s := RunLog(Recovered(EMPTY_TREE), before);
      match ops[|ops| - 1]
      case AppendOp(entries) => AppendRefines(s, entries);
      case ReplaceOp(after, entries) =>
        TruncateRefines(s, after);
        AppendRefines(s.TruncatedAfter(after), entries);
      case SnapshotOp(index) => SnapshotRefines(s, index);
      case RestartOp => RecoverRefines(s);
    } else {
      assert Full(Recovered(EMPTY_TREE)) == [];
    }
  }

  /** What a log answers that holds the entries `full` with a snapshot up to `mark`: entries above the
      mark, terms at and above it, slices, last index and last term. */
  ghost predicate ReadsAs(s: LogState, full: seq<LogEntry>, mark: nat) {
    && mark <= |full| == s.lastIndex && s.lastTerm == TrueTerm(full, |full|)
    && (forall i :: i > mark ==> s.Get(i) == if i <= |full| then Some(full[i - 1]) else None)
    && (forall i :: mark <= i <= |full| ==> s.TermAt(i) == Some(TrueTerm(full, i)))
    && (forall i :: i > |full| ==> s.TermAt(i) == None)
    && (forall lo, hi :: mark < lo <= hi <= |full| + 1 ==> SliceRead(s, full, lo, hi))
  }

  ghost predicate SliceRead(s: LogState, full: seq<LogEntry>, lo: nat, hi: nat)
    requires 1 <= lo <= hi <= |full| + 1
  {
    s.Range(lo, hi) == full[lo - 1..hi - 1]
  }

  lemma SliceReads(s: LogState, lo: nat, hi: nat)
    requires Sound(s) && s.snapshotIndex < lo <= hi <= s.lastIndex + 1
    ensures SliceRead(s, Full(s), lo, hi)
  {
    RangeIsSlice(s, lo, hi);
  }

  lemma SettledReads(s: LogState)
    requires Settled(s)
    ensures ReadsAs(s, Full(s), s.snapshotIndex)
  {
    forall i: nat { PointReads(s, i); }
    forall lo: nat, hi: nat | s.snapshotIndex < lo <= hi <= s.lastIndex + 1
      ensures SliceRead(s, Full(s), lo, hi)
    {
      SliceReads(s, lo, hi);
    }
  }

  /** Every run on an empty tree, restarts and snapshots included, reads as the plain sequence of kept
      entries from the last snapshot on. */
  lemma LogRunRefines(ops: seq<LogOp>)
    requires LogRunnable(Recovered(EMPTY_TREE), ops)
    ensures ReadsAs(RunLog(Recovered(EMPTY_TREE), ops), Kept(ops), LastMark(ops))
  {
    LogRunSettled(ops);
    SettledReads(RunLog(Recovered(EMPTY_TREE), ops));
  }

  // ---------------------------------------------------------------- the object

  class RaftLog {
    var db: LogTree
    var firstIndex: nat
    var lastIndex: nat
    var lastTerm: nat
    var snapshotIndex: nat
    var snapshotTerm: nat
    var snapshotData: Option<Bytes>

    function State(): LogState
      reads this
    {
      LogState(db, firstIndex, lastIndex, lastTerm, snapshotIndex, snapshotTerm)
    }

    /** Opens a log on a tree and recovers it. */
    constructor (tree: LogTree)
      ensures State() == Recovered(tree) && snapshotData == None
    {
      db := tree;
      firstIndex, lastIndex, lastTerm, snapshotIndex, snapshotTerm := 1, 0, 0, 0, 0;
      snapshotData := None;
      new;
      if tree.snapshotIndex.Some? {
        snapshotIndex := tree.snapshotIndex.value;
        firstIndex := snapshotIndex + 1;
      }
      if tree.snapshotTerm.Some? {
        snapshotTerm := tree.snapshotTerm.value;
      }
      if tree.lastIndex.Some? {
        lastIndex := tree.lastIndex.value;
        if lastIndex in tree.entries {
          lastTerm := tree.entries[lastIndex].term;
        }
      }
    }

    method Append(entries: seq<LogEntry>)
      modifies this
      ensures State() == old(State()).Appended(entries) && snapshotData == old(snapshotData)
    {
      if entries == [] { return; }
      var batch := BatchOf(entries);
      var last := entries[|entries| - 1];
      db := db.(entries := batch, lastIndex := Some(last.index), lastTerm := Some(last.term));
      lastIndex, lastTerm := last.index, last.term;
    }

    /** The loop of `append`: the entry cells with the new ones put over them. */
    method BatchOf(entries: seq<LogEntry>) returns (cells: Cells)
      ensures cells == WithEntries(db.entries, entries)
    {
      cells := db.entries;
      for j := 0 to |entries|
        invariant cells == WithEntries(db.entries, entries[..j])
      {
        assert entries[..j + 1][..j] == entries[..j];
        cells := cells[entries[j].index := entries[j]];
      }
      assert entries[..|entries|] == entries;
    }

    method Get(index: nat) returns (r: Option<LogEntry>)
      ensures r == State().Get(index)
    {
      if index < firstIndex { return None; }
      r := if index in db.entries then Some(db.entries[index]) else None;
    }

    method GetRange(start: nat, end: nat) returns (entries: seq<LogEntry>)
      ensures entries == State().Range(start, end)
    {
      if start > lastIndex || end < firstIndex { return []; }
      var actualStart := if start < firstIndex then firstIndex else start;
      var actualEnd := if end < lastIndex + 1 then end else lastIndex + 1;
      entries := [];
      for index := actualStart to if actualStart < actualEnd then actualEnd else actualStart
        invariant entries == State().Found(actualStart, index)
      {
        var entry := Get(index);
        match entry {
          case Some(e) => entries := entries + [e];
          case None =>
        }
      }
    }

    method TruncateAfter(index: nat)
      modifies this
      ensures State() == old(State()).TruncatedAfter(index) && snapshotData == old(snapshotData)
    {
      if index >= lastIndex { return; }
      RemoveCells(index + 1, lastIndex + 1);
      var entry := Get(index);
      db := db.(lastIndex := Some(index));
      match entry {
        case Some(e) =>
          db := db.(lastTerm := Some(e.term));
          lastTerm := e.term;
        case None =>
      }
      lastIndex := index;
    }

    method TruncateBefore(index: nat)
      modifies this`db, this`firstIndex
      ensures State() == old(State()).TruncatedBefore(index)
    {
      if index <= firstIndex { return; }
      RemoveCells(firstIndex, index);
      firstIndex := index;
    }

    /** The deletion loop of both truncations. */
    method RemoveCells(lo: nat, hi: nat)
      modifies this`db
      ensures db == old(db).(entries := WithoutCells(old(db).entries, lo, hi))
    {
      assert WithoutCells(db.entries, lo, lo) == db.entries;
      for i := lo to if lo <= hi then hi else lo
        invariant db == old(db).(entries := WithoutCells(old(db).entries, lo, i))
      {
        assert WithoutCells(old(db).entries, lo, i + 1) == WithoutCells(old(db).entries, lo, i) - {i};
        db := db.(entries := db.entries - {i});
      }
      if hi < lo { assert WithoutCells(old(db).entries, lo, hi) == WithoutCells(old(db).entries, lo, lo); }
    }

    method TermAt(index: nat) returns (r: Option<nat>)
      ensures r == State().TermAt(index)
    {
      if index == 0 { return Some(0); }
      if index < firstIndex { return Some(snapshotTerm); }
      var entry := Get(index);
      match entry {
        case Some(e) => r := Some(e.term);
        case None => r := None;
      }
    }

    method HasEntry(index: nat, term: nat) returns (r: bool)
      ensures r <==> State().HasEntry(index, term)
    {
      var t := TermAt(index);
      match t {
        case Some(found) => r := found == term;
        case None => r := false;
      }
    }

    method SaveSnapshot(index: nat, term: nat)
      modifies this
      ensures State() == old(State()).SnapshotSaved(index, term) && snapshotData == old(snapshotData)
    {
      db := db.(snapshotIndex := Some(index), snapshotTerm := Some(term));
      snapshotIndex, snapshotTerm, firstIndex := index, term, index + 1;
    }

    method SaveSnapshotWithData(index: nat, term: nat, data: Bytes)
      modifies this
      ensures State() == old(State()).SnapshotSaved(index, term) && snapshotData == Some(data)
    {
      SaveSnapshot(index, term);
      snapshotData := Some(data);
    }
  }
}
