/** What a caller sees of its writes: the record a put leaves and reports, what a delete reports, and the
    point a compaction records (src/storage/mvcc.rs). */
module Writings {
  import opened ByteStrings
  import opened KeyValues
  import opened KeyIndexing
  import opened Stores
  import opened Histories
  import opened Reads

  // ---------------------------------------------------------------- puts

  /** The record a put of `key` makes: created now or inherited, one version up, with the value and the
      lease of the put. A record compaction has hidden is inherited from too. */
  function NewRecord(h: History, key: Bytes, value: Bytes, lease: i64): KeyValue
    requires |h.states| <= MAX_I64 && HistoryOk(h)
  {
    RecordsOk(h, |h.states| - 1);
    if key in Latest(h)
    then KeyValue(key, Latest(h)[key].createRevision, |h.states|, Latest(h)[key].version + 1, value, lease)
    else KeyValue(key, |h.states|, |h.states|, 1, value, lease)
  }

  lemma WrittenIsNew(s: Store, h: History, key: Bytes, value: Bytes, lease: i64)
    requires HistoryOk(h) && |h.states| == s.current + 1 <= MAX_I64 && s.kv == Latest(h)
    ensures Written(s, key, value, lease) == NewRecord(h, key, value, lease)
  {
    RecordsOk(h, s.current);
  }

  /** A put is read back: right after it the key has exactly that record, and every other key the one it
      had, at the new revision as at the current one. */
  lemma PutIsRead(s: Store, h: History, key: Bytes, value: Bytes, lease: i64, revision: i64, k: Bytes)
    requires Related(s, h) && s.current < MAX_I64 && |key| < TWO_32 && |value| < TWO_32
    requires revision <= 0 || revision > s.current
    ensures var s', kv := AfterPut(s, key, value, lease), NewRecord(h, key, value, lease);
      && RangeOf(s', key, key + [0], revision, 0, false) == Done(RangeResult([kv], false, 1))
      && (k != key ==> RangeOf(s', k, k + [0], revision, 0, false) == RangeOf(s, k, k + [0], 0, 0, false))
  {
    var s', h' := AfterPut(s, key, value, lease), PutHistory(h, key, value, lease);
    PutRefines(s, h, key, value, lease);
    LatestAfterPut(h, key, value, lease);
    KeyRead(s', h', key, revision);
    if k != key { OtherKeyRead(s, h, s', h', k, revision); }
  }

  lemma LatestAfterPut(h: History, key: Bytes, value: Bytes, lease: i64)
    requires HistoryOk(h) && |h.states| <= MAX_I64
    ensures var h' := PutHistory(h, key, value, lease);
      |h'.states| == |h.states| + 1 && h'.mark == h.mark && h.mark <= |h.states|
      && Latest(h') == Latest(h)[key := NewRecord(h, key, value, lease)]
  {
    RecordsOk(h, |h.states| - 1);
  }

  /** A key that has the same record in two stores reads the same. */
  lemma OtherKeyRead(s: Store, h: History, s': Store, h': History, k: Bytes, revision: i64)
    requires Related(s, h) && Related(s', h') && h.mark == h'.mark && (revision <= 0 || revision >= s'.current)
    requires (k in Latest(h') <==> k in Latest(h)) && (k in Latest(h) ==> Latest(h')[k] == Latest(h)[k])
    ensures RangeOf(s', k, k + [0], revision, 0, false) == RangeOf(s, k, k + [0], 0, 0, false)
  {
    KeyRead(s, h, k, 0);
    KeyRead(s', h', k, revision);
  }

  /** A read of one key now. */
  lemma KeyRead(s: Store, h: History, k: Bytes, revision: i64)
    requires Related(s, h) && (revision <= 0 || revision >= s.current)
    ensures var state := h.states[s.current];
      RangeOf(s, k, k + [0], revision, 0, false) ==
        if k in state && Shows(h, state[k])
        then Done(RangeResult([state[k]], false, 1)) else Done(RangeResult([], false, 0))
  {
    RangeIsReference(s, h, k, k + [0], revision, 0, false);
    SingleKeyBounds(k);
    SingleKeyScan(VisibleAt(h, s.current), k);
    assert ReadRevision(h, revision) == s.current;
    FullRead(h, k, k + [0], revision);
  }

  /** The previous record a put reports is what was last written, in all its fields; a put just before is
      reported as it was made, and puts of other keys do not show in it. */
  lemma PreviousIsLast(s: Store, h: History, key: Bytes, value: Bytes, lease: i64, k: Bytes)
    requires Related(s, h) && s.current < MAX_I64 && |key| < TWO_32 && |value| < TWO_32
    ensures Previous(s, key) == if key in Latest(h) then Some(Latest(h)[key]) else None
    ensures Previous(AfterPut(s, key, value, lease), key) == Some(NewRecord(h, key, value, lease))
    ensures k != key ==> Previous(AfterPut(s, key, value, lease), k) == Previous(s, k)
  {
    RecordsOk(h, s.current);
  }

  /** It need not be what a read shows: exactly a record that compaction has hidden is reported by a put
      and found by no read. */
  lemma PreviousIsReadExactly(s: Store, h: History, key: Bytes)
    requires Related(s, h)
    ensures RangeOf(s, key, key + [0], 0, 0, false) ==
        Done(RangeResult(if Previous(s, key).Some? then [Previous(s, key).value] else [], false,
                         if Previous(s, key).Some? then 1 else 0))
      <==> (key in Latest(h) ==> Latest(h)[key].modRevision >= h.mark)
  {
    KeyRead(s, h, key, 0);
  }

  // ---------------------------------------------------------------- deletes

  /** A range delete reports exactly the records a read of the same bounds shows, in the same order, and
      afterwards that read shows none. */
  lemma DeleteReportsRead(s: Store, h: History, start: Bytes, end: Bytes)
    requires Related(s, h) && s.current < MAX_I64 && !PanickingBounds(start, end)
    ensures var kvs, s' := DeletedKvs(s, start, end), AfterDelete(s, start, end);
      && RangeOf(s, start, end, 0, 0, false) == Done(RangeResult(kvs, false, |kvs|))
      && RangeOf(s', start, end, 0, 0, false) == Done(RangeResult([], false, 0))
      && s'.current == s.current + 1
  {
    DeletedAreVisible(s, h, start, end);
    FullCurrentRead(s, h, start, end);
    EmptiedRead(s, h, start, end);
  }

  lemma DeletedAreVisible(s: Store, h: History, start: Bytes, end: Bytes)
    requires Related(s, h) && s.current < MAX_I64
    ensures DeletedKvs(s, start, end) == Scan(VisibleAt(h, s.current), start, end)
  {
    var visible := VisibleAt(h, s.current);
    VictimsAre(s, h, start, end);
    assert Victims(s, start, end) == set k | k in visible && InBounds(k, start, end);
    SameRecords(s.kv, visible, NamesIn(visible, start, end));
  }

  lemma SameRecords(kv: Kv, part: Kv, keys: seq<Bytes>)
    requires forall k :: k in keys ==> k in kv && k in part && kv[k] == part[k]
    ensures KvsOf(kv, keys) == KvsOf(part, keys)
  {
  }

  lemma EmptiedRead(s: Store, h: History, start: Bytes, end: Bytes)
    requires Related(s, h) && s.current < MAX_I64 && !PanickingBounds(start, end)
    ensures RangeOf(AfterDelete(s, start, end), start, end, 0, 0, false) == Done(RangeResult([], false, 0))
  {
    var s', h' := AfterDelete(s, start, end), DeleteHistory(h, start, end);
    DeleteRefines(s, h, start, end);
    FullCurrentRead(s', h', start, end);
    assert NamesIn(VisibleAt(h', s'.current), start, end) == [];
  }

  // ---------------------------------------------------------------- the recorded compaction point

  /** Operation `i` of a run is a compaction that was accepted. */
  predicate AcceptedAt(ops: seq<Op>, i: nat)
    requires i < |ops|
  {
    ops[i].Compact? && ops[i].at <= Run(EMPTY, ops[..i]).current
  }

  predicate NoneAccepted(ops: seq<Op>, from: nat) {
    forall i :: from <= i < |ops| ==> !AcceptedAt(ops, i)
  }

  /** Operation `i` is the last one accepted, and `point` is its point. */
  predicate LastAccepted(ops: seq<Op>, i: nat, point: i64) {
    i < |ops| && AcceptedAt(ops, i) && ops[i].at == point && NoneAccepted(ops, i + 1)
  }

  lemma AcceptedMore(before: seq<Op>, op: Op)
    ensures forall i: nat :: i < |before| ==> AcceptedAt(before + [op], i) == AcceptedAt(before, i)
  {
    forall i: nat | i < |before| ensures AcceptedAt(before + [op], i) == AcceptedAt(before, i) {
      assert (before + [op])[..i] == before[..i];
    }
  }

  lemma CompactedMore(before: seq<Op>, op: Op)
    ensures var ops := before + [op];
      Run(EMPTY, ops).compacted == if AcceptedAt(ops, |before|) then op.at else Run(EMPTY, before).compacted
  {
    assert (before + [op])[..|before|] == before;
  }

  lemma LastAcceptedMore(before: seq<Op>, op: Op, i: nat, point: i64)
    requires !AcceptedAt(before + [op], |before|)
    ensures LastAccepted(before, i, point) ==> LastAccepted(before + [op], i, point)
    ensures NoneAccepted(before, 0) ==> NoneAccepted(before + [op], 0)
  {
    AcceptedMore(before, op);
  }

  /** A store records the point of the last accepted compaction, 0 before there is one. (A later one may
      be lower: the recorded point is not the mark reads depend on.) */
  lemma {:induction false} LastPointRecorded(ops: seq<Op>)
    ensures (Run(EMPTY, ops).compacted == 0 && NoneAccepted(ops, 0))
      || exists i :: LastAccepted(ops, i, Run(EMPTY, ops).compacted)
  {
    if ops != [] {
      var n := |ops| - 1;
      var before, op := ops[..n], ops[n];
      assert ops == before + [op];
      LastPointRecorded(before);
      CompactedMore(before, op);
      if AcceptedAt(ops, n) {
        assert LastAccepted(ops, n, op.at);
      } else if NoneAccepted(before, 0) && Run(EMPTY, before).compacted == 0 {
        LastAcceptedMore(before, op, 0, 0);
      } else {
        var i :| LastAccepted(before, i, Run(EMPTY, before).compacted);
        LastAcceptedMore(before, op, i, Run(EMPTY, before).compacted);
      }
    }
  }

  /** The recorded point can fall below the mark: two puts, then compactions at their revisions, the later
      one first. */
  lemma RecordedBelowMark(key: Bytes, value: Bytes)
    requires |key| < TWO_32 && |value| < TWO_32
    ensures var ops := [Put(key, value, 0), Put(key, value, 0), Compact(3), Compact(2)];
      Run(EMPTY, ops).compacted == 2 && HighMark(EMPTY, ops) == 3
  {
    var ops := [Put(key, value, 0), Put(key, value, 0), Compact(3), Compact(2)];
    assert ops[..3][..2] == ops[..2] && ops[..2][..1] == ops[..1] && ops[..1][..0] == [];
    assert Run(EMPTY, ops[..1]).current == 2;
    assert Run(EMPTY, ops[..2]).current == 3;
    assert HighMark(EMPTY, ops[..1]) == 0;
    assert HighMark(EMPTY, ops[..2]) == 0;
    assert HighMark(EMPTY, ops[..3]) == 3;
    assert Run(EMPTY, ops[..3]).current == 3;
  }
}
