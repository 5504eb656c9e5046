/** Runs that go on after a restore: what a follower does that was brought up by a snapshot. */
module ContinuedRuns {
  import opened ByteStrings
  import opened KeyValues
  import opened KeyIndexing
  import opened Stores
  import opened Histories
  import opened Reads
  import opened Replay
  import opened RestoredStores

  // ---------------------------------------------------------------- what a restore leaves

  /** The history of a store after a restore: as before, but nothing is hidden any more. */
  function Unhidden(h: History): History {
    h.(mark := 0)
  }

  /** The live records last written at or before a revision. */
  function LastBy(kv: Kv, r: int): Kv {
    map k | k in kv && kv[k].modRevision <= r :: kv[k]
  }

  /** What the rebuilt index remembers: of every past revision, the records that are still live. */
  function Remembered(h: History): History
    requires h.states != []
  {
    History(seq(|h.states|, r requires 0 <= r < |h.states| => LastBy(Latest(h), r)), 0)
  }

  // ---------------------------------------------------------------- the relation that survives a restore

  /** The record is what the history holds at the revision it was written at. */
  ghost predicate TrueRecord(kv: KeyValue, h: History, k: Bytes, r: int) {
    0 < kv.modRevision <= r && r < |h.states| && k in h.states[kv.modRevision] && h.states[kv.modRevision][k] == kv
  }

  ghost predicate TrueRecords(p: History, h: History) {
    |p.states| == |h.states|
    && forall r, k :: 0 <= r < |p.states| && k in p.states[r] ==> TrueRecord(p.states[r][k], h, k, r)
  }

  /** The index entry of a key answers as `p` remembers. */
  ghost predicate EntryKnown(e: Entry, p: History, k: Bytes)
    requires 1 <= |p.states|
  {
    EntryOk(e, |p.states| - 1) && Answers(e, p, k) && (k in Latest(p) <==> LastAlive(e))
  }

  /** Contents and counter are those of `h`, the index answers as `p` remembers, and the log holds the
      changes of `h` from `m` on. */
  ghost predicate Continues(s: Store, h: History, p: History, m: int) {
    && HistoryOk(h) && |h.states| == s.current + 1 && s.kv == Latest(h)
    && TrueRecords(p, h) && Latest(p) == Latest(h) && p.mark == h.mark <= m < |h.states|
    && (forall k :: EntryKnown(EntryOf(s.index, k), p, k))
    && LogRelated(s, h.(mark := m))
  }

  lemma MarkedOk(h: History, m: int)
    requires HistoryOk(h) && 0 <= m < |h.states|
    ensures HistoryOk(h.(mark := m))
  {
    var h' := h.(mark := m);
    forall r | 0 < r < |h'.states| ensures Follows(h'.states[r - 1], h'.states[r], r) {
      assert Follows(h.states[r - 1], h.states[r], r);
    }
  }

  lemma RebuiltEntry(kv: Kv, k: Bytes, bound: int)
    requires k in kv ==> kv[k].modRevision <= bound
    ensures EntryOk(EntryOf(RebuiltIndex(kv), k), bound)
    ensures LastAlive(EntryOf(RebuiltIndex(kv), k)) <==> k in kv
  {
  }

  lemma RebuiltKnown(s: Store, h: History, k: Bytes)
    requires Related(s, h)
    ensures EntryKnown(EntryOf(RebuiltIndex(s.kv), k), Remembered(h), k)
  {
    var p := Remembered(h);
    RecordsOk(h, s.current);
    RebuiltEntry(s.kv, k, s.current);
    forall r | r >= 1 ensures EntryGet(EntryOf(RebuiltIndex(s.kv), k), r) == Shown(p, k, r) {
      RestoredLookup(s.kv, k, r);
    }
  }

  lemma RememberedTrue(h: History)
    requires HistoryOk(h)
    ensures TrueRecords(Remembered(h), h) && Latest(Remembered(h)) == Latest(h)
  {
    var p, last := Remembered(h), |h.states| - 1;
    RecordsOk(h, last);
    forall r, k | 0 <= r < |p.states| && k in p.states[r] ensures TrueRecord(p.states[r][k], h, k, r) {
      CarriedFromWrite(h, last, k);
    }
    assert LastBy(Latest(h), last) == Latest(h);
  }

  /** A store continues after its restore. */
  lemma RestoredContinues(s: Store, h: History)
    requires Related(s, h)
    ensures Continues(Restored(s), Unhidden(h), Remembered(h), h.mark)
  {
    MarkedOk(h, 0);
    RememberedTrue(h);
    forall k ensures EntryKnown(EntryOf(Restored(s).index, k), Remembered(h), k) { RebuiltKnown(s, h, k); }
    assert Unhidden(h).(mark := h.mark) == h;
  }

  // ---------------------------------------------------------------- steps

  lemma KnownPut(e: Entry, p: History, next: Kv, k: Bytes)
    requires 1 <= |p.states| <= MAX_I64 && p.mark < |p.states| && EntryKnown(e, p, k)
    requires k in next && next[k].modRevision == |p.states|
    ensures EntryKnown(EntryPut(e, Revision(|p.states|, 0)), Extended(p, next), k)
  {
    GetAfterPut(e, |p.states| - 1, Revision(|p.states|, 0), 0);
    AnswersWritten(e, p, next, k);
  }

  lemma KnownTombstone(e: Entry, p: History, next: Kv, k: Bytes)
    requires 1 <= |p.states| <= MAX_I64 && EntryKnown(e, p, k) && k !in next
    ensures EntryKnown(EntryTombstone(e, Revision(|p.states|, 0)), Extended(p, next), k)
  {
    GetAfterTombstone(e, |p.states| - 1, Revision(|p.states|, 0), 0);
    AnswersRemoved(e, p, next, k);
  }

  lemma KnownKept(e: Entry, p: History, next: Kv, k: Bytes)
    requires 1 <= |p.states| && EntryKnown(e, p, k)
    requires (k in next <==> k in Latest(p)) && (k in next ==> next[k] == Latest(p)[k])
    ensures EntryKnown(e, Extended(p, next), k)
  {
    EntryOkMonotone(e, |p.states| - 1, |p.states|);
    AnswersUntouched(e, p, next, k);
  }

  lemma KnownCompact(e: Entry, p: History, k: Bytes, c: i64)
    requires 1 <= |p.states| && EntryKnown(e, p, k) && c < |p.states|
    ensures EntryKnown(EntryCompact(e, c), CompactHistory(p, c), k)
  {
    CompactKeepsOk(e, |p.states| - 1, c);
    AnswersCompacted(e, p, k, c);
    assert CompactHistory(p, c).states == p.states;
  }

  /** New contents follow, every record of which is true. */
  lemma ExtendedTrue(p: History, h: History, next: Kv)
    requires HistoryOk(h) && |h.states| <= MAX_I64 && TrueRecords(p, h)
    requires Follows(Latest(h), next, |h.states|)
    ensures TrueRecords(Extended(p, next), Extended(h, next))
  {
    var p', h', n := Extended(p, next), Extended(h, next), |h.states|;
    ExtendedOk(h, next);
    forall r, k | 0 <= r < |p'.states| && k in p'.states[r] ensures TrueRecord(p'.states[r][k], h', k, r) {
      if r < n {
        assert TrueRecord(p.states[r][k], h, k, r);
      } else {
        CarriedFromWrite(h', n, k);
      }
    }
  }

  lemma PutNext(s: Store, p: History, key: Bytes, value: Bytes, lease: i64)
    requires 2 <= |p.states| == s.current + 1 <= MAX_I64 && s.kv == Latest(p)
    requires key in s.kv ==> RecordOk(s.kv[key], key, s.current)
    ensures PutHistory(p, key, value, lease) == Extended(p, s.kv[key := Written(s, key, value, lease)])
  {
  }

  lemma PutLog(s: Store, s': Store, h: History, key: Bytes, next: Kv)
    requires LogRelated(s, h) && s.current < MAX_I64 && s.kv == Latest(h)
    requires Follows(Latest(h), next, |h.states|) && key in next && next == s.kv[key := next[key]]
    requires next[key].modRevision == |h.states|
    requires s'.log == s.log[(Next(s.current), key) := next[key]] && s'.current == Next(s.current)
    ensures LogRelated(s', Extended(h, next))
  {
    var added := map[(Next(s.current), key) := next[key]];
    assert s'.log == s.log + added;
    RecordsOk(h, s.current);
    ExtendedOk(h, next);
    forall r: i64, k ensures Logged(s'.log, Extended(h, next), r, k) {
      assert Logged(s.log, h, r, k);
      LogExtended(s.log, added, h, next, r, k);
    }
  }

  lemma PutContinues(s: Store, h: History, p: History, m: int, key: Bytes, value: Bytes, lease: i64)
    requires Continues(s, h, p, m) && s.current < MAX_I64 && |key| < TWO_32 && |value| < TWO_32
    ensures Continues(AfterPut(s, key, value, lease),
                      PutHistory(h, key, value, lease), PutHistory(p, key, value, lease), m)
  {
    var s', next := AfterPut(s, key, value, lease), s.kv[key := Written(s, key, value, lease)];
    PutFollows(s, h, key, value, lease);
    RecordsOk(h, s.current);
    PutNext(s, p, key, value, lease);
    ExtendedOk(h, next);
    ExtendedTrue(p, h, next);
    forall k ensures EntryKnown(EntryOf(s'.index, k), Extended(p, next), k) {
      assert EntryKnown(EntryOf(s.index, k), p, k);
      if k == key {
        KnownPut(EntryOf(s.index, k), p, next, k);
      } else {
        KnownKept(EntryOf(s.index, k), p, next, k);
      }
    }
    PutLog(s, s', h.(mark := m), key, next);
    assert Extended(h.(mark := m), next) == Extended(h, next).(mark := m);
  }

  /** The victims of a delete, as far as `p` goes. */
  lemma KnownVictims(s: Store, p: History, start: Bytes, end: Bytes)
    requires |p.states| == s.current + 1 <= MAX_I64 && s.current >= 1 && s.kv == Latest(p)
    requires forall k :: EntryKnown(EntryOf(s.index, k), p, k)
    ensures forall k :: k in Victims(s, start, end) <==> k in s.kv && InBounds(k, start, end) && Shows(p, s.kv[k])
  {
    var next := Next(s.current);
    forall k
      ensures k in VisibleKeys(s.index, start, end, next) <==> k in s.kv && InBounds(k, start, end) && Shows(p, s.kv[k])
    {
      assert EntryKnown(EntryOf(s.index, k), p, k);
      assert EntryGet(EntryOf(s.index, k), next) == Shown(p, k, next);
      assert k in VisibleKeys(s.index, start, end, next) <==>
        k in s.index && InBounds(k, start, end) && Get(s.index, k, next).Some?;
    }
  }

  lemma DeleteNext(s: Store, h: History, p: History, start: Bytes, end: Bytes)
    requires HistoryOk(h) && |h.states| == |p.states| == s.current + 1 <= MAX_I64 && h.mark == p.mark
    requires s.kv == Latest(h) == Latest(p) && forall k :: EntryKnown(EntryOf(s.index, k), p, k)
    ensures var next := AfterDelete(s, start, end).kv;
      DeleteHistory(h, start, end) == Extended(h, next) && DeleteHistory(p, start, end) == Extended(p, next)
      && Follows(Latest(h), next, |h.states|)
  {
    RecordsOk(h, s.current);
    KnownVictims(s, p, start, end);
    var next := AfterDelete(s, start, end).kv;
    assert Latest(DeleteHistory(h, start, end)) == next;
    assert Latest(DeleteHistory(p, start, end)) == next;
  }

  lemma KnownDelete(s: Store, p: History, start: Bytes, end: Bytes, k: Bytes)
    requires 2 <= |p.states| == s.current + 1 <= MAX_I64 && s.kv == Latest(p)
    requires EntryKnown(EntryOf(s.index, k), p, k)
    ensures var s' := AfterDelete(s, start, end); EntryKnown(EntryOf(s'.index, k), Extended(p, s'.kv), k)
  {
    var s' := AfterDelete(s, start, end);
    DeleteAt(s, start, end, k);
    KnownDeleted(EntryOf(s.index, k), EntryOf(s'.index, k), p, s'.kv, k,
                 !PanickingBounds(start, end) && k in Victims(s, start, end));
  }

  lemma KnownDeleted(e: Entry, e': Entry, p: History, next: Kv, k: Bytes, victim: bool)
    requires 1 <= |p.states| <= MAX_I64 && EntryKnown(e, p, k)
    requires e' == if victim then EntryTombstone(e, Revision(|p.states|, 0)) else e
    requires (k in next <==> k in Latest(p) && !victim) && (k in next ==> next[k] == Latest(p)[k])
    ensures EntryKnown(e', Extended(p, next), k)
  {
    if victim { KnownTombstone(e, p, next, k); } else { KnownKept(e, p, next, k); }
  }

  lemma DeleteLog(s: Store, h: History, start: Bytes, end: Bytes)
    requires LogRelated(s, h) && s.current < MAX_I64 && s.kv == Latest(h)
    requires Follows(Latest(h), AfterDelete(s, start, end).kv, |h.states|)
    ensures LogRelated(AfterDelete(s, start, end), Extended(h, AfterDelete(s, start, end).kv))
  {
    var s' := AfterDelete(s, start, end);
    RecordsOk(h, s.current);
    ExtendedOk(h, s'.kv);
    forall r: i64, k ensures Logged(s'.log, Extended(h, s'.kv), r, k) {
      assert Logged(s.log, h, r, k);
      LogAfterDelete(s, h, start, end, r, k);
    }
  }

  lemma DeleteContinues(s: Store, h: History, p: History, m: int, start: Bytes, end: Bytes)
    requires Continues(s, h, p, m) && s.current < MAX_I64
    ensures Continues(AfterDelete(s, start, end), DeleteHistory(h, start, end), DeleteHistory(p, start, end), m)
  {
    var s' := AfterDelete(s, start, end);
    DeleteNext(s, h, p, start, end);
    ExtendedOk(h, s'.kv);
    ExtendedTrue(p, h, s'.kv);
    forall k ensures EntryKnown(EntryOf(s'.index, k), Extended(p, s'.kv), k) {
      assert EntryKnown(EntryOf(s.index, k), p, k);
      KnownDelete(s, p, start, end, k);
    }
    DeleteLog(s, h.(mark := m), start, end);
    assert Extended(h.(mark := m), s'.kv) == Extended(h, s'.kv).(mark := m);
  }

  /** The highest accepted compaction point after one more operation. */
  function MarkAfter(s: Store, m: int, op: Op): int {
    if op.Compact? && op.at <= s.current then Max(m, op.at) else m
  }

  lemma CompactContinues(s: Store, h: History, p: History, m: int, c: i64)
    requires Continues(s, h, p, m)
    ensures Continues(AfterCompact(s, c), CompactHistory(h, c), CompactHistory(p, c), MarkAfter(s, m, Compact(c)))
  {
    if c <= s.current {
      var s', h', p', m' := AfterCompact(s, c), CompactHistory(h, c), CompactHistory(p, c), Max(m, c);
      MarkedOk(h, h'.mark);
      MarkedOk(h, m');
      forall r, k | 0 <= r < |p'.states| && k in p'.states[r] ensures TrueRecord(p'.states[r][k], h', k, r) {
        assert TrueRecord(p.states[r][k], h, k, r);
      }
      forall k ensures EntryKnown(EntryOf(s'.index, k), p', k) {
        assert EntryKnown(EntryOf(s.index, k), p, k);
        KnownCompact(EntryOf(s.index, k), p, k, c);
        assert EntryOf(s'.index, k) == EntryCompact(EntryOf(s.index, k), c);
      }
      forall r: i64, k ensures Logged(s'.log, h'.(mark := m'), r, k) {
        assert Logged(s.log, h.(mark := m), r, k);
      }
    }
  }

  lemma StepContinues(s: Store, h: History, p: History, m: int, op: Op)
    requires Continues(s, h, p, m) && s.current < MAX_I64 && Storable(op)
    ensures Continues(Step(s, op), StepHistory(h, op), StepHistory(p, op), MarkAfter(s, m, op))
  {
    match op
    case Put(key, value, lease) => PutContinues(s, h, p, m, key, value, lease);
    case Delete(start, end) => DeleteContinues(s, h, p, m, start, end);
    case Compact(c) => CompactContinues(s, h, p, m, c);
  }

  lemma {:induction false} RunContinues(s: Store, h: History, p: History, m: int, more: seq<Op>)
    requires Continues(s, h, p, m) && s.current + |more| <= MAX_I64
    requires forall op :: op in more ==> Storable(op)
    ensures Continues(Run(s, more), RunHistory(h, more), RunHistory(p, more), Max(m, HighMark(s, more)))
  {
    if more != [] {
      var before, last := more[..|more| - 1], more[|more| - 1];
      assert last in more;
      assert forall op :: op in before ==> op in more;
      RunContinues(s, h, p, m, before);
      StepContinues(Run(s, before), RunHistory(h, before), RunHistory(p, before), Max(m, HighMark(s, before)), last);
    }
  }

  // ---------------------------------------------------------------- reads

  /** The index scan finds the keys `p` shows. */
  lemma KnownScan(s: Store, p: History, start: Bytes, end: Bytes, query: int)
    requires 2 <= |p.states| == s.current + 1 && query >= 1 && forall k :: EntryKnown(EntryOf(s.index, k), p, k)
    ensures SortedKeys(VisibleKeys(s.index, start, end, query))
      == NamesIn(VisibleAt(p, ReadRevision(p, query)), start, end)
  {
    var names := NamesIn(VisibleAt(p, ReadRevision(p, query)), start, end);
    forall k ensures k in VisibleKeys(s.index, start, end, query) <==> k in names {
      assert EntryKnown(EntryOf(s.index, k), p, k);
      assert EntryGet(EntryOf(s.index, k), query) == Shown(p, k, query);
      assert k in VisibleKeys(s.index, start, end, query) <==>
        k in s.index && InBounds(k, start, end) && Get(s.index, k, query).Some?;
    }
    AscendingIsSorted(names, VisibleKeys(s.index, start, end, query));
  }

  /** A fetch from the log finds a remembered record unless compaction passed it. */
  lemma PastFetch(s: Store, h: History, kv: KeyValue, k: Bytes, r: i64, m: int)
    requires LogRelated(s, h.(mark := m)) && TrueRecord(kv, h, k, r)
    ensures Fetch(s, k, Revision(kv.modRevision, 0), false, r) == if kv.modRevision >= m then Some(kv) else None
  {
    assert Logged(s.log, h.(mark := m), kv.modRevision, k);
  }

  /** Where the index finds `k` at `r`, the log has its record unless compaction passed it. */
  ghost predicate Resolves(s: Store, visible: Kv, k: Bytes, r: i64, m: int)
    requires k in visible
  {
    Get(s.index, k, r).Some? ==>
      Fetch(s, k, Get(s.index, k, r).value, false, r) == if visible[k].modRevision >= m then Some(visible[k]) else None
  }

  lemma PastResolves(s: Store, h: History, p: History, m: int, k: Bytes, r: i64)
    requires Continues(s, h, p, m) && 0 < r < s.current && k in VisibleAt(p, r)
    ensures Resolves(s, VisibleAt(p, r), k, r, m)
  {
    assert EntryKnown(EntryOf(s.index, k), p, k);
    assert EntryGet(EntryOf(s.index, k), r) == Shown(p, k, r);
    assert TrueRecord(p.states[r][k], h, k, r);
    PastFetch(s, h, p.states[r][k], k, r, m);
  }

  /** Every key of a scan resolves to the record of `all` at its place, if that was written at or after `c`. */
  ghost predicate AllResolve(s: Store, keys: seq<(Bytes, Revision)>, r: i64, all: seq<KeyValue>, c: int)
    requires |keys| == |all|
  {
    forall i :: 0 <= i < |keys| ==>
      Fetch(s, keys[i].0, keys[i].1, false, r) == if all[i].modRevision >= c then Some(all[i]) else None
  }

  lemma ScanResolves(s: Store, visible: Kv, start: Bytes, end: Bytes, r: i64, m: int)
    requires SortedKeys(VisibleKeys(s.index, start, end, r)) == NamesIn(visible, start, end)
    requires forall k :: k in visible ==> Resolves(s, visible, k, r, m)
    ensures var keys, all := RangeAt(s.index, start, end, r), Scan(visible, start, end);
      |keys| == |all| && AllResolve(s, keys, r, all, m)
  {
    var keys, names, all := RangeAt(s.index, start, end, r), NamesIn(visible, start, end), Scan(visible, start, end);
    RangeAtNames(s.index, start, end, r);
    forall i | 0 <= i < |keys|
      ensures Fetch(s, keys[i].0, keys[i].1, false, r) == if all[i].modRevision >= m then Some(all[i]) else None
    {
      assert names[i] in names;
      assert Resolves(s, visible, names[i], r, m);
    }
  }

  lemma PastFetched(s: Store, h: History, p: History, m: int, start: Bytes, end: Bytes, r: i64)
    requires Continues(s, h, p, m) && 0 < r < s.current
    ensures var keys, all := RangeAt(s.index, start, end, r), Scan(VisibleAt(p, r), start, end);
      |keys| == |all| && AllResolve(s, keys, r, all, m)
  {
    KnownScan(s, p, start, end, r);
    forall k | k in VisibleAt(p, r) ensures Resolves(s, VisibleAt(p, r), k, r, m) { PastResolves(s, h, p, m, k, r); }
    ScanResolves(s, VisibleAt(p, r), start, end, r, m);
  }

  /** The first `limit` of the records, all of them if the limit is not positive. */
  function Cut(kvs: seq<KeyValue>, limit: int): seq<KeyValue> {
    if 0 < limit < |kvs| then kvs[..limit] else kvs
  }

  lemma {:induction false} WrittenSinceFront(kv: KeyValue, rest: seq<KeyValue>, c: int)
    ensures WrittenSince([kv] + rest, c) == (if kv.modRevision >= c then [kv] else []) + WrittenSince(rest, c)
  {
    if rest == [] {
      assert [kv] + rest == [kv] && [kv][..0] == [];
    } else {
      assert ([kv] + rest)[..|rest|] == [kv] + rest[..|rest| - 1];
      WrittenSinceFront(kv, rest[..|rest| - 1], c);
    }
  }

  lemma CutFull(acc: seq<KeyValue>, more: seq<KeyValue>, limit: int)
    requires 0 < limit == |acc|
    ensures Cut(acc + more, limit) == acc
  {
  }

  lemma CollectStep(s: Store, keys: seq<(Bytes, Revision)>, r: i64, limit: i64, acc: seq<KeyValue>, kv: KeyValue,
                    c: int)
    requires keys != [] && !(limit > 0 && |acc| >= limit)
    requires Fetch(s, keys[0].0, keys[0].1, false, r) == if kv.modRevision >= c then Some(kv) else None
    ensures Collect(s, keys, false, r, limit, false, acc)
      == Collect(s, keys[1..], false, r, limit, false, if kv.modRevision >= c then acc + [kv] else acc)
  {
  }

  lemma RestResolves(s: Store, keys: seq<(Bytes, Revision)>, r: i64, all: seq<KeyValue>, c: int)
    requires |keys| == |all| > 0 && AllResolve(s, keys, r, all, c)
    ensures AllResolve(s, keys[1..], r, all[1..], c)
    ensures Fetch(s, keys[0].0, keys[0].1, false, r) == if all[0].modRevision >= c then Some(all[0]) else None
  {
  }

  lemma AccSince(acc: seq<KeyValue>, all: seq<KeyValue>, c: int)
    requires all != []
    ensures (if all[0].modRevision >= c then acc + [all[0]] else acc) + WrittenSince(all[1..], c)
      == acc + WrittenSince(all, c)
  {
    assert all == [all[0]] + all[1..];
    WrittenSinceFront(all[0], all[1..], c);
  }

  /** The fetching loop over keys of which some no longer resolve. */
  lemma {:induction false} CollectSome(s: Store, keys: seq<(Bytes, Revision)>, r: i64, limit: i64, acc: seq<KeyValue>,
                                       all: seq<KeyValue>, c: int)
    requires |all| == |keys| && AllResolve(s, keys, r, all, c) && (limit > 0 ==> |acc| <= limit)
    ensures Collect(s, keys, false, r, limit, false, acc) == Cut(acc + WrittenSince(all, c), limit)
    decreases |keys|
  {
    if keys == [] {
      assert acc + [] == acc;
    } else if limit > 0 && |acc| == limit {
      CutFull(acc, WrittenSince(all, c), limit);
    } else {
      RestResolves(s, keys, r, all, c);
      CollectStep(s, keys, r, limit, acc, all[0], c);
      CollectSome(s, keys[1..], r, limit, if all[0].modRevision >= c then acc + [all[0]] else acc, all[1..], c);
      AccSince(acc, all, c);
    }
  }

  /** A read of the past after a restore: it counts what the index remembers, and returns, up to the
      limit, the records compaction has left in the log. */
  function PastRead(p: History, m: int, start: Bytes, end: Bytes, r: int, limit: int, countOnly: bool): RangeResult
    requires 0 <= r < |p.states|
  {
    var all := Scan(VisibleAt(p, r), start, end);
    var kvs := if countOnly then [] else Cut(WrittenSince(all, m), limit);
    RangeResult(kvs, limit > 0 && |all| > |kvs|, |all|)
  }

  lemma PastCollected(s: Store, keys: seq<(Bytes, Revision)>, r: i64, limit: i64, countOnly: bool, all: seq<KeyValue>,
                      m: int)
    requires |all| == |keys| && AllResolve(s, keys, r, all, m)
    ensures Collect(s, keys, false, r, limit, countOnly, [])
      == if countOnly then [] else Cut(WrittenSince(all, m), limit)
  {
    if countOnly {
      CollectNothing(s, keys, false, r, limit);
    } else {
      CollectSome(s, keys, r, limit, [], all, m);
      assert [] + WrittenSince(all, m) == WrittenSince(all, m);
    }
  }

  lemma PastReads(s: Store, h: History, p: History, m: int, start: Bytes, end: Bytes, r: i64, limit: i64,
                  countOnly: bool)
    requires Continues(s, h, p, m) && 0 < r < s.current && !PanickingBounds(start, end)
    ensures RangeOf(s, start, end, r, limit, countOnly) == Done(PastRead(p, m, start, end, r, limit, countOnly))
  {
    PastFetched(s, h, p, m, start, end, r);
    PastCollected(s, RangeAt(s.index, start, end, r), r, limit, countOnly, Scan(VisibleAt(p, r), start, end), m);
  }

  lemma CurrentFetch(s: Store, h: History, k: Bytes, rev: Revision, query: i64)
    requires HistoryOk(h) && |h.states| == s.current + 1 && s.kv == Latest(h) && k in s.kv && query >= s.current
    ensures Fetch(s, k, rev, true, query) == Some(s.kv[k])
  {
    RecordsOk(h, s.current);
  }

  lemma CurrentFetched(s: Store, h: History, p: History, m: int, start: Bytes, end: Bytes, query: i64)
    requires Continues(s, h, p, m) && query >= s.current
    ensures var keys, all := RangeAt(s.index, start, end, query), Scan(VisibleAt(h, s.current), start, end);
      |keys| == |all| && forall i :: 0 <= i < |keys| ==> Fetch(s, keys[i].0, keys[i].1, true, query) == Some(all[i])
  {
    var visible := VisibleAt(h, s.current);
    var keys, names := RangeAt(s.index, start, end, query), NamesIn(visible, start, end);
    assert VisibleAt(p, ReadRevision(p, query)) == visible;
    KnownScan(s, p, start, end, query);
    RangeAtNames(s.index, start, end, query);
    forall i | 0 <= i < |keys|
      ensures names[i] in visible && Fetch(s, names[i], keys[i].1, true, query) == Some(visible[names[i]])
    {
      assert names[i] in names;
      CurrentFetch(s, h, names[i], keys[i].1, query);
    }
  }

  lemma CurrentReads(s: Store, h: History, p: History, m: int, start: Bytes, end: Bytes, revision: i64, limit: i64,
                     countOnly: bool)
    requires Continues(s, h, p, m) && (revision <= 0 || revision >= s.current)
    ensures RangeOf(s, start, end, revision, limit, countOnly) == Read(h, start, end, revision, limit, countOnly)
  {
    if !PanickingBounds(start, end) {
      var query := if revision <= 0 then s.current else revision;
      var keys, all := RangeAt(s.index, start, end, query), Scan(VisibleAt(h, s.current), start, end);
      assert ReadRevision(h, revision) == s.current;
      CurrentFetched(s, h, p, m, start, end, query);
      if countOnly {
        CollectNothing(s, keys, true, query, limit);
      } else {
        CollectAll(s, keys, true, query, limit, [], all);
      }
      ReadFromCollected(s, h, start, end, revision, limit, countOnly);
    }
  }

  // ---------------------------------------------------------------- theorems

  /** A run, a restore and a further run: the history, what of it the index remembers, and from where on
      the log has its changes. */
  function HistoryOver(ops: seq<Op>, more: seq<Op>): History
    requires |ops| + |more| < MAX_I64
  {
    RunHistory(Unhidden(RunHistory(BEGINNING, ops)), more)
  }

  function MemoryOver(ops: seq<Op>, more: seq<Op>): History
    requires |ops| + |more| < MAX_I64
  {
    RunHistory(Remembered(RunHistory(BEGINNING, ops)), more)
  }

  function MarkOver(ops: seq<Op>, more: seq<Op>): int {
    Max(HighMark(EMPTY, ops), HighMark(Restored(Run(EMPTY, ops)), more))
  }

  function StoreOver(ops: seq<Op>, more: seq<Op>): Store {
    Run(Restored(Run(EMPTY, ops)), more)
  }

  lemma OverContinues(ops: seq<Op>, more: seq<Op>)
    requires Runnable(ops) && Runnable(more) && |ops| + |more| < MAX_I64
    ensures Continues(StoreOver(ops, more), HistoryOver(ops, more), MemoryOver(ops, more), MarkOver(ops, more))
  {
    var s, h := Run(EMPTY, ops), RunHistory(BEGINNING, ops);
    RunRefines(ops);
    MarkIsHighMark(ops);
    RestoredContinues(s, h);
    RunContinues(Restored(s), Unhidden(h), Remembered(h), h.mark, more);
  }

  /** Reads after any run, a restore and any further run, compactions included, at every revision and
      limit: current reads are those of the history in which nothing was hidden at the restore; past
      reads are those of what the index remembers, cut to the records the log still has. */
  lemma ReadsAfterRestore(ops: seq<Op>, more: seq<Op>, start: Bytes, end: Bytes, revision: i64, limit: i64,
                          countOnly: bool)
    requires Runnable(ops) && Runnable(more) && |ops| + |more| < MAX_I64
    ensures var s, h, p := StoreOver(ops, more), HistoryOver(ops, more), MemoryOver(ops, more);
      && |p.states| == |h.states| == s.current + 1
      && RangeOf(s, start, end, revision, limit, countOnly) ==
           if revision <= 0 || revision >= s.current || PanickingBounds(start, end)
           then Read(h, start, end, revision, limit, countOnly)
           else Done(PastRead(p, MarkOver(ops, more), start, end, revision, limit, countOnly))
  {
    var s, h, p, m := StoreOver(ops, more), HistoryOver(ops, more), MemoryOver(ops, more), MarkOver(ops, more);
    OverContinues(ops, more);
    if revision <= 0 || revision >= s.current {
      CurrentReads(s, h, p, m, start, end, revision, limit, countOnly);
    } else if !PanickingBounds(start, end) {
      PastReads(s, h, p, m, start, end, revision, limit, countOnly);
    }
  }

  /** Catch-up events after any run, a restore and any further run: every change from the start on that
      no compaction has dropped, before or after the restore, once and in order. */
  lemma EventsAfterRestore(ops: seq<Op>, more: seq<Op>, start: i64)
    requires Runnable(ops) && Runnable(more) && |ops| + |more| < MAX_I64 && 0 <= start
    ensures var events := EventsSince(StoreOver(ops, more), start);
      var h := HistoryOver(ops, more).(mark := MarkOver(ops, more));
      InOrder(events) && forall e :: e in events <==> start <= e.kv.modRevision && Reports(h, e)
  {
    OverContinues(ops, more);
    EventsSinceExact(StoreOver(ops, more), HistoryOver(ops, more).(mark := MarkOver(ops, more)), start);
  }

  /** A full read of the past right after a restore: it counts the live keys last written by then, and
      returns the records of those written at or after the highest compaction point. The count exceeds
      the records exactly when compaction had hidden one of the keys. */
  lemma RestoredPastRead(ops: seq<Op>, start: Bytes, end: Bytes, r: i64)
    requires Runnable(ops) && !PanickingBounds(start, end) && 0 < r < Run(EMPTY, ops).current
    ensures var s, mark := Run(EMPTY, ops), HighMark(EMPTY, ops);
      var all := Scan(LastBy(s.kv, r), start, end);
      var kvs := WrittenSince(all, mark);
      && RangeOf(Restored(s), start, end, r, 0, false) == Done(RangeResult(kvs, false, |all|))
      && (|kvs| == |all| <==> forall kv :: kv in all ==> kv.modRevision >= mark)
  {
    var s, h := Run(EMPTY, ops), RunHistory(BEGINNING, ops);
    RunRefines(ops);
    MarkIsHighMark(ops);
    RestoredContinues(s, h);
    PastReads(Restored(s), Unhidden(h), Remembered(h), h.mark, start, end, r, 0, false);
    RecordsOk(h, s.current);
    assert VisibleAt(Remembered(h), r) == LastBy(s.kv, r);
    WrittenSinceAll(Scan(LastBy(s.kv, r), start, end), h.mark);
  }
}
