/** The reference the store is measured against: a history that keeps one full copy of the contents
    per revision, and a mark below which compaction has hidden writes. */
module Histories {
  import opened ByteStrings
  import opened KeyValues
  import opened KeyIndexing
  import opened Stores

  /** `states[r]` is everything stored after revision `r`; `mark` is the highest accepted compaction point. */
  datatype History = History(states: seq<Kv>, mark: int)

  const BEGINNING := History([map[], map[]], 0)

  function Latest(h: History): Kv
    requires h.states != []
  {
    h.states[|h.states| - 1]
  }

  // ---------------------------------------------------------------- reference steps

  /** A put adds one copy in which the key holds a record one version up, created now or inherited. */
  function PutHistory(h: History, key: Bytes, value: Bytes, lease: i64): History
    requires 1 <= |h.states| <= MAX_I64
  {
    var now := |h.states|;
    var kv := if key in Latest(h)
              then Latest(h)[key].(modRevision := now, version := Next(Latest(h)[key].version),
                                   value := value, lease := lease)
              else KeyValue(key, now, now, 1, value, lease);
    h.(states := h.states + [Latest(h)[key := kv]])
  }

  predicate Shows(h: History, kv: KeyValue) {
    kv.modRevision >= h.mark
  }

  /** A range delete adds one copy without the visible keys in bounds. */
  function DeleteHistory(h: History, start: Bytes, end: Bytes): History
    requires h.states != []
  {
    var kept := map k | k in Latest(h)
                        && (PanickingBounds(start, end) || !InBounds(k, start, end) || !Shows(h, Latest(h)[k]))
                :: Latest(h)[k];
    h.(states := h.states + [kept])
  }

  /** A compaction only raises the mark. */
  function CompactHistory(h: History, c: int): History {
    if c >= |h.states| || c <= h.mark then h else h.(mark := c)
  }

  /** The visible contents at a revision. */
  function VisibleAt(h: History, r: int): Kv
    requires 0 <= r < |h.states|
  {
    map k | k in h.states[r] && Shows(h, h.states[r][k]) :: h.states[r][k]
  }

  /** The keys of `kv` in bounds, in order. */
  function NamesIn(kv: Kv, start: Bytes, end: Bytes): (r: seq<Bytes>)
    ensures forall k :: k in r <==> k in kv && InBounds(k, start, end)
    ensures Ascending(r)
  {
    SortedKeys(set k | k in kv && InBounds(k, start, end))
  }

  /** The records of `kv` in bounds, in key order. */
  function Scan(kv: Kv, start: Bytes, end: Bytes): (r: seq<KeyValue>)
    ensures |r| == |NamesIn(kv, start, end)|
  {
    KvsOf(kv, NamesIn(kv, start, end))
  }

  /** The revision a read answers for. */
  function ReadRevision(h: History, revision: int): (r: int)
    requires h.states != []
    ensures 0 <= r < |h.states|
  {
    if revision <= 0 || revision >= |h.states| then |h.states| - 1 else revision
  }

  /** A read: the visible contents in bounds at the revision, in key order, cut at the limit. */
  function Read(h: History, start: Bytes, end: Bytes, revision: int, limit: int, countOnly: bool): Outcome<RangeResult>
    requires h.states != []
  {
    if PanickingBounds(start, end) then Panicked
    else
      var all := Scan(VisibleAt(h, ReadRevision(h, revision)), start, end);
      var n := if countOnly then 0 else if 0 < limit < |all| then limit else |all|;
      Done(RangeResult(all[..n], limit > 0 && |all| > n, |all|))
  }

  // ---------------------------------------------------------------- what a history looks like

  ghost predicate RecordOk(kv: KeyValue, k: Bytes, r: int) {
    kv.key == k && 2 <= kv.createRevision <= kv.modRevision <= r && 1 <= kv.version < kv.modRevision
    && |k| < TWO_32 && |kv.value| < TWO_32
  }

  /** A write at `r` raises the version of a present key by one, or starts a key at version one. */
  ghost predicate WrittenAt(prev: Kv, kv: KeyValue, k: Bytes, r: int) {
    && kv.modRevision == r
    && (k in prev ==> kv.createRevision == prev[k].createRevision && kv.version == prev[k].version + 1)
    && (k !in prev ==> kv.createRevision == r && kv.version == 1)
  }

  /** Contents `next` may follow contents `prev` at revision `r`: every record is sound, and was
      either written at `r` or carried over unchanged. */
  ghost predicate Follows(prev: Kv, next: Kv, r: int) {
    forall k :: k in next ==>
      RecordOk(next[k], k, r) && (WrittenAt(prev, next[k], k, r) || (k in prev && prev[k] == next[k]))
  }

  ghost predicate HistoryOk(h: History) {
    && 2 <= |h.states| <= MAX_I64 + 1
    && h.states[0] == map[] && h.states[1] == map[]
    && 0 <= h.mark < |h.states|
    && (forall r :: 0 < r < |h.states| ==> Follows(h.states[r - 1], h.states[r], r))
  }

  /** The key was written or removed at exactly this revision. */
  predicate Changed(h: History, r: int, k: Bytes) {
    0 < r < |h.states|
    && ((k in h.states[r] && h.states[r][k].modRevision == r) || (k in h.states[r - 1] && k !in h.states[r]))
  }

  function RecordAt(h: History, r: i64, k: Bytes): KeyValue
    requires 0 <= r < |h.states|
  {
    if k in h.states[r] then h.states[r][k] else Tombstone(k, r)
  }

  /** What a point-in-time lookup should say; revisions beyond the last read the last. */
  function Shown(h: History, k: Bytes, r: int): Option<Revision>
    requires 0 <= r && h.states != []
  {
    var state := h.states[if r < |h.states| then r else |h.states| - 1];
    if k in state && Shows(h, state[k]) then Some(Revision(state[k].modRevision, 0)) else None
  }

  /** The writes of a key at revisions `from` to `to`. */
  function Writes(h: History, k: Bytes, from: int, last: int): seq<Revision>
    requires last < |h.states| <= MAX_I64 + 1
    decreases last - from
  {
    if last < from || last < 0 then []
    else Writes(h, k, from, last - 1)
         + if k in h.states[last] && h.states[last][k].modRevision == last then [Revision(last, 0)] else []
  }

  function Max(a: int, b: int): int {
    if a < b then b else a
  }

  // ---------------------------------------------------------------- the refinement relation

  ghost predicate Held(e: Entry, x: Revision) {
    exists i :: 0 <= i < |e| && x in e[i].revisions
  }

  /** The live generation of a stored key lists its writes since creation, as far as compaction left them. */
  ghost predicate ListsWrites(g: Generation, h: History, k: Bytes)
    requires 1 <= |h.states| <= MAX_I64 + 1 && k in Latest(h)
  {
    var created := Latest(h)[k].createRevision;
    g.revisions == Writes(h, k, Max(created, h.mark), |h.states| - 1)
    && (h.mark == 0 ==> g.created.main == created)
  }

  ghost predicate LiveGeneration(e: Entry, h: History, k: Bytes)
    requires 1 <= |h.states| <= MAX_I64 + 1
  {
    k in Latest(h) && LastAlive(e) ==> ListsWrites(e[|e| - 1], h, k)
  }

  /** The entry answers every point-in-time lookup as the history shows the key. */
  ghost predicate Answers(e: Entry, h: History, k: Bytes)
    requires h.states != []
  {
    forall r :: r >= 1 ==> EntryGet(e, r) == Shown(h, k, r)
  }

  /** Every revision the entry holds is the answer at that revision. */
  ghost predicate HeldAnswered(e: Entry) {
    forall x :: Held(e, x) ==> x.main >= 1 && EntryGet(e, x.main) == Some(x)
  }

  ghost predicate EntryRelated(e: Entry, h: History, k: Bytes)
    requires 1 <= |h.states| <= MAX_I64 + 1
  {
    && EntryOk(e, |h.states| - 1)
    && Answers(e, h, k)
    && HeldAnswered(e)
    && (k in Latest(h) <==> LastAlive(e))
    && LiveGeneration(e, h, k)
  }

  ghost predicate Logged(log: map<(i64, Bytes), KeyValue>, h: History, r: i64, k: Bytes) {
    && ((r, k) in log <==> r >= h.mark && Changed(h, r, k))
    && ((r, k) in log ==> log[(r, k)] == RecordAt(h, r, k))
  }

  /** The store `s` is what the history `h` prescribes: counter, latest contents, index answers at
      every revision, and the exact content of the revision log. */
  ghost predicate Related(s: Store, h: History) {
    && HistoryOk(h)
    && |h.states| == s.current + 1
    && s.kv == Latest(h)
    && (forall k :: EntryRelated(EntryOf(s.index, k), h, k))
    && (forall r: i64, k :: Logged(s.log, h, r, k))
  }

  /** The part of the relation that concerns the log. */
  ghost predicate LogRelated(s: Store, h: History) {
    HistoryOk(h) && |h.states| == s.current + 1 && forall r: i64, k :: Logged(s.log, h, r, k)
  }

  lemma BeginningRelated()
    ensures Related(EMPTY, BEGINNING)
  {
  }

  lemma RecordsOk(h: History, r: int)
    requires HistoryOk(h) && 0 <= r < |h.states|
    ensures forall k :: k in h.states[r] ==> RecordOk(h.states[r][k], k, r)
  {
    if r > 0 { assert Follows(h.states[r - 1], h.states[r], r); }
  }

  // ---------------------------------------------------------------- adding a revision

  function Extended(h: History, next: Kv): History {
    h.(states := h.states + [next])
  }

  lemma ExtendedOk(h: History, next: Kv)
    requires HistoryOk(h) && |h.states| <= MAX_I64 && Follows(Latest(h), next, |h.states|)
    ensures HistoryOk(Extended(h, next)) && Latest(Extended(h, next)) == next
  {
    var h' := Extended(h, next);
    forall r | 0 < r < |h'.states| ensures Follows(h'.states[r - 1], h'.states[r], r) {
      if r < |h.states| { assert Follows(h.states[r - 1], h.states[r], r); }
    }
  }

  lemma ExtendedShown(h: History, next: Kv, k: Bytes, r: int)
    requires r >= 0 && h.states != []
    ensures Shown(Extended(h, next), k, r) ==
      if r < |h.states| then Shown(h, k, r)
      else if k in next && Shows(h, next[k]) then Some(Revision(next[k].modRevision, 0)) else None
  {
  }

  lemma {:induction false} WritesExtended(h: History, next: Kv, k: Bytes, from: int, last: int)
    requires 1 <= |h.states| <= MAX_I64 && last < |h.states|
    ensures Writes(Extended(h, next), k, from, last) == Writes(h, k, from, last)
    decreases last - from
  {
    if last >= from && last >= 0 {
      WritesExtended(h, next, k, from, last - 1);
    }
  }

  lemma ShownUntouched(h: History, next: Kv, k: Bytes, r: int)
    requires 1 <= |h.states| && r >= 1
    requires k in next <==> k in Latest(h)
    requires k in next ==> next[k] == Latest(h)[k]
    ensures Shown(Extended(h, next), k, r) == Shown(h, k, r)
  {
    ExtendedShown(h, next, k, r);
  }

  lemma LiveUntouched(e: Entry, h: History, next: Kv, k: Bytes)
    requires 1 <= |h.states| <= MAX_I64 && LiveGeneration(e, h, k)
    requires k in next <==> k in Latest(h)
    requires k in next ==> next[k] == Latest(h)[k] && next[k].modRevision < |h.states|
    ensures LiveGeneration(e, Extended(h, next), k)
  {
    if k in next {
      WritesExtended(h, next, k, Max(next[k].createRevision, h.mark), |h.states| - 1);
    }
  }

  lemma EntryUntouched(e: Entry, h: History, next: Kv, k: Bytes)
    requires 1 <= |h.states| <= MAX_I64 && EntryRelated(e, h, k)
    requires k in next <==> k in Latest(h)
    requires k in next ==> next[k] == Latest(h)[k] && next[k].modRevision < |h.states|
    ensures EntryRelated(e, Extended(h, next), k)
  {
    EntryOkMonotone(e, |h.states| - 1, |h.states|);
    AnswersUntouched(e, h, next, k);
    LiveUntouched(e, h, next, k);
  }

  lemma AnswersUntouched(e: Entry, h: History, next: Kv, k: Bytes)
    requires 1 <= |h.states| && Answers(e, h, k)
    requires k in next <==> k in Latest(h)
    requires k in next ==> next[k] == Latest(h)[k]
    ensures Answers(e, Extended(h, next), k)
  {
    forall r | r >= 1 ensures EntryGet(e, r) == Shown(Extended(h, next), k, r) {
      ShownUntouched(h, next, k, r);
      assert EntryGet(e, r) == Shown(h, k, r);
    }
  }

  lemma HeldAfterPut(e: Entry, rev: Revision, x: Revision)
    requires Held(EntryPut(e, rev), x)
    ensures x == rev || Held(e, x)
  {
    var e' := EntryPut(e, rev);
    var i :| 0 <= i < |e'| && x in e'[i].revisions;
    if x != rev {
      assert i < |e| && x in e[i].revisions;
    }
  }

  lemma ShownAfterPut(e: Entry, h: History, next: Kv, k: Bytes, r: int)
    requires 1 <= |h.states| <= MAX_I64 && h.mark < |h.states| && r >= 1
    requires EntryOk(e, |h.states| - 1) && Answers(e, h, k)
    requires k in next && next[k].modRevision == |h.states|
    ensures EntryGet(EntryPut(e, Revision(|h.states|, 0)), r) == Shown(Extended(h, next), k, r)
  {
    ExtendedShown(h, next, k, r);
    GetAfterPut(e, |h.states| - 1, Revision(|h.states|, 0), r);
    assert EntryGet(e, r) == Shown(h, k, r);
  }

  lemma VisibleAfterPut(e: Entry, bound: int, rev: Revision, x: Revision)
    requires EntryOk(e, bound) && bound < rev.main && 1 <= rev.main && Held(EntryPut(e, rev), x)
    requires Held(e, x) ==> x.main >= 1 && EntryGet(e, x.main) == Some(x)
    ensures x.main >= 1 && EntryGet(EntryPut(e, rev), x.main) == Some(x)
  {
    HeldAfterPut(e, rev, x);
    GetAfterPut(e, bound, rev, x.main);
    if x != rev { HeldBelow(e, bound, x); }
  }

  lemma EntryWritten(e: Entry, h: History, next: Kv, k: Bytes)
    requires 1 <= |h.states| <= MAX_I64 && h.mark < |h.states| && EntryRelated(e, h, k)
    requires k in next && WrittenAt(Latest(h), next[k], k, |h.states|)
    requires k in Latest(h) ==> Latest(h)[k].createRevision <= |h.states|
    ensures EntryRelated(EntryPut(e, Revision(|h.states|, 0)), Extended(h, next), k)
  {
    var n := |h.states|;
    GetAfterPut(e, n - 1, Revision(n, 0), n);
    AnswersWritten(e, h, next, k);
    HeldWritten(e, n - 1, Revision(n, 0));
    LiveWritten(e, h, next, k);
  }

  lemma AnswersWritten(e: Entry, h: History, next: Kv, k: Bytes)
    requires 1 <= |h.states| <= MAX_I64 && h.mark < |h.states| && EntryOk(e, |h.states| - 1) && Answers(e, h, k)
    requires k in next && next[k].modRevision == |h.states|
    ensures Answers(EntryPut(e, Revision(|h.states|, 0)), Extended(h, next), k)
  {
    forall r | r >= 1 ensures EntryGet(EntryPut(e, Revision(|h.states|, 0)), r) == Shown(Extended(h, next), k, r) {
      ShownAfterPut(e, h, next, k, r);
    }
  }

  lemma HeldWritten(e: Entry, bound: int, rev: Revision)
    requires EntryOk(e, bound) && bound < rev.main && 1 <= rev.main && HeldAnswered(e)
    ensures HeldAnswered(EntryPut(e, rev))
  {
    forall x | Held(EntryPut(e, rev), x) ensures x.main >= 1 && EntryGet(EntryPut(e, rev), x.main) == Some(x) {
      VisibleAfterPut(e, bound, rev, x);
    }
  }

  lemma LiveWritten(e: Entry, h: History, next: Kv, k: Bytes)
    requires 1 <= |h.states| <= MAX_I64 && h.mark < |h.states| && LiveGeneration(e, h, k) && EntryOk(e, |h.states| - 1)
    requires k in Latest(h) <==> LastAlive(e)
    requires k in next && WrittenAt(Latest(h), next[k], k, |h.states|)
    requires k in Latest(h) ==> Latest(h)[k].createRevision <= |h.states|
    ensures LiveGeneration(EntryPut(e, Revision(|h.states|, 0)), Extended(h, next), k)
  {
    var n, h', rev := |h.states|, Extended(h, next), Revision(|h.states|, 0);
    var from := Max(next[k].createRevision, h.mark);
    WritesExtended(h, next, k, from, n - 1);
    assert Writes(h', k, from, n) == Writes(h', k, from, n - 1) + [rev];
    if k !in Latest(h) {
      assert Writes(h', k, from, n - 1) == [];
    }
  }

  lemma HeldBelow(e: Entry, bound: int, x: Revision)
    requires EntryOk(e, bound) && Held(e, x)
    ensures x.main <= bound
  {
    var i :| 0 <= i < |e| && x in e[i].revisions;
    assert GenerationOk(e[i], bound);
  }

  lemma HeldAfterTombstone(e: Entry, rev: Revision, x: Revision)
    requires LastAlive(e) && Held(EntryTombstone(e, rev), x)
    ensures Held(e, x)
  {
    var e' := EntryTombstone(e, rev);
    var i :| 0 <= i < |e'| && x in e'[i].revisions;
    assert x in e[i].revisions;
  }

  lemma ShownAfterTombstone(e: Entry, h: History, next: Kv, k: Bytes, r: int)
    requires 1 <= |h.states| <= MAX_I64 && EntryOk(e, |h.states| - 1) && Answers(e, h, k) && k !in next && r >= 1
    ensures EntryGet(EntryTombstone(e, Revision(|h.states|, 0)), r) == Shown(Extended(h, next), k, r)
  {
    ExtendedShown(h, next, k, r);
    GetAfterTombstone(e, |h.states| - 1, Revision(|h.states|, 0), r);
    assert EntryGet(e, r) == Shown(h, k, r);
  }

  lemma VisibleAfterTombstone(e: Entry, bound: int, rev: Revision, x: Revision)
    requires EntryOk(e, bound) && bound < rev.main && LastAlive(e) && Held(EntryTombstone(e, rev), x)
    requires Held(e, x) ==> x.main >= 1 && EntryGet(e, x.main) == Some(x)
    ensures x.main >= 1 && EntryGet(EntryTombstone(e, rev), x.main) == Some(x)
  {
    HeldAfterTombstone(e, rev, x);
    HeldBelow(e, bound, x);
    GetAfterTombstone(e, bound, rev, x.main);
  }

  lemma EntryRemoved(e: Entry, h: History, next: Kv, k: Bytes)
    requires 1 <= |h.states| <= MAX_I64 && EntryRelated(e, h, k)
    requires k !in next && k in Latest(h)
    ensures EntryRelated(EntryTombstone(e, Revision(|h.states|, 0)), Extended(h, next), k)
  {
    var rev := Revision(|h.states|, 0);
    GetAfterTombstone(e, |h.states| - 1, rev, 0);
    AnswersRemoved(e, h, next, k);
    HeldRemoved(e, |h.states| - 1, rev);
  }

  lemma AnswersRemoved(e: Entry, h: History, next: Kv, k: Bytes)
    requires 1 <= |h.states| <= MAX_I64 && EntryOk(e, |h.states| - 1) && Answers(e, h, k) && k !in next
    ensures Answers(EntryTombstone(e, Revision(|h.states|, 0)), Extended(h, next), k)
  {
    forall r | r >= 1
      ensures EntryGet(EntryTombstone(e, Revision(|h.states|, 0)), r) == Shown(Extended(h, next), k, r)
    {
      ShownAfterTombstone(e, h, next, k, r);
    }
  }

  lemma HeldRemoved(e: Entry, bound: int, rev: Revision)
    requires EntryOk(e, bound) && bound < rev.main && LastAlive(e) && HeldAnswered(e)
    ensures HeldAnswered(EntryTombstone(e, rev))
  {
    forall x | Held(EntryTombstone(e, rev), x)
      ensures x.main >= 1 && EntryGet(EntryTombstone(e, rev), x.main) == Some(x)
    {
      VisibleAfterTombstone(e, bound, rev, x);
    }
  }

  /** The log of the extended history: the old log plus the changes at the new revision. */
  lemma LogExtended(log: map<(i64, Bytes), KeyValue>, added: map<(i64, Bytes), KeyValue>, h: History, next: Kv,
                    r: i64, k: Bytes)
    requires HistoryOk(h) && |h.states| <= MAX_I64 && Follows(Latest(h), next, |h.states|)
    requires Logged(log, h, r, k)
    requires (r, k) in added <==>
      r == |h.states| && (k in next ==> next[k].modRevision == r) && (k in next || k in Latest(h))
    requires (r, k) in added ==> added[(r, k)] == if k in next then next[k] else Tombstone(k, r)
    ensures Logged(log + added, Extended(h, next), r, k)
  {
    var h' := Extended(h, next);
    assert h'.states[|h.states| - 1] == Latest(h);
    if r < |h.states| {
      assert Changed(h', r, k) == Changed(h, r, k);
    }
  }

  // ---------------------------------------------------------------- put

  lemma PutFollows(s: Store, h: History, key: Bytes, value: Bytes, lease: i64)
    requires HistoryOk(h) && |h.states| == s.current + 1 <= MAX_I64 && s.kv == Latest(h)
    requires |key| < TWO_32 && |value| < TWO_32
    ensures var next := s.kv[key := Written(s, key, value, lease)];
      && PutHistory(h, key, value, lease) == Extended(h, next) && Follows(Latest(h), next, |h.states|)
      && WrittenAt(Latest(h), next[key], key, |h.states|)
      && forall k :: k in Latest(h) ==> Latest(h)[k].createRevision <= Latest(h)[k].modRevision < |h.states|
  {
    RecordsOk(h, s.current);
  }

  lemma PutRefines(s: Store, h: History, key: Bytes, value: Bytes, lease: i64)
    requires Related(s, h) && s.current < MAX_I64 && |key| < TWO_32 && |value| < TWO_32
    ensures Related(AfterPut(s, key, value, lease), PutHistory(h, key, value, lease))
  {
    var s', h' := AfterPut(s, key, value, lease), PutHistory(h, key, value, lease);
    var next := s.kv[key := Written(s, key, value, lease)];
    PutFollows(s, h, key, value, lease);
    ExtendedOk(h, next);
    forall k ensures EntryRelated(EntryOf(s'.index, k), h', k) {
      assert EntryRelated(EntryOf(s.index, k), h, k);
      if k == key {
        EntryWritten(EntryOf(s.index, k), h, next, k);
      } else {
        EntryUntouched(EntryOf(s.index, k), h, next, k);
      }
    }
    var added := map[(s'.current, key) := next[key]];
    assert s'.log == s.log + added;
    forall r: i64, k ensures Logged(s'.log, h', r, k) {
      assert Logged(s.log, h, r, k);
      LogExtended(s.log, added, h, next, r, k);
    }
  }

  // ---------------------------------------------------------------- delete

  /** The victims of a range delete are exactly the visible keys in bounds. */
  lemma VictimsAre(s: Store, h: History, start: Bytes, end: Bytes)
    requires Related(s, h) && s.current < MAX_I64
    ensures forall k :: k in Victims(s, start, end) <==>
      k in s.kv && InBounds(k, start, end) && Shows(h, s.kv[k])
    ensures Victims(s, start, end) == VisibleKeys(s.index, start, end, s.current + 1)
  {
    var next := s.current + 1;
    forall k
      ensures k in VisibleKeys(s.index, start, end, next) <==> k in s.kv && InBounds(k, start, end) && Shows(h, s.kv[k])
    {
      var e := EntryOf(s.index, k);
      assert EntryRelated(e, h, k);
      assert EntryGet(e, next) == Shown(h, k, next);
      assert k in VisibleKeys(s.index, start, end, next) <==>
        k in s.index && InBounds(k, start, end) && Get(s.index, k, next).Some?;
    }
  }

  lemma DeleteFollows(s: Store, h: History, start: Bytes, end: Bytes)
    requires Related(s, h) && s.current < MAX_I64
    ensures var next := AfterDelete(s, start, end).kv;
      && DeleteHistory(h, start, end) == Extended(h, next) && Follows(Latest(h), next, |h.states|)
      && forall k :: k in Latest(h) ==> Latest(h)[k].createRevision <= Latest(h)[k].modRevision < |h.states|
  {
    RecordsOk(h, s.current);
    VictimsAre(s, h, start, end);
    var next := AfterDelete(s, start, end).kv;
    assert Latest(DeleteHistory(h, start, end)) == next;
  }

  /** What a range delete does to one key, in the contents, the index and the log. */
  lemma DeleteAt(s: Store, start: Bytes, end: Bytes, k: Bytes)
    ensures var s', victim := AfterDelete(s, start, end), !PanickingBounds(start, end) && k in Victims(s, start, end);
      && (k in s'.kv <==> k in s.kv && !victim) && (k in s'.kv ==> s'.kv[k] == s.kv[k])
      && EntryOf(s'.index, k) ==
           if victim then EntryTombstone(EntryOf(s.index, k), Revision(Next(s.current), 0)) else EntryOf(s.index, k)
  {
  }

  lemma TombstoneAt(keys: set<Bytes>, now: i64, r: i64, k: Bytes)
    ensures (r, k) in Tombstones(keys, now) <==> r == now && k in keys
    ensures (r, k) in Tombstones(keys, now) ==> Tombstones(keys, now)[(r, k)] == Tombstone(k, r)
  {
    assert (r, k) in LogKeys(keys, now) <==> r == now && k in keys;
  }

  lemma EntryAfterDelete(s: Store, h: History, start: Bytes, end: Bytes, k: Bytes)
    requires Related(s, h) && s.current < MAX_I64
    requires DeleteHistory(h, start, end) == Extended(h, AfterDelete(s, start, end).kv)
    requires k in Latest(h) ==> Latest(h)[k].modRevision < |h.states|
    ensures EntryRelated(EntryOf(AfterDelete(s, start, end).index, k), DeleteHistory(h, start, end), k)
  {
    var s' := AfterDelete(s, start, end);
    assert EntryRelated(EntryOf(s.index, k), h, k);
    DeleteAt(s, start, end, k);
    EntryDeleted(EntryOf(s.index, k), EntryOf(s'.index, k), h, s'.kv, k,
                 !PanickingBounds(start, end) && k in Victims(s, start, end));
  }

  lemma EntryDeleted(e: Entry, e': Entry, h: History, next: Kv, k: Bytes, victim: bool)
    requires 1 <= |h.states| <= MAX_I64 && EntryRelated(e, h, k)
    requires e' == if victim then EntryTombstone(e, Revision(|h.states|, 0)) else e
    requires (k in next <==> k in Latest(h) && !victim) && (k in next ==> next[k] == Latest(h)[k])
    requires victim ==> k in Latest(h)
    requires k in Latest(h) ==> Latest(h)[k].modRevision < |h.states|
    ensures EntryRelated(e', Extended(h, next), k)
  {
    if victim { EntryRemoved(e, h, next, k); } else { EntryUntouched(e, h, next, k); }
  }

  lemma LogAfterDelete(s: Store, h: History, start: Bytes, end: Bytes, r: i64, k: Bytes)
    requires HistoryOk(h) && |h.states| == s.current + 1 <= MAX_I64 && s.kv == Latest(h) && Logged(s.log, h, r, k)
    requires Follows(Latest(h), AfterDelete(s, start, end).kv, |h.states|)
    requires k in Latest(h) ==> Latest(h)[k].modRevision < |h.states|
    ensures Logged(AfterDelete(s, start, end).log, Extended(h, AfterDelete(s, start, end).kv), r, k)
  {
    var s' := AfterDelete(s, start, end);
    var victims := if PanickingBounds(start, end) then {} else Victims(s, start, end);
    LogOfDelete(s, start, end, victims);
    DeleteAt(s, start, end, k);
    TombstoneAt(victims, s'.current, r, k);
    LogExtended(s.log, Tombstones(victims, s'.current), h, s'.kv, r, k);
  }

  lemma LogOfDelete(s: Store, start: Bytes, end: Bytes, victims: set<Bytes>)
    requires victims == if PanickingBounds(start, end) then {} else Victims(s, start, end)
    ensures AfterDelete(s, start, end).log == s.log + Tombstones(victims, Next(s.current))
  {
  }

  lemma DeleteRefines(s: Store, h: History, start: Bytes, end: Bytes)
    requires Related(s, h) && s.current < MAX_I64
    ensures Related(AfterDelete(s, start, end), DeleteHistory(h, start, end))
  {
    var s', h' := AfterDelete(s, start, end), DeleteHistory(h, start, end);
    DeleteFollows(s, h, start, end);
    ExtendedOk(h, s'.kv);
    forall k ensures EntryRelated(EntryOf(s'.index, k), h', k) {
      EntryAfterDelete(s, h, start, end, k);
    }
    forall r: i64, k ensures Logged(s'.log, h', r, k) {
      assert Logged(s.log, h, r, k);
      LogAfterDelete(s, h, start, end, r, k);
    }
  }

  // ---------------------------------------------------------------- compact

  /** A record keeps its value from the revision it was written at to any revision it is seen at. */
  lemma {:induction false} CarriedFromWrite(h: History, r: int, k: Bytes)
    requires HistoryOk(h) && 0 <= r < |h.states| && k in h.states[r]
    ensures var m := h.states[r][k].modRevision;
      0 < m <= r && k in h.states[m] && h.states[m][k] == h.states[r][k]
  {
    RecordsOk(h, r);
    if h.states[r][k].modRevision != r {
      assert Follows(h.states[r - 1], h.states[r], r);
      CarriedFromWrite(h, r - 1, k);
    }
  }

  lemma {:induction false} WritesInclude(h: History, k: Bytes, from: int, last: int, m: int)
    requires last < |h.states| <= MAX_I64 + 1 && from <= m <= last && 0 <= m
    requires k in h.states[m] && h.states[m][k].modRevision == m
    ensures Revision(m, 0) in Writes(h, k, from, last)
    decreases last - from
  {
    if m < last { WritesInclude(h, k, from, last - 1, m); }
  }

  lemma WritesStep(h: History, k: Bytes, from: int, last: int)
    requires last < |h.states| <= MAX_I64 + 1 && from <= last && 0 <= last
    ensures Writes(h, k, from, last) == Writes(h, k, from, last - 1)
      + if k in h.states[last] && h.states[last][k].modRevision == last then [Revision(last, 0)] else []
  {
  }

  lemma {:induction false} RetainWrites(h: History, k: Bytes, from: int, last: int, c: i64)
    requires last < |h.states| <= MAX_I64 + 1
    ensures Retain(Writes(h, k, from, last), c) == Writes(h, k, Max(from, c), last)
    decreases last - from
  {
    if last < from || last < 0 {
      assert Writes(h, k, from, last) == [];
    } else {
      RetainWrites(h, k, from, last - 1, c);
      WritesStep(h, k, from, last);
      RetainAppend(Writes(h, k, from, last - 1), Revision(last, 0), c);
      if Max(from, c) <= last {
        WritesStep(h, k, Max(from, c), last);
      } else {
        assert Writes(h, k, Max(from, c), last - 1) == [];
      }
    }
  }

  lemma RetainAppend(revisions: seq<Revision>, rev: Revision, c: i64)
    ensures Retain(revisions + [rev], c) == Retain(revisions, c) + if rev.main >= c then [rev] else []
    ensures Retain(revisions + [], c) == Retain(revisions, c)
  {
    assert (revisions + [rev])[..|revisions|] == revisions;
    assert revisions + [] == revisions;
  }

  lemma LiveRevisionsAfterCompact(g: Generation, h: History, k: Bytes, from: int, c: i64)
    requires HistoryOk(h) && c < |h.states|
    requires g.revisions == Writes(h, k, from, |h.states| - 1)
    ensures GenerationCompact(g, c).revisions == Writes(CompactHistory(h, c), k, Max(from, c), |h.states| - 1)
  {
    RetainWrites(h, k, from, |h.states| - 1, c);
    WritesOfMark(h, CompactHistory(h, c).mark, k, Max(from, c), |h.states| - 1);
  }

  /** A live generation keeps at least its latest write unless compaction passes that write. */
  lemma LiveKeepsWrite(h: History, k: Bytes, from: int, c: int)
    requires HistoryOk(h) && k in Latest(h) && from <= Latest(h)[k].modRevision && c <= 0 < from
    ensures Writes(h, k, Max(from, c), |h.states| - 1) != []
  {
    CarriedFromWrite(h, |h.states| - 1, k);
    WritesInclude(h, k, Max(from, c), |h.states| - 1, Latest(h)[k].modRevision);
  }

  lemma LiveCreatedAfterCompact(g: Generation, h: History, k: Bytes, from: int, c: i64)
    requires HistoryOk(h) && k in Latest(h) && 0 < from <= Latest(h)[k].modRevision && c <= 0
    requires g.revisions == Writes(h, k, from, |h.states| - 1)
    ensures GenerationCompact(g, c).created == g.created
  {
    RetainWrites(h, k, from, |h.states| - 1, c);
    LiveKeepsWrite(h, k, from, c);
  }

  lemma ListsWritesAfterCompact(g: Generation, h: History, k: Bytes, c: i64)
    requires HistoryOk(h) && c < |h.states| && k in Latest(h) && ListsWrites(g, h, k)
    ensures ListsWrites(GenerationCompact(g, c), CompactHistory(h, c), k)
  {
    var create := Latest(h)[k].createRevision;
    assert 2 <= create <= Latest(h)[k].modRevision by { RecordsOk(h, |h.states| - 1); }
    LiveRevisionsAfterCompact(g, h, k, Max(create, h.mark), c);
    if h.mark == 0 && c <= 0 {
      LiveCreatedAfterCompact(g, h, k, create, c);
    }
  }

  lemma LiveAfterCompact(e: Entry, h: History, k: Bytes, c: i64)
    requires HistoryOk(h) && LiveGeneration(e, h, k) && c < |h.states|
    ensures LiveGeneration(EntryCompact(e, c), CompactHistory(h, c), k)
  {
    if k in Latest(h) && LastAlive(e) {
      ListsWritesAfterCompact(e[|e| - 1], h, k, c);
      assert EntryCompact(e, c)[|e| - 1] == GenerationCompact(e[|e| - 1], c);
    }
  }

  lemma {:induction false} WritesOfMark(h: History, mark: int, k: Bytes, from: int, last: int)
    requires last < |h.states| <= MAX_I64 + 1
    ensures Writes(h.(mark := mark), k, from, last) == Writes(h, k, from, last)
    decreases last - from
  {
    if last >= from && last >= 0 {
      WritesOfMark(h, mark, k, from, last - 1);
    }
  }

  lemma ShownAfterCompact(e: Entry, h: History, k: Bytes, c: i64, r: int)
    requires 1 <= |h.states| && EntryOk(e, |h.states| - 1) && Answers(e, h, k) && c < |h.states| && r >= 1
    ensures EntryGet(EntryCompact(e, c), r) == Shown(CompactHistory(h, c), k, r)
  {
    GetAfterCompact(e, |h.states| - 1, c, r);
    assert EntryGet(e, r) == Shown(h, k, r);
    ShownOfCompact(h, k, c, r);
  }

  /** A compaction hides what was written below its point. */
  lemma ShownOfCompact(h: History, k: Bytes, c: i64, r: int)
    requires 1 <= |h.states| && c < |h.states| && r >= 1
    ensures Shown(CompactHistory(h, c), k, r) == AtLeast(Shown(h, k, r), c)
  {
  }

  lemma CompactKeepsOk(e: Entry, bound: int, c: i64)
    requires EntryOk(e, bound) && c <= bound
    ensures EntryOk(EntryCompact(e, c), bound) && (LastAlive(EntryCompact(e, c)) <==> LastAlive(e))
  {
    GetAfterCompact(e, bound, c, 0);
  }

  lemma VisibleAfterCompact(e: Entry, bound: int, c: i64, x: Revision)
    requires EntryOk(e, bound) && c <= bound && Held(EntryCompact(e, c), x)
    requires Held(e, x) ==> x.main >= 1 && EntryGet(e, x.main) == Some(x)
    ensures x.main >= 1 && EntryGet(EntryCompact(e, c), x.main) == Some(x)
  {
    var e' := EntryCompact(e, c);
    var i :| 0 <= i < |e'| && x in e'[i].revisions;
    RetainKeeps(e[i].revisions, c);
    assert x in e[i].revisions;
    GetAfterCompact(e, bound, c, x.main);
  }

  lemma RelatedParts(e: Entry, h: History, k: Bytes, bound: int)
    requires 1 <= |h.states| <= MAX_I64 + 1 && bound == |h.states| - 1
    requires EntryOk(e, bound) && Answers(e, h, k) && HeldAnswered(e) && LiveGeneration(e, h, k)
    requires k in Latest(h) <==> LastAlive(e)
    ensures EntryRelated(e, h, k)
  {
  }

  lemma EntryCompacted(e: Entry, h: History, k: Bytes, c: i64)
    requires HistoryOk(h) && EntryRelated(e, h, k) && c < |h.states|
    ensures EntryRelated(EntryCompact(e, c), CompactHistory(h, c), k)
  {
    CompactKeepsOk(e, |h.states| - 1, c);
    AnswersCompacted(e, h, k, c);
    HeldCompacted(e, |h.states| - 1, c);
    LiveAfterCompact(e, h, k, c);
    assert CompactHistory(h, c).states == h.states;
    RelatedParts(EntryCompact(e, c), CompactHistory(h, c), k, |h.states| - 1);
  }

  lemma AnswersCompacted(e: Entry, h: History, k: Bytes, c: i64)
    requires 1 <= |h.states| && EntryOk(e, |h.states| - 1) && Answers(e, h, k) && c < |h.states|
    ensures Answers(EntryCompact(e, c), CompactHistory(h, c), k)
  {
    forall r | r >= 1 ensures EntryGet(EntryCompact(e, c), r) == Shown(CompactHistory(h, c), k, r) {
      ShownAfterCompact(e, h, k, c, r);
    }
  }

  lemma HeldCompacted(e: Entry, bound: int, c: i64)
    requires EntryOk(e, bound) && c <= bound && HeldAnswered(e)
    ensures HeldAnswered(EntryCompact(e, c))
  {
    forall x | Held(EntryCompact(e, c), x) ensures x.main >= 1 && EntryGet(EntryCompact(e, c), x.main) == Some(x) {
      VisibleAfterCompact(e, bound, c, x);
    }
  }

  lemma CompactRefines(s: Store, h: History, c: i64)
    requires Related(s, h)
    ensures Related(AfterCompact(s, c), CompactHistory(h, c))
  {
    if c <= s.current {
      var s', h' := AfterCompact(s, c), CompactHistory(h, c);
      forall k ensures EntryRelated(EntryOf(s'.index, k), h', k) {
        assert EntryRelated(EntryOf(s.index, k), h, k);
        EntryCompacted(EntryOf(s.index, k), h, k, c);
        assert EntryOf(s'.index, k) == EntryCompact(EntryOf(s.index, k), c);
      }
      forall r: i64, k ensures Logged(s'.log, h', r, k) {
        assert Logged(s.log, h, r, k);
      }
    }
  }

  // ---------------------------------------------------------------- runs

  function StepHistory(h: History, op: Op): History
    requires 1 <= |h.states| <= MAX_I64
  {
    match op
    case Put(key, value, lease) => PutHistory(h, key, value, lease)
    case Delete(start, end) => DeleteHistory(h, start, end)
    case Compact(c) => CompactHistory(h, c)
  }

  function RunHistory(h: History, ops: seq<Op>): (r: History)
    requires 1 <= |h.states| && |h.states| + |ops| <= MAX_I64 + 1
    ensures |h.states| <= |r.states| <= |h.states| + |ops|
  {
    if ops == [] then h else StepHistory(RunHistory(h, ops[..|ops| - 1]), ops[|ops| - 1])
  }

  ghost predicate Runnable(ops: seq<Op>) {
    |ops| < MAX_I64 && forall op :: op in ops ==> Storable(op)
  }

  lemma StepRefines(s: Store, h: History, op: Op)
    requires Related(s, h) && s.current < MAX_I64 && Storable(op)
    ensures Related(Step(s, op), StepHistory(h, op))
  {
    match op
    case Put(key, value, lease) => PutRefines(s, h, key, value, lease);
    case Delete(start, end) => DeleteRefines(s, h, start, end);
    case Compact(c) => CompactRefines(s, h, c);
  }

  /** Every run of puts, range deletes and compactions from the empty store follows the reference. */
  lemma {:induction false} RunRefines(ops: seq<Op>)
    requires Runnable(ops)
    ensures Related(Run(EMPTY, ops), RunHistory(BEGINNING, ops))
  {
    if ops == [] {
      BeginningRelated();
    } else {
      RunRefines(ops[..|ops| - 1]);
      StepRefines(Run(EMPTY, ops[..|ops| - 1]), RunHistory(BEGINNING, ops[..|ops| - 1]), ops[|ops| - 1]);
    }
  }
}
