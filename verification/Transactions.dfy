/** What transactions test and answer, told from the history the store stands for: the fields a compare
    looks at, what its guards guarantee, and what the responses hold (src/api/kv_service.rs). */
module Transactions {
  import opened ByteStrings
  import opened KeyValues
  import opened KeyIndexing
  import opened Stores
  import opened Histories
  import opened Reads
  import opened Writings
  import opened KvServices

  // ---------------------------------------------------------------- compares

  /** The record a compare of `key` looks at: the visible one, or a record of zeros. */
  function Compared(h: History, key: Bytes): KeyValue
    requires h.states != []
  {
    var visible := VisibleAt(h, |h.states| - 1);
    if key in visible then visible[key] else KeyValue(key, 0, 0, 0, [], 0)
  }

  /** The four relations of a target, evaluated now: they say that the field equals, exceeds, stays below
      and differs from what the compare names. */
  ghost predicate Says(s: Store, key: Bytes, target: Target, equal: bool, greater: bool, smaller: bool) {
    && (Evaluates(s, Compare(key, Equal, target), s.current) <==> equal)
    && (Evaluates(s, Compare(key, Greater, target), s.current) <==> greater)
    && (Evaluates(s, Compare(key, Smaller, target), s.current) <==> smaller)
    && (Evaluates(s, Compare(key, NotEqual, target), s.current) <==> !equal)
  }

  /** What every target and relation tests, of the record visible now or of zeros and the empty value
      without one. A compare without a target holds. */
  lemma CompareMeans(s: Store, h: History, key: Bytes, n: i64, b: Bytes, result: CompareResult)
    requires Related(s, h)
    ensures var kv := Compared(h, key);
      && Says(s, key, Version(n), kv.version == n, kv.version > n, kv.version < n)
      && Says(s, key, CreateRevision(n), kv.createRevision == n, kv.createRevision > n, kv.createRevision < n)
      && Says(s, key, ModRevision(n), kv.modRevision == n, kv.modRevision > n, kv.modRevision < n)
      && Says(s, key, Lease(n), kv.lease == n, kv.lease > n, kv.lease < n)
      && Says(s, key, Value(b), kv.value == b, Less(b, kv.value), Less(kv.value, b))
      && Evaluates(s, Compare(key, result, NoTarget), s.current)
  {
    VersionSays(s, h, key, n);
    CreateSays(s, h, key, n);
    ModSays(s, h, key, n);
    LeaseSays(s, h, key, n);
    ValueSays(s, h, key, b);
    CompareTestsVisibleRecord(s, h, Compare(key, result, NoTarget));
  }

  lemma FourCompares(s: Store, h: History, key: Bytes, target: Target)
    requires Related(s, h)
    ensures var visible := VisibleAt(h, s.current);
      var kv := if key in visible then Some(visible[key]) else None;
      forall result :: Evaluates(s, Compare(key, result, target), s.current) <==>
        Holds(kv, Compare(key, result, target))
  {
    forall result { CompareTestsVisibleRecord(s, h, Compare(key, result, target)); }
  }

  lemma VersionSays(s: Store, h: History, key: Bytes, n: i64)
    requires Related(s, h)
    ensures var kv := Compared(h, key); Says(s, key, Version(n), kv.version == n, kv.version > n, kv.version < n)
  {
    FourCompares(s, h, key, Version(n));
  }

  lemma CreateSays(s: Store, h: History, key: Bytes, n: i64)
    requires Related(s, h)
    ensures var kv := Compared(h, key);
      Says(s, key, CreateRevision(n), kv.createRevision == n, kv.createRevision > n, kv.createRevision < n)
  {
    FourCompares(s, h, key, CreateRevision(n));
  }

  lemma ModSays(s: Store, h: History, key: Bytes, n: i64)
    requires Related(s, h)
    ensures var kv := Compared(h, key);
      Says(s, key, ModRevision(n), kv.modRevision == n, kv.modRevision > n, kv.modRevision < n)
  {
    FourCompares(s, h, key, ModRevision(n));
  }

  lemma LeaseSays(s: Store, h: History, key: Bytes, n: i64)
    requires Related(s, h)
    ensures var kv := Compared(h, key); Says(s, key, Lease(n), kv.lease == n, kv.lease > n, kv.lease < n)
  {
    FourCompares(s, h, key, Lease(n));
  }

  lemma ValueSays(s: Store, h: History, key: Bytes, b: Bytes)
    requires Related(s, h)
    ensures var kv := Compared(h, key); Says(s, key, Value(b), kv.value == b, Less(b, kv.value), Less(kv.value, b))
  {
    FourCompares(s, h, key, Value(b));
  }

  /** On every target exactly one of equal, greater and smaller holds, and not-equal is the opposite of
      equal. */
  lemma CompareTrichotomy(s: Store, h: History, key: Bytes, target: Target)
    requires Related(s, h) && target != NoTarget
    ensures var e := Evaluates(s, Compare(key, Equal, target), s.current);
      var g := Evaluates(s, Compare(key, Greater, target), s.current);
      var l := Evaluates(s, Compare(key, Smaller, target), s.current);
      && (e || g || l) && !(e && g) && !(e && l) && !(g && l)
      && (Evaluates(s, Compare(key, NotEqual, target), s.current) <==> !e)
  {
    var kv := Compared(h, key);
    match target
    case Version(n) => VersionSays(s, h, key, n);
    case CreateRevision(n) => CreateSays(s, h, key, n);
    case ModRevision(n) => ModSays(s, h, key, n);
    case Lease(n) => LeaseSays(s, h, key, n);
    case Value(b) =>
      ValueSays(s, h, key, b);
      LessTotal(kv.value, b);
  }

  /** The two guards clients build updates on. "Modification revision equals `r`" holds exactly if the key is
      visible, was written at `r` and has not changed since; "create revision equals 0" holds exactly if no
      read shows the key. */
  lemma GuardsMean(s: Store, h: History, key: Bytes, r: i64)
    requires Related(s, h) && r > 0
    ensures Evaluates(s, Compare(key, Equal, ModRevision(r)), s.current) <==>
      key in VisibleAt(h, s.current) && UnchangedSince(h, s.current, key, r)
    ensures Evaluates(s, Compare(key, Equal, CreateRevision(0)), s.current) <==>
      RangeOf(s, key, key + [0], 0, 0, false) == Done(RangeResult([], false, 0))
  {
    ModSays(s, h, key, r);
    CreateSays(s, h, key, 0);
    KeyRead(s, h, key, 0);
    RecordsOk(h, s.current);
    if key in VisibleAt(h, s.current) { LastWriteExactly(h, s.current, key, r); }
  }

  /** The key changed at `r` and not again up to `last`. */
  ghost predicate UnchangedSince(h: History, last: int, key: Bytes, r: int) {
    r <= last && Changed(h, r, key) && forall t :: r < t <= last ==> !Changed(h, t, key)
  }

  /** The record of a key names the revision of its last change. */
  lemma {:induction false} LastWriteExactly(h: History, last: int, key: Bytes, r: int)
    requires HistoryOk(h) && r > 0 && 0 <= last < |h.states| && key in h.states[last]
    ensures h.states[last][key].modRevision == r <==> UnchangedSince(h, last, key, r)
  {
    RecordsOk(h, last);
    if h.states[last][key].modRevision == last {
      assert Changed(h, last, key);
    } else {
      assert Follows(h.states[last - 1], h.states[last], last);
      LastWriteExactly(h, last - 1, key, r);
    }
  }

  // ---------------------------------------------------------------- answers

  /** The history some operations of a transaction lead to. */
  function HistoryAfter(h: History, before: seq<RequestOp>): (r: History)
    requires h.states != [] && |h.states| + |before| <= MAX_I64
    ensures r.states != []
  {
    RunAppends(h, WritesOf(before));
    RunHistory(h, WritesOf(before))
  }

  function VisibleNow(h: History): Kv
    requires h.states != []
  {
    VisibleAt(h, |h.states| - 1)
  }

  /** Operations that went through, with their answers. */
  ghost predicate WentThrough(s0: Store, h: History, before: seq<RequestOp>, done: seq<ResponseOp>) {
    && Related(s0, h) && s0.current + |before| < MAX_I64 && (forall op :: op in before ==> Fits(op))
    && TxnRun(s0, s0.current, before, []).1 == Done(done)
  }

  lemma StoreNow(s0: Store, h: History, before: seq<RequestOp>, done: seq<ResponseOp>)
    requires WentThrough(s0, h, before, done)
    ensures Related(Run(s0, WritesOf(before)), HistoryAfter(h, before))
    ensures TxnRun(s0, s0.current, before, []) == (Run(s0, WritesOf(before)), Done(done))
    ensures Run(s0, WritesOf(before)).current <= s0.current + |before|
  {
    TxnWrites(s0, s0.current, before);
    RunRefinesFrom(s0, h, WritesOf(before));
    RunAppends(h, WritesOf(before));
  }

  /** A range of a transaction, after any operations that went through: its answer is added behind theirs,
      and holds what the history shows at the revision the transaction began with, all of it and counted.
      The header carries the running revision. */
  lemma RangeAnswers(s0: Store, h: History, before: seq<RequestOp>, done: seq<ResponseOp>, key: Bytes, rangeEnd: Bytes)
    requires WentThrough(s0, h, before, done) && !PanickingBounds(key, TxnEnd(key, rangeEnd))
    ensures var s, end := Run(s0, WritesOf(before)), TxnEnd(key, rangeEnd);
      var all := Scan(VisibleNow(h), key, end);
      TxnRun(s0, s0.current, before + [RangeRequest(key, rangeEnd)], []) ==
        (s, Done(done + [RangeResponse(s.current, RangeResult(all, false, |all|))]))
  {
    StoreNow(s0, h, before, done);
    TxnInTwo(s0, s0.current, before, RangeRequest(key, rangeEnd), []);
    FirstRead(s0, h, before, done, key, TxnEnd(key, rangeEnd));
    RangeStep(Run(s0, WritesOf(before)), s0.current, done, key, rangeEnd,
              Scan(VisibleNow(h), key, TxnEnd(key, rangeEnd)));
  }

  lemma RangeStep(s: Store, at: i64, done: seq<ResponseOp>, key: Bytes, rangeEnd: Bytes, first: seq<KeyValue>)
    requires RangeOf(s, key, TxnEnd(key, rangeEnd), at, 0, false) == Done(RangeResult(first, false, |first|))
    ensures AndThen((s, Done(done)), at, RangeRequest(key, rangeEnd)) ==
      (s, Done(done + [RangeResponse(s.current, RangeResult(first, false, |first|))]))
  {
  }

  /** A delete of a transaction: the count is that of the keys visible by then, the previous records,
      if asked for, are those visible when the transaction began. The two can differ. */
  lemma DeleteAnswers(s0: Store, h: History, before: seq<RequestOp>, done: seq<ResponseOp>, key: Bytes, rangeEnd: Bytes,
                      prevKv: bool)
    requires WentThrough(s0, h, before, done) && !PanickingBounds(key, TxnEnd(key, rangeEnd))
    ensures var s, end := Run(s0, WritesOf(before)), TxnEnd(key, rangeEnd);
      var now, first := Scan(VisibleNow(HistoryAfter(h, before)), key, end), Scan(VisibleNow(h), key, end);
      TxnRun(s0, s0.current, before + [DeleteRequest(key, rangeEnd, prevKv)], []) ==
        (AfterDelete(s, key, end),
         Done(done + [DeleteResponse(Next(s.current), |now|, if prevKv then first else [])]))
  {
    var s, end := Run(s0, WritesOf(before)), TxnEnd(key, rangeEnd);
    StoreNow(s0, h, before, done);
    TxnInTwo(s0, s0.current, before, DeleteRequest(key, rangeEnd, prevKv), []);
    FirstRead(s0, h, before, done, key, end);
    DeletedAreVisible(s, HistoryAfter(h, before), key, end);
    DeleteStep(s, s0.current, done, key, rangeEnd, prevKv, Scan(VisibleNow(h), key, end));
  }

  /** They differ on a key that no read shows: put and deleted in one transaction, it counts as deleted
      and is not reported. */
  lemma DeleteCountsUnreported(s0: Store, h: History, key: Bytes, value: Bytes)
    requires Related(s0, h) && s0.current < MAX_I64 - 1 && |key| < TWO_32 && |value| < TWO_32
    requires key !in VisibleNow(h)
    ensures TxnRun(s0, s0.current, [PutRequest(key, value, 0, false)] + [DeleteRequest(key, [], true)], []).1 ==
      Done([PutResponse(Next(s0.current), None)] + [DeleteResponse(Next(Next(s0.current)), 1, [])])
  {
    var put, done := PutRequest(key, value, 0, false), [PutResponse(Next(s0.current), None)];
    PutWentThrough(s0, h, key, value);
    OneDeleted(s0, h, [put], done, key);
  }

  lemma PutWentThrough(s0: Store, h: History, key: Bytes, value: Bytes)
    requires Related(s0, h) && s0.current < MAX_I64 - 1 && |key| < TWO_32 && |value| < TWO_32
    ensures var put := PutRequest(key, value, 0, false);
      && WentThrough(s0, h, [put], [PutResponse(Next(s0.current), None)])
      && Run(s0, WritesOf([put])).current == Next(s0.current) && key in VisibleNow(HistoryAfter(h, [put]))
  {
    FirstPut(s0, key, value);
    WritesOfPut(s0, h, PutRequest(key, value, 0, false));
    PutVisible(h, key, value);
  }

  /** The delete of one key that is visible by now and was not at first. */
  lemma OneDeleted(s0: Store, h: History, before: seq<RequestOp>, done: seq<ResponseOp>, key: Bytes)
    requires WentThrough(s0, h, before, done)
    requires key !in VisibleNow(h) && key in VisibleNow(HistoryAfter(h, before))
    ensures TxnRun(s0, s0.current, before + [DeleteRequest(key, [], true)], []).1 ==
      Done(done + [DeleteResponse(Next(Run(s0, WritesOf(before)).current), 1, [])])
  {
    SingleKeyBounds(key);
    DeleteAnswers(s0, h, before, done, key, [], true);
    SingleKeyScan(VisibleNow(h), key);
    SingleKeyScan(VisibleNow(HistoryAfter(h, before)), key);
  }

  lemma FirstPut(s: Store, key: Bytes, value: Bytes)
    ensures TxnRun(s, s.current, [PutRequest(key, value, 0, false)], [])
      == (AfterPut(s, key, value, 0), Done([PutResponse(Next(s.current), None)]))
  {
    var put := PutRequest(key, value, 0, false);
    TxnInTwo(s, s.current, [], put, []);
    PutStep(s, s.current, [], key, value, 0, false);
    assert [] + [put] == [put];
    assert TxnRun(s, s.current, [], []) == (s, Done([]));
    var answer := [PutResponse(Next(s.current), None)];
    assert [] + answer == answer;
  }

  lemma WritesOfPut(s: Store, h: History, put: RequestOp)
    requires put.PutRequest? && 1 <= |h.states| <= MAX_I64
    ensures WritesOf([put]) == [Put(put.key, put.value, put.lease)]
    ensures Run(s, WritesOf([put])) == AfterPut(s, put.key, put.value, put.lease)
    ensures RunHistory(h, WritesOf([put])) == PutHistory(h, put.key, put.value, put.lease)
  {
    assert [put][..0] == [] && [Put(put.key, put.value, put.lease)][..0] == [];
  }

  lemma PutVisible(h: History, key: Bytes, value: Bytes)
    requires HistoryOk(h) && |h.states| <= MAX_I64
    ensures key in VisibleNow(PutHistory(h, key, value, 0))
  {
  }

  /** A read within the transaction is a read of the visible contents it began with. */
  lemma FirstRead(s0: Store, h: History, before: seq<RequestOp>, done: seq<ResponseOp>, key: Bytes, end: Bytes)
    requires WentThrough(s0, h, before, done) && !PanickingBounds(key, end)
    ensures var first := Scan(VisibleNow(h), key, end);
      RangeOf(Run(s0, WritesOf(before)), key, end, s0.current, 0, false) == Done(RangeResult(first, false, |first|))
  {
    CapturedRead(s0, h, WritesOf(before), key, end);
    FullCurrentRead(s0, h, key, end);
  }

  lemma DeleteStep(s: Store, at: i64, done: seq<ResponseOp>, key: Bytes, rangeEnd: Bytes, prevKv: bool,
                   first: seq<KeyValue>)
    requires !PanickingBounds(key, TxnEnd(key, rangeEnd))
    requires RangeOf(s, key, TxnEnd(key, rangeEnd), at, 0, false) == Done(RangeResult(first, false, |first|))
    ensures var end := TxnEnd(key, rangeEnd);
      AndThen((s, Done(done)), at, DeleteRequest(key, rangeEnd, prevKv)) ==
        (AfterDelete(s, key, end),
         Done(done + [DeleteResponse(Next(s.current), |DeletedKvs(s, key, end)|, if prevKv then first else [])]))
  {
  }

  /** A put of a transaction answers with the revision it made and, if asked, the record before. */
  lemma PutAnswered(s0: Store, h: History, before: seq<RequestOp>, done: seq<ResponseOp>, key: Bytes, value: Bytes,
                    lease: i64, prevKv: bool)
    requires WentThrough(s0, h, before, done)
    ensures var s, now := Run(s0, WritesOf(before)), Latest(HistoryAfter(h, before));
      TxnRun(s0, s0.current, before + [PutRequest(key, value, lease, prevKv)], []) ==
        (AfterPut(s, key, value, lease),
         Done(done + [PutResponse(Next(s.current), if prevKv && key in now then Some(now[key]) else None)]))
  {
    StoreNow(s0, h, before, done);
    TxnInTwo(s0, s0.current, before, PutRequest(key, value, lease, prevKv), []);
    PutStep(Run(s0, WritesOf(before)), s0.current, done, key, value, lease, prevKv);
  }

  lemma PutStep(s: Store, at: i64, done: seq<ResponseOp>, key: Bytes, value: Bytes, lease: i64, prevKv: bool)
    ensures AndThen((s, Done(done)), at, PutRequest(key, value, lease, prevKv)) ==
      (AfterPut(s, key, value, lease),
       Done(done + [PutResponse(Next(s.current), if prevKv && key in s.kv then Some(s.kv[key]) else None)]))
  {
  }

  /** Whether the bounds of an operation panic. */
  predicate Inverted(op: RequestOp) {
    (op.RangeRequest? || op.DeleteRequest?) && PanickingBounds(op.key, TxnEnd(op.key, op.rangeEnd))
  }

  /** What stops a transaction: a nested one, and a range or delete whose bounds are inverted; such a
      range, or a delete that is to read them first, leaves the store, a plain delete takes a revision. */
  lemma Stops(s: Store, at: i64, done: seq<ResponseOp>, op: RequestOp)
    ensures var run := AndThen((s, Done(done)), at, op);
      && (run.1.Panicked? <==> Inverted(op)) && (run.1.Failed? <==> op.TxnRequest?)
      && (!run.1.Done? ==> run.0 == if op.DeleteRequest? && !op.prevKv then s.(current := Next(s.current)) else s)
  {
  }
}
