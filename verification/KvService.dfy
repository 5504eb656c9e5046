/** The key-value service over the store: range ends, compares and transactions (src/api/kv_service.rs). */
module KvServices {
  import opened ByteStrings
  import opened KeyValues
  import opened KeyIndexing
  import opened Stores
  import opened Histories
  import opened Reads
  import opened Mvcc
  import opened WatchRanges

  // ---------------------------------------------------------------- range ends

  /** The end handed to the store by the range and delete handlers. */
  function EffectiveEnd(key: Bytes, rangeEnd: Bytes): Bytes {
    if rangeEnd == [] then key + [0]
    else if rangeEnd == [0] then []
    else rangeEnd
  }

  /** The end handed to the store inside a transaction: the zero byte gets no special treatment. */
  function TxnEnd(key: Bytes, rangeEnd: Bytes): Bytes {
    if rangeEnd == [] then key + [0] else rangeEnd
  }

  /** A range request and a watch on the same key and range end cover the same keys, for every range
      end including the special ones and the inverted ones. */
  lemma RangeConventionsAgree(key: Bytes, rangeEnd: Bytes, k: Bytes)
    ensures WatchRange(key, rangeEnd).Contains(k) <==> InBounds(k, key, EffectiveEnd(key, rangeEnd))
  {
    SuccessorIsTight(key, k);
    LessTotal(key, key);
  }

  /** Transactions cover the same keys as plain requests exactly when the range end is not the zero
      byte; on the zero byte they panic for every key above it. */
  lemma TxnConventionDiffers(key: Bytes, rangeEnd: Bytes)
    ensures (forall k :: InBounds(k, key, TxnEnd(key, rangeEnd)) <==> InBounds(k, key, EffectiveEnd(key, rangeEnd)))
      <==> rangeEnd != [0]
    ensures PanickingBounds(key, TxnEnd(key, [0])) <==> Less([0], key)
  {
    if rangeEnd == [0] {
      var k := key + [0];
      SuccessorIsTight(key, key);
      LessTotal(key, k);
      assert InBounds(k, key, EffectiveEnd(key, rangeEnd));
      assert !Less(k, [0]) by {
        if key != [] { assert k[0] == key[0]; }
      }
      assert !InBounds(k, key, TxnEnd(key, rangeEnd));
    } else {
      assert TxnEnd(key, rangeEnd) == EffectiveEnd(key, rangeEnd);
    }
  }

  // ---------------------------------------------------------------- compares

  datatype Target = Version(version: i64) | CreateRevision(create: i64) | ModRevision(mod: i64)
                  | Value(value: Bytes) | Lease(lease: i64) | NoTarget

  datatype CompareResult = Equal | Greater | Smaller | NotEqual

  datatype Compare = Compare(key: Bytes, result: CompareResult, target: Target)

  predicate CompareI64(actual: i64, target: i64, result: CompareResult) {
    match result
    case Equal => actual == target
    case Greater => actual > target
    case Smaller => actual < target
    case NotEqual => actual != target
  }

  predicate CompareBytes(actual: Bytes, target: Bytes, result: CompareResult) {
    match result
    case Equal => actual == target
    case Greater => Less(target, actual)
    case Smaller => Less(actual, target)
    case NotEqual => actual != target
  }

  /** A compare against the record of its key, or against zeros and the empty value without one. */
  predicate Holds(kv: Option<KeyValue>, cmp: Compare) {
    match cmp.target
    case Version(t) => CompareI64(if kv.Some? then kv.value.version else 0, t, cmp.result)
    case CreateRevision(t) => CompareI64(if kv.Some? then kv.value.createRevision else 0, t, cmp.result)
    case ModRevision(t) => CompareI64(if kv.Some? then kv.value.modRevision else 0, t, cmp.result)
    case Value(t) => CompareBytes(if kv.Some? then kv.value.value else [], t, cmp.result)
    case Lease(t) => CompareI64(if kv.Some? then kv.value.lease else 0, t, cmp.result)
    case NoTarget => true
  }

  /** `evaluate_compare`: reads the key with a limit of one at the given revision. */
  predicate Evaluates(s: Store, cmp: Compare, at: i64) {
    var r := RangeOf(s, cmp.key, cmp.key + [0], at, 1, false);
    Holds(if r.Done? && r.value.kvs != [] then Some(r.value.kvs[0]) else None, cmp)
  }

  /** In every reachable store a compare at the current revision tests the visible record of its key,
      or the defaults when there is none. */
  lemma CompareTestsVisibleRecord(s: Store, h: History, cmp: Compare)
    requires Related(s, h)
    ensures var visible := VisibleAt(h, s.current);
      Evaluates(s, cmp, s.current) <==> Holds(if cmp.key in visible then Some(visible[cmp.key]) else None, cmp)
  {
    RangeIsReference(s, h, cmp.key, cmp.key + [0], s.current, 1, false);
    SingleKeyBounds(cmp.key);
    SingleKeyScan(VisibleAt(h, s.current), cmp.key);
  }

  // ---------------------------------------------------------------- transactions

  datatype RequestOp = RangeRequest(key: Bytes, rangeEnd: Bytes)
                     | PutRequest(key: Bytes, value: Bytes, lease: i64, prevKv: bool)
                     | DeleteRequest(key: Bytes, rangeEnd: Bytes, prevKv: bool)
                     | TxnRequest
                     | NoRequest

  /** Each response carries the store revision of its header. */
  datatype ResponseOp = RangeResponse(revision: i64, result: RangeResult)
                      | PutResponse(revision: i64, prev: Option<KeyValue>)
                      | DeleteResponse(revision: i64, deleted: nat, prevKvs: seq<KeyValue>)

  datatype TxnResponse = TxnResponse(revision: i64, succeeded: bool, responses: seq<ResponseOp>)

  /** One operation of `txn` on store `s`, its reads at revision `at`. A nested transaction is refused. */
  function OpRun(s: Store, at: i64, op: RequestOp): (Store, Outcome<seq<ResponseOp>>) {
    match op
    case NoRequest => (s, Done([]))
    case TxnRequest => (s, Failed)
    case RangeRequest(key, rangeEnd) => (s, Answer(s.current, RangeOf(s, key, TxnEnd(key, rangeEnd), at, 0, false)))
    case PutRequest(key, value, lease, prevKv) =>
      var s' := AfterPut(s, key, value, lease);
      (s', Done([PutResponse(s'.current, if prevKv then Previous(s, key) else None)]))
    case DeleteRequest(key, rangeEnd, prevKv) =>
      var end := TxnEnd(key, rangeEnd);
      DeleteRun(s, key, end, if prevKv then RangeOf(s, key, end, at, 0, false) else NO_RECORDS)
  }

  const NO_RECORDS: Outcome<RangeResult> := Done(RangeResult([], false, 0))

  function Answer(revision: i64, r: Outcome<RangeResult>): Outcome<seq<ResponseOp>> {
    match r
    case Done(result) => Done([RangeResponse(revision, result)])
    case Failed => Failed
    case Panicked => Panicked
  }

  /** A delete of a transaction, for what the read of the previous records gave. */
  function DeleteRun(s: Store, key: Bytes, end: Bytes, prev: Outcome<RangeResult>): (Store, Outcome<seq<ResponseOp>>) {
    match prev
    case Failed => (s, Failed)
    case Panicked => (s, Panicked)
    case Done(result) =>
      var s' := AfterDelete(s, key, end);
      (s', if PanickingBounds(key, end) then Panicked
           else Done([DeleteResponse(s'.current, |DeletedKvs(s, key, end)|, result.kvs)]))
  }

  /** The operation loop of `txn` from store `s` on, all reads at revision `at`. The first operation that
      fails ends it: what earlier operations wrote stays written. */
  function TxnRun(s: Store, at: i64, ops: seq<RequestOp>, done: seq<ResponseOp>): (Store, Outcome<seq<ResponseOp>>)
    decreases |ops|
  {
    if ops == [] then (s, Done(done))
    else
      var (s', r) := OpRun(s, at, ops[0]);
      if r.Done? then TxnRun(s', at, ops[1..], done + r.value) else (s', r)
  }

  /** An operation of the reference transaction: every range, and the previous records a delete reports,
      are current reads of the store `s0` the transaction began with. The previous record a put reports
      is that of the running store; `PutReportsPrevious` relates it to `s0`. */
  function SnapshotOp(s0: Store, s: Store, op: RequestOp): (Store, Outcome<seq<ResponseOp>>) {
    match op
    case NoRequest => (s, Done([]))
    case TxnRequest => (s, Failed)
    case RangeRequest(key, rangeEnd) => (s, Answer(s.current, RangeOf(s0, key, TxnEnd(key, rangeEnd), 0, 0, false)))
    case PutRequest(key, value, lease, prevKv) =>
      var s' := AfterPut(s, key, value, lease);
      (s', Done([PutResponse(s'.current, if prevKv then Previous(s, key) else None)]))
    case DeleteRequest(key, rangeEnd, prevKv) =>
      var end := TxnEnd(key, rangeEnd);
      DeleteRun(s, key, end, if prevKv then RangeOf(s0, key, end, 0, 0, false) else NO_RECORDS)
  }

  function SnapshotTxn(s0: Store, s: Store, ops: seq<RequestOp>, done: seq<ResponseOp>)
    : (Store, Outcome<seq<ResponseOp>>)
    decreases |ops|
  {
    if ops == [] then (s, Done(done))
    else
      var (s', r) := SnapshotOp(s0, s, ops[0]);
      if r.Done? then SnapshotTxn(s0, s', ops[1..], done + r.value) else (s', r)
  }

  predicate Fits(op: RequestOp) {
    op.PutRequest? ==> |op.key| < TWO_32 && |op.value| < TWO_32
  }

  // ---------------------------------------------------------------- what operations write

  /** What an operation that goes through writes. */
  function WriteOf(op: RequestOp): seq<Op> {
    match op
    case PutRequest(key, value, lease, _) => [Put(key, value, lease)]
    case DeleteRequest(key, rangeEnd, _) => [Delete(key, TxnEnd(key, rangeEnd))]
    case _ => []
  }

  function WritesOf(ops: seq<RequestOp>): (r: seq<Op>)
    ensures |r| <= |ops|
    ensures forall op :: op in r ==> Mutates(op)
    ensures (forall op :: op in ops ==> Fits(op)) ==> forall op :: op in r ==> Storable(op)
  {
    if ops == [] then []
    else
      var last := ops[|ops| - 1];
      assert last in ops;
      WritesOf(ops[..|ops| - 1]) + WriteOf(last)
  }

  lemma WritesOfMore(before: seq<RequestOp>, op: RequestOp)
    ensures WritesOf(before + [op]) == WritesOf(before) + WriteOf(op)
  {
    assert (before + [op])[..|before|] == before;
  }

  lemma RunOneMore(s: Store, before: seq<Op>, op: RequestOp)
    ensures Run(s, before + WriteOf(op)) == AfterWrite(Run(s, before), op)
  {
    if WriteOf(op) == [] {
      assert before + WriteOf(op) == before;
    } else {
      assert (before + WriteOf(op))[..|before|] == before;
    }
  }

  /** An operation that goes through leaves the store its write leaves. */
  lemma OpWrites(s0: Store, before: seq<Op>, at: i64, op: RequestOp)
    ensures var run := OpRun(Run(s0, before), at, op);
      run.1.Done? ==> run.0 == Run(s0, before + WriteOf(op))
  {
    RunOneMore(s0, before, op);
  }

  // ---------------------------------------------------------------- one snapshot

  /** A read at the revision the transaction captured is the current read of its first store. */
  lemma CapturedRead(s0: Store, h: History, before: seq<Op>, start: Bytes, end: Bytes)
    requires Related(s0, h) && s0.current + |before| <= MAX_I64
    requires forall op :: op in before ==> Storable(op) && Mutates(op)
    ensures RangeOf(Run(s0, before), start, end, s0.current, 0, false) == RangeOf(s0, start, end, 0, 0, false)
  {
    TimeTravelFrom(s0, h, before, start, end, s0.current, 0, false);
    RangeIsReference(s0, h, start, end, s0.current, 0, false);
    RangeIsReference(s0, h, start, end, 0, 0, false);
  }

  lemma OpReadsSnapshot(s0: Store, h: History, before: seq<Op>, op: RequestOp)
    requires Related(s0, h) && s0.current + |before| <= MAX_I64
    requires forall op :: op in before ==> Storable(op) && Mutates(op)
    ensures OpRun(Run(s0, before), s0.current, op) == SnapshotOp(s0, Run(s0, before), op)
  {
    if op.RangeRequest? || op.DeleteRequest? {
      CapturedRead(s0, h, before, op.key, TxnEnd(op.key, op.rangeEnd));
    }
  }

  /** A transaction reads one snapshot: whatever its puts and deletes have done so far, every range and
      every previous record reported by a delete is what the store held when the transaction captured
      its revision. */
  lemma {:induction false} TxnReadsOneSnapshot(s0: Store, h: History, before: seq<Op>, ops: seq<RequestOp>,
                                               done: seq<ResponseOp>)
    requires Related(s0, h) && s0.current + |before| + |ops| <= MAX_I64
    requires (forall op :: op in before ==> Storable(op) && Mutates(op)) && forall op :: op in ops ==> Fits(op)
    ensures TxnRun(Run(s0, before), s0.current, ops, done) == SnapshotTxn(s0, Run(s0, before), ops, done)
    decreases |ops|
  {
    if ops != [] {
      assert ops[0] in ops;
      OpReadsSnapshot(s0, h, before, ops[0]);
      OpWrites(s0, before, s0.current, ops[0]);
      var r := OpRun(Run(s0, before), s0.current, ops[0]).1;
      if r.Done? {
        TxnReadsOneSnapshot(s0, h, before + WriteOf(ops[0]), ops[1..], done + r.value);
      }
    }
  }

  // ---------------------------------------------------------------- previous records of puts

  /** What operations do to a key, told from the operations alone and whether it was visible at first. */
  datatype Fate = Untouched | Rewritten | Erased

  function FateAfter(visible: bool, before: Fate, op: RequestOp, key: Bytes): Fate {
    match op
    case PutRequest(k, _, _, _) => if k == key then Rewritten else before
    case DeleteRequest(k, rangeEnd, _) =>
      if InBounds(key, k, TxnEnd(k, rangeEnd)) && (before == Rewritten || (before == Untouched && visible)) then Erased
      else before
    case _ => before
  }

  function FateOf(visible: bool, ops: seq<RequestOp>, key: Bytes): Fate {
    if ops == [] then Untouched
    else FateAfter(visible, FateOf(visible, ops[..|ops| - 1], key), ops[|ops| - 1], key)
  }

  /** A store some operations after `s0`, and what the fate of a key says about it. */
  ghost predicate FateHolds(s0: Store, s: Store, mark: int, key: Bytes, fate: Fate) {
    match fate
    case Untouched => Previous(s, key) == Previous(s0, key)
    case Rewritten => key in s.kv && s.kv[key].modRevision > s0.current && s.kv[key].modRevision >= mark
    case Erased => key !in s.kv
  }

  lemma FateAfterPut(s0: Store, s: Store, mark: int, key: Bytes, fate: Fate, k: Bytes, value: Bytes, lease: i64)
    requires FateHolds(s0, s, mark, key, fate) && mark <= s0.current <= s.current < MAX_I64
    ensures FateHolds(s0, AfterPut(s, k, value, lease), mark, key, if k == key then Rewritten else fate)
  {
  }

  lemma FateAfterDelete(s0: Store, s: Store, h: History, key: Bytes, fate: Fate, start: Bytes, end: Bytes)
    requires FateHolds(s0, s, h.mark, key, fate) && Related(s, h) && s.current < MAX_I64
    ensures var visible := key in s0.kv && Shows(h, s0.kv[key]);
      FateHolds(s0, AfterDelete(s, start, end), h.mark, key,
        if InBounds(key, start, end) && (fate == Rewritten || (fate == Untouched && visible)) then Erased else fate)
  {
    VictimsAre(s, h, start, end);
    DeleteAt(s, start, end, key);
    if PanickingBounds(start, end) { NothingInPanickingBounds(start, end, key); }
  }

  lemma NothingInPanickingBounds(start: Bytes, end: Bytes, k: Bytes)
    requires PanickingBounds(start, end)
    ensures !InBounds(k, start, end)
  {
    if InBounds(k, start, end) {
      LessTotal(start, k);
      LessTotal(end, start);
      if k != start { LessTransitive(start, k, end); }
    }
  }

  lemma FateStep(s0: Store, s: Store, h: History, key: Bytes, fate: Fate, op: RequestOp)
    requires FateHolds(s0, s, h.mark, key, fate) && Related(s, h) && h.mark <= s0.current <= s.current < MAX_I64
    ensures var visible := key in s0.kv && Shows(h, s0.kv[key]);
      FateHolds(s0, AfterWrite(s, op), h.mark, key, FateAfter(visible, fate, op, key))
  {
    if op.PutRequest? {
      FateAfterPut(s0, s, h.mark, key, fate, op.key, op.value, op.lease);
    } else if op.DeleteRequest? {
      FateAfterDelete(s0, s, h, key, fate, op.key, TxnEnd(op.key, op.rangeEnd));
    }
  }

  /** The store after the write of one operation. */
  function AfterWrite(s: Store, op: RequestOp): Store {
    if WriteOf(op) == [] then s else Step(s, WriteOf(op)[0])
  }

  lemma {:induction false} FateTells(s0: Store, h: History, ops: seq<RequestOp>, key: Bytes)
    requires Related(s0, h) && s0.current + |ops| <= MAX_I64 && forall op :: op in ops ==> Fits(op)
    ensures FateHolds(s0, Run(s0, WritesOf(ops)), h.mark, key, FateOf(key in VisibleAt(h, s0.current), ops, key))
  {
    if ops != [] {
      var before, last := ops[..|ops| - 1], ops[|ops| - 1];
      assert forall op :: op in before ==> op in ops;
      FateTells(s0, h, before, key);
      var writes := WritesOf(before);
      RunRefinesFrom(s0, h, writes);
      RunAppends(h, writes);
      RunOneMore(s0, writes, last);
      FateStep(s0, Run(s0, writes), RunHistory(h, writes), key,
               FateOf(key in VisibleAt(h, s0.current), before, key), last);
    }
  }

  /** One more operation after those that ran so far. */
  function AndThen(first: (Store, Outcome<seq<ResponseOp>>), at: i64, op: RequestOp)
    : (Store, Outcome<seq<ResponseOp>>)
  {
    if !first.1.Done? then first
    else
      var (s, r) := OpRun(first.0, at, op);
      (s, if r.Done? then Done(first.1.value + r.value) else r)
  }

  /** Operations of a transaction run one after the other. */
  lemma {:induction false} TxnInTwo(s: Store, at: i64, ops: seq<RequestOp>, op: RequestOp, done: seq<ResponseOp>)
    ensures TxnRun(s, at, ops + [op], done) == AndThen(TxnRun(s, at, ops, done), at, op)
    decreases |ops|
  {
    if ops == [] {
      assert ops + [op] == [op] && [op][1..] == [];
    } else {
      assert (ops + [op])[1..] == ops[1..] + [op];
      var (s', r) := OpRun(s, at, ops[0]);
      if r.Done? { TxnInTwo(s', at, ops[1..], op, done + r.value); }
    }
  }

  lemma {:induction false} TxnWrites(s: Store, at: i64, ops: seq<RequestOp>)
    ensures TxnRun(s, at, ops, []).1.Done? ==> TxnRun(s, at, ops, []).0 == Run(s, WritesOf(ops))
  {
    if ops != [] {
      var before, op := ops[..|ops| - 1], ops[|ops| - 1];
      assert ops == before + [op];
      TxnWrites(s, at, before);
      TxnWritesMore(s, at, before, op);
    }
  }

  lemma TxnWritesMore(s: Store, at: i64, before: seq<RequestOp>, op: RequestOp)
    requires TxnRun(s, at, before, []).1.Done? ==> TxnRun(s, at, before, []).0 == Run(s, WritesOf(before))
    ensures TxnRun(s, at, before + [op], []).1.Done? ==>
      TxnRun(s, at, before + [op], []).0 == Run(s, WritesOf(before + [op]))
  {
    TxnInTwo(s, at, before, op, []);
    WritesOfMore(before, op);
    var first := TxnRun(s, at, before, []);
    if AndThen(first, at, op).1.Done? { AndThenWrites(s, WritesOf(before), first, at, op); }
  }

  lemma AndThenWrites(s: Store, writes: seq<Op>, first: (Store, Outcome<seq<ResponseOp>>), at: i64, op: RequestOp)
    requires first.0 == Run(s, writes) && AndThen(first, at, op).1.Done?
    ensures AndThen(first, at, op).0 == Run(s, writes + WriteOf(op))
  {
    OpWrites(s, writes, at, op);
  }

  lemma PutAnswers(first: (Store, Outcome<seq<ResponseOp>>), at: i64, key: Bytes, value: Bytes, lease: i64)
    requires first.1.Done?
    ensures var run := AndThen(first, at, PutRequest(key, value, lease, true)).1;
      run.Done? && run.value != [] && run.value[|run.value| - 1]
        == PutResponse(Next(first.0.current), Previous(first.0, key))
  {
  }

  lemma PreviousAgrees(s0: Store, s: Store, mark: int, key: Bytes, fate: Fate)
    requires FateHolds(s0, s, mark, key, fate) && (key in s0.kv ==> s0.kv[key].modRevision <= s0.current)
    ensures Previous(s, key) == Previous(s0, key) <==> fate == Untouched || (fate == Erased && key !in s0.kv)
  {
  }

  /** The previous record the last answer of a transaction reports. */
  function LastPrev(run: Outcome<seq<ResponseOp>>): Option<KeyValue> {
    if run.Done? && run.value != [] && run.value[|run.value| - 1].PutResponse?
    then run.value[|run.value| - 1].prev else None
  }

  /** A put after other operations reports the record the running store has. */
  lemma PutReports(s0: Store, at: i64, before: seq<RequestOp>, key: Bytes, value: Bytes, lease: i64)
    requires TxnRun(s0, at, before, []).1.Done?
    ensures var run := TxnRun(s0, at, before + [PutRequest(key, value, lease, true)], []).1;
      run.Done? && LastPrev(run) == Previous(Run(s0, WritesOf(before)), key)
  {
    TxnInTwo(s0, at, before, PutRequest(key, value, lease, true), []);
    TxnWrites(s0, at, before);
    PutAnswers(TxnRun(s0, at, before, []), at, key, value, lease);
  }

  /** The previous record a put reports is the one the store held before the transaction exactly when
      no earlier operation of the transaction has written or removed the key, or when it was removed
      again and had not been there. */
  lemma PutReportsPrevious(s0: Store, h: History, before: seq<RequestOp>, key: Bytes, value: Bytes, lease: i64)
    requires Related(s0, h) && s0.current + |before| < MAX_I64 && forall op :: op in before ==> Fits(op)
    requires TxnRun(s0, s0.current, before, []).1.Done?
    ensures var run := TxnRun(s0, s0.current, before + [PutRequest(key, value, lease, true)], []).1;
      var fate := FateOf(key in VisibleAt(h, s0.current), before, key);
      run.Done? && (LastPrev(run) == Previous(s0, key) <==> fate == Untouched || (fate == Erased && key !in s0.kv))
  {
    PutReports(s0, s0.current, before, key, value, lease);
    PreviousAfter(s0, h, before, key);
  }

  lemma PreviousAfter(s0: Store, h: History, before: seq<RequestOp>, key: Bytes)
    requires Related(s0, h) && s0.current + |before| < MAX_I64 && forall op :: op in before ==> Fits(op)
    ensures var fate := FateOf(key in VisibleAt(h, s0.current), before, key);
      Previous(Run(s0, WritesOf(before)), key) == Previous(s0, key) <==>
        fate == Untouched || (fate == Erased && key !in s0.kv)
  {
    FateTells(s0, h, before, key);
    RecordsOk(h, s0.current);
    PreviousAgrees(s0, Run(s0, WritesOf(before)), h.mark, key, FateOf(key in VisibleAt(h, s0.current), before, key));
  }

  /** Two puts of the same key in one transaction on the empty store: the second one reports the first. */
  lemma SecondPutReportsFirst(key: Bytes, first: Bytes, second: Bytes)
    ensures var run := TxnRun(EMPTY, 1, [PutRequest(key, first, 0, true), PutRequest(key, second, 0, true)], []).1;
      && Previous(EMPTY, key) == None
      && run.Done? && |run.value| == 2
      && run.value[1] == PutResponse(3, Some(KeyValue(key, 2, 2, 1, first, 0)))
  {
    var a, b := PutRequest(key, first, 0, true), PutRequest(key, second, 0, true);
    TxnInTwo(EMPTY, 1, [], a, []);
    TxnInTwo(EMPTY, 1, [a], b, []);
    assert [] + [a] == [a] && [a] + [b] == [a, b];
  }

  // ---------------------------------------------------------------- the service

  class KvService {
    const store: MvccStore

    constructor (store: MvccStore)
      ensures this.store == store
    {
      this.store := store;
    }

    method EvaluateCompare(cmp: Compare, currentRevision: i64) returns (r: bool)
      requires store.Valid()
      ensures r == Evaluates(store.view, cmp, currentRevision)
    {
      var found := store.Range(cmp.key, cmp.key + [0], currentRevision, 1, false);
      var kv := if found.Done? && found.value.kvs != [] then Some(found.value.kvs[0]) else None;
      r := Holds(kv, cmp);
    }

    /** Compares, then runs one of the two operation lists. */
    method Txn(compares: seq<Compare>, success: seq<RequestOp>, failure: seq<RequestOp>)
      returns (r: Outcome<TxnResponse>)
      requires store.Valid() && store.currentRevision + |success| + |failure| <= MAX_I64
      requires forall op :: op in success || op in failure ==> Fits(op)
      modifies store, store.backend, store.keyIndex
      ensures store.Valid()
      ensures var s := old(store.view);
        var succeeded := forall i :: 0 <= i < |compares| ==> Evaluates(s, compares[i], s.current);
        var run := TxnRun(s, s.current, if succeeded then success else failure, []);
        store.view == run.0
        && r == match run.1
           case Done(responses) => Done(TxnResponse(store.view.current, succeeded, responses))
           case Failed => Failed
           case Panicked => Panicked
    {
      var currentRevision := store.currentRevision;
      var succeeded := true;
      var i := 0;
      while i < |compares| && succeeded
        invariant 0 <= i <= |compares| && store.Valid() && store.view == old(store.view)
        invariant succeeded <==> forall j :: 0 <= j < i ==> Evaluates(store.view, compares[j], currentRevision)
      {
        succeeded := EvaluateCompare(compares[i], currentRevision);
        i := i + 1;
      }
      var ops := if succeeded then success else failure;
      var run := RunOps(ops, currentRevision);
      match run
      case Done(responses) => r := Done(TxnResponse(store.currentRevision, succeeded, responses));
      case Failed => r := Failed;
      case Panicked => r := Panicked;
    }

    /** The operation loop of `txn`. */
    method RunOps(ops: seq<RequestOp>, at: i64) returns (r: Outcome<seq<ResponseOp>>)
      requires store.Valid() && store.currentRevision + |ops| <= MAX_I64
      requires forall op :: op in ops ==> Fits(op)
      modifies store, store.backend, store.keyIndex
      ensures store.Valid() && (store.view, r) == TxnRun(old(store.view), at, ops, [])
    {
      var responses := [];
      var i := 0;
      while i < |ops|
        invariant 0 <= i <= |ops| && store.Valid()
        invariant store.currentRevision + |ops| - i <= MAX_I64
        invariant TxnRun(old(store.view), at, ops, []) == TxnRun(store.view, at, ops[i..], responses)
      {
        assert ops[i..][0] == ops[i] && ops[i..][1..] == ops[i + 1..] && ops[i] in ops;
        r := RunOp(ops[i], at);
        if !r.Done? { return; }
        responses := responses + r.value;
        i := i + 1;
      }
      r := Done(responses);
    }

    /** The body of the operation loop. */
    method RunOp(op: RequestOp, at: i64) returns (r: Outcome<seq<ResponseOp>>)
      requires store.Valid() && store.currentRevision < MAX_I64 && Fits(op)
      modifies store, store.backend, store.keyIndex
      ensures store.Valid() && (store.view, r) == OpRun(old(store.view), at, op)
      ensures store.currentRevision <= old(store.currentRevision) + 1
    {
      match op {
        case NoRequest => r := Done([]);
        case TxnRequest => r := Failed;
        case RangeRequest(key, rangeEnd) =>
          var found := store.Range(key, TxnEnd(key, rangeEnd), at, 0, false);
          r := Answer(store.currentRevision, found);
        case PutRequest(key, value, lease, prevKv) =>
          var _, _, previous := store.Put(key, value, lease);
          r := Done([PutResponse(store.currentRevision, if prevKv then previous else None)]);
        case DeleteRequest(key, rangeEnd, prevKv) =>
          r := RunDelete(key, TxnEnd(key, rangeEnd), prevKv, at);
      }
    }

    method RunDelete(key: Bytes, end: Bytes, prevKv: bool, at: i64) returns (r: Outcome<seq<ResponseOp>>)
      requires store.Valid() && store.currentRevision < MAX_I64
      modifies store, store.backend, store.keyIndex
      ensures store.Valid()
      ensures var s := old(store.view);
        (store.view, r) == DeleteRun(s, key, end, if prevKv then RangeOf(s, key, end, at, 0, false) else NO_RECORDS)
    {
      var prevKvs := [];
      if prevKv {
        var found := store.Range(key, end, at, 0, false);
        if found.Panicked? { return Panicked; }
        prevKvs := found.value.kvs;
      }
      var deleted := store.DeleteRange(key, end);
      if deleted.Panicked? { return Panicked; }
      r := Done([DeleteResponse(store.currentRevision, |deleted.value.1|, prevKvs)]);
    }
  }
}
