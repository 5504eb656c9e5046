/** The multi-version store as a value: what each operation of `MvccStore` does to the two trees, the
    index and the counters (src/storage/mvcc.rs). The object in Mvcc.dfy is proved to follow these
    functions on the encoded trees; History.dfy proves what they amount to. */
module Stores {
  import opened ByteStrings
  import opened KeyValues
  import opened KeyIndexing

  type Kv = map<Bytes, KeyValue>

  /** `kv` and `log` are the decoded `kv` and `kv_rev` trees. */
  datatype Store = Store(current: i64, compacted: i64, kv: Kv, log: map<(i64, Bytes), KeyValue>, index: Index)

  const EMPTY := Store(1, 0, map[], map[], map[])

  datatype RangeResult = RangeResult(kvs: seq<KeyValue>, more: bool, count: nat)

  datatype Event = Event(eventType: string, kv: KeyValue, prevKv: Option<KeyValue>)

  // ---------------------------------------------------------------- writing

  function Previous(s: Store, key: Bytes): Option<KeyValue> {
    if key in s.kv then Some(s.kv[key]) else None
  }

  /** `i64` addition of one, wrapping as `fetch_add` does. */
  function Next(x: i64): i64 {
    if x == MAX_I64 then -MAX_I64 - 1 else x + 1
  }

  /** The record a put stores. */
  function Written(s: Store, key: Bytes, value: Bytes, lease: i64): KeyValue {
    var next := Next(s.current);
    var prev := Previous(s, key);
    var version := if prev.Some? then Next(prev.value.version) else 1;
    var create := if version == 1 then next else if prev.Some? then prev.value.createRevision else next;
    KeyValue(key, create, next, version, value, lease)
  }

  function AfterPut(s: Store, key: Bytes, value: Bytes, lease: i64): Store {
    var next := Next(s.current);
    var kv := Written(s, key, value, lease);
    Store(next, s.compacted, s.kv[key := kv], s.log[(next, key) := kv],
          IndexPut(s.index, key, Revision(next, 0)))
  }

  function Tombstone(key: Bytes, revision: i64): KeyValue {
    KeyValue(key, 0, revision, 0, [], 0)
  }

  /** The keys a range delete removes: those the index shows at the new revision and `kv` holds. */
  function Victims(s: Store, start: Bytes, end: Bytes): set<Bytes> {
    set k | k in VisibleKeys(s.index, start, end, Next(s.current)) && k in s.kv
  }

  /** The records a range delete reports. */
  function DeletedKvs(s: Store, start: Bytes, end: Bytes): seq<KeyValue> {
    KvsOf(s.kv, SortedKeys(Victims(s, start, end)))
  }

  function KvsOf(kv: Kv, keys: seq<Bytes>): (r: seq<KeyValue>)
    requires forall k :: k in keys ==> k in kv
    ensures |r| == |keys| && forall i :: 0 <= i < |keys| ==> r[i] == kv[keys[i]]
  {
    if keys == [] then [] else KvsOf(kv, keys[..|keys| - 1]) + [kv[keys[|keys| - 1]]]
  }

  function LogKeys(keys: set<Bytes>, revision: i64): set<(i64, Bytes)> {
    set k | k in keys :: (revision, k)
  }

  function Tombstones(keys: set<Bytes>, revision: i64): map<(i64, Bytes), KeyValue> {
    map rk | rk in LogKeys(keys, revision) :: Tombstone(rk.1, revision)
  }

  function TombstonedIndex(idx: Index, keys: set<Bytes>, revision: i64): Index {
    map k | k in idx :: if k in keys then EntryTombstone(idx[k], Revision(revision, 0)) else idx[k]
  }

  /** A range delete takes a revision before it looks at its bounds, so bounds the index cannot scan
      still consume one. */
  function AfterDelete(s: Store, start: Bytes, end: Bytes): Store {
    var next := Next(s.current);
    if PanickingBounds(start, end) then s.(current := next)
    else
      var victims := Victims(s, start, end);
      Store(next, s.compacted, s.kv - victims, s.log + Tombstones(victims, next),
            TombstonedIndex(s.index, victims, next))
  }

  function LogSince(log: map<(i64, Bytes), KeyValue>, c: i64): map<(i64, Bytes), KeyValue> {
    map rk | rk in log && rk.0 >= c :: log[rk]
  }

  /** Compaction beyond the current revision is refused; any other point, even one below an earlier
      compaction, is accepted. */
  function AfterCompact(s: Store, c: i64): Store {
    if c > s.current then s
    else Store(s.current, c, s.kv, LogSince(s.log, c), IndexCompact(s.index, c))
  }

  // ---------------------------------------------------------------- reading

  /** What `range` fetches for one key of the index scan. */
  function Fetch(s: Store, key: Bytes, rev: Revision, isCurrent: bool, query: i64): Option<KeyValue> {
    if isCurrent then
      if key in s.kv && s.kv[key].createRevision <= query && s.kv[key].modRevision <= query
      then Some(s.kv[key]) else None
    else if (rev.main, key) in s.log then Some(s.log[(rev.main, key)])
    else None
  }

  /** The fetching loop of `range`, with the results so far in `acc`. */
  function Collect(s: Store, keys: seq<(Bytes, Revision)>, isCurrent: bool, query: i64, limit: i64,
                   countOnly: bool, acc: seq<KeyValue>): seq<KeyValue>
  {
    if keys == [] || (limit > 0 && |acc| >= limit) then acc
    else
      var found := if countOnly then None else Fetch(s, keys[0].0, keys[0].1, isCurrent, query);
      Collect(s, keys[1..], isCurrent, query, limit, countOnly, if found.Some? then acc + [found.value] else acc)
  }

  function RangeOf(s: Store, start: Bytes, end: Bytes, revision: i64, limit: i64,
                   countOnly: bool): Outcome<RangeResult> {
    if PanickingBounds(start, end) then Panicked
    else
      var query := if revision <= 0 then s.current else revision;
      var isCurrent := revision <= 0 || revision >= s.current;
      var keys := RangeAt(s.index, start, end, query);
      var kvs := Collect(s, keys, isCurrent, query, limit, countOnly, []);
      Done(RangeResult(kvs, limit > 0 && |keys| > |kvs|, |keys|))
  }

  // ---------------------------------------------------------------- watching

  function EventOf(kv: KeyValue): Event {
    Event(if kv.version == 0 && kv.value == [] then "Delete" else "Put", kv, None)
  }

  function KeysAt(s: Store, r: i64): set<Bytes> {
    set rk | rk in s.log && rk.0 == r :: rk.1
  }

  function EventsFor(s: Store, r: i64, keys: seq<Bytes>): (e: seq<Event>)
    requires forall k :: k in keys ==> (r, k) in s.log
    ensures |e| == |keys| && forall i :: 0 <= i < |keys| ==> e[i] == EventOf(s.log[(r, keys[i])])
  {
    if keys == [] then [] else EventsFor(s, r, keys[..|keys| - 1]) + [EventOf(s.log[(r, keys[|keys| - 1])])]
  }

  /** The events logged at revisions `from` to `to`, by revision and then by key. */
  function EventsBetween(s: Store, from: i64, last: i64): seq<Event>
    decreases last - from
  {
    if from > last then []
    else
      var earlier := if last == -MAX_I64 - 1 then [] else EventsBetween(s, from, last - 1);
      earlier + EventsFor(s, last, SortedKeys(KeysAt(s, last)))
  }

  /** `watch_events`. A negative start revision is encoded above every logged revision, so the scan
      finds nothing. */
  function EventsSince(s: Store, start: i64): seq<Event> {
    if start > s.current || start < 0 then [] else EventsBetween(s, start, s.current)
  }

  // ---------------------------------------------------------------- runs

  datatype Op = Put(key: Bytes, value: Bytes, lease: i64) | Delete(start: Bytes, end: Bytes) | Compact(at: i64)

  /** Lengths are stored as `u32`. */
  predicate Storable(op: Op) {
    op.Put? ==> |op.key| < TWO_32 && |op.value| < TWO_32
  }

  function Step(s: Store, op: Op): Store {
    match op
    case Put(key, value, lease) => AfterPut(s, key, value, lease)
    case Delete(start, end) => AfterDelete(s, start, end)
    case Compact(c) => AfterCompact(s, c)
  }

  function Run(s: Store, ops: seq<Op>): Store {
    if ops == [] then s else Step(Run(s, ops[..|ops| - 1]), ops[|ops| - 1])
  }
}
