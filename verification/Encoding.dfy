/** How the `kv` and `kv_rev` trees of the backend represent the decoded store. */
module Encodings {
  import opened ByteStrings
  import opened KeyValues
  import opened KeyIndexing
  import opened Stores
  import opened Backends

  type Log = map<(i64, Bytes), KeyValue>

  function EncodedKv(kv: Kv): Tree {
    map k | k in kv :: Encoded(kv[k])
  }

  /** The revision and the key a `kv_rev` key is made of. */
  function SplitRevKey(b: Bytes): (i64, Bytes)
    requires |b| >= 8
  {
    (I64FromBe(b[..8]), b[8..])
  }

  lemma SplitInverts(b: Bytes, r: i64, k: Bytes)
    ensures |b| >= 8 ==> RevKey(SplitRevKey(b).0, SplitRevKey(b).1) == b
    ensures |RevKey(r, k)| >= 8 && SplitRevKey(RevKey(r, k)) == (r, k)
  {
    if |b| >= 8 {
      I64BeInverse(b[..8]);
      assert b == b[..8] + b[8..];
    }
    var rk := RevKey(r, k);
    assert rk[..8] == I64Be(r) && rk[8..] == k;
    I64BeRoundTrip(r);
  }

  ghost predicate EntryEncoded(tree: Tree, log: Log, r: i64, k: Bytes) {
    (r, k) in log ==> RevKey(r, k) in tree && tree[RevKey(r, k)] == EncodedWithKey(log[(r, k)])
  }

  ghost predicate KeyDecoded(log: Log, b: Bytes) {
    |b| >= 8 && SplitRevKey(b) in log
  }

  ghost predicate EncodesLog(tree: Tree, log: Log) {
    && (forall r: i64, k :: EntryEncoded(tree, log, r, k))
    && (forall b :: b in tree ==> KeyDecoded(log, b))
  }

  /** Lengths survive the casts, records carry their keys, and no revision is negative. */
  ghost predicate Encodable(s: Store) {
    && 0 <= s.current
    && (forall k :: k in s.kv ==> s.kv[k].key == k && |k| < TWO_32 && |s.kv[k].value| < TWO_32)
    && (forall r: i64, k :: (r, k) in s.log ==> LogRecordOk(s.log[(r, k)], r, k))
  }

  ghost predicate LogRecordOk(kv: KeyValue, r: i64, k: Bytes) {
    0 <= r && kv.key == k && |k| < TWO_32 && |kv.value| < TWO_32
  }

  // ---------------------------------------------------------------- reading encoded trees

  lemma DecodeKv(s: Store, k: Bytes)
    requires Encodable(s) && k in s.kv
    ensures Decode(k, EncodedKv(s.kv)[k]) == Done(s.kv[k])
  {
    DecodeInvertsEncode(s.kv[k], []);
    assert Encoded(s.kv[k]) + [] == Encoded(s.kv[k]);
  }

  lemma DecodeLog(s: Store, tree: Tree, r: i64, k: Bytes)
    requires Encodable(s) && EncodesLog(tree, s.log)
    ensures (r, k) in s.log <==> RevKey(r, k) in tree
    ensures (r, k) in s.log ==> DecodeWithKey(tree[RevKey(r, k)]) == Done(s.log[(r, k)])
  {
    SplitInverts([], r, k);
    assert EntryEncoded(tree, s.log, r, k);
    if RevKey(r, k) in tree { assert KeyDecoded(s.log, RevKey(r, k)); }
    if (r, k) in s.log {
      var kv := s.log[(r, k)];
      assert LogRecordOk(kv, r, k);
      DecodeInvertsEncodeWithKey(kv, []);
      assert EncodedWithKey(kv) + [] == EncodedWithKey(kv);
    }
  }

  /** The trees determine the decoded contents. */
  lemma EncodingUnique(s: Store, s': Store, tree: Tree)
    requires Encodable(s) && Encodable(s') && EncodedKv(s.kv) == EncodedKv(s'.kv)
    requires EncodesLog(tree, s.log) && EncodesLog(tree, s'.log)
    ensures s.kv == s'.kv && s.log == s'.log
  {
    EncodedKvUnique(s, s');
    forall rk ensures rk in s.log <==> rk in s'.log ensures rk in s.log ==> s.log[rk] == s'.log[rk] {
      assert rk == (rk.0, rk.1);
      DecodeLog(s, tree, rk.0, rk.1);
      DecodeLog(s', tree, rk.0, rk.1);
    }
  }

  lemma EncodedKvUnique(s: Store, s': Store)
    requires Encodable(s) && Encodable(s') && EncodedKv(s.kv) == EncodedKv(s'.kv)
    ensures s.kv == s'.kv
  {
    assert s.kv.Keys == EncodedKv(s.kv).Keys == EncodedKv(s'.kv).Keys == s'.kv.Keys;
    forall k | k in s.kv ensures s.kv[k] == s'.kv[k] {
      DecodeKv(s, k);
      DecodeKv(s', k);
    }
  }

  // ---------------------------------------------------------------- writing encoded trees

  lemma EncodedKvPut(kv: Kv, k: Bytes, x: KeyValue)
    ensures EncodedKv(kv[k := x]) == EncodedKv(kv)[k := Encoded(x)]
  {
  }

  lemma EncodedKvDelete(kv: Kv, k: Bytes)
    ensures EncodedKv(kv - {k}) == EncodedKv(kv) - {k}
  {
  }

  lemma EntryEncodedPut(tree: Tree, log: Log, r: i64, k: Bytes, x: KeyValue, r': i64, k': Bytes)
    requires EntryEncoded(tree, log, r', k')
    ensures EntryEncoded(tree[RevKey(r, k) := EncodedWithKey(x)], log[(r, k) := x], r', k')
  {
    if RevKey(r', k') == RevKey(r, k) { RevKeyInjective(r', k', r, k); }
  }

  lemma EncodesLogPut(tree: Tree, log: Log, r: i64, k: Bytes, x: KeyValue)
    requires EncodesLog(tree, log)
    ensures EncodesLog(tree[RevKey(r, k) := EncodedWithKey(x)], log[(r, k) := x])
  {
    var tree', log' := tree[RevKey(r, k) := EncodedWithKey(x)], log[(r, k) := x];
    forall r': i64, k' ensures EntryEncoded(tree', log', r', k') {
      assert EntryEncoded(tree, log, r', k');
      EntryEncodedPut(tree, log, r, k, x, r', k');
    }
    forall b | b in tree' ensures KeyDecoded(log', b) {
      if b == RevKey(r, k) {
        SplitInverts([], r, k);
      } else {
        assert KeyDecoded(log, b);
      }
    }
  }

  /** A put keeps everything readable exactly if its own lengths can be told. */
  lemma EncodableAfterPut(s: Store, key: Bytes, value: Bytes, lease: i64)
    requires Encodable(s) && s.current < MAX_I64
    ensures Encodable(AfterPut(s, key, value, lease)) <==> |key| < TWO_32 && |value| < TWO_32
  {
    var s' := AfterPut(s, key, value, lease);
    if |key| < TWO_32 && |value| < TWO_32 {
      forall r: i64, k | (r, k) in s'.log ensures LogRecordOk(s'.log[(r, k)], r, k) {
        if (r, k) in s.log { assert LogRecordOk(s.log[(r, k)], r, k); }
      }
    } else {
      assert s'.kv[key].value == value;
    }
  }

  lemma EncodableAfterDelete(s: Store, start: Bytes, end: Bytes)
    requires Encodable(s) && s.current < MAX_I64
    ensures Encodable(AfterDelete(s, start, end))
  {
    var s' := AfterDelete(s, start, end);
    forall r: i64, k | (r, k) in s'.log ensures LogRecordOk(s'.log[(r, k)], r, k) {
      if (r, k) in s.log { assert LogRecordOk(s.log[(r, k)], r, k); }
      if !PanickingBounds(start, end) && (r, k) in LogKeys(Victims(s, start, end), s'.current) {
        assert k in Victims(s, start, end);
      }
    }
  }

  lemma EncodableAfterCompact(s: Store, c: i64)
    requires Encodable(s)
    ensures Encodable(AfterCompact(s, c))
  {
    var s' := AfterCompact(s, c);
    forall r: i64, k | (r, k) in s'.log ensures LogRecordOk(s'.log[(r, k)], r, k) {
      assert LogRecordOk(s.log[(r, k)], r, k);
    }
  }

  // ---------------------------------------------------------------- compaction of the log tree

  lemma {:induction false} DoomedExact(keys: seq<Bytes>, c: i64)
    requires Ascending(keys) && forall b :: b in keys ==> |b| >= 8 && 0 <= SplitRevKey(b).0
    ensures forall b :: b in Doomed(keys, c) <==> b in keys && SplitRevKey(b).0 < c
  {
    if keys != [] {
      var b := keys[0];
      assert b in keys;
      assert keys == [b] + keys[1..];
      if SplitRevKey(b).0 < c {
        DoomedExact(keys[1..], c);
      } else {
        forall b' | b' in keys ensures SplitRevKey(b').0 >= c {
          SplitInverts(b, 0, []);
          SplitInverts(b', 0, []);
          if b' != b {
            RevKeyOrder(SplitRevKey(b).0, SplitRevKey(b).1, SplitRevKey(b').0, SplitRevKey(b').1);
          }
        }
      }
    }
  }

  lemma LogTreeKeys(s: Store, tree: Tree, b: Bytes)
    requires Encodable(s) && EncodesLog(tree, s.log) && b in tree
    ensures |b| >= 8 && 0 <= SplitRevKey(b).0 && SplitRevKey(b) in s.log
    ensures RevKey(SplitRevKey(b).0, SplitRevKey(b).1) == b
  {
    assert KeyDecoded(s.log, b);
    var r, k := SplitRevKey(b).0, SplitRevKey(b).1;
    assert (r, k) in s.log;
    assert LogRecordOk(s.log[(r, k)], r, k);
    SplitInverts(b, r, k);
  }

  lemma CompactedEntry(s: Store, tree: Tree, c: i64, r: i64, k: Bytes, doomed: set<Bytes>)
    requires Encodable(s) && EncodesLog(tree, s.log)
    requires RevKey(r, k) in doomed <==> RevKey(r, k) in tree && r < c
    ensures EntryEncoded(tree - doomed, LogSince(s.log, c), r, k)
  {
    assert EntryEncoded(tree, s.log, r, k);
  }

  /** Because keys sort by revision, the early stop of backend compaction loses nothing: exactly the
      entries below the point are removed. */
  lemma CompactedTreeEncodes(s: Store, tree: Tree, c: i64)
    requires Encodable(s) && EncodesLog(tree, s.log)
    ensures EncodesLog(CompactedTree(tree, c), LogSince(s.log, c))
  {
    var keys := SortedKeys(tree.Keys);
    var doomed := ElementsOf(Doomed(keys, c));
    forall b | b in keys ensures |b| >= 8 && 0 <= SplitRevKey(b).0 {
      LogTreeKeys(s, tree, b);
    }
    DoomedExact(keys, c);
    forall r: i64, k ensures EntryEncoded(tree - doomed, LogSince(s.log, c), r, k) {
      SplitInverts([], r, k);
      CompactedEntry(s, tree, c, r, k, doomed);
    }
    forall b | b in tree - doomed ensures KeyDecoded(LogSince(s.log, c), b) {
      LogTreeKeys(s, tree, b);
    }
  }

  // ---------------------------------------------------------------- scanning a span of revisions

  function RevKeys(r: i64, keys: seq<Bytes>): (b: seq<Bytes>)
    ensures |b| == |keys| && forall i :: 0 <= i < |keys| ==> b[i] == RevKey(r, keys[i])
  {
    if keys == [] then [] else RevKeys(r, keys[..|keys| - 1]) + [RevKey(r, keys[|keys| - 1])]
  }

  /** The `kv_rev` keys of revisions `from` to `last`, by revision and then by key. */
  function SpanKeys(s: Store, from: i64, last: i64): seq<Bytes>
    requires 0 <= from && -1 <= last
    decreases last - from
  {
    if from > last then [] else SpanKeys(s, from, last - 1) + RevKeys(last, SortedKeys(KeysAt(s, last)))
  }

  lemma InKeysAt(s: Store, r: i64, k: Bytes)
    ensures k in KeysAt(s, r) <==> (r, k) in s.log
  {
    if (r, k) in s.log { assert (r, k).1 in KeysAt(s, r); }
  }

  lemma InRevKeys(s: Store, r: i64, b: Bytes)
    ensures b in RevKeys(r, SortedKeys(KeysAt(s, r))) <==> |b| >= 8 && SplitRevKey(b).0 == r && SplitRevKey(b) in s.log
  {
    var keys := SortedKeys(KeysAt(s, r));
    var bs := RevKeys(r, keys);
    if b in bs {
      var i :| 0 <= i < |bs| && bs[i] == b;
      assert keys[i] in keys;
      InKeysAt(s, r, keys[i]);
      SplitInverts(b, r, keys[i]);
    }
    if |b| >= 8 && SplitRevKey(b).0 == r && SplitRevKey(b) in s.log {
      var k := SplitRevKey(b).1;
      SplitInverts(b, r, k);
      assert SplitRevKey(b) == (r, k);
      InKeysAt(s, r, k);
      assert k in keys;
      var i :| 0 <= i < |keys| && keys[i] == k;
      assert bs[i] == b;
    }
  }

  lemma {:induction false} SpanKeysMembers(s: Store, from: i64, last: i64, b: Bytes)
    requires 0 <= from && -1 <= last
    ensures b in SpanKeys(s, from, last) <==>
      |b| >= 8 && from <= SplitRevKey(b).0 <= last && SplitRevKey(b) in s.log
    decreases last - from
  {
    if from <= last {
      SpanKeysMembers(s, from, last - 1, b);
      InRevKeys(s, last, b);
    }
  }

  lemma RevKeysAscending(r: i64, keys: seq<Bytes>)
    requires Ascending(keys)
    ensures Ascending(RevKeys(r, keys))
  {
    forall i, j | 0 <= i < j < |keys| ensures Less(RevKey(r, keys[i]), RevKey(r, keys[j])) {
      RevKeyOrder(r, keys[i], r, keys[j]);
    }
  }

  lemma EarlierRevisionLess(b: Bytes, b': Bytes, from: int, last: i64)
    requires 0 <= from && RevisionWithin(b, from, last - 1) && RevisionWithin(b', last, last)
    ensures Less(b, b')
  {
    SplitInverts(b, 0, []);
    SplitInverts(b', 0, []);
    RevKeyOrder(SplitRevKey(b).0, SplitRevKey(b).1, SplitRevKey(b').0, SplitRevKey(b').1);
  }

  lemma SpanWithin(s: Store, from: i64, last: i64, b: Bytes)
    requires 0 <= from && -1 <= last && b in SpanKeys(s, from, last)
    ensures RevisionWithin(b, from, last)
  {
    SpanKeysMembers(s, from, last, b);
  }

  lemma RevKeysWithin(s: Store, r: i64, b: Bytes)
    requires b in RevKeys(r, SortedKeys(KeysAt(s, r)))
    ensures RevisionWithin(b, r, r)
  {
    InRevKeys(s, r, b);
  }

  predicate RevisionWithin(b: Bytes, from: int, last: int) {
    |b| >= 8 && from <= SplitRevKey(b).0 <= last
  }

  lemma AscendingConcat(a: seq<Bytes>, b: seq<Bytes>)
    requires Ascending(a) && Ascending(b)
    requires forall x, y :: x in a && y in b ==> Less(x, y)
    ensures Ascending(a + b)
  {
  }

  lemma {:induction false} SpanKeysAscending(s: Store, from: i64, last: i64)
    requires 0 <= from && -1 <= last
    ensures Ascending(SpanKeys(s, from, last))
    decreases last - from
  {
    if from <= last {
      SpanKeysAscending(s, from, last - 1);
      var keys := SortedKeys(KeysAt(s, last));
      var before, now := SpanKeys(s, from, last - 1), RevKeys(last, keys);
      RevKeysAscending(last, keys);
      forall x, y | x in before && y in now ensures Less(x, y) {
        SpanWithin(s, from, last - 1, x);
        RevKeysWithin(s, last, y);
        EarlierRevisionLess(x, y, from, last);
      }
      AscendingConcat(before, now);
    }
  }

  /** Scanning from the encoded start revision up to the encoded successor of the current one visits
      exactly the logged keys of that span, in order; a negative start visits nothing. */
  lemma ScanVisitsSpan(s: Store, tree: Tree, start: i64)
    requires Encodable(s) && EncodesLog(tree, s.log) && s.current < MAX_I64 && start <= s.current
    ensures KeysBetween(tree, I64Be(start), I64Be(s.current + 1)) ==
      if start < 0 then [] else SpanKeys(s, start, s.current)
  {
    var found := KeysBetween(tree, I64Be(start), I64Be(s.current + 1));
    var span := if start < 0 then [] else SpanKeys(s, start, s.current);
    forall b ensures b in found <==> b in span {
      if start >= 0 { SpanKeysMembers(s, start, s.current, b); }
      InScan(s, tree, start, b);
    }
    if start >= 0 { SpanKeysAscending(s, start, s.current); }
    AscendingUnique(found, span);
  }

  lemma ScanBound(r: i64, k: Bytes, bound: i64)
    requires 0 <= r
    ensures Less(RevKey(r, k), I64Be(bound)) <==> bound < 0 || r < bound
  {
    RevKeyOrder(r, k, bound, []);
    assert RevKey(bound, []) == I64Be(bound);
  }

  lemma InScanBounds(r: i64, k: Bytes, start: i64, current: i64)
    requires 0 <= r && 0 <= current < MAX_I64
    ensures !Less(RevKey(r, k), I64Be(start)) && Less(RevKey(r, k), I64Be(current + 1)) <==> 0 <= start <= r <= current
  {
    ScanBound(r, k, start);
    ScanBound(r, k, current + 1);
  }

  lemma LoggedKeyInTree(s: Store, tree: Tree, b: Bytes)
    requires Encodable(s) && EncodesLog(tree, s.log) && |b| >= 8 && SplitRevKey(b) in s.log
    ensures b in tree
  {
    SplitInverts(b, 0, []);
    DecodeLog(s, tree, SplitRevKey(b).0, SplitRevKey(b).1);
  }

  lemma TreeKeyInScan(s: Store, tree: Tree, start: i64, b: Bytes, lo: Bytes, hi: Bytes)
    requires Encodable(s) && EncodesLog(tree, s.log) && s.current < MAX_I64 && b in tree
    requires lo == I64Be(start) && hi == I64Be(s.current + 1)
    ensures |b| >= 8 && SplitRevKey(b) in s.log
    ensures !Less(b, lo) && Less(b, hi) <==> 0 <= start <= SplitRevKey(b).0 <= s.current
  {
    LogTreeKeys(s, tree, b);
    KeyInScan(b, SplitRevKey(b).0, SplitRevKey(b).1, lo, hi, start, s.current);
  }

  lemma KeyInScan(b: Bytes, r: i64, k: Bytes, lo: Bytes, hi: Bytes, start: i64, current: i64)
    requires b == RevKey(r, k) && 0 <= r && 0 <= current < MAX_I64 && lo == I64Be(start) && hi == I64Be(current + 1)
    ensures !Less(b, lo) && Less(b, hi) <==> 0 <= start <= r <= current
  {
    InScanBounds(r, k, start, current);
  }

  lemma InScan(s: Store, tree: Tree, start: i64, b: Bytes)
    requires Encodable(s) && EncodesLog(tree, s.log) && s.current < MAX_I64
    ensures b in tree && !Less(b, I64Be(start)) && Less(b, I64Be(s.current + 1)) <==>
      |b| >= 8 && SplitRevKey(b) in s.log && 0 <= start <= SplitRevKey(b).0 <= s.current
  {
    if b in tree {
      TreeKeyInScan(s, tree, start, b, I64Be(start), I64Be(s.current + 1));
    } else if |b| >= 8 && SplitRevKey(b) in s.log {
      LoggedKeyInTree(s, tree, b);
    }
  }

  // ---------------------------------------------------------------- decoding events

  /** The events decoded from the entries of `keys`; entries that do not decode are skipped. */
  function DecodedEvents(tree: Tree, keys: seq<Bytes>): seq<Event>
    requires forall b :: b in keys ==> b in tree
  {
    if keys == [] then [] else DecodedEvents(tree, keys[..|keys| - 1]) + DecodedEvent(tree[keys[|keys| - 1]])
  }

  function DecodedEvent(data: Bytes): seq<Event> {
    var decoded := DecodeWithKey(data);
    if decoded.Done? then [EventOf(decoded.value)] else []
  }

  lemma EventsAssoc(a: seq<Event>, b: seq<Event>, c: seq<Event>)
    ensures a + b + c == a + (b + c)
  {
  }

  lemma DecodedEventsMore(tree: Tree, keys: seq<Bytes>, k: Bytes)
    requires k in tree && forall b :: b in keys ==> b in tree
    ensures DecodedEvents(tree, keys + [k]) == DecodedEvents(tree, keys) + DecodedEvent(tree[k])
  {
    assert (keys + [k])[..|keys|] == keys;
  }

  lemma DecodedEventsJoin(tree: Tree, a: seq<Bytes>, b: seq<Bytes>, k: Bytes)
    requires k in tree && (forall x :: x in a ==> x in tree) && (forall x :: x in b ==> x in tree)
    requires DecodedEvents(tree, a + b) == DecodedEvents(tree, a) + DecodedEvents(tree, b)
    ensures DecodedEvents(tree, a + (b + [k])) == DecodedEvents(tree, a) + DecodedEvents(tree, b + [k])
  {
    DecodedEventsMore(tree, b, k);
    DecodedEventsMore(tree, a + b, k);
    assert a + (b + [k]) == a + b + [k];
    EventsAssoc(DecodedEvents(tree, a), DecodedEvents(tree, b), DecodedEvent(tree[k]));
  }

  lemma {:induction false} DecodedEventsConcat(tree: Tree, a: seq<Bytes>, b: seq<Bytes>)
    requires (forall x :: x in a ==> x in tree) && (forall x :: x in b ==> x in tree)
    ensures DecodedEvents(tree, a + b) == DecodedEvents(tree, a) + DecodedEvents(tree, b)
  {
    if b == [] {
      assert a + b == a;
    } else {
      var before, k := b[..|b| - 1], b[|b| - 1];
      assert b == before + [k];
      DecodedEventsConcat(tree, a, before);
      DecodedEventsJoin(tree, a, before, k);
    }
  }

  lemma {:induction false} DecodedAt(s: Store, tree: Tree, r: i64, keys: seq<Bytes>)
    requires Encodable(s) && EncodesLog(tree, s.log) && forall k :: k in keys ==> (r, k) in s.log
    ensures forall b :: b in RevKeys(r, keys) ==> b in tree
    ensures DecodedEvents(tree, RevKeys(r, keys)) == EventsFor(s, r, keys)
  {
    if keys != [] {
      var n := |keys| - 1;
      assert keys == keys[..n] + [keys[n]];
      DecodedAt(s, tree, r, keys[..n]);
      DecodeLog(s, tree, r, keys[n]);
      assert RevKeys(r, keys)[..n] == RevKeys(r, keys[..n]);
    }
  }

  lemma {:induction false} DecodedSpan(s: Store, tree: Tree, from: i64, last: i64)
    requires Encodable(s) && EncodesLog(tree, s.log) && 0 <= from && -1 <= last
    ensures forall b :: b in SpanKeys(s, from, last) ==> b in tree
    ensures DecodedEvents(tree, SpanKeys(s, from, last)) == EventsBetween(s, from, last)
    decreases last - from
  {
    if from <= last {
      DecodedSpan(s, tree, from, last - 1);
      var keys := SortedKeys(KeysAt(s, last));
      forall k | k in keys ensures (last, k) in s.log { InKeysAt(s, last, k); }
      DecodedAt(s, tree, last, keys);
      DecodedEventsConcat(tree, SpanKeys(s, from, last - 1), RevKeys(last, keys));
    }
  }

  /** What `watch_events` decodes from its scan. */
  lemma ScanDecodes(s: Store, tree: Tree, start: i64)
    requires Encodable(s) && EncodesLog(tree, s.log) && s.current < MAX_I64 && start <= s.current
    ensures DecodedEvents(tree, KeysBetween(tree, I64Be(start), I64Be(s.current + 1))) == EventsSince(s, start)
  {
    ScanVisitsSpan(s, tree, start);
    if start >= 0 { DecodedSpan(s, tree, start, s.current); }
  }
}
