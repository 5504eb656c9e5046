/** The MVCC store as the object it is: counters, a backend and a key index updated step by step
    (src/storage/mvcc.rs). Every method is proved to follow Store.dfy on the decoded contents. */
module Mvcc {
  import opened ByteStrings
  import opened KeyValues
  import opened KeyIndexing
  import opened Stores
  import opened Backends
  import opened Encodings
  import opened Snapshots
  import opened RestoredStores

  // ---------------------------------------------------------------- rebuilding the index

  /** `rebuild_key_index` on the encoded tree, adding to `idx`: records that do not decode are skipped, and one
      that makes the decoder panic stops the rebuild. */
  function IndexOfTree(tree: Tree, keys: seq<Bytes>, idx: Index): Outcome<Index>
    requires forall k :: k in keys ==> k in tree
    decreases |keys|
  {
    if keys == [] then Done(idx)
    else match Decode(keys[0], tree[keys[0]])
      case Done(kv) => IndexOfTree(tree, keys[1..], IndexPut(idx, keys[0], Revision(kv.modRevision, 0)))
      case Failed => IndexOfTree(tree, keys[1..], idx)
      case Panicked => Panicked
  }

  lemma RebuiltIndexAdd(kv: Kv, k: Bytes, x: KeyValue)
    requires k !in kv
    ensures RebuiltIndex(kv[k := x]) == IndexPut(RebuiltIndex(kv), k, Revision(x.modRevision, 0))
  {
    var g := Generation(Revision(x.modRevision, 0), [Revision(x.modRevision, 0)], None);
    assert EntryOf(RebuiltIndex(kv), k) == [];
    assert [] + [g] == [g];
  }

  /** `base` extended with the records of `keys`. */
  function Joined(base: Kv, kv: Kv, keys: seq<Bytes>): Kv
    requires forall k :: k in keys ==> k in kv
    decreases |keys|
  {
    if keys == [] then base else Joined(base[keys[0] := kv[keys[0]]], kv, keys[1..])
  }

  lemma {:induction false} JoinedAt(base: Kv, kv: Kv, keys: seq<Bytes>)
    requires forall k :: k in keys ==> k in kv
    ensures forall k :: k in Joined(base, kv, keys) <==> k in base || k in keys
    ensures forall k :: k in keys ==> Joined(base, kv, keys)[k] == kv[k]
    ensures forall k :: k in base && k !in keys ==> Joined(base, kv, keys)[k] == base[k]
    decreases |keys|
  {
    if keys != [] {
      assert keys == [keys[0]] + keys[1..];
      JoinedAt(base[keys[0] := kv[keys[0]]], kv, keys[1..]);
    }
  }

  lemma JoinedAll(kv: Kv, keys: seq<Bytes>)
    requires forall k :: k in keys <==> k in kv
    ensures Joined(map[], kv, keys) == kv
  {
    JoinedAt(map[], kv, keys);
  }

  lemma {:induction false} IndexOfKeys(s: Store, keys: seq<Bytes>, base: Kv)
    requires Encodable(s) && Ascending(keys)
    requires forall k :: k in keys ==> k in s.kv && k !in base
    ensures IndexOfTree(EncodedKv(s.kv), keys, RebuiltIndex(base)) == Done(RebuiltIndex(Joined(base, s.kv, keys)))
    decreases |keys|
  {
    if keys != [] {
      var k := keys[0];
      assert k in keys;
      DecodeKv(s, k);
      RebuiltIndexAdd(base, k, s.kv[k]);
      forall k' | k' in keys[1..] ensures k' != k { LessTotal(k, k'); }
      IndexOfKeys(s, keys[1..], base[k := s.kv[k]]);
    }
  }

  /** On the tree of a store, the rebuilt index is complete. */
  lemma IndexOfEncodedTree(s: Store)
    requires Encodable(s)
    ensures IndexOfTree(EncodedKv(s.kv), SortedKeys(EncodedKv(s.kv).Keys), map[]) == Done(RebuiltIndex(s.kv))
  {
    var keys := SortedKeys(EncodedKv(s.kv).Keys);
    assert RebuiltIndex(map[]) == map[];
    IndexOfKeys(s, keys, map[]);
    JoinedAll(s.kv, keys);
  }

  // ---------------------------------------------------------------- range deletes

  /** The scanned keys that `kv` holds, in scan order. */
  function HeldKeys(names: seq<Bytes>, kv: Kv): (r: seq<Bytes>)
    ensures forall k :: k in r <==> k in names && k in kv
  {
    if names == [] then []
    else
      var k := names[|names| - 1];
      assert names == names[..|names| - 1] + [k];
      HeldKeys(names[..|names| - 1], kv) + if k in kv then [k] else []
  }

  lemma HeldKeysStep(names: seq<Bytes>, i: nat, kv: Kv)
    requires i < |names|
    ensures HeldKeys(names[..i + 1], kv) == HeldKeys(names[..i], kv) + if names[i] in kv then [names[i]] else []
  {
    assert names[..i + 1][..i] == names[..i];
  }

  lemma KvsOfStep(kv: Kv, keys: seq<Bytes>, k: Bytes)
    requires k in kv && forall x :: x in keys ==> x in kv
    ensures KvsOf(kv, keys + [k]) == KvsOf(kv, keys) + [kv[k]]
  {
    assert (keys + [k])[..|keys|] == keys;
  }

  lemma {:induction false} HeldKeysAscending(names: seq<Bytes>, kv: Kv)
    requires Ascending(names)
    ensures Ascending(HeldKeys(names, kv))
  {
    if names != [] {
      var n := |names| - 1;
      HeldKeysAscending(names[..n], kv);
      var before := HeldKeys(names[..n], kv);
      forall i | 0 <= i < |before| ensures Less(before[i], names[n]) {
        assert before[i] in names[..n];
      }
    }
  }

  /** The first loop of `delete_range` finds the victims in key order. */
  lemma HeldKeysAreVictims(s: Store, start: Bytes, end: Bytes, names: seq<Bytes>)
    requires names == SortedKeys(VisibleKeys(s.index, start, end, Next(s.current)))
    ensures var keys := HeldKeys(names, s.kv);
      && keys == SortedKeys(Victims(s, start, end))
      && ElementsOf(keys) == Victims(s, start, end)
      && forall k :: k in keys ==> k in s.index
  {
    HeldKeysAscending(names, s.kv);
    AscendingIsSorted(HeldKeys(names, s.kv), Victims(s, start, end));
  }

  /** What deleting those keys one by one amounts to. */
  lemma DeleteParts(s: Store, start: Bytes, end: Bytes, names: seq<Bytes>)
    requires !PanickingBounds(start, end)
    requires names == SortedKeys(VisibleKeys(s.index, start, end, Next(s.current)))
    ensures var keys, r, s' := HeldKeys(names, s.kv), Next(s.current), AfterDelete(s, start, end);
      && s'.kv == s.kv - ElementsOf(keys) && s'.log == s.log + Tombstones(ElementsOf(keys), r)
      && s'.index == TombstonedIndex(s.index, ElementsOf(keys), r)
      && s'.current == r && s'.compacted == s.compacted
      && KvsOf(s.kv, keys) == DeletedKvs(s, start, end)
      && forall k :: k in keys ==> k in s.index
  {
    HeldKeysAreVictims(s, start, end, names);
  }

  lemma TombstonesAdd(log: Log, keys: set<Bytes>, k: Bytes, r: i64)
    ensures log + Tombstones(keys + {k}, r) == (log + Tombstones(keys, r))[(r, k) := Tombstone(k, r)]
  {
    assert LogKeys(keys + {k}, r) == LogKeys(keys, r) + {(r, k)};
  }

  lemma TombstonedIndexAdd(idx: Index, keys: set<Bytes>, k: Bytes, r: i64)
    requires k in idx
    ensures TombstonedIndex(idx, keys + {k}, r) == IndexTombstone(TombstonedIndex(idx, keys, r), k, Revision(r, 0))
  {
  }

  // ---------------------------------------------------------------- range reads

  lemma CollectStep(s: Store, keys: seq<(Bytes, Revision)>, i: nat, isCurrent: bool, query: i64, limit: i64,
                    countOnly: bool, acc: seq<KeyValue>)
    requires i < |keys| && !(limit > 0 && |acc| >= limit)
    ensures var found := if countOnly then None else Fetch(s, keys[i].0, keys[i].1, isCurrent, query);
      Collect(s, keys[i..], isCurrent, query, limit, countOnly, acc)
      == Collect(s, keys[i + 1..], isCurrent, query, limit, countOnly, if found.Some? then acc + [found.value] else acc)
  {
    assert keys[i..][1..] == keys[i + 1..];
  }

  // ---------------------------------------------------------------- snapshots

  function SnapshotOf(current: i64, compacted: i64, trees: Trees): Bytes
  {
    I64Le(current) + I64Le(compacted) + SnapshotBytes(trees, NAMES)
  }

  ghost predicate TreesHold(trees: Trees, s: Store) {
    trees.kv == EncodedKv(s.kv) && EncodesLog(trees.kvRev, s.log)
  }

  ghost predicate TreesEncode(trees: Trees, s: Store) {
    TreesHold(trees, s) && Encodable(s)
  }

  /** `data` is the snapshot of store `s` kept in trees `t`. */
  ghost predicate IsSnapshot(data: Bytes, s: Store, t: Trees) {
    TreesEncode(t, s) && AllFit(t) && data == SnapshotOf(s.current, s.compacted, t)
  }

  /** What reading a snapshot back must find. */
  ghost predicate ReadsBack(data: Bytes, s: Store, t: Trees) {
    && TreesEncode(t, Restored(s))
    && |data| >= 16 && I64FromLe(data[0..8]) == s.current && I64FromLe(data[8..16]) == s.compacted
    && ParseTrees(data[16..], EMPTY_TREES) == (t, true)
    && IndexOfTree(t.kv, SortedKeys(t.kv.Keys), map[]) == Done(RebuiltIndex(s.kv))
  }

  lemma CountersRead(current: i64, compacted: i64, body: Bytes)
    ensures var data := I64Le(current) + I64Le(compacted) + body;
      && |data| >= 16 && I64FromLe(data[0..8]) == current && I64FromLe(data[8..16]) == compacted && data[16..] == body
  {
    var data := I64Le(current) + I64Le(compacted) + body;
    assert data[0..8] == I64Le(current) && data[8..16] == I64Le(compacted) && data[16..] == body;
    I64LeRoundTrip(current);
    I64LeRoundTrip(compacted);
  }

  /** The snapshot of a store's trees and counters is read back in full. */
  lemma SnapshotRoundTrip(data: Bytes, s: Store, t: Trees)
    requires IsSnapshot(data, s, t)
    ensures ReadsBack(data, s, t)
  {
    CountersRead(s.current, s.compacted, SnapshotBytes(t, NAMES));
    RestoreInvertsSnapshot(t);
    IndexOfEncodedTree(s);
    RestoredEncodes(s, t);
  }

  lemma RestoredEncodes(s: Store, t: Trees)
    requires TreesEncode(t, s)
    ensures TreesEncode(t, Restored(s))
  {
    assert Encodable(Restored(s));
  }

  // ---------------------------------------------------------------- the object

  class MvccStore {
    const backend: Backend
    const keyIndex: KeyIndex
    var currentRevision: i64
    var compactRevision: i64
    ghost var view: Store

    /** The object holds `view`, though what it holds need not all decode. */
    ghost predicate Holds()
      reads this, backend, keyIndex
    {
      && currentRevision == view.current
      && compactRevision == view.compacted
      && keyIndex.tree == view.index
      && TreesHold(backend.trees, view)
    }

    /** The object represents `view`. */
    ghost predicate Valid()
      reads this, backend, keyIndex
    {
      Holds() && Encodable(view)
    }

    constructor ()
      ensures Valid() && view == EMPTY
      ensures fresh(backend) && fresh(keyIndex)
    {
      backend := new Backend();
      keyIndex := new KeyIndex();
      currentRevision := 1;
      compactRevision := 0;
      view := EMPTY;
    }

    method NextRevision() returns (r: i64)
      modifies this`currentRevision
      ensures currentRevision == r == Next(old(currentRevision))
    {
      currentRevision := Next(currentRevision);
      r := currentRevision;
    }

    /** Stores a record; returns its revision, the record, and the one it replaces. All of it can be
        read back if and only if key and value have lengths the record format can tell. */
    method Put(key: Bytes, value: Bytes, lease: i64) returns (revision: i64, kv: KeyValue, prev: Option<KeyValue>)
      requires Valid() && currentRevision < MAX_I64
      modifies this, backend, keyIndex
      ensures Holds() && view == AfterPut(old(view), key, value, lease)
      ensures Valid() <==> |key| < TWO_32 && |value| < TWO_32
      ensures revision == view.current && kv == Written(old(view), key, value, lease)
      ensures prev == Previous(old(view), key)
    {
      revision := NextRevision();
      var current := backend.Lookup(KvTree, key);
      prev := None;
      if current.Some? {
        DecodeKv(view, key);
        var decoded := Decode(key, current.value);
        if decoded.Done? { prev := Some(decoded.value); }
      }
      var version := if prev.Some? then Next(prev.value.version) else 1;
      kv := KeyValue(
        key,
        if version == 1 then revision else if prev.Some? then prev.value.createRevision else revision,
        revision, version, value, lease);
      StoreRecord(revision, key, kv);
      EncodableAfterPut(view, key, value, lease);
      view := AfterPut(view, key, value, lease);
    }

    /** The writes of `put`: latest record, logged record, index. */
    method StoreRecord(revision: i64, key: Bytes, kv: KeyValue)
      requires backend.trees.kv == EncodedKv(view.kv) && EncodesLog(backend.trees.kvRev, view.log)
      modifies backend, keyIndex
      ensures backend.trees.kv == EncodedKv(view.kv[key := kv])
      ensures EncodesLog(backend.trees.kvRev, view.log[(revision, key) := kv])
      ensures keyIndex.tree == IndexPut(old(keyIndex.tree), key, Revision(revision, 0))
    {
      var data := Encode(kv);
      EncodedKvPut(view.kv, key, kv);
      backend.Put(KvTree, key, data);
      data := EncodeWithKey(kv);
      EncodesLogPut(backend.trees.kvRev, view.log, revision, key, kv);
      backend.Put(KvRevTree, RevKey(revision, key), data);
      keyIndex.Put(key, Revision(revision, 0));
    }

    /** Removes the visible keys in `[start, end)`; returns the revision and the removed records. */
    method DeleteRange(start: Bytes, end: Bytes) returns (r: Outcome<(i64, seq<KeyValue>)>)
      requires Valid() && currentRevision < MAX_I64
      modifies this, backend, keyIndex
      ensures Valid() && view == AfterDelete(old(view), start, end)
      ensures r == if PanickingBounds(start, end) then Panicked
                   else Done((view.current, DeletedKvs(old(view), start, end)))
    {
      var revision := NextRevision();
      ghost var after := AfterDelete(view, start, end);
      EncodableAfterDelete(view, start, end);
      var rangeKeys := keyIndex.Range(start, end, currentRevision);
      match rangeKeys {
        case Done(hits) =>
          var deleted := DeleteScanned(hits, start, end, revision);
          r := Done((revision, deleted));
        case Failed => r := Failed;
        case Panicked => r := Panicked;
      }
      view := after;
    }

    /** The three loops of `delete_range`, after the index scan. */
    method DeleteScanned(hits: seq<(Bytes, Revision)>, ghost start: Bytes, ghost end: Bytes, revision: i64)
      returns (deleted: seq<KeyValue>)
      requires TreesEncode(backend.trees, view) && keyIndex.tree == view.index && revision == Next(view.current)
      requires !PanickingBounds(start, end) && hits == RangeAt(view.index, start, end, revision)
      modifies backend, keyIndex
      ensures backend.trees.kv == EncodedKv(AfterDelete(view, start, end).kv)
      ensures EncodesLog(backend.trees.kvRev, AfterDelete(view, start, end).log)
      ensures keyIndex.tree == AfterDelete(view, start, end).index && deleted == DeletedKvs(view, start, end)
    {
      ghost var names := SortedKeys(VisibleKeys(view.index, start, end, revision));
      RangeAtNames(view.index, start, end, revision);
      var keysToDelete;
      deleted, keysToDelete := CollectVictims(hits, names);
      DeleteParts(view, start, end, names);
      RemoveKeys(keysToDelete, revision);
      TombstoneKeys(keysToDelete, revision);
    }

    /** First loop of `delete_range`: the current records of the scanned keys. */
    method CollectVictims(hits: seq<(Bytes, Revision)>, ghost names: seq<Bytes>)
      returns (deleted: seq<KeyValue>, keys: seq<Bytes>)
      requires backend.trees.kv == EncodedKv(view.kv) && Encodable(view)
      requires |names| == |hits| && forall i :: 0 <= i < |hits| ==> hits[i].0 == names[i]
      ensures keys == HeldKeys(names, view.kv) && deleted == KvsOf(view.kv, keys)
    {
      deleted, keys := [], [];
      for i := 0 to |hits|
        invariant keys == HeldKeys(names[..i], view.kv) && deleted == KvsOf(view.kv, keys)
      {
        HeldKeysStep(names, i, view.kv);
        var key := hits[i].0;
        var data := backend.Lookup(KvTree, key);
        if data.Some? {
          DecodeKv(view, key);
          var kv := Decode(key, data.value);
          if kv.Done? {
            KvsOfStep(view.kv, keys, key);
            deleted := deleted + [kv.value];
            keys := keys + [key];
          }
        }
      }
      assert names[..|hits|] == names;
    }

    /** Second loop: removes the records and logs a tombstone for each. */
    method RemoveKeys(keys: seq<Bytes>, revision: i64)
      requires backend.trees.kv == EncodedKv(view.kv) && EncodesLog(backend.trees.kvRev, view.log)
      modifies backend
      ensures backend.trees.kv == EncodedKv(view.kv - ElementsOf(keys))
      ensures EncodesLog(backend.trees.kvRev, view.log + Tombstones(ElementsOf(keys), revision))
      ensures backend.trees == old(backend.trees).(kv := backend.trees.kv, kvRev := backend.trees.kvRev)
    {
      assert view.kv - ElementsOf([]) == view.kv;
      assert view.log + Tombstones(ElementsOf([]), revision) == view.log;
      for i := 0 to |keys|
        invariant backend.trees.kv == EncodedKv(view.kv - ElementsOf(keys[..i]))
        invariant EncodesLog(backend.trees.kvRev, view.log + Tombstones(ElementsOf(keys[..i]), revision))
        invariant backend.trees == old(backend.trees).(kv := backend.trees.kv, kvRev := backend.trees.kvRev)
      {
        ghost var done := ElementsOf(keys[..i]);
        assert ElementsOf(keys[..i + 1]) == done + {keys[i]};
        RemoveOne(keys[i], revision, done);
      }
      assert keys[..|keys|] == keys;
    }

    method RemoveOne(key: Bytes, revision: i64, ghost done: set<Bytes>)
      requires backend.trees.kv == EncodedKv(view.kv - done)
      requires EncodesLog(backend.trees.kvRev, view.log + Tombstones(done, revision))
      modifies backend
      ensures backend.trees.kv == EncodedKv(view.kv - (done + {key}))
      ensures EncodesLog(backend.trees.kvRev, view.log + Tombstones(done + {key}, revision))
      ensures backend.trees == old(backend.trees).(kv := backend.trees.kv, kvRev := backend.trees.kvRev)
    {
      assert view.kv - (done + {key}) == view.kv - done - {key};
      EncodedKvDelete(view.kv - done, key);
      backend.Delete(KvTree, key);
      var tombstone := KeyValue(key, 0, revision, 0, [], 0);
      var data := EncodeWithKey(tombstone);
      EncodesLogPut(backend.trees.kvRev, view.log + Tombstones(done, revision), revision, key, tombstone);
      TombstonesAdd(view.log, done, key, revision);
      backend.Put(KvRevTree, RevKey(revision, key), data);
    }

    /** Third loop: closes the generations of the removed keys. */
    method TombstoneKeys(keys: seq<Bytes>, revision: i64)
      requires forall k :: k in keys ==> k in keyIndex.tree
      modifies keyIndex
      ensures keyIndex.tree == TombstonedIndex(old(keyIndex.tree), ElementsOf(keys), revision)
    {
      ghost var idx := keyIndex.tree;
      assert TombstonedIndex(idx, ElementsOf([]), revision) == idx;
      for i := 0 to |keys|
        invariant keyIndex.tree == TombstonedIndex(idx, ElementsOf(keys[..i]), revision)
      {
        assert ElementsOf(keys[..i + 1]) == ElementsOf(keys[..i]) + {keys[i]};
        assert keys[i] in keys;
        TombstonedIndexAdd(idx, ElementsOf(keys[..i]), keys[i], revision);
        keyIndex.Tombstone(keys[i], Revision(revision, 0));
      }
      assert keys[..|keys|] == keys;
    }

    /** Point-in-time range read: from `kv` at the current revision, from `kv_rev` before it. */
    method Range(start: Bytes, end: Bytes, revision: i64, limit: i64, countOnly: bool) returns (r: Outcome<RangeResult>)
      requires Valid()
      ensures r == RangeOf(view, start, end, revision, limit, countOnly)
    {
      var query := if revision <= 0 then currentRevision else revision;
      var isCurrent := revision <= 0 || revision >= currentRevision;
      var scanned := keyIndex.Range(start, end, query);
      if scanned.Panicked? { return Panicked; }
      var keys := scanned.value;
      var count := |keys|;
      var kvs := FetchAll(keys, isCurrent, query, limit, countOnly);
      r := Done(RangeResult(kvs, limit > 0 && count > |kvs|, count));
    }

    /** The fetching loop of `range`. */
    method FetchAll(keys: seq<(Bytes, Revision)>, isCurrent: bool, query: i64, limit: i64, countOnly: bool)
      returns (kvs: seq<KeyValue>)
      requires Valid()
      ensures kvs == Collect(view, keys, isCurrent, query, limit, countOnly, [])
    {
      kvs := [];
      var i := 0;
      while i < |keys|
        invariant 0 <= i <= |keys|
        invariant Collect(view, keys, isCurrent, query, limit, countOnly, [])
               == Collect(view, keys[i..], isCurrent, query, limit, countOnly, kvs)
      {
        if limit > 0 && |kvs| >= limit { break; }
        CollectStep(view, keys, i, isCurrent, query, limit, countOnly, kvs);
        if !countOnly {
          var found := FetchOne(keys[i].0, keys[i].1, isCurrent, query);
          if found.Some? { kvs := kvs + [found.value]; }
        }
        i := i + 1;
      }
    }

    /** The body of the fetching loop of `range`. */
    method FetchOne(key: Bytes, rev: Revision, isCurrent: bool, query: i64) returns (r: Option<KeyValue>)
      requires Valid()
      ensures r == Fetch(view, key, rev, isCurrent, query)
    {
      r := None;
      if isCurrent {
        var data := backend.Lookup(KvTree, key);
        if data.Some? {
          DecodeKv(view, key);
          var kv := Decode(key, data.value);
          if kv.Done? && kv.value.createRevision <= query && kv.value.modRevision <= query {
            r := Some(kv.value);
          }
        }
      } else {
        DecodeLog(view, backend.trees.kvRev, rev.main, key);
        var data := backend.Lookup(KvRevTree, RevKey(rev.main, key));
        if data.Some? {
          var kv := DecodeWithKey(data.value);
          if kv.Done? { r := Some(kv.value); }
        }
      }
    }

    /** Drops revisions below the given one; refuses a revision not reached yet. */
    method Compact(revision: i64) returns (r: Outcome<()>)
      requires Valid()
      modifies this, backend, keyIndex
      ensures Valid() && view == AfterCompact(old(view), revision)
      ensures r == if revision > old(currentRevision) then Failed else Done(())
    {
      if revision > currentRevision { return Failed; }
      compactRevision := revision;
      keyIndex.Compact(revision);
      CompactedTreeEncodes(view, backend.trees.kvRev, revision);
      backend.Compact(revision);
      EncodableAfterCompact(view, revision);
      view := AfterCompact(view, revision);
      r := Done(());
    }

    /** The logged changes since a revision, for watch catch-up. */
    method WatchEvents(start: i64) returns (events: seq<Event>)
      requires Valid() && currentRevision < MAX_I64
      ensures events == EventsSince(view, start)
    {
      if start > currentRevision { return []; }
      var entries := backend.Scan(KvRevTree, I64Be(start), I64Be(currentRevision + 1), 0);
      ghost var tree := backend.trees.kvRev;
      ghost var keys := KeysBetween(tree, I64Be(start), I64Be(currentRevision + 1));
      ScanDecodes(view, tree, start);
      events := DecodeEntries(entries, tree, keys);
    }

    static method DecodeEntries(entries: seq<(Bytes, Bytes)>, ghost tree: Tree, ghost keys: seq<Bytes>)
      returns (events: seq<Event>)
      requires (forall b :: b in keys ==> b in tree) && entries == PairsOf(tree, keys)
      ensures events == DecodedEvents(tree, keys)
    {
      events := [];
      for i := 0 to |entries|
        invariant forall b :: b in keys[..i] ==> b in tree
        invariant events == DecodedEvents(tree, keys[..i])
      {
        assert keys[..i + 1][..i] == keys[..i] && keys[i] in keys;
        var kv := DecodeWithKey(entries[i].1);
        if kv.Done? {
          var eventType := if kv.value.version == 0 && kv.value.value == [] then "Delete" else "Put";
          events := events + [Event(eventType, kv.value, None)];
        }
      }
      assert keys[..|entries|] == keys;
    }

    method CreateSnapshot() returns (data: Bytes)
      requires Valid()
      ensures data == SnapshotOf(currentRevision, compactRevision, backend.trees)
      ensures AllFit(backend.trees) ==> ReadsBack(data, view, backend.trees)
    {
      data := I64Le(currentRevision);
      data := data + I64Le(compactRevision);
      var backendData := backend.Snapshot();
      data := data + backendData;
      if AllFit(backend.trees) { SnapshotRoundTrip(data, view, backend.trees); }
    }

    /** Replaces everything by the content of a snapshot. When the data reads back as a store `s` kept
        in trees `t`, the result is `s` with a rebuilt index. */
    method RestoreSnapshot(data: Bytes, ghost s: Store, ghost t: Trees) returns (r: Outcome<()>)
      modifies this, backend, keyIndex
      ensures |data| >= 16 ==> (backend.trees, r != Failed) == ParseTrees(data[16..], EMPTY_TREES)
      ensures ReadsBack(data, s, t) ==>
        r.Done? && backend.trees == t && Valid() && view == Restored(s)
    {
      r := RestoreContents(data);
      if ReadsBack(data, s, t) {
        assert backend.trees == t && r != Failed;
        assert keyIndex.tree == RebuiltIndex(s.kv) && r.Done?;
        view := Restored(s);
      }
    }

    /** A snapshot taken here and restored there: as far as lengths and counts fit the snapshot format,
        the other store ends up as this one, with a rebuilt index. In any case it holds what its reader
        makes of the snapshot. This is what a leader and a lagging follower do through the callbacks. */
    method TransferTo(other: MvccStore) returns (r: Outcome<()>)
      requires Valid()
      requires other != this && other.backend != backend && other.keyIndex != keyIndex
      modifies other, other.backend, other.keyIndex
      ensures (other.backend.trees, r != Failed) == ParseTrees(SnapshotBytes(old(backend.trees), NAMES), EMPTY_TREES)
      ensures AllFit(old(backend.trees)) ==>
        r.Done? && other.backend.trees == old(backend.trees) && other.Valid() && other.view == Restored(old(view))
    {
      var data := CreateSnapshot();
      ghost var s, t := view, backend.trees;
      CountersRead(currentRevision, compactRevision, SnapshotBytes(t, NAMES));
      r := other.RestoreSnapshot(data, s, t);
    }

    /** Data shorter than the two counters is refused before anything changes; malformed tree data is
        refused after the trees were cleared, counters and index staying behind. */
    method RestoreContents(data: Bytes) returns (r: Outcome<()>)
      modifies this, backend, keyIndex
      ensures view == old(view)
      ensures |data| < 16 ==> r == Failed && backend.trees == old(backend.trees)
      ensures |data| >= 16 ==> (backend.trees, r != Failed) == ParseTrees(data[16..], EMPTY_TREES)
      ensures r == Failed ==> currentRevision == old(currentRevision) && compactRevision == old(compactRevision)
      ensures r == Failed ==> keyIndex.tree == old(keyIndex.tree)
      ensures r != Failed ==> currentRevision == I64FromLe(data[0..8]) && compactRevision == I64FromLe(data[8..16])
      ensures r != Failed ==>
        var index := IndexOfTree(backend.trees.kv, SortedKeys(backend.trees.kv.Keys), map[]);
        if r.Panicked? then index.Panicked? else index == Done(keyIndex.tree)
    {
      if |data| < 16 { return Failed; }
      var currentRev := I64FromLe(data[0..8]);
      var compactRev := I64FromLe(data[8..16]);
      backend.ClearAll();
      r := backend.Restore(data[16..]);
      if r.Failed? { return; }
      currentRevision := currentRev;
      compactRevision := compactRev;
      r := RebuildKeyIndex();
    }

    /** Rebuilds the index from the `kv` tree. */
    method RebuildKeyIndex() returns (r: Outcome<()>)
      modifies keyIndex
      ensures var index := IndexOfTree(backend.trees.kv, SortedKeys(backend.trees.kv.Keys), map[]);
        !r.Failed? && if r.Panicked? then index.Panicked? else index == Done(keyIndex.tree)
    {
      keyIndex.Clear();
      var tree := backend.trees.kv;
      var keys := SortedKeys(tree.Keys);
      for i := 0 to |keys|
        invariant forall k :: k in keys[i..] ==> k in tree
        invariant IndexOfTree(tree, keys, map[]) == IndexOfTree(tree, keys[i..], keyIndex.tree)
      {
        assert keys[i..][1..] == keys[i + 1..] && keys[i..][0] == keys[i];
        var kv := Decode(keys[i], tree[keys[i]]);
        if kv.Panicked? { return Panicked; }
        if kv.Done? {
          keyIndex.Put(keys[i], Revision(kv.value.modRevision, 0));
        }
      }
      r := Done(());
    }
  }
}
