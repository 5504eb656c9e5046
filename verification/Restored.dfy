/** What a store looks like after a snapshot was restored: everything but the index history. */
module RestoredStores {
  import opened ByteStrings
  import opened KeyValues
  import opened KeyIndexing
  import opened Stores
  import opened Histories
  import opened Reads

  /** The index `rebuild_key_index` makes of a `kv` tree: one live generation per record, holding its
      last write only. */
  function RebuiltIndex(kv: Kv): Index {
    map k | k in kv :: [Generation(Revision(kv[k].modRevision, 0), [Revision(kv[k].modRevision, 0)], None)]
  }

  /** The store after `restore_snapshot(create_snapshot())`. */
  function Restored(s: Store): Store {
    s.(index := RebuiltIndex(s.kv))
  }

  /** After a restore a lookup knows the latest write of each live key and nothing older. */
  lemma RestoredLookup(kv: Kv, k: Bytes, r: int)
    ensures Get(RebuiltIndex(kv), k, r) ==
      if k in kv && kv[k].modRevision <= r then Some(Revision(kv[k].modRevision, 0)) else None
  {
    if k in kv {
      var rev := Revision(kv[k].modRevision, 0);
      var g := Generation(rev, [rev], None);
      assert RebuiltIndex(kv)[k] == [] + [g];
      EntryGetByLast([], g, r);
      assert g.revisions == [] + [rev];
      LatestUpToAppend([], rev, r);
    }
  }

  lemma RestoredScan(s: Store, h: History, start: Bytes, end: Bytes)
    requires Related(s, h)
    ensures var keys := RangeAt(Restored(s).index, start, end, s.current);
      var names := NamesIn(s.kv, start, end);
      |keys| == |names| && forall i :: 0 <= i < |keys| ==> keys[i].0 == names[i]
  {
    RecordsOk(h, s.current);
    var visible := VisibleKeys(Restored(s).index, start, end, s.current);
    forall k ensures k in visible <==> k in NamesIn(s.kv, start, end) {
      RestoredLookup(s.kv, k, s.current);
      assert k in visible <==>
        k in Restored(s).index && InBounds(k, start, end) && Get(Restored(s).index, k, s.current).Some?;
    }
    AscendingIsSorted(NamesIn(s.kv, start, end), visible);
  }

  lemma RestoredFetch(s: Store, h: History, k: Bytes, rev: Revision)
    requires Related(s, h) && k in s.kv
    ensures Fetch(Restored(s), k, rev, true, s.current) == Some(s.kv[k])
  {
    RecordsOk(h, s.current);
  }

  lemma RestoredCollect(s: Store, h: History, start: Bytes, end: Bytes)
    requires Related(s, h)
    ensures Collect(Restored(s), RangeAt(Restored(s).index, start, end, s.current), true, s.current, 0, false, [])
         == Scan(s.kv, start, end)
  {
    var s' := Restored(s);
    var keys, all := RangeAt(s'.index, start, end, s.current), Scan(s.kv, start, end);
    RestoredScan(s, h, start, end);
    forall i | 0 <= i < |keys| ensures Fetch(s', keys[i].0, keys[i].1, true, s.current) == Some(all[i]) {
      assert keys[i].0 in NamesIn(s.kv, start, end);
      RestoredFetch(s, h, keys[i].0, keys[i].1);
    }
    CollectAll(s', keys, true, s.current, 0, [], all);
    assert all[..|all|] == all;
  }

  /** A current read after a restore lists every live key in bounds. */
  lemma RestoredRead(s: Store, h: History, start: Bytes, end: Bytes)
    requires Related(s, h) && !PanickingBounds(start, end)
    ensures var all := Scan(s.kv, start, end);
      RangeOf(Restored(s), start, end, 0, 0, false) == Done(RangeResult(all, false, |all|))
  {
    RestoredScan(s, h, start, end);
    RestoredCollect(s, h, start, end);
  }

  lemma SameLogAt(s: Store, s': Store, r: i64)
    requires s.log == s'.log
    ensures EventsFor(s', r, SortedKeys(KeysAt(s', r))) == EventsFor(s, r, SortedKeys(KeysAt(s, r)))
  {
    assert KeysAt(s', r) == KeysAt(s, r);
  }

  /** Events depend on the log alone. */
  lemma {:induction false} SameLogEvents(s: Store, s': Store, from: i64, last: i64)
    requires s.log == s'.log
    ensures EventsBetween(s', from, last) == EventsBetween(s, from, last)
    decreases last - from
  {
    if from <= last {
      if last != -MAX_I64 - 1 { SameLogEvents(s, s', from, last - 1); }
      SameLogAt(s, s', last);
    }
  }

  /** A restore keeps the catch-up events. It keeps a full current read if and only if every live key
      in bounds was last written at or after the highest compaction point: keys that compaction had
      hidden come back. */
  lemma RestoreKeepsReads(ops: seq<Op>, start: Bytes, end: Bytes, since: i64)
    requires Runnable(ops) && !PanickingBounds(start, end)
    ensures var s := Run(EMPTY, ops);
      && EventsSince(Restored(s), since) == EventsSince(s, since)
      && (RangeOf(Restored(s), start, end, 0, 0, false) == RangeOf(s, start, end, 0, 0, false) <==>
          forall k :: k in s.kv && InBounds(k, start, end) ==> s.kv[k].modRevision >= HighMark(EMPTY, ops))
  {
    var s, h := Run(EMPTY, ops), RunHistory(BEGINNING, ops);
    RunRefines(ops);
    MarkIsHighMark(ops);
    SameLogEvents(s, Restored(s), since, s.current);
    CurrentReadKept(s, h, start, end);
  }

  lemma CurrentReadKept(s: Store, h: History, start: Bytes, end: Bytes)
    requires Related(s, h) && !PanickingBounds(start, end)
    ensures RangeOf(Restored(s), start, end, 0, 0, false) == RangeOf(s, start, end, 0, 0, false) <==>
      forall k :: k in s.kv && InBounds(k, start, end) ==> s.kv[k].modRevision >= h.mark
  {
    RestoredRead(s, h, start, end);
    FullCurrentRead(s, h, start, end);
    SameScan(s.kv, VisibleAt(h, s.current), start, end);
  }

  // ---------------------------------------------------------------- a hidden key

  lemma ScanOne(kv: Kv, start: Bytes, end: Bytes, k: Bytes)
    requires k in kv && forall x :: x in kv && InBounds(x, start, end) <==> x == k
    ensures Scan(kv, start, end) == [kv[k]]
  {
    AscendingUnique(NamesIn(kv, start, end), [k]);
    assert KvsOf(kv, [k]) == [kv[k]];
  }

  /** The read of a range that holds one stored key: the key is found if it was written at or after the
      mark; after a restore it is found in any case. */
  lemma OneKeyRead(s: Store, h: History, start: Bytes, end: Bytes, k: Bytes)
    requires Related(s, h) && !PanickingBounds(start, end)
    requires k in s.kv && forall x :: x in s.kv && InBounds(x, start, end) <==> x == k
    ensures var one := Done(RangeResult([s.kv[k]], false, 1));
      && RangeOf(s, start, end, 0, 0, false) == (if Shows(h, s.kv[k]) then one else Done(RangeResult([], false, 0)))
      && RangeOf(Restored(s), start, end, 0, 0, false) == one
  {
    var visible := VisibleAt(h, s.current);
    FullCurrentRead(s, h, start, end);
    RestoredRead(s, h, start, end);
    ScanOne(s.kv, start, end, k);
    if Shows(h, s.kv[k]) {
      ScanOne(visible, start, end, k);
    } else {
      AscendingUnique(NamesIn(visible, start, end), []);
    }
  }

  /** Compacting past the only key of a range: found before, not found after, found after a restore. */
  lemma HiddenAndRevealed(s: Store, h: History, start: Bytes, end: Bytes, k: Bytes, c: i64)
    requires Related(s, h) && !PanickingBounds(start, end)
    requires k in s.kv && h.mark <= s.kv[k].modRevision < c <= s.current
    requires forall x :: x in s.kv && InBounds(x, start, end) <==> x == k
    ensures var one := Done(RangeResult([s.kv[k]], false, 1));
      && AfterCompact(s, c).kv == s.kv && RangeOf(s, start, end, 0, 0, false) == one
      && RangeOf(AfterCompact(s, c), start, end, 0, 0, false) == Done(RangeResult([], false, 0))
      && RangeOf(Restored(AfterCompact(s, c)), start, end, 0, 0, false) == one
  {
    CompactRefines(s, h, c);
    OneKeyRead(s, h, start, end, k);
    OneKeyRead(AfterCompact(s, c), CompactHistory(h, c), start, end, k);
  }

  lemma TwoPutsRun(a: Bytes, b: Bytes, value: Bytes)
    requires Less(a, b)
    ensures var s := Run(EMPTY, [Put(a, value, 0), Put(b, value, 0)]);
      s.current == 3 && s.kv == map[a := KeyValue(a, 2, 2, 1, value, 0), b := KeyValue(b, 3, 3, 1, value, 0)]
  {
    var ops := [Put(a, value, 0), Put(b, value, 0)];
    LessTotal(a, b);
    assert Run(EMPTY, ops[..1]) == AfterPut(EMPTY, a, value, 0) by { assert ops[..1][..0] == []; }
    assert Run(EMPTY, ops) == AfterPut(AfterPut(EMPTY, a, value, 0), b, value, 0);
  }

  lemma TwoPuts(a: Bytes, b: Bytes, value: Bytes)
    requires Less(a, b) && |a| < TWO_32 && |b| < TWO_32 && |value| < TWO_32
    ensures var ops := [Put(a, value, 0), Put(b, value, 0)];
      var s, h := Run(EMPTY, ops), RunHistory(BEGINNING, ops);
      && s.current == 3 && s.kv == map[a := KeyValue(a, 2, 2, 1, value, 0), b := KeyValue(b, 3, 3, 1, value, 0)]
      && Related(s, h) && h.mark == 0
  {
    var ops := [Put(a, value, 0), Put(b, value, 0)];
    TwoPutsRun(a, b, value);
    RunRefines(ops);
    MarkIsHighMark(ops);
    NoMark(ops);
  }

  /** Compaction hides a live key and a restore brings it back, on any two keys put one after the
      other: compaction at revision 3 leaves the first key in `kv` while no read finds it any more. */
  lemma CompactionHidesRestoreReveals(a: Bytes, b: Bytes, value: Bytes)
    requires Less(a, b) && |a| < TWO_32 && |b| < TWO_32 && |value| < TWO_32
    ensures var ops := [Put(a, value, 0), Put(b, value, 0)];
      var s, compacted := Run(EMPTY, ops), Run(EMPTY, ops + [Compact(3)]);
      var one := Done(RangeResult([KeyValue(a, 2, 2, 1, value, 0)], false, 1));
      && compacted.kv == s.kv && a in compacted.kv
      && RangeOf(s, a, b, 0, 0, false) == one
      && RangeOf(compacted, a, b, 0, 0, false) == Done(RangeResult([], false, 0))
      && RangeOf(Restored(compacted), a, b, 0, 0, false) == one
  {
    var ops := [Put(a, value, 0), Put(b, value, 0)];
    var s, h := Run(EMPTY, ops), RunHistory(BEGINNING, ops);
    assert Run(EMPTY, ops + [Compact(3)]) == AfterCompact(s, 3) by {
      assert (ops + [Compact(3)])[..2] == ops;
    }
    TwoPuts(a, b, value);
    LessTotal(a, b);
    LessTotal(a, a);
    LessTotal(b, b);
    HiddenAndRevealed(s, h, a, b, a, 3);
  }

  lemma {:induction false} NoMark(ops: seq<Op>)
    requires forall op :: op in ops ==> Mutates(op)
    ensures HighMark(EMPTY, ops) == 0
  {
    if ops != [] {
      assert ops[|ops| - 1] in ops;
      NoMark(ops[..|ops| - 1]);
    }
  }

  // ---------------------------------------------------------------- scans of a part

  /** Scans of a map and of a part of it agree exactly when nothing in bounds is missing. */
  lemma SameScan(kv: Kv, part: Kv, start: Bytes, end: Bytes)
    requires forall k :: k in part ==> k in kv && part[k] == kv[k]
    ensures Scan(kv, start, end) == Scan(part, start, end) <==>
      forall k :: k in kv && InBounds(k, start, end) ==> k in part
  {
    var names, names' := NamesIn(kv, start, end), NamesIn(part, start, end);
    if forall k :: k in kv && InBounds(k, start, end) ==> k in part {
      AscendingUnique(names, names');
      SameKvs(kv, part, names);
    } else {
      var k :| k in kv && InBounds(k, start, end) && k !in part;
      assert k in names && k !in names';
      FewerNames(names, names', k);
    }
  }

  lemma FewerNames(names: seq<Bytes>, names': seq<Bytes>, k: Bytes)
    requires Ascending(names) && Ascending(names')
    requires (forall x :: x in names' ==> x in names) && k in names && k !in names'
    ensures |names'| < |names|
  {
    AscendingDistinct(names);
    AscendingDistinct(names');
    DistinctCount(names);
    DistinctCount(names');
    var a, b := ElementsOf(names'), ElementsOf(names);
    assert a + {k} <= b;
    SubsetSmaller(a + {k}, b);
  }

  lemma {:induction false} SubsetSmaller(a: set<Bytes>, b: set<Bytes>)
    requires a <= b
    ensures |a| <= |b|
  {
    if a != {} {
      var x :| x in a;
      SubsetSmaller(a - {x}, b - {x});
    }
  }
}
