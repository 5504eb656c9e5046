/** Reads of the store: they are reads of the reference history, at every revision and through both
    read paths. Time travel, exact compaction and coherence of the three structures follow. */
module Reads {
  import opened ByteStrings
  import opened KeyValues
  import opened KeyIndexing
  import opened Stores
  import opened Histories

  // ---------------------------------------------------------------- range is a reference read

  /** One fetch: whatever the path, it yields the record the history holds at the queried revision. */
  lemma FetchIsReference(s: Store, h: History, query: i64, isCurrent: bool, k: Bytes, rev: Revision)
    requires Related(s, h) && query >= 1 && (!isCurrent ==> query <= s.current) && (isCurrent ==> query >= s.current)
    requires Get(s.index, k, query) == Some(rev)
    ensures var state := h.states[if query <= s.current then query else s.current];
      k in state && Fetch(s, k, rev, isCurrent, query) == Some(state[k])
  {
    assert EntryRelated(EntryOf(s.index, k), h, k);
    assert EntryGet(EntryOf(s.index, k), query) == Shown(h, k, query);
    var r := if query <= s.current then query else s.current;
    RecordsOk(h, r);
    if !isCurrent {
      CarriedFromWrite(h, r, k);
      var m := h.states[r][k].modRevision;
      assert Logged(s.log, h, m, k);
    }
  }

  lemma {:induction false} CollectNothing(s: Store, keys: seq<(Bytes, Revision)>, isCurrent: bool, query: i64,
                                          limit: i64)
    ensures Collect(s, keys, isCurrent, query, limit, true, []) == []
  {
    if keys != [] {
      CollectNothing(s, keys[1..], isCurrent, query, limit);
    }
  }

  /** The fetching loop over a scan whose keys all resolve appends the first ones, up to the limit. */
  lemma {:induction false} CollectAll(s: Store, keys: seq<(Bytes, Revision)>, isCurrent: bool, query: i64, limit: i64,
                                      acc: seq<KeyValue>, found: seq<KeyValue>)
    requires |found| == |keys|
    requires forall i :: 0 <= i < |keys| ==> Fetch(s, keys[i].0, keys[i].1, isCurrent, query) == Some(found[i])
    requires limit > 0 ==> |acc| <= limit
    ensures var n := if 0 < limit < |acc| + |keys| then limit - |acc| else |keys|;
      Collect(s, keys, isCurrent, query, limit, false, acc) == acc + found[..n]
  {
    if keys == [] || (limit > 0 && |acc| >= limit) {
      assert found[..0] == [] && acc + [] == acc;
    } else {
      assert Fetch(s, keys[0].0, keys[0].1, isCurrent, query) == Some(found[0]);
      CollectAll(s, keys[1..], isCurrent, query, limit, acc + [found[0]], found[1..]);
      var n := if 0 < limit < |acc| + |keys| then limit - |acc| else |keys|;
      assert found[..n] == [found[0]] + found[1..][..n - 1];
    }
  }

  /** The index scan lists exactly the keys the history shows. */
  lemma ScanIsReference(s: Store, h: History, start: Bytes, end: Bytes, query: i64)
    requires Related(s, h) && query >= 1
    ensures VisibleKeys(s.index, start, end, query)
         == set k | k in VisibleAt(h, ReadRevision(h, query)) && InBounds(k, start, end)
  {
    var inBounds := set k | k in VisibleAt(h, ReadRevision(h, query)) && InBounds(k, start, end);
    forall k ensures k in VisibleKeys(s.index, start, end, query) <==> k in inBounds {
      assert EntryRelated(EntryOf(s.index, k), h, k);
      assert EntryGet(EntryOf(s.index, k), query) == Shown(h, k, query);
      assert k in VisibleKeys(s.index, start, end, query) <==>
        k in s.index && InBounds(k, start, end) && Get(s.index, k, query).Some?;
    }
  }

  lemma FetchedIsReference(s: Store, h: History, start: Bytes, end: Bytes, query: i64, isCurrent: bool)
    requires Related(s, h) && query >= 1 && (!isCurrent ==> query <= s.current) && (isCurrent ==> query >= s.current)
    ensures var visible := VisibleAt(h, ReadRevision(h, query));
      var keys := RangeAt(s.index, start, end, query);
      var names := NamesIn(visible, start, end);
      |keys| == |names|
      && forall i :: 0 <= i < |keys| ==>
        names[i] in visible && Fetch(s, keys[i].0, keys[i].1, isCurrent, query) == Some(visible[names[i]])
  {
    var visible := VisibleAt(h, ReadRevision(h, query));
    var keys, names := RangeAt(s.index, start, end, query), NamesIn(visible, start, end);
    ScanIsReference(s, h, start, end, query);
    RangeAtNames(s.index, start, end, query);
    forall i | 0 <= i < |keys|
      ensures names[i] in visible && Fetch(s, names[i], keys[i].1, isCurrent, query) == Some(visible[names[i]])
    {
      assert names[i] in names;
      FetchIsReference(s, h, query, isCurrent, names[i], keys[i].1);
    }
  }

  lemma CollectedIsReference(s: Store, h: History, start: Bytes, end: Bytes, query: i64, isCurrent: bool, limit: i64,
                             countOnly: bool)
    requires Related(s, h) && query >= 1 && (!isCurrent ==> query <= s.current) && (isCurrent ==> query >= s.current)
    ensures var all := Scan(VisibleAt(h, ReadRevision(h, query)), start, end);
      var keys := RangeAt(s.index, start, end, query);
      var n := if countOnly then 0 else if 0 < limit < |all| then limit else |all|;
      |keys| == |all| && Collect(s, keys, isCurrent, query, limit, countOnly, []) == all[..n]
  {
    var visible := VisibleAt(h, ReadRevision(h, query));
    var keys := RangeAt(s.index, start, end, query);
    FetchedIsReference(s, h, start, end, query, isCurrent);
    if countOnly {
      CollectNothing(s, keys, isCurrent, query, limit);
    } else {
      CollectAll(s, keys, isCurrent, query, limit, [], Scan(visible, start, end));
    }
  }

  /** A read whose scan and fetches agree with the history is a read of the history. */
  lemma ReadFromCollected(s: Store, h: History, start: Bytes, end: Bytes, revision: i64, limit: i64, countOnly: bool)
    requires |h.states| == s.current + 1 && |h.states| >= 2 && !PanickingBounds(start, end)
    requires var all := Scan(VisibleAt(h, ReadRevision(h, revision)), start, end);
      var query := if revision <= 0 then s.current else revision;
      var keys := RangeAt(s.index, start, end, query);
      var n := if countOnly then 0 else if 0 < limit < |all| then limit else |all|;
      && |keys| == |all|
      && Collect(s, keys, revision <= 0 || revision >= s.current, query, limit, countOnly, []) == all[..n]
    ensures RangeOf(s, start, end, revision, limit, countOnly) == Read(h, start, end, revision, limit, countOnly)
  {
  }

  /** Every `range` on a store reached from the empty one returns what the reference history holds:
      same records, same order, same count, same `more` flag, at every revision and limit. */
  lemma RangeIsReference(s: Store, h: History, start: Bytes, end: Bytes, revision: i64, limit: i64, countOnly: bool)
    requires Related(s, h)
    ensures RangeOf(s, start, end, revision, limit, countOnly) == Read(h, start, end, revision, limit, countOnly)
  {
    if !PanickingBounds(start, end) {
      var query := if revision <= 0 then s.current else revision;
      assert ReadRevision(h, query) == ReadRevision(h, revision);
      CollectedIsReference(s, h, start, end, query, revision <= 0 || revision >= s.current, limit, countOnly);
      ReadFromCollected(s, h, start, end, revision, limit, countOnly);
    }
  }

  lemma SingleKeyScan(kv: Kv, key: Bytes)
    ensures Scan(kv, key, key + [0]) == if key in kv then [kv[key]] else []
  {
    var names := NamesIn(kv, key, key + [0]);
    SingleKeyBounds(key);
    if key in kv {
      AscendingUnique(names, [key]);
      assert KvsOf(kv, [key]) == [kv[key]];
    } else {
      AscendingUnique(names, []);
    }
  }

  /** The records of `kv` in bounds, by key. */
  ghost predicate ListsInOrder(all: seq<KeyValue>, kv: Kv, start: Bytes, end: Bytes) {
    && (forall x :: x in all <==> x.key in kv && InBounds(x.key, start, end) && x == kv[x.key])
    && (forall i, j :: 0 <= i < j < |all| ==> Less(all[i].key, all[j].key))
  }

  /** What a read returns, in terms of the visible contents: the records in bounds in key order, up to the
      limit; the count is theirs, and `more` says that a limit was given and something is missing. */
  lemma ReadMeans(h: History, start: Bytes, end: Bytes, revision: i64, limit: i64, countOnly: bool)
    requires HistoryOk(h) && !PanickingBounds(start, end)
    ensures var r := Read(h, start, end, revision, limit, countOnly).value;
      var full := Read(h, start, end, revision, 0, false).value.kvs;
      && ListsInOrder(full, VisibleAt(h, ReadRevision(h, revision)), start, end)
      && r.count == |full| && r.kvs <= full && (r.more <==> limit > 0 && |r.kvs| < |full|)
      && (if countOnly then r.kvs == []
          else if limit <= 0 || limit >= |full| then r.kvs == full else |r.kvs| == limit)
  {
    var at := ReadRevision(h, revision);
    RecordsOk(h, at);
    ScanMeans(VisibleAt(h, at), start, end);
    CutMeans(h, start, end, revision, limit, countOnly);
  }

  lemma CutMeans(h: History, start: Bytes, end: Bytes, revision: i64, limit: i64, countOnly: bool)
    requires h.states != [] && !PanickingBounds(start, end)
    ensures var all := Scan(VisibleAt(h, ReadRevision(h, revision)), start, end);
      var r := Read(h, start, end, revision, limit, countOnly).value;
      && Read(h, start, end, revision, 0, false).value.kvs == all
      && r.count == |all| && r.kvs <= all && (r.more <==> limit > 0 && |r.kvs| < |all|)
      && (if countOnly then r.kvs == [] else if limit <= 0 || limit >= |all| then r.kvs == all else |r.kvs| == limit)
  {
    var all := Scan(VisibleAt(h, ReadRevision(h, revision)), start, end);
    assert all[..|all|] == all;
  }

  lemma ScanMeans(kv: Kv, start: Bytes, end: Bytes)
    requires forall k :: k in kv ==> kv[k].key == k
    ensures ListsInOrder(Scan(kv, start, end), kv, start, end)
  {
    var names, all := NamesIn(kv, start, end), Scan(kv, start, end);
    forall x ensures x in all <==> x.key in kv && InBounds(x.key, start, end) && x == kv[x.key] {
      if x in all {
        var i :| 0 <= i < |all| && all[i] == x;
        assert names[i] in names;
      } else if x.key in names {
        var i :| 0 <= i < |names| && names[i] == x.key;
        assert all[i] == kv[x.key];
      }
    }
    forall i, j | 0 <= i < j < |all| ensures Less(all[i].key, all[j].key) {
      assert names[i] in names && names[j] in names;
    }
  }

  // ---------------------------------------------------------------- time travel

  predicate Mutates(op: Op) {
    op.Put? || op.Delete?
  }

  /** Puts and deletes only add revisions. */
  lemma {:induction false} RunAppends(h: History, more: seq<Op>)
    requires 1 <= |h.states| && |h.states| + |more| <= MAX_I64 + 1
    requires forall op :: op in more ==> Mutates(op)
    ensures var h' := RunHistory(h, more);
      h'.mark == h.mark && |h'.states| == |h.states| + |more| && h'.states[..|h.states|] == h.states
  {
    if more != [] {
      var before := more[..|more| - 1];
      assert more[|more| - 1] in more;
      assert forall op :: op in before ==> op in more;
      RunAppends(h, before);
    }
  }

  lemma {:induction false} RunRefinesFrom(s: Store, h: History, more: seq<Op>)
    requires Related(s, h) && s.current + |more| <= MAX_I64
    requires forall op :: op in more ==> Storable(op)
    ensures Related(Run(s, more), RunHistory(h, more))
  {
    if more != [] {
      var before := more[..|more| - 1];
      assert more[|more| - 1] in more;
      assert forall op :: op in before ==> op in more;
      RunRefinesFrom(s, h, before);
      StepRefines(Run(s, before), RunHistory(h, before), more[|more| - 1]);
    }
  }

  lemma TimeTravelFrom(s: Store, h: History, more: seq<Op>, start: Bytes, end: Bytes, revision: i64, limit: i64,
                       countOnly: bool)
    requires Related(s, h) && s.current + |more| <= MAX_I64
    requires forall op :: op in more ==> Storable(op) && Mutates(op)
    requires 1 <= revision <= s.current
    ensures RangeOf(Run(s, more), start, end, revision, limit, countOnly)
      == RangeOf(s, start, end, revision, limit, countOnly)
  {
    RunRefinesFrom(s, h, more);
    RunAppends(h, more);
    var h' := RunHistory(h, more);
    RangeIsReference(s, h, start, end, revision, limit, countOnly);
    RangeIsReference(Run(s, more), h', start, end, revision, limit, countOnly);
    SameRead(h, h', start, end, revision, limit, countOnly);
  }

  lemma SameRead(h: History, h': History, start: Bytes, end: Bytes, revision: int, limit: int, countOnly: bool)
    requires 0 < revision < |h.states| <= |h'.states| && h'.states[..|h.states|] == h.states && h'.mark == h.mark
    ensures Read(h', start, end, revision, limit, countOnly) == Read(h, start, end, revision, limit, countOnly)
  {
    assert h'.states[revision] == h.states[revision];
    assert VisibleAt(h', revision) == VisibleAt(h, revision);
  }

  /** Time travel: after any run `ops` (compactions included), any further puts and deletes leave every
      `range` at every revision reached so far as it was. The read at the old current revision moves
      from the `kv` tree to the `kv_rev` tree and still answers the same. */
  lemma TimeTravel(ops: seq<Op>, more: seq<Op>, start: Bytes, end: Bytes, revision: i64, limit: i64, countOnly: bool)
    requires Runnable(ops) && Runnable(more) && |ops| + |more| < MAX_I64
    requires forall op :: op in more ==> Mutates(op)
    requires 1 <= revision <= Run(EMPTY, ops).current
    ensures var s := Run(EMPTY, ops);
      RangeOf(Run(s, more), start, end, revision, limit, countOnly)
        == RangeOf(s, start, end, revision, limit, countOnly)
  {
    RunRefines(ops);
    TimeTravelFrom(Run(EMPTY, ops), RunHistory(BEGINNING, ops), more, start, end, revision, limit, countOnly);
  }

  // ---------------------------------------------------------------- coherence

  /** Highest compaction point a run has accepted. */
  function HighMark(s: Store, ops: seq<Op>): int {
    if ops == [] then 0
    else
      var before := ops[..|ops| - 1];
      match ops[|ops| - 1]
      case Compact(c) => if c <= Run(s, before).current then Max(HighMark(s, before), c) else HighMark(s, before)
      case _ => HighMark(s, before)
  }

  lemma {:induction false} MarkIsHighMark(ops: seq<Op>)
    requires Runnable(ops)
    ensures RunHistory(BEGINNING, ops).mark == HighMark(EMPTY, ops)
  {
    if ops != [] {
      var before := ops[..|ops| - 1];
      assert forall op :: op in before ==> op in ops;
      MarkIsHighMark(before);
      RunRefines(before);
    }
  }

  /** The three structures tell one story, `w` being the highest compaction point so far. */
  ghost predicate Coherent(s: Store, w: int) {
    && (forall k :: k in s.kv <==> LastAlive(EntryOf(s.index, k)))
    && (forall k :: Get(s.index, k, s.current) ==
         if k in s.kv && s.kv[k].modRevision >= w then Some(Revision(s.kv[k].modRevision, 0)) else None)
    && (forall k, x: Revision :: Held(EntryOf(s.index, k), x) <==>
         x.sub == 0 && (x.main, k) in s.log && s.log[(x.main, k)].version > 0)
    && (forall r, k :: (r, k) in s.log ==>
         w <= r <= s.current && s.log[(r, k)].modRevision == r && s.log[(r, k)].key == k)
    && (forall k :: k in s.kv && s.kv[k].modRevision >= w ==>
         (s.kv[k].modRevision, k) in s.log && s.log[(s.kv[k].modRevision, k)] == s.kv[k])
  }

  lemma HeldIffLogged(s: Store, h: History, k: Bytes, x: Revision)
    requires Related(s, h)
    ensures Held(EntryOf(s.index, k), x) <==> x.sub == 0 && (x.main, k) in s.log && s.log[(x.main, k)].version > 0
  {
    var e := EntryOf(s.index, k);
    assert EntryRelated(e, h, k);
    assert Logged(s.log, h, x.main, k);
    if Held(e, x) {
      HeldBelow(e, s.current, x);
      assert EntryGet(e, x.main) == Shown(h, k, x.main);
      RecordsOk(h, x.main);
    }
    if (x.main, k) in s.log && s.log[(x.main, k)].version > 0 && x.sub == 0 {
      assert EntryGet(e, x.main) == Shown(h, k, x.main);
      LookupIsHeld(e, x.main);
    }
  }

  lemma {:induction false} LookupIsHeld(e: Entry, r: int)
    ensures EntryGet(e, r).Some? ==> Held(e, EntryGet(e, r).value)
  {
    if e != [] {
      if AliveAt(e[0], r) {
        LatestUpToInBound(e[0].revisions, r);
      } else {
        LookupIsHeld(e[1..], r);
        if EntryGet(e, r).Some? {
          var x := EntryGet(e, r).value;
          var i :| 0 <= i < |e[1..]| && x in e[1..][i].revisions;
          assert x in e[i + 1].revisions;
        }
      }
    }
  }

  lemma LookupNow(s: Store, h: History, k: Bytes)
    requires Related(s, h)
    ensures k in s.kv <==> LastAlive(EntryOf(s.index, k))
    ensures Get(s.index, k, s.current) ==
      if k in s.kv && s.kv[k].modRevision >= h.mark then Some(Revision(s.kv[k].modRevision, 0)) else None
    ensures k in s.kv && s.kv[k].modRevision >= h.mark ==>
      (s.kv[k].modRevision, k) in s.log && s.log[(s.kv[k].modRevision, k)] == s.kv[k]
  {
    assert EntryRelated(EntryOf(s.index, k), h, k);
    assert EntryGet(EntryOf(s.index, k), s.current) == Shown(h, k, s.current);
    RecordsOk(h, s.current);
    if k in s.kv {
      CarriedFromWrite(h, s.current, k);
      assert Logged(s.log, h, s.kv[k].modRevision, k);
    }
  }

  lemma LogEntrySound(s: Store, h: History, r: i64, k: Bytes)
    requires Related(s, h) && (r, k) in s.log
    ensures h.mark <= r <= s.current && s.log[(r, k)].modRevision == r && s.log[(r, k)].key == k
  {
    assert Logged(s.log, h, r, k);
    RecordsOk(h, r);
  }

  /** Every reachable store is coherent: a key is in `kv` iff its last generation is alive; the index
      shows it now iff it was written at or after the highest compaction point; the index holds exactly
      the revisions of the logged puts; and the log repeats the latest record of every shown key. */
  lemma ReachableCoherent(ops: seq<Op>)
    requires Runnable(ops)
    ensures Coherent(Run(EMPTY, ops), HighMark(EMPTY, ops))
  {
    var s, h := Run(EMPTY, ops), RunHistory(BEGINNING, ops);
    RunRefines(ops);
    MarkIsHighMark(ops);
    forall k { LookupNow(s, h, k); }
    forall k, x: Revision { HeldIffLogged(s, h, k, x); }
    forall r, k | (r, k) in s.log { LogEntrySound(s, h, r, k); }
  }

  // ---------------------------------------------------------------- compaction

  /** The records of a result written at or after `c`, in order. */
  function WrittenSince(kvs: seq<KeyValue>, c: int): seq<KeyValue> {
    if kvs == [] then []
    else
      var last := kvs[|kvs| - 1];
      WrittenSince(kvs[..|kvs| - 1], c) + if last.modRevision >= c then [last] else []
  }

  /** Compaction at any accepted point changes index lookups in exactly one way: an answer below the
      point becomes none. */
  lemma CompactLookups(ops: seq<Op>, c: i64, k: Bytes, r: int)
    requires Runnable(ops) && c <= Run(EMPTY, ops).current
    ensures var s := Run(EMPTY, ops);
      Get(AfterCompact(s, c).index, k, r) == AtLeast(Get(s.index, k, r), c)
  {
    var s, h := Run(EMPTY, ops), RunHistory(BEGINNING, ops);
    RunRefines(ops);
    assert EntryRelated(EntryOf(s.index, k), h, k);
    GetAfterCompact(EntryOf(s.index, k), s.current, c, r);
    assert EntryOf(AfterCompact(s, c).index, k) == EntryCompact(EntryOf(s.index, k), c);
  }

  function KeepNames(kv: Kv, names: seq<Bytes>, c: int): (kept: seq<Bytes>)
    requires forall k :: k in names ==> k in kv
    ensures forall k :: k in kept <==> k in names && kv[k].modRevision >= c
  {
    if names == [] then []
    else
      var k := names[|names| - 1];
      assert names == names[..|names| - 1] + [k];
      KeepNames(kv, names[..|names| - 1], c) + if kv[k].modRevision >= c then [k] else []
  }

  lemma {:induction false} KeepNamesAscending(kv: Kv, names: seq<Bytes>, c: int)
    requires (forall k :: k in names ==> k in kv) && Ascending(names)
    ensures Ascending(KeepNames(kv, names, c))
  {
    if names != [] {
      var n := |names| - 1;
      assert names == names[..n] + [names[n]];
      KeepNamesAscending(kv, names[..n], c);
      var before := KeepNames(kv, names[..n], c);
      forall i | 0 <= i < |before| ensures Less(before[i], names[n]) {
        assert before[i] in names[..n];
      }
    }
  }

  lemma {:induction false} KeepNamesKvs(kv: Kv, names: seq<Bytes>, c: int)
    requires forall k :: k in names ==> k in kv
    ensures WrittenSince(KvsOf(kv, names), c) == KvsOf(kv, KeepNames(kv, names, c))
  {
    if names != [] {
      var n := |names| - 1;
      var kept, before := KeepNames(kv, names, c), KeepNames(kv, names[..n], c);
      KeepNamesKvs(kv, names[..n], c);
      assert KvsOf(kv, names)[..n] == KvsOf(kv, names[..n]);
      if kv[names[n]].modRevision >= c {
        assert kept[..|before|] == before;
      } else {
        assert kept == before;
      }
    }
  }

  lemma {:induction false} WrittenSinceAll(kvs: seq<KeyValue>, c: int)
    ensures |WrittenSince(kvs, c)| <= |kvs|
    ensures WrittenSince(kvs, c) == kvs <==> forall kv :: kv in kvs ==> kv.modRevision >= c
    ensures |WrittenSince(kvs, c)| == |kvs| <==> forall kv :: kv in kvs ==> kv.modRevision >= c
  {
    if kvs != [] {
      var n := |kvs| - 1;
      assert kvs == kvs[..n] + [kvs[n]];
      WrittenSinceAll(kvs[..n], c);
    }
  }

  lemma ContentsAfterCompact(h: History, c: int, r: int)
    requires HistoryOk(h) && c < |h.states| && 0 <= r < |h.states|
    ensures var visible, visible' := VisibleAt(h, r), VisibleAt(CompactHistory(h, c), r);
      visible' == map k | k in visible && visible[k].modRevision >= c :: visible[k]
  {
  }

  lemma KeptNames(kv: Kv, kv': Kv, start: Bytes, end: Bytes, c: int)
    requires kv' == map k | k in kv && kv[k].modRevision >= c :: kv[k]
    ensures KeepNames(kv, NamesIn(kv, start, end), c) == NamesIn(kv', start, end)
  {
    KeepNamesAscending(kv, NamesIn(kv, start, end), c);
    AscendingUnique(KeepNames(kv, NamesIn(kv, start, end), c), NamesIn(kv', start, end));
  }

  lemma SameKvs(kv: Kv, kv': Kv, names: seq<Bytes>)
    requires forall k :: k in names ==> k in kv && k in kv' && kv[k] == kv'[k]
    ensures KvsOf(kv, names) == KvsOf(kv', names)
  {
  }

  /** Reading a restriction of `kv` to the records since `c`. */
  lemma RestrictedScan(kv: Kv, kv': Kv, start: Bytes, end: Bytes, c: int)
    requires kv' == map k | k in kv && kv[k].modRevision >= c :: kv[k]
    ensures Scan(kv', start, end) == WrittenSince(Scan(kv, start, end), c)
  {
    var names := NamesIn(kv, start, end);
    KeptNames(kv, kv', start, end, c);
    KeepNamesKvs(kv, names, c);
    SameKvs(kv, kv', KeepNames(kv, names, c));
  }

  /** An unlimited read is the scan of the visible contents. */
  lemma FullRead(h: History, start: Bytes, end: Bytes, revision: int)
    requires h.states != [] && !PanickingBounds(start, end)
    ensures var all := Scan(VisibleAt(h, ReadRevision(h, revision)), start, end);
      Read(h, start, end, revision, 0, false) == Done(RangeResult(all, false, |all|))
  {
    var all := Scan(VisibleAt(h, ReadRevision(h, revision)), start, end);
    assert all[..|all|] == all;
  }

  lemma FullCurrentRead(s: Store, h: History, start: Bytes, end: Bytes)
    requires Related(s, h) && !PanickingBounds(start, end)
    ensures var all := Scan(VisibleAt(h, s.current), start, end);
      RangeOf(s, start, end, 0, 0, false) == Done(RangeResult(all, false, |all|))
  {
    assert ReadRevision(h, 0) == s.current;
    FullRead(h, start, end, 0);
    RangeIsReference(s, h, start, end, 0, 0, false);
  }

  /** Compaction has an exact effect on reads, through both read paths and at every revision: a full
      range keeps, in order, the records last written at or after the point, so it is unchanged if
      and only if all of them were. */
  lemma CompactedRange(ops: seq<Op>, c: i64, start: Bytes, end: Bytes, revision: i64)
    requires Runnable(ops) && c <= Run(EMPTY, ops).current && !PanickingBounds(start, end)
    ensures var s := Run(EMPTY, ops);
      var before := RangeOf(s, start, end, revision, 0, false);
      var after := RangeOf(AfterCompact(s, c), start, end, revision, 0, false);
      && before.Done? && after.Done?
      && after.value.kvs == WrittenSince(before.value.kvs, c)
      && (after == before <==> forall kv :: kv in before.value.kvs ==> kv.modRevision >= c)
  {
    var s, h := Run(EMPTY, ops), RunHistory(BEGINNING, ops);
    RunRefines(ops);
    CompactRefines(s, h, c);
    var h' := CompactHistory(h, c);
    RangeIsReference(s, h, start, end, revision, 0, false);
    RangeIsReference(AfterCompact(s, c), h', start, end, revision, 0, false);
    FullRead(h, start, end, revision);
    FullRead(h', start, end, revision);
    var r := ReadRevision(h, revision);
    ContentsAfterCompact(h, c, r);
    RestrictedScan(VisibleAt(h, r), VisibleAt(h', r), start, end, c);
    WrittenSinceAll(Read(h, start, end, revision, 0, false).value.kvs, c);
  }
}
