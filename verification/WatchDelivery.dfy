/** Live notifications and catch-up compared: what the service hands to the watch hub when it writes
    (src/api/kv_service.rs), and what `watch_events` reports of the same write. */
module WatchDeliveries {
  import opened ByteStrings
  import opened KeyValues
  import opened KeyIndexing
  import opened Stores
  import opened Histories
  import opened Replay
  import opened Writings
  import Hub = WatchHubs

  /** The notification of a range delete: every removed record as it was, old revision included. */
  function LiveDeletes(kvs: seq<KeyValue>): (r: seq<Hub.HubEvent>)
    ensures |r| == |kvs| && forall i :: 0 <= i < |kvs| ==> r[i] == Hub.HubEvent(Hub.DeleteEvent, kvs[i], Some(kvs[i]))
  {
    if kvs == [] then []
    else
      var last := kvs[|kvs| - 1];
      LiveDeletes(kvs[..|kvs| - 1]) + [Hub.HubEvent(Hub.DeleteEvent, last, Some(last))]
  }

  function LivePut(kv: KeyValue, prev: Option<KeyValue>): seq<Hub.HubEvent> {
    [Hub.HubEvent(Hub.PutEvent, kv, prev)]
  }

  /** Catch-up events as the hub sees events. */
  function CaughtUp(events: seq<Event>): (r: seq<Hub.HubEvent>)
    ensures |r| == |events|
    ensures forall i :: 0 <= i < |events| ==>
      r[i] == Hub.HubEvent(if events[i].eventType == "Put" then Hub.PutEvent else Hub.DeleteEvent,
                           events[i].kv, events[i].prevKv)
  {
    if events == [] then []
    else
      var e := events[|events| - 1];
      CaughtUp(events[..|events| - 1])
        + [Hub.HubEvent(if e.eventType == "Put" then Hub.PutEvent else Hub.DeleteEvent, e.kv, e.prevKv)]
  }

  function KeysOf(events: seq<Hub.HubEvent>): (r: seq<Bytes>)
    ensures |r| == |events|
  {
    if events == [] then [] else KeysOf(events[..|events| - 1]) + [events[|events| - 1].kv.key]
  }

  lemma KeysOfAppend(events: seq<Hub.HubEvent>, e: Hub.HubEvent)
    ensures KeysOf(events + [e]) == KeysOf(events) + [e.kv.key]
  {
    assert (events + [e])[..|events|] == events;
  }

  ghost predicate WantedAlike(w: Hub.Watcher, a: seq<Hub.HubEvent>, b: seq<Hub.HubEvent>)
    requires |a| == |b|
  {
    forall i :: 0 <= i < |a| ==> (Hub.Wants(w, a[i]) <==> Hub.Wants(w, b[i]))
  }

  /** Two lists about the same keys, one wanting no more than the other: the wanted keys agree exactly
      when every event is wanted in both or in neither. */
  lemma {:induction false} SameKeysWanted(w: Hub.Watcher, a: seq<Hub.HubEvent>, b: seq<Hub.HubEvent>)
    requires |a| == |b| && forall i :: 0 <= i < |a| ==> a[i].kv.key == b[i].kv.key
    requires forall i :: 0 <= i < |a| ==> (Hub.Wants(w, a[i]) ==> Hub.Wants(w, b[i]))
    ensures |Hub.Wanted(w, a)| <= |Hub.Wanted(w, b)|
    ensures KeysOf(Hub.Wanted(w, a)) == KeysOf(Hub.Wanted(w, b)) <==> WantedAlike(w, a, b)
  {
    if a != [] {
      var n := |a| - 1;
      var wa, wb := Hub.Wanted(w, a[..n]), Hub.Wanted(w, b[..n]);
      SameKeysWanted(w, a[..n], b[..n]);
      assert WantedAlike(w, a, b) <==>
        WantedAlike(w, a[..n], b[..n]) && (Hub.Wants(w, a[n]) <==> Hub.Wants(w, b[n])) by {
        assert forall i :: 0 <= i < n ==> a[..n][i] == a[i] && b[..n][i] == b[i];
      }
      KeysOfAppend(wa, a[n]);
      KeysOfAppend(wb, b[n]);
      if Hub.Wants(w, a[n]) {
        SameLast(KeysOf(wa), KeysOf(wb), a[n].kv.key);
      } else {
        assert Hub.Wanted(w, a) == wa;
        if Hub.Wants(w, b[n]) {
          assert |KeysOf(Hub.Wanted(w, a))| < |KeysOf(Hub.Wanted(w, b))|;
        } else {
          assert Hub.Wanted(w, b) == wb;
        }
      }
    }
  }

  lemma SameLast(a: seq<Bytes>, b: seq<Bytes>, k: Bytes)
    ensures a + [k] == b + [k] <==> a == b
  {
    if a + [k] == b + [k] {
      assert a == (a + [k])[..|a|] && b == (b + [k])[..|b|];
    }
  }

  /** Nothing is logged at the revision the next write takes. */
  ghost predicate FreshNext(s: Store) {
    s.current < MAX_I64 && forall k :: (Next(s.current), k) !in s.log
  }

  lemma NothingLoggedYet(s: Store, h: History)
    requires Related(s, h) && s.current < MAX_I64
    ensures FreshNext(s)
  {
    forall k ensures (Next(s.current), k) !in s.log {
      assert Logged(s.log, h, Next(s.current), k);
    }
  }

  lemma TombstoneKeys(s: Store, log: map<(i64, Bytes), KeyValue>, victims: set<Bytes>, r: i64)
    requires s.log == log + Tombstones(victims, r) && forall k :: (r, k) !in log
    ensures KeysAt(s, r) == victims
  {
    forall k ensures k in KeysAt(s, r) <==> k in victims {
      assert (r, k) in LogKeys(victims, r) <==> k in victims;
      if k in victims { assert (r, k) in s.log && (r, k).1 == k; }
    }
  }

  lemma TombstoneLogged(log: map<(i64, Bytes), KeyValue>, victims: set<Bytes>, k: Bytes, r: i64)
    requires k in victims
    ensures (r, k) in log + Tombstones(victims, r) && (log + Tombstones(victims, r))[(r, k)] == Tombstone(k, r)
  {
    assert (r, k) in LogKeys(victims, r);
  }

  lemma TombstoneEvents(s: Store, log: map<(i64, Bytes), KeyValue>, victims: set<Bytes>, r: i64)
    requires s.log == log + Tombstones(victims, r) && forall k :: (r, k) !in log
    ensures var keys, events := SortedKeys(victims), EventsAt(s, r);
      |events| == |keys| && forall i :: 0 <= i < |keys| ==> events[i] == Event("Delete", Tombstone(keys[i], r), None)
  {
    var keys := SortedKeys(victims);
    TombstoneKeys(s, log, victims, r);
    forall i | 0 <= i < |keys| ensures EventsAt(s, r)[i] == Event("Delete", Tombstone(keys[i], r), None) {
      assert keys[i] in victims;
      TombstoneLogged(log, victims, keys[i], r);
    }
  }

  /** The events of the revision a delete takes: one tombstone for every removed key, in key order. */
  lemma DeleteEvents(s: Store, start: Bytes, end: Bytes)
    requires FreshNext(s) && !PanickingBounds(start, end)
    ensures var keys := SortedKeys(Victims(s, start, end));
      var events := EventsAt(AfterDelete(s, start, end), Next(s.current));
      |events| == |keys| && forall i :: 0 <= i < |keys| ==>
        events[i] == Event("Delete", Tombstone(keys[i], Next(s.current)), None)
  {
    TombstoneEvents(AfterDelete(s, start, end), s.log, Victims(s, start, end), Next(s.current));
  }

  /** A delete told live and the same delete caught up on: a watcher hears of the same keys exactly when
      it wants no deletes, starts later, or every removed key it watches was last written at or after
      its start revision. Live, the filter sees the revision of the old record. */
  lemma LiveDeletesAreCaughtUp(s: Store, h: History, start: Bytes, end: Bytes, w: Hub.Watcher)
    requires Related(s, h) && s.current < MAX_I64 && !PanickingBounds(start, end)
    ensures var now := Next(s.current);
      var live := Hub.Wanted(w, LiveDeletes(DeletedKvs(s, start, end)));
      var caughtUp := Hub.Wanted(w, CaughtUp(EventsAt(AfterDelete(s, start, end), now)));
      && |live| <= |caughtUp|
      && (KeysOf(live) == KeysOf(caughtUp) <==>
           Hub.NoDelete in w.filters || w.startRevision > now
           || forall k :: k in Victims(s, start, end) && Hub.RangeOf(w).Contains(k) ==>
                s.kv[k].modRevision >= w.startRevision)
  {
    var now, keys := Next(s.current), SortedKeys(Victims(s, start, end));
    var events := EventsAt(AfterDelete(s, start, end), now);
    NothingLoggedYet(s, h);
    DeleteEvents(s, start, end);
    RemovedRecords(s, h, start, end);
    SameDelete(s.kv, w, keys, LiveDeletes(DeletedKvs(s, start, end)), CaughtUp(events), now);
  }

  lemma RemovedRecords(s: Store, h: History, start: Bytes, end: Bytes)
    requires Related(s, h)
    ensures var keys, kvs := SortedKeys(Victims(s, start, end)), DeletedKvs(s, start, end);
      |kvs| == |keys| && forall i :: 0 <= i < |keys| ==>
        keys[i] in s.kv && kvs[i] == s.kv[keys[i]] && kvs[i].key == keys[i] && kvs[i].modRevision <= s.current
  {
    RecordsOk(h, s.current);
    var keys := SortedKeys(Victims(s, start, end));
    forall i | 0 <= i < |keys| ensures keys[i] in s.kv { assert keys[i] in Victims(s, start, end); }
  }

  /** `a` tells of the removal of `keys` with their old records, `b` with tombstones of revision `now`. */
  lemma SameDelete(kv: Kv, w: Hub.Watcher, keys: seq<Bytes>, a: seq<Hub.HubEvent>, b: seq<Hub.HubEvent>, now: i64)
    requires |a| == |b| == |keys|
    requires forall i :: 0 <= i < |keys| ==>
      keys[i] in kv && kv[keys[i]].modRevision <= now && kv[keys[i]].key == keys[i]
    requires forall i :: 0 <= i < |keys| ==> a[i] == Hub.HubEvent(Hub.DeleteEvent, kv[keys[i]], Some(kv[keys[i]]))
    requires forall i :: 0 <= i < |keys| ==> b[i] == Hub.HubEvent(Hub.DeleteEvent, Tombstone(keys[i], now), None)
    ensures |Hub.Wanted(w, a)| <= |Hub.Wanted(w, b)|
    ensures KeysOf(Hub.Wanted(w, a)) == KeysOf(Hub.Wanted(w, b)) <==>
      Hub.NoDelete in w.filters || w.startRevision > now
      || forall k :: k in keys && Hub.RangeOf(w).Contains(k) ==> kv[k].modRevision >= w.startRevision
  {
    SameKeysWanted(w, a, b);
    if WantedAlike(w, a, b) && Hub.NoDelete !in w.filters && w.startRevision <= now {
      forall k | k in keys && Hub.RangeOf(w).Contains(k) ensures kv[k].modRevision >= w.startRevision {
        var i :| 0 <= i < |keys| && keys[i] == k;
        assert Hub.Wants(w, b[i]);
      }
    }
    if !WantedAlike(w, a, b) {
      var i :| 0 <= i < |a| && !(Hub.Wants(w, a[i]) <==> Hub.Wants(w, b[i]));
      assert keys[i] in keys;
    }
  }

  lemma {:induction false} WantedMembers(w: Hub.Watcher, events: seq<Hub.HubEvent>, e: Hub.HubEvent)
    ensures e in Hub.Wanted(w, events) <==> e in events && Hub.Wants(w, e)
  {
    if events != [] {
      var n := |events| - 1;
      assert events == events[..n] + [events[n]];
      WantedMembers(w, events[..n], e);
    }
  }

  lemma LiveDeletesMembers(kvs: seq<KeyValue>, kv: KeyValue)
    ensures Hub.HubEvent(Hub.DeleteEvent, kv, Some(kv)) in LiveDeletes(kvs) <==> kv in kvs
  {
    if kv in kvs {
      var i :| 0 <= i < |kvs| && kvs[i] == kv;
      assert LiveDeletes(kvs)[i] == Hub.HubEvent(Hub.DeleteEvent, kv, Some(kv));
    }
  }

  /** Which removals a watcher is told live, at any store: those of watched keys last written at or after
      its start revision. For a watcher with the default start, one beyond the revision it was created
      at, these are the keys written since. */
  lemma DeletesTold(s: Store, start: Bytes, end: Bytes, w: Hub.Watcher, kv: KeyValue)
    ensures Hub.HubEvent(Hub.DeleteEvent, kv, Some(kv)) in Hub.Wanted(w, LiveDeletes(DeletedKvs(s, start, end))) <==>
      kv in DeletedKvs(s, start, end) && Hub.RangeOf(w).Contains(kv.key) && Hub.NoDelete !in w.filters
      && kv.modRevision >= w.startRevision
  {
    WantedMembers(w, LiveDeletes(DeletedKvs(s, start, end)), Hub.HubEvent(Hub.DeleteEvent, kv, Some(kv)));
    LiveDeletesMembers(DeletedKvs(s, start, end), kv);
  }

  /** Which puts a watcher is told: those of watched keys at or after its start revision, unless it wants
      no puts; all of it as the event came. */
  lemma PutsTold(events: seq<Hub.HubEvent>, w: Hub.Watcher, kv: KeyValue, prev: Option<KeyValue>)
    ensures Hub.HubEvent(Hub.PutEvent, kv, prev) in Hub.Wanted(w, events) <==>
      Hub.HubEvent(Hub.PutEvent, kv, prev) in events && Hub.RangeOf(w).Contains(kv.key) && Hub.NoPut !in w.filters
      && kv.modRevision >= w.startRevision
  {
    WantedMembers(w, events, Hub.HubEvent(Hub.PutEvent, kv, prev));
  }

  /** Where a watch starts: at the revision asked for, or with the next one. */
  function StartOf(requested: i64, current: i64): i64 {
    if requested > 0 then requested else Next(current)
  }

  /** The very next put of a watched key is told, with the record made and the one before it, to a watcher
      that asked for no start; and to one that asked for a start exactly if that is reached. */
  lemma NextPutTold(s: Store, h: History, key: Bytes, value: Bytes, lease: i64, w: Hub.Watcher, requested: i64)
    requires Related(s, h) && s.current < MAX_I64 && |key| < TWO_32 && |value| < TWO_32
    requires Hub.RangeOf(w).Contains(key) && Hub.NoPut !in w.filters && w.startRevision == StartOf(requested, s.current)
    ensures var told := Hub.Wanted(w, LivePut(Written(s, key, value, lease), Previous(s, key)));
      told == if requested <= s.current + 1
              then [Hub.HubEvent(Hub.PutEvent, NewRecord(h, key, value, lease),
                                 if key in Latest(h) then Some(Latest(h)[key]) else None)]
              else []
  {
    WrittenIsNew(s, h, key, value, lease);
    OneWanted(w, Hub.HubEvent(Hub.PutEvent, NewRecord(h, key, value, lease), Previous(s, key)));
  }

  /** The delete of one visible key. */
  lemma OneRemoved(s: Store, h: History, k: Bytes)
    requires Related(s, h) && s.current < MAX_I64 && k in s.kv && Shows(h, s.kv[k])
    ensures !PanickingBounds(k, k + [0]) && DeletedKvs(s, k, k + [0]) == [s.kv[k]]
    ensures EventsAt(AfterDelete(s, k, k + [0]), Next(s.current))
      == [Event("Delete", Tombstone(k, Next(s.current)), None)]
  {
    SingleKeyBounds(k);
    VictimsAre(s, h, k, k + [0]);
    assert Victims(s, k, k + [0]) == {k};
    AscendingUnique(SortedKeys(Victims(s, k, k + [0])), [k]);
    assert KvsOf(s.kv, [k]) == [s.kv[k]];
    NothingLoggedYet(s, h);
    DeleteEvents(s, k, k + [0]);
  }

  /** Its watcher is told live only of a record written at or after its start, and catches up on it in
      any case. */
  lemma OneRemovedTold(s: Store, h: History, k: Bytes, w: Hub.Watcher)
    requires Related(s, h) && s.current < MAX_I64 && k in s.kv && Shows(h, s.kv[k])
    requires w.key == k && w.rangeEnd == [] && w.filters == [] && w.startRevision <= s.current + 1
    ensures Hub.Wanted(w, LiveDeletes(DeletedKvs(s, k, k + [0]))) == [] <==> s.kv[k].modRevision < w.startRevision
    ensures Hub.Wanted(w, CaughtUp(EventsAt(AfterDelete(s, k, k + [0]), Next(s.current)))) != []
  {
    OneRemoved(s, h, k);
    KeyWatched(s, h, k, w);
    ToldAndCaughtUp(DeletedKvs(s, k, k + [0]), EventsAt(AfterDelete(s, k, k + [0]), Next(s.current)), s.kv[k],
                    Tombstone(k, Next(s.current)), w);
  }

  lemma KeyWatched(s: Store, h: History, k: Bytes, w: Hub.Watcher)
    requires Related(s, h) && k in s.kv && w.key == k && w.rangeEnd == []
    ensures s.kv[k].key == k && Hub.RangeOf(w).Contains(k)
  {
    RecordsOk(h, s.current);
    LessTotal(k, k);
  }

  lemma ToldAndCaughtUp(kvs: seq<KeyValue>, events: seq<Event>, kv: KeyValue, gone: KeyValue, w: Hub.Watcher)
    requires kvs == [kv] && events == [Event("Delete", gone, None)]
    requires w.filters == [] && Hub.RangeOf(w).Contains(kv.key) && gone.key == kv.key
    requires gone.modRevision >= w.startRevision
    ensures Hub.Wanted(w, LiveDeletes(kvs)) == [] <==> kv.modRevision < w.startRevision
    ensures Hub.Wanted(w, CaughtUp(events)) != []
  {
    LiveDeletesOne(kv);
    CaughtUpOne(Event("Delete", gone, None));
    OneWanted(w, Hub.HubEvent(Hub.DeleteEvent, kv, Some(kv)));
    OneWanted(w, Hub.HubEvent(Hub.DeleteEvent, gone, None));
  }

  lemma LiveDeletesOne(kv: KeyValue)
    ensures LiveDeletes([kv]) == [Hub.HubEvent(Hub.DeleteEvent, kv, Some(kv))]
  {
    assert |LiveDeletes([kv])| == 1;
  }

  /** A removal that is missed and one that is told, by the same watcher with the default start of a
      store holding its key: the key removed next, and the key removed after it was put once more. */
  lemma MissedThenTold(k: Bytes, value: Bytes, w: Hub.Watcher)
    requires |k| < TWO_32 && |value| < TWO_32
    requires w.key == k && w.rangeEnd == [] && w.filters == []
    requires w.startRevision == Run(EMPTY, [Put(k, value, 0)]).current + 1
    ensures var once, twice := Run(EMPTY, [Put(k, value, 0)]), Run(EMPTY, [Put(k, value, 0), Put(k, value, 0)]);
      && Hub.Wanted(w, LiveDeletes(DeletedKvs(once, k, k + [0]))) == []
      && Hub.Wanted(w, CaughtUp(EventsAt(AfterDelete(once, k, k + [0]), Next(once.current)))) != []
      && Hub.Wanted(w, LiveDeletes(DeletedKvs(twice, k, k + [0]))) != []
  {
    var one := Put(k, value, 0);
    PutsOf(k, value);
    RunRefines([one]);
    RunRefines([one, one]);
    OneRemovedTold(Run(EMPTY, [one]), RunHistory(BEGINNING, [one]), k, w);
    OneRemovedTold(Run(EMPTY, [one, one]), RunHistory(BEGINNING, [one, one]), k, w);
  }

  lemma PutsOf(k: Bytes, value: Bytes)
    ensures var once, twice := Run(EMPTY, [Put(k, value, 0)]), Run(EMPTY, [Put(k, value, 0), Put(k, value, 0)]);
      && once.current == 2 && k in once.kv && once.kv[k].modRevision == 2
      && twice.current == 3 && k in twice.kv && twice.kv[k].modRevision == 3
    ensures |k| < TWO_32 && |value| < TWO_32 ==>
      && RunHistory(BEGINNING, [Put(k, value, 0)]).mark == 0
      && RunHistory(BEGINNING, [Put(k, value, 0), Put(k, value, 0)]).mark == 0
  {
    var one := Put(k, value, 0);
    assert [one][..0] == [] && [one, one][..1] == [one];
    assert Run(EMPTY, [one]) == AfterPut(EMPTY, k, value, 0);
    assert Run(EMPTY, [one, one]) == AfterPut(AfterPut(EMPTY, k, value, 0), k, value, 0);
  }

  /** A put told live and the same put caught up on carry the same record, to the same watchers. */
  lemma LivePutIsCaughtUp(s: Store, h: History, key: Bytes, value: Bytes, lease: i64, w: Hub.Watcher)
    requires Related(s, h) && s.current < MAX_I64
    ensures var kv := Written(s, key, value, lease);
      var live := LivePut(kv, Previous(s, key));
      var caughtUp := CaughtUp(EventsAt(AfterPut(s, key, value, lease), Next(s.current)));
      && caughtUp == [Hub.HubEvent(Hub.PutEvent, kv, None)]
      && live[0].kv == caughtUp[0].kv && |Hub.Wanted(w, live)| == |Hub.Wanted(w, caughtUp)|
  {
    var kv := Written(s, key, value, lease);
    NothingLoggedYet(s, h);
    RecordsOk(h, s.current);
    PutEvents(s, key, value, lease);
    PutToldTwice(kv, Previous(s, key), w);
  }

  lemma PutEvents(s: Store, key: Bytes, value: Bytes, lease: i64)
    requires FreshNext(s) && Written(s, key, value, lease).version >= 1
    ensures EventsAt(AfterPut(s, key, value, lease), Next(s.current))
      == [Event("Put", Written(s, key, value, lease), None)]
  {
    var s', next := AfterPut(s, key, value, lease), Next(s.current);
    assert KeysAt(s', next) == {key} by {
      assert (next, key) in s'.log && (next, key).1 == key;
    }
    AscendingUnique(SortedKeys(KeysAt(s', next)), [key]);
  }

  /** What catch-up reports of a put and of a delete, field by field: the record made; for every record a
      read of the bounds showed, in its order, a tombstone without anything but the key and the revision. */
  lemma WritesAsEvents(s: Store, h: History, key: Bytes, value: Bytes, lease: i64, end: Bytes)
    requires Related(s, h) && s.current < MAX_I64 && |key| < TWO_32 && |value| < TWO_32
    ensures EventsAt(AfterPut(s, key, value, lease), Next(s.current))
      == [Event("Put", NewRecord(h, key, value, lease), None)]
    ensures !PanickingBounds(key, end) ==>
      var kvs, events := DeletedKvs(s, key, end), EventsAt(AfterDelete(s, key, end), Next(s.current));
      |events| == |kvs| && forall i :: 0 <= i < |kvs| ==>
        events[i] == Event("Delete", KeyValue(kvs[i].key, 0, s.current + 1, 0, [], 0), None)
  {
    NothingLoggedYet(s, h);
    RecordsOk(h, s.current);
    PutEvents(s, key, value, lease);
    WrittenIsNew(s, h, key, value, lease);
    if !PanickingBounds(key, end) {
      DeleteEvents(s, key, end);
      RemovedRecords(s, h, key, end);
    }
  }

  lemma PutToldTwice(kv: KeyValue, prev: Option<KeyValue>, w: Hub.Watcher)
    ensures CaughtUp([Event("Put", kv, None)]) == [Hub.HubEvent(Hub.PutEvent, kv, None)]
    ensures |Hub.Wanted(w, LivePut(kv, prev))| == |Hub.Wanted(w, CaughtUp([Event("Put", kv, None)]))|
  {
    CaughtUpOne(Event("Put", kv, None));
    SamePutWanted(kv, prev, None, w);
  }

  lemma SamePutWanted(kv: KeyValue, prev: Option<KeyValue>, prev': Option<KeyValue>, w: Hub.Watcher)
    ensures |Hub.Wanted(w, [Hub.HubEvent(Hub.PutEvent, kv, prev)])|
      == |Hub.Wanted(w, [Hub.HubEvent(Hub.PutEvent, kv, prev')])|
  {
    OneWanted(w, Hub.HubEvent(Hub.PutEvent, kv, prev));
    OneWanted(w, Hub.HubEvent(Hub.PutEvent, kv, prev'));
  }

  lemma CaughtUpOne(e: Event)
    ensures CaughtUp([e])
      == [Hub.HubEvent(if e.eventType == "Put" then Hub.PutEvent else Hub.DeleteEvent, e.kv, e.prevKv)]
  {
    assert |CaughtUp([e])| == 1;
  }

  lemma OneWanted(w: Hub.Watcher, e: Hub.HubEvent)
    ensures Hub.Wanted(w, [e]) == if Hub.Wants(w, e) then [e] else []
  {
    assert [e][..0] == [];
  }
}
