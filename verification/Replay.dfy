/** Watch catch-up: the events read back from the revision log are exactly the changes of the
    history, in order, and replaying them over an old read gives the current one. */
module Replay {
  import opened ByteStrings
  import opened KeyValues
  import opened KeyIndexing
  import opened Stores
  import opened Histories
  import opened Reads

  // ---------------------------------------------------------------- the events of one revision

  /** The event a change at revision `r` must produce. */
  function ChangeEvent(h: History, r: i64, k: Bytes): Event
    requires 0 <= r < |h.states|
  {
    Event(if k in h.states[r] then "Put" else "Delete", RecordAt(h, r, k), None)
  }

  lemma LoggedEvent(s: Store, h: History, r: i64, k: Bytes)
    requires LogRelated(s, h)
    ensures k in KeysAt(s, r) <==> r >= h.mark && Changed(h, r, k)
    ensures k in KeysAt(s, r) ==> EventOf(s.log[(r, k)]) == ChangeEvent(h, r, k)
    ensures k in KeysAt(s, r) ==> s.log[(r, k)].key == k && s.log[(r, k)].modRevision == r
  {
    assert Logged(s.log, h, r, k);
    assert k in KeysAt(s, r) <==> (r, k) in s.log by {
      if (r, k) in s.log { assert (r, k).1 in KeysAt(s, r); }
    }
    if (r, k) in s.log { RecordsOk(h, r); }
  }

  function EventsAt(s: Store, r: i64): (e: seq<Event>)
  {
    EventsFor(s, r, SortedKeys(KeysAt(s, r)))
  }

  /** The events of one revision: one per changed key, in key order. */
  lemma EventsAtExact(s: Store, h: History, r: i64)
    requires LogRelated(s, h)
    ensures forall e :: e in EventsAt(s, r) <==>
      r >= h.mark && Changed(h, r, e.kv.key) && e == ChangeEvent(h, r, e.kv.key)
    ensures forall i :: 0 <= i < |EventsAt(s, r)| ==> EventsAt(s, r)[i].kv.modRevision == r
    ensures forall i, j :: 0 <= i < j < |EventsAt(s, r)| ==>
      Less(EventsAt(s, r)[i].kv.key, EventsAt(s, r)[j].kv.key)
  {
    var keys, events := SortedKeys(KeysAt(s, r)), EventsAt(s, r);
    forall i | 0 <= i < |keys|
      ensures r >= h.mark && Changed(h, r, keys[i])
      ensures events[i].kv.key == keys[i] && events[i].kv.modRevision == r && events[i] == ChangeEvent(h, r, keys[i])
    {
      assert keys[i] in KeysAt(s, r);
      LoggedEvent(s, h, r, keys[i]);
    }
    forall e ensures e in events <==> r >= h.mark && Changed(h, r, e.kv.key) && e == ChangeEvent(h, r, e.kv.key) {
      LoggedEvent(s, h, r, e.kv.key);
      if r >= h.mark && Changed(h, r, e.kv.key) && e == ChangeEvent(h, r, e.kv.key) {
        assert e.kv.key in keys;
        var i :| 0 <= i < |keys| && keys[i] == e.kv.key;
        assert events[i] == e;
      }
    }
  }

  // ---------------------------------------------------------------- the events of a span

  ghost predicate EventBefore(a: Event, b: Event) {
    a.kv.modRevision < b.kv.modRevision || (a.kv.modRevision == b.kv.modRevision && Less(a.kv.key, b.kv.key))
  }

  /** `e` reports the change of its key at its revision, and compaction has not dropped it. */
  ghost predicate Reports(h: History, e: Event) {
    0 <= e.kv.modRevision < |h.states| && e.kv.modRevision >= h.mark
    && Changed(h, e.kv.modRevision, e.kv.key) && e == ChangeEvent(h, e.kv.modRevision, e.kv.key)
  }

  ghost predicate InOrder(events: seq<Event>) {
    forall i, j :: 0 <= i < j < |events| ==> EventBefore(events[i], events[j])
  }

  lemma JoinInOrder(before: seq<Event>, now: seq<Event>, r: i64)
    requires InOrder(before) && InOrder(now)
    requires (forall e :: e in before ==> e.kv.modRevision < r) && forall e :: e in now ==> e.kv.modRevision == r
    ensures InOrder(before + now)
  {
    var events := before + now;
    forall i, j | 0 <= i < j < |events| ensures EventBefore(events[i], events[j]) {
      if i < |before| { assert events[i] in before; }
      if j >= |before| { assert events[j] in now; }
    }
  }

  /** The events are the reported changes at revisions `from` to `last`. */
  ghost predicate Exactly(events: seq<Event>, h: History, from: int, last: int) {
    forall e :: e in events <==> from <= e.kv.modRevision <= last && Reports(h, e)
  }

  lemma JoinExactly(before: seq<Event>, now: seq<Event>, h: History, from: int, last: int)
    requires from <= last && Exactly(before, h, from, last - 1) && Exactly(now, h, last, last)
    ensures Exactly(before + now, h, from, last)
  {
  }

  lemma EventsAtInOrder(s: Store, h: History, r: i64)
    requires LogRelated(s, h)
    ensures InOrder(EventsAt(s, r)) && Exactly(EventsAt(s, r), h, r, r)
  {
    EventsAtExact(s, h, r);
    if 0 < r < |h.states| { RecordsOk(h, r); }
  }

  lemma {:induction false} EventsBetweenExact(s: Store, h: History, from: i64, last: i64)
    requires LogRelated(s, h) && 0 <= from && last <= s.current
    ensures InOrder(EventsBetween(s, from, last)) && Exactly(EventsBetween(s, from, last), h, from, last)
    decreases last - from
  {
    if from <= last {
      EventsBetweenExact(s, h, from, last - 1);
      EventsAtInOrder(s, h, last);
      EventsBetweenStep(s, from, last);
      JoinInOrder(EventsBetween(s, from, last - 1), EventsAt(s, last), last);
      JoinExactly(EventsBetween(s, from, last - 1), EventsAt(s, last), h, from, last);
    }
  }

  /** `watch_events` returns exactly one event per change at or after the start revision that
      compaction has kept, by revision and then by key; no put is reported as a delete. */
  lemma EventsExact(ops: seq<Op>, start: i64)
    requires Runnable(ops) && 0 <= start
    ensures var s, h := Run(EMPTY, ops), RunHistory(BEGINNING, ops);
      var events := EventsSince(s, start);
      InOrder(events) && (forall e :: e in events <==> start <= e.kv.modRevision && Reports(h, e))
  {
    RunRefines(ops);
    EventsSinceExact(Run(EMPTY, ops), RunHistory(BEGINNING, ops), start);
  }

  lemma EventsSinceExact(s: Store, h: History, start: i64)
    requires LogRelated(s, h) && 0 <= start
    ensures InOrder(EventsSince(s, start))
    ensures forall e :: e in EventsSince(s, start) <==> start <= e.kv.modRevision && Reports(h, e)
  {
    if start <= s.current { EventsBetweenExact(s, h, start, s.current); }
  }

  // ---------------------------------------------------------------- replay

  /** What a watcher does with an event: a put overwrites, a delete removes. */
  function Apply(m: Kv, e: Event): Kv {
    if e.eventType == "Put" then m[e.kv.key := e.kv] else m - {e.kv.key}
  }

  function ApplyAll(m: Kv, events: seq<Event>): Kv {
    if events == [] then m else Apply(ApplyAll(m, events[..|events| - 1]), events[|events| - 1])
  }

  lemma {:induction false} ApplyAllConcat(m: Kv, a: seq<Event>, b: seq<Event>)
    ensures ApplyAll(m, a + b) == ApplyAll(ApplyAll(m, a), b)
  {
    if b == [] {
      assert a + b == a;
    } else {
      assert (a + b)[..|a + b| - 1] == a + b[..|b| - 1];
      ApplyAllConcat(m, a, b[..|b| - 1]);
    }
  }

  /** Applying events of distinct keys, in any fixed order, sets each key as its event says. */
  lemma {:induction false} ApplyDistinct(m: Kv, events: seq<Event>, k: Bytes)
    requires forall i, j :: 0 <= i < j < |events| ==> Less(events[i].kv.key, events[j].kv.key)
    ensures (forall i :: 0 <= i < |events| ==> events[i].kv.key != k) ==>
      ((k in ApplyAll(m, events) <==> k in m) && (k in m ==> ApplyAll(m, events)[k] == m[k]))
    ensures forall i :: 0 <= i < |events| && events[i].kv.key == k ==>
      if events[i].eventType == "Put" then k in ApplyAll(m, events) && ApplyAll(m, events)[k] == events[i].kv
      else k !in ApplyAll(m, events)
  {
    if events != [] {
      var n := |events| - 1;
      ApplyDistinct(m, events[..n], k);
      forall i | 0 <= i < n ensures events[..n][i].kv.key == events[i].kv.key != events[n].kv.key {
        LessTotal(events[i].kv.key, events[n].kv.key);
      }
    }
  }

  lemma ReplayKey(s: Store, h: History, r: i64, k: Bytes)
    requires Related(s, h) && 0 < r <= s.current
    ensures var replayed, after := ApplyAll(VisibleAt(h, r - 1), EventsAt(s, r)), VisibleAt(h, r);
      (k in replayed <==> k in after) && (k in after ==> replayed[k] == after[k])
  {
    var events := EventsAt(s, r);
    EventsAtExact(s, h, r);
    ApplyDistinct(VisibleAt(h, r - 1), events, k);
    RecordsOk(h, r - 1);
    assert Follows(h.states[r - 1], h.states[r], r);
    if r >= h.mark && Changed(h, r, k) {
      var e := ChangeEvent(h, r, k);
      assert e.kv.key == k by { RecordsOk(h, r); }
      assert e in events;
      var i :| 0 <= i < |events| && events[i] == e;
    } else {
      forall i | 0 <= i < |events| ensures events[i].kv.key != k {
        assert events[i] in events;
      }
    }
  }

  /** One revision of replay: the events kept at `r` turn the visible contents before into those after. */
  lemma ReplayOne(s: Store, h: History, r: i64)
    requires Related(s, h) && 0 < r <= s.current
    ensures ApplyAll(VisibleAt(h, r - 1), EventsAt(s, r)) == VisibleAt(h, r)
  {
    forall k { ReplayKey(s, h, r, k); }
  }

  lemma EventsBetweenStep(s: Store, from: i64, last: i64)
    requires 0 <= from <= last
    ensures EventsBetween(s, from, last) == EventsBetween(s, from, last - 1) + EventsAt(s, last)
  {
  }

  lemma ReplayMore(m: Kv, before: seq<Event>, now: seq<Event>, middle: Kv, last: Kv)
    requires ApplyAll(m, before) == middle && ApplyAll(middle, now) == last
    ensures ApplyAll(m, before + now) == last
  {
    ApplyAllConcat(m, before, now);
  }

  /** The events of revision `r` take one of the `states` to the next. */
  ghost predicate Replays(s: Store, states: seq<Kv>, r: i64)
    requires 0 < r < |states|
  {
    ApplyAll(states[r - 1], EventsAt(s, r)) == states[r]
  }

  lemma {:induction false} ReplayChain(s: Store, states: seq<Kv>, from: i64, last: i64)
    requires 1 <= from && from - 1 <= last < |states|
    requires forall r: i64 :: from <= r <= last ==> Replays(s, states, r)
    ensures ApplyAll(states[from - 1], EventsBetween(s, from, last)) == states[last]
    decreases last - from
  {
    if from <= last {
      ReplayChain(s, states, from, last - 1);
      EventsBetweenStep(s, from, last);
      assert Replays(s, states, last);
      ReplayMore(states[from - 1], EventsBetween(s, from, last - 1), EventsAt(s, last), states[last - 1], states[last]);
    } else {
      assert EventsBetween(s, from, last) == [];
    }
  }

  lemma ReplayBetween(s: Store, h: History, from: i64, last: i64)
    requires Related(s, h) && 1 <= from && from - 1 <= last <= s.current
    ensures ApplyAll(VisibleAt(h, from - 1), EventsBetween(s, from, last)) == VisibleAt(h, last)
  {
    var states := seq(|h.states|, r requires 0 <= r < |h.states| => VisibleAt(h, r));
    forall r: i64 | from <= r <= last ensures Replays(s, states, r) {
      ReplayOne(s, h, r);
    }
    ReplayChain(s, states, from, last);
  }

  /** The records of a result, by key. */
  function ByKey(kvs: seq<KeyValue>): Kv {
    if kvs == [] then map[] else ByKey(kvs[..|kvs| - 1])[kvs[|kvs| - 1].key := kvs[|kvs| - 1]]
  }

  lemma {:induction false} ByKeyOf(kv: Kv, names: seq<Bytes>)
    requires forall k :: k in names ==> k in kv && kv[k].key == k
    ensures forall k :: k in ByKey(KvsOf(kv, names)) <==> k in names
    ensures forall k :: k in names ==> ByKey(KvsOf(kv, names))[k] == kv[k]
  {
    if names != [] {
      var n := |names| - 1;
      assert names == names[..n] + [names[n]];
      ByKeyOf(kv, names[..n]);
      assert KvsOf(kv, names)[..n] == KvsOf(kv, names[..n]);
    }
  }

  lemma ByKeyScan(kv: Kv)
    requires forall k :: k in kv ==> kv[k].key == k
    ensures ByKey(Scan(kv, [], [])) == kv
  {
    var names := NamesIn(kv, [], []);
    forall k ensures k in names <==> k in kv {
      LessTotal(k, []);
    }
    ByKeyOf(kv, names);
  }

  lemma ByKeyFullRead(s: Store, h: History, revision: i64)
    requires Related(s, h)
    ensures var r := RangeOf(s, [], [], revision, 0, false);
      r.Done? && ByKey(r.value.kvs) == VisibleAt(h, ReadRevision(h, revision))
  {
    RangeIsReference(s, h, [], [], revision, 0, false);
    FullRead(h, [], [], revision);
    RecordsOk(h, ReadRevision(h, revision));
    ByKeyScan(VisibleAt(h, ReadRevision(h, revision)));
  }

  /** Catch-up is lossless: take the full read one revision before `start`, apply the events since
      `start` in order, and the result is the full read now. This holds at every start revision from 2
      up, compacted or not. */
  lemma CatchUpReplays(ops: seq<Op>, start: i64)
    requires Runnable(ops) && 2 <= start <= Run(EMPTY, ops).current
    ensures var s := Run(EMPTY, ops);
      var earlier, now := RangeOf(s, [], [], start - 1, 0, false), RangeOf(s, [], [], 0, 0, false);
      && earlier.Done? && now.Done?
      && ApplyAll(ByKey(earlier.value.kvs), EventsSince(s, start)) == ByKey(now.value.kvs)
  {
    RunRefines(ops);
    ReplayFrom(Run(EMPTY, ops), RunHistory(BEGINNING, ops), start);
  }

  lemma ReplayFrom(s: Store, h: History, start: i64)
    requires Related(s, h) && 2 <= start <= s.current
    ensures var earlier, now := RangeOf(s, [], [], start - 1, 0, false), RangeOf(s, [], [], 0, 0, false);
      && earlier.Done? && now.Done?
      && ApplyAll(ByKey(earlier.value.kvs), EventsSince(s, start)) == ByKey(now.value.kvs)
  {
    assert ReadRevision(h, start - 1) == start - 1 && ReadRevision(h, 0) == s.current;
    ByKeyFullRead(s, h, start - 1);
    ByKeyFullRead(s, h, 0);
    ReplayBetween(s, h, start, s.current);
  }

  // ---------------------------------------------------------------- version accounting

  /** Number of writes of a key at revisions `from` to `last`. */
  function WriteCount(h: History, k: Bytes, from: int, last: int): nat
    requires last < |h.states| <= MAX_I64 + 1
  {
    |Writes(h, k, from, last)|
  }

  /** The life of a record seen at `r`: the key was absent just before its create revision and present
      ever since, the create revision is a write, and the version counts the writes since. */
  lemma {:induction false} VersionCountsWrites(h: History, r: int, k: Bytes)
    requires HistoryOk(h) && 0 <= r < |h.states| && k in h.states[r]
    ensures var kv := h.states[r][k];
      && 2 <= kv.createRevision <= r
      && k !in h.states[kv.createRevision - 1]
      && (forall t :: kv.createRevision <= t <= r ==>
           k in h.states[t] && h.states[t][k].createRevision == kv.createRevision)
      && h.states[kv.createRevision][k].modRevision == kv.createRevision
      && kv.version == WriteCount(h, k, kv.createRevision, r)
  {
    RecordsOk(h, r);
    assert Follows(h.states[r - 1], h.states[r], r);
    var kv := h.states[r][k];
    if k in h.states[r - 1] {
      VersionCountsWrites(h, r - 1, k);
      RecordsOk(h, r - 1);
    } else {
      assert kv.createRevision == r && kv.modRevision == r;
      assert Writes(h, k, r, r - 1) == [];
    }
  }

  /** In every reachable store, the version of a live key is the number of puts since it was last
      absent, its create revision is the first of them, and its live index generation lists those puts
      in order except the ones compaction dropped: the generation is as long as the version exactly
      when the highest compaction point has not passed the creation. */
  lemma VersionAccounting(ops: seq<Op>, k: Bytes)
    requires Runnable(ops) && k in Run(EMPTY, ops).kv
    ensures var s, h := Run(EMPTY, ops), RunHistory(BEGINNING, ops);
      var kv, e := s.kv[k], EntryOf(s.index, k);
      && |h.states| == s.current + 1
      && 2 <= kv.createRevision <= s.current && k !in h.states[kv.createRevision - 1]
      && (forall t :: kv.createRevision <= t <= s.current ==> k in h.states[t])
      && kv.version == WriteCount(h, k, kv.createRevision, s.current)
      && LastAlive(e)
      && e[|e| - 1].revisions == Writes(h, k, Max(kv.createRevision, HighMark(EMPTY, ops)), s.current)
      && (|e[|e| - 1].revisions| == kv.version <==> HighMark(EMPTY, ops) <= kv.createRevision)
      && (HighMark(EMPTY, ops) == 0 ==> e[|e| - 1].created.main == kv.createRevision)
  {
    var s, h := Run(EMPTY, ops), RunHistory(BEGINNING, ops);
    RunRefines(ops);
    MarkIsHighMark(ops);
    VersionCountsWrites(h, s.current, k);
    LiveListsWrites(s, h, k);
    FewerWrites(h, k, s.kv[k].createRevision, h.mark, s.current);
  }

  lemma LiveListsWrites(s: Store, h: History, k: Bytes)
    requires Related(s, h) && k in s.kv
    ensures LastAlive(EntryOf(s.index, k))
    ensures ListsWrites(EntryOf(s.index, k)[|EntryOf(s.index, k)| - 1], h, k)
  {
    assert EntryRelated(EntryOf(s.index, k), h, k);
  }

  /** Starting the count after a write loses it. */
  lemma {:induction false} FewerWrites(h: History, k: Bytes, from: int, mark: int, last: int)
    requires 0 <= from <= last < |h.states| <= MAX_I64 + 1
    requires k in h.states[from] && h.states[from][k].modRevision == from
    ensures WriteCount(h, k, Max(from, mark), last) == WriteCount(h, k, from, last) <==> mark <= from
    ensures mark > from ==> WriteCount(h, k, Max(from, mark), last) < WriteCount(h, k, from, last)
    decreases last
  {
    if from < last {
      FewerWrites(h, k, from, mark, last - 1);
      if mark > last {
        assert Writes(h, k, mark, last - 1) == [];
      }
    } else {
      assert Writes(h, k, from, from - 1) == [];
    }
  }
}
