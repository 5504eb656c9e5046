/** The watch hub: watchers indexed by range, and the dispatch of events to them (src/watch/mod.rs). */
module WatchHubs {
  import opened ByteStrings
  import opened KeyValues
  import opened WatchRanges

  datatype EventType = PutEvent | DeleteEvent

  datatype HubEvent = HubEvent(eventType: EventType, kv: KeyValue, prevKv: Option<KeyValue>)

  datatype WatchFilter = NoDelete | NoPut

  datatype Watcher = Watcher(id: i64, key: Bytes, rangeEnd: Bytes, startRevision: i64, filters: seq<WatchFilter>,
                             canceled: bool)

  datatype ResponseHeader = ResponseHeader(clusterId: int, memberId: int, revision: i64, raftTerm: int)

  datatype WatchEvent = WatchEvent(watchId: i64, events: seq<HubEvent>, compactRevision: i64, header: ResponseHeader)

  function RangeOf(w: Watcher): WatchRange {
    WatchRange(w.key, w.rangeEnd)
  }

  // ---------------------------------------------------------------- reference: one filter per watcher

  /** Whether a watcher's filters and start revision let an event through. */
  predicate Admits(w: Watcher, e: HubEvent) {
    && (e.eventType == PutEvent ==> NoPut !in w.filters)
    && (e.eventType == DeleteEvent ==> NoDelete !in w.filters)
    && e.kv.modRevision >= w.startRevision
  }

  /** Whether a watcher, looked at alone, wants an event. */
  predicate Wants(w: Watcher, e: HubEvent) {
    RangeOf(w).Contains(e.kv.key) && Admits(w, e)
  }

  /** The events a watcher wants, in order. */
  function Wanted(w: Watcher, events: seq<HubEvent>): seq<HubEvent> {
    if events == [] then []
    else
      var last := events[|events| - 1];
      Wanted(w, events[..|events| - 1]) + if Wants(w, last) then [last] else []
  }

  /** Dispatching events in two batches delivers what dispatching them in one does. */
  lemma {:induction false} WantedBatches(w: Watcher, first: seq<HubEvent>, second: seq<HubEvent>)
    ensures Wanted(w, first + second) == Wanted(w, first) + Wanted(w, second)
    decreases |second|
  {
    var n := |second| - 1;
    if second == [] {
      assert first + second == first;
    } else {
      assert (first + second)[..|first| + n] == first + second[..n];
      WantedBatches(w, first, second[..n]);
    }
  }

  /** What is delivered is what is wanted: nothing unwanted, nothing wanted is missing, in order. */
  lemma {:induction false} WantedPositions(w: Watcher, events: seq<HubEvent>) returns (at: seq<nat>)
    ensures |at| == |Wanted(w, events)|
    ensures forall i, j :: 0 <= i < j < |at| ==> at[i] < at[j]
    ensures forall i :: 0 <= i < |at| ==> at[i] < |events| && events[at[i]] == Wanted(w, events)[i]
    ensures forall k :: 0 <= k < |events| ==> (k in at <==> Wants(w, events[k]))
  {
    if events == [] {
      at := [];
    } else {
      var n := |events| - 1;
      at := WantedPositions(w, events[..n]);
      assert forall k :: 0 <= k < n ==> events[..n][k] == events[k];
      assert n !in at;
      if Wants(w, events[n]) { at := at + [n]; }
    }
  }

  // ---------------------------------------------------------------- the state of the hub

  type Watchers = map<i64, Watcher>
  type RangeIndex = map<WatchRange, seq<i64>>

  ghost predicate StrictlyIncreasing(ids: seq<i64>) {
    forall i, j :: 0 <= i < j < |ids| ==> ids[i] < ids[j]
  }

  ghost predicate ListOk(ids: seq<i64>, range: WatchRange, watchers: Watchers) {
    && ids != [] && StrictlyIncreasing(ids)
    && forall id :: id in ids <==> id in watchers && RangeOf(watchers[id]) == range
  }

  /** The range index lists, for every range somebody watches and no other, its live watchers in the
      order of their creation. */
  ghost predicate Indexed(watchers: Watchers, ranges: RangeIndex, next: int) {
    && (forall id :: id in watchers ==>
         watchers[id].id == id < next && !watchers[id].canceled && RangeOf(watchers[id]) in ranges)
    && (forall range :: range in ranges ==> ListOk(ranges[range], range, watchers))
  }

  /** Every live watcher sits in the list of its own range and in no other; in there once, as the list
      is strictly increasing. */
  lemma EachWatcherListedOnce(watchers: Watchers, ranges: RangeIndex, next: int, id: i64)
    requires Indexed(watchers, ranges, next) && id in watchers
    ensures exists i :: 0 <= i < |ranges[RangeOf(watchers[id])]| && ranges[RangeOf(watchers[id])][i] == id
    ensures forall range :: range in ranges && id in ranges[range] ==> range == RangeOf(watchers[id])
    ensures StrictlyIncreasing(ranges[RangeOf(watchers[id])])
  {
    var own := RangeOf(watchers[id]);
    assert ListOk(ranges[own], own, watchers);
    forall range | range in ranges && id in ranges[range] ensures range == own {
      assert ListOk(ranges[range], range, watchers);
    }
  }

  function WithAdded(ranges: RangeIndex, range: WatchRange, id: i64): RangeIndex {
    ranges[range := (if range in ranges then ranges[range] else []) + [id]]
  }

  lemma AddedIndexed(watchers: Watchers, ranges: RangeIndex, next: i64, w: Watcher)
    requires Indexed(watchers, ranges, next) && w.id == next && !w.canceled
    ensures Indexed(watchers[next := w], WithAdded(ranges, RangeOf(w), next), next + 1)
  {
    var watchers', ranges' := watchers[next := w], WithAdded(ranges, RangeOf(w), next);
    forall range | range in ranges' ensures ListOk(ranges'[range], range, watchers') {
      if range in ranges { assert ListOk(ranges[range], range, watchers); }
      if range == RangeOf(w) { AddedList(watchers, ranges, next, w); }
    }
  }

  lemma AddedList(watchers: Watchers, ranges: RangeIndex, next: i64, w: Watcher)
    requires Indexed(watchers, ranges, next) && w.id == next
    ensures ListOk(WithAdded(ranges, RangeOf(w), next)[RangeOf(w)], RangeOf(w), watchers[next := w])
  {
    var range := RangeOf(w);
    var ids := if range in ranges then ranges[range] else [];
    if range in ranges { assert ListOk(ids, range, watchers); }
    var ids', watchers' := ids + [next], watchers[next := w];
    forall i, j | 0 <= i < j < |ids'| ensures ids'[i] < ids'[j] {
      if j == |ids| { assert ids[i] in ids && ids[i] in watchers; }
    }
    forall id ensures id in ids' <==> id in watchers' && RangeOf(watchers'[id]) == range {
      if id in watchers { assert RangeOf(watchers[id]) in ranges; }
    }
  }

  /** `retain(|id| *id != watch_id)`. */
  function Without(ids: seq<i64>, id: i64): (r: seq<i64>)
    ensures forall x :: x in r <==> x in ids && x != id
  {
    if ids == [] then []
    else
      var last := ids[|ids| - 1];
      assert ids == ids[..|ids| - 1] + [last];
      Without(ids[..|ids| - 1], id) + if last != id then [last] else []
  }

  lemma {:induction false} WithoutIncreasing(ids: seq<i64>, id: i64)
    requires StrictlyIncreasing(ids)
    ensures StrictlyIncreasing(Without(ids, id))
  {
    if ids != [] {
      var n := |ids| - 1;
      WithoutIncreasing(ids[..n], id);
      var before := Without(ids[..n], id);
      forall i | 0 <= i < |before| ensures before[i] < ids[n] {
        assert before[i] in ids[..n];
      }
    }
  }

  function WithRemoved(ranges: RangeIndex, range: WatchRange, id: i64): RangeIndex {
    if range !in ranges then ranges
    else
      var left := Without(ranges[range], id);
      if left == [] then ranges - {range} else ranges[range := left]
  }

  lemma RemovedIndexed(watchers: Watchers, ranges: RangeIndex, next: int, id: i64)
    requires Indexed(watchers, ranges, next) && id in watchers
    ensures Indexed(watchers - {id}, WithRemoved(ranges, RangeOf(watchers[id]), id), next)
  {
    var own := RangeOf(watchers[id]);
    var watchers', ranges' := watchers - {id}, WithRemoved(ranges, own, id);
    assert ListOk(ranges[own], own, watchers);
    WithoutIncreasing(ranges[own], id);
    forall x | x in watchers' ensures RangeOf(watchers'[x]) in ranges' {
      if RangeOf(watchers[x]) == own { assert x in Without(ranges[own], id); }
    }
    forall range | range in ranges' ensures ListOk(ranges'[range], range, watchers') {
      assert ListOk(ranges[range], range, watchers);
    }
  }

  // ---------------------------------------------------------------- dispatch bookkeeping

  type Notifications = map<i64, seq<HubEvent>>

  function Collected(n: Notifications, id: i64): seq<HubEvent> {
    if id in n then n[id] else []
  }

  /** One watcher's list holds what it wants of the events before, and of the event at hand if its turn
      has come. */
  predicate UpToDate(n: Notifications, w: Watcher, id: i64, before: seq<HubEvent>, e: HubEvent, reached: bool) {
    Collected(n, id) == Wanted(w, before) + if reached && Wants(w, e) then [e] else []
  }

  /** The effect of offering an event to one watcher of a range that contains its key. */
  function Offered(n: Notifications, w: Watcher, id: i64, e: HubEvent): Notifications {
    if Admits(w, e) then n[id := Collected(n, id) + [e]] else n
  }

  /** All watchers' lists are up to date, those in `done` with the event at hand. */
  ghost predicate AllUpToDate(n: Notifications, watchers: Watchers, before: seq<HubEvent>, e: HubEvent,
                              done: set<i64>) {
    forall id :: id in watchers ==> UpToDate(n, watchers[id], id, before, e, id in done)
  }

  lemma OfferedOne(n: Notifications, w: Watcher, id: i64, before: seq<HubEvent>, e: HubEvent)
    requires UpToDate(n, w, id, before, e, false) && RangeOf(w).Contains(e.kv.key)
    ensures UpToDate(Offered(n, w, id, e), w, id, before, e, true)
    ensures forall x :: x != id ==> Collected(Offered(n, w, id, e), x) == Collected(n, x)
  {
  }

  lemma OfferedUpToDate(n: Notifications, watchers: Watchers, id: i64, before: seq<HubEvent>, e: HubEvent,
                        done: set<i64>)
    requires AllUpToDate(n, watchers, before, e, done) && NoEmptyList(n, watchers)
    requires id in watchers && id !in done && RangeOf(watchers[id]).Contains(e.kv.key)
    ensures AllUpToDate(Offered(n, watchers[id], id, e), watchers, before, e, done + {id})
    ensures NoEmptyList(Offered(n, watchers[id], id, e), watchers)
  {
    var n' := Offered(n, watchers[id], id, e);
    OfferedOne(n, watchers[id], id, before, e);
    forall x | x in watchers ensures UpToDate(n', watchers[x], x, before, e, x in done + {id}) {
      if x != id { StillUpToDate(n, n', watchers[x], x, before, e, x in done); }
    }
  }

  lemma StillUpToDate(n: Notifications, n': Notifications, w: Watcher, id: i64, before: seq<HubEvent>, e: HubEvent,
                      reached: bool)
    requires UpToDate(n, w, id, before, e, reached) && Collected(n', id) == Collected(n, id)
    ensures UpToDate(n', w, id, before, e, reached)
  {
  }

  /** Watchers of a range that does not contain the key have nothing to wait for. */
  lemma SkippedUpToDate(n: Notifications, watchers: Watchers, ids: seq<i64>, before: seq<HubEvent>, e: HubEvent,
                        done: set<i64>)
    requires AllUpToDate(n, watchers, before, e, done)
    requires forall id :: id in ids ==> id in watchers && !RangeOf(watchers[id]).Contains(e.kv.key)
    ensures AllUpToDate(n, watchers, before, e, done + ElementsOf(ids))
  {
    forall x | x in watchers ensures UpToDate(n, watchers[x], x, before, e, x in done + ElementsOf(ids)) {
      assert UpToDate(n, watchers[x], x, before, e, x in done);
    }
  }

  lemma NextElement(ids: seq<i64>, j: nat)
    requires j < |ids| && StrictlyIncreasing(ids)
    ensures ElementsOf(ids[..j + 1]) == ElementsOf(ids[..j]) + {ids[j]}
    ensures ids[j] !in ElementsOf(ids[..j]) && ids[j] in ElementsOf(ids)
  {
    assert ids[..j + 1] == ids[..j] + [ids[j]];
  }

  predicate NoEmptyList(n: Notifications, watchers: Watchers) {
    forall id :: id in n ==> id in watchers && n[id] != []
  }

  // ---------------------------------------------------------------- the object

  class WatchHub {
    var watchers: Watchers
    var nextWatchId: i64
    var keyWatchers: RangeIndex
    const clusterId: int
    const memberId: int

    ghost predicate Valid()
      reads this
    {
      Indexed(watchers, keyWatchers, nextWatchId)
    }

    constructor (clusterId: int, memberId: int)
      ensures Valid() && watchers == map[] && nextWatchId == 1
    {
      watchers, nextWatchId, keyWatchers := map[], 1, map[];
      this.clusterId, this.memberId := clusterId, memberId;
    }

    method CreateWatch(key: Bytes, rangeEnd: Bytes, startRevision: i64, filters: seq<WatchFilter>)
      returns (r: Outcome<i64>)
      requires Valid() && nextWatchId < MAX_I64
      modifies this
      ensures Valid()
      ensures key == [] ==> r == Failed && watchers == old(watchers) && nextWatchId == old(nextWatchId)
      ensures key != [] ==> r == Done(old(nextWatchId)) && nextWatchId == old(nextWatchId) + 1
      ensures key != [] ==>
        var watcher := Watcher(old(nextWatchId), key, rangeEnd, startRevision, filters, false);
        watchers == old(watchers)[old(nextWatchId) := watcher]
    {
      if key == [] { return Failed; }
      var watchId := nextWatchId;
      nextWatchId := nextWatchId + 1;
      var watcher := Watcher(watchId, key, rangeEnd, startRevision, filters, false);
      AddedIndexed(watchers, keyWatchers, watchId, watcher);
      watchers := watchers[watchId := watcher];
      var range := WatchRange(key, rangeEnd);
      if range !in keyWatchers { keyWatchers := keyWatchers[range := []]; }
      keyWatchers := keyWatchers[range := keyWatchers[range] + [watchId]];
      assert keyWatchers == WithAdded(old(keyWatchers), RangeOf(watcher), watchId);
      r := Done(watchId);
    }

    method CancelWatch(watchId: i64) returns (r: Outcome<()>)
      requires Valid()
      modifies this
      ensures Valid() && nextWatchId == old(nextWatchId)
      ensures r.Done? <==> watchId in old(watchers)
      ensures watchers == old(watchers) - {watchId}
      ensures watchId !in old(watchers) ==> r == Failed
    {
      if watchId !in watchers { return Failed; }
      var watcher := watchers[watchId];
      RemovedIndexed(watchers, keyWatchers, nextWatchId, watchId);
      watchers := watchers - {watchId};
      var range := WatchRange(watcher.key, watcher.rangeEnd);
      if range in keyWatchers {
        var left := Without(keyWatchers[range], watchId);
        if left == [] {
          keyWatchers := keyWatchers - {range};
        } else {
          keyWatchers := keyWatchers[range := left];
        }
      }
      r := Done(());
    }

    /** Dispatch: every watcher that wants at least one of the events is sent one batch, holding exactly
        the events it wants, in order; nobody else is sent anything. The order in which ranges are
        visited is arbitrary. */
    method Notify(events: seq<HubEvent>, revision: i64, compactRevision: i64) returns (sent: map<i64, WatchEvent>)
      requires Valid()
      ensures forall id :: id in sent <==> id in watchers && Wanted(watchers[id], events) != []
      ensures forall id :: id in sent ==>
        sent[id] == WatchEvent(id, Wanted(watchers[id], events), compactRevision,
                               ResponseHeader(clusterId, memberId, revision, 0))
    {
      sent := map[];
      if events == [] { return; }
      var header := ResponseHeader(clusterId, memberId, revision, 0);
      var notifications: Notifications := map[];
      for i := 0 to |events|
        invariant NoEmptyList(notifications, watchers)
        invariant forall id :: id in watchers ==> Collected(notifications, id) == Wanted(watchers[id], events[..i])
      {
        assert events[..i + 1][..i] == events[..i];
        notifications := NotifyOne(notifications, events[i], events[..i]);
        forall id | id in watchers ensures Collected(notifications, id) == Wanted(watchers[id], events[..i + 1]) {
          assert UpToDate(notifications, watchers[id], id, events[..i], events[i], true);
        }
      }
      assert events[..|events|] == events;
      var pending := notifications.Keys;
      while pending != {}
        invariant pending <= notifications.Keys && sent.Keys == notifications.Keys - pending
        invariant forall id :: id in sent ==> sent[id] == WatchEvent(id, notifications[id], compactRevision, header)
      {
        var watchId :| watchId in pending;
        pending := pending - {watchId};
        if watchId in watchers {
          sent := sent[watchId := WatchEvent(watchId, notifications[watchId], compactRevision, header)];
        }
      }
      forall id ensures id in sent <==> id in watchers && Wanted(watchers[id], events) != [] {
        if id in watchers { assert Collected(notifications, id) == Wanted(watchers[id], events); }
      }
    }

    /** The body of the event loop of `notify`: offers one event to every watched range. */
    method NotifyOne(before: Notifications, event: HubEvent, ghost earlier: seq<HubEvent>)
      returns (notifications: Notifications)
      requires Valid() && NoEmptyList(before, watchers)
      requires AllUpToDate(before, watchers, earlier, event, {})
      ensures NoEmptyList(notifications, watchers)
      ensures AllUpToDate(notifications, watchers, earlier, event, watchers.Keys)
    {
      notifications := before;
      var pending := keyWatchers.Keys;
      ghost var done: set<i64> := {};
      while pending != {}
        invariant pending <= keyWatchers.Keys && NoEmptyList(notifications, watchers)
        invariant done == set id | id in watchers && RangeOf(watchers[id]) !in pending
        invariant AllUpToDate(notifications, watchers, earlier, event, done)
      {
        var range :| range in pending;
        assert ListOk(keyWatchers[range], range, watchers);
        notifications := NotifyRange(notifications, range, event, earlier, done);
        pending, done := pending - {range}, done + ElementsOf(keyWatchers[range]);
      }
      assert done == watchers.Keys;
    }

    /** The body of the range loop of `notify`. */
    method NotifyRange(before: Notifications, range: WatchRange, event: HubEvent, ghost earlier: seq<HubEvent>,
                       ghost done: set<i64>) returns (notifications: Notifications)
      requires Valid() && range in keyWatchers && NoEmptyList(before, watchers)
      requires done !! ElementsOf(keyWatchers[range])
      requires AllUpToDate(before, watchers, earlier, event, done)
      ensures NoEmptyList(notifications, watchers)
      ensures AllUpToDate(notifications, watchers, earlier, event, done + ElementsOf(keyWatchers[range]))
    {
      notifications := before;
      var ids := keyWatchers[range];
      assert ListOk(ids, range, watchers);
      if !range.Contains(event.kv.key) {
        SkippedUpToDate(before, watchers, ids, earlier, event, done);
        return;
      }
      ghost var reached := done;
      for j := 0 to |ids|
        invariant NoEmptyList(notifications, watchers)
        invariant reached == done + ElementsOf(ids[..j])
        invariant AllUpToDate(notifications, watchers, earlier, event, reached)
      {
        var watchId := ids[j];
        NextElement(ids, j);
        OfferedUpToDate(notifications, watchers, watchId, earlier, event, reached);
        notifications := OfferOne(notifications, watchers[watchId], watchId, event);
        reached := reached + {watchId};
      }
      assert ids[..|ids|] == ids;
    }

    /** The body of the innermost loop of `notify`. */
    static method OfferOne(before: Notifications, watcher: Watcher, watchId: i64, event: HubEvent)
      returns (n: Notifications)
      requires !watcher.canceled
      ensures n == Offered(before, watcher, watchId, event)
    {
      n := before;
      if watcher.canceled { return; }
      if event.eventType == PutEvent && NoPut in watcher.filters { return; }
      if event.eventType == DeleteEvent && NoDelete in watcher.filters { return; }
      if event.kv.modRevision < watcher.startRevision { return; }
      if watchId !in n { n := n[watchId := []]; }
      n := n[watchId := n[watchId] + [event]];
    }
  }
}
