/** The in-memory key index: generations of revisions per key (src/storage/index.rs). */
module KeyIndexing {
  import opened ByteStrings

  datatype Revision = Revision(main: i64, sub: i64)

  datatype Generation = Generation(created: Revision, revisions: seq<Revision>, deleted: Option<Revision>)

  type Entry = seq<Generation>
  type Index = map<Bytes, Entry>

  // ---------------------------------------------------------------- reading an entry

  predicate AliveAt(g: Generation, revision: int) {
    g.created.main <= revision && (g.deleted.None? || g.deleted.value.main > revision)
  }

  /** `get_generation_at`: the first generation alive at the revision. */
  function GenerationAt(e: Entry, revision: int): Option<Generation> {
    if e == [] then None
    else if AliveAt(e[0], revision) then Some(e[0])
    else GenerationAt(e[1..], revision)
  }

  /** `revisions.iter().rfind(|r| r.main <= revision)`. */
  function LatestUpTo(revisions: seq<Revision>, revision: int): Option<Revision> {
    if revisions == [] then None
    else if revisions[|revisions| - 1].main <= revision then Some(revisions[|revisions| - 1])
    else LatestUpTo(revisions[..|revisions| - 1], revision)
  }

  function EntryGet(e: Entry, revision: int): Option<Revision> {
    match GenerationAt(e, revision)
    case None => None
    case Some(g) => LatestUpTo(g.revisions, revision)
  }

  function EntryOf(idx: Index, key: Bytes): Entry {
    if key in idx then idx[key] else []
  }

  function Get(idx: Index, key: Bytes, revision: int): Option<Revision> {
    EntryGet(EntryOf(idx, key), revision)
  }

  // ---------------------------------------------------------------- changing an entry

  predicate LastAlive(e: Entry) {
    e != [] && e[|e| - 1].deleted.None?
  }

  function EntryPut(e: Entry, revision: Revision): Entry {
    if LastAlive(e) then
      var g := e[|e| - 1];
      e[..|e| - 1] + [g.(revisions := g.revisions + [revision])]
    else e + [Generation(revision, [revision], None)]
  }

  function EntryTombstone(e: Entry, revision: Revision): Entry {
    if e == [] then [Generation(revision, [revision], Some(revision))]
    else if LastAlive(e) then e[..|e| - 1] + [e[|e| - 1].(deleted := Some(revision))]
    else e
  }

  /** `revisions.retain(|rev| rev.main >= compact_revision)`. */
  function Retain(revisions: seq<Revision>, c: int): seq<Revision> {
    if revisions == [] then []
    else
      var last := revisions[|revisions| - 1];
      Retain(revisions[..|revisions| - 1], c) + if last.main >= c then [last] else []
  }

  function GenerationCompact(g: Generation, c: i64): Generation {
    var kept := Retain(g.revisions, c);
    if kept == [] && g.deleted.None?
    then g.(revisions := kept, created := g.created.(main := c))
    else g.(revisions := kept)
  }

  function EntryCompact(e: Entry, c: i64): (r: Entry)
    ensures |r| == |e|
    ensures forall i :: 0 <= i < |e| ==> r[i] == GenerationCompact(e[i], c)
  {
    if e == [] then [] else [GenerationCompact(e[0], c)] + EntryCompact(e[1..], c)
  }

  function IndexPut(idx: Index, key: Bytes, revision: Revision): Index {
    idx[key := EntryPut(EntryOf(idx, key), revision)]
  }

  function IndexTombstone(idx: Index, key: Bytes, revision: Revision): Index {
    idx[key := EntryTombstone(EntryOf(idx, key), revision)]
  }

  function IndexCompact(idx: Index, c: i64): Index {
    map k | k in idx :: EntryCompact(idx[k], c)
  }

  // ---------------------------------------------------------------- ranges

  predicate InBounds(key: Bytes, start: Bytes, end: Bytes) {
    !Less(key, start) && (end == [] || Less(key, end))
  }

  /** `BTreeMap::range(start..end)` panics when the start lies after the end. */
  predicate PanickingBounds(start: Bytes, end: Bytes) {
    end != [] && Less(end, start)
  }

  /** The bounds made for one key hold that key alone. */
  lemma SingleKeyBounds(key: Bytes)
    ensures !PanickingBounds(key, key + [0])
    ensures forall k :: InBounds(k, key, key + [0]) <==> k == key
  {
    SuccessorIsTight(key, key);
    LessTotal(key, key + [0]);
    forall k ensures InBounds(k, key, key + [0]) <==> k == key { SuccessorIsTight(key, k); }
  }

  function VisibleKeys(idx: Index, start: Bytes, end: Bytes, revision: int): set<Bytes> {
    set k | k in idx && InBounds(k, start, end) && Get(idx, k, revision).Some?
  }

  function RangeAt(idx: Index, start: Bytes, end: Bytes, revision: int): (r: seq<(Bytes, Revision)>) {
    var keys := SortedKeys(VisibleKeys(idx, start, end, revision));
    assert forall k :: k in keys ==> Get(idx, k, revision).Some?;
    seq(|keys|, i requires 0 <= i < |keys| && Get(idx, keys[i], revision).Some? =>
      (keys[i], Get(idx, keys[i], revision).value))
  }

  lemma RangeAtNames(idx: Index, start: Bytes, end: Bytes, revision: int)
    ensures var keys, names := RangeAt(idx, start, end, revision), SortedKeys(VisibleKeys(idx, start, end, revision));
      |keys| == |names| && forall i :: 0 <= i < |keys| ==>
        keys[i].0 == names[i] && Get(idx, names[i], revision) == Some(keys[i].1)
  {
    var names := SortedKeys(VisibleKeys(idx, start, end, revision));
    forall i | 0 <= i < |names| ensures Get(idx, names[i], revision).Some? {
      assert names[i] in VisibleKeys(idx, start, end, revision);
    }
  }

  /** The hits of a scan over `keys`, in scan order. */
  function Hits(idx: Index, keys: seq<Bytes>, revision: int): seq<(Bytes, Revision)> {
    if keys == [] then []
    else
      var k := keys[|keys| - 1];
      var found := Get(idx, k, revision);
      Hits(idx, keys[..|keys| - 1], revision) + if found.Some? then [(k, found.value)] else []
  }

  lemma HitsMore(idx: Index, keys: seq<Bytes>, i: nat, revision: int)
    requires i < |keys|
    ensures var found := Get(idx, keys[i], revision);
      Hits(idx, keys[..i + 1], revision) == Hits(idx, keys[..i], revision)
        + if found.Some? then [(keys[i], found.value)] else []
  {
    assert keys[..i + 1][..i] == keys[..i];
  }

  ghost predicate HitsOf(h: seq<(Bytes, Revision)>, idx: Index, keys: seq<Bytes>, revision: int) {
    && (forall i, j :: 0 <= i < j < |h| ==> Less(h[i].0, h[j].0))
    && (forall k, v :: (k, v) in h <==> k in keys && Get(idx, k, revision) == Some(v))
  }

  lemma {:induction false} HitsInOrder(idx: Index, keys: seq<Bytes>, revision: int)
    requires Ascending(keys)
    ensures HitsOf(Hits(idx, keys, revision), idx, keys, revision)
  {
    if keys != [] {
      var n := |keys| - 1;
      var k, found := keys[n], Get(idx, keys[n], revision);
      assert keys == keys[..n] + [k];
      HitsInOrder(idx, keys[..n], revision);
      var h := Hits(idx, keys[..n], revision);
      forall i | 0 <= i < |h| ensures Less(h[i].0, k) {
        assert (h[i].0, h[i].1) in h;
      }
      if found.Some? {
        assert Hits(idx, keys, revision) == h + [(k, found.value)];
      }
    }
  }

  lemma RangeAtIs(idx: Index, start: Bytes, end: Bytes, revision: int, keys: seq<Bytes>)
    requires keys == SortedKeys(set k | k in idx && InBounds(k, start, end))
    ensures HitsOf(RangeAt(idx, start, end, revision), idx, keys, revision)
  {
    var visible := VisibleKeys(idx, start, end, revision);
    var found, r := SortedKeys(visible), RangeAt(idx, start, end, revision);
    forall k, v ensures (k, v) in r <==> k in keys && Get(idx, k, revision) == Some(v) {
      if k in keys && Get(idx, k, revision) == Some(v) {
        assert k in visible;
        var i :| 0 <= i < |found| && found[i] == k;
        assert r[i] == (k, v);
      }
      if (k, v) in r {
        var i :| 0 <= i < |r| && r[i] == (k, v);
        assert found[i] in visible;
      }
    }
  }

  lemma {:induction false} HitsUnique(h: seq<(Bytes, Revision)>, h': seq<(Bytes, Revision)>)
    requires forall i, j :: 0 <= i < j < |h| ==> Less(h[i].0, h[j].0)
    requires forall i, j :: 0 <= i < j < |h'| ==> Less(h'[i].0, h'[j].0)
    requires forall x :: x in h <==> x in h'
    ensures h == h'
  {
    assert h != [] ==> h[0] in h';
    assert h' != [] ==> h'[0] in h;
    if h != [] {
      var i :| 0 <= i < |h'| && h'[i] == h[0];
      var j :| 0 <= j < |h| && h[j] == h'[0];
      if i > 0 { LessTotal(h[0].0, h'[0].0); }
      assert h[0] == h'[0];
      forall x ensures x in h[1..] <==> x in h'[1..] {
        LessTotal(h[0].0, h[0].0);
        assert x in h[1..] ==> x in h';
        assert x in h'[1..] ==> x in h;
      }
      HitsUnique(h[1..], h'[1..]);
      assert h == [h[0]] + h[1..] && h' == [h'[0]] + h'[1..];
    }
  }

  lemma HitsOfUnique(h: seq<(Bytes, Revision)>, h': seq<(Bytes, Revision)>, idx: Index, keys: seq<Bytes>, revision: int)
    requires HitsOf(h, idx, keys, revision) && HitsOf(h', idx, keys, revision)
    ensures h == h'
  {
    forall x | true ensures x in h <==> x in h' {
      assert x == (x.0, x.1);
    }
    HitsUnique(h, h');
  }

  lemma HitsAreVisible(idx: Index, start: Bytes, end: Bytes, revision: int)
    ensures Hits(idx, SortedKeys(set k | k in idx && InBounds(k, start, end)), revision)
         == RangeAt(idx, start, end, revision)
  {
    var keys := SortedKeys(set k | k in idx && InBounds(k, start, end));
    HitsInOrder(idx, keys, revision);
    RangeAtIs(idx, start, end, revision, keys);
    HitsOfUnique(Hits(idx, keys, revision), RangeAt(idx, start, end, revision), idx, keys, revision);
  }

  /** Compacting the entries of `keys` one after the other. */
  function CompactedKeys(idx: Index, keys: seq<Bytes>, c: i64): Index {
    if keys == [] then idx
    else
      var before := CompactedKeys(idx, keys[..|keys| - 1], c);
      var k := keys[|keys| - 1];
      before[k := EntryCompact(EntryOf(before, k), c)]
  }

  function CompactedOn(idx: Index, keys: seq<Bytes>, c: i64): Index {
    map k | k in idx :: if k in keys then EntryCompact(idx[k], c) else idx[k]
  }

  lemma {:induction false} CompactedKeysAt(idx: Index, keys: seq<Bytes>, c: i64)
    requires Ascending(keys) && forall k :: k in keys ==> k in idx
    ensures CompactedKeys(idx, keys, c) == CompactedOn(idx, keys, c)
  {
    if keys == [] {
      CompactedOnNone(idx, c);
    } else {
      var n := |keys| - 1;
      var before, k := keys[..n], keys[n];
      assert keys == before + [k];
      CompactedKeysAt(idx, before, c);
      AscendingPrefixExcludes(keys, n);
      CompactedKeysMore(idx, before, k, c);
      CompactedOnStep(idx, before, k, c);
    }
  }

  lemma CompactedOnNone(idx: Index, c: i64)
    ensures CompactedOn(idx, [], c) == idx
  {
  }

  lemma CompactedKeysMore(idx: Index, keys: seq<Bytes>, k: Bytes, c: i64)
    ensures var before := CompactedKeys(idx, keys, c);
      CompactedKeys(idx, keys + [k], c) == before[k := EntryCompact(EntryOf(before, k), c)]
  {
    assert (keys + [k])[..|keys|] == keys;
  }

  lemma CompactedOnStep(idx: Index, keys: seq<Bytes>, k: Bytes, c: i64)
    requires k in idx && k !in keys
    ensures CompactedOn(idx, keys + [k], c) == CompactedOn(idx, keys, c)[k := EntryCompact(idx[k], c)]
  {
  }

  lemma CompactedKeysStep(idx: Index, keys: seq<Bytes>, i: nat, c: i64)
    requires i < |keys| && keys[i] in idx
    ensures var before := CompactedKeys(idx, keys[..i], c);
      keys[i] in before
      && CompactedKeys(idx, keys[..i + 1], c) == before[keys[i] := EntryCompact(before[keys[i]], c)]
  {
    assert keys[..i + 1][..i] == keys[..i];
    CompactedKeysKeep(idx, keys[..i], c);
  }

  lemma {:induction false} CompactedKeysKeep(idx: Index, keys: seq<Bytes>, c: i64)
    ensures idx.Keys <= CompactedKeys(idx, keys, c).Keys
  {
    if keys != [] {
      CompactedKeysKeep(idx, keys[..|keys| - 1], c);
    }
  }

  lemma CompactedKeysAll(idx: Index, keys: seq<Bytes>, c: i64)
    requires keys == SortedKeys(idx.Keys)
    ensures CompactedKeys(idx, keys[..|keys|], c) == IndexCompact(idx, c)
  {
    assert keys[..|keys|] == keys;
    CompactedKeysAt(idx, keys, c);
    CompactedOnAll(idx, keys, c);
  }

  lemma CompactedOnAll(idx: Index, keys: seq<Bytes>, c: i64)
    requires forall k :: k in keys <==> k in idx
    ensures CompactedOn(idx, keys, c) == IndexCompact(idx, c)
  {
  }

  // ---------------------------------------------------------------- the object

  class KeyIndex {
    var tree: Index

    constructor ()
      ensures tree == map[]
    {
      tree := map[];
    }

    function Lookup(key: Bytes, revision: i64): Option<Revision>
      reads this
    {
      Get(tree, key, revision)
    }

    method Put(key: Bytes, revision: Revision)
      modifies this
      ensures tree == IndexPut(old(tree), key, revision)
    {
      var generations := if key in tree then tree[key] else [];
      if generations == [] || generations[|generations| - 1].deleted.Some? {
        generations := generations + [Generation(revision, [revision], None)];
      } else {
        var last := generations[|generations| - 1];
        generations := generations[..|generations| - 1] + [last.(revisions := last.revisions + [revision])];
      }
      tree := tree[key := generations];
    }

    method Tombstone(key: Bytes, revision: Revision)
      modifies this
      ensures tree == IndexTombstone(old(tree), key, revision)
    {
      var generations := if key in tree then tree[key] else [];
      if generations != [] {
        var last := generations[|generations| - 1];
        if last.deleted.None? {
          generations := generations[..|generations| - 1] + [last.(deleted := Some(revision))];
        }
      } else {
        generations := [Generation(revision, [revision], Some(revision))];
      }
      tree := tree[key := generations];
    }

    /** All keys in `[start, end)` alive at the revision, in key order; an empty end is unbounded. */
    method Range(start: Bytes, end: Bytes, revision: i64) returns (r: Outcome<seq<(Bytes, Revision)>>)
      ensures r == if PanickingBounds(start, end) then Panicked else Done(RangeAt(tree, start, end, revision))
    {
      if PanickingBounds(start, end) {
        return Panicked;
      }
      var keys := SortedKeys(set k | k in tree && InBounds(k, start, end));
      var results := [];
      for i := 0 to |keys|
        invariant results == Hits(tree, keys[..i], revision)
      {
        HitsMore(tree, keys, i, revision);
        assert keys[i] in keys;
        var g := GenerationAt(tree[keys[i]], revision);
        if g.Some? {
          var rev := LatestUpTo(g.value.revisions, revision);
          if rev.Some? {
            results := results + [(keys[i], rev.value)];
          }
        }
      }
      assert keys[..|keys|] == keys;
      HitsAreVisible(tree, start, end, revision);
      r := Done(results);
    }

    static method CompactGenerations(generations: Entry, compactRevision: i64) returns (compacted: Entry)
      ensures compacted == EntryCompact(generations, compactRevision)
    {
      compacted := [];
      for j := 0 to |generations|
        invariant |compacted| == j
        invariant forall m :: 0 <= m < j ==> compacted[m] == GenerationCompact(generations[m], compactRevision)
      {
        var g := generations[j];
        g := g.(revisions := Retain(g.revisions, compactRevision));
        if g.revisions == [] && g.deleted.None? {
          g := g.(created := g.created.(main := compactRevision));
        }
        compacted := compacted + [g];
      }
    }

    method Compact(compactRevision: i64)
      modifies this
      ensures tree == IndexCompact(old(tree), compactRevision)
    {
      var keys := SortedKeys(tree.Keys);
      ghost var was := tree;
      for i := 0 to |keys|
        invariant tree == CompactedKeys(was, keys[..i], compactRevision)
      {
        assert keys[i] in keys;
        CompactedKeysStep(was, keys, i, compactRevision);
        var compacted := CompactGenerations(tree[keys[i]], compactRevision);
        tree := tree[keys[i] := compacted];
      }
      CompactedKeysAll(was, keys, compactRevision);
    }

    method Clear()
      modifies this
      ensures tree == map[]
    {
      tree := map[];
    }
  }

  // ---------------------------------------------------------------- entry invariant

  ghost predicate Increasing(revisions: seq<Revision>) {
    forall i, j :: 0 <= i < j < |revisions| ==> revisions[i].main < revisions[j].main
  }

  ghost predicate GenerationOk(g: Generation, bound: int) {
    && g.created.main <= bound
    && (g.deleted.Some? ==> g.deleted.value.main <= bound)
    && (forall x :: x in g.revisions ==> x.main <= bound)
    && Increasing(g.revisions)
  }

  /** Only the last generation may be alive, and everything recorded is at or below `bound`. */
  ghost predicate EntryOk(e: Entry, bound: int) {
    && (forall i :: 0 <= i < |e| ==> GenerationOk(e[i], bound))
    && (forall i :: 0 <= i < |e| - 1 ==> e[i].deleted.Some?)
  }

  lemma EntryOkMonotone(e: Entry, b: int, b': int)
    requires EntryOk(e, b) && b <= b'
    ensures EntryOk(e, b')
  {
  }

  // ---------------------------------------------------------------- effect of each change on reads

  lemma {:induction false} LatestUpToInBound(revisions: seq<Revision>, r: int)
    ensures LatestUpTo(revisions, r).Some? ==> LatestUpTo(revisions, r).value in revisions
    ensures LatestUpTo(revisions, r).Some? ==> LatestUpTo(revisions, r).value.main <= r
    ensures LatestUpTo(revisions, r).None? ==> forall x :: x in revisions ==> x.main > r
  {
    if revisions != [] && revisions[|revisions| - 1].main > r {
      LatestUpToInBound(revisions[..|revisions| - 1], r);
      assert revisions == revisions[..|revisions| - 1] + [revisions[|revisions| - 1]];
    }
  }

  lemma {:induction false} NothingAliveBeyond(e: Entry, bound: int, r: int)
    requires EntryOk(e, bound) && !LastAlive(e) && bound <= r
    ensures GenerationAt(e, r).None?
  {
    if e != [] {
      assert GenerationOk(e[0], bound);
      NothingAliveBeyond(e[1..], bound, r);
    }
  }

  lemma {:induction false} GenerationAtConcat(a: Entry, b: Entry, r: int)
    ensures GenerationAt(a + b, r) == if GenerationAt(a, r).Some? then GenerationAt(a, r) else GenerationAt(b, r)
  {
    if a == [] {
      assert a + b == b;
    } else {
      assert (a + b)[1..] == a[1..] + b;
      GenerationAtConcat(a[1..], b, r);
    }
  }

  lemma LatestUpToAppend(revisions: seq<Revision>, rev: Revision, r: int)
    ensures LatestUpTo(revisions + [rev], r) == if rev.main <= r then Some(rev) else LatestUpTo(revisions, r)
  {
    assert (revisions + [rev])[..|revisions|] == revisions;
  }

  /** Reading an entry through its last generation. */
  lemma EntryGetByLast(e: Entry, g: Generation, r: int)
    ensures EntryGet(e + [g], r) ==
      if GenerationAt(e, r).Some? then EntryGet(e, r) else if AliveAt(g, r) then LatestUpTo(g.revisions, r) else None
  {
    GenerationAtConcat(e, [g], r);
    assert [g][1..] == [];
  }

  lemma EntryOkByLast(e: Entry, g: Generation, bound: int)
    ensures EntryOk(e + [g], bound) <==> EntryOk(e, bound) && !LastAlive(e) && GenerationOk(g, bound)
  {
    var e' := e + [g];
    assert e'[..|e|] == e && e'[|e|] == g;
    if EntryOk(e', bound) {
      assert forall i :: 0 <= i < |e| ==> e'[i] == e[i];
    }
  }

  /** Appending a revision to the generation that closes an entry. */
  lemma GetAfterAppend(init: Entry, g: Generation, bound: int, rev: Revision, r: int)
    requires EntryOk(init, bound) && !LastAlive(init) && bound < rev.main
    requires GenerationOk(g, rev.main) && (forall x :: x in g.revisions ==> x.main <= bound)
    requires g.deleted.None?
    requires g.created.main <= bound || (g.created == rev && g.revisions == [])
    ensures var g' := g.(revisions := g.revisions + [rev]);
      EntryGet(init + [g'], r) == if r < rev.main then EntryGet(init + [g], r) else Some(rev)
  {
    var g' := g.(revisions := g.revisions + [rev]);
    EntryGetByLast(init, g, r);
    EntryGetByLast(init, g', r);
    LatestUpToAppend(g.revisions, rev, r);
    if r >= rev.main { NothingAliveBeyond(init, bound, r); }
  }

  lemma EntryOkAfterPut(e: Entry, bound: int, rev: Revision)
    requires EntryOk(e, bound) && bound < rev.main
    ensures EntryOk(EntryPut(e, rev), rev.main) && LastAlive(EntryPut(e, rev))
  {
    if LastAlive(e) {
      var init, g := e[..|e| - 1], e[|e| - 1];
      assert e == init + [g];
      EntryOkByLast(init, g, bound);
      EntryOkMonotone(init, bound, rev.main);
      EntryOkByLast(init, g.(revisions := g.revisions + [rev]), rev.main);
    } else {
      EntryOkMonotone(e, bound, rev.main);
      EntryOkByLast(e, Generation(rev, [rev], None), rev.main);
    }
  }

  /** A write at a fresh revision is what every later read sees; earlier reads are unaffected. */
  lemma GetAfterPut(e: Entry, bound: int, rev: Revision, r: int)
    requires EntryOk(e, bound) && bound < rev.main
    ensures EntryGet(EntryPut(e, rev), r) == if r < rev.main then EntryGet(e, r) else Some(rev)
    ensures EntryOk(EntryPut(e, rev), rev.main) && LastAlive(EntryPut(e, rev))
  {
    EntryOkAfterPut(e, bound, rev);
    if LastAlive(e) {
      var init, g := e[..|e| - 1], e[|e| - 1];
      assert e == init + [g];
      EntryOkByLast(init, g, bound);
      GetAfterAppend(init, g, bound, rev, r);
    } else {
      var g := Generation(rev, [], None);
      GetAfterAppend(e, g, bound, rev, r);
      EntryGetByLast(e, g, r);
      assert g.revisions + [rev] == [rev];
    }
  }

  /** A tombstone at a fresh revision hides the key from then on; earlier reads are unaffected. */
  lemma GetAfterTombstone(e: Entry, bound: int, rev: Revision, r: int)
    requires EntryOk(e, bound) && bound < rev.main
    ensures EntryGet(EntryTombstone(e, rev), r) == if r < rev.main then EntryGet(e, r) else None
    ensures EntryOk(EntryTombstone(e, rev), rev.main) && !LastAlive(EntryTombstone(e, rev))
  {
    if LastAlive(e) {
      var init, g := e[..|e| - 1], e[|e| - 1];
      var g' := g.(deleted := Some(rev));
      assert e == init + [g];
      EntryOkByLast(init, g, bound);
      EntryGetByLast(init, g, r);
      EntryGetByLast(init, g', r);
      if r >= rev.main { NothingAliveBeyond(init, bound, r); }
      EntryOkMonotone(init, bound, rev.main);
      EntryOkByLast(init, g', rev.main);
    } else if e != [] {
      if r >= rev.main { NothingAliveBeyond(e, bound, r); }
      EntryOkMonotone(e, bound, rev.main);
    } else {
      var g := Generation(rev, [rev], Some(rev));
      assert EntryTombstone(e, rev) == [] + [g];
      EntryGetByLast([], g, r);
      EntryOkByLast([], g, rev.main);
    }
  }

  function AtLeast(v: Option<Revision>, c: int): Option<Revision> {
    if v.Some? && v.value.main >= c then v else None
  }

  lemma {:induction false} RetainKeeps(revisions: seq<Revision>, c: int)
    ensures forall x :: x in Retain(revisions, c) <==> x in revisions && x.main >= c
    ensures Increasing(revisions) ==> Increasing(Retain(revisions, c))
  {
    if revisions != [] {
      var n := |revisions| - 1;
      assert revisions == revisions[..n] + [revisions[n]];
      RetainKeeps(revisions[..n], c);
    }
  }

  lemma {:induction false} LatestUpToAfterRetain(revisions: seq<Revision>, c: int, r: int)
    requires Increasing(revisions)
    ensures LatestUpTo(Retain(revisions, c), r) == AtLeast(LatestUpTo(revisions, r), c)
  {
    if revisions != [] {
      var n := |revisions| - 1;
      var kept := Retain(revisions[..n], c);
      LatestUpToAfterRetain(revisions[..n], c, r);
      LatestUpToInBound(revisions[..n], r);
      if revisions[n].main >= c {
        LatestUpToAppend(kept, revisions[n], r);
      } else {
        RetainKeeps(revisions[..n], c);
        assert forall x :: x !in kept;
      }
    }
  }

  lemma GenerationAfterCompact(g: Generation, bound: int, c: i64, r: int)
    requires GenerationOk(g, bound) && c <= bound
    ensures var g' := GenerationCompact(g, c);
      && LatestUpTo(g'.revisions, r) == AtLeast(LatestUpTo(g.revisions, r), c)
      && GenerationOk(g', bound) && g'.deleted == g.deleted
      && (AliveAt(g', r) != AliveAt(g, r) ==> g.deleted.None? && LatestUpTo(g'.revisions, r) == None)
  {
    LatestUpToAfterRetain(g.revisions, c, r);
    RetainKeeps(g.revisions, c);
  }

  /** Compaction at any point `c`, earlier or later than previous ones, hides exactly the reads whose
      answer lay below `c`. */
  lemma {:induction false} GetAfterCompact(e: Entry, bound: int, c: i64, r: int)
    requires EntryOk(e, bound) && c <= bound
    ensures EntryGet(EntryCompact(e, c), r) == AtLeast(EntryGet(e, r), c)
    ensures EntryOk(EntryCompact(e, c), bound) && LastAlive(EntryCompact(e, c)) == LastAlive(e)
  {
    if e != [] {
      var init, g := e[..|e| - 1], e[|e| - 1];
      assert e == init + [g];
      assert EntryCompact(e, c) == EntryCompact(init, c) + [GenerationCompact(g, c)];
      EntryOkByLast(init, g, bound);
      GetAfterCompact(init, bound, c, r);
      GenerationAfterCompact(g, bound, c, r);
      EntryGetByLast(init, g, r);
      EntryGetByLast(EntryCompact(init, c), GenerationCompact(g, c), r);
      EntryOkByLast(EntryCompact(init, c), GenerationCompact(g, c), bound);
      SameAlivenessWhenDeleted(init, bound, c, r);
    }
  }

  /** Compaction leaves the life spans of deleted generations alone. */
  lemma {:induction false} SameAlivenessWhenDeleted(e: Entry, bound: int, c: i64, r: int)
    requires EntryOk(e, bound) && !LastAlive(e)
    ensures GenerationAt(EntryCompact(e, c), r).Some? == GenerationAt(e, r).Some?
  {
    if e != [] {
      assert e[0].deleted.Some?;
      SameAlivenessWhenDeleted(e[1..], bound, c, r);
    }
  }

  // ---------------------------------------------------------------- refinement of a change history

  datatype Change = Wrote(key: Bytes, rev: Revision) | Removed(key: Bytes, rev: Revision)

  /** The index built by a sequence of `put` and `tombstone` calls. */
  function IndexAfter(history: seq<Change>): Index {
    if history == [] then map[]
    else
      var before := IndexAfter(history[..|history| - 1]);
      match history[|history| - 1]
      case Wrote(k, rev) => IndexPut(before, k, rev)
      case Removed(k, rev) => IndexTombstone(before, k, rev)
  }

  /** Revisions of one key go up. Different keys are not ordered (a range delete shares one revision). */
  ghost predicate KeyOrdered(history: seq<Change>) {
    forall i, j :: 0 <= i < j < |history| && history[i].key == history[j].key ==>
      history[i].rev.main < history[j].rev.main
  }

  /** Reference semantics: the last change of the key at or before the revision decides. */
  function LastWrite(history: seq<Change>, key: Bytes, revision: int): Option<Revision> {
    if history == [] then None
    else
      var last := history[|history| - 1];
      if last.key == key && last.rev.main <= revision then
        if last.Wrote? then Some(last.rev) else None
      else LastWrite(history[..|history| - 1], key, revision)
  }

  ghost predicate ChangesUpTo(history: seq<Change>, key: Bytes, bound: int) {
    forall i :: 0 <= i < |history| && history[i].key == key ==> history[i].rev.main <= bound
  }

  /** The index answers every point-in-time lookup as the change history does. */
  lemma {:induction false} IndexRefinesHistory(history: seq<Change>, key: Bytes, revision: int, bound: int)
    requires KeyOrdered(history) && ChangesUpTo(history, key, bound)
    ensures Get(IndexAfter(history), key, revision) == LastWrite(history, key, revision)
    ensures EntryOk(EntryOf(IndexAfter(history), key), bound)
  {
    if history != [] {
      var n := |history| - 1;
      var before, last := history[..n], history[n];
      if last.key == key {
        IndexRefinesHistory(before, key, revision, last.rev.main - 1);
        var e := EntryOf(IndexAfter(before), key);
        if last.Wrote? {
          GetAfterPut(e, last.rev.main - 1, last.rev, revision);
          EntryOkMonotone(EntryPut(e, last.rev), last.rev.main, bound);
        } else {
          GetAfterTombstone(e, last.rev.main - 1, last.rev, revision);
          EntryOkMonotone(EntryTombstone(e, last.rev), last.rev.main, bound);
        }
        if revision < last.rev.main {
        } else {
          assert last.rev.main <= revision;
        }
      } else {
        IndexRefinesHistory(before, key, revision, bound);
      }
    }
  }

  /** Range scans list, in ascending key order and without repetition, exactly the keys in bounds
      whose last change at or before the revision was a write, each with that write's revision. */
  lemma RangeRefinesHistory(history: seq<Change>, start: Bytes, end: Bytes, revision: int, bound: int)
    requires KeyOrdered(history) && forall k :: ChangesUpTo(history, k, bound)
    ensures var r := RangeAt(IndexAfter(history), start, end, revision);
      && (forall i, j :: 0 <= i < j < |r| ==> Less(r[i].0, r[j].0))
      && (forall k, v :: (k, v) in r <==> InBounds(k, start, end) && LastWrite(history, k, revision) == Some(v))
  {
    var idx := IndexAfter(history);
    var r := RangeAt(idx, start, end, revision);
    var keys := SortedKeys(VisibleKeys(idx, start, end, revision));
    forall k, v ensures (k, v) in r <==> InBounds(k, start, end) && LastWrite(history, k, revision) == Some(v) {
      IndexRefinesHistory(history, k, revision, bound);
      if (k, v) in r {
        var i :| 0 <= i < |r| && r[i] == (k, v);
        assert keys[i] in VisibleKeys(idx, start, end, revision);
      }
      if InBounds(k, start, end) && LastWrite(history, k, revision) == Some(v) {
        assert k in VisibleKeys(idx, start, end, revision);
        var i :| 0 <= i < |keys| && keys[i] == k;
        assert r[i] == (k, v);
      }
    }
  }
}
