/** The storage backend: six named trees, ordered scans, revision compaction, and the snapshot format
    (src/storage/backend.rs). A sled tree is a map from byte strings iterated in byte order. */
module Backends {
  import opened ByteStrings

  type Tree = map<Bytes, Bytes>
  /** The six trees the backend opens. */
  datatype Trees = Trees(kv: Tree, kvRev: Tree, index: Tree, meta: Tree, lease: Tree, auth: Tree)

  const EMPTY_TREES := Trees(map[], map[], map[], map[], map[], map[])

  datatype TreeName = KvTree | KvRevTree | IndexTree | MetaTree | LeaseTree | AuthTree

  /** The order in which a snapshot lists the trees. */
  const NAMES: seq<TreeName> := [KvTree, KvRevTree, IndexTree, MetaTree, LeaseTree, AuthTree]

  /** The name in ASCII. */
  function NameBytes(n: TreeName): Bytes {
    match n
    case KvTree => [107, 118]
    case KvRevTree => [107, 118, 95, 114, 101, 118]
    case IndexTree => [105, 110, 100, 101, 120]
    case MetaTree => [109, 101, 116, 97]
    case LeaseTree => [108, 101, 97, 115, 101]
    case AuthTree => [97, 117, 116, 104]
  }

  lemma NamesDistinct(m: TreeName, n: TreeName)
    ensures NameBytes(m) == NameBytes(n) ==> m == n
  {
    if m != n && |NameBytes(m)| == |NameBytes(n)| {
      assert NameBytes(m)[0] != NameBytes(n)[0];
    }
  }

  /** `get_tree`: the tree of that name, if there is one. */
  function TreeNamed(name: Bytes): Option<TreeName> {
    if exists n :: NameBytes(n) == name then
      assert forall m, n :: NameBytes(m) == name && NameBytes(n) == name ==> m == n by {
        forall m, n | NameBytes(m) == name && NameBytes(n) == name ensures m == n { NamesDistinct(m, n); }
      }
      var n :| NameBytes(n) == name;
      Some(n)
    else None
  }

  function Select(t: Trees, n: TreeName): Tree {
    match n
    case KvTree => t.kv
    case KvRevTree => t.kvRev
    case IndexTree => t.index
    case MetaTree => t.meta
    case LeaseTree => t.lease
    case AuthTree => t.auth
  }

  function Replace(t: Trees, n: TreeName, tree: Tree): Trees {
    match n
    case KvTree => t.(kv := tree)
    case KvRevTree => t.(kvRev := tree)
    case IndexTree => t.(index := tree)
    case MetaTree => t.(meta := tree)
    case LeaseTree => t.(lease := tree)
    case AuthTree => t.(auth := tree)
  }

  // ---------------------------------------------------------------- scans

  /** The entries of `keys`, in that order. */
  function PairsOf(tree: Tree, keys: seq<Bytes>): (r: seq<(Bytes, Bytes)>)
    requires forall k :: k in keys ==> k in tree
    ensures |r| == |keys| && forall i :: 0 <= i < |keys| ==> r[i] == (keys[i], tree[keys[i]])
  {
    if keys == [] then [] else PairsOf(tree, keys[..|keys| - 1]) + [(keys[|keys| - 1], tree[keys[|keys| - 1]])]
  }

  function KeysBetween(tree: Tree, start: Bytes, end: Bytes): (r: seq<Bytes>)
    ensures forall k :: k in r <==> k in tree && !Less(k, start) && Less(k, end)
    ensures Ascending(r)
  {
    SortedKeys(set k | k in tree && !Less(k, start) && Less(k, end))
  }

  function PairsBetween(tree: Tree, start: Bytes, end: Bytes): seq<(Bytes, Bytes)> {
    PairsOf(tree, KeysBetween(tree, start, end))
  }

  /** The first `limit` of them; all if the limit is 0. */
  function Limited(s: seq<(Bytes, Bytes)>, limit: nat): (r: seq<(Bytes, Bytes)>)
    ensures r <= s && (limit == 0 ==> r == s)
    ensures limit > 0 ==> |r| <= limit && (|r| < limit ==> r == s)
  {
    if 0 < limit < |s| then s[..limit] else s
  }

  // ---------------------------------------------------------------- snapshot format

  function Framed(b: Bytes): Bytes {
    U32Le(|b|) + b
  }

  function EntryBytes(tree: Tree, k: Bytes): Bytes
    requires k in tree
  {
    Framed(k) + Framed(tree[k])
  }

  function EntriesBytes(tree: Tree, keys: seq<Bytes>): Bytes
    requires forall k :: k in keys ==> k in tree
  {
    if keys == [] then [] else EntryBytes(tree, keys[0]) + EntriesBytes(tree, keys[1..])
  }

  lemma AppendAssoc(a: Bytes, b: Bytes, c: Bytes)
    ensures a + b + c == a + (b + c)
  {
  }

  lemma AppendTwoFrames(a: Bytes, b: Bytes, c: Bytes)
    ensures a + U32Le(|b|) + b + U32Le(|c|) + c == a + (Framed(b) + Framed(c))
  {
  }

  function TreeBody(tree: Tree): Bytes {
    U32Le(|tree|) + EntriesBytes(tree, SortedKeys(tree.Keys))
  }

  function TreeBytes(name: Bytes, tree: Tree): Bytes {
    Framed(name) + TreeBody(tree)
  }

  /** The trees of `names`, written one after the other. */
  function SnapshotBytes(trees: Trees, names: seq<TreeName>): Bytes {
    if names == [] then []
    else TreeBytes(NameBytes(names[0]), Select(trees, names[0])) + SnapshotBytes(trees, names[1..])
  }

  // ---------------------------------------------------------------- snapshot parser

  /** A length-prefixed field at the front of `data`, and what follows it. */
  function ReadField(data: Bytes): Option<(Bytes, Bytes)> {
    if |data| < 4 then None
    else
      var len := U32FromLe(data[..4]);
      if 4 + len > |data| then None else Some((data[4..4 + len], data[4 + len..]))
  }

  /** Reads `count` entries into the tree. On malformed data the entries read so far stay in the tree. */
  function ParseEntries(data: Bytes, count: nat, tree: Tree): (r: (Tree, Option<Bytes>))
    ensures r.1.Some? ==> |r.1.value| <= |data|
    decreases count
  {
    if count == 0 then (tree, Some(data))
    else match ReadField(data)
      case None => (tree, None)
      case Some(key) =>
        match ReadField(key.1)
        case None => (tree, None)
        case Some(value) => ParseEntries(value.1, count - 1, tree[key.0 := value.0])
  }

  /** The name of a tree, the number of its entries, and the data behind. An unknown name is an error. */
  function ReadHeader(data: Bytes): (r: Option<(TreeName, nat, Bytes)>)
    ensures r.Some? ==> |r.value.2| < |data|
  {
    match ReadField(data)
    case None => None
    case Some(name) =>
      var found := TreeNamed(name.0);
      if found.None? || |name.1| < 4 then None
      else Some((found.value, U32FromLe(name.1[..4]), name.1[4..]))
  }

  /** One tree of a snapshot: the resulting trees and the data behind it, or none on malformed data. */
  function ParseTree(data: Bytes, trees: Trees): (r: (Trees, Option<Bytes>))
    ensures r.1.Some? ==> |r.1.value| < |data|
  {
    match ReadHeader(data)
    case None => (trees, None)
    case Some(header) =>
      var (tree, rest) := ParseEntries(header.2, header.1, Select(trees, header.0));
      (Replace(trees, header.0, tree), rest)
  }

  /** `restore`: the resulting trees, and whether it succeeded. Fewer than four trailing bytes are
      ignored. */
  function ParseTrees(data: Bytes, trees: Trees): (Trees, bool)
    decreases |data|
  {
    if |data| < 4 then (trees, true)
    else
      var (next, rest) := ParseTree(data, trees);
      if rest.None? then (next, false) else ParseTrees(rest.value, next)
  }

  // ---------------------------------------------------------------- revision compaction

  /** The keys `compact` removes on its way through the ordered `keys`: it skips keys too short to hold
      a revision and stops at the first revision not below `revision`. */
  function Doomed(keys: seq<Bytes>, revision: i64): seq<Bytes> {
    if keys == [] then []
    else if |keys[0]| < 8 then Doomed(keys[1..], revision)
    else if I64FromBe(keys[0][..8]) < revision then [keys[0]] + Doomed(keys[1..], revision)
    else []
  }

  lemma DoomedStep(keys: seq<Bytes>, i: nat, revision: i64)
    requires i < |keys|
    ensures var rest := Doomed(keys[i + 1..], revision);
      Doomed(keys[i..], revision) ==
        if |keys[i]| < 8 then rest else if I64FromBe(keys[i][..8]) < revision then [keys[i]] + rest else []
  {
    assert keys[i..][1..] == keys[i + 1..];
  }

  lemma BatchAssoc(batch: seq<Bytes>, k: Bytes, rest: seq<Bytes>)
    ensures batch + ([k] + rest) == batch + [k] + rest
  {
  }

  function CompactedTree(tree: Tree, revision: i64): Tree {
    tree - ElementsOf(Doomed(SortedKeys(tree.Keys), revision))
  }

  // ---------------------------------------------------------------- the object

  class Backend {
    var trees: Trees

    constructor ()
      ensures trees == EMPTY_TREES
    {
      trees := EMPTY_TREES;
    }

    method Put(name: TreeName, key: Bytes, value: Bytes)
      modifies this
      ensures trees == Replace(old(trees), name, Select(old(trees), name)[key := value])
    {
      trees := Replace(trees, name, Select(trees, name)[key := value]);
    }

    function Lookup(name: TreeName, key: Bytes): Option<Bytes>
      reads this
    {
      if key in Select(trees, name) then Some(Select(trees, name)[key]) else None
    }

    method Delete(name: TreeName, key: Bytes)
      modifies this
      ensures trees == Replace(old(trees), name, Select(old(trees), name) - {key})
    {
      trees := Replace(trees, name, Select(trees, name) - {key});
    }

    /** The entries with `start <= key < end` in key order, all of them when `limit` is 0. */
    method Scan(name: TreeName, start: Bytes, end: Bytes, limit: nat) returns (results: seq<(Bytes, Bytes)>)
      ensures results == Limited(PairsBetween(Select(trees, name), start, end), limit)
    {
      var items := PairsBetween(Select(trees, name), start, end);
      results := [];
      var i := 0;
      while i < |items|
        invariant 0 <= i <= |items| && (limit > 0 ==> i < limit)
        invariant results == items[..i]
      {
        results := results + [items[i]];
        i := i + 1;
        if limit > 0 && |results| >= limit { break; }
      }
      assert items[..|items|] == items;
      assert results == Limited(items, limit);
    }

    method Snapshot() returns (data: Bytes)
      ensures data == SnapshotBytes(trees, NAMES)
    {
      data := AppendTrees([], NAMES);
    }

    /** The outer loop of `snapshot`. */
    method AppendTrees(prefix: Bytes, names: seq<TreeName>) returns (data: Bytes)
      ensures data == prefix + SnapshotBytes(trees, names)
    {
      data := prefix;
      for n := 0 to |names|
        invariant data + SnapshotBytes(trees, names[n..]) == prefix + SnapshotBytes(trees, names)
      {
        assert names[n..][1..] == names[n + 1..];
        ghost var before := data;
        var nameBytes, tree := NameBytes(names[n]), Select(trees, names[n]);
        data := data + U32Le(|nameBytes|);
        data := data + nameBytes;
        data := AppendTree(data, tree);
        AppendAssoc(before, U32Le(|nameBytes|), nameBytes);
        AppendAssoc(before, Framed(nameBytes), TreeBody(tree));
        AppendAssoc(before, TreeBytes(nameBytes, tree), SnapshotBytes(trees, names[n + 1..]));
      }
    }

    /** Writes the entry count, found by a first pass over the tree, and then the entries. */
    static method AppendTree(data: Bytes, tree: Tree) returns (r: Bytes)
      ensures r == data + TreeBody(tree)
    {
      var keys := SortedKeys(tree.Keys);
      var count := 0;
      for i := 0 to |keys|
        invariant count == i
      {
        count := count + 1;
      }
      assert count == |tree.Keys| == |tree|;
      r := AppendEntries(data + U32Le(count), tree, keys);
      AppendAssoc(data, U32Le(|tree|), EntriesBytes(tree, keys));
    }

    static method AppendEntries(data: Bytes, tree: Tree, keys: seq<Bytes>) returns (r: Bytes)
      requires forall k :: k in keys ==> k in tree
      ensures r == data + EntriesBytes(tree, keys)
    {
      r := data;
      for i := 0 to |keys|
        invariant forall k :: k in keys[i..] ==> k in tree
        invariant r + EntriesBytes(tree, keys[i..]) == data + EntriesBytes(tree, keys)
      {
        var k := keys[i];
        assert keys[i..][1..] == keys[i + 1..] && keys[i..][0] == k;
        ghost var before := r;
        r := r + U32Le(|k|);
        r := r + k;
        r := r + U32Le(|tree[k]|);
        r := r + tree[k];
        AppendTwoFrames(before, k, tree[k]);
        AppendAssoc(before, EntryBytes(tree, k), EntriesBytes(tree, keys[i + 1..]));
      }
    }

    /** Reads the length-prefixed field at `offset`: the field and the offset behind it. */
    static method TakeField(data: Bytes, offset: nat) returns (r: Option<(Bytes, nat)>)
      requires offset <= |data|
      ensures r.None? <==> ReadField(data[offset..]).None?
      ensures r.Some? ==> offset + 4 <= r.value.1 <= |data|
      ensures r.Some? ==> ReadField(data[offset..]) == Some((r.value.0, data[r.value.1..]))
    {
      if offset + 4 > |data| { return None; }
      SliceAt(data, offset, 0, 4);
      var len := U32FromLe(data[offset..offset + 4]);
      if offset + 4 + len > |data| { return None; }
      SliceAt(data, offset, 4, 4 + len);
      r := Some((data[offset + 4..offset + 4 + len], offset + 4 + len));
    }

    method Restore(data: Bytes) returns (r: Outcome<()>)
      modifies this
      ensures !r.Panicked?
      ensures (trees, r.Done?) == ParseTrees(data, old(trees))
    {
      var offset := 0;
      while offset < |data|
        invariant 0 <= offset <= |data|
        invariant ParseTrees(data, old(trees)) == ParseTrees(data[offset..], trees)
        decreases |data| - offset
      {
        if offset + 4 > |data| { break; }
        var next := RestoreTree(data, offset);
        if next.None? { return Failed; }
        offset := next.value;
      }
      r := Done(());
    }

    /** The body of the outer loop of `restore`: one tree, from `start` on. */
    method RestoreTree(data: Bytes, start: nat) returns (r: Option<nat>)
      requires start <= |data|
      modifies this
      ensures var parsed := ParseTree(data[start..], old(trees));
        trees == parsed.0 && (r.None? <==> parsed.1.None?)
        && (r.Some? ==> start < r.value <= |data| && parsed.1.value == data[r.value..])
    {
      var header := TakeHeader(data, start);
      match header {
        case None => return None;
        case Some(h) => r := RestoreEntries(data, h.2, h.1, h.0);
      }
    }

    /** Reads the name and the entry count of a tree: also the offset behind them. */
    static method TakeHeader(data: Bytes, start: nat) returns (r: Option<(TreeName, nat, nat)>)
      requires start <= |data|
      ensures r.None? <==> ReadHeader(data[start..]).None?
      ensures r.Some? ==> start < r.value.2 <= |data|
      ensures r.Some? ==> ReadHeader(data[start..]) == Some((r.value.0, r.value.1, data[r.value.2..]))
    {
      var name := TakeField(data, start);
      if name.None? { return None; }
      var found := TreeNamed(name.value.0);
      if found.None? { return None; }
      var offset := name.value.1;
      if offset + 4 > |data| { return None; }
      SliceAt(data, offset, 0, 4);
      r := Some((found.value, U32FromLe(data[offset..offset + 4]), offset + 4));
    }

    /** The inner loop of `restore`: `count` entries from `start` on, inserted one by one. */
    method RestoreEntries(data: Bytes, start: nat, count: nat, name: TreeName) returns (r: Option<nat>)
      requires start <= |data|
      modifies this
      ensures var parsed := ParseEntries(data[start..], count, Select(old(trees), name));
        trees == Replace(old(trees), name, parsed.0)
        && (r.None? <==> parsed.1.None?)
        && (r.Some? ==> start <= r.value <= |data| && parsed.1.value == data[r.value..])
    {
      var offset := start;
      for i := 0 to count
        invariant start <= offset <= |data|
        invariant trees == Replace(old(trees), name, Select(trees, name))
        invariant ParseEntries(data[start..], count, Select(old(trees), name))
               == ParseEntries(data[offset..], count - i, Select(trees, name))
      {
        var key := TakeField(data, offset);
        if key.None? { return None; }
        var value := TakeField(data, key.value.1);
        if value.None? { return None; }
        offset := value.value.1;
        trees := Replace(trees, name, Select(trees, name)[key.value.0 := value.value.0]);
      }
      r := Some(offset);
    }

    /** Removes the entries of `kv_rev` below the revision. */
    method Compact(revision: i64)
      modifies this
      ensures trees == old(trees).(kvRev := CompactedTree(old(trees).kvRev, revision))
    {
      var batch := CompactionBatch(trees.kvRev, revision);
      trees := trees.(kvRev := trees.kvRev - ElementsOf(batch));
    }

    /** Collects the keys to remove, stopping early. */
    static method CompactionBatch(tree: Tree, revision: i64) returns (batch: seq<Bytes>)
      ensures batch == Doomed(SortedKeys(tree.Keys), revision)
    {
      var keys := SortedKeys(tree.Keys);
      batch := [];
      var i := 0;
      while i < |keys|
        invariant 0 <= i <= |keys|
        invariant Doomed(keys, revision) == batch + Doomed(keys[i..], revision)
      {
        var k := keys[i];
        DoomedStep(keys, i, revision);
        if |k| >= 8 {
          if I64FromBe(k[..8]) < revision {
            BatchAssoc(batch, k, Doomed(keys[i + 1..], revision));
            batch := batch + [k];
          } else {
            break;
          }
        }
        i := i + 1;
      }
    }

    method ClearAll()
      modifies this
      ensures trees == EMPTY_TREES
    {
      trees := EMPTY_TREES;
    }
  }
}
