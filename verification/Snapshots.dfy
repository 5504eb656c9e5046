/** The snapshot format round-trips: restoring what `snapshot` wrote brings back every tree. */
module Snapshots {
  import opened ByteStrings
  import opened Backends

  /** The counts and lengths of the tree survive the casts to `u32`. */
  ghost predicate Fits(tree: Tree) {
    |tree| < TWO_32 && forall k :: k in tree ==> |k| < TWO_32 && |tree[k]| < TWO_32
  }

  lemma ReadFramed(b: Bytes, rest: Bytes)
    requires |b| < TWO_32
    ensures ReadField(Framed(b) + rest) == Some((b, rest))
  {
    U32LeRoundTrip(|b|);
    var data := Framed(b) + rest;
    assert data[..4] == U32Le(|b|);
    assert data[4..4 + |b|] == b;
    assert data[4 + |b|..] == rest;
  }

  /** `into` overwritten by the entries of `tree` at `keys`. */
  function Overlaid(into: Tree, tree: Tree, keys: seq<Bytes>): Tree
    requires forall k :: k in keys ==> k in tree
  {
    into + map k | k in keys :: tree[k]
  }

  lemma NoEntries(tree: Tree, keys: seq<Bytes>, rest: Bytes, into: Tree)
    requires keys == []
    ensures EntriesBytes(tree, keys) + rest == rest && Overlaid(into, tree, keys) == into
  {
  }

  /** The first entry of `keys` is read, and parsing goes on behind it. */
  lemma ParseEntry(tree: Tree, keys: seq<Bytes>, rest: Bytes, count: nat, into: Tree)
    requires Fits(tree) && (forall k :: k in keys ==> k in tree) && keys != [] && count > 0
    ensures ParseEntries(EntriesBytes(tree, keys) + rest, count, into)
      == ParseEntries(EntriesBytes(tree, keys[1..]) + rest, count - 1, into[keys[0] := tree[keys[0]]])
  {
    var k := keys[0];
    assert k in keys;
    var tail := EntriesBytes(tree, keys[1..]) + rest;
    AppendAssoc(EntryBytes(tree, k), EntriesBytes(tree, keys[1..]), rest);
    AppendAssoc(Framed(k), Framed(tree[k]), tail);
    ReadFramed(k, Framed(tree[k]) + tail);
    ReadFramed(tree[k], tail);
  }

  lemma {:induction false} ParseEntriesInverts(tree: Tree, keys: seq<Bytes>, rest: Bytes, into: Tree)
    requires Fits(tree) && forall k :: k in keys ==> k in tree
    ensures ParseEntries(EntriesBytes(tree, keys) + rest, |keys|, into) == (Overlaid(into, tree, keys), Some(rest))
  {
    if keys == [] {
      NoEntries(tree, keys, rest, into);
    } else {
      var next := into[keys[0] := tree[keys[0]]];
      ParseEntry(tree, keys, rest, |keys|, into);
      ParseEntriesInverts(tree, keys[1..], rest, next);
      OverlaidStep(into, tree, keys);
    }
  }

  lemma ParseTreesStep(data: Bytes, into: Trees, name: TreeName, body: Bytes, tree: Tree, rest: Bytes)
    requires ReadField(data) == Some((NameBytes(name), body)) && |body| >= 4
    requires ParseEntries(body[4..], U32FromLe(body[..4]), Select(into, name)) == (tree, Some(rest))
    ensures ParseTrees(data, into) == ParseTrees(rest, Replace(into, name, tree))
  {
    NameFound(name);
    assert ParseTree(data, into) == (Replace(into, name, tree), Some(rest));
  }

  lemma NameFound(name: TreeName)
    ensures TreeNamed(NameBytes(name)) == Some(name) && |NameBytes(name)| < TWO_32
  {
    NamesDistinct(TreeNamed(NameBytes(name)).value, name);
  }

  lemma TakeDrop(a: Bytes, b: Bytes)
    ensures (a + b)[..|a|] == a && (a + b)[|a|..] == b
  {
  }

  lemma OverlaidAll(into: Tree, tree: Tree, keys: seq<Bytes>)
    requires forall k :: k in keys <==> k in tree
    ensures Overlaid(into, tree, keys) == into + tree
  {
  }

  lemma OverlaidStep(into: Tree, tree: Tree, keys: seq<Bytes>)
    requires keys != [] && forall k :: k in keys ==> k in tree
    ensures Overlaid(into[keys[0] := tree[keys[0]]], tree, keys[1..]) == Overlaid(into, tree, keys)
  {
    assert keys == [keys[0]] + keys[1..];
    var one, all := Overlaid(into[keys[0] := tree[keys[0]]], tree, keys[1..]), Overlaid(into, tree, keys);
    forall k ensures k in one <==> k in all { }
    assert forall k :: k in all ==> one[k] == all[k];
  }

  lemma ParseBody(tree: Tree, rest: Bytes, into: Tree)
    requires Fits(tree)
    ensures var body := TreeBody(tree) + rest;
      |body| >= 4 && ParseEntries(body[4..], U32FromLe(body[..4]), into) == (into + tree, Some(rest))
  {
    var keys := SortedKeys(tree.Keys);
    var entries := EntriesBytes(tree, keys);
    var body := TreeBody(tree) + rest;
    AppendAssoc(U32Le(|tree|), entries, rest);
    TakeDrop(U32Le(|tree|), entries + rest);
    U32LeRoundTrip(|tree|);
    assert |keys| == |tree.Keys| == |tree|;
    ParseEntriesInverts(tree, keys, rest, into);
    OverlaidAll(into, tree, keys);
  }

  lemma ParseOneTree(name: TreeName, tree: Tree, rest: Bytes, into: Trees)
    requires Fits(tree)
    ensures ParseTrees(TreeBytes(NameBytes(name), tree) + rest, into)
         == ParseTrees(rest, Replace(into, name, Select(into, name) + tree))
  {
    var body := TreeBody(tree) + rest;
    AppendAssoc(Framed(NameBytes(name)), TreeBody(tree), rest);
    NameFound(name);
    ReadFramed(NameBytes(name), body);
    ParseBody(tree, rest, Select(into, name));
    ParseTreesStep(TreeBytes(NameBytes(name), tree) + rest, into, name, body, Select(into, name) + tree, rest);
  }

  /** The listed trees of `trees` written over those of `into`. */
  function Merged(into: Trees, trees: Trees, names: seq<TreeName>): Trees
    decreases names
  {
    if names == [] then into
    else Merged(Replace(into, names[0], Select(into, names[0]) + Select(trees, names[0])), trees, names[1..])
  }

  lemma {:induction false} ParseTreesInverts(trees: Trees, names: seq<TreeName>, into: Trees)
    requires forall n :: n in names ==> Fits(Select(trees, n))
    ensures ParseTrees(SnapshotBytes(trees, names), into) == (Merged(into, trees, names), true)
  {
    if names != [] {
      var name := names[0];
      assert name in names;
      ParseOneTree(name, Select(trees, name), SnapshotBytes(trees, names[1..]), into);
      ParseTreesInverts(trees, names[1..], Replace(into, name, Select(into, name) + Select(trees, name)));
    }
  }

  ghost predicate AllFit(trees: Trees) {
    Fits(trees.kv) && Fits(trees.kvRev) && Fits(trees.index) && Fits(trees.meta) && Fits(trees.lease)
      && Fits(trees.auth)
  }

  lemma SelectReplace(t: Trees, n: TreeName, tree: Tree, m: TreeName)
    ensures Select(Replace(t, n, tree), m) == if m == n then tree else Select(t, m)
  {
  }

  lemma OverTwice(a: Tree, b: Tree)
    ensures a + b + b == a + b
  {
  }

  lemma {:induction false} MergedSelect(into: Trees, trees: Trees, names: seq<TreeName>, n: TreeName)
    ensures Select(Merged(into, trees, names), n) ==
      if n in names then Select(into, n) + Select(trees, n) else Select(into, n)
    decreases names
  {
    if names != [] {
      var m := names[0];
      var tree := Select(into, m) + Select(trees, m);
      MergedSelect(Replace(into, m, tree), trees, names[1..], n);
      SelectReplace(into, m, tree, n);
      OverTwice(Select(into, n), Select(trees, n));
      assert n in names <==> n == m || n in names[1..];
    }
  }

  lemma FitsEach(trees: Trees, n: TreeName)
    requires AllFit(trees)
    ensures Fits(Select(trees, n))
  {
  }

  lemma ParsedSelect(trees: Trees, into: Trees, names: seq<TreeName>, n: TreeName)
    requires AllFit(trees) && n in names
    ensures ParseTrees(SnapshotBytes(trees, names), into).1
    ensures Select(ParseTrees(SnapshotBytes(trees, names), into).0, n) == Select(into, n) + Select(trees, n)
  {
    forall m | m in names ensures Fits(Select(trees, m)) { FitsEach(trees, m); }
    ParseTreesInverts(trees, names, into);
    MergedSelect(into, trees, names, n);
  }

  /** `restore(snapshot(trees))` succeeds and writes every snapshot tree over its namesake. */
  lemma RestoreMergesSnapshot(trees: Trees, into: Trees, n: TreeName)
    requires AllFit(trees)
    ensures ParseTrees(SnapshotBytes(trees, NAMES), into).1
    ensures Select(ParseTrees(SnapshotBytes(trees, NAMES), into).0, n) == Select(into, n) + Select(trees, n)
  {
    AllNamed(n);
    ParsedSelect(trees, into, NAMES, n);
  }

  lemma AllNamed(n: TreeName)
    ensures n in NAMES
  {
    assert NAMES[0] == KvTree && NAMES[1] == KvRevTree && NAMES[2] == IndexTree;
    assert NAMES[3] == MetaTree && NAMES[4] == LeaseTree && NAMES[5] == AuthTree;
  }

  /** On an empty backend it rebuilds all six trees exactly. */
  lemma RestoreInvertsSnapshot(trees: Trees)
    requires AllFit(trees)
    ensures ParseTrees(SnapshotBytes(trees, NAMES), EMPTY_TREES) == (trees, true)
  {
    var restored := ParseTrees(SnapshotBytes(trees, NAMES), EMPTY_TREES).0;
    forall n ensures Select(restored, n) == Select(trees, n) {
      RestoreMergesSnapshot(trees, EMPTY_TREES, n);
      OverEmpty(Select(trees, n));
    }
    RestoreMergesSnapshot(trees, EMPTY_TREES, KvTree);
    SameTrees(restored, trees);
  }

  lemma SameTrees(a: Trees, b: Trees)
    requires forall n :: Select(a, n) == Select(b, n)
    ensures a == b
  {
    assert Select(a, KvTree) == Select(b, KvTree) && Select(a, KvRevTree) == Select(b, KvRevTree);
    assert Select(a, IndexTree) == Select(b, IndexTree) && Select(a, MetaTree) == Select(b, MetaTree);
    assert Select(a, LeaseTree) == Select(b, LeaseTree) && Select(a, AuthTree) == Select(b, AuthTree);
  }

  lemma OverEmpty(tree: Tree)
    ensures map[] + tree == tree
  {
  }

  // ---------------------------------------------------------------- malformed data

  lemma {:induction false} ParseEntriesCut(tree: Tree, keys: seq<Bytes>, rest: Bytes, count: nat, into: Tree)
    requires Fits(tree) && (forall k :: k in keys ==> k in tree) && |keys| < count && ReadField(rest) == None
    ensures ParseEntries(EntriesBytes(tree, keys) + rest, count, into) == (Overlaid(into, tree, keys), None)
  {
    if keys == [] {
      NoEntries(tree, keys, rest, into);
    } else {
      var next := into[keys[0] := tree[keys[0]]];
      ParseEntry(tree, keys, rest, count, into);
      ParseEntriesCut(tree, keys[1..], rest, count - 1, next);
      OverlaidStep(into, tree, keys);
    }
  }

  /** A snapshot that breaks off among the entries of a tree is refused, but the entries before the break
      have been written; so has everything before that tree. */
  lemma CutSnapshot(name: TreeName, tree: Tree, keys: seq<Bytes>, rest: Bytes, count: nat, into: Trees)
    requires Fits(tree) && (forall k :: k in keys ==> k in tree) && |keys| < count < TWO_32 && ReadField(rest) == None
    ensures ParseTrees(Framed(NameBytes(name)) + (U32Le(count) + (EntriesBytes(tree, keys) + rest)), into)
      == (Replace(into, name, Overlaid(Select(into, name), tree, keys)), false)
  {
    var entries := EntriesBytes(tree, keys) + rest;
    var body := U32Le(count) + entries;
    NameFound(name);
    ReadFramed(NameBytes(name), body);
    TakeDrop(U32Le(count), entries);
    U32LeRoundTrip(count);
    ParseEntriesCut(tree, keys, rest, count, Select(into, name));
    assert ReadHeader(Framed(NameBytes(name)) + body) == Some((name, count, entries));
  }

  /** A tree of a name that is none of the six is refused and changes nothing. */
  lemma UnknownTreeRefused(name: Bytes, rest: Bytes, into: Trees)
    requires |name| < TWO_32 && forall n :: NameBytes(n) != name
    ensures ParseTrees(Framed(name) + rest, into) == (into, false)
  {
    ReadFramed(name, rest);
  }

  // ---------------------------------------------------------------- the layout

  function Ascii(s: string): Bytes
    requires forall i :: 0 <= i < |s| ==> s[i] < 128 as char
  {
    seq(|s|, i requires 0 <= i < |s| => s[i] as int)
  }

  lemma NamesSpelled()
    ensures NameBytes(KvTree) == Ascii("kv") && NameBytes(KvRevTree) == Ascii("kv_rev")
    ensures NameBytes(IndexTree) == Ascii("index") && NameBytes(MetaTree) == Ascii("meta")
    ensures NameBytes(LeaseTree) == Ascii("lease") && NameBytes(AuthTree) == Ascii("auth")
  {
  }

  /** One section per tree, in the order in which the trees are listed: the length of its name and the
      name, the number of its entries, the entries. */
  lemma SnapshotLayout(t: Trees)
    ensures SnapshotBytes(t, NAMES) ==
      TreeBytes(Ascii("kv"), t.kv) + (TreeBytes(Ascii("kv_rev"), t.kvRev) + (TreeBytes(Ascii("index"), t.index)
      + (TreeBytes(Ascii("meta"), t.meta) + (TreeBytes(Ascii("lease"), t.lease) + TreeBytes(Ascii("auth"), t.auth)))))
  {
    NamesSpelled();
    var auth: seq<TreeName> := [AuthTree];
    var lease := [LeaseTree] + auth;
    var meta := [MetaTree] + lease;
    var index := [IndexTree] + meta;
    var rev := [KvRevTree] + index;
    assert NAMES == [KvTree] + rev && auth == [AuthTree] + [];
    SnapshotStep(t, AuthTree, []);
    SnapshotStep(t, LeaseTree, auth);
    SnapshotStep(t, MetaTree, lease);
    SnapshotStep(t, IndexTree, meta);
    SnapshotStep(t, KvRevTree, index);
    SnapshotStep(t, KvTree, rev);
    assert TreeBytes(Ascii("auth"), t.auth) + [] == TreeBytes(Ascii("auth"), t.auth);
  }

  lemma SnapshotStep(t: Trees, name: TreeName, names: seq<TreeName>)
    ensures SnapshotBytes(t, [name] + names) == TreeBytes(NameBytes(name), Select(t, name)) + SnapshotBytes(t, names)
  {
    assert ([name] + names)[1..] == names;
  }
}
