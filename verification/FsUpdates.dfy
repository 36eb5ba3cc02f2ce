/** Creating and removing nodes keeps the tree, and keeps every rendered path (src/kernel/fs.c:272-289, 382-408). */
module FsUpdates {
  import opened Paths
  import opened FsTree

  /** `fs_alloc_node`: the first free slot from `i` on, or -1. */
  function FreeFrom(ns: seq<Node>, i: nat): (r: int)
    requires i <= |ns|
    ensures r == -1 || (i <= r < |ns| && !ns[r].used)
    ensures r == -1 ==> forall j :: i <= j < |ns| ==> ns[j].used
    ensures r >= 0 ==> forall j :: i <= j < r ==> ns[j].used
    decreases |ns| - i
  {
    if i == |ns| then -1 else if !ns[i].used then i else FreeFrom(ns, i + 1)
  }

  /** Does any used node name `id` as its parent? */
  ghost predicate HasChild(ns: seq<Node>, id: int)
  {
    exists i :: 1 <= i < |ns| && ns[i].used && ns[i].parent == id
  }

  ghost predicate SameLinks(a: Node, b: Node)
  {
    a.used == b.used && a.parent == b.parent && a.isDir == b.isDir && a.name == b.name
  }

  /** Outside slot `x` the links are as before. */
  ghost predicate SameElsewhere(ns: seq<Node>, ns': seq<Node>, x: int)
  {
    |ns| == |ns'| && forall j :: 0 <= j < |ns| && j != x ==> SameLinks(ns[j], ns'[j])
  }

  /** A chain of parents that avoids slot `x` reads the same after a change confined to `x`. */
  lemma {:induction false} ChainKept(ns: seq<Node>, ns': seq<Node>, x: int, i: int, fuel: nat)
    requires Tree(ns) && SameElsewhere(ns, ns', x) && !HasChild(ns, x) && x != 0 && x != i && IsNode(ns, i)
    ensures ChainNames(ns', i, fuel) == ChainNames(ns, i, fuel)
    decreases fuel
  {
    assert Placed(ns, i);
    if i > 0 && fuel > 0 {
      assert SameLinks(ns[i], ns'[i]);
      ChainKept(ns, ns', x, ns[i].parent, fuel - 1);
    }
  }

  lemma RenderKept(ns: seq<Node>, ns': seq<Node>, x: int, i: int)
    requires Tree(ns) && SameElsewhere(ns, ns', x) && !HasChild(ns, x) && x != 0 && x != i && IsNode(ns, i)
    ensures Render(ns', i) == Render(ns, i)
  {
    ChainKept(ns, ns', x, i, FS_MAX_NODES);
  }

  /** Free slots have no children. */
  lemma FreeIsChildless(ns: seq<Node>, id: int)
    requires Tree(ns) && 1 <= id < |ns| && !ns[id].used
    ensures !HasChild(ns, id)
  {
    forall i | 1 <= i < |ns| && ns[i].used ensures ns[i].parent != id {
      assert Placed(ns, i);
    }
  }

  lemma CreateKeepsTree(ns: seq<Node>, id: nat, node: Node)
    requires Tree(ns) && 1 <= id < |ns| && !ns[id].used
    requires node.used && IsNode(ns, node.parent) && ns[node.parent].isDir
    requires ValidName(node.name) && |node.name| < FS_MAX_NAME && FindChild(ns, node.parent, node.name) == -1
    ensures Tree(ns[id := node])
  {
    var ns' := ns[id := node];
    var depth :| Ranked(ns, depth);
    var depth' := depth[id := depth[node.parent] + 1];
    FreeIsChildless(ns, id);
    forall i | 0 <= i < |ns| ensures Placed(ns', i) && RankedAt(ns', depth', i) {
      assert Placed(ns, i) && RankedAt(ns, depth, i);
    }
    assert Ranked(ns', depth');
    forall i, j | 1 <= i < j < |ns| ensures !SameChild(ns', i, j) {
      assert !SameChild(ns, i, j);
    }
  }

  lemma RemoveKeepsTree(ns: seq<Node>, id: nat, node: Node)
    requires Tree(ns) && 1 <= id < |ns| && !node.used && !HasChild(ns, id)
    ensures Tree(ns[id := node])
  {
    var ns' := ns[id := node];
    var depth :| Ranked(ns, depth);
    forall i | 0 <= i < |ns| ensures Placed(ns', i) && RankedAt(ns', depth, i) {
      assert Placed(ns, i) && RankedAt(ns, depth, i);
    }
    assert Ranked(ns', depth);
    forall i, j | 1 <= i < j < |ns| ensures !SameChild(ns', i, j) {
      assert !SameChild(ns, i, j);
    }
  }

  /** Changing the data of a node does not touch the tree. */
  lemma LinksKeepTree(ns: seq<Node>, ns': seq<Node>)
    requires Tree(ns) && |ns| == |ns'| && forall j :: 0 <= j < |ns| ==> SameLinks(ns[j], ns'[j])
    ensures Tree(ns')
  {
    var depth :| Ranked(ns, depth);
    forall i | 0 <= i < |ns| ensures Placed(ns', i) && RankedAt(ns', depth, i) {
      assert Placed(ns, i) && RankedAt(ns, depth, i) && SameLinks(ns[i], ns'[i]);
      if 0 < i && ns[i].used { assert SameLinks(ns[ns[i].parent], ns'[ns[i].parent]); }
    }
    assert Ranked(ns', depth);
    forall i, j | 1 <= i < j < |ns| ensures !SameChild(ns', i, j) {
      assert !SameChild(ns, i, j) && SameLinks(ns[i], ns'[i]) && SameLinks(ns[j], ns'[j]);
    }
  }

  lemma {:induction false} LinksKeepChain(ns: seq<Node>, ns': seq<Node>, i: int, fuel: nat)
    requires |ns| == |ns'| && forall j :: 0 <= j < |ns| ==> SameLinks(ns[j], ns'[j])
    ensures ChainNames(ns', i, fuel) == ChainNames(ns, i, fuel)
    decreases fuel
  {
    if 0 < i < |ns| && fuel > 0 {
      assert SameLinks(ns[i], ns'[i]);
      LinksKeepChain(ns, ns', ns[i].parent, fuel - 1);
    }
  }
}
