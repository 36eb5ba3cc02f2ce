/**
 The node tree of the filesystem (src/kernel/fs.c:98-234, 272-289): a fixed array of slots linked by parent
 numbers, the two path parsers that walk it, and the rendering of a directory as a path.
 */
module FsTree {
  import opened Paths

  const FS_MAX_NODES: nat := 128
  const FS_OK := 0
  const FS_ERR_NOT_FOUND := -1
  const FS_ERR_EXISTS := -2
  const FS_ERR_NOT_DIR := -3
  const FS_ERR_NOT_FILE := -4
  const FS_ERR_NOT_TXT := -5
  const FS_ERR_NO_SPACE := -6
  const FS_ERR_INVALID := -7
  const FS_ERR_FULL := -8
  const FS_ERR_NOT_EMPTY := -9

  /** One slot; `data` is the address of a `kmalloc` buffer, 0 when there is none. */
  datatype Node = Node(used: bool, parent: int, isDir: bool, name: string, data: nat, size: nat, cap: nat)

  // ---------- the tree invariant ----------

  /** Node `i`, if used, hangs below a used directory under a valid name. */
  ghost predicate Placed(ns: seq<Node>, i: nat)
    requires i < |ns|
  {
    if i == 0 then ns[0].used && ns[0].isDir && ns[0].parent == -1
    else ns[i].used ==>
      && 0 <= ns[i].parent < |ns| && ns[ns[i].parent].used && ns[ns[i].parent].isDir
      && ValidName(ns[i].name) && |ns[i].name| < FS_MAX_NAME
  }

  ghost predicate SameChild(ns: seq<Node>, i: nat, j: nat)
    requires i < |ns| && j < |ns|
  {
    ns[i].used && ns[j].used && ns[i].parent == ns[j].parent && ns[i].name == ns[j].name
  }

  /** `depth` counts the steps to the root, so parent links cannot form a cycle. */
  ghost predicate RankedAt(ns: seq<Node>, depth: seq<nat>, i: nat)
    requires i < |ns| == |depth|
  {
    if i == 0 then depth[0] == 0
    else ns[i].used ==> 0 <= ns[i].parent < |ns| && depth[i] == depth[ns[i].parent] + 1
  }

  ghost predicate Ranked(ns: seq<Node>, depth: seq<nat>)
  {
    |depth| == |ns| && forall i :: 0 <= i < |ns| ==> RankedAt(ns, depth, i)
  }

  ghost predicate Tree(ns: seq<Node>)
  {
    && |ns| == FS_MAX_NODES
    && (forall i :: 0 <= i < |ns| ==> Placed(ns, i))
    && (forall i, j :: 1 <= i < j < |ns| ==> !SameChild(ns, i, j))
    && exists depth :: Ranked(ns, depth)
  }

  ghost predicate IsNode(ns: seq<Node>, i: int) { 0 <= i < |ns| && ns[i].used }

  // ---------- looking up one name ----------

  /** `fs_find_child`: the first slot from `i` on that is that child, or -1. */
  function FindFrom(ns: seq<Node>, parent: int, name: string, i: nat): (r: int)
    requires i <= |ns|
    ensures r == -1 || i <= r < |ns|
    ensures r >= 0 ==> ns[r].used && ns[r].parent == parent && ns[r].name == name
    ensures r == -1 ==> forall j :: i <= j < |ns| ==> !(ns[j].used && ns[j].parent == parent && ns[j].name == name)
    ensures r >= 0 ==> forall j :: i <= j < r ==> !(ns[j].used && ns[j].parent == parent && ns[j].name == name)
    decreases |ns| - i
  {
    if i == |ns| then -1
    else if ns[i].used && ns[i].parent == parent && ns[i].name == name then i
    else FindFrom(ns, parent, name, i + 1)
  }

  function FindChild(ns: seq<Node>, parent: int, name: string): int
    requires |ns| == FS_MAX_NODES
  {
    FindFrom(ns, parent, name, 1)
  }

  /** Sibling names are unique, so a lookup by a node's own parent and name finds that node. */
  lemma FindsItself(ns: seq<Node>, i: nat)
    requires Tree(ns) && 1 <= i < |ns| && ns[i].used
    ensures FindChild(ns, ns[i].parent, ns[i].name) == i
  {
    var r := FindChild(ns, ns[i].parent, ns[i].name);
    assert 1 <= r < i ==> !SameChild(ns, r, i);
  }

  // ---------- fs_resolve ----------

  /** The node reached from `cur` along a list of components, or an error. */
  function Walk(ns: seq<Node>, cur: int, comps: seq<string>): (r: int)
    requires Tree(ns) && IsNode(ns, cur)
    ensures r < 0 || IsNode(ns, r)
    decreases |comps|
  {
    if comps == [] then cur
    else
      var c, rest := comps[0], comps[1..];
      if |c| >= FS_MAX_NAME then FS_ERR_INVALID
      else if c == "." then Walk(ns, cur, rest)
      else if c == ".." then
        assert Placed(ns, cur);
        Walk(ns, if cur == 0 then 0 else ns[cur].parent, rest)
      else
        var child := FindChild(ns, cur, c);
        if child < 0 then FS_ERR_NOT_FOUND else Walk(ns, child, rest)
  }

  function Resolve(ns: seq<Node>, start: int, path: string, wantDir: bool): (r: int)
    requires Tree(ns) && IsNode(ns, start)
    ensures r < 0 || IsNode(ns, r)
    ensures r >= 0 && wantDir ==> ns[r].isDir
  {
    if path == "" then FS_ERR_INVALID
    else
      assert Placed(ns, 0);
      var r := Walk(ns, if path[0] == '/' then 0 else start, Components(path));
      if r >= 0 && wantDir && !ns[r].isDir then FS_ERR_NOT_DIR else r
  }

  lemma {:induction false} WalkAppend(ns: seq<Node>, cur: int, a: seq<string>, b: seq<string>)
    requires Tree(ns) && IsNode(ns, cur)
    ensures Walk(ns, cur, a + b) == var r := Walk(ns, cur, a); if r < 0 then r else Walk(ns, r, b)
    decreases |a|
  {
    if a == [] {
      assert a + b == b;
    } else {
      assert (a + b)[0] == a[0] && (a + b)[1..] == a[1..] + b;
      var c := a[0];
      if |c| < FS_MAX_NAME {
        if c == "." {
          WalkAppend(ns, cur, a[1..], b);
        } else if c == ".." {
          assert Placed(ns, cur);
          WalkAppend(ns, if cur == 0 then 0 else ns[cur].parent, a[1..], b);
        } else {
          var child := FindChild(ns, cur, c);
          if child >= 0 { WalkAppend(ns, child, a[1..], b); }
        }
      }
    }
  }

  // ---------- fs_resolve_parent ----------

  datatype Located = Failed(error: int) | At(parent: int, name: string)

  function ResolveParent(ns: seq<Node>, cwd: int, path: string): (r: Located)
    requires Tree(ns) && IsNode(ns, cwd)
    ensures r.At? ==> IsNode(ns, r.parent) && |r.name| < FS_MAX_NAME
  {
    if |path| >= FS_MAX_PATH then Failed(FS_ERR_INVALID)
    else
      var k := AfterSlash(path, |path|);
      if k == 0 then At(cwd, Truncate(path, FS_MAX_NAME))
      else
        assert Placed(ns, 0);
        var parentPath := if k == 1 then "/" else path[..k - 1];
        var parent := Resolve(ns, if path[0] == '/' then 0 else cwd, parentPath, true);
        if parent < 0 then Failed(parent) else At(parent, Truncate(path[k..], FS_MAX_NAME))
  }

  /** A file has no children. */
  lemma FilesAreLeaves(ns: seq<Node>, f: int, name: string)
    requires Tree(ns) && IsNode(ns, f) && !ns[f].isDir
    ensures FindChild(ns, f, name) == -1
  {
    var r := FindChild(ns, f, name);
    assert r >= 0 ==> Placed(ns, r);
  }

  /** The components before the last part. */
  function ParentParts(path: string): seq<string>
  {
    var k := AfterSlash(path, |path|);
    if k == 0 then [] else Components(path[..k - 1])
  }

  lemma ParentOf(ns: seq<Node>, cwd: int, path: string)
    requires Tree(ns) && IsNode(ns, cwd) && |path| < FS_MAX_PATH && LastPart(path) != ""
    ensures path != "" && IsNode(ns, 0)
    ensures var p := Walk(ns, if path[0] == '/' then 0 else cwd, ParentParts(path));
      var name := Truncate(LastPart(path), FS_MAX_NAME);
      ResolveParent(ns, cwd, path) ==
      if p < 0 then Failed(p) else if AfterSlash(path, |path|) > 0 && !ns[p].isDir then Failed(FS_ERR_NOT_DIR)
      else At(p, name)
  {
    assert Placed(ns, 0);
    var k := AfterSlash(path, |path|);
    if k == 0 {
      assert path[0..] == path;
    } else if k == 1 {
      assert path[..0] == "" && "/"[1..] == "";
      assert Components("/") == Components("");
    }
  }

  /** The two parsers agree: for every path below the length limit whose last part is an ordinary name of at most 47
      characters, resolving the path finds a node exactly when resolving its parent and looking up the last part
      does, and it is the same node. */
  lemma ParsersAgree(ns: seq<Node>, cwd: int, path: string, id: nat)
    requires Tree(ns) && IsNode(ns, cwd) && ns[cwd].isDir && |path| < FS_MAX_PATH
    requires var last := LastPart(path); last != "" && last != "." && last != ".." && |last| < FS_MAX_NAME
    ensures Resolve(ns, cwd, path, false) == id <==>
      ResolveParent(ns, cwd, path).At? &&
      FindChild(ns, ResolveParent(ns, cwd, path).parent, ResolveParent(ns, cwd, path).name) == id
  {
    var last, start := LastPart(path), if path[0] == '/' then 0 else cwd;
    ParentOf(ns, cwd, path);
    ResolveByParent(ns, start, path, last);
    var p := Walk(ns, start, ParentParts(path));
    if p >= 0 && AfterSlash(path, |path|) > 0 && !ns[p].isDir { FilesAreLeaves(ns, p, last); }
  }

  /** The walk along a path is the walk to its parent, then a lookup of the last part. */
  lemma ResolveByParent(ns: seq<Node>, start: int, path: string, last: string)
    requires Tree(ns) && IsNode(ns, start) && last == LastPart(path)
    requires last != "" && last != "." && last != ".." && |last| < FS_MAX_NAME
    ensures var p := Walk(ns, start, ParentParts(path));
      Walk(ns, start, Components(path)) ==
      if p < 0 then p else if FindChild(ns, p, last) < 0 then FS_ERR_NOT_FOUND else FindChild(ns, p, last)
  {
    PartsOfPath(path);
    WalkAppend(ns, start, ParentParts(path), [last]);
    assert [last][1..] == [];
  }

  /** Outside that range the parsers do differ: a last part that is empty, `.` or `..` is never found by name. */
  lemma SpecialNamesAreNeverChildren(ns: seq<Node>, p: int, name: string)
    requires Tree(ns) && IsNode(ns, p) && (name == "" || name == "." || name == "..")
    ensures FindChild(ns, p, name) == -1
  {
    var r := FindChild(ns, p, name);
    assert r >= 0 ==> Placed(ns, r);
  }

  // ---------- fs_rebuild_cwd_path ----------

  /** The names from the root down to `i`, following at most `fuel` parent links. */
  function ChainNames(ns: seq<Node>, i: int, fuel: nat): seq<string>
    decreases fuel
  {
    if i <= 0 || i >= |ns| || fuel == 0 then [] else ChainNames(ns, ns[i].parent, fuel - 1) + [ns[i].name]
  }

  /** The append loop, stopping at the first name that does not fit. */
  function RenderFrom(acc: string, names: seq<string>): string
    decreases |names|
  {
    if names == [] then acc
    else
      var acc1 := if acc != "" && acc[|acc| - 1] != '/' && |acc| < 255 then acc + "/" else acc;
      if |acc1| + |names[0]| >= 255 then acc1 else RenderFrom(acc1 + names[0], names[1..])
  }

  /** `fs_rebuild_cwd_path` for directory `i`, with a stack of `fuel` entries. */
  function RenderWith(ns: seq<Node>, i: int, fuel: nat): string
  {
    if i == 0 then "/"
    else
      var r := RenderFrom("", ChainNames(ns, i, fuel));
      if r == "" then "/" else r
  }

  function Render(ns: seq<Node>, i: int): string { RenderWith(ns, i, FS_MAX_NODES) }

  // ---------- depth ----------

  /** The nodes from the root to `i`: all distinct. */
  lemma {:induction false} Ancestors(ns: seq<Node>, depth: seq<nat>, i: nat) returns (S: set<nat>)
    requires Tree(ns) && Ranked(ns, depth) && IsNode(ns, i)
    ensures |S| == depth[i] + 1
    ensures forall x :: x in S ==> x < FS_MAX_NODES && depth[x] <= depth[i]
    decreases depth[i]
  {
    assert RankedAt(ns, depth, i) && Placed(ns, i);
    if i == 0 {
      S := {0};
    } else {
      var T := Ancestors(ns, depth, ns[i].parent);
      S := T + {i};
    }
  }

  lemma {:induction false} SmallNumbers(S: set<nat>, n: nat)
    requires forall x :: x in S ==> x < n
    ensures |S| <= n
  {
    if n > 0 {
      SmallNumbers(S - {n - 1}, n - 1);
    }
  }

  /** No chain of parents is longer than 127 links, so the 128-entry stack always holds it. */
  lemma DepthBound(ns: seq<Node>, depth: seq<nat>, i: nat)
    requires Tree(ns) && Ranked(ns, depth) && IsNode(ns, i)
    ensures depth[i] <= 127
  {
    var S := Ancestors(ns, depth, i);
    SmallNumbers(S, FS_MAX_NODES);
  }

  /** With enough fuel the chain is complete: its length is the depth, and it leads back down to `i`. */
  lemma {:induction false} ChainLeadsBack(ns: seq<Node>, depth: seq<nat>, i: nat, fuel: nat)
    requires Tree(ns) && Ranked(ns, depth) && IsNode(ns, i) && depth[i] <= fuel
    ensures var names := ChainNames(ns, i, fuel);
      |names| == depth[i] && Paths.Names(names) && IsNode(ns, 0)
      && (forall k :: 0 <= k < |names| ==> |names[k]| < FS_MAX_NAME) && Walk(ns, 0, names) == i
    decreases depth[i]
  {
    assert RankedAt(ns, depth, i) && Placed(ns, i) && Placed(ns, 0) && RankedAt(ns, depth, 0);
    if i > 0 {
      var p, name := ns[i].parent, ns[i].name;
      ChainLeadsBack(ns, depth, p, fuel - 1);
      var names := ChainNames(ns, p, fuel - 1);
      WalkAppend(ns, 0, names, [name]);
      FindsItself(ns, i);
      assert [name][1..] == [];
    }
  }

  /** A prefix of the chain leads to a node at that depth. */
  lemma {:induction false} PrefixLeadsToAncestor(ns: seq<Node>, depth: seq<nat>, i: nat, fuel: nat, k: nat)
    returns (a: nat)
    requires Tree(ns) && Ranked(ns, depth) && IsNode(ns, i) && k <= depth[i] <= fuel
    ensures |ChainNames(ns, i, fuel)| == depth[i] && IsNode(ns, 0)
    ensures Walk(ns, 0, ChainNames(ns, i, fuel)[..k]) == a && IsNode(ns, a) && depth[a] == k
    decreases depth[i]
  {
    ChainLeadsBack(ns, depth, i, fuel);
    var names := ChainNames(ns, i, fuel);
    if k == depth[i] {
      a := i;
      assert names[..k] == names;
    } else {
      assert RankedAt(ns, depth, i) && Placed(ns, i) && RankedAt(ns, depth, 0);
      a := PrefixLeadsToAncestor(ns, depth, ns[i].parent, fuel - 1, k);
      assert names[..k] == ChainNames(ns, ns[i].parent, fuel - 1)[..k];
    }
  }

  // ---------- rendering and resolving ----------

  /** One turn of the append loop, on a path rendered so far without cuts. */
  lemma {:induction false} RenderStep(pre: seq<string>, names: seq<string>)
    requires Paths.Names(pre) && |Join(pre)| <= 254 && names != []
    requires pre == [] ==> |names[0]| < 255
    ensures RenderFrom(Join(pre), names) ==
            if |Join(pre + [names[0]])| <= 254 then RenderFrom(Join(pre + [names[0]]), names[1..])
            else Join(pre) + "/"
    ensures |Join(pre + [names[0]])| > 254 ==> pre != []
  {
    JoinAppend(pre, names[0]);
    if pre == [] {
      assert Join(pre) + names[0] == names[0];
    } else {
      JoinNotEmpty(pre);
    }
  }

  /** `k` of the names were rendered: all of them when the joined path has at most 254 characters, and otherwise a
      shorter prefix, with a slash. */
  ghost predicate Rendered(pre: seq<string>, names: seq<string>, k: nat)
  {
    && k <= |names|
    && (|Join(pre + names)| <= 254 <==> k == |names|)
    && (k < |names| ==> pre + names[..k] != [])
    && RenderFrom(Join(pre), names) == if k < |names| then Join(pre + names[..k]) + "/" else Join(pre + names)
  }

  lemma {:induction false} RenderJoins(pre: seq<string>, names: seq<string>) returns (k: nat)
    requires Paths.Names(pre) && Paths.Names(names) && |Join(pre)| <= 254
    requires pre == [] && names != [] ==> |names[0]| < 255
    ensures Rendered(pre, names, k)
    decreases |names|
  {
    k := 0;
    if names == [] {
      assert pre + names == pre;
    } else {
      var pre', rest := pre + [names[0]], names[1..];
      RenderStep(pre, names);
      if |Join(pre')| <= 254 {
        assert forall i :: 0 <= i < |rest| ==> rest[i] == names[i + 1];
        var j := RenderJoins(pre', rest);
        k := j + 1;
        RenderedMore(pre, names, pre', rest, j);
      } else {
        RenderedNoMore(pre, names, pre', rest);
      }
    }
  }

  lemma RenderedMore(pre: seq<string>, names: seq<string>, pre': seq<string>, rest: seq<string>, j: nat)
    requires names != [] && pre' == pre + [names[0]] && rest == names[1..] && Rendered(pre', rest, j)
    requires RenderFrom(Join(pre), names) == RenderFrom(Join(pre'), rest)
    ensures Rendered(pre, names, j + 1)
  {
    FirstMoved(pre, names, j);
  }

  lemma FirstMoved(pre: seq<string>, names: seq<string>, j: nat)
    requires j < |names|
    ensures (pre + [names[0]]) + names[1..] == pre + names
    ensures (pre + [names[0]]) + names[1..][..j] == pre + names[..j + 1]
  {}

  lemma RenderedNoMore(pre: seq<string>, names: seq<string>, pre': seq<string>, rest: seq<string>)
    requires names != [] && pre' == pre + [names[0]] && rest == names[1..] && |Join(pre')| > 254 && pre != []
    requires RenderFrom(Join(pre), names) == Join(pre) + "/"
    ensures Rendered(pre, names, 0)
  {
    assert pre' + rest == pre + names;
    assert pre + names[..0] == pre;
    JoinGrows(pre', rest);
  }

  lemma {:induction false} JoinGrows(a: seq<string>, b: seq<string>)
    requires a != []
    ensures |Join(a + b)| >= |Join(a)|
    decreases |b|
  {
    if b == [] {
      assert a + b == a;
    } else {
      var n := |b| - 1;
      JoinGrows(a, b[..n]);
      assert a + b == (a + b[..n]) + [b[n]];
      JoinAppend(a + b[..n], b[n]);
    }
  }

  /** The path of directory `i`, if nothing were cut off. */
  function FullPath(ns: seq<Node>, i: int): string { Join(ChainNames(ns, i, FS_MAX_NODES)) }

  lemma {:induction false} RenderedPrefix(names: seq<string>) returns (k: nat)
    requires Paths.Names(names) && names != [] && |names[0]| < 255
    ensures 0 < k <= |names| && (k == |names| <==> |Join(names)| <= 254)
    ensures var path := RenderFrom("", names);
      path != "" && (path == Join(names[..k]) || path == Join(names[..k]) + "/")
  {
    var empty: seq<string> := [];
    assert empty + names == names && Join(empty) == "";
    k := RenderJoins(empty, names);
    var shown := names[..k];
    assert empty + shown == shown && names[..|names|] == names;
    assert forall j :: 0 <= j < k ==> shown[j] == names[j];
    JoinNotEmpty(shown);
  }

  /** The rendering of the first `k` names, cut off or not, resolves to the ancestor they lead to. */
  lemma PrefixResolves(ns: seq<Node>, names: seq<string>, k: nat, path: string)
    requires Tree(ns) && IsNode(ns, 0) && Paths.Names(names) && 0 < k <= |names|
    requires path == Join(names[..k]) || path == Join(names[..k]) + "/"
    ensures Resolve(ns, 0, path, false) == Walk(ns, 0, names[..k])
  {
    var shown := names[..k];
    assert forall j :: 0 <= j < k ==> shown[j] == names[j];
    SplitJoin(shown);
    JoinNotEmpty(shown);
  }

  /** Round trip: the rendered path of a node resolves, from the root, to that node exactly when the joined path has
      at most 254 characters. */
  lemma RenderedPathResolves(ns: seq<Node>, i: nat)
    requires Tree(ns) && IsNode(ns, i)
    ensures IsNode(ns, 0)
    ensures Resolve(ns, 0, Render(ns, i), false) == i <==> |FullPath(ns, i)| <= 254
  {
    var depth :| Ranked(ns, depth);
    assert Placed(ns, 0) && RankedAt(ns, depth, 0) && RankedAt(ns, depth, i);
    DepthBound(ns, depth, i);
    if i == 0 {
      assert "/"[1..] == "";
      assert Components("/") == Components("");
    } else {
      NodePathResolves(ns, depth, i, FS_MAX_NODES, ChainNames(ns, i, FS_MAX_NODES), Render(ns, i));
    }
  }

  lemma NodePathResolves(ns: seq<Node>, depth: seq<nat>, i: nat, fuel: nat, names: seq<string>, path: string)
    requires Tree(ns) && Ranked(ns, depth) && IsNode(ns, i) && 0 < i && 0 < depth[i] <= fuel && IsNode(ns, 0)
    requires names == ChainNames(ns, i, fuel) && path == RenderWith(ns, i, fuel)
    ensures Resolve(ns, 0, path, false) == i <==> |Join(names)| <= 254
  {
    ChainLeadsBack(ns, depth, i, fuel);
    var k := RenderedPrefix(names);
    assert path == RenderFrom("", names);
    PrefixResolves(ns, names, k, path);
    var a := PrefixLeadsToAncestor(ns, depth, i, fuel, k);
    if k == |names| { assert names[..k] == names; }
  }
}
