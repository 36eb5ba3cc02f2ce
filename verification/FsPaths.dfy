/**
 Where paths lead (src/kernel/fs.c:157-234, 345-353): names, `.` and `..`, absolute and relative paths, and the errors
 of those that lead nowhere.
 */
module FsPaths {
  import opened Paths
  import opened FsTree
  import opened FsModel

  // ---------- one component ----------

  /** Node `child` hangs below `cur` under name `c`. */
  ghost predicate IsChild(ns: seq<Node>, cur: int, c: string, child: int)
  {
    1 <= child < |ns| && ns[child].used && ns[child].parent == cur && ns[child].name == c
  }

  /** `.` stays, `..` goes to the parent and at the root stays, a name goes to the child of that name; a name of 48 or
      more characters is an error of its own.  With `FsTree.WalkAppend` this fixes where any path leads. */
  lemma ComponentLeads(ns: seq<Node>, cur: int, c: string, child: int)
    requires Tree(ns) && IsNode(ns, cur)
    ensures c == "." ==> Walk(ns, cur, [c]) == cur
    ensures c == ".." ==> Walk(ns, cur, [c]) == if cur == 0 then 0 else ns[cur].parent
    ensures |c| >= 48 ==> Walk(ns, cur, [c]) == FS_ERR_INVALID
    ensures IsChild(ns, cur, c, child) ==> Walk(ns, cur, [c]) == child
    ensures c != "." && c != ".." && |c| < 48 && (forall j :: !IsChild(ns, cur, c, j)) ==>
      Walk(ns, cur, [c]) == FS_ERR_NOT_FOUND
  {
    assert [c][1..] == [];
    assert Placed(ns, cur);
    if IsChild(ns, cur, c, child) {
      FindsItself(ns, child);
      assert Placed(ns, child);
    }
    var found := FindChild(ns, cur, c);
    assert found >= 0 ==> IsChild(ns, cur, c, found);
  }

  /** No name in the tree is empty, special, longer than 47 characters, or contains a slash or a backslash. */
  lemma NamesAreClean(ns: seq<Node>, i: nat)
    requires Tree(ns) && IsNode(ns, i) && i > 0
    ensures ns[i].name != "" && ns[i].name != "." && ns[i].name != ".." && |ns[i].name| <= 47
    ensures '/' !in ns[i].name && '\\' !in ns[i].name
  {
    assert Placed(ns, i);
  }

  /** A text name is a stem and `.txt`. */
  lemma TextNames(name: string)
    ensures EndsWithTxt(name) <==> exists stem: string :: name == stem + ".txt"
  {
    if EndsWithTxt(name) {
      assert name == name[..|name| - 4] + ".txt";
    }
  }

  // ---------- whole paths ----------

  /** The empty path leads nowhere. */
  lemma EmptyPathFails(ns: seq<Node>, cwd: int, wantDir: bool)
    requires Tree(ns) && IsNode(ns, cwd)
    ensures Resolve(ns, cwd, "", wantDir) == FS_ERR_INVALID
  {}

  /** A path that begins with a slash does not depend on the current directory: it leads where the rest leads from the
      root. */
  lemma AbsoluteFromRoot(ns: seq<Node>, cwd: int, p: string, wantDir: bool)
    requires Tree(ns) && IsNode(ns, cwd)
    ensures IsNode(ns, 0) && Resolve(ns, cwd, "/" + p, wantDir) == if p == "" then 0 else Resolve(ns, 0, p, wantDir)
  {
    assert Placed(ns, 0);
    assert ("/" + p)[1..] == p;
    assert Components("/" + p) == Components(p);
  }

  /** Asking for a directory changes the answer only for files. */
  lemma WantedDirectory(ns: seq<Node>, cwd: int, path: string)
    requires Tree(ns) && IsNode(ns, cwd)
    ensures var r := Resolve(ns, cwd, path, false);
      Resolve(ns, cwd, path, true) == if r >= 0 && !ns[r].isDir then FS_ERR_NOT_DIR else r
  {}

  lemma TwoParts(n: string, last: string)
    requires n != "" && NoSlash(n) && last != "" && NoSlash(last)
    ensures Components(n + "/" + last) == [n] + [last] && n + "/" + last != "" && (n + "/" + last)[0] != '/'
  {
    SplitAtSlash(n, last);
    SingleComponent(n);
    SingleComponent(last);
  }

  /** A child's name and one more component lead where that component leads from the child. */
  lemma ChildThen(ns: seq<Node>, d: int, n: string, c: int, last: string)
    requires Tree(ns) && IsNode(ns, d) && IsChild(ns, d, n, c) && last != "" && NoSlash(last)
    ensures Resolve(ns, d, n + "/" + last, false) == Walk(ns, c, [last])
  {
    assert Placed(ns, c);
    ComponentLeads(ns, d, n, c);
    TwoParts(n, last);
    WalkAppend(ns, d, [n], [last]);
  }

  /** Going down and up again leads back, whether the child is a directory or not; `.` after it changes nothing. */
  lemma UpUndoesDown(ns: seq<Node>, d: int, n: string, c: int)
    requires Tree(ns) && IsNode(ns, d) && IsChild(ns, d, n, c)
    ensures Resolve(ns, d, n + "/..", true) == d && Resolve(ns, d, n + "/.", false) == c
    ensures Resolve(ns, c, "..", true) == d && Resolve(ns, d, n, false) == c
  {
    assert Placed(ns, c);
    ComponentLeads(ns, c, "..", c);
    ComponentLeads(ns, c, ".", c);
    ChildThen(ns, d, n, c, "..");
    ChildThen(ns, d, n, c, ".");
    assert n + "/.." == n + "/" + ".." && n + "/." == n + "/" + ".";
    WantedDirectory(ns, d, n + "/..");
    NameLeads(ns, d, n, c);
    SingleComponent("..");
  }

  lemma NameLeads(ns: seq<Node>, d: int, n: string, c: int)
    requires Tree(ns) && IsNode(ns, d) && IsChild(ns, d, n, c)
    ensures Resolve(ns, d, n, false) == c
  {
    assert Placed(ns, c);
    SingleComponent(n);
    ComponentLeads(ns, d, n, c);
  }

  /** `..` taken `k` times. */
  function Ups(k: nat): seq<string> { seq(k, _ => "..") }

  /** Each `..` takes one level away, and the root is where it ends. */
  lemma {:induction false} UpsClimb(ns: seq<Node>, depth: seq<nat>, cur: int, k: nat)
    requires Tree(ns) && Ranked(ns, depth) && IsNode(ns, cur)
    ensures var up := Walk(ns, cur, Ups(k));
      IsNode(ns, up) && depth[up] == (if depth[cur] <= k then 0 else depth[cur] - k) && (k >= 127 ==> up == 0)
    decreases k
  {
    assert Placed(ns, cur) && RankedAt(ns, depth, cur) && RankedAt(ns, depth, 0);
    if k > 0 {
      var next := if cur == 0 then 0 else ns[cur].parent;
      assert Ups(k)[1..] == Ups(k - 1) && Ups(k)[0] == "..";
      UpsClimb(ns, depth, next, k - 1);
    }
    DepthBound(ns, depth, cur);
    OnlyRootHasRankZero(ns, depth, Walk(ns, cur, Ups(k)));
  }

  lemma OnlyRootHasRankZero(ns: seq<Node>, depth: seq<nat>, i: int)
    requires Tree(ns) && Ranked(ns, depth)
    ensures IsNode(ns, i) && depth[i] == 0 ==> i == 0
  {
    if IsNode(ns, i) { assert RankedAt(ns, depth, i); }
  }

  // ---------- the second parser ----------

  /** The parent and the last part of a path: what precedes the last slash is resolved as a directory, or is the
      root. */
  lemma ParentLeads(ns: seq<Node>, cwd: int, dir: string, name: string)
    requires Tree(ns) && IsNode(ns, cwd) && NoSlash(name)
    ensures |name| < 256 ==> ResolveParent(ns, cwd, name) == At(cwd, Truncate(name, 48))
    ensures |dir| + 1 + |name| >= 256 ==> ResolveParent(ns, cwd, dir + "/" + name) == Failed(FS_ERR_INVALID)
    ensures |dir| + 1 + |name| < 256 ==>
      var p := if dir == "" then 0 else Resolve(ns, cwd, dir, true);
      ResolveParent(ns, cwd, dir + "/" + name) == if p < 0 then Failed(p) else At(p, Truncate(name, 48))
  {
    assert Placed(ns, 0);
    var path := dir + "/" + name;
    LastSlash(dir, name, path);
    if dir == "" {
      assert "/"[1..] == "" && Components("/") == Components("");
    } else {
      assert path[0] == dir[0];
    }
  }

  lemma LastSlash(dir: string, name: string, path: string)
    requires NoSlash(name) && path == dir + "/" + name
    ensures AfterSlash(path, |path|) == |dir| + 1 && AfterSlash(name, |name|) == 0
    ensures path[|dir| + 1..] == name && path[..|dir|] == dir
  {
    assert path[|dir|] == '/';
    assert forall j :: |dir| < j < |path| ==> path[j] == name[j - |dir| - 1];
  }

  // ---------- cd ----------

  /** `cd ..` goes to the parent, and at the root stays. */
  lemma CdUp(s: Fs, r: Outcome)
    requires Inv(s) && r == Cd(s, "..")
    ensures r.code == FS_OK && r.fs.cwd == if s.cwd == 0 then 0 else s.nodes[s.cwd].parent
  {
    assert Placed(s.nodes, s.cwd);
    SingleComponent("..");
    ComponentLeads(s.nodes, s.cwd, "..", 0);
  }

  /** `cd` into a directory below and `cd ..` again is no change at all. */
  lemma CdUpUndoesCd(s: Fs, n: string, c: int, r: Outcome, back: Outcome)
    requires Inv(s) && IsChild(s.nodes, s.cwd, n, c) && s.nodes[c].isDir && r == Cd(s, n)
    requires Inv(r.fs) ==> back == Cd(r.fs, "..")
    ensures r.code == FS_OK && r.fs.cwd == c && Inv(r.fs) && back == Outcome(s, FS_OK)
  {
    UpUndoesDown(s.nodes, s.cwd, n, c);
  }
}
