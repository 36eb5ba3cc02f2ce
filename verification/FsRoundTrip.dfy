/**
 What is written under a path is found again under that path, although `fs_write_file` and `fs_cat` read the path
 with different parsers (src/kernel/fs.c:157-234, 468-518).
 */
module FsRoundTrip {
  import opened Paths
  import opened FsTree
  import opened FsUpdates
  import opened FsModel
  import opened FsRuns

  // ---------- paths survive when nodes are added ----------

  ghost predicate KeptAt(ns: seq<Node>, ns': seq<Node>, j: nat)
    requires j < |ns| == |ns'|
  {
    ns[j].used ==> SameLinks(ns[j], ns'[j])
  }

  /** Every node is still there, under its old name and parent. */
  ghost predicate Extends(ns: seq<Node>, ns': seq<Node>)
  {
    |ns| == |ns'| && forall j :: 0 <= j < |ns| ==> KeptAt(ns, ns', j)
  }

  lemma FindKept(ns: seq<Node>, ns': seq<Node>, p: int, name: string)
    requires Tree(ns) && Tree(ns') && Extends(ns, ns') && FindChild(ns, p, name) >= 0
    ensures FindChild(ns', p, name) == FindChild(ns, p, name)
  {
    var r := FindChild(ns, p, name);
    assert KeptAt(ns, ns', r);
    FindsItself(ns', r);
  }

  /** A walk that succeeds leads to the same node in the larger tree. */
  lemma {:induction false} WalkKept(ns: seq<Node>, ns': seq<Node>, cur: int, comps: seq<string>)
    requires Tree(ns) && Tree(ns') && Extends(ns, ns') && IsNode(ns, cur) && Walk(ns, cur, comps) >= 0
    ensures IsNode(ns', cur) && Walk(ns', cur, comps) == Walk(ns, cur, comps)
    decreases |comps|
  {
    assert KeptAt(ns, ns', cur);
    if comps != [] {
      var c, rest := comps[0], comps[1..];
      if c == "." {
        WalkKept(ns, ns', cur, rest);
      } else if c == ".." {
        assert Placed(ns, cur);
        WalkKept(ns, ns', if cur == 0 then 0 else ns[cur].parent, rest);
      } else {
        FindKept(ns, ns', cur, c);
        WalkKept(ns, ns', FindChild(ns, cur, c), rest);
      }
    }
  }

  lemma ResolveKept(ns: seq<Node>, ns': seq<Node>, start: int, path: string, wantDir: bool)
    requires Tree(ns) && Tree(ns') && Extends(ns, ns') && IsNode(ns, start) && Resolve(ns, start, path, wantDir) >= 0
    ensures IsNode(ns', start) && Resolve(ns', start, path, wantDir) == Resolve(ns, start, path, wantDir)
  {
    assert Placed(ns, 0) && KeptAt(ns, ns', start);
    WalkKept(ns, ns', if path[0] == '/' then 0 else start, Components(path));
    assert KeptAt(ns, ns', Resolve(ns, start, path, wantDir));
  }

  lemma ParentKept(ns: seq<Node>, ns': seq<Node>, cwd: int, path: string)
    requires Tree(ns) && Tree(ns') && Extends(ns, ns') && IsNode(ns, cwd) && ResolveParent(ns, cwd, path).At?
    ensures IsNode(ns', cwd) && ResolveParent(ns', cwd, path) == ResolveParent(ns, cwd, path)
  {
    assert Placed(ns, 0) && KeptAt(ns, ns', cwd);
    var k := AfterSlash(path, |path|);
    if k > 0 {
      ResolveKept(ns, ns', if path[0] == '/' then 0 else cwd, if k == 1 then "/" else path[..k - 1], true);
    }
  }

  // ---------- write, then read ----------

  /** Whatever comes of a write, the tree still holds every old node, and nothing else but the allocator has changed. */
  lemma WriteExtends(s: Fs, path: string, data: seq<char>, r: Outcome)
    requires Inv(s) && r == WriteFile(s, path, data)
    ensures r.fs.cwd == s.cwd && r.fs.edit == s.edit && Extends(s.nodes, r.fs.nodes)
  {
    var at := ResolveParent(s.nodes, s.cwd, path);
    if at.At? && FindChild(s.nodes, at.parent, at.name) < 0 {
      ParentIsDir(s, path);
      CreateKeeps(s, at.parent, at.name, false);
    }
    forall j | 0 <= j < |s.nodes| ensures KeptAt(s.nodes, r.fs.nodes, j) {}
  }

  /** After a successful write the written file is a text file, under the path's parent and its last part, cut. */
  lemma WriteNames(s: Fs, path: string, data: seq<char>, r: Outcome)
    requires Inv(s) && r == WriteFile(s, path, data) && r.code == FS_OK
    ensures var at, id := ResolveParent(s.nodes, s.cwd, path), Written(s, path);
      && at.At? && EndsWithTxt(at.name)
      && IsNode(r.fs.nodes, id) && id > 0 && r.fs.nodes[id].parent == at.parent && r.fs.nodes[id].name == at.name
  {
    ParentIsDir(s, path);
    var at, id := ResolveParent(s.nodes, s.cwd, path), Written(s, path);
    if FindChild(s.nodes, at.parent, at.name) < 0 {
      CreateKeeps(s, at.parent, at.name, false);
    } else {
      assert KindOk(s.nodes[id]);
    }
  }

  /** A path whose last part is too long is never resolved. */
  lemma LongNamesFail(ns: seq<Node>, cwd: int, path: string)
    requires Tree(ns) && IsNode(ns, cwd) && |LastPart(path)| >= FS_MAX_NAME
    ensures Resolve(ns, cwd, path, false) < 0
  {
    assert Placed(ns, 0);
    var start, last := if path[0] == '/' then 0 else cwd, LastPart(path);
    PartsOfPath(path);
    WalkAppend(ns, start, ParentParts(path), [last]);
  }

  /** The node that now bears the path's last part below the path's parent is what the path resolves to, exactly when
      that last part has at most 47 characters; a longer one was cut off. */
  lemma NamedIsResolved(s: Fs, s': Fs, path: string, id: nat)
    requires Inv(s) && Inv(s') && s'.cwd == s.cwd && Extends(s.nodes, s'.nodes)
    requires var at := ResolveParent(s.nodes, s.cwd, path);
      && at.At? && IsNode(s'.nodes, id) && id > 0
      && s'.nodes[id].parent == at.parent && s'.nodes[id].name == at.name
    ensures Resolve(s'.nodes, s'.cwd, path, false) == id <==> |LastPart(path)| < FS_MAX_NAME
  {
    ParentKept(s.nodes, s'.nodes, s.cwd, path);
    FindsItself(s'.nodes, id);
    assert Placed(s'.nodes, id);
    if |LastPart(path)| < FS_MAX_NAME {
      assert path[0..] == path;
      ParsersAgree(s'.nodes, s'.cwd, path, id);
    } else {
      LongNamesFail(s'.nodes, s'.cwd, path);
    }
  }

  /** Round trip: after a successful write, resolving the same path finds the written file, whose contents are the
      data, exactly when the last part of the path has at most 47 characters. */
  lemma WriteThenRead(s: Fs, path: string, data: seq<char>)
    requires Inv(s)
    ensures var r, id := WriteFile(s, path, data), Written(s, path);
      r.code == FS_OK ==>
        && Inv(r.fs) && id in Files(r.fs) && Files(r.fs)[id] == data
        && (Resolve(r.fs.nodes, r.fs.cwd, path, false) == id <==> |LastPart(path)| < FS_MAX_NAME)
  {
    var r := WriteFile(s, path, data);
    if r.code == FS_OK {
      WriteKeeps(s, path, data);
      WriteExtends(s, path, data, r);
      WriteNames(s, path, data, r);
      NamedIsResolved(s, r.fs, path, Written(s, path));
    }
  }

  /** So a write under a last part of 48 or more characters succeeds only if its first 47 end in `.txt`. */
  lemma LongNamesAreCutAtTxt(s: Fs, path: string, data: seq<char>)
    requires Inv(s) && |LastPart(path)| >= FS_MAX_NAME && !EndsWithTxt(LastPart(path)[..47])
    ensures WriteFile(s, path, data).code != FS_OK
  {
    var r := WriteFile(s, path, data);
    if r.code == FS_OK {
      WriteNames(s, path, data, r);
      CutName(s.nodes, s.cwd, path);
    }
  }

  lemma CutName(ns: seq<Node>, cwd: int, path: string)
    requires Tree(ns) && IsNode(ns, cwd) && ResolveParent(ns, cwd, path).At?
    ensures ResolveParent(ns, cwd, path).name == Truncate(LastPart(path), FS_MAX_NAME)
  {
    assert path[0..] == path;
  }

  // ---------- when the two parsers disagree ----------

  /** The second parser: `fs_resolve_parent`, then `fs_find_child`. */
  function Found(ns: seq<Node>, cwd: int, path: string): int
    requires Tree(ns) && IsNode(ns, cwd)
  {
    match ResolveParent(ns, cwd, path)
    case Failed(_) => -1
    case At(parent, name) => FindChild(ns, parent, name)
  }

  predicate Special(name: string) { name == "" || name == "." || name == ".." }

  ghost predicate SameAnswer(a: int, b: int) { a == b || (a < 0 && b < 0) }

  /** The parsers disagree on a path exactly in these cases: the first one resolves it although it has 256 or more
      characters or its last part is empty, `.` or `..`; or the second one finds the cut form of a last part of 48 or
      more characters. */
  lemma ParsersDisagreeExactly(ns: seq<Node>, cwd: int, path: string)
    requires Tree(ns) && IsNode(ns, cwd) && ns[cwd].isDir
    ensures var last := LastPart(path);
      !SameAnswer(Resolve(ns, cwd, path, false), Found(ns, cwd, path)) <==>
      if |path| >= FS_MAX_PATH || Special(last) then Resolve(ns, cwd, path, false) >= 0
      else |last| >= FS_MAX_NAME && Found(ns, cwd, path) >= 0
  {
    var last, a, b := LastPart(path), Resolve(ns, cwd, path, false), Found(ns, cwd, path);
    if |path| < FS_MAX_PATH {
      if Special(last) {
        SpecialNotFound(ns, cwd, path);
      } else if |last| < FS_MAX_NAME {
        if a >= 0 { ParsersAgree(ns, cwd, path, a); }
        if b >= 0 { ParsersAgree(ns, cwd, path, b); }
      } else {
        LongNamesFail(ns, cwd, path);
      }
    }
  }

  lemma SpecialNotFound(ns: seq<Node>, cwd: int, path: string)
    requires Tree(ns) && IsNode(ns, cwd) && Special(LastPart(path))
    ensures Found(ns, cwd, path) == -1
  {
    var at := ResolveParent(ns, cwd, path);
    if at.At? {
      CutName(ns, cwd, path);
      SpecialNamesAreNeverChildren(ns, at.parent, at.name);
    }
  }

  // ---------- new entries ----------

  ghost predicate Full(ns: seq<Node>) { forall j :: 1 <= j < |ns| ==> ns[j].used }

  lemma CreatedExtends(s: Fs, s': Fs, id: int, parent: int, name: string, isDir: bool)
    requires |s.nodes| == |s'.nodes| == FS_MAX_NODES && Created(s, s', id, parent, name, isDir)
    ensures Extends(s.nodes, s'.nodes)
  {
    forall j | 0 <= j < |s.nodes| ensures KeptAt(s.nodes, s'.nodes, j) {}
  }

  /** `fs_mkdir` succeeds exactly when the parent exists, the name is valid and new there, and a slot is free; then the
      path leads to a new directory, unless its last part was cut off, and nothing else has changed.  An existing name
      is reported as a full filesystem. */
  lemma MkdirMakes(s: Fs, path: string)
    requires Inv(s)
    ensures var at, r := ResolveParent(s.nodes, s.cwd, path), Mkdir(s, path);
      && (r.code == FS_OK <==>
            at.At? && ValidName(at.name) && FindChild(s.nodes, at.parent, at.name) == -1 && !Full(s.nodes))
      && (at.At? && ValidName(at.name) && r.code != FS_OK ==> r.code == FS_ERR_FULL)
      && (at.At? && !ValidName(at.name) ==> r.code == FS_ERR_INVALID) && (at.Failed? ==> r.code == at.error)
      && (r.code == FS_OK ==>
            var id := FreeFrom(s.nodes, 1);
            && Inv(r.fs) && Created(s, r.fs, id, at.parent, at.name, true)
            && (Resolve(r.fs.nodes, r.fs.cwd, path, false) == id <==> |LastPart(path)| < FS_MAX_NAME))
  {
    ParentIsDir(s, path);
    var at, r, id := ResolveParent(s.nodes, s.cwd, path), Mkdir(s, path), FreeFrom(s.nodes, 1);
    assert id == -1 <==> Full(s.nodes);
    if r.code == FS_OK {
      CreateKeeps(s, at.parent, at.name, true);
      CreatedExtends(s, r.fs, id, at.parent, at.name, true);
      NamedIsResolved(s, r.fs, path, id);
    }
  }

  /** After a successful `fs_touch` the path leads to a file, unless its last part was cut off: the old one with its
      contents, or a new empty one. */
  lemma TouchMakes(s: Fs, path: string)
    requires Inv(s)
    ensures var r, id := Touch(s, path), Written(s, path);
      r.code == FS_OK ==>
        && Inv(r.fs) && id in Files(r.fs)
        && Files(r.fs) == (if id in Files(s) then Files(s) else Files(s)[id := []])
        && (Resolve(r.fs.nodes, r.fs.cwd, path, false) == id <==> |LastPart(path)| < FS_MAX_NAME)
  {
    ParentIsDir(s, path);
    var at, r, id := ResolveParent(s.nodes, s.cwd, path), Touch(s, path), Written(s, path);
    if r.code == FS_OK {
      if FindChild(s.nodes, at.parent, at.name) < 0 {
        CreateKeeps(s, at.parent, at.name, false);
        CreatedExtends(s, r.fs, id, at.parent, at.name, false);
      } else {
        forall j | 0 <= j < |s.nodes| ensures KeptAt(s.nodes, s.nodes, j) {}
      }
      NamedIsResolved(s, r.fs, path, id);
    }
  }
}
