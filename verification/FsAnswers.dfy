/**
 When each filesystem call succeeds, and what it reports otherwise (src/kernel/fs.c:236-289, 365-408, 499-531).
 Together with what `FsRuns` and `FsRoundTrip` say about a success, this leaves no call free to refuse what it should
 do.
 */
module FsAnswers {
  import opened Paths
  import opened FsTree
  import opened FsUpdates
  import opened Buffers
  import opened FsModel
  import opened FsRuns
  import opened FsRoundTrip
  import opened FsPaths

  // ---------- room for data ----------

  /** `need` bytes fit into a buffer: within 64 KB, and within its capacity or a new buffer can be had. */
  ghost predicate RoomFor(s: Fs, b: Buf, need: nat)
  {
    need <= 0x1_0000 && (need <= b.cap || NextPointer(s.heap, s.supply) != 0)
  }

  /** `fs_set_file_data` succeeds exactly when there is room. */
  lemma PutExactly(s: Fs, b: Buf, keep: nat, data: seq<char>, r: Result)
    requires Live(s.heap, b) && r == Put(s.heap, b, keep, data, s.supply)
    ensures r.ok <==> RoomFor(s, b, keep + |data|)
  {}

  // ---------- new entries ----------

  ghost predicate Taken(ns: seq<Node>, parent: int, name: string) { exists j :: IsChild(ns, parent, name, j) }

  lemma TakenIffFound(ns: seq<Node>, parent: int, name: string)
    requires |ns| == FS_MAX_NODES
    ensures Taken(ns, parent, name) <==> FindChild(ns, parent, name) >= 0
  {
    var j := FindChild(ns, parent, name);
    assert j >= 0 ==> IsChild(ns, parent, name, j);
  }

  /** A new entry is made exactly for a valid name, a text name if it is a file, that is not taken, while a slot is
      free; the first of these that fails is what is reported. */
  lemma CreateExactly(s: Fs, parent: int, name: string, isDir: bool, r: Outcome)
    requires |s.nodes| == FS_MAX_NODES && r == CreateEntry(s, parent, name, isDir)
    ensures var txt := isDir || EndsWithTxt(name);
      && (r.code >= 0 <==> ValidName(name) && txt && !Taken(s.nodes, parent, name) && !Full(s.nodes))
      && (!ValidName(name) ==> r.code == FS_ERR_INVALID)
      && (ValidName(name) && !txt ==> r.code == FS_ERR_NOT_TXT)
      && (ValidName(name) && txt && Taken(s.nodes, parent, name) ==> r.code == FS_ERR_EXISTS)
      && (ValidName(name) && txt && !Taken(s.nodes, parent, name) && Full(s.nodes) ==> r.code == FS_ERR_FULL)
  {
    TakenIffFound(s.nodes, parent, name);
    assert FreeFrom(s.nodes, 1) == -1 <==> Full(s.nodes);
  }

  /** A name under which a file can be made. */
  ghost predicate FreshText(s: Fs, parent: int, name: string)
  {
    ValidName(name) && EndsWithTxt(name) && !Taken(s.nodes, parent, name) && !Full(s.nodes)
  }

  // ---------- touch ----------

  /** The path names a file that is there, or one that can be made. */
  lemma TouchExactly(s: Fs, path: string, at: Located, id: int, r: Outcome)
    requires Inv(s) && at == ResolveParent(s.nodes, s.cwd, path) && r == Touch(s, path)
    requires at.At? ==> id == FindChild(s.nodes, at.parent, at.name)
    ensures r.code == FS_OK <==> at.At? && (IsFile(s, id) || FreshText(s, at.parent, at.name))
    ensures at.Failed? ==> r.code == at.error
    ensures at.At? && IsNode(s.nodes, id) && s.nodes[id].isDir ==> r.code == FS_ERR_NOT_FILE
    ensures at.At? && id < 0 && r.code != FS_OK ==> r.code == CreateEntry(s, at.parent, at.name, false).code
  {
    if at.At? {
      CreateExactly(s, at.parent, at.name, false, CreateEntry(s, at.parent, at.name, false));
      TakenIffFound(s.nodes, at.parent, at.name);
    }
  }

  // ---------- rm ----------

  /** A removal succeeds exactly for a node that is not the root and has nothing below it, be it a file or a directory.
      The current directory moves up only if it was removed, and the editor is not touched. */
  lemma RmExactly(s: Fs, path: string, id: int, r: Outcome)
    requires Inv(s) && id == Resolve(s.nodes, s.cwd, path, false) && r == Rm(s, path)
    ensures r.code == FS_OK <==> id > 0 && !HasChild(s.nodes, id)
    ensures r.code == FS_OK ==>
      r.fs.cwd == (if s.cwd == id then s.nodes[id].parent else s.cwd) && r.fs.edit == s.edit
    ensures id < 0 ==> r.code == id
    ensures id == 0 ==> r.code == FS_ERR_INVALID
    ensures id > 0 && HasChild(s.nodes, id) ==> r.code == FS_ERR_NOT_EMPTY
  {
    if id > 0 {
      if !s.nodes[id].isDir || ChildFrom(s.nodes, id, 1) < 0 { RmIsLeaf(s, id); }
    }
  }

  // ---------- write and append ----------

  /** The path names a file with room for the data, or one that can be made with room for it. */
  ghost predicate CanWrite(s: Fs, path: string, data: seq<char>)
    requires Inv(s)
  {
    var at := ResolveParent(s.nodes, s.cwd, path);
    at.At? &&
    var id := FindChild(s.nodes, at.parent, at.name);
    if id >= 0 then !s.nodes[id].isDir && RoomFor(s, NodeBuf(s.nodes[id]), |data|)
    else FreshText(s, at.parent, at.name) && RoomFor(s, EMPTY, |data|)
  }

  lemma WriteExactly(s: Fs, path: string, data: seq<char>, at: Located, id: int, r: Outcome)
    requires Inv(s) && at == ResolveParent(s.nodes, s.cwd, path) && r == WriteFile(s, path, data)
    requires at.At? ==> id == FindChild(s.nodes, at.parent, at.name)
    ensures r.code == FS_OK <==> CanWrite(s, path, data)
    ensures at.Failed? ==> r.code == at.error
    ensures at.At? && id >= 0 && s.nodes[id].isDir ==> r.code == FS_ERR_NOT_FILE
    ensures at.At? && IsFile(s, id) && r.code != FS_OK ==> r.code == FS_ERR_NO_SPACE
    ensures at.At? && id < 0 && r.code != FS_OK ==>
      r.code == if FreshText(s, at.parent, at.name) then FS_ERR_NO_SPACE
                else CreateEntry(s, at.parent, at.name, false).code
  {
    if at.At? {
      if id >= 0 {
        NodeIsLive(s, id);
        PutExactly(s, NodeBuf(s.nodes[id]), 0, data, Overwrite(s.heap, NodeBuf(s.nodes[id]), data, s.supply));
      } else {
        var c := CreateEntry(s, at.parent, at.name, false);
        CreateExactly(s, at.parent, at.name, false, c);
        TakenIffFound(s.nodes, at.parent, at.name);
        NewFileExactly(s, c, data, if c.code < 0 then c else WriteAt(c.fs, c.code, data));
      }
    }
  }

  lemma NewFileExactly(s: Fs, c: Outcome, data: seq<char>, r: Outcome)
    requires c.code >= 0 ==> 0 <= c.code < |c.fs.nodes| && NodeBuf(c.fs.nodes[c.code]) == EMPTY
    requires c.code >= 0 ==> c.fs.heap == s.heap && c.fs.supply == s.supply
    requires r == if c.code < 0 then c else WriteAt(c.fs, c.code, data)
    ensures c.code >= 0 ==> r.code == if RoomFor(s, EMPTY, |data|) then FS_OK else FS_ERR_NO_SPACE
  {
    PutExactly(s, EMPTY, 0, data, Overwrite(s.heap, EMPTY, data, s.supply));
  }

  /** An append succeeds exactly when the path leads to a file that has room for the longer contents. */
  lemma AppendExactly(s: Fs, path: string, data: seq<char>, id: int, r: Outcome)
    requires Inv(s) && id == Resolve(s.nodes, s.cwd, path, false) && r == AppendFile(s, path, data)
    ensures r.code == FS_OK <==> IsFile(s, id) && RoomFor(s, NodeBuf(s.nodes[id]), s.nodes[id].size + |data|)
    ensures id < 0 ==> r.code == id
    ensures IsNode(s.nodes, id) && s.nodes[id].isDir ==> r.code == FS_ERR_NOT_FILE
    ensures IsFile(s, id) && r.code != FS_OK ==> r.code == FS_ERR_NO_SPACE
  {
    if id >= 0 {
      NodeIsLive(s, id);
      assert KindOk(s.nodes[id]);
      var b := NodeBuf(s.nodes[id]);
      PutExactly(s, b, b.len, data, Append(s.heap, b, data, s.supply));
    }
  }

  // ---------- what no call touches ----------

  /** `cd` changes the current directory only. */
  lemma CdFrame(s: Fs, path: string, r: Outcome)
    requires Inv(s) && r == Cd(s, path)
    ensures r.fs == s.(cwd := r.fs.cwd, cwdPath := r.fs.cwdPath)
  {}

  /** `mkdir` and `touch` change nothing but the nodes, and of these one that was free at most. */
  lemma NewEntryFrame(s: Fs, path: string, r: Outcome)
    requires Inv(s) && (r == Mkdir(s, path) || r == Touch(s, path))
    ensures r.fs == s.(nodes := r.fs.nodes) && |r.fs.nodes| == |s.nodes|
    ensures forall j :: 0 <= j < |s.nodes| && (s.nodes[j].used || j != FreeFrom(s.nodes, 1)) ==>
      r.fs.nodes[j] == s.nodes[j]
  {}

  /** Neither a write nor an append touches the current directory or the editor. */
  lemma DataFrame(s: Fs, path: string, data: seq<char>, r: Outcome)
    requires Inv(s) && (r == WriteFile(s, path, data) || r == AppendFile(s, path, data))
    ensures r.fs == s.(nodes := r.fs.nodes, heap := r.fs.heap, supply := r.fs.supply)
  {}
}
