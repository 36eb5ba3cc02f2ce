/**
 The whole filesystem state and its operations (src/kernel/fs.c:272-408, 499-531), and what every run of them keeps:
 the tree, the cached path of the current directory, one owner for every live buffer, and a ledger in which every
 buffer handed out is freed at most once.
 */
module FsModel {
  import opened Paths
  import opened FsTree
  import opened FsUpdates
  import opened Buffers

  /** The editor session: its buffer, the line prepared by `:e n`, and the line number it is for. */
  datatype Edit = Edit(active: bool, path: string, buf: Buf, pending: string, pendingValid: bool, target: nat)

  datatype Fs = Fs(nodes: seq<Node>, cwd: int, cwdPath: string, heap: Heap, supply: Supply, edit: Edit)

  datatype Outcome = Outcome(fs: Fs, code: int)

  const NO_EDIT: Edit := Edit(false, "", EMPTY, "", false, 0)

  // ---------- buffers and their owners ----------

  function NodeBuf(n: Node): Buf { Buf(n.data, n.size, n.cap) }

  function WithBuf(n: Node, b: Buf): Node { n.(data := b.ptr, size := b.len, cap := b.cap) }

  /** The owners of buffers: the 128 nodes, then the editor. */
  function Slots(nodes: seq<Node>, e: Edit): (slots: seq<Buf>)
    ensures |slots| == |nodes| + 1
    ensures forall i :: 0 <= i < |nodes| ==> slots[i] == NodeBuf(nodes[i])
    ensures slots[|nodes|] == e.buf
  {
    seq(|nodes|, i requires 0 <= i < |nodes| => NodeBuf(nodes[i])) + [e.buf]
  }

  // ---------- the invariant ----------

  ghost predicate Inv(s: Fs)
  {
    && Tree(s.nodes)
    && IsNode(s.nodes, s.cwd) && s.nodes[s.cwd].isDir
    && s.cwdPath == Render(s.nodes, s.cwd)
    && Owned(s.heap, Slots(s.nodes, s.edit)) && Accounts(s.heap, s.supply)
    && (forall i :: 0 <= i < |s.nodes| ==> KindOk(s.nodes[i]))
    && EditOk(s.edit)
  }

  /** Directories and free slots have no buffer, and every file is a text file. */
  ghost predicate KindOk(n: Node)
  {
    if n.isDir || !n.used then NodeBuf(n) == EMPTY else EndsWithTxt(n.name)
  }

  ghost predicate EditOk(e: Edit)
  {
    && (e.buf.len == 0 <==> e.buf.ptr == 0)
    && (!e.active ==> e.buf == EMPTY)
    && e.target <= FS_MAX_FILE_SIZE
  }

  ghost predicate IsFile(s: Fs, id: int) { IsNode(s.nodes, id) && !s.nodes[id].isDir }

  /** The files as a map from nodes to byte strings. */
  ghost function Files(s: Fs): map<int, seq<char>>
    requires |s.nodes| == FS_MAX_NODES
  {
    map id | 0 <= id < 128 && IsFile(s, id) :: Content(s.heap, NodeBuf(s.nodes[id]))
  }

  // ---------- the operations ----------

  /** `fs_init` before it creates its first files. */
  function InitState(coming: seq<nat>): Fs
  {
    var blank := Node(false, -1, true, "", 0, 0, 0);
    Fs(seq(128, _ => blank)[0 := blank.(used := true)], 0, "/", map[], Supply(coming, []), NO_EDIT)
  }

  function CreateEntry(s: Fs, parent: int, name: string, isDir: bool): Outcome
    requires |s.nodes| == FS_MAX_NODES
  {
    if !ValidName(name) then Outcome(s, FS_ERR_INVALID)
    else if !isDir && !EndsWithTxt(name) then Outcome(s, FS_ERR_NOT_TXT)
    else if FindChild(s.nodes, parent, name) >= 0 then Outcome(s, FS_ERR_EXISTS)
    else
      var id := FreeFrom(s.nodes, 1);
      if id < 0 then Outcome(s, FS_ERR_FULL)
      else Outcome(s.(nodes := s.nodes[id := Node(true, parent, isDir, Truncate(name, FS_MAX_NAME), 0, 0, 0)]), id)
  }

  function Cd(s: Fs, path: string): Outcome
    requires Tree(s.nodes) && IsNode(s.nodes, s.cwd)
  {
    var target := Resolve(s.nodes, s.cwd, path, true);
    if target < 0 then Outcome(s, target)
    else Outcome(s.(cwd := target, cwdPath := Render(s.nodes, target)), FS_OK)
  }

  function Mkdir(s: Fs, path: string): Outcome
    requires Tree(s.nodes) && IsNode(s.nodes, s.cwd)
  {
    match ResolveParent(s.nodes, s.cwd, path)
    case Failed(error) => Outcome(s, error)
    case At(parent, name) =>
      if !ValidName(name) then Outcome(s, FS_ERR_INVALID)
      else
        var r := CreateEntry(s, parent, name, true);
        Outcome(r.fs, if r.code >= 0 then FS_OK else FS_ERR_FULL)
  }

  function Touch(s: Fs, path: string): Outcome
    requires Tree(s.nodes) && IsNode(s.nodes, s.cwd)
  {
    match ResolveParent(s.nodes, s.cwd, path)
    case Failed(error) => Outcome(s, error)
    case At(parent, name) =>
      var existing := FindChild(s.nodes, parent, name);
      if existing >= 0 then Outcome(s, if s.nodes[existing].isDir then FS_ERR_NOT_FILE else FS_OK)
      else
        var r := CreateEntry(s, parent, name, false);
        Outcome(r.fs, if r.code >= 0 then FS_OK else r.code)
  }

  /** The first used child of `id` from slot `i` on, or -1 (the loop at fs.c:389-391). */
  function ChildFrom(ns: seq<Node>, id: int, i: nat): (r: int)
    requires i <= |ns|
    ensures r == -1 || (i <= r < |ns| && ns[r].used && ns[r].parent == id)
    ensures r == -1 ==> forall j :: i <= j < |ns| ==> !(ns[j].used && ns[j].parent == id)
    decreases |ns| - i
  {
    if i == |ns| then -1 else if ns[i].used && ns[i].parent == id then i else ChildFrom(ns, id, i + 1)
  }

  /** A slot as `fs_rm` leaves it. */
  function Vacated(n: Node): Node { n.(used := false, data := 0, size := 0, cap := 0) }

  function Rm(s: Fs, path: string): Outcome
    requires Inv(s)
  {
    var id := Resolve(s.nodes, s.cwd, path, false);
    if id < 0 then Outcome(s, id)
    else if id == 0 then Outcome(s, FS_ERR_INVALID)
    else if s.nodes[id].isDir && ChildFrom(s.nodes, id, 1) >= 0 then Outcome(s, FS_ERR_NOT_EMPTY)
    else
      var cwd := if s.cwd == id then s.nodes[id].parent else s.cwd;
      NodeIsLive(s, id);
      Outcome(s.(nodes := s.nodes[id := Vacated(s.nodes[id])],
                 cwd := cwd, cwdPath := if s.cwd == id then Render(s.nodes, cwd) else s.cwdPath,
                 heap := Release(s.heap, NodeBuf(s.nodes[id])), supply := Free(s.supply, s.nodes[id].data)), FS_OK)
  }

  lemma NodeIsLive(s: Fs, id: int)
    requires Inv(s) && 0 <= id < |s.nodes|
    ensures BufOk(s.heap, NodeBuf(s.nodes[id])) && Live(s.heap, NodeBuf(s.nodes[id]))
  {
    assert BufOk(s.heap, Slots(s.nodes, s.edit)[id]);
  }

  lemma EditIsLive(s: Fs)
    requires Inv(s)
    ensures BufOk(s.heap, s.edit.buf) && Live(s.heap, s.edit.buf)
  {
    assert BufOk(s.heap, Slots(s.nodes, s.edit)[|s.nodes|]);
  }

  /** The result of a buffer operation put back into node `id`. */
  function PutBuf(s: Fs, id: int, r: Result): Outcome
    requires 0 <= id < |s.nodes|
  {
    Outcome(s.(nodes := s.nodes[id := WithBuf(s.nodes[id], r.buf)], heap := r.heap, supply := r.supply),
            if r.ok then FS_OK else FS_ERR_NO_SPACE)
  }

  /** `fs_set_file_data` in overwrite mode on node `id`. */
  function WriteAt(s: Fs, id: int, data: seq<char>): Outcome
    requires 0 <= id < |s.nodes| && Live(s.heap, NodeBuf(s.nodes[id]))
  {
    PutBuf(s, id, Overwrite(s.heap, NodeBuf(s.nodes[id]), data, s.supply))
  }

  /** `fs_write_file` with bytes in hand. */
  function WriteFile(s: Fs, path: string, data: seq<char>): Outcome
    requires Inv(s)
  {
    match ResolveParent(s.nodes, s.cwd, path)
    case Failed(error) => Outcome(s, error)
    case At(parent, name) =>
      var id := FindChild(s.nodes, parent, name);
      if id >= 0 && s.nodes[id].isDir then Outcome(s, FS_ERR_NOT_FILE)
      else if id >= 0 then NodeIsLive(s, id); WriteAt(s, id, data)
      else
        var r := CreateEntry(s, parent, name, false);
        if r.code < 0 then r else WriteAt(r.fs, r.code, data)
  }

  function AppendFile(s: Fs, path: string, data: seq<char>): Outcome
    requires Inv(s)
  {
    var id := Resolve(s.nodes, s.cwd, path, false);
    if id < 0 then Outcome(s, id)
    else if s.nodes[id].isDir then Outcome(s, FS_ERR_NOT_FILE)
    else if !EndsWithTxt(s.nodes[id].name) then Outcome(s, FS_ERR_NOT_TXT)
    else NodeIsLive(s, id); PutBuf(s, id, Append(s.heap, NodeBuf(s.nodes[id]), data, s.supply))
  }

  // ---------- what each operation keeps ----------

  lemma InitIsSound(coming: seq<nat>)
    ensures Inv(InitState(coming)) && Files(InitState(coming)) == map[]
  {
    var s := InitState(coming);
    var depth := seq(128, _ => 0);
    forall i | 0 <= i < 128 ensures Placed(s.nodes, i) && RankedAt(s.nodes, depth, i) {}
    assert Ranked(s.nodes, depth);
    forall o | 0 <= o < 129 ensures Slots(s.nodes, s.edit)[o] == EMPTY {}
  }

  ghost predicate Created(s: Fs, s': Fs, id: int, parent: int, name: string, isDir: bool)
    requires |s.nodes| == |s'.nodes| == FS_MAX_NODES
  {
    && IsNode(s'.nodes, id) && !IsNode(s.nodes, id)
    && s'.nodes[id].isDir == isDir && s'.nodes[id].parent == parent && s'.nodes[id].name == name
    && s'.nodes == s.nodes[id := s'.nodes[id]]
    && s'.heap == s.heap && s'.supply == s.supply && s'.edit == s.edit && s'.cwd == s.cwd && s'.cwdPath == s.cwdPath
    && Files(s') == if isDir then Files(s) else Files(s)[id := []]
  }

  /** A new node has no data, takes a free slot, and leaves all files and paths alone. */
  lemma CreateKeeps(s: Fs, parent: int, name: string, isDir: bool)
    requires Inv(s) && IsNode(s.nodes, parent) && s.nodes[parent].isDir && |name| < FS_MAX_NAME
    ensures var r := CreateEntry(s, parent, name, isDir);
      Inv(r.fs) && if r.code < 0 then r.fs == s else Created(s, r.fs, r.code, parent, name, isDir)
  {
    var r := CreateEntry(s, parent, name, isDir);
    if r.code >= 0 {
      NewNodeKeeps(s, r.code, Node(true, parent, isDir, name, 0, 0, 0));
    }
  }

  lemma NewNodeKeeps(s: Fs, id: nat, node: Node)
    requires Inv(s) && 1 <= id < |s.nodes| && !s.nodes[id].used && node.used && NodeBuf(node) == EMPTY
    requires IsNode(s.nodes, node.parent) && s.nodes[node.parent].isDir
    requires ValidName(node.name) && |node.name| < FS_MAX_NAME && FindChild(s.nodes, node.parent, node.name) == -1
    requires node.isDir || EndsWithTxt(node.name)
    ensures var s' := s.(nodes := s.nodes[id := node]);
      Inv(s') && Files(s') == if node.isDir then Files(s) else Files(s)[id := []]
  {
    var s' := s.(nodes := s.nodes[id := node]);
    CreateKeepsTree(s.nodes, id, node);
    FreeIsChildless(s.nodes, id);
    RenderKept(s.nodes, s'.nodes, id, s.cwd);
    assert Slots(s'.nodes, s.edit) == Slots(s.nodes, s.edit);
    FilesAfterNew(s, id, node);
  }

  lemma FilesAfterNew(s: Fs, id: nat, node: Node)
    requires |s.nodes| == FS_MAX_NODES && id < |s.nodes| && !s.nodes[id].used && node.used && NodeBuf(node) == EMPTY
    requires 0 !in s.heap
    ensures Files(s.(nodes := s.nodes[id := node])) == if node.isDir then Files(s) else Files(s)[id := []]
  {
    var s' := s.(nodes := s.nodes[id := node]);
    forall q | 0 <= q < 128 ensures IsFile(s', q) <==> IsFile(s, q) || (q == id && !node.isDir) {}
  }

  /** An operation on one file's buffer changes that file's contents and nothing else. */
  lemma PutBufKeeps(s: Fs, id: int, r: Result)
    requires Inv(s) && IsFile(s, id) && 0 !in r.heap && Accounts(r.heap, r.supply)
    requires if r.ok then Local(s.heap, NodeBuf(s.nodes[id]), r.heap, r.buf)
             else r.heap == s.heap && r.buf == NodeBuf(s.nodes[id])
    ensures var s' := PutBuf(s, id, r).fs;
      Inv(s') && Files(s') == if r.ok then Files(s)[id := Content(r.heap, r.buf)] else Files(s)
    ensures !r.ok ==> PutBuf(s, id, r).fs == s.(supply := r.supply)
  {
    if r.ok {
      BufReplaced(s, id, r, PutBuf(s, id, r).fs);
    } else {
      assert s.nodes[id := WithBuf(s.nodes[id], r.buf)] == s.nodes;
    }
  }

  lemma BufReplaced(s: Fs, id: int, r: Result, s': Fs)
    requires Inv(s) && IsFile(s, id) && 0 !in r.heap && Accounts(r.heap, r.supply)
    requires Local(s.heap, NodeBuf(s.nodes[id]), r.heap, r.buf) && s' == PutBuf(s, id, r).fs
    ensures Inv(s') && Files(s') == Files(s)[id := Content(r.heap, r.buf)]
  {
    SameTreeAfterPut(s, s', id, r.buf);
    assert Slots(s'.nodes, s'.edit) == Slots(s.nodes, s.edit)[id := r.buf];
    SlotUpdated(s.heap, Slots(s.nodes, s.edit), id, r.heap, r.buf);
    FilesAfterPut(s, id, r);
  }

  lemma SameTreeAfterPut(s: Fs, s': Fs, id: int, b: Buf)
    requires Inv(s) && 0 <= id < |s.nodes| && s'.nodes == s.nodes[id := WithBuf(s.nodes[id], b)]
    ensures Tree(s'.nodes) && Render(s'.nodes, s.cwd) == Render(s.nodes, s.cwd)
  {
    forall j | 0 <= j < |s.nodes| ensures SameLinks(s.nodes[j], s'.nodes[j]) {}
    LinksKeepTree(s.nodes, s'.nodes);
    LinksKeepChain(s.nodes, s'.nodes, s.cwd, FS_MAX_NODES);
  }

  lemma FilesAfterPut(s: Fs, id: int, r: Result)
    requires |s.nodes| == FS_MAX_NODES && IsFile(s, id)
    requires forall q :: 0 <= q < |s.nodes| && q != id ==>
      Content(r.heap, Slots(s.nodes, s.edit)[q]) == Content(s.heap, Slots(s.nodes, s.edit)[q])
    ensures Files(PutBuf(s, id, r).fs) == Files(s)[id := Content(r.heap, r.buf)]
  {
    var s' := PutBuf(s, id, r).fs;
    forall q | 0 <= q < 128 && IsFile(s', q)
      ensures Content(s'.heap, NodeBuf(s'.nodes[q])) ==
              if q == id then Content(r.heap, r.buf) else Content(s.heap, NodeBuf(s.nodes[q]))
    {
      assert Slots(s.nodes, s.edit)[q] == NodeBuf(s.nodes[q]);
    }
  }
}
