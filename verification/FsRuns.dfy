/** Every run of the filesystem: what each call promises, and what all calls keep. */
module FsRuns {
  import opened Paths
  import opened FsTree
  import opened FsUpdates
  import opened Buffers
  import opened FsModel

  // ---------- one call at a time ----------

  lemma CdKeeps(s: Fs, path: string)
    requires Inv(s)
    ensures var r := Cd(s, path);
      && Inv(r.fs) && Files(r.fs) == Files(s) && r.fs.heap == s.heap && r.fs.nodes == s.nodes
      && (r.code == FS_OK <==> Resolve(s.nodes, s.cwd, path, true) >= 0)
      && (if r.code == FS_OK then r.fs.cwd == Resolve(s.nodes, s.cwd, path, true)
          else r.fs == s && r.code == Resolve(s.nodes, s.cwd, path, true))
  {}

  /** Where a path leads to a parent, that parent is a directory. */
  lemma ParentIsDir(s: Fs, path: string)
    requires Inv(s)
    ensures var r := ResolveParent(s.nodes, s.cwd, path);
      r.At? ==> IsNode(s.nodes, r.parent) && s.nodes[r.parent].isDir && |r.name| < FS_MAX_NAME
  {}

  lemma MkdirKeeps(s: Fs, path: string)
    requires Inv(s)
    ensures var r := Mkdir(s, path);
      Inv(r.fs) && Files(r.fs) == Files(s) && r.fs.heap == s.heap && (r.code != FS_OK ==> r.fs == s)
  {
    ParentIsDir(s, path);
    match ResolveParent(s.nodes, s.cwd, path)
    case Failed(_) =>
    case At(parent, name) => CreateKeeps(s, parent, name, true);
  }

  lemma TouchKeeps(s: Fs, path: string)
    requires Inv(s)
    ensures var r := Touch(s, path);
      && Inv(r.fs) && r.fs.heap == s.heap && (r.code != FS_OK ==> r.fs == s)
      && (Files(r.fs) == Files(s) || exists id :: id !in Files(s) && Files(r.fs) == Files(s)[id := []])
  {
    ParentIsDir(s, path);
    match ResolveParent(s.nodes, s.cwd, path)
    case Failed(_) =>
    case At(parent, name) =>
      CreateKeeps(s, parent, name, false);
      var c := CreateEntry(s, parent, name, false);
      assert c.code >= 0 ==> c.code !in Files(s);
  }

  /** Removal: only a leaf goes; its buffer is freed; the current directory moves up if it was the one removed. */
  lemma RmKeeps(s: Fs, path: string)
    requires Inv(s)
    ensures var r := Rm(s, path);
      && Inv(r.fs) && (r.code != FS_OK ==> r.fs == s)
      && (r.code == FS_OK ==>
            var id := Resolve(s.nodes, s.cwd, path, false);
            && id > 0 && !HasChild(s.nodes, id) && !r.fs.nodes[id].used
            && r.fs.nodes == s.nodes[id := r.fs.nodes[id]] && Files(r.fs) == Files(s) - {id})
  {
    var r, id := Rm(s, path), Resolve(s.nodes, s.cwd, path, false);
    if r.code == FS_OK {
      RmIsLeaf(s, id);
      RmTree(s, path, id);
      VacateBuffers(s, r.fs, id);
    }
  }

  lemma RmIsLeaf(s: Fs, id: int)
    requires Inv(s) && IsNode(s.nodes, id) && id > 0 && (s.nodes[id].isDir ==> ChildFrom(s.nodes, id, 1) < 0)
    ensures !HasChild(s.nodes, id)
  {
    forall i | 1 <= i < |s.nodes| && s.nodes[i].used ensures s.nodes[i].parent != id {
      assert Placed(s.nodes, i);
    }
  }

  lemma RmTree(s: Fs, path: string, id: int)
    requires Inv(s) && IsNode(s.nodes, id) && id > 0 && !HasChild(s.nodes, id)
    requires id == Resolve(s.nodes, s.cwd, path, false) && Rm(s, path).code == FS_OK
    ensures var s' := Rm(s, path).fs;
      && Tree(s'.nodes) && IsNode(s'.nodes, s'.cwd) && s'.nodes[s'.cwd].isDir
      && s'.cwdPath == Render(s'.nodes, s'.cwd)
  {
    var s' := Rm(s, path).fs;
    assert Placed(s.nodes, id);
    RemoveKeepsTree(s.nodes, id, Vacated(s.nodes[id]));
    var depth :| Ranked(s.nodes, depth);
    assert RankedAt(s.nodes, depth, id);
    RenderKept(s.nodes, s'.nodes, id, s'.cwd);
  }

  /** Freeing the buffer of node `id` along with the node. */
  lemma VacateBuffers(s: Fs, s': Fs, id: int)
    requires Inv(s) && IsNode(s.nodes, id) && id > 0
    requires s'.nodes == s.nodes[id := Vacated(s.nodes[id])] && s'.heap == Release(s.heap, NodeBuf(s.nodes[id]))
    requires s'.edit == s.edit && s'.supply == Free(s.supply, s.nodes[id].data)
    ensures Owned(s'.heap, Slots(s'.nodes, s'.edit)) && Accounts(s'.heap, s'.supply) && Files(s') == Files(s) - {id}
  {
    var slots := Slots(s.nodes, s.edit);
    assert BufOk(s.heap, slots[id]);
    ReleaseFrees(s.heap, slots[id]);
    SlotUpdated(s.heap, slots, id, s'.heap, EMPTY);
    assert Slots(s'.nodes, s'.edit) == slots[id := EMPTY];
    VacatedFiles(s, s', id, slots);
    FreeAccounts(s.heap, s.supply, slots[id]);
  }

  lemma VacatedFiles(s: Fs, s': Fs, id: int, slots: seq<Buf>)
    requires |s.nodes| == FS_MAX_NODES && IsNode(s.nodes, id) && slots == Slots(s.nodes, s.edit)
    requires s'.nodes == s.nodes[id := Vacated(s.nodes[id])]
    requires forall q :: 0 <= q < |slots| && q != id ==> Content(s'.heap, slots[q]) == Content(s.heap, slots[q])
    ensures Files(s') == Files(s) - {id}
  {
    var files, files' := Files(s), Files(s');
    forall q | 0 <= q < 128 && q != id
      ensures q in files' <==> q in files
      ensures q in files ==> files'[q] == files[q]
    {
      assert slots[q] == NodeBuf(s.nodes[q]);
    }
    assert id !in files';
    assert files' == files - {id};
  }

  /** Bytes put behind the first `keep` bytes of file `id`: on success its contents are those bytes and the data; on
      failure nothing but the allocator's luck has changed. */
  lemma PutKeeps(s: Fs, id: int, keep: nat, data: seq<char>, r: Result, o: Outcome)
    requires Inv(s) && IsFile(s, id) && keep <= s.nodes[id].size && Live(s.heap, NodeBuf(s.nodes[id]))
    requires r == Put(s.heap, NodeBuf(s.nodes[id]), keep, data, s.supply) && o == PutBuf(s, id, r)
    ensures Inv(o.fs) && id in Files(s) && keep <= |Files(s)[id]|
    ensures if o.code == FS_OK then Files(o.fs) == Files(s)[id := Files(s)[id][..keep] + data]
            else o.fs == s.(supply := o.fs.supply)
  {
    NodeIsLive(s, id);
    PutPuts(s.heap, NodeBuf(s.nodes[id]), keep, data, s.supply, r);
    PutAccounts(s.heap, NodeBuf(s.nodes[id]), keep, data, s.supply, r);
    PutBufKeeps(s, id, r);
  }

  /** Writing bytes into file `id`: on success its contents are the data. */
  lemma OverwriteKeeps(s: Fs, id: int, data: seq<char>, r: Outcome)
    requires Inv(s) && IsFile(s, id) && Live(s.heap, NodeBuf(s.nodes[id])) && r == WriteAt(s, id, data)
    ensures Inv(r.fs)
    ensures if r.code == FS_OK then Files(r.fs) == Files(s)[id := data] else r.fs == s.(supply := r.fs.supply)
  {
    PutKeeps(s, id, 0, data, Overwrite(s.heap, NodeBuf(s.nodes[id]), data, s.supply), r);
    assert Files(s)[id][..0] + data == data;
  }

  lemma WriteAfterCreate(s: Fs, s1: Fs, id: int, data: seq<char>, r: Outcome)
    requires Inv(s) && Inv(s1) && IsFile(s1, id) && Files(s1) == Files(s)[id := []] && NodeBuf(s1.nodes[id]) == EMPTY
    requires s1.heap == s.heap && s1.supply == s.supply
    requires r == WriteAt(s1, id, data)
    ensures Inv(r.fs) && (r.code == FS_OK <==> !NoRoom(s, data))
    ensures Files(r.fs) == Files(s)[id := if r.code == FS_OK then data else []]
  {
    OverwriteKeeps(s1, id, data, r);
    PutTwice(Files(s), id, [], data);
    EmptyTakes(s.heap, data, s.supply, Overwrite(s.heap, EMPTY, data, s.supply));
    if r.code != FS_OK { OtherSupply(s1, r.fs); }
  }

  lemma OtherSupply(s: Fs, s': Fs)
    requires |s.nodes| == FS_MAX_NODES && s' == s.(supply := s'.supply)
    ensures Files(s') == Files(s)
  {}

  lemma EmptyTakes(heap: Heap, data: seq<char>, supply: Supply, r: Result)
    requires r == Overwrite(heap, EMPTY, data, supply)
    ensures r.ok <==> |data| <= FS_MAX_FILE_SIZE && (data == [] || NextPointer(heap, supply) != 0)
  {}

  lemma PutTwice(files: map<int, seq<char>>, id: int, a: seq<char>, b: seq<char>)
    ensures files[id := a][id := b] == files[id := b]
  {}

  /** The file that a successful `fs_write_file` writes: the existing one, or a new node. */
  function Written(s: Fs, path: string): int
    requires Inv(s)
  {
    match ResolveParent(s.nodes, s.cwd, path)
    case Failed(error) => error
    case At(parent, name) =>
      var id := FindChild(s.nodes, parent, name);
      if id >= 0 then id else CreateEntry(s, parent, name, false).code
  }

  /** Does `fs_write_file` get as far as creating a new entry? */
  ghost predicate Creates(s: Fs, path: string)
    requires Inv(s)
  {
    var at := ResolveParent(s.nodes, s.cwd, path);
    && at.At? && FindChild(s.nodes, at.parent, at.name) < 0
    && CreateEntry(s, at.parent, at.name, false).code >= 0
  }

  /** A new file cannot take `data`: it is too long, or needs a buffer and there is none. */
  ghost predicate NoRoom(s: Fs, data: seq<char>)
  {
    |data| > FS_MAX_FILE_SIZE || (data != [] && NextPointer(s.heap, s.supply) == 0)
  }

  /** A successful write makes that file's contents equal the data, and leaves every other file as it was.  A failed one
      changes nothing, unless it had created the file: then an empty file stays behind, which happens exactly when there
      is no room for the data. */
  lemma WriteKeeps(s: Fs, path: string, data: seq<char>)
    requires Inv(s)
    ensures var r := WriteFile(s, path, data);
      && Inv(r.fs)
      && (r.code == FS_OK ==> Files(r.fs) == Files(s)[Written(s, path) := data])
      && (r.code != FS_OK && !Creates(s, path) ==> r.fs == s.(supply := r.fs.supply))
      && (r.code != FS_OK && Creates(s, path) ==> Files(r.fs) == Files(s)[Written(s, path) := []])
      && (Creates(s, path) ==> (r.code == FS_OK <==> !NoRoom(s, data)))
  {
    ParentIsDir(s, path);
    var at, r := ResolveParent(s.nodes, s.cwd, path), WriteFile(s, path, data);
    if at.At? {
      var id := FindChild(s.nodes, at.parent, at.name);
      if id < 0 {
        WriteNew(s, at.parent, at.name, data, CreateEntry(s, at.parent, at.name, false), r);
      } else if !s.nodes[id].isDir {
        OverwriteKeeps(s, id, data, r);
      }
    }
  }

  lemma WriteNew(s: Fs, parent: int, name: string, data: seq<char>, c: Outcome, r: Outcome)
    requires Inv(s) && IsNode(s.nodes, parent) && s.nodes[parent].isDir && |name| < FS_MAX_NAME
    requires c == CreateEntry(s, parent, name, false)
    requires r == if c.code < 0 then c else WriteAt(c.fs, c.code, data)
    ensures Inv(r.fs)
    ensures c.code < 0 ==> r == Outcome(s, c.code)
    ensures c.code >= 0 ==>
      (r.code == FS_OK <==> !NoRoom(s, data)) && Files(r.fs) == Files(s)[c.code := if r.code == FS_OK then data else []]
  {
    CreateKeeps(s, parent, name, false);
    if c.code >= 0 { WriteAfterCreate(s, c.fs, c.code, data, r); }
  }

  /** A successful append makes the named file's contents old ++ data, and leaves every other file as it was. */
  lemma AppendKeeps(s: Fs, path: string, data: seq<char>)
    requires Inv(s)
    ensures var r := AppendFile(s, path, data);
      && Inv(r.fs)
      && (r.code != FS_OK ==> r.fs == s.(supply := r.fs.supply))
      && (r.code == FS_OK ==>
            var id := Resolve(s.nodes, s.cwd, path, false);
            id in Files(s) && Files(r.fs) == Files(s)[id := Files(s)[id] + data])
  {
    var id := Resolve(s.nodes, s.cwd, path, false);
    if id >= 0 && !s.nodes[id].isDir {
      NodeIsLive(s, id);
      AppendAt(s, id, data, PutBuf(s, id, Append(s.heap, NodeBuf(s.nodes[id]), data, s.supply)));
    }
  }

  lemma AppendAt(s: Fs, id: int, data: seq<char>, r: Outcome)
    requires Inv(s) && IsFile(s, id) && Live(s.heap, NodeBuf(s.nodes[id]))
    requires r == PutBuf(s, id, Append(s.heap, NodeBuf(s.nodes[id]), data, s.supply))
    ensures Inv(r.fs) && id in Files(s)
    ensures if r.code == FS_OK then Files(r.fs) == Files(s)[id := Files(s)[id] + data]
            else r.fs == s.(supply := r.fs.supply)
  {
    NodeIsLive(s, id);
    var b := NodeBuf(s.nodes[id]);
    PutKeeps(s, id, b.len, data, Append(s.heap, b, data, s.supply), r);
    assert Files(s)[id][..b.len] == Files(s)[id];
  }
}
