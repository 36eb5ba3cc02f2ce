/** The filesystem and its editor as the kernel runs them: one set of global variables, updated in place. */
module Okfs {
  import opened Paths
  import opened FsTree
  import opened Buffers
  import opened FsModel
  import opened FsRuns
  import opened EditText
  import opened EditModel
  import opened EditProofs
  import opened FsLoops
  import opened LineOutput
  import opened Options

  /** What a caller of `fs_write_file` or `fs_append_file` must provide: `len` bytes, or a C string. */
  predicate Readable(block: string, len: nat) { if len == 0 then '\0' in block else len <= |block| }

  function Bytes(block: string, len: nat): string
    requires Readable(block, len)
  {
    if len == 0 then UpToNul(block) else block[..len]
  }

  /** A length of 0 stands for the bytes before the first NUL; any other for that many bytes, NULs included. */
  lemma BlockBytes(block: string, len: nat)
    requires Readable(block, len)
    ensures var data := Bytes(block, len);
      && |data| <= |block| && data == block[..|data|] && (len > 0 ==> |data| == len)
      && (len == 0 ==> |data| < |block| && block[|data|] == '\0' && '\0' !in data)
  {
    if len == 0 { NulFree(block); }
  }

  class FileSystem {
    var nodes: seq<Node>
    var cwd: int
    var cwdPath: string
    var heap: Heap
    var supply: Supply
    var edit: Edit

    ghost function Abs(): Fs
      reads this
    {
      Fs(nodes, cwd, cwdPath, heap, supply, edit)
    }

    ghost predicate Valid()
      reads this
    {
      Inv(Abs())
    }

    /** The first part of `fs_init` (fs.c:308-326); its `fs_mkdir` and `fs_write_file` calls are like any other. */
    constructor (coming: seq<nat>)
      ensures Valid() && Abs() == InitState(coming)
    {
      var blank := Node(false, -1, true, "", 0, 0, 0);
      nodes := seq(128, _ => blank)[0 := blank.(used := true)];
      cwd, cwdPath, heap, edit := 0, "/", map[], NO_EDIT;
      supply := Supply(coming, []);
      InitIsSound(coming);
    }

    /** `fs_create_entry`. */
    method CreateEntry(parent: int, name: string, isDir: bool) returns (code: int)
      requires |nodes| == FS_MAX_NODES
      modifies this`nodes
      ensures Outcome(Abs(), code) == FsModel.CreateEntry(old(Abs()), parent, name, isDir)
    {
      if !ValidName(name) { return FS_ERR_INVALID; }
      if !isDir && !EndsWithTxt(name) { return FS_ERR_NOT_TXT; }
      var existing := FindChildLoop(nodes, parent, name);
      if existing >= 0 { return FS_ERR_EXISTS; }
      var id := AllocNodeLoop(nodes);
      if id < 0 { return FS_ERR_FULL; }
      nodes := nodes[id := Node(true, parent, isDir, Truncate(name, FS_MAX_NAME), 0, 0, 0)];
      code := id;
    }

    /** `fs_cd`. */
    method Cd(path: string) returns (code: int)
      requires Valid()
      modifies this`cwd, this`cwdPath
      ensures Valid() && Outcome(Abs(), code) == FsModel.Cd(old(Abs()), path)
    {
      CdKeeps(Abs(), path);
      var target := ResolveLoop(nodes, cwd, path, true);
      if target < 0 { return target; }
      cwd := target;
      cwdPath := RebuildLoop(nodes, cwd);
      code := FS_OK;
    }

    /** `fs_mkdir`. */
    method Mkdir(path: string) returns (code: int)
      requires Valid()
      modifies this`nodes
      ensures Valid() && Outcome(Abs(), code) == FsModel.Mkdir(old(Abs()), path)
    {
      MkdirKeeps(Abs(), path);
      var at := ResolveParentLoop(nodes, cwd, path);
      if at.Failed? { return at.error; }
      if !ValidName(at.name) { return FS_ERR_INVALID; }
      var id := CreateEntry(at.parent, at.name, true);
      code := if id >= 0 then FS_OK else FS_ERR_FULL;
    }

    /** `fs_touch`. */
    method Touch(path: string) returns (code: int)
      requires Valid()
      modifies this`nodes
      ensures Valid() && Outcome(Abs(), code) == FsModel.Touch(old(Abs()), path)
    {
      TouchKeeps(Abs(), path);
      var at := ResolveParentLoop(nodes, cwd, path);
      if at.Failed? { return at.error; }
      var existing := FindChildLoop(nodes, at.parent, at.name);
      if existing >= 0 {
        return if nodes[existing].isDir then FS_ERR_NOT_FILE else FS_OK;
      }
      var id := CreateEntry(at.parent, at.name, false);
      code := if id >= 0 then FS_OK else id;
    }

    /** `fs_rm`. */
    method Rm(path: string) returns (code: int)
      requires Valid()
      modifies this`nodes, this`cwd, this`cwdPath, this`heap, this`supply
      ensures Valid() && Outcome(Abs(), code) == FsModel.Rm(old(Abs()), path)
    {
      RmKeeps(Abs(), path);
      var id := ResolveLoop(nodes, cwd, path, false);
      if id < 0 { return id; }
      if id == 0 { return FS_ERR_INVALID; }
      if nodes[id].isDir {
        var any := HasChildLoop(nodes, id);
        if any { return FS_ERR_NOT_EMPTY; }
      }
      NodeIsLive(Abs(), id);
      assert Placed(nodes, id);
      Vacate(id);
      code := FS_OK;
    }

    /** The removal itself (fs.c:394-406). */
    method Vacate(id: int)
      requires Tree(nodes) && IsNode(nodes, id) && id > 0 && 0 !in heap && Live(heap, NodeBuf(nodes[id]))
      requires IsNode(nodes, nodes[id].parent)
      modifies this`nodes, this`cwd, this`cwdPath, this`heap, this`supply
      ensures nodes == old(nodes)[id := Vacated(old(nodes)[id])] && edit == old(edit)
      ensures cwd == if old(cwd) == id then old(nodes)[id].parent else old(cwd)
      ensures cwdPath == if old(cwd) == id then Render(old(nodes), cwd) else old(cwdPath)
      ensures heap == Release(old(heap), NodeBuf(old(nodes)[id])) && supply == Free(old(supply), old(nodes)[id].data)
    {
      FreeBuffer(NodeBuf(nodes[id]));
      if cwd == id {
        cwd := nodes[id].parent;
        cwdPath := RebuildLoop(nodes, cwd);
      }
      nodes := nodes[id := Vacated(nodes[id])];
    }

    /** `if (p) kfree(p)`. */
    method FreeBuffer(b: Buf)
      requires Live(heap, b) && 0 !in heap
      modifies this`heap, this`supply
      ensures heap == Release(old(heap), b) && supply == Free(old(supply), b.ptr)
    {
      if b.ptr != 0 { heap, supply := Kfree(heap, supply, b); }
    }

    /** `fs_set_file_data` in overwrite mode. */
    method SetFileData(id: int, data: seq<char>) returns (code: int)
      requires Valid() && IsFile(Abs(), id) && Live(heap, NodeBuf(nodes[id]))
      modifies this`nodes, this`heap, this`supply
      ensures Valid() && Outcome(Abs(), code) == WriteAt(old(Abs()), id, data)
    {
      OverwriteKeeps(Abs(), id, data, WriteAt(Abs(), id, data));
      NodeIsLive(Abs(), id);
      code := PutData(id, 0, data);
    }

    /** `fs_set_file_data`: `data` goes behind the first `keep` bytes, all of them or none. */
    method PutData(id: int, keep: nat, data: seq<char>) returns (code: int)
      requires 0 <= id < |nodes| && BufOk(heap, NodeBuf(nodes[id])) && 0 !in heap && keep <= nodes[id].size
      modifies this`nodes, this`heap, this`supply
      ensures Outcome(Abs(), code) ==
              PutBuf(old(Abs()), id, Put(old(heap), NodeBuf(old(nodes)[id]), keep, data, old(supply)))
    {
      var r := PutLoop(heap, NodeBuf(nodes[id]), keep, data, supply);
      nodes, heap, supply := nodes[id := WithBuf(nodes[id], r.buf)], r.heap, r.supply;
      code := if r.ok then FS_OK else FS_ERR_NO_SPACE;
    }

    /** `fs_write_file`. */
    method WriteFile(path: string, data: seq<char>) returns (code: int)
      requires Valid()
      modifies this`nodes, this`heap, this`supply
      ensures Valid() && Outcome(Abs(), code) == FsModel.WriteFile(old(Abs()), path, data)
    {
      ParentIsDir(Abs(), path);
      var at := ResolveParentLoop(nodes, cwd, path);
      if at.Failed? { return at.error; }
      var id := FindChildLoop(nodes, at.parent, at.name);
      if id < 0 {
        CreateKeeps(Abs(), at.parent, at.name, false);
        id := CreateEntry(at.parent, at.name, false);
        if id < 0 { return id; }
      } else if nodes[id].isDir {
        return FS_ERR_NOT_FILE;
      }
      NodeIsLive(Abs(), id);
      code := SetFileData(id, data);
    }

    /** The start of `fs_write_file` (fs.c:501-502): NULL is refused, and a length of 0 means that the data is a C
        string. */
    method WriteBlock(path: string, block: Option<string>, len: nat) returns (code: int)
      requires Valid() && (block.Some? ==> Readable(block.value, len))
      modifies this`nodes, this`heap, this`supply
      ensures Valid()
      ensures block.None? ==> code == FS_ERR_INVALID && Abs() == old(Abs())
      ensures block.Some? ==> Outcome(Abs(), code) == FsModel.WriteFile(old(Abs()), path, Bytes(block.value, len))
    {
      if block.None? { return FS_ERR_INVALID; }
      code := WriteFile(path, Bytes(block.value, len));
    }

    /** The start of `fs_append_file` (fs.c:522-523). */
    method AppendBlock(path: string, block: Option<string>, len: nat) returns (code: int)
      requires Valid() && (block.Some? ==> Readable(block.value, len))
      modifies this`nodes, this`heap, this`supply
      ensures Valid()
      ensures block.None? ==> code == FS_ERR_INVALID && Abs() == old(Abs())
      ensures block.Some? ==> Outcome(Abs(), code) == FsModel.AppendFile(old(Abs()), path, Bytes(block.value, len))
    {
      if block.None? { return FS_ERR_INVALID; }
      code := AppendFile(path, Bytes(block.value, len));
    }

    /** `fs_append_file`. */
    method AppendFile(path: string, data: seq<char>) returns (code: int)
      requires Valid()
      modifies this`nodes, this`heap, this`supply
      ensures Valid() && Outcome(Abs(), code) == FsModel.AppendFile(old(Abs()), path, data)
    {
      AppendKeeps(Abs(), path, data);
      var id := ResolveLoop(nodes, cwd, path, false);
      if id < 0 { return id; }
      if nodes[id].isDir { return FS_ERR_NOT_FILE; }
      if !EndsWithTxt(nodes[id].name) { return FS_ERR_NOT_TXT; }
      NodeIsLive(Abs(), id);
      code := PutData(id, nodes[id].size, data);
    }

    /** `fs_cat`: the chunks it emits. */
    method Cat(path: string) returns (code: int, emitted: seq<string>)
      requires Valid()
      ensures var id := Resolve(nodes, cwd, path, false);
        code == if id < 0 then id
                else if nodes[id].isDir then FS_ERR_NOT_FILE
                else if EndsWithTxt(nodes[id].name) then FS_OK else FS_ERR_NOT_TXT
      ensures code != FS_OK ==> emitted == []
      ensures var id := Resolve(nodes, cwd, path, false);
        code == FS_OK ==>
          id in Files(Abs()) &&
          emitted == if Files(Abs())[id] == "" then ["(empty file)"] else Seen(Output(Files(Abs())[id], 127))
    {
      emitted := [];
      var id := ResolveLoop(nodes, cwd, path, false);
      if id < 0 { return id, []; }
      if nodes[id].isDir { return FS_ERR_NOT_FILE, []; }
      if !EndsWithTxt(nodes[id].name) { return FS_ERR_NOT_TXT, []; }
      NodeIsLive(Abs(), id);
      if nodes[id].size == 0 { return FS_OK, ["(empty file)"]; }
      code := FS_OK;
      emitted := Emit(Content(heap, NodeBuf(nodes[id])), 127);
    }

    // ---------- the editor ----------

    /** `edit_buf_free`. */
    method FreeEditBuffer()
      requires Live(heap, edit.buf) && 0 !in heap
      modifies this`heap, this`supply, this`edit
      ensures Abs() == FreeEdit(old(Abs()))
    {
      FreeBuffer(edit.buf);
      edit := edit.(buf := EMPTY, pendingValid := false, target := 0);
    }

    /** `edit_buf_append`. */
    method EditBufAppend(data: string) returns (code: int)
      requires BufOk(heap, edit.buf) && 0 !in heap
      modifies this`heap, this`edit, this`supply
      ensures BufOk(heap, edit.buf) && 0 !in heap && Outcome(Abs(), code) == Appended(old(Abs()), data)
    {
      AppendAppends(heap, edit.buf, data, supply);
      var r := PutLoop(heap, edit.buf, edit.buf.len, data, supply);
      heap, supply, edit := r.heap, r.supply, edit.(buf := r.buf);
      code := if r.ok then FS_OK else FS_ERR_NO_SPACE;
    }

    /** `fs_edit_begin`. */
    method EditBegin(path: string) returns (code: int)
      requires Valid()
      modifies this`heap, this`edit, this`supply
      ensures Valid() && Outcome(Abs(), code) == Begin(old(Abs()), path)
    {
      BeginKeeps(Abs(), path);
      if edit.active { return FS_ERR_INVALID; }
      var id := ResolveLoop(nodes, cwd, path, false);
      if id < 0 { return id; }
      if nodes[id].isDir { return FS_ERR_NOT_FILE; }
      if !EndsWithTxt(nodes[id].name) { return FS_ERR_NOT_TXT; }
      CloseKeeps(Abs());
      FreeEditBuffer();
      code := Open(path, id);
    }

    /** The rest of `fs_edit_begin` (fs.c:590-601). */
    method Open(path: string, id: int) returns (code: int)
      requires 0 <= id < |nodes| && edit.buf == EMPTY && 0 !in heap
      modifies this`heap, this`edit, this`supply
      ensures Outcome(Abs(), code) == OpenFile(old(Abs()), path, id)
    {
      edit := edit.(active := true, path := Truncate(path, FS_MAX_PATH));
      if nodes[id].size > 0 {
        code := EditBufAppend(Content(heap, NodeBuf(nodes[id])));
        if code != FS_OK {
          edit := edit.(active := false, path := "");
        }
        return;
      }
      code := FS_OK;
    }

    /** The `:e` branch (fs.c:687-735). */
    method EditLine(arg: string) returns (code: int)
      requires BufOk(heap, edit.buf) && 0 !in heap && (edit.buf.len == 0 <==> edit.buf.ptr == 0)
      modifies this`heap, this`edit, this`supply
      ensures Outcome(Abs(), code) == LineCommand(old(Abs()), arg)
    {
      var n, rest := ParseLoop(arg);
      code := EditNumbered(n, rest);
    }

    /** The same, once the line number is read (fs.c:691-735). */
    method EditNumbered(n: int, rest: string) returns (code: int)
      requires BufOk(heap, edit.buf) && 0 !in heap && (edit.buf.len == 0 <==> edit.buf.ptr == 0)
      modifies this`heap, this`edit, this`supply
      ensures Outcome(Abs(), code) == LineEdit(old(Abs()), n, rest)
    {
      var idx := Decrement(n);
      if idx < 0 || edit.buf.len == 0 { return FS_ERR_INVALID; }
      var total := CountLines(Content(heap, edit.buf));
      if idx >= total { return FS_ERR_INVALID; }
      code := FS_OK;
      if rest == "" {
        var line := FetchLoop(Content(heap, edit.buf), n);
        if line.Some? {
          edit := edit.(pending := line.value, pendingValid := true, target := n);
        }
        return;
      }
      if rest[0] != ' ' { return FS_ERR_INVALID; }
      ReplaceLine(idx, rest[1..]);
    }

    /** The rebuild into a new buffer (fs.c:707-732); the old one is still live when it is freed. */
    method ReplaceLine(idx: nat, text: string)
      requires BufOk(heap, edit.buf) && edit.buf.ptr != 0 && 0 !in heap
      modifies this`heap, this`edit, this`supply
      ensures var r := Replace(old(Abs()), idx, text);
        Live(r.heap, old(edit.buf)) && Abs() == Install(old(Abs()), r)
    {
      var before := edit.buf;
      var r := RebuildBufLoop(heap, supply, before, idx, text);
      heap, supply := Kfree(r.heap, r.supply, before);
      edit := edit.(buf := r.buf);
    }

    /** Saving and leaving the session (fs.c:635-646). */
    method Save() returns (code: int)
      requires Valid()
      modifies this`nodes, this`heap, this`edit, this`supply
      ensures Outcome(Abs(), code) == SaveText(old(Abs()))
    {
      if edit.buf.ptr == 0 { return FS_ERR_INVALID; }
      EditIsLive(Abs());
      code := WriteFile(edit.path, Content(heap, edit.buf));
      if code != FS_OK { return; }
      EditIsLive(Abs());
      code := Cancel();
    }

    /** A line of text (fs.c:737-744). */
    method AppendLine(line: string) returns (code: int)
      requires BufOk(heap, edit.buf) && 0 !in heap
      modifies this`heap, this`edit, this`supply
      ensures Outcome(Abs(), code) == AddLine(old(Abs()), line)
    {
      code := EditBufAppend(line);
      if code != FS_OK { return; }
      code := EditBufAppend("\n");
    }

    /** Leaving the session without saving (fs.c:648-654). */
    method Cancel() returns (code: int)
      requires Live(heap, edit.buf) && 0 !in heap
      modifies this`heap, this`edit, this`supply
      ensures Outcome(Abs(), code) == Outcome(Close(old(Abs())), FS_OK)
    {
      FreeEditBuffer();
      edit := edit.(active := false, path := "");
      code := FS_OK;
    }

    /** The branches of `fs_edit_handle_line` from fs.c:635 on. */
    method EditCommand(line: string) returns (code: int)
      requires Valid()
      modifies this`nodes, this`heap, this`edit, this`supply
      ensures Outcome(Abs(), code) == Command(old(Abs()), RequestOf(line))
    {
      var request := Classify(line);
      code := Execute(request);
    }

    /** The tests of the branches. */
    method Classify(line: string) returns (request: Request)
      ensures request == RequestOf(line)
    {
      if line == ":save" || line == ":w" { return SaveIt; }
      if line == ":q" || line == ":quit" { return Quit; }
      if line == ":p" { return Print; }
      if |line| >= 3 && line[..3] == ":e " { return EditIt(line[3..]); }
      request := AddIt(line);
    }

    /** Their bodies. */
    method Execute(request: Request) returns (code: int)
      requires Valid()
      modifies this`nodes, this`heap, this`edit, this`supply
      ensures Outcome(Abs(), code) == Command(old(Abs()), request)
    {
      EditIsLive(Abs());
      match request {
        case SaveIt => code := Save();
        case Quit => code := Cancel();
        case Print => code := FS_OK;
        case EditIt(arg) => code := EditLine(arg);
        case AddIt(text) => code := AppendLine(text);
      }
    }

    /** The copies at fs.c:617-628: the command `:e n line`, cut to its buffer. */
    method BuildCommand(n: nat, line: string) returns (command: string)
      ensures command == Synthetic(n, line)
    {
      var digits := PrintLoop(n);
      var all := ":e " + digits + " " + line;
      command := "";
      for i := 0 to |all|
        invariant command == if i <= FS_CMD_TEXT_MAX - 2 then all[..i] else all[..FS_CMD_TEXT_MAX - 2]
      {
        if |command| < FS_CMD_TEXT_MAX - 2 { command := command + [all[i]]; }
      }
    }

    /** `fs_edit_handle_line`; it calls itself at most once, with no target left. */
    method EditHandleLine(line: string) returns (code: int)
      requires Valid()
      modifies this`nodes, this`heap, this`edit, this`supply
      ensures Valid() && Outcome(Abs(), code) == HandleLine(old(Abs()), line)
      decreases edit.target
    {
      HandleLineKeeps(Abs(), line);
      if !edit.active { return FS_ERR_INVALID; }
      var target := edit.target;
      UntargetedKeeps(Abs());
      edit := edit.(target := 0);
      if target > 0 && (line == "" || line[0] != ':') {
        var command := BuildCommand(target, line);
        assert Effective(0, command) == RequestOf(command);
        code := EditHandleLine(command);
      } else {
        code := EditCommand(line);
      }
    }

    /** `fs_edit_get_pending_line` (fs.c:781-788); None stands for NULL. */
    method GetPendingLine() returns (line: Option<string>)
      requires Valid()
      modifies this`edit
      ensures Valid() && line == PendingLine(old(Abs())) && Abs() == PendingTaken(old(Abs()))
    {
      PendingTakenKeeps(Abs());
      line := None;
      if edit.pendingValid {
        edit := edit.(pendingValid := false);
        line := Some(UpToNul(edit.pending));
      }
    }

    /** `fs_edit_display_content` (fs.c:747-779). */
    method Display() returns (emitted: seq<string>)
      requires Valid()
      ensures emitted ==
              if !edit.active then []
              else if Text(Abs()) == "" then ["(empty file)"]
              else ["--- file ---"] + Seen(Output(Text(Abs()), 80))
    {
      if !edit.active { return []; }
      EditIsLive(Abs());
      if edit.buf.len == 0 { return ["(empty file)"]; }
      var chunks := Emit(Content(heap, edit.buf), 80);
      emitted := ["--- file ---"] + chunks;
    }
  }
}
