/** The line editor as operations on the filesystem state (src/kernel/fs.c:535-808). */
module EditModel {
  import opened Paths
  import opened FsTree
  import opened Buffers
  import opened FsModel
  import opened FsRuns
  import opened EditText
  import opened Options

  const FS_CMD_TEXT_MAX: nat := 4096

  /** The text being edited. */
  function Text(s: Fs): string { Content(s.heap, s.edit.buf) }

  /** `edit_buf_free`. */
  function FreeEdit(s: Fs): Fs
    requires Live(s.heap, s.edit.buf)
  {
    s.(heap := Release(s.heap, s.edit.buf), supply := Free(s.supply, s.edit.buf.ptr),
       edit := s.edit.(buf := EMPTY, pendingValid := false, target := 0))
  }

  /** The session is over. */
  function Close(s: Fs): Fs
    requires Live(s.heap, s.edit.buf)
  {
    var t := FreeEdit(s); t.(edit := t.edit.(active := false, path := ""))
  }

  function Begin(s: Fs, path: string): Outcome
    requires Inv(s)
  {
    if s.edit.active then Outcome(s, FS_ERR_INVALID)
    else
      var id := Resolve(s.nodes, s.cwd, path, false);
      if id < 0 then Outcome(s, id)
      else if s.nodes[id].isDir then Outcome(s, FS_ERR_NOT_FILE)
      else if !EndsWithTxt(s.nodes[id].name) then Outcome(s, FS_ERR_NOT_TXT)
      else EditIsLive(s); OpenFile(FreeEdit(s), path, id)
  }

  /** The rest of `fs_edit_begin`: a session on a copy of file `id`. */
  function OpenFile(s: Fs, path: string, id: int): Outcome
    requires 0 <= id < |s.nodes| && Live(s.heap, s.edit.buf)
  {
    var t := s.(edit := s.edit.(active := true, path := Truncate(path, FS_MAX_PATH)));
    if s.nodes[id].size == 0 then Outcome(t, FS_OK)
    else
      var r := Appended(t, Content(s.heap, NodeBuf(s.nodes[id])));
      if r.code == FS_OK then r else r.(fs := r.fs.(edit := r.fs.edit.(active := false, path := "")))
  }

  /** `edit_buf_append`. */
  function Appended(s: Fs, data: string): (r: Outcome)
    requires Live(s.heap, s.edit.buf)
    ensures Live(r.fs.heap, r.fs.edit.buf)
  {
    var r := Append(s.heap, s.edit.buf, data, s.supply);
    Outcome(s.(heap := r.heap, supply := r.supply, edit := s.edit.(buf := r.buf)),
            if r.ok then FS_OK else FS_ERR_NO_SPACE)
  }

  /** The rebuild loop (fs.c:715-730) from position `pos` of the old text, where line `cur` starts.  A failed append
      does not stop the loop; `ok` tells whether all succeeded. */
  function RebuildBuf(heap: Heap, b: Buf, supply: Supply, was: string, pos: nat, cur: nat, idx: nat, text: string)
    : (t: Result)
    requires pos <= |was| && Live(heap, b)
    ensures Spares(heap, b, t.heap, t.buf)
    decreases |was| - pos, 1
  {
    if pos == |was| then Result(true, heap, b, supply)
    else
      var e := LineEnd(was, pos);
      var r := Append(heap, b, if cur == idx then text else was[pos..e], supply);
      if e == |was| then r else RebuildTail(r, was, e, cur, idx, text)
  }

  /** The rest of the loop from the newline at `e` on; `r` is what the append of the line before it gave. */
  function RebuildTail(r: Result, was: string, e: nat, cur: nat, idx: nat, text: string): (t: Result)
    requires e < |was| && Live(r.heap, r.buf)
    ensures Spares(r.heap, r.buf, t.heap, t.buf)
    decreases |was| - e, 0
  {
    var q := Append(r.heap, r.buf, "\n", r.supply);
    var rest := RebuildBuf(q.heap, q.buf, q.supply, was, e + 1, cur + 1, idx, text);
    rest.(ok := r.ok && q.ok && rest.ok)
  }

  /** All of `:e n text` on the buffer, before the old buffer is freed. */
  function Replace(s: Fs, idx: nat, text: string): Result
  {
    RebuildBuf(s.heap, EMPTY, s.supply, Text(s), 0, 0, idx, text)
  }

  /** The rebuilt buffer in place of the old one, which is freed. */
  function Install(s: Fs, r: Result): Fs
    requires Live(r.heap, s.edit.buf)
  {
    s.(heap := Release(r.heap, s.edit.buf), supply := Free(r.supply, s.edit.buf.ptr), edit := s.edit.(buf := r.buf))
  }

  /** The line fetched by `:e n` waits to be edited. */
  function Prepare(s: Fs, n: nat, line: string): Fs
  {
    s.(edit := s.edit.(pending := line, pendingValid := true, target := n))
  }

  /** `fs_edit_get_pending_line`: the fetched line as a C string, if there is one that was not taken yet. */
  function PendingLine(s: Fs): Option<string>
  {
    if s.edit.pendingValid then Some(UpToNul(s.edit.pending)) else None
  }

  /** The state after that call. */
  function PendingTaken(s: Fs): Fs { s.(edit := s.edit.(pendingValid := false)) }

  /** The `:e` command; `arg` is what follows `:e `. */
  function LineCommand(s: Fs, arg: string): Outcome
    requires Live(s.heap, s.edit.buf)
  {
    var (n, rest) := ParseNumber(0, arg);
    LineEdit(s, n, rest)
  }

  /** The same, once line number `n` is read and `rest` follows it. */
  function LineEdit(s: Fs, n: int, rest: string): Outcome
    requires Live(s.heap, s.edit.buf)
  {
    var idx := Decrement(n);
    if idx < 0 || s.edit.buf.len == 0 || idx >= TotalLines(Text(s)) then Outcome(s, FS_ERR_INVALID)
    else if rest == "" then
      match FetchLine(Text(s), n)
      case None => Outcome(s, FS_OK)
      case Some(line) => Outcome(Prepare(s, n, line), FS_OK)
    else if rest[0] != ' ' then Outcome(s, FS_ERR_INVALID)
    else Outcome(Install(s, Replace(s, idx, rest[1..])), FS_OK)
  }

  /** What a line asks for. */
  datatype Request = SaveIt | Quit | Print | EditIt(arg: string) | AddIt(text: string)

  function RequestOf(line: string): Request
  {
    if line == ":save" || line == ":w" then SaveIt
    else if line == ":q" || line == ":quit" then Quit
    else if line == ":p" then Print
    else if |line| >= 3 && line[..3] == ":e " then EditIt(line[3..])
    else AddIt(line)
  }

  /** A line of text, or a command, once no inline edit is pending. */
  function Command(s: Fs, request: Request): Outcome
    requires Inv(s)
  {
    EditIsLive(s);
    match request
    case SaveIt => SaveText(s)
    case Quit => Outcome(Close(s), FS_OK)
    case Print => Outcome(s, FS_OK)
    case EditIt(arg) => LineCommand(s, arg)
    case AddIt(text) => AddLine(s, text)
  }

  /** `:w` (fs.c:635-646); an empty text has a NULL buffer, which `fs_write_file` refuses. */
  function SaveText(s: Fs): Outcome
    requires Inv(s)
  {
    if s.edit.buf.ptr == 0 then Outcome(s, FS_ERR_INVALID)
    else
      var r := WriteFile(s, s.edit.path, Text(s));
      if r.code != FS_OK then r
      else
        WriteKeeps(s, s.edit.path, Text(s));
        EditIsLive(r.fs);
        Outcome(Close(r.fs), FS_OK)
  }

  /** A line of text (fs.c:737-744). */
  function AddLine(s: Fs, line: string): Outcome
    requires Live(s.heap, s.edit.buf)
  {
    var r := Appended(s, line);
    if r.code != FS_OK then r else Appended(r.fs, "\n")
  }

  /** The synthetic command `:e n text` that an inline edit is turned into (fs.c:614-628). */
  function Synthetic(n: nat, line: string): string
  {
    var command := ":e " + Decimal(n) + " " + line;
    if |command| <= FS_CMD_TEXT_MAX - 2 then command else command[..FS_CMD_TEXT_MAX - 2]
  }

  /** With a line number pending, a line that is no command is handed back as the synthetic one (fs.c:611-633). */
  function Effective(target: nat, line: string): Request
  {
    RequestOf(if target > 0 && (line == "" || line[0] != ':') then Synthetic(target, line) else line)
  }

  /** The state with no inline edit pending. */
  function Untargeted(s: Fs): Fs { s.(edit := s.edit.(target := 0)) }

  function Handle(s: Fs, request: Request): Outcome
    requires Inv(s)
  {
    if !s.edit.active then Outcome(s, FS_ERR_INVALID)
    else
      UntargetedKeeps(s);
      Command(Untargeted(s), request)
  }

  /** `fs_edit_handle_line`; its self-call on the synthetic command finds no pending target. */
  function HandleLine(s: Fs, line: string): Outcome
    requires Inv(s)
  {
    Handle(s, Effective(s.edit.target, line))
  }

  // ---------- ownership ----------

  /** Only the editor's buffer changed. */
  ghost predicate EditUpdate(s: Fs, s': Fs)
  {
    && s'.nodes == s.nodes && s'.cwd == s.cwd && s'.cwdPath == s.cwdPath
    && Owned(s'.heap, Slots(s'.nodes, s'.edit)) && EditOk(s'.edit)
    && (|s.nodes| == FS_MAX_NODES ==> Files(s') == Files(s))
  }

  /** Fields of the session other than its buffer do not matter to the invariant. */
  lemma OtherEditFields(s: Fs, e: Edit)
    requires Inv(s) && e.buf == s.edit.buf && e.active == s.edit.active && e.target <= FS_MAX_FILE_SIZE
    ensures Inv(s.(edit := e)) && Files(s.(edit := e)) == Files(s)
  {
    assert Slots(s.nodes, e) == Slots(s.nodes, s.edit);
  }

  lemma PendingTakenKeeps(s: Fs)
    requires Inv(s)
    ensures Inv(PendingTaken(s)) && Files(PendingTaken(s)) == Files(s) && Text(PendingTaken(s)) == Text(s)
  {
    OtherEditFields(s, PendingTaken(s).edit);
  }

  lemma UntargetedKeeps(s: Fs)
    requires Inv(s)
    ensures Inv(Untargeted(s)) && Files(Untargeted(s)) == Files(s) && Text(Untargeted(s)) == Text(s)
  {
    OtherEditFields(s, Untargeted(s).edit);
  }

  lemma EditBufUpdated(s: Fs, heap': Heap, b': Buf, supply': Supply, e': Edit)
    requires Inv(s) && Local(s.heap, s.edit.buf, heap', b') && 0 !in heap' && e'.buf == b' && EditOk(e')
    requires Accounts(heap', supply')
    ensures EditUpdate(s, s.(heap := heap', supply := supply', edit := e'))
    ensures Inv(s.(heap := heap', supply := supply', edit := e'))
  {
    var s' := s.(heap := heap', supply := supply', edit := e');
    var slots := Slots(s.nodes, s.edit);
    SlotUpdated(s.heap, slots, |s.nodes|, heap', b');
    assert Slots(s'.nodes, e') == slots[|s.nodes| := b'];
    SameFiles(s, s', slots);
  }

  lemma SameFiles(s: Fs, s': Fs, slots: seq<Buf>)
    requires |s.nodes| == FS_MAX_NODES && s'.nodes == s.nodes && slots == Slots(s.nodes, s.edit)
    requires forall q :: 0 <= q < |s.nodes| ==> Content(s'.heap, slots[q]) == Content(s.heap, slots[q])
    ensures Files(s') == Files(s)
  {
    forall q | 0 <= q < 128 ensures Content(s'.heap, NodeBuf(s'.nodes[q])) == Content(s.heap, NodeBuf(s.nodes[q])) {
      assert slots[q] == NodeBuf(s.nodes[q]);
    }
  }

  lemma CloseKeeps(s: Fs)
    requires Inv(s)
    ensures Live(s.heap, s.edit.buf)
    ensures Inv(Close(s)) && Files(Close(s)) == Files(s) && Inv(FreeEdit(s)) && Files(FreeEdit(s)) == Files(s)
  {
    EditIsLive(s);
    var heap', supply' := Release(s.heap, s.edit.buf), Free(s.supply, s.edit.buf.ptr);
    ReleaseFrees(s.heap, s.edit.buf);
    FreeAccounts(s.heap, s.supply, s.edit.buf);
    EditBufUpdated(s, heap', EMPTY, supply', Close(s).edit);
    EditBufUpdated(s, heap', EMPTY, supply', FreeEdit(s).edit);
  }

  /** Appending to a buffer that is NULL exactly when empty keeps it so. */
  lemma AppendEmptyIffNull(heap: Heap, b: Buf, data: seq<char>, supply: Supply)
    requires BufOk(heap, b) && 0 !in heap && (b.len == 0 <==> b.ptr == 0)
    ensures var r := Append(heap, b, data, supply); r.buf.len == 0 <==> r.buf.ptr == 0
  {
    if b.len + |data| <= FS_MAX_FILE_SIZE {
      ReserveKeeps(heap, b, b.len, b.len + |data|, supply);
    }
  }

  lemma EditAppendKeeps(s: Fs, data: seq<char>, r: Outcome)
    requires Inv(s) && s.edit.active && Live(s.heap, s.edit.buf) && r == Appended(s, data)
    ensures Inv(r.fs) && Files(r.fs) == Files(s) && r.fs.nodes == s.nodes && r.fs.cwd == s.cwd
    ensures r.fs.edit == s.edit.(buf := r.fs.edit.buf)
    ensures Text(r.fs) == if r.code == FS_OK then Text(s) + data else Text(s)
    ensures r.code != FS_OK ==> r.fs.edit.buf == s.edit.buf
  {
    EditIsLive(s);
    var a := Append(s.heap, s.edit.buf, data, s.supply);
    PutAccounts(s.heap, s.edit.buf, s.edit.buf.len, data, s.supply, a);
    AppendAppends(s.heap, s.edit.buf, data, s.supply);
    AppendEmptyIffNull(s.heap, s.edit.buf, data, s.supply);
    EditBufUpdated(s, a.heap, a.buf, a.supply, s.edit.(buf := a.buf));
  }
}
