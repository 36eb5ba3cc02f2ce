/**
 What each editor line is taken for, when it succeeds, and what it reports otherwise (src/kernel/fs.c:579-656, 737-745,
 781-788).
 */
module EditAnswers {
  import opened FsTree
  import opened Buffers
  import opened FsModel
  import opened FsAnswers
  import opened EditText
  import opened EditModel
  import opened EditMemory
  import opened EditTheorems
  import opened EditSession
  import opened Options

  // ---------- which line is which command ----------

  /** Six spellings are commands, as is whatever begins with `:e `; every other line is text. */
  lemma CommandsExactly(line: string)
    ensures RequestOf(line) == SaveIt <==> line == ":w" || line == ":save"
    ensures RequestOf(line) == Quit <==> line == ":q" || line == ":quit"
    ensures RequestOf(line) == Print <==> line == ":p"
    ensures RequestOf(line).EditIt? <==> |line| >= 3 && line[..3] == ":e "
    ensures RequestOf(line).EditIt? ==> line == ":e " + RequestOf(line).arg
    ensures RequestOf(line).AddIt? ==> RequestOf(line).text == line
  {
    if |line| >= 3 && line[..3] == ":e " {
      assert line == line[..3] + line[3..];
      assert line[1] == line[..3][1] == 'e';
      assert ":save"[1] == 's' && ":quit"[1] == 'q';
    }
  }

  /** Without a session every line is refused and changes nothing. */
  lemma InactiveRefuses(s: Fs, line: string, r: Outcome)
    requires Inv(s) && !s.edit.active && r == HandleLine(s, line)
    ensures r == Outcome(s, FS_ERR_INVALID)
  {}

  /** `:p` changes nothing, but for cancelling a pending inline edit. */
  lemma PrintChangesNothing(s: Fs, r: Outcome)
    requires Inv(s) && s.edit.active && r == HandleLine(s, ":p")
    ensures r == Outcome(s.(edit := s.edit.(target := 0)), FS_OK)
  {
    assert Effective(s.edit.target, ":p") == Print;
  }

  /** A fetched line is handed out once. */
  lemma PendingIsTakenOnce(s: Fs, n: nat, r: Outcome)
    requires Inv(s) && s.edit.active && 1 <= n <= TotalLines(Text(s)) && r == HandleLine(s, ":e " + Decimal(n))
    ensures PendingLine(r.fs).Some? && PendingLine(PendingTaken(r.fs)) == None
    ensures r.fs.edit.target == n == PendingTaken(r.fs).edit.target
  {
    FetchPrepares(s, n, Decimal(n), r);
  }

  // ---------- opening ----------

  /** A session is opened exactly when there is none, the path leads to a file, and a buffer can be had for its contents
      if it has any. */
  lemma BeginExactly(s: Fs, path: string, id: int, r: Outcome)
    requires Inv(s) && id == Resolve(s.nodes, s.cwd, path, false) && r == Begin(s, path)
    ensures r.code == FS_OK <==>
            !s.edit.active && IsFile(s, id) && (s.nodes[id].size == 0 || NextPointer(s.heap, s.supply) != 0)
    ensures s.edit.active ==> r == Outcome(s, FS_ERR_INVALID)
    ensures !s.edit.active && id < 0 ==> r == Outcome(s, id)
    ensures !s.edit.active && IsNode(s.nodes, id) && s.nodes[id].isDir ==> r == Outcome(s, FS_ERR_NOT_FILE)
    ensures !s.edit.active && IsFile(s, id) && r.code != FS_OK ==> r.code == FS_ERR_NO_SPACE
    ensures r.fs.edit.active <==> s.edit.active || r.code == FS_OK
    ensures r.code == FS_OK ==> r.fs.edit.target == 0 && !r.fs.edit.pendingValid
  {
    if !s.edit.active && id >= 0 && !s.nodes[id].isDir {
      NodeIsLive(s, id);
      assert KindOk(s.nodes[id]);
      ReleaseNothing(s.heap);
      OpenExactly(FreeEdit(s), path, id, r);
    }
  }

  lemma OpenExactly(s: Fs, path: string, id: int, r: Outcome)
    requires 0 <= id < |s.nodes| && s.edit.buf == EMPTY && s.edit.target == 0 && !s.edit.pendingValid
    requires r == OpenFile(s, path, id)
    requires BufOk(s.heap, NodeBuf(s.nodes[id]))
    ensures r.code == if s.nodes[id].size == 0 || NextPointer(s.heap, s.supply) != 0 then FS_OK else FS_ERR_NO_SPACE
    ensures (r.fs.edit.active <==> r.code == FS_OK) && r.fs.edit.target == 0 && !r.fs.edit.pendingValid
  {
    var data := Content(s.heap, NodeBuf(s.nodes[id]));
    if s.nodes[id].size != 0 { PutExactly(s, EMPTY, 0, data, Append(s.heap, EMPTY, data, s.supply)); }
  }

  // ---------- adding a line ----------

  /** The calls of `kmalloc` that adding `line` and its newline makes. */
  function LineCalls(b: Buf, line: string): nat
  {
    var need := b.len + |line|;
    Asks(b.cap, need) + Asks(CapFor(b.cap, need), need + 1)
  }

  /** A line is added exactly when the longer text fits in 64 KB and the memory it asks for is served. */
  lemma AddLineExactly(s: Fs, line: string, r: Outcome)
    requires Inv(s) && Live(s.heap, s.edit.buf) && r == AddLine(s, line)
    ensures var b := s.edit.buf;
      r.code == FS_OK <==> b.len + |line| + 1 <= 0x1_0000
                           && Given(Others(s.heap, b), b.ptr, s.supply.coming, LineCalls(b, line))
    ensures r.code == FS_OK || r.code == FS_ERR_NO_SPACE
  {
    EditIsLive(s);
    var a := Append(s.heap, s.edit.buf, line, s.supply);
    TwoAppends(s.heap, s.edit.buf, line, s.supply, a, Append(a.heap, a.buf, "\n", a.supply));
  }

  lemma TwoAppends(heap: Heap, b: Buf, line: string, supply: Supply, a: Result, q: Result)
    requires BufOk(heap, b) && 0 !in heap && a == Append(heap, b, line, supply)
    requires q == Append(a.heap, a.buf, "\n", a.supply)
    ensures a.ok && q.ok <==> Whole(heap, b, supply, |line| + 1, LineCalls(b, line))
  {
    var need := b.len + |line|;
    var rest := Asks(CapFor(b.cap, need), need + 1);
    AppendWhole(heap, b, line, supply, a, |line| + 1, LineCalls(b, line), 1, rest);
    if a.ok { LastServed(a.heap, a.buf, a.supply, "\n", q, 1, rest); }
  }

  lemma PlainLineExactly(s: Fs, line: string, r: Outcome)
    requires Inv(s) && s.edit.active && IsText(s, line) && r == HandleLine(s, line)
    ensures var b := s.edit.buf;
      r.code == FS_OK <==> b.len + |line| + 1 <= 0x1_0000
                           && Given(Others(s.heap, b), b.ptr, s.supply.coming, LineCalls(b, line))
  {
    assert Effective(s.edit.target, line) == AddIt(line);
    UntargetedKeeps(s);
    EditIsLive(s);
    AddLineExactly(Untargeted(s), line, r);
  }

  // ---------- saving ----------

  /** A save succeeds exactly when there is text and the remembered path can be written; then the session is over.
      Otherwise it goes on with the same text. */
  lemma SaveExactly(s: Fs, line: string, r: Outcome)
    requires Inv(s) && s.edit.active && (line == ":w" || line == ":save") && r == HandleLine(s, line)
    ensures r.code == FS_OK <==> Text(s) != "" && CanWrite(s, s.edit.path, Text(s))
    ensures Text(s) == "" ==> r.code == FS_ERR_INVALID
    ensures Text(s) != "" && r.code != FS_OK ==> r.code == WriteFile(s, s.edit.path, Text(s)).code
    ensures r.fs.edit == if r.code == FS_OK then Ended(s.edit) else s.edit.(target := 0)
  {
    assert Effective(s.edit.target, line) == SaveIt;
    SaveTextExactly(s, r);
  }

  lemma SaveTextExactly(s: Fs, r: Outcome)
    requires Inv(s) && s.edit.active && r == Handle(s, SaveIt)
    ensures r.code == FS_OK <==> Text(s) != "" && CanWrite(s, s.edit.path, Text(s))
    ensures Text(s) == "" ==> r.code == FS_ERR_INVALID
    ensures Text(s) != "" && r.code != FS_OK ==> r.code == WriteFile(s, s.edit.path, Text(s)).code
    ensures r.fs.edit == if r.code == FS_OK then Ended(s.edit) else s.edit.(target := 0)
  {
    UntargetedKeeps(s);
    SaveAnswers(Untargeted(s), r);
    SameAnswers(s, s.edit.path, Text(s));
  }

  /** The editor's variables once a session is over. */
  function Ended(e: Edit): Edit
  {
    e.(active := false, path := "", buf := EMPTY, pendingValid := false, target := 0)
  }

  lemma SaveAnswers(s: Fs, r: Outcome)
    requires Inv(s) && r == SaveText(s)
    ensures r.code == FS_OK <==> Text(s) != "" && CanWrite(s, s.edit.path, Text(s))
    ensures Text(s) == "" ==> r.code == FS_ERR_INVALID
    ensures Text(s) != "" && r.code != FS_OK ==> r.code == WriteFile(s, s.edit.path, Text(s)).code
    ensures r.fs.edit == if r.code == FS_OK then Ended(s.edit) else s.edit
  {
    EditIsLive(s);
    WriteAnswers(s, s.edit.path, Text(s));
    DataFrame(s, s.edit.path, Text(s), WriteFile(s, s.edit.path, Text(s)));
  }

  lemma WriteAnswers(s: Fs, path: string, data: string)
    requires Inv(s)
    ensures WriteFile(s, path, data).code == FS_OK <==> CanWrite(s, path, data)
  {
    var at := ResolveParent(s.nodes, s.cwd, path);
    WriteExactly(s, path, data, at, if at.At? then FindChild(s.nodes, at.parent, at.name) else 0,
                 WriteFile(s, path, data));
  }

  /** A pending inline edit does not matter to a write. */
  lemma SameAnswers(s: Fs, path: string, data: string)
    requires Inv(s) && Inv(Untargeted(s))
    ensures CanWrite(Untargeted(s), path, data) <==> CanWrite(s, path, data)
    ensures WriteFile(Untargeted(s), path, data).code == WriteFile(s, path, data).code
  {}

  // ---------- leaving ----------

  /** `:q` ends the session as a save does, and writes nothing. */
  lemma QuitExactly(s: Fs, line: string, r: Outcome)
    requires Inv(s) && s.edit.active && (line == ":q" || line == ":quit") && r == HandleLine(s, line)
    ensures r.code == FS_OK && r.fs.edit == Ended(s.edit)
    ensures r.fs.nodes == s.nodes && r.fs.cwd == s.cwd && r.fs.cwdPath == s.cwdPath
  {
    assert Effective(s.edit.target, line) == Quit;
    EditIsLive(s);
  }
}
