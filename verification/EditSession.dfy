/**
 Editing sessions (src/kernel/fs.c:579-745): whatever lines are typed after a file is opened, a save puts the text into
 that file, unless its path was cut off.
 */
module EditSession {
  import opened Paths
  import opened FsTree
  import opened Buffers
  import opened FsModel
  import opened FsRuns
  import opened FsRoundTrip
  import opened EditModel
  import opened EditProofs
  import opened Runs

  // ---------- single lines ----------

  /** A line that is added to the text: it is no command, and no inline edit waits for it. */
  predicate IsText(s: Fs, line: string)
  {
    RequestOf(line).AddIt? && (s.edit.target == 0 || (line != "" && line[0] == ':'))
  }

  /** Such a line is added to the text with a newline, or the error is reported; no inline edit is pending any more. */
  lemma PlainLineAppends(s: Fs, line: string, r: Outcome)
    requires Inv(s) && s.edit.active && IsText(s, line) && r == HandleLine(s, line)
    ensures Inv(r.fs) && Files(r.fs) == Files(s) && r.fs.edit.active && r.fs.edit.target == 0
    ensures r.code == FS_OK ==> Text(r.fs) == Text(s) + line + "\n"
    ensures r.code != FS_OK ==> Text(r.fs) == Text(s) || Text(r.fs) == Text(s) + line
  {
    assert Effective(s.edit.target, line) == AddIt(line);
    LineAdded(s, line, r);
  }

  lemma LineAdded(s: Fs, line: string, r: Outcome)
    requires Inv(s) && s.edit.active && r == Handle(s, AddIt(line))
    ensures Inv(r.fs) && Files(r.fs) == Files(s) && r.fs.edit.active && r.fs.edit.target == 0
    ensures r.code == FS_OK ==> Text(r.fs) == Text(s) + line + "\n"
    ensures r.code != FS_OK ==> Text(r.fs) == Text(s) || Text(r.fs) == Text(s) + line
  {
    UntargetedKeeps(s);
    EditIsLive(s);
    AddLineKeeps(Untargeted(s), line, r);
  }

  /** `:q` ends the session, frees its buffer and changes no file. */
  lemma QuitDiscards(s: Fs, line: string, r: Outcome)
    requires Inv(s) && s.edit.active && (line == ":q" || line == ":quit") && r == HandleLine(s, line)
    ensures r.code == FS_OK && Inv(r.fs) && Files(r.fs) == Files(s) && !r.fs.edit.active && r.fs.edit.buf == EMPTY
    ensures s.edit.buf.ptr !in r.fs.heap
  {
    assert Effective(s.edit.target, line) == Quit;
    SessionQuit(s, r);
  }

  lemma SessionQuit(s: Fs, r: Outcome)
    requires Inv(s) && s.edit.active && r == Handle(s, Quit)
    ensures r.code == FS_OK && Inv(r.fs) && Files(r.fs) == Files(s) && !r.fs.edit.active && r.fs.edit.buf == EMPTY
    ensures s.edit.buf.ptr !in r.fs.heap
  {
    UntargetedKeeps(s);
    CloseKeeps(Untargeted(s));
  }

  // ---------- what a session keeps ----------

  /** While the session opened on `path` in state `s` lasts: every node is still there, the current directory is the
      same, and the session remembers the path, cut to 255 characters. */
  ghost predicate Open(s: Fs, path: string, t: Fs)
  {
    t.edit.active ==> SameTree(s, t) && t.edit.path == Truncate(path, FS_MAX_PATH)
  }

  ghost predicate SameTree(s: Fs, t: Fs) { Extends(s.nodes, t.nodes) && t.cwd == s.cwd }

  lemma ExtendsSelf(ns: seq<Node>)
    ensures Extends(ns, ns)
  {
    forall j | 0 <= j < |ns| ensures KeptAt(ns, ns, j) {}
  }

  lemma ExtendsTwice(a: seq<Node>, b: seq<Node>, c: seq<Node>)
    requires Extends(a, b) && Extends(b, c)
    ensures Extends(a, c)
  {
    forall j | 0 <= j < |a| ensures KeptAt(a, c, j) {
      assert KeptAt(a, b, j) && KeptAt(b, c, j);
    }
  }

  /** A command that does not end the session keeps the tree, the directory and the path. */
  lemma CommandKeepsOpen(s: Fs, request: Request, r: Outcome)
    requires Inv(s) && r == Command(s, request)
    ensures r.fs.edit.active ==> SameTree(s, r.fs) && r.fs.edit.path == s.edit.path
  {
    EditIsLive(s);
    ExtendsSelf(s.nodes);
    match request
    case SaveIt => SaveKeepsOpen(s, r);
    case EditIt(arg) => LineKeepsOpen(s, arg, r);
    case _ =>
  }

  lemma SaveKeepsOpen(s: Fs, r: Outcome)
    requires Inv(s) && r == SaveText(s)
    ensures r.fs.edit.active ==> SameTree(s, r.fs) && r.fs.edit.path == s.edit.path
  {
    ExtendsSelf(s.nodes);
    if s.edit.buf.ptr != 0 {
      WriteExtends(s, s.edit.path, Text(s), WriteFile(s, s.edit.path, Text(s)));
    }
  }

  lemma LineKeepsOpen(s: Fs, arg: string, r: Outcome)
    requires Live(s.heap, s.edit.buf) && r == LineCommand(s, arg)
    ensures r.fs.nodes == s.nodes && r.fs.cwd == s.cwd && r.fs.edit.path == s.edit.path
  {}

  lemma HandledKeepsOpen(t: Fs, request: Request, r: Outcome)
    requires Inv(t) && r == Handle(t, request)
    ensures r.fs.edit.active ==> t.edit.active && SameTree(t, r.fs) && r.fs.edit.path == t.edit.path
  {
    if t.edit.active {
      UntargetedKeeps(t);
      CommandKeepsOpen(Untargeted(t), request, r);
    }
  }

  lemma StepStaysOpen(s: Fs, path: string, t: Fs, request: Request, r: Outcome)
    requires Inv(t) && Open(s, path, t) && r == Handle(t, request)
    ensures Inv(r.fs) && Open(s, path, r.fs)
  {
    HandleKeeps(t, request, r);
    HandledKeepsOpen(t, request, r);
    if r.fs.edit.active { ExtendsTwice(s.nodes, t.nodes, r.fs.nodes); }
  }

  // ---------- sessions ----------

  ghost predicate FollowsLine(t: Fs, line: string, t': Fs) { Inv(t) ==> t' == HandleLine(t, line).fs }

  /** The states after each of the lines typed since `states[0]`. */
  ghost predicate Session(states: seq<Fs>, lines: seq<string>) { IsRun(FollowsLine, states, lines) }

  lemma LineStaysOpen(s: Fs, path: string, t: Fs, line: string, t': Fs)
    requires Inv(t) && Open(s, path, t) && FollowsLine(t, line, t')
    ensures Inv(t') && Open(s, path, t')
  {
    StepStaysOpen(s, path, t, Effective(t.edit.target, line), HandleLine(t, line));
  }

  lemma NextStaysOpen(s: Fs, path: string, states: seq<Fs>, lines: seq<string>, i: nat)
    requires Session(states, lines) && i < |lines| && Inv(states[i]) && Open(s, path, states[i])
    ensures Inv(states[i + 1]) && Open(s, path, states[i + 1])
  {
    LineStaysOpen(s, path, states[i], lines[i], states[i + 1]);
  }

  lemma BeginOpens(s: Fs, path: string, begun: Outcome)
    requires Inv(s) && begun == Begin(s, path) && begun.code == FS_OK
    ensures Inv(begun.fs) && Open(s, path, begun.fs) && IsFile(s, Resolve(s.nodes, s.cwd, path, false))
  {
    BeginKeeps(s, path);
    ExtendsSelf(s.nodes);
    BeginNames(s, path, begun);
  }

  lemma BeginNames(s: Fs, path: string, begun: Outcome)
    requires Inv(s) && begun == Begin(s, path) && begun.code == FS_OK
    ensures begun.fs.nodes == s.nodes && begun.fs.cwd == s.cwd && begun.fs.edit.path == Truncate(path, FS_MAX_PATH)
    ensures IsFile(s, Resolve(s.nodes, s.cwd, path, false))
  {
    EditIsLive(s);
    OpenNames(FreeEdit(s), path, Resolve(s.nodes, s.cwd, path, false), begun);
  }

  lemma OpenNames(s: Fs, path: string, id: int, begun: Outcome)
    requires 0 <= id < |s.nodes| && Live(s.heap, s.edit.buf) && begun == OpenFile(s, path, id) && begun.code == FS_OK
    ensures begun.fs.nodes == s.nodes && begun.fs.cwd == s.cwd && begun.fs.edit.path == Truncate(path, FS_MAX_PATH)
  {}

  lemma {:induction false} SessionStaysOpen(s: Fs, path: string, begun: Outcome, states: seq<Fs>, lines: seq<string>,
                                            i: nat)
    requires Inv(s) && begun == Begin(s, path) && begun.code == FS_OK && Session(states, lines) && states[0] == begun.fs
    requires i <= |lines|
    ensures Inv(states[i]) && Open(s, path, states[i])
  {
    if i == 0 {
      BeginOpens(s, path, begun);
    } else {
      SessionStaysOpen(s, path, begun, states, lines, i - 1);
      NextStaysOpen(s, path, states, lines, i - 1);
    }
  }

  // ---------- saving ----------

  lemma SaveWrites(t: Fs, saved: Outcome)
    requires Inv(t) && saved == SaveText(t) && saved.code == FS_OK
    ensures WriteFile(t, t.edit.path, Text(t)).code == FS_OK && |saved.fs.nodes| == FS_MAX_NODES
    ensures Files(saved.fs) == Files(t)[Written(t, t.edit.path) := Text(t)]
  {
    var r := WriteFile(t, t.edit.path, Text(t));
    WriteKeeps(t, t.edit.path, Text(t));
    CloseKeeps(r.fs);
  }

  /** A path that resolves to a file, and under which a write succeeds, is written to that very file. */
  lemma WritesResolvedFile(s: Fs, path: string, data: seq<char>)
    requires Inv(s) && IsFile(s, Resolve(s.nodes, s.cwd, path, false)) && WriteFile(s, path, data).code == FS_OK
    ensures Written(s, path) == Resolve(s.nodes, s.cwd, path, false)
  {
    var id, last := Resolve(s.nodes, s.cwd, path, false), LastPart(path);
    WriteNames(s, path, data, WriteFile(s, path, data));
    CutName(s.nodes, s.cwd, path);
    if |last| >= FS_MAX_NAME {
      LongNamesFail(s.nodes, s.cwd, path);
    } else {
      assert EndsWithTxt(last);
      ParsersAgree(s.nodes, s.cwd, path, id);
    }
  }

  /** Conversely, what is written is an existing node only if the path resolves to it, for paths without long parts. */
  lemma WrittenResolves(s: Fs, path: string, data: seq<char>, id: int)
    requires Inv(s) && IsNode(s.nodes, id) && WriteFile(s, path, data).code == FS_OK && Written(s, path) == id
    requires |LastPart(path)| < FS_MAX_NAME
    ensures Resolve(s.nodes, s.cwd, path, false) == id
  {
    var last := LastPart(path);
    WriteNames(s, path, data, WriteFile(s, path, data));
    CutName(s.nodes, s.cwd, path);
    assert EndsWithTxt(last);
    ParsersAgree(s.nodes, s.cwd, path, id);
  }

  lemma LongFirst(p: string)
    requires |p| >= FS_MAX_NAME && forall i :: 0 <= i < FS_MAX_NAME ==> p[i] != '/'
    ensures Components(p) != [] && |Components(p)[0]| >= FS_MAX_NAME
  {}

  /** A path with a part of 48 or more characters, starting at `k`, does not resolve. */
  lemma LongPartFails(ns: seq<Node>, start: int, path: string, k: nat)
    requires Tree(ns) && IsNode(ns, start) && k + FS_MAX_NAME <= |path| && (k > 0 ==> path[k - 1] == '/')
    requires forall i :: 0 <= i < FS_MAX_NAME ==> path[k..][i] != '/'
    ensures Walk(ns, start, Components(path)) < 0
  {
    var rest := path[k..];
    LongFirst(rest);
    if k == 0 {
      assert rest == path;
    } else {
      assert path == path[..k - 1] + "/" + rest;
      SplitAtSlash(path[..k - 1], rest);
      WalkAppend(ns, start, Components(path[..k - 1]), Components(rest));
    }
  }

  /** A path that resolves has no long part, and neither has any prefix of it. */
  lemma PrefixPartsAreShort(ns: seq<Node>, cwd: int, path: string, n: nat)
    requires Tree(ns) && IsNode(ns, cwd) && Resolve(ns, cwd, path, false) >= 0 && n <= |path|
    ensures |LastPart(path[..n])| < FS_MAX_NAME
  {
    var q := path[..n];
    var k := AfterSlash(q, n);
    if n - k >= FS_MAX_NAME {
      forall i | 0 <= i < FS_MAX_NAME ensures path[k..][i] != '/' { assert path[k..][i] == q[k + i]; }
      assert Placed(ns, 0);
      LongPartFails(ns, if path[0] == '/' then 0 else cwd, path, k);
    }
  }

  /** The text of `t` has gone into one file, the one under `path`; that is `file` exactly when `path` leads there. */
  ghost predicate SavedTo(t: Fs, path: string, file: int, saved: Outcome)
    requires Inv(t)
  {
    && |saved.fs.nodes| == FS_MAX_NODES
    && Files(saved.fs) == Files(t)[Written(t, path) := Text(t)]
    && (Written(t, path) == file <==> LeadsTo(t, path, file))
  }

  ghost predicate LeadsTo(t: Fs, path: string, file: int)
    requires Inv(t)
  {
    Resolve(t.nodes, t.cwd, path, false) == file
  }

  lemma WrittenWhere(t: Fs, path: string, remembered: string, data: string, file: int)
    requires Inv(t) && remembered == Truncate(path, FS_MAX_PATH) && WriteFile(t, remembered, data).code == FS_OK
    requires LeadsTo(t, path, file) && IsFile(t, file)
    ensures Written(t, remembered) == file <==> LeadsTo(t, remembered, file)
  {
    assert remembered == path[..|remembered|];
    PrefixPartsAreShort(t.nodes, t.cwd, path, |remembered|);
    if Written(t, remembered) == file {
      WrittenResolves(t, remembered, data, file);
    }
    if LeadsTo(t, remembered, file) {
      WritesResolvedFile(t, remembered, data);
    }
  }

  lemma SavedWhere(t: Fs, path: string, file: int, saved: Outcome)
    requires Inv(t) && t.edit.path == Truncate(path, FS_MAX_PATH) && saved == SaveText(t) && saved.code == FS_OK
    requires LeadsTo(t, path, file) && IsFile(t, file)
    ensures SavedTo(t, t.edit.path, file, saved)
  {
    SaveWrites(t, saved);
    WrittenWhere(t, path, t.edit.path, Text(t), file);
  }

  /** What is saved does not depend on a pending inline edit. */
  lemma SavedUntargeted(t: Fs, u: Fs, path: string, file: int, saved: Outcome)
    requires Inv(t) && Inv(u) && Files(u) == Files(t) && Text(u) == Text(t) && Written(u, path) == Written(t, path)
    requires u.nodes == t.nodes && u.cwd == t.cwd && SavedTo(u, path, file, saved)
    ensures SavedTo(t, path, file, saved)
  {}

  lemma WrittenUntargeted(t: Fs, path: string)
    requires Inv(t) && Inv(Untargeted(t))
    ensures Written(Untargeted(t), path) == Written(t, path)
  {}

  /** The file that was opened is still there, and its path still leads to it. */
  lemma OpenedFileStays(s: Fs, path: string, file: int, t: Fs)
    requires Inv(s) && Inv(t) && SameTree(s, t) && Resolve(s.nodes, s.cwd, path, false) == file && IsFile(s, file)
    ensures IsFile(t, file) && LeadsTo(t, path, file)
  {
    assert KeptAt(s.nodes, t.nodes, file);
    ResolveKept(s.nodes, t.nodes, s.cwd, path, false);
  }

  /** After any lines, `:w` or `:save` in a session opened on `path` writes the text to one file and changes no other.
      It is the file that was opened exactly when the path as remembered, cut to 255 characters, still leads to it,
      which is always so when nothing was cut. */
  lemma SaveWritesOpenedFile(s: Fs, path: string, file: int, begun: Outcome, states: seq<Fs>, lines: seq<string>,
                             i: nat, t: Fs, line: string, saved: Outcome)
    requires line == ":w" || line == ":save"
    requires Inv(s) && file == Resolve(s.nodes, s.cwd, path, false) && begun == Begin(s, path) && begun.code == FS_OK
    requires Session(states, lines) && states[0] == begun.fs && i <= |lines| && t == states[i] && t.edit.active
    requires Inv(t) ==> saved == HandleLine(t, line)
    ensures Inv(t) && IsFile(t, file)
    ensures saved.code == FS_OK ==> SavedTo(t, Truncate(path, FS_MAX_PATH), file, saved)
    ensures |path| < FS_MAX_PATH ==> LeadsTo(t, Truncate(path, FS_MAX_PATH), file)
  {
    SessionStaysOpen(s, path, begun, states, lines, i);
    BeginOpens(s, path, begun);
    OpenedFileStays(s, path, file, t);
    assert Effective(t.edit.target, line) == SaveIt;
    if saved.code == FS_OK { SavedInSession(t, path, file, saved); }
  }

  lemma SavedInSession(t: Fs, path: string, file: int, saved: Outcome)
    requires Inv(t) && t.edit.active && t.edit.path == Truncate(path, FS_MAX_PATH)
    requires saved == Handle(t, SaveIt) && saved.code == FS_OK && LeadsTo(t, path, file) && IsFile(t, file)
    ensures SavedTo(t, t.edit.path, file, saved)
  {
    UntargetedKeeps(t);
    SavedWhere(Untargeted(t), path, file, saved);
    WrittenUntargeted(t, t.edit.path);
    SavedUntargeted(t, Untargeted(t), t.edit.path, file, saved);
  }
}
