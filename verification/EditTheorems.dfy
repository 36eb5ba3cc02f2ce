/** The main results about the editor, and about every run of filesystem and editor calls. */
module EditTheorems {
  import opened Paths
  import opened FsTree
  import opened Buffers
  import opened FsModel
  import opened FsRuns
  import opened EditText
  import opened Options
  import opened EditModel
  import opened EditProofs
  import opened EditMemory
  import opened Runs

  // ---------- line replacement ----------

  /** Line `n` of the text, counted from 1. */
  function Line(s: string, n: nat): string
    requires 1 <= n && LineStart(s, n - 1) <= |s|
  {
    s[LineStart(s, n - 1)..LineEnd(s, LineStart(s, n - 1))]
  }

  function Replaced(s: string, n: nat, text: string): string
    requires 1 <= n && LineStart(s, n - 1) <= |s|
  {
    Splice(s, LineStart(s, n - 1), text)
  }

  /** `:e n text` with `n` in range reports success, and the text becomes the exact splice precisely when that fits in
      64 KB and every `kmalloc` call of the rebuild is served, as nine fresh pointers always ensure. */
  lemma LineReplacementIsASplice(s: Fs, arg: string, n: nat, text: string, r: Outcome)
    requires Inv(s) && s.edit.active && 1 <= n <= TotalLines(Text(s)) && Live(s.heap, s.edit.buf)
    requires ParseNumber(0, arg) == (n, " " + text) && r == LineCommand(s, arg)
    ensures LineStart(Text(s), n - 1) <= |Text(s)| && r.code == FS_OK && Files(r.fs) == Files(s)
    ensures Text(r.fs) == Replaced(Text(s), n, text) <==> Fits(s, n, text) && Served(s, n, text)
    ensures Fits(s, n, text) && Plenty(s) ==> Served(s, n, text)
  {
    EditIsASplice(s, n, text, r);
  }

  /** The text with line `n` replaced is no larger than a file may be. */
  ghost predicate Fits(s: Fs, n: nat, text: string)
    requires 1 <= n && LineStart(Text(s), n - 1) <= |Text(s)|
  {
    |Replaced(Text(s), n, text)| <= FS_MAX_FILE_SIZE
  }

  /** The same once the number is read.  A text that is not the splice is shorter than it. */
  lemma EditIsASplice(s: Fs, n: nat, text: string, r: Outcome)
    requires Inv(s) && s.edit.active && 1 <= n <= TotalLines(Text(s)) && Live(s.heap, s.edit.buf)
    requires r == LineEdit(s, n, " " + text)
    ensures LineStart(Text(s), n - 1) <= |Text(s)| && r.code == FS_OK && Files(r.fs) == Files(s)
    ensures Text(r.fs) == Replaced(Text(s), n, text) <==> Fits(s, n, text) && Served(s, n, text)
    ensures Text(r.fs) == Replaced(Text(s), n, text) || |Text(r.fs)| < |Replaced(Text(s), n, text)|
    ensures Fits(s, n, text) && Plenty(s) ==> Served(s, n, text)
  {
    LineEditReplaces(s, n, text, r);
    ReplaceIsSplice(s, n, text, Replace(s, n - 1, text), r.fs);
  }

  lemma LineEditReplaces(s: Fs, n: nat, text: string, r: Outcome)
    requires Inv(s) && Live(s.heap, s.edit.buf)
    requires 1 <= n <= TotalLines(Text(s)) && r == LineEdit(s, n, " " + text)
    ensures Live(Replace(s, n - 1, text).heap, s.edit.buf)
    ensures r == Outcome(Install(s, Replace(s, n - 1, text)), FS_OK)
  {
    LineCountIsSmall(s);
    assert (" " + text)[1..] == text;
    assert s.edit.buf.len != 0;
  }

  lemma ReplaceIsSplice(s: Fs, n: nat, text: string, r: Result, s': Fs)
    requires Inv(s) && s.edit.active && 1 <= n <= TotalLines(Text(s))
    requires r == Replace(s, n - 1, text) && Live(r.heap, s.edit.buf) && s' == Install(s, r)
    ensures LineStart(Text(s), n - 1) <= |Text(s)| && Files(s') == Files(s)
    ensures Text(s') == Replaced(Text(s), n, text) <==> Fits(s, n, text) && Served(s, n, text)
    ensures Text(s') == Replaced(Text(s), n, text) || |Text(s')| < |Replaced(Text(s), n, text)|
    ensures Fits(s, n, text) && Plenty(s) ==> Served(s, n, text)
  {
    RebuiltIsReplaced(Text(s), n, text);
    ReplaceKeeps(s, n - 1, text, r);
    ReplaceServed(s, n, text, r);
    if Fits(s, n, text) && Plenty(s) { PlentyServes(s, n, text); }
  }

  /** The failing case: with no memory to be had, replacing any line by any text reports success and leaves no text at
      all. */
  lemma NoMemoryLosesText(s: Fs, n: nat, text: string, r: Outcome)
    requires Inv(s) && s.edit.active && 1 <= n <= TotalLines(Text(s)) && Live(s.heap, s.edit.buf)
    requires s.supply.coming == [] && r == LineEdit(s, n, " " + text)
    ensures r.code == FS_OK && Inv(r.fs) && Files(r.fs) == Files(s) && Text(r.fs) == ""
  {
    var t := Replace(s, n - 1, text);
    LineEditReplaces(s, n, text, r);
    ReplaceKeeps(s, n - 1, text, t);
    RebuildStarved(s.heap, s.supply, Text(s), 0, 0, n - 1, text, t);
  }

  lemma RebuiltIsReplaced(was: string, n: nat, text: string)
    requires 1 <= n <= TotalLines(was)
    ensures LineStart(was, n - 1) <= |was| && Rebuild(was, 0, 0, n - 1, text) == Replaced(was, n, text)
  {
    LineExists(was, n - 1);
    var pos := LineStart(was, n - 1);
    assert was[..0] == "";
    RebuildSplices(was, 0, 0, n - 1, text, pos, text + was[LineEnd(was, pos)..]);
    assert was[0..pos] == was[..pos];
  }

  // ---------- which line is edited ----------

  /** What may follow the number. */
  predicate WellFollowed(rest: string) { rest == "" || rest[0] == ' ' }

  /** The number is kept in a 32-bit `int`, so what counts is the typed number modulo 2^32: the command is accepted
      exactly when that is a line number and a space or nothing follows; otherwise it changes nothing. */
  lemma AcceptedExactly(s: Fs, arg: string, r: Outcome)
    requires Inv(s) && Live(s.heap, s.edit.buf) && r == LineCommand(s, arg)
    ensures r.code == FS_OK <==> 1 <= Int32(Typed(0, arg)) <= TotalLines(Text(s)) && WellFollowed(AfterDigits(arg))
    ensures r.code != FS_OK ==> r == Outcome(s, FS_ERR_INVALID)
  {
    ParseWraps(0, arg);
    LineEditAccepts(s, Int32(Typed(0, arg)), AfterDigits(arg), r);
  }

  lemma LineEditAccepts(s: Fs, n: int, rest: string, r: Outcome)
    requires Inv(s) && Live(s.heap, s.edit.buf) && -0x8000_0000 <= n < 0x8000_0000 && r == LineEdit(s, n, rest)
    ensures r.code == FS_OK <==> 1 <= n <= TotalLines(Text(s)) && WellFollowed(rest)
    ensures r.code != FS_OK ==> r == Outcome(s, FS_ERR_INVALID)
  {
    LineCountIsSmall(s);
  }

  /** A number out of range leaves everything as it is exactly when it does not wrap back into range. */
  lemma OutOfRangeChangesNothing(s: Fs, n: nat, text: string, r: Outcome)
    requires Inv(s) && Live(s.heap, s.edit.buf) && (n == 0 || n > TotalLines(Text(s)))
    requires r == LineCommand(s, Decimal(n) + (" " + text))
    ensures r == Outcome(s, FS_ERR_INVALID) <==> !(1 <= Int32(n) <= TotalLines(Text(s)))
    ensures n < 0x8000_0000 ==> r == Outcome(s, FS_ERR_INVALID)
  {
    TypedDecimal(n, " " + text);
    AcceptedExactly(s, Decimal(n) + (" " + text), r);
  }

  /** An accepted command edits the line with the wrapped number, which is the typed one exactly when that is below
      2^31. */
  lemma EditsTypedLineExactly(s: Fs, n: nat, text: string, w: int, r: Outcome)
    requires Inv(s) && Live(s.heap, s.edit.buf) && w == Int32(n) && 1 <= w <= TotalLines(Text(s))
    requires r == LineCommand(s, Decimal(n) + (" " + text))
    ensures Live(Replace(s, w - 1, text).heap, s.edit.buf)
    ensures r == Outcome(Install(s, Replace(s, w - 1, text)), FS_OK)
    ensures w == n <==> n < 0x8000_0000
  {
    ParseOfPrint(n, " " + text);
    LineEditReplaces(s, w, text, r);
  }

  /** The smallest number that is taken for line 1. */
  lemma WrappedNumberEditsLineOne(s: Fs, n: nat, text: string, r: Outcome)
    requires Inv(s) && Live(s.heap, s.edit.buf) && Text(s) != "" && n == 4294967297
    requires r == LineCommand(s, Decimal(n) + (" " + text))
    ensures Live(Replace(s, 0, text).heap, s.edit.buf)
    ensures r == Outcome(Install(s, Replace(s, 0, text)), FS_OK) && n > TotalLines(Text(s))
  {
    LineCountIsSmall(s);
    SomeLine(Text(s));
    WrapsToOne(n);
    EditsTypedLineExactly(s, n, text, 1, r);
  }

  lemma WrapsToOne(n: nat)
    requires n == 4294967297
    ensures Int32(n) == 1
  {}

  lemma SomeLine(s: string)
    requires s != ""
    ensures TotalLines(s) >= 1
  {}

  // ---------- inline editing ----------

  /** A line that starts with `:e ` is the line command, whether or not an inline edit is pending. */
  lemma ColonE(target: nat, arg: string)
    ensures RequestOf(":e " + arg) == EditIt(arg) == Effective(target, ":e " + arg)
  {
    var line := ":e " + arg;
    assert line[..3] == ":e " && line[3..] == arg && line[0] == ':' && line[1] == 'e' && line[2] == ' ';
    assert line != ":save" && line != ":w" && line != ":q" && line != ":quit" && line != ":p" by {
      assert ":save"[1] == 's' && ":w"[1] == 'w' && ":q"[1] == 'q' && ":quit"[1] == 'q' && ":p"[1] == 'p';
    }
  }

  lemma EditHandled(s: Fs, arg: string, n: int, rest: string, r: Outcome)
    requires Inv(s) && s.edit.active && r == Handle(s, EditIt(arg)) && ParseNumber(0, arg) == (n, rest)
    ensures Live(s.heap, s.edit.buf) && r == LineEdit(Untargeted(s), n, rest)
  {
    EditIsLive(s);
  }

  /** The state after `:e n`. */
  function Fetched(s: Fs, n: nat): Fs
    requires 1 <= n && LineStart(Text(s), n - 1) <= |Text(s)|
  {
    Prepare(s, n, Truncate(Line(Text(s), n), FS_MAX_PATH))
  }

  /** `:e n` on the state: line `n` is fetched, at most 255 bytes of it. */
  lemma FetchEdit(s: Fs, n: nat, r: Outcome)
    requires Live(s.heap, s.edit.buf) && 1 <= n <= TotalLines(Text(s)) && r == LineEdit(s, n, "")
    ensures LineStart(Text(s), n - 1) <= |Text(s)| && r == Outcome(Fetched(s, n), FS_OK)
  {
    assert s.edit.buf.len != 0;
    LineExists(Text(s), n - 1);
  }

  /** `:e n` fetches line `n` and changes nothing else. */
  lemma FetchPrepares(s: Fs, n: nat, arg: string, r: Outcome)
    requires Inv(s) && s.edit.active && 1 <= n <= TotalLines(Text(s))
    requires arg == Decimal(n) && r == HandleLine(s, ":e " + arg)
    ensures LineStart(Text(s), n - 1) <= |Text(s)| && r == Outcome(Fetched(s, n), FS_OK)
  {
    LineCountIsSmall(s);
    assert Decimal(n) + "" == Decimal(n);
    ParseUndoesPrint(n, "");
    ColonE(s.edit.target, arg);
    EditHandled(s, arg, n, "", r);
    FetchEdit(Untargeted(s), n, r);
  }

  /** What is left of a line when it is handed back: the synthetic command is cut to 4094 characters. */
  function HandedText(n: nat, line: string): string
  {
    var digits := |Decimal(n)|;
    if digits <= 4090 then Truncate(line, 4091 - digits) else ""
  }

  /** Handing a line back to an inline edit of line `n` edits line `n`: the command `:e n line` is printed, read and not
      handed back again. */
  lemma HandBackIsReplacement(s: Fs, n: nat, line: string, text: string, r: Outcome)
    requires Inv(s) && s.edit.active && s.edit.target == n > 0 && (line == "" || line[0] != ':')
    requires text == HandedText(n, line) && r == HandleLine(s, line)
    ensures Live(s.heap, s.edit.buf) && r == LineEdit(Untargeted(s), n, " " + text)
  {
    var arg := SyntheticRead(n, line, text);
    EditHandled(s, arg, n, " " + text, r);
  }

  /** The synthetic command is read as the edit of that line. */
  lemma SyntheticRead(n: nat, line: string, text: string) returns (arg: string)
    requires 0 < n <= FS_MAX_FILE_SIZE && text == HandedText(n, line) && (line == "" || line[0] != ':')
    ensures Effective(n, line) == EditIt(arg) && ParseNumber(0, arg) == (n, " " + text)
  {
    LineNumbersAreShort(n);
    arg := Decimal(n) + (" " + text);
    SyntheticIs(n, line, text);
    ColonE(n, arg);
    ParseUndoesPrint(n, " " + text);
  }

  lemma SyntheticIs(n: nat, line: string, text: string)
    requires |Decimal(n)| <= 5 && text == Truncate(line, 4091 - |Decimal(n)|)
    ensures Synthetic(n, line) == ":e " + (Decimal(n) + (" " + text))
  {
    var head := ":e " + Decimal(n) + " ";
    assert |head| == 4 + |Decimal(n)|;
    assert head + text == ":e " + (Decimal(n) + (" " + text));
    assert |line| > 4090 - |Decimal(n)| ==> (head + line)[..4094] == head + line[..4090 - |Decimal(n)|];
  }

  lemma {:induction false} DecimalLength(n: nat, k: nat, p: nat)
    requires n < p && p == Ten(k) && k > 0
    ensures |Decimal(n)| <= k
  {
    if n >= 10 { DecimalLength(n / 10, k - 1, Ten(k - 1)); }
  }

  function Ten(k: nat): nat { if k == 0 then 1 else 10 * Ten(k - 1) }

  /** A line number has at most five digits: `rev[8]` and `prefix[16]` (fs.c:617-624) always hold it. */
  lemma LineNumbersAreShort(n: nat)
    requires n <= FS_MAX_FILE_SIZE
    ensures |Decimal(n)| <= 5
  {
    assert Ten(2) == 100 && Ten(5) == 100000;
    DecimalLength(n, 5, Ten(5));
  }

  /** Identity: fetching line `n`, taking it and handing it back leaves the text byte-identical, for a line that does
      not read as a command, exactly when the line has no NUL and at most 255 bytes and every `kmalloc` call of the
      rebuild is served. */
  lemma InlineEditIsIdentity(s: Fs, n: nat, first: Outcome, back: string, second: Outcome)
    requires Inv(s) && s.edit.active && 1 <= n <= TotalLines(Text(s))
    requires first == HandleLine(s, ":e " + Decimal(n))
    requires PendingLine(first.fs).Some? ==> back == PendingLine(first.fs).value
    requires back == "" || back[0] != ':'
    requires Inv(PendingTaken(first.fs)) ==> second == HandleLine(PendingTaken(first.fs), back)
    ensures LineStart(Text(s), n - 1) <= |Text(s)| && first == Outcome(Fetched(s, n), FS_OK)
    ensures PendingLine(first.fs) == Some(back) && Inv(PendingTaken(first.fs)) && second.code == FS_OK
    ensures Text(second.fs) == Text(s) <==> PlainLine(Line(Text(s), n)) && Served(s, n, back)
    ensures Plenty(s) ==> Served(s, n, back)
  {
    FetchPrepares(s, n, Decimal(n), first);
    PrepareKeeps(s, n, Truncate(Line(Text(s), n), FS_MAX_PATH));
    PendingTakenKeeps(first.fs);
    HandedBack(PendingTaken(first.fs), n, Line(Text(s), n), back, second);
  }

  /** A line that is fetched whole. */
  predicate PlainLine(line: string) { '\0' !in line && |line| <= 255 }

  lemma HandedBack(s: Fs, n: nat, line: string, back: string, r: Outcome)
    requires Inv(s) && s.edit.active && 1 <= n <= TotalLines(Text(s)) && s.edit.target == n
    requires LineStart(Text(s), n - 1) <= |Text(s)| && line == Line(Text(s), n)
    requires back == UpToNul(Truncate(line, FS_MAX_PATH)) && (back == "" || back[0] != ':') && r == HandleLine(s, back)
    ensures r.code == FS_OK && (Text(r.fs) == Text(s) <==> PlainLine(line) && Served(s, n, back))
    ensures Plenty(s) ==> Served(s, n, back)
  {
    ShortLineFits(n, line, back);
    HandBackIsReplacement(s, n, back, back, r);
    UntargetedKeeps(s);
    ReplacedBySelf(Untargeted(s), n, line, back, r);
  }

  lemma ReplacedBySelf(s: Fs, n: nat, line: string, back: string, r: Outcome)
    requires Inv(s) && s.edit.active && 1 <= n <= TotalLines(Text(s)) && Live(s.heap, s.edit.buf)
    requires LineStart(Text(s), n - 1) <= |Text(s)| && line == Line(Text(s), n)
    requires back == UpToNul(Truncate(line, FS_MAX_PATH)) && r == LineEdit(s, n, " " + back)
    ensures r.code == FS_OK && (Text(r.fs) == Text(s) <==> PlainLine(line) && Served(s, n, back))
    ensures Plenty(s) ==> Served(s, n, back)
  {
    EditIsASplice(s, n, back, r);
    TextIsBounded(s);
    SelfReplaced(Text(s), n, line, back);
  }

  lemma ShortLineFits(n: nat, line: string, back: string)
    requires n <= FS_MAX_FILE_SIZE && back == UpToNul(Truncate(line, FS_MAX_PATH))
    ensures back == HandedText(n, back)
  {
    LineNumbersAreShort(n);
    PrefixUpToNul(line);
  }

  lemma SelfReplaced(s: string, n: nat, line: string, back: string)
    requires 1 <= n && LineStart(s, n - 1) <= |s| && line == Line(s, n)
    requires back == UpToNul(Truncate(line, FS_MAX_PATH))
    ensures Replaced(s, n, back) == s <==> PlainLine(line)
    ensures |Replaced(s, n, back)| <= |s|
  {
    PrefixUpToNul(line);
    NulFree(line);
    SpliceSelfExactly(s, LineStart(s, n - 1), back);
  }

  /** Replacing a line by something no longer than it gives the text back exactly when it is the line itself. */
  lemma SpliceSelfExactly(s: string, pos: nat, text: string)
    requires pos <= |s| && |text| <= LineEnd(s, pos) - pos
    ensures Splice(s, pos, text) == s <==> text == s[pos..LineEnd(s, pos)]
    ensures |Splice(s, pos, text)| <= |s|
  {
    var e := LineEnd(s, pos);
    if Splice(s, pos, text) == s {
      assert |text| == e - pos;
      assert s[pos..e] == Splice(s, pos, text)[pos..e];
      assert Splice(s, pos, text)[pos..e] == text;
    }
  }

  lemma PrefixUpToNul(line: string)
    ensures UpToNul(Truncate(line, FS_MAX_PATH)) == line <==> UpToNul(line) == line && |line| <= 255
    ensures |UpToNul(Truncate(line, FS_MAX_PATH))| <= |line| && |UpToNul(Truncate(line, FS_MAX_PATH))| <= 255
  {}

  // ---------- every run ----------

  datatype Call =
    | CdCall(path: string)
    | MkdirCall(path: string)
    | TouchCall(path: string)
    | RmCall(path: string)
    | WriteCall(path: string, data: string)
    | AppendCall(path: string, data: string)
    | BeginCall(path: string)
    | LineCall(line: string)
    | TakeCall

  function Apply(s: Fs, c: Call): Outcome
    requires Inv(s)
  {
    match c
    case CdCall(path) => Cd(s, path)
    case MkdirCall(path) => Mkdir(s, path)
    case TouchCall(path) => Touch(s, path)
    case RmCall(path) => Rm(s, path)
    case WriteCall(path, data) => WriteFile(s, path, data)
    case AppendCall(path, data) => AppendFile(s, path, data)
    case BeginCall(path) => Begin(s, path)
    case LineCall(line) => HandleLine(s, line)
    case TakeCall => Outcome(PendingTaken(s), FS_OK)
  }

  lemma ApplyKeeps(s: Fs, c: Call, r: Outcome)
    requires Inv(s) && r == Apply(s, c)
    ensures Inv(r.fs)
  {
    match c
    case CdCall(path) => CdIsSound(s, path, r);
    case MkdirCall(path) => MkdirIsSound(s, path, r);
    case TouchCall(path) => TouchIsSound(s, path, r);
    case RmCall(path) => RmIsSound(s, path, r);
    case _ => DataCallKeeps(s, c, r);
  }

  lemma DataCallKeeps(s: Fs, c: Call, r: Outcome)
    requires Inv(s) && r == Apply(s, c) && !c.CdCall? && !c.MkdirCall? && !c.TouchCall? && !c.RmCall?
    ensures Inv(r.fs)
  {
    match c
    case WriteCall(path, data) => WriteIsSound(s, path, data, r);
    case AppendCall(path, data) => AppendIsSound(s, path, data, r);
    case BeginCall(path) => BeginIsSound(s, path, r);
    case LineCall(line) => HandleKeeps(s, Effective(s.edit.target, line), r);
    case TakeCall => PendingTakenKeeps(s);
  }

  lemma CdIsSound(s: Fs, path: string, r: Outcome)
    requires Inv(s) && r == Cd(s, path)
    ensures Inv(r.fs)
  {
    CdKeeps(s, path);
  }

  lemma MkdirIsSound(s: Fs, path: string, r: Outcome)
    requires Inv(s) && r == Mkdir(s, path)
    ensures Inv(r.fs)
  {
    MkdirKeeps(s, path);
  }

  lemma TouchIsSound(s: Fs, path: string, r: Outcome)
    requires Inv(s) && r == Touch(s, path)
    ensures Inv(r.fs)
  {
    TouchKeeps(s, path);
  }

  lemma RmIsSound(s: Fs, path: string, r: Outcome)
    requires Inv(s) && r == Rm(s, path)
    ensures Inv(r.fs)
  {
    RmKeeps(s, path);
  }

  lemma WriteIsSound(s: Fs, path: string, data: string, r: Outcome)
    requires Inv(s) && r == WriteFile(s, path, data)
    ensures Inv(r.fs)
  {
    WriteKeeps(s, path, data);
  }

  lemma AppendIsSound(s: Fs, path: string, data: string, r: Outcome)
    requires Inv(s) && r == AppendFile(s, path, data)
    ensures Inv(r.fs)
  {
    AppendKeeps(s, path, data);
  }

  lemma BeginIsSound(s: Fs, path: string, r: Outcome)
    requires Inv(s) && r == Begin(s, path)
    ensures Inv(r.fs)
  {
    BeginKeeps(s, path);
  }

  /** A call made in a sound state leads to its result. */
  ghost predicate Follows(s: Fs, c: Call, s': Fs) { Inv(s) ==> s' == Apply(s, c).fs }

  ghost predicate Run(states: seq<Fs>, calls: seq<Call>, coming: seq<nat>)
  {
    IsRun(Follows, states, calls) && states[0] == InitState(coming)
  }

  lemma FollowerIsSound(s: Fs, c: Call, s': Fs)
    requires Inv(s) && Follows(s, c, s')
    ensures Inv(s')
  {
    ApplyKeeps(s, c, Apply(s, c));
  }

  /** In every state of every run the invariant holds. */
  lemma {:induction false} EveryRunIsSound(states: seq<Fs>, calls: seq<Call>, coming: seq<nat>, i: nat)
    requires Run(states, calls, coming) && i <= |calls|
    ensures Inv(states[i])
  {
    if i == 0 {
      InitIsSound(coming);
    } else {
      EveryRunIsSound(states, calls, coming, i - 1);
      NextIsSound(states, calls, coming, i - 1);
    }
  }

  lemma NextIsSound(states: seq<Fs>, calls: seq<Call>, coming: seq<nat>, i: nat)
    requires Run(states, calls, coming) && i < |calls| && Inv(states[i])
    ensures Inv(states[i + 1])
  {
    FollowerIsSound(states[i], calls[i], states[i + 1]);
  }

  /** Every allocation, store and free so far was legal when it was made, each pointer's allocations minus frees being 0
      or 1 at any moment; together they account for every live buffer and every byte in it, and each live pointer has
      exactly one owner. */
  ghost predicate MemorySafe(s: Fs)
  {
    && InOrder(s.supply.ledger) && Replay(s.supply.ledger) == s.heap
    && (forall n, p :: 0 <= n <= |s.supply.ledger| ==> 0 <= Balance(s.supply.ledger[..n], p) <= 1)
    && (forall p :: Balance(s.supply.ledger, p) == if p in s.heap then 1 else 0)
    && (forall p :: p in s.heap ==> HasOwner(Slots(s.nodes, s.edit), p))
    && (forall o, q :: 0 <= o < q <= |s.nodes| ==> !SharedBy(Slots(s.nodes, s.edit), o, q))
  }

  ghost predicate SharedBy(slots: seq<Buf>, o: nat, q: nat)
    requires o < |slots| && q < |slots|
  {
    slots[o].ptr != 0 && slots[o].ptr == slots[q].ptr
  }

  lemma InvIsMemorySafe(s: Fs)
    requires Accounts(s.heap, s.supply) && Owned(s.heap, Slots(s.nodes, s.edit))
    ensures MemorySafe(s)
  {
    var ledger := s.supply.ledger;
    forall n, p | 0 <= n <= |ledger| ensures 0 <= Balance(ledger[..n], p) <= 1 {
      AccountIsZeroOrOne(ledger, n, p);
    }
    assert ledger[..|ledger|] == ledger;
    forall p ensures Balance(ledger, p) == if p in s.heap then 1 else 0 {
      AccountIsZeroOrOne(ledger, |ledger|, p);
    }
  }

  /** In every reachable state: the nodes form a tree no deeper than 127; the cached path is the fresh rendering of the
      current directory and resolves to it exactly when it was not cut off; every live buffer has exactly one owner,
      every store was inside a live buffer and every buffer handed out was freed at most once; and a pending line number
      has at most five digits. */
  lemma EveryRun(states: seq<Fs>, calls: seq<Call>, coming: seq<nat>, i: nat)
    requires Run(states, calls, coming) && i <= |calls|
    ensures var s := states[i];
      && Inv(s) && MemorySafe(s) && IsNode(s.nodes, 0) && |Decimal(s.edit.target)| <= 5
      && (Resolve(s.nodes, 0, s.cwdPath, false) == s.cwd <==> |FullPath(s.nodes, s.cwd)| <= 254)
      && (forall id, depth :: IsNode(s.nodes, id) && Ranked(s.nodes, depth) ==> depth[id] <= 127)
  {
    var s := states[i];
    EveryRunIsSound(states, calls, coming, i);
    InvIsMemorySafe(s);
    LineNumbersAreShort(s.edit.target);
    RenderedPathResolves(s.nodes, s.cwd);
    forall id, depth | IsNode(s.nodes, id) && Ranked(s.nodes, depth) ensures depth[id] <= 127 {
      DepthBound(s.nodes, depth, id);
    }
  }
}
