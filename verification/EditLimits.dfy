/**
 Inputs and runs that reach the limits of the editor (src/kernel/fs.c:579-735): a replacement without memory, after
 which the text is gone, a save under a path that was cut off, which goes into another file, and a line that is taken as
 a command when it is handed back.
 */
module EditLimits {
  import opened Paths
  import opened FsTree
  import opened FsUpdates
  import opened Buffers
  import opened FsModel
  import opened FsRuns
  import opened EditText
  import opened Options
  import opened EditModel
  import opened EditProofs
  import opened EditTheorems
  import opened EditSession
  import opened FsLimits

  // ---------- one file, opened ----------

  predicate TextName(name: string) { ValidName(name) && EndsWithTxt(name) && |name| < FS_MAX_NAME }

  /** The only entry besides the root is file 1, which holds `data`. */
  ghost predicate OnlyFile(s: Fs, name: string, data: string)
  {
    && Inv(s) && s.cwd == 0 && Files(s) == map[1 := data]
    && IsFile(s, 1) && s.nodes[1].parent == 0 && s.nodes[1].name == name
    && forall i :: 2 <= i < |s.nodes| ==> !s.nodes[i].used
  }

  /** The allocator has handed out the first `n` of `coming`. */
  ghost predicate Spent(s: Fs, coming: seq<nat>, n: nat)
    requires n <= |coming|
  {
    s.supply.coming == coming[n..] && forall p :: p in s.heap ==> p in coming[..n]
  }

  ghost predicate Distinct(coming: seq<nat>)
  {
    0 !in coming && forall i, j :: 0 <= i < j < |coming| ==> coming[i] != coming[j]
  }

  lemma NextIsFresh(s: Fs, coming: seq<nat>, n: nat)
    requires n < |coming| && Distinct(coming) && Spent(s, coming, n)
    ensures NextPointer(s.heap, s.supply) == coming[n] != 0
  {
    assert coming[n..][0] == coming[n];
    assert coming[n] !in coming[..n];
  }

  lemma AtRoot(ns: seq<Node>, name: string)
    requires Tree(ns) && IsNode(ns, 0) && TextName(name)
    ensures ResolveParent(ns, 0, name) == At(0, name)
  {}

  /** A write that creates file `id`. */
  ghost predicate NewFile(s: Fs, parent: int, name: string, id: int, r: Outcome)
  {
    && r.code == FS_OK && 0 <= id < |s.nodes| == |r.fs.nodes| == FS_MAX_NODES
    && r.fs.nodes == s.nodes[id := r.fs.nodes[id]]
    && IsFile(r.fs, id) && r.fs.nodes[id].parent == parent && r.fs.nodes[id].name == name
    && r.fs.cwd == s.cwd && r.fs.edit == s.edit
  }

  lemma WriteMakes(s: Fs, path: string, parent: int, name: string, id: int, data: string, r: Outcome)
    requires Inv(s) && ResolveParent(s.nodes, s.cwd, path) == At(parent, name) && TextName(name)
    requires FindChild(s.nodes, parent, name) == -1 && FreeFrom(s.nodes, 1) == id > 0
    requires 0 < |data| <= FS_MAX_FILE_SIZE && NextPointer(s.heap, s.supply) != 0 && r == WriteFile(s, path, data)
    ensures NewFile(s, parent, name, id, r) && Written(s, path) == id
    ensures r.fs.supply.coming == s.supply.coming[1..]
    ensures forall p :: p in r.fs.heap ==> p in s.heap || p == s.supply.coming[0]
  {
    var c := CreateEntry(s, parent, name, false);
    assert NodeBuf(c.fs.nodes[id]) == EMPTY;
    FirstBytes(s.heap, data, s.supply, Overwrite(s.heap, EMPTY, data, s.supply));
  }

  lemma FirstBytes(heap: Heap, data: string, supply: Supply, r: Result)
    requires 0 < |data| <= FS_MAX_FILE_SIZE && NextPointer(heap, supply) != 0
    requires r == Overwrite(heap, EMPTY, data, supply)
    ensures r.ok && r.supply.coming == supply.coming[1..]
    ensures forall p :: p in r.heap ==> p in heap || p == supply.coming[0]
  {}

  lemma FirstWrite(name: string, data: string, coming: seq<nat>, s: Fs, r: Outcome)
    requires TextName(name) && 0 < |data| <= FS_MAX_FILE_SIZE && Distinct(coming) && coming != []
    requires s == InitState(coming) && Inv(s) && r == WriteFile(s, name, data)
    ensures r.code == FS_OK && OnlyFile(r.fs, name, data) && Spent(r.fs, coming, 1) && r.fs.edit == NO_EDIT
  {
    InitIsSound(coming);
    FirstSlot(name, coming, s);
    WriteToNothing(s, name, data, coming, r);
  }

  lemma WriteToNothing(s: Fs, name: string, data: string, coming: seq<nat>, r: Outcome)
    requires Inv(s) && Files(s) == map[] && s.cwd == 0 && s.heap == map[] && s.supply.coming == coming != []
    requires forall i :: 2 <= i < |s.nodes| ==> !s.nodes[i].used
    requires ResolveParent(s.nodes, 0, name) == At(0, name) && TextName(name) && 0 < |data| <= FS_MAX_FILE_SIZE
    requires FindChild(s.nodes, 0, name) == -1 && FreeFrom(s.nodes, 1) == 1 && NextPointer(s.heap, s.supply) != 0
    requires r == WriteFile(s, name, data)
    ensures r.code == FS_OK && OnlyFile(r.fs, name, data) && Spent(r.fs, coming, 1) && r.fs.edit == s.edit
  {
    WriteKeeps(s, name, data);
    WriteMakes(s, name, 0, name, 1, data, r);
    IsOnlyFile(s, name, data, r);
    FirstSpent(s, coming, r.fs);
  }

  lemma FirstSpent(s: Fs, coming: seq<nat>, s': Fs)
    requires s.heap == map[] && s.supply.coming == coming != [] && s'.supply.coming == coming[1..]
    requires forall p :: p in s'.heap ==> p in s.heap || p == coming[0]
    ensures Spent(s', coming, 1)
  {
    assert coming[..1][0] == coming[0];
  }

  lemma FirstSlot(name: string, coming: seq<nat>, s: Fs)
    requires TextName(name) && s == InitState(coming) && Tree(s.nodes) && Distinct(coming) && coming != []
    ensures ResolveParent(s.nodes, s.cwd, name) == At(0, name)
    ensures FindChild(s.nodes, 0, name) == -1 && FreeFrom(s.nodes, 1) == 1
    ensures NextPointer(s.heap, s.supply) == coming[0] != 0
  {
    DeepStart(name, coming);
    NoChildYet(name, 0, name);
    AtRoot(s.nodes, name);
  }

  lemma IsOnlyFile(s: Fs, name: string, data: string, r: Outcome)
    requires NewFile(s, 0, name, 1, r) && Inv(r.fs) && Files(r.fs) == map[1 := data] && s.cwd == 0
    requires forall i :: 2 <= i < |s.nodes| ==> !s.nodes[i].used
    ensures OnlyFile(r.fs, name, data)
  {}

  /** Opening it, under any path that comes down to its name. */
  lemma OpenOnly(s: Fs, name: string, data: string, path: string, coming: seq<nat>, r: Outcome)
    requires OnlyFile(s, name, data) && 0 < |data| && !s.edit.active && TextName(name)
    requires Distinct(coming) && 1 < |coming| && Spent(s, coming, 1)
    requires path != "" && Components(path) == [name] && r == Begin(s, path)
    ensures r.code == FS_OK && OnlyFile(r.fs, name, data) && Spent(r.fs, coming, 2)
    ensures Resolve(s.nodes, 0, path, false) == 1
    ensures r.fs.edit.active && r.fs.edit.path == Truncate(path, FS_MAX_PATH) && r.fs.edit.target == 0
    ensures Text(r.fs) == data
  {
    LeadsToOnly(s.nodes, name, path);
    NextIsFresh(s, coming, 1);
    OpenSucceeds(s, path, 1, data, r);
    BeginKeeps(s, path);
    BeginNames(s, path, r);
    assert coming[1..][1..] == coming[2..];
  }

  lemma LeadsToOnly(ns: seq<Node>, name: string, path: string)
    requires Tree(ns) && IsNode(ns, 0) && IsNode(ns, 1) && ns[1].parent == 0 && ns[1].name == name && TextName(name)
    requires path != "" && Components(path) == [name]
    ensures Resolve(ns, 0, path, false) == 1
  {
    FindsItself(ns, 1);
    var parts := [name];
    assert parts[1..] == [] && Walk(ns, 1, []) == 1 && Walk(ns, 0, parts) == 1;
  }

  lemma OpenSucceeds(s: Fs, path: string, id: int, data: string, r: Outcome)
    requires Inv(s) && !s.edit.active && Resolve(s.nodes, s.cwd, path, false) == id && r == Begin(s, path)
    requires IsFile(s, id) && id in Files(s) && Files(s)[id] == data != "" && NextPointer(s.heap, s.supply) != 0
    ensures r.code == FS_OK && r.fs.edit.active && r.fs.edit.target == 0
    ensures r.fs.supply.coming == s.supply.coming[1..]
    ensures forall p :: p in r.fs.heap ==> p in s.heap || p == s.supply.coming[0]
  {
    NodeIsLive(s, id);
    assert KindOk(s.nodes[id]);
    ReleaseNothing(s.heap);
    CopySucceeds(FreeEdit(s), path, id, data, r);
  }

  lemma CopySucceeds(s: Fs, path: string, id: int, data: string, r: Outcome)
    requires 0 <= id < |s.nodes| && s.nodes[id].size != 0 && s.edit.buf == EMPTY && s.edit.target == 0
    requires Content(s.heap, NodeBuf(s.nodes[id])) == data && 0 < |data| <= FS_MAX_FILE_SIZE
    requires NextPointer(s.heap, s.supply) != 0 && r == OpenFile(s, path, id)
    ensures r.code == FS_OK && r.fs.edit.active && r.fs.edit.target == 0
    ensures r.fs.supply.coming == s.supply.coming[1..]
    ensures forall p :: p in r.fs.heap ==> p in s.heap || p == s.supply.coming[0]
  {}

  ghost predicate Succeeds(s: Fs, c: Call) { Inv(s) && Apply(s, c).code == FS_OK }

  /** The first two calls of both runs: the file is written and opened. */
  lemma Opened(name: string, data: string, path: string, coming: seq<nat>, states: seq<Fs>, calls: seq<Call>)
    requires TextName(name) && 0 < |data| <= FS_MAX_FILE_SIZE && Distinct(coming) && |coming| >= 2
    requires path != "" && Components(path) == [name] && Run(states, calls, coming) && |calls| >= 2
    requires calls[0] == WriteCall(name, data) && calls[1] == BeginCall(path)
    ensures Succeeds(states[0], calls[0]) && Succeeds(states[1], calls[1])
    ensures Resolve(states[1].nodes, states[1].cwd, path, false) == 1
    ensures OnlyFile(states[2], name, data) && Spent(states[2], coming, 2) && Text(states[2]) == data
    ensures states[2].edit.active && states[2].edit.path == Truncate(path, FS_MAX_PATH) && states[2].edit.target == 0
  {
    InitIsSound(coming);
    assert Follows(states[0], calls[0], states[1]);
    FirstWrite(name, data, coming, states[0], WriteFile(states[0], name, data));
    assert Follows(states[1], calls[1], states[2]);
    OpenOnly(states[1], name, data, path, coming, Begin(states[1], path));
  }

  // ---------- a replacement without memory ----------

  /** Two buffers are all there is: one holds the file and one the text.  Then replacing line 1 by anything reports
      success, and the text is gone. */
  lemma ReplacementLosesText(name: string, data: string, text: string, arg: string, coming: seq<nat>,
                             states: seq<Fs>, calls: seq<Call>)
    requires TextName(name) && 0 < |data| <= FS_MAX_FILE_SIZE && Distinct(coming) && |coming| == 2
    requires arg == Decimal(1) + (" " + text) && Run(states, calls, coming)
    requires calls == [WriteCall(name, data), BeginCall(name), LineCall(":e " + arg)]
    ensures Succeeds(states[0], calls[0]) && Succeeds(states[1], calls[1]) && Succeeds(states[2], calls[2])
    ensures Text(states[2]) == data
    ensures Inv(states[3]) && Files(states[3]) == map[1 := data] && states[3].edit.active && Text(states[3]) == ""
  {
    SingleComponent(name);
    Opened(name, data, name, coming, states, calls);
    StarvedCall(states[2], text, arg, calls[2], states[3]);
  }

  lemma StarvedCall(s: Fs, text: string, arg: string, c: Call, s': Fs)
    requires Inv(s) && s.edit.active && s.edit.target == 0 && s.supply.coming == [] && Text(s) != ""
    requires arg == Decimal(1) + (" " + text) && c == LineCall(":e " + arg) && Follows(s, c, s')
    ensures Succeeds(s, c) && Inv(s') && Files(s') == Files(s) && s'.edit.active && Text(s') == ""
  {
    StarvedLine(s, text, arg, HandleLine(s, ":e " + arg));
  }

  lemma StarvedLine(s: Fs, text: string, arg: string, r: Outcome)
    requires Inv(s) && s.edit.active && s.edit.target == 0 && s.supply.coming == [] && Text(s) != ""
    requires arg == Decimal(1) + (" " + text) && r == HandleLine(s, ":e " + arg)
    ensures r.code == FS_OK && Inv(r.fs) && Files(r.fs) == Files(s) && r.fs.edit.active && Text(r.fs) == ""
  {
    SomeLine(Text(s));
    ParseUndoesPrint(1, " " + text);
    ColonE(s.edit.target, arg);
    EditHandled(s, arg, 1, " " + text, r);
    UntargetedKeeps(s);
    NoMemoryLosesText(Untargeted(s), 1, text, r);
  }

  // ---------- a save under a path that was cut off ----------

  function Slashes(n: nat): string { seq(n, _ => '/') }

  lemma {:induction false} LeadingSlashes(n: nat, p: string)
    ensures Components(Slashes(n) + p) == Components(p)
  {
    if n == 0 {
      assert Slashes(n) + p == p;
    } else {
      assert (Slashes(n) + p)[1..] == Slashes(n - 1) + p;
      LeadingSlashes(n - 1, p);
    }
  }

  /** The path `//...//cut.txt`, as it is remembered and as it is written to. */
  lemma CutPath(cut: string, n: nat, path: string)
    requires TextName(cut) && n == 255 - |cut| && |cut| <= 43 && path == Slashes(n) + (cut + ".txt")
    ensures Truncate(path, FS_MAX_PATH) == Slashes(n) + cut
    ensures TextName(cut + ".txt") && path != "" && Components(path) == [cut + ".txt"]
  {
    assert path[..255] == Slashes(n) + cut;
    assert (cut + ".txt")[|cut|..] == ".txt";
    LeadingSlashes(n, cut + ".txt");
    SingleComponent(cut + ".txt");
  }

  lemma SlashesLeadToRoot(ns: seq<Node>, cut: string, n: nat, path: string)
    requires Tree(ns) && IsNode(ns, 0) && TextName(cut) && n == 255 - |cut| && path == Slashes(n) + cut
    ensures ResolveParent(ns, 0, path) == At(0, cut)
  {
    assert path[n..] == cut && path[n - 1] == '/';
    assert AfterSlash(path, |path|) == n;
    assert path[..n - 1] == Slashes(n - 1) + "";
    LeadingSlashes(n - 1, "");
    assert Placed(ns, 0);
  }

  /** `cut.txt` is opened under a path of 259 characters that ends in its name, which is remembered without the last
      four.  The save succeeds, and goes into a new file `cut`. */
  lemma SaveGoesElsewhere(cut: string, data: string, path: string, coming: seq<nat>, states: seq<Fs>, calls: seq<Call>)
    requires TextName(cut) && |cut| <= 43 && path == Slashes(255 - |cut|) + (cut + ".txt")
    requires 0 < |data| <= FS_MAX_FILE_SIZE && Distinct(coming) && |coming| >= 3 && Run(states, calls, coming)
    requires calls == [WriteCall(cut + ".txt", data), BeginCall(path), LineCall(":w")]
    ensures Succeeds(states[0], calls[0]) && Succeeds(states[1], calls[1]) && Succeeds(states[2], calls[2])
    ensures Resolve(states[1].nodes, states[1].cwd, path, false) == 1
    ensures Inv(states[2]) && Written(states[2], Truncate(path, FS_MAX_PATH)) == 2
    ensures |states[3].nodes| == FS_MAX_NODES && Files(states[2]) == map[1 := data]
    ensures Files(states[3]) == map[1 := data, 2 := data]
  {
    CutPath(cut, 255 - |cut|, path);
    Opened(cut + ".txt", data, path, coming, states, calls);
    NextIsFresh(states[2], coming, 2);
    SaveCall(states[2], cut, data, Truncate(path, FS_MAX_PATH), calls[2], states[3]);
  }

  lemma SaveCall(s: Fs, cut: string, data: string, remembered: string, c: Call, s': Fs)
    requires OnlyFile(s, cut + ".txt", data) && Text(s) == data && TextName(cut) && s.edit.path == remembered
    requires s.edit.active && s.edit.target == 0
    requires remembered == Slashes(255 - |cut|) + cut && 0 < |data| <= FS_MAX_FILE_SIZE
    requires NextPointer(s.heap, s.supply) != 0 && c == LineCall(":w") && Follows(s, c, s')
    ensures Succeeds(s, c) && Written(s, remembered) == 2
    ensures |s'.nodes| == FS_MAX_NODES && Files(s') == map[1 := data, 2 := data]
  {
    assert Effective(s.edit.target, ":w") == SaveIt && Untargeted(s) == s;
    SavedBeside(s, cut, data, remembered, SaveText(s));
    assert map[1 := data][2 := data] == map[1 := data, 2 := data];
  }

  lemma SavedBeside(t: Fs, cut: string, data: string, remembered: string, r: Outcome)
    requires OnlyFile(t, cut + ".txt", data) && Text(t) == data && TextName(cut) && t.edit.path == remembered
    requires remembered == Slashes(255 - |cut|) + cut && 0 < |data| <= FS_MAX_FILE_SIZE
    requires NextPointer(t.heap, t.supply) != 0 && r == SaveText(t)
    ensures r.code == FS_OK && Written(t, remembered) == 2
    ensures |r.fs.nodes| == FS_MAX_NODES && Files(r.fs) == Files(t)[2 := data]
  {
    SlashesLeadToRoot(t.nodes, cut, 255 - |cut|, remembered);
    OneMoreSlot(t.nodes, cut);
    EditIsLive(t);
    WriteMakes(t, remembered, 0, cut, 2, data, WriteFile(t, remembered, data));
    SaveWrites(t, r);
  }

  lemma OneMoreSlot(ns: seq<Node>, cut: string)
    requires |ns| == FS_MAX_NODES && ns[1].used && ns[1].name == cut + ".txt"
    requires forall i :: 2 <= i < |ns| ==> !ns[i].used
    ensures FindChild(ns, 0, cut) == -1 && FreeFrom(ns, 1) == 2
  {
    assert |ns[1].name| != |cut|;
    var r := FindChild(ns, 0, cut);
    assert r < 2;
  }

  // ---------- a fetched line that reads as a command ----------

  /** A line `:q` that is fetched and handed back ends the session: whatever begins with `:` is taken as a command. */
  lemma FetchedCommandIsObeyed(s: Fs, n: nat, first: Outcome, second: Outcome)
    requires Inv(s) && s.edit.active && 1 <= n <= TotalLines(Text(s)) && first == HandleLine(s, ":e " + Decimal(n))
    requires Inv(PendingTaken(first.fs)) ==> second == HandleLine(PendingTaken(first.fs), ":q")
    ensures LineStart(Text(s), n - 1) <= |Text(s)| && Inv(PendingTaken(first.fs))
    ensures Line(Text(s), n) == ":q" ==> PendingLine(first.fs) == Some(":q")
    ensures !second.fs.edit.active && Text(second.fs) == ""
  {
    FetchPrepares(s, n, Decimal(n), first);
    PrepareKeeps(s, n, Truncate(Line(Text(s), n), FS_MAX_PATH));
    PendingTakenKeeps(first.fs);
    assert UpToNul(":q") == ":q";
    QuitDiscards(PendingTaken(first.fs), ":q", second);
  }
}
