/**
 Runs that reach the limits of the filesystem (src/kernel/fs.c:119-234): a current directory whose path is cut off,
 and a file that is not found under the name it was written with.
 */
module FsLimits {
  import opened Paths
  import opened FsTree
  import opened FsUpdates
  import opened Buffers
  import opened FsModel
  import opened FsRuns
  import opened FsRoundTrip
  import opened EditTheorems
  import opened Runs

  // ---------- directories nested too deep ----------

  /** A name of the greatest length. */
  predicate LongName(name: string) { |name| == 47 && ValidName(name) }

  const BLANK: Node := Node(false, -1, true, "", 0, 0, 0)

  function DeepNode(name: string, k: nat, i: nat): Node
  {
    if i == 0 then BLANK.(used := true) else if i <= k then Node(true, i - 1, true, name, 0, 0, 0) else BLANK
  }

  /** `k` directories of the same name, one inside the other. */
  function DeepNodes(name: string, k: nat): (ns: seq<Node>)
    ensures |ns| == FS_MAX_NODES
  {
    seq(128, i requires 0 <= i => DeepNode(name, k, i))
  }

  /** The state after `mkdir name` and `cd name`, `k` times. */
  function Deep(name: string, k: nat, coming: seq<nat>): Fs
  {
    Fs(DeepNodes(name, k), k, Render(DeepNodes(name, k), k), map[], Supply(coming, []), NO_EDIT)
  }

  lemma DeepStart(name: string, coming: seq<nat>)
    ensures Deep(name, 0, coming) == InitState(coming)
  {
    assert DeepNodes(name, 0) == InitState(coming).nodes;
  }

  lemma NoChildYet(name: string, k: nat, wanted: string)
    requires k < 127
    ensures FindChild(DeepNodes(name, k), k, wanted) == -1 && FreeFrom(DeepNodes(name, k), 1) == k + 1
  {
    var ns := DeepNodes(name, k);
    var r := FindChild(ns, k, wanted);
    assert r >= 0 ==> ns[r] == DeepNode(name, k, r);
    var f := FreeFrom(ns, 1);
    assert ns[k + 1] == BLANK;
    assert f > 0 ==> ns[f] == DeepNode(name, k, f);
  }

  lemma SingleName(name: string)
    requires LongName(name)
    ensures AfterSlash(name, |name|) == 0 && Components(name) == [name] && name[0] != '/'
    ensures Truncate(name, FS_MAX_NAME) == name
  {
    SingleComponent(name);
  }

  lemma DeepMkdir(name: string, k: nat, coming: seq<nat>, s: Fs, r: Outcome)
    requires LongName(name) && k < 127 && s == Deep(name, k, coming) && Inv(s) && r == Mkdir(s, name)
    ensures r == Outcome(s.(nodes := DeepNodes(name, k + 1)), FS_OK)
  {
    NoChildYet(name, k, name);
    ParentIsHere(s.nodes, k, name);
    MkdirIs(s, name, k, k + 1, r);
    OneDeeper(name, k);
  }

  lemma OneDeeper(name: string, k: nat)
    requires k < 127
    ensures DeepNodes(name, k)[k + 1 := Node(true, k, true, name, 0, 0, 0)] == DeepNodes(name, k + 1)
  {}

  lemma ParentIsHere(ns: seq<Node>, cwd: int, name: string)
    requires Tree(ns) && IsNode(ns, cwd) && LongName(name)
    ensures ResolveParent(ns, cwd, name) == At(cwd, name)
  {
    SingleName(name);
  }

  lemma MkdirIs(s: Fs, name: string, parent: int, id: nat, r: Outcome)
    requires Inv(s) && LongName(name) && ResolveParent(s.nodes, s.cwd, name) == At(parent, name)
    requires FindChild(s.nodes, parent, name) == -1 && FreeFrom(s.nodes, 1) == id && r == Mkdir(s, name)
    ensures r == Outcome(s.(nodes := s.nodes[id := Node(true, parent, true, name, 0, 0, 0)]), FS_OK)
  {}

  lemma DeepCd(name: string, k: nat, coming: seq<nat>, s: Fs, r: Outcome)
    requires LongName(name) && k < 127 && s == Deep(name, k, coming).(nodes := DeepNodes(name, k + 1)) && Inv(s)
    requires r == Cd(s, name)
    ensures r == Outcome(Deep(name, k + 1, coming), FS_OK)
  {
    assert s.nodes[k + 1] == DeepNode(name, k + 1, k + 1);
    EntersChild(s.nodes, k, k + 1, name);
  }

  lemma EntersChild(ns: seq<Node>, cur: int, child: int, name: string)
    requires Tree(ns) && IsNode(ns, cur) && LongName(name)
    requires IsNode(ns, child) && child > 0 && ns[child].parent == cur && ns[child].name == name && ns[child].isDir
    ensures Resolve(ns, cur, name, true) == child
  {
    SingleName(name);
    FindsItself(ns, child);
    var path := [name];
    assert path[1..] == [] && path[0] == name;
    assert Walk(ns, child, []) == child;
    assert Walk(ns, cur, path) == child;
  }

  lemma MadeFollows(name: string, k: nat, coming: seq<nat>, s: Fs, s': Fs)
    requires LongName(name) && k < 127 && s == Deep(name, k, coming) && Inv(s)
    requires s' == s.(nodes := DeepNodes(name, k + 1))
    ensures Follows(s, MkdirCall(name), s') && Inv(s')
  {
    DeepMkdir(name, k, coming, s, Mkdir(s, name));
    MkdirIsSound(s, name, Mkdir(s, name));
  }

  lemma EnteredFollows(name: string, k: nat, coming: seq<nat>, s: Fs, s': Fs)
    requires LongName(name) && k < 127 && s == Deep(name, k, coming).(nodes := DeepNodes(name, k + 1)) && Inv(s)
    requires s' == Deep(name, k + 1, coming)
    ensures Follows(s, CdCall(name), s') && Inv(s')
  {
    DeepCd(name, k, coming, s, Cd(s, name));
    CdIsSound(s, name, Cd(s, name));
  }

  /** The calls that lead there. */
  function DeepCalls(name: string, k: nat): seq<Call>
  {
    if k == 0 then [] else DeepCalls(name, k - 1) + [MkdirCall(name)] + [CdCall(name)]
  }

  /** The states on the way. */
  ghost function DeepStates(name: string, k: nat, coming: seq<nat>): (states: seq<Fs>)
    ensures |states| == |DeepCalls(name, k)| + 1
    ensures states[0] == Deep(name, 0, coming) && states[|states| - 1] == Deep(name, k, coming)
  {
    if k == 0 then [Deep(name, 0, coming)]
    else
      var made := Deep(name, k - 1, coming).(nodes := DeepNodes(name, k));
      DeepStates(name, k - 1, coming) + [made] + [Deep(name, k, coming)]
  }

  lemma {:induction false} DeepRun(name: string, k: nat, coming: seq<nat>)
    requires LongName(name) && k <= 127
    ensures Run(DeepStates(name, k, coming), DeepCalls(name, k), coming) && Inv(Deep(name, k, coming))
  {
    DeepStart(name, coming);
    if k == 0 {
      InitIsSound(coming);
    } else {
      DeepRun(name, k - 1, coming);
      DeepTurn(name, k - 1, coming, DeepStates(name, k - 1, coming), DeepCalls(name, k - 1));
    }
  }

  /** One `mkdir` and one `cd` more. */
  lemma DeepTurn(name: string, k: nat, coming: seq<nat>, states: seq<Fs>, calls: seq<Call>)
    requires LongName(name) && k < 127 && IsRun(Follows, states, calls)
    requires states[|calls|] == Deep(name, k, coming) && Inv(states[|calls|])
    ensures var made, s' := Deep(name, k, coming).(nodes := DeepNodes(name, k + 1)), Deep(name, k + 1, coming);
      IsRun(Follows, states + [made] + [s'], calls + [MkdirCall(name)] + [CdCall(name)]) && Inv(s')
  {
    var s, s' := states[|calls|], Deep(name, k + 1, coming);
    var made := s.(nodes := DeepNodes(name, k + 1));
    MadeFollows(name, k, coming, s, made);
    Extend(Follows, states, calls, MkdirCall(name), made);
    EnteredFollows(name, k, coming, made, s');
    Extend(Follows, states + [made], calls + [MkdirCall(name)], CdCall(name), s');
  }

  lemma {:induction false} DeepChain(name: string, k: nat, i: nat, fuel: nat)
    requires i <= k <= 127 && i <= fuel
    ensures ChainNames(DeepNodes(name, k), i, fuel) == seq(i, _ => name)
  {
    if i > 0 {
      assert DeepNodes(name, k)[i] == DeepNode(name, k, i);
      DeepChain(name, k, i - 1, fuel - 1);
    }
  }

  lemma {:induction false} JoinedLength(name: string, k: nat)
    requires |name| == 47
    ensures |Join(seq(k, _ => name))| == if k == 0 then 0 else 48 * k - 1
  {
    if k > 1 {
      assert seq(k, _ => name)[..k - 1] == seq(k - 1, _ => name);
      JoinedLength(name, k - 1);
    }
  }

  /** Six nested directories with names of 47 characters: 12 calls reach a state whose cached path, cut off after 254
      characters, leads from the root to another directory. */
  lemma DeepPathIsLost(name: string, coming: seq<nat>, s: Fs)
    requires LongName(name) && s == Deep(name, 6, coming)
    ensures Run(DeepStates(name, 6, coming), DeepCalls(name, 6), coming)
    ensures s == DeepStates(name, 6, coming)[|DeepCalls(name, 6)|]
    ensures Inv(s) && IsNode(s.nodes, 0) && |FullPath(s.nodes, s.cwd)| == 287
    ensures Resolve(s.nodes, 0, s.cwdPath, false) != s.cwd
  {
    DeepRun(name, 6, coming);
    DeepIsTooLong(name, coming, s);
  }

  lemma DeepIsTooLong(name: string, coming: seq<nat>, s: Fs)
    requires LongName(name) && s == Deep(name, 6, coming) && Inv(s)
    ensures IsNode(s.nodes, 0) && |FullPath(s.nodes, s.cwd)| == 287 && Resolve(s.nodes, 0, s.cwdPath, false) != s.cwd
  {
    DeepChain(name, 6, 6, FS_MAX_NODES);
    JoinedLength(name, 6);
    RenderedPathResolves(s.nodes, s.cwd);
  }

  // ---------- a name that is cut off ----------

  /** A name that is one character too long, and still ends in `.txt` when that character is cut off. */
  predicate OneTooLong(name: string)
  {
    |name| == 48 && NoSlash(name) && LongName(name[..47]) && EndsWithTxt(name[..47])
  }

  lemma SuchANameExists(name: string)
    requires name == seq(43, _ => 'a') + ".txtx"
    ensures OneTooLong(name)
  {
    assert name[..47][43..] == ".txt";
    assert name[0] == 'a' && name[1] == 'a';
    forall i | 0 <= i < 48 ensures name[i] != '/' && name[i] != '\\' {
      assert i >= 43 ==> name[i] == ".txtx"[i - 43];
    }
  }

  /** Written as the first file of all, such a name is not found again: the file is there, one character shorter. */
  lemma LongNameIsLost(name: string, data: string, coming: seq<nat>)
    requires OneTooLong(name) && |data| <= FS_MAX_FILE_SIZE && coming != [] && coming[0] != 0
    ensures var s := InitState(coming);
      && Inv(s) && WriteFile(s, name, data).code == FS_OK
      && var s' := WriteFile(s, name, data).fs;
        && Inv(s') && Resolve(s'.nodes, s'.cwd, name, false) < 0
        && Resolve(s'.nodes, s'.cwd, name[..47], false) == Written(s, name)
        && Files(s') == map[Written(s, name) := data]
  {
    var s := InitState(coming);
    InitIsSound(coming);
    DeepStart(name, coming);
    NoChildYet(name, 0, name[..47]);
    LongAtRoot(s.nodes, name);
    var r := WriteFile(s, name, data);
    WriteKeeps(s, name, data);
    WriteNames(s, name, data, r);
    WriteExtends(s, name, data, r);
    LongNamesFail(r.fs.nodes, r.fs.cwd, name);
    NamedIsResolved(s, r.fs, name[..47], Written(s, name));
  }

  lemma LongAtRoot(ns: seq<Node>, name: string)
    requires Tree(ns) && IsNode(ns, 0) && OneTooLong(name)
    ensures ResolveParent(ns, 0, name) == At(0, name[..47]) == ResolveParent(ns, 0, name[..47])
    ensures LastPart(name) == name && LastPart(name[..47]) == name[..47]
  {
    assert name[0..] == name && name[..47][0..] == name[..47];
  }

  // ---------- a write that fails late ----------

  /** With no memory to be had, the first write of some bytes fails and leaves an empty file behind. */
  lemma EmptyFileStaysBehind(name: string, data: string, s: Fs, r: Outcome)
    requires LongName(name) && EndsWithTxt(name) && data != "" && s == InitState([])
    requires Inv(s) ==> r == WriteFile(s, name, data)
    ensures Inv(s) && Files(s) == map[] && r.code != FS_OK && Inv(r.fs) && Files(r.fs) == map[1 := []]
  {
    InitIsSound([]);
    DeepStart(name, []);
    NoChildYet(name, 0, name);
    ParentIsHere(s.nodes, 0, name);
    WriteKeeps(s, name, data);
  }

  // ---------- a path on which the parsers disagree ----------

  /** The root resolves, and is never found by parent and name. */
  lemma RootIsNeverFound(ns: seq<Node>, cwd: int)
    requires Tree(ns) && IsNode(ns, cwd) && ns[cwd].isDir
    ensures !SameAnswer(Resolve(ns, cwd, "/", false), Found(ns, cwd, "/"))
  {
    assert Placed(ns, 0);
    assert "/"[1..] == "" && Components("/") == Components("");
    assert LastPart("/") == "";
    ParsersDisagreeExactly(ns, cwd, "/");
  }
}
