/** The loops of src/kernel/fs.c, each proved to compute the function that the model uses for it. */
module FsLoops {
  import opened Paths
  import opened FsTree
  import opened FsUpdates
  import opened Buffers
  import opened FsModel
  import opened EditText
  import opened EditModel
  import opened Options

  // ---------- slots ----------

  /** `fs_find_child` (fs.c:108-117). */
  method FindChildLoop(ns: seq<Node>, parent: int, name: string) returns (r: int)
    requires |ns| == FS_MAX_NODES
    ensures r == FindChild(ns, parent, name)
  {
    for i := 1 to FS_MAX_NODES
      invariant FindChild(ns, parent, name) == FindFrom(ns, parent, name, i)
    {
      if ns[i].used && ns[i].parent == parent && ns[i].name == name { return i; }
    }
    r := -1;
  }

  /** `fs_alloc_node` (fs.c:98-106). */
  method AllocNodeLoop(ns: seq<Node>) returns (r: int)
    requires |ns| == FS_MAX_NODES
    ensures r == FreeFrom(ns, 1)
  {
    for i := 1 to FS_MAX_NODES
      invariant FreeFrom(ns, 1) == FreeFrom(ns, i)
    {
      if !ns[i].used { return i; }
    }
    r := -1;
  }

  /** The emptiness check of `fs_rm` (fs.c:389-391). */
  method HasChildLoop(ns: seq<Node>, id: int) returns (any: bool)
    requires |ns| == FS_MAX_NODES
    ensures any <==> ChildFrom(ns, id, 1) >= 0
  {
    for i := 1 to FS_MAX_NODES
      invariant ChildFrom(ns, id, 1) == ChildFrom(ns, id, i)
    {
      if ns[i].used && ns[i].parent == id { return true; }
    }
    any := false;
  }

  // ---------- fs_resolve ----------

  lemma SkipSlash(path: string, i: nat)
    requires i < |path| && path[i] == '/'
    ensures Components(path[i..]) == Components(path[i + 1..])
  {
    assert path[i..][1..] == path[i + 1..];
  }

  lemma TakeComponent(path: string, i: nat, k: nat)
    requires i < k <= |path| && (forall j :: i <= j < k ==> path[j] != '/') && (k < |path| ==> path[k] == '/')
    ensures Components(path[i..]) == [path[i..k]] + Components(path[k..])
  {
    var p := path[i..];
    EndIs(p, 0, k - i);
    assert p[..k - i] == path[i..k] && p[k - i..] == path[k..];
  }

  method SkipSlashes(path: string, from: nat) returns (i: nat)
    requires from <= |path|
    ensures from <= i <= |path| && (i < |path| ==> path[i] != '/')
    ensures Components(path[i..]) == Components(path[from..])
  {
    i := from;
    while i < |path| && path[i] == '/'
      invariant from <= i <= |path| && Components(path[i..]) == Components(path[from..])
    {
      SkipSlash(path, i);
      i := i + 1;
    }
  }

  /** The inner loop of `fs_resolve` (fs.c:174-178): one component, or an error when it exceeds 47 characters. */
  method NextComponent(path: string, from: nat) returns (ok: bool, k: nat, component: string)
    requires from < |path| && path[from] != '/'
    ensures from < k <= |path| && component == path[from..k] && forall j :: from <= j < k ==> path[j] != '/'
    ensures ok ==> |component| < FS_MAX_NAME && (k < |path| ==> path[k] == '/')
    ensures !ok ==> |component| == FS_MAX_NAME - 1 && k < |path| && path[k] != '/'
  {
    k, component := from, "";
    while k < |path| && path[k] != '/'
      invariant from <= k <= |path| && component == path[from..k] && |component| < FS_MAX_NAME
      invariant forall j :: from <= j < k ==> path[j] != '/'
    {
      if |component| >= FS_MAX_NAME - 1 { return false, k, component; }
      component := component + [path[k]];
      k := k + 1;
    }
    ok := true;
  }

  /** A component that runs past 47 characters. */
  lemma LongComponent(path: string, i: nat)
    requires i + 47 < |path| && (forall j :: i <= j <= i + 47 ==> path[j] != '/')
    ensures Components(path[i..]) != [] && |Components(path[i..])[0]| >= FS_MAX_NAME
  {
    var k := ComponentEnd(path, i);
    TakeComponent(path, i, k);
  }

  /** One component of a path (fs.c:181-196): the node it leads to, or an error. */
  method Enter(ns: seq<Node>, cur: int, component: string, ghost rest: seq<string>) returns (next: int)
    requires Tree(ns) && IsNode(ns, cur) && |component| < FS_MAX_NAME
    ensures next < 0 || IsNode(ns, next)
    ensures Walk(ns, cur, [component] + rest) == if next < 0 then next else Walk(ns, next, rest)
  {
    assert ([component] + rest)[1..] == rest;
    if component == "." { return cur; }
    if component == ".." {
      assert Placed(ns, cur);
      return if cur == 0 then 0 else ns[cur].parent;
    }
    var child := FindChildLoop(ns, cur, component);
    next := if child < 0 then FS_ERR_NOT_FOUND else child;
  }

  /** `fs_resolve` (fs.c:157-201). */
  method ResolveLoop(ns: seq<Node>, start: int, path: string, wantDir: bool) returns (r: int)
    requires Tree(ns) && IsNode(ns, start)
    ensures r == Resolve(ns, start, path, wantDir)
  {
    if path == "" { return FS_ERR_INVALID; }
    assert Placed(ns, 0);
    var cur, i := start, 0;
    if path[0] == '/' {
      SkipSlash(path, 0);
      cur, i := 0, 1;
    }
    assert path[0..] == path;
    ghost var goal := Walk(ns, cur, Components(path));
    i := SkipSlashes(path, i);
    while i < |path|
      invariant 0 <= i <= |path| && (i < |path| ==> path[i] != '/') && OnTheWay(ns, cur, path, i, goal)
      decreases |path| - i
    {
      cur, i := ResolveTurn(ns, cur, path, i, goal);
      if cur < 0 { return cur; }
    }
    assert path[|path|..] == "";
    if wantDir && !ns[cur].isDir { return FS_ERR_NOT_DIR; }
    r := cur;
  }

  /** What is left of the path leads from `cur` to `goal`. */
  ghost predicate OnTheWay(ns: seq<Node>, cur: int, path: string, i: nat, goal: int)
    requires Tree(ns) && i <= |path|
  {
    IsNode(ns, cur) && Walk(ns, cur, Components(path[i..])) == goal
  }

  /** One component of the path (fs.c:172-197): the next node and position, or the error. */
  method ResolveTurn(ns: seq<Node>, cur: int, path: string, i: nat, ghost goal: int) returns (next: int, i': nat)
    requires Tree(ns) && i < |path| && path[i] != '/' && OnTheWay(ns, cur, path, i, goal)
    ensures i < i' <= |path| && (i' < |path| ==> path[i'] != '/')
    ensures if next < 0 then next == goal else OnTheWay(ns, next, path, i', goal)
  {
    var ok, k, component := NextComponent(path, i);
    if !ok {
      LongComponent(path, i);
      return FS_ERR_INVALID, |path|;
    }
    TakeComponent(path, i, k);
    i' := SkipSlashes(path, k);
    next := Enter(ns, cur, component, Components(path[i'..]));
  }

  /** `fs_resolve_parent` (fs.c:203-234). */
  method ResolveParentLoop(ns: seq<Node>, cwd: int, path: string) returns (r: Located)
    requires Tree(ns) && IsNode(ns, cwd)
    ensures r == ResolveParent(ns, cwd, path)
  {
    if |path| >= FS_MAX_PATH { return Failed(FS_ERR_INVALID); }
    assert Placed(ns, 0);
    var i := |path|;
    while i > 0 && path[i - 1] != '/'
      invariant 0 <= i <= |path| && AfterSlash(path, i) == AfterSlash(path, |path|)
    {
      i := i - 1;
    }
    if i == 0 { return At(cwd, Truncate(path, FS_MAX_NAME)); }
    var parentPath := path[..i - 1];
    if parentPath == "" { parentPath := "/"; }
    var parent := ResolveLoop(ns, if path[0] == '/' then 0 else cwd, parentPath, true);
    if parent < 0 { return Failed(parent); }
    r := At(parent, Truncate(path[i..], FS_MAX_NAME));
  }

  // ---------- fs_rebuild_cwd_path ----------

  /** The names on the stack, deepest node first on the stack, read back from its top. */
  ghost function StackNames(ns: seq<Node>, stack: seq<int>): seq<string>
  {
    if stack == [] then []
    else
      var n := |stack| - 1;
      [if 0 <= stack[n] < |ns| then ns[stack[n]].name else ""] + StackNames(ns, stack[..n])
  }

  /** `fs_rebuild_cwd_path` (fs.c:119-155). */
  method RebuildLoop(ns: seq<Node>, cwd: int) returns (path: string)
    requires Tree(ns) && IsNode(ns, cwd)
    ensures path == Render(ns, cwd)
  {
    if cwd == 0 { return "/"; }
    var stack := StackLoop(ns, cwd);
    path := RenderLoop(ns, stack);
    if path == "" { path := "/"; }
  }

  /** The walk up to the root (fs.c:128-134). */
  method StackLoop(ns: seq<Node>, cwd: int) returns (stack: seq<int>)
    requires Tree(ns) && IsNode(ns, cwd)
    ensures forall j :: 0 <= j < |stack| ==> 0 <= stack[j] < |ns|
    ensures StackNames(ns, stack) == ChainNames(ns, cwd, FS_MAX_NODES)
  {
    stack := [];
    var cur := cwd;
    while cur > 0 && |stack| < FS_MAX_NODES
      invariant |stack| <= FS_MAX_NODES && IsNode(ns, cur)
      invariant forall j :: 0 <= j < |stack| ==> 0 <= stack[j] < |ns|
      invariant ChainNames(ns, cwd, FS_MAX_NODES) == ChainNames(ns, cur, FS_MAX_NODES - |stack|) + StackNames(ns, stack)
      decreases FS_MAX_NODES - |stack|
    {
      PushName(ns, stack, cur, FS_MAX_NODES - |stack|);
      assert Placed(ns, cur);
      stack := stack + [cur];
      cur := ns[cur].parent;
    }
    assert [] + StackNames(ns, stack) == StackNames(ns, stack);
  }

  lemma PushName(ns: seq<Node>, stack: seq<int>, cur: int, fuel: nat)
    requires 0 < cur < |ns| && fuel > 0
    ensures ChainNames(ns, cur, fuel) + StackNames(ns, stack) ==
            ChainNames(ns, ns[cur].parent, fuel - 1) + StackNames(ns, stack + [cur])
  {
    assert (stack + [cur])[..|stack|] == stack;
    assert ChainNames(ns, ns[cur].parent, fuel - 1) + [ns[cur].name] + StackNames(ns, stack)
        == ChainNames(ns, ns[cur].parent, fuel - 1) + ([ns[cur].name] + StackNames(ns, stack));
  }

  /** The append loop (fs.c:136-149). */
  method RenderLoop(ns: seq<Node>, stack: seq<int>) returns (path: string)
    requires forall j :: 0 <= j < |stack| ==> 0 <= stack[j] < |ns|
    ensures path == RenderFrom("", StackNames(ns, stack))
  {
    path := "";
    var i := |stack|;
    assert stack[..i] == stack;
    while i > 0
      invariant 0 <= i <= |stack|
      invariant RenderFrom(path, StackNames(ns, stack[..i])) == RenderFrom("", StackNames(ns, stack))
    {
      ghost var names := StackNames(ns, stack[..i]);
      assert stack[..i][..i - 1] == stack[..i - 1];
      i := i - 1;
      assert names[1..] == StackNames(ns, stack[..i]);
      if path != "" && path[|path| - 1] != '/' {
        if |path| < FS_MAX_PATH - 1 { path := path + "/"; }
      }
      var name := ns[stack[i]].name;
      if |path| + |name| >= FS_MAX_PATH - 1 { return; }
      path := path + name;
    }
  }

  // ---------- buffers ----------

  /** `kmalloc` as the filesystem sees it. */
  method Kmalloc(heap: Heap, supply: Supply, size: nat) returns (p: nat, supply': Supply)
    ensures p == NextPointer(heap, supply) && supply' == Allocate(supply, p, size)
  {
    p := NextPointer(heap, supply);
    supply' := Allocate(supply, p, size);
  }

  /** `kfree`: only of a live pointer, and entered in the ledger. */
  method Kfree(heap: Heap, supply: Supply, b: Buf) returns (heap': Heap, supply': Supply)
    requires b.ptr != 0 && b.ptr in heap
    ensures heap' == Release(heap, b) && supply' == Free(supply, b.ptr)
  {
    heap' := heap - {b.ptr};
    supply' := supply.(ledger := supply.ledger + [Freed(b.ptr)]);
  }

  /** The doubling loop (fs.c:244-246, 541-543). */
  method GrowLoop(cap: nat, need: nat) returns (newCap: nat)
    requires (cap == 0 || IsCap(cap)) && need <= FS_MAX_FILE_SIZE
    ensures newCap == NewCap(cap, need) && newCap >= need
  {
    newCap := if cap != 0 then cap else 256;
    ghost var first := newCap;
    NewCapIsEnough(cap, need);
    while newCap < need
      invariant newCap > 0 && Doubled(newCap, need) == Doubled(first, need)
      decreases need - newCap
    {
      newCap := newCap * 2;
    }
    if newCap > FS_MAX_FILE_SIZE { newCap := FS_MAX_FILE_SIZE; }
  }

  /** The copy into a fresh buffer `p` (fs.c:251-253, 546), every store entered in the ledger. */
  method CopyLoop(kept: seq<char>, cap: nat, p: nat, supply: Supply) returns (bytes: seq<char>, supply': Supply)
    requires |kept| <= cap
    ensures bytes == kept + Fill(cap - |kept|) && supply' == Store(supply, p, 0, kept)
  {
    bytes, supply' := Fill(cap), supply;
    NoStore(supply, p, 0);
    for i := 0 to |kept|
      invariant bytes == kept[..i] + Fill(cap - i) && supply' == Store(supply, p, 0, kept[..i])
    {
      NextStore(supply, p, 0, kept, i);
      bytes := bytes[i := kept[i]];
      supply' := supply'.(ledger := supply'.ledger + [Stored(p, i, kept[i])]);
    }
    assert kept[..|kept|] == kept;
  }

  lemma NoStore(supply: Supply, p: nat, off: nat)
    ensures Store(supply, p, off, []) == supply
  {}

  lemma NextStore(supply: Supply, p: nat, off: nat, data: seq<char>, i: nat)
    requires i < |data|
    ensures var front := Store(supply, p, off, data[..i]);
      Store(supply, p, off, data[..i + 1]) == front.(ledger := front.ledger + [Stored(p, off + i, data[i])])
  {
    assert data[..i + 1][..i] == data[..i];
    StoresGrow(supply, p, off, data[..i + 1]);
  }

  /** The growing part shared by `fs_set_file_data` and `edit_buf_append` (fs.c:243-257, 540-550). */
  method ReserveLoop(heap: Heap, b: Buf, keep: nat, need: nat, supply: Supply) returns (r: Result)
    requires BufOk(heap, b) && 0 !in heap && keep <= b.len && keep <= need <= FS_MAX_FILE_SIZE
    ensures r == Reserve(heap, b, keep, need, supply)
  {
    if need <= b.cap { return Result(true, heap, b, supply); }
    var newCap := GrowLoop(b.cap, need);
    var p, supply1 := Kmalloc(heap, supply, newCap);
    if p == 0 { return Result(false, heap, b, supply1); }
    var bytes;
    bytes, supply1 := CopyLoop(if b.ptr != 0 then heap[b.ptr][..keep] else [], newCap, p, supply1);
    var heap1 := heap;
    if b.ptr != 0 { heap1, supply1 := Kfree(heap, supply1, b); }
    r := Result(true, heap1[p := bytes], Buf(p, b.len, newCap), supply1);
  }

  /** The byte-by-byte stores of fs.c:259-267 and 552, each entered in the ledger. */
  method StoreLoop(heap: Heap, ptr: nat, off: nat, data: seq<char>, supply: Supply) returns (h: Heap, supply': Supply)
    requires data != [] ==> ptr in heap && off + |data| <= |heap[ptr]|
    ensures h == StoreAt(heap, ptr, off, data) && supply' == Store(supply, ptr, off, data)
  {
    h, supply' := heap, supply;
    NoStore(supply, ptr, off);
    if data == [] { return; }
    var bytes := heap[ptr];
    for i := 0 to |data|
      invariant bytes == heap[ptr][..off] + data[..i] + heap[ptr][off + i..]
      invariant supply' == Store(supply, ptr, off, data[..i])
    {
      NextStore(supply, ptr, off, data, i);
      bytes := bytes[off + i := data[i]];
      supply' := supply'.(ledger := supply'.ledger + [Stored(ptr, off + i, data[i])]);
    }
    assert data[..|data|] == data;
    h := h[ptr := bytes];
  }

  /** `fs_set_file_data`: appending keeps all of the old bytes, overwriting none; and `edit_buf_append`. */
  method PutLoop(heap: Heap, b: Buf, keep: nat, data: seq<char>, supply: Supply) returns (r: Result)
    requires BufOk(heap, b) && 0 !in heap && keep <= b.len
    ensures r == Put(heap, b, keep, data, supply)
  {
    if keep + |data| > FS_MAX_FILE_SIZE { return Result(false, heap, b, supply); }
    r := ReserveLoop(heap, b, keep, keep + |data|, supply);
    if !r.ok { return; }
    RoomThere(heap, b, keep, data, supply, r);
    var h, supply1 := StoreLoop(r.heap, r.buf.ptr, keep, data, r.supply);
    r := Result(true, h, r.buf.(len := keep + |data|), supply1);
  }

  lemma RoomThere(heap: Heap, b: Buf, keep: nat, data: seq<char>, supply: Supply, r: Result)
    requires BufOk(heap, b) && 0 !in heap && keep <= b.len && keep + |data| <= FS_MAX_FILE_SIZE
    requires r == Reserve(heap, b, keep, keep + |data|, supply) && r.ok
    ensures data != [] ==> r.buf.ptr in r.heap && keep + |data| <= |r.heap[r.buf.ptr]|
  {
    ReserveKeeps(heap, b, keep, keep + |data|, supply);
  }

  // ---------- lines ----------

  /** The line count of `:e` (fs.c:694-696). */
  method CountLines(s: string) returns (total: nat)
    ensures total == TotalLines(s)
  {
    total := 0;
    for i := 0 to |s|
      invariant total == Newlines(s[..i])
    {
      assert s[..i + 1][..i] == s[..i];
      if s[i] == '\n' { total := total + 1; }
    }
    assert s[..|s|] == s;
    if s != "" && s[|s| - 1] != '\n' { total := total + 1; }
  }

  /** The digit loop of `:e` (fs.c:688-690), on an `int`. */
  method ParseLoop(s: string) returns (n: int, rest: string)
    ensures (n, rest) == ParseNumber(0, s)
  {
    n, rest := 0, s;
    while rest != "" && IsDigit(rest[0])
      invariant ParseNumber(n, rest) == ParseNumber(0, s)
      decreases |rest|
    {
      n := Int32(n * 10 + DigitValue(rest[0]));
      rest := rest[1..];
    }
  }

  /** The digit loops of fs.c:622-623: digits come out last first and are copied in reverse. */
  method PrintLoop(n: nat) returns (s: string)
    ensures s == Decimal(n)
  {
    var v := n / 10;
    s := [Digit(n % 10)];
    while v > 0
      invariant v >= 0 && Decimal(n) == if v == 0 then s else Decimal(v) + s
      decreases v
    {
      assert Decimal(v) + s == (if v < 10 then [] else Decimal(v / 10)) + ([Digit(v % 10)] + s);
      s := [Digit(v % 10)] + s;
      v := v / 10;
    }
  }

  /** The search of `edit_fetch_line` (fs.c:795-801) for the start of line `n`, counted from 1. */
  method FindLine(s: string, n: nat) returns (found: bool, pos: nat)
    requires n >= 1
    ensures found <==> n <= TotalLines(s)
    ensures found ==> LineStartsAt(s, n - 1, pos)
  {
    var cur;
    cur, pos := 1, 0;
    while pos < |s| && cur < n
      invariant 0 <= pos <= |s| && 1 <= cur <= n && Newlines(s[..pos]) == cur - 1
      invariant cur == n ==> pos == 0 || s[pos - 1] == '\n'
    {
      assert s[..pos + 1][..pos] == s[..pos];
      if s[pos] == '\n' { cur := cur + 1; }
      pos := pos + 1;
    }
    assert s[..|s|] == s;
    found := cur == n && pos < |s|;
    if found { NoMoreLines(s, n - 1, pos); }
  }

  /** Its copy loop (fs.c:802-805). */
  method CopyLine(s: string, from: nat) returns (out: string)
    requires from <= |s|
    ensures var line := s[from..LineEnd(s, from)]; out == if |line| <= 255 then line else line[..255]
  {
    out := "";
    var pos := from;
    while pos < |s| && s[pos] != '\n' && |out| < 255
      invariant from <= pos <= LineEnd(s, from) && out == s[from..pos] && |out| <= 255
    {
      out := out + [s[pos]];
      pos := pos + 1;
    }
    assert |out| < 255 ==> pos == LineEnd(s, from);
    assert |out| == 255 ==> s[from..LineEnd(s, from)][..255] == out;
  }

  /** `edit_fetch_line` (fs.c:792-808). */
  method FetchLoop(s: string, n: int) returns (line: Option<string>)
    ensures line == FetchLine(s, n)
  {
    if s == "" || n < 1 {
      return None;
    }
    var found, pos := FindLine(s, n);
    if !found { return None; }
    FetchPosition(s, n, pos);
    var out := CopyLine(s, pos);
    line := Some(out);
  }

  lemma FetchPosition(s: string, n: nat, pos: nat)
    requires n >= 1 && LineStartsAt(s, n - 1, pos)
    ensures n <= TotalLines(s) && LineStart(s, n - 1) == pos
  {
    NoMoreLines(s, n - 1, pos);
    LineExists(s, n - 1);
    var at := LineStart(s, n - 1);
    if pos <= at { SameStart(s, pos, at); } else { SameStart(s, at, pos); }
  }

  /** `r` after one more turn of the rebuild loop (fs.c:715-730): a segment, and its newline if it has one. */
  ghost function Turn(r: Result, segment: string, newline: bool): (t: Result)
    requires Live(r.heap, r.buf)
    ensures Live(t.heap, t.buf)
  {
    var a := Append(r.heap, r.buf, segment, r.supply);
    if !newline then a.(ok := r.ok && a.ok)
    else
      var q := Append(a.heap, a.buf, "\n", a.supply);
      q.(ok := r.ok && a.ok && q.ok)
  }

  /** What the loop still does from `pos` on, put together with what it has done. */
  ghost function ToCome(r: Result, was: string, pos: nat, cur: nat, idx: nat, text: string): Result
    requires pos <= |was| && Live(r.heap, r.buf)
  {
    var t := RebuildBuf(r.heap, r.buf, r.supply, was, pos, cur, idx, text);
    t.(ok := r.ok && t.ok)
  }

  lemma TurnAdvances(r: Result, was: string, pos: nat, cur: nat, idx: nat, text: string, segment: string,
                     t: Result, next: nat)
    requires pos < |was| && Live(r.heap, r.buf) && segment == if cur == idx then text else was[pos..LineEnd(was, pos)]
    requires var e := LineEnd(was, pos); next == (if e < |was| then e + 1 else e) && t == Turn(r, segment, e < |was|)
    ensures ToCome(r, was, pos, cur, idx, text) == ToCome(t, was, next, cur + 1, idx, text)
  {
    var e := LineEnd(was, pos);
    if e < |was| {
      TailAdvances(r.ok, Append(r.heap, r.buf, segment, r.supply), was, e, cur, idx, text);
    }
  }

  lemma TailAdvances(ok: bool, a: Result, was: string, e: nat, cur: nat, idx: nat, text: string)
    requires e < |was| && Live(a.heap, a.buf)
    ensures var q := Append(a.heap, a.buf, "\n", a.supply);
      var tail := RebuildTail(a, was, e, cur, idx, text);
      tail.(ok := ok && tail.ok) == ToCome(q.(ok := ok && a.ok && q.ok), was, e + 1, cur + 1, idx, text)
  {}

  /** The old buffer is as it was, and not the one being filled. */
  ghost predicate Aside(heap: Heap, ptr: nat, r: Result)
    requires ptr in heap
  {
    BufOk(r.heap, r.buf) && 0 !in r.heap && ptr in r.heap && r.heap[ptr] == heap[ptr] && r.buf.ptr != ptr
  }

  /** `edit_buf_append` with its error ignored, as the rebuild loop calls it (fs.c:721-726). */
  method AppendIgnoring(r: Result, data: string, ghost heap: Heap, ghost ptr: nat) returns (t: Result)
    requires ptr in heap && Aside(heap, ptr, r)
    ensures Aside(heap, ptr, t)
    ensures var a := Append(r.heap, r.buf, data, r.supply); t == a.(ok := r.ok && a.ok)
  {
    AppendAppends(r.heap, r.buf, data, r.supply);
    t := PutLoop(r.heap, r.buf, r.buf.len, data, r.supply);
    t := t.(ok := r.ok && t.ok);
  }

  /** The search for the end of a line in the old buffer (fs.c:717). */
  method LineEndLoop(heap: Heap, ptr: nat, len: nat, start: nat) returns (pos: nat)
    requires ptr in heap && start <= len <= |heap[ptr]|
    ensures pos == LineEnd(heap[ptr][..len], start)
  {
    pos := start;
    ghost var s := heap[ptr][..len];
    while pos < len && heap[ptr][pos] != '\n'
      invariant start <= pos <= len && LineEnd(s, pos) == LineEnd(s, start)
    {
      pos := pos + 1;
    }
  }

  lemma SliceOfPrefix(s: seq<char>, len: nat, i: nat, j: nat)
    requires i <= j <= len <= |s|
    ensures s[..len][i..j] == s[i..j]
  {}

  /** A segment and its newline. */
  method TurnLoop(r: Result, segment: string, newline: bool, ghost heap: Heap, ghost ptr: nat) returns (t: Result)
    requires ptr in heap && Aside(heap, ptr, r)
    ensures Aside(heap, ptr, t) && Live(r.heap, r.buf) && t == Turn(r, segment, newline)
  {
    t := AppendIgnoring(r, segment, heap, ptr);
    if newline {
      t := AppendIgnoring(t, "\n", heap, ptr);
    }
  }

  /** The body of the rebuild loop, which reads the old buffer where it lies. */
  method RebuildBufTurn(r: Result, from: Buf, pos: nat, cur: nat, idx: nat, text: string,
                        ghost heap: Heap, ghost was: string)
    returns (t: Result, next: nat)
    requires from.ptr in heap && Aside(heap, from.ptr, r) && from.len <= |heap[from.ptr]|
    requires was == heap[from.ptr][..from.len] && pos < |was|
    ensures pos < next <= |was| && Aside(heap, from.ptr, t) && Live(r.heap, r.buf) && Live(t.heap, t.buf)
    ensures ToCome(t, was, next, cur + 1, idx, text) == ToCome(r, was, pos, cur, idx, text)
  {
    var e := LineEndLoop(r.heap, from.ptr, from.len, pos);
    var segment := if cur == idx then text else r.heap[from.ptr][pos..e];
    SliceOfPrefix(heap[from.ptr], from.len, pos, e);
    t := TurnLoop(r, segment, e < from.len, heap, from.ptr);
    next := if e < from.len then e + 1 else e;
    TurnAdvances(r, was, pos, cur, idx, text, segment, t, next);
  }

  /** The rebuild loop of `:e n text` (fs.c:711-730). */
  method RebuildBufLoop(heap: Heap, supply: Supply, from: Buf, idx: nat, text: string) returns (r: Result)
    requires BufOk(heap, from) && from.ptr != 0 && 0 !in heap
    ensures r == RebuildBuf(heap, EMPTY, supply, Content(heap, from), 0, 0, idx, text)
  {
    var cur, pos := 0, 0;
    r := Result(true, heap, EMPTY, supply);
    ghost var was := Content(heap, from);
    ghost var goal := ToCome(r, was, 0, 0, idx, text);
    while pos < from.len
      invariant 0 <= pos <= from.len && 0 <= cur && Aside(heap, from.ptr, r) && Live(r.heap, r.buf)
      invariant ToCome(r, was, pos, cur, idx, text) == goal
      decreases from.len - pos
    {
      r, pos := RebuildBufTurn(r, from, pos, cur, idx, text, heap, was);
      cur := cur + 1;
    }
  }
}
