/** The editor keeps buffer ownership, replaces lines exactly, and hands lines back unchanged. */
module EditProofs {
  import opened Paths
  import opened FsTree
  import opened Buffers
  import opened FsModel
  import opened FsRuns
  import opened EditText
  import opened EditModel

  // ---------- the rebuild loop and its buffers ----------

  ghost predicate NullIffEmpty(b: Buf) { b.len == 0 <==> b.ptr == 0 }

  /** After some appends to owner `o`: ownership is exact, other owners' contents are as before, and when all the
      appends succeeded the buffer has grown by `added`. */
  ghost predicate Grown(heap: Heap, slots: seq<Buf>, o: nat, heap': Heap, b': Buf, ok: bool, added: string)
    requires o < |slots|
  {
    && Owned(heap', slots[o := b']) && NullIffEmpty(b')
    && SameOthers(heap, heap', slots, o)
    && (ok ==> Content(heap', b') == Content(heap, slots[o]) + added)
  }

  ghost predicate SameOthers(heap: Heap, heap': Heap, slots: seq<Buf>, o: nat)
  {
    forall q :: 0 <= q < |slots| && q != o ==> Content(heap', slots[q]) == Content(heap, slots[q])
  }

  /** One append. */
  lemma AppendGrows(heap: Heap, slots: seq<Buf>, o: nat, data: seq<char>, supply: Supply, r: Result)
    requires Owned(heap, slots) && o < |slots| && NullIffEmpty(slots[o])
    requires Live(heap, slots[o]) && r == Append(heap, slots[o], data, supply)
    ensures Grown(heap, slots, o, r.heap, r.buf, r.ok, data)
  {
    AppendAppends(heap, slots[o], data, supply);
    AppendEmptyIffNull(heap, slots[o], data, supply);
    if r.ok {
      SlotUpdated(heap, slots, o, r.heap, r.buf);
    } else {
      assert slots[o := r.buf] == slots;
    }
  }

  lemma GrownTwice(heap: Heap, slots: seq<Buf>, o: nat, h1: Heap, b1: Buf, ok1: bool, add1: string,
                   h2: Heap, b2: Buf, ok2: bool, add2: string)
    requires o < |slots| && Grown(heap, slots, o, h1, b1, ok1, add1) && Grown(h1, slots[o := b1], o, h2, b2, ok2, add2)
    ensures Grown(heap, slots, o, h2, b2, ok1 && ok2, add1 + add2)
  {
    var slots1 := slots[o := b1];
    assert slots1[o := b2] == slots[o := b2];
    forall q | 0 <= q < |slots| && q != o ensures Content(h2, slots[q]) == Content(heap, slots[q]) {
      assert slots1[q] == slots[q];
    }
    assert (Content(heap, slots[o]) + add1) + add2 == Content(heap, slots[o]) + (add1 + add2);
  }

  lemma GrownNothing(heap: Heap, slots: seq<Buf>, o: nat)
    requires Owned(heap, slots) && o < |slots| && NullIffEmpty(slots[o])
    ensures Grown(heap, slots, o, heap, slots[o], true, "")
  {
    assert slots[o := slots[o]] == slots;
    assert Content(heap, slots[o]) + "" == Content(heap, slots[o]);
  }

  /** The rebuild touches only the new buffer, and when all its appends succeed it holds the rebuilt text. */
  lemma {:induction false} RebuildGrows(heap: Heap, slots: seq<Buf>, o: nat, supply: Supply,
                                        was: string, pos: nat, cur: nat, idx: nat, text: string, t: Result)
    requires Owned(heap, slots) && o < |slots| && NullIffEmpty(slots[o]) && pos <= |was| && Live(heap, slots[o])
    requires t == RebuildBuf(heap, slots[o], supply, was, pos, cur, idx, text)
    ensures Grown(heap, slots, o, t.heap, t.buf, t.ok, Rebuild(was, pos, cur, idx, text))
    decreases |was| - pos, 2
  {
    if pos == |was| {
      GrownNothing(heap, slots, o);
    } else {
      var e := LineEnd(was, pos);
      var segment := if cur == idx then text else was[pos..e];
      var all := Rebuild(was, pos, cur, idx, text);
      RebuildTurn(was, pos, cur, idx, text, e, segment, all);
      var r := Append(heap, slots[o], segment, supply);
      RebuildLine(heap, slots, o, r, supply, segment, was, e, cur, idx, text, t, all);
    }
  }

  /** One line of the rebuild, and then the rest. */
  lemma {:induction false} RebuildLine(heap: Heap, slots: seq<Buf>, o: nat, r: Result, supply: Supply, segment: string,
                                       was: string, e: nat, cur: nat, idx: nat, text: string, t: Result,
                                       added: string)
    requires Owned(heap, slots) && o < |slots| && NullIffEmpty(slots[o]) && Live(heap, slots[o]) && e <= |was|
    requires r == Append(heap, slots[o], segment, supply)
    requires t == if e == |was| then r else RebuildTail(r, was, e, cur, idx, text)
    requires added == if e < |was| then segment + "\n" + Rebuild(was, e + 1, cur + 1, idx, text) else segment
    ensures Grown(heap, slots, o, t.heap, t.buf, t.ok, added)
    decreases |was| - e, 1
  {
    AppendGrows(heap, slots, o, segment, supply, r);
    if e < |was| {
      RebuildRest(heap, slots, o, r, segment, was, e, cur, idx, text, t);
    }
  }

  lemma {:induction false} RebuildRest(heap: Heap, slots: seq<Buf>, o: nat, r: Result, segment: string,
                                       was: string, e: nat, cur: nat, idx: nat, text: string, t: Result)
    requires o < |slots| && e < |was| && Grown(heap, slots, o, r.heap, r.buf, r.ok, segment)
    requires Live(r.heap, r.buf) && t == RebuildTail(r, was, e, cur, idx, text)
    ensures Grown(heap, slots, o, t.heap, t.buf, t.ok, segment + "\n" + Rebuild(was, e + 1, cur + 1, idx, text))
    decreases |was| - e, 0
  {
    var q := Append(r.heap, r.buf, "\n", r.supply);
    AppendGrows(r.heap, slots[o := r.buf], o, "\n", r.supply, q);
    GrownTwice(heap, slots, o, r.heap, r.buf, r.ok, segment, q.heap, q.buf, q.ok, "\n");
    var rest := RebuildBuf(q.heap, q.buf, q.supply, was, e + 1, cur + 1, idx, text);
    RebuildAfter(heap, slots, o, q, r.ok && q.ok, segment + "\n", was, e + 1, cur + 1, idx, text, rest);
  }

  /** From a buffer that has grown by `sofar`, the rebuild of the rest. */
  lemma {:induction false} RebuildAfter(heap: Heap, slots: seq<Buf>, o: nat, q: Result, ok: bool, sofar: string,
                                        was: string, pos: nat, cur: nat, idx: nat, text: string, t: Result)
    requires o < |slots| && pos <= |was| && Grown(heap, slots, o, q.heap, q.buf, ok, sofar) && Live(q.heap, q.buf)
    requires t == RebuildBuf(q.heap, q.buf, q.supply, was, pos, cur, idx, text)
    ensures Grown(heap, slots, o, t.heap, t.buf, ok && t.ok, sofar + Rebuild(was, pos, cur, idx, text))
    decreases |was| - pos, 3
  {
    RebuildGrows(q.heap, slots[o := q.buf], o, q.supply, was, pos, cur, idx, text, t);
    GrownTwice(heap, slots, o, q.heap, q.buf, ok, sofar, t.heap, t.buf, t.ok, Rebuild(was, pos, cur, idx, text));
  }

  /** Every allocation, store and free of the rebuild is in the ledger, and in order. */
  lemma {:induction false} RebuildAccounts(heap: Heap, b: Buf, supply: Supply,
                                           was: string, pos: nat, cur: nat, idx: nat, text: string, t: Result)
    requires Accounts(heap, supply) && BufOk(heap, b) && 0 !in heap && pos <= |was|
    requires t == RebuildBuf(heap, b, supply, was, pos, cur, idx, text)
    ensures Accounts(t.heap, t.supply)
    decreases |was| - pos, 1
  {
    if pos < |was| {
      var e := LineEnd(was, pos);
      var segment := if cur == idx then text else was[pos..e];
      var r := Append(heap, b, segment, supply);
      PutAccounts(heap, b, b.len, segment, supply, r);
      AppendAppends(heap, b, segment, supply);
      if e < |was| { TailAccounts(r, was, e, cur, idx, text, t); }
    }
  }

  lemma {:induction false} TailAccounts(r: Result, was: string, e: nat, cur: nat, idx: nat, text: string, t: Result)
    requires Accounts(r.heap, r.supply) && BufOk(r.heap, r.buf) && 0 !in r.heap && e < |was|
    requires t == RebuildTail(r, was, e, cur, idx, text)
    ensures Accounts(t.heap, t.supply)
    decreases |was| - e, 0
  {
    var q := Append(r.heap, r.buf, "\n", r.supply);
    PutAccounts(r.heap, r.buf, r.buf.len, "\n", r.supply, q);
    AppendAppends(r.heap, r.buf, "\n", r.supply);
    var rest := RebuildBuf(q.heap, q.buf, q.supply, was, e + 1, cur + 1, idx, text);
    RebuildAccounts(q.heap, q.buf, q.supply, was, e + 1, cur + 1, idx, text, rest);
  }

  lemma RebuiltLength(was: string, pos: nat, cur: nat, idx: nat, text: string, e: nat, segment: string)
    requires pos < |was| && e == LineEnd(was, pos) && segment == if cur == idx then text else was[pos..e]
    ensures |Rebuild(was, pos, cur, idx, text)| ==
            |segment| + if e < |was| then 1 + |Rebuild(was, e + 1, cur + 1, idx, text)| else 0
  {
    RebuildTurn(was, pos, cur, idx, text, e, segment, Rebuild(was, pos, cur, idx, text));
  }

  /** An append that fails has something to append, and leaves the buffer as it is. */
  lemma AppendFills(heap: Heap, b: Buf, data: string, supply: Supply, r: Result)
    requires BufOk(heap, b) && 0 !in heap && r == Append(heap, b, data, supply)
    ensures BufOk(r.heap, r.buf) && 0 !in r.heap && r.buf.len == b.len + if r.ok then |data| else 0
    ensures !r.ok ==> |data| > 0
  {
    AppendAppends(heap, b, data, supply);
  }

  /** The new buffer is as long as the rebuilt text exactly when all appends succeeded, and never longer. */
  lemma {:induction false} RebuildFills(heap: Heap, b: Buf, supply: Supply,
                                        was: string, pos: nat, cur: nat, idx: nat, text: string, t: Result)
    requires BufOk(heap, b) && 0 !in heap && pos <= |was|
    requires t == RebuildBuf(heap, b, supply, was, pos, cur, idx, text)
    ensures t.buf.len <= b.len + |Rebuild(was, pos, cur, idx, text)|
    ensures t.ok <==> t.buf.len == b.len + |Rebuild(was, pos, cur, idx, text)|
    decreases |was| - pos, 1
  {
    if pos < |was| {
      var e := LineEnd(was, pos);
      var segment := if cur == idx then text else was[pos..e];
      var r := Append(heap, b, segment, supply);
      RebuiltLength(was, pos, cur, idx, text, e, segment);
      AppendFills(heap, b, segment, supply, r);
      if e < |was| { TailFills(r, was, e, cur, idx, text, t); }
    }
  }

  lemma {:induction false} TailFills(r: Result, was: string, e: nat, cur: nat, idx: nat, text: string, t: Result)
    requires BufOk(r.heap, r.buf) && 0 !in r.heap && e < |was| && t == RebuildTail(r, was, e, cur, idx, text)
    ensures t.buf.len <= r.buf.len + 1 + |Rebuild(was, e + 1, cur + 1, idx, text)|
    ensures t.ok <==> r.ok && t.buf.len == r.buf.len + 1 + |Rebuild(was, e + 1, cur + 1, idx, text)|
    decreases |was| - e, 0
  {
    var q := Append(r.heap, r.buf, "\n", r.supply);
    AppendFills(r.heap, r.buf, "\n", r.supply, q);
    var rest := RebuildBuf(q.heap, q.buf, q.supply, was, e + 1, cur + 1, idx, text);
    RebuildFills(q.heap, q.buf, q.supply, was, e + 1, cur + 1, idx, text, rest);
  }

  /** The old buffer set aside as an owner of its own while the new one is built. */
  lemma Detach(heap: Heap, slots: seq<Buf>, o: nat)
    requires Owned(heap, slots) && o < |slots|
    ensures Owned(heap, slots[o := EMPTY] + [slots[o]])
  {
    var t := slots[o := EMPTY] + [slots[o]];
    forall p | p in heap ensures HasOwner(t, p) {
      assert HasOwner(slots, p);
      var q :| 0 <= q < |slots| && slots[q].ptr == p;
      assert t[if q == o then |slots| else q].ptr == p;
    }
  }

  lemma DropEmpty(heap: Heap, slots: seq<Buf>)
    requires Owned(heap, slots + [EMPTY])
    ensures Owned(heap, slots)
  {
    var t := slots + [EMPTY];
    forall o | 0 <= o < |slots| ensures BufOk(heap, slots[o]) { assert t[o] == slots[o]; }
    forall o, q | 0 <= o < q < |slots| && slots[o].ptr != 0 ensures slots[o].ptr != slots[q].ptr {
      assert t[o] == slots[o] && t[q] == slots[q];
    }
    forall p | p in heap ensures HasOwner(slots, p) {
      assert HasOwner(t, p);
      var q :| 0 <= q < |t| && t[q].ptr == p;
      assert slots[q].ptr == p;
    }
  }

  /** `:e n text` on the buffers: the new buffer replaces the old one, which is freed once, and no file changes.  The
      text is the rebuilt one exactly when all appends succeeded, and shorter otherwise. */
  lemma ReplaceKeeps(s: Fs, idx: nat, text: string, r: Result)
    requires Inv(s) && s.edit.active && r == Replace(s, idx, text)
    ensures Live(r.heap, s.edit.buf)
    ensures var s' := Install(s, r);
      && Inv(s') && Files(s') == Files(s)
      && (r.ok <==> Text(s') == Rebuild(Text(s), 0, 0, idx, text))
      && (!r.ok ==> |Text(s')| < |Rebuild(Text(s), 0, 0, idx, text)|)
  {
    ReplaceSwaps(s, idx, text, r, Rebuild(Text(s), 0, 0, idx, text));
    assert BufOk(s.heap, EMPTY);
    RebuildFills(s.heap, EMPTY, s.supply, Text(s), 0, 0, idx, text, r);
  }

  lemma ReplaceSwaps(s: Fs, idx: nat, text: string, r: Result, rebuilt: string)
    requires Inv(s) && s.edit.active && r == Replace(s, idx, text) && rebuilt == Rebuild(Text(s), 0, 0, idx, text)
    ensures Live(r.heap, s.edit.buf)
    ensures var s' := Install(s, r);
      Inv(s') && Files(s') == Files(s) && |Text(s')| == r.buf.len && (r.ok ==> Text(s') == rebuilt)
  {
    var n := |s.nodes|;
    var slots := Slots(s.nodes, s.edit);
    var apart := slots[n := EMPTY] + [slots[n]];
    EditIsLive(s);
    Detach(s.heap, slots, n);
    RebuildGrows(s.heap, apart, n, s.supply, Text(s), 0, 0, idx, text, r);
    RebuildAccounts(s.heap, EMPTY, s.supply, Text(s), 0, 0, idx, text, r);
    assert Content(s.heap, EMPTY) == [];
    assert [] + rebuilt == rebuilt;
    Reattach(s, r, slots, apart);
  }

  /** Freeing the buffer that was set aside leaves every owner its contents. */
  lemma FreeSetAside(heap: Heap, slots: seq<Buf>, b: Buf)
    requires Owned(heap, slots + [b])
    ensures Live(heap, b) && Owned(Release(heap, b), slots) && 0 !in heap
    ensures forall q :: 0 <= q < |slots| ==> Content(Release(heap, b), slots[q]) == Content(heap, slots[q])
  {
    var all, n := slots + [b], |slots|;
    assert all[n] == b && BufOk(heap, all[n]);
    ReleaseFrees(heap, b);
    SlotUpdated(heap, all, n, Release(heap, b), EMPTY);
    assert all[n := EMPTY] == slots + [EMPTY];
    DropEmpty(Release(heap, b), slots);
    forall q | 0 <= q < n ensures Content(Release(heap, b), slots[q]) == Content(heap, slots[q]) {
      assert all[q] == slots[q];
    }
  }

  /** The new buffer takes the editor's place, and the old one is freed. */
  lemma Reattach(s: Fs, r: Result, slots: seq<Buf>, apart: seq<Buf>)
    requires Inv(s) && s.edit.active && slots == Slots(s.nodes, s.edit) && NullIffEmpty(r.buf)
    requires apart == slots[|s.nodes| := EMPTY] + [s.edit.buf] && Accounts(r.heap, r.supply)
    requires Owned(r.heap, apart[|s.nodes| := r.buf]) && SameOthers(s.heap, r.heap, apart, |s.nodes|)
    ensures Live(r.heap, s.edit.buf)
    ensures var s' := Install(s, r);
      Inv(s') && Files(s') == Files(s) && Text(s') == Content(r.heap, r.buf) && |Text(s')| == r.buf.len
  {
    var n := |s.nodes|;
    var slots' := slots[n := r.buf];
    assert apart[n := r.buf] == slots' + [s.edit.buf];
    FreeSetAside(r.heap, slots', s.edit.buf);
    FreeAccounts(r.heap, r.supply, s.edit.buf);
    var s' := Install(s, r);
    assert Slots(s'.nodes, s'.edit) == slots' && slots'[n] == r.buf;
    forall q | 0 <= q < n ensures Content(s'.heap, slots[q]) == Content(s.heap, slots[q]) {
      assert apart[q] == slots[q] == slots'[q];
    }
    SameFiles(s, s', slots);
  }

  // ---------- every editor call keeps the invariant ----------

  lemma TextIsBounded(s: Fs)
    requires Inv(s)
    ensures |Text(s)| <= FS_MAX_FILE_SIZE
  {
    EditIsLive(s);
  }

  lemma {:induction false} LinesAreFew(s: string)
    ensures TotalLines(s) <= |s| && Newlines(s) <= |s|
  {
    if s != "" {
      LinesAreFew(s[..|s| - 1]);
    }
  }

  /** A line number in range is far from wrapping. */
  lemma LineCountIsSmall(s: Fs)
    requires Inv(s)
    ensures TotalLines(Text(s)) <= FS_MAX_FILE_SIZE
  {
    TextIsBounded(s);
    LinesAreFew(Text(s));
  }

  lemma PrepareKeeps(s: Fs, n: nat, line: string)
    requires Inv(s) && n <= TotalLines(Text(s))
    ensures Inv(Prepare(s, n, line)) && Files(Prepare(s, n, line)) == Files(s)
  {
    LineCountIsSmall(s);
    OtherEditFields(s, Prepare(s, n, line).edit);
  }

  lemma LineCommandKeeps(s: Fs, arg: string, r: Outcome)
    requires Inv(s) && s.edit.active && Live(s.heap, s.edit.buf) && r == LineCommand(s, arg)
    ensures Inv(r.fs) && Files(r.fs) == Files(s)
  {
    var (n, rest) := ParseNumber(0, arg);
    var idx := Decrement(n);
    if idx < 0 || s.edit.buf.len == 0 || idx >= TotalLines(Text(s)) || (rest != "" && rest[0] != ' ') {
      assert r.fs == s;
    } else if rest != "" {
      ReplaceKeeps(s, idx, rest[1..], Replace(s, idx, rest[1..]));
    } else if FetchLine(Text(s), n).Some? {
      PrepareKeeps(s, n, FetchLine(Text(s), n).value);
    }
  }

  lemma SaveKeeps(s: Fs, r: Outcome)
    requires Inv(s) && r == SaveText(s)
    ensures Inv(r.fs)
  {
    if s.edit.buf.ptr != 0 {
      WriteKeeps(s, s.edit.path, Text(s));
      CloseKeeps(WriteFile(s, s.edit.path, Text(s)).fs);
    }
  }

  lemma AddLineKeeps(s: Fs, line: string, r: Outcome)
    requires Inv(s) && s.edit.active && Live(s.heap, s.edit.buf) && r == AddLine(s, line)
    ensures Inv(r.fs) && Files(r.fs) == Files(s) && r.fs.edit.active && r.fs.nodes == s.nodes && r.fs.cwd == s.cwd
    ensures r.fs.edit.path == s.edit.path && r.fs.edit.target == s.edit.target
    ensures r.code == FS_OK ==> Text(r.fs) == Text(s) + line + "\n"
    ensures r.code != FS_OK ==> Text(r.fs) == Text(s) || Text(r.fs) == Text(s) + line
  {
    var a := Appended(s, line);
    EditAppendKeeps(s, line, a);
    if a.code == FS_OK { EditAppendKeeps(a.fs, "\n", r); }
  }

  lemma CommandKeeps(s: Fs, request: Request, r: Outcome)
    requires Inv(s) && s.edit.active && r == Command(s, request)
    ensures Inv(r.fs)
  {
    EditIsLive(s);
    match request
    case SaveIt => SaveKeeps(s, r);
    case Quit => CloseKeeps(s);
    case Print =>
    case EditIt(arg) => LineCommandKeeps(s, arg, r);
    case AddIt(text) => AddLineKeeps(s, text, r);
  }

  lemma HandleKeeps(s: Fs, request: Request, r: Outcome)
    requires Inv(s) && r == Handle(s, request)
    ensures Inv(r.fs)
  {
    if s.edit.active {
      UntargetedKeeps(s);
      CommandKeeps(Untargeted(s), request, r);
    }
  }

  lemma HandleLineKeeps(s: Fs, line: string)
    requires Inv(s)
    ensures Inv(HandleLine(s, line).fs)
  {
    HandleKeeps(s, Effective(s.edit.target, line), HandleLine(s, line));
  }

  /** Opening a file copies its contents into the editor. */
  lemma BeginKeeps(s: Fs, path: string)
    requires Inv(s)
    ensures var r := Begin(s, path);
      && Inv(r.fs) && Files(r.fs) == Files(s)
      && (r.code == FS_OK ==>
            var id := Resolve(s.nodes, s.cwd, path, false); id in Files(s) && Text(r.fs) == Files(s)[id])
  {
    if !s.edit.active {
      var id := Resolve(s.nodes, s.cwd, path, false);
      if id >= 0 && !s.nodes[id].isDir {
        CloseKeeps(s);
        OpenKeeps(FreeEdit(s), path, id);
      }
    }
  }

  lemma OpenKeeps(s: Fs, path: string, id: int)
    requires Inv(s) && s.edit.buf == EMPTY && IsFile(s, id)
    ensures var r := OpenFile(s, path, id);
      && Inv(r.fs) && Files(r.fs) == Files(s)
      && (r.code == FS_OK ==> id in Files(s) && Text(r.fs) == Files(s)[id])
  {
    var data := Content(s.heap, NodeBuf(s.nodes[id]));
    assert BufOk(s.heap, Slots(s.nodes, s.edit)[id]);
    assert id in Files(s) && Files(s)[id] == data;
    var t := s.(edit := s.edit.(active := true, path := Truncate(path, FS_MAX_PATH)));
    SessionFlags(s, t.edit);
    if s.nodes[id].size == 0 {
      assert data == [];
    } else {
      OpenCopies(t, data, Appended(t, data));
    }
  }

  lemma OpenCopies(t: Fs, data: seq<char>, r: Outcome)
    requires Inv(t) && t.edit.active && t.edit.buf == EMPTY && r == Appended(t, data)
    ensures Inv(r.fs) && Files(r.fs) == Files(t) && (r.code == FS_OK ==> Text(r.fs) == data)
    ensures var u := r.fs.(edit := r.fs.edit.(active := false, path := ""));
      r.code != FS_OK ==> Inv(u) && Files(u) == Files(t)
  {
    EditAppendKeeps(t, data, r);
    assert Text(t) == [] && [] + data == data;
    if r.code != FS_OK { SessionFlags(r.fs, r.fs.edit.(active := false, path := "")); }
  }

  /** With no buffer, the session flags do not matter to the invariant. */
  lemma SessionFlags(s: Fs, e: Edit)
    requires Inv(s) && s.edit.buf == EMPTY && e.buf == EMPTY && e.target <= FS_MAX_FILE_SIZE
    ensures Inv(s.(edit := e)) && Files(s.(edit := e)) == Files(s)
  {
    assert Slots(s.nodes, e) == Slots(s.nodes, s.edit);
  }
}
