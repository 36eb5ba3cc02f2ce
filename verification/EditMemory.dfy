/**
 The memory that `:e n text` needs (src/kernel/fs.c:535-554, 711-730).  Failed appends are ignored by the rebuild loop,
 so the new text is whole exactly when every `kmalloc` it asks for is served.
 */
module EditMemory {
  import opened Buffers
  import opened FsModel
  import opened EditText
  import opened EditModel
  import opened EditProofs

  // ---------- which calls are made ----------

  function Asks(cap: nat, need: nat): nat { if need <= cap then 0 else 1 }

  function CapFor(cap: nat, need: nat): nat { if need <= cap then cap else NewCap(cap, need) }

  /** How many `kmalloc` calls the rebuild makes from position `pos` on, all of them served, with `len` of `cap` bytes
      in use. */
  function Calls(was: string, pos: nat, cur: nat, idx: nat, text: string, len: nat, cap: nat): nat
    requires pos <= |was|
    decreases |was| - pos, 1
  {
    if pos == |was| then 0
    else
      var e := LineEnd(was, pos);
      var need := len + if cur == idx then |text| else e - pos;
      Asks(cap, need) + if e == |was| then 0 else TailCalls(was, e, cur, idx, text, need, CapFor(cap, need))
  }

  /** The same from the newline at `e` on. */
  function TailCalls(was: string, e: nat, cur: nat, idx: nat, text: string, len: nat, cap: nat): nat
    requires e < |was|
    decreases |was| - e, 0
  {
    Asks(cap, len + 1) + Calls(was, e + 1, cur + 1, idx, text, len + 1, CapFor(cap, len + 1))
  }

  /** The next `n` results are pointers that are not live when they are handed out; each stands in for the one before,
      which is then freed, and `others` stay live throughout. */
  ghost predicate Given(others: set<nat>, last: nat, coming: seq<nat>, n: nat)
    decreases n
  {
    n == 0 ||
    (coming != [] && coming[0] != 0 && coming[0] != last && coming[0] !in others
     && Given(others, coming[0], coming[1..], n - 1))
  }

  /** The live pointers besides a buffer's own. */
  function Others(heap: Heap, b: Buf): set<nat> { heap.Keys - {b.ptr} }

  // ---------- served calls, and the appends they make succeed ----------

  ghost predicate AppendedTo(b: Buf, data: string, r: Result)
  {
    && BufOk(r.heap, r.buf) && 0 !in r.heap
    && r.buf.len == b.len + |data| && r.buf.cap == CapFor(b.cap, b.len + |data|)
  }

  /** An append succeeds exactly when its result fits and its call, if it makes one, is served; `more` calls to come are
      then served or not as before. */
  lemma AppendServed(heap: Heap, b: Buf, data: string, supply: Supply, r: Result, more: nat)
    requires BufOk(heap, b) && 0 !in heap && r == Append(heap, b, data, supply)
    ensures var need, all := b.len + |data|, Asks(b.cap, b.len + |data|) + more;
      && (r.ok ==> need <= FS_MAX_FILE_SIZE && AppendedTo(b, data, r))
      && (r.ok ==> (Given(Others(heap, b), b.ptr, supply.coming, all)
                    <==> Given(Others(r.heap, r.buf), r.buf.ptr, r.supply.coming, more)))
      && (!r.ok ==> need > FS_MAX_FILE_SIZE || !Given(Others(heap, b), b.ptr, supply.coming, all))
  {
    AppendAppends(heap, b, data, supply);
    if r.ok { OthersKept(heap, b, data, supply, r); }
  }

  lemma OthersKept(heap: Heap, b: Buf, data: string, supply: Supply, r: Result)
    requires BufOk(heap, b) && 0 !in heap && r == Append(heap, b, data, supply) && r.ok
    ensures Others(r.heap, r.buf) == Others(heap, b)
  {
    AppendAppends(heap, b, data, supply);
    assert forall p :: p in Others(r.heap, r.buf) <==> p in Others(heap, b);
  }

  /** Room for `more` bytes beyond a buffer's own, and `calls` served calls. */
  ghost predicate Whole(heap: Heap, b: Buf, supply: Supply, more: nat, calls: nat)
  {
    b.len + more <= FS_MAX_FILE_SIZE && Given(Others(heap, b), b.ptr, supply.coming, calls)
  }

  /** An append is one step towards a whole rebuild. */
  lemma AppendWhole(heap: Heap, b: Buf, data: string, supply: Supply, r: Result, size: nat, calls: nat,
                    more: nat, rest: nat)
    requires BufOk(heap, b) && 0 !in heap && r == Append(heap, b, data, supply)
    requires size == |data| + more && calls == Asks(b.cap, b.len + |data|) + rest
    ensures r.ok ==> AppendedTo(b, data, r)
    ensures Whole(heap, b, supply, size, calls) <==> r.ok && Whole(r.heap, r.buf, r.supply, more, rest)
  {
    AppendServed(heap, b, data, supply, r, rest);
  }

  /** The rebuild is whole exactly when the new text fits and every call is served. */
  lemma {:induction false} RebuildServed(heap: Heap, b: Buf, supply: Supply, was: string, pos: nat, cur: nat, idx: nat,
                                         text: string, t: Result, size: nat, calls: nat)
    requires BufOk(heap, b) && 0 !in heap && pos <= |was|
    requires t == RebuildBuf(heap, b, supply, was, pos, cur, idx, text)
    requires size == |Rebuild(was, pos, cur, idx, text)| && calls == Calls(was, pos, cur, idx, text, b.len, b.cap)
    ensures t.ok <==> Whole(heap, b, supply, size, calls)
    decreases |was| - pos, 3
  {
    if pos < |was| {
      var e := LineEnd(was, pos);
      var segment := if cur == idx then text else was[pos..e];
      RebuiltLength(was, pos, cur, idx, text, e, segment);
      CallsTurn(was, pos, cur, idx, text, e, segment, b.len, b.cap, calls);
      var r := Append(heap, b, segment, supply);
      RebuildFirst(heap, b, supply, was, pos, cur, idx, text, t, e, segment, r);
      if e == |was| {
        LastServed(heap, b, supply, segment, r, size, calls);
      } else {
        LineServed(heap, b, supply, segment, r, was, e, cur, idx, text, t, size, calls);
      }
    }
  }

  lemma RebuildFirst(heap: Heap, b: Buf, supply: Supply, was: string, pos: nat, cur: nat, idx: nat, text: string,
                     t: Result, e: nat, segment: string, r: Result)
    requires pos < |was| && Live(heap, b) && t == RebuildBuf(heap, b, supply, was, pos, cur, idx, text)
    requires e == LineEnd(was, pos) && segment == if cur == idx then text else was[pos..e]
    requires r == Append(heap, b, segment, supply)
    ensures e == |was| ==> t == r
    ensures e < |was| ==> t == RebuildTail(r, was, e, cur, idx, text)
  {}

  lemma CallsTurn(was: string, pos: nat, cur: nat, idx: nat, text: string, e: nat, segment: string, len: nat, cap: nat,
                  calls: nat)
    requires pos < |was| && e == LineEnd(was, pos) && segment == if cur == idx then text else was[pos..e]
    requires calls == Calls(was, pos, cur, idx, text, len, cap)
    ensures e == |was| ==> calls == Asks(cap, len + |segment|)
    ensures e < |was| ==> var need := len + |segment|;
      calls == Asks(cap, need) + TailCalls(was, e, cur, idx, text, need, CapFor(cap, need))
  {}

  /** The last line. */
  lemma LastServed(heap: Heap, b: Buf, supply: Supply, segment: string, r: Result, size: nat, calls: nat)
    requires BufOk(heap, b) && 0 !in heap && r == Append(heap, b, segment, supply)
    requires size == |segment| && calls == Asks(b.cap, b.len + |segment|)
    ensures r.ok <==> Whole(heap, b, supply, size, calls)
  {
    AppendWhole(heap, b, segment, supply, r, size, calls, 0, 0);
  }

  /** A line that ends at a newline at `e`, and the rest. */
  lemma {:induction false} LineServed(heap: Heap, b: Buf, supply: Supply, segment: string, r: Result,
                                      was: string, e: nat, cur: nat, idx: nat, text: string, t: Result,
                                      size: nat, calls: nat)
    requires BufOk(heap, b) && 0 !in heap && e < |was| && r == Append(heap, b, segment, supply)
    requires t == RebuildTail(r, was, e, cur, idx, text)
    requires size == |segment| + (1 + |Rebuild(was, e + 1, cur + 1, idx, text)|)
    requires var need := b.len + |segment|;
      calls == Asks(b.cap, need) + TailCalls(was, e, cur, idx, text, need, CapFor(b.cap, need))
    ensures t.ok <==> Whole(heap, b, supply, size, calls)
    decreases |was| - e, 2
  {
    var more, rest := size - |segment|, calls - Asks(b.cap, b.len + |segment|);
    AppendWhole(heap, b, segment, supply, r, size, calls, more, rest);
    if r.ok { TailServed(r, was, e, cur, idx, text, t, more, rest); }
  }

  /** The same from the newline at `e` on. */
  lemma {:induction false} TailServed(r: Result, was: string, e: nat, cur: nat, idx: nat, text: string, t: Result,
                                      size: nat, calls: nat)
    requires BufOk(r.heap, r.buf) && 0 !in r.heap && e < |was| && r.ok && t == RebuildTail(r, was, e, cur, idx, text)
    requires size == 1 + |Rebuild(was, e + 1, cur + 1, idx, text)|
    requires calls == TailCalls(was, e, cur, idx, text, r.buf.len, r.buf.cap)
    ensures t.ok <==> Whole(r.heap, r.buf, r.supply, size, calls)
    decreases |was| - e, 0
  {
    var q := Append(r.heap, r.buf, "\n", r.supply);
    var len := r.buf.len + 1;
    var rest := Calls(was, e + 1, cur + 1, idx, text, len, CapFor(r.buf.cap, len));
    AppendWhole(r.heap, r.buf, "\n", r.supply, q, size, calls, size - 1, rest);
    if q.ok {
      var last := RebuildBuf(q.heap, q.buf, q.supply, was, e + 1, cur + 1, idx, text);
      RebuildServed(q.heap, q.buf, q.supply, was, e + 1, cur + 1, idx, text, last, size - 1, rest);
    }
  }

  // ---------- nine calls are enough ----------

  /** How often a buffer of this capacity can still grow. */
  function Growths(cap: nat): nat
  {
    if cap == 0 then 9 else if cap <= 256 then 8 else if cap <= 512 then 7 else if cap <= 1024 then 6
    else if cap <= 2048 then 5 else if cap <= 4096 then 4 else if cap <= 8192 then 3 else if cap <= 16384 then 2
    else if cap <= 32768 then 1 else 0
  }

  lemma GrowthsLeft(cap: nat, need: nat)
    requires (cap == 0 || IsCap(cap)) && need <= FS_MAX_FILE_SIZE
    ensures Asks(cap, need) + Growths(CapFor(cap, need)) <= Growths(cap)
    ensures CapFor(cap, need) == 0 || IsCap(CapFor(cap, need))
  {
    if need > cap { NewCapIsEnough(cap, need); }
  }

  lemma {:induction false} CallsAreFew(was: string, pos: nat, cur: nat, idx: nat, text: string, len: nat, cap: nat)
    requires pos <= |was| && (cap == 0 || IsCap(cap))
    requires len + |Rebuild(was, pos, cur, idx, text)| <= FS_MAX_FILE_SIZE
    ensures Calls(was, pos, cur, idx, text, len, cap) <= Growths(cap)
    decreases |was| - pos, 1
  {
    if pos < |was| {
      var e := LineEnd(was, pos);
      var segment := if cur == idx then text else was[pos..e];
      var need := len + |segment|;
      RebuiltLength(was, pos, cur, idx, text, e, segment);
      GrowthsLeft(cap, need);
      if e < |was| { TailCallsAreFew(was, e, cur, idx, text, need, CapFor(cap, need)); }
    }
  }

  lemma {:induction false} TailCallsAreFew(was: string, e: nat, cur: nat, idx: nat, text: string, len: nat, cap: nat)
    requires e < |was| && (cap == 0 || IsCap(cap))
    requires len + 1 + |Rebuild(was, e + 1, cur + 1, idx, text)| <= FS_MAX_FILE_SIZE
    ensures TailCalls(was, e, cur, idx, text, len, cap) <= Growths(cap)
    decreases |was| - e, 0
  {
    GrowthsLeft(cap, len + 1);
    CallsAreFew(was, e + 1, cur + 1, idx, text, len + 1, CapFor(cap, len + 1));
  }

  /** Coming `kmalloc` calls return pairwise distinct pointers that are not live. */
  ghost predicate Fresh(others: set<nat>, coming: seq<nat>)
  {
    && (forall i :: 0 <= i < |coming| ==> coming[i] != 0 && coming[i] !in others)
    && (forall i, j :: 0 <= i < j < |coming| ==> coming[i] != coming[j])
  }

  lemma {:induction false} FreshIsGiven(others: set<nat>, last: nat, coming: seq<nat>, n: nat)
    requires Fresh(others, coming) && last !in coming && n <= |coming|
    ensures Given(others, last, coming, n)
    decreases n
  {
    if n > 0 {
      var rest := coming[1..];
      assert forall i :: 0 <= i < |rest| ==> rest[i] == coming[i + 1];
      FreshIsGiven(others, coming[0], rest, n - 1);
    }
  }

  /** Enough memory for any rebuild. */
  ghost predicate Plenty(s: Fs) { Fresh(s.heap.Keys, s.supply.coming) && |s.supply.coming| >= 9 }

  // ---------- line replacement ----------

  /** Every `kmalloc` call that `:e n text` makes is served. */
  ghost predicate Served(s: Fs, n: nat, text: string)
    requires n >= 1
  {
    Given(s.heap.Keys, 0, s.supply.coming, Calls(Text(s), 0, 0, n - 1, text, 0, 0))
  }

  lemma ReplaceServed(s: Fs, n: nat, text: string, r: Result)
    requires Inv(s) && n >= 1 && r == Replace(s, n - 1, text)
    ensures r.ok <==> |Rebuild(Text(s), 0, 0, n - 1, text)| <= FS_MAX_FILE_SIZE && Served(s, n, text)
  {
    assert BufOk(s.heap, EMPTY) && Others(s.heap, EMPTY) == s.heap.Keys;
    var size, calls := |Rebuild(Text(s), 0, 0, n - 1, text)|, Calls(Text(s), 0, 0, n - 1, text, 0, 0);
    RebuildServed(s.heap, EMPTY, s.supply, Text(s), 0, 0, n - 1, text, r, size, calls);
  }

  /** Nine fresh pointers serve every rebuild that fits. */
  lemma PlentyServes(s: Fs, n: nat, text: string)
    requires n >= 1 && Plenty(s) && |Rebuild(Text(s), 0, 0, n - 1, text)| <= FS_MAX_FILE_SIZE
    ensures Served(s, n, text)
  {
    CallsAreFew(Text(s), 0, 0, n - 1, text, 0, 0);
    FreshIsGiven(s.heap.Keys, 0, s.supply.coming, Calls(Text(s), 0, 0, n - 1, text, 0, 0));
  }

  // ---------- no memory at all ----------

  /** When `kmalloc` has nothing more to give, the new buffer stays NULL. */
  lemma {:induction false} RebuildStarved(heap: Heap, supply: Supply,
                                          was: string, pos: nat, cur: nat, idx: nat, text: string, t: Result)
    requires supply.coming == [] && pos <= |was|
    requires t == RebuildBuf(heap, EMPTY, supply, was, pos, cur, idx, text)
    ensures t.buf == EMPTY
    decreases |was| - pos, 1
  {
    if pos < |was| {
      var e := LineEnd(was, pos);
      var segment := if cur == idx then text else was[pos..e];
      var r := Append(heap, EMPTY, segment, supply);
      AppendStarved(heap, segment, supply, r);
      if e < |was| { TailStarved(r, was, e, cur, idx, text, t); }
    }
  }

  lemma AppendStarved(heap: Heap, data: string, supply: Supply, r: Result)
    requires supply.coming == [] && r == Append(heap, EMPTY, data, supply)
    ensures r.buf == EMPTY && r.supply.coming == []
  {}

  lemma {:induction false} TailStarved(r: Result, was: string, e: nat, cur: nat, idx: nat, text: string, t: Result)
    requires r.buf == EMPTY && r.supply.coming == [] && e < |was| && t == RebuildTail(r, was, e, cur, idx, text)
    ensures t.buf == EMPTY
    decreases |was| - e, 0
  {
    var q := Append(r.heap, EMPTY, "\n", r.supply);
    AppendStarved(r.heap, "\n", r.supply, q);
    var rest := RebuildBuf(q.heap, EMPTY, q.supply, was, e + 1, cur + 1, idx, text);
    RebuildStarved(q.heap, q.supply, was, e + 1, cur + 1, idx, text, rest);
  }
}
