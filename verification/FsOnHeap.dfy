/**
 The filesystem on the kernel heap (src/kernel/memory.c:331-381, src/kernel/fs.c:236-270): runs of the heap in which
 every entry of the filesystem's ledger is one event, among the events of any other clients.  In every such run each
 byte of each file is in memory, at the address its buffer has.
 */
module FsOnHeap {
  import opened HeapModel
  import opened HeapRuns
  import opened Runs
  import B = Buffers
  import F = FsModel
  import E = EditTheorems

  // ---------- the filesystem's view of a heap ----------

  /** Byte `i` of a buffer is in the block, if the filesystem has stored it. */
  ghost predicate SameByte(bytes: seq<Byte>, buffer: seq<char>, i: nat)
    requires i < |buffer|
  {
    buffer[i] != B.GARBAGE ==> i < |bytes| && bytes[i] == buffer[i] as int
  }

  ghost predicate BackedAt(h: State, heap: B.Heap, p: nat)
    requires p in heap
  {
    && p in h.live && |heap[p]| <= |h.live[p].bytes|
    && forall i :: 0 <= i < |heap[p]| ==> SameByte(h.live[p].bytes, heap[p], i)
  }

  /** Every buffer of the filesystem is a live block of the heap, at least as large and with the same bytes. */
  ghost predicate Backs(h: State, heap: B.Heap) { forall p :: p in heap ==> BackedAt(h, heap, p) }

  // ---------- events ----------

  /** A step of the heap: an entry of the filesystem's ledger, or something else. */
  datatype Turn = Own(call: B.HeapCall) | Other(event: Event)

  datatype Joint = Joint(h: State, ledger: seq<B.HeapCall>)

  ghost predicate OwnStep(h: State, c: B.HeapCall, h': State)
    requires Represents(h.mem, h.blocks)
  {
    match c
    case Allocated(p, size) => Step(h, Malloc(size, p), h')
    case Freed(p) => Step(h, Free(p), h')
    case Stored(p, off, value) => value as int < 256 && Step(h, Write(p, off, value as int), h')
  }

  /** Other clients free and write their own blocks only; a `kmalloc` of the filesystem that fails counts here too. */
  ghost predicate OtherStep(h: State, heap: B.Heap, e: Event, h': State)
    requires Represents(h.mem, h.blocks)
  {
    Step(h, e, h') && (!e.Malloc? ==> e.ptr !in heap)
  }

  function LedgerAfter(ledger: seq<B.HeapCall>, t: Turn): seq<B.HeapCall>
  {
    if t.Own? then ledger + [t.call] else ledger
  }

  ghost predicate JointFollows(s: Joint, t: Turn, s': Joint)
  {
    && s'.ledger == LedgerAfter(s.ledger, t)
    && (Represents(s.h.mem, s.h.blocks) ==>
          if t.Own? then OwnStep(s.h, t.call, s'.h) else OtherStep(s.h, B.Replay(s.ledger), t.event, s'.h))
  }

  ghost predicate JointRun(states: seq<Joint>, turns: seq<Turn>)
  {
    IsRun(JointFollows, states, turns) && Initial(states[0].h) && states[0].ledger == []
  }

  // ---------- one event ----------

  /** An event leaves every other grant alone. */
  lemma GrantKept(h: State, e: Event, h': State, q: nat)
    requires Sound(h) && Step(h, e, h') && q in h.live && (e.Malloc? || e.ptr != q)
    ensures q in h'.live && h'.live[q] == h.live[q]
  {
    StepSound(h, e, h');
  }

  lemma StillBacked(h: State, e: Event, h': State, heap: B.Heap, q: nat)
    requires Sound(h) && Step(h, e, h') && q in heap && BackedAt(h, heap, q) && (e.Malloc? || e.ptr != q)
    ensures BackedAt(h', heap, q)
  {
    GrantKept(h, e, h', q);
  }

  lemma OtherKeeps(h: State, heap: B.Heap, e: Event, h': State)
    requires Sound(h) && Backs(h, heap) && OtherStep(h, heap, e, h')
    ensures Sound(h') && Backs(h', heap)
  {
    StepSound(h, e, h');
    forall q | q in heap ensures BackedAt(h', heap, q) { StillBacked(h, e, h', heap, q); }
  }

  /** A live block is at least as large as its request. */
  lemma GrantIsLargeEnough(h: State, p: nat)
    requires Sound(h) && p in h.live && h.live[p].request <= B.FS_MAX_FILE_SIZE
    ensures |h.live[p].bytes| >= h.live[p].request
  {
    var k: nat :| Allocated(h.blocks, k, p);
    assert Tracks(h, k);
    RoundingCoversRequest(h.live[p].request);
  }

  lemma MallocGrants(h: State, size: nat, p: nat, h': State)
    requires Sound(h) && size <= B.FS_MAX_FILE_SIZE && Step(h, Malloc(size, p), h') && p != NULL
    ensures Sound(h') && p !in h.live && p in h'.live && |h'.live[p].bytes| >= size
  {
    StepSound(h, Malloc(size, p), h');
    var k: nat :| MallocStep(h, k, size, p, h');
    assert h'.live[p].request == size;
    GrantIsLargeEnough(h', p);
  }

  /** What `kmalloc` returns, if it is not NULL, is not a live buffer: the filesystem may enter it in its ledger. */
  lemma MallocServes(h: State, heap: B.Heap, size: nat, p: nat, h': State)
    requires Sound(h) && Backs(h, heap) && size <= B.FS_MAX_FILE_SIZE && Step(h, Malloc(size, p), h') && p != NULL
    ensures B.Legal(heap, B.Allocated(p, size)) && Sound(h') && Backs(h', heap[p := B.Fill(size)])
  {
    MallocGrants(h, size, p, h');
    assert p in heap ==> BackedAt(h, heap, p);
    var heap' := heap[p := B.Fill(size)];
    forall q | q in heap' ensures BackedAt(h', heap', q) {
      if q != p {
        assert BackedAt(h, heap, q);
        GrantKept(h, Malloc(size, p), h', q);
      } else {
        FillerIsBacked(h', heap', p, size);
      }
    }
  }

  lemma FillerIsBacked(h: State, heap: B.Heap, p: nat, size: nat)
    requires p in heap && heap[p] == B.Fill(size) && p in h.live && |h.live[p].bytes| >= size
    ensures BackedAt(h, heap, p)
  {
    forall i | 0 <= i < size ensures SameByte(h.live[p].bytes, heap[p], i) {}
  }

  lemma FreeServes(h: State, heap: B.Heap, p: nat, h': State)
    requires Sound(h) && Backs(h, heap) && Step(h, Free(p), h')
    ensures Sound(h') && Backs(h', heap - {p})
  {
    StepSound(h, Free(p), h');
    forall q | q in heap - {p} ensures BackedAt(h', heap - {p}, q) {
      assert BackedAt(h, heap, q);
      GrantKept(h, Free(p), h', q);
    }
  }

  lemma WriteServes(h: State, heap: B.Heap, p: nat, off: nat, value: char, h': State)
    requires Sound(h) && Backs(h, heap) && p in heap && off < |heap[p]|
    requires value as int < 256 && Step(h, Write(p, off, value as int), h')
    ensures Sound(h') && Backs(h', B.StoreAt(heap, p, off, [value]))
  {
    var e, heap' := Write(p, off, value as int), B.StoreAt(heap, p, off, [value]);
    StepSound(h, e, h');
    forall q | q in heap' ensures BackedAt(h', heap', q) {
      assert BackedAt(h, heap, q);
      if q != p { GrantKept(h, e, h', q); } else { ByteStored(h, heap, p, off, value, h', heap'); }
    }
  }

  lemma ByteStored(h: State, heap: B.Heap, p: nat, off: nat, value: char, h': State, heap': B.Heap)
    requires Sound(h) && p in heap && BackedAt(h, heap, p) && off < |heap[p]|
    requires value as int < 256 && Step(h, Write(p, off, value as int), h')
    requires heap' == B.StoreAt(heap, p, off, [value])
    ensures BackedAt(h', heap', p)
  {
    assert heap'[p] == heap[p][off := value];
    assert h'.live[p].bytes == h.live[p].bytes[off := value as int];
    forall i | 0 <= i < |heap'[p]| ensures SameByte(h'.live[p].bytes, heap'[p], i) {
      assert SameByte(h.live[p].bytes, heap[p], i);
    }
  }

  lemma OwnKeeps(h: State, heap: B.Heap, c: B.HeapCall, h': State)
    requires Sound(h) && Backs(h, heap) && B.Legal(heap, c) && OwnStep(h, c, h')
    ensures Sound(h') && Backs(h', B.Effect(heap, c))
  {
    match c
    case Allocated(p, size) => MallocServes(h, heap, size, p, h');
    case Freed(p) => FreeServes(h, heap, p, h');
    case Stored(p, off, value) => WriteServes(h, heap, p, off, value, h');
  }

  // ---------- whole runs ----------

  lemma LastEntry(ledger: seq<B.HeapCall>, c: B.HeapCall)
    requires B.InOrder(ledger + [c])
    ensures B.InOrder(ledger) && B.Legal(B.Replay(ledger), c)
    ensures B.Replay(ledger + [c]) == B.Effect(B.Replay(ledger), c)
  {
    var ledger', n := ledger + [c], |ledger|;
    assert ledger'[..n] == ledger && B.LegalAt(ledger', n);
    forall k | 0 <= k < n ensures B.LegalAt(ledger, k) {
      assert B.LegalAt(ledger', k) && ledger'[..k] == ledger[..k];
    }
  }

  lemma TurnKeeps(s: Joint, t: Turn, s': Joint)
    requires JointFollows(s, t, s') && Sound(s.h) && Backs(s.h, B.Replay(s.ledger))
    requires t.Own? ==> B.Legal(B.Replay(s.ledger), t.call)
    requires t.Own? ==> B.Replay(s'.ledger) == B.Effect(B.Replay(s.ledger), t.call)
    ensures Sound(s'.h) && Backs(s'.h, B.Replay(s'.ledger))
  {
    if t.Own? {
      OwnKeeps(s.h, B.Replay(s.ledger), t.call, s'.h);
    } else {
      OtherKeeps(s.h, B.Replay(s.ledger), t.event, s'.h);
    }
  }

  /** Whatever other clients do in between, the heap holds the buffers that an orderly ledger accounts for. */
  lemma {:induction false} HeapHoldsBuffers(states: seq<Joint>, turns: seq<Turn>, i: nat)
    requires JointRun(states, turns) && i <= |turns| && B.InOrder(states[i].ledger)
    ensures Sound(states[i].h) && Backs(states[i].h, B.Replay(states[i].ledger))
  {
    if i > 0 {
      var s, t, s' := states[i - 1], turns[i - 1], states[i];
      assert JointFollows(s, t, s');
      if t.Own? { LastEntry(s.ledger, t.call); }
      HeapHoldsBuffers(states, turns, i - 1);
      TurnKeeps(s, t, s');
    }
  }

  /** Memory has `content` from address `p` on. */
  ghost predicate InMemory(mem: seq<Byte>, p: nat, content: seq<char>)
  {
    forall i :: 0 <= i < |content| && content[i] != B.GARBAGE ==>
      0 <= p + i - HEAP_START < |mem| && mem[p + i - HEAP_START] == content[i] as int
  }

  lemma BufferInMemory(h: State, heap: B.Heap, b: B.Buf)
    requires Sound(h) && Backs(h, heap) && B.BufOk(heap, b) && 0 !in heap
    ensures InMemory(h.mem, b.ptr, B.Content(heap, b))
  {
    if b.ptr in heap {
      var p := b.ptr;
      assert BackedAt(h, heap, p);
      var k: nat :| Allocated(h.blocks, k, p);
      assert Tracks(h, k);
      var bytes, content := h.live[p].bytes, B.Content(heap, b);
      forall i | 0 <= i < |content| && content[i] != B.GARBAGE
        ensures 0 <= p + i - HEAP_START < |h.mem| && h.mem[p + i - HEAP_START] == content[i] as int
      {
        assert SameByte(bytes, heap[p], i);
        assert bytes[i] == h.mem[p + i - HEAP_START];
      }
    }
  }

  /** For every run of filesystem and editor calls, and every run of the heap with the filesystem's ledger among its
      events: each file's bytes and the editor's text are in memory, where their buffers are. */
  lemma EveryRunInMemory(states: seq<F.Fs>, calls: seq<E.Call>, coming: seq<nat>, i: nat,
                         joint: seq<Joint>, turns: seq<Turn>, h: State)
    requires E.Run(states, calls, coming) && i <= |calls| && JointRun(joint, turns)
    requires joint[|turns|] == Joint(h, states[i].supply.ledger)
    ensures var s := states[i];
      && F.Inv(s) && Sound(h) && Backs(h, s.heap)
      && (forall id :: id in F.Files(s) ==> InMemory(h.mem, s.nodes[id].data, F.Files(s)[id]))
      && InMemory(h.mem, s.edit.buf.ptr, B.Content(s.heap, s.edit.buf))
  {
    var s := states[i];
    E.EveryRunIsSound(states, calls, coming, i);
    HeapHoldsBuffers(joint, turns, |turns|);
    forall id | id in F.Files(s) ensures InMemory(h.mem, s.nodes[id].data, F.Files(s)[id]) {
      F.NodeIsLive(s, id);
      BufferInMemory(h, s.heap, F.NodeBuf(s.nodes[id]));
    }
    F.EditIsLive(s);
    BufferInMemory(h, s.heap, s.edit.buf);
  }

  // ---------- when the heap has nothing to give ----------

  /** Growing a buffer on the kernel heap: with `kmalloc`'s answer as the supply, the reservation succeeds exactly when
      the heap has a block. */
  lemma ReserveServed(h: State, h': State, heap: B.Heap, b: B.Buf, keep: nat, need: nat, p: nat, supply: B.Supply,
                      r: B.Result)
    requires Sound(h) && Backs(h, heap) && B.BufOk(heap, b) && need > b.cap && need <= B.FS_MAX_FILE_SIZE
    requires supply.coming != [] && supply.coming[0] == p && r == B.Reserve(heap, b, keep, need, supply)
    requires Step(h, Malloc(B.NewCap(b.cap, need), p), h')
    ensures r.ok <==> !NoFitIn(h.blocks, |h.blocks|, Round16(B.NewCap(b.cap, need)))
  {
    B.NewCapIsEnough(b.cap, need);
    var cap := B.NewCap(b.cap, need);
    MallocAnswers(h, cap, p, h');
    if p != NULL { MallocServes(h, heap, cap, p, h'); }
  }

  /** `kmalloc` of a positive size returns NULL exactly when nothing fits. */
  lemma MallocAnswers(h: State, cap: nat, p: nat, h': State)
    requires Sound(h) && 0 < cap && Step(h, Malloc(cap, p), h')
    ensures p == NULL <==> NoFitIn(h.blocks, |h.blocks|, Round16(cap))
  {
    if !NoFitIn(h.blocks, |h.blocks|, Round16(cap)) {
      var k: nat :| MallocStep(h, k, cap, p, h');
      Bounds(h.blocks, k);
    }
  }
}
