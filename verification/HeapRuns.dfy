/**
 Every run of the heap: `kmalloc`, `kfree` of live pointers and client writes inside live payloads,
 in any order (src/kernel/memory.c:313-381).

 `live` is the clients' own view: which pointers they hold, what they asked for, and the bytes they last
 stored.  The main theorem says that raw memory agrees with that view after every run.
 */
module HeapRuns {
  import Bits
  import opened HeapModel
  import opened Runs

  datatype Alloc = Alloc(request: nat, bytes: seq<Byte>)
  datatype State = State(mem: seq<Byte>, blocks: seq<Block>, live: map<nat, Alloc>)
  datatype Event =
    | Malloc(request: nat, ptr: nat)
    | Free(ptr: nat)
    | Write(ptr: nat, off: nat, value: Byte)

  const MAX_REQUEST: nat := 0xFFFF_FFF0

  ghost predicate Allocated(B: seq<Block>, k: nat, ptr: nat)
  {
    k < |B| && !B[k].free && B[k].Payload() == ptr
  }

  ghost predicate Initial(s: State)
  {
    Represents(s.mem, [Block(HEAP_START, HEAP_SIZE - HEADER, true)])
    && s.blocks == [Block(HEAP_START, HEAP_SIZE - HEADER, true)]
    && s.live == map[]
  }

  ghost predicate MallocStep(s: State, k: nat, request: nat, ptr: nat, s': State)
    requires Represents(s.mem, s.blocks)
  {
    var need := Round16(request);
    && k < |s.blocks|
    && BestFitIn(s.blocks, |s.blocks|, need, k)
    && MallocEffect(s.mem, s'.mem, s.blocks, k, need)
    && s'.blocks == MallocBlocks(s.blocks, k, need)
    && ptr == s.blocks[k].Payload()
    && InHeap(s'.blocks[k].addr, HEADER + s'.blocks[k].size)
    && s'.live == s.live[ptr := Alloc(request, PayloadBytes(s'.mem, s'.blocks[k]))]
  }

  ghost predicate FreeStep(s: State, k: nat, ptr: nat, s': State)
    requires Represents(s.mem, s.blocks)
  {
    && Allocated(s.blocks, k, ptr)
    && FreeEffect(s.mem, s'.mem, s.blocks, k)
    && s'.blocks == FreeBlocks(s.blocks, k)
    && s'.live == s.live - {ptr}
  }

  ghost predicate WriteStep(s: State, k: nat, ptr: nat, off: nat, value: Byte, s': State)
    requires Represents(s.mem, s.blocks)
  {
    && Allocated(s.blocks, k, ptr)
    && off < s.blocks[k].size
    && 0 <= ptr + off - HEAP_START < HEAP_SIZE
    && s'.mem == s.mem[ptr + off - HEAP_START := value]
    && s'.blocks == s.blocks
    && ptr in s.live && off < |s.live[ptr].bytes|
    && s'.live == s.live[ptr := s.live[ptr].(bytes := s.live[ptr].bytes[off := value])]
  }

  ghost predicate Step(s: State, e: Event, s': State)
    requires Represents(s.mem, s.blocks)
  {
    match e
    case Malloc(request, ptr) =>
      request < Bits.U32 &&
      if request == 0 || NoFitIn(s.blocks, |s.blocks|, Round16(request)) then
        ptr == NULL && s' == s
      else
        exists k :: MallocStep(s, k, request, ptr, s')
    case Free(ptr) =>
      if ptr == NULL then s' == s else exists k :: FreeStep(s, k, ptr, s')
    case Write(ptr, off, value) =>
      exists k :: WriteStep(s, k, ptr, off, value, s')
  }

  /** Memory spells out the block list; the live pointers are exactly the payloads of the blocks that are
      not free; each holds the client's bytes and is at most 28 bytes larger than the rounded request. */
  ghost predicate Sound(s: State)
  {
    && Represents(s.mem, s.blocks)
    && (forall k :: 0 <= k < |s.blocks| ==> Tracks(s, k))
    && (forall p :: p in s.live ==> exists k :: Allocated(s.blocks, k, p))
  }

  ghost predicate Tracks(s: State, k: nat)
    requires |s.mem| == HEAP_SIZE && k < |s.blocks|
  {
    var b := s.blocks[k];
    !b.free ==>
      && InHeap(b.addr, HEADER + b.size)
      && b.Payload() in s.live
      && s.live[b.Payload()].bytes == PayloadBytes(s.mem, b)
      && Round16(s.live[b.Payload()].request) <= b.size <= Round16(s.live[b.Payload()].request) + 28
  }

  lemma MallocTracks(s: State, k: nat, request: nat, ptr: nat, s': State, i: nat)
    requires Sound(s) && request < Bits.U32 && MallocStep(s, k, request, ptr, s')
    requires |s'.mem| == HEAP_SIZE && i < |s'.blocks|
    ensures Tracks(s', i)
  {
    if i != k && !s'.blocks[i].free {
      var j := if i > k && Splits(s.blocks[k], Round16(request)) then i - 1 else i;
      assert s'.blocks[i] == s.blocks[j];
      MallocTracksOther(s, k, request, ptr, s', i, j);
    }
  }

  lemma MallocTracksOther(s: State, k: nat, request: nat, ptr: nat, s': State, i: nat, j: nat)
    requires Sound(s) && request < Bits.U32 && MallocStep(s, k, request, ptr, s')
    requires |s'.mem| == HEAP_SIZE && i < |s'.blocks| && j < |s.blocks| && j != k
    requires s'.blocks[i] == s.blocks[j] && !s.blocks[j].free
    ensures Tracks(s', i)
  {
    assert Tracks(s, j);
    MallocKeepsOther(s.mem, s'.mem, s.blocks, k, Round16(request), j);
    Apart(s.blocks, j, k);
  }

  lemma MallocSound(s: State, k: nat, request: nat, ptr: nat, s': State)
    requires Sound(s) && request < Bits.U32 && MallocStep(s, k, request, ptr, s')
    ensures Sound(s')
    ensures ptr !in s.live
  {
    var need := Round16(request);
    MallocKeepsHeap(s.mem, s'.mem, s.blocks, k, need);
    MallocOwners(s, k, request, ptr, s', ptr);
    forall i | 0 <= i < |s'.blocks| ensures Tracks(s', i) {
      MallocTracks(s, k, request, ptr, s', i);
    }
    forall p | p in s'.live ensures exists i :: Allocated(s'.blocks, i, p) {
      MallocOwners(s, k, request, ptr, s', p);
    }
  }

  lemma MallocOwners(s: State, k: nat, request: nat, ptr: nat, s': State, p: nat)
    requires Sound(s) && MallocStep(s, k, request, ptr, s')
    ensures ptr !in s.live
    ensures p in s'.live ==> exists i :: Allocated(s'.blocks, i, p)
  {
    if ptr in s.live {
      var i: nat :| Allocated(s.blocks, i, ptr);
      Apart(s.blocks, i, k);
    }
    if p == ptr {
      assert Allocated(s'.blocks, k, p);
    } else if p in s'.live {
      var i: nat :| Allocated(s.blocks, i, p);
      assert Allocated(s'.blocks, if i > k && Splits(s.blocks[k], Round16(request)) then i + 1 else i, p);
    }
  }

  lemma FreeTracks(s: State, k: nat, ptr: nat, s': State, i: nat)
    requires Sound(s) && FreeStep(s, k, ptr, s') && i < |s'.blocks|
    ensures Tracks(s', i)
  {
    var B := s.blocks;
    if !s'.blocks[i].free {
      var j := if i > k && k + 1 < |B| && B[k + 1].free then i + 1 else i;
      assert s'.blocks[i] == B[j];
      assert Tracks(s, j);
      FreeKeepsOther(s.mem, s'.mem, B, k, j);
      Apart(B, j, k);
    }
  }

  lemma FreeSound(s: State, k: nat, ptr: nat, s': State)
    requires Sound(s) && FreeStep(s, k, ptr, s')
    ensures Sound(s')
  {
    var B := s.blocks;
    FreeKeepsHeap(s.mem, s'.mem, B, k);
    forall i | 0 <= i < |s'.blocks| ensures Tracks(s', i) {
      FreeTracks(s, k, ptr, s', i);
    }
    forall p | p in s'.live ensures exists i :: Allocated(s'.blocks, i, p) {
      var i: nat :| Allocated(B, i, p);
      assert Allocated(s'.blocks, if i > k && k + 1 < |B| && B[k + 1].free then i - 1 else i, p);
    }
  }

  lemma WriteTracks(s: State, k: nat, ptr: nat, off: nat, value: Byte, s': State, i: nat)
    requires Sound(s) && WriteStep(s, k, ptr, off, value, s') && i < |s.blocks|
    ensures HeaderAt(s'.mem, s.blocks, i) && Tracks(s', i)
  {
    var B := s.blocks;
    Bounds(B, i);
    assert HeaderAt(s.mem, B, i);
    assert Tracks(s, i);
    if i == k {
      HeaderKept(s.mem, s'.mem, B[k], NextAddr(B, k, NULL));
      assert PayloadBytes(s'.mem, B[k]) == PayloadBytes(s.mem, B[k])[off := value];
    } else {
      Apart(B, i, k);
      BlockKept(s.mem, s'.mem, B[i], NextAddr(B, i, NULL));
    }
  }

  lemma WriteSound(s: State, k: nat, ptr: nat, off: nat, value: Byte, s': State)
    requires Sound(s) && WriteStep(s, k, ptr, off, value, s')
    ensures Sound(s')
  {
    forall i | 0 <= i < |s.blocks| ensures HeaderAt(s'.mem, s.blocks, i) && Tracks(s', i) {
      WriteTracks(s, k, ptr, off, value, s', i);
    }
    forall p | p in s'.live ensures exists i :: Allocated(s'.blocks, i, p) {
      var i: nat :| Allocated(s.blocks, i, p);
      assert Allocated(s'.blocks, i, p);
    }
  }

  lemma StepSound(s: State, e: Event, s': State)
    requires Sound(s) && Step(s, e, s')
    ensures Sound(s')
    ensures e.Malloc? && e.ptr != NULL ==> e.ptr !in s.live
  {
    match e
    case Malloc(request, ptr) =>
      if !(request == 0 || NoFitIn(s.blocks, |s.blocks|, Round16(request))) {
        var k: nat :| MallocStep(s, k, request, ptr, s');
        MallocSound(s, k, request, ptr, s');
      }
    case Free(ptr) =>
      if ptr != NULL {
        var k: nat :| FreeStep(s, k, ptr, s');
        FreeSound(s, k, ptr, s');
      }
    case Write(ptr, off, value) =>
      var k: nat :| WriteStep(s, k, ptr, off, value, s');
      WriteSound(s, k, ptr, off, value, s');
  }

  /** An event in a heap that memory spells out. */
  ghost predicate Follows(s: State, e: Event, s': State) { Represents(s.mem, s.blocks) ==> Step(s, e, s') }

  ghost predicate Run(states: seq<State>, events: seq<Event>)
  {
    IsRun(Follows, states, events) && Initial(states[0])
  }

  /** Heap integrity: after every event of every run, memory is an exact tiling that agrees with the clients. */
  lemma {:induction false} EveryRunIsSound(states: seq<State>, events: seq<Event>, i: nat)
    requires Run(states, events) && i <= |events|
    ensures Sound(states[i])
    ensures TotalBytes(states[i].blocks) == HEAP_SIZE
    ensures i < |events| && events[i].Malloc? && events[i].ptr != NULL ==> events[i].ptr !in states[i].live
  {
    if i > 0 {
      EveryRunIsSound(states, events, i - 1);
      assert Follows(states[i - 1], events[i - 1], states[i]);
      StepSound(states[i - 1], events[i - 1], states[i]);
    }
    TilingIsExact(states[i].blocks);
    if i < |events| {
      assert Follows(states[i], events[i], states[i + 1]);
      StepSound(states[i], events[i], states[i + 1]);
    }
  }

  /** Two live payloads never share a byte, and both lie inside the heap. */
  lemma LivePayloadsDisjoint(s: State, p: nat, q: nat)
    requires Sound(s) && p in s.live && q in s.live && p < q
    ensures p + |s.live[p].bytes| <= q
    ensures HEAP_START < p && q + |s.live[q].bytes| <= HEAP_END
  {
    var i: nat :| Allocated(s.blocks, i, p);
    var j: nat :| Allocated(s.blocks, j, q);
    assert Tracks(s, i) && Tracks(s, j);
    Apart(s.blocks, i, j);
  }

  // ---------- best fit ----------

  /** Block `k` is free and holds `need` bytes, and of all such blocks it is a smallest, and the first of those. */
  ghost predicate Best(B: seq<Block>, need: nat, k: nat)
  {
    && k < |B| && B[k].free && B[k].size >= need
    && forall j :: 0 <= j < |B| && B[j].free && B[j].size >= need ==>
         B[k].size < B[j].size || (B[k].size == B[j].size && k <= j)
  }

  /** A positive request is refused exactly when no free block is large enough, and otherwise served from the best
      one. */
  lemma MallocAnswersExactly(s: State, request: nat, p: nat, s': State)
    requires Represents(s.mem, s.blocks) && request > 0 && Step(s, Malloc(request, p), s')
    ensures p == NULL <==> forall j :: 0 <= j < |s.blocks| && s.blocks[j].free ==> s.blocks[j].size < Round16(request)
    ensures p != NULL ==> exists k: nat :: Best(s.blocks, Round16(request), k) && s.blocks[k].Payload() == p
  {
    var need := Round16(request);
    NoFitMeans(s.blocks, need);
    if !NoFitIn(s.blocks, |s.blocks|, need) {
      var k: nat :| MallocStep(s, k, request, p, s');
      Bounds(s.blocks, k);
      BestMeans(s.blocks, need, k);
    }
  }

  lemma NoFitMeans(B: seq<Block>, need: nat)
    ensures NoFitIn(B, |B|, need) <==> forall j :: 0 <= j < |B| && B[j].free ==> B[j].size < need
  {
    if NoFitIn(B, |B|, need) {
      forall j | 0 <= j < |B| && B[j].free ensures B[j].size < need { assert !Fits(B[j], need); }
    }
  }

  lemma BestMeans(B: seq<Block>, need: nat, k: nat)
    requires BestFitIn(B, |B|, need, k)
    ensures Best(B, need, k)
  {
    assert Fits(B[k], need);
    forall j | 0 <= j < |B| && B[j].free && B[j].size >= need
      ensures B[k].size < B[j].size || (B[k].size == B[j].size && k <= j)
    {
      assert Fits(B[j], need);
    }
  }

  // ---------- sizes ----------

  /** The rounded size covers the request exactly when the addition at memory.c:335 does not wrap. */
  lemma RoundingCoversRequest(request: nat)
    requires request < Bits.U32
    ensures Round16(request) >= request <==> request <= MAX_REQUEST
    ensures request <= MAX_REQUEST ==> request <= Round16(request) <= request + 15 && Round16(request) % 16 == 0
    ensures request > MAX_REQUEST ==> Round16(request) == 0
  {}

  ghost predicate NoSmallBlock(B: seq<Block>) { forall i :: 0 <= i < |B| ==> B[i].size >= 16 }

  /** One allocation keeps every block at 16 bytes or more unless the request wraps and the block is split. */
  lemma MallocMinimumSize(s: State, k: nat, request: nat, ptr: nat, s': State)
    requires Represents(s.mem, s.blocks) && NoSmallBlock(s.blocks)
    requires 0 < request < Bits.U32 && MallocStep(s, k, request, ptr, s')
    ensures NoSmallBlock(s'.blocks) <==> request <= MAX_REQUEST || s.blocks[k].size <= 28
  {
    RoundingCoversRequest(request);
    if request > MAX_REQUEST && s.blocks[k].size > 28 {
      assert s'.blocks[k].size == 0;
    }
  }

  /** A request above 0xFFFFFFF0 on a fresh heap is granted a block with no payload at all. */
  lemma WrappedRequestGetsNothing(s: State, s': State, ptr: nat)
    requires Initial(s) && Step(s, Malloc(0xFFFF_FFF1, ptr), s')
    ensures ptr == HEAP_START + HEADER && ptr in s'.live && s'.live[ptr].bytes == []
  {
    assert Round16(0xFFFF_FFF1) == 0;
    assert Fits(s.blocks[0], 0);
    var k: nat :| MallocStep(s, k, 0xFFFF_FFF1, ptr, s');
    WrappedStep(s, k, ptr, s');
  }

  lemma WrappedStep(s: State, k: nat, ptr: nat, s': State)
    requires Initial(s) && MallocStep(s, k, 0xFFFF_FFF1, ptr, s')
    ensures ptr == HEAP_START + HEADER && ptr in s'.live && s'.live[ptr].bytes == []
  {
    assert k == 0 && Splits(s.blocks[0], 0);
    assert s'.blocks[0] == Block(HEAP_START, 0, false);
  }

  lemma StepMinimumSize(s: State, e: Event, s': State)
    requires Represents(s.mem, s.blocks) && NoSmallBlock(s.blocks) && Step(s, e, s')
    requires e.Malloc? ==> e.request <= MAX_REQUEST
    ensures NoSmallBlock(s'.blocks)
  {
    match e
    case Malloc(request, ptr) =>
      if !(request == 0 || NoFitIn(s.blocks, |s.blocks|, Round16(request))) {
        var k: nat :| MallocStep(s, k, request, ptr, s');
        MallocMinimumSize(s, k, request, ptr, s');
      }
    case _ =>
  }

  /** Over every run whose requests do not wrap, no block is ever smaller than 16 bytes. */
  lemma {:induction false} EveryBlockAtLeast16(states: seq<State>, events: seq<Event>, i: nat)
    requires Run(states, events) && i <= |events|
    requires forall j :: 0 <= j < |events| && events[j].Malloc? ==> events[j].request <= MAX_REQUEST
    ensures NoSmallBlock(states[i].blocks)
  {
    if i > 0 {
      EveryBlockAtLeast16(states, events, i - 1);
      EveryRunIsSound(states, events, i - 1);
      assert Follows(states[i - 1], events[i - 1], states[i]);
      StepMinimumSize(states[i - 1], events[i - 1], states[i]);
    }
  }

  // ---------- free neighbours ----------

  lemma LastFits(B: seq<Block>, taken: seq<Block>, last: Block, k: nat)
    requires B == taken + [last] && last.free && last.size > 44
    requires forall i :: 0 <= i < |taken| ==> !taken[i].free
    requires BestFitIn(B, |B|, 16, k)
    ensures k == |taken| && B[k] == last
    ensures MallocBlocks(B, k, 16) ==
            taken + [Block(last.addr, 16, false)] + [Block(last.addr + 28, last.size - 28, true)]
  {
    assert forall i :: 0 <= i < |taken| ==> B[i] == taken[i];
    assert B[..|taken|] == taken && B[|taken| + 1..] == [];
  }

  /** A request of 16 bytes when only the last block is free, and large, is cut from its front. */
  lemma LastBlockIsCut(s: State, taken: seq<Block>, last: Block, p: nat, s': State)
    requires Represents(s.mem, s.blocks) && s.blocks == taken + [last] && last.free && last.size > 44
    requires (forall i :: 0 <= i < |taken| ==> !taken[i].free) && Step(s, Malloc(16, p), s')
    ensures p == last.Payload()
    ensures s'.blocks == taken + [Block(last.addr, 16, false)] + [Block(last.addr + 28, last.size - 28, true)]
  {
    assert Round16(16) == 16 && s.blocks[|taken|] == last && Fits(s.blocks[|taken|], 16);
    var k: nat :| MallocStep(s, k, 16, p, s');
    LastFits(s.blocks, taken, last, k);
  }

  /** Freeing a block in use is what the code does to that block. */
  lemma BlockIsFreed(s: State, k: nat, p: nat, s': State)
    requires Represents(s.mem, s.blocks) && Allocated(s.blocks, k, p) && Step(s, Free(p), s') && p != NULL
    ensures s'.blocks == FreeBlocks(s.blocks, k)
  {
    var j: nat :| FreeStep(s, j, p, s');
    if j != k { Apart(s.blocks, j, k); }
  }

  /** The failing case: two blocks taken from a fresh heap and freed in the same order are free neighbours. */
  lemma NeighboursStayApart(states: seq<State>, events: seq<Event>, p: nat, q: nat)
    requires Run(states, events) && events == [Malloc(16, p), Malloc(16, q), Free(p), Free(q)]
    ensures Sound(states[4]) && |states[4].blocks| == 2 && states[4].blocks[0].free && states[4].blocks[1].free
  {
    TwoTakenFirst(states, events, p, q);
    BothFreedNext(states, events, p, q);
    EveryRunIsSound(states, events, 4);
  }

  lemma TwoTakenFirst(states: seq<State>, events: seq<Event>, p: nat, q: nat)
    requires Run(states, events) && |events| >= 2 && events[0] == Malloc(16, p) && events[1] == Malloc(16, q)
    ensures TwoInUse(states[2].blocks, p, q)
  {
    EveryRunIsSound(states, events, 1);
    TwoTaken(states[0], p, states[1], q, states[2]);
  }

  lemma BothFreedNext(states: seq<State>, events: seq<Event>, p: nat, q: nat)
    requires Run(states, events) && |events| >= 4 && events[2] == Free(p) && events[3] == Free(q)
    requires TwoInUse(states[2].blocks, p, q)
    ensures |states[4].blocks| == 2 && states[4].blocks[0].free && states[4].blocks[1].free
  {
    EveryRunIsSound(states, events, 2);
    EveryRunIsSound(states, events, 3);
    BothFreed(states[2], p, states[3], q, states[4]);
  }

  ghost predicate TwoInUse(B: seq<Block>, p: nat, q: nat)
  {
    |B| == 3 && Allocated(B, 0, p) && Allocated(B, 1, q) && B[2].free && p != NULL && q != NULL
  }

  lemma TwoTaken(s: State, p: nat, s1: State, q: nat, s2: State)
    requires Initial(s) && Represents(s1.mem, s1.blocks)
    requires Follows(s, Malloc(16, p), s1) && Follows(s1, Malloc(16, q), s2)
    ensures TwoInUse(s2.blocks, p, q)
  {
    var b0, b1 := Block(HEAP_START, HEAP_SIZE - HEADER, true), Block(HEAP_START, 16, false);
    assert s.blocks == [] + [b0];
    LastBlockIsCut(s, [], b0, p, s1);
    var rest := Block(HEAP_START + 28, HEAP_SIZE - HEADER - 28, true);
    assert s1.blocks == [b1] + [rest];
    LastBlockIsCut(s1, [b1], rest, q, s2);
  }

  lemma BothFreed(s: State, p: nat, s1: State, q: nat, s2: State)
    requires Represents(s.mem, s.blocks) && Represents(s1.mem, s1.blocks)
    requires TwoInUse(s.blocks, p, q) && Follows(s, Free(p), s1) && Follows(s1, Free(q), s2)
    ensures |s2.blocks| == 2 && s2.blocks[0].free && s2.blocks[1].free
  {
    BlockIsFreed(s, 0, p, s1);
    BlockIsFreed(s1, 1, q, s2);
  }
}
