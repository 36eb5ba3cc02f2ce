/** Mapping and unmapping pages (src/kernel/memory.c:156-214), before paging is switched on. */
module Vmm {
  import opened Bits
  import opened Options
  import opened PmmModel
  import opened Pmm
  import opened VmmModel

  const PDE_PRESENT: nat := 1
  const PDE_WRITABLE: nat := 2

  /** The entry that `vmm_map_page` stores. */
  function Entry(phys: nat, flags: nat): nat { Or(Or(phys, flags), PDE_PRESENT) }

  class AddressSpace {
    const ram: array<nat>
    const pmm: PageAllocator
    var directory: nat
    ghost var image: seq<nat>  // the contents of `ram`
    ghost var view: Space      // what the page tables amount to

    ghost predicate Mirrored()
      reads this, ram
    {
      ram.Length == |image| == RAM_WORDS && forall i :: 0 <= i < RAM_WORDS ==> ram[i] == image[i]
    }

    ghost predicate Valid()
      reads this, ram, pmm, pmm.bitmap
    {
      Mirrored() && ram != pmm.bitmap && pmm.Valid() && Shows(image, directory, view) && view.pmm == pmm.Abs()
    }

    /** The start of `vmm_init` (memory.c:244-251): an empty directory in a fresh frame, or at address 0 when the
        allocator returns NULL. */
    constructor (memory: array<nat>, allocator: PageAllocator)
      requires memory.Length == RAM_WORDS && memory != allocator.bitmap && allocator.Valid() && |allocator.used| > 0
      modifies memory, allocator, allocator.bitmap
      ensures Valid() && ram == memory && pmm == allocator
      ensures view == EmptySpace(AllocState(old(allocator.Abs())))
      ensures directory == DirectoryFrame(old(allocator.used)) * 4096
    {
      ram, pmm := memory, allocator;
      directory := 0;
      image := memory[..];
      view := EmptySpace(AllocState(allocator.Abs()));
      new;
      FrameFits(DirectoryFrame(pmm.used));
      var page := pmm.AllocPage();
      directory := PageAlignUp(page);
      Clear(directory / 4);
      EmptyDirectory(image, directory, pmm.Abs());
    }

    method Poke(i: nat, v: nat)
      requires Mirrored() && i < RAM_WORDS
      modifies ram, this`image
      ensures Mirrored() && image == old(image)[i := v]
    {
      ram[i] := v;
      image := image[i := v];
    }

    /** The clearing loops of memory.c:189-191 and 249-251. */
    method Clear(base: nat)
      requires Mirrored() && base + TABLE <= RAM_WORDS
      modifies ram, this`image
      ensures Mirrored()
      ensures forall i :: 0 <= i < RAM_WORDS ==> image[i] == if base <= i < base + TABLE then 0 else old(image)[i]
    {
      for k := 0 to TABLE
        invariant Mirrored()
        invariant forall i :: 0 <= i < RAM_WORDS ==> image[i] == if base <= i < base + k then 0 else old(image)[i]
      {
        Poke(base + k, 0);
      }
    }

    /** First half of `vmm_map_page`. */
    method EnsureTable(d: nat) returns (ok: bool)
      requires Valid() && d < TABLE
      modifies ram, this`image, pmm, pmm.bitmap
      ensures Mirrored() && pmm.Valid()
      ensures TableStep(old(image), old(pmm.Abs()), image, pmm.Abs(), directory, d, ok)
    {
      var slot := directory / 4 + d;
      PresentBit(ram[slot]);
      if And(ram[slot], PDE_PRESENT) != 0 { return true; }
      var table := pmm.AllocPage();
      if table == 0 { return false; }
      InstallTable(d, table, Lowest(old(pmm.used)));
      ok := true;
    }

    /** A cleared table entered in the directory (memory.c:187-195). */
    method InstallTable(d: nat, table: nat, ghost f: nat)
      requires Mirrored() && d < TABLE && directory % 4096 == 0 && directory / 4 + TABLE <= RAM_WORDS
      requires table == f * 4096 && f < PMM_MAX_PAGES && f != directory / 4096
      modifies ram, this`image
      ensures Mirrored() && TableAdded(old(image), image, directory, d, f)
    {
      Clear(table / 4);
      TableEntry(f);
      Poke(directory / 4 + d, Or(Or(table, PDE_PRESENT), PDE_WRITABLE));
    }

    /** `vmm_map_page`. */
    method MapPage(phys: nat, virt: nat, flags: nat)
      requires Valid() && phys < U32 && virt < U32 && flags < U32
      modifies ram, this`image, this`view, pmm, pmm.bitmap
      ensures Valid()
      ensures view == MapSpace(old(view), virt / 4096, Entry(phys, flags))
    {
      var d, t := Indices(virt);
      ghost var v, entry := virt / 4096, Entry(phys, flags);
      PresentEntry(phys, flags);
      var ok := EnsureTable(d);
      MapRefines(old(image), image, directory, view, v, entry, ok);
      if ok { StoreEntry(d, t, Or(Or(phys, flags), PDE_PRESENT), v); }
      view := MapSpace(view, v, entry);
    }

    /** Second half of `vmm_map_page`: find the table and store the entry. */
    method StoreEntry(d: nat, t: nat, entry: nat, ghost v: nat)
      requires Mirrored() && WellFormed(image, directory, pmm.used)
      requires v < VIRTUAL_PAGES && d == v / 1024 && t == v % 1024
      requires Present(Pde(image, directory, d))
      modifies ram, this`image
      ensures Mirrored() && PteIndex(old(image), directory, v) < RAM_WORDS
      ensures image == old(image)[PteIndex(old(image), directory, v) := entry]
    {
      assert TableOk(image, directory, pmm.used, d);
      TableBase(ram[directory / 4 + d]);
      var table := And(ram[directory / 4 + d], Not(0xFFF));
      Poke(table / 4 + t, entry);
    }

    /** `vmm_unmap_page`: removes the page, if it was mapped, and no other. */
    method UnmapPage(virt: nat)
      requires Valid() && virt < U32
      modifies ram, this`image, this`view
      ensures Valid() && view == old(view).(pages := old(view).pages - {virt / 4096})
    {
      ghost var v := virt / 4096;
      UnmapRefines(image, directory, view, v);
      ClearEntry(virt);
      assert v !in view.pages ==> view.pages - {v} == view.pages;
      view := view.(pages := view.pages - {v});
    }

    /** The entry of the page, if it has a table, becomes 0. */
    method ClearEntry(virt: nat)
      requires Valid() && virt < U32
      modifies ram, this`image
      ensures Mirrored()
      ensures var d, i := virt / 4096 / 1024, PteIndex(old(image), directory, virt / 4096);
        if Present(Pde(old(image), directory, d)) then i < RAM_WORDS && image == old(image)[i := 0]
        else image == old(image)
    {
      var pte := GetPte(virt);
      if pte.Some? {
        assert TableOk(image, directory, pmm.used, virt / 4096 / 1024);
        Poke(pte.value / 4, 0);
      }
    }

    /** `pmm_alloc_page` while the page tables are in place: it takes a page away from no one. */
    method TakePage() returns (addr: nat)
      requires Valid()
      modifies this`view, pmm, pmm.bitmap
      ensures Valid() && view == old(view).(pmm := AllocState(old(view).pmm))
      ensures var f := Lowest(old(view).pmm.used); addr == if f < |old(view).pmm.used| then f * 4096 else 0
    {
      AllocShows(image, directory, view);
      addr := pmm.AllocPage();
      view := view.(pmm := AllocState(view.pmm));
    }

    /** `vmm_get_pte`: the address of the table entry, or NULL when the directory entry is absent. */
    method GetPte(virt: nat) returns (pte: Option<nat>)
      requires Valid() && virt < U32
      ensures pte.Some? <==> Present(Pde(image, directory, virt / 4096 / 1024))
      ensures pte.Some? ==> pte.value % 4 == 0 && pte.value / 4 == PteIndex(image, directory, virt / 4096)
    {
      var d, t := Indices(virt);
      var entry := ram[directory / 4 + d];
      PresentBit(entry);
      if And(entry, PDE_PRESENT) == 0 { return None; }
      assert TableOk(image, directory, pmm.used, d);
      TableBase(entry);
      EntryAddress(Frame(entry), t);
      pte := Some(And(entry, Not(0xFFF)) + 4 * t);
    }
  }

  method Indices(virt: nat) returns (d: nat, t: nat)
    requires virt < U32
    ensures d == virt / 4096 / 1024 < TABLE && t == virt / 4096 % 1024
  {
    VirtualIndices(virt);
    d, t := Shr(virt, 22), And(Shr(virt, 12), 0x3FF);
  }

  // ---------- the bit arithmetic of entries ----------

  lemma VirtualIndices(virt: nat)
    requires virt < U32
    ensures Shr(virt, 22) == virt / 4096 / 1024 < TABLE
    ensures And(Shr(virt, 12), 0x3FF) == virt / 4096 % 1024
  {
    var v, low := virt / 4096, virt % 4096;
    var d, t := v / 1024, v % 1024;
    DirectoryIndex(virt, d, t, low);
    PageNumber(virt, v, low);
    TableIndex(v, d, t);
  }

  lemma DirectoryIndex(virt: nat, d: nat, t: nat, low: nat)
    requires virt == 4194304 * d + 4096 * t + low && t < 1024 && low < 4096
    ensures Shr(virt, 22) == d
  {
    Pow2Of32();
    ShlValues(d);
    ShrOfShl(d, 4096 * t + low, 22);
  }

  lemma PageNumber(virt: nat, v: nat, low: nat)
    requires virt == 4096 * v + low && low < 4096
    ensures Shr(virt, 12) == v
  {
    Pow2Of32();
    ShlValues(v);
    ShrOfShl(v, low, 12);
  }

  lemma TableIndex(v: nat, d: nat, t: nat)
    requires v == 1024 * d + t && t < 1024
    ensures And(v, 0x3FF) == t
  {
    Pow2Of32();
    ShlValues(d);
    LowMask(d, t, 10);
  }

  lemma PresentBit(entry: nat)
    ensures And(entry, PDE_PRESENT) == entry % 2
  {
    assert Pow2(1) == 2;
    ShlValues(entry / 2);
    LowMask(entry / 2, entry % 2, 1);
  }

  lemma FrameFits(f: nat)
    ensures f * 4096 % 4096 == 0 && f * 4096 / 4096 == f && f * 4096 / 4 == f * 1024
    ensures f < PMM_MAX_PAGES ==> f * 4096 < U32 && f * 1024 + TABLE <= RAM_WORDS
  {}

  lemma EntryAddress(frame: nat, t: nat)
    ensures (frame * 4096 + 4 * t) % 4 == 0 && (frame * 4096 + 4 * t) / 4 == frame * 1024 + t
  {}

  lemma TableBase(entry: nat)
    requires entry < U32
    ensures And(entry, Not(0xFFF)) == Frame(entry) * 4096
  {
    Pow2Of32();
    ShlValues(entry / 4096);
    HighMask(entry / 4096, entry % 4096, 12);
  }

  /** Flags or-ed into a page-aligned address are added. */
  lemma AlignedOr(f: nat, flags: nat)
    requires flags < 0x1000
    ensures Or(f * 4096, flags) == f * 4096 + flags
  {
    Pow2Of32();
    ShlValues(f);
    OrIsPlus(f, flags, 12);
  }

  lemma TableEntry(f: nat)
    ensures Or(Or(f * 4096, PDE_PRESENT), PDE_WRITABLE) == f * 4096 + 3
  {
    AlignedOr(f, 1);
    TwoFlags(f * 4096, f * 2048);
  }

  lemma TwoFlags(base: nat, half: nat)
    requires Or(base, 1) == base + 1 && base == 2 * half && half % 2 == 0
    ensures Or(Or(base, PDE_PRESENT), PDE_WRITABLE) == base + 3
  {
    OrTwo(half);
  }

  lemma OrTwo(half: nat)
    requires half % 2 == 0
    ensures Or(2 * half + 1, 2) == 2 * half + 3
  {
    var whole := 2 * half + 1;
    assert whole / 2 == half && whole % 2 == 1;
    OrOne(half);
  }

  lemma PresentEntry(phys: nat, flags: nat)
    ensures Present(Entry(phys, flags))
  {
    BitOfOr(Or(phys, flags), 1, 0);
  }

  /** For a page-aligned address and flags below 0x1000 the entry holds that frame and those flags. */
  lemma EntryHoldsFrameAndFlags(frame: nat, flags: nat)
    requires flags < 0x1000
    ensures Frame(Entry(frame * 4096, flags)) == frame
    ensures Entry(frame * 4096, flags) % 4096 == Or(flags, PDE_PRESENT)
  {
    AlignedOr(frame, flags);
    OrOne(frame * 4096 + flags);
    OrOne(flags);
    SameParity(frame, flags);
    Quotient4096(frame, flags + 1 - flags % 2);
  }

  lemma SameParity(frame: nat, flags: nat)
    ensures (frame * 4096 + flags) % 2 == flags % 2
  {
    var t := frame * 2048;
    assert frame * 4096 + flags == 2 * t + flags;
  }

  lemma Quotient4096(q: nat, r: nat)
    requires r < 4096
    ensures (q * 4096 + r) / 4096 == q && (q * 4096 + r) % 4096 == r
  {}

  lemma OrOne(a: nat)
    ensures Or(a, 1) == a + 1 - a % 2
  {}

  /** `PAGE_ALIGN_UP` (memory.h:10) on an address that is aligned already. */
  method PageAlignUp(page: nat) returns (aligned: nat)
    requires page % 4096 == 0 && page < U32
    ensures aligned == page
  {
    aligned := (page + PAGE_SIZE - 1) % 0x1_0000_0000 / 4096 * 4096;
  }
}
