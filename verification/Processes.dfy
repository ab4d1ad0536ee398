/** A process's address space: process_map_memory and process_validate_pointer. */
module Processes {
  import opened Words
  import opened HeapSpec
  import opened Heaps
  import opened Paging
  import opened Spaces
  import opened Isolation
  import opened Ledger

  // ---- mapping ----

  /** The pages mapped for a chunk are the blocks it was allocated: the two roundings agree. */
  lemma RoundingsAgree(ptr: word, size: word)
    requires ptr % 4096 == 0 && size <= 0xFFFFF000 && ptr + 4096 * BlocksFor(size) < 0x1_0000_0000
    ensures ptr + size < 0x1_0000_0000
    ensures AlignAddress(ptr + size) == ptr + 4096 * BlocksFor(size)
  {
    BlocksForExact(size);
    assert (ptr + size) % 4096 == size % 4096;
  }

  /** Pages from vp on, then pages from wp on, over an identity directory. */
  lemma WindowEntries(m0: seq<byte>, m1: seq<byte>, m2: seq<byte>, p: Proc)
    requires Filled(m0, p.sp.dir, p.sp.tables, 5) && Shape(m0, p.sp.dir, p.sp.tables)
    requires Mapped(m0, m1, p.sp.dir, p.sp.tables, 0x400, p.image, BlocksFor(p.size), 7)
    requires Mapped(m1, m2, p.sp.dir, p.sp.tables, 0x3FB, p.stack, 4, 7)
    requires p.image % 4096 == 0 && p.image + 4096 * BlocksFor(p.size) < 0x1_0000_0000 && BlocksFor(p.size) <= 0x7FFFF
    requires p.stack % 4096 == 0 && p.stack + 0x4000 < 0x1_0000_0000
    ensures Mapping(m2, p)
  {
    hide WordAt;
    hide BlocksFor;
    hide SetFlags;
    hide Pte;
    hide GetPointer;
    hide TableWord;
    hide MappedEntry;
    hide PageOf;
    forall d | 0 <= d < 1024 ensures TableWord(m2, p.sp.dir, d) == p.sp.tables[d] + 7 {
      assert TableWord(m2, p.sp.dir, d) == TableWord(m1, p.sp.dir, d) == TableWord(m0, p.sp.dir, d);
    }
    forall q | 0 <= q < 0x10_0000 ensures Pte(m2, p.sp.dir, q) == Entry(p, q) {
      IdentityPte(m0, p.sp.dir, p.sp.tables, q);
      WindowEntry(m0, m1, m2, p, q);
    }
  }

  lemma IdentityPte(m: seq<byte>, dir: word, tables: seq<word>, q: int)
    requires Filled(m, dir, tables, 5) && Shape(m, dir, tables) && 0 <= q < 0x10_0000
    ensures Pte(m, dir, q) == 4096 * q + 5
  {
    hide WordAt;
    PteOfTable(m, dir, tables, q);
    assert TableWord(m, tables[q / 1024], q % 1024) == IdentityEntry(1024 * (q / 1024) + q % 1024, 5);
  }

  lemma WindowEntry(m0: seq<byte>, m1: seq<byte>, m2: seq<byte>, p: Proc, q: int)
    requires 0 <= q < 0x10_0000 && Pte(m0, p.sp.dir, q) == 4096 * q + 5
    requires Pte(m1, p.sp.dir, q) == MappedEntry(m0, p.sp.dir, 0x400, p.image, BlocksFor(p.size), 7, q)
    requires Pte(m2, p.sp.dir, q) == MappedEntry(m1, p.sp.dir, 0x3FB, p.stack, 4, 7, q)
    requires p.image % 4096 == 0 && p.image + 4096 * BlocksFor(p.size) < 0x1_0000_0000 && BlocksFor(p.size) <= 0x7FFFF
    requires p.stack % 4096 == 0 && p.stack + 0x4000 < 0x1_0000_0000
    ensures Pte(m2, p.sp.dir, q) == Entry(p, q)
  {
    hide Pte;
    hide BlocksFor;
    hide SetFlags;
    if 0x400 <= q < 0x400 + BlocksFor(p.size) {
      PackRoundTrip(p.image + 4096 * (q - 0x400), 7);
    } else if 0x3FB <= q < 0x3FF {
      PackRoundTrip(p.stack + 4096 * (q - 0x3FB), 7);
    }
  }

  /** process_map_memory: the image window, then the stack window. */
  method MapMemory(mem: array<byte>, ghost p: Proc, dir: word, ptr: word, size: word, stack: word) returns (res: int)
    requires mem.Length == 0x1_0000_0000 && p.sp.dir == dir && p.image == ptr && p.size == size && p.stack == stack
    requires Filled(mem[..], dir, p.sp.tables, 5) && Shape(mem[..], dir, p.sp.tables)
    requires ptr % 4096 == 0 && size <= 0xFFFFF000 && ptr + 4096 * BlocksFor(size) < 0x1_0000_0000 && BlocksFor(size) <= 0x7FFFF
    requires stack % 4096 == 0 && stack + 0x4000 < 0x1_0000_0000
    modifies mem
    ensures res == 0 && Mapping(mem[..], p) && OnlyPages(old(mem[..]), mem[..], p.sp.tables)
  {
    hide WordAt;
    hide BlocksFor;
    hide Filled;
    hide Shape;
    hide Pte;
    hide Mapped;
    hide Mapping;
    hide OnlyPages;
    ghost var m0 := mem[..];
    RoundingsAgree(ptr, size);
    FlagsSeven();
    res := MapTo(mem, dir, PROGRAM_VIRTUAL_ADDRESS, ptr, AlignAddress(ptr + size),
                 SetFlags(SetFlags(IS_PRESENT, ACCESS_FROM_ALL), IS_WRITEABLE), p.sp.tables);
    if res < 0 {
      return res;
    }
    ghost var m1 := mem[..];
    MappedShape(m0, m1, dir, p.sp.tables, 0x400, ptr, BlocksFor(size), 7);
    res := MapTo(mem, dir, STACK_VIRTUAL_END, stack, AlignAddress(stack + 0x4000),
                 SetFlags(SetFlags(IS_PRESENT, ACCESS_FROM_ALL), IS_WRITEABLE), p.sp.tables);
    WindowEntries(m0, m1, mem[..], p);
    BothInTables(m0, m1, mem[..], p);
  }

  lemma BothInTables(m0: seq<byte>, m1: seq<byte>, m2: seq<byte>, p: Proc)
    requires Mapped(m0, m1, p.sp.dir, p.sp.tables, 0x400, p.image, BlocksFor(p.size), 7)
    requires Mapped(m1, m2, p.sp.dir, p.sp.tables, 0x3FB, p.stack, 4, 7)
    ensures OnlyPages(m0, m2, p.sp.tables)
  {
    hide PageOf;
    hide BlocksFor;
    forall a | Outside(p.sp.tables, a) ensures Get(m2, a) == Get(m0, a) {
      assert Get(m1, a) == Get(m0, a);
    }
  }

  lemma MappedShape(m1: seq<byte>, m2: seq<byte>, dir: word, tables: seq<word>, vp: int, phys: word, count: int, flags: word)
    requires Mapped(m1, m2, dir, tables, vp, phys, count, flags)
    ensures Shape(m2, dir, tables)
  {
  }

  lemma FlagsSeven()
    ensures SetFlags(SetFlags(IS_PRESENT, ACCESS_FROM_ALL), IS_WRITEABLE) == 7
    ensures SetFlags(IS_PRESENT, ACCESS_FROM_ALL) == 5
  {
    OrCommutes(1, 4);
    ShlBytes(1);
    assert Shl(1, 2) == 2 * Shl(1, 1);
    OrDisjoint(1, 1, 2);
    OrTwo(5);
  }

  /** process_validate_pointer */
  predicate ValidatePointer(p: Proc, ptr: int) {
    (PROGRAM_VIRTUAL_ADDRESS <= ptr < PROGRAM_VIRTUAL_ADDRESS + p.size) ||
    (STACK_VIRTUAL_END <= ptr < STACK_VIRTUAL_END + STACK_SIZE)
  }

  /** Every pointer the kernel accepts from a process leads into that process's own memory, writably. */
  lemma ValidatedPointerIsOwn(h: Heap, m: seq<byte>, c: Chunks, p: Proc, ptr: word)
    requires h.ValidIn(m, c) && Holds(h, c, p) && Mapping(m, p) && ValidatePointer(p, ptr)
    ensures UserWritable(m, p.sp.dir, ptr)
    ensures Translate(m, p.sp.dir, ptr) == Physical(Target(p, ptr)) && InMemoryOf(p, Target(p, ptr))
  {
    hide Mapping;
    hide UserWritable;
    hide Translate;
    BlocksForExact(p.size);
    TranslationExact(h, m, c, p, ptr);
  }

  /** Exactly those pointers are accepted that a process may write and that lead to a byte of its image or its stack. */
  lemma ValidatedIff(h: Heap, m: seq<byte>, c: Chunks, p: Proc, ptr: word)
    requires h.ValidIn(m, c) && Holds(h, c, p) && Mapping(m, p)
    ensures Translate(m, p.sp.dir, ptr).Physical?
    ensures ValidatePointer(p, ptr) <==> UserWritable(m, p.sp.dir, ptr) && OwnByte(p, Translate(m, p.sp.dir, ptr).addr)
  {
    hide BlocksFor;
    hide Holds;
    hide Mapping;
    hide UserWritable;
    hide Translate;
    hide HeapSpec.Encodes;
    BlocksForExact(p.size);
    TranslationExact(h, m, c, p, ptr);
    ImageApartFromStack(h, m, c, p);
    assert 0 < p.size <= 0xFFFFF000 by { PositiveSize(h, c, p); }
  }

  /** A byte of the file loaded, or of the stack. */
  predicate OwnByte(p: Proc, a: int) {
    p.image <= a < p.image + p.size || p.stack <= a < p.stack + 0x4000
  }

  lemma PositiveSize(h: Heap, c: Chunks, p: Proc)
    requires Holds(h, c, p)
    ensures 0 < p.size <= 0xFFFFF000
  {
  }

  lemma ImageApartFromStack(h: Heap, m: seq<byte>, c: Chunks, p: Proc)
    requires h.ValidIn(m, c) && Holds(h, c, p)
    ensures p.image + 4096 * BlocksFor(p.size) <= p.stack || p.stack + 0x4000 <= p.image
  {
    var n := |p.sp.Pages()|;
    assert p.Own()[n] == p.image && p.Own()[n + 1] == p.stack;
    LiveApart(h, m, c, p.image, BlocksFor(p.size), p.stack, 4);
  }

  // ---- loaded processes and a growing heap ----

  /** Whatever only adds chunks keeps every loaded process in place. */
  lemma GrowKeepsSystem(h: Heap, m0: seq<byte>, c0: Chunks, m: seq<byte>, c: Chunks, procs: seq<Proc>)
    requires System(h, m0, c0, procs) && Grows(h, m0, c0, m, c)
    ensures System(h, m, c, procs)
  {
    hide Mapping;
    hide HeapSpec.Encodes;
    hide Apart;
    forall i | 0 <= i < |procs| ensures Holds(h, c, procs[i]) && Mapping(m, procs[i]) {
      HoldsGrown(h, c0, c, procs[i]);
      forall x | x in procs[i].sp.Pages() ensures SamePage(m0, m, x) {
        var b := h.AddressToBlock(x);
        assert Live(h, c0, x, 1) && b in c0;
      }
      MappingFrame(m0, m, procs[i]);
    }
  }

  lemma HoldsGrown(h: Heap, c0: Chunks, c: Chunks, p: Proc)
    requires Holds(h, c0, p) && forall b :: b in c0 ==> b in c && c[b] == c0[b]
    ensures Holds(h, c, p)
  {
  }
}
