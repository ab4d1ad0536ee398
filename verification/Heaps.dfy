/** The block allocator of heap.c and kheap.c, on the flag bytes it keeps in physical memory. */
module Heaps {
  import opened Words
  import opened HeapSpec
  import opened Errors

  // Geometry of the kernel heap (config.h).
  const HEAP_ADDRESS: nat := 0x0100_0000
  const HEAP_TABLE_ADDRESS: nat := 0x7E00


  /** C's reinterpretation of 32 bits as a signed int, and its division, which truncates. */
  function Signed(x: word): int {
    if x < 0x8000_0000 then x else x - 0x1_0000_0000
  }

  function TruncDiv(x: int, d: int): int
    requires d > 0
  {
    if x >= 0 then x / d else -(-x / d)
  }

  class Heap {
    const mem: array<byte>
    const table: nat
    const total: nat
    const saddr: nat
    ghost var chunks: Chunks

    constructor Init(mem: array<byte>, table: nat, total: nat, saddr: nat)
      ensures this.mem == mem && this.table == table && this.total == total && this.saddr == saddr
      ensures chunks == map[]
    {
      this.mem, this.table, this.total, this.saddr := mem, table, total, saddr;
      chunks := map[];
    }

    /** The table lies in memory, apart from the pool; the pool is aligned, not at 0, and below 2 GiB in size. */
    ghost predicate Geometry() {
      && mem.Length == 0x1_0000_0000
      && table + total + 0x10_0000 <= 0x1_0000_0000
      && saddr % 4096 == 0 && 0 < saddr && saddr + 4096 * total <= 0x1_0000_0000 && total <= 0x7FFFF
      && (table + total <= saddr || saddr + 4096 * total <= table)
    }

    /** The flag table inside a memory snapshot. */
    ghost function FlagsIn(m: seq<byte>): (f: seq<byte>)
      requires Geometry() && |m| == 0x1_0000_0000
      ensures |f| == total && forall i :: 0 <= i < total ==> f[i] == Get(m, table + i)
    {
      m[table..table + total]
    }

    ghost function Flags(): seq<byte>
      requires Geometry()
      reads mem
    {
      FlagsIn(mem[..])
    }

    /** In snapshot m the flag table says that the live chunks are c. */
    ghost predicate ValidIn(m: seq<byte>, c: Chunks) {
      Geometry() && |m| == 0x1_0000_0000 && Encodes(FlagsIn(m), c)
    }

    ghost predicate Valid()
      reads this, mem
    {
      ValidIn(mem[..], chunks)
    }

    function Addr(b: int): int {
      saddr + 4096 * b
    }

    function AddressToBlock(a: word): int {
      TruncDiv(Signed(Wrap(a - saddr)), 4096)
    }

    lemma BlockRange(a: word)
      ensures -0x8_0000 <= AddressToBlock(a) < 0x8_0000
    {
    }

    lemma BlockOfAddr(b: int)
      requires Geometry() && 0 <= b < total
      ensures 0 < Addr(b) < 0x1_0000_0000 && Addr(b) % 4096 == 0 && AddressToBlock(Addr(b)) == b
    {
    }

    /** First fit, as the scan of heap.c finds it: the run's start and the number of blocks counted. */
    method Scan(n: nat) returns (bs: int, bc: int)
      requires Geometry()
      ensures bs == -1 ==> bc == 0 && LastTaken(Flags()) && (n > 0 ==> !HasRun(Flags(), n))
      ensures bs >= 0 && bc == n ==> FirstRun(Flags(), n, bs)
      ensures bs >= 0 && bc != n ==> TrailingRun(Flags(), bs) && bc == total - bs && (n > 0 ==> !HasRun(Flags(), n))
      ensures bs >= -1 && (n == 0 ==> bs == -1 || bc != n)
    {
      bc, bs := 0, -1;
      ghost var f := Flags();
      var i := 0;
      while i < total
        invariant 0 <= i <= total && f == Flags()
        invariant bs == -1 ==> bc == 0 && (i > 0 ==> !IsFree(f[i - 1]))
        invariant bs >= -1
        invariant bs >= 0 ==> bs < i && bc == i - bs && FreeRun(f, bs, bc) && (bs > 0 ==> !IsFree(f[bs - 1]))
        invariant n > 0 ==> bc < n
        invariant n > 0 ==> forall t :: t + n <= i ==> !FreeRun(f, t, n)
      {
        assert f[i] == mem[table + i];
        if EntryType(mem[table + i]) != ENTRY_FREE {
          bc, bs := 0, -1;
          i := i + 1;
          continue;
        }
        if bs == -1 {
          bs := i;
        }
        bc := bc + 1;
        if bc == n {
          break;
        }
        i := i + 1;
      }
    }

    /** heap_get_next_free_block: the block found, or -ENOMEM. */
    method NextFreeBlock(n: nat) returns (r: int)
      requires Geometry()
      ensures n > 0 && HasRun(Flags(), n) ==> FirstRun(Flags(), n, r)
      ensures !(n > 0 && HasRun(Flags(), n)) && LastTaken(Flags()) ==> r == -ENOMEM
      ensures !(n > 0 && HasRun(Flags(), n)) && !LastTaken(Flags()) ==> r >= 0 && TrailingRun(Flags(), r)
    {
      var bs, bc := Scan(n);
      r := if bs == -1 then -ENOMEM else bs;
      assert bs >= 0 && bc == n ==> FreeRun(Flags(), bs, n);
    }

    /** Repaired: a trailing run counts only when it is long enough. */
    method NextFreeBlockRepaired(n: nat) returns (r: int)
      requires Geometry()
      ensures n > 0 && HasRun(Flags(), n) ==> FirstRun(Flags(), n, r)
      ensures !(n > 0 && HasRun(Flags(), n)) ==> r == -ENOMEM
    {
      var bs, bc := Scan(n);
      r := if bs == -1 || bc != n then -ENOMEM else bs;
      assert bs >= 0 && bc == n ==> FreeRun(Flags(), bs, n);
    }

    method MarkBlocksTaken(start: nat, n: nat)
      requires Geometry() && start < total && n <= 0x10_0000
      modifies mem
      ensures SameOutside(old(mem[..]), mem[..], table + start, table + start + n)
      ensures Marked(old(Flags()), Flags(), start, n)
    {
      var end := start + n - 1;
      hide BitOr;
      OrMarks();
      var entry: byte := BitOr(ENTRY_TAKEN, IS_FIRST);
      if n > 1 {
        entry := BitOr(entry, HAS_NEXT);
      }
      var i := start;
      while i <= end
        invariant start <= i <= end + 1
        invariant i <= end ==> entry == Mark(start, n, i)
        invariant forall j :: 0 <= j < mem.Length ==>
          mem[j] == if table + start <= j < table + i then Mark(start, n, j - table) else old(mem[j])
      {
        mem[table + i] := entry;
        entry := ENTRY_TAKEN;
        if i != end - 1 {
          entry := BitOr(entry, HAS_NEXT);
        }
        i := i + 1;
      }
    }

    // The flag of block i lies at address table + i, in 32-bit arithmetic; for blocks below 0, which pointers below the
    // pool have, that is in front of the table.

    function EntryAddr(i: int): int {
      Wrap(table + i)
    }

    /** The block whose flag is the byte at a. */
    function BlockAt(a: int): int {
      if a < table + total then a - table else a - table - 0x1_0000_0000
    }

    ghost function EntryAt(m: seq<byte>, i: int): byte {
      Get(m, EntryAddr(i))
    }

    lemma EntryOfBlock(i: int)
      requires Geometry() && -0x8_0000 <= i < total
      ensures 0 <= EntryAddr(i) < 0x1_0000_0000 && BlockAt(EntryAddr(i)) == i && (i >= 0 ==> EntryAddr(i) == table + i)
      ensures forall a :: 0 <= a < 0x1_0000_0000 && BlockAt(a) == i ==> a == EntryAddr(i)
    {
    }

    /** Behind the last block reached from s along has-next. */
    ghost function RunEndIn(m: seq<byte>, s: int): (e: int)
      ensures s <= e && (s < total ==> s < e <= total)
      decreases total - s
    {
      if s >= total then s else if HasNext(EntryAt(m, s)) && s + 1 < total then RunEndIn(m, s + 1) else s + 1
    }

    /** The flags of the run from block s on are cleared, and no other byte of memory changes. */
    ghost predicate Swept(m: seq<byte>, m2: seq<byte>, s: int) {
      |m2| == |m| && forall a :: 0 <= a < |m| ==> Get(m2, a) == if s <= BlockAt(a) < RunEndIn(m, s) then ENTRY_FREE else Get(m, a)
    }

    /** heap_mark_blocks_free: from a block on, up to the first without has-next, whatever the bytes there say. */
    method MarkBlocksFree(start: int)
      requires Geometry() && start >= -0x8_0000
      modifies mem
      ensures Swept(old(mem[..]), mem[..], start)
    {
      ghost var m, end := mem[..], RunEndIn(mem[..], start);
      var i := start;
      while i < total
        invariant start <= i && (i < total ==> RunEndIn(m, i) == end) && (i >= total ==> i == end)
        invariant forall a :: 0 <= a < mem.Length ==> mem[a] == if start <= BlockAt(a) < i then ENTRY_FREE else m[a]
        decreases total - i
      {
        EntryOfBlock(i);
        var entry := mem[EntryAddr(i)];
        assert entry == EntryAt(m, i);
        mem[EntryAddr(i)] := ENTRY_FREE;
        if !HasNext(entry) {
          break;
        }
        i := i + 1;
      }
    }

    /** In the table, the run in memory is the run of flags. */
    lemma RunInTable(m: seq<byte>, s: nat)
      requires Geometry() && |m| == 0x1_0000_0000
      ensures RunEndIn(m, s) == RunEnd(FlagsIn(m), s)
      decreases total - s
    {
      if s < total {
        EntryOfBlock(s);
        RunInTable(m, s + 1);
      }
    }

    /** A run that begins in front of the table and reaches it goes on from block 0. */
    lemma RunIntoTable(m: seq<byte>, s: int)
      requires Geometry() && s < 0 < RunEndIn(m, s)
      ensures RunEndIn(m, s) == RunEndIn(m, 0)
      decreases -s
    {
      if s < -1 {
        RunIntoTable(m, s + 1);
      }
    }

    /** What a sweep does to the table. */
    lemma SweptTable(m: seq<byte>, m2: seq<byte>, s: int)
      requires Geometry() && |m| == 0x1_0000_0000 && Swept(m, m2, s)
      ensures s >= 0 ==> SameOutside(m, m2, table, table + total) && Cleared(FlagsIn(m), FlagsIn(m2), s, RunEnd(FlagsIn(m), s) - s)
      ensures s < 0 && RunEndIn(m, s) > 0 ==> Cleared(FlagsIn(m), FlagsIn(m2), 0, RunEnd(FlagsIn(m), 0))
      ensures RunEndIn(m, s) <= 0 ==> FlagsIn(m2) == FlagsIn(m)
    {
      if s >= 0 {
        RunInTable(m, s);
      } else if RunEndIn(m, s) > 0 {
        RunIntoTable(m, s);
        RunInTable(m, 0);
      }
    }

    /** heap_malloc_blocks: as written (guarded false), or over the repaired scan. */
    method MallocBlocks(n: nat, guarded: bool) returns (r: word)
      requires Valid() && n <= 0x10_0000
      modifies this, mem
      ensures SameOutside(old(mem[..]), mem[..], table, table + total + n)
      // A request that fits is met at the least fitting place.
      ensures n > 0 && HasRun(old(Flags()), n) ==> Allocated(old(mem[..]), old(chunks), mem[..], chunks, n, r)
      // One that does not is refused, as written only if the last block is taken.
      ensures !(n > 0 && HasRun(old(Flags()), n)) && (guarded || LastTaken(old(Flags()))) ==> r == 0
      ensures n == 0 || (!HasRun(old(Flags()), n) && (guarded || LastTaken(old(Flags())))) ==>
        mem[..] == old(mem[..]) && chunks == old(chunks)
      // Otherwise the trailing run is handed out, and for n > 0 the table stops being an encoding of anything.
      ensures !(n > 0 && HasRun(old(Flags()), n)) && !guarded && !LastTaken(old(Flags())) ==>
        exists s :: 0 <= s && TrailingRun(old(Flags()), s) && r == Addr(s)
      ensures n > 0 && !HasRun(old(Flags()), n) && !guarded && !LastTaken(old(Flags())) ==> forall c :: !Encodes(Flags(), c)
    {
      var start;
      if guarded {
        start := NextFreeBlockRepaired(n);
      } else {
        start := NextFreeBlock(n);
      }
      ghost var f := Flags();
      if start < 0 {
        return 0;
      }
      BlockOfAddr(start);
      r := Addr(start);
      MarkBlocksTaken(start, n);
      if n == 0 {
        Unchanged(old(mem[..]), mem[..], table + start);
      }
      if n > 0 && HasRun(f, n) {
        AddChunk(f, Flags(), chunks, start, n);
        chunks := chunks[start := n];
      } else if n > 0 {
        assert !FreeRun(f, start, n);
        forall c ensures !Encodes(Flags(), c) {
          OverrunEncodesNothing(f, Flags(), start, n, c);
        }
      }
    }

    /** A successful allocation of n blocks: one new chunk at the least fitting place, nothing else. */
    ghost predicate Allocated(m: seq<byte>, c: Chunks, m2: seq<byte>, c2: Chunks, n: nat, r: word) {
      && Geometry() && |m| == |m2| == 0x1_0000_0000
      && var s := AddressToBlock(r);
      && r == Addr(s) && 0 <= s && FirstRun(FlagsIn(m), n, s) && Marked(FlagsIn(m), FlagsIn(m2), s, n)
      && s !in c && c2 == c[s := n] && ValidIn(m2, c2)
      && SameOutside(m, m2, table + s, table + s + n)
    }

    /** heap_malloc: the size rounded up to blocks. */
    method Malloc(size: word, guarded: bool) returns (r: word)
      requires Valid()
      modifies this, mem
      ensures var n, f := BlocksFor(size), old(Flags());
        && (n > 0 && HasRun(f, n) ==> Allocated(old(mem[..]), old(chunks), mem[..], chunks, n, r))
        && (!(n > 0 && HasRun(f, n)) && (guarded || LastTaken(f)) ==> r == 0)
        && (n == 0 || (!HasRun(f, n) && (guarded || LastTaken(f))) ==> mem[..] == old(mem[..]) && chunks == old(chunks))
        && (!(n > 0 && HasRun(f, n)) && !guarded && !LastTaken(f) ==> exists s :: 0 <= s && TrailingRun(f, s) && r == Addr(s))
        && (n > 0 && !HasRun(f, n) && !guarded && !LastTaken(f) ==> forall c :: !Encodes(Flags(), c))
    {
      BlocksForExact(size);
      r := MallocBlocks(BlocksFor(size), guarded);
    }

    /** The requests the allocator as written serves soundly: the ones it meets, and the ones it refuses. */
    ghost predicate Serves(size: word)
      requires Geometry()
      reads mem
    {
      size <= 0xFFFFF000 && (size == 0 || HasRun(Flags(), BlocksFor(size)) || LastTaken(Flags()))
    }

    /** A zeroed chunk of size bytes is new; outside it and the flag table memory is kept. */
    ghost predicate Zeroed(m: seq<byte>, c: Chunks, m2: seq<byte>, c2: Chunks, size: word, r: word) {
      && Geometry() && |m| == |m2| == 0x1_0000_0000
      && var s, n := AddressToBlock(r), BlocksFor(size);
      && r == Addr(s) && 0 <= s && FirstRun(FlagsIn(m), n, s) && Marked(FlagsIn(m), FlagsIn(m2), s, n)
      && s !in c && c2 == c[s := n] && ValidIn(m2, c2)
      && (forall a :: r <= a < r + size ==> Get(m2, a) == 0)
      && (forall a :: !(r <= a < r + size) && !(table <= a < table + total) ==> Get(m2, a) == Get(m, a))
    }

    /** Zeroing memory inside the pool leaves the flag table as it is. */
    method ZeroFill(r: word, size: word)
      requires Valid() && saddr <= r && r + size <= Addr(total)
      modifies mem
      ensures Valid() && Flags() == old(Flags())
      ensures SameOutside(old(mem[..]), mem[..], r, r + size)
      ensures forall a :: r <= a < r + size ==> Get(mem[..], a) == 0
    {
      ghost var m := mem[..];
      Memset(mem, r, 0, size);
      SameSlice(m, mem[..], table, table + total);
    }

    /** kzalloc */
    method Kzalloc(size: word, guarded: bool) returns (r: word)
      requires Valid() && size <= 0xFFFFF000 && (guarded || Serves(size))
      modifies this, mem
      ensures Valid()
      ensures size > 0 && HasRun(old(Flags()), BlocksFor(size)) ==> Zeroed(old(mem[..]), old(chunks), mem[..], chunks, size, r)
      ensures (size > 0 && !HasRun(old(Flags()), BlocksFor(size))) || (size == 0 && guarded) ==> r == 0
      ensures size == 0 || !HasRun(old(Flags()), BlocksFor(size)) ==> mem[..] == old(mem[..]) && chunks == old(chunks)
    {
      BlocksForExact(size);
      ghost var n, f := BlocksFor(size), Flags();
      r := Malloc(size, guarded);
      if r == 0 {
        return;
      }
      if size == 0 {
        ghost var m := mem[..];
        Memset(mem, r, 0, size);
        Unchanged(m, mem[..], r);
      } else {
        assert HasRun(f, n);
        ZeroFill(r, size);
      }
    }

    /** heap_free, of any pointer over any table. Over a sound table the start of a live chunk drops that chunk, a free
        block is left alone (freeing twice is harmless), and a block inside a chunk leaves a table that encodes nothing;
        below the pool bytes in front of the table are cleared, and the chunk at block 0 goes if they lead to it. */
    method Free(ptr: word)
      requires Geometry()
      modifies this, mem
      ensures Swept(old(mem[..]), mem[..], AddressToBlock(ptr))
      ensures AddressToBlock(ptr) >= 0 ==> SameOutside(old(mem[..]), mem[..], table, table + total)
      ensures old(Valid()) && AddressToBlock(ptr) in old(chunks) ==> Valid() && chunks == old(chunks) - {AddressToBlock(ptr)}
      ensures old(Valid()) && AddressToBlock(ptr) >= 0 && !Covered(old(chunks), AddressToBlock(ptr)) ==>
        mem[..] == old(mem[..]) && chunks == old(chunks)
      ensures old(Valid()) && Covered(old(chunks), AddressToBlock(ptr)) && AddressToBlock(ptr) !in old(chunks) ==>
        forall c :: !Encodes(Flags(), c)
      ensures old(Valid()) && AddressToBlock(ptr) < 0 ==>
        Valid() && chunks == if RunEndIn(old(mem[..]), AddressToBlock(ptr)) > 0 then old(chunks) - {0} else old(chunks)
    {
      hide Swept;
      ghost var m, sound := mem[..], Valid();
      var b := AddressToBlock(ptr);
      MarkBlocksFree(b);
      SweptTable(m, mem[..], b);
      if sound {
        if b >= 0 {
          AfterSweep(m, chunks, mem[..], b);
          chunks := if b in chunks then chunks - {b} else chunks;
        } else if RunEndIn(m, b) > 0 {
          FrontSweep(m, chunks, mem[..]);
          chunks := chunks - {0};
        }
      }
    }

    /** The run from a block swept: dropped, nothing, or torn. */
    lemma AfterSweep(m: seq<byte>, c: Chunks, m2: seq<byte>, s: nat)
      requires ValidIn(m, c) && SameOutside(m, m2, table, table + total) && Cleared(FlagsIn(m), FlagsIn(m2), s, RunEnd(FlagsIn(m), s) - s)
      ensures s in c ==> ValidIn(m2, c - {s})
      ensures !Covered(c, s) ==> m2 == m
      ensures Covered(c, s) && s !in c ==> forall d :: !Encodes(FlagsIn(m2), d)
    {
      var f := FlagsIn(m);
      EndOfRun(f, c, s);
      if s in c {
        DropChunk(f, FlagsIn(m2), c, s);
      } else if Covered(c, s) {
        forall d ensures !Encodes(FlagsIn(m2), d) {
          TornEncodesNothing(f, c, FlagsIn(m2), s, d);
        }
      } else {
        NothingCleared(m, m2, s, RunEnd(f, s));
      }
    }

    lemma FrontSweep(m: seq<byte>, c: Chunks, m2: seq<byte>)
      requires ValidIn(m, c) && |m2| == |m| && Cleared(FlagsIn(m), FlagsIn(m2), 0, RunEnd(FlagsIn(m), 0))
      ensures ValidIn(m2, c - {0})
    {
      var f := FlagsIn(m);
      EndOfRun(f, c, 0);
      if 0 in c {
        DropChunk(f, FlagsIn(m2), c, 0);
      } else {
        assert !Covered(c, 0);
        assert FlagsIn(m2) == f && c - {0} == c;
      }
    }

    /** Clearing the flag of a free block, or no flag at all, changes nothing. */
    lemma NothingCleared(m: seq<byte>, m2: seq<byte>, s: nat, end: nat)
      requires Geometry() && |m| == 0x1_0000_0000 && SameOutside(m, m2, table, table + total)
      requires Cleared(FlagsIn(m), FlagsIn(m2), s, end - s)
      requires forall i :: s <= i < end ==> i < total && FlagsIn(m)[i] == ENTRY_FREE
      ensures m2 == m
    {
      forall a | 0 <= a < |m| ensures m2[a] == m[a] {
        assert Get(m2, a) == Get(m, a) by {
          if table <= a < table + total {
            assert FlagsIn(m)[a - table] == FlagsIn(m2)[a - table];
          }
        }
      }
    }
  }

  lemma OrMarks()
    ensures BitOr(ENTRY_TAKEN, IS_FIRST) == 0x41 && BitOr(0x41, HAS_NEXT) == 0xC1 && BitOr(ENTRY_TAKEN, HAS_NEXT) == 0x81
  {
    ShlBytes(1);
    OrDisjoint(1, 1, 6);
    OrDisjoint(1, 0x41, 7);
    OrDisjoint(1, 1, 7);
    OrCommutes(1, 0x40);
    OrCommutes(0x41, 0x80);
    OrCommutes(1, 0x80);
  }

  /** heap_create over the pool [ptr, end) and a table of tableTotal flag bytes, wherever they lie; it checks alignment
      and the table's size only, and the heap is sound if the pool also lies above 0, is under 2 GiB, and apart from the table. */
  method Create(mem: array<byte>, table: nat, tableTotal: nat, ptr: word, end: word) returns (res: int, h: Heap)
    requires mem.Length == 0x1_0000_0000 && table + tableTotal <= 0x1_0000_0000
    modifies mem
    ensures h.mem == mem && h.table == table && h.total == tableTotal && h.saddr == ptr && fresh(h)
    ensures res == 0 <==> ptr % 4096 == 0 && end % 4096 == 0 && Wrap(end as int - ptr) / 4096 == tableTotal
    ensures res == 0 ==> SameOutside(old(mem[..]), mem[..], table, table + tableTotal)
    ensures res == 0 ==> forall a :: table <= a < table + tableTotal ==> Get(mem[..], a) == ENTRY_FREE
    ensures (res == 0 && 0 < ptr <= end && end - ptr < 0x8000_0000 && (table + tableTotal <= ptr || end <= table) &&
             table + tableTotal + 0x10_0000 <= 0x1_0000_0000) ==> h.Valid() && h.chunks == map[]
    ensures res != 0 ==> res == -EINVARG && mem[..] == old(mem[..])
  {
    h := new Heap.Init(mem, table, tableTotal, ptr);
    if ptr % 4096 != 0 || end % 4096 != 0 {
      return -EINVARG, h;
    }
    if tableTotal != Wrap(end as int - ptr) / 4096 {
      return -EINVARG, h;
    }
    Memset(mem, table, ENTRY_FREE, tableTotal);
    if h.Geometry() {
      assert forall i :: 0 <= i < tableTotal ==> h.Flags()[i] == ENTRY_FREE;
    }
    res := 0;
  }

  /** kheap_init: the kernel's own geometry passes every check. */
  method KheapInit(mem: array<byte>) returns (h: Heap)
    requires mem.Length == 0x1_0000_0000
    modifies mem
    ensures fresh(h) && h.mem == mem && h.Valid() && h.chunks == map[] && IsKernelHeap(h)
    ensures SameOutside(old(mem[..]), mem[..], HEAP_TABLE_ADDRESS, HEAP_TABLE_ADDRESS + 131072)
    ensures |FreeSet(h.Flags())| == 131072
  {
    var res;
    res, h := Create(mem, HEAP_TABLE_ADDRESS, 131072, HEAP_ADDRESS, HEAP_ADDRESS + 0x2000_0000);
    AllFree(h.Flags());
  }

  ghost predicate IsKernelHeap(h: Heap) {
    h.table == 0x7E00 && h.saddr == 0x100_0000 && h.total == 131072
  }

  lemma AllFree(f: seq<byte>)
    requires Encodes(f, map[])
    ensures |FreeSet(f)| == |f|
  {
    forall i | 0 <= i < |f| ensures IsFree(f[i]) {
      FreeIffUncovered(f, map[], i);
    }
    CountFree(f, |f|);
    assert f[..|f|] == f;
  }

  lemma {:induction false} CountFree(f: seq<byte>, n: nat)
    requires n <= |f| && forall i :: 0 <= i < |f| ==> IsFree(f[i])
    ensures |FreeSet(f[..n])| == n
  {
    if n > 0 {
      CountFree(f, n - 1);
      var short, long := f[..n - 1], f[..n];
      assert forall i :: 0 <= i < n - 1 ==> long[i] == short[i];
      assert IsFree(f[n - 1]);
      assert FreeSet(long) == FreeSet(short) + {n - 1};
    }
  }
}
