/** Page directories built from heap blocks: paging_chunk_new and paging_chunk_free. */
module Spaces {
  import opened Words
  import opened Sequences
  import opened HeapSpec
  import opened Heaps
  import opened Paging

  /** Where a paging chunk lives: its descriptor, its directory, its tables. */
  datatype Space = Space(chunk: word, dir: word, tables: seq<word>) {
    function Pages(): seq<word> {
      [dir] + tables + [chunk]
    }
  }

  // ---- pages taken from the heap ----

  /** a is the address of a live chunk of n blocks. */
  ghost predicate Live(h: Heap, c: Chunks, a: word, n: nat) {
    var b := h.AddressToBlock(a);
    0 <= b && b in c && c[b] == n && a == h.Addr(b)
  }

  ghost function BlocksOf(h: Heap, pages: seq<word>): set<int> {
    set p | p in pages :: h.AddressToBlock(p)
  }

  /** Outside the pages and the flag table, memory is as before. */
  ghost predicate KeptOutside(h: Heap, m0: seq<byte>, m: seq<byte>, pages: seq<word>) {
    |m| == |m0| && forall a {:trigger Outside(pages, a)} ::
      Outside(pages, a) && !(h.table <= a < h.table + h.total) ==> Get(m, a) == Get(m0, a)
  }

  /** The chunks in c are those in c0 and one single-block chunk per page. */
  ghost predicate Holdings(h: Heap, c0: Chunks, c: Chunks, pages: seq<word>) {
    && (forall p :: p in pages ==> Live(h, c, p, 1) && h.AddressToBlock(p) !in c0)
    && Distinct(pages)
    && (forall b :: b in c ==> b in c0 || b in BlocksOf(h, pages))
    && (forall b :: b in c0 ==> b in c && c[b] == c0[b])
  }

  /** From state (m0, c0) to (m, c): exactly the given pages were allocated, each as one block. */
  ghost predicate Acquired(h: Heap, m0: seq<byte>, c0: Chunks, m: seq<byte>, c: Chunks, pages: seq<word>) {
    && h.ValidIn(m0, c0) && h.ValidIn(m, c)
    && Holdings(h, c0, c, pages)
    && KeptOutside(h, m0, m, pages)
    && |FreeSet(h.FlagsIn(m))| + |pages| == |FreeSet(h.FlagsIn(m0))|
  }

  lemma PageInPool(h: Heap, m: seq<byte>, c: Chunks, p: word, n: nat)
    requires h.ValidIn(m, c) && Live(h, c, p, n)
    ensures p % 4096 == 0 && h.saddr <= p && p + 4096 * n <= h.Addr(h.total) && n > 0
  {
  }

  /** Different live chunks occupy different memory. */
  lemma LiveApart(h: Heap, m: seq<byte>, c: Chunks, p: word, n: nat, q: word, k: nat)
    requires h.ValidIn(m, c) && Live(h, c, p, n) && Live(h, c, q, k) && p != q
    ensures p + 4096 * n <= q || q + 4096 * k <= p
  {
    var a, b := h.AddressToBlock(p), h.AddressToBlock(q);
    assert a != b;
    assert a < b ==> a + c[a] <= b;
    assert b < a ==> b + c[b] <= a;
  }

  lemma AcquireNothing(h: Heap, m: seq<byte>, c: Chunks)
    requires h.ValidIn(m, c)
    ensures Acquired(h, m, c, m, c, [])
  {
  }

  lemma AcquiredFacts(h: Heap, m0: seq<byte>, c0: Chunks, m: seq<byte>, c: Chunks, pages: seq<word>)
    requires Acquired(h, m0, c0, m, c, pages)
    ensures h.Geometry() && h.ValidIn(m, c) && |m| == |m0| == 0x1_0000_0000
    ensures |FreeSet(h.FlagsIn(m))| + |pages| == |FreeSet(h.FlagsIn(m0))|
  {
  }

  /** One more block. */
  lemma AcquireStep(h: Heap, m0: seq<byte>, c0: Chunks, m: seq<byte>, c: Chunks, pages: seq<word>,
                    m2: seq<byte>, c2: Chunks, size: word, r: word)
    requires Acquired(h, m0, c0, m, c, pages) && 0 < size <= 4096 && h.Zeroed(m, c, m2, c2, size, r)
    ensures r !in pages && Acquired(h, m0, c0, m2, c2, pages + [r])
    ensures forall p :: p in pages ==> SamePage(m, m2, p)
  {
    BlocksForExact(size);
    MarkOne(h.FlagsIn(m), h.FlagsIn(m2), h.AddressToBlock(r));
    HoldOneMore(h, c0, c, pages, c2, r);
    forall p | p in pages ensures SamePage(m, m2, p) {
      PageInPool(h, m, c, p, 1);
      LiveApart(h, m2, c2, p, 1, r, 1);
    }
    forall a | Outside(pages + [r], a) && !(h.table <= a < h.table + h.total) ensures Get(m2, a) == Get(m0, a) {
      PageInPool(h, m2, c2, r, 1);
      InPageOf(r, a);
      assert Outside(pages, a);
    }
  }

  lemma InPageOf(p: int, a: int)
    requires p % 4096 == 0
    ensures p <= a < p + 4096 <==> PageOf(a) == p
  {
  }

  lemma HoldOneMore(h: Heap, c0: Chunks, c: Chunks, pages: seq<word>, c2: Chunks, r: word)
    requires Holdings(h, c0, c, pages)
    requires var s := h.AddressToBlock(r); 0 <= s && r == h.Addr(s) && s !in c && c2 == c[s := 1]
    ensures r !in pages && Holdings(h, c0, c2, pages + [r])
    ensures forall p :: p in pages ==> Live(h, c2, p, 1)
    ensures Live(h, c2, r, 1)
  {
    var pages' := pages + [r];
    assert r in pages';
    assert forall p :: p in pages ==> p in pages';
    forall b | b in c2 && b !in c0 ensures b in BlocksOf(h, pages') {
      if b != h.AddressToBlock(r) {
        var p :| p in pages && b == h.AddressToBlock(p);
        assert p in pages';
      }
    }
  }

  /** Writing inside acquired pages. */
  lemma AcquireWrite(h: Heap, m0: seq<byte>, c0: Chunks, m: seq<byte>, c: Chunks, pages: seq<word>, m2: seq<byte>)
    requires Acquired(h, m0, c0, m, c, pages) && OnlyPages(m, m2, pages)
    ensures Acquired(h, m0, c0, m2, c, pages)
  {
    hide BlocksOf;
    forall a | h.table <= a < h.table + h.total ensures Get(m2, a) == Get(m, a) {
      assert Outside(pages, a) by {
        if PageOf(a) in pages {
          PageInPool(h, m, c, PageOf(a), 1);
        }
      }
    }
    SameSlice(m, m2, h.table, h.table + h.total);
  }

  // ---- contents of the tables ----

  /** The entry that maps a page to the frame of the same number. */
  function IdentityEntry(page: int, flags: byte): int {
    4096 * page + flags
  }

  /** Directory entries also get the write bit. */
  function DirectoryEntry(table: int, flags: byte): int {
    table + (if flags / 2 % 2 == 1 then flags else flags + 2)
  }

  lemma DirectoryEntryIsPacked(table: word, flags: byte)
    requires table % 4096 == 0
    ensures SetFlags(table, SetFlags(flags, IS_WRITEABLE)) == DirectoryEntry(table, flags)
    ensures GetPointer(SetFlags(table, SetFlags(flags, IS_WRITEABLE))) == table
  {
    OrTwo(flags);
    PackRoundTrip(table, SetFlags(flags, IS_WRITEABLE));
  }

  lemma OrTwo(x: byte)
    ensures BitOr(x, 2) == if x / 2 % 2 == 1 then x else x + 2
  {
    assert BitOr(x, 2) == 2 * BitOr(x / 2, 1) + x % 2;
    assert BitOr(x / 2, 1) == 2 * BitOr(x / 4, 0) + 1;
    OrZero(x / 4);
  }

  /** The tables written so far: the directory leads to them, and each maps its 4 MiB to itself. */
  ghost predicate Filled(m: seq<byte>, dir: word, tables: seq<word>, flags: byte) {
    && (forall d :: 0 <= d < |tables| ==> TableWord(m, dir, d) == DirectoryEntry(tables[d], flags))
    && (forall d, t :: 0 <= d < |tables| && 0 <= t < 1024 ==> TableWord(m, tables[d], t) == IdentityEntry(1024 * d + t, flags))
  }

  lemma FilledNothing(m: seq<byte>, dir: word, flags: byte)
    ensures Filled(m, dir, [], flags)
  {
  }

  lemma FilledFrame(m1: seq<byte>, m2: seq<byte>, dir: word, tables: seq<word>, flags: byte)
    requires Filled(m1, dir, tables, flags) && |tables| <= 1024 && SamePage(m1, m2, dir)
    requires forall d :: 0 <= d < |tables| ==> SamePage(m1, m2, tables[d])
    ensures Filled(m2, dir, tables, flags)
  {
    SameTable(m1, m2, dir);
    forall d | 0 <= d < |tables| ensures forall t :: 0 <= t < 1024 ==> TableWord(m2, tables[d], t) == TableWord(m1, tables[d], t) {
      SameTable(m1, m2, tables[d]);
    }
  }

  /** The inner loop of paging_chunk_new: one table, filled linearly. */
  method FillTable(mem: array<byte>, entry: word, offset: word, flags: byte)
    requires mem.Length == 0x1_0000_0000 && entry % 4096 == 0 && offset % 0x40_0000 == 0
    modifies mem
    ensures SameOutside(old(mem[..]), mem[..], entry, entry + 4096)
    ensures forall t :: 0 <= t < 1024 ==> TableWord(mem[..], entry, t) == offset + 4096 * t + flags
  {
    hide BitOr;
    hide WordAt;
    var b := 0;
    while b < 1024
      invariant 0 <= b <= 1024
      invariant SameOutside(old(mem[..]), mem[..], entry, entry + 4096)
      invariant forall t :: 0 <= t < b ==> TableWord(mem[..], entry, t) == offset + 4096 * t + flags
    {
      ghost var m := mem[..];
      Store32(mem, entry + 4 * b, SetFlags(Wrap(offset + 4096 * b), flags));
      PackRoundTrip(Wrap(offset + 4096 * b), flags);
      forall t | 0 <= t < b ensures TableWord(mem[..], entry, t) == TableWord(m, entry, t) {
        SlotKept(m, mem[..], entry, b, entry, t);
      }
      b := b + 1;
    }
  }

  /** One more table: filled at entry, then entered in the directory. */
  lemma FilledStep(m: seq<byte>, m1: seq<byte>, m2: seq<byte>, dir: word, tables: seq<word>, flags: byte, entry: word)
    requires |tables| < 1024 && Filled(m, dir, tables, flags) && dir % 4096 == 0 && entry % 4096 == 0 && entry != dir && entry !in tables
    requires forall p :: p in tables ==> p % 4096 == 0 && p != dir
    requires SameOutside(m, m1, entry, entry + 4096)
    requires forall t :: 0 <= t < 1024 ==> TableWord(m1, entry, t) == IdentityEntry(1024 * |tables| + t, flags)
    requires SameOutside(m1, m2, dir + 4 * |tables|, dir + 4 * |tables| + 4)
    requires TableWord(m2, dir, |tables|) == DirectoryEntry(entry, flags)
    ensures Filled(m2, dir, tables + [entry], flags)
  {
    hide WordAt;
    hide TableWord;
    hide SameOutside;
    hide DirectoryEntry;
    var n := |tables|;
    var tables' := tables + [entry];
    forall d | 0 <= d < n ensures TableWord(m2, dir, d) == TableWord(m, dir, d) {
      WordKept(m, m1, m2, dir, n, entry, dir, d);
    }
    forall d, t | 0 <= d < n && 0 <= t < 1024 ensures TableWord(m2, tables[d], t) == TableWord(m, tables[d], t) {
      assert tables[d] in tables;
      WordKept(m, m1, m2, dir, n, entry, tables[d], t);
    }
    forall t | 0 <= t < 1024 ensures TableWord(m2, entry, t) == TableWord(m1, entry, t) {
      SlotKept(m1, m2, dir, n, entry, t);
    }
    forall d, t | 0 <= d < n + 1 && 0 <= t < 1024 ensures TableWord(m2, tables'[d], t) == IdentityEntry(1024 * d + t, flags) {
      assert d < n ==> tables'[d] == tables[d];
    }
  }

  /** Filling one page and then one directory slot leaves every other table word alone. */
  lemma WordKept(m: seq<byte>, m1: seq<byte>, m2: seq<byte>, dir: word, n: int, entry: word, p: word, i: int)
    requires dir % 4096 == 0 && entry % 4096 == 0 && p % 4096 == 0 && p != entry && 0 <= n < 1024 && 0 <= i < 1024 && (p != dir || i != n)
    requires SameOutside(m, m1, entry, entry + 4096) && SameOutside(m1, m2, dir + 4 * n, dir + 4 * n + 4)
    ensures TableWord(m2, p, i) == TableWord(m, p, i)
  {
    hide WordAt;
    SlotKept(m1, m2, dir, n, p, i);
    SameWord(m, m1, p + 4 * i);
  }

  /** A descriptor, its directory and its tables, in memory. */
  ghost predicate InMemory(m: seq<byte>, sp: Space) {
    && 0 < |sp.tables| <= 1024
    && (forall d :: 0 <= d < |sp.tables| ==> PointerAt(m, sp.dir, d) == sp.tables[d])
    && WordAt(m, sp.chunk) == sp.dir && WordAt(m, sp.chunk + 4) == |sp.tables| && WordAt(m, sp.chunk + 8) == 1024
  }

  /** What paging_chunk_free takes for the address of table d. */
  function PointerAt(m: seq<byte>, dir: word, d: int): word {
    GetPointer(TableWord(m, dir, d))
  }

  /** kzalloc of at most a page while a free block is left. */
  method NewPage(h: Heap, size: word, ghost m0: seq<byte>, ghost c0: Chunks, ghost pages: seq<word>) returns (r: word)
    requires Acquired(h, m0, c0, h.mem[..], h.chunks, pages)
    requires 0 < size <= 4096 && FreeSet(h.Flags()) != {}
    modifies h, h.mem
    ensures r % 4096 == 0 && r !in pages && Acquired(h, m0, c0, h.mem[..], h.chunks, pages + [r])
    ensures forall p :: p in pages ==> SamePage(old(h.mem[..]), h.mem[..], p)
    // It is the first free block, and what is in it past the size asked for stays.
    ensures FirstRun(old(h.Flags()), 1, h.AddressToBlock(r))
    ensures forall a :: r + size <= a < r + 4096 ==> Get(h.mem[..], a) == Get(old(h.mem[..]), a)
  {
    hide Outside;
    hide BlocksFor;
    hide KeptOutside;
    hide HeapSpec.FirstRun;
    hide HeapSpec.Marked;
    hide Acquired;
    hide FreeSet;
    ghost var m, c := h.mem[..], h.chunks;
    AcquiredFacts(h, m0, c0, m, c, pages);
    BlocksForExact(size);
    FreeSetGivesRun(h.Flags());
    r := h.Kzalloc(size, false);
    AcquireStep(h, m0, c0, m, c, pages, h.mem[..], h.chunks, size, r);
    NewBlock(h, m, c, h.mem[..], h.chunks, size, r);
  }

  lemma NewBlock(h: Heap, m: seq<byte>, c: Chunks, m2: seq<byte>, c2: Chunks, size: word, r: word)
    requires 0 < size <= 4096 && h.ValidIn(m, c) && h.Zeroed(m, c, m2, c2, size, r)
    ensures FirstRun(h.FlagsIn(m), 1, h.AddressToBlock(r))
    ensures forall a :: r + size <= a < r + 4096 ==> Get(m2, a) == Get(m, a)
  {
    hide HeapSpec.FirstRun;
    BlocksForExact(size);
    PageInPool(h, m2, c2, r, 1);
  }

  lemma WriteInPage(m: seq<byte>, m2: seq<byte>, pages: seq<word>, p: word, lo: int, hi: int)
    requires p in pages && p % 4096 == 0 && p <= lo <= hi <= p + 4096 && SameOutside(m, m2, lo, hi)
    ensures OnlyPages(m, m2, pages)
  {
    forall a | Outside(pages, a) ensures Get(m2, a) == Get(m, a) {
      InPageOf(p, a);
    }
  }

  /** One round of the outer loop of paging_chunk_new. */
  method AddTable(h: Heap, directory: word, i: nat, offset: word, flags: byte,
                  ghost m0: seq<byte>, ghost c0: Chunks, ghost tables: seq<word>) returns (entry: word)
    requires i < 1024 && |tables| == i && offset == 0x40_0000 * i && directory % 4096 == 0
    requires Acquired(h, m0, c0, h.mem[..], h.chunks, [directory] + tables) && FreeSet(h.Flags()) != {}
    requires Filled(h.mem[..], directory, tables, flags)
    modifies h, h.mem
    ensures Acquired(h, m0, c0, h.mem[..], h.chunks, [directory] + (tables + [entry]))
    ensures Filled(h.mem[..], directory, tables + [entry], flags)
    ensures forall j :: i < j < 1024 ==> TableWord(h.mem[..], directory, j) == TableWord(old(h.mem[..]), directory, j)
  {
    hide WordAt;
    hide BitOr;
    hide Acquired;
    hide HeapSpec.FirstRun;
    ghost var pages, m := [directory] + tables, h.mem[..];
    AcquiredFacts(h, m0, c0, m, h.chunks, pages);
    TablePages(h, m0, c0, m, h.chunks, directory, tables);
    entry := NewPage(h, 4 * 1024, m0, c0, pages);
    ghost var pages', m1 := pages + [entry], h.mem[..];
    FilledFrame(m, m1, directory, tables, flags);
    FillTable(h.mem, entry, offset, flags);
    ghost var m2 := h.mem[..];
    WriteInPage(m1, m2, pages', entry, entry, entry + 4096);
    AcquireWrite(h, m0, c0, m1, h.chunks, pages', m2);
    Store32(h.mem, directory + 4 * i, SetFlags(entry, SetFlags(flags, IS_WRITEABLE)));
    WriteInPage(m2, h.mem[..], pages', directory, directory + 4 * i, directory + 4 * i + 4);
    AcquireWrite(h, m0, c0, m2, h.chunks, pages', h.mem[..]);
    DirectoryEntryIsPacked(entry, flags);
    FilledStep(m1, m2, h.mem[..], directory, tables, flags, entry);
    assert directory in pages;
    SameTable(m, m1, directory);
    forall j | i < j < 1024 ensures TableWord(h.mem[..], directory, j) == TableWord(m, directory, j) {
      WordKept(m1, m2, h.mem[..], directory, i, entry, directory, j);
    }
    assert pages' == [directory] + (tables + [entry]);
  }

  /** The pages of a directory in the making are aligned and pairwise different. */
  lemma TablePages(h: Heap, m0: seq<byte>, c0: Chunks, m: seq<byte>, c: Chunks, dir: word, tables: seq<word>)
    requires Acquired(h, m0, c0, m, c, [dir] + tables)
    ensures dir % 4096 == 0 && forall p :: p in tables ==> p % 4096 == 0 && p != dir
    ensures Distinct(tables)
  {
    hide HeapSpec.Encodes;
    hide KeptOutside;
    hide BlocksOf;
    hide FreeSet;
    var pages := [dir] + tables;
    assert pages[0] == dir;
    forall i | 0 <= i < |tables| ensures tables[i] % 4096 == 0 && tables[i] != dir {
      assert pages[i + 1] == tables[i] && pages[i + 1] in pages;
      PageInPool(h, m, c, tables[i], 1);
    }
    assert dir in pages;
    PageInPool(h, m, c, dir, 1);
    forall i, j | 0 <= i < j < |tables| ensures tables[i] != tables[j] {
      assert pages[i + 1] != pages[j + 1];
    }
  }

  /** The descriptor: directory pointer and the two counts. */
  method Describe(h: Heap, directory: word, ghost flags: byte, n: nat, ghost m0: seq<byte>, ghost c0: Chunks, ghost tables: seq<word>)
    returns (chunk: word)
    requires Acquired(h, m0, c0, h.mem[..], h.chunks, [directory] + tables) && Filled(h.mem[..], directory, tables, flags)
    requires |tables| == n <= 1024 && FreeSet(h.Flags()) != {}
    modifies h, h.mem
    ensures Acquired(h, m0, c0, h.mem[..], h.chunks, [directory] + tables + [chunk])
    ensures Filled(h.mem[..], directory, tables, flags) && SamePage(old(h.mem[..]), h.mem[..], directory)
    ensures WordAt(h.mem[..], chunk) == directory && WordAt(h.mem[..], chunk + 4) == n && WordAt(h.mem[..], chunk + 8) == 1024
  {
    hide WordAt;
    hide BitOr;
    hide Acquired;
    hide Filled;
    hide HeapSpec.FirstRun;
    ghost var pages, m := [directory] + tables, h.mem[..];
    AcquiredFacts(h, m0, c0, m, h.chunks, pages);
    TablePages(h, m0, c0, m, h.chunks, directory, tables);
    assert forall q :: q in pages ==> q % 4096 == 0;
    chunk := NewPage(h, 12, m0, c0, pages);
    ghost var m1 := h.mem[..];
    FilledFrame(m, m1, directory, tables, flags);
    StoreDescriptor(h.mem, chunk, directory, n);
    WriteInPage(m1, h.mem[..], pages + [chunk], chunk, chunk, chunk + 12);
    AcquireWrite(h, m0, c0, m1, h.chunks, pages + [chunk], h.mem[..]);
    PagesApart(m1, h.mem[..], chunk, pages);
    FilledFrame(m1, h.mem[..], directory, tables, flags);
    assert directory in pages;
  }

  /** Writing at the start of one page leaves other pages alone. */
  lemma PagesApart(m: seq<byte>, m2: seq<byte>, p: word, pages: seq<word>)
    requires p % 4096 == 0 && p !in pages && (forall q :: q in pages ==> q % 4096 == 0) && SameOutside(m, m2, p, p + 12)
    ensures forall q :: q in pages ==> SamePage(m, m2, q)
  {
    forall q | q in pages ensures SamePage(m, m2, q) {
      assert q % 4096 == 0 && q != p;
    }
  }

  method StoreDescriptor(mem: array<byte>, chunk: word, directory: word, n: word)
    requires mem.Length == 0x1_0000_0000 && chunk % 4096 == 0
    modifies mem
    ensures SameOutside(old(mem[..]), mem[..], chunk, chunk + 12)
    ensures WordAt(mem[..], chunk) == directory && WordAt(mem[..], chunk + 4) == n && WordAt(mem[..], chunk + 8) == 1024
  {
    Store32(mem, chunk, directory);
    ghost var m1 := mem[..];
    Store32(mem, chunk + 4, n);
    SameWord(m1, mem[..], chunk);
    ghost var m2 := mem[..];
    Store32(mem, chunk + 8, 1024);
    SameWord(m2, mem[..], chunk);
    SameWord(m2, mem[..], chunk + 4);
  }

  /** A filled directory has the shape the paging code works on. */
  lemma FilledShape(m: seq<byte>, dir: word, tables: seq<word>, flags: byte)
    requires |tables| <= 1024 && Filled(m, dir, tables, flags) && Distinct(tables)
    requires dir % 4096 == 0 && forall p :: p in tables ==> p % 4096 == 0 && p != dir
    ensures forall d :: 0 <= d < |tables| ==> PointerAt(m, dir, d) == tables[d]
    ensures |tables| == 1024 ==> Shape(m, dir, tables)
  {
    forall d | 0 <= d < |tables| ensures tables[d] % 4096 == 0 && tables[d] != dir && GetPointer(TableWord(m, dir, d)) == tables[d] {
      assert tables[d] in tables;
      DirectoryEntryIsPacked(tables[d], flags);
    }
  }

  /** paging_chunk_new(n, 1024, flags) with room for the n + 2 blocks it takes. The entries behind the first n are
      whatever the directory's block held before. */
  method ChunkNew(h: Heap, n: nat, flags: byte) returns (chunk: word, ghost sp: Space)
    requires h.Valid() && 0 < n <= 1024 && |FreeSet(h.Flags())| >= n + 2
    modifies h, h.mem
    ensures sp.chunk == chunk && |sp.tables| == n && InMemory(h.mem[..], sp) && Filled(h.mem[..], sp.dir, sp.tables, flags)
    ensures n == 1024 ==> Shape(h.mem[..], sp.dir, sp.tables)
    ensures Acquired(h, old(h.mem[..]), old(h.chunks), h.mem[..], h.chunks, sp.Pages())
    ensures FirstRun(old(h.Flags()), 1, h.AddressToBlock(sp.dir))
    ensures forall i :: n <= i < 1024 ==> TableWord(h.mem[..], sp.dir, i) == TableWord(old(h.mem[..]), sp.dir, i)
  {
    hide Acquired;
    hide Filled;
    hide WordAt;
    hide TableWord;
    hide Wrap;
    hide FreeSet;
    hide HeapSpec.FirstRun;
    hide HeapSpec.Encodes;
    ghost var m0, c0 := h.mem[..], h.chunks;
    AcquireNothing(h, m0, c0);
    SomeFree(h.Flags());
    var directory := NewPage(h, 4 * n, m0, c0, []);
    ghost var tables: seq<word> := [];
    assert [] + [directory] == [directory] + tables;
    FilledNothing(h.mem[..], directory, flags);
    WordsBehind(m0, h.mem[..], directory, n);
    WindowStart(0);
    var offset: word := 0;
    var i := 0;
    while i < n
      invariant 0 <= i <= n && |tables| == i && offset == Wrap(0x40_0000 * i)
      invariant Acquired(h, m0, c0, h.mem[..], h.chunks, [directory] + tables)
      invariant Filled(h.mem[..], directory, tables, flags)
      invariant forall j :: n <= j < 1024 ==> TableWord(h.mem[..], directory, j) == TableWord(m0, directory, j)
    {
      AcquiredFacts(h, m0, c0, h.mem[..], h.chunks, [directory] + tables);
      TablePages(h, m0, c0, h.mem[..], h.chunks, directory, tables);
      SomeFree(h.Flags());
      WindowStart(i);
      var entry := AddTable(h, directory, i, offset, flags, m0, c0, tables);
      tables := tables + [entry];
      var next: int := offset;
      offset := Wrap(next + 0x40_0000);
      i := i + 1;
    }
    AcquiredFacts(h, m0, c0, h.mem[..], h.chunks, [directory] + tables);
    TablePages(h, m0, c0, h.mem[..], h.chunks, directory, tables);
    ghost var m1 := h.mem[..];
    SomeFree(h.Flags());
    chunk := Describe(h, directory, flags, n, m0, c0, tables);
    SameTable(m1, h.mem[..], directory);
    sp := Space(chunk, directory, tables);
    FilledShape(h.mem[..], directory, tables, flags);
  }

  lemma SomeFree(f: seq<byte>)
    ensures |FreeSet(f)| > 0 ==> FreeSet(f) != {}
  {
  }

  /** The first address table i maps, and the step to the next one, in 32-bit arithmetic. */
  lemma WindowStart(i: nat)
    requires i < 1024
    ensures Wrap(0x40_0000 * i) == 0x40_0000 * i && Wrap(0x40_0000 * i + 0x40_0000) == Wrap(0x40_0000 * (i + 1))
  {
  }

  lemma WordsBehind(m0: seq<byte>, m: seq<byte>, dir: word, n: nat)
    requires forall a :: dir + 4 * n <= a < dir + 4096 ==> Get(m, a) == Get(m0, a)
    ensures forall j :: n <= j < 1024 ==> TableWord(m, dir, j) == TableWord(m0, dir, j)
  {
    forall j | n <= j < 1024 ensures TableWord(m, dir, j) == TableWord(m0, dir, j) {
      SameWord(m0, m, dir + 4 * j);
    }
  }

  // ---- giving pages back ----

  ghost predicate AllLive(h: Heap, c: Chunks, pages: seq<word>) {
    Distinct(pages) && forall p :: p in pages ==> Live(h, c, p, 1)
  }

  /** From (m0, c0) to (m, c): exactly the chunks of the given pages are gone; memory changed in the flag table only. */
  ghost predicate Released(h: Heap, m0: seq<byte>, c0: Chunks, m: seq<byte>, c: Chunks, pages: seq<word>) {
    && h.ValidIn(m0, c0) && h.ValidIn(m, c)
    && (forall b :: b in c <==> b in c0 && b !in BlocksOf(h, pages))
    && (forall b :: b in c ==> c[b] == c0[b])
    && SameOutside(m0, m, h.table, h.table + h.total)
  }

  // paging_chunk_free follows 1024 directory entries, however many tables there are.

  /** Freeing pointer p loses nothing that is not the space's own: its flag lies behind the table, or is clear, or is
      the flag of one of the space's own blocks. */
  ghost predicate Spared(h: Heap, m: seq<byte>, sp: Space, p: word) {
    var b := h.AddressToBlock(p);
    b >= h.total || h.EntryAt(m, b) == ENTRY_FREE || b in BlocksOf(h, sp.Pages())
  }

  /** The flag of pointer p, if there is one, is clear. */
  ghost predicate FlagClear(h: Heap, m: seq<byte>, p: word) {
    h.AddressToBlock(p) >= h.total || h.EntryAt(m, h.AddressToBlock(p)) == ENTRY_FREE
  }

  /** Part of a space released: the pages in done are gone, and nothing but pages of the space. */
  ghost predicate Releasing(h: Heap, m0: seq<byte>, c0: Chunks, m: seq<byte>, c: Chunks, sp: Space, done: seq<word>) {
    && h.ValidIn(m0, c0) && h.ValidIn(m, c)
    && (forall b :: b in c ==> b in c0 && c[b] == c0[b])
    && (forall b :: b in c0 && b !in BlocksOf(h, sp.Pages()) ==> b in c)
    && (forall p :: p in done ==> h.AddressToBlock(p) !in c)
    && SameOutside(m0, m, h.table, h.table + h.total)
  }

  /** A run swept from the block of p: p's flag is clear, and flags that were clear stay clear. */
  lemma SweepClears(h: Heap, m: seq<byte>, m2: seq<byte>, p: word)
    requires h.Geometry() && |m| == 0x1_0000_0000 && h.Swept(m, m2, h.AddressToBlock(p))
    ensures FlagClear(h, m2, p)
    ensures forall q: word :: FlagClear(h, m, q) ==> FlagClear(h, m2, q)
  {
    forall q: word | h.AddressToBlock(q) < h.total
      ensures h.EntryAt(m2, h.AddressToBlock(q)) == ENTRY_FREE || h.EntryAt(m2, h.AddressToBlock(q)) == h.EntryAt(m, h.AddressToBlock(q))
    {
      h.BlockRange(q);
      h.EntryOfBlock(h.AddressToBlock(q));
    }
    if h.AddressToBlock(p) < h.total {
      h.BlockRange(p);
      h.EntryOfBlock(h.AddressToBlock(p));
    }
  }

  /** Flags lie outside the pool, those in front of the table too if the pool is the kernel's. */
  lemma SweepSparesPage(h: Heap, m: seq<byte>, c: Chunks, m0: seq<byte>, m2: seq<byte>, b: int, p: word)
    requires h.ValidIn(m, c) && Live(h, c, p, 1) && |m0| == 0x1_0000_0000 && h.Swept(m0, m2, b)
    requires b >= 0 || (b >= -0x8_0000 && IsKernelHeap(h))
    ensures SamePage(m0, m2, p)
  {
    PageInPool(h, m, c, p, 1);
  }

  /** Freeing a pointer that is spared. */
  lemma ReleasingStep(h: Heap, m0: seq<byte>, c0: Chunks, m: seq<byte>, c: Chunks, m2: seq<byte>, c2: Chunks, sp: Space, done: seq<word>, p: word)
    requires Releasing(h, m0, c0, m, c, sp, done) && AllLive(h, c0, sp.Pages()) && Spared(h, m0, sp, p)
    requires var b := h.AddressToBlock(p);
      && h.Swept(m, m2, b)
      && (b in c ==> h.ValidIn(m2, c2) && c2 == c - {b} && SameOutside(m, m2, h.table, h.table + h.total))
      && (b >= 0 && !Covered(c, b) ==> m2 == m && c2 == c)
      && (b < 0 ==> h.ValidIn(m2, c2) && c2 == if h.RunEndIn(m, b) > 0 then c - {0} else c)
    ensures Releasing(h, m0, c0, m2, c2, sp, done + [p])
  {
    hide HeapSpec.Encodes;
    var b := h.AddressToBlock(p);
    if b < 0 {
      ClearInFront(h, m0, c0, m, m2, sp, p);
    } else if b !in c {
      SparedIsFree(h, m0, c0, c, sp, p);
    } else {
      SparedIsOwn(h, m0, c0, sp, p);
    }
  }

  /** In front of the table a clear byte stops the sweep at once. */
  lemma ClearInFront(h: Heap, m0: seq<byte>, c0: Chunks, m: seq<byte>, m2: seq<byte>, sp: Space, p: word)
    requires h.ValidIn(m0, c0) && AllLive(h, c0, sp.Pages()) && Spared(h, m0, sp, p) && h.AddressToBlock(p) < 0
    requires SameOutside(m0, m, h.table, h.table + h.total) && h.Swept(m, m2, h.AddressToBlock(p))
    ensures h.RunEndIn(m, h.AddressToBlock(p)) <= 0 && m2 == m
  {
    var b := h.AddressToBlock(p);
    h.BlockRange(p);
    h.EntryOfBlock(b);
    FlagBits(0);
    assert b !in BlocksOf(h, sp.Pages());
    assert h.EntryAt(m, b) == h.EntryAt(m0, b) == ENTRY_FREE;
    assert h.RunEndIn(m, b) == b + 1;
    forall a | 0 <= a < |m| ensures m2[a] == m[a] {
      assert Get(m2, a) == Get(m, a);
    }
  }

  lemma SparedIsOwn(h: Heap, m0: seq<byte>, c0: Chunks, sp: Space, p: word)
    requires h.ValidIn(m0, c0) && Spared(h, m0, sp, p) && h.AddressToBlock(p) in c0
    ensures h.AddressToBlock(p) in BlocksOf(h, sp.Pages())
  {
    var b := h.AddressToBlock(p);
    assert Covered(c0, b);
    h.EntryOfBlock(b);
    FreeIffUncovered(h.FlagsIn(m0), c0, b);
  }

  lemma SparedIsFree(h: Heap, m0: seq<byte>, c0: Chunks, c: Chunks, sp: Space, p: word)
    requires h.ValidIn(m0, c0) && AllLive(h, c0, sp.Pages()) && Spared(h, m0, sp, p) && 0 <= h.AddressToBlock(p) && h.AddressToBlock(p) !in c
    requires forall b :: b in c ==> b in c0 && c[b] == c0[b]
    ensures !Covered(c, h.AddressToBlock(p))
  {
    var b := h.AddressToBlock(p);
    forall t | t in c ensures !(t <= b < t + c[t]) {
      if t < b < t + c[t] {
        InsideIsNotSpared(h, m0, c0, sp, p, t);
      }
    }
  }

  lemma InsideIsNotSpared(h: Heap, m0: seq<byte>, c0: Chunks, sp: Space, p: word, t: nat)
    requires h.ValidIn(m0, c0) && AllLive(h, c0, sp.Pages()) && t in c0 && t < h.AddressToBlock(p) < t + c0[t]
    ensures !Spared(h, m0, sp, p)
  {
    var b := h.AddressToBlock(p);
    assert Covered(c0, b) && b !in c0;
    h.EntryOfBlock(b);
    FreeIffUncovered(h.FlagsIn(m0), c0, b);
    assert forall q :: q in sp.Pages() ==> Live(h, c0, q, 1);
  }

  /** kfree of one pointer of the space; nothing else is lost if it is spared. */
  method FreePointer(h: Heap, p: word, ghost m0: seq<byte>, ghost c0: Chunks, ghost sp: Space, ghost done: seq<word>, ghost sound: bool)
    requires h.ValidIn(m0, c0) && AllLive(h, c0, sp.Pages())
    requires sound ==> Releasing(h, m0, c0, h.mem[..], h.chunks, sp, done) && Spared(h, m0, sp, p)
    requires h.AddressToBlock(p) >= 0 || IsKernelHeap(h)
    modifies h, h.mem
    ensures sound ==> Releasing(h, m0, c0, h.mem[..], h.chunks, sp, done + [p])
    ensures SamePage(old(h.mem[..]), h.mem[..], sp.dir) && SamePage(old(h.mem[..]), h.mem[..], sp.chunk)
    ensures FlagClear(h, h.mem[..], p) && forall q: word :: FlagClear(h, old(h.mem[..]), q) ==> FlagClear(h, h.mem[..], q)
  {
    hide Heap.Swept;
    hide HeapSpec.Encodes;
    hide Spared;
    hide FlagClear;
    ghost var m, c := h.mem[..], h.chunks;
    h.BlockRange(p);
    h.Free(p);
    SpacePages(h, c0, sp);
    SweepClears(h, m, h.mem[..], p);
    SweepSparesPage(h, m0, c0, m, h.mem[..], h.AddressToBlock(p), sp.dir);
    SweepSparesPage(h, m0, c0, m, h.mem[..], h.AddressToBlock(p), sp.chunk);
    if sound {
      if h.AddressToBlock(p) >= 0 && h.AddressToBlock(p) !in c {
        SparedIsFree(h, m0, c0, c, sp, p);
      }
      ReleasingStep(h, m0, c0, m, c, h.mem[..], h.chunks, sp, done, p);
    }
  }

  /** All pages released. */
  lemma AllReleased(h: Heap, m0: seq<byte>, c0: Chunks, m: seq<byte>, c: Chunks, sp: Space, done: seq<word>)
    requires Releasing(h, m0, c0, m, c, sp, done) && forall p :: p in sp.Pages() ==> p in done
    ensures Released(h, m0, c0, m, c, sp.Pages())
  {
    hide HeapSpec.Encodes;
  }

  /** What paging_chunk_free frees, in order. */
  ghost function Pointers(m: seq<byte>, sp: Space): seq<word> {
    seq(1024, i => PointerAt(m, sp.dir, i))
  }

  /** paging_chunk_free. It frees what 1024 directory entries lead to, then the directory and the descriptor: exactly the
      space if the pointers behind its tables are all spared, and in any case every flag they lead to is cleared. */
  method ChunkFree(h: Heap, chunk: word, ghost sp: Space)
    requires h.Valid() && sp.chunk == chunk && InMemory(h.mem[..], sp) && AllLive(h, h.chunks, sp.Pages())
    requires |sp.tables| < 1024 ==> IsKernelHeap(h)
    modifies h, h.mem
    ensures (forall i :: |sp.tables| <= i < 1024 ==> Spared(h, old(h.mem[..]), sp, PointerAt(old(h.mem[..]), sp.dir, i))) ==>
      Released(h, old(h.mem[..]), old(h.chunks), h.mem[..], h.chunks, sp.Pages())
    ensures forall i :: 0 <= i < 1024 ==> FlagClear(h, h.mem[..], PointerAt(old(h.mem[..]), sp.dir, i))
  {
    hide Releasing;
    hide Spared;
    hide FlagClear;
    hide PointerAt;
    hide WordAt;
    hide AllLive;
    hide HeapSpec.Encodes;
    ghost var m0, c0, n := h.mem[..], h.chunks, |sp.tables|;
    ghost var sound := forall i :: n <= i < 1024 ==> Spared(h, m0, sp, PointerAt(m0, sp.dir, i));
    ghost var all := Pointers(m0, sp);
    ReleasingNothing(h, m0, c0, sp);
    var i := 0;
    while i < 1024
      invariant 0 <= i <= 1024 && SamePage(m0, h.mem[..], sp.dir) && SamePage(m0, h.mem[..], sp.chunk)
      invariant sound ==> Releasing(h, m0, c0, h.mem[..], h.chunks, sp, all[..i])
      invariant forall k :: 0 <= k < i ==> FlagClear(h, h.mem[..], all[k])
    {
      FreeEntry(h, chunk, i, m0, c0, sp, all[..i], sound);
      assert all[..i] + [all[i]] == all[..i + 1];
      i := i + 1;
    }
    assert all[..i] == all;
    FreeFrame(h, chunk, m0, c0, sp, all, sound);
    assert forall k :: 0 <= k < 1024 ==> all[k] == PointerAt(m0, sp.dir, k) && FlagClear(h, h.mem[..], all[k]);
    if sound {
      PagesFreed(m0, sp, all);
      AllReleased(h, m0, c0, h.mem[..], h.chunks, sp, all + [sp.dir] + [sp.chunk]);
    }
  }

  /** One round of paging_chunk_free: what directory entry i leads to. */
  method FreeEntry(h: Heap, chunk: word, i: nat, ghost m0: seq<byte>, ghost c0: Chunks, ghost sp: Space, ghost done: seq<word>, ghost sound: bool)
    requires h.ValidIn(m0, c0) && AllLive(h, c0, sp.Pages()) && sp.chunk == chunk && InMemory(m0, sp) && i < 1024
    requires SamePage(m0, h.mem[..], sp.dir) && SamePage(m0, h.mem[..], chunk) && (|sp.tables| < 1024 ==> IsKernelHeap(h))
    requires sound ==> Releasing(h, m0, c0, h.mem[..], h.chunks, sp, done)
    requires sound && i >= |sp.tables| ==> Spared(h, m0, sp, PointerAt(m0, sp.dir, i))
    modifies h, h.mem
    ensures SamePage(m0, h.mem[..], sp.dir) && SamePage(m0, h.mem[..], chunk)
    ensures sound ==> Releasing(h, m0, c0, h.mem[..], h.chunks, sp, done + [PointerAt(m0, sp.dir, i)])
    ensures FlagClear(h, h.mem[..], PointerAt(m0, sp.dir, i))
    ensures forall q: word :: FlagClear(h, old(h.mem[..]), q) ==> FlagClear(h, h.mem[..], q)
  {
    hide Releasing;
    hide Spared;
    hide FlagClear;
    hide WordAt;
    hide GetPointer;
    hide HeapSpec.Encodes;
    SpacePages(h, c0, sp);
    PageInPool(h, m0, c0, sp.dir, 1);
    PageInPool(h, m0, c0, sp.chunk, 1);
    SameWord(m0, h.mem[..], chunk);
    SameWord(m0, h.mem[..], sp.dir + 4 * i);
    var directory := Load32(h.mem, chunk);
    var entry := Load32(h.mem, directory + 4 * i);
    if i < |sp.tables| {
      OwnIsSpared(h, m0, c0, sp, sp.tables[i]);
    }
    FreePointer(h, GetPointer(entry), m0, c0, sp, done, sound);
  }

  /** The end of paging_chunk_free: the directory and the descriptor. */
  method FreeFrame(h: Heap, chunk: word, ghost m0: seq<byte>, ghost c0: Chunks, ghost sp: Space, ghost done: seq<word>, ghost sound: bool)
    requires h.ValidIn(m0, c0) && AllLive(h, c0, sp.Pages()) && sp.chunk == chunk && WordAt(m0, chunk) == sp.dir
    requires SamePage(m0, h.mem[..], chunk) && (sound ==> Releasing(h, m0, c0, h.mem[..], h.chunks, sp, done))
    modifies h, h.mem
    ensures sound ==> Releasing(h, m0, c0, h.mem[..], h.chunks, sp, done + [sp.dir] + [sp.chunk])
    ensures forall q: word :: FlagClear(h, old(h.mem[..]), q) ==> FlagClear(h, h.mem[..], q)
  {
    hide Releasing;
    hide Spared;
    hide FlagClear;
    hide WordAt;
    hide HeapSpec.Encodes;
    SpacePages(h, c0, sp);
    PageInPool(h, m0, c0, sp.chunk, 1);
    SameWord(m0, h.mem[..], chunk);
    var directory := Load32(h.mem, chunk);
    OwnIsSpared(h, m0, c0, sp, sp.dir);
    FreePointer(h, directory, m0, c0, sp, done, sound);
    OwnIsSpared(h, m0, c0, sp, sp.chunk);
    FreePointer(h, chunk, m0, c0, sp, done + [sp.dir], sound);
  }

  lemma ReleasingNothing(h: Heap, m: seq<byte>, c: Chunks, sp: Space)
    requires h.ValidIn(m, c)
    ensures Releasing(h, m, c, m, c, sp, [])
  {
  }

  lemma OwnIsSpared(h: Heap, m: seq<byte>, c: Chunks, sp: Space, p: word)
    requires p in sp.Pages() && AllLive(h, c, sp.Pages())
    ensures Spared(h, m, sp, p) && h.AddressToBlock(p) >= 0
  {
    assert Live(h, c, p, 1);
  }

  lemma PagesFreed(m: seq<byte>, sp: Space, all: seq<word>)
    requires all == Pointers(m, sp) && InMemory(m, sp)
    ensures forall p :: p in sp.Pages() ==> p in all + [sp.dir] + [sp.chunk]
  {
    forall p | p in sp.tables ensures p in all {
      var d :| 0 <= d < |sp.tables| && sp.tables[d] == p;
      assert all[d] == p;
    }
  }

  /** The pages of a space. */
  lemma SpacePages(h: Heap, c: Chunks, sp: Space)
    requires AllLive(h, c, sp.Pages())
    ensures Live(h, c, sp.dir, 1) && Live(h, c, sp.chunk, 1)
    ensures sp.dir in sp.Pages() && sp.chunk in sp.Pages() && forall p :: p in sp.tables ==> p in sp.Pages()
  {
    var pages, n := sp.Pages(), |sp.tables|;
    assert pages[0] == sp.dir && pages[n + 1] == sp.chunk;
  }

  // ---- the two together ----

  /** Releasing what was acquired gives back the chunks and, entry for entry, the flag table. */
  lemma ReleaseUndoesAcquire(h: Heap, m0: seq<byte>, c0: Chunks, m: seq<byte>, c: Chunks, pages: seq<word>,
                             m2: seq<byte>, c2: Chunks, order: seq<word>)
    requires Acquired(h, m0, c0, m, c, pages) && Released(h, m, c, m2, c2, order)
    requires forall p :: p in order <==> p in pages
    ensures c2 == c0 && h.FlagsIn(m2) == h.FlagsIn(m0)
  {
    hide HeapSpec.Encodes;
    hide FreeSet;
    hide KeptOutside;
    assert BlocksOf(h, order) == BlocksOf(h, pages);
    HoldingsUndone(h, c0, c, pages, c2);
    EncodingUnique(h.FlagsIn(m2), h.FlagsIn(m0), c0);
  }

  lemma HoldingsUndone(h: Heap, c0: Chunks, c: Chunks, pages: seq<word>, c2: Chunks)
    requires Holdings(h, c0, c, pages)
    requires forall b :: b in c2 <==> b in c && b !in BlocksOf(h, pages)
    requires forall b :: b in c2 ==> c2[b] == c[b]
    ensures c2 == c0
  {
    hide Live;
    hide Distinct;
    assert forall b :: b in c2 <==> b in c0;
  }

  /** The order in which a set of chunks is freed does not matter. */
  lemma ReleaseOrderIrrelevant(h: Heap, m: seq<byte>, c: Chunks, order1: seq<word>, m1: seq<byte>, c1: Chunks,
                               order2: seq<word>, m2: seq<byte>, c2: Chunks)
    requires Released(h, m, c, m1, c1, order1) && Released(h, m, c, m2, c2, order2)
    requires forall p :: p in order1 <==> p in order2
    ensures c1 == c2 && m1 == m2
  {
    assert BlocksOf(h, order1) == BlocksOf(h, order2);
    assert c1 == c2;
    EncodingUnique(h.FlagsIn(m1), h.FlagsIn(m2), c1);
    forall a | 0 <= a < |m1| ensures m1[a] == m2[a] {
      assert Get(m1, a) == Get(m2, a) by {
        if h.table <= a < h.table + h.total {
          assert h.FlagsIn(m1)[a - h.table] == h.FlagsIn(m2)[a - h.table];
        }
      }
    }
  }

  /** paging_chunk_free after paging_chunk_new with all 1024 tables: the heap is as it was. */
  method NewThenFree(h: Heap, flags: byte)
    requires h.Valid() && |FreeSet(h.Flags())| >= 1026
    modifies h, h.mem
    ensures h.Valid() && h.chunks == old(h.chunks) && h.Flags() == old(h.Flags())
  {
    ghost var m0, c0 := h.mem[..], h.chunks;
    var chunk;
    ghost var sp;
    chunk, sp := ChunkNew(h, 1024, flags);
    ghost var m, c := h.mem[..], h.chunks;
    AcquiredLive(h, m0, c0, m, c, sp.Pages());
    ChunkFree(h, chunk, sp);
    ReleaseUndoesAcquire(h, m0, c0, m, c, sp.Pages(), h.mem[..], h.chunks, sp.Pages());
  }

  /** Every byte kfree can reach as a flag is as it was. */
  ghost predicate FlagsRestored(h: Heap, m0: seq<byte>, m: seq<byte>) {
    forall i :: -0x8_0000 <= i < h.total ==> h.EntryAt(m, i) == h.EntryAt(m0, i)
  }

  /** The same with n tables, on the kernel heap: every flag comes back if and only if each word behind the first n in the
      block that is about to become the directory leads to a clear flag, or to none; and those flags are cleared anyway. */
  method NewThenFreeSome(h: Heap, n: nat, flags: byte) returns (ghost dir: word)
    requires h.Valid() && IsKernelHeap(h) && 0 < n <= 1024 && |FreeSet(h.Flags())| >= n + 2
    modifies h, h.mem
    ensures FirstRun(old(h.Flags()), 1, h.AddressToBlock(dir)) && dir == h.Addr(h.AddressToBlock(dir))
    ensures FlagsRestored(h, old(h.mem[..]), h.mem[..]) <==>
      forall i :: n <= i < 1024 ==> FlagClear(h, old(h.mem[..]), PointerAt(old(h.mem[..]), dir, i))
    ensures FlagsRestored(h, old(h.mem[..]), h.mem[..]) ==> h.Valid() && h.chunks == old(h.chunks)
    ensures forall i :: n <= i < 1024 ==> FlagClear(h, h.mem[..], PointerAt(old(h.mem[..]), dir, i))
  {
    hide Acquired;
    hide Filled;
    hide Released;
    hide Spared;
    hide FlagClear;
    hide GetPointer;
    hide WordAt;
    hide AllLive;
    hide FlagsRestored;
    hide HeapSpec.FirstRun;
    hide HeapSpec.Encodes;
    ghost var m0, c0 := h.mem[..], h.chunks;
    var chunk;
    ghost var sp;
    chunk, sp := ChunkNew(h, n, flags);
    dir := sp.dir;
    ghost var m, c := h.mem[..], h.chunks;
    AcquiredLive(h, m0, c0, m, c, sp.Pages());
    SpacePages(h, c, sp);
    ChunkFree(h, chunk, sp);
    ghost var m2, c2 := h.mem[..], h.chunks;
    assert forall i :: n <= i < 1024 ==> PointerAt(m, dir, i) == PointerAt(m0, dir, i);
    if forall i :: n <= i < 1024 ==> FlagClear(h, m0, PointerAt(m0, dir, i)) {
      forall i | n <= i < 1024 ensures Spared(h, m, sp, PointerAt(m, dir, i)) {
        ClearIsSpared(h, m0, c0, m, c, sp, PointerAt(m0, dir, i));
      }
      ReleaseRestores(h, m0, c0, m, c, sp.Pages(), m2, c2);
    }
    if FlagsRestored(h, m0, m2) {
      forall i | n <= i < 1024 ensures FlagClear(h, m0, PointerAt(m0, dir, i)) {
        RestoredIsClear(h, m0, m2, PointerAt(m0, dir, i));
      }
    }
  }

  /** A pointer to a clear flag stays one, or leads to a page the space was given. */
  lemma ClearIsSpared(h: Heap, m0: seq<byte>, c0: Chunks, m: seq<byte>, c: Chunks, sp: Space, p: word)
    requires Acquired(h, m0, c0, m, c, sp.Pages()) && IsKernelHeap(h) && FlagClear(h, m0, p)
    ensures Spared(h, m, sp, p)
  {
    var b := h.AddressToBlock(p);
    h.BlockRange(p);
    if b < 0 {
      FrontKept(h, m0, c0, m, c, sp.Pages(), b);
    } else if b < h.total {
      StillFree(h, m0, c0, m, c, sp.Pages(), b);
    }
  }

  /** Bytes in front of the table are no pages. */
  lemma FrontKept(h: Heap, m0: seq<byte>, c0: Chunks, m: seq<byte>, c: Chunks, pages: seq<word>, b: int)
    requires Acquired(h, m0, c0, m, c, pages) && IsKernelHeap(h) && -0x8_0000 <= b < 0
    ensures h.EntryAt(m, b) == h.EntryAt(m0, b)
  {
    hide HeapSpec.Encodes;
    h.EntryOfBlock(b);
    var a := h.EntryAddr(b);
    if PageOf(a) in pages {
      PageInPool(h, m, c, PageOf(a), 1);
    }
    assert Outside(pages, a);
  }

  lemma StillFree(h: Heap, m0: seq<byte>, c0: Chunks, m: seq<byte>, c: Chunks, pages: seq<word>, b: nat)
    requires Acquired(h, m0, c0, m, c, pages) && b < h.total && h.EntryAt(m0, b) == ENTRY_FREE
    ensures h.EntryAt(m, b) == ENTRY_FREE || b in BlocksOf(h, pages)
  {
    hide KeptOutside;
    hide Holdings;
    hide BlocksOf;
    hide Covered;
    h.EntryOfBlock(b);
    FlagBits(0);
    FreeIffUncovered(h.FlagsIn(m0), c0, b);
    FreeIffUncovered(h.FlagsIn(m), c, b);
    if Covered(c, b) {
      CoveredByPage(h, c0, c, pages, b);
    }
  }

  lemma CoveredByPage(h: Heap, c0: Chunks, c: Chunks, pages: seq<word>, b: nat)
    requires Holdings(h, c0, c, pages) && Covered(c, b) && !Covered(c0, b)
    ensures b in BlocksOf(h, pages)
  {
    var t :| t in c && t <= b < t + c[t];
    assert t in c0 ==> Covered(c0, b);
    var p :| p in pages && h.AddressToBlock(p) == t;
    assert Live(h, c, p, 1);
  }

  /** Releasing exactly what was acquired restores the flags, in the table and in front of it. */
  lemma ReleaseRestores(h: Heap, m0: seq<byte>, c0: Chunks, m: seq<byte>, c: Chunks, pages: seq<word>, m2: seq<byte>, c2: Chunks)
    requires Acquired(h, m0, c0, m, c, pages) && Released(h, m, c, m2, c2, pages) && IsKernelHeap(h)
    ensures FlagsRestored(h, m0, m2) && h.ValidIn(m2, c2) && c2 == c0
  {
    hide Acquired;
    hide HeapSpec.Encodes;
    AcquiredFacts(h, m0, c0, m, c, pages);
    ReleaseUndoesAcquire(h, m0, c0, m, c, pages, m2, c2, pages);
    forall i | -0x8_0000 <= i < h.total ensures h.EntryAt(m2, i) == h.EntryAt(m0, i) {
      h.EntryOfBlock(i);
      if i < 0 {
        FrontKept(h, m0, c0, m, c, pages, i);
      } else {
        assert h.FlagsIn(m2)[i] == h.FlagsIn(m0)[i];
      }
    }
  }

  lemma RestoredIsClear(h: Heap, m0: seq<byte>, m: seq<byte>, p: word)
    requires FlagsRestored(h, m0, m) && FlagClear(h, m, p)
    ensures FlagClear(h, m0, p)
  {
    h.BlockRange(p);
  }

  lemma AcquiredLive(h: Heap, m0: seq<byte>, c0: Chunks, m: seq<byte>, c: Chunks, pages: seq<word>)
    requires Acquired(h, m0, c0, m, c, pages)
    ensures AllLive(h, c, pages) && h.ValidIn(m, c)
  {
  }

  // ---- what the new directory translates ----

  /** A directory from paging_chunk_new maps every address to itself, and is user-writable exactly if flags say so. */
  lemma IdentityTranslation(m: seq<byte>, dir: word, tables: seq<word>, flags: byte, v: word)
    requires Shape(m, dir, tables) && Filled(m, dir, tables, flags) && Present(flags)
    ensures Translate(m, dir, v) == Physical(v)
    ensures UserWritable(m, dir, v) <==> Writeable(flags) && UserAccess(flags)
  {
    hide WordAt;
    hide GetPointer;
    hide Present;
    hide Writeable;
    hide UserAccess;
    var d, t := v / 0x40_0000, v / 4096 % 1024;
    assert v / 4096 / 1024 == d && 1024 * d + t == v / 4096;
    PteOfTable(m, dir, tables, v / 4096);
    assert Pte(m, dir, v / 4096) == TableWord(m, tables[d], t) == 4096 * (v / 4096) + flags;
    assert TableWord(m, dir, d) == DirectoryEntry(tables[d], flags);
    EntryBits(flags, 0, flags);
    EntryBits(Pte(m, dir, v / 4096), 4096 * (v / 4096), flags);
    EntryBits(TableWord(m, dir, d), tables[d], if flags / 2 % 2 == 1 then flags else flags + 2);
  }

  lemma SecondBit(q: nat, f: nat)
    ensures (4096 * q + f) / 2 % 2 == f / 2 % 2
  {
    assert 4096 * q + f == 2 * (2048 * q + f / 2) + f % 2;
  }

  lemma ThirdBit(q: nat, f: nat)
    ensures (4096 * q + f) / 4 % 2 == f / 4 % 2
  {
    assert 4096 * q + f == 4 * (1024 * q + f / 4) + f % 4;
  }

  /** Flag bits are read off a packed entry whatever its pointer. */
  lemma EntryBits(e: word, p: int, f: int)
    requires p % 4096 == 0 && 0 <= p && 0 <= f < 4096 && e == p + f
    ensures Present(e) <==> f % 2 == 1
    ensures Writeable(e) <==> f / 2 % 2 == 1
    ensures UserAccess(e) <==> f / 4 % 2 == 1
    ensures GetPointer(e) == p
  {
    var q := p / 4096;
    assert e == 4096 * q + f;
    SecondBit(q, f);
    ThirdBit(q, f);
    FirstBit(q, f);
    PointerBits(e, p, f);
    hide GetPointer;
  }

  lemma PointerBits(e: word, p: int, f: int)
    requires p % 4096 == 0 && 0 <= p && 0 <= f < 4096 && e == p + f
    ensures GetPointer(e) == p
  {
  }

  lemma FirstBit(q: nat, f: nat)
    ensures (4096 * q + f) % 2 == f % 2
  {
  }
}
