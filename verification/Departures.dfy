/** Inputs on which the code departs from its intent: each one is met, and what then happens is computed. */
module Departures {
  import opened Words
  import opened HeapSpec
  import opened Heaps
  import opened Paging
  import opened Spaces
  import opened Streams
  import opened Volumes
  import opened Division
  import opened ClusterReads
  import opened Fat16
  import opened Directories
  import opened Kernels
  import opened Tasks

  // ---- heap ----

  /** One block taken, one free: a request for two is answered with the free one, and the mark runs off the table. */
  lemma ShortTail()
    ensures var f: seq<byte>, g: seq<byte> := [0x41, 0], [0x41, 0xC1];
      && Encodes(f, map[0 := 1]) && !HasRun(f, 2) && !LastTaken(f) && TrailingRun(f, 1)
      && Marked(f, g, 1, 2) && forall c :: !Encodes(g, c)
  {
    var f: seq<byte>, g: seq<byte> := [0x41, 0], [0x41, 0xC1];
    FlagBits(0x41);
    FlagBits(0);
    assert !IsFree(f[0]) && IsFree(f[1]);
    assert FreeRun(f, 1, 1);
    var one: Chunks := map[0 := 1];
    assert 0 in one && one[0] == 1 && Covered(one, 0);
    forall c ensures !Encodes(g, c) {
      OverrunEncodesNothing(f, g, 1, 2, c);
    }
  }

  /** At boot already: a request of one block more than the pool has is answered with the start of the pool. */
  lemma WholePool(f: seq<byte>)
    requires Encodes(f, map[]) && |f| == 131072
    ensures BlocksFor(0x2000_1000) == 131073 && !HasRun(f, 131073) && !LastTaken(f) && TrailingRun(f, 0)
  {
    forall i | 0 <= i < |f| ensures IsFree(f[i]) {
      FreeIffUncovered(f, map[], i);
    }
  }

  /** The largest sizes are rounded to no blocks at all. */
  lemma SizeWraps()
    ensures BlocksFor(0xFFFF_F000) == 0xFFFFF && BlocksFor(0xFFFF_F001) == 0
  {
  }

  /** On the heap as booted: one chunk is allocated and kept. A second block is used, given back with the first one's
      address left in it, and becomes the directory of one table; freeing that directory frees the chunk that is kept. */
  method StaleEntry(h: Heap) returns (kept: word, ghost m: seq<byte>, ghost c: Chunks)
    requires h.Valid() && IsKernelHeap(h) && h.chunks == map[]
    modifies h, h.mem
    ensures h.ValidIn(m, c) && Live(h, c, kept, 1)
    ensures h.EntryAt(h.mem[..], h.AddressToBlock(kept)) == ENTRY_FREE && !FlagsRestored(h, m, h.mem[..])
  {
    hide Acquired;
    hide FreeSet;
    hide GetPointer;
    hide WordAt;
    hide FlagsRestored;
    hide HeapSpec.FirstRun;
    hide HeapSpec.Encodes;
    hide Heap.FlagsIn;
    AllFree(h.Flags());
    ghost var m0 := h.mem[..];
    AcquireNothing(h, m0, map[]);
    SomeFree(h.Flags());
    kept := NewPage(h, 4096, m0, map[], []);
    ghost var f := h.Flags();
    c := h.chunks;
    AcquiredFacts(h, m0, map[], h.mem[..], c, [] + [kept]);
    OnlyPage(h, m0, map[], h.mem[..], c, kept);
    ghost var used := LeaveAddress(h, kept);
    m := h.mem[..];
    ghost var dir := NewThenFreeSome(h, 1, 5);
    SameFirst(f, 1, h.AddressToBlock(used), h.AddressToBlock(dir));
    assert PointerAt(m, dir, 1) == kept by { AlignedPointer(kept); }
    LiveIsFlagged(h, m, c, kept);
  }

  /** The first free block allocated, an address written to its second word, and the block given back. */
  method LeaveAddress(h: Heap, kept: word) returns (ghost used: word)
    requires h.Valid() && |FreeSet(h.Flags())| > 0
    modifies h, h.mem
    ensures h.Valid() && h.chunks == old(h.chunks) && h.Flags() == old(h.Flags())
    ensures FirstRun(h.Flags(), 1, h.AddressToBlock(used)) && used == h.Addr(h.AddressToBlock(used))
    ensures WordAt(h.mem[..], used as int + 4) == kept
  {
    hide Acquired;
    hide FreeSet;
    hide WordAt;
    hide HeapSpec.FirstRun;
    hide HeapSpec.Encodes;
    ghost var m1, c := h.mem[..], h.chunks;
    AcquireNothing(h, m1, c);
    SomeFree(h.Flags());
    var page := NewPage(h, 4096, m1, c, []);
    used := page;
    ghost var m2, c2 := h.mem[..], h.chunks;
    OnlyPage(h, m1, c, m2, c2, page);
    Store32(h.mem, page + 4, kept);
    WriteInPage(m2, h.mem[..], [] + [page], page, page + 4, page + 8);
    AcquireWrite(h, m1, c, m2, c2, [] + [page], h.mem[..]);
    ghost var m3 := h.mem[..];
    OnlyPage(h, m1, c, m3, c2, page);
    h.Free(page);
    OneReleased(h, m3, c2, h.mem[..], h.chunks, page);
    ReleaseUndoesAcquire(h, m1, c, m3, c2, [] + [page], h.mem[..], h.chunks, [] + [page]);
    SameWord(m3, h.mem[..], page + 4);
  }

  lemma AlignedPointer(p: word)
    requires p % 4096 == 0
    ensures GetPointer(p) == p
  {
  }

  lemma OnlyPage(h: Heap, m0: seq<byte>, c0: Chunks, m: seq<byte>, c: Chunks, p: word)
    requires Acquired(h, m0, c0, m, c, [] + [p])
    ensures h.ValidIn(m, c) && Live(h, c, p, 1) && p % 4096 == 0 && h.saddr <= p && p as int + 4096 <= h.Addr(h.total)
  {
    hide HeapSpec.Encodes;
    assert p in [] + [p];
    PageInPool(h, m, c, p, 1);
  }

  lemma OneReleased(h: Heap, m: seq<byte>, c: Chunks, m2: seq<byte>, c2: Chunks, p: word)
    requires h.ValidIn(m, c) && h.ValidIn(m2, c2) && c2 == c - {h.AddressToBlock(p)} && SameOutside(m, m2, h.table, h.table + h.total)
    ensures Released(h, m, c, m2, c2, [] + [p])
  {
    hide HeapSpec.Encodes;
    assert [] + [p] == [p];
    assert BlocksOf(h, [p]) == {h.AddressToBlock(p)};
  }

  lemma SameFirst(f: seq<byte>, n: int, s: int, t: int)
    requires FirstRun(f, n, s) && FirstRun(f, n, t)
    ensures s == t
  {
  }

  lemma LiveIsFlagged(h: Heap, m: seq<byte>, c: Chunks, p: word)
    requires h.ValidIn(m, c) && Live(h, c, p, 1)
    ensures h.AddressToBlock(p) < h.total && !FlagClear(h, m, p)
  {
    var b := h.AddressToBlock(p);
    assert Covered(c, b);
    h.EntryOfBlock(b);
    FreeIffUncovered(h.FlagsIn(m), c, b);
    FlagBits(0);
  }

  // ---- files ----

  /** Clusters of one sector, the FAT at byte 512, cluster c at byte 4096 + 512 (c - 2): the chain 2, 3, 4, and on
      to 5 if long; the first bytes of clusters 4 and 5 are 1 and 2. */
  function ChainByte(a: int, long: bool): byte {
    if a == 516 then 3
    else if a == 518 then 4
    else if a == 520 then (if long then 5 else 0xFF)
    else if a == 521 then (if long then 0 else 0xFF)
    else if a == 522 || a == 523 then 0xFF
    else if a == 5120 then 1
    else if a == 5632 then 2
    else 0
  }

  function ChainVolume(long: bool): Volume {
    Volume(a => ChainByte(a, long), 512, 1, 8)
  }

  lemma TheChain(long: bool)
    ensures var v := ChainVolume(long);
      && Walk(v, 2, 1) == At(3) && Walk(v, 2, 2) == At(4)
      && Walk(v, 2, 3) == (if long then At(5) else Lost)
      && v.Bpc() == 512 && v.Address(4) == 5120 && v.Address(5) == 5632
  {
    var v := ChainVolume(long);
    assert v.FatEntry(2) == 3 && v.FatEntry(3) == 4 && v.FatEntry(4) == if long then 5 else 0xFFFF;
    assert Walk(v, 2, 0) == At(2) && Walk(v, 2, 1) == At(3) && Walk(v, 2, 2) == At(4);
  }

  lemma ThreePieces()
    ensures Quot(0, 512) == 0 && Quot(1024, 512) == 2 && Visit(0, 0, 2) == 3
  {
    assert Quot(1024, 512) == 1 + Quot(512, 512) && Quot(512, 512) == 1 + Quot(0, 512);
    assert Visit(0, 0, 2) == Visit(0, 1, 1) == Visit(1, 2, 0);
  }

  /** A file of 1025 bytes on the chain 2, 3, 4 is refused, though the chain holds it. */
  lemma RefusedFile()
    ensures var v := ChainVolume(false);
      && HasChain(v, 2, 3) && Walk(v, 2, 3).Lost? && 2 * v.Bpc() < 1025 <= 3 * v.Bpc()
      && Delivered(v, DirItem(0, 2, 1025)) == Unreadable(1025)
  {
    hide ReadSpec;
    TheChain(false);
    DeliveredExact(ChainVolume(false), DirItem(0, 2, 1025), 3);
  }

  /** On a chain one cluster longer it is delivered with a wrong byte: the last one is taken from cluster 5, not 4. */
  lemma WrongByte()
    ensures var v := ChainVolume(true);
      && Delivered(v, DirItem(0, 2, 1025)).Contents? && Delivered(v, DirItem(0, 2, 1025)).bytes[1024] == 2
      && ReadSpec(v, 2, 0, 1025, true).Data? && ReadSpec(v, 2, 0, 1025, true).bytes[1024] == 1
  {
    hide ReadSpec;
    hide Walk;
    hide Quot;
    hide Rem;
    hide Visit;
    var v := ChainVolume(true);
    TheChain(true);
    ThreePieces();
    WalkZero(v, 2);
    QuotRem(1024);
    WrittenVisits(v, 2, 0, 0, 1025);
    var bytes := ReadSpec(v, 2, 0, 1025, false).bytes;
    assert FromPosition(v, 2, VisitPos(0, 0, Quot(0 + 1024, 512)), Rem(0 + 1024, 512), bytes[1024]);
    RepairedReads(v, 2, 0, 1025);
    assert IsFileByte(v, 2, 0 + 1024, ReadSpec(v, 2, 0, 1025, true).bytes[1024]);
  }

  lemma QuotRem(x: nat)
    ensures Rem(x, 512) == x % 512
  {
    QuotIsDivision(x, 512);
  }

  /** A chain that ends with 0xFFFA, a number from the range the FAT specification has for ends, is walked on. */
  lemma EndNotSeen()
    ensures var v := Volume(a => if a == 516 then 0xFA else if a == 517 then 0xFF else 0, 512, 1, 8);
      v.FatEntry(2) == 0xFFFA && Walk(v, 2, 1) == At(0xFFFA)
  {
    var v := Volume(a => if a == 516 then 0xFA else if a == 517 then 0xFF else 0, 512, 1, 8);
    assert Walk(v, 2, 0) == At(2);
  }

  // ---- directories ----

  /** A directory at cluster 2 of one deleted record, then the file A, then the end. */
  function DirByte(a: int): byte {
    if a == 4096 then 0xE5
    else if a == 4128 then 65
    else if 4097 <= a < 4107 || 4129 <= a < 4139 then 32
    else 0
  }

  const DIR_VOLUME: Volume := Volume(a => DirByte(a), 512, 1, 8)

  /** Its record: the subdirectory bit at byte 11, the first cluster at byte 26. */
  function DirRecord(): Record {
    seq(32, i => if i == 11 then 0x10 else if i == 26 then 2 else 0)
  }

  /** The file lies in the directory, under its own name and not deleted, but what is loaded does not contain it. */
  lemma HiddenByDeleted()
    ensures var v, r, name: seq<byte> := DIR_VOLUME, DirRecord(), [65, 46];
      && IsDirectory(r) && FirstCluster(r) == 2 && v.Address(2) == 4096 && FirstTerminator(v.disk, 4096, 2)
      && !LiveAt(v.disk, 4096, 0) && LiveAt(v.disk, 4096, 1) && NameAt(v.disk, 4096, 1) == name
      && DirOk(v, r) && LoadNode(v, r) == Found(DirNode(Slice(v.disk, 4096, 32)))
      && FindOnDisk(v.disk, 4096, 2, name) == 1 && FindFrom(Slice(v.disk, 4096, 32), 1, name, 0) == 1
  {
    var v, r, name: seq<byte> := DIR_VOLUME, DirRecord(), [65, 46];
    hide Slice;
    hide FullName;
    hide FindFrom;
    hide Walk;
    hide DirByte;
    hide Sound;
    TheRecord();
    TheRecords(v.disk);
    OneCluster(v);
    LoadedDirectory(v, r, 2);
    Names(v.disk);
    FoundByName(v.disk, 4096, 2, 1);
    assert Lowered([0xE5, 46])[0] == 0xE5 && Lowered(name)[0] == 97;
    assert Slice(v.disk, 4096, 32)[..32] == Slice(v.disk, 4096, 32);
    LookupOnDisk(v.disk, 4096, 2, Slice(v.disk, 4096, 32), name);
  }

  lemma TheRecord()
    ensures IsDirectory(DirRecord()) && FirstCluster(DirRecord()) == 2 && DIR_VOLUME.Address(2) == 4096 && DIR_VOLUME.Bpc() == 512
  {
  }

  lemma TheRecords(disk: Disk)
    requires disk == DIR_VOLUME.disk
    ensures FirstTerminator(disk, 4096, 2) && !LiveAt(disk, 4096, 0) && LiveAt(disk, 4096, 1) && CountLive(disk, 4096, 2) == 1
  {
    assert FirstByte(disk, 4096, 0) == 0xE5 && FirstByte(disk, 4096, 1) == 65;
    assert CountLive(disk, 4096, 1) == 0;
  }

  lemma OneCluster(v: Volume)
    requires v == DIR_VOLUME
    ensures Sound(v, 2)
  {
    forall k: nat | Walk(v, 2, k).At? ensures v.Address(Walk(v, 2, k).cluster) >= 0 {
      assert v.FatEntry(2) == 0;
      if k > 0 {
        WalkPrefix(v, 2, 1, k);
        assert Walk(v, 2, 0) == At(2);
      }
    }
  }

  lemma Names(disk: Disk)
    requires disk == DIR_VOLUME.disk
    ensures NameAt(disk, 4096, 1) == [65, 46] && NameAt(disk, 4096, 0) == [0xE5, 46]
  {
    var a, b := Slice(disk, 4096, 32), Slice(disk, 4128, 32);
    Padded(a[..8]);
    Padded(b[..8]);
    assert Trimmed(a[8..11]) == [] == Trimmed(b[8..11]);
  }

  lemma Padded(field: seq<byte>)
    requires |field| > 1 && field[0] != 0 && !IsSpace(field[0]) && IsSpace(field[1])
    ensures Trimmed(field) == [field[0]]
  {
    assert Trimmed(field[1..]) == [];
  }

  // ---- tasks ----

  /** Taking the head of two tasks, and taking their tail, as written. */
  method RemoveFromTwo(tail: bool) returns (s: Scheduler, stray: bool)
    ensures !tail ==> !s.Valid() && !stray
    ensures tail ==> stray
    ensures s.Forward() && |s.list| == 1
  {
    s := new Scheduler();
    var a := new Task(0x1000);
    var b := new Task(0x2000);
    s.Add(a);
    s.Add(b);
    stray := s.Remove(if tail then b else a, false);
  }
}
