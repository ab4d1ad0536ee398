/** Path resolution with its heap traffic: items allocated, followed and released (fat16.c).
    Allocation here goes through the repaired scan, so that a directory too large for the heap is refused. */
module Resolver {
  import opened Words
  import opened HeapSpec
  import opened Heaps
  import opened Spaces
  import opened Ledger
  import opened PathParser
  import opened Streams
  import opened Volumes
  import opened ClusterReads
  import opened Fat16
  import opened Directories

  /** A resolved item in memory: the fat_item at ptr; inner is the record copy or the fat_directory; table holds a directory's records. */
  datatype Item = Item(ptr: word, inner: word, table: word, node: Node)

  /** The chunks an item is made of. */
  ghost function OwnOf(h: Heap, it: Item): Chunks {
    match it.node
    case FileNode(_) => map[Blk(h, it.ptr) := 1, Blk(h, it.inner) := 1]
    case DirNode(bytes) => map[Blk(h, it.ptr) := 1, Blk(h, it.inner) := 1, Blk(h, it.table) := RoundUp(|bytes|)]
  }

  function RoundUp(n: nat): nat {
    if n < 0x1_0000_0000 then BlocksFor(n) else 0
  }

  /** The item is in memory: its chunks are live and different, its words and bytes say node. */
  ghost predicate ItemIn(h: Heap, m: seq<byte>, c: Chunks, it: Item) {
    && |m| == 0x1_0000_0000
    && Live(h, c, it.ptr, 1) && Live(h, c, it.inner, 1) && it.ptr != it.inner
    && WordAt(m, it.ptr) == it.inner
    && match it.node
       case FileNode(r) => WordAt(m, it.ptr + 4) == 1 && |r| == 32 && it.inner + 32 <= |m| && m[it.inner..it.inner + 32] == r
       case DirNode(bytes) =>
         && WordAt(m, it.ptr + 4) == 0
         && it.table != it.ptr && it.table != it.inner && Live(h, c, it.table, RoundUp(|bytes|))
         && WordAt(m, it.inner) == it.table && 32 * WordAt(m, it.inner + 4) == |bytes| && 0 < |bytes| <= 0xFFFFF000
         && it.table + |bytes| <= |m| && m[it.table..it.table + |bytes|] == bytes
  }

  /** An item stays what it is while the heap only grows. */
  lemma ItemGrown(h: Heap, m1: seq<byte>, c1: Chunks, m2: seq<byte>, c2: Chunks, it: Item)
    requires ItemIn(h, m1, c1, it) && Grows(h, m1, c1, m2, c2)
    ensures ItemIn(h, m2, c2, it)
  {
    hide BlocksFor;
    hide Grows;
    hide WordAt;
    hide Live;
    hide Get;
    GrowFacts(h, m1, c1, m2, c2);
    GrowWords(h, m1, c1, m2, c2, it.ptr);
    GrowWords(h, m1, c1, m2, c2, it.inner);
    match it.node {
      case FileNode(_) =>
        GrowBytes(h, m1, c1, m2, c2, it.inner, 1, 32);
      case DirNode(bytes) =>
        BlocksForExact(|bytes|);
        GrowBytes(h, m1, c1, m2, c2, it.table, RoundUp(|bytes|), |bytes|);
    }
  }

  lemma GrowWords(h: Heap, m1: seq<byte>, c1: Chunks, m2: seq<byte>, c2: Chunks, p: word)
    requires Grows(h, m1, c1, m2, c2) && Live(h, c1, p, 1)
    ensures Live(h, c2, p, 1) && WordAt(m2, p) == WordAt(m1, p) && WordAt(m2, p + 4) == WordAt(m1, p + 4)
  {
    hide Grows;
    GrowChunk(h, m1, c1, m2, c2, p, 1);
    SameWord(m1, m2, p);
    SameWord(m1, m2, p + 4);
  }

  lemma GrowBytes(h: Heap, m1: seq<byte>, c1: Chunks, m2: seq<byte>, c2: Chunks, p: word, n: nat, k: nat)
    requires Grows(h, m1, c1, m2, c2) && Live(h, c1, p, n) && k <= 4096 * n
    ensures Live(h, c2, p, n) && |m1| == |m2| && p + k <= |m1| && m2[p..p + k] == m1[p..p + k]
  {
    hide Grows;
    GrowFacts(h, m1, c1, m2, c2);
    PageInPool(h, m1, c1, p, n);
    GrowChunk(h, m1, c1, m2, c2, p, n);
    SameSlice(m1, m2, p, p + k);
  }

  // ---- releasing an item ----

  /** own holds the chunks of it. */
  ghost predicate Holding(h: Heap, own: Chunks, it: Item) {
    forall b :: b in OwnOf(h, it) ==> b in own && own[b] == OwnOf(h, it)[b]
  }

  /** fat16_free_directory: the records, then the directory itself. */
  method FreeDirectory(h: Heap, d: word, ghost table: word, ghost n: nat, ghost m0: seq<byte>, ghost c0: Chunks, ghost own: Chunks)
    requires Gains(h, m0, c0, h.mem[..], h.chunks, own)
    requires WordAt(h.mem[..], d) == table > 0 && table != d && Live(h, h.chunks, d, 1) && Live(h, h.chunks, table, n)
    requires Blk(h, d) in own && own[Blk(h, d)] == 1 && Blk(h, table) in own && own[Blk(h, table)] == n
    modifies h, h.mem
    ensures Gains(h, m0, c0, h.mem[..], h.chunks, own - {Blk(h, table)} - {Blk(h, d)})
    ensures h.chunks == old(h.chunks) - {Blk(h, table)} - {Blk(h, d)}
    ensures SameOutside(old(h.mem[..]), h.mem[..], h.table, h.table + h.total)
  {
    hide Gains;
    hide WordAt;
    GainsFacts(h, m0, c0, h.mem[..], h.chunks, own);
    PageInPool(h, h.mem[..], h.chunks, d, 1);
    DifferentBlocks(h, h.chunks, table, n, d, 1);
    var records := Load32(h.mem, d);
    if records != 0 {
      Release(h, records, m0, c0, own);
    }
    Release(h, d, m0, c0, own - {Blk(h, table)});
  }

  /** fat16_fat_item_free */
  method ItemFree(h: Heap, ptr: word, ghost it: Item, ghost m0: seq<byte>, ghost c0: Chunks, ghost own: Chunks)
    requires it.ptr == ptr && ItemIn(h, h.mem[..], h.chunks, it) && Holding(h, own, it)
    requires Gains(h, m0, c0, h.mem[..], h.chunks, own)
    modifies h, h.mem
    ensures Gains(h, m0, c0, h.mem[..], h.chunks, own - OwnOf(h, it).Keys)
    ensures h.chunks == old(h.chunks) - OwnOf(h, it).Keys
    ensures SameOutside(old(h.mem[..]), h.mem[..], h.table, h.table + h.total)
  {
    hide RoundUp;
    hide Gains;
    hide WordAt;
    ghost var c := h.chunks;
    ItemAddresses(h, m0, c0, h.mem[..], c, own, it);
    var kind := Load32(h.mem, ptr + 4);
    var inner := Load32(h.mem, ptr);
    DifferentBlocks(h, c, inner, 1, ptr, 1);
    if kind == 0 {
      ghost var n := RoundUp(|it.node.bytes|);
      DifferentBlocks(h, c, it.table, n, ptr, 1);
      DifferentBlocks(h, c - {Blk(h, it.table)}, inner, 1, ptr, 1);
      FreeDirectory(h, inner, it.table, n, m0, c0, own);
      Release(h, ptr, m0, c0, own - {Blk(h, it.table)} - {Blk(h, inner)});
      assert own - {Blk(h, it.table)} - {Blk(h, inner)} - {Blk(h, ptr)} == own - OwnOf(h, it).Keys;
      assert c - {Blk(h, it.table)} - {Blk(h, inner)} - {Blk(h, ptr)} == c - OwnOf(h, it).Keys;
    } else {
      Release(h, inner, m0, c0, own);
      Release(h, ptr, m0, c0, own - {Blk(h, inner)});
      assert own - {Blk(h, inner)} - {Blk(h, ptr)} == own - OwnOf(h, it).Keys;
      assert c - {Blk(h, inner)} - {Blk(h, ptr)} == c - OwnOf(h, it).Keys;
    }
  }

  /** An item's pointers are proper heap addresses. */
  lemma ItemAddresses(h: Heap, m0: seq<byte>, c0: Chunks, m: seq<byte>, c: Chunks, own: Chunks, it: Item)
    requires Gains(h, m0, c0, m, c, own) && ItemIn(h, m, c, it)
    ensures h.mem.Length == 0x1_0000_0000
    ensures it.ptr % 4096 == 0 && it.ptr + 4096 <= 0x1_0000_0000 && it.inner % 4096 == 0 && it.inner + 4096 <= 0x1_0000_0000
    ensures it.node.DirNode? ==> it.table > 0
  {
    PageInPool(h, m, c, it.ptr, 1);
    PageInPool(h, m, c, it.inner, 1);
    if it.node.DirNode? {
      PageInPool(h, m, c, it.table, RoundUp(|it.node.bytes|));
    }
  }

  // ---- building an item ----

  /** A directory's struct and records in memory. */
  ghost predicate DirectoryIn(h: Heap, m: seq<byte>, c: Chunks, d: word, table: word, bytes: seq<byte>) {
    && |m| == 0x1_0000_0000 && d != table && Live(h, c, d, 1) && Live(h, c, table, RoundUp(|bytes|))
    && WordAt(m, d) == table && 32 * WordAt(m, d + 4) == |bytes| && 0 < |bytes| <= 0xFFFFF000
    && table + |bytes| <= |m| && m[table..table + |bytes|] == bytes
  }

  /** How a lookup ends: with an item, without one, with a directory that cannot be loaded, or without memory. */
  datatype Status = Ok | NotThere | Broken | Starved

  /** The one way to end when memory is met or not, and this is the answer. */
  function Verdict(met: bool, answer: Answer): (s: Status)
    ensures s.Starved? <==> !met
    ensures met ==> (s.Ok? <==> answer.Found?) && (s.NotThere? <==> answer.NotFound?) && (s.Broken? <==> answer.BadDirectory?)
  {
    if !met then Starved
    else match answer
      case Found(_) => Ok
      case NotFound => NotThere
      case BadDirectory => Broken
  }

  /** The blocks requested for a directory: its struct, and its records if it has any. */
  ghost function DirRequests(vol: Volume, rec: Record): seq<nat>
    requires IsDirectory(rec) && DirOk(vol, rec)
  {
    [1] + RecordRequests(Counted(vol.disk, vol.Address(FirstCluster(rec))))
  }

  function RecordRequests(count: nat): seq<nat> {
    if count == 0 then [] else [RoundUp(32 * count)]
  }

  /** The blocks requested for an item: its struct, and then the record copy or the directory. */
  ghost function ItemRequests(vol: Volume, rec: Record): seq<nat>
    requires DirOk(vol, rec)
  {
    [1] + if IsDirectory(rec) then DirRequests(vol, rec) else [1]
  }

  /** Meeting the requests ns takes no more than their blocks from a free tail. */
  ghost predicate TailPays(f: seq<byte>, g: seq<byte>, ns: seq<nat>) {
    forall l :: l >= Sum(ns) && LastFree(f, l) ==> LastFree(g, l - Sum(ns))
  }

  lemma PayOne(f: seq<byte>, g1: seq<byte>, g: seq<byte>, n: nat, ns: seq<nat>)
    requires FirstFit(f, g1, n) && TailPays(g1, g, ns)
    ensures TailPays(f, g, [n] + ns)
  {
    hide LastFree;
    hide FirstFit;
    assert ([n] + ns)[1..] == ns;
    forall l | l >= Sum([n] + ns) && LastFree(f, l) ensures LastFree(g, l - Sum([n] + ns)) {
      TailAfter(f, g1, n, l);
      assert l - n - Sum(ns) == l - Sum([n] + ns);
    }
  }

  lemma PayNothing(f: seq<byte>)
    ensures TailPays(f, f, []) && Meets(f, [])
  {
  }

  /** fat16_load_fat_directory: it ends as the requests and the records on disk say; on failure everything allocated
      is given back. */
  method LoadDirectory(h: Heap, drv: Driver, rec: Record, ghost m0: seq<byte>, ghost c0: Chunks, ghost own: Chunks)
    returns (status: Status, d: word, ghost table: word, ghost bytes: seq<byte>)
    requires drv.Valid() && IsDirectory(rec) && DirOk(drv.vol, rec) && Gains(h, m0, c0, h.mem[..], h.chunks, own)
    modifies h, h.mem, drv.clusterStream, drv.fatStream, drv.directoryStream
    ensures status == Verdict(Meets(old(h.Flags()), DirRequests(drv.vol, rec)), LoadNode(drv.vol, rec))
    ensures status.Ok? ==> LoadNode(drv.vol, rec) == Found(DirNode(bytes)) && DirectoryIn(h, h.mem[..], h.chunks, d, table, bytes)
    ensures status.Ok? ==> Blk(h, d) !in own && Blk(h, table) !in own
    ensures status.Ok? ==> Gains(h, m0, c0, h.mem[..], h.chunks, own[Blk(h, d) := 1][Blk(h, table) := RoundUp(|bytes|)])
    ensures status.Ok? ==> TailPays(old(h.Flags()), h.Flags(), DirRequests(drv.vol, rec))
    ensures !status.Ok? ==> Gains(h, m0, c0, h.mem[..], h.chunks, own)
  {
    hide Gains;
    hide Grows;
    hide WordAt;
    hide BlocksFor;
    hide LoadNode;
    hide Live;
    hide Blk;
    hide DirOk;
    hide Meets;
    hide FirstFit;
    hide TailPays;
    hide HeapSpec.HasRun;
    hide HeapSpec.Encodes;
    hide Heap.FlagsIn;
    hide Counted;
    d, table, bytes := 0, 0, [];
    GainsFacts(h, m0, c0, h.mem[..], h.chunks, own);
    CanCount(drv.vol, rec);
    ghost var m1, f0, f1, n := h.mem[..], h.Flags(), h.Flags(), Counted(drv.vol.disk, drv.vol.Address(FirstCluster(rec)));
    OneBlock(16);
    d := Obtain(h, 16, true, m0, c0, own);
    if d == 0 {
      RunMissing(f0, 1, RecordRequests(n));
      return Starved, d, table, bytes;
    }
    ghost var own1 := own[Blk(h, d) := 1];
    f1 := h.Flags();
    MeetsStep(f0, f1, 1, RecordRequests(n));
    var count := CountRecords(drv, rec);
    m1 := h.mem[..];
    SetWord(h, d, 1, 4, count, m0, c0, own1);
    KeptFlags(h, m0, c0, m1, h.mem[..], h.chunks, own1);
    status, table, bytes := LoadRecords(h, drv, rec, d, count, m0, c0, own);
    if status.Ok? {
      PayOne(f0, f1, h.Flags(), 1, RecordRequests(n));
    }
  }

  /** The second half: the records, into a chunk of their own; on failure the directory goes back too. */
  method LoadRecords(h: Heap, drv: Driver, rec: Record, d: word, count: nat, ghost m0: seq<byte>, ghost c0: Chunks, ghost own: Chunks)
    returns (status: Status, ghost table: word, ghost bytes: seq<byte>)
    requires drv.Valid() && IsDirectory(rec) && Sound(drv.vol, FirstCluster(rec)) && 32 * count <= 0x7FFF_FFFF && DirOk(drv.vol, rec)
    requires LoadsAs(drv.vol, rec, count)
    requires Gains(h, m0, c0, h.mem[..], h.chunks, own[Blk(h, d) := 1]) && Blk(h, d) !in own
    requires Live(h, h.chunks, d, 1) && WordAt(h.mem[..], d + 4) == count
    modifies h, h.mem, drv.clusterStream, drv.fatStream
    ensures status == Verdict(Meets(old(h.Flags()), RecordRequests(count)), LoadNode(drv.vol, rec))
    ensures status.Ok? ==> LoadNode(drv.vol, rec) == Found(DirNode(bytes)) && DirectoryIn(h, h.mem[..], h.chunks, d, table, bytes)
    ensures status.Ok? ==> Blk(h, table) !in own
    ensures status.Ok? ==> Gains(h, m0, c0, h.mem[..], h.chunks, own[Blk(h, d) := 1][Blk(h, table) := RoundUp(|bytes|)])
    ensures status.Ok? ==> TailPays(old(h.Flags()), h.Flags(), RecordRequests(count))
    ensures !status.Ok? ==> Gains(h, m0, c0, h.mem[..], h.chunks, own)
  {
    hide Gains;
    hide Grows;
    hide WordAt;
    hide BlocksFor;
    hide LoadNode;
    hide ReadSpec;
    hide Sound;
    hide Live;
    hide Blk;
    hide DirOk;
    hide Meets;
    hide FirstFit;
    hide TailPays;
    hide HeapSpec.HasRun;
    hide HeapSpec.Encodes;
    hide Heap.FlagsIn;
    table, bytes := 0, [];
    ghost var own1 := own[Blk(h, d) := 1];
    assert own1 - {Blk(h, d)} == own;
    GainsFacts(h, m0, c0, h.mem[..], h.chunks, own1);
    ghost var m1, c1, f1 := h.mem[..], h.chunks, h.Flags();
    if count == 0 {
      PayNothing(f1);
      Release(h, d, m0, c0, own1);
      return Broken, table, bytes;
    }
    assert [RoundUp(32 * count)] + [] == RecordRequests(count);
    var records := Obtain(h, 32 * count, true, m0, c0, own1);
    if records == 0 {
      RunMissing(f1, RoundUp(32 * count), []);
      Release(h, d, m0, c0, own1);
      return Starved, table, bytes;
    }
    ghost var m2, f2 := h.mem[..], h.Flags();
    MeetsStep(f1, f2, RoundUp(32 * count), []);
    PayNothing(f2);
    PayOne(f1, f2, f2, RoundUp(32 * count), []);
    GrowWords(h, m1, c1, m2, h.chunks, d);
    table := records;
    ghost var own2 := own1[Blk(h, table) := BlocksFor(32 * count)];
    var ok;
    ok, bytes := FillDirectory(h, drv, d, records, FirstCluster(rec), count, m0, c0, own1);
    KeptFlags(h, m0, c0, m2, h.mem[..], h.chunks, own2);
    status := if ok then Ok else Broken;
    if !ok {
      FreeDirectory(h, d, table, BlocksFor(32 * count), m0, c0, own2);
      assert own2 - {Blk(h, table)} - {Blk(h, d)} == own;
    }
  }

  lemma CanCount(vol: Volume, rec: Record)
    requires IsDirectory(rec) && DirOk(vol, rec)
    ensures Terminated(vol.disk, vol.Address(FirstCluster(rec)))
  {
  }

  /** What loading the directory comes to when its count is known. */
  ghost predicate LoadsAs(vol: Volume, rec: Record, count: nat)
    requires vol.spc > 0 && DirOk(vol, rec)
  {
    LoadNode(vol, rec) ==
      if count == 0 || ReadSpec(vol, FirstCluster(rec), 0, 32 * count, false).Failed? then BadDirectory
      else Found(DirNode(ReadSpec(vol, FirstCluster(rec), 0, 32 * count, false).bytes))
  }

  /** The count of the directory a record names, and what it means for loading it. */
  method CountRecords(drv: Driver, rec: Record) returns (count: nat)
    requires drv.Valid() && IsDirectory(rec) && DirOk(drv.vol, rec)
    modifies drv.directoryStream
    ensures Sound(drv.vol, FirstCluster(rec)) && 32 * count <= 0x7FFF_FFFF
    ensures count == Counted(drv.vol.disk, drv.vol.Address(FirstCluster(rec)))
    ensures LoadsAs(drv.vol, rec, count)
  {
    hide Sound;
    hide ReadSpec;
    hide Counted;
    var cluster := FirstCluster(rec);
    assert Walk(drv.vol, cluster, 0) == At(cluster);
    assert drv.vol.Address(cluster) >= 0 by { SoundStart(drv.vol, cluster); }
    var sector := drv.vol.dataSector + (cluster - 2) * drv.vol.spc;
    assert sector * 512 == drv.vol.Address(cluster);
    ghost var t: nat :| FirstTerminator(drv.vol.disk, sector * 512, t);
    count := CountItems(drv, sector, t);
    CountedIs(drv.vol.disk, sector * 512, t);
  }

  lemma SoundStart(vol: Volume, c: int)
    requires Sound(vol, c)
    ensures vol.Address(c) >= 0
  {
    assert Walk(vol, c, 0) == At(c);
  }

  /** The records read into their chunk. */
  method FillDirectory(h: Heap, drv: Driver, d: word, records: word, cluster: nat, count: nat, ghost m0: seq<byte>, ghost c0: Chunks, ghost own1: Chunks)
    returns (ok: bool, ghost bytes: seq<byte>)
    requires drv.Valid() && Sound(drv.vol, cluster) && 0 < 32 * count <= 0x7FFF_FFFF
    requires Gains(h, m0, c0, h.mem[..], h.chunks, own1[Blk(h, records) := BlocksFor(32 * count)])
    requires Live(h, h.chunks, d, 1) && Live(h, h.chunks, records, BlocksFor(32 * count)) && d != records
    requires Blk(h, d) in own1 && WordAt(h.mem[..], d + 4) == count
    modifies h.mem, drv.clusterStream, drv.fatStream
    ensures Gains(h, m0, c0, h.mem[..], h.chunks, own1[Blk(h, records) := BlocksFor(32 * count)])
    ensures WordAt(h.mem[..], d) == records > 0 && WordAt(h.mem[..], d + 4) == count
    ensures match ReadSpec(drv.vol, cluster, 0, 32 * count, false)
      case Failed => !ok
      case Data(b) => ok && bytes == b && DirectoryIn(h, h.mem[..], h.chunks, d, records, bytes)
  {
    hide Gains;
    hide WordAt;
    hide BlocksFor;
    hide Sound;
    hide ReadSpec;
    hide Placed;
    hide KeptAround;
    hide Live;
    hide Blk;
    hide Heap.FlagsIn;
    hide HeapSpec.Encodes;
    ghost var own2, n := own1[Blk(h, records) := BlocksFor(32 * count)], BlocksFor(32 * count);
    BlocksForExact(32 * count);
    GainsFacts(h, m0, c0, h.mem[..], h.chunks, own2);
    PageInPool(h, h.mem[..], h.chunks, records, n);
    PageInPool(h, h.mem[..], h.chunks, d, 1);
    ghost var m2 := h.mem[..];
    SetWord(h, d, 1, 0, records, m0, c0, own2);
    SameWord(m2, h.mem[..], d + 4);
    ghost var m3 := h.mem[..];
    GainsFacts(h, m0, c0, m3, h.chunks, own2);
    var res := drv.ReadInternal(cluster, 0, 32 * count, h.mem, records, false);
    KeptIsSame(m3, h.mem[..], records, 32 * count);
    GainsWrite(h, m0, c0, m3, h.chunks, own2, h.mem[..], records, n, records, records + 32 * count);
    OtherChunk(h, m3, h.chunks, h.mem[..], records, n, records, records + 32 * count, d, 1);
    SameWord(m3, h.mem[..], d);
    SameWord(m3, h.mem[..], d + 4);
    ok := res >= 0;
    bytes := if ok then ReadSpec(drv.vol, cluster, 0, 32 * count, false).bytes else [];
    if ok {
      PlacedSlice(m3, h.mem[..], records, bytes);
    }
  }

  /** One file record copied into its chunk. */
  method CopyRecord(mem: array<byte>, a: word, rec: Record)
    requires a + |rec| <= mem.Length
    modifies mem
    ensures mem[a..a + |rec|] == rec && SameOutside(old(mem[..]), mem[..], a, a + |rec|)
  {
    var i := 0;
    while i < |rec|
      invariant 0 <= i <= |rec|
      invariant forall x :: 0 <= x < mem.Length ==> mem[x] == if a <= x < a + i then rec[x - a] else old(mem[x])
    {
      mem[a + i] := rec[i];
      i := i + 1;
    }
  }

  /** The two words of a fat_item; the first k bytes of another live chunk, and its first two words, stay. */
  method SetHeader(h: Heap, ptr: word, inner: word, kind: word, ghost m0: seq<byte>, ghost c0: Chunks, ghost own: Chunks)
    requires Gains(h, m0, c0, h.mem[..], h.chunks, own) && Live(h, h.chunks, ptr, 1) && Blk(h, ptr) in own
    modifies h.mem
    ensures Gains(h, m0, c0, h.mem[..], h.chunks, own)
    ensures WordAt(h.mem[..], ptr) == inner && WordAt(h.mem[..], ptr + 4) == kind
    ensures SameOutside(old(h.mem[..]), h.mem[..], ptr, ptr + 8)
  {
    hide Gains;
    hide WordAt;
    SetWord(h, ptr, 1, 0, inner, m0, c0, own);
    ghost var m2 := h.mem[..];
    SetWord(h, ptr, 1, 4, kind, m0, c0, own);
    SameWord(m2, h.mem[..], ptr);
  }

  /** Bytes of one chunk survive a write to another. */
  lemma OtherBytes(h: Heap, m: seq<byte>, c: Chunks, m2: seq<byte>, ptr: word, q: word, n: nat, k: nat)
    requires h.ValidIn(m, c) && Live(h, c, ptr, 1) && Live(h, c, q, n) && ptr != q && k <= 4096 * n
    requires SameOutside(m, m2, ptr, ptr + 8)
    ensures q + k <= |m2| == |m| && m2[q..q + k] == m[q..q + k]
    ensures WordAt(m2, q) == WordAt(m, q) && WordAt(m2, q + 4) == WordAt(m, q + 4)
  {
    PageInPool(h, m, c, q, n);
    OtherChunk(h, m, c, m2, ptr, 1, ptr, ptr + 8, q, n);
    SameSlice(m, m2, q, q + k);
    SameWord(m, m2, q);
    SameWord(m, m2, q + 4);
  }

  /** A file item: the record copied, then the header. */
  method NewFileItem(h: Heap, rec: Record, ptr: word, ghost m0: seq<byte>, ghost c0: Chunks, ghost own1: Chunks)
    returns (ok: bool, ghost it: Item)
    requires |rec| == 32 && Gains(h, m0, c0, h.mem[..], h.chunks, own1)
    requires Live(h, h.chunks, ptr, 1) && own1 == map[Blk(h, ptr) := 1]
    modifies h, h.mem
    ensures h.Valid()
    ensures ok <==> Meets(old(h.Flags()), [1])
    ensures ok ==> it.ptr == ptr && it.node == FileNode(rec) && ItemIn(h, h.mem[..], h.chunks, it)
    ensures ok ==> Gains(h, m0, c0, h.mem[..], h.chunks, OwnOf(h, it)) && TailPays(old(h.Flags()), h.Flags(), [1])
    ensures !ok ==> Gains(h, m0, c0, h.mem[..], h.chunks, own1)
  {
    hide Gains;
    hide Grows;
    hide WordAt;
    hide BlocksFor;
    hide Meets;
    hide FirstFit;
    hide TailPays;
    hide HeapSpec.HasRun;
    hide HeapSpec.Encodes;
    hide Heap.FlagsIn;
    GainsFacts(h, m0, c0, h.mem[..], h.chunks, own1);
    ghost var m2, c2, f0 := h.mem[..], h.chunks, h.Flags();
    ok, it := false, Item(ptr, 0, 0, FileNode(rec));
    OneBlock(32);
    assert [1] + [] == [1];
    var inner := Obtain(h, 32, true, m0, c0, own1);
    if inner == 0 {
      RunMissing(f0, 1, []);
      return;
    }
    ghost var own2, m3 := own1[Blk(h, inner) := 1], h.mem[..];
    MeetsStep(f0, h.Flags(), 1, []);
    PayNothing(h.Flags());
    PayOne(f0, h.Flags(), h.Flags(), 1, []);
    GrowChunk(h, m2, c2, m3, h.chunks, ptr, 1);
    GainsFacts(h, m0, c0, m3, h.chunks, own2);
    WriteFileItem(h, rec, ptr, inner, m0, c0, own2);
    KeptFlags(h, m0, c0, m3, h.mem[..], h.chunks, own2);
    GainsFacts(h, m0, c0, h.mem[..], h.chunks, own2);
    ok, it := true, Item(ptr, inner, 0, FileNode(rec));
    assert OwnOf(h, it) == own2;
  }

  /** The record copied into its chunk, and the header that leads to it. */
  method WriteFileItem(h: Heap, rec: Record, ptr: word, inner: word, ghost m0: seq<byte>, ghost c0: Chunks, ghost own2: Chunks)
    requires |rec| == 32 && Gains(h, m0, c0, h.mem[..], h.chunks, own2) && Blk(h, ptr) in own2 && Blk(h, inner) in own2
    requires Live(h, h.chunks, ptr, 1) && Live(h, h.chunks, inner, 1) && ptr != inner
    modifies h.mem
    ensures Gains(h, m0, c0, h.mem[..], h.chunks, own2)
    ensures ItemIn(h, h.mem[..], h.chunks, Item(ptr, inner, 0, FileNode(rec)))
  {
    hide Gains;
    hide WordAt;
    hide HeapSpec.Encodes;
    ghost var m3 := h.mem[..];
    GainsFacts(h, m0, c0, m3, h.chunks, own2);
    PageInPool(h, m3, h.chunks, inner, 1);
    CopyRecord(h.mem, inner, rec);
    GainsWrite(h, m0, c0, m3, h.chunks, own2, h.mem[..], inner, 1, inner, inner + 32);
    ghost var m4 := h.mem[..];
    GainsFacts(h, m0, c0, m4, h.chunks, own2);
    SetHeader(h, ptr, inner, 1, m0, c0, own2);
    OtherBytes(h, m4, h.chunks, h.mem[..], ptr, inner, 1, 32);
    GainsFacts(h, m0, c0, h.mem[..], h.chunks, own2);
  }

  /** A directory item: the directory loaded, then the header. */
  method NewDirectoryItem(h: Heap, drv: Driver, rec: Record, ptr: word, ghost m0: seq<byte>, ghost c0: Chunks, ghost own1: Chunks)
    returns (status: Status, ghost it: Item)
    requires drv.Valid() && IsDirectory(rec) && DirOk(drv.vol, rec) && Gains(h, m0, c0, h.mem[..], h.chunks, own1)
    requires Live(h, h.chunks, ptr, 1) && own1 == map[Blk(h, ptr) := 1]
    modifies h, h.mem, drv.clusterStream, drv.fatStream, drv.directoryStream
    ensures h.Valid()
    ensures status == Verdict(Meets(old(h.Flags()), DirRequests(drv.vol, rec)), LoadNode(drv.vol, rec))
    ensures status.Ok? ==> it.ptr == ptr && LoadNode(drv.vol, rec) == Found(it.node) && ItemIn(h, h.mem[..], h.chunks, it)
    ensures status.Ok? ==> Gains(h, m0, c0, h.mem[..], h.chunks, OwnOf(h, it))
    ensures status.Ok? ==> TailPays(old(h.Flags()), h.Flags(), DirRequests(drv.vol, rec))
    ensures !status.Ok? ==> Gains(h, m0, c0, h.mem[..], h.chunks, own1)
  {
    hide Gains;
    hide Grows;
    hide WordAt;
    hide BlocksFor;
    hide DirOk;
    hide LoadNode;
    hide DirRequests;
    hide Meets;
    hide TailPays;
    hide ItemIn;
    hide DirectoryIn;
    hide Live;
    hide Blk;
    hide HeapSpec.Encodes;
    hide Heap.FlagsIn;
    it := Item(ptr, 0, 0, FileNode([]));
    ghost var c1, table, bytes := h.chunks, 0, [];
    var d;
    status, d, table, bytes := LoadDirectory(h, drv, rec, m0, c0, own1);
    if !status.Ok? {
      GainsFacts(h, m0, c0, h.mem[..], h.chunks, own1);
      return;
    }
    ghost var own2, m3 := own1[Blk(h, d) := 1][Blk(h, table) := RoundUp(|bytes|)], h.mem[..];
    GainsFacts(h, m0, c0, m3, h.chunks, own2);
    HeldLive(h, c1, h.chunks, ptr, own2);
    SetHeader(h, ptr, d, 0, m0, c0, own2);
    KeptFlags(h, m0, c0, m3, h.mem[..], h.chunks, own2);
    HeaderMakesItem(h, m3, h.chunks, h.mem[..], ptr, d, table, bytes);
    GainsFacts(h, m0, c0, h.mem[..], h.chunks, own2);
    it := Item(ptr, d, table, DirNode(bytes));
    assert OwnOf(h, it) == own2;
  }

  lemma HeldLive(h: Heap, c1: Chunks, c: Chunks, p: word, own: Chunks)
    requires Live(h, c1, p, 1) && Blk(h, p) in own && own[Blk(h, p)] == 1
    requires forall b :: b in own ==> b in c && c[b] == own[b]
    ensures Live(h, c, p, 1)
  {
  }

  /** A directory in memory with a header that leads to it is an item. */
  lemma HeaderMakesItem(h: Heap, m: seq<byte>, c: Chunks, m2: seq<byte>, ptr: word, d: word, table: word, bytes: seq<byte>)
    requires h.ValidIn(m, c) && DirectoryIn(h, m, c, d, table, bytes) && Live(h, c, ptr, 1) && ptr != d && ptr != table
    requires SameOutside(m, m2, ptr, ptr + 8) && WordAt(m2, ptr) == d && WordAt(m2, ptr + 4) == 0
    ensures ItemIn(h, m2, c, Item(ptr, d, table, DirNode(bytes)))
  {
    hide WordAt;
    hide BlocksFor;
    hide Live;
    hide Heap.ValidIn;
    BlocksForExact(|bytes|);
    OtherBytes(h, m, c, m2, ptr, table, RoundUp(|bytes|), |bytes|);
    OtherBytes(h, m, c, m2, ptr, d, 1, 0);
  }

  /** fat16_new_fat_item_for_directory_item. When an allocation is refused or a directory cannot be loaded, the code
      keeps a null or an error value as a pointer; what it does with it is not modelled. */
  method NewItem(h: Heap, drv: Driver, rec: Record) returns (status: Status, ptr: word, ghost it: Item)
    requires drv.Valid() && |rec| == 32 && DirOk(drv.vol, rec) && h.Valid()
    modifies h, h.mem, drv.clusterStream, drv.fatStream, drv.directoryStream
    ensures h.Valid() && Grows(h, old(h.mem[..]), old(h.chunks), h.mem[..], h.chunks)
    ensures status == Verdict(Meets(old(h.Flags()), ItemRequests(drv.vol, rec)), LoadNode(drv.vol, rec))
    ensures status.Ok? ==> it.ptr == ptr && ItemIn(h, h.mem[..], h.chunks, it) && LoadNode(drv.vol, rec) == Found(it.node)
    ensures status.Ok? ==> Gains(h, old(h.mem[..]), old(h.chunks), h.mem[..], h.chunks, OwnOf(h, it))
    ensures status.Ok? ==> TailPays(old(h.Flags()), h.Flags(), ItemRequests(drv.vol, rec))
  {
    hide Gains;
    hide Grows;
    hide DirOk;
    hide LoadNode;
    hide ItemIn;
    hide Live;
    hide BlocksFor;
    hide DirRequests;
    hide Meets;
    hide FirstFit;
    hide TailPays;
    hide HeapSpec.HasRun;
    hide HeapSpec.Encodes;
    hide Heap.FlagsIn;
    it := Item(0, 0, 0, FileNode([]));
    ghost var m0, c0, f0, ns := h.mem[..], h.chunks, h.Flags(), if IsDirectory(rec) then DirRequests(drv.vol, rec) else [1];
    GainNothing(h, m0, c0);
    OneBlock(8);
    ptr := Obtain(h, 8, true, m0, c0, map[]);
    if ptr == 0 {
      RunMissing(f0, 1, ns);
      GrowNothing(h, m0, c0);
      return Starved, ptr, it;
    }
    ghost var f1 := h.Flags();
    MeetsStep(f0, f1, 1, ns);
    if IsDirectory(rec) {
      status, it := NewDirectoryItem(h, drv, rec, ptr, m0, c0, map[Blk(h, ptr) := 1]);
    } else {
      FileLoads(drv.vol, rec);
      var ok;
      ok, it := NewFileItem(h, rec, ptr, m0, c0, map[Blk(h, ptr) := 1]);
      status := if ok then Ok else Starved;
    }
    if status.Ok? {
      PayOne(f0, f1, h.Flags(), 1, ns);
      GainsFacts(h, m0, c0, h.mem[..], h.chunks, OwnOf(h, it));
    } else {
      GainsFacts(h, m0, c0, h.mem[..], h.chunks, map[Blk(h, ptr) := 1]);
    }
  }

  lemma FileLoads(vol: Volume, rec: Record)
    requires vol.spc > 0 && !IsDirectory(rec)
    ensures DirOk(vol, rec) && LoadNode(vol, rec) == Found(FileNode(rec))
  {
  }

  // ---- lookup and resolution ----

  /** How looking one name up ends: not there exactly if no record has it, and otherwise as making its item does. */
  ghost function LookUpVerdict(f: seq<byte>, vol: Volume, bytes: seq<byte>, total: nat, name: seq<byte>): Status
    requires 32 * total <= |bytes| && vol.spc > 0
    requires FindFrom(bytes, total, name, 0) < total ==> DirOk(vol, RecordAt(bytes, FindFrom(bytes, total, name, 0)))
  {
    var i := FindFrom(bytes, total, name, 0);
    if i == total then NotThere
    else Verdict(Meets(f, ItemRequests(vol, RecordAt(bytes, i))), LoadNode(vol, RecordAt(bytes, i)))
  }

  /** Looking up by base and extension: the first record whose fields spell the name, whatever the case of its letters, is
      the one an item is made of, and if none does there is none. */
  lemma LookUpByFields(f: seq<byte>, vol: Volume, bytes: seq<byte>, total: nat, name: seq<byte>, bases: seq<seq<byte>>, exts: seq<seq<byte>>, i: nat)
    requires 32 * total <= |bytes| && vol.spc > 0 && |bases| == |exts| == total && i <= total
    requires forall k :: 0 <= k < total ==> NamedAs(RecordAt(bytes, k), bases[k], exts[k])
    requires i < total ==> SameLetters(NameOf(IsDirectory(RecordAt(bytes, i)), bases[i], exts[i]), name) && DirOk(vol, RecordAt(bytes, i))
    requires forall k {:trigger bases[k]} :: 0 <= k < i ==> !SameLetters(NameOf(IsDirectory(RecordAt(bytes, k)), bases[k], exts[k]), name)
    ensures FindFrom(bytes, total, name, 0) == i
    ensures LookUpVerdict(f, vol, bytes, total, name) ==
      if i == total then NotThere else Verdict(Meets(f, ItemRequests(vol, RecordAt(bytes, i))), LoadNode(vol, RecordAt(bytes, i)))
  {
    hide FindFrom;
    hide NamedAs;
    hide SameLetters;
    hide NameOf;
    hide DirOk;
    hide LoadNode;
    hide ItemRequests;
    hide Meets;
    FindByFields(bytes, total, name, bases, exts);
    var k := FindFrom(bytes, total, name, 0);
    assert k < total ==> bases[k] == bases[k];
  }

  /** fat16_find_item_in_directory over records in memory. */
  method FindItem(h: Heap, drv: Driver, items: word, total: nat, name: seq<byte>, ghost bytes: seq<byte>)
    returns (status: Status, ptr: word, ghost it: Item)
    requires drv.Valid() && h.Valid() && 32 * total <= |bytes| && items + |bytes| <= 0x1_0000_0000
    requires h.mem[items..items + |bytes|] == bytes
    requires FindFrom(bytes, total, name, 0) < total ==> DirOk(drv.vol, RecordAt(bytes, FindFrom(bytes, total, name, 0)))
    modifies h, h.mem, drv.clusterStream, drv.fatStream, drv.directoryStream
    ensures h.Valid() && Grows(h, old(h.mem[..]), old(h.chunks), h.mem[..], h.chunks)
    ensures status == LookUpVerdict(old(h.Flags()), drv.vol, bytes, total, name)
    ensures status.NotThere? ==> h.mem[..] == old(h.mem[..]) && h.chunks == old(h.chunks)
    ensures status.Ok? ==> it.ptr == ptr && ItemIn(h, h.mem[..], h.chunks, it)
    ensures status.Ok? ==> Found(it.node) == LoadNode(drv.vol, RecordAt(bytes, FindFrom(bytes, total, name, 0)))
    ensures status.Ok? ==> Gains(h, old(h.mem[..]), old(h.chunks), h.mem[..], h.chunks, OwnOf(h, it))
    ensures status.Ok? ==> TailPays(old(h.Flags()), h.Flags(), ItemRequests(drv.vol, RecordAt(bytes, FindFrom(bytes, total, name, 0))))
  {
    hide Gains;
    hide Grows;
    hide ItemRequests;
    hide TailPays;
    hide Meets;
    hide Heap.FlagsIn;
    hide ItemIn;
    hide DirOk;
    hide LoadNode;
    hide FullName;
    hide SameName;
    hide HeapSpec.Encodes;
    ptr, it := 0, Item(0, 0, 0, FileNode([]));
    var i := 0;
    while i < total
      invariant 0 <= i <= total && FindFrom(bytes, total, name, i) == FindFrom(bytes, total, name, 0)
      invariant h.mem[..] == old(h.mem[..]) && h.chunks == old(h.chunks)
    {
      var rec := h.mem[items + 32 * i..items + 32 * i + 32];
      assert rec == RecordAt(bytes, i) by { RecordInMemory(h.mem[..], items, bytes, i); }
      if SameName(FullName(rec), name) {
        status, ptr, it := NewItem(h, drv, rec);
        return;
      }
      i := i + 1;
    }
    GrowNothing(h, h.mem[..], h.chunks);
    status := NotThere;
  }

  lemma RecordInMemory(m: seq<byte>, items: nat, bytes: seq<byte>, i: nat)
    requires items + |bytes| <= |m| && m[items..items + |bytes|] == bytes && 32 * (i + 1) <= |bytes|
    ensures m[items + 32 * i..items + 32 * i + 32] == RecordAt(bytes, i)
  {
    forall j | 0 <= j < 32 ensures m[items + 32 * i..items + 32 * i + 32][j] == RecordAt(bytes, i)[j] {
      assert m[items + 32 * i + j] == m[items..items + |bytes|][32 * i + j];
    }
  }

  lemma GainsCompose(h: Heap, m0: seq<byte>, c0: Chunks, m1: seq<byte>, c1: Chunks, m2: seq<byte>, c2: Chunks, a: Chunks, b: Chunks)
    requires Gains(h, m0, c0, m1, c1, a) && Gains(h, m1, c1, m2, c2, b)
    ensures Gains(h, m0, c0, m2, c2, a + b) && a.Keys !! b.Keys
  {
    hide Grows;
    GrowTrans(h, m0, c0, m1, c1, m2, c2);
    assert forall x :: x in a ==> x in c1;
    assert c2 == c0 + (a + b);
  }

  /** What is left of an item when other chunks are freed. */
  lemma ItemAfterFree(h: Heap, m1: seq<byte>, c1: Chunks, m2: seq<byte>, c2: Chunks, freed: Chunks, it: Item)
    requires h.ValidIn(m1, c1) && ItemIn(h, m1, c1, it) && c2 == c1 - freed.Keys && OwnOf(h, it).Keys !! freed.Keys
    requires SameOutside(m1, m2, h.table, h.table + h.total)
    ensures ItemIn(h, m2, c2, it)
  {
    hide BlocksFor;
    hide WordAt;
    hide HeapSpec.Encodes;
    hide Live;
    hide Blk;
    LiveLeft(h, c1, c2, freed, it.ptr, 1);
    LiveLeft(h, c1, c2, freed, it.inner, 1);
    PoolBytes(h, m1, c1, m2, it.ptr, 1, 0);
    match it.node {
      case FileNode(_) =>
        PoolBytes(h, m1, c1, m2, it.inner, 1, 32);
      case DirNode(bytes) =>
        BlocksForExact(|bytes|);
        LiveLeft(h, c1, c2, freed, it.table, RoundUp(|bytes|));
        PoolBytes(h, m1, c1, m2, it.inner, 1, 0);
        PoolBytes(h, m1, c1, m2, it.table, RoundUp(|bytes|), |bytes|);
    }
  }

  lemma LiveLeft(h: Heap, c1: Chunks, c2: Chunks, freed: Chunks, p: word, n: nat)
    requires Live(h, c1, p, n) && c2 == c1 - freed.Keys && Blk(h, p) !in freed
    ensures Live(h, c2, p, n)
  {
  }

  lemma PoolBytes(h: Heap, m1: seq<byte>, c1: Chunks, m2: seq<byte>, p: word, n: nat, k: nat)
    requires h.ValidIn(m1, c1) && Live(h, c1, p, n) && k <= 4096 * n && SameOutside(m1, m2, h.table, h.table + h.total)
    ensures p + k <= |m1| == |m2| && m2[p..p + k] == m1[p..p + k]
    ensures WordAt(m2, p) == WordAt(m1, p) && WordAt(m2, p + 4) == WordAt(m1, p + 4)
  {
    PageInPool(h, m1, c1, p, n);
    SameSlice(m1, m2, p, p + k);
    SameWord(m1, m2, p);
    SameWord(m1, m2, p + 4);
  }

  /** The current item gives way to the next one. */
  method Advance(h: Heap, ptr: word, ghost cur: Item, ghost next: Item, ghost m0: seq<byte>, ghost c0: Chunks, ghost m1: seq<byte>, ghost c1: Chunks)
    requires Gains(h, m0, c0, m1, c1, OwnOf(h, cur)) && Gains(h, m1, c1, h.mem[..], h.chunks, OwnOf(h, next))
    requires cur.ptr == ptr && ItemIn(h, m1, c1, cur) && ItemIn(h, h.mem[..], h.chunks, next)
    modifies h, h.mem
    ensures Gains(h, m0, c0, h.mem[..], h.chunks, OwnOf(h, next)) && ItemIn(h, h.mem[..], h.chunks, next)
    ensures forall l :: LastFree(old(h.Flags()), l) ==> LastFree(h.Flags(), l)
  {
    hide Gains;
    hide ItemIn;
    hide OwnOf;
    hide LastFree;
    hide HeapSpec.Encodes;
    hide Heap.FlagsIn;
    ghost var m2, c2, a, b := h.mem[..], h.chunks, OwnOf(h, cur), OwnOf(h, next);
    GainsCompose(h, m0, c0, m1, c1, m2, c2, a, b);
    GainsFacts(h, m1, c1, m2, c2, b);
    ItemGrown(h, m1, c1, m2, c2, cur);
    ItemFree(h, ptr, cur, m0, c0, a + b);
    assert a + b - a.Keys == b;
    ItemAfterFree(h, m2, c2, h.mem[..], h.chunks, a, next);
    GainsFacts(h, m0, c0, h.mem[..], h.chunks, b);
    forall l | LastFree(h.FlagsIn(m2), l) ensures LastFree(h.Flags(), l) {
      TailKept(h.FlagsIn(m2), c2, h.Flags(), h.chunks, l);
    }
  }

  /** An unsuccessful resolution releases what it holds: the flag table is as before. */
  method Abandon(h: Heap, ptr: word, ghost cur: Item, ghost m0: seq<byte>, ghost c0: Chunks)
    requires Gains(h, m0, c0, h.mem[..], h.chunks, OwnOf(h, cur)) && cur.ptr == ptr && ItemIn(h, h.mem[..], h.chunks, cur)
    modifies h, h.mem
    ensures h.Valid() && h.chunks == c0 && h.Flags() == h.FlagsIn(m0) && Grows(h, m0, c0, h.mem[..], h.chunks)
  {
    hide Gains;
    hide Grows;
    hide ItemIn;
    hide OwnOf;
    GainsFacts(h, m0, c0, h.mem[..], h.chunks, OwnOf(h, cur));
    ItemFree(h, ptr, cur, m0, c0, OwnOf(h, cur));
    assert OwnOf(h, cur) - OwnOf(h, cur).Keys == map[];
    GainsFacts(h, m0, c0, h.mem[..], h.chunks, map[]);
    GainsNothing(h, m0, c0, h.mem[..], h.chunks);
  }

  /** The blocks requested for all items on a path, one after the other. */
  ghost function PathNeed(vol: Volume, bytes: seq<byte>, total: nat, parts: seq<seq<byte>>): nat
    requires vol.spc > 0 && 32 * total <= |bytes| && parts != [] && PathOk(vol, bytes, total, parts)
    decreases |parts|, 0
  {
    var i := FindFrom(bytes, total, parts[0], 0);
    if i == total then 0
    else
      var r := RecordAt(bytes, i);
      Sum(ItemRequests(vol, r)) + match LoadNode(vol, r) case Found(node) => RestNeed(vol, node, parts[1..]) case _ => 0
  }

  ghost function RestNeed(vol: Volume, node: Node, parts: seq<seq<byte>>): nat
    requires vol.spc > 0 && ContinueOk(vol, node, parts)
    decreases |parts|, 1
  {
    if parts == [] || node.FileNode? then 0 else PathNeed(vol, node.bytes, |node.bytes| / 32, parts)
  }

  /** fat16_get_directory_entry: the fold of lookups over the path, and on the heap nothing but its result. It ends as
      the fold says unless memory runs out, and it does not when as many blocks as the path needs are free at the end
      of the heap. */
  method GetDirectoryEntry(h: Heap, drv: Driver, rootItems: word, rootTotal: nat, path: word,
                           ghost pl: PathList, ghost parts: seq<seq<byte>>, ghost rootBytes: seq<byte>)
    returns (status: Status, ptr: word, ghost it: Item)
    requires ListIn(h, h.mem[..], h.chunks, pl, parts) && parts != [] && path == pl.nodes[0]
    requires drv.Valid() && h.Valid() && 32 * rootTotal <= |rootBytes| && rootItems + |rootBytes| <= 0x1_0000_0000
    requires h.mem[rootItems..rootItems + |rootBytes|] == rootBytes && PathOk(drv.vol, rootBytes, rootTotal, parts)
    modifies h, h.mem, drv.clusterStream, drv.fatStream, drv.directoryStream
    ensures h.Valid() && Grows(h, old(h.mem[..]), old(h.chunks), h.mem[..], h.chunks)
    ensures status.Starved? || status == Verdict(true, Resolve(drv.vol, rootBytes, rootTotal, parts))
    ensures LastFree(old(h.Flags()), PathNeed(drv.vol, rootBytes, rootTotal, parts)) ==> !status.Starved?
    ensures status.Ok? ==> Resolve(drv.vol, rootBytes, rootTotal, parts) == Found(it.node)
    ensures status.Ok? ==> it.ptr == ptr && ItemIn(h, h.mem[..], h.chunks, it)
    ensures status.Ok? ==> Gains(h, old(h.mem[..]), old(h.chunks), h.mem[..], h.chunks, OwnOf(h, it))
    ensures status.NotThere? ==> h.chunks == old(h.chunks) && h.Flags() == old(h.Flags())
  {
    hide Gains;
    hide Grows;
    hide ItemIn;
    hide LoadNode;
    hide DirOk;
    hide FindFrom;
    hide ItemRequests;
    hide TailPays;
    hide LastFree;
    hide Meets;
    hide HeapSpec.Encodes;
    hide Heap.FlagsIn;
    hide OwnOf;
    hide PathOk;
    hide PathNeed;
    hide Resolve;
    hide LookUpVerdict;
    hide RestNeed;
    hide ContinueOk;
    hide Continue;
    hide ListIn;
    ghost var m0, c0, vol, f0 := h.mem[..], h.chunks, drv.vol, h.Flags();
    ghost var room := LastFree(f0, PathNeed(vol, rootBytes, rootTotal, parts));
    BeforeLookUp(f0, vol, rootBytes, rootTotal, parts);
    var name, part := ReadPart(h, path, pl, parts, 0);
    status, ptr, it := FindItem(h, drv, rootItems, rootTotal, name, rootBytes);
    if !status.Ok? {
      return;
    }
    AfterLookUp(f0, h.Flags(), vol, rootBytes, rootTotal, parts, it.node);
    ghost var k := 1;
    while part != 0
      invariant 1 <= k <= |parts| && status.Ok? && it.ptr == ptr
      invariant |pl.nodes| == |parts| && (part == 0 <==> k == |parts|) && (k < |parts| ==> part == pl.nodes[k])
      invariant Gains(h, m0, c0, h.mem[..], h.chunks, OwnOf(h, it)) && ItemIn(h, h.mem[..], h.chunks, it)
      invariant ContinueOk(vol, it.node, parts[k..])
      invariant Resolve(vol, rootBytes, rootTotal, parts) == Continue(vol, it.node, parts[k..])
      invariant room ==> LastFree(h.Flags(), RestNeed(vol, it.node, parts[k..]))
      decreases |parts| - k
    {
      var isDir, items, total := DirectoryOf(h, ptr, it, m0, c0);
      Enter(vol, it.node, parts[k..]);
      if !isDir {
        Abandon(h, ptr, it, m0, c0);
        return NotThere, ptr, it;
      }
      ghost var m1, c1, f1, rest := h.mem[..], h.chunks, h.Flags(), parts[k..];
      GainsFacts(h, m0, c0, m1, c1, OwnOf(h, it));
      assert rest[0] == parts[k] && rest[1..] == parts[k + 1..];
      BeforeLookUp(f1, vol, it.node.bytes, total, rest);
      ListGrown(h, m0, c0, m1, c1, pl, parts);
      var following;
      name, following := ReadPart(h, part, pl, parts, k);
      var next;
      ghost var nextItem;
      status, next, nextItem := FindItem(h, drv, items, total, name, it.node.bytes);
      if status.Broken? || status.Starved? {
        GrowTrans(h, m0, c0, m1, c1, h.mem[..], h.chunks);
        return;
      }
      if status.NotThere? {
        Abandon(h, ptr, it, m0, c0);
        return;
      }
      AfterLookUp(f1, h.Flags(), vol, it.node.bytes, total, rest, nextItem.node);
      Advance(h, ptr, it, nextItem, m0, c0, m1, c1);
      ptr, it, part := next, nextItem, following;
      k := k + 1;
    }
    GainsFacts(h, m0, c0, h.mem[..], h.chunks, OwnOf(h, it));
    assert parts[k..] == [];
    Arrive(vol, it.node);
  }

  lemma Arrive(vol: Volume, node: Node)
    requires vol.spc > 0 && ContinueOk(vol, node, [])
    ensures Continue(vol, node, []) == Found(node)
  {
  }

  /** Going on into a node: a file ends the path, a directory is where the rest is resolved. */
  lemma Enter(vol: Volume, node: Node, parts: seq<seq<byte>>)
    requires vol.spc > 0 && ContinueOk(vol, node, parts) && parts != []
    ensures node.FileNode? ==> Continue(vol, node, parts) == NotFound
    ensures node.DirNode? ==> PathOk(vol, node.bytes, |node.bytes| / 32, parts)
    ensures node.DirNode? ==> Continue(vol, node, parts) == Resolve(vol, node.bytes, |node.bytes| / 32, parts)
    ensures node.DirNode? ==> RestNeed(vol, node, parts) == PathNeed(vol, node.bytes, |node.bytes| / 32, parts)
  {
    hide LoadNode;
    hide FindFrom;
  }

  /** The next lookup is possible, decides the fold unless it finds something, and with room for the path does not starve. */
  lemma BeforeLookUp(f: seq<byte>, vol: Volume, bytes: seq<byte>, total: nat, parts: seq<seq<byte>>)
    requires vol.spc > 0 && 32 * total <= |bytes| && parts != [] && PathOk(vol, bytes, total, parts)
    ensures FindFrom(bytes, total, parts[0], 0) < total ==> DirOk(vol, RecordAt(bytes, FindFrom(bytes, total, parts[0], 0)))
    ensures var v := LookUpVerdict(f, vol, bytes, total, parts[0]);
      && (v.Ok? ==> FindFrom(bytes, total, parts[0], 0) < total)
      && (v.Ok? || v.Starved? || v == Verdict(true, Resolve(vol, bytes, total, parts)))
      && (LastFree(f, PathNeed(vol, bytes, total, parts)) ==> !v.Starved?)
  {
    hide LastFree;
    hide Meets;
    hide FindFrom;
    hide DirOk;
    hide LoadNode;
    hide ItemRequests;
    var i := FindFrom(bytes, total, parts[0], 0);
    if i < total && LastFree(f, PathNeed(vol, bytes, total, parts)) {
      TailMeets(f, ItemRequests(vol, RecordAt(bytes, i)), PathNeed(vol, bytes, total, parts));
    }
  }

  /** After it there is room for the rest. */
  lemma AfterLookUp(f: seq<byte>, g: seq<byte>, vol: Volume, bytes: seq<byte>, total: nat, parts: seq<seq<byte>>, node: Node)
    requires vol.spc > 0 && 32 * total <= |bytes| && parts != [] && PathOk(vol, bytes, total, parts)
    requires FindFrom(bytes, total, parts[0], 0) < total
    requires LoadNode(vol, RecordAt(bytes, FindFrom(bytes, total, parts[0], 0))) == Found(node)
    requires TailPays(f, g, ItemRequests(vol, RecordAt(bytes, FindFrom(bytes, total, parts[0], 0))))
    ensures ContinueOk(vol, node, parts[1..]) && Resolve(vol, bytes, total, parts) == Continue(vol, node, parts[1..])
    ensures LastFree(f, PathNeed(vol, bytes, total, parts)) ==> LastFree(g, RestNeed(vol, node, parts[1..]))
  {
    hide LastFree;
    hide FindFrom;
    hide DirOk;
    hide LoadNode;
    hide ItemRequests;
  }

  /** The item's type, and for a directory where its records are. */
  method DirectoryOf(h: Heap, ptr: word, ghost it: Item, ghost m0: seq<byte>, ghost c0: Chunks) returns (isDir: bool, items: word, total: nat)
    requires Gains(h, m0, c0, h.mem[..], h.chunks, OwnOf(h, it)) && it.ptr == ptr && ItemIn(h, h.mem[..], h.chunks, it)
    ensures h.Valid() && (isDir <==> it.node.DirNode?)
    ensures isDir ==> 32 * total == |it.node.bytes| && items + |it.node.bytes| <= 0x1_0000_0000
    ensures isDir ==> h.mem[items..items + |it.node.bytes|] == it.node.bytes
  {
    hide Live;
    hide OwnOf;
    hide WordAt;
    hide BlocksFor;
    hide Gains;
    GainsFacts(h, m0, c0, h.mem[..], h.chunks, OwnOf(h, it));
    ItemAddresses(h, m0, c0, h.mem[..], h.chunks, OwnOf(h, it), it);
    items, total := 0, 0;
    var kind := Load32(h.mem, ptr + 4);
    isDir := kind == 0;
    if isDir {
      var inner := Load32(h.mem, ptr);
      items := Load32(h.mem, inner);
      total := Load32(h.mem, inner + 4);
    }
  }
}
