/** The process table: process_load, and the kernel state it keeps. */
module Kernels {
  import opened Words
  import opened Sequences
  import opened HeapSpec
  import opened Heaps
  import opened Errors
  import opened Paging
  import opened Spaces
  import opened Isolation
  import opened Processes
  import opened Ledger
  import opened Division
  import opened Streams
  import opened Volumes
  import opened ClusterReads
  import opened FileReads
  import opened Fat16

  /** What opening, measuring and reading the program file delivers. */
  datatype File = Missing | Unreadable(size: word) | Contents(bytes: seq<byte>)

  /** The driver's answer for a file opened at position 0 (none if the path does not resolve to a file),
      measured, and read whole as one element. */
  ghost function Delivered(vol: Volume, item: DirItem): File
    requires vol.spc > 0
  {
    if item.attribute / SUBDIRECTORY % 2 == 1 then Missing
    else if item.filesize == 0 then Unreadable(0)
    else match ReadSpec(vol, item.cluster, 0, item.filesize, false)
      case Failed => Unreadable(item.filesize)
      case Data(bytes) => Contents(bytes)
  }

  datatype Slot = Empty | Loaded(self: word, dir: word, ptr: word, size: word, stack: word)

  // struct process: id, file name and padding, task, 1024 allocations, four pointers and two sizes; struct task: directory,
  // twelve registers, process, and the two links.
  const PROCESS_STRUCT_SIZE: word := 2 + 256 + 2 + 4 + 4 * 1024 + 4 * 6
  const TASK_STRUCT_SIZE: word := 4 + 4 * 12 + 4 + 4 * 2

  /** The heap answers every request of one load soundly, and a load that gets its image and stack also gets its page tables. */
  ghost predicate CanLoad(f: seq<byte>, file: File) {
    match file
    case Missing => Served(f, [2], 0)
    case Unreadable(size) => size <= 0xFFFFF000 && Served(f, [2] + ImageBlocks(size), 0)
    case Contents(bytes) => 0 < |bytes| <= 0xFFFFF000 && Served(f, [2] + ([BlocksFor(|bytes|)] + [4]), 1027)
  }

  /** A free tail that holds everything the load asks for is enough, whatever the rest of the heap looks like. */
  lemma TailCanLoad(f: seq<byte>, bytes: seq<byte>)
    requires 0 < |bytes| <= 0xFFFFF000 && LastFree(f, 1033 + BlocksFor(|bytes|))
    ensures CanLoad(f, Contents(bytes)) && Meets(f, LoadRequests(|bytes|))
  {
    hide LastFree;
    hide Served;
    hide Meets;
    var ns := [2] + ([BlocksFor(|bytes|)] + [4]);
    assert ns[1..] == [BlocksFor(|bytes|)] + [4] && ns[1..][1..] == [4] && [4][1..] == [];
    assert Sum([4]) == 4 && Sum(ns[1..]) == BlocksFor(|bytes|) + Sum([4]) && Sum(ns) == 2 + Sum(ns[1..]);
    TailServes(f, ns, 1027, 1033 + BlocksFor(|bytes|));
    TailMeets(f, ns, 1033 + BlocksFor(|bytes|));
  }

  /** What a load asks for that it looks at the answer of: the process structure, the image, the stack. */
  function LoadRequests(size: word): seq<nat> {
    [2] + ([BlocksFor(size)] + [4])
  }

  function ImageBlocks(size: word): seq<nat> {
    if size == 0 then [] else [BlocksFor(size)]
  }

  /** kzalloc inside a load. */
  method Request(h: Heap, size: word, ghost m0: seq<byte>, ghost c0: Chunks, ghost ns: seq<nat>, ghost k: nat) returns (r: word)
    requires Grows(h, m0, c0, h.mem[..], h.chunks)
    requires 0 < size <= 0xFFFFF000 && Served(h.Flags(), [BlocksFor(size)] + ns, k)
    modifies h, h.mem
    ensures Grows(h, m0, c0, h.mem[..], h.chunks) && Grows(h, old(h.mem[..]), old(h.chunks), h.mem[..], h.chunks)
    ensures r != 0 ==> Live(h, h.chunks, r, BlocksFor(size)) && Served(h.Flags(), ns, k)
    ensures r != 0 ==> h.AddressToBlock(r) !in c0 && h.AddressToBlock(r) !in old(h.chunks)
    ensures r != 0 ==> forall a :: r <= a < r + size ==> Get(h.mem[..], a) == 0
    ensures r == 0 <==> !HasRun(old(h.Flags()), BlocksFor(size))
    ensures r != 0 ==> FirstFit(old(h.Flags()), h.Flags(), BlocksFor(size))
  {
    hide BlocksFor;
    hide HeapSpec.FirstRun;
    hide HeapSpec.Marked;
    hide HeapSpec.Encodes;
    hide Live;
    hide HeapSpec.HasRun;
    ghost var m, c, f, n := h.mem[..], h.chunks, h.Flags(), BlocksFor(size);
    BlocksForExact(size);
    assert ([n] + ns)[1..] == ns;
    r := h.Kzalloc(size, false);
    GrowNothing(h, m, c);
    if HasRun(f, n) {
      GrowZalloc(h, m0, c0, m, c, h.mem[..], h.chunks, size, r);
      GrowZalloc(h, m, c, m, c, h.mem[..], h.chunks, size, r);
      PageInPool(h, h.mem[..], h.chunks, r, n);
    }
  }

  /** The image and the stack, in memory and through the address space. */
  ghost predicate Carries(m: seq<byte>, p: Proc, bytes: seq<byte>) {
    && p.size == |bytes|
    && (forall k :: 0 <= k < |bytes| ==> Get(m, p.image + k) == bytes[k])
    && (forall a :: p.stack <= a < p.stack + 0x4000 ==> Get(m, a) == 0)
  }

  /** task_new's allocations and address space, then process_map_memory. */
  method MakeSpace(h: Heap, ptr: word, size: word, stack: word, ghost bytes: seq<byte>) returns (res: int, dir: word, ghost p: Proc)
    requires h.Valid() && IsKernelHeap(h) && |FreeSet(h.Flags())| >= 1027
    requires 0 < size <= 0xFFFFF000 && ptr != stack
    requires Live(h, h.chunks, ptr, BlocksFor(size)) && Live(h, h.chunks, stack, 4)
    modifies h, h.mem
    ensures res == 0 && Grows(h, old(h.mem[..]), old(h.chunks), h.mem[..], h.chunks)
    ensures p.image == ptr && p.size == size && p.stack == stack && p.sp.dir == dir
    ensures Holds(h, h.chunks, p) && Mapping(h.mem[..], p)
    ensures forall x :: x in p.sp.Pages() ==> h.AddressToBlock(x) !in old(h.chunks)
  {
    hide Acquired;
    hide Filled;
    hide Mapping;
    hide WordAt;
    hide BlocksFor;
    hide HeapSpec.Encodes;
    hide Distinct;
    ghost var m0, c0 := h.mem[..], h.chunks;
    AcquireNothing(h, m0, c0);
    var task := NewPage(h, TASK_STRUCT_SIZE, m0, c0, []);
    ghost var m1, c1 := h.mem[..], h.chunks;
    AcquiredFacts(h, m0, c0, m1, c1, [] + [task]);
    GrowNothing(h, m0, c0);
    GrowAcquire(h, m0, c0, m0, c0, m1, c1, [] + [task]);
    FlagsSeven();
    var chunk;
    ghost var sp;
    chunk, sp := ChunkNew(h, 1024, SetFlags(IS_PRESENT, ACCESS_FROM_ALL));
    ghost var m2, c2 := h.mem[..], h.chunks;
    GrowAcquire(h, m0, c0, m1, c1, m2, c2, sp.Pages());
    p := Proc(sp, ptr, size, stack);
    GrownProc(h, m0, c0, m1, c1, m2, c2, p);
    SpacePages(h, c2, sp);
    PageInPool(h, m2, c2, chunk, 1);
    dir := Load32(h.mem, chunk);
    PageInPool(h, m2, c2, ptr, BlocksFor(size));
    PageInPool(h, m2, c2, stack, 4);
    res := MapMemory(h.mem, p, dir, ptr, size, stack);
    GrowWritePages(h, m0, c0, m2, c2, h.mem[..], sp.tables);
  }

  /** The new space is held, and none of its pages is an old chunk. */
  lemma GrownProc(h: Heap, m0: seq<byte>, c0: Chunks, m1: seq<byte>, c1: Chunks, m2: seq<byte>, c2: Chunks, p: Proc)
    requires Grows(h, m0, c0, m1, c1) && Acquired(h, m1, c1, m2, c2, p.sp.Pages())
    requires 0 < p.size <= 0xFFFFF000 && p.image != p.stack
    requires Live(h, c0, p.image, BlocksFor(p.size)) && Live(h, c0, p.stack, 4)
    ensures Holds(h, c2, p)
    ensures forall x :: x in p.sp.Pages() ==> h.AddressToBlock(x) !in c0
  {
    hide BlocksFor;
    hide HeapSpec.Encodes;
    hide KeptOutside;
    hide FreeSet;
    hide BlocksOf;
    var pages, n := p.sp.Pages(), |p.sp.Pages()|;
    forall i, j | 0 <= i < j < n + 2 ensures p.Own()[i] != p.Own()[j] {
      if i < n {
        assert pages[i] in pages && pages[i] == p.Own()[i];
        if j < n {
          assert pages[j] == p.Own()[j];
        }
      }
    }
  }

  /** process_load_binary, for an opened descriptor: the image chunk, filled by one fread. */
  method LoadBinary(h: Heap, drv: Driver, desc: FileDescriptor, ghost m0: seq<byte>, ghost c0: Chunks, ghost ns: seq<nat>, ghost k: nat)
    returns (res: int, ptr: word)
    requires drv.Valid() && desc.pos == 0 && desc.item.filesize <= 0xFFFFF000
    requires desc.item.filesize > 0 ==> Sound(drv.vol, desc.item.cluster)
    requires Grows(h, m0, c0, h.mem[..], h.chunks)
    requires desc.item.attribute / SUBDIRECTORY % 2 == 0 && desc.item.filesize > 0 ==> Served(h.Flags(), [BlocksFor(desc.item.filesize)] + ns, k)
    modifies h, h.mem, drv.clusterStream, drv.fatStream
    ensures Grows(h, m0, c0, h.mem[..], h.chunks) && Grows(h, old(h.mem[..]), old(h.chunks), h.mem[..], h.chunks)
    ensures res <= 0
    ensures res == 0 <==> Delivered(drv.vol, desc.item).Contents? && HasRun(old(h.Flags()), BlocksFor(desc.item.filesize))
    ensures res == 0 ==> Live(h, h.chunks, ptr, BlocksFor(desc.item.filesize)) && h.AddressToBlock(ptr) !in c0
    ensures res == 0 ==> Served(h.Flags(), ns, k) && ptr + desc.item.filesize <= 0x1_0000_0000
    ensures res == 0 ==> h.mem[ptr..ptr + desc.item.filesize] == Delivered(drv.vol, desc.item).bytes
    ensures res == 0 ==> FirstFit(old(h.Flags()), h.Flags(), BlocksFor(desc.item.filesize))
  {
    hide BlocksFor;
    hide FirstFit;
    hide Live;
    hide Served;
    hide ReadSpec;
    hide HeapSpec.HasRun;
    hide HeapSpec.Encodes;
    ptr := 0;
    ghost var m, c := h.mem[..], h.chunks;
    GrowNothing(h, m, c);
    if desc.item.attribute / SUBDIRECTORY % 2 == 1 {
      return -EINVARG, 0;
    }
    if desc.item.filesize == 0 {
      ptr := h.Kzalloc(0, false);
      return if ptr == 0 then -ENOMEM else -EIO, 0;
    }
    ptr := Request(h, desc.item.filesize, m0, c0, ns, k);
    if ptr == 0 {
      return -ENOMEM, 0;
    }
    var read := ReadImage(h, drv, desc, ptr, m0, c0, m, c);
    res := if read != 1 then -EIO else 0;
  }

  /** fread(image, filesize, 1): one element, straight into the image chunk. */
  method ReadImage(h: Heap, drv: Driver, desc: FileDescriptor, ptr: word, ghost m0: seq<byte>, ghost c0: Chunks, ghost m1: seq<byte>, ghost c1: Chunks)
    returns (read: nat)
    requires drv.Valid() && desc.pos == 0 && Sound(drv.vol, desc.item.cluster) && 0 < desc.item.filesize <= 0xFFFFF000
    requires Grows(h, m0, c0, h.mem[..], h.chunks) && Grows(h, m1, c1, h.mem[..], h.chunks)
    requires Live(h, h.chunks, ptr, BlocksFor(desc.item.filesize)) && h.AddressToBlock(ptr) !in c0 && h.AddressToBlock(ptr) !in c1
    modifies h.mem, drv.clusterStream, drv.fatStream
    ensures Grows(h, m0, c0, h.mem[..], h.chunks) && Grows(h, m1, c1, h.mem[..], h.chunks)
    ensures h.Flags() == old(h.Flags()) && ptr + desc.item.filesize <= 0x1_0000_0000
    ensures read == 1 <==> ReadSpec(drv.vol, desc.item.cluster, 0, desc.item.filesize, false).Data?
    ensures read == 1 ==> h.mem[ptr..ptr + desc.item.filesize] == ReadSpec(drv.vol, desc.item.cluster, 0, desc.item.filesize, false).bytes
  {
    hide Times;
    hide Quot;
    hide Grows;
    hide BlocksFor;
    hide ReadSpec;
    hide Sound;
    ghost var size, m := desc.item.filesize, h.mem[..];
    WholeFile(drv.vol, desc.item.cluster, size);
    GrowFacts(h, m0, c0, m, h.chunks);
    PageInPool(h, m, h.chunks, ptr, BlocksFor(size));
    BlocksForExact(size);
    read := drv.Read(desc, desc.item.filesize, 1, h.mem, ptr, false);
    KeptIsSame(m, h.mem[..], ptr, size);
    SameSlice(m, h.mem[..], h.table, h.table + h.total);
    GrowWrite(h, m0, c0, m, h.chunks, h.mem[..], ptr, BlocksFor(size), ptr, ptr + size);
    GrowWrite(h, m1, c1, m, h.chunks, h.mem[..], ptr, BlocksFor(size), ptr, ptr + size);
  }

  /** One element of the whole file size. */
  lemma WholeFile(vol: Volume, c: int, size: nat)
    requires vol.spc > 0 && size > 0
    ensures Wanted(size, 0, size, 1) == 1 && Times(1, size) == size
    ensures var r := ReadElements(vol, c, size, 0, size, 1, false);
      if ReadSpec(vol, c, 0, size, false).Data? then r == Elements(1, ReadSpec(vol, c, 0, size, false).bytes) else r == Elements(0, [])
  {
    hide ReadSpec;
    TimesLeft(0, size);
    assert Quot(size, size) == 1 + Quot(0, size);
    ReadElementsStep(vol, c, size, 0, size, 1, false);
    if ReadSpec(vol, c, 0, size, false).Data? {
      var bytes := ReadSpec(vol, c, 0, size, false).bytes;
      assert bytes + [] == bytes;
    }
  }

  lemma GrownChunks(h: Heap, m0: seq<byte>, c0: Chunks, m: seq<byte>, c: Chunks)
    requires Grows(h, m0, c0, m, c)
    ensures h.ValidIn(m, c) && forall b :: b in c0 ==> b in c && c[b] == c0[b]
  {
  }

  lemma LiveNotNull(h: Heap, m: seq<byte>, c: Chunks, a: word, n: nat)
    requires h.ValidIn(m, c) && Live(h, c, a, n)
    ensures a > 0
  {
    PageInPool(h, m, c, a, n);
  }

  /** A process built from new chunks joins the loaded ones. */
  lemma SystemExtended(h: Heap, m0: seq<byte>, c0: Chunks, m: seq<byte>, c: Chunks, procs: seq<Proc>, p: Proc)
    requires System(h, m0, c0, procs) && Grows(h, m0, c0, m, c)
    requires Holds(h, c, p) && Mapping(m, p)
    requires forall x :: x in p.Own() ==> h.AddressToBlock(x) !in c0
    ensures System(h, m, c, procs + [p])
  {
    hide Mapping;
    hide HeapSpec.Encodes;
    hide Apart;
    GrowKeepsSystem(h, m0, c0, m, c, procs);
    forall i | 0 <= i < |procs| ensures Apart(procs[i], p) {
      NewIsApart(h, c0, procs[i], p);
    }
  }

  lemma NewIsApart(h: Heap, c0: Chunks, q: Proc, p: Proc)
    requires Holds(h, c0, q) && forall x :: x in p.Own() ==> h.AddressToBlock(x) !in c0
    ensures Apart(q, p)
  {
    forall a | a in q.Own() ensures a !in p.Own() {
      assert h.AddressToBlock(a) in c0;
    }
  }

  lemma SystemFacts(h: Heap, m: seq<byte>, c: Chunks, procs: seq<Proc>)
    requires System(h, m, c, procs)
    ensures h.ValidIn(m, c)
  {
  }

  lemma CarriesKept(h: Heap, m0: seq<byte>, c0: Chunks, m1: seq<byte>, c1: Chunks, m2: seq<byte>, c2: Chunks, p: Proc, bytes: seq<byte>)
    requires Grows(h, m0, c0, m1, c1) && Grows(h, m1, c1, m2, c2)
    requires 0 < p.size <= 0xFFFFF000 && p.size == |bytes|
    requires Live(h, c0, p.image, BlocksFor(p.size)) && Live(h, c1, p.stack, 4)
    requires p.image + p.size <= |m0| && m0[p.image..p.image + p.size] == bytes
    requires forall a :: p.stack <= a < p.stack + 0x4000 ==> Get(m1, a) == 0
    ensures Carries(m2, p, bytes)
  {
    hide Grows;
    hide BlocksFor;
    BlocksForExact(p.size);
    GrowTrans(h, m0, c0, m1, c1, m2, c2);
    GrowChunk(h, m0, c0, m2, c2, p.image, BlocksFor(p.size));
    GrowChunk(h, m1, c1, m2, c2, p.stack, 4);
    forall k | 0 <= k < |bytes| ensures Get(m2, p.image + k) == bytes[k] {
      assert Get(m0, p.image + k) == m0[p.image..p.image + p.size][k];
    }
  }

  /** process_load_for_slot once a slot is found. */
  method LoadForSlot(h: Heap, drv: Driver, desc: FileDescriptor?)
    returns (res: int, self: word, dir: word, ptr: word, size: word, stack: word, ghost p: Proc)
    requires h.Valid() && IsKernelHeap(h) && drv.Valid()
    requires desc != null ==> desc.pos == 0 && desc.item.filesize <= 0xFFFFF000
    requires desc != null && desc.item.filesize > 0 ==> Sound(drv.vol, desc.item.cluster)
    requires CanLoad(h.Flags(), if desc == null then Missing else Delivered(drv.vol, desc.item))
    modifies h, h.mem, drv.clusterStream, drv.fatStream
    ensures res <= 0 && Grows(h, old(h.mem[..]), old(h.chunks), h.mem[..], h.chunks)
    ensures res == 0 <==> desc != null && Delivered(drv.vol, desc.item).Contents? && Meets(old(h.Flags()), LoadRequests(desc.item.filesize))
    ensures res == 0 ==> Holds(h, h.chunks, p) && Mapping(h.mem[..], p) && Carries(h.mem[..], p, Delivered(drv.vol, desc.item).bytes)
    ensures res == 0 ==> p.sp.dir == dir && p.image == ptr && p.size == size && p.stack == stack
    ensures res == 0 ==> forall x :: x in p.Own() ==> h.AddressToBlock(x) !in old(h.chunks)
    ensures res == 0 ==> Live(h, h.chunks, self, 2) && h.AddressToBlock(self) !in old(h.chunks) && self !in p.Own()
  {
    hide Grows;
    hide BlocksFor;
    hide Served;
    hide Meets;
    hide FirstFit;
    hide HeapSpec.HasRun;
    hide HeapSpec.Encodes;
    hide Heap.FlagsIn;
    hide Live;
    hide Mapping;
    hide Holds;
    hide Sound;
    dir, ptr, size, stack := 0, 0, 0, 0;
    p := Proc(Space(0, 0, []), 0, 0, 0);
    ghost var m0, c0, file := h.mem[..], h.chunks, if desc == null then Missing else Delivered(drv.vol, desc.item);
    GrowNothing(h, m0, c0);
    StructBlocks();
    ghost var ns, k := AfterStruct(file).0, AfterStruct(file).1;
    CanLoadStruct(h.Flags(), file);
    ghost var f0 := h.Flags();
    self := Request(h, PROCESS_STRUCT_SIZE, m0, c0, ns, k);
    if self == 0 {
      if desc != null {
        RunMissing(f0, 2, [BlocksFor(desc.item.filesize)] + [4]);
      }
      return -ENOMEM, self, dir, ptr, size, stack, p;
    }
    if desc == null {
      return -EIO, self, dir, ptr, size, stack, p;
    }
    ghost var n, f1, m1, c1 := BlocksFor(desc.item.filesize), h.Flags(), h.mem[..], h.chunks;
    GrowFacts(h, m0, c0, m1, c1);
    GrowNothing(h, m1, c1);
    MeetsStep(f0, f1, 2, [n] + [4]);
    ghost var ns2: seq<nat> := if file.Contents? then [4] else [];
    AfterImage(drv.vol, desc.item);
    res, ptr := LoadBinary(h, drv, desc, m1, c1, ns2, k);
    GrowTrans(h, m0, c0, m1, c1, h.mem[..], h.chunks);
    if res < 0 {
      if file.Contents? {
        RunMissing(f1, n, [4]);
      }
      return;
    }
    size := desc.item.filesize;
    MeetsStep(f1, h.Flags(), n, [4]);
    LastMet(h.Flags(), 4);
    res, dir, stack, p := FinishLoad(h, ptr, size, file.bytes, m1, c1);
    GrowTrans(h, m0, c0, m1, c1, h.mem[..], h.chunks);
    GrowFacts(h, m0, c0, m1, c1);
    if res == 0 {
      GrowChunk(h, m1, c1, h.mem[..], h.chunks, self, 2);
      LiveInside(h, c1, self, 2);
    }
  }

  lemma LiveInside(h: Heap, c: Chunks, a: word, n: nat)
    requires Live(h, c, a, n)
    ensures h.AddressToBlock(a) in c
  {
  }

  /** What the image request still has to be followed by. */
  lemma AfterImage(vol: Volume, item: DirItem)
    requires vol.spc > 0 && item.filesize <= 0xFFFFF000
    ensures var file, ns := Delivered(vol, item), AfterStruct(Delivered(vol, item)).0;
      && (item.attribute / SUBDIRECTORY % 2 == 0 && item.filesize > 0 ==> ns == [BlocksFor(item.filesize)] + (if file.Contents? then [4] else []))
      && (file.Contents? ==> AfterStruct(file).1 == 1027 && |file.bytes| == item.filesize > 0)
  {
    hide BlocksFor;
    hide ReadSpec;
    DeliveredSize(vol, item);
  }

  /** The rest of a load once the image is in memory: the stack, the task and its address space. */
  method FinishLoad(h: Heap, ptr: word, size: word, ghost bytes: seq<byte>, ghost m0: seq<byte>, ghost c0: Chunks)
    returns (res: int, dir: word, stack: word, ghost p: Proc)
    requires IsKernelHeap(h) && Grows(h, m0, c0, h.mem[..], h.chunks)
    requires Served(h.Flags(), [4], 1027)
    requires 0 < size <= 0xFFFFF000 && |bytes| == size && ptr + size <= 0x1_0000_0000 && h.mem[ptr..ptr + size] == bytes
    requires Live(h, h.chunks, ptr, BlocksFor(size)) && h.AddressToBlock(ptr) !in c0
    modifies h, h.mem
    ensures res <= 0 && Grows(h, m0, c0, h.mem[..], h.chunks)
    ensures res == 0 ==> Holds(h, h.chunks, p) && Mapping(h.mem[..], p) && Carries(h.mem[..], p, bytes)
    ensures res == 0 ==> p.sp.dir == dir && p.image == ptr && p.size == size && p.stack == stack
    ensures res == 0 ==> forall x :: x in p.Own() ==> h.AddressToBlock(x) !in c0
    ensures res == 0 <==> HasRun(old(h.Flags()), 4)
  {
    hide Grows;
    hide BlocksFor;
    hide Served;
    hide FirstFit;
    hide HeapSpec.HasRun;
    hide Mapping;
    hide Carries;
    hide Holds;
    ghost var m1, c1 := h.mem[..], h.chunks;
    dir, p := 0, Proc(Space(0, 0, []), 0, 0, 0);
    StructBlocks();
    assert [4] + [] == [4];
    stack := Request(h, 0x4000, m0, c0, [], 1027);
    if stack == 0 {
      res := -ENOMEM;
      return;
    }
    ghost var m2, c2 := h.mem[..], h.chunks;
    GrowFacts(h, m0, c0, m2, c2);
    ServedRoom(h.Flags(), 1027);
    GrowChunk(h, m1, c1, m2, c2, ptr, BlocksFor(size));
    res, dir, p := MakeSpace(h, ptr, size, stack, bytes);
    GrowTrans(h, m0, c0, m2, c2, h.mem[..], h.chunks);
    SameImage(m1, ptr, size);
    CarriesKept(h, m1, c1, m2, c2, h.mem[..], h.chunks, p, bytes);
    OwnIsNew(h, m0, c0, m2, c2, p);
  }

  lemma SameImage(m: seq<byte>, ptr: word, size: word)
    requires ptr + size <= |m|
    ensures |m[ptr..ptr + size]| == size
  {
  }

  /** Two blocks for the process structure, four for the stack. */
  lemma StructBlocks()
    ensures BlocksFor(PROCESS_STRUCT_SIZE) == 2 && BlocksFor(0x4000) == 4
  {
  }

  lemma DeliveredSize(vol: Volume, item: DirItem)
    requires vol.spc > 0
    ensures match Delivered(vol, item)
      case Missing => item.attribute / SUBDIRECTORY % 2 == 1
      case Unreadable(size) => item.attribute / SUBDIRECTORY % 2 == 0 && size == item.filesize
      case Contents(bytes) => item.attribute / SUBDIRECTORY % 2 == 0 && |bytes| == item.filesize > 0
  {
    hide ReadSpec;
  }

  /** What is still to be asked for after the process structure, and what must be left. */
  ghost function AfterStruct(file: File): (seq<nat>, nat) {
    match file
    case Missing => ([], 0)
    case Unreadable(size) => if size <= 0xFFFFF000 then (ImageBlocks(size), 0) else ([], 0)
    case Contents(bytes) => if |bytes| <= 0xFFFFF000 then ([BlocksFor(|bytes|)] + [4], 1027) else ([], 0)
  }

  lemma CanLoadStruct(f: seq<byte>, file: File)
    requires CanLoad(f, file)
    ensures Served(f, [2] + AfterStruct(file).0, AfterStruct(file).1)
  {
    hide Served;
    assert [2] + [] == [2];
  }

  lemma ServedRoom(f: seq<byte>, k: nat)
    requires Served(f, [], k)
    ensures |FreeSet(f)| >= k
  {
  }

  lemma OwnIsNew(h: Heap, m0: seq<byte>, c0: Chunks, m2: seq<byte>, c2: Chunks, p: Proc)
    requires Grows(h, m0, c0, m2, c2)
    requires h.AddressToBlock(p.image) !in c0 && h.AddressToBlock(p.stack) !in c0
    requires forall x :: x in p.sp.Pages() ==> h.AddressToBlock(x) !in c2
    ensures forall x :: x in p.Own() ==> h.AddressToBlock(x) !in c0
  {
    forall x | x in p.Own() ensures h.AddressToBlock(x) !in c0 {
      assert x in p.sp.Pages() || x == p.image || x == p.stack;
    }
  }

  /** Every loaded slot has a process structure: a live chunk of two blocks that is no process's own, and no other slot's. */
  ghost predicate Structs(h: Heap, c: Chunks, slots: seq<Slot>, procs: seq<Proc>) {
    && |procs| <= |slots|
    && (forall i :: 0 <= i < |procs| ==> slots[i].Loaded? && Live(h, c, slots[i].self, 2))
    && (forall i, j :: 0 <= i < |procs| && 0 <= j < |procs| ==> slots[i].self !in procs[j].Own())
    && (forall i, j :: 0 <= i < j < |procs| ==> slots[i].self != slots[j].self)
  }

  lemma StructsGrown(h: Heap, c0: Chunks, c: Chunks, slots: seq<Slot>, procs: seq<Proc>)
    requires Structs(h, c0, slots, procs) && forall b :: b in c0 ==> b in c && c[b] == c0[b]
    ensures Structs(h, c, slots, procs)
  {
  }

  lemma StructsWithout(h: Heap, c: Chunks, slots: seq<Slot>, procs: seq<Proc>, ptr: word)
    requires Structs(h, c, slots, procs) && ptr == h.Addr(h.AddressToBlock(ptr))
    requires forall i :: 0 <= i < |procs| ==> slots[i].self != ptr
    ensures Structs(h, c - {h.AddressToBlock(ptr)}, slots, procs)
  {
    forall i | 0 <= i < |procs| ensures Live(h, c - {h.AddressToBlock(ptr)}, slots[i].self, 2) {
      assert Live(h, c, slots[i].self, 2);
    }
  }

  lemma StructsExtended(h: Heap, m0: seq<byte>, c0: Chunks, c: Chunks, slots: seq<Slot>, procs: seq<Proc>, s: Slot, p: Proc)
    requires System(h, m0, c0, procs) && Structs(h, c, slots, procs) && Structs(h, c0, slots, procs) && |procs| < |slots|
    requires s.Loaded? && Live(h, c, s.self, 2) && h.AddressToBlock(s.self) !in c0 && s.self !in p.Own()
    requires forall x :: x in p.Own() ==> h.AddressToBlock(x) !in c0
    ensures Structs(h, c, slots[|procs| := s], procs + [p])
  {
    hide Mapping;
    hide HeapSpec.Encodes;
    hide Apart;
    forall i | 0 <= i < |procs| ensures slots[i].self !in p.Own() && slots[i].self != s.self && s.self !in procs[i].Own() {
      assert Live(h, c0, slots[i].self, 2);
      OwnLive(h, c0, procs[i]);
    }
  }

  lemma OwnLive(h: Heap, c: Chunks, p: Proc)
    requires Holds(h, c, p)
    ensures forall x :: x in p.Own() ==> h.AddressToBlock(x) in c
  {
    forall x | x in p.Own() ensures h.AddressToBlock(x) in c {
      assert x in p.sp.Pages() || x == p.image || x == p.stack;
    }
  }

  class Kernel {
    const h: Heap
    const drv: Driver
    const slots: array<Slot>
    ghost var procs: seq<Proc>

    /** The heap is the kernel's, the first slots hold the loaded processes, and every process is in place. */
    ghost predicate Valid()
      reads this, h, h.mem, slots
    {
      && IsKernelHeap(h) && drv.Valid() && slots.Length == 1024 && |procs| <= 1024
      && System(h, h.mem[..], h.chunks, procs)
      && (forall i :: |procs| <= i < 1024 ==> slots[i].Empty?)
      && (forall i :: 0 <= i < |procs| ==> Describes(slots[i], procs[i]))
      && Structs(h, h.chunks, slots[..], procs)
    }

    static ghost predicate Describes(s: Slot, p: Proc) {
      s.Loaded? && s.dir == p.sp.dir && s.ptr == p.image && s.size == p.size && s.stack == p.stack
    }

    /** At boot: the kernel heap, no process. */
    constructor (h: Heap, drv: Driver)
      requires h.Valid() && IsKernelHeap(h) && drv.Valid()
      ensures Valid() && this.h == h && this.drv == drv && procs == [] && fresh(slots)
    {
      this.h, this.drv := h, drv;
      slots := new Slot[1024](_ => Empty);
      procs := [];
    }

    /** process_load: the first empty slot, or none. */
    method FindSlot() returns (slot: int)
      requires Valid()
      ensures slot == if |procs| < 1024 then |procs| else -1
    {
      hide System;
      slot := -1;
      var i := 0;
      while i < 1024
        invariant 0 <= i <= |procs| && slot == -1
      {
        if slots[i].Empty? {
          return i;
        }
        i := i + 1;
      }
    }

    /** process_load of an opened file (null when the path could not be opened). */
    method Load(desc: FileDescriptor?) returns (res: int)
      requires Valid()
      requires desc != null ==> desc.pos == 0 && desc.item.filesize <= 0xFFFFF000
      requires desc != null && desc.item.filesize > 0 ==> Sound(drv.vol, desc.item.cluster)
      requires CanLoad(h.Flags(), if desc == null then Missing else Delivered(drv.vol, desc.item))
      modifies this`procs, h, h.mem, slots, drv.clusterStream, drv.fatStream
      ensures Valid() && res <= 0
      // Whatever happens, the chunks that were live stay live with their contents.
      ensures Grows(h, old(h.mem[..]), old(h.chunks), h.mem[..], h.chunks)
      // A failed load leaves the process table as it is.
      ensures res < 0 ==> procs == old(procs) && slots[..] == old(slots[..])
      // It succeeds exactly if there is a slot, the file is delivered, and structure, image and stack are met.
      ensures res == 0 <==>
        (desc != null && Delivered(drv.vol, desc.item).Contents? && |old(procs)| < 1024 &&
         Meets(old(h.Flags()), LoadRequests(desc.item.filesize)))
      // A load that succeeds has read the whole file, and the new process carries it.
      ensures res == 0 ==> |procs| == |old(procs)| + 1 && procs[..|old(procs)|] == old(procs)
      ensures res == 0 ==> Carries(h.mem[..], procs[|old(procs)|], Delivered(drv.vol, desc.item).bytes)
      // Its slot holds the address of its new process structure.
      ensures res == 0 ==> slots[|old(procs)|].Loaded? && slots[|old(procs)|].self != 0
      ensures res == 0 ==> Live(h, h.chunks, slots[|old(procs)|].self, 2) && h.AddressToBlock(slots[|old(procs)|].self) !in old(h.chunks)
      ensures forall i :: 0 <= i < 1024 && i != |old(procs)| ==> slots[i] == old(slots[i])
    {
      hide Structs;
      hide Live;
      hide System;
      hide Grows;
      hide BlocksFor;
      hide Served;
      hide Meets;
      hide Carries;
      ghost var m0, c0 := h.mem[..], h.chunks;
      assert h.Valid() by { SystemFacts(h, m0, c0, procs); }
      GrowNothing(h, m0, c0);
      var slot := FindSlot();
      if slot < 0 {
        return -ENOMEM;
      }
      var ptr, size, stack, dir, self;
      ghost var p;
      res, self, dir, ptr, size, stack, p := LoadForSlot(h, drv, desc);
      GrowKeepsSystem(h, m0, c0, h.mem[..], h.chunks, procs);
      GrownChunks(h, m0, c0, h.mem[..], h.chunks);
      StructsGrown(h, c0, h.chunks, slots[..], procs);
      if res < 0 {
        return;
      }
      LiveNotNull(h, h.mem[..], h.chunks, self, 2);
      ghost var before := slots[..];
      slots[slot] := Loaded(self, dir, ptr, size, stack);
      StructsExtended(h, m0, c0, h.chunks, before, procs, slots[slot], p);
      assert slots[..] == before[|procs| := slots[slot]];
      SystemExtended(h, m0, c0, h.mem[..], h.chunks, procs, p);
      procs := procs + [p];
    }

    /** One user-mode store by a loaded process, as the processor carries it out on the tables in memory. */
    method UserStore(pid: nat, v: word, b: byte)
      requires Valid() && pid < |procs|
      modifies h.mem
      ensures Valid() && h.mem[..] == StoreByte(old(h.mem[..]), procs[pid].sp.dir, v, b)
      ensures forall a :: !InMemoryOf(procs[pid], a) ==> Get(h.mem[..], a) == Get(old(h.mem[..]), a)
    {
      hide System;
      hide Structs;
      hide InMemoryOf;
      ghost var m, p := h.mem[..], procs[pid];
      OneProcess(h, m, h.chunks, procs, pid);
      StoreEffect(h, m, h.chunks, p, v, b);
      StoreThrough(h.mem, slots[pid].dir, v, b, p.sp.tables);
      if InImageWindow(p, v) || InStackWindow(v) {
        ChangeKeepsSystem(h, m, h.mem[..], h.chunks, procs, pid, Target(p, v));
      }
    }

    /** kzalloc of anything else while processes are loaded. */
    method KernelAlloc(size: word) returns (r: word)
      requires Valid() && size > 0 && h.Serves(size)
      modifies h, h.mem
      ensures Valid() && procs == old(procs) && Grows(h, old(h.mem[..]), old(h.chunks), h.mem[..], h.chunks)
      ensures HasRun(old(h.Flags()), BlocksFor(size)) ==> h.Zeroed(old(h.mem[..]), old(h.chunks), h.mem[..], h.chunks, size, r)
      ensures !HasRun(old(h.Flags()), BlocksFor(size)) ==> r == 0 && h.mem[..] == old(h.mem[..]) && h.chunks == old(h.chunks)
    {
      hide System;
      hide Structs;
      hide Mapping;
      ghost var m, c := h.mem[..], h.chunks;
      SystemFacts(h, m, c, procs);
      GrowNothing(h, m, c);
      r := h.Kzalloc(size, false);
      if HasRun(h.FlagsIn(m), BlocksFor(size)) {
        GrowZalloc(h, m, c, m, c, h.mem[..], h.chunks, size, r);
        GrowKeepsSystem(h, m, c, h.mem[..], h.chunks, procs);
        GrownChunks(h, m, c, h.mem[..], h.chunks);
        StructsGrown(h, c, h.chunks, slots[..], procs);
      }
    }

    /** kfree of a live chunk that no process holds, nor a slot as its process structure. */
    method KernelFree(ptr: word)
      requires Valid() && h.AddressToBlock(ptr) in h.chunks && ptr == h.Addr(h.AddressToBlock(ptr))
      requires forall i :: 0 <= i < |procs| ==> ptr !in procs[i].Own() && slots[i].self != ptr
      modifies h, h.mem
      ensures Valid() && procs == old(procs) && h.chunks == old(h.chunks) - {h.AddressToBlock(ptr)}
      ensures SameOutside(old(h.mem[..]), h.mem[..], h.table, h.table + h.total)
    {
      hide System;
      hide Mapping;
      ghost var m, c := h.mem[..], h.chunks;
      SystemFacts(h, m, c, procs);
      StructsWithout(h, c, slots[..], procs, ptr);
      hide Structs;
      h.Free(ptr);
      FreeKeepsSystem(h, m, c, h.mem[..], h.chunks, procs, ptr);
    }
  }

  lemma OneProcess(h: Heap, m: seq<byte>, c: Chunks, procs: seq<Proc>, i: nat)
    requires System(h, m, c, procs) && i < |procs|
    ensures h.ValidIn(m, c) && Holds(h, c, procs[i]) && Mapping(m, procs[i]) && Shape(m, procs[i].sp.dir, procs[i].sp.tables)
  {
  }

  /** The processor's walk: directory entry, table entry, permission check, then the byte. */
  method StoreThrough(mem: array<byte>, dir: word, v: word, b: byte, ghost tables: seq<word>)
    requires mem.Length == 0x1_0000_0000 && Shape(mem[..], dir, tables)
    modifies mem
    ensures mem[..] == StoreByte(old(mem[..]), dir, v, b)
  {
    hide WordAt;
    hide StoreByte;
    hide Present;
    hide Writeable;
    hide UserAccess;
    hide Shape;
    hide GetPointer;
    ghost var m := mem[..];
    var d := v / 0x40_0000;
    EntryRoom(m, dir, tables, d);
    var pde := Load32(mem, dir as int + 4 * d);
    var pte := Load32(mem, GetPointer(pde) as int + 4 * (v / 4096 % 1024));
    StoreIs(m, dir, v, b, pde, pte);
    if Present(pde) && Present(pte) && Writeable(pde) && Writeable(pte) && UserAccess(pde) && UserAccess(pte) {
      mem[GetPointer(pte) + v % 4096] := b;
    }
  }

  lemma StoreIs(m: seq<byte>, dir: word, v: word, b: byte, pde: word, pte: word)
    requires |m| == 0x1_0000_0000 && pde == TableWord(m, dir, v / 0x40_0000)
    requires pte == TableWord(m, GetPointer(pde), v / 4096 % 1024)
    ensures GetPointer(pte) + v % 4096 < |m|
    ensures StoreByte(m, dir, v, b) ==
      if Present(pde) && Present(pte) && Writeable(pde) && Writeable(pte) && UserAccess(pde) && UserAccess(pte)
      then m[GetPointer(pte) + v % 4096 := b] else m
  {
    hide WordAt;
    hide Present;
    hide Writeable;
    hide UserAccess;
    assert v / 4096 / 1024 == v / 0x40_0000;
    PointerRoom(pte, v);
  }

  lemma EntryRoom(m: seq<byte>, dir: word, tables: seq<word>, d: int)
    requires Shape(m, dir, tables) && 0 <= d < 1024
    ensures dir as int + 4096 <= 0x1_0000_0000 && GetPointer(WordAt(m, dir as int + 4 * d)) as int + 4096 <= 0x1_0000_0000
  {
    assert GetPointer(TableWord(m, dir, d)) == tables[d];
    PointerRoom(TableWord(m, dir, d), 4095);
  }

  lemma PointerRoom(e: word, v: word)
    ensures GetPointer(e) + v % 4096 < 0x1_0000_0000 && GetPointer(e) % 4096 == 0
  {
  }

  lemma FreeKeepsSystem(h: Heap, m: seq<byte>, c: Chunks, m2: seq<byte>, c2: Chunks, procs: seq<Proc>, ptr: word)
    requires System(h, m, c, procs) && h.ValidIn(m2, c2)
    requires ptr == h.Addr(h.AddressToBlock(ptr)) && c2 == c - {h.AddressToBlock(ptr)}
    requires SameOutside(m, m2, h.table, h.table + h.total)
    requires forall i :: 0 <= i < |procs| ==> ptr !in procs[i].Own()
    ensures System(h, m2, c2, procs)
  {
    hide Mapping;
    hide HeapSpec.Encodes;
    hide Apart;
    forall i | 0 <= i < |procs| ensures Holds(h, c2, procs[i]) && Mapping(m2, procs[i]) {
      HoldsWithout(h, c, c2, procs[i], ptr);
      forall x | x in procs[i].sp.Pages() ensures SamePage(m, m2, x) {
        PageInPool(h, m, c, x, 1);
      }
      MappingFrame(m, m2, procs[i]);
    }
  }

  lemma HoldsWithout(h: Heap, c: Chunks, c2: Chunks, p: Proc, ptr: word)
    requires Holds(h, c, p) && ptr !in p.Own() && ptr == h.Addr(h.AddressToBlock(ptr)) && c2 == c - {h.AddressToBlock(ptr)}
    ensures Holds(h, c2, p)
  {
    hide BlocksFor;
    hide Distinct;
    OwnChunks(p);
    assert forall x :: x in p.sp.Pages() ==> x in p.Own();
    assert forall x, n :: Live(h, c, x, n) && x != ptr ==> Live(h, c2, x, n);
  }

  // ---- end to end ----

  /** A loaded process sees its program at 0x400000 and a zeroed stack. */
  lemma LoadedProgramVisible(h: Heap, m: seq<byte>, c: Chunks, procs: seq<Proc>, i: nat, bytes: seq<byte>, v: word)
    requires System(h, m, c, procs) && i < |procs| && Carries(m, procs[i], bytes)
    ensures 0x40_0000 <= v < 0x40_0000 + |bytes| ==> LoadByte(m, procs[i].sp.dir, v) == bytes[v - 0x40_0000]
    ensures InStackWindow(v) ==> LoadByte(m, procs[i].sp.dir, v) == 0
  {
    hide Mapping;
    hide Translate;
    hide UserWritable;
    OneProcess(h, m, c, procs, i);
    BlocksForExact(procs[i].size);
    TranslationExact(h, m, c, procs[i], v);
  }

  /** Which program files a load can read at all: on a chain that ends with the file, exactly those of at most two
      clusters; and then what is delivered is the file. */
  lemma DeliveredExact(vol: Volume, item: DirItem, n: nat)
    requires vol.spc > 0 && item.attribute / SUBDIRECTORY % 2 == 0 && item.filesize > 0
    requires HasChain(vol, item.cluster, n) && Walk(vol, item.cluster, n).Lost?
    requires (n - 1) * vol.Bpc() < item.filesize <= n * vol.Bpc()
    ensures |ChainBytes(vol, item.cluster, n)| == n * vol.Bpc()
    ensures Delivered(vol, item) ==
      if item.filesize <= 2 * vol.Bpc() then Contents(ChainBytes(vol, item.cluster, n)[..item.filesize]) else Unreadable(item.filesize)
  {
    hide Walk;
    hide ChainBytes;
    hide ReadSpec;
    WrittenExact(vol, item.cluster, n, 0, item.filesize);
    StraightFromStart(item.filesize, vol.Bpc());
  }
}
