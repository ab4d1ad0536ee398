/** Address spaces of loaded processes, and what user-mode stores made through them can reach. */
module Isolation {
  import opened Words
  import opened Sequences
  import opened HeapSpec
  import opened Heaps
  import opened Paging
  import opened Spaces

  // config.h: the image is seen at 0x400000, the stack at [0x3FB000, 0x3FF000).
  const PROGRAM_VIRTUAL_ADDRESS: word := 0x40_0000
  const STACK_VIRTUAL_END: word := 0x3F_B000
  const STACK_SIZE: nat := 0x4000

  /** A loaded process: its address space, its image of size bytes and its stack. */
  datatype Proc = Proc(sp: Space, image: word, size: word, stack: word) {
    /** Everything it holds, one heap chunk each. */
    function Own(): seq<word> {
      sp.Pages() + [image, stack]
    }
  }

  /** Page q of the address space. */
  function Entry(p: Proc, q: int): int {
    if 0x400 <= q < 0x400 + BlocksFor(p.size) then p.image + 4096 * (q - 0x400) + 7
    else if 0x3FB <= q < 0x3FF then p.stack + 4096 * (q - 0x3FB) + 7
    else 4096 * q + 5
  }

  predicate InImageWindow(p: Proc, v: int) {
    0x40_0000 <= v < 0x40_0000 + 4096 * BlocksFor(p.size)
  }

  predicate InStackWindow(v: int) {
    0x3F_B000 <= v < 0x3F_F000
  }

  /** Where virtual address v leads. */
  function Target(p: Proc, v: int): int {
    if InImageWindow(p, v) then p.image + (v - 0x40_0000)
    else if InStackWindow(v) then p.stack + (v - 0x3F_B000)
    else v
  }

  /** The physical bytes of the image and the stack. */
  predicate InMemoryOf(p: Proc, a: int) {
    p.image <= a < p.image + 4096 * BlocksFor(p.size) || p.stack <= a < p.stack + 0x4000
  }

  /** The tables of p are in place in m. */
  ghost predicate Mapping(m: seq<byte>, p: Proc) {
    && Shape(m, p.sp.dir, p.sp.tables)
    && (forall d :: 0 <= d < 1024 ==> TableWord(m, p.sp.dir, d) == p.sp.tables[d] + 7)
    && (forall q :: 0 <= q < 0x10_0000 ==> Pte(m, p.sp.dir, q) == Entry(p, q))
  }

  /** p holds its chunks. */
  ghost predicate Holds(h: Heap, c: Chunks, p: Proc) {
    && 0 < p.size <= 0xFFFFF000
    && AllLive(h, c, p.sp.Pages())
    && Live(h, c, p.image, BlocksFor(p.size)) && Live(h, c, p.stack, 4)
    && Distinct(p.Own())
  }

  ghost predicate Apart(p: Proc, q: Proc) {
    forall a :: a in p.Own() ==> a !in q.Own()
  }

  /** All processes are in place, and no two share a chunk. */
  ghost predicate System(h: Heap, m: seq<byte>, c: Chunks, procs: seq<Proc>) {
    && h.ValidIn(m, c)
    && (forall i :: 0 <= i < |procs| ==> Holds(h, c, procs[i]) && Mapping(m, procs[i]))
    && (forall i, j :: 0 <= i < j < |procs| ==> Apart(procs[i], procs[j]))
  }

  // ---- one address space ----

  /** Translation and write permission, for every address: the two windows and nothing else. */
  lemma TranslationExact(h: Heap, m: seq<byte>, c: Chunks, p: Proc, v: word)
    requires h.ValidIn(m, c) && Holds(h, c, p) && Mapping(m, p)
    ensures Translate(m, p.sp.dir, v) == Physical(Target(p, v))
    ensures UserWritable(m, p.sp.dir, v) <==> InImageWindow(p, v) || InStackWindow(v)
  {
    hide WordAt;
    hide Live;
    hide Distinct;
    hide GetPointer;
    hide BlocksFor;
    hide Present;
    hide Writeable;
    hide UserAccess;
    var q, d := v / 4096, v / 0x40_0000;
    PageInPool(h, m, c, p.image, BlocksFor(p.size));
    PageInPool(h, m, c, p.stack, 4);
    EntryOfWindow(p, q, v);
    assert v / 4096 / 1024 == d;
    hide Mapping;
    hide Entry;
    WalkOf(m, p, q);
  }

  /** The two entries of a page, as the processor reads them. */
  lemma WalkOf(m: seq<byte>, p: Proc, q: int)
    requires Mapping(m, p) && 0 <= q < 0x10_0000 && Entry(p, q) >= 0 && (Entry(p, q) % 4096 == 7 || Entry(p, q) % 4096 == 5)
    ensures var pde, pte := TableWord(m, p.sp.dir, q / 1024), Pte(m, p.sp.dir, q);
      && Present(pde) && Writeable(pde) && UserAccess(pde) && Present(pte) && UserAccess(pte)
      && (Writeable(pte) <==> Entry(p, q) % 4096 == 7) && GetPointer(pte) == Entry(p, q) - Entry(p, q) % 4096
  {
    hide WordAt;
    hide GetPointer;
    hide BlocksFor;
    hide Present;
    hide Writeable;
    hide UserAccess;
    hide TableWord;
    hide Entry;
    var d := q / 1024;
    assert Pte(m, p.sp.dir, q) == Entry(p, q);
    assert p.sp.tables[d] % 4096 == 0;
    hide Pte;
    EntryBits(Pte(m, p.sp.dir, q), Entry(p, q) - Entry(p, q) % 4096, Entry(p, q) % 4096);
    EntryBits(TableWord(m, p.sp.dir, d), p.sp.tables[d], 7);
  }

  lemma EntryOfWindow(p: Proc, q: int, v: int)
    requires 0 <= q < 0x10_0000 && p.image % 4096 == 0 && p.stack % 4096 == 0 && q == v / 4096
    ensures Entry(p, q) >= 0
    ensures Entry(p, q) % 4096 == if InImageWindow(p, v) || InStackWindow(v) then 7 else 5
    ensures Entry(p, q) - Entry(p, q) % 4096 + v % 4096 == Target(p, v)
  {
    hide BlocksFor;
  }

  /** What a process may write is its own: inside its own chunks in the pool. */
  lemma WritableIsOwn(h: Heap, m: seq<byte>, c: Chunks, p: Proc, v: word)
    requires h.ValidIn(m, c) && Holds(h, c, p) && Mapping(m, p) && UserWritable(m, p.sp.dir, v)
    ensures InMemoryOf(p, Target(p, v))
  {
    TranslationExact(h, m, c, p, v);
  }

  /** The memory of a process lies in the pool and apart from the flag table and from every other chunk. */
  lemma OwnMemoryApart(h: Heap, m: seq<byte>, c: Chunks, p: Proc, a: int, x: word, n: nat)
    requires h.ValidIn(m, c) && Holds(h, c, p) && InMemoryOf(p, a)
    ensures h.saddr <= a < h.Addr(h.total) && !(h.table <= a < h.table + h.total)
    ensures Live(h, c, x, n) && x != p.image && x != p.stack ==> !(x <= a < x + 4096 * n)
  {
    PageInPool(h, m, c, p.image, BlocksFor(p.size));
    PageInPool(h, m, c, p.stack, 4);
    if Live(h, c, x, n) && x != p.image && x != p.stack {
      LiveApart(h, m, c, p.image, BlocksFor(p.size), x, n);
      LiveApart(h, m, c, p.stack, 4, x, n);
    }
  }

  /** Tables read the same in any memory that agrees on their pages. */
  lemma MappingFrame(m1: seq<byte>, m2: seq<byte>, p: Proc)
    requires Mapping(m1, p) && forall x :: x in p.sp.Pages() ==> SamePage(m1, m2, x)
    ensures Mapping(m2, p)
  {
    hide WordAt;
    var pages := p.sp.Pages();
    assert pages[0] == p.sp.dir && pages[0] in pages;
    forall d | 0 <= d < 1024 ensures SamePage(m1, m2, p.sp.tables[d]) {
      assert pages[d + 1] == p.sp.tables[d] && pages[d + 1] in pages;
    }
    ShapeFrame(m1, m2, p.sp.dir, p.sp.tables);
  }

  // ---- user-mode stores ----

  /** Process pid stores byte b at virtual address v; without write permission the store faults and changes nothing. */
  datatype Store = Store(pid: nat, v: word, b: byte)

  ghost predicate Issued(procs: seq<Proc>, stores: seq<Store>) {
    forall k :: 0 <= k < |stores| ==> stores[k].pid < |procs|
  }

  /** A byte written through directory dir. */
  function StoreByte(m: seq<byte>, dir: word, v: word, b: byte): seq<byte> {
    var t := Translate(m, dir, v);
    if UserWritable(m, dir, v) && t.Physical? && t.addr < |m| then m[t.addr := b] else m
  }

  /** A byte read through directory dir, by anyone to whom the page is present. */
  function LoadByte(m: seq<byte>, dir: word, v: word): byte {
    var t := Translate(m, dir, v);
    if t.Physical? then Get(m, t.addr) else 0
  }

  function Run(m: seq<byte>, procs: seq<Proc>, stores: seq<Store>): seq<byte>
    requires Issued(procs, stores)
    decreases |stores|
  {
    if stores == [] then m
    else Run(StoreByte(m, procs[stores[0].pid].sp.dir, stores[0].v, stores[0].b), procs, stores[1..])
  }

  /** The effect of one store: at most one byte, in the storing process's own memory. */
  lemma StoreEffect(h: Heap, m: seq<byte>, c: Chunks, p: Proc, v: word, b: byte)
    requires h.ValidIn(m, c) && Holds(h, c, p) && Mapping(m, p)
    ensures var m2, t := StoreByte(m, p.sp.dir, v, b), Target(p, v);
      if InImageWindow(p, v) || InStackWindow(v)
      then 0 <= t < |m| && InMemoryOf(p, t) && m2 == m[t := b] && SameOutside(m, m2, t, t + 1)
      else m2 == m
  {
    hide Mapping;
    hide Translate;
    hide UserWritable;
    TranslationExact(h, m, c, p, v);
    if InImageWindow(p, v) || InStackWindow(v) {
      OwnMemoryApart(h, m, c, p, Target(p, v), p.image, 0);
    }
  }

  /** A byte changed in the memory of p leaves every table of every process, and the flag table, as they are. */
  lemma ChangeKeepsSystem(h: Heap, m: seq<byte>, m2: seq<byte>, c: Chunks, procs: seq<Proc>, i: nat, t: int)
    requires System(h, m, c, procs) && i < |procs| && InMemoryOf(procs[i], t) && SameOutside(m, m2, t, t + 1)
    ensures System(h, m2, c, procs) && h.FlagsIn(m2) == h.FlagsIn(m)
  {
    hide Mapping;
    hide InMemoryOf;
    hide HeapSpec.Encodes;
    OwnMemoryApart(h, m, c, procs[i], t, procs[i].image, 0);
    SameSlice(m, m2, h.table, h.table + h.total);
    forall j | 0 <= j < |procs| ensures Mapping(m2, procs[j]) {
      forall x | x in procs[j].sp.Pages() ensures SamePage(m, m2, x) {
        PageOfOther(h, c, procs, i, j, x);
        OwnMemoryApart(h, m, c, procs[i], t, x, 1);
      }
      MappingFrame(m, m2, procs[j]);
    }
  }

  /** The page of any process's directory is a live chunk other than the image and the stack of process i. */
  lemma PageOfOther(h: Heap, c: Chunks, procs: seq<Proc>, i: nat, j: nat, x: word)
    requires i < |procs| && j < |procs| && Holds(h, c, procs[j]) && x in procs[j].sp.Pages()
    requires Distinct(procs[i].Own())
    requires forall k, l :: 0 <= k < l < |procs| ==> Apart(procs[k], procs[l])
    ensures Live(h, c, x, 1) && x != procs[i].image && x != procs[i].stack
  {
    var own, n := procs[i].Own(), |procs[i].sp.Pages()|;
    assert own[n] == procs[i].image && own[n + 1] == procs[i].stack;
    assert own[n] in own && own[n + 1] in own;
    if i == j {
      var k :| 0 <= k < n && procs[j].sp.Pages()[k] == x;
      assert own[k] == x;
    } else {
      assert x in procs[j].Own();
    }
  }

  /** Isolation: over every run of user-mode stores, whatever is stored and by whom, ... */
  lemma {:induction false} RunIsolated(h: Heap, m: seq<byte>, c: Chunks, procs: seq<Proc>, stores: seq<Store>)
    requires System(h, m, c, procs) && Issued(procs, stores)
    // ... every table of every process, and the heap's flag table, stay in place, ...
    ensures System(h, Run(m, procs, stores), c, procs)
    ensures h.FlagsIn(Run(m, procs, stores)) == h.FlagsIn(m)
    // ... and nothing changes outside the images and stacks of those that stored.
    ensures forall a :: (forall k :: 0 <= k < |stores| ==> !InMemoryOf(procs[stores[k].pid], a)) ==>
      Get(Run(m, procs, stores), a) == Get(m, a)
    decreases |stores|
  {
    hide Mapping;
    hide InMemoryOf;
    hide HeapSpec.Encodes;
    hide Holds;
    hide Apart;
    hide StoreByte;
    if stores != [] {
      var s := stores[0];
      var p := procs[s.pid];
      var m2 := StoreByte(m, p.sp.dir, s.v, s.b);
      StoreEffect(h, m, c, p, s.v, s.b);
      if InImageWindow(p, s.v) || InStackWindow(s.v) {
        ChangeKeepsSystem(h, m, m2, c, procs, s.pid, Target(p, s.v));
      }
      RunIsolated(h, m2, c, procs, stores[1..]);
      forall a | forall k :: 0 <= k < |stores| ==> !InMemoryOf(procs[stores[k].pid], a)
        ensures Get(Run(m, procs, stores), a) == Get(m, a)
      {
        assert !InMemoryOf(procs[stores[0].pid], a);
        assert forall k :: 0 <= k < |stores| - 1 ==> stores[1..][k] == stores[k + 1];
      }
    }
  }

  /** Hence every address space translates, and permits writing, the same before and after any run. */
  lemma TranslationInvariant(h: Heap, m: seq<byte>, c: Chunks, procs: seq<Proc>, stores: seq<Store>, i: nat, v: word)
    requires System(h, m, c, procs) && Issued(procs, stores) && i < |procs|
    ensures var m2, dir := Run(m, procs, stores), procs[i].sp.dir;
      Translate(m2, dir, v) == Translate(m, dir, v) && (UserWritable(m2, dir, v) <==> UserWritable(m, dir, v))
  {
    hide Mapping;
    hide Translate;
    hide UserWritable;
    RunIsolated(h, m, c, procs, stores);
    TranslationExact(h, m, c, procs[i], v);
    TranslationExact(h, Run(m, procs, stores), c, procs[i], v);
  }

  // ---- non-interference ----

  /** The stores process i issued, in order. */
  function OnlyOf(stores: seq<Store>, i: nat): (r: seq<Store>)
    ensures forall k :: 0 <= k < |r| ==> r[k].pid == i
  {
    if stores == [] then []
    else (if stores[0].pid == i then [stores[0]] else []) + OnlyOf(stores[1..], i)
  }

  ghost predicate AgreeOn(p: Proc, m1: seq<byte>, m2: seq<byte>) {
    forall a :: InMemoryOf(p, a) ==> Get(m1, a) == Get(m2, a)
  }

  lemma OwnMemoryDisjoint(h: Heap, m: seq<byte>, c: Chunks, procs: seq<Proc>, i: nat, j: nat, a: int)
    requires System(h, m, c, procs) && i < |procs| && j < |procs| && i != j && InMemoryOf(procs[i], a)
    ensures !InMemoryOf(procs[j], a)
  {
    hide Mapping;
    hide HeapSpec.Encodes;
    var p, q := procs[i], procs[j];
    OwnChunks(p);
    OwnChunks(q);
    assert forall x :: x in p.Own() ==> x !in q.Own();
    OwnMemoryApart(h, m, c, p, a, q.image, BlocksFor(q.size));
    OwnMemoryApart(h, m, c, p, a, q.stack, 4);
  }

  lemma OwnChunks(p: Proc)
    ensures p.image in p.Own() && p.stack in p.Own()
  {
    var n := |p.sp.Pages()|;
    assert p.Own()[n] == p.image && p.Own()[n + 1] == p.stack;
  }

  /** What a process finds in its image and stack after a run depends on its own stores alone. */
  lemma {:induction false} NonInterference(h: Heap, m1: seq<byte>, m2: seq<byte>, c: Chunks, procs: seq<Proc>, stores: seq<Store>, i: nat)
    requires System(h, m1, c, procs) && System(h, m2, c, procs) && Issued(procs, stores) && i < |procs|
    requires AgreeOn(procs[i], m1, m2)
    ensures AgreeOn(procs[i], Run(m1, procs, stores), Run(m2, procs, OnlyOf(stores, i)))
    decreases |stores|
  {
    hide Mapping;
    hide InMemoryOf;
    hide HeapSpec.Encodes;
    hide Holds;
    hide Apart;
    hide StoreByte;
    if stores != [] {
      var s := stores[0];
      var p := procs[s.pid];
      var n1, n2 := StoreByte(m1, p.sp.dir, s.v, s.b), StoreByte(m2, p.sp.dir, s.v, s.b);
      var rest := OnlyOf(stores[1..], i);
      StoreEffect(h, m1, c, p, s.v, s.b);
      if InImageWindow(p, s.v) || InStackWindow(s.v) {
        ChangeKeepsSystem(h, m1, n1, c, procs, s.pid, Target(p, s.v));
      }
      if s.pid == i {
        StoreEffect(h, m2, c, p, s.v, s.b);
        if InImageWindow(p, s.v) || InStackWindow(s.v) {
          ChangeKeepsSystem(h, m2, n2, c, procs, s.pid, Target(p, s.v));
        }
        NonInterference(h, n1, n2, c, procs, stores[1..], i);
        assert OnlyOf(stores, i) == [s] + rest && OnlyOf(stores, i)[1..] == rest;
      } else {
        forall a | InMemoryOf(procs[i], a) ensures Get(n1, a) == Get(m2, a) {
          OwnMemoryDisjoint(h, m1, c, procs, i, s.pid, a);
        }
        NonInterference(h, n1, m2, c, procs, stores[1..], i);
        assert OnlyOf(stores, i) == rest;
      }
    }
  }

  /** A byte stored in a window is read back there, and no other address of the windows is disturbed. */
  lemma StoreReadsBack(h: Heap, m: seq<byte>, c: Chunks, procs: seq<Proc>, i: nat, v: word, b: byte, w: word)
    requires System(h, m, c, procs) && i < |procs|
    requires var p := procs[i];
      (InImageWindow(p, v) || InStackWindow(v)) && (InImageWindow(p, w) || InStackWindow(w))
    ensures var dir := procs[i].sp.dir;
      LoadByte(StoreByte(m, dir, v, b), dir, w) == if w == v then b else LoadByte(m, dir, w)
  {
    hide Mapping;
    hide Translate;
    hide UserWritable;
    hide HeapSpec.Encodes;
    var p := procs[i];
    var m2 := StoreByte(m, p.sp.dir, v, b);
    StoreEffect(h, m, c, p, v, b);
    ChangeKeepsSystem(h, m, m2, c, procs, i, Target(p, v));
    TranslationExact(h, m, c, p, w);
    TranslationExact(h, m2, c, p, w);
    OwnChunks(p);
    TargetInjective(h, m, c, p, v, w);
  }

  lemma TargetInjective(h: Heap, m: seq<byte>, c: Chunks, p: Proc, v: word, w: word)
    requires h.ValidIn(m, c) && Holds(h, c, p)
    requires (InImageWindow(p, v) || InStackWindow(v)) && (InImageWindow(p, w) || InStackWindow(w))
    ensures Target(p, v) == Target(p, w) ==> v == w
  {
    var n := |p.sp.Pages()|;
    assert p.Own()[n] != p.Own()[n + 1];
    LiveApart(h, m, c, p.image, BlocksFor(p.size), p.stack, 4);
  }
}
