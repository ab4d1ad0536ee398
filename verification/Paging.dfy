/** Two-level page tables (paging.c) and what the processor makes of them. */
module Paging {
  import opened Words
  import opened Errors

  // Flag bits of directory and table entries (paging.h).
  const ACCESS_FROM_ALL: byte := 4
  const IS_WRITEABLE: byte := 2
  const IS_PRESENT: byte := 1


  // ---- packed entries ----

  /** PAGING_ENTRY_GET_POINTER: the entry masked with 0xFFFFF000. */
  function GetPointer(entry: word): word {
    entry - entry % 4096
  }

  lemma PointerIsMask(entry: word)
    ensures GetPointer(entry) == BitAnd(entry, 0xFFFFF000)
  {
    UnpackPage(entry);
  }

  /** PAGING_ENTRY_SET_FLAGS */
  function SetFlags(entry: word, flags: word): word {
    ShlBytes(1);
    OrBound(entry, flags, 32);
    BitOr(entry, flags)
  }

  /** Packing loses nothing as long as the pointer is page aligned: pointer and flags both come back. */
  lemma PackRoundTrip(p: word, flags: word)
    requires p % 4096 == 0 && flags < 4096
    ensures SetFlags(p, flags) == p + flags
    ensures GetPointer(SetFlags(p, flags)) == p
    ensures SetFlags(p, flags) % 4096 == flags
  {
    PackPage(p, flags);
  }

  // ---- the processor: 32-bit paging, Intel SDM Vol. 3A, sections 4.3 and 4.6 ----

  datatype Translation = Fault | Physical(addr: word)

  function TableWord(m: seq<byte>, table: word, t: int): word {
    WordAt(m, table + 4 * t)
  }

  /** The table entry the processor reaches for a virtual page. */
  function Pte(m: seq<byte>, dir: word, page: int): word {
    TableWord(m, GetPointer(TableWord(m, dir, page / 1024)), page % 1024)
  }

  predicate Present(e: word) { e % 2 == 1 }
  predicate Writeable(e: word) { e / 2 % 2 == 1 }
  predicate UserAccess(e: word) { e / 4 % 2 == 1 }

  function Translate(m: seq<byte>, dir: word, v: word): Translation {
    if Present(TableWord(m, dir, v / 0x40_0000)) && Present(Pte(m, dir, v / 4096))
    then Physical(GetPointer(Pte(m, dir, v / 4096)) + v % 4096)
    else Fault
  }

  /** A user-mode write needs presence, write and user permission at both levels. */
  predicate UserWritable(m: seq<byte>, dir: word, v: word) {
    var pde, pte := TableWord(m, dir, v / 0x40_0000), Pte(m, dir, v / 4096);
    Present(pde) && Present(pte) && Writeable(pde) && Writeable(pte) && UserAccess(pde) && UserAccess(pte)
  }

  // ---- directories in memory ----

  /** dir is a directory whose 1024 entries lead to these tables, all on different pages. */
  ghost predicate Shape(m: seq<byte>, dir: word, tables: seq<word>) {
    && |tables| == 1024
    && dir % 4096 == 0
    && (forall d :: 0 <= d < 1024 ==> tables[d] % 4096 == 0 && tables[d] != dir && GetPointer(TableWord(m, dir, d)) == tables[d])
    && (forall d, e :: 0 <= d < e < 1024 ==> tables[d] != tables[e])
  }

  function PageOf(a: int): int {
    a - a % 4096
  }

  predicate Outside(pages: seq<word>, a: int) {
    PageOf(a) !in pages
  }

  /** Memory differs at most inside the given pages. */
  ghost predicate OnlyPages(m1: seq<byte>, m2: seq<byte>, pages: seq<word>) {
    |m1| == |m2| && forall a {:trigger Outside(pages, a)} :: Outside(pages, a) ==> Get(m2, a) == Get(m1, a)
  }

  ghost predicate SamePage(m1: seq<byte>, m2: seq<byte>, p: word) {
    forall a :: p <= a < p + 4096 ==> Get(m2, a) == Get(m1, a)
  }

  lemma SameTable(m1: seq<byte>, m2: seq<byte>, p: word)
    requires SamePage(m1, m2, p)
    ensures forall t :: 0 <= t < 1024 ==> TableWord(m2, p, t) == TableWord(m1, p, t)
  {
    forall t | 0 <= t < 1024 ensures TableWord(m2, p, t) == TableWord(m1, p, t) {
      SameWord(m1, m2, p + 4 * t);
    }
  }

  /** A directory and its tables are read the same in any memory that agrees on their pages. */
  lemma ShapeFrame(m1: seq<byte>, m2: seq<byte>, dir: word, tables: seq<word>)
    requires Shape(m1, dir, tables) && SamePage(m1, m2, dir)
    requires forall d :: 0 <= d < 1024 ==> SamePage(m1, m2, tables[d])
    ensures Shape(m2, dir, tables)
    ensures forall d :: 0 <= d < 1024 ==> TableWord(m2, dir, d) == TableWord(m1, dir, d)
    ensures forall q :: 0 <= q < 0x10_0000 ==> Pte(m2, dir, q) == Pte(m1, dir, q)
  {
    SameTable(m1, m2, dir);
    forall q | 0 <= q < 0x10_0000 ensures Pte(m2, dir, q) == Pte(m1, dir, q) {
      SameTable(m1, m2, tables[q / 1024]);
    }
  }

  /** The directory is intact, the entry of one page is x, every other entry and all memory outside the tables is kept. */
  ghost predicate EntrySet(m1: seq<byte>, m2: seq<byte>, dir: word, tables: seq<word>, page: int, x: word) {
    && Shape(m2, dir, tables)
    && OnlyPages(m1, m2, tables)
    && (forall d :: 0 <= d < 1024 ==> TableWord(m2, dir, d) == TableWord(m1, dir, d))
    && (forall q :: 0 <= q < 0x10_0000 ==> Pte(m2, dir, q) == if q == page then x else Pte(m1, dir, q))
  }

  /** Writing the slot of one page changes that page's entry and no other. */
  lemma SetEntry(m1: seq<byte>, m2: seq<byte>, dir: word, tables: seq<word>, page: int, x: word)
    requires Shape(m1, dir, tables) && 0 <= page < 0x10_0000
    requires var a := tables[page / 1024] + 4 * (page % 1024); SameOutside(m1, m2, a, a + 4) && WordAt(m2, a) == x
    ensures EntrySet(m1, m2, dir, tables, page, x)
  {
    SetEntryDir(m1, m2, dir, tables, page);
    forall q | 0 <= q < 0x10_0000 ensures Pte(m2, dir, q) == if q == page then x else Pte(m1, dir, q) {
      EntryKept(m1, m2, dir, tables, page, x, q);
    }
  }

  lemma SetEntryDir(m1: seq<byte>, m2: seq<byte>, dir: word, tables: seq<word>, page: int)
    requires Shape(m1, dir, tables) && 0 <= page < 0x10_0000
    requires var a := tables[page / 1024] + 4 * (page % 1024); SameOutside(m1, m2, a, a + 4)
    ensures Shape(m2, dir, tables)
    ensures forall d :: 0 <= d < 1024 ==> TableWord(m2, dir, d) == TableWord(m1, dir, d)
    ensures OnlyPages(m1, m2, tables)
  {
    var table, t := tables[page / 1024], page % 1024;
    forall d | 0 <= d < 1024 ensures TableWord(m2, dir, d) == TableWord(m1, dir, d) {
      SlotKept(m1, m2, table, t, dir, d);
    }
    forall b | Outside(tables, b) ensures Get(m2, b) == Get(m1, b) {
      if table + 4 * t <= b < table + 4 * t + 4 {
        SlotInPage(table, t, b);
      }
      assert table in tables;
    }
  }

  /** With the directory intact, the entry of page q is the word in slot q % 1024 of table q / 1024. */
  lemma PteOfTable(m: seq<byte>, dir: word, tables: seq<word>, q: int)
    requires Shape(m, dir, tables) && 0 <= q < 0x10_0000
    ensures Pte(m, dir, q) == TableWord(m, tables[q / 1024], q % 1024)
  {
  }

  lemma EntryKept(m1: seq<byte>, m2: seq<byte>, dir: word, tables: seq<word>, page: int, x: word, q: int)
    requires Shape(m1, dir, tables) && 0 <= page < 0x10_0000 && 0 <= q < 0x10_0000
    requires var a := tables[page / 1024] + 4 * (page % 1024); SameOutside(m1, m2, a, a + 4) && WordAt(m2, a) == x
    requires TableWord(m2, dir, q / 1024) == TableWord(m1, dir, q / 1024)
    ensures Pte(m2, dir, q) == if q == page then x else Pte(m1, dir, q)
  {
    PteOfTable(m1, dir, tables, q);
    if q != page {
      SlotKept(m1, m2, tables[page / 1024], page % 1024, tables[q / 1024], q % 1024);
    }
  }

  lemma SlotKept(m1: seq<byte>, m2: seq<byte>, table: word, t: int, p: word, i: int)
    requires table % 4096 == 0 && p % 4096 == 0 && 0 <= t < 1024 && 0 <= i < 1024 && (table != p || t != i)
    requires SameOutside(m1, m2, table + 4 * t, table + 4 * t + 4)
    ensures TableWord(m2, p, i) == TableWord(m1, p, i)
  {
    SlotsApart(p, i, table, t);
    SameWord(m1, m2, p + 4 * i);
  }

  lemma SlotInPage(p: word, t: int, b: int)
    requires p % 4096 == 0 && 0 <= t < 1024 && p + 4 * t <= b < p + 4 * t + 4
    ensures PageOf(b) == p
  {
  }

  lemma SlotsApart(p: word, i: int, q: word, j: int)
    requires p % 4096 == 0 && q % 4096 == 0 && 0 <= i < 1024 && 0 <= j < 1024 && (p != q || i != j)
    ensures p + 4 * i + 4 <= q + 4 * j || q + 4 * j + 4 <= p + 4 * i
  {
  }

  // ---- editing ----

  method GetIndexes(virt: word) returns (res: int, d: int, t: int)
    ensures res == 0 <==> virt % 4096 == 0
    ensures res == 0 ==> 0 <= d < 1024 && 0 <= t < 1024 && virt == 0x40_0000 * d + 4096 * t
    ensures res != 0 ==> res == -EINVARG
  {
    if virt % 4096 != 0 {
      return -EINVARG, 0, 0;
    }
    d := virt / (1024 * 4096);
    t := virt % (1024 * 4096) / 4096;
    res := 0;
  }

  /** paging_set */
  method Set(mem: array<byte>, dir: word, virt: word, pdesc: word, ghost tables: seq<word>) returns (res: int)
    requires mem.Length == 0x1_0000_0000 && Shape(mem[..], dir, tables)
    modifies mem
    ensures virt % 4096 != 0 ==> res == -EINVARG && mem[..] == old(mem[..])
    ensures virt % 4096 == 0 ==> res == 0 && EntrySet(old(mem[..]), mem[..], dir, tables, virt / 4096, pdesc)
  {
    if virt % 4096 != 0 {
      return -EINVARG;
    }
    var d, t;
    res, d, t := GetIndexes(virt);
    if res < 0 {
      return res;
    }
    var entry := Load32(mem, dir + 4 * d);
    var table := GetPointer(entry);
    assert table == tables[d];
    StoreEntry(mem, dir, table, d, t, pdesc, tables);
    assert virt / 4096 == 1024 * d + t;
    return 0;
  }

  method StoreEntry(mem: array<byte>, ghost dir: word, table: word, ghost d: int, t: int, pdesc: word, ghost tables: seq<word>)
    requires mem.Length == 0x1_0000_0000 && Shape(mem[..], dir, tables)
    requires 0 <= d < 1024 && 0 <= t < 1024 && table == tables[d]
    modifies mem
    ensures EntrySet(old(mem[..]), mem[..], dir, tables, 1024 * d + t, pdesc)
  {
    hide Pte;
    hide WordAt;
    hide EntrySet;
    Store32(mem, table + 4 * t, pdesc);
    assert (1024 * d + t) / 1024 == d && (1024 * d + t) % 1024 == t;
    SetEntry(old(mem[..]), mem[..], dir, tables, 1024 * d + t, pdesc);
  }

  /** Entry of page q once count pages from page vp on are mapped to phys, phys + 4096, ... */
  function MappedEntry(m: seq<byte>, dir: word, vp: int, phys: word, count: int, flags: word, q: int): word {
    if (q - vp) % 0x10_0000 < count then SetFlags(Wrap(phys + 4096 * ((q - vp) % 0x10_0000)), flags) else Pte(m, dir, q)
  }

  ghost predicate Mapped(m1: seq<byte>, m2: seq<byte>, dir: word, tables: seq<word>, vp: int, phys: word, count: int, flags: word) {
    && Shape(m2, dir, tables)
    && OnlyPages(m1, m2, tables)
    && (forall d :: 0 <= d < 1024 ==> TableWord(m2, dir, d) == TableWord(m1, dir, d))
    && (forall q :: 0 <= q < 0x10_0000 ==> Pte(m2, dir, q) == MappedEntry(m1, dir, vp, phys, count, flags, q))
  }

  /** paging_map_range: all or nothing, and exactly the pages asked for; past 2^20 pages addresses wrap, and the same
      entries are written again. */
  method MapRange(mem: array<byte>, dir: word, virt: word, phys: word, count: int, flags: word, ghost tables: seq<word>)
    returns (res: int)
    requires mem.Length == 0x1_0000_0000 && Shape(mem[..], dir, tables)
    modifies mem
    ensures count > 0 && (virt % 4096 != 0 || phys % 4096 != 0) ==> res == -EINVARG && mem[..] == old(mem[..])
    ensures count <= 0 ==> res == 0 && mem[..] == old(mem[..])
    ensures virt % 4096 == 0 && phys % 4096 == 0 ==> res == 0 && Mapped(old(mem[..]), mem[..], dir, tables, virt / 4096, phys, count, flags)
  {
    hide Pte;
    hide WordAt;
    hide Shape;
    hide SetFlags;
    hide PageOf;
    hide MappedEntry;
    hide Wrap;
    res := 0;
    var v: int, p: int := virt, phys;
    ghost var m := mem[..];
    MapNothing(m, dir, virt / 4096, phys, 0, flags);
    if count <= 0 {
      MapNothing(m, dir, virt / 4096, phys, count, flags);
    }
    WrapStep(virt, -1);
    WrapStep(phys, -1);
    var i := 0;
    while i < count
      invariant 0 <= i && (i <= count || i == 0)
      invariant v == Wrap(virt + 4096 * i) && p == Wrap(phys + 4096 * i) && res == 0
      invariant i == 0 ==> mem[..] == m
      invariant i > 0 ==> virt % 4096 == 0 && phys % 4096 == 0
      invariant Mapped(m, mem[..], dir, tables, virt / 4096, phys, i, flags)
    {
      ghost var before := mem[..];
      WrapStep(virt, i);
      WrapStep(phys, i);
      res := Map(mem, dir, v, p, flags, tables);
      if res < 0 {
        break;
      }
      MapStep(m, before, mem[..], dir, tables, virt, phys, i, flags);
      v := Wrap(v + 4096);
      p := Wrap(p + 4096);
      i := i + 1;
    }
  }

  lemma MapNothing(m: seq<byte>, dir: word, vp: int, phys: word, count: int, flags: word)
    requires count <= 0
    ensures forall q :: 0 <= q < 0x10_0000 ==> Pte(m, dir, q) == MappedEntry(m, dir, vp, phys, count, flags, q)
  {
  }

  lemma WrapStep(x: word, i: int)
    ensures Wrap(Wrap(x + 4096 * i) + 4096) == Wrap(x + 4096 * (i + 1))
    ensures Wrap(x + 4096 * i) % 4096 == x % 4096
    ensures i == -1 ==> Wrap(x + 4096 * (i + 1)) == x
  {
  }

  lemma MapStep(m: seq<byte>, m1: seq<byte>, m2: seq<byte>, dir: word, tables: seq<word>, virt: word, phys: word, i: int, flags: word)
    requires 0 <= i && virt % 4096 == 0
    requires Mapped(m, m1, dir, tables, virt / 4096, phys, i, flags)
    requires EntrySet(m1, m2, dir, tables, Wrap(virt + 4096 * i) / 4096, SetFlags(Wrap(phys + 4096 * i), flags))
    ensures Mapped(m, m2, dir, tables, virt / 4096, phys, i + 1, flags)
  {
    hide WordAt;
    hide Shape;
    hide Pte;
    hide SetFlags;
    hide PageOf;
    forall q | 0 <= q < 0x10_0000 ensures Pte(m2, dir, q) == MappedEntry(m, dir, virt / 4096, phys, i + 1, flags, q) {
      MapStepAt(virt, i, q);
      WrapRound(phys, i);
    }
    forall a | Outside(tables, a) ensures Get(m2, a) == Get(m, a) {
      assert Get(m1, a) == Get(m, a);
    }
  }

  lemma MapStepAt(virt: word, i: int, q: int)
    requires 0 <= i && virt % 4096 == 0 && 0 <= q < 0x10_0000
    ensures q == Wrap(virt + 4096 * i) / 4096 <==> (q - virt / 4096) % 0x10_0000 == i % 0x10_0000
  {
    WrapRound(virt, i);
    assert Wrap(virt + 4096 * (i % 0x10_0000)) / 4096 == (virt / 4096 + i % 0x10_0000) % 0x10_0000;
    WindowStep(virt / 4096, i % 0x10_0000, q);
  }

  /** 2^20 pages on is the same address. */
  lemma WrapRound(x: word, i: int)
    requires 0 <= i
    ensures Wrap(x + 4096 * i) == Wrap(x + 4096 * (i % 0x10_0000))
    ensures i < 0x10_0000 ==> i % 0x10_0000 == i
  {
    assert x + 4096 * i == x + 4096 * (i % 0x10_0000) + 0x1_0000_0000 * (i / 0x10_0000);
  }

  lemma WindowStep(vp: int, i: int, q: int)
    requires 0 <= vp < 0x10_0000 && 0 <= i < 0x10_0000 && 0 <= q < 0x10_0000
    ensures (q - vp) % 0x10_0000 == i <==> q == (vp + i) % 0x10_0000
  {
  }

  /** paging_map */
  method Map(mem: array<byte>, dir: word, virt: word, phys: word, flags: word, ghost tables: seq<word>) returns (res: int)
    requires mem.Length == 0x1_0000_0000 && Shape(mem[..], dir, tables)
    modifies mem
    ensures virt % 4096 != 0 || phys % 4096 != 0 ==> res == -EINVARG && mem[..] == old(mem[..])
    ensures virt % 4096 == 0 && phys % 4096 == 0 ==>
      res == 0 && EntrySet(old(mem[..]), mem[..], dir, tables, virt / 4096, SetFlags(phys, flags))
  {
    if virt % 4096 != 0 || phys % 4096 != 0 {
      return -EINVARG;
    }
    res := Set(mem, dir, virt, SetFlags(phys, flags), tables);
  }

  /** paging_map_to */
  method MapTo(mem: array<byte>, dir: word, virt: word, phys: word, physEnd: word, flags: word, ghost tables: seq<word>)
    returns (res: int)
    requires mem.Length == 0x1_0000_0000 && Shape(mem[..], dir, tables)
    modifies mem
    ensures virt % 4096 != 0 || phys % 4096 != 0 || physEnd % 4096 != 0 || physEnd < phys ==> res == -EINVARG && mem[..] == old(mem[..])
    ensures virt % 4096 == 0 && phys % 4096 == 0 && physEnd % 4096 == 0 && physEnd >= phys ==>
      res == 0 && Mapped(old(mem[..]), mem[..], dir, tables, virt / 4096, phys, (physEnd - phys) / 4096, flags)
  {
    if virt % 4096 != 0 || phys % 4096 != 0 || physEnd % 4096 != 0 {
      return -EINVARG;
    }
    if physEnd < phys {
      return -EINVARG;
    }
    res := MapRange(mem, dir, virt, phys, (physEnd - phys) / 4096, flags, tables);
  }

  /** paging_align_address */
  function AlignAddress(p: word): word {
    if p % 4096 != 0 then Wrap(p - p % 4096 + 4096) else p
  }

  // ---- what a mapping translates ----

  /** After mapping, page i of the range leads to its frame, offset by offset; other pages lead where they led. */
  lemma MappedTranslates(m1: seq<byte>, m2: seq<byte>, dir: word, tables: seq<word>, vp: int, phys: word, count: int, flags: word,
                         q: int, i: int, k: int)
    requires Shape(m1, dir, tables) && Mapped(m1, m2, dir, tables, vp, phys, count, flags)
    requires phys % 4096 == 0 && flags < 4096 && Present(flags) && 0 <= q < 0x10_0000 && 0 <= k < 4096
    requires i == (q - vp) % 0x10_0000 && Present(TableWord(m1, dir, q / 1024))
    ensures i < count ==> Translate(m2, dir, 4096 * q + k).Physical? && Translate(m2, dir, 4096 * q + k).addr == Wrap(phys + 4096 * i) + k
    ensures i >= count ==> Translate(m2, dir, 4096 * q + k) == Translate(m1, dir, 4096 * q + k)
  {
    hide WordAt;
    hide TableWord;
    hide Shape;
    hide SetFlags;
    hide Present;
    hide GetPointer;
    hide Wrap;
    assert Pte(m2, dir, q) == MappedEntry(m1, dir, vp, phys, count, flags, q);
    assert TableWord(m2, dir, q / 1024) == TableWord(m1, dir, q / 1024);
    hide Pte;
    Split(q, k);
    if i < count {
      FrameOf(phys, i, flags);
    }
  }

  lemma Split(q: int, k: int)
    requires 0 <= q < 0x10_0000 && 0 <= k < 4096
    ensures (4096 * q + k) / 4096 == q && (4096 * q + k) % 4096 == k && (4096 * q + k) / 0x40_0000 == q / 1024
    ensures 4096 * q + k < 0x1_0000_0000
  {
  }

  /** The entry that maps a frame, as the processor takes it apart. */
  lemma FrameOf(phys: word, i: int, flags: word)
    requires phys % 4096 == 0 && flags < 4096 && Present(flags)
    ensures var e := SetFlags(Wrap(phys + 4096 * i), flags); Present(e) && GetPointer(e) == Wrap(phys + 4096 * i)
  {
    hide SetFlags;
    WrapStep(phys, i);
    PackRoundTrip(Wrap(phys + 4096 * i), flags);
    SameParity(Wrap(phys + 4096 * i), flags);
  }

  lemma SameParity(p: word, flags: word)
    requires p % 4096 == 0 && flags < 4096 && Present(flags) && p + flags < 0x1_0000_0000
    ensures Present(p + flags)
  {
  }
}
