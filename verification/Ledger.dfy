/** Book-keeping of heap traffic: what an operation has gained since it began. */
module Ledger {
  import opened Words
  import opened HeapSpec
  import opened Heaps
  import opened Paging
  import opened Spaces

  // ---- a growing heap ----

  /** From (m0, c0) to (m, c) chunks were only added, and every old chunk kept its contents. */
  ghost predicate Grows(h: Heap, m0: seq<byte>, c0: Chunks, m: seq<byte>, c: Chunks) {
    && h.ValidIn(m0, c0) && h.ValidIn(m, c)
    && (forall b :: b in c0 ==> b in c && c[b] == c0[b])
    && (forall b, a :: b in c0 && h.Addr(b) <= a < h.Addr(b) + 4096 * c0[b] ==> Get(m, a) == Get(m0, a))
  }

  lemma GrowZalloc(h: Heap, m0: seq<byte>, c0: Chunks, m: seq<byte>, c: Chunks, m2: seq<byte>, c2: Chunks, size: word, r: word)
    requires Grows(h, m0, c0, m, c) && size > 0 && size <= 0xFFFFF000 && h.Zeroed(m, c, m2, c2, size, r)
    ensures Grows(h, m0, c0, m2, c2)
    ensures Live(h, c2, r, BlocksFor(size)) && h.AddressToBlock(r) !in c && h.AddressToBlock(r) !in c0
  {
    hide BlocksFor;
    hide HeapSpec.FirstRun;
    hide HeapSpec.Marked;
    var s: nat, n := h.AddressToBlock(r), BlocksFor(size);
    BlocksForExact(size);
    forall b, a | b in c0 && h.Addr(b) <= a < h.Addr(b) + 4096 * c0[b] ensures Get(m2, a) == Get(m0, a) {
      assert c2[b] == c0[b];
      assert s in c2 && c2[s] == n && (b + c2[b] <= s || s + n <= b);
      assert b + c0[b] <= h.total;
    }
  }

  lemma GrowAcquire(h: Heap, m0: seq<byte>, c0: Chunks, m: seq<byte>, c: Chunks, m2: seq<byte>, c2: Chunks, pages: seq<word>)
    requires Grows(h, m0, c0, m, c) && Acquired(h, m, c, m2, c2, pages)
    ensures Grows(h, m0, c0, m2, c2)
    ensures forall p :: p in pages ==> h.AddressToBlock(p) !in c0
  {
    forall b, a | b in c0 && h.Addr(b) <= a < h.Addr(b) + 4096 * c0[b] ensures Get(m2, a) == Get(m0, a) {
      OldChunkOutside(h, m2, c2, b, a, pages);
    }
  }

  lemma OldChunkOutside(h: Heap, m: seq<byte>, c: Chunks, b: nat, a: int, pages: seq<word>)
    requires h.ValidIn(m, c) && b in c && h.Addr(b) <= a < h.Addr(b) + 4096 * c[b]
    requires forall p :: p in pages ==> Live(h, c, p, 1) && h.AddressToBlock(p) != b
    ensures Outside(pages, a) && !(h.table <= a < h.table + h.total)
  {
    h.BlockOfAddr(b);
    if PageOf(a) in pages {
      LiveApart(h, m, c, h.Addr(b), c[b], PageOf(a), 1);
    }
  }

  lemma GrowWrite(h: Heap, m0: seq<byte>, c0: Chunks, m: seq<byte>, c: Chunks, m2: seq<byte>, x: word, n: nat, lo: int, hi: int)
    requires Grows(h, m0, c0, m, c) && Live(h, c, x, n) && h.AddressToBlock(x) !in c0
    requires x <= lo <= hi <= x + 4096 * n && SameOutside(m, m2, lo, hi)
    ensures Grows(h, m0, c0, m2, c)
  {
    PageInPool(h, m, c, x, n);
    SameSlice(m, m2, h.table, h.table + h.total);
    forall b, a | b in c0 && h.Addr(b) <= a < h.Addr(b) + 4096 * c0[b] ensures Get(m2, a) == Get(m0, a) {
      h.BlockOfAddr(b);
      LiveApart(h, m, c, h.Addr(b), c[b], x, n);
    }
  }

  /** Writing inside pages that are new since (m0, c0). */
  lemma GrowWritePages(h: Heap, m0: seq<byte>, c0: Chunks, m: seq<byte>, c: Chunks, m2: seq<byte>, pages: seq<word>)
    requires Grows(h, m0, c0, m, c) && OnlyPages(m, m2, pages)
    requires forall p :: p in pages ==> Live(h, c, p, 1) && h.AddressToBlock(p) !in c0
    ensures Grows(h, m0, c0, m2, c)
  {
    forall a | h.table <= a < h.table + h.total ensures Get(m2, a) == Get(m, a) {
      if PageOf(a) in pages {
        PageInPool(h, m, c, PageOf(a), 1);
      }
      assert Outside(pages, a);
    }
    SameSlice(m, m2, h.table, h.table + h.total);
    forall b, a | b in c0 && h.Addr(b) <= a < h.Addr(b) + 4096 * c0[b] ensures Get(m2, a) == Get(m0, a) {
      OldChunkOutside(h, m, c, b, a, pages);
    }
  }

  lemma GrowTrans(h: Heap, m0: seq<byte>, c0: Chunks, m1: seq<byte>, c1: Chunks, m2: seq<byte>, c2: Chunks)
    requires Grows(h, m0, c0, m1, c1) && Grows(h, m1, c1, m2, c2)
    ensures Grows(h, m0, c0, m2, c2)
  {
    hide HeapSpec.Encodes;
    forall b, a | b in c0 && h.Addr(b) <= a < h.Addr(b) + 4096 * c0[b] ensures Get(m2, a) == Get(m0, a) {
      assert b in c1 && c1[b] == c0[b];
      assert Get(m1, a) == Get(m0, a);
    }
  }

  lemma GrowNothing(h: Heap, m: seq<byte>, c: Chunks)
    requires h.ValidIn(m, c)
    ensures Grows(h, m, c, m, c)
  {
  }

  // ---- gains ----

  ghost function Blk(h: Heap, a: word): nat {
    if h.AddressToBlock(a) >= 0 then h.AddressToBlock(a) else 0
  }

  /** From (m0, c0) to (m, c): the chunks own are new, every old chunk is untouched. */
  ghost predicate Gains(h: Heap, m0: seq<byte>, c0: Chunks, m: seq<byte>, c: Chunks, own: Chunks) {
    Grows(h, m0, c0, m, c) && c == c0 + own && own.Keys !! c0.Keys
  }

  lemma GainsFacts(h: Heap, m0: seq<byte>, c0: Chunks, m: seq<byte>, c: Chunks, own: Chunks)
    requires Gains(h, m0, c0, m, c, own)
    ensures h.ValidIn(m, c) && Grows(h, m0, c0, m, c)
    ensures forall b :: b in own ==> b in c && c[b] == own[b] && b !in c0
  {
  }

  /** Gaining nothing means the flag table is back to what it was, entry for entry. */
  lemma GainsNothing(h: Heap, m0: seq<byte>, c0: Chunks, m: seq<byte>, c: Chunks)
    requires Gains(h, m0, c0, m, c, map[])
    ensures c == c0 && h.FlagsIn(m) == h.FlagsIn(m0)
  {
    hide HeapSpec.Encodes;
    assert c == c0;
    EncodingUnique(h.FlagsIn(m), h.FlagsIn(m0), c0);
  }

  /** kzalloc: at most a page over the scan as written, anything over the repaired one. */
  method Obtain(h: Heap, size: word, guarded: bool, ghost m0: seq<byte>, ghost c0: Chunks, ghost own: Chunks) returns (r: word)
    requires Gains(h, m0, c0, h.mem[..], h.chunks, own) && 0 < size <= 0xFFFFF000 && (guarded || size <= 4096)
    modifies h, h.mem
    ensures r == 0 <==> !HasRun(old(h.Flags()), BlocksFor(size))
    ensures r == 0 ==> h.mem[..] == old(h.mem[..]) && h.chunks == old(h.chunks)
    ensures r != 0 ==> Blk(h, r) !in own && Gains(h, m0, c0, h.mem[..], h.chunks, own[Blk(h, r) := BlocksFor(size)])
    ensures r != 0 ==> FirstFit(old(h.Flags()), h.Flags(), BlocksFor(size))
    ensures r != 0 ==> Live(h, h.chunks, r, BlocksFor(size)) && Blk(h, r) !in old(h.chunks)
    ensures r != 0 ==> Grows(h, old(h.mem[..]), old(h.chunks), h.mem[..], h.chunks)
    ensures r != 0 ==> forall a :: r <= a < r + size ==> Get(h.mem[..], a) == 0
  {
    hide BlocksFor;
    hide HeapSpec.FirstRun;
    hide HeapSpec.Marked;
    hide HeapSpec.HasRun;
    hide HeapSpec.Encodes;
    hide LastTaken;
    ghost var m, c := h.mem[..], h.chunks;
    BlocksForExact(size);
    OneBlockServed(h.FlagsIn(m));
    r := h.Kzalloc(size, guarded);
    if HasRun(h.FlagsIn(m), BlocksFor(size)) {
      GrowZalloc(h, m0, c0, m, c, h.mem[..], h.chunks, size, r);
      GrowZalloc(h, m, c, m, c, h.mem[..], h.chunks, size, r);
      PageInPool(h, h.mem[..], h.chunks, r, BlocksFor(size));
      assert h.chunks == c0 + own[Blk(h, r) := BlocksFor(size)];
    }
  }

  /** As long as no chunk comes or goes, the flag table stays. */
  lemma SameFlags(h: Heap, m: seq<byte>, m2: seq<byte>, c: Chunks)
    requires h.ValidIn(m, c) && h.ValidIn(m2, c)
    ensures h.FlagsIn(m2) == h.FlagsIn(m)
  {
    hide HeapSpec.Encodes;
    EncodingUnique(h.FlagsIn(m), h.FlagsIn(m2), c);
  }

  /** A request for one block finds a free one, or the whole table, and so its last block, is taken. */
  lemma OneBlockServed(f: seq<byte>)
    ensures HasRun(f, 1) || LastTaken(f)
  {
    if |f| > 0 && IsFree(f[|f| - 1]) {
      assert FreeRun(f, |f| - 1, 1);
    }
  }

  /** Single blocks gained are blocks no longer free. */
  lemma GainsRoom(h: Heap, m0: seq<byte>, c0: Chunks, m: seq<byte>, c: Chunks, own: Chunks)
    requires Gains(h, m0, c0, m, c, own) && forall b :: b in own ==> own[b] == 1
    ensures own.Keys !! c0.Keys
    ensures |FreeSet(h.FlagsIn(m))| + |own| == |FreeSet(h.FlagsIn(m0))|
  {
    hide HeapSpec.Encodes;
    hide IsFree;
    hide Grows;
    GainsFacts(h, m0, c0, m, c, own);
    GrowFacts(h, m0, c0, m, c);
    FreeSplitSize(h.FlagsIn(m0), c0, h.FlagsIn(m), own);
  }

  lemma FreeSplitSize(f0: seq<byte>, c0: Chunks, f: seq<byte>, own: Chunks)
    requires Encodes(f0, c0) && Encodes(f, c0 + own) && |f| == |f0|
    requires own.Keys !! c0.Keys && forall b :: b in own ==> own[b] == 1
    ensures |FreeSet(f)| + |own| == |FreeSet(f0)|
  {
    hide HeapSpec.Encodes;
    hide FreeSet;
    var keys: set<int> := own.Keys;
    forall i ensures (i in FreeSet(f0) <==> i in FreeSet(f) || i in keys) && !(i in FreeSet(f) && i in keys) {
      FreeSplit(f0, c0, f, own, i);
    }
    assert FreeSet(f0) == FreeSet(f) + keys;
    SplitSize(FreeSet(f), keys);
    assert |own| == |keys|;
  }

  lemma SplitSize(b: set<int>, c: set<int>)
    requires b !! c
    ensures |b + c| == |b| + |c|
  {
  }

  lemma FreeSplit(f0: seq<byte>, c0: Chunks, f: seq<byte>, own: Chunks, i: int)
    requires Encodes(f0, c0) && Encodes(f, c0 + own) && |f| == |f0|
    requires own.Keys !! c0.Keys && forall b :: b in own ==> own[b] == 1
    ensures i in FreeSet(f0) <==> i in FreeSet(f) || i in own
    ensures !(i in FreeSet(f) && i in own)
  {
    hide IsFree;
    CoverGains(c0, own, i);
    if i in own {
      KeyInRange(f, c0 + own, i);
    }
    if 0 <= i < |f| {
      FreeIffUncovered(f0, c0, i);
      FreeIffUncovered(f, c0 + own, i);
    }
  }

  lemma KeyInRange(f: seq<byte>, c: Chunks, b: nat)
    requires Encodes(f, c) && b in c
    ensures b < |f|
  {
  }

  lemma CoverGains(c0: Chunks, own: Chunks, i: int)
    requires own.Keys !! c0.Keys && Disjoint(c0 + own) && forall b :: b in own ==> own[b] == 1
    ensures Covered(c0 + own, i) <==> Covered(c0, i) || i in own
    ensures !(Covered(c0, i) && i in own)
  {
    var c := c0 + own;
    if Covered(c0, i) {
      var s :| s in c0 && s <= i < s + c0[s];
      assert s in c && c[s] == c0[s];
    }
    if i in own {
      assert i in c && c[i] == 1;
    }
  }

  lemma GrowFacts(h: Heap, m0: seq<byte>, c0: Chunks, m: seq<byte>, c: Chunks)
    requires Grows(h, m0, c0, m, c)
    ensures h.ValidIn(m, c) && h.ValidIn(m0, c0) && c0.Keys <= c.Keys
  {
  }

  /** A live chunk of n blocks keeps its bytes while the heap grows. */
  lemma GrowChunk(h: Heap, m0: seq<byte>, c0: Chunks, m: seq<byte>, c: Chunks, x: word, n: nat)
    requires Grows(h, m0, c0, m, c) && Live(h, c0, x, n)
    ensures Live(h, c, x, n) && forall a :: x <= a < x + 4096 * n ==> Get(m, a) == Get(m0, a)
  {
    hide HeapSpec.Encodes;
  }

  /** kfree of one gained chunk. */
  method Release(h: Heap, p: word, ghost m0: seq<byte>, ghost c0: Chunks, ghost own: Chunks)
    requires Gains(h, m0, c0, h.mem[..], h.chunks, own)
    requires Blk(h, p) in own && Live(h, h.chunks, p, own[Blk(h, p)])
    modifies h, h.mem
    ensures Gains(h, m0, c0, h.mem[..], h.chunks, own - {Blk(h, p)})
    ensures h.chunks == old(h.chunks) - {Blk(h, p)}
    ensures SameOutside(old(h.mem[..]), h.mem[..], h.table, h.table + h.total)
  {
    hide HeapSpec.Encodes;
    ghost var m, c := h.mem[..], h.chunks;
    h.Free(p);
    forall b, a | b in c0 && h.Addr(b) <= a < h.Addr(b) + 4096 * c0[b] ensures Get(h.mem[..], a) == Get(m0, a) {
      InPool(h, m0, c0, b);
    }
    assert h.chunks == c0 + (own - {Blk(h, p)});
  }

  lemma InPool(h: Heap, m: seq<byte>, c: Chunks, b: nat)
    requires h.ValidIn(m, c) && b in c
    ensures h.saddr <= h.Addr(b) && h.Addr(b) + 4096 * c[b] <= h.Addr(h.total)
  {
  }

  lemma DifferentBlocks(h: Heap, c: Chunks, p: word, n: nat, q: word, k: nat)
    requires Live(h, c, p, n) && Live(h, c, q, k) && p != q
    ensures Blk(h, p) != Blk(h, q)
    ensures Live(h, c - {Blk(h, p)}, q, k)
  {
  }

  /** Writing inside one live chunk leaves another one alone. */
  lemma OtherChunk(h: Heap, m: seq<byte>, c: Chunks, m2: seq<byte>, p: word, n: nat, lo: int, hi: int, q: word, k: nat)
    requires h.ValidIn(m, c) && Live(h, c, p, n) && Live(h, c, q, k) && p != q
    requires p <= lo <= hi <= p + 4096 * n && SameOutside(m, m2, lo, hi)
    ensures forall a :: q <= a < q + 4096 * k ==> Get(m2, a) == Get(m, a)
  {
    LiveApart(h, m, c, p, n, q, k);
  }

  lemma GainsWrite(h: Heap, m0: seq<byte>, c0: Chunks, m: seq<byte>, c: Chunks, own: Chunks, m2: seq<byte>, p: word, n: nat, lo: int, hi: int)
    requires Gains(h, m0, c0, m, c, own) && Live(h, c, p, n) && Blk(h, p) in own
    requires p <= lo <= hi <= p + 4096 * n && SameOutside(m, m2, lo, hi)
    ensures Gains(h, m0, c0, m2, c, own)
  {
    hide Grows;
    GrowWrite(h, m0, c0, m, c, m2, p, n, lo, hi);
  }

  /** A word of a gained chunk is set. */
  method SetWord(h: Heap, p: word, n: nat, offset: nat, x: word, ghost m0: seq<byte>, ghost c0: Chunks, ghost own: Chunks)
    requires Gains(h, m0, c0, h.mem[..], h.chunks, own)
    requires Live(h, h.chunks, p, n) && Blk(h, p) in own && offset + 4 <= 4096 * n
    modifies h.mem
    ensures Gains(h, m0, c0, h.mem[..], h.chunks, own)
    ensures WordAt(h.mem[..], p + offset) == x && SameOutside(old(h.mem[..]), h.mem[..], p + offset, p + offset + 4)
  {
    hide Gains;
    hide WordAt;
    ghost var m, c := h.mem[..], h.chunks;
    GainsFacts(h, m0, c0, m, c, own);
    PageInPool(h, m, c, p, n);
    Store32(h.mem, p + offset, x);
    GainsWrite(h, m0, c0, m, c, own, h.mem[..], p, n, p + offset, p + offset + 4);
  }

  lemma OneBlock(size: word)
    requires 0 < size <= 4096
    ensures BlocksFor(size) == 1
  {
    BlocksForExact(size);
  }

  lemma GainNothing(h: Heap, m: seq<byte>, c: Chunks)
    requires h.ValidIn(m, c)
    ensures Gains(h, m, c, m, c, map[])
  {
    assert c == c + map[];
  }

  /** Writing inside what is held leaves the flag table. */
  lemma KeptFlags(h: Heap, m0: seq<byte>, c0: Chunks, m1: seq<byte>, m2: seq<byte>, c: Chunks, own: Chunks)
    requires Gains(h, m0, c0, m1, c, own) && Gains(h, m0, c0, m2, c, own)
    ensures h.FlagsIn(m2) == h.FlagsIn(m1)
  {
    GainsFacts(h, m0, c0, m1, c, own);
    GainsFacts(h, m0, c0, m2, c, own);
    SameFlags(h, m1, m2, c);
  }
}
