/** The block flag table as an encoding of a set of live chunks. */
module HeapSpec {
  import opened Words

  // Bits of a flag byte (heap.h).
  const ENTRY_FREE: byte := 0x00
  const ENTRY_TAKEN: byte := 0x01
  const MASK_TYPE: byte := 0x01
  const IS_FIRST: byte := 0x40
  const HAS_NEXT: byte := 0x80

  /** Live chunks: start block -> number of blocks. */
  type Chunks = map<nat, nat>

  function EntryType(e: byte): nat {
    BitAnd(e, MASK_TYPE)
  }

  predicate IsFree(e: byte) {
    EntryType(e) == ENTRY_FREE
  }

  predicate HasNext(e: byte) {
    BitAnd(e, HAS_NEXT) != 0
  }

  /** The three flag bits of a byte by arithmetic. */
  lemma BitsOf(e: byte)
    ensures BitAnd(e, 0x01) == e % 2
    ensures BitAnd(e, 0x40) == 0x40 * (e / 0x40 % 2)
    ensures BitAnd(e, 0x80) == 0x80 * (e / 0x80)
  {
    hide BitAnd;
    hide Shl;
    ShlBytes(1);
    LastBit(e);
    LastBit(e / 0x40);
    LastBit(e / 0x80);
    ShlBytes(e / 0x40);
    ShlBytes(e / 0x80);
    ShlBytes(e / 0x40 % 2);
    AndHigh(e / 0x40, e % 0x40, 1, 6);
    AndHigh(e / 0x80, e % 0x80, 1, 7);
  }

  lemma FlagBits(e: byte)
    ensures EntryType(e) == e % 2
    ensures HasNext(e) <==> e >= 0x80
  {
    BitsOf(e);
  }

  // ---- the encoding ----

  /** The flag byte of block i of a chunk of n blocks starting at s. */
  function Mark(s: int, n: int, i: int): byte {
    ENTRY_TAKEN + (if i == s then IS_FIRST else 0) + (if i != s + n - 1 then HAS_NEXT else 0)
  }

  ghost predicate Covered(c: Chunks, i: int) {
    exists s :: s in c && s <= i < s + c[s]
  }

  ghost predicate InRange(c: Chunks, total: nat) {
    forall s :: s in c ==> 1 <= c[s] && s + c[s] <= total
  }

  ghost predicate Disjoint(c: Chunks) {
    forall s, t :: s in c && t in c && s < t ==> s + c[s] <= t
  }

  /** The table f says exactly: the live chunks are c, everything else is free. */
  ghost predicate Encodes(f: seq<byte>, c: Chunks) {
    && InRange(c, |f|)
    && Disjoint(c)
    && (forall s, i :: s in c && s <= i < s + c[s] ==> f[i] == Mark(s, c[s], i))
    && (forall i :: 0 <= i < |f| && !Covered(c, i) ==> f[i] == ENTRY_FREE)
  }

  lemma MarkBits(s: int, n: int, i: int)
    ensures !IsFree(Mark(s, n, i))
    ensures HasNext(Mark(s, n, i)) <==> i != s + n - 1
    ensures BitAnd(Mark(s, n, i), IS_FIRST) != 0 <==> i == s
  {
    FlagBits(Mark(s, n, i));
    BitsOf(Mark(s, n, i));
  }

  /** In an encoding the type bit alone tells free blocks from taken ones. */
  lemma FreeIffUncovered(f: seq<byte>, c: Chunks, i: int)
    requires Encodes(f, c) && 0 <= i < |f|
    ensures IsFree(f[i]) <==> !Covered(c, i)
    ensures IsFree(f[i]) <==> f[i] == ENTRY_FREE
  {
    if Covered(c, i) {
      var s :| s in c && s <= i < s + c[s];
      MarkBits(s, c[s], i);
    } else {
      FlagBits(0);
    }
  }

  /** A set of chunks has one encoding. */
  lemma EncodingUnique(f: seq<byte>, g: seq<byte>, c: Chunks)
    requires Encodes(f, c) && Encodes(g, c) && |f| == |g|
    ensures f == g
  {
    forall i | 0 <= i < |f| ensures f[i] == g[i] {
      if Covered(c, i) {
        var s :| s in c && s <= i < s + c[s];
        assert f[i] == Mark(s, c[s], i) == g[i];
      }
    }
  }

  /** A table encodes one set of chunks. */
  lemma DecodingUnique(f: seq<byte>, c: Chunks, d: Chunks)
    requires Encodes(f, c) && Encodes(f, d)
    ensures c == d
  {
    DecodingIncluded(f, c, d);
    DecodingIncluded(f, d, c);
  }

  lemma DecodingIncluded(f: seq<byte>, c: Chunks, d: Chunks)
    requires Encodes(f, c) && Encodes(f, d)
    ensures forall s :: s in c ==> s in d && c[s] == d[s]
  {
    forall s | s in c ensures s in d && c[s] == d[s] {
      FreeIffUncovered(f, c, s);
      FreeIffUncovered(f, d, s);
      var t :| t in d && t <= s < t + d[t];
      MarkBits(s, c[s], s);
      MarkBits(t, d[t], s);
      assert t == s;
      var last := s + (if c[s] < d[s] then c[s] else d[s]) - 1;
      MarkBits(s, c[s], last);
      MarkBits(s, d[s], last);
      assert HasNext(f[last]) <==> last != s + c[s] - 1;
      assert HasNext(f[last]) <==> last != s + d[s] - 1;
    }
  }

  // ---- runs of free blocks ----

  ghost predicate FreeRun(f: seq<byte>, s: int, n: int) {
    0 <= s && s + n <= |f| && forall i :: s <= i < s + n ==> IsFree(f[i])
  }

  ghost predicate HasRun(f: seq<byte>, n: int) {
    exists s :: FreeRun(f, s, n)
  }

  ghost predicate FirstRun(f: seq<byte>, n: int, s: int) {
    FreeRun(f, s, n) && forall t :: t < s ==> !FreeRun(f, t, n)
  }

  ghost predicate LastTaken(f: seq<byte>) {
    |f| == 0 || !IsFree(f[|f| - 1])
  }

  /** s starts the free run that reaches the end of the table. */
  ghost predicate TrailingRun(f: seq<byte>, s: int) {
    s < |f| && FreeRun(f, s, |f| - s) && (s == 0 || !IsFree(f[s - 1]))
  }

  // ---- allocation and release on tables ----

  /** The table after marking n blocks from s. */
  ghost predicate Marked(f: seq<byte>, g: seq<byte>, s: int, n: int) {
    |g| == |f| && forall i :: 0 <= i < |f| ==> g[i] == if s <= i < s + n then Mark(s, n, i) else f[i]
  }

  /** The table after clearing n blocks from s. */
  ghost predicate Cleared(f: seq<byte>, g: seq<byte>, s: int, n: int) {
    |g| == |f| && forall i :: 0 <= i < |f| ==> g[i] == if s <= i < s + n then ENTRY_FREE else f[i]
  }

  lemma AddChunk(f: seq<byte>, g: seq<byte>, c: Chunks, s: nat, n: nat)
    requires Encodes(f, c) && FreeRun(f, s, n) && n > 0 && Marked(f, g, s, n)
    ensures s !in c && Encodes(g, c[s := n])
    ensures forall t :: t in c ==> t + c[t] <= s || s + n <= t
  {
    forall i | s <= i < s + n ensures !Covered(c, i) {
      FreeIffUncovered(f, c, i);
    }
    assert !Covered(c, s);
    forall t | t in c ensures t + c[t] <= s || s + n <= t {
      if s <= t < s + n {
        assert Covered(c, t);
      }
    }
    var c' := c[s := n];
    assert forall t :: t in c' ==> t == s || t in c;
    forall i | 0 <= i < |g| && !Covered(c', i) ensures g[i] == ENTRY_FREE {
      CoverAdd(c, s, n, i);
    }
  }

  lemma CoverAdd(c: Chunks, s: nat, n: nat, i: int)
    requires s !in c
    ensures Covered(c[s := n], i) <==> Covered(c, i) || s <= i < s + n
  {
    var d := c[s := n];
    assert s in d && d[s] == n;
    if Covered(c, i) {
      var t :| t in c && t <= i < t + c[t];
      assert t in d && d[t] == c[t];
    }
  }

  lemma CoverDrop(c: Chunks, s: nat, i: int)
    requires s in c
    ensures Covered(c, i) ==> Covered(c - {s}, i) || s <= i < s + c[s]
  {
    if Covered(c, i) {
      var t :| t in c && t <= i < t + c[t];
      if t != s {
        assert t in c - {s} && (c - {s})[t] == c[t];
      }
    }
  }

  lemma DropChunk(f: seq<byte>, g: seq<byte>, c: Chunks, s: nat)
    requires Encodes(f, c) && s in c && Cleared(f, g, s, c[s])
    ensures Encodes(g, c - {s})
  {
    var d := c - {s};
    forall t, i | t in d && t <= i < t + d[t] ensures g[i] == Mark(t, d[t], i) {
      assert t in c && t != s;
    }
    forall i | 0 <= i < |g| && !Covered(d, i) ensures g[i] == ENTRY_FREE {
      CoverDrop(c, s, i);
    }
  }

  /** Behind the last block reached from s along has-next. */
  function RunEnd(f: seq<byte>, s: nat): (e: nat)
    ensures s <= e && (s < |f| ==> s < e <= |f|)
    decreases |f| - s
  {
    if s >= |f| then s else if HasNext(f[s]) && s + 1 < |f| then RunEnd(f, s + 1) else s + 1
  }

  /** From the start of a chunk that is the chunk's end; from a free block, or none, it is at most the next block. */
  lemma EndOfRun(f: seq<byte>, c: Chunks, s: nat)
    requires Encodes(f, c)
    ensures s in c ==> RunEnd(f, s) == s + c[s]
    ensures !Covered(c, s) ==> forall i :: s <= i < RunEnd(f, s) ==> i < |f| && f[i] == ENTRY_FREE
    ensures !Covered(c, s) ==> RunEnd(f, s) <= s + 1
  {
    if s in c {
      ChunkEnd(f, c, s, s);
    }
    FlagBits(0);
  }

  lemma {:induction false} ChunkEnd(f: seq<byte>, c: Chunks, s: nat, i: nat)
    requires Encodes(f, c) && s in c && s <= i < s + c[s]
    ensures RunEnd(f, i) == s + c[s]
    decreases s + c[s] - i
  {
    assert f[i] == Mark(s, c[s], i);
    MarkBits(s, c[s], i);
    if i + 1 < s + c[s] {
      ChunkEnd(f, c, s, i + 1);
    }
  }

  /** Clearing a chunk from a block inside it leaves something that encodes no set of chunks at all. */
  lemma TornEncodesNothing(f: seq<byte>, c: Chunks, g: seq<byte>, s: nat, d: Chunks)
    requires Encodes(f, c) && s !in c && Covered(c, s) && RunEnd(f, s) > s && Cleared(f, g, s, RunEnd(f, s) - s)
    ensures !Encodes(g, d)
  {
    var t :| t in c && t <= s < t + c[t];
    assert f[s - 1] == Mark(t, c[t], s - 1);
    MarkBits(t, c[t], s - 1);
    FlagBits(0);
    assert g[s - 1] == f[s - 1];
    if Encodes(g, d) {
      NextTaken(g, d, s - 1);
    }
  }

  /** Behind a block with has-next comes a taken one. */
  lemma NextTaken(f: seq<byte>, c: Chunks, i: nat)
    requires Encodes(f, c) && i + 1 < |f| && HasNext(f[i])
    ensures !IsFree(f[i + 1])
  {
    FlagBits(0);
    var u :| u in c && u <= i < u + c[u];
    MarkBits(u, c[u], i);
    MarkBits(u, c[u], i + 1);
  }

  lemma LastBlockEnds(f: seq<byte>, c: Chunks)
    requires Encodes(f, c) && |f| > 0
    ensures !HasNext(f[|f| - 1])
  {
    var last := |f| - 1;
    FlagBits(0);
    if Covered(c, last) {
      var t :| t in c && t <= last < t + c[t];
      MarkBits(t, c[t], last);
    }
  }

  /** Marking past the end of the table leaves something that encodes no set of chunks at all. */
  lemma OverrunEncodesNothing(f: seq<byte>, g: seq<byte>, s: nat, n: nat, c: Chunks)
    requires s < |f| < s + n && Marked(f, g, s, n)
    ensures !Encodes(g, c)
  {
    if Encodes(g, c) {
      MarkBits(s, n, |g| - 1);
      LastBlockEnds(g, c);
    }
  }

  /** What is free, as a set: the room left. */
  ghost function FreeSet(f: seq<byte>): set<int> {
    set i | 0 <= i < |f| && IsFree(f[i])
  }

  lemma FreeSetGivesRun(f: seq<byte>)
    ensures HasRun(f, 1) <==> FreeSet(f) != {}
  {
    if FreeSet(f) != {} {
      var i :| i in FreeSet(f);
      assert FreeRun(f, i, 1);
    }
    if HasRun(f, 1) {
      var s :| FreeRun(f, s, 1);
      assert s in FreeSet(f);
    }
  }

  lemma MarkOne(f: seq<byte>, g: seq<byte>, s: nat)
    requires FreeRun(f, s, 1) && Marked(f, g, s, 1)
    ensures FreeSet(g) == FreeSet(f) - {s} && |FreeSet(g)| == |FreeSet(f)| - 1
  {
    MarkBits(s, 1, s);
    assert FreeSet(g) == FreeSet(f) - {s};
    assert s in FreeSet(f);
  }

  // ---- sequences of requests ----

  /** The allocator as written answers a request for n blocks soundly: it finds a run, or it refuses. */
  ghost predicate Fits(f: seq<byte>, n: int) {
    HasRun(f, n) || LastTaken(f)
  }

  /** Requests for ns[0], ns[1], ... blocks are answered soundly one after the other, and if all are met
      at least k blocks are left free. */
  ghost predicate Served(f: seq<byte>, ns: seq<nat>, k: nat)
    decreases |ns|
  {
    if ns == [] then |FreeSet(f)| >= k
    else Fits(f, ns[0]) && forall s, g :: FirstRun(f, ns[0], s) && Marked(f, g, s, ns[0]) ==> Served(g, ns[1..], k)
  }

  /** n blocks are taken at the first place they fit. */
  ghost predicate FirstFit(f: seq<byte>, g: seq<byte>, n: nat) {
    exists s :: FirstRun(f, n, s) && Marked(f, g, s, n)
  }

  /** Requests for ns[0], ns[1], ... blocks are all met, one after the other. */
  ghost predicate Meets(f: seq<byte>, ns: seq<nat>)
    decreases |ns|
  {
    ns == [] || (HasRun(f, ns[0]) && forall g :: FirstFit(f, g, ns[0]) ==> Meets(g, ns[1..]))
  }

  /** After one request the rest is met if and only if all were. */
  lemma MeetsStep(f: seq<byte>, g: seq<byte>, n: nat, ns: seq<nat>)
    requires FirstFit(f, g, n)
    ensures Meets(f, [n] + ns) <==> Meets(g, ns)
  {
    assert ([n] + ns)[1..] == ns;
    assert HasRun(f, n);
    forall g2 | FirstFit(f, g2, n) ensures g2 == g {
      var s, t :| FirstRun(f, n, s) && Marked(f, g, s, n) && FirstRun(f, n, t) && Marked(f, g2, t, n);
      assert s == t;
    }
    hide FirstFit;
    hide HasRun;
  }

  lemma RunMissing(f: seq<byte>, n: nat, ns: seq<nat>)
    requires !HasRun(f, n)
    ensures !Meets(f, [n] + ns)
  {
  }

  lemma LastMet(f: seq<byte>, n: nat)
    ensures Meets(f, [n]) <==> HasRun(f, n)
  {
  }

  /** The last l blocks of the table are free. */
  ghost predicate LastFree(f: seq<byte>, l: int) {
    0 <= l && FreeRun(f, |f| - l, l)
  }

  function Sum(ns: seq<nat>): nat {
    if ns == [] then 0 else ns[0] + Sum(ns[1..])
  }

  /** First fit eats at most n blocks of the free tail. */
  lemma TailShrinks(f: seq<byte>, g: seq<byte>, s: int, n: nat, l: int)
    requires n <= l && LastFree(f, l)
    ensures HasRun(f, n)
    ensures FirstRun(f, n, s) && Marked(f, g, s, n) ==> LastFree(g, l - n)
  {
    assert FreeRun(f, |f| - l, n);
    if FirstRun(f, n, s) && Marked(f, g, s, n) {
      assert s <= |f| - l;
      assert forall i :: |g| - (l - n) <= i < |g| ==> g[i] == f[i];
    }
  }

  /** A free tail as long as everything asked for is room enough, whatever the rest of the heap looks like. */
  lemma {:induction false} TailServes(f: seq<byte>, ns: seq<nat>, k: nat, l: int)
    requires LastFree(f, l) && l >= Sum(ns) + k
    ensures Served(f, ns, k)
    decreases |ns|
  {
    hide FreeRun;
    if ns == [] {
      TailSize(f, l, k);
    } else {
      forall s, g | FirstRun(f, ns[0], s) && Marked(f, g, s, ns[0]) ensures Served(g, ns[1..], k) {
        TailShrinks(f, g, s, ns[0], l);
        TailServes(g, ns[1..], k, l - ns[0]);
      }
      TailShrinks(f, f, 0, ns[0], l);
    }
  }

  /** Such a tail meets every request, and each takes at most its blocks from it. */
  lemma {:induction false} TailMeets(f: seq<byte>, ns: seq<nat>, l: int)
    requires LastFree(f, l) && l >= Sum(ns)
    ensures Meets(f, ns)
    decreases |ns|
  {
    hide FreeRun;
    if ns != [] {
      TailShrinks(f, f, 0, ns[0], l);
      forall g | FirstFit(f, g, ns[0]) ensures Meets(g, ns[1..]) {
        TailAfter(f, g, ns[0], l);
        TailMeets(g, ns[1..], l - ns[0]);
      }
    }
  }

  lemma TailAfter(f: seq<byte>, g: seq<byte>, n: nat, l: int)
    requires FirstFit(f, g, n) && LastFree(f, l) && n <= l
    ensures LastFree(g, l - n)
  {
    hide FreeRun;
    var s :| FirstRun(f, n, s) && Marked(f, g, s, n);
    TailShrinks(f, g, s, n, l);
  }

  /** From f to g a free tail loses at most n blocks. */
  ghost predicate TailDrops(f: seq<byte>, g: seq<byte>, n: nat) {
    forall l :: l >= n && LastFree(f, l) ==> LastFree(g, l - n)
  }

  lemma DropsSame(f: seq<byte>)
    ensures TailDrops(f, f, 0)
  {
  }

  lemma DropsOne(f: seq<byte>, g: seq<byte>)
    requires FirstFit(f, g, 1)
    ensures TailDrops(f, g, 1)
  {
    hide LastFree;
    hide FirstFit;
    forall l | l >= 1 && LastFree(f, l) ensures LastFree(g, l - 1) {
      TailAfter(f, g, 1, l);
    }
  }

  lemma DropsThen(f: seq<byte>, g: seq<byte>, k: seq<byte>, a: nat, b: nat)
    requires TailDrops(f, g, a) && TailDrops(g, k, b)
    ensures TailDrops(f, k, a + b)
  {
    hide LastFree;
    forall l | l >= a + b && LastFree(f, l) ensures LastFree(k, l - (a + b)) {
      assert LastFree(g, l - a);
      assert l - a - b == l - (a + b);
    }
  }

  /** What is released is not taken from the tail. */
  lemma TailKept(f: seq<byte>, c: Chunks, g: seq<byte>, d: Chunks, l: int)
    requires Encodes(f, c) && Encodes(g, d) && |f| == |g| && LastFree(f, l)
    requires forall b :: b in d ==> b in c && c[b] == d[b]
    ensures LastFree(g, l)
  {
    forall i | |g| - l <= i < |g| ensures IsFree(g[i]) {
      FreeIffUncovered(f, c, i);
      FreeIffUncovered(g, d, i);
    }
  }

  lemma {:induction false} TailSize(f: seq<byte>, l: int, k: nat)
    requires LastFree(f, l) && k <= l
    ensures |FreeSet(f)| >= k
    decreases k
  {
    if k > 0 {
      var g := f[..|f| - 1];
      assert forall i :: 0 <= i < |g| ==> g[i] == f[i];
      TailSize(g, l - 1, k - 1);
      assert IsFree(f[|f| - 1]);
      assert FreeSet(f) == FreeSet(g) + {|f| - 1};
    }
  }

  // ---- sizes ----

  /** Rounding a size up to whole blocks, in 32-bit arithmetic. */
  function AlignUp(v: word): word {
    if v % 4096 == 0 then v else Wrap(v - v % 4096 + 4096)
  }

  function BlocksFor(size: word): nat {
    AlignUp(size) / 4096
  }

  /** The rounding is the least number of blocks that holds size, except where it wraps to none. */
  lemma BlocksForExact(size: word)
    ensures size <= 0xFFFFF000 ==> 4096 * BlocksFor(size) >= size && 4096 * (BlocksFor(size) - 1) < size
    ensures size > 0xFFFFF000 ==> BlocksFor(size) == 0
    ensures BlocksFor(size) <= 0xFFFFF
  {
    if size % 4096 != 0 {
      assert size - size % 4096 + 4096 == 4096 * (size / 4096 + 1);
    }
  }
}
