/** 32-bit words, C's bitwise operators on them, and byte-addressed physical memory. */
module Words {

  type byte = x: int | 0 <= x < 0x100
  type word = x: int | 0 <= x < 0x1_0000_0000


  /** Unsigned 32-bit arithmetic keeps the low 32 bits of the result. */
  function Wrap(x: int): word {
    x % 0x1_0000_0000
  }

  // ---- bitwise operators ----

  function BitOr(x: nat, y: nat): nat {
    if x == 0 && y == 0 then 0
    else 2 * BitOr(x / 2, y / 2) + if x % 2 == 1 || y % 2 == 1 then 1 else 0
  }

  function BitAnd(x: nat, y: nat): nat {
    if x == 0 || y == 0 then 0
    else 2 * BitAnd(x / 2, y / 2) + if x % 2 == 1 && y % 2 == 1 then 1 else 0
  }

  /** x shifted left by k bits. */
  function Shl(x: nat, k: nat): nat {
    if k == 0 then x else 2 * Shl(x, k - 1)
  }

  lemma ShlBytes(x: nat)
    ensures Shl(x, 1) == 2 * x && Shl(x, 4) == 16 * x && Shl(x, 6) == 0x40 * x && Shl(x, 7) == 0x80 * x && Shl(x, 8) == 0x100 * x
    ensures Shl(x, 12) == 4096 * x && Shl(x, 20) == 0x10_0000 * x && Shl(x, 32) == 0x1_0000_0000 * x
  {
    assert Shl(x, 1) == 2 * x;
    ShlFour(x, 0);
    assert Shl(x, 5) == 2 * Shl(x, 4) && Shl(x, 6) == 2 * Shl(x, 5);
    ShlFour(x, 4);
    ShlFour(x, 8);
    ShlFour(x, 12);
    ShlFour(x, 16);
    ShlFour(x, 20);
    ShlFour(x, 24);
    ShlFour(x, 28);
  }

  lemma ShlFour(x: nat, k: nat)
    ensures Shl(x, k + 4) == 16 * Shl(x, k)
  {
    assert Shl(x, k + 2) == 2 * Shl(x, k + 1);
    assert Shl(x, k + 4) == 2 * Shl(x, k + 3);
  }

  /** OR of a value whose low k bits are clear with a value of at most k bits is their sum. */
  lemma {:induction false} OrDisjoint(a: nat, f: nat, k: nat)
    requires f < Shl(1, k)
    ensures BitOr(Shl(a, k), f) == Shl(a, k) + f
  {
    if k == 0 {
      OrZero(a);
    } else {
      OrDisjoint(a, f / 2, k - 1);
      OrStep(Shl(a, k - 1), 0, f / 2, f % 2);
    }
  }

  lemma OrCommutes(x: nat, y: nat)
    ensures BitOr(x, y) == BitOr(y, x)
  {
  }

  lemma {:induction false} OrBound(x: nat, y: nat, k: nat)
    requires x < Shl(1, k) && y < Shl(1, k)
    ensures BitOr(x, y) < Shl(1, k)
  {
    if k > 0 {
      OrBound(x / 2, y / 2, k - 1);
    }
  }

  lemma OrZero(a: nat)
    ensures BitOr(a, 0) == a
  {
  }

  /** AND with 2^k - 1 keeps the low k bits. */
  lemma {:induction false} AndLow(h: nat, l: nat, k: nat)
    requires l < Shl(1, k)
    ensures BitAnd(Shl(h, k) + l, Shl(1, k) - 1) == l
  {
    if k > 0 {
      AndLow(h, l / 2, k - 1);
      AndStep(Shl(h, k - 1) + l / 2, l % 2, Shl(1, k - 1) - 1, 1);
    }
  }

  /** AND with a mask whose low k bits are clear acts on the bits above them only. */
  lemma {:induction false} AndHigh(h: nat, l: nat, m: nat, k: nat)
    requires l < Shl(1, k)
    ensures BitAnd(Shl(h, k) + l, Shl(m, k)) == Shl(BitAnd(h, m), k)
  {
    if k > 0 {
      AndHigh(h, l / 2, m, k - 1);
      AndStep(Shl(h, k - 1) + l / 2, l % 2, Shl(m, k - 1), 0);
    }
  }

  /** One unfolding of the operators on numbers given by their upper bits and last bit. */
  lemma AndStep(x: nat, b: nat, y: nat, c: nat)
    requires b < 2 && c < 2
    ensures BitAnd(2 * x + b, 2 * y + c) == 2 * BitAnd(x, y) + if b == 1 && c == 1 then 1 else 0
  {
    assert (2 * x + b) / 2 == x && (2 * y + c) / 2 == y;
  }

  lemma OrStep(x: nat, b: nat, y: nat, c: nat)
    requires b < 2 && c < 2
    ensures BitOr(2 * x + b, 2 * y + c) == 2 * BitOr(x, y) + if b == 1 || c == 1 then 1 else 0
  {
    assert (2 * x + b) / 2 == x && (2 * y + c) / 2 == y;
  }

  lemma LastBit(x: nat)
    ensures BitAnd(x, 1) == x % 2
  {
    AndStep(x / 2, x % 2, 0, 1);
  }

  /** The two packings the paging code relies on. */
  lemma PackPage(p: nat, f: nat)
    requires p % 4096 == 0 && f < 4096
    ensures BitOr(p, f) == p + f
  {
    ShlBytes(1);
    ShlBytes(p / 4096);
    OrDisjoint(p / 4096, f, 12);
  }

  lemma UnpackPage(x: word)
    ensures BitAnd(x, 0xFFFFF000) == x - x % 4096
  {
    hide BitAnd;
    hide Shl;
    ShlBytes(1);
    ShlBytes(0);
    ShlBytes(0xFFFFF);
    ShlBytes(x / 4096);
    AndHigh(x / 4096, x % 4096, 0xFFFFF, 12);
    AndLow(0, x / 4096, 20);
  }

  // ---- memory ----

  /** The byte at a physical address (0 beyond the end of the snapshot). */
  function Get(m: seq<byte>, a: int): byte {
    if 0 <= a < |m| then m[a] else 0
  }

  /** Little-endian 32-bit word at a physical address. */
  function WordAt(m: seq<byte>, a: int): word {
    Get(m, a) + 0x100 * Get(m, a + 1) + 0x1_0000 * Get(m, a + 2) + 0x100_0000 * Get(m, a + 3)
  }

  /** m2 equals m1 at every address outside [lo, hi). */
  ghost predicate SameOutside(m1: seq<byte>, m2: seq<byte>, lo: int, hi: int) {
    |m1| == |m2| && forall a :: !(lo <= a < hi) ==> Get(m2, a) == Get(m1, a)
  }

  lemma Unchanged(m1: seq<byte>, m2: seq<byte>, a: int)
    requires SameOutside(m1, m2, a, a)
    ensures m1 == m2
  {
    forall i | 0 <= i < |m1| ensures m1[i] == m2[i] {
      assert Get(m1, i) == Get(m2, i);
    }
  }

  lemma SameSlice(m1: seq<byte>, m2: seq<byte>, lo: int, hi: int)
    requires 0 <= lo <= hi <= |m1| == |m2| && forall a :: lo <= a < hi ==> Get(m2, a) == Get(m1, a)
    ensures m2[lo..hi] == m1[lo..hi]
  {
    forall i | 0 <= i < hi - lo ensures m2[lo..hi][i] == m1[lo..hi][i] {
      assert Get(m2, lo + i) == Get(m1, lo + i);
    }
  }

  lemma SameWord(m1: seq<byte>, m2: seq<byte>, a: int)
    requires forall b :: a <= b < a + 4 ==> Get(m2, b) == Get(m1, b)
    ensures WordAt(m2, a) == WordAt(m1, a)
  {
    assert Get(m2, a) == Get(m1, a) && Get(m2, a + 1) == Get(m1, a + 1);
    assert Get(m2, a + 2) == Get(m1, a + 2) && Get(m2, a + 3) == Get(m1, a + 3);
  }

  lemma FourBytes(x: word)
    ensures x == x % 0x100 + 0x100 * (x / 0x100 % 0x100) + 0x1_0000 * (x / 0x1_0000 % 0x100) + 0x100_0000 * (x / 0x100_0000)
  {
    assert x / 0x1_0000 == x / 0x100 / 0x100;
    assert x / 0x100_0000 == x / 0x1_0000 / 0x100;
  }

  method Store32(mem: array<byte>, a: int, x: word)
    requires 0 <= a && a + 4 <= mem.Length
    modifies mem
    ensures WordAt(mem[..], a) == x
    ensures SameOutside(old(mem[..]), mem[..], a, a + 4)
  {
    mem[a], mem[a + 1], mem[a + 2], mem[a + 3] := x % 0x100, x / 0x100 % 0x100, x / 0x1_0000 % 0x100, x / 0x100_0000;
    FourBytes(x);
  }

  method Load32(mem: array<byte>, a: int) returns (x: word)
    requires 0 <= a && a + 4 <= mem.Length
    ensures x == WordAt(mem[..], a)
  {
    var b0: int, b1: int, b2: int, b3: int := mem[a], mem[a + 1], mem[a + 2], mem[a + 3];
    x := b0 + 0x100 * b1 + 0x1_0000 * b2 + 0x100_0000 * b3;
  }

  /** memset */
  method Memset(mem: array<byte>, a: nat, c: byte, size: nat)
    requires a + size <= mem.Length
    modifies mem
    ensures SameOutside(old(mem[..]), mem[..], a, a + size)
    ensures forall b :: a <= b < a + size ==> Get(mem[..], b) == c
  {
    var i := 0;
    while i < size
      invariant 0 <= i <= size
      invariant forall b :: 0 <= b < mem.Length ==> mem[b] == if a <= b < a + i then c else old(mem[b])
    {
      mem[a + i] := c;
      i := i + 1;
    }
  }
}
