/** Byte streams over sector reads (stream.c). */
module Streams {
  import opened Words

  /** An immutable disk: the byte at every address. */
  type Disk = int -> byte

  /** n bytes of the disk from pos on. */
  function Slice(disk: Disk, pos: int, n: int): (s: seq<byte>)
    ensures |s| == if n < 0 then 0 else n
    ensures forall i :: 0 <= i < |s| ==> s[i] == disk(pos + i)
  {
    if n < 0 then [] else seq(n, i => disk(pos + i))
  }

  /** Reading on where the last read stopped is reading further. */
  lemma SliceAppend(disk: Disk, pos: int, a: nat, b: nat)
    ensures Slice(disk, pos, a) + Slice(disk, pos + a, b) == Slice(disk, pos, a + b)
  {
    var s, t := Slice(disk, pos, a) + Slice(disk, pos + a, b), Slice(disk, pos, a + b);
    forall i | 0 <= i < a + b ensures s[i] == t[i] {
      assert s[i] == if i < a then Slice(disk, pos, a)[i] else Slice(disk, pos + a, b)[i - a];
    }
  }

  /** out2 is out1 with data at position at. */
  ghost predicate Placed(out1: seq<byte>, out2: seq<byte>, at: nat, data: seq<byte>) {
    && at + |data| <= |out1| == |out2|
    && (forall i :: 0 <= i < |data| ==> out2[at + i] == data[i])
    && (forall i :: 0 <= i < |out1| && !(at <= i < at + |data|) ==> out2[i] == out1[i])
  }

  lemma PlacedAt(out1: seq<byte>, out2: seq<byte>, at: nat, data: seq<byte>, i: nat)
    requires Placed(out1, out2, at, data) && i < |data|
    ensures out2[at + i] == data[i]
  {
  }

  /** Nothing outside [at, at + n) changed. */
  ghost predicate KeptAround(out1: seq<byte>, out2: seq<byte>, at: nat, n: nat) {
    |out1| == |out2| && forall i :: 0 <= i < |out1| && !(at <= i < at + n) ==> out2[i] == out1[i]
  }

  lemma PlacedKept(out1: seq<byte>, out2: seq<byte>, out3: seq<byte>, at: nat, data: seq<byte>, n: nat)
    requires Placed(out1, out2, at, data) && |data| <= n && KeptAround(out2, out3, at + |data|, n - |data|)
    ensures KeptAround(out1, out3, at, n)
  {
  }

  lemma KeptIsSame(m1: seq<byte>, m2: seq<byte>, at: nat, n: nat)
    requires KeptAround(m1, m2, at, n)
    ensures SameOutside(m1, m2, at, at + n)
  {
  }

  /** Two adjacent pieces are one. */
  lemma PlacedAppend(out1: seq<byte>, out2: seq<byte>, out3: seq<byte>, at: nat, a: seq<byte>, b: seq<byte>)
    requires Placed(out1, out2, at, a) && Placed(out2, out3, at + |a|, b)
    ensures Placed(out1, out3, at, a + b)
  {
    forall i | 0 <= i < |a + b| ensures out3[at + i] == (a + b)[i] {
      if i < |a| {
        assert out2[at + i] == a[i];
      } else {
        assert out3[at + |a| + (i - |a|)] == b[i - |a|];
      }
    }
  }

  /** disk_read_block: one whole sector. */
  method ReadSector(disk: Disk, sector: int, buf: array<byte>)
    requires buf.Length == 512
    modifies buf
    ensures forall i :: 0 <= i < 512 ==> buf[i] == disk(sector * 512 + i)
  {
    var i := 0;
    while i < 512
      invariant 0 <= i <= 512
      invariant forall j :: 0 <= j < i ==> buf[j] == disk(sector * 512 + j)
    {
      buf[i] := disk(sector * 512 + i);
      i := i + 1;
    }
  }

  /** One sector into a buffer, then its bytes from offset on to the output. */
  method CopySector(disk: Disk, sector: int, offset: nat, count: int, out: array<byte>, at: nat)
    requires offset + count <= 512 && at <= out.Length && at + count <= out.Length
    modifies out
    ensures Placed(old(out[..]), out[..], at, Slice(disk, sector * 512 + offset, count))
  {
    var buf := new byte[512];
    ReadSector(disk, sector, buf);
    var i := 0;
    while i < count
      invariant 0 <= i && (i <= count || i == 0)
      invariant forall j :: 0 <= j < 512 ==> buf[j] == disk(sector * 512 + j)
      invariant forall x :: 0 <= x < out.Length ==>
        out[x] == if at <= x < at + i then disk(sector * 512 + offset + (x - at)) else old(out[x])
    {
      out[at + i] := buf[offset + i];
      i := i + 1;
    }
    var data := Slice(disk, sector * 512 + offset, count);
    forall j | 0 <= j < |data| ensures out[..][at + j] == data[j] {
      assert out[at + j] == disk(sector * 512 + offset + j);
    }
  }

  class DiskStream {
    const disk: Disk
    var pos: int

    constructor (disk: Disk)
      ensures this.disk == disk && pos == 0
    {
      this.disk, pos := disk, 0;
    }

    /** diskstream_seek */
    method Seek(p: int)
      modifies this
      ensures pos == p
    {
      pos := p;
    }

    /** diskstream_read: any start, any length, over any number of sectors. */
    method Read(out: array<byte>, at: nat, total: int)
      requires 0 <= pos && 0 <= pos + total && at + total <= out.Length && at <= out.Length
      modifies this, out
      ensures pos == old(pos) + total
      ensures Placed(old(out[..]), out[..], at, Slice(disk, old(pos), total))
    {
      ghost var start, before := pos, out[..];
      var sector := pos / 512;
      var offset := pos % 512;
      var remaining := total;
      var readable := 512 - offset;
      var chunk := if remaining > readable then readable else remaining;
      var done := 0;
      while true
        invariant sector == pos / 512 && offset == pos % 512
        invariant chunk == if remaining > 512 - offset then 512 - offset else remaining
        invariant done >= 0 && pos == start + done && remaining == total - done
        invariant done > 0 ==> remaining > 0
        invariant Placed(before, out[..], at, Slice(disk, start, done))
        decreases remaining
      {
        ghost var middle := out[..];
        CopySector(disk, sector, offset, chunk, out, at + done);
        PlacedAppend(before, middle, out[..], at, Slice(disk, start, done), Slice(disk, pos, chunk));
        if chunk >= 0 {
          SliceAppend(disk, start, done, chunk);
        }
        pos := pos + chunk;
        sector := pos / 512;
        offset := pos % 512;
        readable := 512 - offset;
        remaining := remaining - chunk;
        done := done + chunk;
        chunk := if remaining > readable then readable else remaining;
        if remaining <= 0 {
          break;
        }
      }
    }
  }
}
