/** The FAT16 driver's reads: cluster lookup, file reads and seeks (fat16.c). */
module Fat16 {
  import opened Words
  import opened Errors
  import opened Division
  import opened Streams
  import opened Volumes
  import opened ClusterReads
  import opened FileReads

  /** The fields the driver uses of a 32-byte directory record. */
  datatype DirItem = DirItem(attribute: byte, cluster: nat, filesize: word)

  const SUBDIRECTORY: byte := 0x10

  datatype SeekMode = SeekSet | SeekCur | SeekEnd | Unknown

  /** An open file: fat_file_descriptor. A read does not move pos; only seeks do. */
  class FileDescriptor {
    const item: DirItem
    var pos: word

    constructor (item: DirItem)
      ensures this.item == item && pos == 0 && Valid()
    {
      this.item, pos := item, 0;
    }

    /** The position is 0 or inside the file. */
    ghost predicate Valid()
      reads this
    {
      pos == 0 || pos < item.filesize
    }

    /** fat16_seek, in 32-bit arithmetic. */
    method Seek(offset: word, mode: SeekMode) returns (res: int)
      requires Valid()
      modifies this
      ensures Valid()
      ensures item.attribute / SUBDIRECTORY % 2 == 1 ==> res == -EINVARG && pos == old(pos)
      ensures item.attribute / SUBDIRECTORY % 2 == 0 ==> match mode
        case SeekSet => if offset < item.filesize then res == 0 && pos == offset else res == -EIO && pos == old(pos)
        case SeekCur => if Wrap(old(pos) as int + offset) < item.filesize
                        then res == 0 && pos == Wrap(old(pos) as int + offset) else res == -EIO && pos == old(pos)
        case SeekEnd => res == -1 && pos == old(pos)
        case Unknown => res == -EINVARG && pos == old(pos)
    {
      if item.attribute / SUBDIRECTORY % 2 == 1 {
        return -EINVARG;
      }
      match mode {
        case SeekSet =>
          if offset >= item.filesize {
            return -EIO;
          }
          pos := offset;
        case SeekCur =>
          if Wrap(pos as int + offset) >= item.filesize {
            return -EIO;
          }
          pos := Wrap(pos as int + offset);
        case SeekEnd =>
          return -1;
        case Unknown =>
          return -EINVARG;
      }
      res := 0;
    }
  }

  lemma KeptNothing(out: seq<byte>, at: nat, n: nat)
    ensures KeptAround(out, out, at, n)
  {
  }

  class Driver {
    const vol: Volume
    const clusterStream: DiskStream
    const fatStream: DiskStream
    const directoryStream: DiskStream

    constructor (vol: Volume)
      requires vol.spc > 0
      ensures this.vol == vol && Valid() && fresh(clusterStream) && fresh(fatStream) && fresh(directoryStream)
    {
      this.vol := vol;
      clusterStream := new DiskStream(vol.disk);
      fatStream := new DiskStream(vol.disk);
      directoryStream := new DiskStream(vol.disk);
    }

    ghost predicate Valid() {
      && vol.spc > 0
      && clusterStream.disk == fatStream.disk == directoryStream.disk == vol.disk
      && clusterStream != fatStream && clusterStream != directoryStream && fatStream != directoryStream
    }

    /** fat16_get_fat_entry_for_cluster */
    method GetFatEntry(cluster: nat) returns (entry: nat)
      requires Valid()
      modifies fatStream
      ensures entry == vol.FatEntry(cluster)
    {
      fatStream.Seek(vol.fat + cluster * 2);
      var buf := new byte[2];
      ghost var before := buf[..];
      fatStream.Read(buf, 0, 2);
      PlacedAt(before, buf[..], 0, Slice(vol.disk, vol.fat + cluster * 2, 2), 0);
      PlacedAt(before, buf[..], 0, Slice(vol.disk, vol.fat + cluster * 2, 2), 1);
      var lo: int, hi: int := buf[0], buf[1];
      entry := lo + 0x100 * hi;
    }

    /** fat16_get_cluster_for_offset */
    method GetClusterForOffset(from: nat, offset: nat) returns (r: int)
      requires Valid()
      modifies fatStream
      ensures match Walk(vol, from, Quot(offset, vol.Bpc())) case At(x) => r == x && x >= 0 case Lost => r == -EIO
    {
      var target := from;
      var links := Quot(offset, vol.Bpc());
      var i := 0;
      while i < links
        invariant 0 <= i <= links && target >= 0 && Walk(vol, from, i) == At(target)
      {
        var entry := GetFatEntry(target);
        if StopsWalk(entry) {
          if Walk(vol, from, links).At? {
            WalkPrefix(vol, from, i + 1, links);
          }
          return -EIO;
        }
        target := entry;
        i := i + 1;
      }
      r := target;
    }

    /** fat16_read_internal; keep is false in the code as written and true in its repair. */
    method ReadInternal(start: nat, offset: nat, total: nat, out: array<byte>, at: nat, keep: bool) returns (res: int)
      requires Valid() && Sound(vol, start) && at + total <= out.Length
      modifies clusterStream, fatStream, out
      ensures KeptAround(old(out[..]), out[..], at, total)
      ensures match ReadSpec(vol, start, offset, total, keep)
        case Failed => res == -EIO
        case Data(bytes) => res == 0 && Placed(old(out[..]), out[..], at, bytes)
      decreases total
    {
      hide Quot;
      hide Rem;
      hide Walk;
      hide Sound;
      hide Placed;
      hide KeptAround;
      ghost var before := out[..];
      KeptNothing(before, at, total);
      var target := GetClusterForOffset(start, offset);
      if target < 0 {
        return target;
      }
      ghost var k := Quot(offset, vol.Bpc());
      TargetSound(start, k);
      var n := PieceSize(vol, offset, total);
      clusterStream.Seek(vol.Address(target) + Rem(offset, vol.Bpc()));
      clusterStream.Read(out, at, n);
      res := 0;
      ghost var middle := out[..];
      ghost var piece := Slice(vol.disk, vol.Address(target) + Rem(offset, vol.Bpc()), n);
      if total > n {
        res := ReadInternal(if keep then start else target, offset + n, total - n, out, at + n, keep);
        ghost var rest := ReadSpec(vol, if keep then start else target, offset + n, total - n, keep);
        if rest.Data? {
          PlacedAppend(before, middle, out[..], at, piece, rest.bytes);
        }
      } else {
        KeptNothing(middle, at + n, total - n);
      }
      PlacedKept(before, middle, out[..], at, piece, total);
    }

    lemma TargetSound(start: nat, k: nat)
      requires Sound(vol, start) && Walk(vol, start, k).At?
      ensures vol.Address(Walk(vol, start, k).cluster) >= 0 && Sound(vol, Walk(vol, start, k).cluster)
    {
      SoundOn(vol, start, k);
    }

    /** fat16_read with the element size positive, as fread guarantees, on a descriptor of a file. */
    method Read(desc: FileDescriptor, size: nat, nmemb: nat, out: array<byte>, at: nat, keep: bool) returns (read: nat)
      requires Valid() && desc.Valid() && size > 0 && (desc.item.filesize > 0 ==> Sound(vol, desc.item.cluster))
      requires at + Times(Wanted(desc.item.filesize, desc.pos, size, nmemb), size) <= out.Length
      modifies clusterStream, fatStream, out
      ensures var r := ReadElements(vol, desc.item.cluster, desc.item.filesize, desc.pos, size, nmemb, keep);
        read == r.count && at + |r.bytes| <= out.Length && out[at..at + |r.bytes|] == r.bytes
      ensures KeptAround(old(out[..]), out[..], at, Times(Wanted(desc.item.filesize, desc.pos, size, nmemb), size))
    {
      hide ReadElements;
      hide ReadSpec;
      hide Wanted;
      hide Times;
      hide Sound;
      hide Placed;
      hide KeptAround;
      hide Progress;
      hide Wrap;
      ghost var c, filesize, pos := desc.item.cluster, desc.item.filesize, desc.pos;
      ghost var n := Times(Wanted(filesize, pos, size, nmemb), size);
      ghost var before, sofar: seq<byte> := out[..], [];
      KeptNothing(before, at, n);
      PlacedNothing(before, at);
      ProgressStart(vol, c, filesize, pos, size, nmemb, keep);
      read := 0;
      var offset: nat := desc.pos;
      var left := nmemb;
      while left > 0
        invariant left >= 0 && pos <= offset <= filesize && |sofar| == offset - pos
        invariant Progress(vol, c, filesize, pos, size, nmemb, keep, read, offset, left, sofar)
        invariant Placed(before, out[..], at, sofar) && KeptAround(before, out[..], at, n)
        decreases left
      {
        WrapSmall(filesize - offset);
        left := left - 1;
        if size > Wrap(desc.item.filesize as int - offset) {
          ProgressEnd(vol, c, filesize, pos, size, nmemb, keep, read, offset, left + 1, sofar);
          PlacedSlice(before, out[..], at, sofar);
          return;
        }
        ghost var middle := out[..];
        ProgressStep(vol, c, filesize, pos, size, nmemb, keep, read, offset, left + 1, sofar);
        var res := ReadInternal(desc.item.cluster, offset, size, out, at + (offset - desc.pos), keep);
        KeptInside(before, middle, out[..], at, n, at + (offset - pos), size);
        if res < 0 {
          ProgressEnd(vol, c, filesize, pos, size, nmemb, keep, read, offset, left + 1, sofar);
          PlacedEarlier(before, middle, out[..], at, sofar, size);
          return;
        }
        ghost var element := ReadSpec(vol, c, offset, size, keep).bytes;
        PlacedAppend(before, middle, out[..], at, sofar, element);
        sofar := sofar + element;
        offset := offset + size;
        read := read + 1;
      }
      ProgressEnd(vol, c, filesize, pos, size, nmemb, keep, read, offset, left, sofar);
      PlacedSlice(before, out[..], at, sofar);
    }
  }

  lemma WrapSmall(x: int)
    requires 0 <= x < 0x1_0000_0000
    ensures Wrap(x) == x
  {
  }

  lemma PlacedNothing(out: seq<byte>, at: nat)
    requires at <= |out|
    ensures Placed(out, out, at, [])
  {
  }

  lemma PlacedSlice(out1: seq<byte>, out2: seq<byte>, at: nat, data: seq<byte>)
    requires Placed(out1, out2, at, data)
    ensures at + |data| <= |out2| && out2[at..at + |data|] == data
  {
  }

  /** Bytes placed stay when only what follows them changes. */
  lemma PlacedEarlier(out1: seq<byte>, out2: seq<byte>, out3: seq<byte>, at: nat, data: seq<byte>, n: nat)
    requires Placed(out1, out2, at, data) && KeptAround(out2, out3, at + |data|, n)
    ensures at + |data| <= |out3| && out3[at..at + |data|] == data
  {
    forall i | 0 <= i < |data| ensures out3[at + i] == data[i] {
      assert out2[at + i] == data[i];
    }
  }

  lemma KeptInside(out1: seq<byte>, out2: seq<byte>, out3: seq<byte>, at: nat, n: nat, from: nat, k: nat)
    requires KeptAround(out1, out2, at, n) && KeptAround(out2, out3, from, k) && at <= from && from + k <= at + n
    ensures KeptAround(out1, out3, at, n)
  {
  }
}
