/** FAT16 cluster chains and the bytes of the files they hold. */
module Volumes {
  import opened Words
  import opened Streams
  import opened Division

  /** What the driver keeps of a mounted volume: where the FAT starts, sectors per cluster, first data sector. */
  datatype Volume = Volume(disk: Disk, fat: nat, spc: nat, dataSector: nat) {
    /** bytes_per_cluster */
    function Bpc(): nat {
      spc * 512
    }

    /** The 16-bit FAT entry of a cluster. */
    function FatEntry(c: int): nat {
      disk(fat + 2 * c) + 0x100 * disk(fat + 2 * c + 1)
    }

    /** Byte address of a cluster's data: fat16_cluster_to_sector times the sector size. */
    function Address(c: int): int {
      (dataSector + (c - 2) * spc) * 512
    }
  }

  // ---- mounting (Microsoft FAT Specification, section 3) ----

  /** A little-endian 16-bit field of the boot sector. */
  function Field16(disk: Disk, a: int): nat {
    disk(a) + 0x100 * disk(a + 1)
  }

  /** Where the root directory starts: behind the reserved sectors and all copies of the table. */
  function RootSector(disk: Disk): nat {
    disk(16) * Field16(disk, 22) + Field16(disk, 14)
  }

  /** fat16_resolve and fat16_get_root_directory: the geometry from the header. The data begins behind the sectors of the
      root directory, the last one counted even if it is not full. */
  function Mounted(disk: Disk): Volume {
    var size := 32 * Field16(disk, 17);
    var sectors := size / 512 + if size % 512 != 0 then 1 else 0;
    Volume(disk, 512 * Field16(disk, 14), disk(13), RootSector(disk) + sectors)
  }

  /** The data area begins at the first sector boundary at which the root directory's 32-byte entries are all passed. */
  lemma DataBehindRoot(disk: Disk)
    ensures var v, root, entries := Mounted(disk), RootSector(disk), Field16(disk, 17);
      512 * root + 32 * entries <= 512 * v.dataSector < 512 * root + 32 * entries + 512
  {
  }

  // ---- walking a chain ----

  /** Entries at which the driver stops walking: last, bad, reserved or free. */
  predicate StopsWalk(e: int) {
    e == 0xFFFF || e == 0xFFF8 || e == 0xFFF7 || e == 0xFFF0 || e == 0xFFF5 || e == 0xFFF6 || e == 0x0000
  }

  /** Entry by entry: numbers of data clusters never stop the walk; free, bad, and the two ends the driver knows do; of the
      other numbers from 0xFFF0 on only three do. */
  lemma StopsExactly(e: nat)
    requires e < 0x1_0000
    ensures 1 <= e <= 0xFFEF ==> !StopsWalk(e)
    ensures e == 0 || e == 0xFFF7 || e == 0xFFF8 || e == 0xFFFF ==> StopsWalk(e)
    ensures e >= 0xFFF0 ==> (StopsWalk(e) <==> e == 0xFFF0 || 0xFFF5 <= e <= 0xFFF8 || e == 0xFFFF)
  {
  }

  // ---- the layout of a volume (Microsoft FAT Specification, sections 3 and 4) ----

  /** A table of 16-bit entries laid out little-endian from the start of the FAT reads as those entries. */
  lemma FatLayout(vol: Volume, entries: seq<nat>)
    requires forall i :: 0 <= i < |entries| ==> entries[i] < 0x1_0000
    requires forall i :: 0 <= i < |entries| ==>
      vol.disk(vol.fat + 2 * i) == entries[i] % 0x100 && vol.disk(vol.fat + 2 * i + 1) == entries[i] / 0x100
    ensures forall i :: 0 <= i < |entries| ==> vol.FatEntry(i) == entries[i]
  {
  }

  /** The clusters tile the data area: byte x of it, counted from the first data sector, is byte x % B of the cluster
      2 + x / B, for clusters of B bytes. */
  lemma ClustersTile(vol: Volume, x: nat)
    requires vol.spc > 0
    ensures vol.Bpc() == 512 * vol.spc
    ensures vol.Address(2 + x / (512 * vol.spc)) + x % (512 * vol.spc) == 512 * vol.dataSector + x
  {
    var b := 512 * vol.spc;
    var q := x / b;
    assert x == b * q + x % b;
    assert (2 + q - 2) * vol.spc * 512 == b * q;
  }

  datatype Step = Lost | At(cluster: int)

  /** The cluster k links after c. */
  function Walk(vol: Volume, c: int, k: nat): Step {
    if k == 0 then At(c)
    else match Walk(vol, c, k - 1)
      case Lost => Lost
      case At(x) => if StopsWalk(vol.FatEntry(x)) then Lost else At(vol.FatEntry(x))
  }

  lemma {:induction false} WalkOn(vol: Volume, c: int, j: nat, k: nat)
    requires Walk(vol, c, j).At?
    ensures Walk(vol, c, j + k) == Walk(vol, Walk(vol, c, j).cluster, k)
  {
    if k > 0 {
      WalkOn(vol, c, j, k - 1);
    }
  }

  lemma {:induction false} WalkPrefix(vol: Volume, c: int, j: nat, k: nat)
    requires j <= k && Walk(vol, c, k).At?
    ensures Walk(vol, c, j).At?
    decreases k
  {
    if j < k {
      WalkPrefix(vol, c, j, k - 1);
    }
  }

  /** c starts a chain of at least n clusters. */
  ghost predicate HasChain(vol: Volume, c: int, n: nat) {
    n > 0 && Walk(vol, c, n - 1).At?
  }

  /** No cluster of the chain lies before the start of the disk, as cluster numbers 0 and 1 may. */
  ghost predicate Sound(vol: Volume, c: int) {
    vol.spc > 0 && forall k: nat :: Walk(vol, c, k).At? ==> vol.Address(Walk(vol, c, k).cluster) >= 0
  }

  lemma SoundOn(vol: Volume, c: int, j: nat)
    requires Sound(vol, c) && Walk(vol, c, j).At?
    ensures Sound(vol, Walk(vol, c, j).cluster)
  {
    var x := Walk(vol, c, j).cluster;
    forall k: nat | Walk(vol, x, k).At? ensures vol.Address(Walk(vol, x, k).cluster) >= 0 {
      WalkOn(vol, c, j, k);
    }
  }

  /** The bytes of the first n clusters, one after the other: the file's contents. */
  function ChainBytes(vol: Volume, c: int, n: nat): seq<byte>
    requires n == 0 || HasChain(vol, c, n)
  {
    if n == 0 then []
    else
      WalkPrefix(vol, c, if n == 1 then 0 else n - 2, n - 1);
      ChainBytes(vol, c, n - 1) + Slice(vol.disk, vol.Address(Walk(vol, c, n - 1).cluster), vol.Bpc())
  }

  /** v is the byte at position x of the file that starts at cluster c. */
  ghost predicate IsFileByte(vol: Volume, c: int, x: nat, v: byte)
    requires vol.spc > 0
  {
    match Walk(vol, c, Quot(x, vol.Bpc()))
    case Lost => false
    case At(y) => v == vol.disk(vol.Address(y) + Rem(x, vol.Bpc()))
  }

  lemma {:induction false} ChainBytesAt(vol: Volume, c: int, n: nat, x: nat)
    requires vol.spc > 0 && (n == 0 || HasChain(vol, c, n))
    ensures |ChainBytes(vol, c, n)| == Times(n, vol.Bpc())
    ensures x < Times(n, vol.Bpc()) ==> IsFileByte(vol, c, x, ChainBytes(vol, c, n)[x])
  {
    if n > 0 {
      var b := vol.Bpc();
      WalkPrefix(vol, c, if n == 1 then 0 else n - 2, n - 1);
      ChainBytesAt(vol, c, n - 1, x);
      if Times(n - 1, b) <= x < Times(n, b) {
        Compose(n - 1, b, x - Times(n - 1, b));
      }
    }
  }
}
