/** Paths against the directories as they are on disk: what a lookup over loaded records is meant to answer. */
module DiskPaths {
  import opened Words
  import opened Streams
  import opened Volumes
  import opened Directories

  /** What a path leads to on disk. */
  datatype Entry = Absent | Present(record: Record)

  /** Where the directory at start ends. */
  ghost function End(disk: Disk, start: int): (t: nat)
    requires Terminated(disk, start)
    ensures FirstTerminator(disk, start, t)
  {
    var t: nat :| FirstTerminator(disk, start, t);
    t
  }

  function RecordOn(disk: Disk, start: int, i: nat): Record {
    Slice(disk, start + 32 * i, 32)
  }

  /** Every directory on the way ends. */
  ghost predicate Ends(vol: Volume, start: int, parts: seq<seq<byte>>)
    decreases |parts|
  {
    Terminated(vol.disk, start) &&
    (|parts| > 1 ==>
      var t := End(vol.disk, start);
      var j := FindOnDisk(vol.disk, start, t, parts[0]);
      j < t && IsDirectory(RecordOn(vol.disk, start, j)) ==>
        Ends(vol, vol.Address(FirstCluster(RecordOn(vol.disk, start, j))), parts[1..]))
  }

  /** Following a path on disk, from the directory at start: the first record with each name, all records considered. */
  ghost function OnDisk(vol: Volume, start: int, parts: seq<seq<byte>>): Entry
    requires parts != [] && Ends(vol, start, parts)
    decreases |parts|
  {
    var t := End(vol.disk, start);
    var j := FindOnDisk(vol.disk, start, t, parts[0]);
    var r := RecordOn(vol.disk, start, j);
    if j == t then Absent
    else if |parts| == 1 then Present(r)
    else if !IsDirectory(r) then Absent
    else OnDisk(vol, vol.Address(FirstCluster(r)), parts[1..])
  }

  /** The directory a record names fits one cluster, or two adjacent ones, as far as it is counted. */
  ghost predicate Fits(vol: Volume, r: Record) {
    && Sound(vol, FirstCluster(r)) && Terminated(vol.disk, vol.Address(FirstCluster(r)))
    && var c, size := FirstCluster(r), 32 * CountLive(vol.disk, vol.Address(FirstCluster(r)), End(vol.disk, vol.Address(FirstCluster(r))));
       0 < size <= 0x7FFF_FFFF && (size <= vol.Bpc() || (size <= 2 * vol.Bpc() && Walk(vol, c, 1) == At(c + 1)))
  }

  /** On the way along the path every name that is on disk is on a record within the count, and every directory to be
      entered fits. */
  ghost predicate InReach(vol: Volume, start: int, parts: seq<seq<byte>>)
    requires parts != [] && Ends(vol, start, parts)
    decreases |parts|
  {
    var t := End(vol.disk, start);
    var j := FindOnDisk(vol.disk, start, t, parts[0]);
    var r := RecordOn(vol.disk, start, j);
    j < t ==>
      (j < CountLive(vol.disk, start, t) && DirOk(vol, r) &&
       (|parts| > 1 && IsDirectory(r) ==> Fits(vol, r) && InReach(vol, vol.Address(FirstCluster(r)), parts[1..])))
  }

  /** What is on disk under a path that is in reach is found, and what is not there is not found. */
  lemma {:induction false} FoundOnDisk(vol: Volume, start: int, bytes: seq<byte>, n: nat, parts: seq<seq<byte>>)
    requires vol.spc > 0 && parts != [] && Ends(vol, start, parts) && InReach(vol, start, parts)
    requires n == CountLive(vol.disk, start, End(vol.disk, start)) && 32 * n <= |bytes|
    requires bytes[..32 * n] == Slice(vol.disk, start, 32 * n)
    ensures PathOk(vol, bytes, n, parts)
    ensures match OnDisk(vol, start, parts)
      case Absent => Resolve(vol, bytes, n, parts) == NotFound
      case Present(r) => DirOk(vol, r) && Resolve(vol, bytes, n, parts) == LoadNode(vol, r)
    decreases |parts|
  {
    hide FindFrom;
    hide FindOnDisk;
    hide LoadNode;
    hide DirOk;
    hide Slice;
    hide Fits;
    hide CountLive;
    hide FirstTerminator;
    hide PathOk;
    hide Resolve;
    hide IsDirectory;
    var t := End(vol.disk, start);
    var j := FindOnDisk(vol.disk, start, t, parts[0]);
    LookupOnDisk(vol.disk, start, t, bytes, parts[0]);
    if j == t {
      NoRecord(vol, bytes, n, parts);
      return;
    }
    var r := RecordOn(vol.disk, start, j);
    RecordInPrefix(vol.disk, start, bytes, n, j);
    var rest := parts[1..];
    if |parts| > 1 && IsDirectory(r) {
      var next := vol.Address(FirstCluster(r));
      var k := CountLive(vol.disk, next, End(vol.disk, next));
      Entered(vol, r, k);
      FoundOnDisk(vol, next, Slice(vol.disk, next, 32 * k), k, rest);
      IntoDirectory(vol, bytes, n, parts, j, r, Slice(vol.disk, next, 32 * k), k);
    } else {
      LastRecord(vol, bytes, n, parts, j, r);
    }
  }

  lemma NoRecord(vol: Volume, bytes: seq<byte>, n: nat, parts: seq<seq<byte>>)
    requires vol.spc > 0 && parts != [] && 32 * n <= |bytes| && FindFrom(bytes, n, parts[0], 0) == n
    ensures PathOk(vol, bytes, n, parts) && Resolve(vol, bytes, n, parts) == NotFound
  {
  }

  /** A name found that is the last one, or a file's. */
  lemma LastRecord(vol: Volume, bytes: seq<byte>, n: nat, parts: seq<seq<byte>>, j: nat, r: Record)
    requires vol.spc > 0 && parts != [] && 32 * n <= |bytes| && FindFrom(bytes, n, parts[0], 0) == j < n && RecordAt(bytes, j) == r
    requires DirOk(vol, r) && (|parts| == 1 || !IsDirectory(r))
    ensures PathOk(vol, bytes, n, parts)
    ensures Resolve(vol, bytes, n, parts) == if |parts| == 1 then LoadNode(vol, r) else NotFound
  {
    hide FindFrom;
    hide DirOk;
    hide IsDirectory;
    if !IsDirectory(r) {
      FileNodeOf(vol, r);
    }
    var rest := parts[1..];
    if |parts| == 1 {
      hide LoadNode;
      assert rest == [];
      forall node: Node ensures ContinueOk(vol, node, []) {
      }
    }
  }

  /** A directory's name found that is not the last one. */
  lemma IntoDirectory(vol: Volume, bytes: seq<byte>, n: nat, parts: seq<seq<byte>>, j: nat, r: Record, sub: seq<byte>, k: nat)
    requires vol.spc > 0 && |parts| > 1 && 32 * n <= |bytes| && FindFrom(bytes, n, parts[0], 0) == j < n && RecordAt(bytes, j) == r
    requires DirOk(vol, r) && LoadNode(vol, r) == Found(DirNode(sub)) && |sub| == 32 * k && PathOk(vol, sub, k, parts[1..])
    ensures PathOk(vol, bytes, n, parts) && Resolve(vol, bytes, n, parts) == Resolve(vol, sub, k, parts[1..])
  {
    hide FindFrom;
    hide DirOk;
    hide LoadNode;
    assert |sub| / 32 == k;
    assert ContinueOk(vol, DirNode(sub), parts[1..]);
    assert Continue(vol, DirNode(sub), parts[1..]) == Resolve(vol, sub, k, parts[1..]);
  }

  /** A directory that fits is loaded as its first records. */
  lemma Entered(vol: Volume, r: Record, k: nat)
    requires IsDirectory(r) && Fits(vol, r)
    requires k == CountLive(vol.disk, vol.Address(FirstCluster(r)), End(vol.disk, vol.Address(FirstCluster(r))))
    ensures var sub := Slice(vol.disk, vol.Address(FirstCluster(r)), 32 * k);
      DirOk(vol, r) && LoadNode(vol, r) == Found(DirNode(sub)) && |sub| == 32 * k && sub[..32 * k] == sub
  {
    hide LoadNode;
    hide DirOk;
    hide Slice;
    var next := vol.Address(FirstCluster(r));
    LoadedDirectory(vol, r, End(vol.disk, next));
    WholeSlice(vol.disk, next, 32 * k);
  }

  lemma FileNodeOf(vol: Volume, r: Record)
    requires vol.spc > 0 && !IsDirectory(r)
    ensures DirOk(vol, r) && LoadNode(vol, r) == Found(FileNode(r))
  {
  }

  lemma WholeSlice(disk: Disk, pos: int, n: nat)
    ensures |Slice(disk, pos, n)| == n && Slice(disk, pos, n)[..n] == Slice(disk, pos, n)
  {
  }

  lemma RecordInPrefix(disk: Disk, start: int, bytes: seq<byte>, n: nat, j: nat)
    requires j < n && 32 * n <= |bytes| && bytes[..32 * n] == Slice(disk, start, 32 * n)
    ensures RecordAt(bytes, j) == RecordOn(disk, start, j)
  {
    RecordOnDisk(disk, start, n, j);
    assert RecordAt(bytes, j) == bytes[..32 * n][32 * j..32 * (j + 1)];
  }
}
