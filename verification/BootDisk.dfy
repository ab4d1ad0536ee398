/** A small volume with the geometry of the kernel's boot disk (boot.asm), laid out by hand: the program the kernel starts is
    found under its path and read byte for byte. */
module BootDisk {
  import opened Words
  import opened Streams
  import opened Volumes
  import opened Division
  import opened ClusterReads
  import opened Fat16
  import opened Paths
  import opened Directories
  import opened DiskPaths

  // 200 reserved sectors, two tables of 256 sectors, 4 sectors of root directory, 128 sectors per cluster: the FAT begins at
  // sector 200, the root directory at 712, cluster 2 at 716 and cluster 3 at 844.

  /** The directory BIN in the root, at cluster 2, and in it EMPTY.BIN, 11 bytes at cluster 3. */
  function BinRecord(): Record {
    RecordOf([66, 73, 78, 32, 32, 32, 32, 32, 32, 32, 32], 0x10, seq(14, i => 0), 2, 0)
  }

  function EmptyRecord(): Record {
    RecordOf([69, 77, 80, 84, 89, 32, 32, 32, 66, 73, 78], 0x20, seq(14, i => 0), 3, 11)
  }

  function BootByte(a: int): byte {
    if a == 13 then 0x80
    else if a == 14 then 200
    else if a == 16 then 2
    else if a == 17 then 0x40
    else if a == 23 then 1
    else if 102404 <= a < 102406 then 0xFF
    else if a == 102406 then 0xF8
    else if a == 102407 then 0xFF
    else if 364544 <= a < 364576 then BinRecord()[a - 364544]
    else if 366592 <= a < 366624 then EmptyRecord()[a - 366592]
    else if 432128 <= a < 432139 then 100 + (a - 432128)
    else 0
  }

  const BOOT: Volume := Volume(a => BootByte(a), 102400, 128, 716)

  /** "bin", "empty.bin" */
  function BootParts(): seq<seq<byte>> {
    [[98, 105, 110], [101, 109, 112, 116, 121, 46, 98, 105, 110]]
  }

  /** The geometry is the one its header says. */
  lemma HeaderIsRead()
    ensures Mounted(BOOT.disk) == BOOT && RootSector(BOOT.disk) * 512 == 364544
  {
    var disk := BOOT.disk;
    assert Field16(disk, 14) == 200 && Field16(disk, 17) == 64 && Field16(disk, 22) == 256 && disk(13) == 128 && disk(16) == 2;
  }

  lemma Geometry()
    ensures BOOT.Bpc() == 65536 && BOOT.Address(2) == 366592 && BOOT.Address(3) == 432128
    ensures BOOT.FatEntry(2) == 0xFFFF && BOOT.FatEntry(3) == 0xFFF8
  {
  }

  lemma OneCluster(c: nat)
    requires c == 2 || c == 3
    ensures Sound(BOOT, c) && HasChain(BOOT, c, 1) && Walk(BOOT, c, 1).Lost?
  {
    hide BootByte;
    Geometry();
    assert Walk(BOOT, c, 0) == At(c);
    forall k: nat | Walk(BOOT, c, k).At? ensures BOOT.Address(Walk(BOOT, c, k).cluster) >= 0 {
      if k > 0 {
        WalkPrefix(BOOT, c, 1, k);
      }
    }
  }

  /** Both directories hold one record. */
  lemma OneRecord(start: int)
    requires start == 364544 || start == 366592
    ensures FirstTerminator(BOOT.disk, start, 1) && CountLive(BOOT.disk, start, 1) == 1
    ensures RecordOn(BOOT.disk, start, 0) == if start == 364544 then BinRecord() else EmptyRecord()
  {
    if start == 364544 {
      BinBytes();
      assert BinRecord()[0] == 66;
      RecordAlone(BOOT.disk, start, BinRecord());
    } else {
      EmptyBytes();
      assert EmptyRecord()[0] == 69;
      RecordAlone(BOOT.disk, start, EmptyRecord());
    }
  }

  lemma BinBytes()
    ensures forall a {:trigger BOOT.disk(a)} :: 364544 <= a < 364576 ==> BOOT.disk(a) == BinRecord()[a - 364544]
    ensures BOOT.disk(364576) == 0
  {
    hide BinRecord;
  }

  lemma EmptyBytes()
    ensures forall a {:trigger BOOT.disk(a)} :: 366592 <= a < 366624 ==> BOOT.disk(a) == EmptyRecord()[a - 366592]
    ensures BOOT.disk(366624) == 0
  {
    hide EmptyRecord;
  }

  /** One record and then the end. */
  lemma RecordAlone(disk: Disk, start: int, r: Record)
    requires |r| == 32 && r[0] != 0 && r[0] != 0xE5 && disk(start + 32) == 0
    requires forall a {:trigger disk(a)} :: start <= a < start + 32 ==> disk(a) == r[a - start]
    ensures FirstTerminator(disk, start, 1) && CountLive(disk, start, 1) == 1 && RecordOn(disk, start, 0) == r
  {
    assert FirstByte(disk, start, 0) == r[0];
    assert CountLive(disk, start, 0) == 0;
    assert RecordOn(disk, start, 0) == r;
  }

  lemma OneEnd(start: int)
    requires start == 364544 || start == 366592
    ensures Terminated(BOOT.disk, start) && End(BOOT.disk, start) == 1
  {
    OneRecord(start);
    assert Terminated(BOOT.disk, start);
    TerminatorUnique(BOOT.disk, start, End(BOOT.disk, start), 1);
  }

  lemma Names()
    ensures NamedAs(BinRecord(), [66, 73, 78], []) && IsDirectory(BinRecord()) && FirstCluster(BinRecord()) == 2
    ensures NamedAs(EmptyRecord(), [69, 77, 80, 84, 89], [66, 73, 78]) && !IsDirectory(EmptyRecord())
    ensures ItemOf(EmptyRecord()) == DirItem(0x20, 3, 11)
  {
    BinName();
    EmptyName();
  }

  lemma BinName()
    ensures NamedAs(BinRecord(), [66, 73, 78], []) && IsDirectory(BinRecord()) && FirstCluster(BinRecord()) == 2
  {
    RecordRoundTrip([66, 73, 78, 32, 32, 32, 32, 32, 32, 32, 32], 0x10, seq(14, i => 0), 2, 0);
    var r := BinRecord();
    assert r[..8] == [66, 73, 78, 32, 32, 32, 32, 32] && r[..8][..3] == [66, 73, 78];
    assert r[8..11] == [32, 32, 32] && r[8..11][..0] == [];
  }

  lemma EmptyName()
    ensures NamedAs(EmptyRecord(), [69, 77, 80, 84, 89], [66, 73, 78]) && !IsDirectory(EmptyRecord())
    ensures ItemOf(EmptyRecord()) == DirItem(0x20, 3, 11)
  {
    RecordRoundTrip([69, 77, 80, 84, 89, 32, 32, 32, 66, 73, 78], 0x20, seq(14, i => 0), 3, 11);
    var r := EmptyRecord();
    assert r[..8] == [69, 77, 80, 84, 89, 32, 32, 32] && r[..8][..5] == [69, 77, 80, 84, 89];
    assert r[8..11] == [66, 73, 78] && r[8..11][..3] == [66, 73, 78];
  }

  /** The first record of a directory is found under its name. */
  lemma FoundFirst(start: int, name: seq<byte>)
    requires start == 364544 || start == 366592
    requires SameName(FullName(RecordOn(BOOT.disk, start, 0)), name)
    ensures FindOnDisk(BOOT.disk, start, 1, name) == 0
  {
    hide FullName;
    hide SameName;
    var all := Slice(BOOT.disk, start, 32);
    assert RecordAt(all, 0) == all == RecordOn(BOOT.disk, start, 0);
  }

  /** On disk the path leads to the record of the program. */
  lemma ProgramOnDisk()
    ensures Ends(BOOT, 364544, BootParts()) && InReach(BOOT, 364544, BootParts())
    ensures OnDisk(BOOT, 364544, BootParts()) == Present(EmptyRecord())
  {
    hide BootByte;
    hide FullName;
    hide FindOnDisk;
    hide CountLive;
    hide FirstTerminator;
    hide BinRecord;
    hide EmptyRecord;
    hide IsDirectory;
    hide FirstCluster;
    hide NamedAs;
    hide SameName;
    hide Fits;
    hide DirOk;
    var parts := BootParts();
    assert parts[1..] == [parts[1]];
    Names();
    OneRecord(364544);
    OneRecord(366592);
    OneEnd(364544);
    OneEnd(366592);
    Geometry();
    FullNameOf(BinRecord(), [66, 73, 78], []);
    FullNameOf(EmptyRecord(), [69, 77, 80, 84, 89], [66, 73, 78]);
    SameNameIff([66, 73, 78], parts[0]);
    SameNameIff([69, 77, 80, 84, 89] + [46] + [66, 73, 78], parts[1]);
    FoundFirst(364544, parts[0]);
    FoundFirst(366592, parts[1]);
    BinFits();
    FileNodeOf(BOOT, EmptyRecord());
    assert Ends(BOOT, 366592, parts[1..]) && InReach(BOOT, 366592, parts[1..]);
    assert OnDisk(BOOT, 366592, parts[1..]) == Present(EmptyRecord());
  }

  lemma BinFits()
    ensures Fits(BOOT, BinRecord()) && DirOk(BOOT, BinRecord())
  {
    hide BootByte;
    hide CountLive;
    hide FirstTerminator;
    Names();
    Geometry();
    OneCluster(2);
    OneRecord(366592);
    OneEnd(366592);
    CountedIs(BOOT.disk, 366592, 1);
  }

  /** Its eleven bytes are those written at the start of cluster 3. */
  lemma ProgramBytes()
    ensures ReadSpec(BOOT, 3, 0, 11, false) == Data([100, 101, 102, 103, 104, 105, 106, 107, 108, 109, 110])
    ensures HasChain(BOOT, 3, 1) && ChainBytes(BOOT, 3, 1)[..11] == [100, 101, 102, 103, 104, 105, 106, 107, 108, 109, 110]
  {
    hide Walk;
    hide ReadSpec;
    hide ChainBytes;
    OneCluster(3);
    Geometry();
    TimesIsProduct(1, 65536);
    StraightFromStart(11, 65536);
    WrittenStraight(BOOT, 3, 1, 0, 11);
    FirstClusters(BOOT, 3, 1);
    SlicePrefix(BOOT.disk, 432128, 11, 65536);
    var s := Slice(BOOT.disk, 432128, 11);
    forall i | 0 <= i < 11 ensures s[i] == 100 + i {
      assert s[i] == BootByte(432128 + i);
    }
    assert s == [100, 101, 102, 103, 104, 105, 106, 107, 108, 109, 110];
  }

  /** The string the kernel starts with names those parts. */
  lemma ProgramPath()
    ensures Print(0, BootParts()) == [48, 58, 47, 98, 105, 110, 47, 101, 109, 112, 116, 121, 46, 98, 105, 110]
    ensures IsPathValid(Print(0, BootParts())) && Parts(Print(0, BootParts())[3..]) == BootParts()
  {
    hide Parts;
    hide IsPathValid;
    var parts := BootParts();
    assert parts[1..] == [parts[1]];
    assert Join(parts[1..]) == parts[1];
    assert Join(parts) == parts[0] + [SLASH] + parts[1];
    BothParts();
    PrintThenParse(0, parts);
  }

  lemma BothParts()
    ensures forall p :: p in BootParts() ==> IsPart(p)
  {
    var a, b := BootParts()[0], BootParts()[1];
    assert a == [98, 105, 110] && b == [101, 109, 112, 116, 121, 46, 98, 105, 110];
    forall p | p in BootParts() ensures IsPart(p) {
      assert p == a || p == b;
    }
  }
}
