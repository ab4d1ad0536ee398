/** FAT16 directory records: counting them, naming them, finding one by name. */
module Directories {
  import opened Words
  import opened Streams
  import opened Volumes
  import opened Division
  import opened ClusterReads
  import opened Fat16

  const UNUSED_ENTRY: byte := 0xE5
  const NOMORE_ENTRY: byte := 0x00

  /** A 32-byte directory record (fat_directory_item). */
  type Record = seq<byte>

  function Attribute(r: Record): byte {
    Get(r, 11)
  }

  predicate IsDirectory(r: Record) {
    Attribute(r) / SUBDIRECTORY % 2 == 1
  }

  /** low_16_bits_first_cluster */
  function FirstCluster(r: Record): nat {
    Get(r, 26) + 0x100 * Get(r, 27)
  }

  /** What the reader takes from a file's record. */
  function ItemOf(r: Record): DirItem {
    DirItem(Attribute(r), FirstCluster(r), WordAt(r, 28))
  }

  // ---- the layout of a record (Microsoft FAT Specification, section 6) ----

  /** A record written field by field: eleven name bytes, the attribute, fourteen bytes of times and the like, and
      little-endian the low half of the first cluster and the size. */
  function RecordOf(name: seq<byte>, attribute: byte, between: seq<byte>, cluster: nat, size: word): (r: Record)
    requires |name| == 11 && |between| == 14 && cluster < 0x1_0000
    ensures |r| == 32
  {
    name + [attribute] + between + [cluster % 0x100, cluster / 0x100] +
    [size % 0x100, size / 0x100 % 0x100, size / 0x1_0000 % 0x100, size / 0x100_0000]
  }

  /** The reader gets back the attribute, the cluster and the size that were written. */
  lemma RecordRoundTrip(name: seq<byte>, attribute: byte, between: seq<byte>, cluster: nat, size: word)
    requires |name| == 11 && |between| == 14 && cluster < 0x1_0000
    ensures ItemOf(RecordOf(name, attribute, between, cluster, size)) == DirItem(attribute, cluster, size)
  {
    var r := RecordOf(name, attribute, between, cluster, size);
    assert r[11] == attribute && r[26] == cluster % 0x100 && r[27] == cluster / 0x100;
    assert r[28] == size % 0x100 && r[29] == size / 0x100 % 0x100 && r[30] == size / 0x1_0000 % 0x100 && r[31] == size / 0x100_0000;
    FourBytes(size);
  }

  /** A record is a directory's if and only if bit 4 of its attribute is set, whatever the other bits are. */
  lemma DirectoryBit(r: Record, high: nat, bit: nat, low: nat)
    requires |r| == 32 && high < 8 && bit < 2 && low < 16 && r[11] == 32 * high + 16 * bit + low
    ensures IsDirectory(r) <==> bit == 1
    ensures BitAnd(r[11], 0x10) != 0 <==> bit == 1
  {
    hide BitAnd;
    hide Shl;
    ShlBytes(1);
    LastBit(2 * high + bit);
    ShlBytes(2 * high + bit);
    ShlBytes(bit);
    AndHigh(2 * high + bit, low, 1, 4);
  }

  // ---- counting ----

  /** The records before position t whose first byte does not mark them deleted. */
  function CountLive(disk: Disk, start: int, t: nat): nat {
    if t == 0 then 0 else CountLive(disk, start, t - 1) + (if disk(start + 32 * (t - 1)) != UNUSED_ENTRY then 1 else 0)
  }

  /** Record t is the first whose first byte ends the directory. */
  ghost predicate FirstTerminator(disk: Disk, start: int, t: nat) {
    disk(start + 32 * t) == NOMORE_ENTRY && forall i: nat {:trigger FirstByte(disk, start, i)} :: i < t ==> FirstByte(disk, start, i) != NOMORE_ENTRY
  }

  function FirstByte(disk: Disk, start: int, i: nat): byte {
    disk(start + 32 * i)
  }

  /** The count is the number of records up to the terminator exactly if none of them is deleted. */
  lemma {:induction false} CountIsLength(disk: Disk, start: int, t: nat)
    ensures CountLive(disk, start, t) <= t
    ensures CountLive(disk, start, t) == t <==> forall i: nat {:trigger FirstByte(disk, start, i)} :: i < t ==> FirstByte(disk, start, i) != UNUSED_ENTRY
  {
    if t > 0 {
      CountIsLength(disk, start, t - 1);
      assert FirstByte(disk, start, t - 1) == disk(start + 32 * (t - 1));
    }
  }

  /** The positions before t of records not marked deleted. */
  ghost function LivePositions(disk: Disk, start: int, t: nat): set<nat> {
    set i: nat | i < t && LiveAt(disk, start, i)
  }

  /** The count is how many of them there are. */
  lemma {:induction false} CountIsSize(disk: Disk, start: int, t: nat)
    ensures CountLive(disk, start, t) == |LivePositions(disk, start, t)|
  {
    hide LivePositions;
    OneMorePosition(disk, start, t);
    if t > 0 {
      CountIsSize(disk, start, t - 1);
      assert LiveAt(disk, start, t - 1) <==> disk(start + 32 * (t - 1)) != UNUSED_ENTRY;
    }
  }

  lemma OneMorePosition(disk: Disk, start: int, t: nat)
    ensures t == 0 ==> LivePositions(disk, start, t) == {}
    ensures t > 0 ==> t - 1 !in LivePositions(disk, start, t - 1)
    ensures t > 0 ==>
      LivePositions(disk, start, t) == LivePositions(disk, start, t - 1) + if LiveAt(disk, start, t - 1) then {t - 1} else {}
  {
    hide LiveAt;
  }

  /** fat16_get_total_items_for_directory; it returns because the directory has a terminator. */
  method CountItems(drv: Driver, startSector: nat, ghost t: nat) returns (res: int)
    requires drv.Valid() && FirstTerminator(drv.vol.disk, startSector * 512, t)
    modifies drv.directoryStream
    ensures res == CountLive(drv.vol.disk, startSector * 512, t)
  {
    var start := startSector * 512;
    drv.directoryStream.Seek(start);
    res := 0;
    ghost var i := 0;
    var first := 1;
    while first != NOMORE_ENTRY
      invariant 0 <= i <= t + 1 && drv.directoryStream.pos == start + 32 * i
      invariant first == 0 <==> i == t + 1
      invariant res == if i == t + 1 then CountLive(drv.vol.disk, start, t) + 1 else CountLive(drv.vol.disk, start, i)
      decreases t + 1 - i
    {
      var buf := new byte[32];
      ghost var before := buf[..];
      drv.directoryStream.Read(buf, 0, 32);
      PlacedAt(before, buf[..], 0, Slice(drv.vol.disk, start + 32 * i, 32), 0);
      first := buf[0];
      assert first == FirstByte(drv.vol.disk, start, i);
      i := i + 1;
      if first == UNUSED_ENTRY {
        continue;
      }
      res := res + 1;
    }
    res := res - 1;
  }

  // ---- names ----

  predicate IsSpace(c: byte) {
    c == 32 || 9 <= c <= 13
  }

  /** The characters of a field up to padding. */
  function Trimmed(field: seq<byte>): (t: seq<byte>)
    ensures |t| <= |field|
  {
    if field == [] || field[0] == 0 || IsSpace(field[0]) then [] else [field[0]] + Trimmed(field[1..])
  }

  /** fat16_get_full_filename: directories have no extension, files always get the dot. */
  function FullName(r: Record): seq<byte>
    requires |r| == 32
  {
    if IsDirectory(r) then Trimmed(r[..8]) else Trimmed(r[..8]) + ['.' as int] + Trimmed(r[8..11])
  }

  function ToLower(c: byte): byte {
    if 65 <= c <= 90 then c + 32 else c
  }

  function Lowered(s: seq<byte>): seq<byte> {
    seq(|s|, i requires 0 <= i < |s| => ToLower(s[i]))
  }

  /** istrncmp of two strings shorter than the limit says 0. */
  predicate SameName(a: seq<byte>, b: seq<byte>) {
    Lowered(a) == Lowered(b)
  }

  /** The characters a name field holds: no NUL, no blank, no control character from tab to carriage return. */
  ghost predicate IsField(s: seq<byte>) {
    forall i :: 0 <= i < |s| ==> s[i] != 0 && s[i] != 32 && !(9 <= s[i] <= 13)
  }

  /** The field holds s: it begins with s, and if it is longer, NUL, a blank or a control character follows. */
  ghost predicate Holds(field: seq<byte>, s: seq<byte>) {
    && IsField(s) && |s| <= |field| && field[..|s|] == s
    && (|s| < |field| ==> field[|s|] == 0 || field[|s|] == 32 || 9 <= field[|s|] <= 13)
  }

  /** The record's name fields, of eight and three characters, hold base and ext. */
  ghost predicate NamedAs(r: Record, base: seq<byte>, ext: seq<byte>) {
    |r| == 32 && Holds(r[..8], base) && Holds(r[8..11], ext)
  }

  /** The name those fields stand for: a file's with a dot between them, a directory's without extension. */
  function NameOf(directory: bool, base: seq<byte>, ext: seq<byte>): seq<byte> {
    if directory then base else base + [46] + ext
  }

  lemma {:induction false} TrimmedField(field: seq<byte>, s: seq<byte>)
    requires Holds(field, s)
    ensures Trimmed(field) == s
  {
    if s != [] {
      assert field[0] == s[0];
      assert field[1..][..|s| - 1] == field[..|s|][1..] == s[1..];
      TrimmedField(field[1..], s[1..]);
    }
  }

  /** The full name of a record is what its fields stand for. */
  lemma FullNameOf(r: Record, base: seq<byte>, ext: seq<byte>)
    requires NamedAs(r, base, ext)
    ensures FullName(r) == NameOf(IsDirectory(r), base, ext)
  {
    hide Trimmed;
    TrimmedField(r[..8], base);
    TrimmedField(r[8..11], ext);
  }

  /** The same character, or a letter and its other case. */
  predicate SameLetter(x: byte, y: byte) {
    x == y || (65 <= x <= 90 && y == x + 32) || (97 <= x <= 122 && y == x - 32)
  }

  predicate SameLetters(a: seq<byte>, b: seq<byte>) {
    |a| == |b| && forall i :: 0 <= i < |a| ==> SameLetter(a[i], b[i])
  }

  /** Two names match if and only if they do character by character. */
  lemma SameNameIff(a: seq<byte>, b: seq<byte>)
    ensures SameName(a, b) <==> SameLetters(a, b)
  {
    if SameName(a, b) {
      assert |Lowered(a)| == |a| && |Lowered(b)| == |b|;
      forall i | 0 <= i < |a| ensures SameLetter(a[i], b[i]) {
        assert Lowered(a)[i] == Lowered(b)[i];
      }
    }
    if SameLetters(a, b) {
      forall i | 0 <= i < |a| ensures ToLower(a[i]) == ToLower(b[i]) {
        assert SameLetter(a[i], b[i]);
      }
    }
  }

  // ---- lookup ----

  /** Record i of a directory held as consecutive records. */
  function RecordAt(bytes: seq<byte>, i: nat): Record
    requires 32 * (i + 1) <= |bytes|
  {
    bytes[32 * i..32 * (i + 1)]
  }

  /** Position of the first record with that name among the first total, or total. */
  function FindFrom(bytes: seq<byte>, total: nat, name: seq<byte>, i: nat): (r: nat)
    requires 32 * total <= |bytes| && i <= total
    ensures i <= r <= total
    ensures r < total ==> SameName(FullName(RecordAt(bytes, r)), name)
    ensures forall j {:trigger RecordAt(bytes, j)} :: i <= j < r ==> !SameName(FullName(RecordAt(bytes, j)), name)
    decreases total - i
  {
    if i == total || SameName(FullName(RecordAt(bytes, i)), name) then i else FindFrom(bytes, total, name, i + 1)
  }

  /** Lookup by fields: the first record whose base and extension, with the dot for a file, spell the name. */
  lemma FindByFields(bytes: seq<byte>, total: nat, name: seq<byte>, bases: seq<seq<byte>>, exts: seq<seq<byte>>)
    requires 32 * total <= |bytes| && |bases| == |exts| == total
    requires forall i :: 0 <= i < total ==> NamedAs(RecordAt(bytes, i), bases[i], exts[i])
    ensures var k := FindFrom(bytes, total, name, 0);
      && (k < total ==> SameLetters(NameOf(IsDirectory(RecordAt(bytes, k)), bases[k], exts[k]), name))
      && (forall i {:trigger bases[i]} :: 0 <= i < k ==> !SameLetters(NameOf(IsDirectory(RecordAt(bytes, i)), bases[i], exts[i]), name))
  {
    hide FullName;
    hide SameName;
    hide SameLetters;
    hide NameOf;
    hide IsDirectory;
    hide NamedAs;
    forall i | 0 <= i < total
      ensures SameName(FullName(RecordAt(bytes, i)), name) <==> SameLetters(NameOf(IsDirectory(RecordAt(bytes, i)), bases[i], exts[i]), name)
    {
      FullNameOf(RecordAt(bytes, i), bases[i], exts[i]);
      SameNameIff(FullName(RecordAt(bytes, i)), name);
    }
  }

  // ---- lookup against the records on disk ----

  /** Record i on disk is not marked deleted. */
  predicate LiveAt(disk: Disk, start: int, i: nat) {
    FirstByte(disk, start, i) != UNUSED_ENTRY
  }

  /** No deleted record comes before one that is not. */
  ghost predicate DeletedLast(disk: Disk, start: int, t: nat) {
    forall i: nat, j: nat {:trigger LiveAt(disk, start, i), LiveAt(disk, start, j)} ::
      i < j < t && LiveAt(disk, start, j) ==> LiveAt(disk, start, i)
  }

  /** Position on disk of the first of t records with that name, deleted or not, or t. */
  function FindOnDisk(disk: Disk, start: int, t: nat, name: seq<byte>): (j: nat)
    ensures j <= t
  {
    FindFrom(Slice(disk, start, 32 * t), t, name, 0)
  }

  /** In records that begin like others, the same one is found, or it lies behind their end. */
  lemma {:induction false} FindInPrefix(bytes: seq<byte>, n: nat, all: seq<byte>, t: nat, name: seq<byte>, i: nat)
    requires i <= n <= t && 32 * n <= |bytes| && 32 * t <= |all| && bytes[..32 * n] == all[..32 * n]
    ensures var j := FindFrom(all, t, name, i); FindFrom(bytes, n, name, i) == if j < n then j else n
    decreases n - i
  {
    hide FullName;
    hide SameName;
    if i < n {
      assert RecordAt(bytes, i) == bytes[..32 * n][32 * i..32 * (i + 1)] == all[..32 * n][32 * i..32 * (i + 1)] == RecordAt(all, i);
      FindInPrefix(bytes, n, all, t, name, i + 1);
    }
  }

  lemma SliceIsPrefix(disk: Disk, start: int, n: nat, t: nat)
    requires n <= t
    ensures Slice(disk, start, 32 * n) == Slice(disk, start, 32 * t)[..32 * n]
  {
  }

  /** Lookup in as many records as are counted: the first record on disk with that name is found if and only if its
      position is below the number of records not deleted. */
  lemma LookupOnDisk(disk: Disk, start: int, t: nat, bytes: seq<byte>, name: seq<byte>)
    requires FirstTerminator(disk, start, t) && 32 * CountLive(disk, start, t) <= |bytes|
    requires bytes[..32 * CountLive(disk, start, t)] == Slice(disk, start, 32 * CountLive(disk, start, t))
    ensures var n, j := CountLive(disk, start, t), FindOnDisk(disk, start, t, name);
      n <= t && FindFrom(bytes, n, name, 0) == if j < n then j else n
  {
    var n, all := CountLive(disk, start, t), Slice(disk, start, 32 * t);
    CountIsLength(disk, start, t);
    SliceIsPrefix(disk, start, n, t);
    FindInPrefix(bytes, n, all, t, name, 0);
  }

  lemma {:induction false} NoneAfter(disk: Disk, start: int, n: nat, t: nat)
    requires n <= t && forall i: nat {:trigger LiveAt(disk, start, i)} :: n <= i < t ==> !LiveAt(disk, start, i)
    ensures CountLive(disk, start, t) == CountLive(disk, start, n)
    decreases t
  {
    if n < t {
      assert !LiveAt(disk, start, t - 1);
      NoneAfter(disk, start, n, t - 1);
    }
  }

  lemma {:induction false} LiveFirst(disk: Disk, start: int, t: nat)
    requires DeletedLast(disk, start, t)
    ensures forall i: nat {:trigger LiveAt(disk, start, i)} :: i < t ==> (LiveAt(disk, start, i) <==> i < CountLive(disk, start, t))
  {
    if t > 0 {
      LiveFirst(disk, start, t - 1);
      CountIsLength(disk, start, t - 1);
      if LiveAt(disk, start, t - 1) {
        forall i: nat | i < t - 1 ensures FirstByte(disk, start, i) != UNUSED_ENTRY {
          assert LiveAt(disk, start, i);
        }
      }
    }
  }

  /** The records not deleted all lie within as many records as are counted. */
  ghost predicate LiveCounted(disk: Disk, start: int, t: nat) {
    forall j: nat {:trigger LiveAt(disk, start, j)} :: j < t && LiveAt(disk, start, j) ==> j < CountLive(disk, start, t)
  }

  /** They do if and only if no deleted record precedes one of them. */
  lemma LiveCountedIff(disk: Disk, start: int, t: nat)
    ensures LiveCounted(disk, start, t) <==> DeletedLast(disk, start, t)
  {
    if DeletedLast(disk, start, t) {
      LiveFirst(disk, start, t);
    } else if LiveCounted(disk, start, t) {
      CountedLast(disk, start, t);
    }
  }

  lemma CountedLast(disk: Disk, start: int, t: nat)
    requires LiveCounted(disk, start, t)
    ensures DeletedLast(disk, start, t)
  {
    var n := CountLive(disk, start, t);
    CountIsLength(disk, start, t);
    NoneAfter(disk, start, n, t);
    CountIsLength(disk, start, n);
    forall i: nat, j: nat | i < j < t && LiveAt(disk, start, j) ensures LiveAt(disk, start, i) {
      assert FirstByte(disk, start, i) != UNUSED_ENTRY;
    }
  }

  /** The full name of record i on disk. */
  function NameAt(disk: Disk, start: int, i: nat): seq<byte> {
    FullName(Slice(disk, start + 32 * i, 32))
  }

  /** No two records on disk that are not deleted have the same name. */
  ghost predicate NamesDiffer(disk: Disk, start: int, t: nat) {
    forall i: nat, j: nat {:trigger LiveAt(disk, start, i), LiveAt(disk, start, j)} ::
      i < j < t && LiveAt(disk, start, i) && LiveAt(disk, start, j) ==> !SameName(NameAt(disk, start, i), NameAt(disk, start, j))
  }

  /** Every record that is not deleted is found by its own name if and only if no deleted record precedes one that is not;
      in particular if none is deleted at all. */
  lemma LookupComplete(disk: Disk, start: int, t: nat, bytes: seq<byte>)
    requires FirstTerminator(disk, start, t) && NamesDiffer(disk, start, t) && 32 * CountLive(disk, start, t) <= |bytes|
    requires bytes[..32 * CountLive(disk, start, t)] == Slice(disk, start, 32 * CountLive(disk, start, t))
    ensures (forall j: nat {:trigger LiveAt(disk, start, j)} :: j < t && LiveAt(disk, start, j) ==>
        j < CountLive(disk, start, t) && FindFrom(bytes, CountLive(disk, start, t), NameAt(disk, start, j), 0) == j)
      <==> DeletedLast(disk, start, t)
  {
    hide NameAt;
    hide SameName;
    hide FindFrom;
    var n := CountLive(disk, start, t);
    LiveCountedIff(disk, start, t);
    if DeletedLast(disk, start, t) {
      LiveFirst(disk, start, t);
      forall j: nat | j < t && LiveAt(disk, start, j) ensures FindFrom(bytes, n, NameAt(disk, start, j), 0) == j {
        LookupOnDisk(disk, start, t, bytes, NameAt(disk, start, j));
        FoundByName(disk, start, t, j);
        var i := FindOnDisk(disk, start, t, NameAt(disk, start, j));
        assert LiveAt(disk, start, i);
      }
    }
  }

  /** A record's own name leads to it or to an earlier record of the same name. */
  lemma FoundByName(disk: Disk, start: int, t: nat, j: nat)
    requires j < t
    ensures var i := FindOnDisk(disk, start, t, NameAt(disk, start, j));
      i <= j && SameName(NameAt(disk, start, i), NameAt(disk, start, j))
  {
    hide FullName;
    var all := Slice(disk, start, 32 * t);
    var i := FindOnDisk(disk, start, t, NameAt(disk, start, j));
    RecordOnDisk(disk, start, t, j);
    assert SameName(FullName(RecordAt(all, j)), NameAt(disk, start, j));
    RecordOnDisk(disk, start, t, i);
  }

  lemma RecordOnDisk(disk: Disk, start: int, t: nat, i: nat)
    requires i < t
    ensures RecordAt(Slice(disk, start, 32 * t), i) == Slice(disk, start + 32 * i, 32)
  {
    var r := RecordAt(Slice(disk, start, 32 * t), i);
    forall k | 0 <= k < 32 ensures r[k] == Slice(disk, start + 32 * i, 32)[k] {
      assert r[k] == Slice(disk, start, 32 * t)[32 * i + k];
    }
  }

  // ---- what a path resolves to ----

  /** A resolved item: a file's record, or a directory's records. */
  datatype Node = FileNode(record: Record) | DirNode(bytes: seq<byte>)

  datatype Answer = Found(node: Node) | NotFound | BadDirectory

  ghost predicate Terminated(disk: Disk, start: int) {
    exists t: nat :: FirstTerminator(disk, start, t)
  }

  /** What the driver counts in a terminated directory. */
  ghost function Counted(disk: Disk, start: int): nat
    requires Terminated(disk, start)
  {
    var t: nat :| FirstTerminator(disk, start, t);
    CountLive(disk, start, t)
  }

  /** The driver can count and walk the directory a record names, and its size fits an int. */
  ghost predicate DirOk(vol: Volume, r: Record) {
    IsDirectory(r) ==>
      (Sound(vol, FirstCluster(r)) && Terminated(vol.disk, vol.Address(FirstCluster(r))) &&
       32 * Counted(vol.disk, vol.Address(FirstCluster(r))) <= 0x7FFF_FFFF)
  }

  lemma TerminatorUnique(disk: Disk, start: int, t: nat, u: nat)
    requires FirstTerminator(disk, start, t) && FirstTerminator(disk, start, u)
    ensures t == u
  {
    assert FirstByte(disk, start, t) == NOMORE_ENTRY && FirstByte(disk, start, u) == NOMORE_ENTRY;
  }

  lemma CountedIs(disk: Disk, start: int, t: nat)
    requires FirstTerminator(disk, start, t)
    ensures Terminated(disk, start) && Counted(disk, start) == CountLive(disk, start, t)
  {
    assert Terminated(disk, start);
    var u: nat :| FirstTerminator(disk, start, u) && Counted(disk, start) == CountLive(disk, start, u);
    TerminatorUnique(disk, start, t, u);
  }

  /** What a record stands for: a file's record itself, or as many records as counted, read along the chain. That a
      directory counted as empty cannot be loaded is the repaired allocator's answer to a request for no bytes; the one as
      written hands out a block it does not mark unless the last block is taken, and the directory then loads with none. */
  ghost function LoadNode(vol: Volume, r: Record): (a: Answer)
    requires vol.spc > 0 && DirOk(vol, r)
    ensures !a.NotFound?
  {
    if !IsDirectory(r) then Found(FileNode(r))
    else
      var n := Counted(vol.disk, vol.Address(FirstCluster(r)));
      if n == 0 then BadDirectory
      else match ReadSpec(vol, FirstCluster(r), 0, 32 * n, false)
        case Failed => BadDirectory
        case Data(bytes) => Found(DirNode(bytes))
  }

  /** Every directory met on the way can be counted and walked. */
  ghost predicate PathOk(vol: Volume, bytes: seq<byte>, total: nat, parts: seq<seq<byte>>)
    requires vol.spc > 0 && 32 * total <= |bytes|
    decreases |parts|, 0
  {
    parts == [] ||
    (var i := FindFrom(bytes, total, parts[0], 0);
     i < total ==>
       (var r := RecordAt(bytes, i);
        DirOk(vol, r) &&
        (LoadNode(vol, r).Found? ==> ContinueOk(vol, LoadNode(vol, r).node, parts[1..]))))
  }

  ghost predicate ContinueOk(vol: Volume, node: Node, parts: seq<seq<byte>>)
    requires vol.spc > 0
    decreases |parts|, 1
  {
    node.DirNode? ==> PathOk(vol, node.bytes, |node.bytes| / 32, parts)
  }

  /** Resolving a path is folding single-directory lookup over its parts. */
  ghost function Resolve(vol: Volume, bytes: seq<byte>, total: nat, parts: seq<seq<byte>>): Answer
    requires vol.spc > 0 && 32 * total <= |bytes| && parts != [] && PathOk(vol, bytes, total, parts)
    decreases |parts|, 0
  {
    var i := FindFrom(bytes, total, parts[0], 0);
    if i == total then NotFound
    else
      var a := LoadNode(vol, RecordAt(bytes, i));
      if a.Found? then Continue(vol, a.node, parts[1..]) else BadDirectory
  }

  ghost function Continue(vol: Volume, node: Node, parts: seq<seq<byte>>): Answer
    requires vol.spc > 0 && ContinueOk(vol, node, parts)
    decreases |parts|, 1
  {
    if parts == [] then Found(node)
    else match node
      case FileNode(_) => NotFound
      case DirNode(bytes) => Resolve(vol, bytes, |bytes| / 32, parts)
  }

  /** A directory in one cluster, or in two adjacent ones, is loaded as the first records on disk, as many as are counted. */
  lemma LoadedDirectory(vol: Volume, r: Record, t: nat)
    requires IsDirectory(r) && Sound(vol, FirstCluster(r)) && FirstTerminator(vol.disk, vol.Address(FirstCluster(r)), t)
    requires 0 < 32 * CountLive(vol.disk, vol.Address(FirstCluster(r)), t) <= 0x7FFF_FFFF
    requires var c, size := FirstCluster(r), 32 * CountLive(vol.disk, vol.Address(FirstCluster(r)), t);
      size <= vol.Bpc() || (size <= 2 * vol.Bpc() && Walk(vol, c, 1) == At(c + 1))
    ensures var start, n := vol.Address(FirstCluster(r)), CountLive(vol.disk, vol.Address(FirstCluster(r)), t);
      DirOk(vol, r) && LoadNode(vol, r) == Found(DirNode(Slice(vol.disk, start, 32 * n)))
  {
    hide Walk;
    hide ReadSpec;
    hide ChainBytes;
    hide Slice;
    var c, start, b := FirstCluster(r), vol.Address(FirstCluster(r)), vol.Bpc();
    var size := 32 * CountLive(vol.disk, start, t);
    CountedIs(vol.disk, start, t);
    WalkZero(vol, c);
    var m := if size <= b then 1 else 2;
    TimesIsProduct(m, b);
    StraightFromStart(size, b);
    WrittenStraight(vol, c, m, 0, size);
    FirstClusters(vol, c, m);
    SlicePrefix(vol.disk, start, size, m * b);
  }

  /** The first cluster, or the first two when they are adjacent, laid out as on disk. */
  lemma FirstClusters(vol: Volume, c: int, m: nat)
    requires vol.spc > 0 && (m == 1 || (m == 2 && Walk(vol, c, 1) == At(c + 1)))
    ensures HasChain(vol, c, m) && ChainBytes(vol, c, m) == Slice(vol.disk, vol.Address(c), m * vol.Bpc())
  {
    hide Slice;
    WalkZero(vol, c);
    var b := vol.Bpc();
    assert ChainBytes(vol, c, 1) == [] + Slice(vol.disk, vol.Address(c), b) == Slice(vol.disk, vol.Address(c), b);
    if m == 2 {
      NextAddress(vol, c);
      assert ChainBytes(vol, c, 2) == ChainBytes(vol, c, 1) + Slice(vol.disk, vol.Address(c + 1), b);
      SliceAppend(vol.disk, vol.Address(c), b, b);
    }
  }

  lemma NextAddress(vol: Volume, c: int)
    ensures vol.Address(c + 1) == vol.Address(c) + vol.Bpc()
  {
    assert (c + 1 - 2) * vol.spc == (c - 2) * vol.spc + vol.spc;
  }

  lemma SlicePrefix(disk: Disk, pos: int, n: nat, k: nat)
    requires n <= k
    ensures Slice(disk, pos, k)[..n] == Slice(disk, pos, n)
  {
  }

  /** Exactly when a directory loads: if it is not counted as empty and its chain reaches the position the last piece of
      the read visits. */
  lemma DirectoryLoads(vol: Volume, r: Record, t: nat)
    requires IsDirectory(r) && Sound(vol, FirstCluster(r)) && FirstTerminator(vol.disk, vol.Address(FirstCluster(r)), t)
    requires 32 * CountLive(vol.disk, vol.Address(FirstCluster(r)), t) <= 0x7FFF_FFFF
    ensures DirOk(vol, r)
    ensures var c, size := FirstCluster(r), 32 * CountLive(vol.disk, vol.Address(FirstCluster(r)), t);
      LoadNode(vol, r).Found? <==> size > 0 && Walk(vol, c, Visit(0, 0, Quot(size - 1, vol.Bpc()))).At?
  {
    hide Walk;
    hide Visit;
    hide ReadSpec;
    var c, start := FirstCluster(r), vol.Address(FirstCluster(r));
    var size := 32 * CountLive(vol.disk, start, t);
    WalkZero(vol, c);
    CountedIs(vol.disk, start, t);
    if size > 0 {
      WrittenFromStart(vol, c, size);
    }
  }

  /** On a chain just long enough a directory loads if it fits two clusters, and fails to load otherwise. */
  lemma DirectoryExact(vol: Volume, r: Record, t: nat, m: nat)
    requires IsDirectory(r) && Sound(vol, FirstCluster(r)) && FirstTerminator(vol.disk, vol.Address(FirstCluster(r)), t)
    requires HasChain(vol, FirstCluster(r), m) && Walk(vol, FirstCluster(r), m).Lost?
    requires var size := 32 * CountLive(vol.disk, vol.Address(FirstCluster(r)), t);
      0 < size <= 0x7FFF_FFFF && (m - 1) * vol.Bpc() < size <= m * vol.Bpc()
    ensures var c, size := FirstCluster(r), 32 * CountLive(vol.disk, vol.Address(FirstCluster(r)), t);
      && DirOk(vol, r) && |ChainBytes(vol, c, m)| == m * vol.Bpc()
      && LoadNode(vol, r) == if size <= 2 * vol.Bpc() then Found(DirNode(ChainBytes(vol, c, m)[..size])) else BadDirectory
  {
    hide Walk;
    hide ReadSpec;
    hide ChainBytes;
    var c, start, b := FirstCluster(r), vol.Address(FirstCluster(r)), vol.Bpc();
    var size := 32 * CountLive(vol.disk, start, t);
    CountedIs(vol.disk, start, t);
    WrittenExact(vol, c, m, 0, size);
    StraightFromStart(size, b);
  }
}
