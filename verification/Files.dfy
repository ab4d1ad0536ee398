/** Opening a file by its path and reading it: the parser, the lookup and the reader together. */
module Files {
  import opened Words
  import opened HeapSpec
  import opened Heaps
  import opened Spaces
  import opened Ledger
  import opened Paths
  import opened PathParser
  import opened Division
  import opened Volumes
  import opened ClusterReads
  import opened FileReads
  import opened Fat16
  import opened Directories
  import opened DiskPaths
  import opened Resolver

  /** The root directory's records, in a live chunk. */
  ghost predicate RootIn(h: Heap, m: seq<byte>, c: Chunks, items: word, blocks: nat, bytes: seq<byte>) {
    Live(h, c, items, blocks) && |bytes| <= 4096 * blocks && items as int + |bytes| <= |m| && m[items..items as int + |bytes|] == bytes
  }

  /** Strings fopen goes on with: a path on drive 0 with at least one part. */
  predicate NamesFile(path: seq<byte>) {
    |path| <= 256 && IsPathValid(path) && path[0] == 48 && Parts(path[3..]) != []
  }

  /** fopen up to the descriptor table: the path parsed, looked up, and for a file a descriptor at its start. A directory
      gets no descriptor here; in the source it gets one that cannot be read. The parsed path is never freed. */
  method Open(h: Heap, drv: Driver, path: seq<byte>, rootItems: word, rootTotal: nat, ghost blocks: nat, ghost rootBytes: seq<byte>)
    returns (status: Status, desc: FileDescriptor?)
    requires drv.Valid() && h.Valid() && 0 !in path
    requires RootIn(h, h.mem[..], h.chunks, rootItems, blocks, rootBytes) && 32 * rootTotal <= |rootBytes|
    requires |path| >= 3 ==> |FreeSet(h.Flags())| >= 2 * |Parts(path[3..])| + 2
    requires NamesFile(path) ==> PathOk(drv.vol, rootBytes, rootTotal, Parts(path[3..]))
    modifies h, h.mem, drv.clusterStream, drv.fatStream, drv.directoryStream
    ensures h.Valid() && Grows(h, old(h.mem[..]), old(h.chunks), h.mem[..], h.chunks)
    ensures !NamesFile(path) ==> status.NotThere?
    ensures NamesFile(path) ==> status.Starved? || status == Verdict(true, Resolve(drv.vol, rootBytes, rootTotal, Parts(path[3..])))
    ensures NamesFile(path) && LastFree(old(h.Flags()), BlocksToOpen(drv.vol, rootBytes, rootTotal, Parts(path[3..]))) ==> !status.Starved?
    ensures desc != null ==> status.Ok? && fresh(desc) && desc.pos == 0
    ensures status.Ok? ==> NamesFile(path) && Resolve(drv.vol, rootBytes, rootTotal, Parts(path[3..])).Found?
    ensures status.Ok? ==> var node := Resolve(drv.vol, rootBytes, rootTotal, Parts(path[3..])).node;
      if node.FileNode? then desc != null && desc.item == ItemOf(node.record) else desc == null
  {
    hide Parsed;
    hide Grows;
    hide Gains;
    hide Parts;
    hide PathOk;
    hide PathNeed;
    hide Resolve;
    hide FreeSet;
    hide LastFree;
    hide TailDrops;
    hide ListIn;
    hide ItemIn;
    hide OwnOf;
    hide Live;
    hide WordAt;
    hide HeapSpec.Encodes;
    hide Heap.FlagsIn;
    status, desc := NotThere, null;
    ghost var m0, c0, f0, parts := h.mem[..], h.chunks, h.Flags(), if |path| >= 3 then Parts(path[3..]) else [];
    GrowNothing(h, m0, c0);
    var root;
    ghost var pl;
    root, pl := Parse(h, path);
    if root == 0 {
      return;
    }
    ghost var m1, c1, f1 := h.mem[..], h.chunks, h.Flags();
    ParsedList(h, m0, c0, m1, c1, pl, path, parts);
    var drive := Load32(h.mem, root);
    var first := Load32(h.mem, root as int + 4);
    if first == 0 || drive != 0 {
      return;
    }
    GrowRoot(h, m0, c0, m1, c1, rootItems, blocks, rootBytes);
    ghost var need := PathNeed(drv.vol, rootBytes, rootTotal, parts);
    if LastFree(f0, 1 + 2 * |parts| + need) {
      assert LastFree(f1, 1 + 2 * |parts| + need - (1 + 2 * |parts|)) by { Dropped(f0, f1, 1 + 2 * |parts|, need); }
    }
    var ptr;
    ghost var it;
    status, ptr, it := GetDirectoryEntry(h, drv, rootItems, rootTotal, first, pl, parts, rootBytes);
    GrowTrans(h, m0, c0, m1, c1, h.mem[..], h.chunks);
    if status.Ok? {
      desc := Describe(h, ptr, it, m1, c1);
    }
  }

  /** The blocks opening asks for: the parsed path's and those of the items on the way. */
  ghost function BlocksToOpen(vol: Volume, bytes: seq<byte>, total: nat, parts: seq<seq<byte>>): nat
    requires vol.spc > 0 && 32 * total <= |bytes| && parts != [] && PathOk(vol, bytes, total, parts)
  {
    1 + 2 * |parts| + PathNeed(vol, bytes, total, parts)
  }

  lemma Dropped(f: seq<byte>, g: seq<byte>, n: nat, k: nat)
    requires TailDrops(f, g, n) && LastFree(f, n + k)
    ensures LastFree(g, k)
  {
    hide LastFree;
  }

  /** What the parser leaves behind, as fopen and the lookup use it. */
  lemma ParsedList(h: Heap, m0: seq<byte>, c0: Chunks, m: seq<byte>, c: Chunks, pl: PathList, path: seq<byte>, parts: seq<seq<byte>>)
    requires |path| >= 3 && 0 !in path && parts == Parts(path[3..]) && 48 <= path[0] <= 57
    requires Parsed(h, m0, c0, m, c, pl, path[0] - 48, parts)
    ensures h.ValidIn(m, c) && Grows(h, m0, c0, m, c) && ListIn(h, m, c, pl, parts) && pl.root as int + 4096 <= |m|
    ensures WordAt(m, pl.root) == path[0] - 48 && WordAt(m, pl.root as int + 4) == FirstNode(pl)
    ensures |pl.nodes| == |parts| && (FirstNode(pl) == 0 <==> parts == [])
  {
    hide Grows;
    hide Gains;
    hide PathLive;
    hide Linked;
    hide Own;
    hide WordAt;
    BuiltFacts(h, m0, c0, m, c, pl, parts);
    RootLive(h, c, pl);
    LivePage(h, m, c, pl.root);
    FirstLive(h, m, c, pl);
    assert forall x :: x in path[3..] ==> x in path;
    PartsWellFormed(path[3..]);
  }

  lemma GrowRoot(h: Heap, m0: seq<byte>, c0: Chunks, m: seq<byte>, c: Chunks, items: word, blocks: nat, bytes: seq<byte>)
    requires Grows(h, m0, c0, m, c) && RootIn(h, m0, c0, items, blocks, bytes)
    ensures RootIn(h, m, c, items, blocks, bytes)
  {
    hide Grows;
    GrowBytes(h, m0, c0, m, c, items, blocks, |bytes|);
  }

  /** The descriptor of a file item; none for a directory. */
  method Describe(h: Heap, ptr: word, ghost it: Item, ghost m0: seq<byte>, ghost c0: Chunks) returns (desc: FileDescriptor?)
    requires Gains(h, m0, c0, h.mem[..], h.chunks, OwnOf(h, it)) && it.ptr == ptr && ItemIn(h, h.mem[..], h.chunks, it)
    ensures desc == null <==> it.node.DirNode?
    ensures desc != null ==> fresh(desc) && desc.pos == 0 && desc.item == ItemOf(it.node.record)
  {
    hide WordAt;
    hide Gains;
    hide Live;
    ItemAddresses(h, m0, c0, h.mem[..], h.chunks, OwnOf(h, it), it);
    var kind := Load32(h.mem, ptr as int + 4);
    if kind == 0 {
      return null;
    }
    var inner := Load32(h.mem, ptr);
    var size := Load32(h.mem, inner as int + 28);
    RecordFields(h.mem[..], inner, it.node.record);
    var lo: int, hi: int := h.mem[inner as int + 26], h.mem[inner as int + 27];
    desc := new FileDescriptor(DirItem(h.mem[inner as int + 11], lo + 0x100 * hi, size));
  }

  lemma RecordFields(m: seq<byte>, a: word, r: Record)
    requires |r| == 32 && a as int + 32 <= |m| && m[a..a as int + 32] == r
    ensures m[a as int + 11] == Get(r, 11) && m[a as int + 26] == Get(r, 26) && m[a as int + 27] == Get(r, 27)
    ensures WordAt(m, a as int + 28) == WordAt(r, 28)
  {
    forall i | 0 <= i < 32 ensures Get(m, a as int + i) == Get(r, i) {
      assert m[a..a as int + 32][i] == r[i];
    }
  }

  /** A file that is on disk under a path in reach, of at most two clusters, is opened and read whole, byte for byte, as
      written, when there is memory for the path. */
  method ReadPresent(h: Heap, drv: Driver, path: seq<byte>, rootItems: word, rootTotal: nat, out: array<byte>,
                     ghost blocks: nat, ghost rootBytes: seq<byte>, ghost start: int, ghost n: nat,
                     ghost name: seq<byte>, ghost attribute: byte, ghost between: seq<byte>, ghost cluster: nat, ghost size: word)
    returns (read: nat)
    requires drv.Valid() && h.Valid() && 0 !in path && NamesFile(path) && out != h.mem
    requires RootIn(h, h.mem[..], h.chunks, rootItems, blocks, rootBytes) && 32 * rootTotal <= |rootBytes|
    requires |FreeSet(h.Flags())| >= 2 * |Parts(path[3..])| + 2
    // The root directory in memory is the one at start, and the path leads from there to the record of a file of size
    // bytes at that cluster.
    requires |name| == 11 && |between| == 14 && cluster < 0x1_0000 && attribute / 0x10 % 2 == 0
    requires Ends(drv.vol, start, Parts(path[3..])) && InReach(drv.vol, start, Parts(path[3..]))
    requires rootTotal == CountLive(drv.vol.disk, start, End(drv.vol.disk, start))
    requires rootBytes[..32 * rootTotal] == Streams.Slice(drv.vol.disk, start, 32 * rootTotal)
    requires OnDisk(drv.vol, start, Parts(path[3..])) == Present(RecordOf(name, attribute, between, cluster, size))
    // The file has a chain of n clusters that holds it.
    requires 0 < size <= 2 * drv.vol.Bpc() && size <= out.Length
    requires Sound(drv.vol, cluster) && HasChain(drv.vol, cluster, n) && size <= n * drv.vol.Bpc()
    requires PathOk(drv.vol, rootBytes, rootTotal, Parts(path[3..]))
    requires LastFree(h.Flags(), BlocksToOpen(drv.vol, rootBytes, rootTotal, Parts(path[3..])))
    modifies h, h.mem, drv.clusterStream, drv.fatStream, drv.directoryStream, out
    ensures h.Valid() && Grows(h, old(h.mem[..]), old(h.chunks), h.mem[..], h.chunks)
    ensures |ChainBytes(drv.vol, cluster, n)| == n * drv.vol.Bpc()
    ensures read == 1 && out[..size] == ChainBytes(drv.vol, cluster, n)[..size]
  {
    hide Grows;
    hide Parts;
    hide PathOk;
    hide PathNeed;
    hide BlocksToOpen;
    hide Resolve;
    hide LoadNode;
    hide DirOk;
    hide FreeSet;
    hide LastFree;
    hide RootIn;
    hide Sound;
    hide HasChain;
    hide ChainBytes;
    hide ReadElements;
    hide Wanted;
    hide Times;
    hide NamesFile;
    hide ItemOf;
    hide Ends;
    hide InReach;
    hide OnDisk;
    hide CountLive;
    hide FirstTerminator;
    hide Streams.Slice;
    hide Heap.FlagsIn;
    hide HeapSpec.Encodes;
    hide RecordOf;
    PartsOfName(path);
    ghost var vol, parts, r := drv.vol, Parts(path[3..]), RecordOf(name, attribute, between, cluster, size);
    RecordRoundTrip(name, attribute, between, cluster, size);
    ItemFields(r);
    FoundOnDisk(vol, start, rootBytes, rootTotal, parts);
    FileNodeOf(vol, r);
    var status, desc := Open(h, drv, path, rootItems, rootTotal, blocks, rootBytes);
    OneElement(vol, cluster, n, size);
    read := drv.Read(desc, desc.item.filesize, 1, out, 0, false);
    assert out[0..size] == out[..size];
  }

  lemma PartsOfName(path: seq<byte>)
    requires NamesFile(path)
    ensures |path| >= 3 && Parts(path[3..]) != []
  {
  }

  lemma ItemFields(r: Record)
    ensures ItemOf(r).attribute == Attribute(r) && ItemOf(r).cluster == FirstCluster(r)
    ensures IsDirectory(r) <==> ItemOf(r).attribute / 0x10 % 2 == 1
  {
  }

  /** One element of the file's size, on a file of at most two clusters. */
  lemma OneElement(vol: Volume, c: int, n: nat, size: nat)
    requires HasChain(vol, c, n) && vol.spc > 0 && 0 < size <= 2 * vol.Bpc() && size <= n * vol.Bpc()
    ensures Times(Wanted(size, 0, size, 1), size) == size && |ChainBytes(vol, c, n)| == n * vol.Bpc()
    ensures ReadElements(vol, c, size, 0, size, 1, false) == Elements(1, ChainBytes(vol, c, n)[..size])
  {
    hide HasChain;
    hide ChainBytes;
    hide ReadElements;
    hide Straight;
    StraightFromStart(size, vol.Bpc());
    QuotIsDivision(size, size);
    assert size / size == 1;
    assert Wanted(size, 0, size, 1) == 1;
    TimesLeft(0, size);
    forall e {:trigger Times(e, size)} | 0 <= e < 1 ensures Straight(0 + Times(e, size), size, vol.Bpc()) {
      assert Times(0, size) == 0;
    }
    ReadElementsExact(vol, c, n, size, 0, size, 1, false);
    var r := ReadElements(vol, c, size, 0, size, 1, false);
    assert r.count == 1 && r.bytes == ChainBytes(vol, c, n)[0..size];
  }
}
