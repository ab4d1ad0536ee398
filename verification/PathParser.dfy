/** The path parser: a linked list of parts built on the kernel heap, and its release (path_parser.c). */
module PathParser {
  import opened Words
  import opened HeapSpec
  import opened Heaps
  import opened Spaces
  import opened Ledger
  import opened Paths

  /** A parsed path in memory: the root, and per part its node and its string buffer. */
  datatype PathList = PathList(root: word, nodes: seq<word>, strs: seq<word>)

  /** The blocks of the root and of the parts from i on. */
  ghost function Blks(h: Heap, pl: PathList, i: nat): set<nat> {
    {Blk(h, pl.root)} + (set j | i <= j < |pl.nodes| :: Blk(h, pl.nodes[j])) + (set j | i <= j < |pl.strs| :: Blk(h, pl.strs[j]))
  }

  ghost function Own(h: Heap, pl: PathList, i: nat): Chunks {
    map b | b in Blks(h, pl, i) :: 1
  }

  /** The chunks of the parts from i on and of the root are live, one block each, all different. */
  ghost predicate PathLive(h: Heap, c: Chunks, pl: PathList, i: nat) {
    && |pl.nodes| == |pl.strs| && Live(h, c, pl.root, 1)
    && (forall j :: i <= j < |pl.nodes| ==> Live(h, c, pl.nodes[j], 1) && pl.nodes[j] != pl.root)
    && (forall j :: i <= j < |pl.strs| ==> Live(h, c, pl.strs[j], 1) && pl.strs[j] != pl.root)
    && (forall j, k :: i <= j < k < |pl.nodes| ==> pl.nodes[j] != pl.nodes[k])
    && (forall j, k :: i <= j < k < |pl.strs| ==> pl.strs[j] != pl.strs[k])
    && (forall j, k :: i <= j < |pl.nodes| && i <= k < |pl.strs| ==> pl.nodes[j] != pl.strs[k])
  }

  /** A NUL-terminated string in a 256-byte buffer. */
  ghost predicate CString(m: seq<byte>, a: word, s: seq<byte>) {
    |s| < 256 && a + 256 <= |m| && m[a..a + |s|] == s && m[a + |s|] == 0
  }

  /** A node of the list: the address of its string, then the next node. */
  ghost predicate NodeAt(m: seq<byte>, node: word, str: word, part: seq<byte>, next: word) {
    WordAt(m, node) == str && CString(m, str, part) && WordAt(m, node as int + 4) == next
  }

  function NextNode(nodes: seq<word>, i: nat): word {
    if i + 1 < |nodes| then nodes[i + 1] else 0
  }

  /** From i on, node j holds part j and leads to node j + 1, the last one nowhere. */
  ghost predicate Linked(m: seq<byte>, pl: PathList, parts: seq<seq<byte>>, i: nat) {
    && |pl.nodes| == |pl.strs| == |parts|
    && forall j :: i <= j < |parts| ==> NodeAt(m, pl.nodes[j], pl.strs[j], parts[j], NextNode(pl.nodes, j))
  }

  ghost predicate RootAt(m: seq<byte>, root: word, drive: word, first: word) {
    WordAt(m, root) == drive && WordAt(m, root as int + 4) == first
  }

  /** The list built so far, and what it cost. */
  ghost predicate Built(h: Heap, m0: seq<byte>, c0: Chunks, m: seq<byte>, c: Chunks, pl: PathList, parts: seq<seq<byte>>) {
    Gains(h, m0, c0, m, c, Own(h, pl, 0)) && PathLive(h, c, pl, 0) && Linked(m, pl, parts, 0)
  }

  lemma BuiltFacts(h: Heap, m0: seq<byte>, c0: Chunks, m: seq<byte>, c: Chunks, pl: PathList, parts: seq<seq<byte>>)
    requires Built(h, m0, c0, m, c, pl, parts)
    ensures Gains(h, m0, c0, m, c, Own(h, pl, 0)) && PathLive(h, c, pl, 0) && Linked(m, pl, parts, 0)
    ensures Grows(h, m0, c0, m, c) && h.ValidIn(m, c) && |pl.nodes| == |pl.strs| == |parts|
    ensures LastNode(pl) == 0 <==> pl.nodes == []
  {
    hide Grows;
    if pl.nodes != [] {
      assert Live(h, c, pl.nodes[|pl.nodes| - 1], 1);
    }
    GainsFacts(h, m0, c0, m, c, Own(h, pl, 0));
  }

  // ---- frames ----

  /** The block at p is as before. */
  ghost predicate Kept(m: seq<byte>, m2: seq<byte>, p: word) {
    |m| == |m2| && forall a :: p <= a < p + 4096 ==> Get(m2, a) == Get(m, a)
  }

  lemma StringKept(m: seq<byte>, m2: seq<byte>, str: word, part: seq<byte>)
    requires CString(m, str, part) && Kept(m, m2, str)
    ensures CString(m2, str, part)
  {
    SameSlice(m, m2, str, str + |part|);
    assert Get(m2, str + |part|) == Get(m, str + |part|);
  }

  lemma NodeKept(m: seq<byte>, m2: seq<byte>, node: word, str: word, part: seq<byte>, next: word)
    requires NodeAt(m, node, str, part, next) && Kept(m, m2, node) && Kept(m, m2, str)
    ensures NodeAt(m2, node, str, part, next)
  {
    hide CString;
    hide WordAt;
    SameWord(m, m2, node);
    SameWord(m, m2, node + 4);
    StringKept(m, m2, str, part);
  }

  /** As long as their blocks stay, nodes from i on stay linked. */
  lemma LinkedKept(h: Heap, c: Chunks, m: seq<byte>, m2: seq<byte>, pl: PathList, parts: seq<seq<byte>>, i: nat)
    requires Linked(m, pl, parts, i) && PathLive(h, c, pl, i)
    requires forall j :: i <= j < |pl.nodes| ==> Kept(m, m2, pl.nodes[j])
    requires forall j :: i <= j < |pl.strs| ==> Kept(m, m2, pl.strs[j])
    ensures Linked(m2, pl, parts, i)
  {
    hide NodeAt;
    hide Kept;
    hide Live;
    forall j | i <= j < |parts| ensures NodeAt(m2, pl.nodes[j], pl.strs[j], parts[j], NextNode(pl.nodes, j)) {
      NodeKept(m, m2, pl.nodes[j], pl.strs[j], parts[j], NextNode(pl.nodes, j));
    }
  }

  lemma LivePage(h: Heap, m: seq<byte>, c: Chunks, p: word)
    requires h.ValidIn(m, c) && Live(h, c, p, 1)
    ensures 0 < p && p as int + 4096 <= |m| && p % 4096 == 0 && h.saddr <= p && p as int + 4096 <= h.Addr(h.total)
  {
    PageInPool(h, m, c, p, 1);
  }

  /** A growing heap keeps every part of a list that was live. */
  lemma GrowList(h: Heap, m: seq<byte>, c: Chunks, m2: seq<byte>, c2: Chunks, pl: PathList, parts: seq<seq<byte>>)
    requires Grows(h, m, c, m2, c2) && PathLive(h, c, pl, 0) && Linked(m, pl, parts, 0)
    ensures PathLive(h, c2, pl, 0) && Linked(m2, pl, parts, 0) && Kept(m, m2, pl.root)
  {
    hide Grows;
    hide Live;
    hide NodeAt;
    GrowFacts(h, m, c, m2, c2);
    forall p: word | Live(h, c, p, 1) ensures Live(h, c2, p, 1) && Kept(m, m2, p) {
      GrowChunk(h, m, c, m2, c2, p, 1);
    }
    LinkedKept(h, c, m, m2, pl, parts, 0);
  }

  // ---- one component ----

  lemma PartEnds(path: seq<byte>, pos: nat, i: nat)
    requires pos + i <= |path| && i <= PartLength(path[pos..]) && (pos + i == |path| || path[pos + i] == SLASH)
    ensures i == PartLength(path[pos..])
    ensures AfterPart(path[pos..]) == path[if pos + i < |path| then pos + i + 1 else pos + i..]
  {
    if pos + i < |path| {
      assert path[pos..][i] == SLASH;
    }
  }

  /** The component at pos copied to a zeroed buffer. */
  method CopyPart(mem: array<byte>, buf: word, path: seq<byte>, pos: nat) returns (i: nat, next: nat)
    requires pos <= |path| && PartLength(path[pos..]) < 256 && buf + 256 <= mem.Length
    requires forall a :: buf <= a < buf + 256 ==> Get(mem[..], a) == 0
    modifies mem
    ensures i == PartLength(path[pos..]) && next <= |path| && path[next..] == AfterPart(path[pos..])
    ensures CString(mem[..], buf, path[pos..pos + i]) && SameOutside(old(mem[..]), mem[..], buf, buf + 256)
  {
    hide PartLength;
    hide AfterPart;
    hide CString;
    ghost var m0, s, n := mem[..], path[pos..], PartLength(path[pos..]);
    i := 0;
    while pos + i < |path| && path[pos + i] != SLASH
      invariant 0 <= i <= n
      invariant forall x :: 0 <= x < mem.Length ==> mem[x] == if buf <= x < buf + i then path[pos + (x - buf)] else old(mem[x])
    {
      assert s[i] == path[pos + i];
      mem[buf + i] := path[pos + i];
      i := i + 1;
    }
    PartEnds(path, pos, i);
    Copied(m0, mem[..], buf, path, pos, i);
    next := if pos + i < |path| then pos + i + 1 else pos + i;
  }

  lemma Copied(m0: seq<byte>, m: seq<byte>, buf: word, path: seq<byte>, pos: nat, i: nat)
    requires pos + i <= |path| && i < 256 && buf as int + 256 <= |m0| == |m| && Get(m0, buf + i) == 0
    requires forall x :: 0 <= x < |m| ==> m[x] == if buf <= x < buf + i then path[pos + (x - buf)] else m0[x]
    ensures CString(m, buf, path[pos..pos + i]) && SameOutside(m0, m, buf, buf + 256)
  {
    assert m[buf..buf + i] == path[pos..pos + i];
  }

  /** pathparser_extract_next_path_part: the component at pos in a buffer of its own; none for an empty one. */
  method ExtractPart(h: Heap, path: seq<byte>, pos: nat, ghost m0: seq<byte>, ghost c0: Chunks, ghost own: Chunks)
    returns (str: word, next: nat)
    requires pos <= |path| && PartLength(path[pos..]) < 256
    requires Gains(h, m0, c0, h.mem[..], h.chunks, own) && FreeSet(h.Flags()) != {}
    modifies h, h.mem
    ensures next <= |path| && path[next..] == AfterPart(path[pos..])
    ensures str == 0 <==> PartLength(path[pos..]) == 0
    ensures Grows(h, old(h.mem[..]), old(h.chunks), h.mem[..], h.chunks)
    ensures str == 0 ==> Gains(h, m0, c0, h.mem[..], h.chunks, own)
    ensures str != 0 ==> Live(h, h.chunks, str, 1) && Blk(h, str) !in own && Blk(h, str) !in old(h.chunks)
    ensures str != 0 ==> Gains(h, m0, c0, h.mem[..], h.chunks, own[Blk(h, str) := 1])
    ensures str != 0 ==> CString(h.mem[..], str, path[pos..pos + PartLength(path[pos..])])
    ensures TailDrops(old(h.Flags()), h.Flags(), if str == 0 then 0 else 1)
  {
    hide FirstFit;
    hide LastFree;
    hide TailDrops;
    hide Heap.FlagsIn;
    hide Gains;
    hide Grows;
    hide BlocksFor;
    hide PartLength;
    hide AfterPart;
    hide CString;
    hide HeapSpec.Encodes;
    ghost var m1, c1 := h.mem[..], h.chunks;
    OneBlock(256);
    GainsFacts(h, m0, c0, m1, c1, own);
    FreeSetGivesRun(h.Flags());
    ghost var f1 := h.Flags();
    str := Obtain(h, 256, false, m0, c0, own);
    DropsOne(f1, h.Flags());
    ghost var own2, m2, c2 := own[Blk(h, str) := 1], h.mem[..], h.chunks;
    GainsFacts(h, m0, c0, m2, c2, own2);
    PageInPool(h, m2, c2, str, 1);
    var i;
    i, next := CopyPart(h.mem, str, path, pos);
    GainsWrite(h, m0, c0, m2, c2, own2, h.mem[..], str, 1, str, str + 256);
    GrowWrite(h, m1, c1, m2, c2, h.mem[..], str, 1, str, str + 256);
    KeptFlags(h, m0, c0, m2, h.mem[..], c2, own2);
    if i == 0 {
      ghost var m3 := h.mem[..];
      Release(h, str, m0, c0, own2);
      assert own2 - {Blk(h, str)} == own;
      GainsFacts(h, m0, c0, h.mem[..], h.chunks, own);
      GrowRelease(h, m1, c1, m3, c2, h.mem[..], h.chunks, str);
      SameGains(h, m0, c0, m1, c1, h.mem[..], h.chunks, own);
      DropsSame(f1);
      str := 0;
    }
  }

  /** The same gains leave the same flag table. */
  lemma SameGains(h: Heap, m0: seq<byte>, c0: Chunks, m1: seq<byte>, c1: Chunks, m2: seq<byte>, c2: Chunks, own: Chunks)
    requires Gains(h, m0, c0, m1, c1, own) && Gains(h, m0, c0, m2, c2, own)
    ensures h.FlagsIn(m2) == h.FlagsIn(m1)
  {
    hide Grows;
    assert c1 == c2;
    KeptFlags(h, m0, c0, m1, m2, c1, own);
  }

  /** Releasing what was not there before leaves growth. */
  lemma GrowRelease(h: Heap, m1: seq<byte>, c1: Chunks, m2: seq<byte>, c2: Chunks, m3: seq<byte>, c3: Chunks, p: word)
    requires Grows(h, m1, c1, m2, c2) && Blk(h, p) !in c1 && c3 == c2 - {Blk(h, p)} && h.ValidIn(m3, c3)
    requires SameOutside(m2, m3, h.table, h.table + h.total)
    ensures Grows(h, m1, c1, m3, c3)
  {
    forall b, a | b in c1 && h.Addr(b) <= a < h.Addr(b) + 4096 * c1[b] ensures Get(m3, a) == Get(m1, a) {
      InPool(h, m1, c1, b);
    }
  }

  // ---- the list ----

  /** What the next component takes: its string and its node, or the buffer found empty. */
  function BlocksNeeded(s: seq<byte>): nat {
    if PartLength(s) == 0 then 1 else 2
  }

  /** The two halves of pathparser_parse_path_part, before the node is linked in. */
  method NewPart(h: Heap, path: seq<byte>, pos: nat, ghost m0: seq<byte>, ghost c0: Chunks, ghost own: Chunks)
    returns (node: word, str: word, next: nat)
    requires pos <= |path| && PartLength(path[pos..]) < 256
    requires Gains(h, m0, c0, h.mem[..], h.chunks, own) && |FreeSet(h.Flags())| >= BlocksNeeded(path[pos..])
    modifies h, h.mem
    ensures next <= |path| && path[next..] == AfterPart(path[pos..])
    ensures node == 0 <==> PartLength(path[pos..]) == 0
    ensures Grows(h, old(h.mem[..]), old(h.chunks), h.mem[..], h.chunks)
    ensures node == 0 ==> Gains(h, m0, c0, h.mem[..], h.chunks, own)
    ensures node != 0 ==> Live(h, h.chunks, node, 1) && Live(h, h.chunks, str, 1) && node != str
    ensures node != 0 ==> Blk(h, node) !in old(h.chunks) && Blk(h, str) !in old(h.chunks)
    ensures node != 0 ==> Gains(h, m0, c0, h.mem[..], h.chunks, own[Blk(h, str) := 1][Blk(h, node) := 1])
    ensures node != 0 ==> NodeAt(h.mem[..], node, str, path[pos..pos + PartLength(path[pos..])], 0)
    ensures TailDrops(old(h.Flags()), h.Flags(), if node == 0 then 0 else 2)
  {
    hide FirstFit;
    hide LastFree;
    hide TailDrops;
    hide Heap.FlagsIn;
    hide Gains;
    hide Grows;
    hide BlocksFor;
    hide PartLength;
    hide AfterPart;
    hide CString;
    hide FreeSet;
    hide WordAt;
    hide HeapSpec.Encodes;
    GainsFacts(h, m0, c0, h.mem[..], h.chunks, own);
    ghost var m1, c1, f1, part := h.mem[..], h.chunks, h.Flags(), path[pos..pos + PartLength(path[pos..])];
    str, next := ExtractPart(h, path, pos, m0, c0, own);
    if str == 0 {
      return 0, 0, next;
    }
    ghost var own2, m2, c2 := own[Blk(h, str) := 1], h.mem[..], h.chunks;
    GainedOne(h, m0, c0, m1, c1, m2, c2, own, Blk(h, str));
    RoomAfterOne(h, m1, c1, m2, c2, Blk(h, str));
    OneBlock(8);
    GainsFacts(h, m0, c0, m2, c2, own2);
    FreeSetGivesRun(h.Flags());
    ghost var f2 := h.Flags();
    node := Obtain(h, 8, false, m0, c0, own2);
    DropsOne(f2, h.Flags());
    DropsThen(f1, f2, h.Flags(), 1, 1);
    ghost var own3, m3, c3 := own2[Blk(h, node) := 1], h.mem[..], h.chunks;
    GrowTrans(h, m1, c1, m2, c2, m3, c3);
    GrowChunk(h, m2, c2, m3, c3, str, 1);
    GainsFacts(h, m0, c0, m3, c3, own3);
    GrowFacts(h, m1, c1, m2, c2);
    SetWord(h, node, 1, 0, str, m0, c0, own3);
    ghost var m4 := h.mem[..];
    SetWord(h, node, 1, 4, 0, m0, c0, own3);
    ghost var m5 := h.mem[..];
    KeptFlags(h, m0, c0, m3, m5, c3, own3);
    GrowWrite(h, m1, c1, m3, c3, m5, node, 1, node, node + 8);
    OtherChunk(h, m3, c3, m5, node, 1, node, node + 8, str, 1);
    StringKept(m2, m3, str, part);
    StringKept(m3, m5, str, part);
    SameWord(m4, m5, node);
  }

  lemma GainedOne(h: Heap, m0: seq<byte>, c0: Chunks, m1: seq<byte>, c1: Chunks, m2: seq<byte>, c2: Chunks, own: Chunks, b: nat)
    requires Gains(h, m0, c0, m1, c1, own) && Gains(h, m0, c0, m2, c2, own[b := 1])
    ensures c2 == c1[b := 1]
  {
    hide Grows;
  }

  lemma RoomAfterOne(h: Heap, m1: seq<byte>, c1: Chunks, m2: seq<byte>, c2: Chunks, b: nat)
    requires Grows(h, m1, c1, m2, c2) && c2 == c1[b := 1] && b !in c1 && |FreeSet(h.FlagsIn(m1))| >= 2
    ensures FreeSet(h.FlagsIn(m2)) != {}
  {
    hide Grows;
    hide FreeSet;
    assert c1[b := 1] == c1 + map[b := 1];
    assert Gains(h, m1, c1, m2, c2, map[b := 1]);
    GainsRoom(h, m1, c1, m2, c2, map[b := 1]);
    assert |map[b := 1]| == 1;
  }

  /** The last node of a list, 0 when there is none. */
  function LastNode(pl: PathList): word {
    if pl.nodes == [] then 0 else pl.nodes[|pl.nodes| - 1]
  }

  /** pathparser_parse_path_part: the next component, linked behind the last one. */
  method ParsePathPart(h: Heap, last: word, path: seq<byte>, pos: nat,
                       ghost m0: seq<byte>, ghost c0: Chunks, ghost pl: PathList, ghost parts: seq<seq<byte>>)
    returns (node: word, next: nat, ghost pl2: PathList)
    requires pos <= |path| && PartLength(path[pos..]) < 256
    requires Built(h, m0, c0, h.mem[..], h.chunks, pl, parts) && last == LastNode(pl) && |FreeSet(h.Flags())| >= BlocksNeeded(path[pos..])
    modifies h, h.mem
    ensures next <= |path| && path[next..] == AfterPart(path[pos..])
    ensures pl2.root == pl.root && Kept(old(h.mem[..]), h.mem[..], pl.root)
    ensures node == 0 <==> PartLength(path[pos..]) == 0
    ensures node == 0 ==> pl2 == pl && Built(h, m0, c0, h.mem[..], h.chunks, pl, parts)
    ensures node != 0 ==> exists str :: pl2 == PathList(pl.root, pl.nodes + [node], pl.strs + [str])
    ensures node != 0 ==> Built(h, m0, c0, h.mem[..], h.chunks, pl2, parts + [path[pos..pos + PartLength(path[pos..])]])
    ensures TailDrops(old(h.Flags()), h.Flags(), if node == 0 then 0 else 2)
  {
    hide FirstFit;
    hide LastFree;
    hide TailDrops;
    hide Heap.FlagsIn;
    hide Gains;
    hide Grows;
    hide PartLength;
    hide AfterPart;
    hide FreeSet;
    hide Built;
    hide Linked;
    hide PathLive;
    hide NodeAt;
    hide Own;
    hide HeapSpec.Encodes;
    ghost var m1, c1, part, own := h.mem[..], h.chunks, path[pos..pos + PartLength(path[pos..])], Own(h, pl, 0);
    BuiltFacts(h, m0, c0, m1, c1, pl, parts);
    var str;
    node, str, next := NewPart(h, path, pos, m0, c0, own);
    ghost var m2, c2 := h.mem[..], h.chunks;
    GrowList(h, m1, c1, m2, c2, pl, parts);
    if node == 0 {
      pl2 := pl;
      FoldBuilt(h, m0, c0, m2, c2, pl, parts);
      return;
    }
    pl2 := PathList(pl.root, pl.nodes + [node], pl.strs + [str]);
    GainsFacts(h, m0, c0, m2, c2, own[Blk(h, str) := 1][Blk(h, node) := 1]);
    OwnExtend(h, pl, node, str);
    LiveExtend(h, c1, c2, pl, node, str);
    if last != 0 {
      LiveNode(h, c2, pl2, |pl.nodes| - 1);
      SetWord(h, last, 1, 4, node, m0, c0, Own(h, pl2, 0));
      KeptFlags(h, m0, c0, m2, h.mem[..], c2, Own(h, pl2, 0));
      OthersKept(h, m2, c2, h.mem[..], pl2, |pl.nodes| - 1);
      LastKept(m2, h.mem[..], pl, pl2);
      LinkExtend(m2, h.mem[..], pl, parts, node, str, part);
    } else {
      LinkOne(m2, pl, parts, node, str, part);
    }
    FoldBuilt(h, m0, c0, h.mem[..], c2, pl2, parts + [part]);
  }

  lemma FoldBuilt(h: Heap, m0: seq<byte>, c0: Chunks, m: seq<byte>, c: Chunks, pl: PathList, parts: seq<seq<byte>>)
    requires Gains(h, m0, c0, m, c, Own(h, pl, 0)) && PathLive(h, c, pl, 0) && Linked(m, pl, parts, 0)
    ensures Built(h, m0, c0, m, c, pl, parts)
  {
  }

  lemma OwnExtend(h: Heap, pl: PathList, node: word, str: word)
    requires |pl.nodes| == |pl.strs|
    ensures Own(h, PathList(pl.root, pl.nodes + [node], pl.strs + [str]), 0) == Own(h, pl, 0)[Blk(h, str) := 1][Blk(h, node) := 1]
  {
    hide Blk;
    var pl2 := PathList(pl.root, pl.nodes + [node], pl.strs + [str]);
    forall b ensures b in Blks(h, pl2, 0) <==> b in Blks(h, pl, 0) || b == Blk(h, str) || b == Blk(h, node) {
      if b in Blks(h, pl, 0) && b != Blk(h, pl.root) {
        var j :| 0 <= j < |pl.nodes| && (b == Blk(h, pl.nodes[j]) || b == Blk(h, pl.strs[j]));
        assert pl2.nodes[j] == pl.nodes[j] && pl2.strs[j] == pl.strs[j];
      }
      assert pl2.nodes[|pl.nodes|] == node && pl2.strs[|pl.strs|] == str;
    }
  }

  lemma LiveExtend(h: Heap, c: Chunks, c2: Chunks, pl: PathList, node: word, str: word)
    requires PathLive(h, c, pl, 0) && PathLive(h, c2, pl, 0) && Live(h, c2, node, 1) && Live(h, c2, str, 1) && node != str
    requires Blk(h, node) !in c && Blk(h, str) !in c
    ensures PathLive(h, c2, PathList(pl.root, pl.nodes + [node], pl.strs + [str]), 0)
  {
    assert forall p: word :: Live(h, c, p, 1) ==> Blk(h, p) in c;
    hide Live;
    hide Blk;
  }

  lemma LiveNode(h: Heap, c: Chunks, pl: PathList, j: nat)
    requires PathLive(h, c, pl, 0) && j < |pl.nodes|
    ensures Live(h, c, pl.nodes[j], 1) && Live(h, c, pl.strs[j], 1) && Blk(h, pl.nodes[j]) in Own(h, pl, 0)
    ensures forall k :: 0 <= k < |pl.strs| ==> pl.nodes[j] != pl.strs[k]
    ensures forall k :: 0 <= k < |pl.nodes| && k != j ==> pl.nodes[j] != pl.nodes[k]
    ensures pl.nodes[j] != pl.root
  {
    hide Live;
    hide Blk;
  }

  /** Writing the link of node j leaves every other block of the list alone. */
  lemma OthersKept(h: Heap, m: seq<byte>, c: Chunks, m2: seq<byte>, pl: PathList, j: nat)
    requires h.ValidIn(m, c) && PathLive(h, c, pl, 0) && j < |pl.nodes|
    requires SameOutside(m, m2, pl.nodes[j] as int + 4, pl.nodes[j] as int + 8)
    ensures Kept(m, m2, pl.root)
    ensures forall k :: 0 <= k < |pl.nodes| && k != j ==> Kept(m, m2, pl.nodes[k])
    ensures forall k :: 0 <= k < |pl.strs| ==> Kept(m, m2, pl.strs[k])
  {
    hide Heap.ValidIn;
    LiveNode(h, c, pl, j);
    RootLive(h, c, pl);
    var last := pl.nodes[j];
    forall q: word | Live(h, c, q, 1) && q != last ensures Kept(m, m2, q) {
      OtherChunk(h, m, c, m2, last, 1, last as int + 4, last as int + 8, q, 1);
    }
    hide Live;
    hide Kept;
  }

  /** Linking a new node behind the last one changes only where that one leads. */
  lemma LinkExtend(m: seq<byte>, m2: seq<byte>, pl: PathList, parts: seq<seq<byte>>, node: word, str: word, part: seq<byte>)
    requires Linked(m, pl, parts, 0) && pl.nodes != []
    requires Kept(m, m2, node) && Kept(m, m2, str) && NodeAt(m, node, str, part, 0)
    requires forall k :: 0 <= k < |pl.nodes| - 1 ==> Kept(m, m2, pl.nodes[k])
    requires forall k :: 0 <= k < |pl.strs| ==> Kept(m, m2, pl.strs[k])
    requires WordAt(m2, LastNode(pl) as int + 4) == node && SameOutside(m, m2, LastNode(pl) as int + 4, LastNode(pl) as int + 8)
    ensures Linked(m2, PathList(pl.root, pl.nodes + [node], pl.strs + [str]), parts + [part], 0)
  {
    hide NodeAt;
    hide WordAt;
    hide Kept;
    hide SameOutside;
    var n := |pl.nodes|;
    var nodes := pl.nodes + [node];
    NodeKept(m, m2, node, str, part, 0);
    LastRelinked(m, m2, pl.nodes[n - 1], pl.strs[n - 1], parts[n - 1], node);
    forall j | 0 <= j < n - 1 ensures NodeAt(m2, pl.nodes[j], pl.strs[j], parts[j], NextNode(nodes, j)) {
      NodeKept(m, m2, pl.nodes[j], pl.strs[j], parts[j], NextNode(pl.nodes, j));
    }
  }

  lemma LinkOne(m: seq<byte>, pl: PathList, parts: seq<seq<byte>>, node: word, str: word, part: seq<byte>)
    requires NodeAt(m, node, str, part, 0) && pl.nodes == pl.strs == [] && parts == []
    ensures Linked(m, PathList(pl.root, pl.nodes + [node], pl.strs + [str]), parts + [part], 0)
  {
    hide NodeAt;
  }

  lemma LastKept(m: seq<byte>, m2: seq<byte>, pl: PathList, pl2: PathList)
    requires pl.nodes != [] && |pl2.nodes| == |pl.nodes| + 1 == |pl2.strs| && |pl.strs| == |pl.nodes| && pl.nodes == pl2.nodes[..|pl.nodes|] && pl.strs == pl2.strs[..|pl.strs|]
    requires forall k :: 0 <= k < |pl2.nodes| && k != |pl.nodes| - 1 ==> Kept(m, m2, pl2.nodes[k])
    requires forall k :: 0 <= k < |pl2.strs| ==> Kept(m, m2, pl2.strs[k])
    ensures forall k :: 0 <= k < |pl.nodes| - 1 ==> Kept(m, m2, pl.nodes[k])
    ensures forall k :: 0 <= k < |pl.strs| ==> Kept(m, m2, pl.strs[k])
    ensures Kept(m, m2, pl2.nodes[|pl.nodes|]) && Kept(m, m2, pl2.strs[|pl.nodes|])
  {
    hide Kept;
    assert forall k :: 0 <= k < |pl.nodes| ==> pl.nodes[k] == pl2.nodes[k] && pl.strs[k] == pl2.strs[k];
  }

  lemma LastRelinked(m: seq<byte>, m2: seq<byte>, last: word, str: word, part: seq<byte>, node: word)
    requires NodeAt(m, last, str, part, 0) && Kept(m, m2, str)
    requires WordAt(m2, last as int + 4) == node && SameOutside(m, m2, last as int + 4, last as int + 8)
    ensures NodeAt(m2, last, str, part, node)
  {
    hide CString;
    hide WordAt;
    StringKept(m, m2, str, part);
    SameWord(m, m2, last);
  }

  lemma RootLive(h: Heap, c: Chunks, pl: PathList)
    requires PathLive(h, c, pl, 0)
    ensures Live(h, c, pl.root, 1) && Blk(h, pl.root) in Own(h, pl, 0)
  {
  }

  // ---- the whole path ----

  function FirstNode(pl: PathList): word {
    if pl.nodes == [] then 0 else pl.nodes[0]
  }

  /** The parsed path: the list, and a root that names the drive and leads to the list. */
  ghost predicate Parsed(h: Heap, m0: seq<byte>, c0: Chunks, m: seq<byte>, c: Chunks, pl: PathList, drive: word, parts: seq<seq<byte>>) {
    Built(h, m0, c0, m, c, pl, parts) && RootAt(m, pl.root, drive, FirstNode(pl))
  }

  /** pathparser_create_root */
  method CreateRoot(h: Heap, drive: word) returns (root: word)
    requires h.Valid() && FreeSet(h.Flags()) != {}
    modifies h, h.mem
    ensures root != 0 && RootAt(h.mem[..], root, drive, 0)
    ensures Built(h, old(h.mem[..]), old(h.chunks), h.mem[..], h.chunks, PathList(root, [], []), [])
    ensures TailDrops(old(h.Flags()), h.Flags(), 1)
  {
    hide FirstFit;
    hide LastFree;
    hide TailDrops;
    hide Heap.FlagsIn;
    hide Gains;
    hide FreeSet;
    hide WordAt;
    hide BlocksFor;
    hide HeapSpec.Encodes;
    ghost var m0, c0 := h.mem[..], h.chunks;
    GainNothing(h, m0, c0);
    OneBlock(8);
    FreeSetGivesRun(h.Flags());
    root := Obtain(h, 8, false, m0, c0, map[]);
    DropsOne(h.FlagsIn(m0), h.Flags());
    ghost var own, m2 := map[Blk(h, root) := 1], h.mem[..];
    assert map[][Blk(h, root) := 1] == own;
    GainsFacts(h, m0, c0, h.mem[..], h.chunks, own);
    SetWord(h, root, 1, 0, drive, m0, c0, own);
    ghost var m1 := h.mem[..];
    SetWord(h, root, 1, 4, 0, m0, c0, own);
    KeptFlags(h, m0, c0, m2, h.mem[..], h.chunks, own);
    SameWord(m1, h.mem[..], root);
    assert Own(h, PathList(root, [], []), 0) == own;
  }

  lemma {:induction false} OwnSize(h: Heap, pl: PathList)
    requires |pl.nodes| == |pl.strs|
    ensures |Own(h, pl, 0)| <= 1 + 2 * |pl.nodes| && forall b :: b in Own(h, pl, 0) ==> Own(h, pl, 0)[b] == 1
    decreases |pl.nodes|
  {
    hide Blk;
    var n := |pl.nodes|;
    if n == 0 {
      assert Own(h, pl, 0) == map[][Blk(h, pl.root) := 1];
    } else {
      hide Own;
      var less := PathList(pl.root, pl.nodes[..n - 1], pl.strs[..n - 1]);
      OwnSize(h, less);
      OwnExtend(h, less, pl.nodes[n - 1], pl.strs[n - 1]);
      assert pl.nodes == less.nodes + [pl.nodes[n - 1]] && pl.strs == less.strs + [pl.strs[n - 1]];
      OneMoreKey(Own(h, less, 0), Blk(h, pl.strs[n - 1]));
      OneMoreKey(Own(h, less, 0)[Blk(h, pl.strs[n - 1]) := 1], Blk(h, pl.nodes[n - 1]));
    }
  }

  lemma OneMoreKey(c: Chunks, b: nat)
    ensures |c[b := 1]| <= |c| + 1
  {
    assert c[b := 1].Keys == c.Keys + {b};
    KeysSize(c);
    KeysSize(c[b := 1]);
  }

  lemma KeysSize(c: Chunks)
    ensures |c| == |c.Keys|
  {
  }

  /** Blocks left while the parts still to come are rest. */
  lemma RoomLeft(h: Heap, m0: seq<byte>, c0: Chunks, m: seq<byte>, c: Chunks, pl: PathList, parts: seq<seq<byte>>, all: seq<seq<byte>>, s: seq<byte>)
    requires Built(h, m0, c0, m, c, pl, parts) && parts + Parts(s) == all && |FreeSet(h.FlagsIn(m0))| >= 2 * |all| + 2
    ensures |FreeSet(h.FlagsIn(m))| >= BlocksNeeded(s)
  {
    hide Gains;
    hide FreeSet;
    hide Own;
    BuiltFacts(h, m0, c0, m, c, pl, parts);
    OwnSize(h, pl);
    GainsRoom(h, m0, c0, m, c, Own(h, pl, 0));
    if PartLength(s) > 0 {
      assert |Parts(s)| >= 1;
    }
  }

  lemma RootKept(m: seq<byte>, m2: seq<byte>, root: word, drive: word, first: word)
    requires RootAt(m, root, drive, first) && Kept(m, m2, root)
    ensures RootAt(m2, root, drive, first)
  {
    hide WordAt;
    SameWord(m, m2, root);
    SameWord(m, m2, root as int + 4);
  }

  /** The root is made to lead to the first node. */
  method SetFirst(h: Heap, drive: word, ghost m0: seq<byte>, ghost c0: Chunks, root: word, first: word, ghost pl: PathList, ghost parts: seq<seq<byte>>)
    requires Built(h, m0, c0, h.mem[..], h.chunks, pl, parts) && RootAt(h.mem[..], root, drive, 0)
    requires root == pl.root && first == FirstNode(pl)
    modifies h, h.mem
    ensures Parsed(h, m0, c0, h.mem[..], h.chunks, pl, drive, parts) && h.chunks == old(h.chunks) && h.Flags() == old(h.Flags())
  {
    hide Gains;
    hide Own;
    hide Linked;
    hide WordAt;
    hide HeapSpec.Encodes;
    ghost var m, c := h.mem[..], h.chunks;
    BuiltFacts(h, m0, c0, m, c, pl, parts);
    RootLive(h, c, pl);
    SetWord(h, root, 1, 4, first, m0, c0, Own(h, pl, 0));
    KeptFlags(h, m0, c0, m, h.mem[..], c, Own(h, pl, 0));
    SameWord(m, h.mem[..], root);
    forall j | 0 <= j < |pl.nodes| ensures Kept(m, h.mem[..], pl.nodes[j]) && Kept(m, h.mem[..], pl.strs[j]) {
      OtherChunk(h, m, c, h.mem[..], root, 1, root + 4, root + 8, pl.nodes[j], 1);
      OtherChunk(h, m, c, h.mem[..], root, 1, root + 4, root + 8, pl.strs[j], 1);
    }
    LinkedKept(h, c, m, h.mem[..], pl, parts, 0);
  }

  /** pathparser_parse: nothing for a string that is too long or not a path, else its drive and its parts. */
  method Parse(h: Heap, path: seq<byte>) returns (root: word, ghost pl: PathList)
    requires h.Valid() && 0 !in path
    requires |path| >= 3 ==> |FreeSet(h.Flags())| >= 2 * |Parts(path[3..])| + 2
    modifies h, h.mem
    ensures root == 0 <==> |path| > 256 || !IsPathValid(path)
    ensures root == 0 ==> h.mem[..] == old(h.mem[..]) && h.chunks == old(h.chunks)
    ensures root != 0 ==> root == pl.root
    ensures root != 0 ==> Parsed(h, old(h.mem[..]), old(h.chunks), h.mem[..], h.chunks, pl, path[0] - 48, Parts(path[3..]))
    // A free tail loses at most the blocks of the root and of the parts.
    ensures root != 0 ==> TailDrops(old(h.Flags()), h.Flags(), 1 + 2 * |Parts(path[3..])|)
  {
    hide FirstFit;
    hide LastFree;
    hide TailDrops;
    hide Heap.FlagsIn;
    hide FreeSet;
    hide Built;
    hide Own;
    hide PartLength;
    hide AfterPart;
    hide Parts;
    hide RootAt;
    hide Kept;
    hide PathLive;
    hide Linked;
    hide Gains;
    hide Grows;
    hide HeapSpec.Encodes;
    hide Parsed;
    pl := PathList(0, [], []);
    if |path| > 256 || !IsPathValid(path) {
      return 0, pl;
    }
    ghost var m0, c0, all := h.mem[..], h.chunks, Parts(path[3..]);
    var drive: word := path[0] - 48;
    SomeFree(h.Flags());
    ghost var f0 := h.Flags();
    root := CreateRoot(h, drive);
    ghost var f1 := h.Flags();
    var node, pos;
    ghost var parts;
    node, pos, pl, parts := FirstPart(h, root, drive, path, m0, c0, all);
    DropsThen(f0, f1, h.Flags(), 1, 2 * |parts|);
    while node != 0
      invariant 3 <= pos <= |path| && pl.root == root
      invariant node != 0 ==> node == LastNode(pl) && pl.nodes != []
      invariant all == if node != 0 then parts + Parts(path[pos..]) else parts
      invariant Parsed(h, m0, c0, h.mem[..], h.chunks, pl, drive, parts)
      invariant h.Geometry() && TailDrops(f0, h.Flags(), 1 + 2 * |parts|)
      decreases node != 0, |path| - pos
    {
      ghost var f, n := h.Flags(), |parts|;
      node, pos, pl, parts := AppendPart(h, node, path, pos, m0, c0, pl, drive, parts, all);
      DropsThen(f0, f, h.Flags(), 1 + 2 * n, if node == 0 then 0 else 2);
    }
  }

  /** The first part, and the root made to lead to it. */
  method FirstPart(h: Heap, root: word, drive: word, path: seq<byte>, ghost m0: seq<byte>, ghost c0: Chunks, ghost all: seq<seq<byte>>)
    returns (node: word, next: nat, ghost pl: PathList, ghost parts: seq<seq<byte>>)
    requires Built(h, m0, c0, h.mem[..], h.chunks, PathList(root, [], []), []) && RootAt(h.mem[..], root, drive, 0)
    requires 3 <= |path| <= 256 && all == Parts(path[3..]) && |FreeSet(h.FlagsIn(m0))| >= 2 * |all| + 2
    modifies h, h.mem
    ensures Parsed(h, m0, c0, h.mem[..], h.chunks, pl, drive, parts) && pl.root == root && 3 <= next <= |path|
    ensures node != 0 ==> node == LastNode(pl) && pl.nodes != []
    ensures all == if node != 0 then parts + Parts(path[next..]) else parts
    ensures h.Geometry() && TailDrops(old(h.Flags()), h.Flags(), 2 * |parts|)
  {
    hide FirstFit;
    hide LastFree;
    hide TailDrops;
    hide Heap.FlagsIn;
    hide FreeSet;
    hide Built;
    hide Own;
    hide PartLength;
    hide AfterPart;
    hide Parts;
    hide RootAt;
    hide Kept;
    hide PathLive;
    hide Linked;
    hide Gains;
    hide Grows;
    hide HeapSpec.Encodes;
    pl, parts := PathList(root, [], []), [];
    ghost var m1 := h.mem[..];
    BuiltFacts(h, m0, c0, m1, h.chunks, pl, parts);
    RoomLeft(h, m0, c0, m1, h.chunks, pl, parts, all, path[3..]);
    PartsStep(path, 3, []);
    node, next, pl := ParsePathPart(h, 0, path, 3, m0, c0, pl, parts);
    RootKept(m1, h.mem[..], root, drive, 0);
    if node != 0 {
      parts := parts + [path[3..3 + PartLength(path[3..])]];
      SetFirst(h, drive, m0, c0, root, node, pl, parts);
    }
  }

  /** One turn of the loop: the next part joins the parsed path, or there is none. */
  method AppendPart(h: Heap, last: word, path: seq<byte>, pos: nat,
                    ghost m0: seq<byte>, ghost c0: Chunks, ghost pl: PathList, ghost drive: word, ghost parts: seq<seq<byte>>, ghost all: seq<seq<byte>>)
    returns (node: word, next: nat, ghost pl2: PathList, ghost parts2: seq<seq<byte>>)
    requires Parsed(h, m0, c0, h.mem[..], h.chunks, pl, drive, parts)
    requires last == LastNode(pl) && pl.nodes != [] && 3 <= pos <= |path| <= 256
    requires all == parts + Parts(path[pos..]) && |FreeSet(h.FlagsIn(m0))| >= 2 * |all| + 2
    modifies h, h.mem
    ensures Parsed(h, m0, c0, h.mem[..], h.chunks, pl2, drive, parts2)
    ensures pl2.root == pl.root && pl2.nodes != [] && (node != 0 ==> node == LastNode(pl2))
    ensures pos <= next <= |path| && (node != 0 ==> pos < next)
    ensures all == if node != 0 then parts2 + Parts(path[next..]) else parts2
    ensures |parts2| == |parts| + (if node == 0 then 0 else 1)
    ensures TailDrops(old(h.Flags()), h.Flags(), if node == 0 then 0 else 2)
  {
    hide FirstFit;
    hide LastFree;
    hide TailDrops;
    hide Heap.FlagsIn;
    hide FreeSet;
    hide Built;
    hide Own;
    hide PartLength;
    hide AfterPart;
    hide Parts;
    hide RootAt;
    hide Kept;
    hide PathLive;
    hide Linked;
    hide Gains;
    hide Grows;
    hide HeapSpec.Encodes;
    ghost var m, part := h.mem[..], path[pos..pos + PartLength(path[pos..])];
    BuiltFacts(h, m0, c0, m, h.chunks, pl, parts);
    RoomLeft(h, m0, c0, m, h.chunks, pl, parts, all, path[pos..]);
    PartsStep(path, pos, parts);
    node, next, pl2 := ParsePathPart(h, last, path, pos, m0, c0, pl, parts);
    RootKept(m, h.mem[..], pl.root, drive, FirstNode(pl));
    parts2 := if node != 0 then parts + [part] else parts;
  }

  lemma PartsStep(path: seq<byte>, pos: nat, before: seq<seq<byte>>)
    requires pos <= |path|
    ensures PartLength(path[pos..]) == 0 ==> Parts(path[pos..]) == [] && before + Parts(path[pos..]) == before
    ensures PartLength(path[pos..]) != 0 ==>
      before + [path[pos..pos + PartLength(path[pos..])]] + Parts(AfterPart(path[pos..])) == before + Parts(path[pos..])
  {
    hide PartLength;
    hide AfterPart;
    var s, n := path[pos..], PartLength(path[pos..]);
    var part := path[pos..pos + n];
    assert s[..n] == part;
    if n != 0 {
      assert Parts(s) == [part] + Parts(AfterPart(s));
      assert before + [part] + Parts(AfterPart(s)) == before + ([part] + Parts(AfterPart(s)));
    }
  }

  // ---- freeing ----

  ghost predicate Apart(h: Heap, pl: PathList, i: nat) {
    && |pl.nodes| == |pl.strs|
    && (forall j :: i <= j < |pl.nodes| ==> Blk(h, pl.nodes[j]) != Blk(h, pl.root) && Blk(h, pl.strs[j]) != Blk(h, pl.root))
    && (forall j, k :: i <= j < k < |pl.nodes| ==> Blk(h, pl.nodes[j]) != Blk(h, pl.nodes[k]))
    && (forall j, k :: i <= j < k < |pl.strs| ==> Blk(h, pl.strs[j]) != Blk(h, pl.strs[k]))
    && (forall j, k :: i <= j < |pl.nodes| && i <= k < |pl.strs| ==> Blk(h, pl.nodes[j]) != Blk(h, pl.strs[k]))
  }

  lemma LiveIsApart(h: Heap, c: Chunks, pl: PathList, i: nat)
    requires PathLive(h, c, pl, i)
    ensures Apart(h, pl, i)
  {
    forall p: word, q: word | Live(h, c, p, 1) && Live(h, c, q, 1) && p != q ensures Blk(h, p) != Blk(h, q) {
      DifferentBlocks(h, c, p, 1, q, 1);
    }
    hide Live;
    hide Blk;
  }

  lemma OwnShrink(h: Heap, pl: PathList, i: nat)
    requires Apart(h, pl, i) && i < |pl.nodes|
    ensures Own(h, pl, i) - {Blk(h, pl.strs[i])} - {Blk(h, pl.nodes[i])} == Own(h, pl, i + 1)
  {
    hide Blk;
    var a, b := Blk(h, pl.strs[i]), Blk(h, pl.nodes[i]);
    forall x ensures x in Blks(h, pl, i) && x != a && x != b <==> x in Blks(h, pl, i + 1) {
      if x in Blks(h, pl, i) && x != Blk(h, pl.root) {
        var j :| i <= j < |pl.nodes| && (x == Blk(h, pl.nodes[j]) || x == Blk(h, pl.strs[j]));
      }
    }
  }

  lemma LiveShrink(h: Heap, c: Chunks, pl: PathList, i: nat)
    requires PathLive(h, c, pl, i) && i < |pl.nodes|
    ensures PathLive(h, c - {Blk(h, pl.strs[i])} - {Blk(h, pl.nodes[i])}, pl, i + 1)
    ensures Live(h, c - {Blk(h, pl.strs[i])}, pl.nodes[i], 1)
  {
    var a, b := Blk(h, pl.strs[i]), Blk(h, pl.nodes[i]);
    forall p: word | Live(h, c, p, 1) && p != pl.strs[i] && p != pl.nodes[i] ensures Live(h, c - {a} - {b}, p, 1) {
      DifferentBlocks(h, c, pl.strs[i], 1, p, 1);
      DifferentBlocks(h, c - {a}, pl.nodes[i], 1, p, 1);
    }
    DifferentBlocks(h, c, pl.strs[i], 1, pl.nodes[i], 1);
    hide Live;
    hide Blk;
  }

  /** Freeing touches the flag table only, never a live block. */
  lemma FlagsApart(h: Heap, m: seq<byte>, c: Chunks, m2: seq<byte>, p: word)
    requires h.ValidIn(m, c) && Live(h, c, p, 1) && SameOutside(m, m2, h.table, h.table + h.total)
    ensures Kept(m, m2, p)
  {
    LivePage(h, m, c, p);
  }

  /** The body of the loop: the string and the node of part i go back to the heap. */
  method FreePart(h: Heap, node: word, str: word, ghost m0: seq<byte>, ghost c0: Chunks, ghost pl: PathList, ghost parts: seq<seq<byte>>, ghost i: nat)
    requires Gains(h, m0, c0, h.mem[..], h.chunks, Own(h, pl, i)) && PathLive(h, h.chunks, pl, i) && Linked(h.mem[..], pl, parts, i)
    requires i < |pl.nodes| && node == pl.nodes[i] && str == pl.strs[i]
    modifies h, h.mem
    ensures Gains(h, m0, c0, h.mem[..], h.chunks, Own(h, pl, i + 1)) && PathLive(h, h.chunks, pl, i + 1) && Linked(h.mem[..], pl, parts, i + 1)
  {
    hide Gains;
    hide Kept;
    hide HeapSpec.Encodes;
    ghost var m, c, own := h.mem[..], h.chunks, Own(h, pl, i);
    assert Blk(h, str) in own && Blk(h, node) in own;
    hide Own;
    GainsFacts(h, m0, c0, m, c, own);
    LiveIsApart(h, c, pl, i);
    OwnShrink(h, pl, i);
    LiveShrink(h, c, pl, i);
    DifferentBlocks(h, c, str, 1, node, 1);
    hide Blk;
    hide Apart;
    Release(h, str, m0, c0, own);
    Release(h, node, m0, c0, own - {Blk(h, str)});
    forall j | i + 1 <= j < |pl.nodes| ensures Kept(m, h.mem[..], pl.nodes[j]) && Kept(m, h.mem[..], pl.strs[j]) {
      FlagsApart(h, m, c, h.mem[..], pl.nodes[j]);
      FlagsApart(h, m, c, h.mem[..], pl.strs[j]);
    }
    assert Linked(m, pl, parts, i + 1);
    LinkedKept(h, h.chunks, m, h.mem[..], pl, parts, i + 1);
  }

  lemma PartAt(h: Heap, m: seq<byte>, c: Chunks, pl: PathList, parts: seq<seq<byte>>, i: nat)
    requires h.ValidIn(m, c) && PathLive(h, c, pl, i) && Linked(m, pl, parts, i) && i < |pl.nodes|
    ensures pl.nodes[i] as int + 4096 <= |m| && |pl.strs| == |pl.nodes|
    ensures WordAt(m, pl.nodes[i]) == pl.strs[i] && WordAt(m, pl.nodes[i] as int + 4) == NextNode(pl.nodes, i)
    ensures i + 1 < |pl.nodes| ==> pl.nodes[i + 1] != 0
  {
    hide WordAt;
    hide CString;
    LivePage(h, m, c, pl.nodes[i]);
    assert NodeAt(m, pl.nodes[i], pl.strs[i], parts[i], NextNode(pl.nodes, i));
    if i + 1 < |pl.nodes| {
      LivePage(h, m, c, pl.nodes[i + 1]);
    }
  }

  lemma FirstLive(h: Heap, m: seq<byte>, c: Chunks, pl: PathList)
    requires h.ValidIn(m, c) && PathLive(h, c, pl, 0)
    ensures FirstNode(pl) == 0 <==> pl.nodes == []
  {
    if pl.nodes != [] {
      LivePage(h, m, c, pl.nodes[0]);
    }
  }

  /** pathparser_free: every block the parse took goes back, and the flag table is what it was, entry for entry. */
  method Free(h: Heap, root: word, ghost m0: seq<byte>, ghost c0: Chunks, ghost pl: PathList, ghost drive: word, ghost parts: seq<seq<byte>>)
    requires Parsed(h, m0, c0, h.mem[..], h.chunks, pl, drive, parts) && root == pl.root
    modifies h, h.mem
    ensures h.Valid() && h.chunks == c0 && h.Flags() == h.FlagsIn(m0)
    ensures Grows(h, m0, c0, h.mem[..], h.chunks)
  {
    hide Gains;
    hide Own;
    hide PathLive;
    hide Linked;
    hide WordAt;
    hide Built;
    hide HeapSpec.Encodes;
    BuiltFacts(h, m0, c0, h.mem[..], h.chunks, pl, parts);
    RootLive(h, h.chunks, pl);
    LivePage(h, h.mem[..], h.chunks, root);
    FirstLive(h, h.mem[..], h.chunks, pl);
    var part := Load32(h.mem, root + 4);
    ghost var i := 0;
    while part != 0
      invariant 0 <= i <= |pl.nodes| && part == if i < |pl.nodes| then pl.nodes[i] else 0
      invariant i < |pl.nodes| ==> pl.nodes[i] != 0
      invariant Gains(h, m0, c0, h.mem[..], h.chunks, Own(h, pl, i)) && PathLive(h, h.chunks, pl, i)
      invariant Linked(h.mem[..], pl, parts, i)
      decreases |pl.nodes| - i
    {
      GainsFacts(h, m0, c0, h.mem[..], h.chunks, Own(h, pl, i));
      PartAt(h, h.mem[..], h.chunks, pl, parts, i);
      var next := Load32(h.mem, part + 4);
      var str := Load32(h.mem, part);
      FreePart(h, part, str, m0, c0, pl, parts, i);
      part, i := next, i + 1;
    }
    FreeRoot(h, root, m0, c0, pl, i);
  }

  /** The root goes back last. */
  method FreeRoot(h: Heap, root: word, ghost m0: seq<byte>, ghost c0: Chunks, ghost pl: PathList, ghost i: nat)
    requires Gains(h, m0, c0, h.mem[..], h.chunks, Own(h, pl, i)) && PathLive(h, h.chunks, pl, i) && i == |pl.nodes| && root == pl.root
    modifies h, h.mem
    ensures h.Valid() && h.chunks == c0 && h.Flags() == h.FlagsIn(m0)
    ensures Grows(h, m0, c0, h.mem[..], h.chunks)
  {
    hide Gains;
    hide HeapSpec.Encodes;
    assert Own(h, pl, i) == map[Blk(h, root) := 1];
    Release(h, root, m0, c0, Own(h, pl, i));
    assert Own(h, pl, i) - {Blk(h, root)} == map[];
    GainsFacts(h, m0, c0, h.mem[..], h.chunks, map[]);
    GainsNothing(h, m0, c0, h.mem[..], h.chunks);
  }

  /** Parsing a path and freeing the result leaves the heap as it was, flag for flag, with every live chunk intact. */
  method ParseThenFree(h: Heap, path: seq<byte>)
    requires h.Valid() && 0 !in path
    requires |path| >= 3 ==> |FreeSet(h.Flags())| >= 2 * |Parts(path[3..])| + 2
    modifies h, h.mem
    ensures h.Valid() && h.chunks == old(h.chunks) && h.Flags() == old(h.Flags())
    ensures Grows(h, old(h.mem[..]), old(h.chunks), h.mem[..], h.chunks)
  {
    hide Parsed;
    hide Grows;
    ghost var m0, c0 := h.mem[..], h.chunks;
    GrowNothing(h, m0, c0);
    var root, pl := Parse(h, path);
    if root != 0 {
      Free(h, root, m0, c0, pl, path[0] - 48, Parts(path[3..]));
    }
  }

  // ---- following a parsed path ----

  /** A parsed list that holds these parts, each a string without NUL. */
  ghost predicate ListIn(h: Heap, m: seq<byte>, c: Chunks, pl: PathList, parts: seq<seq<byte>>) {
    PathLive(h, c, pl, 0) && Linked(m, pl, parts, 0) && forall p :: p in parts ==> 0 !in p
  }

  /** It stays that while the heap only grows. */
  lemma ListGrown(h: Heap, m: seq<byte>, c: Chunks, m2: seq<byte>, c2: Chunks, pl: PathList, parts: seq<seq<byte>>)
    requires Grows(h, m, c, m2, c2) && ListIn(h, m, c, pl, parts)
    ensures ListIn(h, m2, c2, pl, parts)
  {
    hide Grows;
    hide PathLive;
    hide Linked;
    GrowList(h, m, c, m2, c2, pl, parts);
  }

  /** The string of a node, as it is compared, and the next node. */
  method ReadPart(h: Heap, node: word, ghost pl: PathList, ghost parts: seq<seq<byte>>, ghost i: nat) returns (name: seq<byte>, next: word)
    requires h.Valid() && ListIn(h, h.mem[..], h.chunks, pl, parts) && i < |parts| && node == pl.nodes[i]
    ensures name == parts[i] && |pl.nodes| == |parts| && next == NextNode(pl.nodes, i) && (next == 0 <==> i + 1 == |parts|)
  {
    hide Live;
    hide WordAt;
    hide CString;
    hide HeapSpec.Encodes;
    ghost var m := h.mem[..];
    PartAt(h, m, h.chunks, pl, parts, i);
    assert NodeAt(m, pl.nodes[i], pl.strs[i], parts[i], NextNode(pl.nodes, i));
    assert 0 !in parts[i];
    next := Load32(h.mem, node as int + 4);
    var str := Load32(h.mem, node);
    name := ReadString(h.mem, str, parts[i]);
  }

  method ReadString(mem: array<byte>, a: word, ghost s: seq<byte>) returns (r: seq<byte>)
    requires CString(mem[..], a, s) && 0 !in s
    ensures r == s
  {
    ghost var m := mem[..];
    r := [];
    while mem[a as int + |r|] != 0
      invariant |r| <= |s| && r == s[..|r|]
      decreases |s| - |r|
    {
      StringByte(m, a, s, |r|);
      r := r + [mem[a as int + |r|]];
    }
    StringByte(m, a, s, |r|);
  }

  lemma StringByte(m: seq<byte>, a: word, s: seq<byte>, i: nat)
    requires CString(m, a, s) && 0 !in s && i <= |s|
    ensures m[a as int + i] == if i < |s| then s[i] else 0
    ensures i < |s| ==> s[i] != 0
  {
    if i < |s| {
      assert m[a..a + |s|][i] == s[i];
      assert s[i] in s;
    }
  }
}
