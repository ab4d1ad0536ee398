/** fat16_read_internal: reading across cluster boundaries, as written and with the restart repaired. */
module ClusterReads {
  import opened Words
  import opened Streams
  import opened Volumes
  import opened Division

  datatype Outcome = Failed | Data(bytes: seq<byte>)

  /** The bytes of one piece: what is left of the cluster, or of the request. */
  function PieceSize(vol: Volume, offset: nat, total: nat): (n: nat)
    requires vol.spc > 0
    ensures n <= total && (total > 0 ==> n > 0)
  {
    var left := vol.Bpc() - Rem(offset, vol.Bpc());
    if total > left then left else total
  }

  /** Piece by piece, walking from a starting cluster to the absolute offset each time. As written the walk
      restarts from the cluster just read; repaired (keep) it restarts from the file's first cluster. */
  function ReadSpec(vol: Volume, c: int, offset: nat, total: nat, keep: bool): (r: Outcome)
    requires vol.spc > 0
    ensures r.Data? ==> |r.bytes| == total
    decreases total
  {
    match Walk(vol, c, Quot(offset, vol.Bpc()))
    case Lost => Failed
    case At(x) =>
      var n := PieceSize(vol, offset, total);
      var piece := Slice(vol.disk, vol.Address(x) + Rem(offset, vol.Bpc()), n);
      if total > n then
        match ReadSpec(vol, if keep then c else x, offset + n, total - n, keep)
        case Failed => Failed
        case Data(rest) => Data(piece + rest)
      else Data(piece)
  }

  lemma PieceFacts(vol: Volume, offset: nat, total: nat, i: nat)
    requires vol.spc > 0 && total > 0
    ensures var n, b := PieceSize(vol, offset, total), vol.Bpc();
      && (i < n ==> Quot(offset + i, b) == Quot(offset, b) && Rem(offset + i, b) == Rem(offset, b) + i)
      && (total > n ==> Quot(offset + n, b) == Quot(offset, b) + 1)
      && (total == n ==> Quot(offset + total - 1, b) == Quot(offset, b))
      && Quot(offset, b) <= Quot(offset + total - 1, b)
  {
    hide Quot;
    hide Rem;
    var n, b := PieceSize(vol, offset, total), vol.Bpc();
    if i < n {
      SameQuot(offset, i, b);
    }
    SameQuot(offset, n - 1, b);
    NextQuot(offset, b);
    QuotMono(offset, offset + total - 1, b);
  }

  // ---- repaired ----

  /** Every byte of the outcome is the file's byte at its position. */
  ghost predicate Faithful(vol: Volume, c: int, offset: nat, bytes: seq<byte>)
    requires vol.spc > 0
  {
    forall i {:trigger bytes[i]} :: 0 <= i < |bytes| ==> IsFileByte(vol, c, offset + i, bytes[i])
  }

  lemma PieceFaithful(vol: Volume, c: int, offset: nat, total: nat)
    requires vol.spc > 0 && total > 0 && Walk(vol, c, Quot(offset, vol.Bpc())).At?
    ensures var n, x := PieceSize(vol, offset, total), Walk(vol, c, Quot(offset, vol.Bpc())).cluster;
      Faithful(vol, c, offset, Slice(vol.disk, vol.Address(x) + Rem(offset, vol.Bpc()), n))
  {
    hide Quot;
    hide Rem;
    hide Walk;
    var n, x := PieceSize(vol, offset, total), Walk(vol, c, Quot(offset, vol.Bpc())).cluster;
    var piece := Slice(vol.disk, vol.Address(x) + Rem(offset, vol.Bpc()), n);
    forall i | 0 <= i < n ensures IsFileByte(vol, c, offset + i, piece[i]) {
      PieceFacts(vol, offset, total, i);
    }
  }

  lemma FaithfulAppend(vol: Volume, c: int, offset: nat, a: seq<byte>, b: seq<byte>)
    requires vol.spc > 0 && Faithful(vol, c, offset, a) && Faithful(vol, c, offset + |a|, b)
    ensures Faithful(vol, c, offset, a + b)
  {
    hide IsFileByte;
    forall i | 0 <= i < |a + b| ensures IsFileByte(vol, c, offset + i, (a + b)[i]) {
      if i >= |a| {
        var j := i - |a|;
        assert IsFileByte(vol, c, offset + |a| + j, b[j]);
        assert offset + |a| + j == offset + i;
      }
    }
  }

  /** The repaired read succeeds exactly if the chain reaches the last byte asked for, and delivers the file's bytes. */
  lemma {:induction false} RepairedReads(vol: Volume, c: int, offset: nat, total: nat)
    requires vol.spc > 0 && total > 0
    ensures ReadSpec(vol, c, offset, total, true).Data? <==> Walk(vol, c, Quot(offset + total - 1, vol.Bpc())).At?
    ensures ReadSpec(vol, c, offset, total, true).Data? ==>
      |ReadSpec(vol, c, offset, total, true).bytes| == total && Faithful(vol, c, offset, ReadSpec(vol, c, offset, total, true).bytes)
    decreases total
  {
    hide Quot;
    hide Rem;
    hide Walk;
    hide Faithful;
    hide IsFileByte;
    var b, n := vol.Bpc(), PieceSize(vol, offset, total);
    PieceFacts(vol, offset, total, 0);
    if Walk(vol, c, Quot(offset + total - 1, b)).At? {
      WalkPrefix(vol, c, Quot(offset, b), Quot(offset + total - 1, b));
    }
    if Walk(vol, c, Quot(offset, b)).At? {
      PieceFaithful(vol, c, offset, total);
      if total > n {
        RepairedReads(vol, c, offset + n, total - n);
        var rest := ReadSpec(vol, c, offset + n, total - n, true);
        if rest.Data? {
          var x := Walk(vol, c, Quot(offset, b)).cluster;
          FaithfulAppend(vol, c, offset, Slice(vol.disk, vol.Address(x) + Rem(offset, b), n), rest.bytes);
        }
      }
    }
  }

  /** Faithful bytes are a slice of the clusters laid end to end. */
  lemma FaithfulIsSlice(vol: Volume, c: int, n: nat, offset: nat, bytes: seq<byte>)
    requires vol.spc > 0 && HasChain(vol, c, n) && offset + |bytes| <= Times(n, vol.Bpc()) && Faithful(vol, c, offset, bytes)
    ensures |ChainBytes(vol, c, n)| == Times(n, vol.Bpc()) && bytes == ChainBytes(vol, c, n)[offset..offset + |bytes|]
  {
    hide Quot;
    hide Rem;
    hide Walk;
    hide ChainBytes;
    ChainBytesAt(vol, c, n, 0);
    forall i | 0 <= i < |bytes| ensures bytes[i] == ChainBytes(vol, c, n)[offset..offset + |bytes|][i] {
      ChainBytesAt(vol, c, n, offset + i);
      assert IsFileByte(vol, c, offset + i, bytes[i]);
    }
  }

  /** The repaired fat16_read_internal reads the file: bytes [offset, offset + total) of the clusters end to end. */
  lemma RepairedExact(vol: Volume, c: int, n: nat, offset: nat, total: nat)
    requires vol.spc > 0 && HasChain(vol, c, n) && total > 0 && offset + total <= n * vol.Bpc()
    ensures |ChainBytes(vol, c, n)| == n * vol.Bpc()
    ensures ReadSpec(vol, c, offset, total, true) == Data(ChainBytes(vol, c, n)[offset..offset + total])
  {
    hide ReadSpec;
    hide ChainBytes;
    hide Walk;
    hide Times;
    TimesIsProduct(n, vol.Bpc());
    RepairedSlice(vol, c, n, offset, total);
  }

  lemma RepairedSlice(vol: Volume, c: int, n: nat, offset: nat, total: nat)
    requires vol.spc > 0 && HasChain(vol, c, n) && total > 0 && offset + total <= Times(n, vol.Bpc())
    ensures |ChainBytes(vol, c, n)| == Times(n, vol.Bpc())
    ensures ReadSpec(vol, c, offset, total, true) == Data(ChainBytes(vol, c, n)[offset..offset + total])
  {
    hide Quot;
    hide Rem;
    hide Walk;
    hide Faithful;
    hide ReadSpec;
    hide ChainBytes;
    ReachesLast(vol, c, n, offset + total - 1);
    RepairedReads(vol, c, offset, total);
    FaithfulIsSlice(vol, c, n, offset, ReadSpec(vol, c, offset, total, true).bytes);
  }

  lemma ReachesLast(vol: Volume, c: int, n: nat, x: nat)
    requires vol.spc > 0 && HasChain(vol, c, n) && x < Times(n, vol.Bpc())
    ensures Quot(x, vol.Bpc()) < n && Walk(vol, c, Quot(x, vol.Bpc())).At?
  {
    hide Walk;
    var b := vol.Bpc();
    QuotMono(x, Times(n, b) - 1, b);
    Compose(n - 1, b, b - 1);
    assert Times(n, b) - 1 == Times(n - 1, b) + (b - 1);
    WalkPrefix(vol, c, Quot(x, b), n - 1);
  }

  // ---- as written ----

  /** Chain position of piece j of a read that starts k clusters on from position p: the walk of piece j
      takes k + j further links from where piece j - 1 ended. */
  function Visit(p: nat, k: nat, j: nat): nat
    decreases j
  {
    if j == 0 then p + k else Visit(p + k, k + 1, j - 1)
  }

  /** Each piece starts k + j links after the one before, ... */
  lemma {:induction false} VisitRecurrence(p: nat, k: nat, j: nat)
    requires j > 0
    ensures Visit(p, k, j) == Visit(p, k, j - 1) + k + j
    decreases j
  {
    if j > 1 {
      VisitRecurrence(p + k, k + 1, j - 1);
    } else {
      assert Visit(p + k, k + 1, 0) == p + k + (k + 1);
    }
  }

  /** ... so a read from the first cluster visits the triangular numbers j (j + 1) / 2. */
  lemma {:induction false} VisitTriangular(j: nat)
    ensures 2 * Visit(0, 0, j) == j * (j + 1)
  {
    if j > 0 {
      VisitTriangular(j - 1);
      VisitRecurrence(0, 0, j);
      assert (j - 1) * j + 2 * j == j * (j + 1);
    }
  }

  lemma VisitStep(p: nat, k: nat, j: nat)
    ensures Visit(p, k, j) == if j == 0 then p + k else Visit(p + k, k + 1, j - 1)
  {
  }

  lemma {:induction false} VisitGrows(p: nat, k: nat, j: nat)
    ensures Visit(p, k, j) >= p + k + (if j == 0 then 0 else k + j)
    decreases j
  {
    if j > 0 {
      VisitGrows(p + k, k + 1, j - 1);
    }
  }

  /** Exactly the reads that stay in one cluster, or start in the first and end in the second, visit the clusters
      of the file in order. */
  lemma VisitsInOrder(k: nat, last: nat)
    ensures (forall j :: 0 <= j <= last ==> Visit(0, k, j) == k + j) <==> last == 0 || (k == 0 && last == 1)
  {
    assert Visit(0, k, 1) == Visit(k, k + 1, 0) == k + k + 1;
    assert Visit(0, k, 2) == Visit(k, k + 1, 1) == Visit(k + k + 1, k + 2, 0) == 3 * k + 3;
    if last > 0 && (k > 0 || last > 1) {
      var j := if k > 0 then 1 else 2;
      assert j <= last && Visit(0, k, j) != k + j;
    } else {
      forall j | 0 <= j <= last ensures Visit(0, k, j) == k + j {
        assert j == 0 || j == 1;
      }
    }
  }

  function VisitPos(p: nat, k: nat, q: nat): nat {
    if q >= k then Visit(p, k, q - k) else 0
  }

  /** v is byte r of the cluster at chain position pos. */
  ghost predicate FromPosition(vol: Volume, c: int, pos: nat, r: nat, v: byte) {
    match Walk(vol, c, pos)
    case Lost => false
    case At(y) => v == vol.disk(vol.Address(y) + r)
  }

  /** Every byte comes from the cluster its piece visits. */
  ghost predicate FromVisited(vol: Volume, c: int, p: nat, k: nat, offset: nat, bytes: seq<byte>)
    requires vol.spc > 0
  {
    forall i {:trigger bytes[i]} :: 0 <= i < |bytes| ==>
      FromPosition(vol, c, VisitPos(p, k, Quot(offset + i, vol.Bpc())), Rem(offset + i, vol.Bpc()), bytes[i])
  }

  lemma PieceVisited(vol: Volume, c: int, p: nat, offset: nat, total: nat)
    requires vol.spc > 0 && total > 0 && Walk(vol, c, p + Quot(offset, vol.Bpc())).At?
    ensures var n, k, b := PieceSize(vol, offset, total), Quot(offset, vol.Bpc()), vol.Bpc();
      FromVisited(vol, c, p, k, offset, Slice(vol.disk, vol.Address(Walk(vol, c, p + k).cluster) + Rem(offset, b), n))
  {
    hide Quot;
    hide Rem;
    hide Walk;
    var n, k, b := PieceSize(vol, offset, total), Quot(offset, vol.Bpc()), vol.Bpc();
    var piece := Slice(vol.disk, vol.Address(Walk(vol, c, p + k).cluster) + Rem(offset, b), n);
    forall i | 0 <= i < n ensures FromPosition(vol, c, VisitPos(p, k, Quot(offset + i, b)), Rem(offset + i, b), piece[i]) {
      PieceFacts(vol, offset, total, i);
    }
  }

  lemma VisitedAppend(vol: Volume, c: int, p: nat, k: nat, offset: nat, x: seq<byte>, y: seq<byte>)
    requires vol.spc > 0 && FromVisited(vol, c, p, k, offset, x) && FromVisited(vol, c, p + k, k + 1, offset + |x|, y)
    requires Quot(offset + |x|, vol.Bpc()) == k + 1
    ensures FromVisited(vol, c, p, k, offset, x + y)
  {
    hide FromPosition;
    hide Quot;
    hide Rem;
    var b := vol.Bpc();
    forall i | 0 <= i < |x + y|
      ensures FromPosition(vol, c, VisitPos(p, k, Quot(offset + i, b)), Rem(offset + i, b), (x + y)[i])
    {
      if i >= |x| {
        var j := i - |x|;
        QuotMono(offset + |x|, offset + |x| + j, b);
        assert FromPosition(vol, c, VisitPos(p + k, k + 1, Quot(offset + |x| + j, b)), Rem(offset + |x| + j, b), y[j]);
        assert offset + |x| + j == offset + i;
      }
    }
  }

  /** Piece j of a read as written comes from chain position Visit(p, k, j), and the read succeeds exactly if the
      chain reaches the position of the last piece. */
  lemma {:induction false} WrittenVisits(vol: Volume, c: int, p: nat, offset: nat, total: nat)
    requires vol.spc > 0 && total > 0 && Walk(vol, c, p).At?
    ensures var x, k, last := Walk(vol, c, p).cluster, Quot(offset, vol.Bpc()), Quot(offset + total - 1, vol.Bpc());
      && k <= last
      && (ReadSpec(vol, x, offset, total, false).Data? <==> Walk(vol, c, Visit(p, k, last - k)).At?)
      && (ReadSpec(vol, x, offset, total, false).Data? ==>
          |ReadSpec(vol, x, offset, total, false).bytes| == total &&
          FromVisited(vol, c, p, k, offset, ReadSpec(vol, x, offset, total, false).bytes))
    decreases total
  {
    hide Quot;
    hide Rem;
    hide Walk;
    hide FromVisited;
    hide Visit;
    hide PieceSize;
    hide FromPosition;
    var b, n, k := vol.Bpc(), PieceSize(vol, offset, total), Quot(offset, vol.Bpc());
    var last := Quot(offset + total - 1, b);
    PieceFacts(vol, offset, total, 0);
    WalkOn(vol, c, p, k);
    VisitGrows(p, k, last - k);
    VisitStep(p, k, last - k);
    if Walk(vol, c, Visit(p, k, last - k)).At? {
      WalkPrefix(vol, c, p + k, Visit(p, k, last - k));
    }
    if Walk(vol, c, p + k).At? {
      PieceVisited(vol, c, p, offset, total);
      if total > n {
        WrittenVisits(vol, c, p + k, offset + n, total - n);
        assert offset + n + (total - n) - 1 == offset + total - 1;
        var rest := ReadSpec(vol, Walk(vol, c, p + k).cluster, offset + n, total - n, false);
        if rest.Data? {
          VisitedAppend(vol, c, p, k, offset, Slice(vol.disk, vol.Address(Walk(vol, c, p + k).cluster) + Rem(offset, b), n), rest.bytes);
        }
      }
    }
  }

  /** The reads the code as written gets right: inside one cluster, or from the first into the second. */
  predicate Straight(offset: nat, total: nat, b: nat)
    requires b > 0 && total > 0
  {
    (offset + total - 1) / b == offset / b || (offset < b && offset + total <= 2 * b)
  }

  lemma StraightIsInOrder(offset: nat, total: nat, b: nat)
    requires b > 0 && total > 0
    ensures Quot(offset, b) <= Quot(offset + total - 1, b)
    ensures var k, last := Quot(offset, b), Quot(offset + total - 1, b) - Quot(offset, b);
      Straight(offset, total, b) <==> last == 0 || (k == 0 && last == 1)
  {
    var x := offset + total - 1;
    QuotIsDivision(offset, b);
    QuotIsDivision(x, b);
    QuotMono(offset, x, b);
    assert Quot(offset, b) == 0 <==> offset < b;
    assert x >= b ==> Quot(x, b) == 1 + Quot(x - b, b);
    assert Quot(x, b) <= 1 <==> x < 2 * b;
  }

  /** As written, a straight read of any chain delivers the file's bytes. */
  lemma WrittenStraight(vol: Volume, c: int, n: nat, offset: nat, total: nat)
    requires vol.spc > 0 && HasChain(vol, c, n) && total > 0 && offset + total <= Times(n, vol.Bpc())
    requires Straight(offset, total, vol.Bpc())
    ensures ReadSpec(vol, c, offset, total, false) == ReadSpec(vol, c, offset, total, true)
    ensures |ChainBytes(vol, c, n)| == Times(n, vol.Bpc())
    ensures ReadSpec(vol, c, offset, total, false) == Data(ChainBytes(vol, c, n)[offset..offset + total])
  {
    hide Quot;
    hide Rem;
    hide Walk;
    hide FromVisited;
    hide ChainBytes;
    hide ReadSpec;
    var b := vol.Bpc();
    var k, last := Quot(offset, b), Quot(offset + total - 1, b);
    assert Walk(vol, c, 0) == At(c) by { WalkZero(vol, c); }
    StraightIsInOrder(offset, total, b);
    VisitsInOrder(k, last - k);
    WrittenVisits(vol, c, 0, offset, total);
    ReachesLast(vol, c, n, offset + total - 1);
    assert Visit(0, k, last - k) == k + (last - k);
    RepairedSlice(vol, c, n, offset, total);
    var bytes := ReadSpec(vol, c, offset, total, false).bytes;
    VisitedIsFaithful(vol, c, k, offset, bytes);
    FaithfulIsSlice(vol, c, n, offset, bytes);
  }

  lemma WalkZero(vol: Volume, c: int)
    ensures Walk(vol, c, 0) == At(c)
  {
  }

  lemma VisitedIsFaithful(vol: Volume, c: int, k: nat, offset: nat, bytes: seq<byte>)
    requires vol.spc > 0 && |bytes| > 0 && FromVisited(vol, c, 0, k, offset, bytes) && k == Quot(offset, vol.Bpc())
    requires forall j :: 0 <= j <= Quot(offset + |bytes| - 1, vol.Bpc()) - k ==> Visit(0, k, j) == k + j
    ensures Faithful(vol, c, offset, bytes)
  {
    hide Quot;
    hide Rem;
    hide Walk;
    hide Visit;
    var b := vol.Bpc();
    forall i | 0 <= i < |bytes| ensures IsFileByte(vol, c, offset + i, bytes[i]) {
      QuotMono(offset, offset + i, b);
      QuotMono(offset + i, offset + |bytes| - 1, b);
      assert FromPosition(vol, c, VisitPos(0, k, Quot(offset + i, b)), Rem(offset + i, b), bytes[i]);
      assert Visit(0, k, Quot(offset + i, b) - k) == k + (Quot(offset + i, b) - k);
    }
  }

  /** Exactly: a read that ends in the last cluster of a chain of n clusters (as a read to the end of a file does)
      succeeds as written if and only if it stays in one cluster, or starts in the first and ends in the second,
      and then delivers the file's bytes. */
  lemma WrittenExact(vol: Volume, c: int, n: nat, offset: nat, total: nat)
    requires vol.spc > 0 && HasChain(vol, c, n) && Walk(vol, c, n).Lost? && total > 0
    requires (n - 1) * vol.Bpc() < offset + total <= n * vol.Bpc()
    ensures |ChainBytes(vol, c, n)| == n * vol.Bpc()
    ensures ReadSpec(vol, c, offset, total, false) ==
      if (offset + total - 1) / vol.Bpc() == offset / vol.Bpc() || (offset < vol.Bpc() && offset + total <= 2 * vol.Bpc())
      then Data(ChainBytes(vol, c, n)[offset..offset + total]) else Failed
  {
    hide ReadSpec;
    hide ChainBytes;
    hide Walk;
    hide Times;
    TimesIsProduct(n, vol.Bpc());
    TimesIsProduct(n - 1, vol.Bpc());
    WrittenAtEnd(vol, c, n, offset, total);
  }

  lemma WrittenAtEnd(vol: Volume, c: int, n: nat, offset: nat, total: nat)
    requires vol.spc > 0 && HasChain(vol, c, n) && Walk(vol, c, n).Lost? && total > 0
    requires Times(n - 1, vol.Bpc()) < offset + total <= Times(n, vol.Bpc())
    ensures |ChainBytes(vol, c, n)| == Times(n, vol.Bpc())
    ensures Straight(offset, total, vol.Bpc()) <==>
      ReadSpec(vol, c, offset, total, false) == Data(ChainBytes(vol, c, n)[offset..offset + total])
    ensures !Straight(offset, total, vol.Bpc()) ==> ReadSpec(vol, c, offset, total, false) == Failed
  {
    hide Quot;
    hide Rem;
    hide Walk;
    hide FromVisited;
    hide ChainBytes;
    hide ReadSpec;
    hide Straight;
    var b := vol.Bpc();
    var k, last := Quot(offset, b), Quot(offset + total - 1, b);
    ChainBytesAt(vol, c, n, 0);
    if Straight(offset, total, b) {
      WrittenStraight(vol, c, n, offset, total);
    } else {
      WalkZero(vol, c);
      StraightIsInOrder(offset, total, b);
      WrittenVisits(vol, c, 0, offset, total);
      LastQuot(vol, n, offset + total - 1);
      VisitGrows(k, k + 1, last - k - 1);
      if Walk(vol, c, Visit(0, k, last - k)).At? {
        WalkPrefix(vol, c, n, Visit(0, k, last - k));
      }
    }
  }

  lemma LastQuot(vol: Volume, n: nat, x: nat)
    requires vol.spc > 0 && n > 0 && Times(n - 1, vol.Bpc()) <= x < Times(n, vol.Bpc())
    ensures Quot(x, vol.Bpc()) == n - 1
  {
    Compose(n - 1, vol.Bpc(), x - Times(n - 1, vol.Bpc()));
  }

  /** A read of the beginning of a file is straight if it ends in the first two clusters. */
  lemma StraightFromStart(total: nat, b: nat)
    requires b > 0 && total > 0
    ensures Straight(0, total, b) <==> total <= 2 * b
  {
    QuotIsDivision(0, b);
    QuotIsDivision(total - 1, b);
  }

  /** A read from the beginning of a file succeeds if the chain reaches the position its last piece visits. */
  lemma WrittenFromStart(vol: Volume, c: int, total: nat)
    requires vol.spc > 0 && total > 0
    ensures ReadSpec(vol, c, 0, total, false).Data? <==> Walk(vol, c, Visit(0, 0, Quot(total - 1, vol.Bpc()))).At?
  {
    hide Walk;
    hide Visit;
    hide ReadSpec;
    hide FromVisited;
    WalkZero(vol, c);
    WrittenVisits(vol, c, 0, 0, total);
  }

  // ---- the clusters bytes come from ----

  /** Byte i of a read as written comes from the cluster that holds it in the file. */
  ghost predicate FromOwnCluster(vol: Volume, c: int, offset: nat, i: nat)
    requires vol.spc > 0
  {
    Walk(vol, c, VisitPos(0, Quot(offset, vol.Bpc()), Quot(offset + i, vol.Bpc()))) == Walk(vol, c, Quot(offset + i, vol.Bpc()))
  }

  /** A chain that ends visits no cluster twice. */
  lemma NoLoop(vol: Volume, c: int, n: nat, p: nat, q: nat)
    requires HasChain(vol, c, n) && Walk(vol, c, n).Lost? && p < n && p != q
    ensures Walk(vol, c, p).At? && Walk(vol, c, q) != Walk(vol, c, p)
  {
    hide Walk;
    WalkPrefix(vol, c, p, n - 1);
    if q < n {
      WalkPrefix(vol, c, q, n - 1);
      var lo, hi := if p < q then p else q, if p < q then q else p;
      if Walk(vol, c, q) == Walk(vol, c, p) {
        WalkOn(vol, c, lo, n - hi);
        WalkOn(vol, c, hi, n - hi);
        WalkPrefix(vol, c, lo + (n - hi), n - 1);
      }
    } else if Walk(vol, c, q).At? {
      WalkPrefix(vol, c, n, q);
    }
  }

  /** For any read inside a chain of n clusters: as written it delivers, each byte from the visited cluster, and all
      of them from the clusters that hold them, if and only if it is straight. */
  lemma WrittenRight(vol: Volume, c: int, n: nat, offset: nat, total: nat)
    requires vol.spc > 0 && HasChain(vol, c, n) && Walk(vol, c, n).Lost? && total > 0 && offset + total <= n * vol.Bpc()
    ensures var r := ReadSpec(vol, c, offset, total, false);
      && (r.Data? ==> FromVisited(vol, c, 0, Quot(offset, vol.Bpc()), offset, r.bytes))
      && (r.Data? && (forall i :: 0 <= i < total ==> FromOwnCluster(vol, c, offset, i)) <==> Straight(offset, total, vol.Bpc()))
  {
    hide Quot;
    hide Times;
    hide Walk;
    hide Visit;
    hide ReadSpec;
    hide ChainBytes;
    hide FromVisited;
    hide Straight;
    var b := vol.Bpc();
    var k, last := Quot(offset, b), Quot(offset + total - 1, b);
    TimesIsProduct(n, b);
    WalkZero(vol, c);
    WrittenVisits(vol, c, 0, offset, total);
    StraightIsInOrder(offset, total, b);
    VisitsInOrder(k, last - k);
    if Straight(offset, total, b) {
      WrittenStraight(vol, c, n, offset, total);
      forall i | 0 <= i < total ensures FromOwnCluster(vol, c, offset, i) {
        QuotMono(offset, offset + i, b);
        QuotMono(offset + i, offset + total - 1, b);
        assert Visit(0, k, Quot(offset + i, b) - k) == Quot(offset + i, b);
      }
    } else {
      var j :| 0 <= j <= last - k && Visit(0, k, j) != k + j;
      var i := FirstOf(offset, total, b, k + j);
      ReachesLast(vol, c, n, offset + total - 1);
      NoLoop(vol, c, n, k + j, Visit(0, k, j));
      assert !FromOwnCluster(vol, c, offset, i);
    }
  }

  /** A byte of the read in each cluster it spans. */
  lemma FirstOf(offset: nat, total: nat, b: nat, q: nat) returns (i: nat)
    requires b > 0 && total > 0 && Quot(offset, b) <= q <= Quot(offset + total - 1, b)
    ensures i < total && Quot(offset + i, b) == q
  {
    hide Quot;
    hide Rem;
    if q == Quot(offset, b) {
      return 0;
    }
    Compose(q, b, 0);
    if Times(q, b) <= offset {
      QuotMono(Times(q, b), offset, b);
    }
    if Times(q, b) > offset + total - 1 {
      Decompose(offset + total - 1, b);
      TimesMono(q, Quot(offset + total - 1, b), b);
    }
    i := Times(q, b) - offset;
  }
}
