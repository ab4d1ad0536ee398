/** fat16_read: element-wise reads of a file through its chain. */
module FileReads {
  import opened Words
  import opened Division
  import opened Volumes
  import opened ClusterReads

  /** How many elements were read, and their bytes. */
  datatype Elements = Elements(count: nat, bytes: seq<byte>)

  /** Element after element from offset on, until nmemb are read, the file is short of one more, or a read fails. */
  function ReadElements(vol: Volume, c: int, filesize: nat, offset: nat, size: nat, nmemb: nat, keep: bool): (r: Elements)
    requires vol.spc > 0 && offset <= filesize
    ensures r.count <= nmemb && |r.bytes| == Times(r.count, size) && offset + |r.bytes| <= filesize
    decreases nmemb
  {
    if nmemb == 0 || size > filesize - offset then Elements(0, [])
    else match ReadSpec(vol, c, offset, size, keep)
      case Failed => Elements(0, [])
      case Data(bytes) =>
        var rest := ReadElements(vol, c, filesize, offset + size, size, nmemb - 1, keep);
        TimesLeft(rest.count, size);
        Elements(rest.count + 1, bytes + rest.bytes)
  }

  lemma TimesLeft(n: nat, b: nat)
    ensures Times(n + 1, b) == b + Times(n, b) && Times(0, b) == 0
  {
  }

  /** The first element, and then the rest: what one round of the loop adds. */
  lemma ReadElementsStep(vol: Volume, c: int, filesize: nat, offset: nat, size: nat, nmemb: nat, keep: bool)
    requires vol.spc > 0 && offset <= filesize
    ensures var r := ReadElements(vol, c, filesize, offset, size, nmemb, keep);
      if nmemb == 0 || size > filesize - offset || ReadSpec(vol, c, offset, size, keep).Failed? then r == Elements(0, [])
      else var rest := ReadElements(vol, c, filesize, offset + size, size, nmemb - 1, keep);
           r == Elements(rest.count + 1, ReadSpec(vol, c, offset, size, keep).bytes + rest.bytes)
  {
    hide ReadSpec;
  }

  /** Elements the code as written reads right. */
  ghost predicate AllStraight(offset: nat, size: nat, count: nat, b: nat)
    requires b > 0 && size > 0
  {
    forall e {:trigger Times(e, size)} :: 0 <= e < count ==> Straight(offset + Times(e, size), size, b)
  }

  /** How many whole elements the file still has, capped by the request. */
  function Wanted(filesize: nat, offset: nat, size: nat, nmemb: nat): nat
    requires size > 0 && offset <= filesize
  {
    var whole := Quot(filesize - offset, size);
    if nmemb < whole then nmemb else whole
  }

  /** On a chain that holds the file, fat16_read delivers every whole element asked for and left in the file,
      byte for byte: always when repaired, and as written when every element is straight. */
  lemma ReadElementsExact(vol: Volume, c: int, n: nat, filesize: nat, offset: nat, size: nat, nmemb: nat, keep: bool)
    requires vol.spc > 0 && HasChain(vol, c, n) && filesize <= n * vol.Bpc() && offset <= filesize && size > 0
    requires keep || AllStraight(offset, size, Wanted(filesize, offset, size, nmemb), vol.Bpc())
    ensures |ChainBytes(vol, c, n)| == n * vol.Bpc()
    ensures var r := ReadElements(vol, c, filesize, offset, size, nmemb, keep);
      && r.count == (if nmemb < (filesize - offset) / size then nmemb else (filesize - offset) / size)
      && offset + r.count * size <= filesize && r.bytes == ChainBytes(vol, c, n)[offset..offset + r.count * size]
  {
    hide ReadElements;
    hide ChainBytes;
    hide Walk;
    hide Times;
    hide Quot;
    hide AllStraight;
    TimesIsProduct(n, vol.Bpc());
    QuotIsDivision(filesize - offset, size);
    ReadElementsSlice(vol, c, n, filesize, offset, size, nmemb, keep);
    TimesIsProduct(ReadElements(vol, c, filesize, offset, size, nmemb, keep).count, size);
  }

  /** As written that is so whenever the element size divides the cluster size and the position is a multiple of it. */
  lemma AlignedReads(vol: Volume, c: int, n: nat, filesize: nat, offset: nat, size: nat, nmemb: nat)
    requires vol.spc > 0 && HasChain(vol, c, n) && filesize <= n * vol.Bpc() && offset <= filesize && size > 0
    requires vol.Bpc() % size == 0 && offset % size == 0
    ensures |ChainBytes(vol, c, n)| == n * vol.Bpc()
    ensures var r := ReadElements(vol, c, filesize, offset, size, nmemb, false);
      && r.count == (if nmemb < (filesize - offset) / size then nmemb else (filesize - offset) / size)
      && offset + r.count * size <= filesize && r.bytes == ChainBytes(vol, c, n)[offset..offset + r.count * size]
  {
    hide ReadElements;
    hide ChainBytes;
    hide Walk;
    hide Times;
    hide Quot;
    hide Rem;
    hide AllStraight;
    var b := vol.Bpc();
    Multiple(b, size);
    Multiple(offset, size);
    if Quot(b, size) == 0 {
      TimesLeft(0, size);
    }
    AlignedElementsStraight(Quot(offset, size), size, Wanted(filesize, offset, size, nmemb), Quot(b, size));
    ReadElementsExact(vol, c, n, filesize, offset, size, nmemb, false);
  }

  lemma Multiple(x: nat, size: nat)
    requires size > 0 && x % size == 0
    ensures x == Times(Quot(x, size), size)
  {
    hide Times;
    hide Quot;
    hide Rem;
    QuotIsDivision(x, size);
    Decompose(x, size);
  }

  lemma {:induction false} ReadElementsSlice(vol: Volume, c: int, n: nat, filesize: nat, offset: nat, size: nat, nmemb: nat, keep: bool)
    requires vol.spc > 0 && HasChain(vol, c, n) && filesize <= Times(n, vol.Bpc()) && offset <= filesize && size > 0
    requires keep || AllStraight(offset, size, Wanted(filesize, offset, size, nmemb), vol.Bpc())
    ensures |ChainBytes(vol, c, n)| == Times(n, vol.Bpc())
    ensures var r := ReadElements(vol, c, filesize, offset, size, nmemb, keep);
      r.count == Wanted(filesize, offset, size, nmemb) && r.bytes == ChainBytes(vol, c, n)[offset..offset + |r.bytes|]
    decreases nmemb
  {
    hide Walk;
    hide ChainBytes;
    hide ReadSpec;
    hide ReadElements;
    hide Wanted;
    hide AllStraight;
    hide Times;
    hide Quot;
    hide Rem;
    ChainBytesAt(vol, c, n, 0);
    WantedStep(filesize, offset, size, nmemb);
    ReadElementsStep(vol, c, filesize, offset, size, nmemb, keep);
    if nmemb > 0 && size <= filesize - offset {
      var want := Wanted(filesize, offset, size, nmemb);
      ElementExact(vol, c, n, offset, size, want, keep);
      ReadElementsSlice(vol, c, n, filesize, offset + size, size, nmemb - 1, keep);
      var all, rest := ChainBytes(vol, c, n), ReadElements(vol, c, filesize, offset + size, size, nmemb - 1, keep);
      JoinSlices(all, offset, offset + size, offset + size + |rest.bytes|);
    }
  }

  /** Element e of a read as written arrives, every byte of it from the cluster that holds it in the file. */
  ghost predicate ElementRight(vol: Volume, c: int, offset: nat, size: nat)
    requires vol.spc > 0
  {
    ReadSpec(vol, c, offset, size, false).Data? && forall i :: 0 <= i < size ==> FromOwnCluster(vol, c, offset, i)
  }

  ghost predicate AllRight(vol: Volume, c: int, offset: nat, size: nat, count: nat)
    requires vol.spc > 0
  {
    forall e {:trigger Times(e, size)} :: 0 <= e < count ==> ElementRight(vol, c, offset + Times(e, size), size)
  }

  /** Straight elements are all the code as written gets right: the full count is returned, with every byte taken
      from the cluster that holds it, if and only if every element is straight. */
  lemma ReadElementsRight(vol: Volume, c: int, n: nat, filesize: nat, offset: nat, size: nat, nmemb: nat)
    requires vol.spc > 0 && HasChain(vol, c, n) && Walk(vol, c, n).Lost? && filesize <= n * vol.Bpc()
    requires offset <= filesize && size > 0
    ensures var want := Wanted(filesize, offset, size, nmemb);
      (ReadElements(vol, c, filesize, offset, size, nmemb, false).count == want && AllRight(vol, c, offset, size, want))
      <==> AllStraight(offset, size, want, vol.Bpc())
  {
    hide Walk;
    hide ChainBytes;
    hide ReadSpec;
    hide ReadElements;
    hide Wanted;
    hide Straight;
    hide FromOwnCluster;
    hide Times;
    hide ElementRight;
    var want := Wanted(filesize, offset, size, nmemb);
    TimesIsProduct(n, vol.Bpc());
    forall e {:trigger Times(e, size)} | 0 <= e < want
      ensures ElementRight(vol, c, offset + Times(e, size), size) <==> Straight(offset + Times(e, size), size, vol.Bpc())
    {
      ElementFits(filesize, offset, size, nmemb, e);
      ElementStraight(vol, c, n, offset + Times(e, size), size);
    }
    assert AllRight(vol, c, offset, size, want) <==> AllStraight(offset, size, want, vol.Bpc());
    if AllStraight(offset, size, want, vol.Bpc()) {
      ReadElementsSlice(vol, c, n, filesize, offset, size, nmemb, false);
    }
  }

  lemma ElementStraight(vol: Volume, c: int, n: nat, offset: nat, size: nat)
    requires vol.spc > 0 && HasChain(vol, c, n) && Walk(vol, c, n).Lost? && size > 0 && offset + size <= n * vol.Bpc()
    ensures ElementRight(vol, c, offset, size) <==> Straight(offset, size, vol.Bpc())
  {
    hide Walk;
    hide ReadSpec;
    hide Straight;
    hide FromOwnCluster;
    hide FromVisited;
    WrittenRight(vol, c, n, offset, size);
  }

  lemma ElementFits(filesize: nat, offset: nat, size: nat, nmemb: nat, e: nat)
    requires offset <= filesize && size > 0 && e < Wanted(filesize, offset, size, nmemb)
    ensures offset + Times(e, size) + size <= filesize
  {
    Decompose(filesize - offset, size);
    TimesMono(e + 1, Quot(filesize - offset, size), size);
  }

  lemma JoinSlices(s: seq<byte>, i: nat, j: nat, k: nat)
    requires i <= j <= k <= |s|
    ensures s[i..j] + s[j..k] == s[i..k]
  {
  }

  lemma WantedStep(filesize: nat, offset: nat, size: nat, nmemb: nat)
    requires size > 0 && offset <= filesize
    ensures Wanted(filesize, offset, size, nmemb) ==
      if nmemb == 0 || size > filesize - offset then 0 else 1 + Wanted(filesize, offset + size, size, nmemb - 1)
  {
  }

  lemma ElementExact(vol: Volume, c: int, n: nat, offset: nat, size: nat, want: nat, keep: bool)
    requires vol.spc > 0 && HasChain(vol, c, n) && offset + size <= Times(n, vol.Bpc()) && size > 0 && want > 0
    requires keep || AllStraight(offset, size, want, vol.Bpc())
    ensures |ChainBytes(vol, c, n)| == Times(n, vol.Bpc())
    ensures ReadSpec(vol, c, offset, size, keep) == Data(ChainBytes(vol, c, n)[offset..offset + size])
    ensures keep || AllStraight(offset + size, size, want - 1, vol.Bpc())
  {
    hide Walk;
    hide ChainBytes;
    hide ReadSpec;
    hide Straight;
    if keep {
      RepairedSlice(vol, c, n, offset, size);
    } else {
      assert Times(0, size) == 0 && Straight(offset + Times(0, size), size, vol.Bpc());
      WrittenStraight(vol, c, n, offset, size);
      StraightTail(offset, size, want, vol.Bpc());
    }
  }

  lemma StraightTail(offset: nat, size: nat, count: nat, b: nat)
    requires b > 0 && size > 0 && count > 0 && AllStraight(offset, size, count, b)
    ensures AllStraight(offset + size, size, count - 1, b)
  {
    hide Straight;
    forall e | 0 <= e < count - 1 ensures Straight(offset + size + Times(e, size), size, b) {
      TimesLeft(e, size);
      assert Straight(offset + Times(e + 1, size), size, b);
      assert offset + Times(e + 1, size) == offset + size + Times(e, size);
    }
  }

  /** Elements whose size divides the cluster size, read from a multiple of that size, are all straight. */
  lemma AlignedElementsStraight(at: nat, size: nat, count: nat, perCluster: nat)
    requires size > 0 && perCluster > 0
    ensures Times(perCluster, size) > 0 && AllStraight(Times(at, size), size, count, Times(perCluster, size))
  {
    hide Straight;
    var b := Times(perCluster, size);
    TimesMono(1, perCluster, size);
    assert Times(1, size) == size by { TimesLeft(0, size); }
    forall e | 0 <= e < count ensures Straight(Times(at, size) + Times(e, size), size, b) {
      TimesSum(at, e, size);
      AlignedElementStraight(at + e, size, perCluster);
    }
  }

  lemma {:induction false} TimesSum(j: nat, k: nat, b: nat)
    ensures Times(j + k, b) == Times(j, b) + Times(k, b)
  {
    if k > 0 {
      TimesSum(j, k - 1, b);
    }
  }

  lemma AlignedElementStraight(j: nat, size: nat, perCluster: nat)
    requires size > 0 && perCluster > 0 && Times(perCluster, size) > 0
    ensures Straight(Times(j, size), size, Times(perCluster, size))
  {
    hide Quot;
    hide Rem;
    var b := Times(perCluster, size);
    AlignedRest(j, size, perCluster);
    TimesMono(Rem(j, perCluster) + 1, perCluster, size);
    SameQuot(Times(j, size), size - 1, b);
    QuotIsDivision(Times(j, size), b);
    QuotIsDivision(Times(j, size) + size - 1, b);
  }

  /** The rest of a multiple of size in a cluster of perCluster elements is again a multiple. */
  lemma {:induction false} AlignedRest(j: nat, size: nat, perCluster: nat)
    requires size > 0 && perCluster > 0 && Times(perCluster, size) > 0
    ensures Rem(Times(j, size), Times(perCluster, size)) == Times(Rem(j, perCluster), size)
  {
    if j < perCluster {
      TimesMono(j + 1, perCluster, size);
    } else {
      TimesMono(perCluster, j, size);
      TimesSum(j - perCluster, perCluster, size);
      AlignedRest(j - perCluster, size, perCluster);
    }
  }

  // ---- the loop of fat16_read ----

  /** Part of a read done: read elements with bytes sofar, left still allowed, the next one at offset. */
  ghost predicate Progress(vol: Volume, c: int, filesize: nat, pos: nat, size: nat, nmemb: nat, keep: bool,
                           read: nat, offset: int, left: nat, sofar: seq<byte>)
    requires vol.spc > 0 && pos <= filesize && size > 0
  {
    && pos <= offset <= filesize && |sofar| == offset - pos == Times(read, size)
    && Wanted(filesize, pos, size, nmemb) == read + Wanted(filesize, offset, size, left)
    && var r, whole := ReadElements(vol, c, filesize, offset, size, left, keep), ReadElements(vol, c, filesize, pos, size, nmemb, keep);
       whole.count == read + r.count && whole.bytes == sofar + r.bytes
  }

  lemma ProgressStart(vol: Volume, c: int, filesize: nat, pos: nat, size: nat, nmemb: nat, keep: bool)
    requires vol.spc > 0 && pos <= filesize && size > 0
    ensures Progress(vol, c, filesize, pos, size, nmemb, keep, 0, pos, nmemb, [])
  {
    hide ReadElements;
    hide Wanted;
    TimesLeft(0, size);
  }

  /** If the next element does not fit or fails, or none is left, the read is done. */
  lemma ProgressEnd(vol: Volume, c: int, filesize: nat, pos: nat, size: nat, nmemb: nat, keep: bool,
                    read: nat, offset: nat, left: nat, sofar: seq<byte>)
    requires vol.spc > 0 && pos <= filesize && size > 0
    requires Progress(vol, c, filesize, pos, size, nmemb, keep, read, offset, left, sofar)
    requires left == 0 || size > filesize - offset || ReadSpec(vol, c, offset, size, keep).Failed?
    ensures ReadElements(vol, c, filesize, pos, size, nmemb, keep) == Elements(read, sofar)
  {
    hide ReadSpec;
    hide Wanted;
    hide Times;
    assert sofar + [] == sofar;
  }

  /** Otherwise it fits the buffer, and one more element is done. */
  lemma ProgressStep(vol: Volume, c: int, filesize: nat, pos: nat, size: nat, nmemb: nat, keep: bool,
                     read: nat, offset: nat, left: nat, sofar: seq<byte>)
    requires vol.spc > 0 && pos <= filesize && size > 0
    requires Progress(vol, c, filesize, pos, size, nmemb, keep, read, offset, left, sofar)
    requires left > 0 && size <= filesize - offset
    ensures offset - pos + size <= Times(Wanted(filesize, pos, size, nmemb), size)
    ensures ReadSpec(vol, c, offset, size, keep).Data? ==>
      Progress(vol, c, filesize, pos, size, nmemb, keep, read + 1, offset + size, left - 1, sofar + ReadSpec(vol, c, offset, size, keep).bytes)
  {
    hide ReadSpec;
    hide ReadElements;
    hide Wanted;
    hide Times;
    ReadElementsStep(vol, c, filesize, offset, size, left, keep);
    WantedStep(filesize, offset, size, left);
    TimesMono(read + 1, Wanted(filesize, pos, size, nmemb), size);
    TimesLeft(read, size);
  }
}
