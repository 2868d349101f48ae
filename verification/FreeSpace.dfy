/** From the cluster bitmap to the list of free clusters, and from there to blocks of
    consecutive free clusters. */
module FreeSpace {
  import opened Machine
  import opened Files

  // ----- The bitmap

  function Pow2(n: nat): (p: nat)
    ensures p > 0
  {
    if n == 0 then 1 else 2 * Pow2(n - 1)
  }

  /** Bit k of the bitmap is zero.  Each byte counts from its least significant bit. */
  predicate IsFree(status: seq<byte>, k: nat)
    requires k < 8 * |status|
  {
    status[k / 8] / Pow2(k % 8) % 2 == 0
  }

  /** The positions, counted from 1, of the zero bits among the first n. */
  function FreePositions(status: seq<byte>, n: nat): seq<nat>
    requires n <= 8 * |status|
  {
    if n == 0 then []
    else FreePositions(status, n - 1) + if IsFree(status, n - 1) then [n] else []
  }

  /** Masks the bits of each byte in turn; masking with a power of two tests one bit. */
  method GetUnallocatedClusters(status: seq<byte>) returns (clusters: seq<nat>)
    ensures clusters == FreePositions(status, 8 * |status|)
  {
    clusters := [];
    var pos := 1;
    for i := 0 to |status|
      invariant pos == 8 * i + 1
      invariant clusters == FreePositions(status, 8 * i)
    {
      var bitmask, shifter := 1, 0;
      while bitmask < 128
        invariant shifter <= 8 && bitmask == (if shifter == 0 then 1 else Pow2(shifter - 1))
        invariant pos == 8 * i + shifter + 1
        invariant clusters == FreePositions(status, 8 * i + shifter)
        decreases 8 - shifter
      {
        PowersUpTo128(shifter);
        bitmask := Pow2(shifter);
        assert (8 * i + shifter) / 8 == i && (8 * i + shifter) % 8 == shifter;
        if status[i] / bitmask % 2 == 0 {
          clusters := clusters + [pos];
        }
        pos := pos + 1;
        shifter := shifter + 1;
      }
      PowersUpTo128(shifter);
    }
  }

  lemma PowersOfTwo()
    ensures Pow2(0) == 1 && Pow2(1) == 2 && Pow2(2) == 4 && Pow2(3) == 8
    ensures Pow2(4) == 16 && Pow2(5) == 32 && Pow2(6) == 64 && Pow2(7) == 128 && Pow2(8) == 256
  {
    assert Pow2(4) == 16;
  }

  lemma PowersUpTo128(n: nat)
    requires n <= 8
    ensures n > 0 ==> (Pow2(n - 1) >= 128 <==> n == 8)
    ensures Pow2(n) <= 256
  {
    PowersOfTwo();
    assert n == 0 || n == 1 || n == 2 || n == 3 || n == 4 || n == 5 || n == 6 || n == 7 || n == 8;
  }

  predicate Ascending(u: seq<nat>) {
    forall i, j :: 0 <= i < j < |u| ==> u[i] < u[j]
  }

  /** The list is strictly increasing and names exactly the zero bits. */
  lemma {:induction false} FreePositionsAreExact(status: seq<byte>, n: nat)
    requires n <= 8 * |status|
    ensures Ascending(FreePositions(status, n))
    ensures forall p :: p in FreePositions(status, n) <==> 1 <= p <= n && IsFree(status, p - 1)
  {
    if n > 0 {
      FreePositionsAreExact(status, n - 1);
      var front := FreePositions(status, n - 1);
      forall i | 0 <= i < |front| ensures front[i] <= n - 1 {
        assert front[i] in front;
      }
    }
  }

  // ----- Blocks of consecutive clusters

  datatype Block = Block(first: nat, size: nat)

  function Clusters(b: Block): (clusters: seq<nat>)
    ensures |clusters| == b.size
    ensures forall i {:trigger clusters[i]} :: 0 <= i < b.size ==> clusters[i] == b.first + i
  {
    seq(b.size, i requires 0 <= i => b.first + i)
  }

  function AllClusters(blocks: seq<Block>): seq<nat> {
    if blocks == [] then [] else AllClusters(blocks[..|blocks| - 1]) + Clusters(blocks[|blocks| - 1])
  }

  /** Each block ends short of the next, with at least one cluster in between. */
  predicate Apart(blocks: seq<Block>) {
    forall i, j :: 0 <= i < j < |blocks| ==> blocks[i].first + blocks[i].size < blocks[j].first
  }

  /** The blocks are the maximal runs of consecutive clusters in u. */
  predicate MaximalRuns(blocks: seq<Block>, u: seq<nat>) {
    && AllClusters(blocks) == u
    && Apart(blocks)
    && forall i :: 0 <= i < |blocks| ==> blocks[i].size > 0
  }

  /** Cluster x, after prev, continues the last block or starts a new one. */
  function Extend(blocks: seq<Block>, prev: nat, x: nat): (longer: seq<Block>)
    requires blocks != []
    ensures longer != []
  {
    var end := blocks[|blocks| - 1];
    if x <= prev + 1 then blocks[..|blocks| - 1] + [Block(end.first, end.size + 1)]
    else blocks + [Block(x, 1)]
  }

  /** The blocks found while walking through the first n clusters. */
  function Coalesce(u: seq<nat>, n: nat): (blocks: seq<Block>)
    requires n <= |u|
    ensures n > 0 ==> blocks != []
  {
    if n == 0 then []
    else if n == 1 then [Block(u[0], 1)]
    else Extend(Coalesce(u, n - 1), u[n - 2], u[n - 1])
  }

  lemma CoalesceNext(u: seq<nat>, n: nat, front: seq<Block>, last: Block)
    requires 1 <= n < |u| && Coalesce(u, n) == front + [last]
    ensures Coalesce(u, n + 1) ==
            if u[n] <= u[n - 1] + 1 then front + [Block(last.first, last.size + 1)]
            else front + [last] + [Block(u[n], 1)]
  {
    assert (front + [last])[..|front|] == front;
  }

  // ----- What is read for a block

  /** The parameters of the volume: sectors per cluster take 8 bits, bytes per sector 16. */
  datatype Geometry = Geometry(read: Reader, start: int, sectorsPerCluster: byte, bytesPerSector: uint16)

  /** The size of a cluster. */
  function FullSize(g: Geometry): nat {
    Product(g.sectorsPerCluster, g.bytesPerSector)
  }

  function Product(x: nat, y: nat): nat {
    x * y
  }

  /** The size of a cluster as it is computed for offsets, in 8 bits. */
  function CutSize(g: Geometry): nat {
    Product(g.sectorsPerCluster, g.bytesPerSector % 0x100) % 0x100
  }

  /** Where a block is read. */
  function ReadOffset(g: Geometry, b: Block): int {
    ToInt64(g.start + ToInt64(b.first * CutSize(g)))
  }

  /** How much is read.  This product is computed in 16 bits. */
  function ReadSize(g: Geometry, b: Block): nat {
    b.size % 0x1_0000 * (FullSize(g) % 0x1_0000) % 0x1_0000
  }

  /** The number of bytes read is that of the block's clusters, up to multiples of 65536. */
  lemma ReadSizeIs(g: Geometry, b: Block)
    ensures 0 <= ReadSize(g, b) < 0x1_0000
    ensures ReadSize(g, b) == b.size * FullSize(g) % 0x1_0000
    ensures 0 <= b.size * FullSize(g) < 0x1_0000 ==> ReadSize(g, b) == b.size * FullSize(g)
  {
    ProductWraps(b.size, FullSize(g));
  }

  lemma ProductWraps(x: nat, y: nat)
    ensures (x % 0x1_0000) * (y % 0x1_0000) % 0x1_0000 == x * y % 0x1_0000
  {
    var a, q, b, r := x % 0x1_0000, x / 0x1_0000, y % 0x1_0000, y / 0x1_0000;
    Expand(a, q, b, r, 0x1_0000);
    AddMultiple(a * b, a * r + q * b + q * r * 0x1_0000);
  }

  lemma Expand(a: nat, q: nat, b: nat, r: nat, m: nat)
    ensures (a + q * m) * (b + r * m) == a * b + (a * r + q * b + q * r * m) * m
  {
    calc {
      (a + q * m) * (b + r * m);
      a * (b + r * m) + (q * m) * (b + r * m);
      a * b + a * (r * m) + (q * m) * b + (q * m) * (r * m);
      a * b + (a * r) * m + (q * b) * m + (q * r * m) * m;
      a * b + (a * r + q * b + q * r * m) * m;
    }
  }

  lemma AddMultiple(x: int, k: int)
    ensures (x + k * 0x1_0000) % 0x1_0000 == x % 0x1_0000
  {
  }

  /** The buffer after the first n blocks have been read.  It is never reset. */
  function Read(g: Geometry, blocks: seq<Block>, n: nat): seq<byte>
    requires n <= |blocks|
  {
    if n == 0 then []
    else Read(g, blocks, n - 1) + (g.read)(ReadOffset(g, blocks[n - 1]), ReadSize(g, blocks[n - 1]))
  }

  lemma {:induction false} SameRead(g: Geometry, a: seq<Block>, b: seq<Block>, n: nat)
    requires n <= |a| <= |b| && a == b[..|a|]
    ensures Read(g, a, n) == Read(g, b, n)
  {
    if n > 0 {
      SameRead(g, a, b, n - 1);
    }
  }

  /** The bytes sent for each block are all that has been read up to it. */
  predicate Delivers(g: Geometry, payloads: seq<seq<byte>>, blocks: seq<Block>) {
    && |payloads| == |blocks|
    && forall i {:trigger payloads[i]} :: 0 <= i < |payloads| ==> payloads[i] == Read(g, blocks, i + 1)
  }

  lemma DeliversOneMore(g: Geometry, payloads: seq<seq<byte>>, blocks: seq<Block>, b: Block)
    requires Delivers(g, payloads, blocks)
    ensures var buf := Read(g, blocks, |blocks|) + (g.read)(ReadOffset(g, b), ReadSize(g, b));
      && Read(g, blocks + [b], |blocks| + 1) == buf
      && Delivers(g, payloads + [buf], blocks + [b])
  {
    forall n | 0 <= n <= |blocks| ensures Read(g, blocks + [b], n) == Read(g, blocks, n) {
      SameRead(g, blocks, blocks + [b], n);
    }
  }

  /** The blocks that are sent and the bytes sent for them, or None where the source panics on
      an empty list.  A block is sent when the next one begins. */
  method CollectUnallocated(g: Geometry, u: seq<nat>) returns (sent: Option<seq<Block>>, payloads: seq<seq<byte>>)
    requires Ascending(u)
    ensures u == [] ==> sent == None
    ensures u != [] ==> sent == Some(Coalesce(u, |u|)[..|Coalesce(u, |u|)| - 1])
    ensures u != [] ==> Delivers(g, payloads, sent.value)
  {
    if u == [] {
      return None, [];
    }
    assert Coalesce(u, 1) == [Block(u[0], 1)];
    assert Delivers(g, [], []) && Read(g, [], 0) == [];
    hide Delivers, Read, Extend, ReadOffset, ReadSize, Coalesce, Ascending;
    var blocks: seq<Block>, blockSize, prev := [], 1, u[0];
    var buf: seq<byte> := [];
    payloads := [];
    for idx := 1 to |u|
      invariant 1 <= blockSize <= idx && prev == u[idx - 1]
      invariant Coalesce(u, idx) == blocks + [Block(u[idx - blockSize], blockSize)]
      invariant Delivers(g, payloads, blocks) && buf == Read(g, blocks, |blocks|)
    {
      CoalesceNext(u, idx, blocks, Block(u[idx - blockSize], blockSize));
      if u[idx] <= prev + 1 {
        blockSize := blockSize + 1;
      } else {
        var block := Block(u[idx - blockSize], blockSize);
        DeliversOneMore(g, payloads, blocks, block);
        buf := buf + (g.read)(ReadOffset(g, block), ReadSize(g, block));
        blocks, payloads := blocks + [block], payloads + [buf];
        blockSize := 1;
      }
      prev := u[idx];
    }
    sent := Some(blocks);
  }

  /** What is sent for a block begins with what was sent for every earlier block. */
  lemma {:induction false} EarlierBytesRepeat(g: Geometry, blocks: seq<Block>, m: nat, n: nat)
    requires m <= n <= |blocks|
    ensures Read(g, blocks, m) <= Read(g, blocks, n)
  {
    if m < n {
      EarlierBytesRepeat(g, blocks, m, n - 1);
    }
  }

  lemma CutIsFullIff(g: Geometry)
    ensures 0 <= CutSize(g) <= FullSize(g)
    ensures CutSize(g) == FullSize(g) <==> FullSize(g) < 0x100
  {
    hide Product;
    var s, b := g.sectorsPerCluster, g.bytesPerSector;
    LowPart(s, b);
    if b < 0x100 {
      assert b % 0x100 == b;
    }
  }

  lemma LowPart(s: nat, b: nat)
    ensures 0 <= Product(s, b % 0x100) <= Product(s, b)
    ensures b >= 0x100 && s > 0 ==> Product(s, b) >= 0x100
    ensures s == 0 ==> Product(s, b) == 0
  {
    Scaled(s, b % 0x100, b);
    if b >= 0x100 && s > 0 {
      Scaled(b, 1, s);
    }
  }

  lemma Scaled(k: nat, x: nat, y: nat)
    requires x <= y
    ensures 0 <= k * x <= k * y && k * y == k * x + k * (y - x)
    ensures k > 0 ==> (k * x == k * y <==> x == y)
  {
    assert k * y == k * x + k * (y - x);
  }

  /** The volume lies within 64 bits, up to the end of this block's first cluster. */
  predicate Addressable(g: Geometry, b: Block) {
    0 <= g.start && g.start + Product(b.first, FullSize(g)) < 0x8000_0000_0000_0000
  }

  lemma ReadOffsetIs(g: Geometry, b: Block)
    requires Addressable(g, b)
    ensures ReadOffset(g, b) == g.start + Product(b.first, CutSize(g))
  {
    hide CutSize, FullSize;
    CutIsFullIff(g);
    Scaled(b.first, CutSize(g), FullSize(g));
  }

  /** What a block adds to the bytes sent: those of the disk from its first position on, counted
      in clusters whose size is cut to 8 bits, and as many as a length cut to 16 bits says. */
  lemma BlockAdds(g: Geometry, blocks: seq<Block>, n: nat, disk: seq<byte>)
    requires n < |blocks| && Addressable(g, blocks[n]) && ReadsFrom(g.read, disk)
    requires var place := g.start + blocks[n].first * (g.sectorsPerCluster * g.bytesPerSector % 0x100);
      var length := blocks[n].size * (g.sectorsPerCluster * g.bytesPerSector) % 0x1_0000;
      place + length <= |disk|
    ensures var place := g.start + blocks[n].first * (g.sectorsPerCluster * g.bytesPerSector % 0x100);
      var length := blocks[n].size * (g.sectorsPerCluster * g.bytesPerSector) % 0x1_0000;
      && 0 <= place && 0 <= length
      && Read(g, blocks, 0) == []
      && Read(g, blocks, n + 1) == Read(g, blocks, n) + disk[place..place + length]
  {
    CutIs(g);
    ReadOffsetIs(g, blocks[n]);
    ReadSizeIs(g, blocks[n]);
    Scaled(blocks[n].first, 0, CutSize(g));
    hide CutSize, ReadOffset, ReadSize;
  }

  lemma CutIs(g: Geometry)
    ensures 0 <= CutSize(g) == g.sectorsPerCluster * g.bytesPerSector % 0x100
  {
    var s, b, r := g.sectorsPerCluster, g.bytesPerSector / 0x100, g.bytesPerSector % 0x100;
    assert s * g.bytesPerSector == s * r + (s * b) * 0x100;
    LowByte(s * r, s * b);
  }

  lemma LowByte(x: int, k: int)
    ensures (x + k * 0x100) % 0x100 == x % 0x100
  {
  }

  /** A block is read at its first position times the full size of a cluster if and only if
      that size is less than 256 bytes. */
  lemma OffsetIsFullIff(g: Geometry, b: Block)
    requires b.first > 0 && Addressable(g, b)
    ensures ReadOffset(g, b) == g.start + Product(b.first, FullSize(g)) <==> FullSize(g) < 0x100
  {
    hide CutSize, FullSize;
    ReadOffsetIs(g, b);
    CutIsFullIff(g);
    Scaled(b.first, CutSize(g), FullSize(g));
  }

  /** Where the first cluster of a block lies.  Positions count from 1, clusters from 0. */
  function OwnPlace(g: Geometry, b: Block): int
    requires b.first > 0
  {
    g.start + Product(b.first - 1, FullSize(g))
  }

  /** A block is read from its own clusters if and only if its first position times what the
      8 bits lose makes up for the one cluster that it counts too much. */
  lemma ReadsOwnPlaceIff(g: Geometry, b: Block)
    requires b.first > 0 && Addressable(g, b)
    ensures ReadOffset(g, b) == OwnPlace(g, b) <==> Product(b.first, FullSize(g) - CutSize(g)) == FullSize(g)
  {
    hide CutSize, FullSize;
    ReadOffsetIs(g, b);
    CutIsFullIff(g);
    Scaled(b.first, CutSize(g), FullSize(g));
    assert Product(b.first, FullSize(g)) == Product(b.first - 1, FullSize(g)) + FullSize(g);
  }

  /** No block is, if a cluster is not empty and smaller than 256 bytes. */
  lemma SmallClustersAreMissed(g: Geometry, b: Block)
    requires b.first > 0 && Addressable(g, b) && 0 < FullSize(g) < 0x100
    ensures ReadOffset(g, b) != OwnPlace(g, b)
  {
    hide CutSize, FullSize;
    ReadsOwnPlaceIff(g, b);
    CutIsFullIff(g);
    assert Product(b.first, 0) == 0;
  }

  /** And of all blocks at most one is, if clusters are not empty. */
  lemma OneBlockAtMost(g: Geometry, a: Block, b: Block)
    requires a.first > 0 && b.first > 0 && Addressable(g, a) && Addressable(g, b) && FullSize(g) > 0
    requires ReadOffset(g, a) == OwnPlace(g, a) && ReadOffset(g, b) == OwnPlace(g, b)
    ensures a.first == b.first
  {
    hide CutSize, FullSize;
    ReadsOwnPlaceIff(g, a);
    ReadsOwnPlaceIff(g, b);
    CutIsFullIff(g);
    Cancels(a.first, b.first, FullSize(g) - CutSize(g));
  }

  lemma Cancels(x: nat, y: nat, d: nat)
    requires x * d == y * d && x * d > 0
    ensures x == y
  {
    assert (x - y) * d == 0;
  }

  /** With sectors of 512 bytes every block is read from the start of the volume, which is its
      own place only if it begins with the first cluster. */
  lemma SectorsOf512(g: Geometry, b: Block)
    requires g.bytesPerSector == 512 && g.sectorsPerCluster > 0 && b.first > 0 && Addressable(g, b)
    ensures ReadOffset(g, b) == g.start
    ensures ReadOffset(g, b) == OwnPlace(g, b) <==> b.first == 1
  {
    assert CutSize(g) == 0;
    ReadOffsetIs(g, b);
    ReadsOwnPlaceIff(g, b);
    var full := FullSize(g);
    if b.first > 1 {
      Scaled(full, 1, b.first);
    }
  }

  /** With one sector of 128 bytes to a cluster, the block of the second cluster is read where
      the third one lies. */
  lemma SectorsOf128(g: Geometry)
    requires g.start == 0 && g.sectorsPerCluster == 1 && g.bytesPerSector == 128
    ensures ReadOffset(g, Block(2, 1)) == 256 && OwnPlace(g, Block(2, 1)) == 128
  {
  }

  lemma AllClustersSnoc(blocks: seq<Block>, b: Block)
    ensures AllClusters(blocks + [b]) == AllClusters(blocks) + Clusters(b)
  {
    assert (blocks + [b])[..|blocks + [b]| - 1] == blocks;
  }

  lemma GrowLast(front: seq<Block>, end: Block, u: seq<nat>)
    requires MaximalRuns(front + [end], u)
    ensures MaximalRuns(front + [Block(end.first, end.size + 1)], u + [end.first + end.size])
  {
    var blocks, longer := front + [end], Block(end.first, end.size + 1);
    AllClustersSnoc(front, end);
    AllClustersSnoc(front, longer);
    assert Clusters(longer) == Clusters(end) + [end.first + end.size];
    assert AllClusters(front) + (Clusters(end) + [end.first + end.size]) == u + [end.first + end.size];
    assert blocks[|front|].size > 0;
    forall i, j | 0 <= i < j < |front + [longer]|
      ensures (front + [longer])[i].first + (front + [longer])[i].size < (front + [longer])[j].first
    {
      assert blocks[i].first + blocks[i].size < blocks[j].first;
    }
    forall i | 0 <= i < |front| ensures front[i].size > 0 {
      assert blocks[i].size > 0;
    }
  }

  lemma NewBlock(front: seq<Block>, end: Block, u: seq<nat>, x: nat)
    requires MaximalRuns(front + [end], u) && end.first + end.size < x
    ensures MaximalRuns(front + [end] + [Block(x, 1)], u + [x])
  {
    var blocks := front + [end];
    AllClustersSnoc(blocks, Block(x, 1));
    assert Clusters(Block(x, 1)) == [x];
    forall i | 0 <= i < |blocks| ensures blocks[i].first + blocks[i].size < x {
      if i < |front| {
        assert blocks[i].first + blocks[i].size < blocks[|front|].first;
      }
    }
  }

  lemma ExtendKeepsRuns(blocks: seq<Block>, u: seq<nat>, x: nat)
    requires MaximalRuns(blocks, u) && u != [] && u[|u| - 1] < x
    ensures blocks != [] && MaximalRuns(Extend(blocks, u[|u| - 1], x), u + [x])
  {
    var front, end := blocks[..|blocks| - 1], blocks[|blocks| - 1];
    assert blocks == front + [end];
    AllClustersSnoc(front, end);
    EndOfRun(front, end, u);
    if x <= u[|u| - 1] + 1 {
      GrowLast(front, end, u);
    } else {
      NewBlock(front, end, u, x);
    }
  }

  /** The walk finds the maximal runs. */
  lemma {:induction false} CoalesceFindsRuns(u: seq<nat>, n: nat)
    requires Ascending(u) && n <= |u|
    ensures MaximalRuns(Coalesce(u, n), u[..n])
  {
    if n == 1 {
      AllClustersSnoc([], Block(u[0], 1));
      assert [] + [Block(u[0], 1)] == [Block(u[0], 1)];
      assert u[..1] == [u[0]];
    } else if n > 1 {
      CoalesceFindsRuns(u, n - 1);
      ExtendKeepsRuns(Coalesce(u, n - 1), u[..n - 1], u[n - 1]);
      assert u[..n] == u[..n - 1] + [u[n - 1]];
    }
  }

  lemma EndOfRun(front: seq<Block>, end: Block, u: seq<nat>)
    requires AllClusters(front) + Clusters(end) == u && end.size > 0
    ensures u != [] && u[|u| - 1] == end.first + end.size - 1
  {
    assert u[|u| - 1] == Clusters(end)[end.size - 1];
  }

  // ----- Conservation

  function TotalSize(blocks: seq<Block>): nat {
    if blocks == [] then 0 else TotalSize(blocks[..|blocks| - 1]) + blocks[|blocks| - 1].size
  }

  lemma {:induction false} SizesAddUp(blocks: seq<Block>)
    ensures TotalSize(blocks) == |AllClusters(blocks)|
  {
    if blocks != [] {
      SizesAddUp(blocks[..|blocks| - 1]);
    }
  }

  function Free(status: seq<byte>): seq<nat> {
    FreePositions(status, 8 * |status|)
  }

  /** What is sent for a bitmap that has free clusters. */
  function BlocksSent(status: seq<byte>): seq<Block>
    requires Free(status) != []
  {
    var blocks := Coalesce(Free(status), |Free(status)|);
    blocks[..|blocks| - 1]
  }

  /** Clusters are neither lost nor invented on the way to the blocks, but the last block is
      never sent: what is sent falls short of the free space by the size of that block. */
  lemma LastBlockIsNotSent(status: seq<byte>)
    requires Free(status) != []
    ensures var blocks := Coalesce(Free(status), |Free(status)|);
      var last := blocks[|blocks| - 1];
      && MaximalRuns(blocks, Free(status))
      && last.size > 0
      && TotalSize(BlocksSent(status)) + last.size == |Free(status)|
      && AllClusters(BlocksSent(status)) + Clusters(last) == Free(status)
  {
    var u := Free(status);
    FreePositionsAreExact(status, 8 * |status|);
    CoalesceFindsRuns(u, |u|);
    assert u[..|u|] == u;
    SizesAddUp(Coalesce(u, |u|));
  }

  // ----- There is only one way to cut into maximal runs

  lemma LastOf(blocks: seq<Block>, u: seq<nat>)
    requires MaximalRuns(blocks, u) && u != []
    ensures blocks != []
    ensures var last := blocks[|blocks| - 1];
      && last.size <= |u|
      && (forall j :: |u| - last.size <= j < |u| ==> u[j] == last.first + (j - (|u| - last.size)))
      && MaximalRuns(blocks[..|blocks| - 1], u[..|u| - last.size])
  {
    var last := blocks[|blocks| - 1];
    var front := AllClusters(blocks[..|blocks| - 1]);
    forall j | |u| - last.size <= j < |u| ensures u[j] == last.first + (j - (|u| - last.size)) {
      assert u[j] == Clusters(last)[j - |front|];
    }
  }

  /** The cluster before the last run, if there is one, is no neighbour of it. */
  lemma GapBeforeLast(blocks: seq<Block>, u: seq<nat>)
    requires MaximalRuns(blocks, u) && u != []
    ensures blocks != []
    ensures var last := blocks[|blocks| - 1];
      last.size < |u| ==> u[|u| - last.size - 1] + 1 < last.first
  {
    LastOf(blocks, u);
    var m := |blocks| - 1;
    var rest := u[..|u| - blocks[m].size];
    if rest != [] {
      LastOf(blocks[..m], rest);
      var end := blocks[m - 1];
      assert rest[|rest| - 1] == end.first + (end.size - 1);
    }
  }

  lemma LastNotShorter(a: seq<Block>, b: seq<Block>, u: seq<nat>)
    requires MaximalRuns(a, u) && MaximalRuns(b, u) && u != []
    ensures a != [] && b != []
    ensures var x, y := a[|a| - 1], b[|b| - 1];
      x.size >= y.size && x.first + x.size == y.first + y.size
  {
    LastOf(a, u);
    LastOf(b, u);
    GapBeforeLast(a, u);
    var x, y := a[|a| - 1], b[|b| - 1];
    assert u[|u| - 1] == x.first + (x.size - 1) && u[|u| - 1] == y.first + (y.size - 1);
  }

  lemma {:induction false} RunsAreUnique(a: seq<Block>, b: seq<Block>, u: seq<nat>)
    requires MaximalRuns(a, u) && MaximalRuns(b, u)
    ensures a == b
    decreases |u|
  {
    if u == [] {
      SizesAddUp(a);
      SizesAddUp(b);
    } else {
      LastOf(a, u);
      LastOf(b, u);
      LastNotShorter(a, b, u);
      LastNotShorter(b, a, u);
      var m, n := |a| - 1, |b| - 1;
      RunsAreUnique(a[..m], b[..n], u[..|u| - a[m].size]);
      assert a == a[..m] + [a[m]] && b == b[..n] + [b[n]];
    }
  }

  // ----- Three bitmaps of one byte

  lemma BitsOfThreeBytes()
    ensures !IsFree([0xff], 0)
    ensures !IsFree([0xff], 1)
    ensures !IsFree([0xff], 2)
    ensures !IsFree([0xff], 3)
    ensures !IsFree([0xff], 4)
    ensures !IsFree([0xff], 5)
    ensures !IsFree([0xff], 6)
    ensures !IsFree([0xff], 7)
    ensures IsFree([0xfe], 0)
    ensures !IsFree([0xfe], 1)
    ensures !IsFree([0xfe], 2)
    ensures !IsFree([0xfe], 3)
    ensures !IsFree([0xfe], 4)
    ensures !IsFree([0xfe], 5)
    ensures !IsFree([0xfe], 6)
    ensures !IsFree([0xfe], 7)
    ensures IsFree([0xf6], 0)
    ensures !IsFree([0xf6], 1)
    ensures !IsFree([0xf6], 2)
    ensures IsFree([0xf6], 3)
    ensures !IsFree([0xf6], 4)
    ensures !IsFree([0xf6], 5)
    ensures !IsFree([0xf6], 6)
    ensures !IsFree([0xf6], 7)
  {
    PowersOfTwo();
    hide Pow2;
  }

  lemma FullByte()
    ensures FreePositions([0xff], 8) == []
  {
    BitsOfThreeBytes();
    hide IsFree;
    assert FreePositions([0xff], 1) == [];
    assert FreePositions([0xff], 2) == [];
    assert FreePositions([0xff], 3) == [];
    assert FreePositions([0xff], 4) == [];
    assert FreePositions([0xff], 5) == [];
    assert FreePositions([0xff], 6) == [];
    assert FreePositions([0xff], 7) == [];
  }

  lemma OneFree()
    ensures FreePositions([0xfe], 8) == [1]
  {
    BitsOfThreeBytes();
    hide IsFree;
    assert FreePositions([0xfe], 1) == [1];
    assert FreePositions([0xfe], 2) == [1];
    assert FreePositions([0xfe], 3) == [1];
    assert FreePositions([0xfe], 4) == [1];
    assert FreePositions([0xfe], 5) == [1];
    assert FreePositions([0xfe], 6) == [1];
    assert FreePositions([0xfe], 7) == [1];
  }

  lemma TwoApart()
    ensures FreePositions([0xf6], 8) == [1, 4]
  {
    BitsOfThreeBytes();
    hide IsFree;
    assert FreePositions([0xf6], 1) == [1];
    assert FreePositions([0xf6], 2) == [1];
    assert FreePositions([0xf6], 3) == [1];
    assert FreePositions([0xf6], 4) == [1, 4];
    assert FreePositions([0xf6], 5) == [1, 4];
    assert FreePositions([0xf6], 6) == [1, 4];
    assert FreePositions([0xf6], 7) == [1, 4];
  }

  /** Of one free cluster nothing is sent. */
  lemma OneFreeClusterIsNotSent()
    ensures FreePositions([0xfe], 8) == [1]
    ensures BlocksSent([0xfe]) == []
  {
    OneFree();
    assert Coalesce([1], 1) == [Block(1, 1)];
  }

  /** Of two free clusters that are not neighbours only the first is sent. */
  lemma SecondOfTwoIsNotSent()
    ensures FreePositions([0xf6], 8) == [1, 4]
    ensures BlocksSent([0xf6]) == [Block(1, 1)]
  {
    TwoApart();
    assert Coalesce([1, 4], 1) == [Block(1, 1)];
    assert Coalesce([1, 4], 2) == [Block(1, 1), Block(4, 1)];
  }
}
