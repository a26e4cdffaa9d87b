/** The buffer that `FAT16::write` asks the heap for. */
module FatBuffers {
  import opened Readings
  import opened Fat
  import opened FatRanges
  import opened HeapMemory

  /** The bytes that `write` allocates: as written 512 for each byte of the request, not for each sector. */
  function BufferBytes(text: Text, v: Volume, size: nat): nat {
    if text == Written then SECTOR * size else SECTOR * v.sectorsPerCluster
  }

  /** Some free chunk is large enough. */
  predicate Grants(bs: seq<HeapSpec.Chunk>, n: nat) {
    exists i :: 0 <= i < |bs| && HeapSpec.Fits(bs[i], n)
  }

  /** `malloc` grants a request exactly when some free chunk fits; as written it does not refuse it then either. */
  lemma GrantsExact(mem: Memory, a: nat, bs: seq<HeapSpec.Chunk>, n: nat)
    requires Chain(mem, a, bs) && 0 < n
    ensures HeapSpec.Addr(a, bs, HeapSpec.Stop(bs, n)) in mem
    ensures var e := HeapSpec.Addr(a, bs, HeapSpec.Stop(bs, n));
      && (MallocAt(Corrected, mem, e, n).1 != 0 <==> Grants(bs, n))
      && (Grants(bs, n) ==> MallocAt(Written, mem, e, n).1 == MallocAt(Corrected, mem, e, n).1)
  {
    var k := HeapSpec.Stop(bs, n);
    MallocChain(mem, a, bs, n);
    ChainAt(mem, a, bs, k);
    assert HeapSpec.Fits(bs[k], n) <==> Grants(bs, n);
  }

  /**
   * `write` gets a buffer that holds a cluster exactly when the request has at least as many bytes as a cluster has
   * sectors and the heap has a free chunk of 512 times that size.
   */
  lemma WrittenBufferExact(v: Volume, size: nat, mem: Memory, a: nat, bs: seq<HeapSpec.Chunk>)
    requires v.Valid() && Chain(mem, a, bs)
    ensures HeapSpec.Addr(a, bs, HeapSpec.Stop(bs, BufferBytes(Written, v, size))) in mem
    ensures var n := BufferBytes(Written, v, size);
      (MallocAt(Corrected, mem, HeapSpec.Addr(a, bs, HeapSpec.Stop(bs, n)), n).1 != 0 && n >= v.ClusterSize()) <==>
      (size >= v.sectorsPerCluster && Grants(bs, SECTOR * size))
  {
    if size == 0 {
      ChainAt(mem, a, bs, HeapSpec.Stop(bs, 0));
    } else {
      GrantsExact(mem, a, bs, SECTOR * size);
    }
  }

  /** The chunks of a heap as every thread gets it, 64 KiB with nothing allocated. */
  function FreshHeap(): seq<HeapSpec.Chunk> { [HeapSpec.Chunk(0x10000 - HeapSpec.HEADER, true)] }

  /** On a fresh heap the written request is granted up to 127 bytes, the corrected one up to 127 sectors. */
  lemma FreshGrants(v: Volume, size: nat)
    ensures Grants(FreshHeap(), BufferBytes(Written, v, size)) <==> size <= 127
    ensures Grants(FreshHeap(), BufferBytes(Corrected, v, size)) <==> v.sectorsPerCluster <= 127
  {
    assert forall n :: Grants(FreshHeap(), n) <==> HeapSpec.Fits(FreshHeap()[0], n);
  }

  /** With two sectors to a cluster, writing one byte reads 1024 bytes into a buffer of 512. */
  lemma WrittenBufferFails()
    ensures var v := Volume(2, 1, 1, 2, 2); v.Valid() && BufferBytes(Written, v, 1) == 512 && v.ClusterSize() == 1024
  {
  }

  /** With one, writing 128 bytes at position 0 asks a fresh heap for more than it has, under both of its readings. */
  lemma WrittenBufferRefused()
    ensures var v, mem := Volume(1, 1, 1, 2, 2), map[0x1000 := Header(true, 65512, 0)];
      var n := BufferBytes(Written, v, 128);
      && v.Valid() && Chain(mem, 0x1000, FreshHeap()) && 128 <= v.ClusterSize() <= n && 128 >= v.sectorsPerCluster
      && MallocAt(Written, mem, 0x1000, n).1 == 0 == MallocAt(Corrected, mem, 0x1000, n).1
  {
  }

  /** `write` returns, and its buffer is there and holds a cluster. */
  ghost predicate WriteWorks(search: Text, room: Text, v: Volume, pos: nat, size: nat, bs: seq<HeapSpec.Chunk>) {
    && SearchEnds(search, v.ClusterSize(), pos + 1) && SearchEnds(search, v.ClusterSize(), pos + size)
    && BufferBytes(room, v, size) >= v.ClusterSize() && Grants(bs, BufferBytes(room, v, size))
  }

  /** With every line as written `write` works exactly under the guards of all its lines. */
  lemma WrittenWriteExact(v: Volume, pos: nat, size: nat, bs: seq<HeapSpec.Chunk>)
    requires v.Valid()
    ensures WriteWorks(Written, Written, v, pos, size, bs) <==>
      (pos < v.ClusterSize() && pos + size <= v.ClusterSize() && size >= v.sectorsPerCluster &&
       Grants(bs, SECTOR * size))
  {
    WrittenSearchEnds(Written, v.ClusterSize(), pos + 1);
    WrittenSearchEnds(Written, v.ClusterSize(), pos + size);
  }

  /** On a fresh heap that leaves requests between the sectors of a cluster and 127 bytes. */
  lemma WrittenWriteFresh(v: Volume, pos: nat, size: nat)
    requires v.Valid()
    ensures WriteWorks(Written, Written, v, pos, size, FreshHeap()) <==>
      (pos < v.ClusterSize() && pos + size <= v.ClusterSize() && v.sectorsPerCluster <= size <= 127)
  {
    WrittenWriteExact(v, pos, size, FreshHeap());
    FreshGrants(v, size);
  }

  /** With every line corrected only the heap can stop it. */
  lemma CorrectedWriteExact(v: Volume, pos: nat, size: nat, bs: seq<HeapSpec.Chunk>)
    requires v.Valid()
    ensures WriteWorks(Corrected, Corrected, v, pos, size, bs) <==> Grants(bs, v.ClusterSize())
  {
    WrittenSearchEnds(Corrected, v.ClusterSize(), pos + 1);
    WrittenSearchEnds(Corrected, v.ClusterSize(), pos + size);
  }

  // ----- buffers that are never freed ----------------------------------------

  /** k calls, each of which asks for n bytes and frees nothing, are all granted. */
  predicate AllGranted(bs: seq<HeapSpec.Chunk>, n: nat, k: nat)
    decreases k
  {
    k == 0 || (bs != [] && Grants(bs, n) && AllGranted(HeapSpec.AfterMalloc(bs, n), n, k - 1))
  }

  /** The bytes taken by allocated chunks and their headers. */
  function Used(bs: seq<HeapSpec.Chunk>): nat {
    if bs == [] then 0 else (if bs[0].free then 0 else HeapSpec.HEADER + bs[0].size) + Used(bs[1..])
  }

  lemma {:induction false} UsedInside(bs: seq<HeapSpec.Chunk>)
    ensures Used(bs) <= HeapSpec.Extent(bs)
  {
    if bs != [] { UsedInside(bs[1..]); }
  }

  lemma {:induction false} UsedConcat(x: seq<HeapSpec.Chunk>, y: seq<HeapSpec.Chunk>)
    ensures Used(x + y) == Used(x) + Used(y)
    decreases |x|
  {
    if x == [] {
      assert x + y == y;
    } else {
      assert (x + y)[1..] == x[1..] + y;
      UsedConcat(x[1..], y);
    }
  }

  lemma UsedGranted(bs: seq<HeapSpec.Chunk>, n: nat)
    requires bs != [] && Grants(bs, n) && n > 0
    ensures HeapSpec.AfterMalloc(bs, n) != []
    ensures Used(HeapSpec.AfterMalloc(bs, n)) >= Used(bs) + HeapSpec.HEADER + n
    ensures HeapSpec.Extent(HeapSpec.AfterMalloc(bs, n)) == HeapSpec.Extent(bs)
  {
    var k := HeapSpec.Stop(bs, n);
    HeapSpec.MallocExact(0, bs, n);
    var x, z, cut := bs[..k], bs[k + 1..], HeapSpec.Cut(bs[k], n);
    assert HeapSpec.AfterMalloc(bs, n) == x + cut + z;
    HeapSpec.Split3(bs, k);
    UsedConcat(x + cut, z);
    UsedConcat(x, cut);
    UsedConcat(x + [bs[k]], z);
    UsedConcat(x, [bs[k]]);
    UsedCut(bs[k], n);
  }

  lemma UsedCut(b: HeapSpec.Chunk, n: nat)
    requires HeapSpec.Fits(b, n)
    ensures Used([b]) == 0 && Used(HeapSpec.Cut(b, n)) >= HeapSpec.HEADER + n
  {
  }

  /** However often the kernel writes, the buffers it never frees have to fit its heap together. */
  lemma {:induction false} BuffersFit(bs: seq<HeapSpec.Chunk>, n: nat, k: nat)
    requires AllGranted(bs, n, k) && n > 0
    ensures Used(bs) + k * (HeapSpec.HEADER + n) <= HeapSpec.Extent(bs)
    decreases k
  {
    if k == 0 {
      UsedInside(bs);
    } else {
      UsedGranted(bs, n);
      BuffersFit(HeapSpec.AfterMalloc(bs, n), n, k - 1);
    }
  }

  /** With one sector to a cluster a fresh heap refuses the 123rd buffer of `read` or of the corrected `write`. */
  lemma FreshExhausted(k: nat)
    requires AllGranted(FreshHeap(), SECTOR, k)
    ensures k <= 122
  {
    BuffersFit(FreshHeap(), SECTOR, k);
    assert HeapSpec.Extent(FreshHeap()) == 0x10000;
  }
}
