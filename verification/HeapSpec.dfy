/** The first-fit heap as a list of chunks that tile the arena. */
module HeapSpec {
  /** `sizeof(HeapEntry)` */
  const HEADER: nat := 24

  /** A block: its payload size and whether it is free. */
  datatype Chunk = Chunk(size: nat, free: bool)

  /** The bytes the chunks take, headers included. */
  function Extent(bs: seq<Chunk>): nat {
    if bs == [] then 0 else HEADER + bs[0].size + Extent(bs[1..])
  }

  function NextAddr(a: nat, b: Chunk): nat { a + HEADER + b.size }

  /** The address of the header of chunk k when chunk 0 is at a. */
  function Addr(a: nat, bs: seq<Chunk>, k: nat): nat
    requires k <= |bs|
    decreases k
  {
    if k == 0 then a else Addr(NextAddr(a, bs[0]), bs[1..], k - 1)
  }

  /** What a caller of `malloc` holds: a payload address and size. */
  datatype Payload = Payload(start: nat, size: nat) {
    function End(): nat { start + size }
  }

  function Live(a: nat, bs: seq<Chunk>): set<Payload>
    decreases |bs|
  {
    if bs == [] then {}
    else (if bs[0].free then {} else {Payload(a + HEADER, bs[0].size)}) + Live(NextAddr(a, bs[0]), bs[1..])
  }

  lemma {:induction false} ExtentConcat(x: seq<Chunk>, y: seq<Chunk>)
    ensures Extent(x + y) == Extent(x) + Extent(y)
  {
    if x == [] {
      assert x + y == y;
    } else {
      assert (x + y)[1..] == x[1..] + y;
      ExtentConcat(x[1..], y);
    }
  }

  lemma {:induction false} LiveConcat(a: nat, x: seq<Chunk>, y: seq<Chunk>)
    ensures Live(a, x + y) == Live(a, x) + Live(a + Extent(x), y)
    decreases |x|
  {
    if x == [] {
      assert x + y == y;
    } else {
      assert (x + y)[1..] == x[1..] + y;
      LiveConcat(NextAddr(a, x[0]), x[1..], y);
    }
  }

  lemma {:induction false} AddrExtent(a: nat, bs: seq<Chunk>, k: nat)
    requires k <= |bs|
    ensures Addr(a, bs, k) == a + Extent(bs[..k])
    decreases k
  {
    if k > 0 {
      AddrExtent(NextAddr(a, bs[0]), bs[1..], k - 1);
      assert bs[..k][1..] == bs[1..][..k - 1];
    }
  }

  /** Live payloads lie inside the arena. */
  lemma {:induction false} LiveInside(a: nat, bs: seq<Chunk>, p: Payload)
    requires p in Live(a, bs)
    ensures a + HEADER <= p.start && p.End() <= a + Extent(bs)
    decreases |bs|
  {
    if bs[0].free || p != Payload(a + HEADER, bs[0].size) {
      LiveInside(NextAddr(a, bs[0]), bs[1..], p);
    }
  }

  /** Different live payloads are disjoint, with room for a header between them. */
  lemma {:induction false} LiveDisjoint(a: nat, bs: seq<Chunk>, p: Payload, q: Payload)
    requires p in Live(a, bs) && q in Live(a, bs) && p != q
    ensures p.End() + HEADER <= q.start || q.End() + HEADER <= p.start
    decreases |bs|
  {
    var head := Payload(a + HEADER, bs[0].size);
    if !bs[0].free && p == head {
      LiveInside(NextAddr(a, bs[0]), bs[1..], q);
    } else if !bs[0].free && q == head {
      LiveInside(NextAddr(a, bs[0]), bs[1..], p);
    } else {
      LiveDisjoint(NextAddr(a, bs[0]), bs[1..], p, q);
    }
  }

  // ----- coalescing --------------------------------------------------------

  function Join(x: Chunk, y: Chunk): Chunk { Chunk(x.size + y.size + HEADER, true) }

  /**
   * The effect of one `clean` pass on the chunks. After joining two chunks the pass continues from the header of the
   * second, which is no longer a chunk, so the joined chunk is never joined again.
   */
  function Clean(bs: seq<Chunk>): (r: seq<Chunk>)
    ensures bs != [] ==> r != []
  {
    if |bs| < 2 then bs
    else if bs[0].free && bs[1].free then [Join(bs[0], bs[1])] + Clean(bs[2..])
    else [bs[0]] + Clean(bs[1..])
  }

  /** The lengths of the maximal free runs, one before, between and after the allocated chunks. */
  function FreeRuns(bs: seq<Chunk>): (r: seq<nat>)
    ensures r != []
  {
    if bs == [] then [0]
    else
      var r := FreeRuns(bs[1..]);
      if bs[0].free then [r[0] + 1] + r[1..] else [0] + r
  }

  /** Run i has length r[i] before and ceil(r[i]/2) after. */
  predicate Halved(r: seq<nat>, c: seq<nat>) {
    |c| == |r| && forall i :: 0 <= i < |r| ==> c[i] == (r[i] + 1) / 2
  }

  lemma HalvedStep(r: seq<nat>, c: seq<nat>)
    requires Halved(r, c) && r != []
    ensures Halved([0] + r, [0] + c)
    ensures Halved([r[0] + 2] + r[1..], [c[0] + 1] + c[1..])
    ensures r[0] == 0 ==> Halved([1] + r[1..], [c[0] + 1] + c[1..])
  {
  }

  lemma RunsCons(x: Chunk, bs: seq<Chunk>)
    ensures var r := FreeRuns(bs);
      FreeRuns([x] + bs) == if x.free then [r[0] + 1] + r[1..] else [0] + r
  {
    assert ([x] + bs)[1..] == bs;
  }

  /** One `clean` pass turns every maximal run of k free chunks into ceil(k/2) free chunks. */
  lemma {:induction false} CleanExact(bs: seq<Chunk>)
    ensures Halved(FreeRuns(bs), FreeRuns(Clean(bs)))
    decreases |bs|
  {
    hide FreeRuns, Halved;
    if |bs| < 2 {
      ShortRuns(bs);
    } else {
      assert bs == [bs[0]] + bs[1..];
      RunsCons(bs[0], bs[1..]);
      assert bs[1..] == [bs[1]] + bs[2..];
      RunsCons(bs[1], bs[2..]);
      if bs[0].free && bs[1].free {
        RunsCons(Join(bs[0], bs[1]), Clean(bs[2..]));
        CleanExact(bs[2..]);
        HalvedStep(FreeRuns(bs[2..]), FreeRuns(Clean(bs[2..])));
      } else {
        RunsCons(bs[0], Clean(bs[1..]));
        CleanExact(bs[1..]);
        HalvedStep(FreeRuns(bs[1..]), FreeRuns(Clean(bs[1..])));
      }
    }
  }

  lemma ShortRuns(bs: seq<Chunk>)
    requires |bs| < 2
    ensures Halved(FreeRuns(bs), FreeRuns(bs))
  {
  }

  /** Cleaning moves no boundary of the arena and no live payload. */
  lemma {:induction false} CleanLive(a: nat, bs: seq<Chunk>)
    ensures Extent(Clean(bs)) == Extent(bs) && Live(a, Clean(bs)) == Live(a, bs)
    decreases |bs|
  {
    if |bs| >= 2 {
      if bs[0].free && bs[1].free {
        CleanLive(NextAddr(NextAddr(a, bs[0]), bs[1]), bs[2..]);
        assert bs[1..][1..] == bs[2..];
      } else {
        CleanLive(NextAddr(a, bs[0]), bs[1..]);
      }
    }
  }

  /** The number of adjacent pairs of free chunks. */
  function Pairs(bs: seq<Chunk>): nat {
    if |bs| < 2 then 0 else (if bs[0].free && bs[1].free then 1 else 0) + Pairs(bs[1..])
  }

  /** Cleaning at least halves the number of adjacent free pairs. */
  lemma {:induction false} CleanHalves(bs: seq<Chunk>)
    ensures 2 * Pairs(Clean(bs)) <= Pairs(bs)
    ensures bs != [] ==> Clean(bs)[0].free == bs[0].free
    decreases |bs|
  {
    if |bs| >= 2 {
      if bs[0].free && bs[1].free {
        CleanHalves(bs[2..]);
        var c := Clean(bs[2..]);
        assert Clean(bs)[1..] == c;
        assert bs[1..][1..] == bs[2..];
        assert |bs| > 2 ==> bs[1..][1] == bs[2];
      } else {
        CleanHalves(bs[1..]);
        assert Clean(bs)[1..] == Clean(bs[1..]);
      }
    }
  }

  // ----- malloc ------------------------------------------------------------

  predicate Fits(b: Chunk, n: nat) { b.free && b.size >= n }

  /** Where the loop of `malloc` stops: the first free chunk that is large enough, or the last chunk. */
  function Stop(bs: seq<Chunk>, n: nat): (k: nat)
    requires bs != []
    ensures k < |bs|
    ensures forall i :: 0 <= i < k ==> !Fits(bs[i], n)
    ensures Fits(bs[k], n) || k == |bs| - 1
  {
    if Fits(bs[0], n) || |bs| == 1 then 0
    else
      var k := Stop(bs[1..], n);
      assert forall i :: 0 <= i < k ==> !Fits(bs[1..][i], n);
      assert forall i :: 0 < i < |bs| ==> bs[i] == bs[1..][i - 1];
      1 + k
  }

  /** The chunk becomes an allocated one, and what is left beyond another header a free one. */
  function Cut(b: Chunk, n: nat): seq<Chunk> {
    if b.size <= n + HEADER then [Chunk(b.size, false)]
    else [Chunk(n, false), Chunk(b.size - n - HEADER, true)]
  }

  function AfterMalloc(bs: seq<Chunk>, n: nat): seq<Chunk>
    requires bs != []
  {
    var k := Stop(bs, n);
    if n == 0 || !Fits(bs[k], n) then bs else bs[..k] + Cut(bs[k], n) + bs[k + 1..]
  }

  /** Chunk k is the first that is free and has at least n bytes. */
  predicate FirstFit(bs: seq<Chunk>, n: nat, k: nat) {
    k < |bs| && bs[k].free && bs[k].size >= n && forall i :: 0 <= i < k ==> !(bs[i].free && bs[i].size >= n)
  }

  /**
   * `malloc` takes the first chunk that fits, whole when at most 24 bytes would be left, and otherwise cut into the
   * bytes asked for and a free rest behind a header; when none fits it takes nothing.
   */
  lemma MallocPlain(a: nat, bs: seq<Chunk>, n: nat, k: nat)
    requires n > 0 && FirstFit(bs, n, k)
    ensures AfterMalloc(bs, n) == bs[..k]
      + (if bs[k].size <= n + 24 then [Chunk(bs[k].size, false)]
         else [Chunk(n, false), Chunk(bs[k].size - n - 24, true)])
      + bs[k + 1..]
    ensures Granted(a, bs, n).start == Addr(a, bs, k) + 24
    ensures Granted(a, bs, n).size == if bs[k].size <= n + 24 then bs[k].size else n
  {
    assert Stop(bs, n) == k;
  }

  lemma MallocNothing(bs: seq<Chunk>, n: nat)
    requires bs != [] && forall k: nat :: !FirstFit(bs, n, k)
    ensures AfterMalloc(bs, n) == bs
  {
    var k := Stop(bs, n);
    assert !FirstFit(bs, n, k);
  }

  /** The payload handed out, when there is one. */
  function Granted(a: nat, bs: seq<Chunk>, n: nat): Payload
    requires bs != []
  {
    var k := Stop(bs, n);
    Payload(Addr(a, bs, k) + HEADER, Cut(bs[k], n)[0].size)
  }

  lemma Split3(bs: seq<Chunk>, k: nat)
    requires k < |bs|
    ensures bs == bs[..k] + [bs[k]] + bs[k + 1..]
  {
  }

  /** Replacing chunk k by chunks over the same bytes. */
  lemma Replace(a: nat, bs: seq<Chunk>, k: nat, mid: seq<Chunk>)
    requires k < |bs| && Extent(mid) == HEADER + bs[k].size
    ensures Extent(bs[..k] + mid + bs[k + 1..]) == Extent(bs)
    ensures var e := Addr(a, bs, k);
      && Live(a, bs[..k] + mid + bs[k + 1..]) == Live(a, bs[..k]) + Live(e, mid) + Live(NextAddr(e, bs[k]), bs[k + 1..])
      && Live(a, bs) == Live(a, bs[..k]) + Live(e, [bs[k]]) + Live(NextAddr(e, bs[k]), bs[k + 1..])
  {
    hide Extent, Live, Addr;
    AddrExtent(a, bs, k);
    Split3(bs, k);
    ReplaceParts(a, bs[..k], bs[k], mid, bs[k + 1..]);
  }

  lemma ReplaceParts(a: nat, x: seq<Chunk>, b: Chunk, mid: seq<Chunk>, z: seq<Chunk>)
    requires Extent(mid) == HEADER + b.size
    ensures Extent(x + mid + z) == Extent(x + [b] + z)
    ensures var e := a + Extent(x);
      && Live(a, x + mid + z) == Live(a, x) + Live(e, mid) + Live(NextAddr(e, b), z)
      && Live(a, x + [b] + z) == Live(a, x) + Live(e, [b]) + Live(NextAddr(e, b), z)
  {
    OneExtent(b);
    hide Extent, Live;
    Concat3(a, x, mid, z);
    Concat3(a, x, [b], z);
  }

  lemma OneExtent(b: Chunk)
    ensures Extent([b]) == HEADER + b.size
  {
  }

  lemma Concat3(a: nat, x: seq<Chunk>, y: seq<Chunk>, z: seq<Chunk>)
    ensures Extent(x + y + z) == Extent(x) + Extent(y) + Extent(z)
    ensures Live(a, x + y + z) == Live(a, x) + Live(a + Extent(x), y) + Live(a + Extent(x) + Extent(y), z)
  {
    hide Extent, Live;
    ExtentConcat(x, y);
    ExtentConcat(x + y, z);
    LiveConcat(a, x, y);
    LiveConcat(a, x + y, z);
  }

  lemma CutEffect(e: nat, b: Chunk, n: nat)
    requires Fits(b, n)
    ensures var p := Payload(e + HEADER, Cut(b, n)[0].size);
      n <= p.size <= n + HEADER && Live(e, Cut(b, n)) == {p} && Live(e, [b]) == {} &&
        Extent(Cut(b, n)) == HEADER + b.size
  {
    var c := Cut(b, n);
    assert [b][1..] == [];
    if |c| == 2 {
      assert c[1..] == [c[1]] && [c[1]][1..] == [];
      LiveConcat(e, [c[0]], [c[1]]);
    }
  }

  /**
   * `malloc` of n > 0 bytes: either no free chunk is large enough and nothing changes, or one payload of at least n
   * and at most n + 24 bytes, disjoint from every live one, is added and every other live payload stays.
   */
  lemma MallocExact(a: nat, bs: seq<Chunk>, n: nat)
    requires bs != [] && n > 0
    ensures Extent(AfterMalloc(bs, n)) == Extent(bs)
    ensures if exists i :: 0 <= i < |bs| && Fits(bs[i], n) then
        var p := Granted(a, bs, n);
        && n <= p.size <= n + HEADER
        && Live(a, AfterMalloc(bs, n)) == Live(a, bs) + {p}
        && (forall q :: q in Live(a, bs) ==> q.End() + HEADER <= p.start || p.End() + HEADER <= q.start)
      else AfterMalloc(bs, n) == bs
  {
    var k := Stop(bs, n);
    if Fits(bs[k], n) {
      var e := Addr(a, bs, k);
      var p := Granted(a, bs, n);
      CutEffect(e, bs[k], n);
      Replace(a, bs, k, Cut(bs[k], n));
      GrantApart(a, bs, k, p);
    }
  }

  lemma GrantApart(a: nat, bs: seq<Chunk>, k: nat, p: Payload)
    requires k < |bs| && bs[k].free && p.start == Addr(a, bs, k) + HEADER && p.size <= bs[k].size
    ensures forall q :: q in Live(a, bs) ==> q.End() + HEADER <= p.start || p.End() + HEADER <= q.start
  {
    var whole := [Chunk(bs[k].size, false)];
    Replace(a, bs, k, whole);
    var mine := Payload(Addr(a, bs, k) + HEADER, bs[k].size);
    assert Live(Addr(a, bs, k), whole) == {mine} && Live(Addr(a, bs, k), [bs[k]]) == {};
    forall q | q in Live(a, bs) ensures q.End() + HEADER <= p.start || p.End() + HEADER <= q.start {
      AddrExtent(a, bs, k);
      if q in Live(a, bs[..k]) {
        LiveInside(a, bs[..k], q);
      } else {
        LiveInside(NextAddr(Addr(a, bs, k), bs[k]), bs[k + 1..], q);
      }
    }
  }

  // ----- free --------------------------------------------------------------

  function AfterFree(bs: seq<Chunk>, k: nat): seq<Chunk>
    requires k < |bs|
  {
    Clean(bs[k := Chunk(bs[k].size, true)])
  }

  /** Freeing a free chunk is one more pass of `clean`. */
  lemma FreeAgain(a: nat, bs: seq<Chunk>, k: nat)
    requires k < |bs| && bs[k].free
    ensures AfterFree(bs, k) == Clean(bs) && Pairs(Clean(bs)) <= Pairs(bs)
    ensures Extent(Clean(bs)) == Extent(bs) && Live(a, Clean(bs)) == Live(a, bs)
  {
    assert bs[k := Chunk(bs[k].size, true)] == bs;
    CleanLive(a, bs);
    CleanHalves(bs);
  }

  function PayloadOf(a: nat, bs: seq<Chunk>, k: nat): Payload
    requires k < |bs|
  {
    Payload(Addr(a, bs, k) + HEADER, bs[k].size)
  }

  /** `free` removes exactly the freed payload, and the chunks still tile the arena. */
  lemma FreeExact(a: nat, bs: seq<Chunk>, k: nat)
    requires k < |bs| && !bs[k].free
    ensures Extent(AfterFree(bs, k)) == Extent(bs)
    ensures PayloadOf(a, bs, k) in Live(a, bs)
    ensures Live(a, AfterFree(bs, k)) == Live(a, bs) - {PayloadOf(a, bs, k)}
  {
    var p, mid := PayloadOf(a, bs, k), [Chunk(bs[k].size, true)];
    assert bs[k := mid[0]] == bs[..k] + mid + bs[k + 1..];
    assert Live(Addr(a, bs, k), mid) == {} && Live(Addr(a, bs, k), [bs[k]]) == {p};
    Replace(a, bs, k, mid);
    CleanLive(a, bs[k := mid[0]]);
    AddrExtent(a, bs, k);
    if p in Live(a, bs[..k]) { LiveInside(a, bs[..k], p); }
    if p in Live(NextAddr(Addr(a, bs, k), bs[k]), bs[k + 1..]) {
      LiveInside(NextAddr(Addr(a, bs, k), bs[k]), bs[k + 1..], p);
    }
  }

  // ----- adjacent free chunks ----------------------------------------------

  function Seam(x: seq<Chunk>, y: seq<Chunk>): nat {
    if x != [] && y != [] && x[|x| - 1].free && y[0].free then 1 else 0
  }

  lemma {:induction false} PairsConcat(x: seq<Chunk>, y: seq<Chunk>)
    ensures Pairs(x + y) == Pairs(x) + Pairs(y) + Seam(x, y)
  {
    if x == [] {
      assert x + y == y;
    } else {
      assert (x + y)[1..] == x[1..] + y;
      PairsConcat(x[1..], y);
    }
  }

  lemma PairsReplace(bs: seq<Chunk>, k: nat, mid: seq<Chunk>)
    requires k < |bs| && mid != []
    ensures Pairs(bs[..k] + mid + bs[k + 1..]) ==
      Pairs(bs[..k]) + Pairs(mid) + Pairs(bs[k + 1..]) + Seam(bs[..k], mid) + Seam(mid, bs[k + 1..])
    ensures Pairs(bs) == Pairs(bs[..k]) + Pairs(bs[k + 1..]) + Seam(bs[..k], [bs[k]]) + Seam([bs[k]], bs[k + 1..])
  {
    PairsConcat(bs[..k], mid);
    PairsConcat(bs[..k] + mid, bs[k + 1..]);
    Split3(bs, k);
    PairsConcat(bs[..k], [bs[k]]);
    PairsConcat(bs[..k] + [bs[k]], bs[k + 1..]);
  }

  lemma PairsAfterMalloc(bs: seq<Chunk>, n: nat)
    requires bs != []
    ensures Pairs(AfterMalloc(bs, n)) <= Pairs(bs)
  {
    var k := Stop(bs, n);
    if n > 0 && Fits(bs[k], n) {
      PairsReplace(bs, k, Cut(bs[k], n));
    }
  }

  lemma PairsAfterFree(bs: seq<Chunk>, k: nat)
    requires k < |bs| && Pairs(bs) <= 1
    ensures Pairs(AfterFree(bs, k)) <= 1
  {
    var mid := [Chunk(bs[k].size, true)];
    assert bs[k := mid[0]] == bs[..k] + mid + bs[k + 1..];
    PairsReplace(bs, k, mid);
    CleanHalves(bs[k := mid[0]]);
  }

  /** What a bound of one on the pairs means: no three free chunks in a row, and at most one place with two. */
  lemma {:induction false} OnePair(bs: seq<Chunk>, i: nat, j: nat)
    requires Pairs(bs) <= 1 && i < j && j + 1 < |bs|
    requires bs[i].free && bs[i + 1].free && bs[j].free && bs[j + 1].free
    ensures false
  {
    if i == 0 {
      SomePair(bs[1..], j - 1);
    } else {
      OnePair(bs[1..], i - 1, j - 1);
    }
  }

  lemma {:induction false} SomePair(bs: seq<Chunk>, j: nat)
    requires j + 1 < |bs| && bs[j].free && bs[j + 1].free
    ensures Pairs(bs) >= 1
  {
    if j > 0 { SomePair(bs[1..], j - 1); }
  }

  // ----- whole runs --------------------------------------------------------

  /** A request, or `free` on the payload of the chunk at a position, which may be free already. */
  datatype HeapOp = Malloc(n: nat) | Free(k: nat)

  predicate Allowed(bs: seq<Chunk>, op: HeapOp) {
    bs != [] && (op.Free? ==> op.k < |bs|)
  }

  function After(bs: seq<Chunk>, op: HeapOp): (r: seq<Chunk>)
    requires Allowed(bs, op)
    ensures r != []
  {
    match op
    case Malloc(n) => AfterMalloc(bs, n)
    case Free(k) => AfterFree(bs, k)
  }

  predicate AllowedRun(bs: seq<Chunk>, ops: seq<HeapOp>)
    decreases |ops|
  {
    ops == [] || (Allowed(bs, ops[0]) && AllowedRun(After(bs, ops[0]), ops[1..]))
  }

  function RunHeap(bs: seq<Chunk>, ops: seq<HeapOp>): seq<Chunk>
    requires AllowedRun(bs, ops)
    decreases |ops|
  {
    if ops == [] then bs else RunHeap(After(bs, ops[0]), ops[1..])
  }

  predicate Releases(a: nat, bs: seq<Chunk>, ops: seq<HeapOp>, p: Payload)
    requires AllowedRun(bs, ops)
    decreases |ops|
  {
    ops != [] && ((ops[0].Free? && PayloadOf(a, bs, ops[0].k) == p) || Releases(a, After(bs, ops[0]), ops[1..], p))
  }

  /**
   * Over every run of `malloc` and `free` on a fresh heap the chunks tile the arena exactly, there is at most one
   * pair of adjacent free chunks, and a live payload keeps its place and size until it is released.
   */
  lemma {:induction false} RunInvariant(a: nat, bs: seq<Chunk>, ops: seq<HeapOp>)
    requires AllowedRun(bs, ops) && Pairs(bs) <= 1
    ensures var r := RunHeap(bs, ops);
      && Extent(r) == Extent(bs) && Pairs(r) <= 1
      && forall p :: p in Live(a, bs) && !Releases(a, bs, ops, p) ==> p in Live(a, r)
    decreases |ops|
  {
    if ops != [] {
      match ops[0] {
        case Malloc(n) =>
          if n > 0 { MallocExact(a, bs, n); }
          PairsAfterMalloc(bs, n);
        case Free(k) =>
          if bs[k].free {
            FreeAgain(a, bs, k);
          } else {
            FreeExact(a, bs, k);
            PairsAfterFree(bs, k);
          }
      }
      RunInvariant(a, After(bs, ops[0]), ops[1..]);
    }
  }
}
