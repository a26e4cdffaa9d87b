/** The firmware memory map: merging descriptors into blocks. */
module MemoryMap {
  datatype MemoryType =
    | Reserved | LoaderCode | LoaderData | BootServicesCode | BootServicesData
    | RuntimeServicesCode | RuntimeServicesData | Conventional | Unusable
    | ACPIReclaim | ACPIMemoryNVS | MemoryMappedIO | MemoryMappedIOPortSpace | PalCode
    | MaxMemoryType | OtherType(code: nat)

  /** The number of the type in the UEFI specification, section 7.2, GetMemoryMap; others by what they are beyond. */
  function Number(t: MemoryType): nat {
    match t
    case Reserved => 0
    case LoaderCode => 1
    case LoaderData => 2
    case BootServicesCode => 3
    case BootServicesData => 4
    case RuntimeServicesCode => 5
    case RuntimeServicesData => 6
    case Conventional => 7
    case Unusable => 8
    case ACPIReclaim => 9
    case ACPIMemoryNVS => 10
    case MemoryMappedIO => 11
    case MemoryMappedIOPortSpace => 12
    case PalCode => 13
    case MaxMemoryType => 14
    case OtherType(code) => 15 + code
  }

  /** The type that a number stands for. */
  function KindOf(number: nat): MemoryType {
    if number == 0 then Reserved
    else if number == 1 then LoaderCode
    else if number == 2 then LoaderData
    else if number == 3 then BootServicesCode
    else if number == 4 then BootServicesData
    else if number == 5 then RuntimeServicesCode
    else if number == 6 then RuntimeServicesData
    else if number == 7 then Conventional
    else if number == 8 then Unusable
    else if number == 9 then ACPIReclaim
    else if number == 10 then ACPIMemoryNVS
    else if number == 11 then MemoryMappedIO
    else if number == 12 then MemoryMappedIOPortSpace
    else if number == 13 then PalCode
    else if number == 14 then MaxMemoryType
    else OtherType(number - 15)
  }

  lemma NumberExact(number: nat, t: MemoryType)
    ensures Number(KindOf(number)) == number && KindOf(Number(t)) == t
  {
  }

  /** Loader data, boot services code and data, conventional memory, and types that the kernel does not know. */
  predicate KernelMayUse(number: nat) { number in {2, 3, 4, 7} || number > 14 }

  lemma UsableExact(t: MemoryType)
    ensures IsUsable(t) <==> KernelMayUse(Number(t))
  {
  }

  predicate IsUsable(t: MemoryType) {
    match t
    case Reserved | LoaderCode | RuntimeServicesCode | RuntimeServicesData | Unusable | ACPIMemoryNVS
       | ACPIReclaim | MemoryMappedIO | MemoryMappedIOPortSpace | PalCode | MaxMemoryType => false
    case _ => true
  }

  /** A firmware descriptor, and also a merged block. */
  datatype Block = Block(kind: MemoryType, start: nat, pages: nat) {
    function End(): nat { start + pages * 0x1000 }
  }

  predicate Mergeable(a: Block, b: Block) { b.kind == a.kind && b.start == a.End() }

  /** What one descriptor does to the blocks so far. */
  function Extend(bs: seq<Block>, d: Block): seq<Block> {
    if bs != [] && Mergeable(bs[|bs| - 1], d)
    then bs[..|bs| - 1] + [bs[|bs| - 1].(pages := bs[|bs| - 1].pages + d.pages)]
    else bs + [d]
  }

  function Merge(ds: seq<Block>): seq<Block> {
    if ds == [] then [] else Extend(Merge(ds[..|ds| - 1]), ds[|ds| - 1])
  }

  datatype Page = Page(addr: nat, kind: MemoryType)

  function PagesOf(b: Block): (ps: seq<Page>)
    ensures |ps| == b.pages
  {
    seq(b.pages, i requires 0 <= i < b.pages => Page(b.start + i * 0x1000, b.kind))
  }

  /** Every page of the list, in order, with its type. */
  function Flatten(bs: seq<Block>): seq<Page> {
    if bs == [] then [] else Flatten(bs[..|bs| - 1]) + PagesOf(bs[|bs| - 1])
  }

  /** Page p is a page of some block. */
  predicate Holds(bs: seq<Block>, p: Page) {
    exists i, j :: 0 <= i < |bs| && 0 <= j < bs[i].pages && IsPage(bs[i], j, p)
  }

  predicate IsPage(b: Block, j: nat, p: Page) { p == Page(b.start + j * 4096, b.kind) }

  lemma {:induction false} FlattenHolds(bs: seq<Block>, p: Page)
    ensures p in Flatten(bs) <==> Holds(bs, p)
  {
    if bs != [] {
      var n := |bs| - 1;
      FlattenHolds(bs[..n], p);
      HoldsLast(bs, p);
      PageHolds(bs[n], p);
    }
  }

  lemma PageHolds(b: Block, p: Page)
    ensures p in PagesOf(b) <==> exists j :: 0 <= j < b.pages && IsPage(b, j, p)
  {
    if j :| 0 <= j < b.pages && IsPage(b, j, p) {
      assert PagesOf(b)[j] == p;
    }
    if p in PagesOf(b) {
      var j :| 0 <= j < b.pages && PagesOf(b)[j] == p;
      assert IsPage(b, j, p);
    }
  }

  lemma HoldsLast(bs: seq<Block>, p: Page)
    requires bs != []
    ensures var n := |bs| - 1;
      Holds(bs, p) <==> Holds(bs[..n], p) || exists j :: 0 <= j < bs[n].pages && IsPage(bs[n], j, p)
  {
    var n := |bs| - 1;
    if i, j :| 0 <= i < |bs| && 0 <= j < bs[i].pages && IsPage(bs[i], j, p) {
      if i < n { assert IsPage(bs[..n][i], j, p); }
    }
    if i, j :| 0 <= i < n && 0 <= j < bs[..n][i].pages && IsPage(bs[..n][i], j, p) {
      assert IsPage(bs[i], j, p);
    }
  }

  /** The blocks hold exactly the pages of the descriptors. */
  lemma MergeHolds(ds: seq<Block>, p: Page)
    ensures Holds(Merge(ds), p) <==> Holds(ds, p)
  {
    MergeExact(ds);
    FlattenHolds(ds, p);
    FlattenHolds(Merge(ds), p);
  }

  /** No two consecutive blocks could still be merged. */
  ghost predicate Normal(bs: seq<Block>) {
    forall i :: 0 < i < |bs| ==> !Mergeable(bs[i - 1], bs[i])
  }

  /** The number of maximal runs of descriptors each of which continues the one before. */
  function Runs(ds: seq<Block>): nat {
    if ds == [] then 0
    else Runs(ds[..|ds| - 1]) + if |ds| > 1 && Mergeable(ds[|ds| - 2], ds[|ds| - 1]) then 0 else 1
  }

  /** The last block ends where the last descriptor ends and has its type. */
  lemma MergeLast(ds: seq<Block>)
    requires ds != []
    ensures var bs := Merge(ds);
      bs != [] && bs[|bs| - 1].kind == ds[|ds| - 1].kind && bs[|bs| - 1].End() == ds[|ds| - 1].End()
  {
  }

  lemma PagesJoin(a: Block, b: Block)
    requires Mergeable(a, b)
    ensures PagesOf(a.(pages := a.pages + b.pages)) == PagesOf(a) + PagesOf(b)
  {
    var j := PagesOf(a.(pages := a.pages + b.pages));
    forall i | 0 <= i < a.pages + b.pages ensures j[i] == (PagesOf(a) + PagesOf(b))[i] {
      if i >= a.pages { assert a.start + i * 0x1000 == b.start + (i - a.pages) * 0x1000; }
    }
  }

  lemma FlattenSnoc(bs: seq<Block>, b: Block)
    ensures Flatten(bs + [b]) == Flatten(bs) + PagesOf(b)
  {
    assert (bs + [b])[..|bs|] == bs;
  }

  lemma ExtendExact(bs: seq<Block>, d: Block)
    requires Normal(bs)
    ensures Flatten(Extend(bs, d)) == Flatten(bs) + PagesOf(d) && Normal(Extend(bs, d))
  {
    if bs != [] && Mergeable(bs[|bs| - 1], d) {
      hide Normal, Flatten, Mergeable, PagesOf;
      NormalLonger(bs, d.pages);
      FlattenLonger(bs, d);
    } else {
      FlattenSnoc(bs, d);
    }
  }

  lemma FlattenLonger(bs: seq<Block>, d: Block)
    requires bs != [] && Mergeable(bs[|bs| - 1], d)
    ensures var k := |bs| - 1;
      Flatten(bs[..k] + [bs[k].(pages := bs[k].pages + d.pages)]) == Flatten(bs) + PagesOf(d)
  {
    hide Mergeable, PagesOf;
    var k := |bs| - 1;
    PagesJoin(bs[k], d);
    FlattenSnoc(bs[..k], bs[k].(pages := bs[k].pages + d.pages));
    hide Flatten;
    assert Flatten(bs[..k]) + (PagesOf(bs[k]) + PagesOf(d)) == (Flatten(bs[..k]) + PagesOf(bs[k])) + PagesOf(d);
  }

  lemma NormalLonger(bs: seq<Block>, n: nat)
    requires Normal(bs) && bs != []
    ensures var k := |bs| - 1; Normal(bs[..k] + [bs[k].(pages := bs[k].pages + n)])
  {
  }

  /** Merging keeps every page, its type and the order, leaves nothing to merge, and makes one block for each run. */
  lemma {:induction false} MergeExact(ds: seq<Block>)
    ensures Flatten(Merge(ds)) == Flatten(ds)
    ensures Normal(Merge(ds))
    ensures |Merge(ds)| == Runs(ds)
  {
    if ds != [] {
      var n := |ds| - 1;
      MergeExact(ds[..n]);
      ExtendExact(Merge(ds[..n]), ds[n]);
      if n > 0 {
        MergeLast(ds[..n]);
      }
    }
  }

  /** Descriptor i does not go on where the one before it ends, with memory of the same type. */
  predicate StartsRun(ds: seq<Block>, i: nat)
    requires i < |ds|
  {
    i == 0 || ds[i].kind != ds[i - 1].kind || ds[i].start != ds[i - 1].start + ds[i - 1].pages * 4096
  }

  /** There is one block for each descriptor that starts a run, and every block starts one. */
  lemma MergeRuns(ds: seq<Block>)
    ensures |Merge(ds)| == |set i: nat | i < |ds| && StartsRun(ds, i)|
    ensures forall i :: 0 <= i < |Merge(ds)| ==> StartsRun(Merge(ds), i)
  {
    MergeExact(ds);
    RunsCounted(ds);
  }

  lemma {:induction false} RunsCounted(ds: seq<Block>)
    ensures Runs(ds) == |set i: nat | i < |ds| && StartsRun(ds, i)|
  {
    if ds != [] {
      var n := |ds| - 1;
      RunsCounted(ds[..n]);
      var x, y := (set i: nat | i < n && StartsRun(ds[..n], i)), (set i: nat | i < |ds| && StartsRun(ds, i));
      assert forall i: nat :: i < n ==> StartsRun(ds[..n], i) == StartsRun(ds, i);
      assert Runs(ds) == Runs(ds[..n]) + if StartsRun(ds, n) then 1 else 0;
      hide StartsRun, Runs;
      assert y == if StartsRun(ds, n) then x + {n} else x;
    }
  }

  /** Blocks that are already merged are left as they are. */
  lemma {:induction false} MergeNormal(bs: seq<Block>)
    requires Normal(bs)
    ensures Merge(bs) == bs
  {
    if bs != [] {
      var n := |bs| - 1;
      MergeNormal(bs[..n]);
      assert bs[..n] + [bs[n]] == bs;
    }
  }

  lemma MergeIdempotent(ds: seq<Block>)
    ensures Merge(Merge(ds)) == Merge(ds)
  {
    MergeExact(ds);
    MergeNormal(Merge(ds));
  }
}
