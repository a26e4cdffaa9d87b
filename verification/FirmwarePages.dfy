/** Which memory of the firmware's map the frame allocator hands out. */
module FirmwarePages {
  import opened Readings
  import opened MemoryMap
  import opened Frames
  import opened Boot

  /** Address a is that of a page of a descriptor whose memory the kernel may use. */
  ghost predicate FirmwarePage(ds: seq<Block>, a: nat) {
    exists t :: KernelMayUse(Number(t)) && Holds(ds, Page(a, t))
  }

  // ----- slots and addresses ---------------------------------------------------

  lemma SlotHolds(bs: seq<Block>, p: Slot)
    requires p in Usable(EmptyBitmaps(bs))
    ensures p.i < |bs| && KernelMayUse(Number(bs[p.i].kind))
    ensures Holds(bs, Page(Address(EmptyBitmaps(bs), p), bs[p.i].kind))
  {
    UsableExact(bs[p.i].kind);
    assert IsPage(bs[p.i], p.j, Page(Address(EmptyBitmaps(bs), p), bs[p.i].kind));
  }

  lemma HoldsSlot(bs: seq<Block>, a: nat, t: MemoryType) returns (p: Slot)
    requires KernelMayUse(Number(t)) && Holds(bs, Page(a, t))
    ensures p in Usable(EmptyBitmaps(bs)) && Address(EmptyBitmaps(bs), p) == a
  {
    var i, j :| 0 <= i < |bs| && 0 <= j < bs[i].pages && IsPage(bs[i], j, Page(a, t));
    UsableExact(t);
    p := Slot(i, j);
    assert EmptyBitmaps(bs)[i].block == bs[i];
  }

  /** Page p of the bitmaps has address a. */
  predicate PageAt(bs: seq<FrameBlock>, p: Slot, a: nat) { p in Usable(bs) && Address(bs, p) == a }

  /** The usable pages are exactly those pages of the descriptors that the kernel may use. */
  lemma UsablePages(ds: seq<Block>, a: nat)
    ensures FirmwarePage(ds, a) <==> exists p :: PageAt(EmptyBitmaps(Merge(ds)), p, a)
  {
    var bs := Merge(ds);
    hide Merge, Holds, EmptyBitmaps, KernelMayUse;
    if t :| KernelMayUse(Number(t)) && Holds(ds, Page(a, t)) {
      MergeHolds(ds, Page(a, t));
      var p := HoldsSlot(bs, a, t);
      assert PageAt(EmptyBitmaps(bs), p, a);
    }
    if p :| PageAt(EmptyBitmaps(bs), p, a) {
      SlotFirmware(ds, p);
    }
  }

  lemma SlotFirmware(ds: seq<Block>, p: Slot)
    requires p in Usable(EmptyBitmaps(Merge(ds)))
    ensures p.i < |Merge(ds)| && FirmwarePage(ds, Address(EmptyBitmaps(Merge(ds)), p))
  {
    var bs := Merge(ds);
    hide Merge, Holds, KernelMayUse;
    SlotHolds(bs, p);
    MergeHolds(ds, Page(Address(EmptyBitmaps(bs), p), bs[p.i].kind));
  }

  // ----- what runs hand out ----------------------------------------------------

  /** Only usable pages are handed out, and the usable pages stay the same. */
  lemma {:induction false} HandedOutUsable(text: Text, bs: seq<FrameBlock>, ops: seq<FrameOp>, p: Slot)
    requires AllValid(bs) && HandsOut(text, bs, ops, p)
    ensures p in Usable(bs)
    decreases |ops|
  {
    ScanFirst(bs, 0, 0);
    if !(ops[0] == Allocate && Scan(bs, 0, 0) == Some(p)) {
      HandedOutUsable(text, After(text, bs, ops[0]), ops[1..], p);
      StepCount(text, bs, ops[0]);
    }
  }

  /** A run has the same blocks before and after. */
  lemma {:induction false} RunShape(text: Text, bs: seq<FrameBlock>, ops: seq<FrameOp>)
    requires AllValid(bs)
    ensures SameShape(bs, RunFrames(text, bs, ops))
    decreases |ops|
  {
    if ops != [] {
      StepFree(text, bs, ops[0]);
      RunShape(text, After(text, bs, ops[0]), ops[1..]);
    }
  }

  function Allocations(n: nat): (ops: seq<FrameOp>)
    ensures |ops| == n && forall i :: 0 <= i < n ==> ops[i] == Allocate
  {
    seq(n, _ => Allocate)
  }

  /** Enough allocations hand out every free page. */
  lemma {:induction false} AllFreeHandedOut(text: Text, bs: seq<FrameBlock>, n: nat, p: Slot)
    requires AllValid(bs) && p in Free(bs) && n >= |Free(bs)|
    ensures HandsOut(text, bs, Allocations(n), p)
    decreases n
  {
    hide Free, Usable, After, Scan;
    AllocateExact(text, bs);
    AllocateCount(text, bs);
    assert |Free(bs)| > 0;
    assert Allocations(n)[0] == Allocate && Allocations(n)[1..] == Allocations(n - 1);
    if Scan(bs, 0, 0) != Some(p) {
      AllFreeHandedOut(text, After(text, bs, Allocate), n - 1, p);
    }
  }

  // ----- from boot on ------------------------------------------------------------

  /** The bitmaps that boot leaves behind. */
  function BootBlocks(text: Text, ds: seq<Block>, from: nat, to: nat): (r: seq<FrameBlock>)
    ensures AllValid(r)
  {
    RunFrames(text, EmptyBitmaps(Merge(ds)), KernelOps(from, to))
  }

  lemma SameAddress(bs: seq<FrameBlock>, bs': seq<FrameBlock>, p: Slot)
    requires SameShape(bs, bs') && p.i < |bs|
    ensures Address(bs', p) == Address(bs, p)
  {
  }

  /** Over every run after boot, whatever is handed out is a page of a descriptor that the kernel may use. */
  lemma BootHandsOut(text: Text, ds: seq<Block>, from: nat, to: nat, ops: seq<FrameOp>, p: Slot)
    requires HandsOut(text, BootBlocks(text, ds, from, to), ops, p)
    ensures p.i < |BootBlocks(text, ds, from, to)|
    ensures FirmwarePage(ds, Address(BootBlocks(text, ds, from, to), p))
  {
    var first, blocks := EmptyBitmaps(Merge(ds)), BootBlocks(text, ds, from, to);
    HandedOutUsable(text, blocks, ops, p);
    RunShape(text, first, KernelOps(from, to));
    ShapeHits(text, first, blocks, 0);
    assert p in Usable(first) && p.i < |first|;
    hide FirmwarePage, Usable, EmptyBitmaps, RunFrames, Address;
    SameAddress(first, blocks, p);
    SlotFirmware(ds, p);
  }

  /** With enough allocations every such page is handed out, unless it has been reserved for the kernel image. */
  lemma BootReaches(text: Text, ds: seq<Block>, from: nat, to: nat, a: nat, n: nat) returns (p: Slot)
    requires FirmwarePage(ds, a) && n >= |Free(BootBlocks(text, ds, from, to))|
    ensures p.i < |BootBlocks(text, ds, from, to)| && Address(BootBlocks(text, ds, from, to), p) == a
    ensures p in KernelPages(text, EmptyBitmaps(Merge(ds)), from, to)
         || HandsOut(text, BootBlocks(text, ds, from, to), Allocations(n), p)
  {
    var first, blocks := EmptyBitmaps(Merge(ds)), BootBlocks(text, ds, from, to);
    UsablePages(ds, a);
    p :| PageAt(first, p, a);
    RunShape(text, first, KernelOps(from, to));
    assert p.i < |first|;
    hide EmptyBitmaps, Usable, Free, RunFrames, KernelPages, HandsOut;
    SameAddress(first, blocks, p);
    EmptyFree(Merge(ds));
    KernelReserved(text, first, from, to);
    if p !in KernelPages(text, first, from, to) {
      AllFreeHandedOut(text, blocks, n, p);
    }
  }
}
