/** The bitmap frame allocator: `kmallocPage`, `reservePage` and `freePage` over the merged blocks. */
module Frames {
  import opened Bits
  import opened Readings
  import opened MemoryMap

  /** A present block; `frames` is its bitmap, empty when the block is not usable. */
  datatype FrameBlock = FrameBlock(block: Block, frames: seq<bv8>) {
    predicate Valid() { IsUsable(block.kind) ==> |frames| == (block.pages + 7) / 8 }

    predicate Marked(j: nat)
      requires Valid() && IsUsable(block.kind) && j < block.pages
    {
      Bit(frames[j / 8], j % 8)
    }

    predicate Contains(addr: nat) { block.start <= addr < block.End() }
  }

  predicate Bit(b: bv8, k: nat)
    requires k < 8
  {
    b & Power(k) != 0
  }

  function Power(k: nat): bv8
    requires k < 8
  {
    (1 as bv8) << k
  }

  /**
   * The byte that `1 << index` leaves: as written the shift count is the page index itself, which the machine takes
   * modulo 32 before the result is cut to a byte.
   */
  function Mask(text: Text, index: nat): bv8 {
    match text
    case Written => if index % 32 < 8 then Power(index % 32) else 0
    case Corrected => Power(index % 8)
  }

  /** The page indexes for which reserving and freeing work. */
  predicate Effective(text: Text, index: nat) { text == Corrected || index % 32 < 8 }

  lemma BitOr(b: bv8, k: nat, k': nat)
    requires k < 8 && k' < 8
    ensures Bit(b | Power(k), k') <==> Bit(b, k') || k == k'
  {
    PowersApart(k, k');
    var p, q := Power(k), Power(k');
    assert (b | p) & q == (b & q) | (p & q);
  }

  lemma BitClear(b: bv8, k: nat, k': nat)
    requires k < 8 && k' < 8
    ensures Bit(b & !Power(k), k') <==> Bit(b, k') && k != k'
  {
    PowersApart(k, k');
    var p, q := Power(k), Power(k');
    if k == k' { assert (b & !p) & p == 0; } else { assert (b & !p) & q == b & q; }
  }

  lemma PowersApart(k: nat, k': nat)
    requires k < 8 && k' < 8
    ensures Power(k) & Power(k') == (if k == k' then Power(k) else 0) && Power(k) != 0
  {
  }

  /** `byte |= mask`, or `byte &= ~mask`. */
  function Masked(byte: bv8, mask: bv8, mark: bool): bv8 {
    if mark then byte | mask else byte & !mask
  }

  lemma MaskedBit(byte: bv8, k: nat, mark: bool, k': nat)
    requires k < 8 && k' < 8
    ensures Bit(Masked(byte, Power(k), mark), k') <==> if k == k' then mark else Bit(byte, k')
  {
    if mark { BitOr(byte, k, k'); } else { BitClear(byte, k, k'); }
  }

  lemma MaskEffective(text: Text, index: nat)
    ensures Mask(text, index) == if Effective(text, index) then Power(index % 8) else 0
  {
    if index % 32 < 8 { assert index % 32 == index % 8; }
  }

  lemma MaskNone(byte: bv8)
    ensures byte | 0 == byte && byte & !0 == byte
  {
  }

  lemma MaskByte(text: Text, byte: bv8, index: nat, mark: bool, k: nat)
    requires k < 8
    ensures Bit(Masked(byte, Mask(text, index), mark), k) <==>
      if k == index % 8 && Effective(text, index) then mark else Bit(byte, k)
  {
    MaskEffective(text, index);
    if Effective(text, index) {
      MaskedBit(byte, index % 8, mark, k);
    } else {
      MaskNone(byte);
    }
  }

  lemma SameBit(a: nat, b: nat)
    ensures a == b <==> a / 8 == b / 8 && a % 8 == b % 8
  {
  }

  /** Replacing one byte of a bitmap replaces the bits of that byte. */
  lemma ByteBit(frames: seq<bv8>, n: nat, byte: bv8, j: nat)
    requires n < |frames| && j / 8 < |frames|
    ensures Bit(frames[n := byte][j / 8], j % 8) == Bit(if j / 8 == n then byte else frames[j / 8], j % 8)
  {
  }

  predicate AllValid(bs: seq<FrameBlock>) { forall i :: 0 <= i < |bs| ==> bs[i].Valid() }

  /** Page j of block i. */
  datatype Slot = Slot(i: nat, j: nat)

  function Usable(bs: seq<FrameBlock>): set<Slot> {
    set i, j | 0 <= i < |bs| && 0 <= j < bs[i].block.pages && IsUsable(bs[i].block.kind) :: Slot(i, j)
  }

  predicate IsFree(bs: seq<FrameBlock>, p: Slot)
    requires AllValid(bs)
  {
    p.i < |bs| && IsUsable(bs[p.i].block.kind) && p.j < bs[p.i].block.pages && !bs[p.i].Marked(p.j)
  }

  /** The set of free pages that the bitmaps stand for. */
  function Free(bs: seq<FrameBlock>): set<Slot>
    requires AllValid(bs)
  {
    set p | p in Usable(bs) && IsFree(bs, p)
  }

  function Address(bs: seq<FrameBlock>, p: Slot): nat
    requires p.i < |bs|
  {
    bs[p.i].block.start + p.j * 0x1000
  }

  // ----- reserve and free --------------------------------------------------

  /** What one iteration of `reservePage` (mark) or `freePage` (clear) does to its block. */
  function Touch(text: Text, b: FrameBlock, addr: nat, mark: bool): (r: FrameBlock)
    requires b.Valid()
    ensures r.Valid() && r.block == b.block
  {
    if !IsUsable(b.block.kind) || !b.Contains(addr) then b
    else
      var index := (addr - b.block.start) / 0x1000;
      b.(frames := b.frames[index / 8 := Masked(b.frames[index / 8], Mask(text, index), mark)])
  }

  function TouchAll(text: Text, bs: seq<FrameBlock>, addr: nat, mark: bool): (r: seq<FrameBlock>)
    requires AllValid(bs)
    ensures AllValid(r) && |r| == |bs|
  {
    seq(|bs|, i requires 0 <= i < |bs| && bs[i].Valid() => Touch(text, bs[i], addr, mark))
  }

  /** The pages that contain addr and whose bit the written or corrected line reaches. */
  function Hits(text: Text, bs: seq<FrameBlock>, addr: nat): set<Slot> {
    set p | p in Usable(bs) && bs[p.i].Contains(addr) && p.j == (addr - bs[p.i].block.start) / 0x1000 &&
      Effective(text, p.j)
  }

  lemma TouchBit(text: Text, b: FrameBlock, addr: nat, mark: bool, j: nat)
    requires b.Valid() && IsUsable(b.block.kind) && j < b.block.pages
    ensures Touch(text, b, addr, mark).Marked(j) <==>
      if b.Contains(addr) && j == (addr - b.block.start) / 0x1000 && Effective(text, j) then mark else b.Marked(j)
  {
    if b.Contains(addr) {
      var index := (addr - b.block.start) / 0x1000;
      var byte := Masked(b.frames[index / 8], Mask(text, index), mark);
      ByteBit(b.frames, index / 8, byte, j);
      MaskByte(text, b.frames[index / 8], index, mark, j % 8);
      SameBit(j, index);
    }
  }

  /** `reservePage` removes exactly the pages it hits from the free set; `freePage` returns exactly those. */
  lemma TouchFree(text: Text, bs: seq<FrameBlock>, addr: nat, mark: bool)
    requires AllValid(bs)
    ensures var bs' := TouchAll(text, bs, addr, mark);
      && Usable(bs') == Usable(bs)
      && Free(bs') == if mark then Free(bs) - Hits(text, bs, addr) else Free(bs) + Hits(text, bs, addr)
  {
    var bs' := TouchAll(text, bs, addr, mark);
    assert forall i :: 0 <= i < |bs| ==> bs'[i].block == bs[i].block;
    hide Touch, FrameBlock.Marked, Effective;
    forall p | p in Usable(bs)
      ensures p in Free(bs') <==> if p in Hits(text, bs, addr) then !mark else p in Free(bs)
    {
      TouchBit(text, bs[p.i], addr, mark, p.j);
    }
  }

  // ----- allocate ----------------------------------------------------------

  /** The scan of `kmallocPage` from page j of block i on. */
  function Scan(bs: seq<FrameBlock>, i: nat, j: nat): (r: Option<Slot>)
    requires AllValid(bs)
    ensures r.Some? ==> IsFree(bs, r.value)
    decreases |bs| - i, if i < |bs| then bs[i].block.pages - j else 0
  {
    if i >= |bs| then None
    else if !IsUsable(bs[i].block.kind) || j >= bs[i].block.pages then Scan(bs, i + 1, 0)
    else if !bs[i].Marked(j) then Some(Slot(i, j))
    else Scan(bs, i, j + 1)
  }

  predicate Before(p: Slot, q: Slot) { p.i < q.i || (p.i == q.i && p.j < q.j) }

  /** `found` is the first free page at or after `from`; None means there is none. */
  ghost predicate FirstFrom(bs: seq<FrameBlock>, from: Slot, found: Option<Slot>)
    requires AllValid(bs)
  {
    && (found.Some? ==> IsFree(bs, found.value) && !Before(found.value, from))
    && (forall q :: IsFree(bs, q) && !Before(q, from) ==> found.Some? && !Before(q, found.value))
  }

  /** The scan finds the free page that comes first in block order, and finds none exactly when none is free. */
  lemma {:induction false} ScanFirst(bs: seq<FrameBlock>, i: nat, j: nat)
    requires AllValid(bs)
    ensures FirstFrom(bs, Slot(i, j), Scan(bs, i, j))
    decreases |bs| - i, if i < |bs| then bs[i].block.pages - j else 0
  {
    if i >= |bs| {
    } else if !IsUsable(bs[i].block.kind) || j >= bs[i].block.pages {
      ScanFirst(bs, i + 1, 0);
    } else if bs[i].Marked(j) {
      ScanFirst(bs, i, j + 1);
    }
  }

  function SetPage(b: FrameBlock, j: nat): (r: FrameBlock)
    requires b.Valid() && IsUsable(b.block.kind) && j < b.block.pages
    ensures r.Valid() && r.block == b.block
  {
    b.(frames := b.frames[j / 8 := Masked(b.frames[j / 8], Power(j % 8), true)])
  }

  lemma SetPageBit(b: FrameBlock, j: nat, j': nat)
    requires b.Valid() && IsUsable(b.block.kind) && j < b.block.pages && j' < b.block.pages
    ensures SetPage(b, j).Marked(j') <==> b.Marked(j') || j == j'
  {
    ByteBit(b.frames, j / 8, Masked(b.frames[j / 8], Power(j % 8), true), j');
    MaskedBit(b.frames[j / 8], j % 8, true, j' % 8);
    SameBit(j, j');
  }

  function MarkSlot(bs: seq<FrameBlock>, p: Slot): (r: seq<FrameBlock>)
    requires AllValid(bs) && IsFree(bs, p)
    ensures AllValid(r) && |r| == |bs|
  {
    bs[p.i := SetPage(bs[p.i], p.j)]
  }

  /** Handing out a page removes exactly that page from the free set. */
  lemma MarkSlotFree(bs: seq<FrameBlock>, p: Slot)
    requires AllValid(bs) && IsFree(bs, p)
    ensures Usable(MarkSlot(bs, p)) == Usable(bs) && Free(MarkSlot(bs, p)) == Free(bs) - {p}
  {
    var bs' := MarkSlot(bs, p);
    assert forall i :: 0 <= i < |bs| ==> bs'[i].block == bs[i].block;
    forall q | q in Usable(bs) ensures q in Free(bs') <==> q in Free(bs) && q != p {
      if q.i == p.i {
        SetPageBit(bs[p.i], p.j, q.j);
      }
    }
  }

  /** Page j of block i is free memory that the kernel may use, and lies at address a. */
  predicate Granted(bs: seq<FrameBlock>, i: nat, j: nat, a: nat)
    requires AllValid(bs)
  {
    && i < |bs| && KernelMayUse(Number(bs[i].block.kind)) && j < bs[i].block.pages
    && a == bs[i].block.start + j * 4096 && j / 8 < |bs[i].frames| && !Bit(bs[i].frames[j / 8], j % 8)
  }

  lemma GrantedScan(bs: seq<FrameBlock>)
    requires AllValid(bs)
    ensures Scan(bs, 0, 0).Some? ==>
      var p := Scan(bs, 0, 0).value; Granted(bs, p.i, p.j, Address(bs, p))
    ensures Scan(bs, 0, 0).None? ==> forall i: nat, j: nat, a: nat :: !Granted(bs, i, j, a)
  {
    hide Bit;
    ScanFirst(bs, 0, 0);
    if Scan(bs, 0, 0).Some? {
      UsableExact(bs[Scan(bs, 0, 0).value.i].block.kind);
    } else {
      forall i: nat, j: nat, a: nat ensures !Granted(bs, i, j, a) {
        GrantedFree(bs, i, j, a);
      }
    }
  }

  lemma GrantedFree(bs: seq<FrameBlock>, i: nat, j: nat, a: nat)
    requires AllValid(bs)
    ensures Granted(bs, i, j, a) ==> IsFree(bs, Slot(i, j))
  {
    if Granted(bs, i, j, a) { UsableExact(bs[i].block.kind); }
  }

  // ----- whole runs --------------------------------------------------------

  datatype FrameOp = Allocate | Reserve(addr: nat) | Release(addr: nat)

  function After(text: Text, bs: seq<FrameBlock>, op: FrameOp): (r: seq<FrameBlock>)
    requires AllValid(bs)
    ensures AllValid(r)
  {
    match op
    case Allocate => if Scan(bs, 0, 0).Some? then MarkSlot(bs, Scan(bs, 0, 0).value) else bs
    case Reserve(addr) => TouchAll(text, bs, addr, true)
    case Release(addr) => TouchAll(text, bs, addr, false)
  }

  /** The run hands out page p at some point. */
  predicate HandsOut(text: Text, bs: seq<FrameBlock>, ops: seq<FrameOp>, p: Slot)
    requires AllValid(bs)
    decreases |ops|
  {
    ops != [] && ((ops[0] == Allocate && Scan(bs, 0, 0) == Some(p)) ||
      HandsOut(text, After(text, bs, ops[0]), ops[1..], p))
  }

  function RunFrames(text: Text, bs: seq<FrameBlock>, ops: seq<FrameOp>): (r: seq<FrameBlock>)
    requires AllValid(bs)
    ensures AllValid(r)
    decreases |ops|
  {
    if ops == [] then bs else RunFrames(text, After(text, bs, ops[0]), ops[1..])
  }

  /** The same pages with the same addresses, whatever is free. */
  ghost predicate SameShape(bs: seq<FrameBlock>, bs': seq<FrameBlock>) {
    |bs'| == |bs| && forall i :: 0 <= i < |bs| ==> bs'[i].block == bs[i].block
  }

  lemma ShapeHits(text: Text, bs: seq<FrameBlock>, bs': seq<FrameBlock>, addr: nat)
    requires SameShape(bs, bs')
    ensures Usable(bs') == Usable(bs) && Hits(text, bs', addr) == Hits(text, bs, addr)
  {
  }

  function FreeAfter(text: Text, bs: seq<FrameBlock>, op: FrameOp): set<Slot>
    requires AllValid(bs)
  {
    match op
    case Allocate => if Scan(bs, 0, 0).Some? then Free(bs) - {Scan(bs, 0, 0).value} else Free(bs)
    case Reserve(addr) => Free(bs) - Hits(text, bs, addr)
    case Release(addr) => Free(bs) + Hits(text, bs, addr)
  }

  /** One step on the set of free pages: the least free page goes, or the hit pages go or come back. */
  lemma StepFree(text: Text, bs: seq<FrameBlock>, op: FrameOp)
    requires AllValid(bs)
    ensures var bs' := After(text, bs, op);
      SameShape(bs, bs') && Free(bs') == FreeAfter(text, bs, op)
  {
    match op
    case Allocate =>
      ScanFirst(bs, 0, 0);
      if Scan(bs, 0, 0).Some? { MarkSlotFree(bs, Scan(bs, 0, 0).value); }
    case Reserve(addr) => TouchFree(text, bs, addr, true);
    case Release(addr) => TouchFree(text, bs, addr, false);
  }

  /**
   * A page that is not free is not handed out again, over any run, until some `freePage` reaches its bit. It covers
   * both a page just handed out and a page just reserved.
   */
  lemma {:induction false} HeldUntilReleased(text: Text, bs: seq<FrameBlock>, ops: seq<FrameOp>, p: Slot)
    requires AllValid(bs) && p !in Free(bs)
    requires forall i :: 0 <= i < |ops| && ops[i].Release? ==> p !in Hits(text, bs, ops[i].addr)
    ensures !HandsOut(text, bs, ops, p) && p !in Free(RunFrames(text, bs, ops))
    decreases |ops|
  {
    if ops != [] {
      var bs' := After(text, bs, ops[0]);
      StepFree(text, bs, ops[0]);
      ScanFirst(bs, 0, 0);
      forall i | 0 <= i < |ops[1..]| && ops[1..][i].Release? ensures p !in Hits(text, bs', ops[1..][i].addr) {
        ShapeHits(text, bs, bs', ops[i + 1].addr);
      }
      HeldUntilReleased(text, bs', ops[1..], p);
    }
  }

  /** `kmallocPage` returns a page exactly when one is free; that page was free, is the first, and no longer is. */
  lemma AllocateExact(text: Text, bs: seq<FrameBlock>)
    requires AllValid(bs)
    ensures Scan(bs, 0, 0).None? <==> Free(bs) == {}
    ensures Scan(bs, 0, 0).Some? ==>
      var p := Scan(bs, 0, 0).value;
      && p in Free(bs) && (forall q :: q in Free(bs) && q != p ==> Before(p, q))
      && Free(After(text, bs, Allocate)) == Free(bs) - {p}
  {
    hide After, FrameBlock.Marked, Scan;
    ScanFirst(bs, 0, 0);
    StepFree(text, bs, Allocate);
    assert forall q :: IsFree(bs, q) <==> q in Free(bs);
    if Free(bs) != {} {
      var q :| q in Free(bs);
      assert !Before(q, Slot(0, 0));
    }
  }

  /** What one step takes from the free set: the page handed out, or the free pages that `reservePage` reaches. */
  function Taken(text: Text, bs: seq<FrameBlock>, op: FrameOp): set<Slot>
    requires AllValid(bs)
  {
    match op
    case Allocate => if Scan(bs, 0, 0).Some? then {Scan(bs, 0, 0).value} else {}
    case Reserve(addr) => Hits(text, bs, addr) * Free(bs)
    case Release(addr) => {}
  }

  /** What one step returns to the free set: the used pages that `freePage` reaches. */
  function Returned(text: Text, bs: seq<FrameBlock>, op: FrameOp): set<Slot>
    requires AllValid(bs)
  {
    if op.Release? then Hits(text, bs, op.addr) - Free(bs) else {}
  }

  function GrantOf(bs: seq<FrameBlock>, op: FrameOp): nat
    requires AllValid(bs)
  {
    if op == Allocate && Scan(bs, 0, 0).Some? then 1 else 0
  }

  function ReserveOf(text: Text, bs: seq<FrameBlock>, op: FrameOp): nat
    requires AllValid(bs)
  {
    if op.Reserve? then |Taken(text, bs, op)| else 0
  }

  /** How often the run hands out a page. */
  function Grants(text: Text, bs: seq<FrameBlock>, ops: seq<FrameOp>): nat
    requires AllValid(bs)
    decreases |ops|
  {
    if ops == [] then 0
    else GrantOf(bs, ops[0]) + Grants(text, After(text, bs, ops[0]), ops[1..])
  }

  /** How many free pages the run reserves. */
  function Reserves(text: Text, bs: seq<FrameBlock>, ops: seq<FrameOp>): nat
    requires AllValid(bs)
    decreases |ops|
  {
    if ops == [] then 0
    else ReserveOf(text, bs, ops[0]) + Reserves(text, After(text, bs, ops[0]), ops[1..])
  }

  /** How many used pages the run frees. */
  function Releases(text: Text, bs: seq<FrameBlock>, ops: seq<FrameOp>): nat
    requires AllValid(bs)
    decreases |ops|
  {
    if ops == [] then 0 else |Returned(text, bs, ops[0])| + Releases(text, After(text, bs, ops[0]), ops[1..])
  }

  /** How many times page p becomes used and how many times it becomes free during the run. */
  function TimesTaken(text: Text, bs: seq<FrameBlock>, ops: seq<FrameOp>, p: Slot): nat
    requires AllValid(bs)
    decreases |ops|
  {
    if ops == [] then 0
    else (if p in Taken(text, bs, ops[0]) then 1 else 0) + TimesTaken(text, After(text, bs, ops[0]), ops[1..], p)
  }

  function TimesReturned(text: Text, bs: seq<FrameBlock>, ops: seq<FrameOp>, p: Slot): nat
    requires AllValid(bs)
    decreases |ops|
  {
    if ops == [] then 0
    else (if p in Returned(text, bs, ops[0]) then 1 else 0) + TimesReturned(text, After(text, bs, ops[0]), ops[1..], p)
  }

  lemma StepCount(text: Text, bs: seq<FrameBlock>, op: FrameOp)
    requires AllValid(bs)
    ensures var bs' := After(text, bs, op);
      && Usable(bs') == Usable(bs)
      && Free(bs') == Free(bs) - Taken(text, bs, op) + Returned(text, bs, op)
      && |Free(bs')| + |Taken(text, bs, op)| == |Free(bs)| + |Returned(text, bs, op)|
  {
    hide After, Free, Usable, Taken, Returned;
    StepSets(text, bs, op);
    TakenFree(text, bs, op);
    SetCount(Free(bs), Taken(text, bs, op), Returned(text, bs, op));
  }

  lemma StepSets(text: Text, bs: seq<FrameBlock>, op: FrameOp)
    requires AllValid(bs)
    ensures var bs' := After(text, bs, op);
      Usable(bs') == Usable(bs) && Free(bs') == Free(bs) - Taken(text, bs, op) + Returned(text, bs, op)
  {
    hide Hits, After, Free, Usable, Scan;
    StepFree(text, bs, op);
    ShapeHits(text, bs, After(text, bs, op), 0);
    assert op.Reserve? ==> Free(bs) - Hits(text, bs, op.addr) == Free(bs) - Taken(text, bs, op) + {};
    assert op.Release? ==>
      Free(bs) + Hits(text, bs, op.addr) == Free(bs) - {} + Returned(text, bs, op);
  }

  lemma TakenSplit(text: Text, bs: seq<FrameBlock>, op: FrameOp)
    requires AllValid(bs)
    ensures |Taken(text, bs, op)| == GrantOf(bs, op) + ReserveOf(text, bs, op)
  {
  }

  lemma SetCount<T>(f: set<T>, out: set<T>, back: set<T>)
    requires out <= f && back !! f
    ensures |f - out + back| + |out| == |f| + |back|
  {
    assert f == (f - out) + out;
  }

  lemma TakenFree(text: Text, bs: seq<FrameBlock>, op: FrameOp)
    requires AllValid(bs)
    ensures Taken(text, bs, op) <= Free(bs) && Returned(text, bs, op) !! Free(bs)
  {
    ScanFirst(bs, 0, 0);
  }

  /**
   * Over every run the pages free at the end, handed out and reserved number as many as those free at the start and
   * released, and no page becomes or ceases to be usable.
   */
  lemma {:induction false} Conserved(text: Text, bs: seq<FrameBlock>, ops: seq<FrameOp>)
    requires AllValid(bs)
    ensures Usable(RunFrames(text, bs, ops)) == Usable(bs)
    ensures |Free(RunFrames(text, bs, ops))| + Grants(text, bs, ops) + Reserves(text, bs, ops)
         == |Free(bs)| + Releases(text, bs, ops)
    decreases |ops|
  {
    if ops != [] {
      hide After, Free, Usable, GrantOf, ReserveOf, Returned;
      StepCount(text, bs, ops[0]);
      TakenSplit(text, bs, ops[0]);
      Conserved(text, After(text, bs, ops[0]), ops[1..]);
    }
  }

  /** The same for each page: it is taken and returned alternately, so it is never handed out twice in between. */
  lemma {:induction false} PageAlternates(text: Text, bs: seq<FrameBlock>, ops: seq<FrameOp>, p: Slot)
    requires AllValid(bs)
    ensures TimesTaken(text, bs, ops, p) + (if p in Free(RunFrames(text, bs, ops)) then 1 else 0)
         == TimesReturned(text, bs, ops, p) + if p in Free(bs) then 1 else 0
    decreases |ops|
  {
    if ops != [] {
      hide After, Free, Usable, Hits;
      StepCount(text, bs, ops[0]);
      TakenFree(text, bs, ops[0]);
      PageAlternates(text, After(text, bs, ops[0]), ops[1..], p);
    }
  }

  /** A run of nothing but allocations hands out a page each time until none is left. */
  lemma {:induction false} AllocateAll(text: Text, bs: seq<FrameBlock>, ops: seq<FrameOp>)
    requires AllValid(bs) && forall i :: 0 <= i < |ops| ==> ops[i] == Allocate
    ensures Grants(text, bs, ops) == if |ops| <= |Free(bs)| then |ops| else |Free(bs)|
    decreases |ops|
  {
    if ops != [] {
      hide GrantOf, After, Free;
      AllocateCount(text, bs);
      AllocateAll(text, After(text, bs, ops[0]), ops[1..]);
    }
  }

  lemma AllocateCount(text: Text, bs: seq<FrameBlock>)
    requires AllValid(bs)
    ensures GrantOf(bs, Allocate) == if |Free(bs)| == 0 then 0 else 1
    ensures |Free(After(text, bs, Allocate))| == |Free(bs)| - GrantOf(bs, Allocate)
  {
    hide Free, Scan;
    AllocateExact(text, bs);
    assert |Free(bs)| == 0 <==> Free(bs) == {};
  }

  /** Where reserving works: the written shift reaches a page exactly when its index modulo 32 is below 8. */
  lemma ReserveWorks(text: Text, bs: seq<FrameBlock>, addr: nat, p: Slot)
    requires AllValid(bs) && p in Free(bs) && bs[p.i].Contains(addr) && p.j == (addr - bs[p.i].block.start) / 0x1000
    ensures p !in Free(After(text, bs, Reserve(addr))) <==> text == Corrected || p.j % 32 < 8
  {
    StepFree(text, bs, Reserve(addr));
  }

  /** Page 8 of a 16-page block, reserved as written, is handed out by the ninth allocation of the block. */
  lemma WrittenReserveFails()
    ensures var bs := [FrameBlock(Block(Conventional, 0x10_0000, 16), [0xFF, 0])];
      && AllValid(bs) && After(Written, bs, Reserve(0x10_8000)) == bs
      && HandsOut(Written, bs, [Reserve(0x10_8000), Allocate], Slot(0, 8))
  {
    var b := FrameBlock(Block(Conventional, 0x10_0000, 16), [0xFF, 0]);
    MaskNone(0);
    assert Mask(Written, 8) == 0;
    assert b.frames[1 := 0] == b.frames;
    assert Touch(Written, b, 0x10_8000, true) == b;
    assert TouchAll(Written, [b], 0x10_8000, true) == [b];
    assert !b.Marked(8) by { FullByte(0); }
    forall j | 0 <= j < 8 ensures b.Marked(j) {
      FullByte(j);
    }
    assert IsFree([b], Slot(0, 8));
    ScanFirst([b], 0, 0);
    assert Scan([b], 0, 0) == Some(Slot(0, 8));
  }

  /** Where freeing works: a used page comes back exactly when the written shift reaches its bit. */
  lemma ReleaseWorks(text: Text, bs: seq<FrameBlock>, addr: nat, p: Slot)
    requires AllValid(bs) && p in Usable(bs) - Free(bs)
    requires bs[p.i].Contains(addr) && p.j == (addr - bs[p.i].block.start) / 0x1000
    ensures p in Free(After(text, bs, Release(addr))) <==> text == Corrected || p.j % 32 < 8
  {
    StepFree(text, bs, Release(addr));
  }

  /** Page 8 of a block whose pages are all used, freed as written, is lost: the next allocation finds nothing. */
  lemma WrittenReleaseFails()
    ensures var bs := [FrameBlock(Block(Conventional, 0x10_0000, 16), [0xFF, 0xFF])];
      && AllValid(bs) && After(Written, bs, Release(0x10_8000)) == bs && Scan(bs, 0, 0) == None
      && Scan(After(Corrected, bs, Release(0x10_8000)), 0, 0) == Some(Slot(0, 8))
  {
    var b := FrameBlock(Block(Conventional, 0x10_0000, 16), [0xFF, 0xFF]);
    var bs := [b];
    MaskNone(0xFF);
    assert Mask(Written, 8) == 0;
    assert b.frames[1 := 0xFF] == b.frames;
    assert Touch(Written, b, 0x10_8000, false) == b;
    assert TouchAll(Written, bs, 0x10_8000, false) == bs;
    forall j | 0 <= j < 16 ensures b.Marked(j) {
      FullByte(j % 8);
    }
    assert Free(bs) == {};
    AllocateExact(Written, bs);
    var p, after := Slot(0, 8), After(Corrected, bs, Release(0x10_8000));
    StepFree(Corrected, bs, Release(0x10_8000));
    assert Hits(Corrected, bs, 0x10_8000) == {p};
    AllocateExact(Corrected, after);
  }

  lemma FullByte(j: nat)
    requires j < 8
    ensures Bit(0xFF, j) && !Bit(0, j)
  {
  }

  /** Different free pages have different addresses when the blocks do not overlap. */
  lemma AddressUnique(bs: seq<FrameBlock>, p: Slot, q: Slot)
    requires forall i, j :: 0 <= i < j < |bs| ==>
      bs[i].block.End() <= bs[j].block.start || bs[j].block.End() <= bs[i].block.start
    requires p in Usable(bs) && q in Usable(bs) && Address(bs, p) == Address(bs, q)
    ensures p == q
  {
  }

  // ----- the allocator itself ----------------------------------------------

  class FrameAllocator {
    const text: Text
    /** The present entries of the `blocks` array, which form a prefix of it. */
    var blocks: seq<FrameBlock>

    ghost predicate Valid()
      reads this
    {
      AllValid(blocks)
    }

    constructor (text: Text, bs: seq<FrameBlock>)
      requires AllValid(bs)
      ensures Valid() && this.text == text && blocks == bs
    {
      this.text := text;
      blocks := bs;
    }

    method KmallocPage() returns (addr: nat)
      requires Valid()
      modifies this
      ensures Valid() && blocks == After(text, old(blocks), Allocate)
      ensures match Scan(old(blocks), 0, 0)
              case Some(p) => addr == Address(old(blocks), p)
              case None => addr == WORD - 1
      ensures addr != WORD - 1 ==> exists i: nat, j: nat :: Granted(old(blocks), i, j, addr)
      ensures addr == WORD - 1 && (forall i, j, a: nat :: Granted(old(blocks), i, j, a) ==> a < WORD - 1) ==>
        forall i: nat, j: nat, a: nat :: !Granted(old(blocks), i, j, a)
    {
      GrantedScan(blocks);
      ghost var found := Scan(blocks, 0, 0);
      var i := 0;
      while i < |blocks|
        invariant i <= |blocks| && blocks == old(blocks) && Scan(blocks, i, 0) == found
      {
        if IsUsable(blocks[i].block.kind) {
          var j := 0;
          while j < blocks[i].block.pages
            invariant j <= blocks[i].block.pages && blocks == old(blocks) && Scan(blocks, i, j) == found
          {
            if !blocks[i].Marked(j) {
              blocks := blocks[i := SetPage(blocks[i], j)];
              return blocks[i].block.start + j * 0x1000;
            }
            j := j + 1;
          }
        }
        i := i + 1;
      }
      return WORD - 1;
    }

    method ReservePage(addr: nat)
      requires Valid()
      modifies this
      ensures Valid() && blocks == After(text, old(blocks), Reserve(addr))
    {
      hide Mask;
      for i := 0 to |blocks|
        invariant |blocks| == |old(blocks)| && AllValid(old(blocks))
        invariant forall k :: 0 <= k < |blocks| ==>
          blocks[k] == if k < i then Touch(text, old(blocks)[k], addr, true) else old(blocks)[k]
      {
        var b := blocks[i];
        if IsUsable(b.block.kind) && b.block.start <= addr && b.block.start + b.block.pages * 0x1000 > addr {
          var index := (addr - b.block.start) / 0x1000;
          blocks := blocks[i := b.(frames := b.frames[index / 8 := b.frames[index / 8] | Mask(text, index)])];
        }
      }
    }

    method FreePage(addr: nat)
      requires Valid()
      modifies this
      ensures Valid() && blocks == After(text, old(blocks), Release(addr))
    {
      hide Mask;
      for i := 0 to |blocks|
        invariant |blocks| == |old(blocks)| && AllValid(old(blocks))
        invariant forall k :: 0 <= k < |blocks| ==>
          blocks[k] == if k < i then Touch(text, old(blocks)[k], addr, false) else old(blocks)[k]
      {
        var b := blocks[i];
        if IsUsable(b.block.kind) && b.block.start <= addr && b.block.start + b.block.pages * 0x1000 > addr {
          var index := (addr - b.block.start) / 0x1000;
          blocks := blocks[i := b.(frames := b.frames[index / 8 := b.frames[index / 8] & !Mask(text, index)])];
        }
      }
    }
  }
}
