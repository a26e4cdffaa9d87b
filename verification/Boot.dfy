/** `initializeMMU`: from the firmware memory map to an identity-mapped kernel directory. */
module Boot {
  import opened RamBytes
  import opened Bits
  import opened Readings
  import opened PageTables
  import opened Mapping
  import opened Ranges
  import opened Permissions
  import opened Directories
  import opened MemoryMap
  import opened Frames
  import opened Mmu

  const KERNEL_FLAGS: nat := 3

  /** The bytes of the bitmap of a block. */
  function BitmapLength(b: Block): nat { if IsUsable(b.kind) then (b.pages + 7) / 8 else 0 }

  function BitmapBytes(bs: seq<Block>): nat {
    if bs == [] then 0 else BitmapBytes(bs[..|bs| - 1]) + BitmapLength(bs[|bs| - 1])
  }

  /** One bit for each page of the blocks that the kernel may use, rounded up to bytes, and nothing for the others. */
  lemma BitmapsSize(bs: seq<Block>, b: Block)
    ensures BitmapBytes([]) == 0
    ensures BitmapBytes(bs + [b]) == BitmapBytes(bs) + BitmapLength(b)
    ensures KernelMayUse(Number(b.kind)) ==> b.pages <= 8 * BitmapLength(b) < b.pages + 8
    ensures !KernelMayUse(Number(b.kind)) ==> BitmapLength(b) == 0
  {
    assert (bs + [b])[..|bs|] == bs;
    UsableExact(b.kind);
  }

  /** The bitmaps of all blocks, allocated one after the other and cleared. */
  function ClearBitmaps(s: Space, bs: seq<Block>): (r: Space)
    ensures r.brk == s.brk + BitmapBytes(bs) && |r.ram| == |s.ram|
  {
    if bs == [] then s
    else
      var r, n := ClearBitmaps(s, bs[..|bs| - 1]), BitmapLength(bs[|bs| - 1]);
      Space(ClearBytes(r.ram, r.brk, n), r.brk + n)
  }

  /** They are zero, and no other byte has changed. */
  lemma {:induction false} BitmapsExact(s: Space, bs: seq<Block>, x: nat)
    requires s.brk + BitmapBytes(bs) <= 8 * |s.ram|
    ensures ByteAt(ClearBitmaps(s, bs).ram, x) == if s.brk <= x < s.brk + BitmapBytes(bs) then 0 else ByteAt(s.ram, x)
    decreases |bs|
  {
    if bs != [] {
      hide ByteAt, ClearBytes;
      var init := bs[..|bs| - 1];
      var r := ClearBitmaps(s, init);
      BitmapsExact(s, init, x);
      ClearExact(r.ram, r.brk, BitmapLength(bs[|bs| - 1]), x);
    }
  }

  /** Mapping the first n blocks onto themselves. */
  function MapBlocks(s: Space, root: nat, bs: seq<Block>, n: nat): (r: Space)
    requires n <= |bs|
    ensures s.brk <= r.brk && |r.ram| == |s.ram|
  {
    if n == 0 then s
    else MapRange(MapBlocks(s, root, bs, n - 1), root, bs[n - 1].start, bs[n - 1].start, bs[n - 1].pages, KERNEL_FLAGS)
  }

  /** Page-aligned blocks below the 48-bit limit. */
  predicate Aligned(bs: seq<Block>) {
    forall i :: 0 <= i < |bs| ==> bs[i].start % 0x1000 == 0 && bs[i].End() <= 0x1_0000_0000_0000
  }

  predicate InBlock(b: Block, page: nat) { b.start / 0x1000 <= page < b.start / 0x1000 + b.pages }

  predicate Covered(bs: seq<Block>, n: nat, page: nat)
    requires n <= |bs|
  {
    exists i :: 0 <= i < n && InBlock(bs[i], page)
  }

  /** In `root` every page of the first n blocks leads to itself, present and writable, and nothing else is mapped. */
  ghost predicate Identity(m: seq<nat>, root: nat, bs: seq<Block>, n: nat)
    requires n <= |bs|
  {
    forall v: nat :: Translate(m, root, v) ==
      if Covered(bs, n, PageNo(v)) then Leaf(PageNo(v) * 0x1000 + KERNEL_FLAGS) else Fault
  }

  lemma SelfEntry(b: Block, v: nat)
    requires b.start % 0x1000 == 0 && b.End() <= 0x1_0000_0000_0000
    ensures Distance(v, b.start) < b.pages <==> InBlock(b, PageNo(v))
    ensures InBlock(b, PageNo(v)) ==>
      Or(Advance(b.start, LastVisit(Distance(v, b.start), b.pages)), KERNEL_FLAGS) == PageNo(v) * 0x1000 + KERNEL_FLAGS
  {
    var a, p := b.start / 0x1000, PageNo(v);
    assert b.start == a * 0x1000 && a + b.pages <= PAGES && PageNo(b.start) == a % PAGES;
    if b.pages > 0 {
      assert PageNo(b.start) == a;
      if p >= a {
        assert Distance(v, b.start) == p - a;
      } else {
        assert Distance(v, b.start) == p + PAGES - a;
      }
      if InBlock(b, p) {
        NoWrap(p - a, b.pages);
        assert Advance(b.start, p - a) == p * 0x1000;
        OrPage(p * 0x1000, KERNEL_FLAGS);
      }
    }
  }

  lemma IdentityStep(m: seq<nat>, m': seq<nat>, own: map<nat, Node>, root: nat, bs: seq<Block>, n: nat)
    requires 0 < n <= |bs| && Aligned(bs) && IsRoot(own, root) && Identity(m, root, bs, n - 1)
    requires UpdatesRange(m, m', own, root, bs[n - 1].start, bs[n - 1].start, bs[n - 1].pages, KERNEL_FLAGS)
    ensures Identity(m', root, bs, n)
  {
    forall v: nat
      ensures Translate(m', root, v) ==
        if Covered(bs, n, PageNo(v)) then Leaf(PageNo(v) * 0x1000 + KERNEL_FLAGS) else Fault
    {
      SelfEntry(bs[n - 1], v);
      assert Covered(bs, n, PageNo(v)) <==> Covered(bs, n - 1, PageNo(v)) || InBlock(bs[n - 1], PageNo(v));
    }
  }

  lemma {:induction false} IdentityEffect(s: Space, own: map<nat, Node>, lo: nat, root: nat, bs: seq<Block>, n: nat)
    returns (own': map<nat, Node>)
    requires n <= |bs| && Aligned(bs) && lo <= s.brk && MapBlocks(s, root, bs, n).Fits()
    requires Forest(s.ram, own, map[], lo, s.brk) && IsRoot(own, root) && Bare(s.ram, root)
    ensures var s' := MapBlocks(s, root, bs, n);
      Forest(s'.ram, own', map[], lo, s'.brk) && Identity(s'.ram, root, bs, n)
    ensures SameRoots(own, own')
  {
    if n == 0 {
      own' := own;
      BareFaults(s.ram, own, lo, s.brk, root);
    } else {
      MapBlocksFits(s, root, bs, n);
      var own1 := IdentityEffect(s, own, lo, root, bs, n - 1);
      own' := IdentityLast(s, own1, lo, root, bs, n);
    }
  }

  lemma MapBlocksFits(s: Space, root: nat, bs: seq<Block>, n: nat)
    requires 0 < n <= |bs| && MapBlocks(s, root, bs, n).Fits()
    ensures MapBlocks(s, root, bs, n - 1).Fits()
  {
  }

  lemma IdentityLast(s: Space, own1: map<nat, Node>, lo: nat, root: nat, bs: seq<Block>, n: nat)
    returns (own': map<nat, Node>)
    requires 0 < n <= |bs| && Aligned(bs) && MapBlocks(s, root, bs, n).Fits()
    requires var s1 := MapBlocks(s, root, bs, n - 1);
      lo <= s1.brk && Forest(s1.ram, own1, map[], lo, s1.brk) && IsRoot(own1, root) && Identity(s1.ram, root, bs, n - 1)
    ensures var s' := MapBlocks(s, root, bs, n);
      Forest(s'.ram, own', map[], lo, s'.brk) && Identity(s'.ram, root, bs, n)
    ensures SameRoots(own1, own')
  {
    hide MapPage;
    var s1, b := MapBlocks(s, root, bs, n - 1), bs[n - 1];
    own' := MapRangeEffect(s1, own1, lo, root, b.start, b.start, b.pages, KERNEL_FLAGS);
    IdentityStep(s1.ram, MapBlocks(s, root, bs, n).ram, own1, root, bs, n);
  }

  /** Memory when `initializeMMU` returns: bitmaps, an empty directory, and every block mapped onto itself. */
  function BootSpace(ram: seq<nat>, start: nat, bs: seq<Block>): Space {
    var s := NewRoot(ClearBitmaps(Space(ram, start), bs));
    MapBlocks(s, s.brk - TABLE, bs, |bs|)
  }

  function BootRoot(start: nat, bs: seq<Block>): nat { AlignUp(start + BitmapBytes(bs)) }

  lemma NoTables(m: seq<nat>, lo: nat, hi: nat)
    ensures Forest(m, map[], map[], lo, hi)
  {
  }

  /** After boot the kernel directory is sound and is exactly the identity on the pages of the memory map. */
  lemma BootIdentity(ram: seq<nat>, start: nat, bs: seq<Block>)
    requires Aligned(bs) && BootSpace(ram, start, bs).Fits()
    ensures var k := Machine(BootSpace(ram, start, bs), start, [BootRoot(start, bs)]);
      Sound(k) && Identity(k.space.ram, BootRoot(start, bs), bs, |bs|)
  {
    hide Forest, Translate, MapPage, Covered, Aligned, Bare, BitmapBytes, ClearBitmaps;
    var s, root := ClearBitmaps(Space(ram, start), bs), BootRoot(start, bs);
    assert Forest(s.ram, map[], map[], start, s.brk) by { NoTables(s.ram, start, s.brk); }
    var own1 := NewRootEffect(s, map[], start);
    var own' := IdentityEffect(NewRoot(s), own1, start, root, bs, |bs|);
    assert Owns(Machine(BootSpace(ram, start, bs), start, [root]), own');
  }

  /** The first directory is the lowest table. */
  lemma FirstRoot(s: Space) returns (own: map<nat, Node>)
    requires NewRoot(s).Fits()
    ensures var s', p := NewRoot(s), AlignUp(s.brk);
      && IsRoot(own, p) && Forest(s'.ram, own, map[], p, s'.brk) && Bare(s'.ram, p)
      && p <= s'.brk && SameLow(s.ram, s'.ram, p)
  {
    NoTables(s.ram, s.brk, s.brk);
    own := NewRootEffect(s, map[], s.brk);
  }

  lemma {:induction false} MapBlocksLow(s: Space, own: map<nat, Node>, lo: nat, root: nat, bs: seq<Block>, n: nat)
    requires n <= |bs| && Aligned(bs) && lo <= s.brk && MapBlocks(s, root, bs, n).Fits()
    requires Forest(s.ram, own, map[], lo, s.brk) && IsRoot(own, root) && Bare(s.ram, root)
    ensures SameLow(s.ram, MapBlocks(s, root, bs, n).ram, lo)
    decreases n
  {
    hide Forest, MapRange, Aligned, Bare;
    if n > 0 {
      MapBlocksFits(s, root, bs, n);
      MapBlocksLow(s, own, lo, root, bs, n - 1);
      var own1 := IdentityEffect(s, own, lo, root, bs, n - 1);
      var b := bs[n - 1];
      MapRangeLow(MapBlocks(s, root, bs, n - 1), own1, lo, root, b.start, b.start, b.pages, KERNEL_FLAGS);
    }
  }

  lemma BootLow(ram: seq<nat>, start: nat, bs: seq<Block>)
    requires Aligned(bs) && BootSpace(ram, start, bs).Fits()
    ensures SameLow(ClearBitmaps(Space(ram, start), bs).ram, BootSpace(ram, start, bs).ram, BootRoot(start, bs))
  {
    hide Forest, Aligned, Bare, ClearBitmaps, MapBlocks, BitmapBytes, AlignUp;
    var s := ClearBitmaps(Space(ram, start), bs);
    BootFits(ram, start, bs);
    var own := FirstRoot(s);
    MapBlocksLow(NewRoot(s), own, AlignUp(s.brk), AlignUp(s.brk), bs, |bs|);
  }

  /** Building the tables has not touched the bitmaps: every bit is still clear. */
  lemma BitmapsClear(ram: seq<nat>, start: nat, bs: seq<Block>, a: nat)
    requires Aligned(bs) && BootSpace(ram, start, bs).Fits() && start <= a < start + BitmapBytes(bs)
    ensures ByteAt(BootSpace(ram, start, bs).ram, a) == 0
  {
    hide ByteAt, ClearBitmaps, BootSpace, BitmapBytes, SameLow, BootRoot;
    BootLow(ram, start, bs);
    BootFits(ram, start, bs);
    BitmapsExact(Space(ram, start), bs, a);
    RootAbove(start, bs);
    LowByte(ClearBitmaps(Space(ram, start), bs).ram, BootSpace(ram, start, bs).ram, BootRoot(start, bs), a);
  }

  lemma RootAbove(start: nat, bs: seq<Block>)
    ensures BootRoot(start, bs) % 8 == 0 && start + BitmapBytes(bs) <= BootRoot(start, bs)
  {
    PageMultiple(start + BitmapBytes(bs));
  }

  lemma PageMultiple(a: nat)
    ensures AlignUp(a) % 8 == 0 && a <= AlignUp(a)
  {
    hide AlignUp;
    var n := AlignUp(a) / 0x1000;
    assert AlignUp(a) == 8 * (512 * n);
  }

  lemma LowByte(m: seq<nat>, m': seq<nat>, lo: nat, a: nat)
    requires SameLow(m, m', lo) && lo % 8 == 0 && a < lo
    ensures ByteAt(m', a) == ByteAt(m, a)
  {
  }

  // ----- from descriptors to blocks ------------------------------------------

  /** Merging aligned descriptors gives aligned blocks that contain the same pages. */
  lemma {:induction false} MergeAligned(ds: seq<Block>)
    requires Aligned(ds)
    ensures Aligned(Merge(ds))
    ensures forall page :: Covered(Merge(ds), |Merge(ds)|, page) <==> Covered(ds, |ds|, page)
  {
    if ds != [] {
      var n := |ds| - 1;
      MergeAligned(ds[..n]);
      forall page ensures Covered(ds, |ds|, page) <==> Covered(ds[..n], n, page) || InBlock(ds[n], page) {
        LastCovers(ds, page);
      }
      ExtendAligned(Merge(ds[..n]), ds[n]);
    }
  }

  lemma LastCovers(ds: seq<Block>, page: nat)
    requires ds != []
    ensures var n := |ds| - 1; Covered(ds, |ds|, page) <==> Covered(ds[..n], n, page) || InBlock(ds[n], page)
  {
    var n := |ds| - 1;
    if i: nat :| i < n && InBlock(ds[..n][i], page) { assert InBlock(ds[i], page); }
    if i: nat :| i < |ds| && InBlock(ds[i], page) {
      if i < n { assert InBlock(ds[..n][i], page); }
    }
  }

  lemma ExtendAligned(bs: seq<Block>, d: Block)
    requires Aligned(bs) && d.start % 0x1000 == 0 && d.End() <= 0x1_0000_0000_0000
    ensures Aligned(Extend(bs, d))
    ensures forall page :: Covered(Extend(bs, d), |Extend(bs, d)|, page) <==>
      Covered(bs, |bs|, page) || InBlock(d, page)
  {
    hide InBlock;
    var r := Extend(bs, d);
    if bs != [] && Mergeable(bs[|bs| - 1], d) {
      forall page ensures Covered(r, |r|, page) <==> Covered(bs, |bs|, page) || InBlock(d, page) {
        LastCovers(bs, page);
        LastCovers(r, page);
        assert r[..|r| - 1] == bs[..|bs| - 1];
        JoinedBlock(bs[|bs| - 1], d, page);
      }
    } else {
      forall page ensures Covered(r, |r|, page) <==> Covered(bs, |bs|, page) || InBlock(d, page) {
        LastCovers(r, page);
        assert r[..|r| - 1] == bs;
      }
    }
  }

  lemma JoinedBlock(b: Block, d: Block, page: nat)
    requires Mergeable(b, d) && b.start % 0x1000 == 0
    ensures InBlock(b.(pages := b.pages + d.pages), page) <==> InBlock(b, page) || InBlock(d, page)
  {
  }

  // ----- what the kernel may do with memory ------------------------------------

  /** What the mappings of the blocks grant: the rights of their flags on the pages of the blocks, and nothing else. */
  lemma {:induction false} BlocksRights(s: Space, own: map<nat, Node>, lo: nat, root: nat, bs: seq<Block>, n: nat,
          b: nat)
    requires n <= |bs| && Aligned(bs) && lo <= s.brk && MapBlocks(s, root, bs, n).Fits() && Right(b)
    requires Forest(s.ram, own, map[], lo, s.brk) && IsRoot(own, root) && Bare(s.ram, root)
    ensures var m := MapBlocks(s, root, bs, n).ram;
      && (HasBit(KERNEL_FLAGS, b) ==> Open(m, root, b))
      && forall v: nat :: Allowed(m, 4, root, v, b) <==> HasBit(KERNEL_FLAGS, b) && Covered(bs, n, PageNo(v))
    decreases n
  {
    hide Forest, MapRange, Bare, Allowed, HasBit, Open, Distance, InBlock;
    if n == 0 {
      BareRights(s.ram, own, lo, s.brk, root, b);
    } else {
      var s1, d := MapBlocks(s, root, bs, n - 1), bs[n - 1];
      MapBlocksFits(s, root, bs, n);
      BlocksRights(s, own, lo, root, bs, n - 1, b);
      var own1 := IdentityEffect(s, own, lo, root, bs, n - 1);
      MapRangeRights(s1, own1, lo, root, d.start, d.start, d.pages, KERNEL_FLAGS, b);
      BlockRightsJoin(s1.ram, MapBlocks(s, root, bs, n).ram, root, bs, n, b, HasBit(KERNEL_FLAGS, b));
    }
  }

  lemma BlockRightsJoin(m: seq<nat>, m': seq<nat>, root: nat, bs: seq<Block>, n: nat, b: nat, granted: bool)
    requires 0 < n <= |bs| && Aligned(bs) && Right(b)
    requires forall v: nat :: Allowed(m, 4, root, v, b) <==> granted && Covered(bs, n - 1, PageNo(v))
    requires forall v: nat ::
      Allowed(m', 4, root, v, b) ==
        if Distance(v, bs[n - 1].start) < bs[n - 1].pages then granted else Allowed(m, 4, root, v, b)
    ensures forall v: nat :: Allowed(m', 4, root, v, b) <==> granted && Covered(bs, n, PageNo(v))
  {
    hide Allowed, InBlock, Distance;
    forall v: nat ensures Allowed(m', 4, root, v, b) <==> granted && Covered(bs, n, PageNo(v)) {
      SelfEntry(bs[n - 1], v);
      assert Covered(bs, n, PageNo(v)) <==> Covered(bs, n - 1, PageNo(v)) || InBlock(bs[n - 1], PageNo(v));
    }
  }

  /**
   * Every byte of every descriptor is reached at its own address, by a walk that allows writing, bit 1 of every entry,
   * and not user mode, bit 2; and no other address below 2^48 is mapped.
   */
  ghost predicate KernelMemory(m: seq<nat>, root: nat, ds: seq<Block>) {
    && (forall v: nat, i :: 0 <= i < |ds| && ds[i].start <= v < ds[i].start + ds[i].pages * 4096 ==>
          && Allowed(m, 4, root, v, 2) && !Allowed(m, 4, root, v, 4)
          && var w := Translate(m, root, v); w.Leaf? && Frame(w.entry) == v - v % 4096)
    && (forall v: nat :: v < 0x1_0000_0000_0000 && Translate(m, root, v) != Fault ==>
          exists i :: 0 <= i < |ds| && ds[i].start <= v < ds[i].start + ds[i].pages * 4096)
  }

  lemma BootMemory(ram: seq<nat>, start: nat, ds: seq<Block>)
    requires Aligned(ds) && BootSpace(ram, start, Merge(ds)).Fits()
    ensures KernelMemory(BootSpace(ram, start, Merge(ds)).ram, BootRoot(start, Merge(ds)), ds)
  {
    var bs, root := Merge(ds), BootRoot(start, Merge(ds));
    var m := BootSpace(ram, start, bs).ram;
    hide Allowed, BootSpace, Merge, Aligned, Covered, Translate, Frame, BootRoot, Identity;
    MergeAligned(ds);
    BootDescriptors(ram, start, ds);
    BootRights(ram, start, bs, 2);
    BootRights(ram, start, bs, 4);
    forall v: nat, i | 0 <= i < |ds| && ds[i].start <= v < ds[i].start + ds[i].pages * 4096
      ensures Allowed(m, 4, root, v, 2) && !Allowed(m, 4, root, v, 4)
      ensures var w := Translate(m, root, v); w.Leaf? && Frame(w.entry) == v - v % 4096
    {
      ByteCovered(ds, v, i);
      IdentityAt(m, root, ds, v);
    }
    forall v: nat | v < 0x1_0000_0000_0000 && Translate(m, root, v) != Fault
      ensures exists i :: 0 <= i < |ds| && ds[i].start <= v < ds[i].start + ds[i].pages * 4096
    {
      IdentityAt(m, root, ds, v);
      var i := CoveredByte(ds, v);
    }
  }

  lemma BootRights(ram: seq<nat>, start: nat, bs: seq<Block>, b: nat)
    requires Aligned(bs) && BootSpace(ram, start, bs).Fits() && Right(b)
    ensures forall v: nat :: Allowed(BootSpace(ram, start, bs).ram, 4, BootRoot(start, bs), v, b) <==>
      b == 2 && Covered(bs, |bs|, PageNo(v))
  {
    hide Forest, Allowed, Covered, Aligned, Bare, BitmapBytes, ClearBitmaps, MapBlocks;
    var s := ClearBitmaps(Space(ram, start), bs);
    BootFits(ram, start, bs);
    var own := FirstRoot(s);
    BlocksRights(NewRoot(s), own, AlignUp(s.brk), AlignUp(s.brk), bs, |bs|, b);
  }

  lemma ByteCovered(ds: seq<Block>, v: nat, i: nat)
    requires Aligned(ds) && i < |ds| && ds[i].start <= v < ds[i].start + ds[i].pages * 4096
    ensures Covered(ds, |ds|, PageNo(v)) && v < 0x1_0000_0000_0000
  {
    var a := ds[i].start / 4096;
    assert ds[i].start == a * 4096;
    assert InBlock(ds[i], PageNo(v));
  }

  lemma CoveredByte(ds: seq<Block>, v: nat) returns (i: nat)
    requires Aligned(ds) && v < 0x1_0000_0000_0000 && Covered(ds, |ds|, PageNo(v))
    ensures i < |ds| && ds[i].start <= v < ds[i].start + ds[i].pages * 4096
  {
    i :| i < |ds| && InBlock(ds[i], PageNo(v));
    var a := ds[i].start / 4096;
    assert ds[i].start == a * 4096;
  }

  lemma IdentityAt(m: seq<nat>, root: nat, ds: seq<Block>, v: nat)
    requires Identity(m, root, ds, |ds|) && v < 0x1_0000_0000_0000
    ensures Translate(m, root, v) != Fault ==> Covered(ds, |ds|, PageNo(v))
    ensures Covered(ds, |ds|, PageNo(v)) ==>
      var w := Translate(m, root, v); w.Leaf? && Frame(w.entry) == v - v % 4096
  {
    hide Covered;
    SelfAddress(v - v % 4096);
  }

  /** So boot identity holds for the descriptors of the firmware. */
  lemma BootDescriptors(ram: seq<nat>, start: nat, ds: seq<Block>)
    requires Aligned(ds) && BootSpace(ram, start, Merge(ds)).Fits()
    ensures var root := BootRoot(start, Merge(ds));
      var k := Machine(BootSpace(ram, start, Merge(ds)), start, [root]);
      Sound(k) && Identity(k.space.ram, root, ds, |ds|)
  {
    hide BootSpace, Merge, Aligned, Covered, Sound;
    MergeAligned(ds);
    BootIdentity(ram, start, Merge(ds));
  }

  /**
   * Every table the kernel can reach that lies in a mapped block is reached, at its own address, through the tables.
   */
  lemma TablesReachable(ram: seq<nat>, start: nat, bs: seq<Block>, t: nat, l: nat, i: nat)
    requires Aligned(bs) && BootSpace(ram, start, bs).Fits() && i < |bs|
    requires Reached(Machine(BootSpace(ram, start, bs), start, [BootRoot(start, bs)]), t, l)
    requires bs[i].start <= t && t + TABLE <= bs[i].End()
    ensures Translate(BootSpace(ram, start, bs).ram, BootRoot(start, bs), t) == Leaf(t + KERNEL_FLAGS) &&
      Frame(t + KERNEL_FLAGS) == t
  {
    BootIdentity(ram, start, bs);
    SelfTable(Machine(BootSpace(ram, start, bs), start, [BootRoot(start, bs)]), BootRoot(start, bs), bs, t, l, i);
  }

  lemma SelfTable(k: Machine, root: nat, bs: seq<Block>, t: nat, l: nat, i: nat)
    requires Sound(k) && Identity(k.space.ram, root, bs, |bs|) && Reached(k, t, l)
    requires Aligned(bs) && i < |bs| && bs[i].start <= t && t + TABLE <= bs[i].End()
    ensures Translate(k.space.ram, root, t) == Leaf(t + KERNEL_FLAGS) && Frame(t + KERNEL_FLAGS) == t
  {
    ReachedAligned(k, t, l);
    SelfAddress(t);
    assert InBlock(bs[i], PageNo(t));
  }

  lemma ReachedAligned(k: Machine, t: nat, l: nat)
    requires Sound(k) && Reached(k, t, l)
    ensures t % TABLE == 0
  {
    var r, v: nat :| r in k.dirs && TableFrom(k.space.ram, 4, r, v, l) == Some(t);
    TableOnce(k, r, v, l, r, v, l);
  }

  lemma SelfAddress(t: nat)
    requires t % TABLE == 0 && t < 0x1_0000_0000_0000
    ensures PageNo(t) == t / 0x1000 && PageNo(t) * 0x1000 == t && Frame(t + KERNEL_FLAGS) == t
  {
    OrPage(t, KERNEL_FLAGS);
    EntryWord(t, KERNEL_FLAGS);
  }

  // ----- the boot sequence -------------------------------------------------

  /** d is the first usable descriptor with the most pages, and has at least one. */
  ghost predicate Largest(ds: seq<Block>, d: Block) {
    IsUsable(d.kind) && d.pages > 0 && exists k: nat :: LargestAt(ds, k) && ds[k] == d
  }

  ghost predicate LargestAt(ds: seq<Block>, k: nat) {
    && k < |ds|
    && (forall i :: 0 <= i < |ds| && IsUsable(ds[i].kind) ==> ds[i].pages <= ds[k].pages)
    && (forall i :: 0 <= i < k && IsUsable(ds[i].kind) ==> ds[i].pages < ds[k].pages)
  }

  /** The descriptor that the bump allocator starts in is the first with the most pages among those it may use. */
  lemma LargestUsable(ds: seq<Block>, d: Block)
    requires Largest(ds, d)
    ensures KernelMayUse(Number(d.kind)) && d.pages > 0 && d in ds
    ensures forall i :: 0 <= i < |ds| && KernelMayUse(Number(ds[i].kind)) ==> ds[i].pages <= d.pages
  {
    UsableExact(d.kind);
    forall i | 0 <= i < |ds| && KernelMayUse(Number(ds[i].kind)) ensures ds[i].pages <= d.pages {
      UsableExact(ds[i].kind);
    }
  }

  /** The first pass over the memory map; the source leaves the start unset when no usable descriptor has a page. */
  method FindLargest(ds: seq<Block>) returns (start: nat, pages: nat)
    requires exists i :: 0 <= i < |ds| && IsUsable(ds[i].kind) && ds[i].pages > 0
    ensures exists d :: Largest(ds, d) && start == d.start && pages == d.pages
  {
    start, pages := 0, 0;
    ghost var k := 0;
    for i := 0 to |ds|
      invariant forall j :: 0 <= j < i && IsUsable(ds[j].kind) ==> ds[j].pages <= pages
      invariant pages > 0 ==> k < i && IsUsable(ds[k].kind) && ds[k].start == start && ds[k].pages == pages
      invariant pages > 0 ==> forall j :: 0 <= j < k && IsUsable(ds[j].kind) ==> ds[j].pages < pages
    {
      if ds[i].pages > pages && IsUsable(ds[i].kind) {
        start, pages := ds[i].start, ds[i].pages;
        k := i;
      }
    }
    assert LargestAt(ds, k);
    assert Largest(ds, ds[k]);
  }

  /** The second pass: the `blocks` array as the sequence of its present entries. */
  method MergeMap(ds: seq<Block>) returns (bs: seq<Block>)
    requires Runs(ds) <= 64
    ensures bs == Merge(ds) && |bs| <= 64
  {
    bs := [];
    for i := 0 to |ds|
      invariant bs == Merge(ds[..i])
    {
      assert ds[..i + 1][..i] == ds[..i] && Merge(ds[..i + 1]) == Extend(bs, ds[i]);
      bs := MergeOne(bs, ds[i]);
    }
    assert ds[..|ds|] == ds;
    MergeExact(ds);
  }

  /** One iteration of that pass. */
  method MergeOne(bs: seq<Block>, d: Block) returns (r: seq<Block>)
    ensures r == Extend(bs, d)
  {
    var k := |bs|;
    if k != 0 && d.kind == bs[k - 1].kind && d.start == bs[k - 1].start + bs[k - 1].pages * 0x1000 {
      r := bs[k - 1 := bs[k - 1].(pages := bs[k - 1].pages + d.pages)];
    } else {
      r := bs + [d];
    }
  }

  /** `reservePage` on every page from the start of the kernel image. */
  function KernelOps(from: nat, to: nat): seq<FrameOp>
    decreases to - from
  {
    if from >= to then [] else [FrameOp.Reserve(from)] + KernelOps(from + 0x1000, to)
  }

  /** A page whose bit `reservePage` reaches when it is called for the kernel image. */
  predicate KernelPage(text: Text, bs: seq<FrameBlock>, from: nat, to: nat, p: Slot)
    decreases to - from
  {
    from < to && (p in Hits(text, bs, from) || KernelPage(text, bs, from + 0x1000, to, p))
  }

  /** The pages of the kernel image, as far as the reservations reach them. */
  function KernelPages(text: Text, bs: seq<FrameBlock>, from: nat, to: nat): set<Slot> {
    set p | p in Usable(bs) && KernelPage(text, bs, from, to, p)
  }

  /** After the reservations exactly the pages that they reach are no longer free. */
  lemma {:induction false} KernelReserved(text: Text, bs: seq<FrameBlock>, from: nat, to: nat)
    requires AllValid(bs)
    ensures Free(RunFrames(text, bs, KernelOps(from, to))) == Free(bs) - KernelPages(text, bs, from, to)
    decreases if from < to then to - from else 0
  {
    if from < to {
      hide Free, Hits, After, Usable, KernelPages;
      var ops := KernelOps(from, to);
      assert ops[0] == FrameOp.Reserve(from) && ops[1..] == KernelOps(from + 0x1000, to);
      var bs' := After(text, bs, ops[0]);
      StepFree(text, bs, ops[0]);
      KernelReserved(text, bs', from + 0x1000, to);
      KernelShape(text, bs, bs', from + 0x1000, to);
      KernelStep(text, bs, from, to);
      assert Free(bs) - Hits(text, bs, from) - KernelPages(text, bs, from + 0x1000, to)
        == Free(bs) - (Hits(text, bs, from) + KernelPages(text, bs, from + 0x1000, to));
    } else {
      assert KernelPages(text, bs, from, to) == {};
    }
  }

  lemma KernelStep(text: Text, bs: seq<FrameBlock>, from: nat, to: nat)
    requires from < to
    ensures KernelPages(text, bs, from, to) == Hits(text, bs, from) + KernelPages(text, bs, from + 0x1000, to)
  {
  }

  lemma {:induction false} KernelShape(text: Text, bs: seq<FrameBlock>, bs': seq<FrameBlock>, from: nat, to: nat)
    requires SameShape(bs, bs')
    ensures KernelPages(text, bs', from, to) == KernelPages(text, bs, from, to)
    decreases if from < to then to - from else 0
  {
    ShapeHits(text, bs, bs', from);
    if from < to {
      hide KernelPages, Hits, Usable;
      KernelShape(text, bs, bs', from + 0x1000, to);
      KernelStep(text, bs, from, to);
      KernelStep(text, bs', from, to);
    }
  }

  /** As written the reservations reach exactly those pages of the image whose index modulo 32 is below 8. */
  lemma {:induction false} KernelWritten(bs: seq<FrameBlock>, from: nat, to: nat, p: Slot)
    ensures KernelPage(Written, bs, from, to, p) <==> KernelPage(Corrected, bs, from, to, p) && p.j % 32 < 8
    decreases if from < to then to - from else 0
  {
    if from < to {
      KernelWritten(bs, from + 0x1000, to, p);
    }
  }

  /** So line 46 as written leaves no page of the image free exactly when all of them have such an index. */
  lemma WrittenKernelExact(bs: seq<Block>, from: nat, to: nat)
    ensures var blocks := EmptyBitmaps(bs);
      (forall p :: p in KernelPages(Corrected, blocks, from, to) ==>
        p !in Free(RunFrames(Written, blocks, KernelOps(from, to)))) <==>
      (forall p :: p in KernelPages(Corrected, blocks, from, to) ==> p.j % 32 < 8)
  {
    hide EmptyBitmaps, Free, RunFrames, KernelPage;
    var blocks := EmptyBitmaps(bs);
    EmptyFree(bs);
    KernelReserved(Written, blocks, from, to);
    forall p
      ensures KernelPage(Written, blocks, from, to, p) <==> KernelPage(Corrected, blocks, from, to, p) && p.j % 32 < 8
    {
      KernelWritten(blocks, from, to, p);
    }
  }

  /** A nine-page image at the start of a block: its last page stays free and is the first to be handed out. */
  lemma WrittenKernelFails()
    ensures var blocks := EmptyBitmaps([Block(Conventional, 0x10_0000, 16)]);
      Slot(0, 8) in KernelPages(Corrected, blocks, 0x10_0000, 0x10_9000) &&
      Slot(0, 8) in Free(RunFrames(Written, blocks, KernelOps(0x10_0000, 0x10_9000)))
  {
    hide EmptyBitmaps, Free, RunFrames, KernelPage, Usable, KernelOps, Overlaps;
    var bs := [Block(Conventional, 0x10_0000, 16)];
    var blocks, p := EmptyBitmaps(bs), Slot(0, 8);
    var from, to := 0x10_0000, 0x10_9000;
    NinthPage();
    EmptyFree(bs);
    KernelReserved(Written, blocks, from, to);
    KernelWritten(blocks, from, to, p);
    KernelPageExact(blocks, from, to, p);
  }

  lemma NinthPage()
    ensures var bs, p := EmptyBitmaps([Block(Conventional, 0x10_0000, 16)]), Slot(0, 8);
      p in Usable(bs) && bs[0].block.start == 0x10_0000 && Overlaps(bs, 0x10_0000, 0x10_9000, p)
  {
  }

  /** Page p has a byte of the range. */
  predicate Overlaps(bs: seq<FrameBlock>, from: nat, to: nat, p: Slot)
    requires p.i < |bs|
  {
    Address(bs, p) < to && from < Address(bs, p) + 0x1000
  }

  /** For a page-aligned image in page-aligned blocks the pages reserved are exactly those that hold a byte of it. */
  lemma {:induction false} KernelPageExact(bs: seq<FrameBlock>, from: nat, to: nat, p: Slot)
    requires from % 0x1000 == 0 && p in Usable(bs) && bs[p.i].block.start % 0x1000 == 0
    ensures KernelPage(Corrected, bs, from, to, p) <==> from < to && Overlaps(bs, from, to, p)
    decreases if from < to then to - from else 0
  {
    if from < to {
      HitExact(bs, from, p);
      KernelPageExact(bs, from + 0x1000, to, p);
    }
  }

  lemma HitExact(bs: seq<FrameBlock>, addr: nat, p: Slot)
    requires addr % 0x1000 == 0 && p in Usable(bs) && bs[p.i].block.start % 0x1000 == 0
    ensures p in Hits(Corrected, bs, addr) <==> Address(bs, p) == addr
    ensures Address(bs, p) % 0x1000 == 0
  {
    var n := bs[p.i].block.start / 0x1000;
    assert Address(bs, p) == (n + p.j) * 0x1000;
  }

  /** Before them every usable page is free. */
  lemma EmptyFree(bs: seq<Block>)
    ensures Free(EmptyBitmaps(bs)) == Usable(EmptyBitmaps(bs))
  {
    forall k | 0 <= k < 8 ensures !Bit(0, k) {
      FullByte(k);
    }
  }

  function EmptyBitmaps(bs: seq<Block>): (r: seq<FrameBlock>)
    ensures AllValid(r)
  {
    seq(|bs|, i requires 0 <= i < |bs| => FrameBlock(bs[i], seq(BitmapLength(bs[i]), _ => 0)))
  }

  method InitializeMMU(text: Text, memory: array<nat>, ds: seq<Block>, kernelStart: nat, kernelEnd: nat)
    returns (mmu: MemoryManager, frames: FrameAllocator, ghost largest: Block)
    requires exists i :: 0 <= i < |ds| && IsUsable(ds[i].kind) && ds[i].pages > 0
    requires Runs(ds) <= 64
    requires forall d :: Largest(ds, d) ==> BootSpace(memory[..], d.start, Merge(ds)).Fits()
    modifies memory
    ensures Largest(ds, largest) && fresh(mmu) && fresh(frames) && mmu.ram == memory
    ensures largest in ds && KernelMayUse(Number(largest.kind))
    ensures forall i :: 0 <= i < |ds| && KernelMayUse(Number(ds[i].kind)) ==> ds[i].pages <= largest.pages
    ensures mmu.Valid() && mmu.State() == BootSpace(old(memory[..]), largest.start, Merge(ds))
    ensures mmu.kmallocStart == largest.start && mmu.currentDirectory == BootRoot(largest.start, Merge(ds))
    ensures Aligned(ds) ==>
      && Sound(Machine(mmu.State(), mmu.kmallocStart, [mmu.currentDirectory]))
      && Identity(mmu.ram[..], mmu.currentDirectory, ds, |ds|)
      && KernelMemory(mmu.ram[..], mmu.currentDirectory, ds)
      && forall a :: largest.start <= a < largest.start + BitmapBytes(Merge(ds)) ==> ByteAt(mmu.ram[..], a) == 0
    ensures forall x :: IsRoot(mmu.own, x) <==> x == mmu.currentDirectory
    ensures frames.blocks == RunFrames(text, EmptyBitmaps(Merge(ds)), KernelOps(kernelStart, kernelEnd))
    ensures var blocks := EmptyBitmaps(Merge(ds));
      Free(frames.blocks) == Usable(blocks) - KernelPages(text, blocks, kernelStart, kernelEnd)
  {
    hide BootSpace, Forest, RunFrames, Merge, Largest, Aligned, Sound, Identity, ByteAt, KernelMemory;
    hide Free, Usable, KernelPages;
    var start, pages := FindLargest(ds);
    largest :| Largest(ds, largest) && start == largest.start && pages == largest.pages;
    LargestUsable(ds, largest);
    var bs := MergeMap(ds);
    BootFits(memory[..], start, bs);
    mmu := new MemoryManager(memory, start);
    var dir := BuildKernelDirectory(mmu, bs);
    frames := new FrameAllocator(text, EmptyBitmaps(bs));
    ReserveKernel(frames, kernelStart, kernelEnd);
    mmu.SwitchDirectory(dir);
    EmptyFree(bs);
    KernelReserved(text, EmptyBitmaps(bs), kernelStart, kernelEnd);
    if Aligned(ds) { AfterBoot(old(memory[..]), start, ds); }
  }

  lemma AfterBoot(ram: seq<nat>, start: nat, ds: seq<Block>)
    requires Aligned(ds) && BootSpace(ram, start, Merge(ds)).Fits()
    ensures var s, root := BootSpace(ram, start, Merge(ds)), BootRoot(start, Merge(ds));
      && Sound(Machine(s, start, [root])) && Identity(s.ram, root, ds, |ds|) && KernelMemory(s.ram, root, ds)
      && forall a :: start <= a < start + BitmapBytes(Merge(ds)) ==> ByteAt(s.ram, a) == 0
  {
    hide BootSpace, Merge, Aligned, Sound, Identity, ByteAt, KernelMemory;
    BootMemory(ram, start, ds);
    BootDescriptors(ram, start, ds);
    MergeAligned(ds);
    forall a | start <= a < start + BitmapBytes(Merge(ds))
      ensures ByteAt(BootSpace(ram, start, Merge(ds)).ram, a) == 0
    {
      BitmapsClear(ram, start, Merge(ds), a);
    }
  }

  /** Bitmaps, the kernel directory, and its identity mappings. */
  method BuildKernelDirectory(mmu: MemoryManager, bs: seq<Block>) returns (dir: nat)
    requires mmu.Valid() && mmu.own == map[] && BootSpace(mmu.ram[..], mmu.kmallocAddr, bs).Fits()
    modifies mmu`kmallocAddr, mmu`own, mmu`currentDirectory, mmu.ram
    ensures mmu.Valid() && dir == BootRoot(old(mmu.kmallocAddr), bs)
    ensures mmu.State() == BootSpace(old(mmu.ram[..]), old(mmu.kmallocAddr), bs)
    ensures forall x :: IsRoot(mmu.own, x) <==> x == dir
  {
    hide MapBlocks, Forest;
    BootFits(mmu.ram[..], mmu.kmallocAddr, bs);
    AllocateBitmaps(mmu, bs);
    dir := mmu.NewDirectory();
    MapAllBlocks(mmu, dir, bs);
  }

  method ReserveKernel(frames: FrameAllocator, kernelStart: nat, kernelEnd: nat)
    requires frames.Valid()
    modifies frames
    ensures frames.Valid()
    ensures frames.blocks == RunFrames(frames.text, old(frames.blocks), KernelOps(kernelStart, kernelEnd))
  {
    var i := kernelStart;
    while i < kernelEnd
      invariant frames.Valid()
      invariant RunFrames(frames.text, frames.blocks, KernelOps(i, kernelEnd))
        == RunFrames(frames.text, old(frames.blocks), KernelOps(kernelStart, kernelEnd))
    {
      assert KernelOps(i, kernelEnd)[1..] == KernelOps(i + 0x1000, kernelEnd);
      frames.ReservePage(i);
      i := i + 0x1000;
    }
  }

  method AllocateBitmaps(mmu: MemoryManager, bs: seq<Block>)
    requires mmu.Valid() && mmu.own == map[]
    requires mmu.kmallocAddr + BitmapBytes(bs) <= 8 * mmu.ram.Length && mmu.kmallocAddr + BitmapBytes(bs) <= PHYSICAL
    modifies mmu`kmallocAddr, mmu.ram
    ensures mmu.Valid() && mmu.State() == ClearBitmaps(old(mmu.State()), bs)
  {
    for i := 0 to |bs|
      invariant mmu.State() == ClearBitmaps(old(mmu.State()), bs[..i])
    {
      hide ClearBytes, Forest;
      ClearNext(old(mmu.State()), bs, i);
      BitmapBytesMono(bs, i + 1);
      if IsUsable(bs[i].kind) {
        var f := mmu.Kmalloc((bs[i].pages + 7) / 8);
        mmu.ClearRange(f, (bs[i].pages + 7) / 8);
      }
    }
    assert bs[..|bs|] == bs;
    NoTables(mmu.ram[..], mmu.kmallocStart, mmu.kmallocAddr);
  }

  lemma ClearNext(s: Space, bs: seq<Block>, i: nat)
    requires i < |bs|
    ensures var r, n := ClearBitmaps(s, bs[..i]), BitmapLength(bs[i]);
      ClearBitmaps(s, bs[..i + 1]) == Space(ClearBytes(r.ram, r.brk, n), r.brk + n)
    ensures BitmapBytes(bs[..i + 1]) == BitmapBytes(bs[..i]) + BitmapLength(bs[i])
  {
    hide ClearBytes, BitmapLength;
    assert bs[..i + 1][..i] == bs[..i];
  }

  lemma {:induction false} BitmapBytesMono(bs: seq<Block>, i: nat)
    requires i <= |bs|
    ensures BitmapBytes(bs[..i]) <= BitmapBytes(bs)
    decreases |bs|
  {
    if i < |bs| {
      assert bs[..|bs| - 1][..i] == bs[..i];
      BitmapBytesMono(bs[..|bs| - 1], i);
    } else {
      assert bs[..i] == bs;
    }
  }

  method MapAllBlocks(mmu: MemoryManager, dir: nat, bs: seq<Block>)
    requires mmu.Valid() && IsRoot(mmu.own, dir) && MapBlocks(mmu.State(), dir, bs, |bs|).Fits()
    modifies mmu`kmallocAddr, mmu`own, mmu`currentDirectory, mmu.ram
    ensures mmu.Valid() && mmu.State() == MapBlocks(old(mmu.State()), dir, bs, |bs|)
    ensures SameRoots(old(mmu.own), mmu.own)
  {
    hide MapRange, Forest;
    ghost var s := mmu.State();
    for i := 0 to |bs|
      invariant mmu.Valid() && mmu.State() == MapBlocks(s, dir, bs, i) && SameRoots(old(mmu.own), mmu.own)
    {
      MapBlocksMono(s, dir, bs, i + 1, |bs|);
      mmu.Map(dir, bs[i].start, bs[i].start, bs[i].pages, KERNEL_FLAGS);
    }
  }

  lemma {:induction false} MapBlocksMono(s: Space, root: nat, bs: seq<Block>, i: nat, n: nat)
    requires i <= n <= |bs| && MapBlocks(s, root, bs, n).Fits()
    ensures MapBlocks(s, root, bs, i).Fits()
    decreases n - i
  {
    if i < n {
      MapBlocksFits(s, root, bs, n);
      MapBlocksMono(s, root, bs, i, n - 1);
    }
  }

  lemma BootFits(ram: seq<nat>, start: nat, bs: seq<Block>)
    requires BootSpace(ram, start, bs).Fits()
    ensures start + BitmapBytes(bs) <= 8 * |ram| && start + BitmapBytes(bs) <= PHYSICAL
    ensures NewRoot(ClearBitmaps(Space(ram, start), bs)).Fits()
  {
  }
}
