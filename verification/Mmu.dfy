/** The memory manager as it runs: words are written in place, and every access is inside RAM. */
module Mmu {
  import opened Bits
  import opened PageTables
  import opened RamBytes
  import opened Mapping
  import opened Ranges
  import opened Cloning
  import Directories

  class MemoryManager {
    const ram: array<nat>
    var kmallocStart: nat
    var kmallocAddr: nat
    var currentDirectory: nat
    var mmuEnabled: bool
    ghost var own: map<nat, Node>

    ghost function State(): Space
      reads `kmallocAddr, ram
    {
      Space(ram[..], kmallocAddr)
    }

    ghost predicate Valid()
      reads `kmallocStart, `kmallocAddr, `own, ram
    {
      kmallocStart <= kmallocAddr && State().Fits() && Forest(ram[..], own, map[], kmallocStart, kmallocAddr)
    }

    constructor (memory: array<nat>, start: nat)
      requires start <= 8 * memory.Length && start <= PHYSICAL
      ensures Valid() && ram == memory && own == map[] && kmallocAddr == start == kmallocStart && !mmuEnabled
    {
      ram := memory;
      kmallocStart, kmallocAddr := start, start;
      currentDirectory, mmuEnabled := 0, false;
      own := map[];
    }

    // ----- memory ----------------------------------------------------------

    method Peek(t: nat, i: nat) returns (w: nat)
      requires t / 8 + i < ram.Length
      ensures w == Load(ram[..], t, i)
    {
      w := ram[t / 8 + i];
    }

    method Poke(t: nat, i: nat, w: nat)
      requires t / 8 + i < ram.Length
      modifies ram
      ensures ram[..] == Store(old(ram[..]), t, i, w)
    {
      ram[t / 8 + i] := w;
    }

    /** `memset(t, 0, 0x1000)` */
    method ClearPage(t: nat)
      requires t / 8 + 512 <= ram.Length
      modifies ram
      ensures ram[..] == ZeroTable(old(ram[..]), t)
    {
      for n := 0 to 512
        invariant forall k :: 0 <= k < ram.Length ==> ram[k] == if t / 8 <= k < t / 8 + n then 0 else old(ram[k])
      {
        ram[t / 8 + n] := 0;
      }
    }

    /** `memset(from, 0, n)` */
    method ClearRange(from: nat, n: nat)
      requires from + n <= 8 * ram.Length
      modifies ram
      ensures ram[..] == ClearBytes(old(ram[..]), from, n)
    {
      for i := 0 to n
        invariant ram[..] == ClearBytes(old(ram[..]), from, i)
      {
        var a := from + i;
        ram[a / 8] := WithByte(ram[a / 8], a % 8, 0);
      }
    }

    /** `memcpy(dst, src, 0x1000)` */
    method CopyPage(dst: nat, src: nat)
      requires dst % TABLE == 0 && src % TABLE == 0 && dst / 8 + 512 <= ram.Length && src / 8 + 512 <= ram.Length
      modifies ram
      ensures ram[..] == CopyTable(old(ram[..]), dst, src)
    {
      ghost var d, s := dst / 8, src / 8;
      TablesApart(dst, src);
      for n := 0 to 512
        invariant forall k :: 0 <= k < ram.Length ==>
          ram[k] == if d <= k < d + n then old(ram[s + (k - d)]) else old(ram[k])
      {
        assert ram[s + n] == old(ram[s + n]);
        ram[dst / 8 + n] := ram[src / 8 + n];
      }
    }

    method Kmalloc(size: nat) returns (addr: nat)
      modifies this`kmallocAddr
      ensures addr == old(kmallocAddr) && kmallocAddr == addr + size
    {
      addr := kmallocAddr;
      kmallocAddr := kmallocAddr + size;
    }

    method KmallocAligned(size: nat) returns (addr: nat)
      modifies this`kmallocAddr
      ensures addr == AlignUp(old(kmallocAddr)) && kmallocAddr == addr + size
    {
      if kmallocAddr % 0x1000 != 0 {
        kmallocAddr := kmallocAddr - kmallocAddr % 0x1000;
        kmallocAddr := kmallocAddr + 0x1000;
      }
      addr := kmallocAddr;
      kmallocAddr := kmallocAddr + size;
    }

    method SwitchDirectory(dir: nat)
      modifies this`currentDirectory
      ensures currentDirectory == dir
    {
      currentDirectory := dir;
    }

    // ----- mapping ---------------------------------------------------------

    /** The block that `mapPage` repeats for each of the three upper levels. */
    method EnsureTable(t: nat, i: nat, flags: nat)
      requires Valid() && t in own && Level(own[t]) > 1 && i < 512 && GoodFlags(flags)
      requires Ensure(State(), t, i, flags).Fits()
      modifies this`kmallocAddr, this`own, ram
      ensures Valid() && State() == Ensure(old(State()), t, i, flags)
      ensures Extends(old(own), own) && SameRoots(old(own), own)
      ensures Next(State(), t, i) in own && Level(own[Next(State(), t, i)]) == Level(old(own)[t]) - 1
    {
      ghost var s := State();
      ghost var own' := EnsureForest(s, own, kmallocStart, t, i, flags);
      var w := Peek(t, i);
      if w % 2 == 0 {
        var paddr := KmallocAligned(0x1000);
        ClearPage(paddr);
        Poke(t, i, Or(paddr, flags));
      }
      own := own';
    }

    /** The table that entry i of t points to, made present first. */
    method Enter(t: nat, i: nat, flags: nat) returns (next: nat)
      requires Valid() && t in own && Level(own[t]) > 1 && i < 512 && GoodFlags(flags)
      requires Ensure(State(), t, i, flags).Fits()
      modifies this`kmallocAddr, this`own, ram
      ensures Valid() && State() == Ensure(old(State()), t, i, flags) && next == Next(State(), t, i)
      ensures SameRoots(old(own), own) && next in own && Level(own[next]) == Level(old(own)[t]) - 1
    {
      EnsureTable(t, i, flags);
      var w := Peek(t, i);
      next := Frame(w);
    }

    method SetLeaf(pt: nat, i: nat, w: nat)
      requires Valid() && pt in own && Level(own[pt]) == 1 && i < 512
      modifies ram
      ensures Valid() && State() == Space(Store(old(ram[..]), pt, i, w), kmallocAddr)
    {
      SetLeafForest(ram[..], own, kmallocStart, kmallocAddr, pt, i, w);
      Poke(pt, i, w);
    }

    /** The three upper levels of `mapPage`. */
    method WalkDown(dir: nat, virt: nat, flags: nat) returns (pt: nat)
      requires Valid() && IsRoot(own, dir) && GoodFlags(flags)
      requires Descend(State(), dir, virt, flags).0.Fits()
      modifies this`kmallocAddr, this`own, ram
      ensures Valid() && (State(), pt) == Descend(old(State()), dir, virt, flags)
      ensures SameRoots(old(own), own) && pt in own && Level(own[pt]) == 1
    {
      DescendFits(State(), dir, virt, flags);
      var pdpt := Enter(dir, Index(virt, 4), flags);
      var pd := Enter(pdpt, Index(virt, 3), flags);
      pt := Enter(pd, Index(virt, 2), flags);
    }

    method WriteMapping(dir: nat, virt: nat, phys: nat, flags: nat)
      requires Valid() && IsRoot(own, dir) && GoodFlags(flags)
      requires Mapping.MapPage(State(), dir, virt, phys, flags).Fits()
      modifies this`kmallocAddr, this`own, ram
      ensures Valid() && State() == Mapping.MapPage(old(State()), dir, virt, phys, flags)
      ensures SameRoots(old(own), own)
    {
      var pt := WalkDown(dir, virt, flags);
      SetLeaf(pt, Index(virt, 1), Or(phys, flags));
    }

    method MapPage(dir: nat, virt: nat, phys: nat, flags: nat)
      requires Valid() && IsRoot(own, dir) && GoodFlags(flags)
      requires Mapping.MapPage(State(), dir, virt, phys, flags).Fits()
      modifies this`kmallocAddr, this`own, this`currentDirectory, ram
      ensures Valid() && State() == Mapping.MapPage(old(State()), dir, virt, phys, flags)
      ensures SameRoots(old(own), own) && currentDirectory == old(currentDirectory)
    {
      WriteMapping(dir, virt, phys, flags);
      if mmuEnabled && currentDirectory == dir {
        SwitchDirectory(dir);
      }
    }

    method Map(dir: nat, virt: nat, phys: nat, count: nat, flags: nat)
      requires Valid() && IsRoot(own, dir) && GoodFlags(flags)
      requires MapRange(State(), dir, virt, phys, count, flags).Fits()
      modifies this`kmallocAddr, this`own, this`currentDirectory, ram
      ensures Valid() && State() == MapRange(old(State()), dir, virt, phys, count, flags)
      ensures SameRoots(old(own), own) && currentDirectory == old(currentDirectory)
    {
      ghost var s := State();
      var i := 0;
      while i < count
        invariant i <= count && Valid() && State() == MapRange(s, dir, virt, phys, i, flags)
        invariant SameRoots(old(own), own) && currentDirectory == old(currentDirectory)
      {
        MapRangeFits(s, dir, virt, phys, i + 1, count, flags);
        MapPage(dir, Advance(virt, i), Advance(phys, i), flags);
        i := i + 1;
      }
    }

    // ----- cloning ---------------------------------------------------------

    /** `new PageDirectory`: an aligned page with every entry cleared. */
    method NewDirectory() returns (dir: nat)
      requires Valid() && Directories.NewRoot(State()).Fits()
      modifies this`kmallocAddr, this`own, ram
      ensures Valid() && State() == Directories.NewRoot(old(State()))
      ensures dir == AlignUp(old(kmallocAddr)) && dir !in old(own) && own == old(own)[dir := Root]
    {
      ghost var own' := Directories.NewRootEffect(State(), own, kmallocStart);
      dir := KmallocAligned(0x1000);
      ClearPage(dir);
      own := own';
    }

    /**
     * The loop over the 512 entries of a level-l table. `clone` nests it three times, for l = 4, 3 and 2; the body
     * for l = 2 ends in the `memcpy` of a page table.
     */
    method CopyEntries(l: nat, src: nat, dst: nat, ghost open: map<nat, nat>)
      requires Copying(State(), own, open, kmallocStart, l, src, dst, 0) && CopyLevel(State(), l, src, dst, 0).Fits()
      modifies this`kmallocAddr, this`own, ram
      ensures State() == CopyLevel(old(State()), l, src, dst, 0)
      ensures Forest(ram[..], own, open - {dst}, kmallocStart, kmallocAddr) && Grown(old(own), own)
      decreases l, 2
    {
      hide CopyEntry, Forest;
      assert open[dst := 0] == open;
      ghost var end := CopyLevel(State(), l, src, dst, 0);
      for i := 0 to 512
        invariant Copying(State(), own, open[dst := i], kmallocStart, l, src, dst, i)
        invariant CopyLevel(State(), l, src, dst, i) == end
        invariant Grown(old(own), own)
      {
        assert open[dst := i][dst := i + 1] == open[dst := i + 1];
        ghost var before := own;
        CopyOne(l, src, dst, i, open[dst := i]);
        GrownTrans(old(own), before, own);
      }
      FillDone(ram[..], own, open, kmallocStart, kmallocAddr, dst);
    }

    /** One iteration of that loop. */
    method CopyOne(l: nat, src: nat, dst: nat, i: nat, ghost open: map<nat, nat>)
      requires Copying(State(), own, open, kmallocStart, l, src, dst, i) && i < 512 &&
        CopyEntry(State(), l, src, dst, i).Fits()
      modifies this`kmallocAddr, this`own, ram
      ensures State() == CopyEntry(old(State()), l, src, dst, i)
      ensures Copying(State(), own, open[dst := i + 1], kmallocStart, l, src, dst, i + 1)
      ensures Grown(old(own), own)
      decreases l, 1
    {
      hide Forest, SameBelow, Kept, CopyBelow;
      ghost var s := State();
      ghost var own2 := CopyEntryEffect(s, own, open, kmallocStart, l, src, dst, i);
      TableInside(ram[..], own, open, kmallocStart, kmallocAddr, src);
      TableInside(ram[..], own, open, kmallocStart, kmallocAddr, dst);
      var w := Peek(src, i);
      if w % 2 == 1 {
        EntryTable(ram[..], own, open, kmallocStart, kmallocAddr, src, i);
        var page := HangNew(l, src, dst, i, open);
        CopyUnder(l, Frame(w), page, Reopen(open[dst := i + 1], l, page));
      } else {
        Poke(dst, i, 0);
      }
      own := own2;
    }

    /** The next loop further in, or the `memcpy` of a page table. */
    method CopyUnder(l: nat, src: nat, dst: nat, ghost open: map<nat, nat>)
      requires 2 <= l <= 4 && CopyBelow(State(), l, src, dst).Fits()
      requires Forest(ram[..], own, open, kmallocStart, kmallocAddr) && kmallocStart <= kmallocAddr
      requires src in own && Level(own[src]) == l - 1 && dst in own && Level(own[dst]) == l - 1
      requires l > 2 ==> Copying(State(), own, open, kmallocStart, l - 1, src, dst, 0)
      modifies this`kmallocAddr, this`own, ram
      ensures State() == CopyBelow(old(State()), l, src, dst)
      decreases l, 0
    {
      if l == 2 {
        CopyPage(dst, src);
      } else {
        CopyEntries(l - 1, src, dst, open);
      }
    }

    /** A fresh page, entered in dst before it is filled. */
    method HangNew(l: nat, src: nat, dst: nat, i: nat, ghost open: map<nat, nat>) returns (page: nat)
      requires Copying(State(), own, open, kmallocStart, l, src, dst, i) && i < 512 && Hang(State(), dst, i).Fits()
      modifies this`kmallocAddr, this`own, ram
      ensures State() == Hang(old(State()), dst, i) && page == AlignUp(old(kmallocAddr))
      ensures own == old(own)[page := Child(l - 1, dst, i)] && page !in old(own)
      ensures Forest(ram[..], own, Reopen(open[dst := i + 1], l, page), kmallocStart, kmallocAddr)
    {
      ghost var own1 := HangPage(State(), own, open, kmallocStart, l, src, dst, i);
      page := KmallocAligned(0x1000);
      Poke(dst, i, CloneEntry(page));
      own := own1;
    }

    method CloneDirectory(dir: nat) returns (copy: nat)
      requires Valid() && IsRoot(own, dir) && Clone(State(), dir).Fits()
      modifies this`kmallocAddr, this`own, ram
      ensures Valid() && State() == Clone(old(State()), dir) && copy == CloneRoot(old(State()))
      ensures copy !in old(own) && OneMoreRoot(old(own), own, copy)
    {
      copy := ReserveRoot(dir);
      ghost var own1 := own;
      CopyEntries(4, dir, copy, map[copy := 0]);
      assert map[copy := 0] - {copy} == map[];
      GrownRoot(old(own), own1, own, copy);
    }

    /** The page of the new directory, nothing of which is filled in yet. */
    method ReserveRoot(dir: nat) returns (copy: nat)
      requires Valid() && IsRoot(own, dir)
      modifies this`kmallocAddr, this`own
      ensures State() == Reserve(old(State())) && copy == CloneRoot(old(State()))
      ensures copy !in old(own) && own == old(own)[copy := Root]
      ensures Copying(State(), own, map[copy := 0], kmallocStart, 4, dir, copy, 0)
    {
      StartCopy(State(), own, kmallocStart, dir);
      copy := KmallocAligned(0x1000);
      own := own[copy := Root];
    }
  }

  ghost predicate Grown(own: map<nat, Node>, own': map<nat, Node>) { Extends(own, own') && SameRoots(own, own') }

  lemma GrownTrans(a: map<nat, Node>, b: map<nat, Node>, c: map<nat, Node>)
    requires Grown(a, b) && Grown(b, c)
    ensures Grown(a, c)
  {
  }

  lemma GrownRoot(a: map<nat, Node>, b: map<nat, Node>, c: map<nat, Node>, p: nat)
    requires b == a[p := Root] && Grown(b, c)
    ensures OneMoreRoot(a, c, p)
  {
  }

  lemma FillDone(m: seq<nat>, own: map<nat, Node>, open: map<nat, nat>, lo: nat, hi: nat, dst: nat)
    requires Forest(m, own, open[dst := 512], lo, hi)
    ensures Forest(m, own, open - {dst}, lo, hi)
  {
    assert forall x, j :: 0 <= j < 512 ==> Unfilled(open - {dst}, x, j) == Unfilled(open[dst := 512], x, j);
  }

  lemma DescendFits(s: Space, root: nat, virt: nat, flags: nat)
    requires Descend(s, root, virt, flags).0.Fits()
    ensures var s4 := Ensure(s, root, Index(virt, 4), flags);
      var s3 := Ensure(s4, Next(s4, root, Index(virt, 4)), Index(virt, 3), flags);
      && s4.Fits() && s3.Fits() &&
        Ensure(s3, Next(s3, Next(s4, root, Index(virt, 4)), Index(virt, 3)), Index(virt, 2), flags).Fits()
  {
  }

  lemma {:induction false} MapRangeFits(s: Space, root: nat, virt: nat, phys: nat, i: nat, n: nat, flags: nat)
    requires i <= n && MapRange(s, root, virt, phys, n, flags).Fits()
    ensures MapRange(s, root, virt, phys, i, flags).Fits()
    decreases n - i
  {
    hide MapRange, MapPage;
    if i < n {
      MapRangeLast(s, root, virt, phys, n, flags);
      MapRangeFits(s, root, virt, phys, i, n - 1, flags);
    }
  }
}
