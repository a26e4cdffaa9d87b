/** What `mapPage` grants: an access is allowed only if the entries of all four levels allow it. */
module Permissions {
  import opened Arith
  import opened Bits
  import opened PageTables
  import opened Readings
  import opened Mapping
  import opened Ranges
  import opened Cloning

  /** A right is a flag bit that the walk takes the conjunction of. */
  const USER: nat := 4

  predicate Right(b: nat) { b == RW || b == USER }

  predicate HasBit(w: nat, b: nat)
    requires Right(b)
  {
    w / b % 2 == 1
  }

  /** The walk of v from the level-l table t ends in a page and every entry on it has right b. */
  predicate Allowed(m: seq<nat>, l: nat, t: nat, v: nat, b: nat)
    requires 1 <= l <= 4 && Right(b)
  {
    var w := Load(m, t, Index(v, l));
    Present(w) && HasBit(w, b) && (l == 1 || Large(w) || Allowed(m, l - 1, Frame(w), v, b))
  }

  /** Every entry above the leaf has right b, where absent ones count as `missing`. */
  predicate UpperAllowed(m: seq<nat>, l: nat, t: nat, v: nat, b: nat, missing: bool)
    requires 1 <= l <= 4 && Right(b)
  {
    var w := Load(m, t, Index(v, l));
    l == 1 || if Present(w) then HasBit(w, b) && UpperAllowed(m, l - 1, Frame(w), v, b, missing) else missing
  }

  /** The right of an entry is that of the flags put into it. */
  lemma EntryRight(p: nat, flags: nat, b: nat)
    requires p % TABLE == 0 && flags < 0x1000 && Right(b)
    ensures HasBit(Or(p, flags), b) == HasBit(flags, b)
  {
    hide Or;
    OrPage(p, flags);
    var n := p / 0x1000;
    if b == RW {
      DivAdd(n * 0x800, 2, flags);
      DivAdd(n * 0x400, 2, flags / 2);
    } else {
      DivAdd(n * 0x400, 4, flags);
      DivAdd(n * 0x200, 2, flags / 4);
    }
  }

  // ----- one intermediate table ----------------------------------------------

  /** Creating an intermediate table grants nothing and takes nothing away. */
  lemma {:induction false} EnsureAllowed(s: Space, own: map<nat, Node>, lo: nat, t: nat, i: nat, flags: nat, l: nat,
          x: nat, v: nat, b: nat)
    requires Forest(s.ram, own, map[], lo, s.brk) && t in own && Level(own[t]) > 1 && i < 512 && GoodFlags(flags)
    requires Ensure(s, t, i, flags).Fits() && Right(b)
    requires 1 <= l <= 4 && x in own && Level(own[x]) == l
    ensures Allowed(Ensure(s, t, i, flags).ram, l, x, v, b) == Allowed(s.ram, l, x, v, b)
  {
    if !Present(Load(s.ram, t, i)) {
      EnsureLoads(s, own, lo, t, i, flags);
      hide Ensure, HasBit;
      var w := Load(s.ram, x, Index(v, l));
      if !(x == t && Index(v, l) == i) && l > 1 && Present(w) {
        EnsureAllowed(s, own, lo, t, i, flags, l - 1, Frame(w), v, b);
      }
    }
  }

  /** A table created on the way of `virt` has the rights of the flags, as missing ones were counted. */
  lemma {:induction false} EnsureUpper(s: Space, own: map<nat, Node>, lo: nat, virt: nat, flags: nat, k: nat, t: nat,
          l: nat, x: nat, b: nat)
    requires Forest(s.ram, own, map[], lo, s.brk) && 2 <= k <= l <= 4 && GoodFlags(flags) && Right(b)
    requires x in own && Level(own[x]) == l && TableFrom(s.ram, l, x, virt, k) == Some(t)
    requires Ensure(s, t, Index(virt, k), flags).Fits() && t in own && Level(own[t]) == k
    ensures UpperAllowed(Ensure(s, t, Index(virt, k), flags).ram, l, x, virt, b, HasBit(flags, b))
         == UpperAllowed(s.ram, l, x, virt, b, HasBit(flags, b))
  {
    var i := Index(virt, k);
    if !Present(Load(s.ram, t, i)) {
      var s', p := Ensure(s, t, i, flags), AlignUp(s.brk);
      EnsureLoads(s, own, lo, t, i, flags);
      if l == k {
        FreshEntry(s, own, t, i, flags, b);
        hide Ensure, HasBit, Load, Index;
        assert UpperAllowed(s'.ram, k - 1, p, virt, b, HasBit(flags, b)) == (k == 2 || HasBit(flags, b));
      } else {
        hide Ensure, HasBit;
        EnsureUpper(s, own, lo, virt, flags, k, t, l - 1, Frame(Load(s.ram, x, Index(virt, l))), b);
      }
    }
  }

  lemma FreshEntry(s: Space, own: map<nat, Node>, t: nat, i: nat, flags: nat, b: nat)
    requires t % TABLE == 0 && i < 512 && GoodFlags(flags) && Right(b) && t + TABLE <= 8 * |s.ram|
    requires !Present(Load(s.ram, t, i))
    ensures HasBit(Load(Ensure(s, t, i, flags).ram, t, i), b) == HasBit(flags, b)
  {
    var p := AlignUp(s.brk);
    LoadStore(ZeroTable(s.ram, p), t, i, Or(p, flags), t, i);
    EntryRight(p, flags, b);
  }

  // ----- the leaf ------------------------------------------------------------

  /** Writing a leaf entry decides the walks that end in it and no others. */
  lemma {:induction false} SetLeafAllowed(m: seq<nat>, own: map<nat, Node>, lo: nat, hi: nat, pt: nat, i: nat, w: nat,
          l: nat, x: nat, v: nat, b: nat, missing: bool)
    requires Forest(m, own, map[], lo, hi) && hi <= 8 * |m| && pt in own && Level(own[pt]) == 1 && i < 512
    requires 1 <= l <= 4 && x in own && Level(own[x]) == l && Present(w) && Right(b)
    ensures Allowed(Store(m, pt, i, w), l, x, v, b) ==
      if TableFrom(m, l, x, v, 1) == Some(pt) && Index(v, 1) == i
      then HasBit(w, b) && UpperAllowed(m, l, x, v, b, missing)
      else Allowed(m, l, x, v, b)
  {
    SetLeafForest(m, own, lo, hi, pt, i, w);
    hide HasBit;
    var e := Load(m, x, Index(v, l));
    if l > 1 && Present(e) {
      SetLeafAllowed(m, own, lo, hi, pt, i, w, l - 1, Frame(e), v, b, missing);
    }
  }

  /** Addresses of one page have the same entries above the leaf. */
  lemma {:induction false} SameUpper(m: seq<nat>, l: nat, t: nat, v: nat, u: nat, b: nat, missing: bool)
    requires 1 <= l <= 4 && Right(b) && Prefix(v, 2) == Prefix(u, 2)
    ensures UpperAllowed(m, l, t, v, b, missing) == UpperAllowed(m, l, t, u, b, missing)
  {
    if l > 1 {
      SameIndex(v, u, 2, l);
      var w := Load(m, t, Index(v, l));
      if Present(w) { SameUpper(m, l - 1, Frame(w), v, u, b, missing); }
    }
  }

  // ----- the whole call ------------------------------------------------------

  ghost predicate SameAllowed(m: seq<nat>, m': seq<nat>, own: map<nat, Node>, b: nat)
    requires Right(b)
  {
    forall r, v: nat :: IsRoot(own, r) ==> Allowed(m', 4, r, v, b) == Allowed(m, 4, r, v, b)
  }

  lemma PathRights(s: Space, own: map<nat, Node>, lo: nat, root: nat, virt: nat, flags: nat, k: nat, t: nat, b: nat)
    returns (own': map<nat, Node>)
    requires Forest(s.ram, own, map[], lo, s.brk) && IsRoot(own, root) && lo <= s.brk && GoodFlags(flags) && Right(b)
    requires 2 <= k <= 4 && TableFrom(s.ram, 4, root, virt, k) == Some(t)
    requires Ensure(s, t, Index(virt, k), flags).Fits()
    ensures var s' := Ensure(s, t, Index(virt, k), flags);
      && Forest(s'.ram, own', map[], lo, s'.brk) && lo <= s'.brk
      && TableFrom(s'.ram, 4, root, virt, k - 1) == Some(Next(s', t, Index(virt, k)))
      && SameAllowed(s.ram, s'.ram, own, b)
      && UpperAllowed(s'.ram, 4, root, virt, b, HasBit(flags, b))
        == UpperAllowed(s.ram, 4, root, virt, b, HasBit(flags, b))
    ensures SameRoots(own, own')
  {
    var i := Index(virt, k);
    TableOwned(s.ram, own, lo, s.brk, 4, root, virt, k);
    own' := EnsureOnPath(s, own, lo, root, virt, flags, k, t);
    EnsureUpper(s, own, lo, virt, flags, k, t, 4, root, b);
    forall r, v: nat | IsRoot(own, r)
      ensures Allowed(Ensure(s, t, i, flags).ram, 4, r, v, b) == Allowed(s.ram, 4, r, v, b)
    {
      EnsureAllowed(s, own, lo, t, i, flags, 4, r, v, b);
    }
  }

  lemma DescendRights(s: Space, own: map<nat, Node>, lo: nat, root: nat, virt: nat, flags: nat, b: nat)
    returns (own': map<nat, Node>)
    requires Forest(s.ram, own, map[], lo, s.brk) && IsRoot(own, root) && lo <= s.brk && GoodFlags(flags) && Right(b)
    requires Descend(s, root, virt, flags).0.Fits()
    ensures var (s2, pt) := Descend(s, root, virt, flags);
      && Forest(s2.ram, own', map[], lo, s2.brk) && TableFrom(s2.ram, 4, root, virt, 1) == Some(pt)
      && SameAllowed(s.ram, s2.ram, own, b)
      && UpperAllowed(s2.ram, 4, root, virt, b, HasBit(flags, b))
        == UpperAllowed(s.ram, 4, root, virt, b, HasBit(flags, b))
    ensures SameRoots(own, own')
  {
    hide Forest, Ensure, Next, Index, Allowed, UpperAllowed, HasBit, TableFrom;
    var s4 := Ensure(s, root, Index(virt, 4), flags);
    var pdpt := Next(s4, root, Index(virt, 4));
    var s3 := Ensure(s4, pdpt, Index(virt, 3), flags);
    var pd := Next(s3, pdpt, Index(virt, 3));
    EnsureBrk(s4, pdpt, Index(virt, 3), flags);
    EnsureBrk(s3, pd, Index(virt, 2), flags);
    TopTable(s.ram, root, virt);
    var own4 := PathRights(s, own, lo, root, virt, flags, 4, root, b);
    var own3 := PathRights(s4, own4, lo, root, virt, flags, 3, pdpt, b);
    own' := PathRights(s3, own3, lo, root, virt, flags, 2, pd, b);
  }

  lemma TopTable(m: seq<nat>, root: nat, v: nat)
    ensures TableFrom(m, 4, root, v, 4) == Some(root)
  {
  }

  /**
   * `mapPage` as a finite-map update of rights: the page of `virt` gets those of the leaf entry that the upper entries
   * on its way have too, where entries that had to be created have those of the flags; no other page gains or loses
   * any.
   */
  lemma MapPageRights(s: Space, own: map<nat, Node>, lo: nat, root: nat, virt: nat, phys: nat, flags: nat, b: nat)
    requires Forest(s.ram, own, map[], lo, s.brk) && IsRoot(own, root) && lo <= s.brk && GoodFlags(flags) && Right(b)
    requires MapPage(s, root, virt, phys, flags).Fits()
    ensures forall r, v: nat :: IsRoot(own, r) ==>
      Allowed(MapPage(s, root, virt, phys, flags).ram, 4, r, v, b) ==
        if r == root && SamePage(v, virt)
        then HasBit(Or(phys, flags), b) && UpperAllowed(s.ram, 4, root, virt, b, HasBit(flags, b))
        else Allowed(s.ram, 4, r, v, b)
  {
    var (s2, pt) := Descend(s, root, virt, flags);
    var own' := DescendRights(s, own, lo, root, virt, flags, b);
    OrPresent(phys, flags);
    hide Descend, Forest, Allowed, UpperAllowed, HasBit, Or, GoodFlags;
    forall r, v: nat | IsRoot(own, r)
      ensures Allowed(Store(s2.ram, pt, Index(virt, 1), Or(phys, flags)), 4, r, v, b) ==
        if r == root && SamePage(v, virt)
        then HasBit(Or(phys, flags), b) && UpperAllowed(s.ram, 4, root, virt, b, HasBit(flags, b))
        else Allowed(s.ram, 4, r, v, b)
    {
      LeafRights(s2.ram, own', lo, s2.brk, root, virt, pt, Or(phys, flags), r, v, b, HasBit(flags, b));
    }
  }

  lemma LeafRights(m: seq<nat>, own: map<nat, Node>, lo: nat, hi: nat, root: nat, virt: nat, pt: nat, w: nat, r: nat,
          v: nat, b: nat, missing: bool)
    requires Forest(m, own, map[], lo, hi) && hi <= 8 * |m| && IsRoot(own, root) && IsRoot(own, r) && Present(w)
    requires TableFrom(m, 4, root, virt, 1) == Some(pt) && Right(b)
    ensures Allowed(Store(m, pt, Index(virt, 1), w), 4, r, v, b) ==
      if r == root && SamePage(v, virt) then HasBit(w, b) && UpperAllowed(m, 4, root, virt, b, missing)
      else Allowed(m, 4, r, v, b)
  {
    TableOwned(m, own, lo, hi, 4, root, virt, 1);
    hide Allowed, UpperAllowed, HasBit, Forest, Store;
    SetLeafAllowed(m, own, lo, hi, pt, Index(virt, 1), w, 4, r, v, b, missing);
    SamePageIndex(v, virt);
    PrefixIndex(v, virt, 1);
    if TableFrom(m, 4, r, v, 1) == Some(pt) {
      PathUnique(m, own, lo, hi, r, v, root, virt, 1);
    }
    if r == root && Prefix(v, 2) == Prefix(virt, 2) {
      SamePath(m, 4, r, v, virt, 1);
      SameUpper(m, 4, r, v, virt, b, missing);
    }
  }

  /**
   * So the page gets exactly the right that the flags ask for unless they ask for one that an upper entry already there
   * does not have.
   */
  lemma GrantedExact(s: Space, own: map<nat, Node>, lo: nat, root: nat, virt: nat, phys: nat, flags: nat, b: nat)
    requires Forest(s.ram, own, map[], lo, s.brk) && IsRoot(own, root) && lo <= s.brk && GoodFlags(flags) && Right(b)
    requires phys % TABLE == 0 && MapPage(s, root, virt, phys, flags).Fits()
    ensures Allowed(MapPage(s, root, virt, phys, flags).ram, 4, root, virt, b) == HasBit(flags, b)
      <==> (HasBit(flags, b) ==> UpperAllowed(s.ram, 4, root, virt, b, true))
  {
    hide Forest, Allowed, UpperAllowed, HasBit, Or, MapPage;
    MapPageRights(s, own, lo, root, virt, phys, flags, b);
    EntryRight(phys, flags, b);
    assert SamePage(virt, virt);
  }

  // ----- a right that cannot be given later ------------------------------------

  /** Entries that are there are never rewritten, so what they withhold stays withheld. */
  lemma {:induction false} EnsureStuck(s: Space, own: map<nat, Node>, lo: nat, t: nat, i: nat, flags: nat, l: nat,
          x: nat, v: nat, b: nat)
    requires Forest(s.ram, own, map[], lo, s.brk) && t in own && Level(own[t]) > 1 && i < 512 && GoodFlags(flags)
    requires Ensure(s, t, i, flags).Fits() && Right(b)
    requires 1 <= l <= 4 && x in own && Level(own[x]) == l && !UpperAllowed(s.ram, l, x, v, b, true)
    ensures !UpperAllowed(Ensure(s, t, i, flags).ram, l, x, v, b, true)
  {
    if !Present(Load(s.ram, t, i)) {
      EnsureLoads(s, own, lo, t, i, flags);
      hide Ensure, HasBit;
      var w := Load(s.ram, x, Index(v, l));
      if l > 1 && Present(w) && HasBit(w, b) {
        EnsureStuck(s, own, lo, t, i, flags, l - 1, Frame(w), v, b);
      }
    }
  }

  lemma {:induction false} SetLeafUpper(m: seq<nat>, own: map<nat, Node>, lo: nat, hi: nat, pt: nat, i: nat, w: nat,
          l: nat, x: nat, v: nat, b: nat)
    requires Forest(m, own, map[], lo, hi) && hi <= 8 * |m| && pt in own && Level(own[pt]) == 1 && i < 512
    requires 1 <= l <= 4 && x in own && Level(own[x]) == l && Right(b)
    ensures UpperAllowed(Store(m, pt, i, w), l, x, v, b, true) == UpperAllowed(m, l, x, v, b, true)
  {
    SetLeafForest(m, own, lo, hi, pt, i, w);
    hide HasBit;
    var e := Load(m, x, Index(v, l));
    if l > 1 && Present(e) {
      SetLeafUpper(m, own, lo, hi, pt, i, w, l - 1, Frame(e), v, b);
    }
  }

  /** One more page in any directory never gives an address a right that an upper entry on its way withholds. */
  lemma MapPageStuck(s: Space, own: map<nat, Node>, lo: nat, root: nat, virt: nat, phys: nat, flags: nat, r: nat,
          v: nat, b: nat)
    requires Forest(s.ram, own, map[], lo, s.brk) && IsRoot(own, root) && lo <= s.brk && GoodFlags(flags) && Right(b)
    requires MapPage(s, root, virt, phys, flags).Fits()
    requires IsRoot(own, r) && !UpperAllowed(s.ram, 4, r, v, b, true)
    ensures !UpperAllowed(MapPage(s, root, virt, phys, flags).ram, 4, r, v, b, true)
  {
    hide Forest, Ensure, Next, Index, UpperAllowed, HasBit, TableFrom, Or;
    var s4 := Ensure(s, root, Index(virt, 4), flags);
    var pdpt := Next(s4, root, Index(virt, 4));
    var s3 := Ensure(s4, pdpt, Index(virt, 3), flags);
    var pd := Next(s3, pdpt, Index(virt, 3));
    var s2 := Ensure(s3, pd, Index(virt, 2), flags);
    EnsureBrk(s4, pdpt, Index(virt, 3), flags);
    EnsureBrk(s3, pd, Index(virt, 2), flags);
    TopTable(s.ram, root, virt);
    var own4 := PathStuck(s, own, lo, root, virt, flags, 4, root, r, v, b);
    var own3 := PathStuck(s4, own4, lo, root, virt, flags, 3, pdpt, r, v, b);
    var own2 := PathStuck(s3, own3, lo, root, virt, flags, 2, pd, r, v, b);
    var pt := Next(s2, pd, Index(virt, 2));
    TableOwned(s2.ram, own2, lo, s2.brk, 4, root, virt, 1);
    SetLeafUpper(s2.ram, own2, lo, s2.brk, pt, Index(virt, 1), Or(phys, flags), 4, r, v, b);
  }

  lemma PathStuck(s: Space, own: map<nat, Node>, lo: nat, root: nat, virt: nat, flags: nat, k: nat, t: nat, r: nat,
          v: nat, b: nat)
    returns (own': map<nat, Node>)
    requires Forest(s.ram, own, map[], lo, s.brk) && IsRoot(own, root) && lo <= s.brk && GoodFlags(flags) && Right(b)
    requires 2 <= k <= 4 && TableFrom(s.ram, 4, root, virt, k) == Some(t)
    requires Ensure(s, t, Index(virt, k), flags).Fits()
    requires IsRoot(own, r) && !UpperAllowed(s.ram, 4, r, v, b, true)
    ensures var s' := Ensure(s, t, Index(virt, k), flags);
      && Forest(s'.ram, own', map[], lo, s'.brk) && lo <= s'.brk
      && TableFrom(s'.ram, 4, root, virt, k - 1) == Some(Next(s', t, Index(virt, k)))
      && !UpperAllowed(s'.ram, 4, r, v, b, true)
    ensures SameRoots(own, own')
  {
    TableOwned(s.ram, own, lo, s.brk, 4, root, virt, k);
    own' := EnsureOnPath(s, own, lo, root, virt, flags, k, t);
    EnsureStuck(s, own, lo, t, Index(virt, k), flags, 4, r, v, b);
  }

  // ----- a directory that is filled with one kind of entry --------------------

  /** No upper entry under the directory withholds right b. */
  ghost predicate Open(m: seq<nat>, root: nat, b: nat)
    requires Right(b)
  {
    forall v: nat :: UpperAllowed(m, 4, root, v, b, true)
  }

  /** A table created with right b withholds it from no address. */
  lemma {:induction false} EnsureOpen(s: Space, own: map<nat, Node>, lo: nat, t: nat, i: nat, flags: nat, l: nat,
          x: nat, v: nat, b: nat)
    requires Forest(s.ram, own, map[], lo, s.brk) && t in own && Level(own[t]) > 1 && i < 512 && GoodFlags(flags)
    requires Ensure(s, t, i, flags).Fits() && Right(b) && HasBit(flags, b)
    requires 1 <= l <= 4 && x in own && Level(own[x]) == l && UpperAllowed(s.ram, l, x, v, b, true)
    ensures UpperAllowed(Ensure(s, t, i, flags).ram, l, x, v, b, true)
  {
    if !Present(Load(s.ram, t, i)) {
      EnsureLoads(s, own, lo, t, i, flags);
      FreshEntry(s, own, t, i, flags, b);
      hide Ensure, HasBit;
      var w := Load(s.ram, x, Index(v, l));
      if !(x == t && Index(v, l) == i) && l > 1 && Present(w) {
        EnsureOpen(s, own, lo, t, i, flags, l - 1, Frame(w), v, b);
      }
    }
  }

  lemma PathOpen(s: Space, own: map<nat, Node>, lo: nat, root: nat, virt: nat, flags: nat, k: nat, t: nat, b: nat)
    returns (own': map<nat, Node>)
    requires Forest(s.ram, own, map[], lo, s.brk) && IsRoot(own, root) && lo <= s.brk && GoodFlags(flags)
    requires Right(b) && HasBit(flags, b) && Open(s.ram, root, b)
    requires 2 <= k <= 4 && TableFrom(s.ram, 4, root, virt, k) == Some(t)
    requires Ensure(s, t, Index(virt, k), flags).Fits()
    ensures var s' := Ensure(s, t, Index(virt, k), flags);
      && Forest(s'.ram, own', map[], lo, s'.brk) && lo <= s'.brk
      && TableFrom(s'.ram, 4, root, virt, k - 1) == Some(Next(s', t, Index(virt, k)))
      && Open(s'.ram, root, b)
    ensures SameRoots(own, own')
  {
    TableOwned(s.ram, own, lo, s.brk, 4, root, virt, k);
    own' := EnsureOnPath(s, own, lo, root, virt, flags, k, t);
    forall v: nat ensures UpperAllowed(Ensure(s, t, Index(virt, k), flags).ram, 4, root, v, b, true) {
      EnsureOpen(s, own, lo, t, Index(virt, k), flags, 4, root, v, b);
    }
  }

  /** Mapping with right b keeps it so. */
  lemma MapPageOpen(s: Space, own: map<nat, Node>, lo: nat, root: nat, virt: nat, phys: nat, flags: nat, b: nat)
    requires Forest(s.ram, own, map[], lo, s.brk) && IsRoot(own, root) && lo <= s.brk && GoodFlags(flags)
    requires MapPage(s, root, virt, phys, flags).Fits() && Right(b) && HasBit(flags, b) && Open(s.ram, root, b)
    ensures Open(MapPage(s, root, virt, phys, flags).ram, root, b)
  {
    hide Forest, Ensure, Next, Index, UpperAllowed, HasBit, TableFrom, Or;
    var s4 := Ensure(s, root, Index(virt, 4), flags);
    var pdpt := Next(s4, root, Index(virt, 4));
    var s3 := Ensure(s4, pdpt, Index(virt, 3), flags);
    var pd := Next(s3, pdpt, Index(virt, 3));
    var s2 := Ensure(s3, pd, Index(virt, 2), flags);
    EnsureBrk(s4, pdpt, Index(virt, 3), flags);
    EnsureBrk(s3, pd, Index(virt, 2), flags);
    TopTable(s.ram, root, virt);
    var own4 := PathOpen(s, own, lo, root, virt, flags, 4, root, b);
    var own3 := PathOpen(s4, own4, lo, root, virt, flags, 3, pdpt, b);
    var own2 := PathOpen(s3, own3, lo, root, virt, flags, 2, pd, b);
    var pt := Next(s2, pd, Index(virt, 2));
    TableOwned(s2.ram, own2, lo, s2.brk, 4, root, virt, 1);
    forall v: nat ensures UpperAllowed(MapPage(s, root, virt, phys, flags).ram, 4, root, v, b, true) {
      SetLeafUpper(s2.ram, own2, lo, s2.brk, pt, Index(virt, 1), Or(phys, flags), 4, root, v, b);
    }
  }

  /** In m' pages at a distance below n have right b if `granted`, and every other page has it as in m. */
  ghost predicate RangeRights(m: seq<nat>, m': seq<nat>, root: nat, virt: nat, n: nat, b: nat, granted: bool)
    requires Right(b)
  {
    && (granted ==> Open(m', root, b))
    && forall v: nat ::
      Allowed(m', 4, root, v, b) == if Distance(v, virt) < n then granted else Allowed(m, 4, root, v, b)
  }

  /**
   * After n pages of a range have been mapped into an open directory with page-aligned frames, they have right b if the
   * flags do, and no other page has gained or lost it.
   */
  lemma {:induction false} MapRangeRights(s: Space, own: map<nat, Node>, lo: nat, root: nat, virt: nat, phys: nat,
          n: nat, flags: nat, b: nat)
    requires Forest(s.ram, own, map[], lo, s.brk) && IsRoot(own, root) && lo <= s.brk && GoodFlags(flags) && Right(b)
    requires phys % TABLE == 0 && MapRange(s, root, virt, phys, n, flags).Fits()
    requires HasBit(flags, b) ==> Open(s.ram, root, b)
    ensures RangeRights(s.ram, MapRange(s, root, virt, phys, n, flags).ram, root, virt, n, b, HasBit(flags, b))
    decreases n
  {
    hide Forest, Allowed, HasBit, MapPage, Open, Advance, RangeRights, UpdatesRange, Right, GoodFlags;
    if n == 0 {
      NoRangeRights(s.ram, root, virt, b, HasBit(flags, b));
    } else {
      var s1 := MapRange(s, root, virt, phys, n - 1, flags);
      MapRangeLast(s, root, virt, phys, n, flags);
      MapRangeRights(s, own, lo, root, virt, phys, n - 1, flags, b);
      var own1 := MapRangeEffect(s, own, lo, root, virt, phys, n - 1, flags);
      RangeRightsStep(s.ram, s1, own1, lo, root, virt, phys, n, flags, b);
    }
  }

  lemma NoRangeRights(m: seq<nat>, root: nat, virt: nat, b: nat, granted: bool)
    requires Right(b) && (granted ==> Open(m, root, b))
    ensures RangeRights(m, m, root, virt, 0, b, granted)
  {
    hide Allowed, Open;
  }

  lemma RangeRightsStep(m: seq<nat>, s: Space, own: map<nat, Node>, lo: nat, root: nat, virt: nat, phys: nat, n: nat,
          flags: nat, b: nat)
    requires Forest(s.ram, own, map[], lo, s.brk) && IsRoot(own, root) && lo <= s.brk && GoodFlags(flags) && Right(b)
    requires n > 0 && phys % TABLE == 0 && RangeRights(m, s.ram, root, virt, n - 1, b, HasBit(flags, b))
    requires MapPage(s, root, Advance(virt, n - 1), Advance(phys, n - 1), flags).Fits()
    ensures RangeRights(m, MapPage(s, root, Advance(virt, n - 1), Advance(phys, n - 1), flags).ram, root, virt, n, b,
        HasBit(flags, b))
  {
    var at, to, granted := Advance(virt, n - 1), Advance(phys, n - 1), HasBit(flags, b);
    AdvanceAligned(phys, n - 1);
    hide Forest, Allowed, HasBit, MapPage, Open, Advance, SamePage, Distance;
    PageRights(s, own, lo, root, at, to, flags, b);
    var m2 := MapPage(s, root, at, to, flags).ram;
    forall v: nat
      ensures Allowed(m2, 4, root, v, b) == if Distance(v, virt) < n then granted else Allowed(m, 4, root, v, b)
    {
      DistanceExact(v, virt, n - 1);
      LastVisitStep(Distance(v, virt), n);
    }
  }

  /** One page mapped into an open directory, with a page-aligned frame, has exactly the rights of the flags. */
  lemma PageRights(s: Space, own: map<nat, Node>, lo: nat, root: nat, virt: nat, phys: nat, flags: nat, b: nat)
    requires Forest(s.ram, own, map[], lo, s.brk) && IsRoot(own, root) && lo <= s.brk && GoodFlags(flags) && Right(b)
    requires phys % TABLE == 0 && MapPage(s, root, virt, phys, flags).Fits()
    requires HasBit(flags, b) ==> Open(s.ram, root, b)
    ensures var m := MapPage(s, root, virt, phys, flags).ram;
      && (HasBit(flags, b) ==> Open(m, root, b))
      && forall v: nat :: Allowed(m, 4, root, v, b) ==
          if SamePage(v, virt) then HasBit(flags, b) else Allowed(s.ram, 4, root, v, b)
  {
    hide Forest, Allowed, UpperAllowed, HasBit, MapPage, Or, SamePage;
    MapPageRights(s, own, lo, root, virt, phys, flags, b);
    EntryRight(phys, flags, b);
    if HasBit(flags, b) {
      MapPageOpen(s, own, lo, root, virt, phys, flags, b);
      OpenAt(s.ram, root, virt, b);
    }
  }

  lemma OpenAt(m: seq<nat>, root: nat, v: nat, b: nat)
    requires Right(b) && Open(m, root, b)
    ensures UpperAllowed(m, 4, root, v, b, true)
  {
  }

  lemma AdvanceAligned(a: nat, n: nat)
    requires a % TABLE == 0
    ensures Advance(a, n) % TABLE == 0
  {
    var x, k := a + n * 0x1000, a / 0x1000 + n;
    assert x == k * 0x1000;
    assert x % WORD == (k - x / WORD * 0x10_0000_0000_0000) * 0x1000;
  }

  /** A directory without tables withholds nothing and grants nothing. */
  lemma BareRights(m: seq<nat>, own: map<nat, Node>, lo: nat, hi: nat, root: nat, b: nat)
    requires Forest(m, own, map[], lo, hi) && IsRoot(own, root) && Bare(m, root) && Right(b)
    ensures Open(m, root, b) && forall v: nat :: !Allowed(m, 4, root, v, b)
  {
    forall v: nat ensures !Present(Load(m, root, Index(v, 4))) {
      PresentTable(m, own, lo, hi, 4, root, v, 3);
      assert !Reaches(m, root, v, 3);
      TopTable(m, root, v);
    }
  }

  // ----- what a clone grants ---------------------------------------------------

  /** An entry that `clone` has written above the last level: absent, or writable and not for user mode. */
  predicate ClonedEntry(w: nat) { Present(w) ==> HasBit(w, RW) && !HasBit(w, USER) }

  lemma CloneFlags(p: nat)
    requires p % TABLE == 0
    ensures CloneEntry(p) == Or(p, 3)
  {
    hide Or;
    OrPage(p, RW);
    assert Pow2(1) == 2;
    OrDisjoint((p + 2) / 2, PRESENT, 1);
    OrPage(p, 3);
  }

  lemma ClonedRights(p: nat)
    requires p % TABLE == 0
    ensures HasBit(CloneEntry(p), RW) && !HasBit(CloneEntry(p), USER)
  {
    hide Or;
    CloneFlags(p);
    EntryRight(p, 3, RW);
    EntryRight(p, 3, USER);
  }

  /** Every entry that the loop writes into dst is such an entry. */
  lemma {:induction false} LevelCloned(s: Space, own: map<nat, Node>, open: map<nat, nat>, lo: nat, l: nat, src: nat,
          dst: nat, i: nat, j: nat)
    requires Copying(s, own, open, lo, l, src, dst, i) && i <= j < 512 && CopyLevel(s, l, src, dst, i).Fits()
    ensures ClonedEntry(Load(CopyLevel(s, l, src, dst, i).ram, dst, j))
    decreases 512 - i
  {
    var s2 := CopyEntry(s, l, src, dst, i);
    var own2 := CopyEntryEffect(s, own, open, lo, l, src, dst, i);
    CopyStep(s, own, open, lo, l, src, dst, i, s2, own2);
    hide Forest, CopyEntry, ClonedEntry, Load;
    if j == i {
      EntryCloned(s, own, open, lo, l, src, dst, i);
      var own' := CopyLevelEffect(s2, own2, open[dst := i + 1], lo, l, src, dst, i + 1);
    } else {
      LevelCloned(s2, own2, open[dst := i + 1], lo, l, src, dst, i + 1, j);
    }
  }

  lemma CopyStep(s: Space, own: map<nat, Node>, open: map<nat, nat>, lo: nat, l: nat, src: nat, dst: nat, i: nat,
                 s2: Space, own2: map<nat, Node>)
    requires Copying(s, own, open, lo, l, src, dst, i) && i < 512 && s.brk <= s2.brk
    requires Forest(s2.ram, own2, open[dst := i + 1], lo, s2.brk) && Extends(own, own2)
    ensures Copying(s2, own2, open[dst := i + 1], lo, l, src, dst, i + 1)
  {
  }

  lemma EntryCloned(s: Space, own: map<nat, Node>, open: map<nat, nat>, lo: nat, l: nat, src: nat, dst: nat, i: nat)
    requires Copying(s, own, open, lo, l, src, dst, i) && i < 512 && CopyEntry(s, l, src, dst, i).Fits()
    ensures ClonedEntry(Load(CopyEntry(s, l, src, dst, i).ram, dst, i))
  {
    if Present(Load(s.ram, src, i)) {
      var p, q, s1 := AlignUp(s.brk), Frame(Load(s.ram, src, i)), Hang(s, dst, i);
      LoadStore(s.ram, dst, i, CloneEntry(p), dst, i);
      ClonedRights(p);
      hide HasBit, CloneEntry;
      var own1 := HangPage(s, own, open, lo, l, src, dst, i);
      var own2 := CopyChild(s1, own1, open[dst := i + 1], lo, l, q, p);
    } else {
      LoadStore(s.ram, dst, i, 0, dst, i);
    }
  }

  /** In a clone no page is for user mode, whatever its source was. */
  lemma CloneUser(s: Space, own: map<nat, Node>, lo: nat, root: nat, v: nat)
    requires Forest(s.ram, own, map[], lo, s.brk) && IsRoot(own, root) && lo <= s.brk && Clone(s, root).Fits()
    ensures !Allowed(Clone(s, root).ram, 4, CloneRoot(s), v, USER)
  {
    hide Forest, CopyLevel;
    StartCopy(s, own, lo, root);
    var p := CloneRoot(s);
    LevelCloned(Reserve(s), own[p := Root], map[p := 0], lo, 4, root, p, 0, Index(v, 4));
  }
}
