/** `mapPage` and `map` as functions on memory, and what they do to the translation of every address. */
module Mapping {
  import opened Bits
  import opened PageTables
  import opened Readings

  /** Make sure entry i of table t points to a table, allocating an empty one if it does not. */
  function Ensure(s: Space, t: nat, i: nat, flags: nat): Space {
    if Present(Load(s.ram, t, i)) then s
    else
      var p := AlignUp(s.brk);
      Space(Store(ZeroTable(s.ram, p), t, i, Or(p, flags)), p + TABLE)
  }

  function Next(s: Space, t: nat, i: nat): nat {
    Frame(Load(s.ram, t, i))
  }

  /** The space with the three tables on the way to `virt` in place, and the last of them. */
  function Descend(s: Space, root: nat, virt: nat, flags: nat): (Space, nat) {
    var s4 := Ensure(s, root, Index(virt, 4), flags);
    var pdpt := Next(s4, root, Index(virt, 4));
    var s3 := Ensure(s4, pdpt, Index(virt, 3), flags);
    var pd := Next(s3, pdpt, Index(virt, 3));
    var s2 := Ensure(s3, pd, Index(virt, 2), flags);
    (s2, Next(s2, pd, Index(virt, 2)))
  }

  function MapPage(s: Space, root: nat, virt: nat, phys: nat, flags: nat): Space {
    var (s2, pt) := Descend(s, root, virt, flags);
    Space(Store(s2.ram, pt, Index(virt, 1), Or(phys, flags)), s2.brk)
  }

  // ----- one intermediate table --------------------------------------------

  ghost predicate SameRoots(own: map<nat, Node>, own': map<nat, Node>) {
    forall x :: IsRoot(own', x) <==> IsRoot(own, x)
  }

  ghost predicate Extends(own: map<nat, Node>, own': map<nat, Node>) {
    forall x :: x in own ==> x in own' && own'[x] == own[x]
  }

  lemma EnsureLoads(s: Space, own: map<nat, Node>, lo: nat, t: nat, i: nat, flags: nat)
    requires Forest(s.ram, own, map[], lo, s.brk) && t in own && i < 512 && GoodFlags(flags)
    requires !Present(Load(s.ram, t, i)) && Ensure(s, t, i, flags).Fits()
    ensures var m', p := Ensure(s, t, i, flags).ram, AlignUp(s.brk);
      && p !in own
      && (forall x, j :: x in own && 0 <= j < 512 && !(x == t && j == i) ==> Load(m', x, j) == Load(s.ram, x, j))
      && (forall j :: 0 <= j < 512 ==> Load(m', p, j) == 0)
      && Present(Load(m', t, i)) && !Large(Load(m', t, i)) && Frame(Load(m', t, i)) == p
  {
    var p := AlignUp(s.brk);
    var z := ZeroTable(s.ram, p);
    EntryWord(p, flags);
    forall x, j | (x in own || x == p) && 0 <= j < 512
      ensures Load(Store(z, t, i, Or(p, flags)), x, j) ==
              if x == t && j == i then Or(p, flags) else if x == p then 0 else Load(s.ram, x, j)
    {
      LoadStore(z, t, i, Or(p, flags), x, j);
      LoadZero(s.ram, p, x, j);
    }
  }

  lemma EnsureForest(s: Space, own: map<nat, Node>, lo: nat, t: nat, i: nat, flags: nat) returns (own': map<nat, Node>)
    requires Forest(s.ram, own, map[], lo, s.brk) && t in own && Level(own[t]) > 1 && i < 512 && GoodFlags(flags)
    requires lo <= s.brk && Ensure(s, t, i, flags).Fits()
    ensures var s' := Ensure(s, t, i, flags);
      && |s'.ram| == |s.ram| && s.brk <= s'.brk
      && Forest(s'.ram, own', map[], lo, s'.brk)
      && Next(s', t, i) in own' && own'[Next(s', t, i)] == Child(Level(own[t]) - 1, t, i)
    ensures Extends(own, own') && SameRoots(own, own')
  {
    if Present(Load(s.ram, t, i)) {
      own' := own;
    } else {
      EnsureLoads(s, own, lo, t, i, flags);
      var s', p := Ensure(s, t, i, flags), AlignUp(s.brk);
      own' := AddChild(s.ram, s'.ram, own, map[], map[], lo, s.brk, s'.brk, t, i, p);
    }
  }

  /** A new empty table is invisible to every walk. */
  lemma {:induction false} EnsureWalk(s: Space, own: map<nat, Node>, lo: nat, t: nat, i: nat, flags: nat, l: nat,
          x: nat, v: nat)
    requires Forest(s.ram, own, map[], lo, s.brk) && t in own && Level(own[t]) > 1 && i < 512 && GoodFlags(flags)
    requires Ensure(s, t, i, flags).Fits()
    requires 1 <= l <= 4 && x in own && Level(own[x]) == l
    ensures WalkFrom(Ensure(s, t, i, flags).ram, l, x, v) == WalkFrom(s.ram, l, x, v)
  {
    if !Present(Load(s.ram, t, i)) {
      EnsureLoads(s, own, lo, t, i, flags);
      var w := Load(s.ram, x, Index(v, l));
      if !(x == t && Index(v, l) == i) && l > 1 && Present(w) {
        EnsureWalk(s, own, lo, t, i, flags, l - 1, Frame(w), v);
      }
    }
  }

  /** `Ensure` adds one table to exactly the walks through its entry, and moves no other table. */
  lemma {:induction false} EnsureTable(s: Space, own: map<nat, Node>, lo: nat, t: nat, i: nat, flags: nat, l: nat,
          x: nat, v: nat, k: nat)
    requires Forest(s.ram, own, map[], lo, s.brk) && t in own && Level(own[t]) > 1 && i < 512 && GoodFlags(flags)
    requires Ensure(s, t, i, flags).Fits()
    requires 1 <= k <= l <= 4 && x in own && Level(own[x]) == l
    ensures var s' := Ensure(s, t, i, flags);
      var before, after := TableFrom(s.ram, l, x, v, k), TableFrom(s'.ram, l, x, v, k);
      if before.Some? then after == before
      else if k + 1 == Level(own[t]) && k < l && TableFrom(s.ram, l, x, v, k + 1) == Some(t) && Index(v, k + 1) == i
      then after == Some(Next(s', t, i))
      else after == None
  {
    if !Present(Load(s.ram, t, i)) {
      var w := Load(s.ram, x, Index(v, l));
      if x == t && Index(v, l) == i {
        EnsureHere(s, own, lo, t, i, flags, l, v, k);
      } else {
        EnsureLoads(s, own, lo, t, i, flags);
        hide Forest, Ensure, Load, Frame, Present, Large, Index;
        if l > k && Present(w) {
          EntryTable(s.ram, own, map[], lo, s.brk, x, Index(v, l));
          EnsureTable(s, own, lo, t, i, flags, l - 1, Frame(w), v, k);
        }
      }
    } else if k < l {
      PresentTable(s.ram, own, lo, s.brk, l, x, v, k);
    }
  }

  /** The walks through the entry go on into a table of zeros. */
  lemma EnsureHere(s: Space, own: map<nat, Node>, lo: nat, t: nat, i: nat, flags: nat, l: nat, v: nat, k: nat)
    requires Forest(s.ram, own, map[], lo, s.brk) && t in own && Level(own[t]) == l && i < 512 && GoodFlags(flags)
    requires Ensure(s, t, i, flags).Fits() && !Present(Load(s.ram, t, i))
    requires 1 <= k <= l <= 4 && 1 < l && Index(v, l) == i
    ensures var s' := Ensure(s, t, i, flags);
      && TableFrom(s.ram, l, t, v, k) == (if k == l then Some(t) else None)
      && TableFrom(s'.ram, l, t, v, k) ==
        (if k == l then Some(t) else if k + 1 == l then Some(Next(s', t, i)) else None)
  {
    EnsureLoads(s, own, lo, t, i, flags);
    hide Forest, Ensure;
  }

  /** A table is missing from a walk only below an entry that is not present. */
  lemma {:induction false} PresentTable(m: seq<nat>, own: map<nat, Node>, lo: nat, hi: nat, l: nat, x: nat, v: nat,
          k: nat)
    requires Forest(m, own, map[], lo, hi) && 1 <= k < l <= 4 && x in own && Level(own[x]) == l
    ensures var up := TableFrom(m, l, x, v, k + 1);
      TableFrom(m, l, x, v, k) ==
        if up.Some? && Present(Load(m, up.value, Index(v, k + 1)))
        then Some(Frame(Load(m, up.value, Index(v, k + 1)))) else None
  {
    var w := Load(m, x, Index(v, l));
    if k + 1 < l && Present(w) {
      PresentTable(m, own, lo, hi, l - 1, Frame(w), v, k);
    }
  }

  // ----- the leaf entry ----------------------------------------------------

  lemma SetLeafForest(m: seq<nat>, own: map<nat, Node>, lo: nat, hi: nat, pt: nat, i: nat, w: nat)
    requires Forest(m, own, map[], lo, hi) && hi <= 8 * |m| && pt in own && Level(own[pt]) == 1 && i < 512
    ensures Forest(Store(m, pt, i, w), own, map[], lo, hi)
    ensures forall x, j :: x in own && 0 <= j < 512 ==>
      Load(Store(m, pt, i, w), x, j) == if x == pt && j == i then w else Load(m, x, j)
  {
    forall x, j | x in own && 0 <= j < 512
      ensures Load(Store(m, pt, i, w), x, j) == if x == pt && j == i then w else Load(m, x, j)
    {
      LoadStore(m, pt, i, w, x, j);
    }
  }

  /** Writing a leaf entry changes exactly the walks that end in it, and moves no table. */
  lemma {:induction false} SetLeafWalk(m: seq<nat>, own: map<nat, Node>, lo: nat, hi: nat, pt: nat, i: nat, w: nat,
          l: nat, x: nat, v: nat)
    requires Forest(m, own, map[], lo, hi) && hi <= 8 * |m| && pt in own && Level(own[pt]) == 1 && i < 512
    requires 1 <= l <= 4 && x in own && Level(own[x]) == l
    ensures WalkFrom(Store(m, pt, i, w), l, x, v) ==
      if TableFrom(m, l, x, v, 1) == Some(pt) && Index(v, 1) == i
      then if Present(w) then Leaf(w) else Fault
      else WalkFrom(m, l, x, v)
    ensures forall k :: 1 <= k <= l ==> TableFrom(Store(m, pt, i, w), l, x, v, k) == TableFrom(m, l, x, v, k)
  {
    SetLeafForest(m, own, lo, hi, pt, i, w);
    var e := Load(m, x, Index(v, l));
    if l > 1 && Present(e) {
      SetLeafWalk(m, own, lo, hi, pt, i, w, l - 1, Frame(e), v);
    }
  }

  // ----- one page ----------------------------------------------------------

  /** Whether the walk of v reaches a table of level k. */
  predicate Reaches(m: seq<nat>, r: nat, v: nat, k: nat)
    requires 1 <= k <= 4
  {
    TableFrom(m, 4, r, v, k).Some?
  }

  ghost predicate SameWalks(m: seq<nat>, m': seq<nat>, own: map<nat, Node>) {
    forall r, v: nat :: IsRoot(own, r) ==> Translate(m', r, v) == Translate(m, r, v)
  }

  /** The walks that reach level k after building the tables of levels `from` and above for `virt`. */
  ghost predicate Built(m: seq<nat>, m': seq<nat>, own: map<nat, Node>, root: nat, virt: nat, from: nat) {
    forall r, v: nat, k :: IsRoot(own, r) && 1 <= k <= 3 ==>
      (Reaches(m', r, v, k) <==>
       Reaches(m, r, v, k) || (from <= k && r == root && Prefix(v, k + 1) == Prefix(virt, k + 1)))
  }

  /** The address after allocating a table when one is missing. */
  function Bump(brk: nat, missing: bool): nat {
    if missing then AlignUp(brk) + TABLE else brk
  }

  lemma EnsureOnPath(s: Space, own: map<nat, Node>, lo: nat, root: nat, virt: nat, flags: nat, l: nat, t: nat)
    returns (own': map<nat, Node>)
    requires Forest(s.ram, own, map[], lo, s.brk) && IsRoot(own, root) && lo <= s.brk && GoodFlags(flags)
    requires 2 <= l <= 4 && TableFrom(s.ram, 4, root, virt, l) == Some(t)
    requires Ensure(s, t, Index(virt, l), flags).Fits()
    ensures var s' := Ensure(s, t, Index(virt, l), flags);
      && |s'.ram| == |s.ram| && s.brk <= s'.brk && s'.brk == Bump(s.brk, !Reaches(s.ram, root, virt, l - 1))
      && Forest(s'.ram, own', map[], lo, s'.brk)
      && TableFrom(s'.ram, 4, root, virt, l - 1) == Some(Next(s', t, Index(virt, l)))
      && SameWalks(s.ram, s'.ram, own)
      && (forall r, v: nat, k :: IsRoot(own, r) && 1 <= k <= 3 ==>
          (Reaches(s'.ram, r, v, k) <==>
           Reaches(s.ram, r, v, k) || (k == l - 1 && r == root && Prefix(v, k + 1) == Prefix(virt, k + 1))))
    ensures SameRoots(own, own')
  {
    var i := Index(virt, l);
    TableOwned(s.ram, own, lo, s.brk, 4, root, virt, l);
    var s' := Ensure(s, t, i, flags);
    own' := EnsureForest(s, own, lo, t, i, flags);
    PresentTable(s.ram, own, lo, s.brk, 4, root, virt, l - 1);
    PresentTable(s'.ram, own', lo, s'.brk, 4, root, virt, l - 1);
    EnsureTable(s, own, lo, t, i, flags, 4, root, virt, l);
    forall r, v: nat | IsRoot(own, r) ensures Translate(s'.ram, r, v) == Translate(s.ram, r, v) {
      EnsureWalk(s, own, lo, t, i, flags, 4, r, v);
    }
    forall r, v: nat, k | IsRoot(own, r) && 1 <= k <= 3
      ensures Reaches(s'.ram, r, v, k) <==>
           Reaches(s.ram, r, v, k) || (k == l - 1 && r == root && Prefix(v, k + 1) == Prefix(virt, k + 1))
    {
      EnsureTable(s, own, lo, t, i, flags, 4, r, v, k);
      if k == l - 1 {
        PrefixIndex(v, virt, l);
        if TableFrom(s.ram, 4, r, v, l) == Some(t) {
          PathUnique(s.ram, own, lo, s.brk, r, v, root, virt, l);
        }
        if r == root && Prefix(v, l) == Prefix(virt, l) {
          SamePath(s.ram, 4, r, v, virt, l);
        }
      }
    }
  }

  /** Addresses with the same prefix walk through the same tables. */
  lemma {:induction false} SamePath(m: seq<nat>, l: nat, x: nat, v: nat, u: nat, k: nat)
    requires 1 <= k <= l <= 4 && (k < 4 ==> Prefix(v, k + 1) == Prefix(u, k + 1))
    ensures TableFrom(m, l, x, v, k) == TableFrom(m, l, x, u, k)
  {
    if k < l {
      SameIndex(v, u, k + 1, l);
      var w := Load(m, x, Index(v, l));
      if Present(w) && !Large(w) {
        SamePath(m, l - 1, Frame(w), v, u, k);
      }
    }
  }

  lemma {:induction false} SameIndex(v: nat, u: nat, k: nat, l: nat)
    requires 1 <= k <= l <= 4 && Prefix(v, k) == Prefix(u, k)
    ensures Index(v, l) == Index(u, l)
    decreases l - k
  {
    PrefixIndex(v, u, k);
    if k < l {
      SameIndex(v, u, k + 1, l);
    }
  }

  /** The three tables on the way to `virt`: the forest grows, no walk changes, and the cost is what was missing. */
  lemma DescendEffect(s: Space, own: map<nat, Node>, lo: nat, root: nat, virt: nat, flags: nat)
    returns (own': map<nat, Node>)
    requires Forest(s.ram, own, map[], lo, s.brk) && IsRoot(own, root) && lo <= s.brk && GoodFlags(flags)
    requires Descend(s, root, virt, flags).0.Fits()
    ensures var (s2, pt) := Descend(s, root, virt, flags);
      && |s2.ram| == |s.ram| && s.brk <= s2.brk
      && s2.brk == Bump(Bump(Bump(s.brk, !Reaches(s.ram, root, virt, 3)), !Reaches(s.ram, root, virt, 2)),
        !Reaches(s.ram, root, virt, 1))
      && Forest(s2.ram, own', map[], lo, s2.brk)
      && TableFrom(s2.ram, 4, root, virt, 1) == Some(pt)
      && SameWalks(s.ram, s2.ram, own) && Built(s.ram, s2.ram, own, root, virt, 1)
    ensures SameRoots(own, own')
  {
    var s4 := Ensure(s, root, Index(virt, 4), flags);
    var pdpt := Next(s4, root, Index(virt, 4));
    var s3 := Ensure(s4, pdpt, Index(virt, 3), flags);
    var pd := Next(s3, pdpt, Index(virt, 3));
    EnsureBrk(s, root, Index(virt, 4), flags);
    EnsureBrk(s4, pdpt, Index(virt, 3), flags);
    EnsureBrk(s3, pd, Index(virt, 2), flags);
    var own4 := EnsureOnPath(s, own, lo, root, virt, flags, 4, root);
    var own3 := EnsureOnPath(s4, own4, lo, root, virt, flags, 3, pdpt);
    own' := EnsureOnPath(s3, own3, lo, root, virt, flags, 2, pd);
    assert Built(s.ram, s4.ram, own, root, virt, 3);
    assert Built(s.ram, s3.ram, own, root, virt, 2) by {
      BuiltStep(s.ram, s4.ram, s3.ram, own, root, virt, 2);
    }
    BuiltStep(s.ram, s3.ram, Ensure(s3, pd, Index(virt, 2), flags).ram, own, root, virt, 1);
  }

  lemma EnsureBrk(s: Space, t: nat, i: nat, flags: nat)
    ensures var s' := Ensure(s, t, i, flags); s.brk <= s'.brk && |s'.ram| == |s.ram|
  {
  }

  lemma BuiltStep(m: seq<nat>, m1: seq<nat>, m2: seq<nat>, own: map<nat, Node>, root: nat, virt: nat, k0: nat)
    requires 1 <= k0 <= 2 && IsRoot(own, root) && Built(m, m1, own, root, virt, k0 + 1)
    requires forall r, v: nat, k :: IsRoot(own, r) && 1 <= k <= 3 ==>
          (Reaches(m2, r, v, k) <==>
           Reaches(m1, r, v, k) || (k == k0 && r == root && Prefix(v, k + 1) == Prefix(virt, k + 1)))
    ensures Built(m, m2, own, root, virt, k0)
    ensures k0 == 1 || Reaches(m2, root, virt, 1) == Reaches(m, root, virt, 1)
  {
  }

  /** In directory `root` the page of `virt` now leads to leaf entry w; no other translation differs. */
  ghost predicate Updates(m: seq<nat>, m': seq<nat>, own: map<nat, Node>, root: nat, virt: nat, w: nat) {
    forall r, v: nat {:trigger Translate(m', r, v)} :: IsRoot(own, r) ==>
      Translate(m', r, v) == if r == root && SamePage(v, virt) then Leaf(w) else Translate(m, r, v)
  }

  /**
   * `mapPage` is a finite-map update: `virt` now translates to exactly `phys | flags`, and every address on another
   * page, and every address in every other directory, translates as before.
   */
  lemma MapPageEffect(s: Space, own: map<nat, Node>, lo: nat, root: nat, virt: nat, phys: nat, flags: nat)
    returns (own': map<nat, Node>)
    requires Forest(s.ram, own, map[], lo, s.brk) && IsRoot(own, root) && lo <= s.brk && GoodFlags(flags)
    requires MapPage(s, root, virt, phys, flags).Fits()
    ensures var s' := MapPage(s, root, virt, phys, flags);
      && |s'.ram| == |s.ram| && s.brk <= s'.brk
      && s'.brk == Bump(Bump(Bump(s.brk, !Reaches(s.ram, root, virt, 3)), !Reaches(s.ram, root, virt, 2)),
        !Reaches(s.ram, root, virt, 1))
      && Forest(s'.ram, own', map[], lo, s'.brk)
      && Built(s.ram, s'.ram, own, root, virt, 1)
      && Updates(s.ram, s'.ram, own, root, virt, Or(phys, flags))
    ensures SameRoots(own, own')
  {
    var (s2, pt) := Descend(s, root, virt, flags);
    own' := DescendEffect(s, own, lo, root, virt, flags);
    OrPresent(phys, flags);
    SetLeafEffect(s2.ram, own', lo, s2.brk, root, virt, pt, Or(phys, flags));
    MapPageJoin(s.ram, s2.ram, MapPage(s, root, virt, phys, flags).ram, own, own', root, virt, Or(phys, flags));
  }

  lemma MapPageJoin(m: seq<nat>, m1: seq<nat>, m2: seq<nat>, own: map<nat, Node>, own': map<nat, Node>, root: nat,
          virt: nat, w: nat)
    requires SameRoots(own, own') && SameWalks(m, m1, own) && Built(m, m1, own, root, virt, 1)
    requires Updates(m1, m2, own', root, virt, w) && SameReach(m1, m2, own')
    ensures Updates(m, m2, own, root, virt, w) && Built(m, m2, own, root, virt, 1)
  {
  }

  ghost predicate SameReach(m: seq<nat>, m': seq<nat>, own: map<nat, Node>) {
    forall r, v: nat, k :: IsRoot(own, r) && 1 <= k <= 3 ==> Reaches(m', r, v, k) == Reaches(m, r, v, k)
  }

  lemma SetLeafEffect(m: seq<nat>, own: map<nat, Node>, lo: nat, hi: nat, root: nat, virt: nat, pt: nat, w: nat)
    requires Forest(m, own, map[], lo, hi) && hi <= 8 * |m| && IsRoot(own, root) && Present(w)
    requires TableFrom(m, 4, root, virt, 1) == Some(pt)
    ensures var m' := Store(m, pt, Index(virt, 1), w);
      && Forest(m', own, map[], lo, hi) && Updates(m, m', own, root, virt, w) && SameReach(m, m', own)
  {
    assert Forest(Store(m, pt, Index(virt, 1), w), own, map[], lo, hi) by {
      TableOwned(m, own, lo, hi, 4, root, virt, 1);
      SetLeafForest(m, own, lo, hi, pt, Index(virt, 1), w);
    }
    var m' := Store(m, pt, Index(virt, 1), w);
    forall r, v: nat | IsRoot(own, r)
      ensures Translate(m', r, v) == (if r == root && SamePage(v, virt) then Leaf(w) else Translate(m, r, v))
    {
      SetLeafPage(m, own, lo, hi, root, virt, pt, w, r, v);
    }
    forall r, v: nat, k | IsRoot(own, r) && 1 <= k <= 3
      ensures Reaches(m', r, v, k) == Reaches(m, r, v, k)
    {
      SetLeafPage(m, own, lo, hi, root, virt, pt, w, r, v);
    }
  }

  lemma SetLeafPage(m: seq<nat>, own: map<nat, Node>, lo: nat, hi: nat, root: nat, virt: nat, pt: nat, w: nat,
          r: nat, v: nat)
    requires Forest(m, own, map[], lo, hi) && hi <= 8 * |m| && IsRoot(own, root) && IsRoot(own, r) && Present(w)
    requires TableFrom(m, 4, root, virt, 1) == Some(pt)
    ensures var m' := Store(m, pt, Index(virt, 1), w);
      && Translate(m', r, v) == (if r == root && SamePage(v, virt) then Leaf(w) else Translate(m, r, v))
      && forall k :: 1 <= k <= 3 ==> Reaches(m', r, v, k) == Reaches(m, r, v, k)
  {
    TableOwned(m, own, lo, hi, 4, root, virt, 1);
    SetLeafWalk(m, own, lo, hi, pt, Index(virt, 1), w, 4, r, v);
    SamePageIndex(v, virt);
    PrefixIndex(v, virt, 1);
    if TableFrom(m, 4, r, v, 1) == Some(pt) {
      PathUnique(m, own, lo, hi, r, v, root, virt, 1);
    }
    if r == root && Prefix(v, 2) == Prefix(virt, 2) {
      SamePath(m, 4, r, v, virt, 1);
    }
  }

  lemma OrPresent(a: nat, flags: nat)
    requires Present(flags)
    ensures Present(Or(a, flags))
  {
  }
}
