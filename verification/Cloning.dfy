/** `PageDirectory::clone`: a deep copy that means the same and shares no table. */
module Cloning {
  import opened Bits
  import opened PageTables
  import opened Mapping

  /** `p | MMU_RW | MMU_PRESENT` */
  function CloneEntry(p: nat): nat { Or(Or(p, RW), PRESENT) }

  lemma CloneEntryWord(p: nat)
    requires p % TABLE == 0 && p < PHYSICAL
    ensures Present(CloneEntry(p)) && !Large(CloneEntry(p)) && Frame(CloneEntry(p)) == p
  {
    OrPage(p, RW);
    assert Pow2(1) == 2;
    OrDisjoint((p + 2) / 2, PRESENT, 1);
    OrPage(p, 3);
    EntryWord(p, 3);
  }

  /** A fresh page, with entry i of dst pointing to it. */
  function Hang(s: Space, dst: nat, i: nat): (r: Space)
    ensures s.brk <= r.brk && |r.ram| == |s.ram|
  {
    Space(Store(s.ram, dst, i, CloneEntry(AlignUp(s.brk))), AlignUp(s.brk) + TABLE)
  }

  /** The inner loop, or the `memcpy` of the last level: table p becomes a copy of the level l-1 table q. */
  function CopyBelow(s: Space, l: nat, q: nat, p: nat): (r: Space)
    requires 2 <= l <= 4
    ensures s.brk <= r.brk && |r.ram| == |s.ram|
    decreases l, 0, 0
  {
    if l == 2 then Space(CopyTable(s.ram, p, q), s.brk) else CopyLevel(s, l - 1, q, p, 0)
  }

  /** One iteration of a loop of `clone`: entry i of `src` is copied into `dst`, with everything below it. */
  function CopyEntry(s: Space, l: nat, src: nat, dst: nat, i: nat): (r: Space)
    requires 2 <= l <= 4 && i < 512
    ensures s.brk <= r.brk && |r.ram| == |s.ram|
    decreases l, 513 - i, 0
  {
    var w := Load(s.ram, src, i);
    if Present(w) then CopyBelow(Hang(s, dst, i), l, Frame(w), AlignUp(s.brk))
    else Space(Store(s.ram, dst, i, 0), s.brk)
  }

  /** Iterations i to 511 of the loop of `clone` for a level-l table. */
  function CopyLevel(s: Space, l: nat, src: nat, dst: nat, i: nat): (r: Space)
    requires 2 <= l <= 4 && i <= 512
    ensures s.brk <= r.brk && |r.ram| == |s.ram|
    decreases l, 513 - i, 1
  {
    if i == 512 then s else CopyLevel(CopyEntry(s, l, src, dst, i), l, src, dst, i + 1)
  }

  function CloneRoot(s: Space): nat { AlignUp(s.brk) }

  /** The space once the copy's own page is allocated. */
  function Reserve(s: Space): Space { Space(s.ram, CloneRoot(s) + TABLE) }

  function Clone(s: Space, root: nat): Space {
    CopyLevel(Reserve(s), 4, root, CloneRoot(s), 0)
  }

  // ----- one entry ---------------------------------------------------------

  /** The copy at level l is filled up to i, and every unfinished table above it is of a higher level. */
  ghost predicate Copying(s: Space, own: map<nat, Node>, open: map<nat, nat>, lo: nat, l: nat, src: nat, dst: nat,
          i: nat) {
    && 2 <= l <= 4 && lo <= s.brk
    && Forest(s.ram, own, open, lo, s.brk)
    && src in own && Level(own[src]) == l && src !in open
    && dst in own && Level(own[dst]) == l && dst in open && open[dst] == i
    && forall t :: t in open ==> t in own && (t != dst ==> Level(own[t]) > l)
  }

  /** Only entries i and later of dst, and fresh memory, are written. */
  ghost predicate Kept(m: seq<nat>, m': seq<nat>, own: map<nat, Node>, dst: nat, i: nat, n: nat) {
    forall x, j :: x in own && 0 <= j < 512 && !(x == dst && i <= j < n) ==> Load(m', x, j) == Load(m, x, j)
  }

  ghost predicate SameBelow(m: seq<nat>, m': seq<nat>, l: nat, src: nat, dst: nat, i: nat, n: nat)
    requires 1 <= l <= 4
  {
    forall v: nat {:trigger WalkFrom(m', l, dst, v)} :: i <= Index(v, l) < n ==>
      WalkFrom(m', l, dst, v) == WalkFrom(m, l, src, v)
  }

  /** The walk from t is the same if its own entry and everything below is the same. */
  lemma WalkKept(m: seq<nat>, m': seq<nat>, own: map<nat, Node>, open: map<nat, nat>, lo: nat, hi: nat, l: nat,
          t: nat, v: nat)
    requires 2 <= l <= 4 && Forest(m, own, open, lo, hi) && t in own && Level(own[t]) == l
    requires !Unfilled(open, t, Index(v, l)) && OpenAbove(own, open, l - 1)
    requires Agree(m, m', own, l - 1) && Load(m', t, Index(v, l)) == Load(m, t, Index(v, l))
    ensures WalkFrom(m', l, t, v) == WalkFrom(m, l, t, v)
  {
    var w := Load(m, t, Index(v, l));
    if Present(w) {
      WalkAgree(m, m', own, open, lo, hi, l - 1, Frame(w), v);
    }
  }

  lemma CopyEmpty(s: Space, own: map<nat, Node>, open: map<nat, nat>, lo: nat, l: nat, src: nat, dst: nat, i: nat)
    requires Copying(s, own, open, lo, l, src, dst, i) && i < 512 && s.Fits() && !Present(Load(s.ram, src, i))
    ensures var s' := CopyEntry(s, l, src, dst, i);
      && Forest(s'.ram, own, open[dst := i + 1], lo, s'.brk)
      && Kept(s.ram, s'.ram, own, dst, i, i + 1)
      && SameBelow(s.ram, s'.ram, l, src, dst, i, i + 1)
  {
    hide Store, Load, Frame, Large;
    var m' := Store(s.ram, dst, i, 0);
    forall x, j | x in own && 0 <= j < 512
      ensures Load(m', x, j) == if x == dst && j == i then 0 else Load(s.ram, x, j)
    {
      LoadStore(s.ram, dst, i, 0, x, j);
    }
    forall x, j | x in own && 0 <= j < 512 && !(x == dst && j == i)
      ensures Unfilled(open[dst := i + 1], x, j) == Unfilled(open, x, j)
    {
    }
  }

  /** A page hung on a table above level 2 still has to be filled. */
  function Reopen(open: map<nat, nat>, l: nat, p: nat): map<nat, nat> { if l == 2 then open else open[p := 0] }

  predicate PointsTo(w: nat, p: nat) { Present(w) && !Large(w) && Frame(w) == p }

  /** Hanging the fresh page p on entry i of dst. */
  lemma HangPage(s: Space, own: map<nat, Node>, open: map<nat, nat>, lo: nat, l: nat, src: nat, dst: nat, i: nat)
    returns (own1: map<nat, Node>)
    requires Copying(s, own, open, lo, l, src, dst, i) && i < 512 && AlignUp(s.brk) + TABLE <= 8 * |s.ram| &&
      AlignUp(s.brk) + TABLE <= PHYSICAL
    ensures var p := AlignUp(s.brk);
      && p !in own && own1 == own[p := Child(l - 1, dst, i)]
      && Forest(Hang(s, dst, i).ram, own1, Reopen(open[dst := i + 1], l, p), lo, Hang(s, dst, i).brk)
      && Kept(s.ram, Hang(s, dst, i).ram, own, dst, i, i + 1)
      && PointsTo(Load(Hang(s, dst, i).ram, dst, i), p)
  {
    hide Forest, Load, Store, Large, Frame;
    var p := AlignUp(s.brk);
    CloneEntryWord(p);
    var m1 := Store(s.ram, dst, i, CloneEntry(p));
    forall x, j | x in own && 0 <= j < 512
      ensures Load(m1, x, j) == if x == dst && j == i then CloneEntry(p) else Load(s.ram, x, j)
    {
      TableInside(s.ram, own, open, lo, s.brk, x);
      TableInside(s.ram, own, open, lo, s.brk, dst);
      LoadStore(s.ram, dst, i, CloneEntry(p), x, j);
    }
    FreshTable(s.ram, own, open, lo, s.brk, p);
    var open2 := open[dst := i + 1];
    var open1 := Reopen(open2, l, p);
    assert p !in own && open1 - {p} == open2;
    own1 := AddChild(s.ram, m1, own, open, open1, lo, s.brk, p + TABLE, dst, i, p);
  }

  /** Table p has become a copy of table q: the forest is whole again below p and p walks like q. */
  ghost predicate Copied(s1: Space, own1: map<nat, Node>, s2: Space, own2: map<nat, Node>, open: map<nat, nat>,
          lo: nat, k: nat, q: nat, p: nat)
    requires 1 <= k <= 3
  {
    && Forest(s2.ram, own2, open, lo, s2.brk) && Extends(own1, own2) && SameRoots(own1, own2)
    && Kept(s1.ram, s2.ram, own1, p, 0, 512)
    && forall v: nat {:trigger WalkFrom(s2.ram, k, p, v)} :: WalkFrom(s2.ram, k, p, v) == WalkFrom(s1.ram, k, q, v)
  }

  lemma CopyLeafTable(s1: Space, own1: map<nat, Node>, open: map<nat, nat>, lo: nat, q: nat, p: nat)
    requires Forest(s1.ram, own1, open, lo, s1.brk) && s1.Fits()
    requires p in own1 && Level(own1[p]) == 1 && q in own1
    ensures Copied(s1, own1, Space(CopyTable(s1.ram, p, q), s1.brk), own1, open, lo, 1, q, p)
  {
    var m2 := CopyTable(s1.ram, p, q);
    forall x, j | x in own1 && 0 <= j < 512
      ensures Load(m2, x, j) == Load(s1.ram, if x == p then q else x, j)
    {
      LoadCopy(s1.ram, p, q, x, j);
    }
  }

  /** After hanging p on entry i of dst and copying q into p, entry i of dst walks like entry i of src. */
  lemma EntryWalk(s: Space, own: map<nat, Node>, open: map<nat, nat>, lo: nat, l: nat, src: nat, dst: nat, i: nat,
                  s1: Space, own1: map<nat, Node>, s2: Space, own2: map<nat, Node>, p: nat, v: nat)
    requires Copying(s, own, open, lo, l, src, dst, i) && i < 512 && Present(Load(s.ram, src, i))
    requires p !in own && own1 == own[p := Child(l - 1, dst, i)] && Kept(s.ram, s1.ram, own, dst, i, i + 1)
    requires PointsTo(Load(s1.ram, dst, i), p)
    requires Copied(s1, own1, s2, own2, open[dst := i + 1], lo, l - 1, Frame(Load(s.ram, src, i)), p)
    requires Index(v, l) == i
    ensures WalkFrom(s2.ram, l, dst, v) == WalkFrom(s.ram, l, src, v)
  {
    var q := Frame(Load(s.ram, src, i));
    assert Load(s2.ram, dst, i) == Load(s1.ram, dst, i);
    WalkAgree(s.ram, s1.ram, own, open, lo, s.brk, l - 1, q, v);
    assert WalkFrom(s2.ram, l - 1, p, v) == WalkFrom(s1.ram, l - 1, q, v);
  }

  lemma OwnJoin(own: map<nat, Node>, own1: map<nat, Node>, own2: map<nat, Node>, p: nat, n: Node)
    requires p !in own && own1 == own[p := n] && n.Child? && Extends(own1, own2) && SameRoots(own1, own2)
    ensures Extends(own, own2) && SameRoots(own, own2)
  {
  }

  lemma KeptJoin(m: seq<nat>, m1: seq<nat>, m2: seq<nat>, own: map<nat, Node>, own1: map<nat, Node>, dst: nat,
          i: nat, p: nat, n: Node)
    requires p !in own && own1 == own[p := n] && Kept(m, m1, own, dst, i, i + 1) && Kept(m1, m2, own1, p, 0, 512)
    ensures Kept(m, m2, own, dst, i, i + 1)
  {
  }

  lemma EntryJoin(s: Space, own: map<nat, Node>, open: map<nat, nat>, lo: nat, l: nat, src: nat, dst: nat, i: nat,
                  s1: Space, own1: map<nat, Node>, s2: Space, own2: map<nat, Node>, p: nat)
    requires Copying(s, own, open, lo, l, src, dst, i) && i < 512 && Present(Load(s.ram, src, i))
    requires p !in own && own1 == own[p := Child(l - 1, dst, i)] && Kept(s.ram, s1.ram, own, dst, i, i + 1)
    requires PointsTo(Load(s1.ram, dst, i), p)
    requires Copied(s1, own1, s2, own2, open[dst := i + 1], lo, l - 1, Frame(Load(s.ram, src, i)), p)
    ensures SameBelow(s.ram, s2.ram, l, src, dst, i, i + 1)
  {
    forall v: nat | Index(v, l) == i ensures WalkFrom(s2.ram, l, dst, v) == WalkFrom(s.ram, l, src, v) {
      EntryWalk(s, own, open, lo, l, src, dst, i, s1, own1, s2, own2, p, v);
    }
  }

  /** The inner loop, or the `memcpy` of the last level, makes the fresh table p a copy of q. */
  lemma CopyChild(s1: Space, own1: map<nat, Node>, open: map<nat, nat>, lo: nat, l: nat, q: nat, p: nat)
    returns (own2: map<nat, Node>)
    requires 2 <= l <= 4 && lo <= s1.brk && p in own1 && q in own1 && p !in open && p != q
    requires Level(own1[p]) == l - 1 && Level(own1[q]) == l - 1
    requires forall t :: t in open ==> t in own1 && Level(own1[t]) >= l
    requires Forest(s1.ram, own1, Reopen(open, l, p), lo, s1.brk) && CopyBelow(s1, l, q, p).Fits()
    ensures Copied(s1, own1, CopyBelow(s1, l, q, p), own2, open, lo, l - 1, q, p)
    decreases l, 0, 0
  {
    if l == 2 {
      CopyLeafTable(s1, own1, open, lo, q, p);
      own2 := own1;
    } else {
      own2 := CopyInner(s1, own1, open, lo, l - 1, q, p);
    }
  }

  lemma CopyInner(s1: Space, own1: map<nat, Node>, open: map<nat, nat>, lo: nat, k: nat, q: nat, p: nat)
    returns (own2: map<nat, Node>)
    requires 2 <= k <= 3 && p !in open && CopyLevel(s1, k, q, p, 0).Fits()
    requires Copying(s1, own1, open[p := 0], lo, k, q, p, 0)
    ensures Copied(s1, own1, CopyLevel(s1, k, q, p, 0), own2, open, lo, k, q, p)
    decreases k, 514, 0
  {
    hide Copying, Kept, SameBelow, Forest, CopyLevel, Extends, SameRoots;
    own2 := CopyLevelEffect(s1, own1, open[p := 0], lo, k, q, p, 0);
    assert open[p := 0] - {p} == open;
    WalksAll(s1.ram, CopyLevel(s1, k, q, p, 0).ram, k, q, p);
  }

  lemma WalksAll(m: seq<nat>, m': seq<nat>, k: nat, q: nat, p: nat)
    requires 1 <= k <= 4 && SameBelow(m, m', k, q, p, 0, 512)
    ensures forall v: nat {:trigger WalkFrom(m', k, p, v)} :: WalkFrom(m', k, p, v) == WalkFrom(m, k, q, v)
  {
  }

  /** One iteration: entry i of dst becomes a copy of entry i of src, and nothing else that existed changes. */
  lemma CopyEntryEffect(s: Space, own: map<nat, Node>, open: map<nat, nat>, lo: nat, l: nat, src: nat, dst: nat, i: nat)
    returns (own2: map<nat, Node>)
    requires Copying(s, own, open, lo, l, src, dst, i) && i < 512 && CopyEntry(s, l, src, dst, i).Fits()
    ensures var s2 := CopyEntry(s, l, src, dst, i);
      && Forest(s2.ram, own2, open[dst := i + 1], lo, s2.brk) && Extends(own, own2) && SameRoots(own, own2)
      && Kept(s.ram, s2.ram, own, dst, i, i + 1)
      && SameBelow(s.ram, s2.ram, l, src, dst, i, i + 1)
    decreases l, 513 - i, 0
  {
    if Present(Load(s.ram, src, i)) {
      own2 := CopyPresent(s, own, open, lo, l, src, dst, i);
    } else {
      CopyEmpty(s, own, open, lo, l, src, dst, i);
      own2 := own;
    }
  }

  lemma CopyPresent(s: Space, own: map<nat, Node>, open: map<nat, nat>, lo: nat, l: nat, src: nat, dst: nat, i: nat)
    returns (own2: map<nat, Node>)
    requires Copying(s, own, open, lo, l, src, dst, i) && i < 512 && CopyEntry(s, l, src, dst, i).Fits()
    requires Present(Load(s.ram, src, i))
    ensures var s2 := CopyEntry(s, l, src, dst, i);
      && Forest(s2.ram, own2, open[dst := i + 1], lo, s2.brk) && Extends(own, own2) && SameRoots(own, own2)
      && Kept(s.ram, s2.ram, own, dst, i, i + 1)
      && SameBelow(s.ram, s2.ram, l, src, dst, i, i + 1)
    decreases l, 512 - i, 1
  {
    var p, q, s1 := AlignUp(s.brk), Frame(Load(s.ram, src, i)), Hang(s, dst, i);
    var own1 := HangPage(s, own, open, lo, l, src, dst, i);
    var s2 := CopyBelow(s1, l, q, p);
    own2 := CopyChild(s1, own1, open[dst := i + 1], lo, l, q, p);
    OwnJoin(own, own1, own2, p, Child(l - 1, dst, i));
    KeptJoin(s.ram, s1.ram, s2.ram, own, own1, dst, i, p, Child(l - 1, dst, i));
    EntryJoin(s, own, open, lo, l, src, dst, i, s1, own1, s2, own2, p);
  }

  /** Finishing the loop: dst walks like src for every address whose entry was still to be copied. */
  lemma CopyLevelEffect(s: Space, own: map<nat, Node>, open: map<nat, nat>, lo: nat, l: nat, src: nat, dst: nat, i: nat)
    returns (own': map<nat, Node>)
    requires Copying(s, own, open, lo, l, src, dst, i) && i <= 512 && CopyLevel(s, l, src, dst, i).Fits()
    ensures var s' := CopyLevel(s, l, src, dst, i);
      && Forest(s'.ram, own', open - {dst}, lo, s'.brk) && Extends(own, own') && SameRoots(own, own')
      && Kept(s.ram, s'.ram, own, dst, i, 512)
      && SameBelow(s.ram, s'.ram, l, src, dst, i, 512)
    decreases l, 513 - i, 1
  {
    if i == 512 {
      own' := own;
      assert forall x, j :: x in own && 0 <= j < 512 ==> Unfilled(open - {dst}, x, j) == Unfilled(open, x, j);
    } else {
      var s2 := CopyEntry(s, l, src, dst, i);
      var s' := CopyLevel(s2, l, src, dst, i + 1);
      var open2 := open[dst := i + 1];
      var own2 := CopyEntryEffect(s, own, open, lo, l, src, dst, i);
      own' := CopyLevelEffect(s2, own2, open2, lo, l, src, dst, i + 1);
      assert open2 - {dst} == open - {dst};
      KeptNext(s.ram, s2.ram, s'.ram, own, own2, dst, i);
      EntriesJoin(s, own, open, lo, l, src, dst, i, s2, own2, s'.ram);
    }
  }

  lemma KeptNext(m: seq<nat>, m2: seq<nat>, m': seq<nat>, own: map<nat, Node>, own2: map<nat, Node>, dst: nat, i: nat)
    requires i < 512 && Kept(m, m2, own, dst, i, i + 1) && Kept(m2, m', own2, dst, i + 1, 512) && Extends(own, own2)
    ensures Kept(m, m', own, dst, i, 512)
  {
  }

  /** Entry i walks as it did when it was copied, and the later ones as src walked before. */
  lemma EntriesJoin(s: Space, own: map<nat, Node>, open: map<nat, nat>, lo: nat, l: nat, src: nat, dst: nat, i: nat,
                    s2: Space, own2: map<nat, Node>, m': seq<nat>)
    requires Copying(s, own, open, lo, l, src, dst, i) && i < 512
    requires Copying(s2, own2, open[dst := i + 1], lo, l, src, dst, i + 1)
    requires Kept(s.ram, s2.ram, own, dst, i, i + 1) && Kept(s2.ram, m', own2, dst, i + 1, 512)
    requires SameBelow(s.ram, s2.ram, l, src, dst, i, i + 1) && SameBelow(s2.ram, m', l, src, dst, i + 1, 512)
    ensures SameBelow(s.ram, m', l, src, dst, i, 512)
  {
    forall v: nat | i <= Index(v, l) ensures WalkFrom(m', l, dst, v) == WalkFrom(s.ram, l, src, v) {
      if Index(v, l) == i {
        WalkKept(s2.ram, m', own2, open[dst := i + 1], lo, s2.brk, l, dst, v);
      } else {
        WalkKept(s.ram, s2.ram, own, open, lo, s.brk, l, src, v);
      }
    }
  }

  // ----- the whole directory -----------------------------------------------

  lemma AddRoot(m: seq<nat>, own: map<nat, Node>, lo: nat, hi: nat, p: nat)
    requires Forest(m, own, map[], lo, hi) && lo <= p && hi <= p && p % TABLE == 0
    ensures p !in own && Forest(m, own[p := Root], map[p := 0], lo, p + TABLE)
  {
    var own', open := own[p := Root], map[p := 0];
    assert p !in own;
    assert forall x, j :: x in own && 0 <= j < 512 ==> !Unfilled(open, x, j);
    assert forall j :: 0 <= j < 512 ==> Unfilled(open, p, j);
    assert UpLinks(m, own', open) by {
      forall c | c in own' && own'[c].Child?
        ensures var Child(l, t, i) := own'[c];
          && t in own' && Level(own'[t]) == l + 1 && i < 512 && !Unfilled(open, t, i)
          && Present(Load(m, t, i)) && Frame(Load(m, t, i)) == c
      {
        assert own[c] == own'[c];
      }
    }
  }

  /** The directories of own' are those of own and p. */
  ghost predicate OneMoreRoot(own: map<nat, Node>, own': map<nat, Node>, p: nat) {
    forall x :: IsRoot(own', x) <==> IsRoot(own, x) || x == p
  }

  /**
   * `clone` returns a fresh directory under which every address resolves as in the source; no existing directory's
   * translation changes, and the ownership forest covers both, so no table is shared.
   */
  lemma CloneEffect(s: Space, own: map<nat, Node>, lo: nat, root: nat) returns (own': map<nat, Node>)
    requires Forest(s.ram, own, map[], lo, s.brk) && IsRoot(own, root) && lo <= s.brk && Clone(s, root).Fits()
    ensures var s', p := Clone(s, root), CloneRoot(s);
      && p !in own && Forest(s'.ram, own', map[], lo, s'.brk)
      && (forall v: nat :: Translate(s'.ram, p, v) == Translate(s.ram, root, v))
      && SameWalks(s.ram, s'.ram, own)
    ensures OneMoreRoot(own, own', CloneRoot(s)) && Extends(own, own')
  {
    hide Forest, Kept, SameBelow, CopyLevel;
    own' := CloneForest(s, own, lo, root);
    CloneWalks(s, own, lo, root, Clone(s, root).ram, 4);
  }

  lemma CloneForest(s: Space, own: map<nat, Node>, lo: nat, root: nat) returns (own': map<nat, Node>)
    requires Forest(s.ram, own, map[], lo, s.brk) && IsRoot(own, root) && lo <= s.brk && Clone(s, root).Fits()
    ensures var s', p := Clone(s, root), CloneRoot(s);
      && p !in own && Forest(s'.ram, own', map[], lo, s'.brk)
      && Extends(own[p := Root], own') && SameRoots(own[p := Root], own')
      && Kept(s.ram, s'.ram, own, p, 0, 512)
      && SameBelow(s.ram, s'.ram, 4, root, p, 0, 512)
  {
    var p := CloneRoot(s);
    StartCopy(s, own, lo, root);
    own' := CopyAll(Reserve(s), own[p := Root], lo, 4, root, p);
  }

  lemma StartCopy(s: Space, own: map<nat, Node>, lo: nat, root: nat)
    requires Forest(s.ram, own, map[], lo, s.brk) && IsRoot(own, root) && lo <= s.brk
    ensures CloneRoot(s) !in own
    ensures Copying(Reserve(s), own[CloneRoot(s) := Root], map[CloneRoot(s) := 0], lo, 4, root, CloneRoot(s), 0)
  {
    AddRoot(s.ram, own, lo, s.brk, CloneRoot(s));
  }

  /** The outermost loop, started on a directory of which nothing is filled in yet. */
  lemma CopyAll(s: Space, own: map<nat, Node>, lo: nat, l: nat, src: nat, dst: nat) returns (own': map<nat, Node>)
    requires Copying(s, own, map[dst := 0], lo, l, src, dst, 0) && CopyLevel(s, l, src, dst, 0).Fits()
    ensures var s' := CopyLevel(s, l, src, dst, 0);
      && Forest(s'.ram, own', map[], lo, s'.brk) && Extends(own, own') && SameRoots(own, own')
      && Kept(s.ram, s'.ram, own, dst, 0, 512)
      && SameBelow(s.ram, s'.ram, l, src, dst, 0, 512)
  {
    hide Copying, Forest, Kept, SameBelow, CopyLevel;
    own' := CopyLevelEffect(s, own, map[dst := 0], lo, l, src, dst, 0);
    assert map[dst := 0] - {dst} == map[];
  }

  lemma CloneWalks(s: Space, own: map<nat, Node>, lo: nat, root: nat, m': seq<nat>, l: nat)
    requires Forest(s.ram, own, map[], lo, s.brk) && IsRoot(own, root) && l == 4
    requires CloneRoot(s) !in own && Kept(s.ram, m', own, CloneRoot(s), 0, 512) &&
      SameBelow(s.ram, m', l, root, CloneRoot(s), 0, 512)
    ensures forall v: nat :: WalkFrom(m', l, CloneRoot(s), v) == WalkFrom(s.ram, l, root, v)
    ensures SameWalks(s.ram, m', own)
  {
    forall r, v: nat | IsRoot(own, r) ensures Translate(m', r, v) == Translate(s.ram, r, v) {
      WalkAgree(s.ram, m', own, map[], lo, s.brk, l, r, v);
    }
  }
}
