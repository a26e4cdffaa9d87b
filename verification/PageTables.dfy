/** Four-level page tables kept as raw words in flat memory, over a bump allocator. */
module PageTables {
  import opened Arith
  import opened Bits
  import opened Readings

  const TABLE: nat := 0x1000
  const PRESENT: nat := 1
  const RW: nat := 2
  /** Physical addresses that fit in the address field of an entry. */
  const PHYSICAL: nat := 0x10_0000_0000_0000

  /** RAM as words and the next address the bump allocator gives out. */
  datatype Space = Space(ram: seq<nat>, brk: nat) {
    /** Everything allocated so far is inside RAM and addressable by an entry. */
    predicate Fits() {
      brk <= 8 * |ram| && brk <= PHYSICAL
    }
  }

  // ----- words in memory ---------------------------------------------------

  function Load(m: seq<nat>, t: nat, i: nat): nat {
    if t / 8 + i < |m| then m[t / 8 + i] else 0
  }

  function Store(m: seq<nat>, t: nat, i: nat, w: nat): (r: seq<nat>)
    ensures |r| == |m|
  {
    if t / 8 + i < |m| then m[t / 8 + i := w] else m
  }

  function ZeroTable(m: seq<nat>, t: nat): (r: seq<nat>)
    ensures |r| == |m|
  {
    seq<nat>(|m|, (k: nat) requires k < |m| => if t / 8 <= k < t / 8 + 512 then 0 else m[k])
  }

  function CopiedWord(m: seq<nat>, dst: nat, src: nat, k: nat): nat
    requires k < |m|
  {
    if dst / 8 <= k < dst / 8 + 512 then Load(m, src, k - dst / 8) else m[k]
  }

  function CopyTable(m: seq<nat>, dst: nat, src: nat): (r: seq<nat>)
    ensures |r| == |m|
  {
    seq<nat>(|m|, (k: nat) requires k < |m| => CopiedWord(m, dst, src, k))
  }

  predicate Present(w: nat) { w % 2 == 1 }

  predicate Large(w: nat) { w / 0x80 % 2 == 1 }

  /** `w & MMU_ADDR`: bits 12 to 51. */
  function Frame(w: nat): nat { w / 0x1000 % 0x100_0000_0000 * 0x1000 }

  predicate GoodFlags(flags: nat) {
    flags < 0x1000 && Present(flags) && !Large(flags)
  }

  lemma EntryWord(p: nat, flags: nat)
    requires p % TABLE == 0 && p < PHYSICAL && GoodFlags(flags)
    ensures Present(Or(p, flags)) && !Large(Or(p, flags)) && Frame(Or(p, flags)) == p
  {
    hide Or;
    OrPage(p, flags);
    FlagBits(p / 0x1000, flags);
    FrameBits(p / 0x1000, flags);
  }

  lemma FlagBits(n: nat, flags: nat)
    ensures Present(n * 0x1000 + flags) == Present(flags) && Large(n * 0x1000 + flags) == Large(flags)
  {
    DivAdd(n * 0x800, 2, flags);
    DivAdd(n * 0x20, 0x80, flags);
    DivAdd(n * 0x10, 2, flags / 0x80);
  }

  lemma FrameBits(n: nat, flags: nat)
    requires n < 0x100_0000_0000 && flags < 0x1000
    ensures Frame(n * 0x1000 + flags) == n * 0x1000
  {
    DivAdd(n, 0x1000, flags);
  }

  // ----- the hardware walk -------------------------------------------------

  /** Bytes that one entry of a level-l table covers. */
  function Span(l: nat): (r: nat)
    ensures r > 0
  {
    if l <= 1 then 0x1000 else if l == 2 then 0x20_0000 else if l == 3 then 0x4000_0000 else 0x80_0000_0000
  }

  function Index(v: nat, l: nat): (r: nat)
    ensures r < 512
  {
    v / Span(l) % 512
  }

  datatype Walk = Fault | LargePage(level: nat, entry: nat) | Leaf(entry: nat)

  function WalkFrom(m: seq<nat>, l: nat, t: nat, v: nat): Walk
    requires 1 <= l <= 4
  {
    var w := Load(m, t, Index(v, l));
    if !Present(w) then Fault
    else if l == 1 then Leaf(w)
    else if Large(w) then LargePage(l, w)
    else WalkFrom(m, l - 1, Frame(w), v)
  }

  function Translate(m: seq<nat>, root: nat, v: nat): Walk {
    WalkFrom(m, 4, root, v)
  }

  /** The level-k table that the walk of v from the level-l table t passes through. */
  function TableFrom(m: seq<nat>, l: nat, t: nat, v: nat, k: nat): Option<nat>
    requires 1 <= k <= l <= 4
  {
    var w := Load(m, t, Index(v, l));
    if l == k then Some(t)
    else if !Present(w) || Large(w) then None
    else TableFrom(m, l - 1, Frame(w), v, k)
  }

  predicate SamePage(v: nat, u: nat) {
    v / 0x1000 % 0x10_0000_0000 == u / 0x1000 % 0x10_0000_0000
  }

  /** The part of an address above a level-l entry, within the 48 translated bits. */
  function Prefix(v: nat, l: nat): nat {
    v % 0x1_0000_0000_0000 / Span(l)
  }

  lemma PrefixStep(v: nat, l: nat)
    requires 1 <= l <= 4
    ensures Index(v, l) == Prefix(v, l) % 512
    ensures if l < 4 then Prefix(v, l + 1) == Prefix(v, l) / 512 else Prefix(v, l) < 512
  {
    match l {
      case 1 => IndexSpan(v, 0x800_0000, 0x1000);
      case 2 => IndexSpan(v, 0x4_0000, 0x20_0000);
      case 3 => IndexSpan(v, 0x200, 0x4000_0000);
      case 4 => IndexSpan(v, 1, 0x80_0000_0000);
    }
  }

  lemma IndexSpan(v: nat, u: nat, span: nat)
    requires span > 0 && u * 512 * span == 0x1_0000_0000_0000
    ensures var p := v % 0x1_0000_0000_0000;
      && v / span % 512 == p / span % 512 && p / span / 512 == p / (span * 512) && (u == 1 ==> p / span < 512)
  {
    var q, p := v / 0x1_0000_0000_0000, v % 0x1_0000_0000_0000;
    assert v == q * u * 512 * span + p by { assert q * (u * 512 * span) == q * u * 512 * span; }
    DivAdd(q * u * 512, span, p);
    DivAdd(q * u, 512, p / span);
    DivDiv(p, span, 512);
    if u == 1 { assert p / span / 512 == 0; }
  }

  lemma PrefixIndex(v: nat, u: nat, l: nat)
    requires 1 <= l <= 4
    ensures Prefix(v, l) == Prefix(u, l) <==>
            Index(v, l) == Index(u, l) && (l < 4 ==> Prefix(v, l + 1) == Prefix(u, l + 1))
  {
    PrefixStep(v, l);
    PrefixStep(u, l);
  }

  lemma PageNumber(v: nat)
    ensures v / 0x1000 % 0x10_0000_0000 == Prefix(v, 1)
  {
    var q, p := v / 0x1_0000_0000_0000, v % 0x1_0000_0000_0000;
    DivAdd(q * 0x10_0000_0000, 0x1000, p);
    DivAdd(q, 0x10_0000_0000, p / 0x1000);
  }

  lemma SamePageIndex(v: nat, u: nat)
    ensures SamePage(v, u) <==> Prefix(v, 1) == Prefix(u, 1)
  {
    PageNumber(v);
    PageNumber(u);
  }

  // ----- the ownership forest ----------------------------------------------

  /** What a table is: a directory, or the table that one entry of one parent points to. */
  datatype Node = Root | Child(level: nat, parent: nat, index: nat)

  function Level(n: Node): nat { if n.Root? then 4 else n.level }

  /** Entry i of table t is not filled in yet (only during a clone). */
  predicate Unfilled(open: map<nat, nat>, t: nat, i: nat) { t in open && open[t] <= i }

  ghost predicate Placed(own: map<nat, Node>, lo: nat, hi: nat) {
    forall t | t in own :: t % TABLE == 0 && lo <= t && t + TABLE <= hi && 1 <= Level(own[t]) <= 4
  }

  ghost predicate DownLinks(m: seq<nat>, own: map<nat, Node>, open: map<nat, nat>) {
    forall t, i :: t in own && Level(own[t]) > 1 && 0 <= i < 512 && !Unfilled(open, t, i) && Present(Load(m, t, i)) ==>
      && !Large(Load(m, t, i))
      && Frame(Load(m, t, i)) in own
      && own[Frame(Load(m, t, i))] == Child(Level(own[t]) - 1, t, i)
  }

  ghost predicate UpLinks(m: seq<nat>, own: map<nat, Node>, open: map<nat, nat>) {
    forall c :: c in own && own[c].Child? ==>
      var Child(l, t, i) := own[c];
      && t in own && Level(own[t]) == l + 1 && i < 512 && !Unfilled(open, t, i)
      && Present(Load(m, t, i)) && Frame(Load(m, t, i)) == c
  }

  /** Every present entry above level 1 points to its own table, and every table is pointed to by its entry. */
  ghost predicate Forest(m: seq<nat>, own: map<nat, Node>, open: map<nat, nat>, lo: nat, hi: nat) {
    Placed(own, lo, hi) && DownLinks(m, own, open) && UpLinks(m, own, open)
  }

  ghost predicate IsRoot(own: map<nat, Node>, t: nat) { t in own && own[t] == Root }

  /** The tables of level at most l read the same in m and m'. */
  ghost predicate Agree(m: seq<nat>, m': seq<nat>, own: map<nat, Node>, l: nat) {
    forall t, i :: t in own && Level(own[t]) <= l && 0 <= i < 512 ==> Load(m', t, i) == Load(m, t, i)
  }

  ghost predicate OpenAbove(own: map<nat, Node>, open: map<nat, nat>, l: nat) {
    forall t :: t in open && t in own ==> Level(own[t]) > l
  }

  lemma LoadStore(m: seq<nat>, t: nat, i: nat, w: nat, t': nat, i': nat)
    requires t % TABLE == 0 && t' % TABLE == 0 && i < 512 && i' < 512 && t + TABLE <= 8 * |m|
    ensures Load(Store(m, t, i, w), t', i') == if t == t' && i == i' then w else Load(m, t', i')
  {
    var a, b := t / 0x1000, t' / 0x1000;
    assert t / 8 == 512 * a && t' / 8 == 512 * b;
    assert 512 * a + i == 512 * b + i' ==> a == b;
  }

  /** Two tables are the same or do not overlap. */
  lemma TablesApart(t: nat, t': nat)
    requires t % TABLE == 0 && t' % TABLE == 0
    ensures t == t' || t / 8 + 512 <= t' / 8 || t' / 8 + 512 <= t / 8
  {
    var a, b := t / 0x1000, t' / 0x1000;
    assert t / 8 == 512 * a && t' / 8 == 512 * b;
  }

  lemma LoadZero(m: seq<nat>, t: nat, t': nat, i': nat)
    requires t % TABLE == 0 && t' % TABLE == 0 && i' < 512
    ensures Load(ZeroTable(m, t), t', i') == if t == t' then 0 else Load(m, t', i')
  {
    var a, b := t / 0x1000, t' / 0x1000;
    assert t / 8 == 512 * a && t' / 8 == 512 * b;
    assert t / 8 <= t' / 8 + i' < t / 8 + 512 <==> a == b;
  }

  lemma LoadCopy(m: seq<nat>, dst: nat, src: nat, t': nat, i': nat)
    requires dst % TABLE == 0 && t' % TABLE == 0 && i' < 512 && dst + TABLE <= 8 * |m|
    ensures Load(CopyTable(m, dst, src), t', i') == Load(m, if t' == dst then src else t', i')
  {
    var a, b := dst / 0x1000, t' / 0x1000;
    assert dst / 8 == 512 * a && t' / 8 == 512 * b;
    assert dst / 8 <= t' / 8 + i' < dst / 8 + 512 ==> a == b;
  }

  /** A walk depends only on the tables below where it starts. */
  lemma {:induction false} WalkAgree(m: seq<nat>, m': seq<nat>, own: map<nat, Node>, open: map<nat, nat>, lo: nat,
          hi: nat, l: nat, t: nat, v: nat)
    requires 1 <= l <= 4 && Forest(m, own, open, lo, hi) && t in own && Level(own[t]) == l
    requires Agree(m, m', own, l) && OpenAbove(own, open, l)
    ensures WalkFrom(m', l, t, v) == WalkFrom(m, l, t, v)
  {
    var w := Load(m, t, Index(v, l));
    assert Load(m', t, Index(v, l)) == w;
    if l > 1 && Present(w) {
      WalkAgree(m, m', own, open, lo, hi, l - 1, Frame(w), v);
    }
  }

  /** A walk stays in the forest: the table it passes through at level k is a level-k table. */
  lemma {:induction false} TableOwned(m: seq<nat>, own: map<nat, Node>, lo: nat, hi: nat, l: nat, t: nat, v: nat,
          k: nat)
    requires 1 <= k <= l <= 4 && Forest(m, own, map[], lo, hi) && t in own && Level(own[t]) == l
    ensures var r := TableFrom(m, l, t, v, k); r.Some? ==> r.value in own && Level(own[r.value]) == k
    ensures var r := TableFrom(m, l, t, v, k); r.Some? && k < l ==>
      own[r.value].Child? && TableFrom(m, l, t, v, k + 1) == Some(own[r.value].parent) &&
        own[r.value].index == Index(v, k + 1)
  {
    var w := Load(m, t, Index(v, l));
    if l > k && Present(w) {
      TableOwned(m, own, lo, hi, l - 1, Frame(w), v, k);
    }
  }

  /** Two walks meet in a table only if they start at the same directory and agree on every index so far. */
  lemma {:induction false} PathUnique(m: seq<nat>, own: map<nat, Node>, lo: nat, hi: nat, r: nat, v: nat, q: nat,
          u: nat, k: nat)
    requires Forest(m, own, map[], lo, hi) && IsRoot(own, r) && IsRoot(own, q) && 1 <= k <= 4
    requires TableFrom(m, 4, r, v, k).Some? && TableFrom(m, 4, r, v, k) == TableFrom(m, 4, q, u, k)
    ensures r == q && (k < 4 ==> Prefix(v, k + 1) == Prefix(u, k + 1))
    decreases 4 - k
  {
    if k < 4 {
      TableOwned(m, own, lo, hi, 4, r, v, k);
      TableOwned(m, own, lo, hi, 4, q, u, k);
      PathUnique(m, own, lo, hi, r, v, q, u, k + 1);
      PrefixIndex(v, u, k + 1);
    }
  }

  lemma TableInside(m: seq<nat>, own: map<nat, Node>, open: map<nat, nat>, lo: nat, hi: nat, t: nat)
    requires Forest(m, own, open, lo, hi) && t in own
    ensures t % TABLE == 0 && lo <= t && t + TABLE <= hi
  {
  }

  /** A present entry above the last level leads to a table of the next one. */
  lemma EntryTable(m: seq<nat>, own: map<nat, Node>, open: map<nat, nat>, lo: nat, hi: nat, t: nat, i: nat)
    requires Forest(m, own, open, lo, hi) && t in own && t !in open && Level(own[t]) > 1 && i < 512
    requires Present(Load(m, t, i))
    ensures var w := Load(m, t, i);
      !Large(w) && Frame(w) in own && Level(own[Frame(w)]) == Level(own[t]) - 1
  {
  }

  /** Hanging a new table p, empty or still unfilled, on a vacant entry keeps the forest. */
  lemma AddChild(m: seq<nat>, m': seq<nat>, own: map<nat, Node>, open: map<nat, nat>, open': map<nat, nat>,
                 lo: nat, hi: nat, hi': nat, t: nat, i: nat, p: nat)
    returns (own': map<nat, Node>)
    requires Forest(m, own, open, lo, hi) && t in own && Level(own[t]) > 1 && i < 512
    requires lo <= p && hi <= p && p % TABLE == 0 && p + TABLE <= hi'
    requires if Unfilled(open, t, i) then open[t] == i && open' - {p} == open[t := i + 1]
      else !Present(Load(m, t, i)) && open' - {p} == open
    requires p !in open' ==> Level(own[t]) == 2 || forall j :: 0 <= j < 512 ==> !Present(Load(m', p, j))
    requires p in open' ==> open'[p] == 0
    requires forall x, j :: x in own && 0 <= j < 512 && !(x == t && j == i) ==> Load(m', x, j) == Load(m, x, j)
    requires Present(Load(m', t, i)) && !Large(Load(m', t, i)) && Frame(Load(m', t, i)) == p
    ensures own' == own[p := Child(Level(own[t]) - 1, t, i)] && p !in own
    ensures Forest(m', own', open', lo, hi')
  {
    own' := own[p := Child(Level(own[t]) - 1, t, i)];
    FreshTable(m, own, open, lo, hi, p);
    hide Load, Present, Large, Frame, Unfilled, Forest;
    forall x, j | x in own ensures Unfilled(open', x, j) == (Unfilled(open, x, j) && !(x == t && j == i)) {
      OpenNext(open, open', t, i, p, x, j);
    }
    assert Hung(m, m', own, open, open', t, i, p);
    AddDown(m, m', own, open, open', lo, hi, t, i, p);
    AddUp(m, m', own, open, open', lo, hi, t, i, p);
    AddForest(m, m', own, open, open', lo, hi, hi', Child(Level(own[t]) - 1, t, i), p);
  }

  lemma AddForest(m: seq<nat>, m': seq<nat>, own: map<nat, Node>, open: map<nat, nat>, open': map<nat, nat>, lo: nat,
          hi: nat, hi': nat, n: Node, p: nat)
    requires Forest(m, own, open, lo, hi) && 1 <= Level(n) <= 4
    requires lo <= p && hi <= p && p % TABLE == 0 && p + TABLE <= hi'
    requires DownLinks(m', own[p := n], open') && UpLinks(m', own[p := n], open')
    ensures Forest(m', own[p := n], open', lo, hi')
  {
    hide DownLinks, UpLinks;
  }

  lemma OpenNext(open: map<nat, nat>, open': map<nat, nat>, t: nat, i: nat, p: nat, x: nat, j: nat)
    requires if Unfilled(open, t, i) then open[t] == i && open' - {p} == open[t := i + 1] else open' - {p} == open
    requires x != p && t != p
    ensures Unfilled(open', x, j) == (Unfilled(open, x, j) && !(x == t && j == i))
  {
    assert x in open' <==> x in open' - {p};
  }

  lemma FreshTable(m: seq<nat>, own: map<nat, Node>, open: map<nat, nat>, lo: nat, hi: nat, p: nat)
    requires Forest(m, own, open, lo, hi) && hi <= p
    ensures p !in own && forall x :: x in own ==> Level(own[x]) <= 4
  {
  }

  /** Entry i of t leads to the new table p, and every other entry reads as before and is as far filled in. */
  ghost predicate Hung(m: seq<nat>, m': seq<nat>, own: map<nat, Node>, open: map<nat, nat>, open': map<nat, nat>,
          t: nat, i: nat, p: nat) {
    && t in own && Level(own[t]) > 1 && i < 512 && p !in own
    && (Unfilled(open, t, i) || !Present(Load(m, t, i))) && !Unfilled(open', t, i)
    && (p !in open' ==> Level(own[t]) == 2 || forall j :: 0 <= j < 512 ==> !Present(Load(m', p, j)))
    && (p in open' ==> open'[p] == 0)
    && (forall x, j :: x in own && 0 <= j < 512 && !(x == t && j == i) ==>
      Load(m', x, j) == Load(m, x, j) && Unfilled(open', x, j) == Unfilled(open, x, j))
    && Present(Load(m', t, i)) && !Large(Load(m', t, i)) && Frame(Load(m', t, i)) == p
  }

  lemma AddDown(m: seq<nat>, m': seq<nat>, own: map<nat, Node>, open: map<nat, nat>, open': map<nat, nat>, lo: nat,
          hi: nat, t: nat, i: nat, p: nat)
    requires Forest(m, own, open, lo, hi) && Hung(m, m', own, open, open', t, i, p)
    ensures DownLinks(m', own[p := Child(Level(own[t]) - 1, t, i)], open')
  {
    hide Load, Present, Large, Frame;
    var own' := own[p := Child(Level(own[t]) - 1, t, i)];
    forall x, j | x in own' && Level(own'[x]) > 1 && 0 <= j < 512 && !Unfilled(open', x, j) && Present(Load(m', x, j))
      ensures !Large(Load(m', x, j)) && Frame(Load(m', x, j)) in own'
      ensures own'[Frame(Load(m', x, j))] == Child(Level(own'[x]) - 1, x, j)
    {
      if x in own && !(x == t && j == i) { assert !Unfilled(open, x, j) && Present(Load(m, x, j)); }
    }
  }

  lemma AddUp(m: seq<nat>, m': seq<nat>, own: map<nat, Node>, open: map<nat, nat>, open': map<nat, nat>, lo: nat,
          hi: nat, t: nat, i: nat, p: nat)
    requires Forest(m, own, open, lo, hi) && Hung(m, m', own, open, open', t, i, p)
    ensures UpLinks(m', own[p := Child(Level(own[t]) - 1, t, i)], open')
  {
    forall c | c in own && own[c].Child?
      ensures var Child(l, x, j) := own[c];
        && x in own && Level(own[x]) == l + 1 && j < 512 && !Unfilled(open', x, j)
        && Present(Load(m', x, j)) && Frame(Load(m', x, j)) == c
    {
      UpKept(m, m', own, open, open', lo, hi, t, i, p, c);
    }
    hide Load, Present, Large, Frame, Forest;
    assert p !in own;
  }

  lemma UpKept(m: seq<nat>, m': seq<nat>, own: map<nat, Node>, open: map<nat, nat>, open': map<nat, nat>, lo: nat,
          hi: nat, t: nat, i: nat, p: nat, c: nat)
    requires Forest(m, own, open, lo, hi) && Hung(m, m', own, open, open', t, i, p) && c in own && own[c].Child?
    ensures var Child(l, x, j) := own[c];
      && x in own && Level(own[x]) == l + 1 && j < 512 && !Unfilled(open', x, j)
      && Present(Load(m', x, j)) && Frame(Load(m', x, j)) == c
  {
    hide Load, Present, Large, Frame, DownLinks;
  }
}
