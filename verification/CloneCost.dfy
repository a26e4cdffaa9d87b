/** What `PageDirectory::clone` allocates: one page for the directory and one for each table below its source. */
module CloneCost {
  import opened Arith
  import opened Bits
  import opened PageTables
  import opened Readings
  import opened Mapping
  import opened Cloning

  /** The tables below entries i to 511 of the level-l table t. */
  function TablesBelow(m: seq<nat>, l: nat, t: nat, i: nat): set<nat>
    requires 1 <= l <= 4 && i <= 512
    decreases l, 512 - i
  {
    if l == 1 || i == 512 then {}
    else
      var w := Load(m, t, i);
      (if Present(w) then {Frame(w)} + TablesBelow(m, l - 1, Frame(w), 0) else {}) + TablesBelow(m, l, t, i + 1)
  }

  /** The same, counted entry by entry. */
  function CountBelow(m: seq<nat>, l: nat, t: nat, i: nat): nat
    requires 1 <= l <= 4 && i <= 512
    decreases l, 512 - i
  {
    if l == 1 || i == 512 then 0
    else
      var w := Load(m, t, i);
      (if Present(w) then 1 + CountBelow(m, l - 1, Frame(w), 0) else 0) + CountBelow(m, l, t, i + 1)
  }

  // ----- no table is counted twice -------------------------------------------

  /** The table n levels above x. */
  function Up(own: map<nat, Node>, x: nat, n: nat): nat
    decreases n
  {
    if n == 0 then x else if x in own && own[x].Child? then Up(own, own[x].parent, n - 1) else x
  }

  /** x lies below an entry of t that is not before entry i. */
  ghost predicate Below(own: map<nat, Node>, x: nat, l: nat, t: nat, i: nat) {
    && x in own && Level(own[x]) < l
    && var c := Up(own, x, l - 1 - Level(own[x]));
      c in own && own[c].Child? && own[c].level == l - 1 && own[c].parent == t && i <= own[c].index
  }

  lemma {:induction false} UpStep(own: map<nat, Node>, x: nat, n: nat)
    requires var c := Up(own, x, n); c in own && own[c].Child?
    requires forall y :: y in own && own[y].Child? ==>
      own[y].parent in own && Level(own[own[y].parent]) == own[y].level + 1
    requires x in own && Level(own[x]) + n <= 4 && Level(own[Up(own, x, n)]) == Level(own[x]) + n
    ensures Up(own, x, n + 1) == own[Up(own, x, n)].parent
    decreases n
  {
    if n > 0 {
      if own[x].Child? {
        UpStep(own, own[x].parent, n - 1);
      }
    }
  }

  lemma {:induction false} BelowExact(m: seq<nat>, own: map<nat, Node>, lo: nat, hi: nat, l: nat, t: nat, i: nat)
    requires Forest(m, own, map[], lo, hi) && 1 <= l <= 4 && t in own && Level(own[t]) == l && i <= 512
    ensures forall x :: x in TablesBelow(m, l, t, i) ==> Below(own, x, l, t, i)
    ensures |TablesBelow(m, l, t, i)| == CountBelow(m, l, t, i)
    decreases l, 512 - i
  {
    hide Below, Load, Frame, TablesBelow, CountBelow;
    Unfold(m, l, t, i);
    if l > 1 && i < 512 {
      var w := Load(m, t, i);
      BelowExact(m, own, lo, hi, l, t, i + 1);
      BelowMono(own, TablesBelow(m, l, t, i + 1), l, t, i);
      if Present(w) {
        BelowExact(m, own, lo, hi, l - 1, Frame(w), 0);
        var down, rest := TablesBelow(m, l - 1, Frame(w), 0), TablesBelow(m, l, t, i + 1);
        ChildBelow(m, own, lo, hi, l, t, i, down);
        SetSum(Frame(w), down, rest);
      }
    }
  }

  lemma Unfold(m: seq<nat>, l: nat, t: nat, i: nat)
    requires 1 <= l <= 4 && i <= 512
    ensures l == 1 || i == 512 ==> TablesBelow(m, l, t, i) == {} && CountBelow(m, l, t, i) == 0
    ensures l > 1 && i < 512 ==>
      var c := Frame(Load(m, t, i));
      if Present(Load(m, t, i)) then
        && TablesBelow(m, l, t, i) == {c} + TablesBelow(m, l - 1, c, 0) + TablesBelow(m, l, t, i + 1)
        && CountBelow(m, l, t, i) == 1 + CountBelow(m, l - 1, c, 0) + CountBelow(m, l, t, i + 1)
      else
        && TablesBelow(m, l, t, i) == TablesBelow(m, l, t, i + 1)
        && CountBelow(m, l, t, i) == CountBelow(m, l, t, i + 1)
  {
  }

  lemma BelowMono(own: map<nat, Node>, rest: set<nat>, l: nat, t: nat, i: nat)
    requires forall x :: x in rest ==> Below(own, x, l, t, i + 1)
    ensures forall x :: x in rest ==> Below(own, x, l, t, i)
  {
  }

  lemma ChildBelow(m: seq<nat>, own: map<nat, Node>, lo: nat, hi: nat, l: nat, t: nat, i: nat, down: set<nat>)
    requires Forest(m, own, map[], lo, hi) && 2 <= l <= 4 && t in own && Level(own[t]) == l && i < 512
    requires Present(Load(m, t, i)) && forall x :: x in down ==> Below(own, x, l - 1, Frame(Load(m, t, i)), 0)
    ensures var c := Frame(Load(m, t, i));
      c !in down && forall x :: x in down + {c} ==> Below(own, x, l, t, i) && !Below(own, x, l, t, i + 1)
  {
    hide Load, Frame;
    var c := Frame(Load(m, t, i));
    assert own[c] == Child(l - 1, t, i);
    assert Up(own, c, 0) == c;
    forall x | x in down ensures Below(own, x, l, t, i) && !Below(own, x, l, t, i + 1) {
      UpStep(own, x, l - 2 - Level(own[x]));
    }
  }

  lemma SetSum<T>(c: T, down: set<T>, rest: set<T>)
    requires c !in down && down !! rest && c !in rest
    ensures |{c} + down + rest| == 1 + |down| + |rest|
  {
    assert |{c} + down| == 1 + |down|;
  }

  // ----- the tables below are those that walks reach -------------------------

  /** A walk through t below level l passes through one of them. */
  lemma {:induction false} WalkedBelow(m: seq<nat>, own: map<nat, Node>, lo: nat, hi: nat, l: nat, t: nat, v: nat,
          k: nat)
    requires Forest(m, own, map[], lo, hi) && 1 <= k < l <= 4 && t in own && Level(own[t]) == l
    ensures var r := TableFrom(m, l, t, v, k); r.Some? ==> r.value in TablesBelow(m, l, t, 0)
    decreases l
  {
    var i := Index(v, l);
    var w := Load(m, t, i);
    if Present(w) {
      EntryBelow(m, l, t, 0, i);
      if k < l - 1 { WalkedBelow(m, own, lo, hi, l - 1, Frame(w), v, k); }
    }
  }

  lemma {:induction false} EntryBelow(m: seq<nat>, l: nat, t: nat, i: nat, j: nat)
    requires 2 <= l <= 4 && i <= j < 512 && Present(Load(m, t, j))
    ensures Frame(Load(m, t, j)) in TablesBelow(m, l, t, i)
    ensures TablesBelow(m, l - 1, Frame(Load(m, t, j)), 0) <= TablesBelow(m, l, t, i)
    decreases j - i
  {
    if i < j { EntryBelow(m, l, t, i + 1, j); }
  }

  /** v addresses within the range that a level-l table covers. */
  predicate Within(v: nat, l: nat) { v < 512 * Span(l) }

  /** Each of them is reached: there is an address whose walk passes through it. */
  lemma {:induction false} BelowWalked(m: seq<nat>, own: map<nat, Node>, lo: nat, hi: nat, l: nat, t: nat, i: nat,
          x: nat)
    returns (v: nat, k: nat)
    requires Forest(m, own, map[], lo, hi) && 1 <= l <= 4 && t in own && Level(own[t]) == l && i <= 512
    requires x in TablesBelow(m, l, t, i)
    ensures 1 <= k < l && Within(v, l) && TableFrom(m, l, t, v, k) == Some(x)
    decreases l, 512 - i
  {
    hide TablesBelow, Within, Load, Index, Frame, Large;
    Unfold(m, l, t, i);
    if x in TablesBelow(m, l, t, i + 1) {
      v, k := BelowWalked(m, own, lo, hi, l, t, i + 1, x);
    } else {
      var c := Frame(Load(m, t, i));
      var u: nat;
      if x == c {
        u, k := 0, l - 1;
        ZeroWithin(l - 1);
      } else {
        u, k := BelowWalked(m, own, lo, hi, l - 1, c, 0, x);
      }
      v := DeeperWalk(m, l, t, i, u, k);
    }
  }

  lemma ZeroWithin(l: nat)
    ensures Within(0, l)
  {
  }

  lemma DeeperWalk(m: seq<nat>, l: nat, t: nat, i: nat, u: nat, k: nat) returns (v: nat)
    requires 1 <= k < l <= 4 && i < 512 && Within(u, l - 1) && Present(Load(m, t, i)) && !Large(Load(m, t, i))
    ensures Within(v, l) && TableFrom(m, l, t, v, k) == TableFrom(m, l - 1, Frame(Load(m, t, i)), u, k)
  {
    hide Index, Load, Span;
    SpanStep(l - 1);
    v := i * Span(l) + u;
    forall j | 1 <= j <= l ensures Index(v, j) == if j == l then i else Index(u, j) { LowIndex(i, u, l, j); }
    SameIndexes(m, l - 1, Frame(Load(m, t, i)), v, u, k);
    MulMono(i + 1, 512, Span(l));
  }

  /** The walk of some address from t passes through x below t. */
  ghost predicate Walked(m: seq<nat>, l: nat, t: nat, x: nat)
    requires 1 <= l <= 4
  {
    exists v: nat, k :: 1 <= k < l && TableFrom(m, l, t, v, k) == Some(x)
  }

  /** The tables below t are exactly those that walks from t pass through. */
  lemma TablesWalked(m: seq<nat>, own: map<nat, Node>, lo: nat, hi: nat, l: nat, t: nat)
    requires Forest(m, own, map[], lo, hi) && 1 <= l <= 4 && t in own && Level(own[t]) == l
    ensures forall x :: x in TablesBelow(m, l, t, 0) <==> Walked(m, l, t, x)
  {
    hide TablesBelow, TableFrom, Forest;
    forall x: nat ensures x in TablesBelow(m, l, t, 0) <==> Walked(m, l, t, x) {
      if x in TablesBelow(m, l, t, 0) {
        var v, k := BelowWalked(m, own, lo, hi, l, t, 0, x);
      }
      if Walked(m, l, t, x) {
        var v: nat, k :| 1 <= k < l && TableFrom(m, l, t, v, k) == Some(x);
        WalkedBelow(m, own, lo, hi, l, t, v, k);
      }
    }
  }

  lemma SpanStep(l: nat)
    requires 1 <= l <= 3
    ensures Span(l + 1) == 512 * Span(l)
  {
  }

  lemma LowIndex(i: nat, u: nat, l: nat, j: nat)
    requires 1 <= j <= l <= 4 && i < 512 && u < Span(l)
    ensures Index(i * Span(l) + u, j) == if j == l then i else Index(u, j)
  {
    hide Span;
    if j == l {
      DivUnique(i * Span(l) + u, Span(l), i, u);
    } else {
      var n := SpanRatio(l, j);
      IndexShift(i, n, Span(j), u);
    }
  }

  lemma SpanRatio(l: nat, j: nat) returns (n: nat)
    requires 1 <= j < l <= 4
    ensures Span(l) == n * 512 * Span(j)
  {
    n := if l == j + 1 then 1 else if l == j + 2 then 512 else 0x4_0000;
  }

  lemma IndexShift(i: nat, n: nat, d: nat, u: nat)
    requires d > 0
    ensures (i * (n * 512 * d) + u) / d % 512 == u / d % 512
  {
    assert i * (n * 512 * d) == i * n * 512 * d;
    DivAdd(i * n * 512, d, u);
    DivAdd(i * n, 512, u / d);
  }

  lemma {:induction false} SameIndexes(m: seq<nat>, l: nat, t: nat, v: nat, u: nat, k: nat)
    requires 1 <= k <= l <= 4 && forall j :: k < j <= l ==> Index(v, j) == Index(u, j)
    ensures TableFrom(m, l, t, v, k) == TableFrom(m, l, t, u, k)
  {
    if k < l {
      var w := Load(m, t, Index(v, l));
      if Present(w) && !Large(w) {
        SameIndexes(m, l - 1, Frame(w), v, u, k);
      }
    }
  }

  // ----- the cost ------------------------------------------------------------

  /** The count depends only on the tables counted. */
  lemma {:induction false} CountAgree(m: seq<nat>, m': seq<nat>, own: map<nat, Node>, open: map<nat, nat>, lo: nat,
          hi: nat, l: nat, t: nat, i: nat)
    requires Forest(m, own, open, lo, hi) && 1 <= l <= 4 && t in own && Level(own[t]) == l && i <= 512
    requires t !in open && OpenAbove(own, open, l - 1) && Agree(m, m', own, l - 1)
    requires forall j :: i <= j < 512 ==> Load(m', t, j) == Load(m, t, j)
    ensures CountBelow(m', l, t, i) == CountBelow(m, l, t, i)
    decreases l, 512 - i
  {
    if l > 1 && i < 512 {
      var w := Load(m, t, i);
      assert Load(m', t, i) == w;
      CountAgree(m, m', own, open, lo, hi, l, t, i + 1);
      if Present(w) {
        CountAgree(m, m', own, open, lo, hi, l - 1, Frame(w), 0);
      }
    }
  }

  /** Finishing the loop of a level costs one page for each table below the entries still to be copied. */
  lemma {:induction false} CopyLevelCost(s: Space, own: map<nat, Node>, open: map<nat, nat>, lo: nat, l: nat, src: nat,
          dst: nat, i: nat)
    requires Copying(s, own, open, lo, l, src, dst, i) && i <= 512 && CopyLevel(s, l, src, dst, i).Fits()
    ensures AlignUp(CopyLevel(s, l, src, dst, i).brk) == AlignUp(s.brk) + TABLE * CountBelow(s.ram, l, src, i)
    decreases l, 513 - i, 1
  {
    if i < 512 {
      hide Forest, AlignUp, Load;
      var s2 := CopyEntry(s, l, src, dst, i);
      var own2 := CopyEntryEffect(s, own, open, lo, l, src, dst, i);
      CopyEntryCost(s, own, open, lo, l, src, dst, i);
      CopyingNext(s, own, open, lo, l, src, dst, i, s2, own2);
      CopyLevelCost(s2, own2, open[dst := i + 1], lo, l, src, dst, i + 1);
      CountAgree(s.ram, s2.ram, own, open, lo, s.brk, l, src, i + 1);
    }
  }

  lemma CopyingNext(s: Space, own: map<nat, Node>, open: map<nat, nat>, lo: nat, l: nat, src: nat, dst: nat, i: nat,
                    s2: Space, own2: map<nat, Node>)
    requires Copying(s, own, open, lo, l, src, dst, i) && i < 512 && s.brk <= s2.brk
    requires Forest(s2.ram, own2, open[dst := i + 1], lo, s2.brk) && Extends(own, own2)
    requires Kept(s.ram, s2.ram, own, dst, i, i + 1)
    ensures Copying(s2, own2, open[dst := i + 1], lo, l, src, dst, i + 1)
    ensures OpenAbove(own, open, l - 1) && Agree(s.ram, s2.ram, own, l - 1)
    ensures forall j :: 0 <= j < 512 ==> Load(s2.ram, src, j) == Load(s.ram, src, j)
  {
  }

  lemma CopyEntryCost(s: Space, own: map<nat, Node>, open: map<nat, nat>, lo: nat, l: nat, src: nat, dst: nat, i: nat)
    requires Copying(s, own, open, lo, l, src, dst, i) && i < 512 && CopyEntry(s, l, src, dst, i).Fits()
    ensures var w := Load(s.ram, src, i);
      AlignUp(CopyEntry(s, l, src, dst, i).brk) ==
        AlignUp(s.brk) + if Present(w) then TABLE * (1 + CountBelow(s.ram, l - 1, Frame(w), 0)) else 0
    decreases l, 513 - i, 0
  {
    hide Load, Frame, CountBelow, Forest, AlignUp, CopyLevel;
    AlignedNext(s.brk);
    if l == 2 {
      LeafCount(s.ram, l - 1, Frame(Load(s.ram, src, i)));
    } else if Present(Load(s.ram, src, i)) {
      CopyDeepCost(s, own, open, lo, l, src, dst, i);
    }
  }

  lemma AlignedNext(a: nat)
    ensures AlignUp(AlignUp(a) + TABLE) == AlignUp(a) + TABLE
  {
  }

  lemma LeafCount(m: seq<nat>, l: nat, t: nat)
    requires l == 1
    ensures CountBelow(m, l, t, 0) == 0
  {
  }

  lemma DeepEntry(s: Space, l: nat, src: nat, dst: nat, i: nat)
    requires 2 < l <= 4 && i < 512 && Present(Load(s.ram, src, i))
    ensures CopyEntry(s, l, src, dst, i) ==
      CopyLevel(Hang(s, dst, i), l - 1, Frame(Load(s.ram, src, i)), AlignUp(s.brk), 0)
  {
    hide CopyLevel;
  }

  lemma CopyDeepCost(s: Space, own: map<nat, Node>, open: map<nat, nat>, lo: nat, l: nat, src: nat, dst: nat, i: nat)
    requires Copying(s, own, open, lo, l, src, dst, i) && i < 512 && CopyEntry(s, l, src, dst, i).Fits()
    requires Present(Load(s.ram, src, i)) && 2 < l <= 4
    ensures var w := Load(s.ram, src, i);
      AlignUp(CopyEntry(s, l, src, dst, i).brk) == AlignUp(s.brk) + TABLE * (1 + CountBelow(s.ram, l - 1, Frame(w), 0))
    decreases l, 512 - i, 1
  {
    hide Load, CopyLevel, CopyEntry, CountBelow, Copying, Frame, AlignUp, Hang;
    DeepEntry(s, l, src, dst, i);
    AlignedNext(s.brk);
    var p, q, s1 := AlignUp(s.brk), Frame(Load(s.ram, src, i)), Hang(s, dst, i);
    HangBrk(s, dst, i);
    var own1 := DeepStart(s, own, open, lo, l, src, dst, i);
    CopyLevelCost(s1, own1, open[dst := i + 1][p := 0], lo, l - 1, q, p, 0);
  }

  lemma HangBrk(s: Space, dst: nat, i: nat)
    ensures Hang(s, dst, i).brk == AlignUp(s.brk) + TABLE && |Hang(s, dst, i).ram| == |s.ram|
  {
  }

  /** The copy of the table below entry i starts, with as much to copy as there was. */
  lemma DeepStart(s: Space, own: map<nat, Node>, open: map<nat, nat>, lo: nat, l: nat, src: nat, dst: nat, i: nat)
    returns (own1: map<nat, Node>)
    requires Copying(s, own, open, lo, l, src, dst, i) && i < 512 && Present(Load(s.ram, src, i)) && 2 < l <= 4
    requires AlignUp(s.brk) + TABLE <= 8 * |s.ram| && AlignUp(s.brk) + TABLE <= PHYSICAL
    ensures var p, q, s1 := AlignUp(s.brk), Frame(Load(s.ram, src, i)), Hang(s, dst, i);
      && Copying(s1, own1, open[dst := i + 1][p := 0], lo, l - 1, q, p, 0)
      && CountBelow(s1.ram, l - 1, q, 0) == CountBelow(s.ram, l - 1, q, 0)
  {
    hide Load, CountBelow, Forest, Kept, Copying, Frame, AlignUp, Store, CloneEntry, PointsTo;
    var p, q, s1 := AlignUp(s.brk), Frame(Load(s.ram, src, i)), Hang(s, dst, i);
    own1 := HangPage(s, own, open, lo, l, src, dst, i);
    Hung(s, own, open, lo, l, src, dst, i, s1, own1, p);
    CountAgree(s.ram, s1.ram, own, open, lo, s.brk, l - 1, q, 0);
  }

  lemma Hung(s: Space, own: map<nat, Node>, open: map<nat, nat>, lo: nat, l: nat, src: nat, dst: nat, i: nat,
             s1: Space, own1: map<nat, Node>, p: nat)
    requires Copying(s, own, open, lo, l, src, dst, i) && i < 512 && Present(Load(s.ram, src, i)) && l > 2
    requires p !in own && own1 == own[p := Child(l - 1, dst, i)] && Kept(s.ram, s1.ram, own, dst, i, i + 1)
    requires Forest(s1.ram, own1, open[dst := i + 1][p := 0], lo, s1.brk) && s.brk <= s1.brk
    ensures var q := Frame(Load(s.ram, src, i));
      && Copying(s1, own1, open[dst := i + 1][p := 0], lo, l - 1, q, p, 0)
      && q in own && Level(own[q]) == l - 1 && q !in open && Forest(s.ram, own, open, lo, s.brk)
    ensures OpenAbove(own, open, l - 2) && Agree(s.ram, s1.ram, own, l - 2)
    ensures forall j :: 0 <= j < 512 ==>
      Load(s1.ram, Frame(Load(s.ram, src, i)), j) == Load(s.ram, Frame(Load(s.ram, src, i)), j)
  {
  }

  /** Cloning costs one page for the directory and one for each table below the directory cloned. */
  lemma CloneExact(s: Space, own: map<nat, Node>, lo: nat, root: nat)
    requires Forest(s.ram, own, map[], lo, s.brk) && IsRoot(own, root) && lo <= s.brk && Clone(s, root).Fits()
    ensures AlignUp(Clone(s, root).brk) == AlignUp(s.brk) + TABLE * (1 + |TablesBelow(s.ram, 4, root, 0)|)
  {
    hide Forest, TablesBelow, CountBelow, CopyLevel;
    CloneCount(s, own, lo, root, 4);
    BelowExact(s.ram, own, lo, s.brk, 4, root, 0);
  }

  lemma CloneCount(s: Space, own: map<nat, Node>, lo: nat, root: nat, l: nat)
    requires Forest(s.ram, own, map[], lo, s.brk) && IsRoot(own, root) && lo <= s.brk && l == 4
    requires CopyLevel(Reserve(s), l, root, CloneRoot(s), 0).Fits()
    ensures AlignUp(CopyLevel(Reserve(s), l, root, CloneRoot(s), 0).brk)
         == AlignUp(s.brk) + TABLE * (1 + CountBelow(s.ram, l, root, 0))
  {
    hide Forest, CountBelow, CopyLevel, Copying, AlignUp;
    AlignedNext(s.brk);
    var p := CloneRoot(s);
    StartCopy(s, own, lo, root);
    CopyLevelCost(Reserve(s), own[p := Root], map[p := 0], lo, l, root, p, 0);
  }
}
