/** Whole runs of `mapPage`: ranges, the finite map a directory refines, and the exact number of tables it costs. */
module Ranges {
  import opened Arith
  import opened Bits
  import opened PageTables
  import opened Readings
  import opened Mapping

  const PAGES: nat := 0x10_0000_0000

  function PageNo(v: nat): nat { v / 0x1000 % PAGES }

  /** The address of page i of a range, in 64-bit arithmetic. */
  function Advance(a: nat, i: nat): nat { (a + i * 0x1000) % WORD }

  lemma MapPageBrk(s: Space, root: nat, virt: nat, phys: nat, flags: nat)
    ensures var s' := MapPage(s, root, virt, phys, flags); s.brk <= s'.brk && |s'.ram| == |s.ram|
  {
  }

  // ----- a contiguous range ------------------------------------------------

  /** The first n iterations of the loop in `PageDirectory::map`. */
  function MapRange(s: Space, root: nat, virt: nat, phys: nat, n: nat, flags: nat): (r: Space)
    ensures s.brk <= r.brk && |r.ram| == |s.ram|
  {
    if n == 0 then s
    else
      MapPageBrk(MapRange(s, root, virt, phys, n - 1, flags), root, Advance(virt, n - 1), Advance(phys, n - 1), flags);
      MapPage(MapRange(s, root, virt, phys, n - 1, flags), root, Advance(virt, n - 1), Advance(phys, n - 1), flags)
  }

  /** How many pages v lies after `virt`, counting round the 48-bit space. */
  function Distance(v: nat, virt: nat): nat { (PageNo(v) + PAGES - PageNo(virt)) % PAGES }

  lemma PageNoAdd(virt: nat, n: nat)
    ensures PageNo(Advance(virt, n)) == (PageNo(virt) + n) % PAGES
  {
    var x := virt + n * 0x1000;
    DivAdd(n, 0x1000, virt);
    var q := x / WORD;
    DivAdd(q * 0x10_0000_0000_0000, 0x1000, x % WORD);
    DivAdd(q * 0x1_0000, PAGES, x % WORD / 0x1000);
    var k := virt / 0x1000;
    DivAdd(k / PAGES, PAGES, k % PAGES + n);
  }

  lemma DistanceExact(v: nat, virt: nat, n: nat)
    ensures SamePage(v, Advance(virt, n)) <==> Distance(v, virt) == n % PAGES
  {
    hide Advance;
    PageNoAdd(virt, n);
    CircularShift(PageNo(v), PageNo(virt), n);
  }

  /** On a circle of `PAGES` places, a is the n-th after b exactly when it is n modulo the circle ahead of it. */
  lemma CircularShift(a: nat, b: nat, n: nat)
    requires a < PAGES && b < PAGES
    ensures a == (b + n) % PAGES <==> (a + PAGES - b) % PAGES == n % PAGES
  {
    var q, r := n / PAGES, n % PAGES;
    DivAdd(q, PAGES, b + r);
    assert n == q * PAGES + r;
    assert (b + n) % PAGES == (b + r) % PAGES;
    if b + r < PAGES {
      assert (b + r) % PAGES == b + r;
    } else {
      assert (b + r) % PAGES == b + r - PAGES;
    }
    if a >= b {
      assert (a + PAGES - b) % PAGES == a - b;
    }
  }

  /** The last of the first n pages of a range that lies d pages after its start, counting round the 48-bit space. */
  function LastVisit(d: nat, n: nat): nat
    requires d < n
  {
    d + (n - 1 - d) / PAGES * PAGES
  }

  lemma LastVisitStep(d: nat, n: nat)
    requires d < PAGES && n > 0
    ensures d == (n - 1) % PAGES ==> d < n && LastVisit(d, n) == n - 1
    ensures d != (n - 1) % PAGES ==> (d < n <==> d < n - 1) && (d < n - 1 ==> LastVisit(d, n) == LastVisit(d, n - 1))
  {
  }

  /** A range of at most 2^36 pages does not meet itself. */
  lemma NoWrap(d: nat, n: nat)
    requires d < n <= PAGES
    ensures LastVisit(d, n) == d
  {
  }

  ghost predicate UpdatesRange(m: seq<nat>, m': seq<nat>, own: map<nat, Node>, root: nat, virt: nat, phys: nat,
          n: nat, flags: nat) {
    forall r, v: nat {:trigger Translate(m', r, v)} :: IsRoot(own, r) ==>
      Translate(m', r, v) ==
        if r == root && Distance(v, virt) < n then Leaf(Or(Advance(phys, LastVisit(Distance(v, virt), n)), flags))
        else Translate(m, r, v)
  }

  /**
   * `map` over n pages: page d of the range gets frame d, or, when the range goes round the 48-bit space, the last
   * frame that falls on it; and nothing else changes.
   */
  lemma {:induction false} MapRangeEffect(s: Space, own: map<nat, Node>, lo: nat, root: nat, virt: nat, phys: nat,
          n: nat, flags: nat)
    returns (own': map<nat, Node>)
    requires Forest(s.ram, own, map[], lo, s.brk) && IsRoot(own, root) && lo <= s.brk && GoodFlags(flags)
    requires MapRange(s, root, virt, phys, n, flags).Fits()
    ensures var s' := MapRange(s, root, virt, phys, n, flags);
      Forest(s'.ram, own', map[], lo, s'.brk) && UpdatesRange(s.ram, s'.ram, own, root, virt, phys, n, flags)
    ensures SameRoots(own, own')
    decreases n
  {
    hide MapPage;
    if n == 0 {
      own' := own;
    } else {
      MapRangeLast(s, root, virt, phys, n, flags);
      var own1 := MapRangeEffect(s, own, lo, root, virt, phys, n - 1, flags);
      own' := RangeLast(s, own, own1, lo, root, virt, phys, n, flags);
    }
  }

  lemma MapRangeLast(s: Space, root: nat, virt: nat, phys: nat, n: nat, flags: nat)
    requires n > 0
    requires MapRange(s, root, virt, phys, n, flags).Fits()
    ensures MapRange(s, root, virt, phys, n - 1, flags).Fits()
  {
    MapPageBrk(MapRange(s, root, virt, phys, n - 1, flags), root, Advance(virt, n - 1), Advance(phys, n - 1), flags);
  }

  lemma RangeLast(s: Space, own: map<nat, Node>, own1: map<nat, Node>, lo: nat, root: nat, virt: nat, phys: nat,
          n: nat, flags: nat)
    returns (own': map<nat, Node>)
    requires 0 < n && IsRoot(own, root) && GoodFlags(flags) && SameRoots(own, own1)
    requires var s1 := MapRange(s, root, virt, phys, n - 1, flags);
      lo <= s1.brk && Forest(s1.ram, own1, map[], lo, s1.brk) &&
        UpdatesRange(s.ram, s1.ram, own, root, virt, phys, n - 1, flags)
    requires MapRange(s, root, virt, phys, n, flags).Fits()
    ensures var s2 := MapRange(s, root, virt, phys, n, flags);
      Forest(s2.ram, own', map[], lo, s2.brk) && UpdatesRange(s.ram, s2.ram, own, root, virt, phys, n, flags)
    ensures SameRoots(own, own')
  {
    var s1 := MapRange(s, root, virt, phys, n - 1, flags);
    own' := MapPageEffect(s1, own1, lo, root, Advance(virt, n - 1), Advance(phys, n - 1), flags);
    RangeStep(s.ram, s1.ram, MapRange(s, root, virt, phys, n, flags).ram, own, own1, root, virt, phys, n, flags);
  }

  lemma RangeStep(m: seq<nat>, m1: seq<nat>, m2: seq<nat>, own: map<nat, Node>, own1: map<nat, Node>, root: nat,
          virt: nat, phys: nat, n: nat, flags: nat)
    requires 0 < n && SameRoots(own, own1) && UpdatesRange(m, m1, own, root, virt, phys, n - 1, flags)
    requires Updates(m1, m2, own1, root, Advance(virt, n - 1), Or(Advance(phys, n - 1), flags))
    ensures UpdatesRange(m, m2, own, root, virt, phys, n, flags)
  {
    forall r, v: nat | IsRoot(own, r)
      ensures Translate(m2, r, v) ==
        if r == root && Distance(v, virt) < n then Leaf(Or(Advance(phys, LastVisit(Distance(v, virt), n)), flags))
        else Translate(m, r, v)
    {
      DistanceExact(v, virt, n - 1);
      LastVisitStep(Distance(v, virt), n);
    }
  }

  // ----- any run of mapPage ------------------------------------------------

  datatype Request = Request(virt: nat, phys: nat, flags: nat)

  function MapAll(s: Space, root: nat, reqs: seq<Request>): (r: Space)
    ensures s.brk <= r.brk && |r.ram| == |s.ram|
  {
    if reqs == [] then s
    else
      var n := |reqs| - 1;
      MapPageBrk(MapAll(s, root, reqs[..n]), root, reqs[n].virt, reqs[n].phys, reqs[n].flags);
      MapPage(MapAll(s, root, reqs[..n]), root, reqs[n].virt, reqs[n].phys, reqs[n].flags)
  }

  /** The finite map that a run of requests means: page number to leaf entry, the last request winning. */
  function View(reqs: seq<Request>): map<nat, nat> {
    if reqs == [] then map[]
    else var n := |reqs| - 1; View(reqs[..n])[PageNo(reqs[n].virt) := Or(reqs[n].phys, reqs[n].flags)]
  }

  /** The distinct `virt >> 12+9(l-1)` of the requests. */
  function Prefixes(reqs: seq<Request>, l: nat): set<nat> {
    set i | 0 <= i < |reqs| :: Prefix(reqs[i].virt, l)
  }

  lemma PrefixesLast(reqs: seq<Request>, l: nat)
    requires reqs != []
    ensures var n := |reqs| - 1; Prefixes(reqs, l) == Prefixes(reqs[..n], l) + {Prefix(reqs[n].virt, l)}
  {
    var n := |reqs| - 1;
    assert forall i :: 0 <= i < n ==> reqs[..n][i] == reqs[i];
    forall p | p in Prefixes(reqs, l) ensures p in Prefixes(reqs[..n], l) + {Prefix(reqs[n].virt, l)} {
      var i :| 0 <= i < |reqs| && p == Prefix(reqs[i].virt, l);
      if i < n { assert Prefix(reqs[..n][i].virt, l) in Prefixes(reqs[..n], l); }
    }
  }

  /** Directory r has no tables below it. */
  ghost predicate Bare(m: seq<nat>, r: nat) {
    forall v: nat, k :: 1 <= k <= 3 ==> !Reaches(m, r, v, k)
  }

  function Tables(reqs: seq<Request>): nat { |Prefixes(reqs, 4)| + |Prefixes(reqs, 3)| + |Prefixes(reqs, 2)| }

  /** Directory `root` means exactly the finite map of the requests, and every other directory is as in m. */
  ghost predicate Means(m: seq<nat>, m': seq<nat>, own: map<nat, Node>, root: nat, reqs: seq<Request>) {
    && (forall r, v: nat :: IsRoot(own, r) && r != root ==> Translate(m', r, v) == Translate(m, r, v))
    && (forall v: nat ::
          Translate(m', root, v) == if PageNo(v) in View(reqs) then Leaf(View(reqs)[PageNo(v)]) else Fault)
  }

  /** Tables exist exactly where a request asked for one. */
  ghost predicate Covers(m: seq<nat>, root: nat, reqs: seq<Request>) {
    forall v: nat, k :: 1 <= k <= 3 ==> (Reaches(m, root, v, k) <==> Prefix(v, k + 1) in Prefixes(reqs, k + 1))
  }

  /**
   * A run of requests from a bare directory: the directory means exactly the finite map of the requests, other
   * directories are unchanged, tables exist exactly for the prefixes mentioned, and the memory spent is one page for
   * each distinct prefix of each level.
   */
  lemma {:induction false} MapAllEffect(s: Space, own: map<nat, Node>, lo: nat, root: nat, reqs: seq<Request>)
    returns (own': map<nat, Node>)
    requires Forest(s.ram, own, map[], lo, s.brk) && IsRoot(own, root) && lo <= s.brk && Bare(s.ram, root)
    requires forall i :: 0 <= i < |reqs| ==> GoodFlags(reqs[i].flags)
    requires MapAll(s, root, reqs).Fits()
    ensures var s' := MapAll(s, root, reqs);
      && Forest(s'.ram, own', map[], lo, s'.brk)
      && Means(s.ram, s'.ram, own, root, reqs) && Covers(s'.ram, root, reqs)
      && AlignUp(s'.brk) == AlignUp(s.brk) + TABLE * Tables(reqs)
    ensures SameRoots(own, own')
  {
    if reqs == [] {
      own' := own;
      BareFaults(s.ram, own, lo, s.brk, root);
    } else {
      var n := |reqs| - 1;
      var s1 := MapAll(s, root, reqs[..n]);
      MapPageBrk(s1, root, reqs[n].virt, reqs[n].phys, reqs[n].flags);
      var own1 := MapAllEffect(s, own, lo, root, reqs[..n]);
      own' := MapLast(s.ram, own, s1, own1, lo, root, reqs);
    }
  }

  lemma MapLast(m: seq<nat>, own: map<nat, Node>, s1: Space, own1: map<nat, Node>, lo: nat, root: nat,
          reqs: seq<Request>)
    returns (own': map<nat, Node>)
    requires reqs != [] && Forest(s1.ram, own1, map[], lo, s1.brk) && IsRoot(own, root) && lo <= s1.brk
    requires SameRoots(own, own1) && Means(m, s1.ram, own, root, reqs[..|reqs| - 1]) &&
      Covers(s1.ram, root, reqs[..|reqs| - 1])
    requires var q := reqs[|reqs| - 1]; GoodFlags(q.flags) && MapPage(s1, root, q.virt, q.phys, q.flags).Fits()
    ensures var q := reqs[|reqs| - 1]; var s2 := MapPage(s1, root, q.virt, q.phys, q.flags);
      && Forest(s2.ram, own', map[], lo, s2.brk)
      && Means(m, s2.ram, own, root, reqs) && Covers(s2.ram, root, reqs)
      && AlignUp(s2.brk) == AlignUp(s1.brk) + TABLE * (Tables(reqs) - Tables(reqs[..|reqs| - 1]))
    ensures SameRoots(own, own')
  {
    var n := |reqs| - 1;
    var q := reqs[n];
    own' := MapPageEffect(s1, own1, lo, root, q.virt, q.phys, q.flags);
    var s2 := MapPage(s1, root, q.virt, q.phys, q.flags);
    MeansStep(m, s1.ram, s2.ram, own, own1, root, reqs);
    CoversStep(s1.ram, s2.ram, own1, root, reqs);
    BumpCost(s1.brk, !Reaches(s1.ram, root, q.virt, 3), !Reaches(s1.ram, root, q.virt, 2),
      !Reaches(s1.ram, root, q.virt, 1));
  }

  lemma BumpCost(brk: nat, b3: bool, b2: bool, b1: bool)
    ensures AlignUp(Bump(Bump(Bump(brk, b3), b2), b1)) ==
            AlignUp(brk) + TABLE * ((if b3 then 1 else 0) + (if b2 then 1 else 0) + if b1 then 1 else 0)
  {
    hide Bump, AlignUp;
    BumpOne(brk, b3);
    BumpOne(Bump(brk, b3), b2);
    BumpOne(Bump(Bump(brk, b3), b2), b1);
  }

  lemma BumpOne(brk: nat, b: bool)
    ensures AlignUp(Bump(brk, b)) == AlignUp(brk) + if b then TABLE else 0
  {
  }

  lemma MeansStep(m: seq<nat>, m1: seq<nat>, m2: seq<nat>, own: map<nat, Node>, own1: map<nat, Node>, root: nat,
          reqs: seq<Request>)
    requires reqs != [] && IsRoot(own, root) && SameRoots(own, own1) && Means(m, m1, own, root, reqs[..|reqs| - 1])
    requires var q := reqs[|reqs| - 1]; Updates(m1, m2, own1, root, q.virt, Or(q.phys, q.flags))
    ensures Means(m, m2, own, root, reqs)
  {
  }

  lemma CoversStep(m1: seq<nat>, m2: seq<nat>, own1: map<nat, Node>, root: nat, reqs: seq<Request>)
    requires reqs != [] && IsRoot(own1, root) && Covers(m1, root, reqs[..|reqs| - 1])
    requires Built(m1, m2, own1, root, reqs[|reqs| - 1].virt, 1)
    ensures Covers(m2, root, reqs)
    ensures var v := reqs[|reqs| - 1].virt;
      Tables(reqs) == Tables(reqs[..|reqs| - 1]) + (if Reaches(m1, root, v, 3) then 0 else 1)
        + (if Reaches(m1, root, v, 2) then 0 else 1) + if Reaches(m1, root, v, 1) then 0 else 1
  {
    hide Reaches, Prefix, Prefixes;
    PrefixesCount(m1, root, reqs, 1);
    PrefixesCount(m1, root, reqs, 2);
    PrefixesCount(m1, root, reqs, 3);
    forall v: nat, k | 1 <= k <= 3
      ensures Reaches(m2, root, v, k) <==> Prefix(v, k + 1) in Prefixes(reqs, k + 1)
    {
      PrefixesLast(reqs, k + 1);
    }
  }

  lemma PrefixesCount(m1: seq<nat>, root: nat, reqs: seq<Request>, k: nat)
    requires 1 <= k <= 3 && reqs != [] && Covers(m1, root, reqs[..|reqs| - 1])
    ensures |Prefixes(reqs, k + 1)| ==
            |Prefixes(reqs[..|reqs| - 1], k + 1)| + if Reaches(m1, root, reqs[|reqs| - 1].virt, k) then 0 else 1
  {
    hide Reaches, Prefix, Prefixes;
    var before, p := Prefixes(reqs[..|reqs| - 1], k + 1), Prefix(reqs[|reqs| - 1].virt, k + 1);
    PrefixesLast(reqs, k + 1);
    assert p in before ==> before + {p} == before;
  }

  /** Mapping a page again, to whatever frame, allocates nothing. */
  lemma RemapIsFree(s: Space, own: map<nat, Node>, lo: nat, root: nat, reqs: seq<Request>, i: nat, q: Request)
    requires Forest(s.ram, own, map[], lo, s.brk) && IsRoot(own, root) && lo <= s.brk && Bare(s.ram, root)
    requires (forall j :: 0 <= j < |reqs| ==> GoodFlags(reqs[j].flags)) && MapAll(s, root, reqs).Fits()
    requires i < |reqs| && SamePage(q.virt, reqs[i].virt)
    ensures MapAll(s, root, reqs + [q]).brk == MapAll(s, root, reqs).brk
  {
    hide Forest, Translate, MapPage;
    var own' := MapAllEffect(s, own, lo, root, reqs);
    SamePageIndex(q.virt, reqs[i].virt);
    PrefixIndex(q.virt, reqs[i].virt, 1);
    PrefixIndex(q.virt, reqs[i].virt, 2);
    PrefixIndex(q.virt, reqs[i].virt, 3);
    forall k | 1 <= k <= 3 ensures Reaches(MapAll(s, root, reqs).ram, root, q.virt, k) {
      assert Prefix(reqs[i].virt, k + 1) in Prefixes(reqs, k + 1);
    }
    assert (reqs + [q])[..|reqs|] == reqs;
    NothingMissing(MapAll(s, root, reqs), own', lo, root, q);
  }

  lemma NothingMissing(s: Space, own: map<nat, Node>, lo: nat, root: nat, q: Request)
    requires Forest(s.ram, own, map[], lo, s.brk) && IsRoot(own, root)
    requires forall k :: 1 <= k <= 3 ==> Reaches(s.ram, root, q.virt, k)
    ensures MapPage(s, root, q.virt, q.phys, q.flags).brk == s.brk
  {
    hide Store, ZeroTable, Load, Index;
    PathPresent(s, own, lo, root, q.virt);
    var i4, i3, i2 := Index(q.virt, 4), Index(q.virt, 3), Index(q.virt, 2);
    assert Ensure(s, root, i4, q.flags) == s;
    assert Ensure(s, Next(s, root, i4), i3, q.flags) == s;
    assert Ensure(s, Next(s, Next(s, root, i4), i3), i2, q.flags) == s;
  }

  /** The entries on the way to a reached page table are present. */
  lemma PathPresent(s: Space, own: map<nat, Node>, lo: nat, root: nat, v: nat)
    requires Forest(s.ram, own, map[], lo, s.brk) && IsRoot(own, root)
    requires forall k :: 1 <= k <= 3 ==> Reaches(s.ram, root, v, k)
    ensures var pdpt := Next(s, root, Index(v, 4)); var pd := Next(s, pdpt, Index(v, 3));
      && Present(Load(s.ram, root, Index(v, 4))) && Present(Load(s.ram, pdpt, Index(v, 3))) &&
        Present(Load(s.ram, pd, Index(v, 2)))
  {
    hide Load, Index;
    assert TableFrom(s.ram, 4, root, v, 4) == Some(root);
    PresentTable(s.ram, own, lo, s.brk, 4, root, v, 3);
    assert Reaches(s.ram, root, v, 3);
    PresentTable(s.ram, own, lo, s.brk, 4, root, v, 2);
    assert Reaches(s.ram, root, v, 2);
    PresentTable(s.ram, own, lo, s.brk, 4, root, v, 1);
    assert Reaches(s.ram, root, v, 1);
  }

  lemma BareFaults(m: seq<nat>, own: map<nat, Node>, lo: nat, hi: nat, root: nat)
    requires Forest(m, own, map[], lo, hi) && IsRoot(own, root) && Bare(m, root)
    ensures forall v: nat :: Translate(m, root, v) == Fault
  {
    forall v: nat ensures Translate(m, root, v) == Fault {
      PresentTable(m, own, lo, hi, 4, root, v, 3);
      assert !Reaches(m, root, v, 3);
    }
  }

  // ----- what lies below the tables ------------------------------------------

  /** The words below address lo are the same. */
  ghost predicate SameLow(m: seq<nat>, m': seq<nat>, lo: nat) {
    |m'| == |m| && forall k :: 0 <= k < |m| && k < lo / 8 ==> m'[k] == m[k]
  }

  lemma EnsureLow(s: Space, own: map<nat, Node>, lo: nat, t: nat, i: nat, flags: nat) returns (own': map<nat, Node>)
    requires Forest(s.ram, own, map[], lo, s.brk) && t in own && Level(own[t]) > 1 && i < 512 && GoodFlags(flags)
    requires lo <= s.brk && Ensure(s, t, i, flags).Fits()
    ensures var s' := Ensure(s, t, i, flags);
      && SameLow(s.ram, s'.ram, lo) && lo <= s'.brk && Forest(s'.ram, own', map[], lo, s'.brk)
      && Next(s', t, i) in own' && Level(own'[Next(s', t, i)]) == Level(own[t]) - 1
  {
    own' := EnsureForest(s, own, lo, t, i, flags);
  }

  /** `mapPage` writes nothing below the tables. */
  lemma MapPageLow(s: Space, own: map<nat, Node>, lo: nat, root: nat, virt: nat, phys: nat, flags: nat)
    requires Forest(s.ram, own, map[], lo, s.brk) && IsRoot(own, root) && lo <= s.brk && GoodFlags(flags)
    requires MapPage(s, root, virt, phys, flags).Fits()
    ensures SameLow(s.ram, MapPage(s, root, virt, phys, flags).ram, lo)
  {
    hide Forest, Ensure, Next, Index, Load;
    var i4, i3, i2 := Index(virt, 4), Index(virt, 3), Index(virt, 2);
    var s4 := Ensure(s, root, i4, flags);
    var pdpt := Next(s4, root, i4);
    var s3 := Ensure(s4, pdpt, i3, flags);
    var pd := Next(s3, pdpt, i3);
    var s2 := Ensure(s3, pd, i2, flags);
    EnsureBrk(s4, pdpt, i3, flags);
    EnsureBrk(s3, pd, i2, flags);
    var own4 := EnsureLow(s, own, lo, root, i4, flags);
    var own3 := EnsureLow(s4, own4, lo, pdpt, i3, flags);
    var own2 := EnsureLow(s3, own3, lo, pd, i2, flags);
    TableAbove(s2, own2, lo, Next(s2, pd, i2));
  }

  lemma TableAbove(s: Space, own: map<nat, Node>, lo: nat, t: nat)
    requires Forest(s.ram, own, map[], lo, s.brk) && t in own
    ensures t >= lo
  {
  }

  lemma {:induction false} MapRangeLow(s: Space, own: map<nat, Node>, lo: nat, root: nat, virt: nat, phys: nat, n: nat,
          flags: nat)
    requires Forest(s.ram, own, map[], lo, s.brk) && IsRoot(own, root) && lo <= s.brk && GoodFlags(flags)
    requires MapRange(s, root, virt, phys, n, flags).Fits()
    ensures SameLow(s.ram, MapRange(s, root, virt, phys, n, flags).ram, lo)
    decreases n
  {
    hide Forest, MapPage;
    if n > 0 {
      var s1 := MapRange(s, root, virt, phys, n - 1, flags);
      MapRangeLast(s, root, virt, phys, n, flags);
      MapRangeLow(s, own, lo, root, virt, phys, n - 1, flags);
      var own1 := MapRangeEffect(s, own, lo, root, virt, phys, n - 1, flags);
      MapPageLow(s1, own1, lo, root, Advance(virt, n - 1), Advance(phys, n - 1), flags);
    }
  }
}
