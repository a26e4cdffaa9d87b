/** Any number of directories over one bump allocator: invariants over every run of the memory manager. */
module Directories {
  import opened Bits
  import opened PageTables
  import opened Readings
  import opened Mapping
  import opened Ranges
  import opened Cloning

  /** Memory, the value of `kmallocStart`, and the directories created so far. */
  datatype Machine = Machine(space: Space, start: nat, dirs: seq<nat>)

  datatype Op =
    | Kmalloc(size: nat)
    | KmallocAligned(size: nat)
    | NewDirectory
    | MapOne(dir: nat, virt: nat, phys: nat, flags: nat)
    | MapMany(dir: nat, virt: nat, phys: nat, count: nat, flags: nat)
    | CloneOf(dir: nat)

  /** A page from the bump allocator, cleared by the `PageDirectory` constructor. */
  function NewRoot(s: Space): Space { Space(ZeroTable(s.ram, AlignUp(s.brk)), AlignUp(s.brk) + TABLE) }

  function Apply(k: Machine, op: Op): Machine
    requires (op.MapOne? || op.MapMany? || op.CloneOf?) ==> op.dir < |k.dirs|
  {
    match op
    case Kmalloc(size) => k.(space := k.space.(brk := k.space.brk + size))
    case KmallocAligned(size) => k.(space := k.space.(brk := AlignUp(k.space.brk) + size))
    case NewDirectory => Machine(NewRoot(k.space), k.start, k.dirs + [AlignUp(k.space.brk)])
    case MapOne(d, virt, phys, flags) => k.(space := MapPage(k.space, k.dirs[d], virt, phys, flags))
    case MapMany(d, virt, phys, count, flags) => k.(space := MapRange(k.space, k.dirs[d], virt, phys, count, flags))
    case CloneOf(d) => Machine(Clone(k.space, k.dirs[d]), k.start, k.dirs + [CloneRoot(k.space)])
  }

  /**
   * The call names an existing directory, its flags are low bits with PRESENT and no large-page bit, and memory
   * suffices.
   */
  predicate Legal(k: Machine, op: Op) {
    && ((op.MapOne? || op.MapMany? || op.CloneOf?) ==> op.dir < |k.dirs|)
    && ((op.MapOne? || op.MapMany?) ==> GoodFlags(op.flags))
    && Apply(k, op).space.Fits()
  }

  function Run(k: Machine, ops: seq<Op>): Machine
    requires LegalRun(k, ops)
    decreases |ops|
  {
    if ops == [] then k else Run(Apply(k, ops[0]), ops[1..])
  }

  predicate LegalRun(k: Machine, ops: seq<Op>)
    decreases |ops|
  {
    ops == [] || (Legal(k, ops[0]) && LegalRun(Apply(k, ops[0]), ops[1..]))
  }

  ghost predicate Owns(k: Machine, own: map<nat, Node>) {
    && Forest(k.space.ram, own, map[], k.start, k.space.brk)
    && forall x :: IsRoot(own, x) <==> x in k.dirs
  }

  /** The ownership forest exists, with exactly the directories as its roots. */
  ghost predicate Sound(k: Machine) {
    k.start <= k.space.brk && k.space.Fits() && exists own :: Owns(k, own)
  }

  lemma PlacedLater(m: seq<nat>, own: map<nat, Node>, lo: nat, hi: nat, hi': nat)
    requires Forest(m, own, map[], lo, hi) && hi <= hi'
    ensures Forest(m, own, map[], lo, hi')
  {
  }

  lemma NewRootEffect(s: Space, own: map<nat, Node>, lo: nat) returns (own': map<nat, Node>)
    requires Forest(s.ram, own, map[], lo, s.brk) && lo <= s.brk && NewRoot(s).Fits()
    ensures var s', p := NewRoot(s), AlignUp(s.brk);
      && p !in own && own' == own[p := Root] && Forest(s'.ram, own', map[], lo, s'.brk)
      && SameWalks(s.ram, s'.ram, own) && Bare(s'.ram, p)
  {
    var s', p := NewRoot(s), AlignUp(s.brk);
    AddRoot(s.ram, own, lo, s.brk, p);
    own' := own[p := Root];
    forall x, j | 0 <= j < 512 && (x in own || x == p)
      ensures Load(s'.ram, x, j) == if x == p then 0 else Load(s.ram, x, j)
    {
      LoadZero(s.ram, p, x, j);
    }
    forall r, v: nat | IsRoot(own, r) ensures Translate(s'.ram, r, v) == Translate(s.ram, r, v) {
      WalkAgree(s.ram, s'.ram, own, map[], lo, s.brk, 4, r, v);
    }
    forall v: nat, k | 1 <= k <= 3 ensures !Reaches(s'.ram, p, v, k) {
      assert Load(s'.ram, p, Index(v, 4)) == 0;
    }
  }

  /** An operation that maps into a directory other than r leaves what r means alone. */
  predicate Spares(k: Machine, op: Op, r: nat) {
    (op.MapOne? || op.MapMany?) ==> op.dir < |k.dirs| && k.dirs[op.dir] != r
  }

  ghost predicate SameMeaning(m: seq<nat>, m': seq<nat>, r: nat) {
    forall v: nat {:trigger Translate(m', r, v)} :: Translate(m', r, v) == Translate(m, r, v)
  }

  lemma ApplyEffect(k: Machine, op: Op, own: map<nat, Node>) returns (own': map<nat, Node>)
    requires k.start <= k.space.brk && Owns(k, own) && Legal(k, op)
    ensures k.start <= Apply(k, op).space.brk && Owns(Apply(k, op), own')
    ensures forall r :: r in k.dirs && Spares(k, op, r) ==> SameMeaning(k.space.ram, Apply(k, op).space.ram, r)
    ensures k.dirs <= Apply(k, op).dirs
  {
    hide MapPage, MapRange, CopyLevel, Forest;
    var s, k' := k.space, Apply(k, op);
    match op
    case Kmalloc(size) =>
      own' := own;
      PlacedLater(s.ram, own, k.start, s.brk, k'.space.brk);
    case KmallocAligned(size) =>
      own' := own;
      PlacedLater(s.ram, own, k.start, s.brk, k'.space.brk);
    case NewDirectory =>
      own' := NewRootEffect(s, own, k.start);
    case MapOne(d, virt, phys, flags) =>
      own' := MapPageEffect(s, own, k.start, k.dirs[d], virt, phys, flags);
    case MapMany(d, virt, phys, count, flags) =>
      own' := MapRangeEffect(s, own, k.start, k.dirs[d], virt, phys, count, flags);
    case CloneOf(d) =>
      own' := CloneEffect(s, own, k.start, k.dirs[d]);
  }

  /** The forest survives every run over any number of directories. */
  lemma {:induction false} RunSound(k: Machine, ops: seq<Op>)
    requires Sound(k) && LegalRun(k, ops)
    ensures Sound(Run(k, ops))
    ensures k.dirs <= Run(k, ops).dirs
    decreases |ops|
  {
    if ops != [] {
      StepSound(k, ops[0]);
      RunSound(Apply(k, ops[0]), ops[1..]);
    }
  }

  lemma StepSound(k: Machine, op: Op)
    requires Sound(k) && Legal(k, op)
    ensures Sound(Apply(k, op)) && k.dirs <= Apply(k, op).dirs
    ensures forall r :: r in k.dirs && Spares(k, op, r) ==> SameMeaning(k.space.ram, Apply(k, op).space.ram, r)
  {
    var own :| Owns(k, own);
    var own' := ApplyEffect(k, op, own);
  }

  /** What every operation does, address by address, to every directory, and to the memory handed out. */
  ghost predicate Means(k: Machine, op: Op, k': Machine) {
    && k'.start == k.start && k'.space.brk >= k.space.brk
    && match op
       case Kmalloc(size) => k'.space == Space(k.space.ram, k.space.brk + size) && k'.dirs == k.dirs
       case KmallocAligned(size) =>
         && k'.space.ram == k.space.ram && k'.dirs == k.dirs
         && exists a: nat :: a % 0x1000 == 0 && k.space.brk <= a < k.space.brk + 0x1000 && k'.space.brk == a + size
       case NewDirectory =>
         && |k'.dirs| == |k.dirs| + 1 && k'.dirs[..|k.dirs|] == k.dirs && k'.dirs[|k.dirs|] !in k.dirs
         && (forall r :: r in k.dirs ==> SameMeaning(k.space.ram, k'.space.ram, r))
         && forall v: nat :: Translate(k'.space.ram, k'.dirs[|k.dirs|], v) == Fault
       case MapOne(d, virt, phys, flags) =>
         && k'.dirs == k.dirs && d < |k.dirs|
         && forall r, v: nat {:trigger Translate(k'.space.ram, r, v)} :: r in k.dirs ==>
              Translate(k'.space.ram, r, v) ==
                if r == k.dirs[d] && v / 4096 % PAGES == virt / 4096 % PAGES then Leaf(Or(phys, flags))
                else Translate(k.space.ram, r, v)
       case MapMany(d, virt, phys, n, flags) =>
         && k'.dirs == k.dirs && d < |k.dirs|
         && forall r, v: nat {:trigger Translate(k'.space.ram, r, v)} :: r in k.dirs ==>
              Translate(k'.space.ram, r, v) ==
                if r == k.dirs[d] && Distance(v, virt) < n
                then Leaf(Or(Advance(phys, LastVisit(Distance(v, virt), n)), flags))
                else Translate(k.space.ram, r, v)
       case CloneOf(d) =>
         && |k'.dirs| == |k.dirs| + 1 && k'.dirs[..|k.dirs|] == k.dirs && k'.dirs[|k.dirs|] !in k.dirs && d < |k.dirs|
         && (forall r :: r in k.dirs ==> SameMeaning(k.space.ram, k'.space.ram, r))
         && forall v: nat :: Translate(k'.space.ram, k'.dirs[|k.dirs|], v) == Translate(k.space.ram, k.dirs[d], v)
  }

  lemma StepMeans(k: Machine, op: Op)
    requires Sound(k) && Legal(k, op)
    ensures Means(k, op, Apply(k, op))
  {
    match op
    case Kmalloc(size) =>
    case KmallocAligned(size) =>
      hide AlignUp;
      assert AlignUp(k.space.brk) % 0x1000 == 0 && k.space.brk <= AlignUp(k.space.brk) < k.space.brk + 0x1000;
    case NewDirectory => NewDirectoryMeans(k);
    case MapOne(d, virt, phys, flags) => MapMeans(k, op);
    case MapMany(d, virt, phys, count, flags) => MapMeans(k, op);
    case CloneOf(d) =>
      hide CopyLevel, Sound, WalkFrom;
      StepSound(k, op);
      CloneMeans(k, d);
  }

  lemma MapMeans(k: Machine, op: Op)
    requires Sound(k) && Legal(k, op) && (op.MapOne? || op.MapMany?)
    ensures Means(k, op, Apply(k, op))
  {
    var own :| Owns(k, own);
    hide MapPage, MapRange, Forest, WalkFrom, Advance, Distance, LastVisit;
    match op
    case MapOne(d, virt, phys, flags) =>
      var own' := MapPageEffect(k.space, own, k.start, k.dirs[d], virt, phys, flags);
    case MapMany(d, virt, phys, count, flags) =>
      var own' := MapRangeEffect(k.space, own, k.start, k.dirs[d], virt, phys, count, flags);
  }

  lemma NewDirectoryMeans(k: Machine)
    requires Sound(k) && Legal(k, Op.NewDirectory)
    ensures Means(k, Op.NewDirectory, Apply(k, Op.NewDirectory))
  {
    var own :| Owns(k, own);
    hide Forest, WalkFrom, AlignUp, ZeroTable;
    var s, s' := k.space, NewRoot(k.space);
    var own' := NewRootEffect(s, own, k.start);
    BareFaults(s'.ram, own', k.start, s'.brk, AlignUp(s.brk));
    assert forall x :: x in k.dirs ==> IsRoot(own, x);
  }

  predicate SparesRun(k: Machine, ops: seq<Op>, r: nat)
    requires LegalRun(k, ops)
    decreases |ops|
  {
    ops == [] || (Spares(k, ops[0], r) && SparesRun(Apply(k, ops[0]), ops[1..], r))
  }

  /** A run that never maps into directory r leaves every translation of r alone. */
  lemma {:induction false} RunSpares(k: Machine, ops: seq<Op>, r: nat)
    requires Sound(k) && LegalRun(k, ops) && r in k.dirs && SparesRun(k, ops, r)
    ensures SameMeaning(k.space.ram, Run(k, ops).space.ram, r)
    decreases |ops|
  {
    if ops != [] {
      StepSound(k, ops[0]);
      RunSpares(Apply(k, ops[0]), ops[1..], r);
    }
  }

  /**
   * A clone means what its source meant, and the two are independent: whichever of them a later run does not map into
   * still means, address by address, what the source meant when it was cloned.
   */
  lemma CloneSeparates(k: Machine, d: nat, ops: seq<Op>)
    requires Sound(k) && Legal(k, CloneOf(d)) && LegalRun(Apply(k, CloneOf(d)), ops)
    ensures var k1, src, copy := Apply(k, CloneOf(d)), k.dirs[d], CloneRoot(k.space);
      var k2 := Run(k1, ops);
      && copy !in k.dirs
      && (SparesRun(k1, ops, copy) ==>
        forall v: nat :: Translate(k2.space.ram, copy, v) == Translate(k.space.ram, src, v))
      && (SparesRun(k1, ops, src) ==>
        forall v: nat :: Translate(k2.space.ram, src, v) == Translate(k.space.ram, src, v))
  {
    hide CopyLevel, WalkFrom, Sound;
    var k1, src, copy := Apply(k, CloneOf(d)), k.dirs[d], CloneRoot(k.space);
    StepSound(k, CloneOf(d));
    CloneMeans(k, d);
    assert k1.dirs[|k.dirs|] == copy && k1.dirs[d] == src;
    if SparesRun(k1, ops, copy) { RunSpares(k1, ops, copy); }
    if SparesRun(k1, ops, src) { RunSpares(k1, ops, src); }
  }

  lemma CloneMeans(k: Machine, d: nat)
    requires Sound(k) && Legal(k, CloneOf(d))
    ensures CloneRoot(k.space) !in k.dirs
    ensures var m, m' := k.space.ram, Clone(k.space, k.dirs[d]).ram;
      forall v: nat :: Translate(m', CloneRoot(k.space), v) == Translate(m, k.dirs[d], v)
  {
    var own :| Owns(k, own);
    var own' := CloneEffect(k.space, own, k.start, k.dirs[d]);
  }

  /** Table t has level l and is reached from some directory. */
  ghost predicate Reached(k: Machine, t: nat, l: nat) {
    1 <= l <= 4 && exists r, v: nat :: r in k.dirs && TableFrom(k.space.ram, 4, r, v, l) == Some(t)
  }

  /**
   * Where a table lies and how it is found: it is page-aligned inside what the allocator has given out, it has one
   * level, and all walks that pass through it start at one directory and agree on every index above it.
   */
  lemma TableOnce(k: Machine, r: nat, v: nat, i: nat, q: nat, u: nat, j: nat)
    requires Sound(k) && r in k.dirs && q in k.dirs && 1 <= i <= 4 && 1 <= j <= 4
    requires TableFrom(k.space.ram, 4, r, v, i).Some? &&
      TableFrom(k.space.ram, 4, r, v, i) == TableFrom(k.space.ram, 4, q, u, j)
    ensures r == q && i == j && (i < 4 ==> Prefix(v, i + 1) == Prefix(u, i + 1))
    ensures var t := TableFrom(k.space.ram, 4, r, v, i).value;
      t % TABLE == 0 && k.start <= t && t + TABLE <= k.space.brk
  {
    var own :| Owns(k, own);
    assert IsRoot(own, r) && IsRoot(own, q);
    TableOwned(k.space.ram, own, k.start, k.space.brk, 4, r, v, i);
    TableOwned(k.space.ram, own, k.start, k.space.brk, 4, q, u, j);
    PathUnique(k.space.ram, own, k.start, k.space.brk, r, v, q, u, i);
  }

  /** No two present entries of reached tables point to the same table, and none points back to a directory. */
  lemma OneEntry(k: Machine, t: nat, l: nat, i: nat, t': nat, l': nat, i': nat)
    requires Sound(k) && Reached(k, t, l) && Reached(k, t', l') && l > 1 && l' > 1 && i < 512 && i' < 512
    requires Present(Load(k.space.ram, t, i)) && Present(Load(k.space.ram, t', i'))
    requires Frame(Load(k.space.ram, t, i)) == Frame(Load(k.space.ram, t', i'))
    ensures t == t' && i == i' && l == l' && Frame(Load(k.space.ram, t, i)) !in k.dirs
  {
    var own :| Owns(k, own);
    ReachedOwned(k, own, t, l);
    ReachedOwned(k, own, t', l');
    assert !IsRoot(own, Frame(Load(k.space.ram, t, i)));
  }

  lemma ReachedOwned(k: Machine, own: map<nat, Node>, t: nat, l: nat)
    requires Owns(k, own) && Reached(k, t, l)
    ensures t in own && Level(own[t]) == l
  {
    var r, v: nat :| r in k.dirs && TableFrom(k.space.ram, 4, r, v, l) == Some(t);
    assert IsRoot(own, r);
    TableOwned(k.space.ram, own, k.start, k.space.brk, 4, r, v, l);
  }

  /** The boot state: no directory yet. */
  lemma BootSound(ram: seq<nat>, start: nat)
    requires start <= 8 * |ram| && start <= PHYSICAL
    ensures Sound(Machine(Space(ram, start), start, []))
  {
    assert Owns(Machine(Space(ram, start), start, []), map[]);
  }
}
