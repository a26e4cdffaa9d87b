/** `searchDirectory` and the path walk of `open`. */
module FatDirectories {
  import opened Readings
  import opened Fat
  import opened FatFiles
  import opened FatNames

  const NOT_FOUND: nat := 0xFFF8
  const DELETED: char := 229 as char
  /** Links from here on end a chain. */
  const LAST: nat := 0xFFF7

  /** What the search looks at in a 32-byte directory entry. */
  datatype EntryFields = Entry(name: string, cluster: nat, size: nat)

  type Entry = e: EntryFields | |e.name| == 11 witness Entry("           ", 0, 0)

  function NameBytes(data: seq<Byte>, at: nat, n: nat): (r: string)
    requires at + n <= |data|
    ensures |r| == n && forall k :: 0 <= k < n ==> r[k] == data[at + k] as char
  {
    if n == 0 then "" else NameBytes(data, at, n - 1) + [data[at + n - 1] as char]
  }

  function EntryAt(data: seq<Byte>, i: nat): Entry
    requires 32 * i + 32 <= |data|
  {
    var at := 32 * i;
    var size: nat := data[at + 28] + 0x100 * (data[at + 29] as nat) + 0x1_0000 * (data[at + 30] as nat)
      + 0x100_0000 * (data[at + 31] as nat);
    Entry(NameBytes(data, at, 11), (data[at + 26] as nat) + 0x100 * (data[at + 27] as nat), size)
  }

  /** The entries of a directory cluster: 16 to a sector. */
  function EntriesOf(v: Volume, disk: seq<Byte>, cluster: nat): (r: seq<Entry>)
    requires v.Valid()
    ensures |r| == 16 * v.sectorsPerCluster
  {
    seq(16 * v.sectorsPerCluster, i requires 0 <= i < 16 * v.sectorsPerCluster => EntryAt(Cluster(v, disk, cluster), i))
  }

  // ----- one cluster ---------------------------------------------------------

  /** What a scan of entries comes to: a hit, the terminator, or neither. */
  datatype Scan = Hit(cluster: nat, size: nat) | End | More

  /** The inner loop; `skip` says whether deleted entries are passed over. */
  function ScanEntries(es: seq<Entry>, fatname: string, skip: bool): Scan
    decreases |es|
  {
    if es == [] then More
    else if es[0].name[0] == '\0' then End
    else if (skip && es[0].name[0] == DELETED) || es[0].name != fatname then ScanEntries(es[1..], fatname, skip)
    else Hit(es[0].cluster, es[0].size)
  }

  predicate LiveMatch(e: Entry, fatname: string) { e.name[0] != DELETED && e.name == fatname }

  /** The first n entries neither end the directory nor match. */
  predicate Passed(es: seq<Entry>, fatname: string, n: nat)
    requires n <= |es|
  {
    forall k :: 0 <= k < n ==> es[k].name[0] != '\0' && !LiveMatch(es[k], fatname)
  }

  /** Entry i is where the scan must stop, with this result. */
  predicate StopsAt(es: seq<Entry>, fatname: string, i: nat, r: Scan) {
    && i < |es| && Passed(es, fatname, i)
    && if es[i].name[0] == '\0' then r == End else LiveMatch(es[i], fatname) && r == Hit(es[i].cluster, es[i].size)
  }

  /** The scan stops at the first entry that is the terminator or a live entry of the name, and only there. */
  lemma {:induction false} ScanExact(es: seq<Entry>, fatname: string)
    ensures var r := ScanEntries(es, fatname, true);
      if r == More then Passed(es, fatname, |es|) else exists i: nat :: StopsAt(es, fatname, i, r)
    decreases |es|
  {
    if es != [] {
      var r, rest := ScanEntries(es, fatname, true), es[1..];
      if es[0].name[0] == '\0' || LiveMatch(es[0], fatname) {
        assert StopsAt(es, fatname, 0, r);
      } else {
        ScanExact(rest, fatname);
        PassedCons(es, fatname);
        if r != More {
          var i: nat :| StopsAt(rest, fatname, i, r);
          assert es[i + 1] == rest[i];
          assert StopsAt(es, fatname, i + 1, r);
        }
      }
    }
  }

  lemma PassedCons(es: seq<Entry>, fatname: string)
    requires es != [] && es[0].name[0] != '\0' && !LiveMatch(es[0], fatname)
    ensures forall n :: 0 <= n < |es| ==> (Passed(es[1..], fatname, n) ==> Passed(es, fatname, n + 1))
  {
    forall n | 0 <= n < |es| && Passed(es[1..], fatname, n) ensures Passed(es, fatname, n + 1) {
      assert forall k :: 0 < k <= n ==> es[k] == es[1..][k - 1];
    }
  }

  lemma {:induction false} ScanConcat(x: seq<Entry>, y: seq<Entry>, fatname: string, skip: bool)
    ensures ScanEntries(x + y, fatname, skip) ==
      if ScanEntries(x, fatname, skip) == More then ScanEntries(y, fatname, skip) else ScanEntries(x, fatname, skip)
    decreases |x|
  {
    if x == [] {
      assert x + y == y;
    } else {
      assert (x + y)[1..] == x[1..] + y;
      ScanConcat(x[1..], y, fatname, skip);
    }
  }

  // ----- a directory ---------------------------------------------------------

  /** The clusters that a directory search starting at c goes through. */
  predicate DirChain(v: Volume, disk: seq<Byte>, c: nat, chain: seq<nat>)
    decreases |chain|
  {
    if c >= LAST then chain == []
    else chain != [] && chain[0] == c && DirChain(v, disk, FatEntry(v, disk, c), chain[1..])
  }

  function AllEntries(v: Volume, disk: seq<Byte>, chain: seq<nat>): seq<Entry>
    requires v.Valid()
  {
    if chain == [] then [] else EntriesOf(v, disk, chain[0]) + AllEntries(v, disk, chain[1..])
  }

  /**
   * The slots that the search looks at in one cluster. As written it looks at 32 to a sector, twice what was read, so
   * the second half is whatever the fresh buffer held.
   */
  function Slots(text: Text, v: Volume, disk: seq<Byte>, c: nat, stale: seq<Entry>): seq<Entry>
    requires v.Valid()
  {
    EntriesOf(v, disk, c) + if text == Written then stale else []
  }

  /** As written a `char` is compared with 0xE5, which is never equal, so nothing is skipped. */
  function Skips(text: Text): bool { text == Corrected }

  /** What the search makes of cluster c. */
  function ScanCluster(text: Text, v: Volume, disk: seq<Byte>, c: nat, stale: seq<Entry>, fatname: string): Scan
    requires v.Valid()
  {
    ScanEntries(Slots(text, v, disk, c, stale), fatname, Skips(text))
  }

  /** `searchDirectory` over the clusters that it goes through. */
  function Search(text: Text, v: Volume, disk: seq<Byte>, chain: seq<nat>, stale: seq<Entry>, fatname: string): Scan
    requires v.Valid()
    decreases |chain|
  {
    if chain == [] then End
    else
      var r := ScanCluster(text, v, disk, chain[0], stale, fatname);
      if r == More then Search(text, v, disk, chain[1..], stale, fatname) else r
  }

  /** The search of a directory is one scan of all its entries, across clusters. */
  lemma {:induction false} SearchFlat(v: Volume, disk: seq<Byte>, chain: seq<nat>, stale: seq<Entry>, fatname: string)
    requires v.Valid()
    ensures var r := ScanEntries(AllEntries(v, disk, chain), fatname, true);
      Search(Corrected, v, disk, chain, stale, fatname) == if r == More then End else r
    decreases |chain|
  {
    if chain != [] {
      SearchFlat(v, disk, chain[1..], stale, fatname);
      ScanConcat(EntriesOf(v, disk, chain[0]), AllEntries(v, disk, chain[1..]), fatname, true);
      assert Slots(Corrected, v, disk, chain[0], stale) == EntriesOf(v, disk, chain[0]);
    }
  }

  /** Not skipping deleted entries makes a difference exactly for names that start with the deletion mark. */
  lemma SkipExact(fatname: string)
    requires |fatname| == 11 && fatname[0] != '\0'
    ensures (forall es :: ScanEntries(es, fatname, false) == ScanEntries(es, fatname, true)) <==> fatname[0] != DELETED
  {
    if fatname[0] == DELETED {
      var es: seq<Entry> := [Entry(fatname, 0, 0)];
      assert ScanEntries(es[1..], fatname, true) == More;
      assert ScanEntries(es, fatname, false) != ScanEntries(es, fatname, true);
    } else {
      forall es: seq<Entry> ensures ScanEntries(es, fatname, false) == ScanEntries(es, fatname, true) {
        SkipNothing(es, fatname);
      }
    }
  }

  lemma {:induction false} SkipNothing(es: seq<Entry>, fatname: string)
    requires |fatname| == 11 && fatname[0] != DELETED
    ensures ScanEntries(es, fatname, false) == ScanEntries(es, fatname, true)
    decreases |es|
  {
    if es != [] { SkipNothing(es[1..], fatname); }
  }

  // ----- when a search returns -------------------------------------------------

  /** The clusters that the search from c goes through until it stops. */
  predicate SearchPath(text: Text, v: Volume, disk: seq<Byte>, c: nat, stale: seq<Entry>, fatname: string,
          path: seq<nat>)
    requires v.Valid()
    decreases |path|
  {
    if c >= LAST then path == []
    else
      && path != [] && path[0] == c
      && if ScanCluster(text, v, disk, c, stale, fatname) != More then |path| == 1
         else SearchPath(text, v, disk, FatEntry(v, disk, c), stale, fatname, path[1..])
  }

  /** The cluster that k links lead to. */
  function Linked(v: Volume, disk: seq<Byte>, c: nat, k: nat): nat
    decreases k
  {
    if k == 0 then c else Linked(v, disk, FatEntry(v, disk, c), k - 1)
  }

  /** At the cluster that k links lead to the search has something to stop for. */
  predicate StopsAfter(text: Text, v: Volume, disk: seq<Byte>, c: nat, stale: seq<Entry>, fatname: string, k: nat)
    requires v.Valid()
  {
    var d := Linked(v, disk, c, k);
    d >= LAST || ScanCluster(text, v, disk, d, stale, fatname) != More
  }

  /** What the search comes to; None when it does not return. */
  ghost function Outcome(text: Text, v: Volume, disk: seq<Byte>, c: nat, stale: seq<Entry>, fatname: string)
    : Option<Scan>
    requires v.Valid()
  {
    if path :| SearchPath(text, v, disk, c, stale, fatname, path) then Some(Search(text, v, disk, path, stale, fatname))
    else None
  }

  lemma {:induction false} PathUnique(text: Text, v: Volume, disk: seq<Byte>, c: nat, stale: seq<Entry>,
          fatname: string, x: seq<nat>, y: seq<nat>)
    requires v.Valid() && SearchPath(text, v, disk, c, stale, fatname, x)
    requires SearchPath(text, v, disk, c, stale, fatname, y)
    ensures x == y
    decreases |x|
  {
    if c < LAST {
      if ScanCluster(text, v, disk, c, stale, fatname) == More {
        PathUnique(text, v, disk, FatEntry(v, disk, c), stale, fatname, x[1..], y[1..]);
      }
      assert x == [c] + x[1..] && y == [c] + y[1..];
    }
  }

  lemma OutcomeIs(text: Text, v: Volume, disk: seq<Byte>, c: nat, stale: seq<Entry>, fatname: string, path: seq<nat>)
    requires v.Valid() && SearchPath(text, v, disk, c, stale, fatname, path)
    ensures Outcome(text, v, disk, c, stale, fatname) == Some(Search(text, v, disk, path, stale, fatname))
  {
    hide SearchPath, Search;
    forall x | SearchPath(text, v, disk, c, stale, fatname, x) ensures x == path {
      PathUnique(text, v, disk, c, stale, fatname, x, path);
    }
  }

  /** A search returns exactly when some cluster that it can reach ends the chain or settles the scan. */
  lemma ReturnsExact(text: Text, v: Volume, disk: seq<Byte>, c: nat, stale: seq<Entry>, fatname: string)
    requires v.Valid()
    ensures Outcome(text, v, disk, c, stale, fatname).Some? <==>
      exists k: nat :: StopsAfter(text, v, disk, c, stale, fatname, k)
  {
    hide SearchPath, Search, StopsAfter;
    if path :| SearchPath(text, v, disk, c, stale, fatname, path) {
      var k := PathStops(text, v, disk, c, stale, fatname, path);
    }
    if k: nat :| StopsAfter(text, v, disk, c, stale, fatname, k) {
      var path := StopPath(text, v, disk, c, stale, fatname, k);
    }
  }

  lemma {:induction false} PathStops(text: Text, v: Volume, disk: seq<Byte>, c: nat, stale: seq<Entry>,
          fatname: string, path: seq<nat>)
    returns (k: nat)
    requires v.Valid() && SearchPath(text, v, disk, c, stale, fatname, path)
    ensures StopsAfter(text, v, disk, c, stale, fatname, k)
    decreases |path|
  {
    if c < LAST && ScanCluster(text, v, disk, c, stale, fatname) == More {
      k := PathStops(text, v, disk, FatEntry(v, disk, c), stale, fatname, path[1..]);
      k := k + 1;
    } else {
      k := 0;
    }
  }

  lemma {:induction false} StopPath(text: Text, v: Volume, disk: seq<Byte>, c: nat, stale: seq<Entry>,
          fatname: string, k: nat)
    returns (path: seq<nat>)
    requires v.Valid() && StopsAfter(text, v, disk, c, stale, fatname, k)
    ensures SearchPath(text, v, disk, c, stale, fatname, path)
    decreases k
  {
    if c >= LAST {
      path := [];
    } else if ScanCluster(text, v, disk, c, stale, fatname) != More {
      path := [c];
    } else {
      var rest := StopPath(text, v, disk, FatEntry(v, disk, c), stale, fatname, k - 1);
      path := [c] + rest;
      assert path[1..] == rest;
    }
  }

  lemma {:induction false} PathTail(text: Text, v: Volume, disk: seq<Byte>, c: nat, stale: seq<Entry>,
          fatname: string, path: seq<nat>, i: nat)
    requires v.Valid() && SearchPath(text, v, disk, c, stale, fatname, path) && i < |path|
    ensures path[i] < LAST && SearchPath(text, v, disk, path[i], stale, fatname, path[i..])
    decreases i
  {
    if i > 0 {
      PathTail(text, v, disk, FatEntry(v, disk, c), stale, fatname, path[1..], i - 1);
      assert path[1..][i - 1..] == path[i..];
    } else {
      assert path[0..] == path;
    }
  }

  /** A search that returns sees no cluster twice, and so not more clusters than there are. */
  lemma PathBounded(text: Text, v: Volume, disk: seq<Byte>, c: nat, stale: seq<Entry>, fatname: string,
          path: seq<nat>)
    requires v.Valid() && SearchPath(text, v, disk, c, stale, fatname, path)
    ensures (forall i, j :: 0 <= i < j < |path| ==> path[i] != path[j]) && |path| <= LAST
  {
    hide SearchPath;
    forall i, j | 0 <= i < j < |path| ensures path[i] != path[j] {
      PathTail(text, v, disk, c, stale, fatname, path, i);
      PathTail(text, v, disk, c, stale, fatname, path, j);
      if path[i] == path[j] {
        PathUnique(text, v, disk, path[i], stale, fatname, path[i..], path[j..]);
      }
    }
    forall i | 0 <= i < |path| ensures path[i] < LAST {
      PathTail(text, v, disk, c, stale, fatname, path, i);
    }
    Pigeonhole(path, LAST);
  }

  lemma {:induction false} Pigeonhole(s: seq<nat>, n: nat)
    requires (forall i :: 0 <= i < |s| ==> s[i] < n) && forall i, j :: 0 <= i < j < |s| ==> s[i] != s[j]
    ensures |s| <= n
    decreases n
  {
    if s != [] {
      assert s[0] < n;
      if k :| 0 <= k < |s| && s[k] == n - 1 {
        Pigeonhole(s[..k] + s[k + 1..], n - 1);
      } else {
        Pigeonhole(s, n - 1);
      }
    }
  }

  /** In a directory whose chain ends the search returns with what a scan of all its entries gives. */
  lemma {:induction false} EndingSearch(v: Volume, disk: seq<Byte>, c: nat, stale: seq<Entry>, fatname: string,
          chain: seq<nat>)
    returns (path: seq<nat>)
    requires v.Valid() && DirChain(v, disk, c, chain)
    ensures SearchPath(Corrected, v, disk, c, stale, fatname, path)
    ensures Search(Corrected, v, disk, path, stale, fatname) == Search(Corrected, v, disk, chain, stale, fatname)
    decreases |chain|
  {
    if c >= LAST {
      path := [];
    } else if ScanCluster(Corrected, v, disk, c, stale, fatname) != More {
      path := [c];
    } else {
      var rest := EndingSearch(v, disk, FatEntry(v, disk, c), stale, fatname, chain[1..]);
      path := [c] + rest;
      assert path[1..] == rest;
    }
  }

  lemma EndingOutcome(v: Volume, disk: seq<Byte>, c: nat, stale: seq<Entry>, fatname: string, chain: seq<nat>)
    requires v.Valid() && DirChain(v, disk, c, chain)
    ensures var r := ScanEntries(AllEntries(v, disk, chain), fatname, true);
      Outcome(Corrected, v, disk, c, stale, fatname) == Some(if r == More then End else r)
  {
    var path := EndingSearch(v, disk, c, stale, fatname, chain);
    OutcomeIs(Corrected, v, disk, c, stale, fatname, path);
    SearchFlat(v, disk, chain, stale, fatname);
  }

  /** A cluster that is its own successor: the search returns exactly when the cluster itself settles it. */
  lemma CyclicSearch(v: Volume, disk: seq<Byte>, c: nat, stale: seq<Entry>, fatname: string)
    requires v.Valid() && c < LAST && FatEntry(v, disk, c) == c
    ensures Outcome(Corrected, v, disk, c, stale, fatname).Some? <==>
      ScanEntries(EntriesOf(v, disk, c), fatname, true) != More
    ensures forall chain :: !DirChain(v, disk, c, chain)
  {
    hide ScanEntries;
    assert Slots(Corrected, v, disk, c, stale) == EntriesOf(v, disk, c);
    ReturnsExact(Corrected, v, disk, c, stale, fatname);
    forall k: nat ensures Linked(v, disk, c, k) == c {
      SelfLinked(v, disk, c, k);
    }
    if ScanEntries(EntriesOf(v, disk, c), fatname, true) != More {
      assert StopsAfter(Corrected, v, disk, c, stale, fatname, 0);
    }
    forall chain ensures !DirChain(v, disk, c, chain) {
      NoEnd(v, disk, c, chain);
    }
  }

  lemma {:induction false} SelfLinked(v: Volume, disk: seq<Byte>, c: nat, k: nat)
    requires FatEntry(v, disk, c) == c
    ensures Linked(v, disk, c, k) == c
  {
    if k > 0 { SelfLinked(v, disk, c, k - 1); }
  }

  lemma {:induction false} NoEnd(v: Volume, disk: seq<Byte>, c: nat, chain: seq<nat>)
    requires c < LAST && FatEntry(v, disk, c) == c
    ensures !DirChain(v, disk, c, chain)
    decreases |chain|
  {
    if chain != [] { NoEnd(v, disk, c, chain[1..]); }
  }

  // ----- the search as written -------------------------------------------------

  /** The first cluster settles the search, and not by a deleted entry. */
  predicate Decisive(v: Volume, disk: seq<Byte>, c: nat, fatname: string)
    requires v.Valid() && |fatname| == 11
  {
    c >= LAST ||
    (var r := ScanEntries(EntriesOf(v, disk, c), fatname, false); r == End || (r.Hit? && fatname[0] != DELETED))
  }

  /** The written search is right, whatever its buffer held, exactly when the first cluster settles it. */
  lemma WrittenSearchExact(v: Volume, disk: seq<Byte>, c: nat, fatname: string)
    requires v.Valid() && |fatname| == 11 && fatname[0] != '\0'
    ensures (forall stale: seq<Entry> :: |stale| == 16 * v.sectorsPerCluster ==>
        Outcome(Written, v, disk, c, stale, fatname) == Outcome(Corrected, v, disk, c, stale, fatname))
      <==> Decisive(v, disk, c, fatname)
  {
    hide Outcome;
    forall stale: seq<Entry> | Decisive(v, disk, c, fatname)
      ensures Outcome(Written, v, disk, c, stale, fatname) == Outcome(Corrected, v, disk, c, stale, fatname)
    {
      WrittenDecisive(v, disk, c, stale, fatname);
    }
    if !Decisive(v, disk, c, fatname) {
      var stale := Misleading(v, disk, c, fatname);
    }
  }

  /** A scan that skips nothing and ends at the terminator has met no entry of the name. */
  lemma {:induction false} EndEither(es: seq<Entry>, fatname: string)
    requires ScanEntries(es, fatname, false) == End
    ensures ScanEntries(es, fatname, true) == End
    decreases |es|
  {
    if es[0].name[0] != '\0' { EndEither(es[1..], fatname); }
  }

  lemma WrittenDecisive(v: Volume, disk: seq<Byte>, c: nat, stale: seq<Entry>, fatname: string)
    requires v.Valid() && |fatname| == 11 && Decisive(v, disk, c, fatname)
    ensures Outcome(Written, v, disk, c, stale, fatname) == Outcome(Corrected, v, disk, c, stale, fatname)
    ensures Outcome(Corrected, v, disk, c, stale, fatname).Some?
  {
    hide EntriesOf;
    if c >= LAST {
      OutcomeIs(Written, v, disk, c, stale, fatname, []);
      OutcomeIs(Corrected, v, disk, c, stale, fatname, []);
    } else {
      var es := EntriesOf(v, disk, c);
      if ScanEntries(es, fatname, false) == End { EndEither(es, fatname); } else { SkipNothing(es, fatname); }
      ScanConcat(es, stale, fatname, false);
      assert Slots(Corrected, v, disk, c, stale) == es;
      OutcomeIs(Written, v, disk, c, stale, fatname, [c]);
      OutcomeIs(Corrected, v, disk, c, stale, fatname, [c]);
    }
  }

  /** Names that start with the deletion mark are never found. */
  lemma {:induction false} DeletedNever(es: seq<Entry>, fatname: string)
    requires |fatname| == 11 && fatname[0] == DELETED
    ensures !ScanEntries(es, fatname, true).Hit?
    decreases |es|
  {
    if es != [] { DeletedNever(es[1..], fatname); }
  }

  /** Leftover entries that make the written search return something else. */
  lemma Misleading(v: Volume, disk: seq<Byte>, c: nat, fatname: string) returns (stale: seq<Entry>)
    requires v.Valid() && |fatname| == 11 && fatname[0] != '\0' && !Decisive(v, disk, c, fatname)
    ensures |stale| == 16 * v.sectorsPerCluster
    ensures Outcome(Written, v, disk, c, stale, fatname) != Outcome(Corrected, v, disk, c, stale, fatname)
  {
    hide EntriesOf, Outcome;
    var es, right := EntriesOf(v, disk, c), Outcome(Corrected, v, disk, c, [], fatname);
    var e: Entry := Entry(fatname, if right.Some? && right.value.Hit? then right.value.cluster + 1 else 0, 0);
    stale := seq(16 * v.sectorsPerCluster, _ => e);
    StaleUnseen(v, disk, c, stale, fatname);
    ScanConcat(es, stale, fatname, false);
    assert stale[0] == e && ScanEntries(stale, fatname, false) == Hit(e.cluster, 0);
    OutcomeIs(Written, v, disk, c, stale, fatname, [c]);
    if ScanEntries(es, fatname, false) != More {
      DeletedLost(v, disk, c, stale, fatname);
    }
  }

  /** The corrected search does not depend on what its buffer held. */
  lemma StaleUnseen(v: Volume, disk: seq<Byte>, c: nat, stale: seq<Entry>, fatname: string)
    requires v.Valid()
    ensures Outcome(Corrected, v, disk, c, stale, fatname) == Outcome(Corrected, v, disk, c, [], fatname)
  {
    hide SearchPath, Search;
    if path :| SearchPath(Corrected, v, disk, c, stale, fatname, path) {
      PathUnseen(v, disk, c, stale, [], fatname, path);
      OutcomeIs(Corrected, v, disk, c, stale, fatname, path);
      OutcomeIs(Corrected, v, disk, c, [], fatname, path);
    } else if path :| SearchPath(Corrected, v, disk, c, [], fatname, path) {
      PathUnseen(v, disk, c, [], stale, fatname, path);
    }
  }

  lemma {:induction false} PathUnseen(v: Volume, disk: seq<Byte>, c: nat, x: seq<Entry>, y: seq<Entry>,
          fatname: string, path: seq<nat>)
    requires v.Valid() && SearchPath(Corrected, v, disk, c, x, fatname, path)
    ensures SearchPath(Corrected, v, disk, c, y, fatname, path)
    ensures Search(Corrected, v, disk, path, x, fatname) == Search(Corrected, v, disk, path, y, fatname)
    decreases |path|
  {
    hide EntriesOf, ScanEntries;
    if c < LAST {
      assert Slots(Corrected, v, disk, c, x) == Slots(Corrected, v, disk, c, y);
      if ScanCluster(Corrected, v, disk, c, x, fatname) == More {
        PathUnseen(v, disk, FatEntry(v, disk, c), x, y, fatname, path[1..]);
      }
    }
  }

  lemma DeletedLost(v: Volume, disk: seq<Byte>, c: nat, stale: seq<Entry>, fatname: string)
    requires v.Valid() && |fatname| == 11 && fatname[0] == DELETED
    ensures var r := Outcome(Corrected, v, disk, c, stale, fatname); r.Some? ==> !r.value.Hit?
  {
    hide SearchPath;
    if path :| SearchPath(Corrected, v, disk, c, stale, fatname, path) {
      OutcomeIs(Corrected, v, disk, c, stale, fatname, path);
      SearchFlat(v, disk, path, stale, fatname);
      DeletedNever(AllEntries(v, disk, path), fatname);
    }
  }

  /** A one-sector root full of other files: leftovers in the buffer can make the written search find one more. */
  lemma WrittenSearchFails() returns (disk: seq<Byte>, stale: seq<Entry>)
    ensures var v := Volume(1, 1, 1, 4, 2);
      && v.Valid() && |disk| == 8192 && DirChain(v, disk, 1, [1]) && |stale| == 16
      && Outcome(Corrected, v, disk, 1, stale, "BBBBBBBBBBB") == Some(End)
      && Outcome(Written, v, disk, 1, stale, "BBBBBBBBBBB") != Some(End)
  {
    var v, fatname := Volume(1, 1, 1, 4, 2), "BBBBBBBBBBB";
    disk := seq(8192, i => if 514 <= i < 516 then 255 else 65);
    assert FatEntry(v, disk, 1) == 0xFFFF;
    FullOfOthers(v, disk, fatname);
    var es := EntriesOf(v, disk, 1);
    stale := Misleading(v, disk, 1, fatname);
    assert AllEntries(v, disk, [1]) == es + AllEntries(v, disk, []) == es;
    EndingOutcome(v, disk, 1, stale, fatname, [1]);
  }

  lemma FullOfOthers(v: Volume, disk: seq<Byte>, fatname: string)
    requires v == Volume(1, 1, 1, 4, 2) && fatname == "BBBBBBBBBBB" && |disk| == 8192
    requires forall i :: 1024 <= i < 8192 ==> disk[i] == 65
    ensures forall skip :: ScanEntries(EntriesOf(v, disk, 1), fatname, skip) == More
  {
    var es := EntriesOf(v, disk, 1);
    forall i | 0 <= i < |es| ensures es[i].name[0] == 'A' {
    }
    forall skip ensures ScanEntries(es, fatname, skip) == More {
      OtherEntries(es, fatname, skip);
    }
  }

  lemma {:induction false} OtherEntries(es: seq<Entry>, fatname: string, skip: bool)
    requires fatname == "BBBBBBBBBBB" && forall i :: 0 <= i < |es| ==> es[i].name[0] == 'A'
    ensures ScanEntries(es, fatname, skip) == More
    decreases |es|
  {
    if es != [] { OtherEntries(es[1..], fatname, skip); }
  }

  // ----- paths ---------------------------------------------------------------

  /** The position of the first '/' at or after the start, or the length. */
  function SlashIndex(path: string): (k: nat)
    ensures k <= |path| && (k < |path| ==> path[k] == '/') && forall i :: 0 <= i < k ==> path[i] != '/'
  {
    if path == "" || path[0] == '/' then 0 else 1 + SlashIndex(path[1..])
  }

  /** The components between slashes, empty ones included. */
  function Components(path: string): seq<string>
    decreases |path|
  {
    var k := SlashIndex(path);
    if k == |path| then [path] else [path[..k]] + Components(path[k + 1..])
  }

  /** What `open` carries along: the current cluster and the last size that a search stored. */
  datatype Position = Position(cluster: nat, size: nat)

  /** One step of the walk: a failed search gives the not-found cluster and leaves the size. */
  function Step(p: Position, r: Scan): Position {
    if r.Hit? then Position(r.cluster, r.size) else p.(cluster := NOT_FOUND)
  }

  lemma {:induction false} ChainUnique(v: Volume, disk: seq<Byte>, c: nat, x: seq<nat>, y: seq<nat>)
    requires DirChain(v, disk, c, x) && DirChain(v, disk, c, y)
    ensures x == y
    decreases |x|
  {
    if c < LAST {
      ChainUnique(v, disk, FatEntry(v, disk, c), x[1..], y[1..]);
      assert x == [c] + x[1..] && y == [c] + y[1..];
    }
  }

  /** Resolving a path is a fold of directory lookups over its components. */
  ghost function Resolve(v: Volume, disk: seq<Byte>, p: Position, names: seq<string>): Position
    requires v.Valid()
    decreases |names|
  {
    if names == [] then p
    else Resolve(v, disk, Lookup(v, disk, p, names[0]), names[1..])
  }

  /** Looking one name up in the directory at p: the first live match before the terminator, across all clusters. */
  ghost function Lookup(v: Volume, disk: seq<Byte>, p: Position, name: string): Position
    requires v.Valid()
  {
    match Outcome(Corrected, v, disk, p.cluster, [], ToFat(name))
    case Some(r) => Step(p, r)
    case None => p
  }

  // ----- the name buffer of `open` -------------------------------------------

  /**
   * The directory name that `open` builds from a component. As written the 13-byte buffer is cleared only up to its
   * 11th byte: byte 11 keeps what was there, and a component of more than 11 characters makes the length of the
   * clearing wrap.
   */
  function BuildName(text: Text, name: string, left: char): Option<string> {
    if text == Corrected || |name| <= 10 then Some(ToFat(name))
    else if |name| == 11 then Some(ToFat(if left == '\0' then name else name + [left]))
    else None
  }

  /** As written a component is converted properly exactly when it leaves no doubt about byte 11. */
  predicate NameSafe(name: string) {
    |name| <= 10 || (|name| == 11 && BaseLength(name, 8) < 8)
  }

  lemma WrittenNameExact(name: string)
    ensures (forall left: char :: BuildName(Written, name, left) == Some(ToFat(name))) <==> NameSafe(name)
  {
    if |name| == 11 {
      var b := BaseLength(name, 8);
      forall left: char | b < 8 ensures ToFat(name + [left]) == ToFat(name) {
        BasePrefix(name, left, 8);
        assert (name + [left])[..b] == name[..b];
        assert Cut((name + [left])[b + 1..], 3) == Cut(name[b + 1..], 3);
      }
      if b == 8 {
        BasePrefix(name, 'X', 8);
        LastExtension(name, 'X');
        assert BuildName(Written, name, 'X') != Some(ToFat(name));
      } else {
        assert forall left: char :: BuildName(Written, name, left) == Some(ToFat(name));
      }
    } else if |name| > 11 {
      assert BuildName(Written, name, 'X') == None;
    }
  }

  lemma {:induction false} BasePrefix(name: string, left: char, max: nat)
    requires |name| >= max || BaseLength(name, max) < |name|
    ensures BaseLength(name + [left], max) == BaseLength(name, max)
    decreases |name|
  {
    if max != 0 && name != "" && name[0] != '.' {
      assert (name + [left])[1..] == name[1..] + [left];
      BasePrefix(name[1..], left, max - 1);
    }
  }

  lemma LastExtension(name: string, left: char)
    requires |name| == 11 && BaseLength(name, 8) == 8 && BaseLength(name + [left], 8) == 8 && left != ' '
    ensures ToFat(name + [left])[10] == left && ToFat(name)[10] == ' '
  {
    var long := name + [left];
    assert |Cut(name[9..], 3)| == 2;
    assert Cut(long[9..], 3) == long[9..] && long[9..][2] == left;
    assert Pad(long[..8], 8) == long[..8] && Pad(long[9..], 3) == long[9..];
  }

  /** A full 8.3 name, as long as the format allows, already overruns the written clearing. */
  lemma WrittenNameFails()
    ensures ShortName("ABCDEFGH.TXT") && BuildName(Written, "ABCDEFGH.TXT", '\0') == None
  {
    hide BaseLength, ToFat;
    BaseExact("ABCDEFGH", ".TXT", 12);
    assert "ABCDEFGH" + ".TXT" == "ABCDEFGH.TXT";
  }

  // ----- the driver ----------------------------------------------------------

  method ScanSlots(slots: seq<Entry>, fatname: string, skip: bool) returns (r: Scan)
    ensures r == ScanEntries(slots, fatname, skip)
  {
    assert slots[0..] == slots;
    for i := 0 to |slots|
      invariant ScanEntries(slots[i..], fatname, skip) == ScanEntries(slots, fatname, skip)
    {
      assert slots[i..][1..] == slots[i + 1..];
      if slots[i].name[0] == '\0' {
        return End;
      }
      if skip && slots[i].name[0] == DELETED {
        continue;
      }
      if slots[i].name == fatname {
        return Hit(slots[i].cluster, slots[i].size);
      }
    }
    return More;
  }

  /** `searchDirectory`; `stale` is what the second half of its buffer happens to hold. */
  method SearchDirectory(fs: Fat16, text: Text, cluster: nat, fatname: string, stale: seq<Entry>) returns (r: Scan)
    requires fs.v.Valid() && Outcome(text, fs.v, fs.disk, cluster, stale, fatname).Some?
    ensures Outcome(text, fs.v, fs.disk, cluster, stale, fatname) == Some(r)
  {
    hide Outcome;
    ghost var path := PathOf(text, fs.v, fs.disk, cluster, stale, fatname);
    ghost var rest := path;
    OutcomeIs(text, fs.v, fs.disk, cluster, stale, fatname, path);
    var c: nat := cluster;
    while c < LAST
      invariant SearchPath(text, fs.v, fs.disk, c, stale, fatname, rest)
      invariant Search(text, fs.v, fs.disk, rest, stale, fatname) == Search(text, fs.v, fs.disk, path, stale, fatname)
      decreases |rest|
    {
      r := ScanSlots(Slots(text, fs.v, fs.disk, c, stale), fatname, Skips(text));
      if r != More {
        return;
      }
      c := fs.ReadFAT(c);
      rest := rest[1..];
    }
    return End;
  }

  lemma PathOf(text: Text, v: Volume, disk: seq<Byte>, c: nat, stale: seq<Entry>, fatname: string)
    returns (path: seq<nat>)
    requires v.Valid() && Outcome(text, v, disk, c, stale, fatname).Some?
    ensures SearchPath(text, v, disk, c, stale, fatname, path)
  {
    path :| SearchPath(text, v, disk, c, stale, fatname, path);
  }

  /** Every search on the way returns, and as written every name and every search on the way is one that works. */
  ghost predicate Walkable(text: Text, v: Volume, disk: seq<Byte>, p: Position, names: seq<string>)
    requires v.Valid()
    decreases |names|
  {
    names == [] ||
    (Returns(v, disk, p, names[0]) && Workable(text, v, disk, p, names[0]) &&
      Walkable(text, v, disk, Lookup(v, disk, p, names[0]), names[1..]))
  }

  /** The search for the component returns; see `ReturnsExact`. */
  ghost predicate Returns(v: Volume, disk: seq<Byte>, p: Position, name: string)
    requires v.Valid()
  {
    Outcome(Corrected, v, disk, p.cluster, [], ToFat(name)).Some?
  }

  ghost predicate Workable(text: Text, v: Volume, disk: seq<Byte>, p: Position, name: string)
    requires v.Valid()
  {
    text == Written ==> NameSafe(name) && Decisive(v, disk, p.cluster, ToFat(name))
  }

  method OpenComponent(fs: Fat16, text: Text, p: Position, name: string, left: char, stale: seq<Entry>)
    returns (r: Position)
    requires fs.v.Valid() && Returns(fs.v, fs.disk, p, name) && Workable(text, fs.v, fs.disk, p, name)
    ensures r == Lookup(fs.v, fs.disk, p, name)
  {
    hide Outcome, Decisive;
    WrittenNameExact(name);
    var fatname := BuildName(text, name, left);
    assert fatname == Some(ToFat(name));
    StaleUnseen(fs.v, fs.disk, p.cluster, stale, fatname.value);
    if text == Written { WrittenDecisive(fs.v, fs.disk, p.cluster, stale, fatname.value); }
    var found := SearchDirectory(fs, text, p.cluster, fatname.value, stale);
    r := Step(p, found);
  }

  lemma ComponentsAt(path: string, j: nat, i: nat)
    requires j <= i <= |path| && forall k :: j <= k < i ==> path[k] != '/'
    ensures i < |path| && path[i] == '/' ==> Components(path[j..]) == [path[j..i]] + Components(path[i + 1..])
    ensures i == |path| ==> Components(path[j..]) == [path[j..i]]
  {
    var s := path[j..];
    if i == |path| || path[i] == '/' {
      SlashAt(path, j, i);
      assert s[..i - j] == path[j..i];
      if i < |path| { assert s[i - j + 1..] == path[i + 1..]; } else { assert s == path[j..i]; }
    }
  }

  lemma SlashAt(path: string, j: nat, i: nat)
    requires j <= i <= |path| && (forall k :: j <= k < i ==> path[k] != '/') && (i == |path| || path[i] == '/')
    ensures SlashIndex(path[j..]) == i - j
  {
    hide SlashIndex;
    var s, k := path[j..], SlashIndex(path[j..]);
    assert forall n :: 0 <= n < i - j ==> s[n] == path[j + n];
    assert i < |path| ==> s[i - j] == path[i];
  }

  lemma WalkCons(text: Text, v: Volume, disk: seq<Byte>, p: Position, name: string, rest: seq<string>)
    requires v.Valid() && Walkable(text, v, disk, p, [name] + rest)
    ensures Returns(v, disk, p, name) && Workable(text, v, disk, p, name) &&
      Walkable(text, v, disk, Lookup(v, disk, p, name), rest)
    ensures Resolve(v, disk, p, [name] + rest) == Resolve(v, disk, Lookup(v, disk, p, name), rest)
  {
    assert ([name] + rest)[1..] == rest;
  }

  /** `open`, which starts at the root directory: the walk is `Resolve` over the components of the path. */
  method Open(fs: Fat16, text: Text, fullPath: string, left: char, stale: seq<Entry>, lastSize: nat)
    returns (p: Position)
    requires fs.v.Valid()
    requires Walkable(text, fs.v, fs.disk, Position(1, lastSize), Components(Relative(fullPath)))
    ensures p == Resolve(fs.v, fs.disk, Position(1, lastSize), Components(Relative(fullPath)))
  {
    var path := Relative(fullPath);
    hide Components, Resolve, Walkable, Workable, Lookup, Returns, Relative;
    ghost var names := Components(path);
    p := Position(1, lastSize);
    var i, j := 0, 0;
    assert path[0..] == path;
    while i < |path|
      invariant j <= i <= |path| && forall k :: j <= k < i ==> path[k] != '/'
      invariant Walkable(text, fs.v, fs.disk, p, Components(path[j..]))
      invariant Resolve(fs.v, fs.disk, p, Components(path[j..])) == Resolve(fs.v, fs.disk, Position(1, lastSize), names)
    {
      if path[i] == '/' {
        ComponentsAt(path, j, i);
        WalkCons(text, fs.v, fs.disk, p, path[j..i], Components(path[i + 1..]));
        p := OpenComponent(fs, text, p, path[j..i], left, stale);
        j := i + 1;
      }
      i := i + 1;
    }
    ComponentsAt(path, j, i);
    assert [path[j..i]] == [path[j..i]] + [];
    WalkCons(text, fs.v, fs.disk, p, path[j..i], []);
    p := OpenComponent(fs, text, p, path[j..i], left, stale);
    ResolveNone(fs.v, fs.disk, p);
  }

  lemma ResolveNone(v: Volume, disk: seq<Byte>, p: Position)
    requires v.Valid()
    ensures Resolve(v, disk, p, []) == p
  {
  }

  function Relative(path: string): string {
    if path != "" && path[0] == '/' then path[1..] else path
  }
}
