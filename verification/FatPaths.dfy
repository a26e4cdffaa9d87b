/** What `open` and `searchDirectory` find, in terms of the bytes on the disk. */
module FatPaths {
  import opened Readings
  import opened Fat
  import opened FatFiles
  import opened FatNames
  import opened FatDirectories

  // ----- slots ---------------------------------------------------------------

  /** The byte offset of the 32-byte slot i of cluster c. */
  function SlotOffset(v: Volume, c: nat, i: nat): nat
    requires v.Valid()
  {
    ClusterOffset(v, c) + 32 * i
  }

  /** The slot at byte offset o is not deleted and its first eleven bytes are the name. */
  predicate LiveSlot(disk: seq<Byte>, o: nat, fatname: string) {
    && |fatname| == 11 && ReadByte(disk, o) != 0xE5
    && forall k :: 0 <= k < 11 ==> ReadByte(disk, o + k) == fatname[k] as nat
  }

  /** The slot at o ends the directory or is the one that is looked for. */
  predicate StopSlot(disk: seq<Byte>, o: nat, fatname: string) {
    ReadByte(disk, o) == 0 || LiveSlot(disk, o, fatname)
  }

  /** Slot i is the first of cluster c that does so. */
  predicate FirstSlot(v: Volume, disk: seq<Byte>, c: nat, fatname: string, i: nat)
    requires v.Valid()
  {
    && i < 16 * v.sectorsPerCluster && StopSlot(disk, SlotOffset(v, c, i), fatname)
    && forall k :: 0 <= k < i ==> !StopSlot(disk, SlotOffset(v, c, k), fatname)
  }

  /** The first cluster that the slot at o names, and its size, low bytes first. */
  function SlotCluster(disk: seq<Byte>, o: nat): nat { ReadByte(disk, o + 26) + 256 * ReadByte(disk, o + 27) }

  function SlotSize(disk: seq<Byte>, o: nat): nat {
    ReadByte(disk, o + 28) + 256 * ReadByte(disk, o + 29) + 65536 * ReadByte(disk, o + 30)
    + 16777216 * ReadByte(disk, o + 31)
  }

  lemma SlotName(v: Volume, disk: seq<Byte>, c: nat, i: nat, k: nat)
    requires v.Valid() && i < 16 * v.sectorsPerCluster && k < 11
    ensures EntriesOf(v, disk, c)[i].name[k] == ReadByte(disk, SlotOffset(v, c, i) + k) as char
  {
    var data := Cluster(v, disk, c);
    assert 32 * i + k < |data|;
    assert NameBytes(data, 32 * i, 11)[k] == data[32 * i + k] as char;
  }

  lemma SlotFields(v: Volume, disk: seq<Byte>, c: nat, i: nat)
    requires v.Valid() && i < 16 * v.sectorsPerCluster
    ensures EntriesOf(v, disk, c)[i].cluster == SlotCluster(disk, SlotOffset(v, c, i))
    ensures EntriesOf(v, disk, c)[i].size == SlotSize(disk, SlotOffset(v, c, i))
  {
    var data, at := Cluster(v, disk, c), 32 * i;
    assert at + 31 < |data|;
  }

  /** The tests on a slot are the tests of the search. */
  lemma SlotStops(v: Volume, disk: seq<Byte>, c: nat, fatname: string, i: nat)
    requires v.Valid() && |fatname| == 11 && i < 16 * v.sectorsPerCluster
    ensures var e, o := EntriesOf(v, disk, c)[i], SlotOffset(v, c, i);
      && (e.name[0] == '\0' <==> ReadByte(disk, o) == 0)
      && (LiveMatch(e, fatname) <==> LiveSlot(disk, o, fatname))
  {
    hide EntriesOf, ReadByte;
    var e := EntriesOf(v, disk, c)[i];
    forall k: nat | k < 11 ensures e.name[k] == ReadByte(disk, SlotOffset(v, c, i) + k) as char {
      SlotName(v, disk, c, i, k);
    }
    assert e.name == fatname <==> forall k: nat :: k < 11 ==> e.name[k] == fatname[k];
  }

  /** A scan is decided by the first entry that ends the directory or matches. */
  lemma {:induction false} ScanFirst(es: seq<Entry>, fatname: string, i: nat)
    requires i < |es| && Passed(es, fatname, i) && (es[i].name[0] == '\0' || LiveMatch(es[i], fatname))
    ensures ScanEntries(es, fatname, true) == if es[i].name[0] == '\0' then End else Hit(es[i].cluster, es[i].size)
    decreases i
  {
    if i > 0 {
      assert es[0].name[0] != '\0' && !LiveMatch(es[0], fatname);
      assert forall k :: 0 <= k < i ==> es[1..][k] == es[k + 1];
      ScanFirst(es[1..], fatname, i - 1);
    }
  }

  lemma {:induction false} ScanNone(es: seq<Entry>, fatname: string)
    requires Passed(es, fatname, |es|)
    ensures ScanEntries(es, fatname, true) == More
    decreases |es|
  {
    if es != [] {
      assert es[0].name[0] != '\0' && !LiveMatch(es[0], fatname);
      assert forall k :: 0 <= k < |es| - 1 ==> es[1..][k] == es[k + 1];
      ScanNone(es[1..], fatname);
    }
  }

  // ----- the search ----------------------------------------------------------

  /** The search stops at the first slot that ends the directory or has the name, and takes what the slot says. */
  lemma SearchBytes(v: Volume, disk: seq<Byte>, c: nat, stale: seq<Entry>, fatname: string, i: nat)
    requires v.Valid() && |fatname| == 11 && c < 0xFFF7 && FirstSlot(v, disk, c, fatname, i)
    ensures var o := SlotOffset(v, c, i);
      Outcome(Corrected, v, disk, c, stale, fatname) ==
        Some(if ReadByte(disk, o) == 0 then End else Hit(SlotCluster(disk, o), SlotSize(disk, o)))
  {
    var es := EntriesOf(v, disk, c);
    hide EntriesOf, LiveSlot, SlotOffset, Search;
    forall k | 0 <= k < i ensures es[k].name[0] != '\0' && !LiveMatch(es[k], fatname) {
      SlotStops(v, disk, c, fatname, k);
    }
    SlotStops(v, disk, c, fatname, i);
    SlotFields(v, disk, c, i);
    ScanFirst(es, fatname, i);
    OneCluster(v, disk, c, stale, fatname);
  }

  lemma OneCluster(v: Volume, disk: seq<Byte>, c: nat, stale: seq<Entry>, fatname: string)
    requires v.Valid() && c < 0xFFF7 && ScanEntries(EntriesOf(v, disk, c), fatname, true) != More
    ensures Outcome(Corrected, v, disk, c, stale, fatname) == Some(ScanEntries(EntriesOf(v, disk, c), fatname, true))
  {
    assert Slots(Corrected, v, disk, c, stale) == EntriesOf(v, disk, c);
    OutcomeIs(Corrected, v, disk, c, stale, fatname, [c]);
  }

  /** When no slot of the cluster does, it goes on in the cluster that the two bytes of the FAT entry name. */
  lemma SearchNext(v: Volume, disk: seq<Byte>, c: nat, stale: seq<Entry>, fatname: string)
    requires v.Valid() && |fatname| == 11 && c < 0xFFF7
    requires forall i :: 0 <= i < 16 * v.sectorsPerCluster ==> !StopSlot(disk, SlotOffset(v, c, i), fatname)
    ensures var o := v.fatOffset * 512 + 2 * c;
      Outcome(Corrected, v, disk, c, stale, fatname) ==
      Outcome(Corrected, v, disk, ReadByte(disk, o) + 256 * ReadByte(disk, o + 1), stale, fatname)
  {
    var es := EntriesOf(v, disk, c);
    EntryPlace(v, c);
    var o := v.fatOffset * 512 + 2 * c;
    assert FatEntry(v, disk, c) == ReadByte(disk, o) + 256 * ReadByte(disk, o + 1);
    hide EntriesOf, LiveSlot, SlotOffset, FatEntry;
    forall k | 0 <= k < |es| ensures es[k].name[0] != '\0' && !LiveMatch(es[k], fatname) {
      SlotStops(v, disk, c, fatname, k);
    }
    ScanNone(es, fatname);
    GoesOn(v, disk, c, stale, fatname);
  }

  lemma GoesOn(v: Volume, disk: seq<Byte>, c: nat, stale: seq<Entry>, fatname: string)
    requires v.Valid() && c < 0xFFF7 && ScanEntries(EntriesOf(v, disk, c), fatname, true) == More
    ensures Outcome(Corrected, v, disk, c, stale, fatname)
         == Outcome(Corrected, v, disk, FatEntry(v, disk, c), stale, fatname)
  {
    var d := FatEntry(v, disk, c);
    hide EntriesOf, ScanEntries, FatEntry;
    assert Slots(Corrected, v, disk, c, stale) == EntriesOf(v, disk, c);
    if path :| SearchPath(Corrected, v, disk, d, stale, fatname, path) {
      OutcomeIs(Corrected, v, disk, d, stale, fatname, path);
      assert ([c] + path)[1..] == path;
      OutcomeIs(Corrected, v, disk, c, stale, fatname, [c] + path);
    } else if path :| SearchPath(Corrected, v, disk, c, stale, fatname, path) {
      assert SearchPath(Corrected, v, disk, d, stale, fatname, path[1..]);
    }
  }

  /** From 0xFFF7 on there is nothing to search. */
  lemma SearchEnds(v: Volume, disk: seq<Byte>, c: nat, stale: seq<Entry>, fatname: string)
    requires v.Valid() && c >= 0xFFF7
    ensures Outcome(Corrected, v, disk, c, stale, fatname) == Some(End)
  {
    OutcomeIs(Corrected, v, disk, c, stale, fatname, []);
  }

  // ----- paths ---------------------------------------------------------------

  predicate NoSlash(s: string) { forall i :: 0 <= i < |s| ==> s[i] != '/' }

  function Join(names: seq<string>): string {
    if names == [] then "" else if |names| == 1 then names[0] else names[0] + "/" + Join(names[1..])
  }

  /** The components of a path are what slashes separate: put together with slashes they are the path again. */
  lemma {:induction false} ComponentsJoin(path: string)
    ensures Components(path) != [] && Join(Components(path)) == path
    ensures forall i :: 0 <= i < |Components(path)| ==> NoSlash(Components(path)[i])
    decreases |path|
  {
    hide SlashIndex, Join, NoSlash;
    var k := SlashIndex(path);
    var first := path[..k];
    assert NoSlash(first) by { BeforeSlash(path); }
    if k < |path| {
      var rest := Components(path[k + 1..]);
      ComponentsJoin(path[k + 1..]);
      assert Components(path) == [first] + rest;
      JoinCons(first, rest);
    } else {
      assert first == path && Components(path) == [first] + [];
      JoinCons(first, []);
    }
  }

  lemma BeforeSlash(path: string)
    ensures NoSlash(path[..SlashIndex(path)])
  {
  }

  lemma JoinCons(first: string, rest: seq<string>)
    ensures Join([first] + rest) == if rest == [] then first else first + "/" + Join(rest)
  {
    assert ([first] + rest)[1..] == rest;
  }

  /** And they are the only such strings. */
  lemma {:induction false} JoinComponents(names: seq<string>)
    requires names != [] && forall i :: 0 <= i < |names| ==> NoSlash(names[i])
    ensures Components(Join(names)) == names
    decreases |names|
  {
    if |names| > 1 {
      var n, rest := names[0], Join(names[1..]);
      JoinComponents(names[1..]);
      assert names == [n] + names[1..];
      FirstComponent(n, rest);
    } else {
      var n := names[0];
      assert names == [n];
      OnlyComponent(n);
    }
  }

  lemma FirstComponent(n: string, rest: string)
    requires NoSlash(n)
    ensures Components(n + "/" + rest) == [n] + Components(rest)
  {
    var path := n + "/" + rest;
    assert forall k :: 0 <= k < |n| ==> path[k] == n[k];
    assert path[|n|] == '/' && path[|n| + 1..] == rest && path[..|n|] == n;
    hide SlashIndex;
    assert SlashIndex(path) == |n|;
  }

  lemma OnlyComponent(n: string)
    requires NoSlash(n)
    ensures Components(n) == [n]
  {
    hide SlashIndex;
    assert SlashIndex(n) == |n|;
  }

  /** A leading slash makes no difference. */
  lemma LeadingSlash(path: string)
    requires path == "" || path[0] != '/'
    ensures Relative("/" + path) == path == Relative(path)
  {
    assert ("/" + path)[1..] == path;
  }

  /** What one component leads to: the cluster and size that its slot names, or a cluster that ends a chain. */
  function SlotPosition(disk: seq<Byte>, o: nat, p: Position): Position {
    if ReadByte(disk, o) == 0 then Position(0xFFF8, p.size) else Position(SlotCluster(disk, o), SlotSize(disk, o))
  }

  lemma LookupBytes(v: Volume, disk: seq<Byte>, p: Position, name: string, i: nat)
    requires v.Valid() && p.cluster < 0xFFF7 && FirstSlot(v, disk, p.cluster, ToFat(name), i)
    ensures Returns(v, disk, p, name)
    ensures Lookup(v, disk, p, name) == SlotPosition(disk, SlotOffset(v, p.cluster, i), p)
  {
    hide FirstSlot, SlotOffset, Outcome;
    SearchBytes(v, disk, p.cluster, [], ToFat(name), i);
  }

  /** From a cluster that ends a chain no component leads anywhere. */
  lemma LookupEnds(v: Volume, disk: seq<Byte>, p: Position, name: string)
    requires v.Valid() && p.cluster >= 0xFFF7
    ensures Returns(v, disk, p, name)
    ensures Lookup(v, disk, p, name).cluster >= 0xFFF7
  {
    hide Outcome;
    SearchEnds(v, disk, p.cluster, [], ToFat(name));
  }

  /** The path of a file in a directory of the root, with or without a leading slash. */
  function FilePath(slash: bool, dir: string, file: string): string {
    (if slash then "/" else "") + dir + "/" + file
  }

  /** Both names are found, or a name is missing and `missing` says so. */
  predicate FileBytes(v: Volume, disk: seq<Byte>, dir: string, file: string, i: nat, j: nat)
    requires v.Valid()
  {
    && FirstSlot(v, disk, 1, ToFat(dir), i)
    && var o := SlotOffset(v, 1, i);
      || ReadByte(disk, o) == 0 || SlotCluster(disk, o) >= 0xFFF7
      || FirstSlot(v, disk, SlotCluster(disk, o), ToFat(file), j)
  }

  /**
   * `open` on a path of two components: the slot of the directory in the root, the slot of the file in the cluster that
   * it names, and the cluster and size that this one names; when one is missing, a cluster that ends a chain.
   */
  method OpenFile(fs: Fat16, slash: bool, dir: string, file: string, left: char, stale: seq<Entry>, lastSize: nat,
          ghost i: nat, ghost j: nat)
    returns (p: Position)
    requires fs.v.Valid() && NoSlash(dir) && NoSlash(file) && (slash || dir != "")
    requires FileBytes(fs.v, fs.disk, dir, file, i, j)
    ensures var o := SlotOffset(fs.v, 1, i);
      if ReadByte(fs.disk, o) == 0 || SlotCluster(fs.disk, o) >= 0xFFF7 then p.cluster >= 0xFFF7
      else
        var q := SlotOffset(fs.v, SlotCluster(fs.disk, o), j);
        if ReadByte(fs.disk, q) == 0 then p.cluster >= 0xFFF7
        else p == Position(SlotCluster(fs.disk, q), SlotSize(fs.disk, q))
  {
    var path := FilePath(slash, dir, file);
    ghost var root := Position(1, lastSize);
    FileComponents(slash, dir, file);
    FileWalk(fs.v, fs.disk, root, dir, file, i, j);
    p := Open(fs, Corrected, path, left, stale, lastSize);
  }

  lemma FileComponents(slash: bool, dir: string, file: string)
    requires NoSlash(dir) && NoSlash(file) && (slash || dir != "")
    ensures Components(Relative(FilePath(slash, dir, file))) == [dir, file]
  {
    var path := dir + "/" + file;
    assert Relative(FilePath(slash, dir, file)) == path by {
      if slash {
        assert FilePath(slash, dir, file)[1..] == path;
      } else {
        assert FilePath(slash, dir, file) == path && path[0] == dir[0];
      }
    }
    assert [dir, file][1..] == [file];
    assert Join([dir, file]) == path;
    JoinComponents([dir, file]);
  }

  lemma FileWalk(v: Volume, disk: seq<Byte>, root: Position, dir: string, file: string, i: nat, j: nat)
    requires v.Valid() && root.cluster == 1 && FileBytes(v, disk, dir, file, i, j)
    ensures Walkable(Corrected, v, disk, root, [dir, file])
    ensures var o, p := SlotOffset(v, 1, i), Resolve(v, disk, root, [dir, file]);
      if ReadByte(disk, o) == 0 || SlotCluster(disk, o) >= 0xFFF7 then p.cluster >= 0xFFF7
      else
        var q := SlotOffset(v, SlotCluster(disk, o), j);
        if ReadByte(disk, q) == 0 then p.cluster >= 0xFFF7
        else p == Position(SlotCluster(disk, q), SlotSize(disk, q))
  {
    hide FirstSlot, SlotOffset, Lookup, Returns, SlotCluster, SlotSize;
    LookupBytes(v, disk, root, dir, i);
    var p := Lookup(v, disk, root, dir);
    if p.cluster >= 0xFFF7 { LookupEnds(v, disk, p, file); } else { LookupBytes(v, disk, p, file, j); }
    assert [dir, file][1..] == [file];
    ResolveTwo(v, disk, root, dir, file);
    assert Walkable(Corrected, v, disk, Lookup(v, disk, p, file), []);
    assert Walkable(Corrected, v, disk, p, [file]);
  }

  lemma ResolveTwo(v: Volume, disk: seq<Byte>, root: Position, dir: string, file: string)
    requires v.Valid()
    ensures Resolve(v, disk, root, [dir, file]) == Lookup(v, disk, Lookup(v, disk, root, dir), file)
  {
    hide Lookup;
    assert [dir, file][1..] == [file];
    var p := Lookup(v, disk, root, dir);
    assert Resolve(v, disk, p, [file]) == Resolve(v, disk, Lookup(v, disk, p, file), []);
    ResolveNone(v, disk, Lookup(v, disk, p, file));
  }
}
