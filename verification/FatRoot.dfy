/** The root directory, which `searchDirectory` reads as one cluster. */
module FatRoot {
  import opened Readings
  import opened Fat
  import opened FatDirectories

  /** The first n entries of the root region. */
  function RootEntries(v: Volume, disk: seq<Byte>, n: nat): (r: seq<Entry>)
    requires v.Valid()
    ensures |r| == n
  {
    seq(n, i requires 0 <= i < n => EntryAt(ReadBytes(disk, ClusterOffset(v, 1), 32 * n), i))
  }

  /** The entries that the search sees before it follows FAT entry 1. */
  function Seen(v: Volume): nat { 16 * v.sectorsPerCluster }

  predicate HasTerminator(es: seq<Entry>) { exists i :: 0 <= i < |es| && es[i].name[0] == '\0' }

  /** A name that a file can have. */
  predicate Proper(fatname: string) { |fatname| == 11 && fatname[0] != '\0' && fatname[0] != DELETED }

  /** What a directory with these entries has to say about a name. */
  function Found(es: seq<Entry>, fatname: string): Scan {
    var r := ScanEntries(es, fatname, true); if r == More then End else r
  }

  lemma SameEntry(x: seq<Byte>, y: seq<Byte>, i: nat)
    requires 32 * i + 32 <= |x| && 32 * i + 32 <= |y| && forall k :: 32 * i <= k < 32 * i + 32 ==> x[k] == y[k]
    ensures EntryAt(x, i) == EntryAt(y, i)
  {
    assert NameBytes(x, 32 * i, 11) == NameBytes(y, 32 * i, 11);
  }

  /** The search sees a prefix of the root, or the root and what lies behind it. */
  lemma RootPrefix(v: Volume, disk: seq<Byte>, n: nat, m: nat)
    requires v.Valid() && n <= m
    ensures RootEntries(v, disk, m)[..n] == RootEntries(v, disk, n)
    ensures RootEntries(v, disk, Seen(v)) == EntriesOf(v, disk, 1)
  {
    forall i | 0 <= i < n ensures RootEntries(v, disk, m)[i] == RootEntries(v, disk, n)[i] {
      SameEntry(ReadBytes(disk, ClusterOffset(v, 1), 32 * m), ReadBytes(disk, ClusterOffset(v, 1), 32 * n), i);
    }
    forall i | 0 <= i < Seen(v) ensures RootEntries(v, disk, Seen(v))[i] == EntriesOf(v, disk, 1)[i] {
      SameEntry(ReadBytes(disk, ClusterOffset(v, 1), 32 * Seen(v)), Cluster(v, disk, 1), i);
    }
  }

  lemma {:induction false} TerminatorStops(es: seq<Entry>, fatname: string)
    requires HasTerminator(es)
    ensures ScanEntries(es, fatname, true) != More
    decreases |es|
  {
    if es[0].name[0] != '\0' {
      var i :| 0 <= i < |es| && es[i].name[0] == '\0';
      assert es[1..][i - 1] == es[i];
      TerminatorStops(es[1..], fatname);
    }
  }

  // ----- a name that is not there --------------------------------------------

  /** The i-th of 16384 different names. */
  function Code(i: nat): (name: string)
    requires i < 16384
    ensures |name| == 11
  {
    [(1 + i / 128) as char, (1 + i % 128) as char] + "AAAAAAAAA"
  }

  function IndexOf(es: seq<Entry>, fatname: string): (k: nat)
    ensures k <= |es| && (k < |es| ==> es[k].name == fatname)
    ensures k == |es| ==> forall i :: 0 <= i < |es| ==> es[i].name != fatname
  {
    if es == [] || es[0].name == fatname then 0 else 1 + IndexOf(es[1..], fatname)
  }

  lemma FreshName(es: seq<Entry>) returns (fatname: string)
    requires |es| < 16384
    ensures Proper(fatname) && forall i :: 0 <= i < |es| ==> es[i].name != fatname
  {
    if i: nat :| i <= |es| && IndexOf(es, Code(i)) == |es| {
      fatname := Code(i);
    } else {
      var s: seq<nat> := seq(|es| + 1, i requires 0 <= i <= |es| => IndexOf(es, Code(i)));
      forall i, j | 0 <= i < j < |s| ensures s[i] != s[j] {
        CodesDiffer(i, j);
      }
      Pigeonhole(s, |es|);
      assert false;
    }
  }

  lemma CodesDiffer(i: nat, j: nat)
    requires i < j < 16384
    ensures Code(i) != Code(j)
  {
    assert Code(i)[0] == Code(j)[0] && Code(i)[1] == Code(j)[1] ==> i == j;
  }

  lemma {:induction false} NotThere(es: seq<Entry>, fatname: string)
    requires !HasTerminator(es) && forall i :: 0 <= i < |es| ==> es[i].name != fatname
    ensures ScanEntries(es, fatname, true) == More
    decreases |es|
  {
    if es != [] {
      assert es[0].name[0] != '\0';
      forall i | 0 <= i < |es[1..]| ensures es[1..][i].name[0] != '\0' && es[1..][i].name != fatname {
        assert es[1..][i] == es[i + 1];
      }
      NotThere(es[1..], fatname);
    }
  }

  // ----- how much of the root is searched ------------------------------------

  /** k further entries, whatever they are, make no difference to any name. */
  ghost predicate Settled(es: seq<Entry>, k: nat) {
    forall more: seq<Entry>, fatname: string :: |more| == k && Proper(fatname) ==>
      Found(es + more, fatname) == Found(es, fatname)
  }

  /** That is so exactly when there are none or the terminator comes before them. */
  lemma SettledExact(es: seq<Entry>, k: nat)
    requires |es| < 16384
    ensures Settled(es, k) <==> k == 0 || HasTerminator(es)
  {
    if k == 0 || HasTerminator(es) {
      forall more: seq<Entry>, fatname: string | |more| == k && Proper(fatname)
        ensures Found(es + more, fatname) == Found(es, fatname)
      {
        if k == 0 { assert es + more == es; } else { TerminatorStops(es, fatname); }
        ScanConcat(es, more, fatname, true);
      }
    } else {
      var fatname := FreshName(es);
      var more: seq<Entry> := seq(k, _ => Entry(fatname, 0, 0));
      NotThere(es, fatname);
      ScanConcat(es, more, fatname, true);
      assert more[0].name == fatname;
      assert Found(es + more, fatname) != Found(es, fatname);
    }
  }

  /** The entries that both the root of n entries and the search have. */
  function Common(v: Volume, n: nat): nat { if n <= Seen(v) then n else Seen(v) }

  /** The entries that only one of them has. */
  function Extra(v: Volume, n: nat): nat { if n <= Seen(v) then Seen(v) - n else n - Seen(v) }

  /**
   * The search finds in a root of n entries what is there, whatever the entries that it leaves out or reads behind the
   * root are, exactly when there are 16 to each sector of a cluster or the terminator comes earlier.
   */
  lemma RootSearchExact(v: Volume, disk: seq<Byte>, n: nat)
    requires v.Valid() && v.sectorsPerCluster <= 255
    ensures var common := RootEntries(v, disk, Common(v, n));
      && common <= RootEntries(v, disk, n) && common <= EntriesOf(v, disk, 1)
      && |common| + Extra(v, n) == (if n <= Seen(v) then |EntriesOf(v, disk, 1)| else n)
      && (Settled(common, Extra(v, n)) <==> n == Seen(v) || HasTerminator(common))
  {
    hide RootEntries, Settled, HasTerminator;
    RootPrefix(v, disk, Common(v, n), n);
    RootPrefix(v, disk, Common(v, n), Seen(v));
    SettledExact(RootEntries(v, disk, Common(v, n)), Extra(v, n));
  }

  /** Then, when FAT entry 1 ends the chain, a lookup in the root gives what its n entries say. */
  lemma RootOutcome(v: Volume, disk: seq<Byte>, n: nat, stale: seq<Entry>, fatname: string)
    requires v.Valid() && FatEntry(v, disk, 1) >= LAST && Proper(fatname)
    requires n == Seen(v) || HasTerminator(RootEntries(v, disk, Common(v, n)))
    ensures Outcome(Corrected, v, disk, 1, stale, fatname) == Some(Found(RootEntries(v, disk, n), fatname))
  {
    var common, seen, root := RootEntries(v, disk, Common(v, n)), EntriesOf(v, disk, 1), RootEntries(v, disk, n);
    RootPrefix(v, disk, Common(v, n), n);
    RootPrefix(v, disk, Common(v, n), Seen(v));
    assert DirChain(v, disk, 1, [1]);
    EndingOutcome(v, disk, 1, stale, fatname, [1]);
    assert AllEntries(v, disk, [1]) == seen + AllEntries(v, disk, []) == seen;
    if n != Seen(v) {
      TerminatorStops(common, fatname);
      assert root == common + root[|common|..] && seen == common + seen[|common|..];
      ScanConcat(common, root[|common|..], fatname, true);
      ScanConcat(common, seen[|common|..], fatname, true);
    }
  }

  /** With one sector to a cluster the 17th file of the root is not found. */
  lemma RootSearchFails() returns (disk: seq<Byte>)
    ensures var v, fatname := Volume(1, 1, 1, 4, 2), "BBBBBBBBBBB";
      && v.Valid() && FatEntry(v, disk, 1) >= LAST && Found(RootEntries(v, disk, 17), fatname).Hit?
      && Outcome(Corrected, v, disk, 1, [], fatname) == Some(End)
  {
    var v, fatname := Volume(1, 1, 1, 4, 2), "BBBBBBBBBBB";
    disk := seq(8192, i => if 514 <= i < 516 then 255 else if 2048 <= i < 2059 then 66 else 65);
    assert FatEntry(v, disk, 1) == 0xFFFF;
    var seen, root := EntriesOf(v, disk, 1), RootEntries(v, disk, 17);
    SixteenOthers(v, disk);
    Seventeenth(v, disk);
    hide EntriesOf, RootEntries, FatEntry;
    RootPrefix(v, disk, 16, 17);
    assert DirChain(v, disk, 1, [1]);
    EndingOutcome(v, disk, 1, [], fatname, [1]);
    assert AllEntries(v, disk, [1]) == seen + AllEntries(v, disk, []) == seen;
    assert root == seen + [root[16]];
    ScanConcat(seen, [root[16]], fatname, true);
  }

  lemma SixteenOthers(v: Volume, disk: seq<Byte>)
    requires v == Volume(1, 1, 1, 4, 2) && |disk| == 8192 && forall k :: 1536 <= k < 2048 ==> disk[k] == 65
    ensures ScanEntries(EntriesOf(v, disk, 1), "BBBBBBBBBBB", true) == More
  {
    var seen := EntriesOf(v, disk, 1);
    forall i | 0 <= i < 16 ensures seen[i].name[0] == 'A' {
      assert Cluster(v, disk, 1)[32 * i] == 65;
    }
    OtherEntries(seen, "BBBBBBBBBBB", true);
  }

  lemma Seventeenth(v: Volume, disk: seq<Byte>)
    requires v == Volume(1, 1, 1, 4, 2) && |disk| == 8192 && forall k :: 2048 <= k < 2059 ==> disk[k] == 66
    ensures RootEntries(v, disk, 17)[16].name == "BBBBBBBBBBB"
  {
    var data := ReadBytes(disk, ClusterOffset(v, 1), 32 * 17);
    assert NameBytes(data, 512, 11) == "BBBBBBBBBBB" by {
      assert forall k :: 512 <= k < 523 ==> data[k] == 66;
    }
  }
}
