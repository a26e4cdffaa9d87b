/** A FAT16 volume: where FAT entries and clusters lie on the disk, cluster chains, and the bytes of a file. */
module Fat {
  import opened Arith
  import opened Readings

  type Byte = b: nat | b < 256

  const SECTOR: nat := 512

  /** The fields that the constructor computes from the boot block, in sectors. */
  datatype Volume = Volume(sectorsPerCluster: nat, sectorsPerFAT: nat, fatOffset: nat, dataOffset: nat,
    rootOffset: nat) {
    /** Bytes per cluster. */
    function ClusterSize(): (s: nat)
      ensures sectorsPerCluster > 0 ==> s > 0
    {
      sectorsPerCluster * SECTOR
    }

    /** The FAT lies below the first data cluster. */
    predicate Valid() {
      sectorsPerCluster > 0 && dataOffset > 0 && fatOffset + sectorsPerFAT <= dataOffset + 2 * sectorsPerCluster - 1
    }
  }

  // ----- sectors ------------------------------------------------------------

  function ReadByte(disk: seq<Byte>, k: nat): Byte { if k < |disk| then disk[k] else 0 }

  /** n bytes from byte offset `from`. */
  function ReadBytes(disk: seq<Byte>, from: nat, n: nat): (r: seq<Byte>)
    ensures |r| == n && forall i :: 0 <= i < n ==> r[i] == ReadByte(disk, from + i)
  {
    if n == 0 then [] else ReadBytes(disk, from, n - 1) + [ReadByte(disk, from + n - 1)]
  }

  function WriteBytes(disk: seq<Byte>, from: nat, data: seq<Byte>): (r: seq<Byte>)
    ensures |r| == |disk|
    ensures forall k :: 0 <= k < |disk| ==> r[k] == if from <= k < from + |data| then data[k - from] else disk[k]
    decreases |data|
  {
    if data == [] then disk
    else
      var r := WriteBytes(disk, from, data[..|data| - 1]);
      if from + |data| - 1 < |disk| then r[from + |data| - 1 := data[|data| - 1]] else r
  }

  // ----- the allocation table -----------------------------------------------

  /** The byte offset of FAT entry e: 256 two-byte entries to a sector. */
  function EntryOffset(v: Volume, e: nat): nat { (v.fatOffset + e / 256) * SECTOR + 2 * (e % 256) }

  function FatEntry(v: Volume, disk: seq<Byte>, e: nat): nat {
    ReadByte(disk, EntryOffset(v, e)) + 256 * ReadByte(disk, EntryOffset(v, e) + 1)
  }

  lemma EntryPlace(v: Volume, e: nat)
    ensures EntryOffset(v, e) == v.fatOffset * SECTOR + 2 * e
  {
  }

  /** Which entry of its sector `writeFAT` changes. */
  function EntrySlot(text: Text, v: Volume, idx: nat): nat {
    if text == Corrected then idx % 256 else if v.sectorsPerFAT == 0 then 0 else idx % v.sectorsPerFAT
  }

  function PutEntry(text: Text, v: Volume, disk: seq<Byte>, idx: nat, entry: nat): seq<Byte>
    requires entry < 0x1_0000
  {
    WriteBytes(disk, (v.fatOffset + idx / 256) * SECTOR + 2 * EntrySlot(text, v, idx), [entry % 256, entry / 256])
  }

  /**
   * A changed entry reads back exactly when the slot is the entry's own, and then no other entry of the table
   * changes.
   */
  lemma PutEntryExact(text: Text, v: Volume, disk: seq<Byte>, idx: nat, entry: nat)
    requires entry < 0x1_0000 && EntryOffset(v, idx) + 1 < |disk| && FatEntry(v, disk, idx) != entry
    ensures FatEntry(v, PutEntry(text, v, disk, idx, entry), idx) == entry <==> EntrySlot(text, v, idx) == idx % 256
    ensures EntrySlot(text, v, idx) == idx % 256 ==>
      forall e: nat :: e != idx ==> FatEntry(v, PutEntry(text, v, disk, idx, entry), e) == FatEntry(v, disk, e)
  {
    forall e: nat ensures EntryOffset(v, e) == v.fatOffset * SECTOR + 2 * e {
      EntryPlace(v, e);
    }
  }

  /** The same for an entry whatever it held before. */
  lemma PutEntryOwn(text: Text, v: Volume, disk: seq<Byte>, idx: nat, entry: nat)
    requires entry < 0x1_0000 && EntryOffset(v, idx) + 1 < |disk| && EntrySlot(text, v, idx) == idx % 256
    ensures FatEntry(v, PutEntry(text, v, disk, idx, entry), idx) == entry
    ensures forall e: nat :: e != idx ==> FatEntry(v, PutEntry(text, v, disk, idx, entry), e) == FatEntry(v, disk, e)
  {
    forall e: nat ensures EntryOffset(v, e) == v.fatOffset * SECTOR + 2 * e {
      EntryPlace(v, e);
    }
  }

  /** With 9 sectors to a FAT the entry of cluster 300, as written, is stored in the place of entry 259. */
  lemma WrittenEntryFails(disk: seq<Byte>, entry: nat)
    requires entry < 0x1_0000 && |disk| >= 8 * SECTOR
    ensures var v := Volume(1, 9, 4, 23, 22);
      var disk' := PutEntry(Written, v, disk, 300, entry);
      && v.Valid() && FatEntry(v, disk', 259) == entry
      && (FatEntry(v, disk, 300) != entry ==> FatEntry(v, disk', 300) != entry)
  {
    var v := Volume(1, 9, 4, 23, 22);
    if FatEntry(v, disk, 300) != entry {
      PutEntryExact(Written, v, disk, 300, entry);
    }
  }

  // ----- clusters -----------------------------------------------------------

  /** The byte offset of a cluster; index 1 stands for the root directory. */
  function ClusterOffset(v: Volume, idx: nat): nat
    requires v.Valid()
  {
    if idx == 1 then (v.rootOffset + v.sectorsPerCluster) * SECTOR
    else (v.dataOffset + idx * v.sectorsPerCluster - 1) * SECTOR
  }

  function Cluster(v: Volume, disk: seq<Byte>, idx: nat): (r: seq<Byte>)
    requires v.Valid()
    ensures |r| == v.ClusterSize()
  {
    ReadBytes(disk, ClusterOffset(v, idx), v.ClusterSize())
  }

  /** A data cluster that has a FAT entry and lies on the disk. */
  predicate DataCluster(v: Volume, disk: seq<Byte>, c: nat)
    requires v.Valid()
  {
    2 <= c < 256 * v.sectorsPerFAT && ClusterOffset(v, c) + v.ClusterSize() <= |disk|
  }

  lemma ClusterApart(v: Volume, c: nat, d: nat)
    requires v.Valid() && 2 <= c < d
    ensures ClusterOffset(v, c) + v.ClusterSize() <= ClusterOffset(v, d)
  {
    MulMono(c + 1, d, v.sectorsPerCluster);
    assert (c + 1) * v.sectorsPerCluster == c * v.sectorsPerCluster + v.sectorsPerCluster;
  }

  /** No data cluster overlaps the entries of the table. */
  lemma TableApart(v: Volume, e: nat, c: nat)
    requires v.Valid() && e < 256 * v.sectorsPerFAT && 2 <= c
    ensures EntryOffset(v, e) + 2 <= ClusterOffset(v, c)
  {
    EntryPlace(v, e);
    MulMono(2, c, v.sectorsPerCluster);
  }

  // ----- chains -------------------------------------------------------------

  /** A file's clusters: each is the FAT entry of the one before, all are data clusters, none occurs twice. */
  ghost predicate IsChain(v: Volume, disk: seq<Byte>, chain: seq<nat>)
    requires v.Valid()
  {
    && chain != []
    && (forall i :: 0 <= i < |chain| ==> DataCluster(v, disk, chain[i]))
    && (forall i :: 0 < i < |chain| ==> chain[i] == FatEntry(v, disk, chain[i - 1]))
    && (forall i, j :: 0 <= i < j < |chain| ==> chain[i] != chain[j])
  }

  /** A cluster of its own is a chain exactly when it has an entry in the FAT and lies on the disk. */
  lemma ChainOne(v: Volume, disk: seq<Byte>, c: nat)
    requires v.Valid()
    ensures IsChain(v, disk, [c]) <==>
      2 <= c && 2 * c + 2 <= 512 * v.sectorsPerFAT && (v.dataOffset + (c + 1) * v.sectorsPerCluster - 1) * 512 <= |disk|
  {
    assert (c + 1) * v.sectorsPerCluster == c * v.sectorsPerCluster + v.sectorsPerCluster;
    var chain := [c];
    assert chain[0] == c;
    if IsChain(v, disk, chain) { assert DataCluster(v, disk, chain[0]); }
  }

  /** One more cluster makes a longer chain exactly when the last entry names it and it is a new one. */
  lemma ChainMore(v: Volume, disk: seq<Byte>, chain: seq<nat>, c: nat)
    requires v.Valid() && IsChain(v, disk, chain)
    ensures IsChain(v, disk, chain + [c]) <==>
      FatEntry(v, disk, chain[|chain| - 1]) == c && IsChain(v, disk, [c]) && c !in chain
  {
    hide FatEntry, DataCluster;
    var more, n := chain + [c], |chain|;
    assert forall i :: 0 <= i < n ==> more[i] == chain[i];
    assert more[n] == c;
    if IsChain(v, disk, more) {
      assert more[n] == FatEntry(v, disk, more[n - 1]);
      assert DataCluster(v, disk, more[n]);
      assert forall i :: 0 <= i < n ==> more[i] != more[n];
    }
  }

  function Bytes(v: Volume, chain: seq<nat>): nat { |chain| * v.ClusterSize() }

  /** The position in the chain of the cluster that holds byte i, and the offset of the byte in it. */
  function Number(v: Volume, i: nat): nat
    requires v.Valid()
  {
    Div(i, v.ClusterSize())
  }

  function Offset(v: Volume, i: nat): (r: nat)
    requires v.Valid()
    ensures r < v.ClusterSize()
  {
    Mod(i, v.ClusterSize())
  }

  lemma Locate(v: Volume, i: nat)
    requires v.Valid()
    ensures i == Number(v, i) * v.ClusterSize() + Offset(v, i)
  {
    DivMod(i, v.ClusterSize());
  }

  lemma Located(v: Volume, k: nat, j: nat)
    requires v.Valid() && j < v.ClusterSize()
    ensures Number(v, k * v.ClusterSize() + j) == k && Offset(v, k * v.ClusterSize() + j) == j
  {
    DivUnique(k * v.ClusterSize() + j, v.ClusterSize(), k, j);
  }

  lemma InChain(v: Volume, chain: seq<nat>, i: nat)
    requires v.Valid() && i < Bytes(v, chain)
    ensures Number(v, i) < |chain|
  {
    Locate(v, i);
    if Number(v, i) >= |chain| { MulMono(|chain|, Number(v, i), v.ClusterSize()); }
  }

  /** The disk address of byte i of the file. */
  function Place(v: Volume, chain: seq<nat>, i: nat): nat
    requires v.Valid()
  {
    if Number(v, i) < |chain| then ClusterOffset(v, chain[Number(v, i)]) + Offset(v, i) else 0
  }

  /** The file: the bytes of its clusters, one cluster after the other. */
  function Content(v: Volume, disk: seq<Byte>, chain: seq<nat>): (r: seq<Byte>)
    requires v.Valid()
    ensures |r| == Bytes(v, chain)
  {
    seq(Bytes(v, chain), i requires 0 <= i < Bytes(v, chain) => ReadByte(disk, Place(v, chain, i)))
  }

  /** Byte j of cluster k of the chain is byte k * size + j of the file. */
  lemma ContentAt(v: Volume, disk: seq<Byte>, chain: seq<nat>, k: nat, j: nat)
    requires v.Valid() && k < |chain| && j < v.ClusterSize()
    ensures k * v.ClusterSize() + j < Bytes(v, chain)
    ensures Place(v, chain, k * v.ClusterSize() + j) == ClusterOffset(v, chain[k]) + j
    ensures Content(v, disk, chain)[k * v.ClusterSize() + j] == Cluster(v, disk, chain[k])[j]
  {
    var s := v.ClusterSize();
    MulMono(k + 1, |chain|, s);
    assert (k + 1) * s == k * s + s;
    Located(v, k, j);
  }

  /** `Content` is the concatenation of the clusters. */
  lemma ContentConcat(v: Volume, disk: seq<Byte>, c: nat, rest: seq<nat>)
    requires v.Valid()
    ensures Content(v, disk, [c] + rest) == Cluster(v, disk, c) + Content(v, disk, rest)
  {
    hide Content, Cluster;
    var s, chain := v.ClusterSize(), [c] + rest;
    assert Bytes(v, chain) == s + Bytes(v, rest) by {
      assert (1 + |rest|) * s == s + |rest| * s;
    }
    forall i | 0 <= i < Bytes(v, chain)
      ensures Content(v, disk, chain)[i] == (Cluster(v, disk, c) + Content(v, disk, rest))[i]
    {
      if i < s {
        ContentAt(v, disk, chain, 0, i);
      } else {
        TailByte(v, disk, c, rest, i - s);
      }
    }
  }

  lemma TailByte(v: Volume, disk: seq<Byte>, c: nat, rest: seq<nat>, i: nat)
    requires v.Valid() && i < Bytes(v, rest)
    ensures v.ClusterSize() + i < Bytes(v, [c] + rest) &&
      Content(v, disk, [c] + rest)[v.ClusterSize() + i] == Content(v, disk, rest)[i]
  {
    hide Number, Offset;
    var s, k, j := v.ClusterSize(), Number(v, i), Offset(v, i);
    InChain(v, rest, i);
    Locate(v, i);
    assert (k + 1) * s + j == s + i;
    ContentAt(v, disk, [c] + rest, k + 1, j);
    ContentAt(v, disk, rest, k, j);
  }

  // ----- the layout of the standard ------------------------------------------

  /** The volume that the constructor computes from the boot block of the partition at sector `start`. */
  function Mount(start: nat, reserved: nat, fats: nat, fatSectors: nat, rootEntries: nat, clusterSectors: nat): Volume {
    var root := fats * fatSectors + start;
    Volume(clusterSectors, fatSectors, reserved + start, root + (rootEntries + 15) / 16, root)
  }

  /** The sector where the FAT specification puts data cluster idx, and the root directory. */
  function StandardCluster(start: nat, reserved: nat, fats: nat, fatSectors: nat, rootEntries: nat,
          clusterSectors: nat, idx: nat): nat
    requires idx >= 2
  {
    start + reserved + fats * fatSectors + (rootEntries + 15) / 16 + (idx - 2) * clusterSectors
  }

  function StandardRoot(start: nat, reserved: nat, fats: nat, fatSectors: nat): nat {
    start + reserved + fats * fatSectors
  }

  /**
   * Data clusters lie where the specification puts them exactly when there are 2c - 1 reserved sectors, the root
   * exactly when c.
   */
  lemma AddressesStandard(start: nat, reserved: nat, fats: nat, fatSectors: nat, rootEntries: nat, c: nat, idx: nat)
    requires idx >= 2 && c > 0 && Mount(start, reserved, fats, fatSectors, rootEntries, c).Valid()
    ensures var v := Mount(start, reserved, fats, fatSectors, rootEntries, c);
      && (ClusterOffset(v, idx) == StandardCluster(start, reserved, fats, fatSectors, rootEntries, c, idx) * SECTOR <==>
          reserved == 2 * c - 1)
      && (ClusterOffset(v, 1) == StandardRoot(start, reserved, fats, fatSectors) * SECTOR <==> reserved == c)
  {
    assert (idx - 2) * c == idx * c - 2 * c;
  }

  /** With four reserved sectors and one to a cluster neither the data clusters nor the root are where they belong. */
  lemma AddressesFail()
    ensures var v := Mount(0, 4, 2, 9, 224, 1);
      && v.Valid()
      && ClusterOffset(v, 2) != StandardCluster(0, 4, 2, 9, 224, 1, 2) * SECTOR
      && ClusterOffset(v, 1) != StandardRoot(0, 4, 2, 9) * SECTOR
  {
  }

  /** FAT entry e of a mounted volume: two bytes, the low one first, behind the reserved sectors. */
  lemma MountedEntry(start: nat, reserved: nat, fats: nat, fatSectors: nat, rootEntries: nat, c: nat, disk: seq<Byte>,
          e: nat)
    ensures var v, at := Mount(start, reserved, fats, fatSectors, rootEntries, c), (start + reserved) * 512 + 2 * e;
      && EntryOffset(v, e) == at && v.sectorsPerFAT == fatSectors && v.sectorsPerCluster == c
      && FatEntry(v, disk, e) == ReadByte(disk, at) + 256 * ReadByte(disk, at + 1)
  {
    EntryPlace(Mount(start, reserved, fats, fatSectors, rootEntries, c), e);
  }
}
