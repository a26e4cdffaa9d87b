/** `FAT16::read` and `FAT16::write`: byte ranges over a cluster chain. */
module FatFiles {
  import opened Arith
  import opened Readings
  import opened Fat
  import opened FatRanges
  import opened FatBuffers
  import HeapSpec

  /** disk' differs from disk only inside the clusters of the chain. */
  ghost predicate OnlyIn(v: Volume, disk: seq<Byte>, disk': seq<Byte>, chain: seq<nat>)
    requires v.Valid()
  {
    && |disk'| == |disk|
    && forall k :: 0 <= k < |disk| && disk'[k] != disk[k] ==>
        exists i :: 0 <= i < |chain| && ClusterOffset(v, chain[i]) <= k < ClusterOffset(v, chain[i]) + v.ClusterSize()
  }

  // ----- what a write outside a region leaves alone --------------------------

  lemma EntriesKept(v: Volume, disk: seq<Byte>, disk': seq<Byte>, chain: seq<nat>, e: nat)
    requires v.Valid() && OnlyIn(v, disk, disk', chain) && (forall i :: 0 <= i < |chain| ==> 2 <= chain[i])
    requires e < 256 * v.sectorsPerFAT
    ensures FatEntry(v, disk', e) == FatEntry(v, disk, e)
  {
    forall i | 0 <= i < |chain| ensures EntryOffset(v, e) + 2 <= ClusterOffset(v, chain[i]) {
      TableApart(v, e, chain[i]);
    }
  }

  lemma ClusterKept(v: Volume, disk: seq<Byte>, disk': seq<Byte>, chain: seq<nat>, c: nat)
    requires v.Valid() && OnlyIn(v, disk, disk', chain) && (forall i :: 0 <= i < |chain| ==> 2 <= chain[i])
    requires 2 <= c && c !in chain
    ensures Cluster(v, disk', c) == Cluster(v, disk, c)
  {
    var from, n := ClusterOffset(v, c), v.ClusterSize();
    forall i | 0 <= i < |chain|
      ensures from + n <= ClusterOffset(v, chain[i]) || ClusterOffset(v, chain[i]) + n <= from
    {
      if c < chain[i] { ClusterApart(v, c, chain[i]); } else { ClusterApart(v, chain[i], c); }
    }
    forall j | 0 <= j < n ensures Cluster(v, disk', c)[j] == Cluster(v, disk, c)[j] {
    }
  }

  /** Chains, and with them every file's extent, survive a write to any file. */
  lemma ChainKept(v: Volume, disk: seq<Byte>, disk': seq<Byte>, chain: seq<nat>, other: seq<nat>)
    requires v.Valid() && OnlyIn(v, disk, disk', chain) && (forall i :: 0 <= i < |chain| ==> 2 <= chain[i])
    requires IsChain(v, disk, other)
    ensures IsChain(v, disk', other)
  {
    forall i | 0 < i < |other| ensures other[i] == FatEntry(v, disk', other[i - 1]) {
      EntriesKept(v, disk, disk', chain, other[i - 1]);
    }
  }

  /** A file whose clusters are disjoint from those written keeps its content. */
  lemma OtherFileKept(v: Volume, disk: seq<Byte>, disk': seq<Byte>, chain: seq<nat>, other: seq<nat>)
    requires v.Valid() && OnlyIn(v, disk, disk', chain) && (forall i :: 0 <= i < |chain| ==> 2 <= chain[i])
    requires IsChain(v, disk, other) && forall i :: 0 <= i < |other| ==> other[i] !in chain
    ensures IsChain(v, disk', other) && Content(v, disk', other) == Content(v, disk, other)
  {
    hide Number, Offset, Place;
    ChainKept(v, disk, disk', chain, other);
    forall b | 0 <= b < Bytes(v, other) ensures Content(v, disk', other)[b] == Content(v, disk, other)[b] {
      InChain(v, other, b);
      Locate(v, b);
      ContentAt(v, disk, other, Number(v, b), Offset(v, b));
      ContentAt(v, disk', other, Number(v, b), Offset(v, b));
      ClusterKept(v, disk, disk', chain, other[Number(v, b)]);
    }
  }

  // ----- one cluster ---------------------------------------------------------

  lemma ChainRoom(v: Volume, chain: seq<nat>, k: nat)
    requires v.Valid() && k < |chain|
    ensures (k + 1) * v.ClusterSize() == k * v.ClusterSize() + v.ClusterSize() <= Bytes(v, chain)
  {
    MulMono(k + 1, |chain|, v.ClusterSize());
  }

  /** A range of one cluster is a range of the file. */
  lemma ClusterSlice(v: Volume, disk: seq<Byte>, chain: seq<nat>, k: nat, lo: nat, hi: nat)
    requires v.Valid() && k < |chain| && lo <= hi <= v.ClusterSize()
    ensures k * v.ClusterSize() + hi <= Bytes(v, chain)
    ensures Content(v, disk, chain)[k * v.ClusterSize() + lo..k * v.ClusterSize() + hi]
      == Cluster(v, disk, chain[k])[lo..hi]
  {
    hide Number, Offset, Place, Volume.ClusterSize, Cluster;
    ChainRoom(v, chain, k);
    forall j | lo <= j < hi
      ensures Content(v, disk, chain)[k * v.ClusterSize() + j] == Cluster(v, disk, chain[k])[j]
    {
      ContentAt(v, disk, chain, k, j);
    }
    SameSlice(Content(v, disk, chain), Cluster(v, disk, chain[k]), k * v.ClusterSize(), lo, hi);
  }

  lemma SameSlice(a: seq<Byte>, b: seq<Byte>, base: nat, lo: nat, hi: nat)
    requires lo <= hi <= |b| && base + hi <= |a| && forall j :: lo <= j < hi ==> a[base + j] == b[j]
    ensures a[base + lo..base + hi] == b[lo..hi]
  {
  }

  /** Writing back a cluster with some bytes replaced replaces those bytes of the file and touches nothing else. */
  lemma ClusterSplice(v: Volume, disk: seq<Byte>, chain: seq<nat>, k: nat, lo: nat, data: seq<Byte>)
    requires v.Valid() && IsChain(v, disk, chain) && k < |chain| && lo + |data| <= v.ClusterSize()
    ensures k * v.ClusterSize() + lo + |data| <= Bytes(v, chain)
    ensures var disk' := WriteBytes(disk, ClusterOffset(v, chain[k]), Splice(Cluster(v, disk, chain[k]), lo, data));
      && OnlyIn(v, disk, disk', chain)
      && Content(v, disk', chain) == Splice(Content(v, disk, chain), k * v.ClusterSize() + lo, data)
  {
    hide Content, Cluster, Splice, OnlyIn, IsChain, WriteBytes, Volume.ClusterSize, ClusterOffset;
    var s := v.ClusterSize();
    var disk' := WriteBytes(disk, ClusterOffset(v, chain[k]), Splice(Cluster(v, disk, chain[k]), lo, data));
    ClusterSlice(v, disk, chain, k, lo, lo + |data|);
    OnlyInCluster(v, disk, chain, k, Splice(Cluster(v, disk, chain[k]), lo, data));
    forall b | 0 <= b < Bytes(v, chain)
      ensures Content(v, disk', chain)[b] == Splice(Content(v, disk, chain), k * s + lo, data)[b]
    {
      SpliceByte(v, disk, chain, k, lo, data, b);
    }
  }

  lemma OnlyInCluster(v: Volume, disk: seq<Byte>, chain: seq<nat>, k: nat, data: seq<Byte>)
    requires v.Valid() && k < |chain| && |data| == v.ClusterSize()
    ensures OnlyIn(v, disk, WriteBytes(disk, ClusterOffset(v, chain[k]), data), chain)
  {
  }

  lemma SpliceByte(v: Volume, disk: seq<Byte>, chain: seq<nat>, k: nat, lo: nat, data: seq<Byte>, b: nat)
    requires v.Valid() && IsChain(v, disk, chain) && k < |chain| && lo + |data| <= v.ClusterSize() &&
      b < Bytes(v, chain)
    requires k * v.ClusterSize() + lo + |data| <= Bytes(v, chain)
    ensures var disk' := WriteBytes(disk, ClusterOffset(v, chain[k]), Splice(Cluster(v, disk, chain[k]), lo, data));
      Content(v, disk', chain)[b] == Splice(Content(v, disk, chain), k * v.ClusterSize() + lo, data)[b]
  {
    hide Number, Offset, Place, Cluster, Content, Splice, Volume.ClusterSize, IsChain;
    var n, j := Number(v, b), Offset(v, b);
    InChain(v, chain, b);
    Locate(v, b);
    var disk' := WriteBytes(disk, ClusterOffset(v, chain[k]), Splice(Cluster(v, disk, chain[k]), lo, data));
    ContentAt(v, disk, chain, n, j);
    ContentAt(v, disk', chain, n, j);
    ClusterWritten(v, disk, chain, k, n, Splice(Cluster(v, disk, chain[k]), lo, data));
    if n != k {
      SlotApart(v.ClusterSize(), n, k, j, lo, |data|);
    }
  }

  lemma ClusterWritten(v: Volume, disk: seq<Byte>, chain: seq<nat>, k: nat, n: nat, data: seq<Byte>)
    requires v.Valid() && IsChain(v, disk, chain) && k < |chain| && n < |chain| && |data| == v.ClusterSize()
    ensures Cluster(v, WriteBytes(disk, ClusterOffset(v, chain[k]), data), chain[n])
         == if n == k then data else Cluster(v, disk, chain[n])
  {
    hide FatEntry;
    if chain[n] < chain[k] {
      ClusterApart(v, chain[n], chain[k]);
    } else if n != k {
      ClusterApart(v, chain[k], chain[n]);
    }
  }

  lemma SlotApart(s: nat, n: nat, k: nat, j: nat, lo: nat, len: nat)
    requires n != k && j < s && lo + len <= s
    ensures !(k * s + lo <= n * s + j < k * s + lo + len)
  {
    if n < k { MulMono(n + 1, k, s); } else { MulMono(k + 1, n, s); }
    assert (n + 1) * s == n * s + s && (k + 1) * s == k * s + s;
  }

  /** Writing a cluster back unchanged changes nothing, whatever cluster it is. */
  lemma WriteBack(v: Volume, disk: seq<Byte>, c: nat)
    requires v.Valid()
    ensures WriteBytes(disk, ClusterOffset(v, c), Cluster(v, disk, c)) == disk
  {
  }

  lemma OnlyInTrans(v: Volume, d0: seq<Byte>, d1: seq<Byte>, d2: seq<Byte>, chain: seq<nat>)
    requires v.Valid() && OnlyIn(v, d0, d1, chain) && OnlyIn(v, d1, d2, chain)
    ensures OnlyIn(v, d0, d2, chain)
  {
    forall k | 0 <= k < |d0| && d2[k] != d0[k]
      ensures exists i ::
        0 <= i < |chain| && ClusterOffset(v, chain[i]) <= k < ClusterOffset(v, chain[i]) + v.ClusterSize()
    {
      assert d1[k] != d0[k] || d2[k] != d1[k];
    }
  }

  // ----- the driver ----------------------------------------------------------

  /** `memcpy(dest + at, src + from, len)` between different buffers. */
  method Memcpy(dest: array<Byte>, at: nat, src: array<Byte>, from: nat, len: nat)
    requires dest != src && at + len <= dest.Length && from + len <= src.Length
    modifies dest
    ensures dest[at..at + len] == src[from..from + len]
    ensures dest[..at] == old(dest[..at]) && dest[at + len..] == old(dest[at + len..])
  {
    for n := 0 to len
      invariant forall k :: 0 <= k < dest.Length ==>
        dest[k] == if at <= k < at + n then src[from + (k - at)] else old(dest[k])
    {
      dest[at + n] := src[from + n];
    }
  }

  /** The file as the copying loop of `write` will leave it, from a point of the loop on. */
  function Rest(text: Text, v: Volume, disk: seq<Byte>, chain: seq<nat>, readPos: nat, writePos: nat, end: nat,
          src: seq<Byte>): seq<Byte>
    requires v.Valid() && readPos <= end <= Bytes(v, chain)
  {
    Copied(text, v.ClusterSize(), Content(v, disk, chain), readPos, writePos, end, src)
  }

  class Fat16 {
    const v: Volume
    var disk: seq<Byte>

    constructor (v: Volume, disk: seq<Byte>)
      ensures this.v == v && this.disk == disk
    {
      this.v, this.disk := v, disk;
    }

    /** `device->readSectors` */
    method ReadSectors(sector: nat, buffer: array<Byte>, count: nat)
      requires count * SECTOR <= buffer.Length
      modifies buffer
      ensures buffer[..count * SECTOR] == ReadBytes(disk, sector * SECTOR, count * SECTOR)
      ensures buffer[count * SECTOR..] == old(buffer[count * SECTOR..])
    {
      var data := ReadBytes(disk, sector * SECTOR, count * SECTOR);
      for n := 0 to count * SECTOR
        invariant forall k :: 0 <= k < buffer.Length ==> buffer[k] == if k < n then data[k] else old(buffer[k])
      {
        buffer[n] := data[n];
      }
    }

    /** `device->writeSectors`; sectors beyond the end of the disk are dropped. */
    method WriteSectors(sector: nat, buffer: array<Byte>, count: nat)
      requires count * SECTOR <= buffer.Length
      modifies this`disk
      ensures disk == WriteBytes(old(disk), sector * SECTOR, buffer[..count * SECTOR])
    {
      var from := sector * SECTOR;
      for n := 0 to count * SECTOR
        invariant disk == WriteBytes(old(disk), from, buffer[..n])
      {
        assert buffer[..n + 1][..n] == buffer[..n];
        if from + n < |disk| {
          disk := disk[from + n := buffer[n]];
        }
      }
    }

    method ReadFAT(entry: nat) returns (next: nat)
      ensures next == FatEntry(v, disk, entry)
    {
      var sector := v.fatOffset + entry / 256;
      var entries := new Byte[SECTOR];
      ReadSectors(sector, entries, 1);
      assert entries[..SECTOR] == entries[..];
      var low: nat, high: nat := entries[2 * (entry % 256)], entries[2 * (entry % 256) + 1];
      next := low + 256 * high;
    }

    /**
     * `writeFAT`: the sector is read, one slot of it replaced, and the sector written back. When the slot is the
     * entry's own, the entry reads back and every other entry of the table is as before.
     */
    method WriteFAT(text: Text, idx: nat, entry: nat)
      requires entry < 0x1_0000 && (text == Written ==> v.sectorsPerFAT > 0 && idx % v.sectorsPerFAT < 256)
      modifies this`disk
      ensures disk == PutEntry(text, v, old(disk), idx, entry)
      ensures EntrySlot(text, v, idx) == idx % 256 && EntryOffset(v, idx) + 1 < |disk| ==>
        && FatEntry(v, disk, idx) == entry
        && forall e: nat :: e != idx ==> FatEntry(v, disk, e) == FatEntry(v, old(disk), e)
    {
      hide FatEntry, EntryOffset, WriteBytes, ReadBytes;
      var sector := v.fatOffset + idx / 256;
      var entries := new Byte[SECTOR];
      ReadSectors(sector, entries, 1);
      var slot := if text == Written then idx % v.sectorsPerFAT else idx % 256;
      entries[2 * slot], entries[2 * slot + 1] := entry % 256, entry / 256;
      WriteSectors(sector, entries, 1);
      SectorRewritten(old(disk), sector * SECTOR, 2 * slot, [entry % 256, entry / 256], entries[..SECTOR]);
      if EntrySlot(text, v, idx) == idx % 256 && EntryOffset(v, idx) + 1 < |disk| {
        PutEntryOwn(text, v, old(disk), idx, entry);
      }
    }

    method ReadCluster(idx: nat, buffer: array<Byte>)
      requires v.Valid() && buffer.Length >= v.ClusterSize()
      modifies buffer
      ensures buffer[..v.ClusterSize()] == Cluster(v, disk, idx)
      ensures buffer[v.ClusterSize()..] == old(buffer[v.ClusterSize()..])
    {
      if idx == 1 {
        ReadSectors(v.rootOffset + idx * v.sectorsPerCluster, buffer, v.sectorsPerCluster);
        return;
      }
      ReadSectors(v.dataOffset + idx * v.sectorsPerCluster - 1, buffer, v.sectorsPerCluster);
    }

    /** `writeCluster`: the cluster then holds the buffer, and no byte outside the cluster changes. */
    method WriteCluster(idx: nat, buffer: array<Byte>)
      requires v.Valid() && buffer.Length >= v.ClusterSize()
      modifies this`disk
      ensures disk == WriteBytes(old(disk), ClusterOffset(v, idx), buffer[..v.ClusterSize()])
      ensures ClusterOffset(v, idx) + v.ClusterSize() <= |disk| ==> Cluster(v, disk, idx) == buffer[..v.ClusterSize()]
      ensures |disk| == |old(disk)|
      ensures forall k :: 0 <= k < |disk| && !(ClusterOffset(v, idx) <= k < ClusterOffset(v, idx) + v.ClusterSize()) ==>
        disk[k] == old(disk)[k]
    {
      hide WriteBytes, ReadBytes, Volume.Valid;
      ClusterStored(v, disk, idx, buffer[..v.ClusterSize()]);
      if idx == 1 {
        WriteSectors(v.rootOffset + idx * v.sectorsPerCluster, buffer, v.sectorsPerCluster);
      } else {
        WriteSectors(v.dataOffset + idx * v.sectorsPerCluster - 1, buffer, v.sectorsPerCluster);
      }
    }

    /** A search loop of `read` or `write`: follow the chain while the bound lies beyond the current cluster. */
    method Follow(cluster: nat, idx: nat, bound: nat, advance: bool, ghost chain: seq<nat>) returns (c: nat, i: nat)
      requires v.Valid() && IsChain(v, disk, chain) && bound <= Bytes(v, chain) + 1
      requires idx <= |chain| && (idx < |chain| ==> cluster == chain[idx])
      requires advance || bound <= (idx + 1) * v.ClusterSize()
      ensures i == Stop(v.ClusterSize(), idx, bound)
      ensures i <= |chain| && (i < |chain| ==> c == chain[i]) && (i == idx ==> c == cluster)
    {
      c, i := cluster, idx;
      while bound > (i + 1) * v.ClusterSize()
        invariant idx <= i <= |chain| && (i < |chain| ==> c == chain[i]) && (i == idx ==> c == cluster)
        invariant Stop(v.ClusterSize(), i, bound) == Stop(v.ClusterSize(), idx, bound)
        invariant advance || i == idx
        decreases |chain| - i
      {
        BoundInside(v, chain, i, bound);
        c := ReadFAT(c);
        if advance {
          i := i + 1;
        }
      }
    }

    /** One `memcpy` out of cluster k of the chain, from file position `place` on. */
    method CopyPiece(cluster: nat, from: nat, ghost k: nat, ghost place: nat, writePos: nat, len: nat,
            dest: array<Byte>, buffer: array<Byte>, ghost chain: seq<nat>)
      requires v.Valid() && IsChain(v, disk, chain) && (k < |chain| ==> cluster == chain[k])
      requires from == Mod(place, v.ClusterSize()) && InCluster(v, k, place, len) && place + len <= Bytes(v, chain)
      requires dest != buffer && buffer.Length == v.ClusterSize() && writePos + len <= dest.Length
      modifies dest, buffer
      ensures dest[..writePos + len] == old(dest[..writePos]) + Content(v, disk, chain)[place..place + len]
      ensures dest[writePos + len..] == old(dest[writePos + len..])
    {
      hide Content, Cluster, Volume.ClusterSize, IsChain;
      ReadCluster(cluster, buffer);
      HoldsOffset(v, k, place);
      PieceSlice(v, disk, chain, k, cluster, place, len);
      ghost var data := Cluster(v, disk, cluster);
      assert |data| == buffer.Length && forall n: nat :: n < buffer.Length ==> buffer[n] == data[n];
      assert buffer[from..from + len] == data[from..from + len];
      Memcpy(dest, writePos, buffer, from, len);
      assert dest[..writePos + len] == dest[..writePos] + dest[writePos..writePos + len];
    }

    /** dest starts with the bytes of the file from q on. */
    ghost predicate Holding(dest: array<Byte>, q: nat, n: nat, chain: seq<nat>)
      requires v.Valid()
      reads this, dest
    {
      n <= dest.Length && q + n <= Bytes(v, chain) && dest[..n] == Content(v, disk, chain)[q..q + n]
    }

    lemma HoldingNone(dest: array<Byte>, q: nat, chain: seq<nat>)
      requires v.Valid() && q <= Bytes(v, chain)
      ensures Holding(dest, q, 0, chain)
    {
    }

    /** When dest already holds the file from q on it then holds len bytes more. */
    method CopyOn(cluster: nat, from: nat, ghost k: nat, ghost q: nat, writePos: nat, len: nat, ghost size: nat,
            dest: array<Byte>, buffer: array<Byte>, ghost chain: seq<nat>)
      requires v.Valid() && IsChain(v, disk, chain) && (k < |chain| ==> cluster == chain[k])
      requires from == Mod(q + writePos, v.ClusterSize()) && InCluster(v, k, q + writePos, len)
      requires q + writePos + len <= Bytes(v, chain) && writePos + len <= size <= dest.Length
      requires dest != buffer && buffer.Length == v.ClusterSize() && Holding(dest, q, writePos, chain)
      modifies dest, buffer
      ensures Holding(dest, q, writePos + len, chain) && dest[size..] == old(dest[size..])
    {
      hide Content, IsChain, Mod, InCluster, Volume.ClusterSize, Bytes;
      ghost var file := Content(v, disk, chain);
      CopyPiece(cluster, from, k, q + writePos, writePos, len, dest, buffer, chain);
      assert file[q..q + writePos] + file[q + writePos..q + writePos + len] == file[q..q + writePos + len];
      assert dest[size..] == dest[writePos + len..][size - (writePos + len)..];
    }

    /** One iteration of the copying loop of `read`; `readPos` may run a cluster ahead of the place that is copied. */
    method ReadOn(cluster: nat, ghost k: nat, ghost b: nat, ghost q: nat, readPos: nat, writePos: nat,
            ghost size: nat, ghost lag: nat, dest: array<Byte>, buffer: array<Byte>, ghost chain: seq<nat>)
      returns (next: nat, readNext: nat, writeNext: nat)
      requires v.Valid() && IsChain(v, disk, chain) && k < b < |chain| && cluster == chain[k]
      requires (lag == 0 || lag == v.ClusterSize()) && readPos == q + writePos + lag && writePos <= size
      requires Plan(v, chain, k, b, q + writePos, q + size, false) && q + size <= Bytes(v, chain)
      requires dest != buffer && buffer.Length == v.ClusterSize() && size <= dest.Length
      requires Holding(dest, q, writePos, chain)
      modifies dest, buffer
      ensures next == chain[k + 1] && writePos <= writeNext <= size && readNext == q + writeNext + lag
      ensures Plan(v, chain, k + 1, b, q + writeNext, q + size, false)
      ensures Holding(dest, q, writeNext, chain) && dest[size..] == old(dest[size..])
    {
      hide Content, IsChain, Plan, Mod, InCluster, Volume.ClusterSize, Bytes, NextStart, FatEntry, Holding;
      PlanStep(v, chain, k, b, q + writePos, q + size, false, lag);
      var from := Mod(readPos, v.ClusterSize());
      var len := v.ClusterSize() - from;
      CopyOn(cluster, from, k, q, writePos, len, size, dest, buffer, chain);
      writeNext := writePos + len;
      readNext := NextStart(v.ClusterSize(), readPos);
      ChainStep(v, disk, chain, k, b);
      next := ReadFAT(cluster);
    }

    /**
     * The copying loop of `read` and its last partial copy; `start` and `end` are clusters a and b of the chain.
     * Cluster a is the one that holds pos, or lies `lag` bytes before it.
     */
    method CopyOut(start: nat, end: nat, ghost a: nat, ghost b: nat, pos: nat, size: nat, dest: array<Byte>,
            ghost chain: seq<nat>, ghost lag: nat)
      requires v.Valid() && IsChain(v, disk, chain) && pos + size <= Bytes(v, chain) && size <= dest.Length
      requires (lag == 0 || lag == v.ClusterSize()) && lag <= pos
      requires Plan(v, chain, a, b, pos - lag, pos - lag + size, false)
      requires (a < |chain| ==> start == chain[a]) && (b < |chain| ==> end == chain[b]) && (a == b ==> start == end)
      modifies dest
      ensures Holding(dest, pos - lag, size, chain) && dest[size..] == old(dest[size..])
    {
      hide Content, IsChain, Plan, Mod, InCluster, Volume.ClusterSize, Bytes, NextStart, FatEntry, Holding;
      PlanInside(v, chain, a, b, pos - lag, pos - lag + size, false);
      ghost var k, q := a, pos - lag;
      var cluster := start;
      var readPos: nat, writePos: nat := pos, 0;
      HoldingNone(dest, q, chain);
      var buffer := new Byte[v.ClusterSize()];
      while cluster != end
        invariant a <= k <= b && (k < |chain| ==> cluster == chain[k]) && (k == b ==> cluster == end)
        invariant readPos == pos + writePos && writePos <= size
        invariant Plan(v, chain, k, b, q + writePos, q + size, false)
        invariant Holding(dest, q, writePos, chain) && dest[size..] == old(dest[size..])
        decreases b - k
      {
        cluster, readPos, writePos := ReadOn(cluster, k, b, q, readPos, writePos, size, lag, dest, buffer, chain);
        k := k + 1;
      }
      SameCluster(v, disk, chain, k, b);
      PlanLast(v, chain, k, q + writePos, q + size, false, lag);
      CopyOn(cluster, Mod(readPos, v.ClusterSize()), k, q, writePos, pos + size - readPos, size, dest, buffer, chain);
    }

    /**
     * `read`: dest receives exactly the bytes pos to pos + size of the file. As written, at a position that is a
     * positive cluster multiple, it receives those one cluster before, unless the last length wraps; see `Delivered`.
     */
    method Read(text: Text, first: nat, pos: nat, size: nat, dest: array<Byte>, ghost chain: seq<nat>)
      requires v.Valid() && IsChain(v, disk, chain) && first == chain[0]
      requires pos + size <= Bytes(v, chain) && size <= dest.Length
      requires Delivered(text, v, Content(v, disk, chain), pos, size).Some?
      modifies dest
      ensures Delivered(text, v, Content(v, disk, chain), pos, size) == Some(dest[..size])
      ensures text == Corrected ==> dest[..size] == Content(v, disk, chain)[pos..pos + size]
      ensures dest[size..] == old(dest[size..])
    {
      hide Content, IsChain, Cluster, Plan, Stop, Misplaced, StartBound, Delivered;
      ghost var file := Content(v, disk, chain);
      DeliveredExact(text, v, file, pos, size);
      BoundsInside(v, chain, pos, size);
      var start, idx := Follow(first, 0, StartBound(text, pos), true, chain);
      var end, last := Follow(start, idx, pos + size, true, chain);
      ghost var lag := ReadPlan(text, v, chain, pos, size);
      CopyOut(start, end, idx, last, pos, size, dest, chain, lag);
    }

    /** Read a cluster, replace some of its bytes, write it back. */
    method WritePiece(cluster: nat, ghost k: nat, readPos: nat, writePos: nat, len: nat, src: array<Byte>,
            buffer: array<Byte>, ghost chain: seq<nat>)
      requires v.Valid() && IsChain(v, disk, chain) && (k < |chain| ==> cluster == chain[k])
      requires InCluster(v, k, readPos, len) && readPos + len <= Bytes(v, chain)
      requires src != buffer && buffer.Length >= v.ClusterSize() && writePos + len <= src.Length
      modifies this`disk, buffer
      ensures Content(v, disk, chain) == Splice(old(Content(v, disk, chain)), readPos, src[writePos..writePos + len])
      ensures OnlyIn(v, old(disk), disk, chain) && IsChain(v, disk, chain)
    {
      hide Content, Cluster, Volume.ClusterSize, IsChain, OnlyIn;
      ghost var before, s := disk, v.ClusterSize();
      ReadCluster(cluster, buffer);
      HoldsOffset(v, k, readPos);
      PieceSlice(v, disk, chain, k, cluster, readPos, len);
      var from := Mod(readPos, v.ClusterSize());
      ghost var piece := src[writePos..writePos + len];
      Memcpy(buffer, from, src, writePos, len);
      assert buffer[..s] == Splice(Cluster(v, before, cluster), from, piece) by {
        assert buffer[..s] == buffer[..from] + buffer[from..from + len] + buffer[from + len..][..s - from - len];
      }
      WriteCluster(cluster, buffer);
      PieceWritten(v, before, disk, chain, k, cluster, readPos, piece);
    }

    /** One iteration of the copying loop of `write`: what is left to do stays the same. */
    method WriteOn(text: Text, cluster: nat, ghost k: nat, ghost b: nat, ghost first: bool, ghost pos: nat,
            ghost size: nat, readPos: nat, writePos: nat, src: array<Byte>, buffer: array<Byte>, ghost chain: seq<nat>,
            ghost disk0: seq<Byte>)
      returns (next: nat, readNext: nat, writeNext: nat)
      requires v.Valid() && IsChain(v, disk, chain) && OnlyIn(v, disk0, disk, chain)
      requires k < b < |chain| && cluster == chain[k]
      requires pos <= readPos <= pos + size <= Bytes(v, chain) && Plan(v, chain, k, b, readPos, pos + size, true)
      requires src != buffer && buffer.Length >= v.ClusterSize() && size <= src.Length
      requires text == Written && !first ==> size + v.ClusterSize() <= src.Length
      requires SourceAt(text, v.ClusterSize(), first, pos, readPos, writePos)
      modifies this`disk, buffer
      ensures pos <= readNext <= pos + size && Plan(v, chain, k + 1, b, readNext, pos + size, true)
      ensures next == chain[k + 1] && SourceAt(text, v.ClusterSize(), false, pos, readNext, writeNext)
      ensures Rest(text, v, disk, chain, readNext, writeNext, pos + size, src[..])
           == Rest(text, v, old(disk), chain, readPos, writePos, pos + size, old(src[..]))
      ensures OnlyIn(v, disk0, disk, chain) && IsChain(v, disk, chain)
    {
      hide Content, Volume.ClusterSize, IsChain, Plan, InCluster, OnlyIn, Splice, Copied, Mod, NextStart, Bytes;
      hide FatEntry, SourceAt;
      ghost var disk1 := disk;
      WriteAhead(text, v, chain, k, b, first, pos, size, readPos, writePos, src.Length);
      PieceGoesOn(text, v.ClusterSize(), Content(v, disk, chain), readPos, writePos, pos + size, src[..]);
      var len := v.ClusterSize() - Mod(readPos, v.ClusterSize());
      WritePiece(cluster, k, readPos, writePos, len, src, buffer, chain);
      OnlyInTrans(v, disk0, disk1, disk, chain);
      writeNext := writePos + if text == Corrected then len else Mod(readPos, v.ClusterSize());
      readNext := NextStart(v.ClusterSize(), readPos);
      ChainStep(v, disk, chain, k, b);
      next := ReadFAT(cluster);
    }

    /** The copying loop of `write` and its last partial copy, with either advance in the source. */
    method CopyIn(text: Text, start: nat, end: nat, ghost a: nat, ghost b: nat, pos: nat, size: nat,
            src: array<Byte>, buffer: array<Byte>, ghost chain: seq<nat>)
      requires v.Valid() && IsChain(v, disk, chain) && size <= src.Length
      requires pos + size <= Bytes(v, chain) && Plan(v, chain, a, b, pos, pos + size, true)
      requires b > a && text == Written ==> size + v.ClusterSize() <= src.Length
      requires (a < |chain| ==> start == chain[a]) && (b < |chain| ==> end == chain[b]) && (a == b ==> start == end)
      requires src != buffer && buffer.Length >= v.ClusterSize()
      modifies this`disk, buffer
      ensures Content(v, disk, chain) == Rest(text, v, old(disk), chain, pos, 0, pos + size, old(src[..]))
      ensures OnlyIn(v, old(disk), disk, chain) && IsChain(v, disk, chain)
    {
      hide Content, IsChain, Plan, InCluster, OnlyIn, Rest, Moved, Mod, NextStart, Bytes, FatEntry, SourceAt;
      assert v.ClusterSize() > 0;
      hide Volume.ClusterSize, Volume.Valid;
      PlanInside(v, chain, a, b, pos, pos + size, true);
      ghost var k, disk0, endPos, s, data := a, disk, pos + size, v.ClusterSize(), src[..];
      ghost var result := Rest(text, v, disk, chain, pos, 0, endPos, data);
      var cluster := start;
      var readPos: nat, writePos: nat := pos, 0;
      OnlyInSame(v, disk, chain);
      SourceStarts(text, s, pos);
      while cluster != end
        invariant a <= k <= b && (k < |chain| ==> cluster == chain[k]) && (k == b ==> cluster == end)
        invariant pos <= readPos <= endPos && Plan(v, chain, k, b, readPos, endPos, true)
        invariant SourceAt(text, s, k == a, pos, readPos, writePos)
        invariant IsChain(v, disk, chain) && OnlyIn(v, disk0, disk, chain)
        invariant src[..] == data && Rest(text, v, disk, chain, readPos, writePos, endPos, data) == result
        decreases b - k
      {
        cluster, readPos, writePos :=
          WriteOn(text, cluster, k, b, k == a, pos, size, readPos, writePos, src, buffer, chain, disk0);
        k := k + 1;
      }
      SourceFits(text, s, k == a, pos, readPos, writePos, size, src.Length);
      SameCluster(v, disk, chain, k, b);
      PlanLast(v, chain, k, readPos, endPos, true, 0);
      WriteLast(text, cluster, k, readPos, writePos, pos + size, src, buffer, chain, disk0);
    }

    method WriteLast(ghost text: Text, cluster: nat, ghost k: nat, readPos: nat, writePos: nat, end: nat,
            src: array<Byte>, buffer: array<Byte>, ghost chain: seq<nat>, ghost disk0: seq<Byte>)
      requires v.Valid() && IsChain(v, disk, chain) && (k < |chain| ==> cluster == chain[k])
      requires readPos <= end <= Bytes(v, chain) && InCluster(v, k, readPos, end - readPos)
      requires src != buffer && buffer.Length >= v.ClusterSize() && writePos + (end - readPos) <= src.Length
      requires OnlyIn(v, disk0, disk, chain)
      modifies this`disk, buffer
      ensures Content(v, disk, chain) == Rest(text, v, old(disk), chain, readPos, writePos, end, old(src[..]))
      ensures OnlyIn(v, disk0, disk, chain) && IsChain(v, disk, chain)
    {
      assert v.ClusterSize() > 0;
      hide Content, Volume.ClusterSize, IsChain, InCluster, OnlyIn, Splice, Copied, Bytes;
      PieceIsLast(text, v, Content(v, disk, chain), k, readPos, writePos, end, src[..]);
      ghost var disk1 := disk;
      WritePiece(cluster, k, readPos, writePos, end - readPos, src, buffer, chain);
      OnlyInTrans(v, disk0, disk1, disk, chain);
      assert src[..][writePos..writePos + (end - readPos)] == src[writePos..writePos + (end - readPos)];
    }

    /**
     * `write`, with each of the three places where it goes wrong as written or corrected: the searches, which as
     * written end only inside the first cluster, see `WrittenSearchEnds`; the size of the buffer, see
     * `WrittenBufferExact`; and the advance in the source, see `WrittenAdvanceExact`, with which it reads on behind
     * the source. With the corrected advance the bytes pos to pos + size of the file become those of src. Nothing
     * outside the file's clusters changes. The buffer stays allocated.
     */
    method Write(search: Text, room: Text, advance: Text, first: nat, pos: nat, size: nat, src: array<Byte>,
            heap: HeapMemory.Heap, ghost chain: seq<nat>)
      requires v.Valid() && IsChain(v, disk, chain) && first == chain[0]
      requires pos + size <= Bytes(v, chain) && size <= src.Length
      requires heap.Valid() && WriteWorks(search, room, v, pos, size, heap.chunks)
      requires advance == Written ==> Offset(v, pos) + size <= v.ClusterSize() || size + v.ClusterSize() <= src.Length
      modifies this`disk, heap`mem, heap`chunks
      ensures heap.chunks == HeapSpec.AfterMalloc(old(heap.chunks), BufferBytes(room, v, size))
      ensures heap.text == Corrected ==> heap.Valid()
      ensures Content(v, disk, chain)
           == Copied(advance, v.ClusterSize(), old(Content(v, disk, chain)), pos, 0, pos + size, src[..])
      ensures advance == Corrected ==> Content(v, disk, chain) == Splice(old(Content(v, disk, chain)), pos, src[..size])
      ensures OnlyIn(v, old(disk), disk, chain) && IsChain(v, disk, chain)
    {
      hide Content, IsChain, Offset, OnlyIn, Copied, SearchEnds, Plan, Stop, Splice, HeapMemory.Chain, Grants;
      ghost var file := Content(v, disk, chain);
      WritePlan(search, v, chain, pos, size);
      var start, idx := Follow(first, 0, pos + 1, search == Corrected, chain);
      var end, last := Follow(start, idx, pos + size, search == Corrected, chain);
      GrantsExact(heap.mem, heap.first, heap.chunks, BufferBytes(room, v, size));
      var address := heap.Malloc(BufferBytes(room, v, size));
      assert address != 0;
      var buffer := new Byte[BufferBytes(room, v, size)];
      CopyIn(advance, start, end, idx, last, pos, size, src, buffer, chain);
      if advance == Corrected {
        CopiedCorrected(v.ClusterSize(), file, pos, 0, pos + size, src[..]);
        assert src[..][0..size] == src[..size];
      }
    }

    /**
     * Writing and then reading at the same position gives the source back; every other byte of the file and the whole
     * of any other file are as before.
     */
    method WriteThenRead(first: nat, pos: nat, size: nat, src: array<Byte>, dest: array<Byte>, heap: HeapMemory.Heap,
            ghost chain: seq<nat>, ghost other: seq<nat>)
      requires v.Valid() && IsChain(v, disk, chain) && first == chain[0]
      requires pos + size <= Bytes(v, chain) && size <= src.Length && size <= dest.Length
      requires IsChain(v, disk, other) && forall i :: 0 <= i < |other| ==> other[i] !in chain
      requires heap.Valid() && Grants(heap.chunks, v.ClusterSize())
      modifies this`disk, dest, heap`mem, heap`chunks
      ensures dest[..size] == old(src[..size]) && dest[size..] == old(dest[size..])
      ensures IsChain(v, disk, chain) && Content(v, disk, chain)[pos..pos + size] == old(src[..size])
      ensures forall i :: 0 <= i < Bytes(v, chain) && !(pos <= i < pos + size) ==>
        Content(v, disk, chain)[i] == old(Content(v, disk, chain))[i]
      ensures IsChain(v, disk, other) && Content(v, disk, other) == old(Content(v, disk, other))
    {
      hide Content, OnlyIn, Cluster, Copied, Offset;
      ghost var disk0, file := disk, Content(v, disk, chain);
      CorrectedWriteExact(v, pos, size, heap.chunks);
      Write(Corrected, Corrected, Corrected, first, pos, size, src, heap, chain);
      assert Content(v, disk, chain)[pos..pos + size] == src[..size];
      OtherFileKept(v, disk0, disk, chain, other);
      Read(Corrected, first, pos, size, dest, chain);
    }
  }

  lemma ClusterStored(v: Volume, disk: seq<Byte>, idx: nat, data: seq<Byte>)
    requires v.Valid() && |data| == v.ClusterSize()
    ensures var o, disk' := ClusterOffset(v, idx), WriteBytes(disk, ClusterOffset(v, idx), data);
      && (o + v.ClusterSize() <= |disk| ==> Cluster(v, disk', idx) == data)
      && forall k :: 0 <= k < |disk| && !(o <= k < o + v.ClusterSize()) ==> disk'[k] == disk[k]
  {
  }

  lemma DeliveredExact(text: Text, v: Volume, c: seq<Byte>, pos: nat, size: nat)
    requires v.Valid() && pos + size <= |c|
    ensures text == Corrected ==> Delivered(text, v, c, pos, size) == Some(c[pos..pos + size])
    ensures Delivered(text, v, c, pos, size).Some? ==>
      && (!Misplaced(text, v, pos) || size == 0 || Offset(v, size) == 0)
      && var q := if Misplaced(text, v, pos) then Before(v, pos) else pos;
        q + size <= |c| && Delivered(text, v, c, pos, size) == Some(c[q..q + size])
  {
    hide Offset;
    if Misplaced(text, v, pos) && size == 0 {
      var q := Before(v, pos);
      assert c[q..q + size] == [] == c[pos..pos + size];
    }
  }

  /** Both searches of `read` stay inside the chain, or just behind it. */
  lemma BoundsInside(v: Volume, chain: seq<nat>, pos: nat, size: nat)
    requires v.Valid() && pos + size <= Bytes(v, chain)
    ensures StartBound(Written, pos) <= Bytes(v, chain) + 1 && StartBound(Corrected, pos) <= Bytes(v, chain) + 1
  {
  }

  /** The two searches of `read` have stopped where the copy starts, or one cluster before, and where it ends. */
  lemma ReadPlan(text: Text, v: Volume, chain: seq<nat>, pos: nat, size: nat) returns (lag: nat)
    requires v.Valid() && pos + size <= Bytes(v, chain) &&
      (!Misplaced(text, v, pos) || size == 0 || Offset(v, size) == 0)
    ensures lag == if Misplaced(text, v, pos) then v.ClusterSize() else 0
    ensures var a := Stop(v.ClusterSize(), 0, StartBound(text, pos));
      var b := Stop(v.ClusterSize(), a, pos + size);
      lag <= pos && pos - lag == (if Misplaced(text, v, pos) then Before(v, pos) else pos)
      && Plan(v, chain, a, b, pos - lag, pos - lag + size, false)
  {
    hide Offset, Stop, Plan, StartBound, Holds;
    WrittenSeekExact(v, pos);
    if !Misplaced(text, v, pos) {
      lag := 0;
      PlanStraight(text, v, chain, pos, size);
    } else {
      lag := v.ClusterSize();
      PlanEarly(v, chain, pos, size);
    }
  }

  /** What the two searches of `write` find when they end. */
  lemma WritePlan(search: Text, v: Volume, chain: seq<nat>, pos: nat, size: nat)
    requires v.Valid() && pos + size <= Bytes(v, chain)
    requires SearchEnds(search, v.ClusterSize(), pos + 1) && SearchEnds(search, v.ClusterSize(), pos + size)
    ensures var s := v.ClusterSize();
      var a := Stop(s, 0, pos + 1);
      var b := Stop(s, a, pos + size);
      && (search == Corrected || pos + 1 <= (0 + 1) * s) && (search == Corrected || pos + size <= (a + 1) * s)
      && Plan(v, chain, a, b, pos, pos + size, true) && (a < b ==> Offset(v, pos) + size > s)
  {
    hide Offset, Stop, SearchEnds;
    var s := v.ClusterSize();
    var a := Stop(s, 0, pos + 1);
    var b := Stop(s, a, pos + size);
    WrittenSearchEnds(search, s, pos + 1);
    WrittenSearchEnds(search, s, pos + size);
    PlanStraight(Corrected, v, chain, pos, size);
    MulMono(1, a + 1, s);
    if a < b { RangeLeaves(v, pos, size, a, b); }
  }

  lemma PlanStraight(text: Text, v: Volume, chain: seq<nat>, pos: nat, size: nat)
    requires v.Valid() && pos + size <= Bytes(v, chain) && !Misplaced(text, v, pos)
    ensures var a := Stop(v.ClusterSize(), 0, StartBound(text, pos));
      var b := Stop(v.ClusterSize(), a, pos + size);
      Plan(v, chain, a, b, pos, pos + size, true) && Plan(v, chain, a, b, pos, pos + size, false)
  {
    var s := v.ClusterSize();
    assert s > 0;
    hide Offset, Stop, Volume.ClusterSize;
    var a := Stop(s, 0, StartBound(text, pos));
    WrittenSeekExact(v, pos);
    LastInside(v, chain, a, Stop(s, a, pos + size), pos + size);
  }

  lemma PlanEarly(v: Volume, chain: seq<nat>, pos: nat, size: nat)
    requires v.Valid() && pos + size <= Bytes(v, chain) && Misplaced(Written, v, pos)
    requires size == 0 || Offset(v, size) == 0
    ensures var s := v.ClusterSize();
      var a := Stop(s, 0, StartBound(Written, pos));
      s <= pos && Before(v, pos) == pos - s
      && Plan(v, chain, a, Stop(s, a, pos + size), pos - s, pos - s + size, false)
  {
    var s := v.ClusterSize();
    assert s > 0;
    hide Offset, Stop, ReadPosAfter, StartBound, Volume.ClusterSize, Plan, Bytes;
    var a := EarlyStop(v, pos);
    var b := Stop(s, a, pos + size);
    LastInside(v, chain, a, b, pos + size);
    if size > 0 { LastLengthWraps(v, pos, size); }
    EarlyBounds(v, chain, a, b, pos, size);
  }

  lemma EarlyBounds(v: Volume, chain: seq<nat>, a: nat, b: nat, pos: nat, size: nat)
    requires v.Valid() && pos + size <= Bytes(v, chain) && a <= b && (a < b ==> b < |chain|)
    requires pos == (a + 1) * v.ClusterSize()
    requires if size == 0 then pos <= (b + 1) * v.ClusterSize() else pos + size == (b + 1) * v.ClusterSize()
    requires a < b ==> pos + size > b * v.ClusterSize()
    ensures pos >= v.ClusterSize() && Before(v, pos) == pos - v.ClusterSize()
    ensures Plan(v, chain, a, b, pos - v.ClusterSize(), pos - v.ClusterSize() + size, false)
  {
    var s := v.ClusterSize();
    assert (a + 1) * s == a * s + s && (b + 1) * s == b * s + s;
    if a < b && size == 0 {
      MulMono(a + 1, b, s);
    }
  }

  /** Where the loop of `write` is in the source; as written it stays where the first cluster has left it. */
  predicate SourceAt(text: Text, s: nat, first: bool, pos: nat, readPos: nat, writePos: nat)
    requires s > 0
  {
    if text == Corrected then pos <= readPos && writePos == readPos - pos
    else if first then writePos == 0
    else writePos < s && Mod(readPos, s) == 0
  }

  lemma SourceStarts(text: Text, s: nat, pos: nat)
    requires s > 0
    ensures SourceAt(text, s, true, pos, pos, 0)
  {
  }

  lemma SourceMoves(text: Text, s: nat, first: bool, pos: nat, readPos: nat, writePos: nat, readNext: nat,
          writeNext: nat)
    requires s > 0 && SourceAt(text, s, first, pos, readPos, writePos) && readPos <= readNext && Mod(readNext, s) == 0
    requires writeNext == writePos + if text == Corrected then readNext - readPos else Mod(readPos, s)
    ensures SourceAt(text, s, false, pos, readNext, writeNext)
  {
  }

  lemma SourceFits(text: Text, s: nat, first: bool, pos: nat, readPos: nat, writePos: nat, size: nat, length: nat)
    requires s > 0 && SourceAt(text, s, first, pos, readPos, writePos) && pos <= readPos <= pos + size
    requires size <= length && (text == Written && !first ==> size + s <= length)
    ensures writePos + (pos + size - readPos) <= length
  {
  }

  /** In the middle of the copying loop the rest of the loop is what `Copied` makes of the next piece written. */
  lemma PieceGoesOn(text: Text, s: nat, c: seq<Byte>, readPos: nat, writePos: nat, end: nat, src: seq<Byte>)
    requires s > 0 && NextStart(s, readPos) < end <= |c| && readPos <= end
    requires writePos + (s - Mod(readPos, s)) <= |src|
    ensures var len := s - Mod(readPos, s);
      && NextStart(s, readPos) == readPos + len
      && Copied(text, s, c, readPos, writePos, end, src)
        == Copied(text, s, Splice(c, readPos, src[writePos..writePos + len]), readPos + len,
                  writePos + if text == Corrected then len else Mod(readPos, s), end, src)
  {
    hide Copied, Splice, Mod, NextStart;
    NextLater(s, readPos);
    CopiedStep(text, s, c, readPos, writePos, end, src);
    var n := s - Mod(readPos, s);
    assert ReadBytes(src, writePos, n) == src[writePos..writePos + n];
  }

  /** All that one iteration of the loop of `write` relies on. */
  lemma WriteAhead(text: Text, v: Volume, chain: seq<nat>, k: nat, b: nat, first: bool, pos: nat, size: nat,
          readPos: nat, writePos: nat, length: nat)
    requires v.Valid() && k < b && size <= length
    requires pos <= readPos <= pos + size <= Bytes(v, chain) && Plan(v, chain, k, b, readPos, pos + size, true)
    requires text == Written && !first ==> size + v.ClusterSize() <= length
    requires v.ClusterSize() > 0 && SourceAt(text, v.ClusterSize(), first, pos, readPos, writePos)
    ensures var s := v.ClusterSize();
      var len := s - Mod(readPos, s);
      var w := writePos + if text == Corrected then len else Mod(readPos, s);
      && 0 < len && NextStart(s, readPos) == readPos + len < pos + size && writePos + len <= length
      && InCluster(v, k, readPos, len) && Plan(v, chain, k + 1, b, readPos + len, pos + size, true)
      && SourceAt(text, s, false, pos, readPos + len, w)
  {
    hide Volume.ClusterSize, Plan, InCluster, Mod, NextStart, SourceAt, Bytes;
    var s := v.ClusterSize();
    SourceFits(text, s, first, pos, readPos, writePos, size, length);
    PlanStep(v, chain, k, b, readPos, pos + size, true, 0);
    NextOffset(s, readPos, NextStart(s, readPos));
    var len := s - Mod(readPos, s);
    SourceMoves(text, s, first, pos, readPos, writePos, readPos + len,
                writePos + if text == Corrected then len else Mod(readPos, s));
  }

  lemma PieceIsLast(text: Text, v: Volume, c: seq<Byte>, k: nat, readPos: nat, writePos: nat, end: nat, src: seq<Byte>)
    requires v.Valid() && readPos <= end <= |c| && InCluster(v, k, readPos, end - readPos)
    requires writePos + (end - readPos) <= |src|
    ensures Copied(text, v.ClusterSize(), c, readPos, writePos, end, src)
         == Splice(c, readPos, src[writePos..writePos + (end - readPos)])
  {
    hide Copied, Splice;
    CopiedStep(text, v.ClusterSize(), c, readPos, writePos, end, src);
    HoldsOffset(v, k, readPos);
    assert ReadBytes(src, writePos, end - readPos) == src[writePos..writePos + (end - readPos)];
  }

  /** A range that ends in a later cluster is longer than what its first cluster holds from pos on. */
  lemma RangeLeaves(v: Volume, pos: nat, size: nat, a: nat, b: nat)
    requires v.Valid() && Holds(v, a, pos) && a < b && pos + size > b * v.ClusterSize()
    ensures Offset(v, pos) + size > v.ClusterSize()
  {
    HoldsOffset(v, a, pos);
    MulMono(a + 1, b, v.ClusterSize());
    assert (a + 1) * v.ClusterSize() == a * v.ClusterSize() + v.ClusterSize();
  }

  /** Writing back what was read, with some bytes replaced, replaces those bytes. */
  lemma SectorRewritten(disk: seq<Byte>, from: nat, at: nat, bytes: seq<Byte>, data: seq<Byte>)
    requires at + |bytes| <= |data|
    requires forall i :: 0 <= i < |data| ==>
      data[i] == if at <= i < at + |bytes| then bytes[i - at] else ReadByte(disk, from + i)
    ensures WriteBytes(disk, from, data) == WriteBytes(disk, from + at, bytes)
  {
  }

  lemma OnlyInSame(v: Volume, disk: seq<Byte>, chain: seq<nat>)
    requires v.Valid()
    ensures OnlyIn(v, disk, disk, chain)
  {
  }

  lemma PieceWritten(v: Volume, disk: seq<Byte>, disk': seq<Byte>, chain: seq<nat>, k: nat, cluster: nat,
          readPos: nat, piece: seq<Byte>)
    requires v.Valid() && IsChain(v, disk, chain) && Holds(v, k, readPos) && (k < |chain| ==> cluster == chain[k])
    requires readPos + |piece| <= (k + 1) * v.ClusterSize() && readPos + |piece| <= Bytes(v, chain)
    requires var from := Mod(readPos, v.ClusterSize());
      from + |piece| <= v.ClusterSize() &&
        disk' == WriteBytes(disk, ClusterOffset(v, cluster), Splice(Cluster(v, disk, cluster), from, piece))
    ensures Content(v, disk', chain) == Splice(Content(v, disk, chain), readPos, piece)
    ensures OnlyIn(v, disk, disk', chain) && IsChain(v, disk', chain)
  {
    hide Content, Cluster, Volume.ClusterSize, OnlyIn, Splice;
    HoldsOffset(v, k, readPos);
    var from := Mod(readPos, v.ClusterSize());
    if k < |chain| {
      ClusterSplice(v, disk, chain, k, from, piece);
    } else {
      MulMono(|chain|, k, v.ClusterSize());
      assert piece == [];
      SpliceNone(Cluster(v, disk, cluster), from);
      SpliceNone(Content(v, disk, chain), readPos);
      WriteBack(v, disk, cluster);
      OnlyInSame(v, disk, chain);
    }
    ChainKept(v, disk, disk', chain, chain);
  }

  lemma PieceSlice(v: Volume, disk: seq<Byte>, chain: seq<nat>, k: nat, cluster: nat, readPos: nat, len: nat)
    requires v.Valid() && Holds(v, k, readPos) && (k < |chain| ==> cluster == chain[k])
    requires readPos + len <= (k + 1) * v.ClusterSize() && readPos + len <= Bytes(v, chain)
    ensures var from := Mod(readPos, v.ClusterSize());
      from + len <= v.ClusterSize() &&
        Content(v, disk, chain)[readPos..readPos + len] == Cluster(v, disk, cluster)[from..from + len]
  {
    hide Content, Cluster, Volume.ClusterSize;
    HoldsOffset(v, k, readPos);
    var from := Mod(readPos, v.ClusterSize());
    assert (k + 1) * v.ClusterSize() == k * v.ClusterSize() + v.ClusterSize();
    if k < |chain| {
      ClusterSlice(v, disk, chain, k, from, from + len);
    } else {
      MulMono(|chain|, k, v.ClusterSize());
    }
  }

  lemma ChainStep(v: Volume, disk: seq<Byte>, chain: seq<nat>, k: nat, b: nat)
    requires v.Valid() && IsChain(v, disk, chain) && k < b < |chain|
    ensures FatEntry(v, disk, chain[k]) == chain[k + 1]
  {
  }

  lemma SameCluster(v: Volume, disk: seq<Byte>, chain: seq<nat>, k: nat, b: nat)
    requires v.Valid() && IsChain(v, disk, chain) && k <= b && (k < b ==> b < |chain| && chain[k] == chain[b])
    ensures k == b
  {
  }

  lemma BoundInside(v: Volume, chain: seq<nat>, i: nat, bound: nat)
    requires v.Valid() && i <= |chain| && bound <= Bytes(v, chain) + 1 && bound > (i + 1) * v.ClusterSize()
    ensures i < |chain|
  {
    assert (i + 1) * v.ClusterSize() == i * v.ClusterSize() + v.ClusterSize();
  }
}
