/** The loops of `FAT16::read` and `FAT16::write` on positions: where they stop, and what they copy from where. */
module FatRanges {
  import opened Arith
  import opened Readings
  import opened Fat

  /** Cluster k of the chain holds position pos. */
  predicate Holds(v: Volume, k: nat, pos: nat) {
    k * v.ClusterSize() <= pos < (k + 1) * v.ClusterSize()
  }

  /** c with the bytes of src put at pos. */
  function Splice(c: seq<Byte>, pos: nat, src: seq<Byte>): (r: seq<Byte>)
    requires pos + |src| <= |c|
    ensures |r| == |c|
    ensures forall i :: 0 <= i < |c| ==> r[i] == if pos <= i < pos + |src| then src[i - pos] else c[i]
  {
    c[..pos] + src + c[pos + |src|..]
  }

  lemma SpliceJoin(c: seq<Byte>, pos: nat, x: seq<Byte>, y: seq<Byte>)
    requires pos + |x| + |y| <= |c|
    ensures Splice(Splice(c, pos, x), pos + |x|, y) == Splice(c, pos, x + y)
  {
  }

  lemma SpliceNone(c: seq<Byte>, pos: nat)
    requires pos <= |c|
    ensures Splice(c, pos, []) == c
  {
  }

  lemma SpliceAt(c: seq<Byte>, pos: nat, x: seq<Byte>, j: nat)
    requires pos + |x| <= |c| && j < |c|
    ensures Splice(c, pos, x)[j] == if pos <= j < pos + |x| then x[j - pos] else c[j]
  {
  }

  lemma HoldsOffset(v: Volume, k: nat, pos: nat)
    requires v.Valid() && Holds(v, k, pos)
    ensures Div(pos, v.ClusterSize()) == k && Mod(pos, v.ClusterSize()) == pos - k * v.ClusterSize()
  {
    DivUnique(pos, v.ClusterSize(), k, pos - k * v.ClusterSize());
  }

  // ----- finding the cluster -------------------------------------------------

  /** The bound that the first loop of `read` compares with: as written `>` where `write` has `>=`. */
  function StartBound(text: Text, pos: nat): nat { if text == Written then pos else pos + 1 }

  /** The position in the chain at which the loop `while (bound > (idx + 1) * size) idx++` stops. */
  function Stop(size: nat, idx: nat, bound: nat): (r: nat)
    requires size > 0
    ensures r >= idx && bound <= (r + 1) * size && (r > idx ==> bound > r * size)
    decreases bound - idx * size
  {
    if bound > (idx + 1) * size then
      assert (idx + 1) * size == idx * size + size;
      Stop(size, idx + 1, bound)
    else idx
  }

  /**
   * The written search for the first cluster is right exactly when the position is 0 or not a cluster multiple;
   * otherwise it stops one cluster early.
   */
  lemma WrittenSeekExact(v: Volume, pos: nat)
    requires v.Valid()
    ensures Holds(v, Stop(v.ClusterSize(), 0, StartBound(Corrected, pos)), pos)
    ensures Holds(v, Stop(v.ClusterSize(), 0, StartBound(Written, pos)), pos) <==> pos == 0 || Offset(v, pos) != 0
    ensures pos > 0 && Offset(v, pos) == 0 ==>
      pos >= v.ClusterSize() && Holds(v, Stop(v.ClusterSize(), 0, StartBound(Written, pos)), pos - v.ClusterSize())
  {
    var s := v.ClusterSize();
    assert s > 0;
    hide Volume.ClusterSize, Number, Offset;
    var r := Stop(s, 0, pos);
    Locate(v, pos);
    assert (r + 1) * s == r * s + s;
    if pos > 0 {
      if pos == (r + 1) * s {
        Located(v, r + 1, 0);
      } else {
        Located(v, r, pos - r * s);
      }
    }
  }

  /** A 512-byte cluster, read from position 512: as written the search stays in the first cluster. */
  lemma WrittenSeekFails()
    ensures var v := Volume(1, 1, 1, 2, 2);
      v.Valid() && !Holds(v, Stop(v.ClusterSize(), 0, StartBound(Written, 512)), 512)
  {
  }

  // ----- walking over the clusters of a range ----------------------------------

  /** len bytes from file position `place` on lie in cluster k of the chain. */
  predicate InCluster(v: Volume, k: nat, place: nat, len: nat) {
    Holds(v, k, place) && place + len <= (k + 1) * v.ClusterSize()
  }

  /** The copying loop is at `place` in cluster k and has to reach `end` in cluster b, or at its start unless strict. */
  predicate Plan(v: Volume, chain: seq<nat>, k: nat, b: nat, place: nat, end: nat, strict: bool) {
    && k <= b && Holds(v, k, place) && place <= end <= (b + 1) * v.ClusterSize() && end <= Bytes(v, chain)
    && (k < b ==> b < |chain| && end >= b * v.ClusterSize() && (strict ==> end > b * v.ClusterSize()))
  }

  /** Where the loops of `read` and `write` go on after a cluster. */
  function NextStart(s: nat, readPos: nat): nat
    requires s > 0
  {
    (Div(readPos, s) + 1) * s
  }

  lemma PlanInside(v: Volume, chain: seq<nat>, k: nat, b: nat, place: nat, end: nat, strict: bool)
    requires Plan(v, chain, k, b, place, end, strict)
    ensures k <= b && place <= end <= Bytes(v, chain) && (k < b ==> b < |chain|)
  {
  }

  /** One more whole cluster: `readPos` may run a cluster ahead of the place that is copied. */
  lemma PlanStep(v: Volume, chain: seq<nat>, k: nat, b: nat, place: nat, end: nat, strict: bool, lag: nat)
    requires v.Valid() && k < b && Plan(v, chain, k, b, place, end, strict) && (lag == 0 || lag == v.ClusterSize())
    ensures var s := v.ClusterSize();
      var len := s - Mod(place, s);
      && Mod(place + lag, s) == Mod(place, s) < s && NextStart(s, place + lag) == place + lag + len
      && place + len <= end && (strict ==> place + len < end)
      && InCluster(v, k, place, len) && Plan(v, chain, k + 1, b, place + len, end, strict)
  {
    NextPosition(v, k, b, place, end);
    MulMono(k + 1, b, v.ClusterSize());
    Lagging(v.ClusterSize(), place, lag);
  }

  lemma PlanLast(v: Volume, chain: seq<nat>, k: nat, place: nat, end: nat, strict: bool, lag: nat)
    requires v.Valid() && Plan(v, chain, k, k, place, end, strict) && (lag == 0 || lag == v.ClusterSize())
    ensures Mod(place + lag, v.ClusterSize()) == Mod(place, v.ClusterSize()) && InCluster(v, k, place, end - place)
  {
    Lagging(v.ClusterSize(), place, lag);
  }

  lemma Lagging(s: nat, place: nat, lag: nat)
    requires s > 0 && (lag == 0 || lag == s)
    ensures Mod(place + lag, s) == Mod(place, s)
    ensures (Div(place + lag, s) + 1) * s == (Div(place, s) + 1) * s + lag
  {
    if lag == s {
      DivAdd(1, s, place);
      assert (Div(place, s) + 1 + 1) * s == (Div(place, s) + 1) * s + s;
    }
  }

  /** The last cluster of a non-empty range is in the chain. */
  lemma LastInside(v: Volume, chain: seq<nat>, a: nat, b: nat, end: nat)
    requires v.Valid() && a <= b && end <= Bytes(v, chain) && (b > a ==> end > b * v.ClusterSize())
    ensures b > a ==> b < |chain|
  {
    if b > a && b >= |chain| { MulMono(|chain|, b, v.ClusterSize()); }
  }

  lemma NextPosition(v: Volume, k: nat, b: nat, readPos: nat, end: nat)
    requires v.Valid() && Holds(v, k, readPos) && k < b && end >= b * v.ClusterSize()
    ensures var s := v.ClusterSize(); var next := (Div(readPos, s) + 1) * s;
      next == readPos + (s - Mod(readPos, s)) && next == (k + 1) * s && next <= end && Holds(v, k + 1, next)
  {
    HoldsOffset(v, k, readPos);
    var s := v.ClusterSize();
    assert (k + 1) * s == k * s + s && (k + 1 + 1) * s == (k + 1) * s + s;
    MulMono(k + 1, b, s);
  }

  // ----- what the written `read` delivers ------------------------------------

  /** The written search has stopped one cluster before the one that holds pos. */
  predicate Misplaced(text: Text, v: Volume, pos: nat)
    requires v.Valid()
  {
    text == Written && pos > 0 && Offset(v, pos) == 0
  }

  /** One cluster before pos. */
  function Before(v: Volume, pos: nat): (r: nat)
    ensures r <= pos
  {
    if pos >= v.ClusterSize() then pos - v.ClusterSize() else 0
  }

  /** What `read` puts into dest; None when the length of its last `memcpy` wraps, see `LastLengthWraps`. */
  function Delivered(text: Text, v: Volume, c: seq<Byte>, pos: nat, size: nat): (r: Option<seq<Byte>>)
    requires v.Valid() && pos + size <= |c|
    ensures r.Some? ==> |r.value| == size
  {
    if !Misplaced(text, v, pos) || size == 0 then Some(c[pos..pos + size])
    else if Offset(v, size) == 0 then Some(c[Before(v, pos)..Before(v, pos) + size])
    else None
  }

  /** `readPos` after n clusters. */
  function ReadPosAfter(s: nat, readPos: nat, n: nat): nat
    requires s > 0
  {
    if n == 0 then readPos else NextStart(s, ReadPosAfter(s, readPos, n - 1))
  }

  lemma {:induction false} AlignedAfter(s: nat, k: nat, n: nat)
    requires s > 0
    ensures ReadPosAfter(s, k * s, n) == (k + n) * s
  {
    if n > 0 {
      AlignedAfter(s, k, n - 1);
      DivUnique((k + n - 1) * s, s, k + n - 1, 0);
    }
  }

  /**
   * When the written search starts early, at cluster a of the chain instead of a + 1, the loop ends with `readPos` at
   * the end of cluster b, and the last length `endPos - readPos` is negative exactly when size is no multiple of the
   * cluster size.
   */
  lemma LastLengthWraps(v: Volume, pos: nat, size: nat)
    requires v.Valid() && Misplaced(Written, v, pos) && size > 0
    ensures var s := v.ClusterSize();
      var a := Stop(s, 0, StartBound(Written, pos));
      var b := Stop(s, a, pos + size);
      && a < b && pos == (a + 1) * s && ReadPosAfter(s, pos, b - a) == (b + 1) * s
      && pos + size <= ReadPosAfter(s, pos, b - a)
      && (pos + size < ReadPosAfter(s, pos, b - a) <==> Offset(v, size) != 0)
  {
    var s := v.ClusterSize();
    hide Volume.ClusterSize, Number, Offset, Stop, ReadPosAfter;
    var a := EarlyStop(v, pos);
    var b := Stop(s, a, pos + size);
    assert pos == (a + 1) * s == a * s + s;
    AlignedAfter(s, a + 1, b - a);
    SizeMultiple(v, a, b, size);
  }

  lemma EarlyStop(v: Volume, pos: nat) returns (a: nat)
    requires v.Valid() && Misplaced(Written, v, pos)
    ensures a == Stop(v.ClusterSize(), 0, StartBound(Written, pos)) && pos == (a + 1) * v.ClusterSize()
  {
    var s := v.ClusterSize();
    a := Stop(s, 0, pos);
    hide Volume.ClusterSize, Number, Offset, Stop;
    WrittenSeekExact(v, pos);
    Locate(v, pos);
    HoldsOffset(v, a, pos - s);
    DivAdd(1, s, pos - s);
    assert (a + 1) * s == a * s + s;
    HoldsStart(v, a, pos);
  }

  lemma HoldsStart(v: Volume, a: nat, pos: nat)
    requires v.Valid() && pos >= v.ClusterSize() && Holds(v, a, pos - v.ClusterSize()) && Offset(v, pos) == 0
    ensures pos == (a + 1) * v.ClusterSize()
  {
    var s := v.ClusterSize();
    hide Volume.ClusterSize;
    assert (a + 1) * s == a * s + s;
    Located(v, a + 1, pos - (a + 1) * s);
  }

  lemma SizeMultiple(v: Volume, a: nat, b: nat, size: nat)
    requires v.Valid() && a < b && b * v.ClusterSize() < (a + 1) * v.ClusterSize() + size <= (b + 1) * v.ClusterSize()
    ensures Offset(v, size) == 0 <==> (a + 1) * v.ClusterSize() + size == (b + 1) * v.ClusterSize()
  {
    var s := v.ClusterSize();
    hide Volume.ClusterSize;
    var n := b - a - 1;
    assert (n + 1) * s == n * s + s && b * s == (a + 1) * s + n * s && (b + 1) * s == b * s + s;
    if size == (n + 1) * s {
      Located(v, n + 1, 0);
    } else {
      Located(v, n, size - n * s);
    }
  }

  /**
   * `read` as written delivers the bytes asked for, whatever the file holds, exactly at position 0, off cluster
   * multiples, and for an empty request.
   */
  lemma WrittenReadExact(v: Volume, pos: nat, size: nat)
    requires v.Valid()
    ensures (forall c: seq<Byte> :: pos + size <= |c| ==>
      Delivered(Written, v, c, pos, size) == Some(c[pos..pos + size]))
            <==> pos == 0 || Offset(v, pos) != 0 || size == 0
  {
    if Misplaced(Written, v, pos) && size > 0 {
      var c := EarlyDiffers(v, pos, size);
    }
  }

  lemma EarlyDiffers(v: Volume, pos: nat, size: nat) returns (c: seq<Byte>)
    requires v.Valid() && Misplaced(Written, v, pos) && size > 0
    ensures |c| == pos + size && Delivered(Written, v, c, pos, size) != Some(c[pos..pos + size])
  {
    var a := EarlyStop(v, pos);
    hide Offset, Volume.ClusterSize;
    var q := Before(v, pos);
    assert q < pos by {
      assert (a + 1) * v.ClusterSize() == a * v.ClusterSize() + v.ClusterSize();
    }
    c := seq(pos + size, i => if i == q then 1 else 0);
    assert c[q..q + size][0] == 1 && c[pos..pos + size][0] == 0;
  }

  // ----- the search loops of `write`, which never advance --------------------

  /** `clusterIdx` after n iterations of a search loop of `write`. */
  function Index(text: Text, n: nat): nat { if text == Written then 0 else n }

  /** A search loop of `write` that compares with the bound comes to an end. */
  ghost predicate SearchEnds(text: Text, size: nat, bound: nat) {
    exists n :: !(bound > (Index(text, n) + 1) * size)
  }

  /** A search loop of `write` ends exactly when it advances or need not run at all. */
  lemma WrittenSearchEnds(text: Text, size: nat, bound: nat)
    requires size > 0
    ensures SearchEnds(text, size, bound) <==> text == Corrected || bound <= size
  {
    if text == Corrected {
      var n := Stop(size, 0, bound);
      assert !(bound > (Index(text, n) + 1) * size);
    } else if bound <= size {
      assert !(bound > (Index(text, 0) + 1) * size);
    }
  }

  /** With 512-byte clusters, from position 512 on, the first search of `write` as written never ends. */
  lemma WrittenSearchHangs()
    ensures !SearchEnds(Written, 512, 512 + 1) && SearchEnds(Corrected, 512, 512 + 1)
  {
    WrittenSearchEnds(Written, 512, 513);
    WrittenSearchEnds(Corrected, 512, 513);
  }

  // ----- the copying loop of `write` -------------------------------------------

  /** How far a pass of the loop moves on in the source: as written by the part of the cluster that it did not fill. */
  function Moved(text: Text, s: nat, readPos: nat): nat
    requires s > 0
  {
    if text == Corrected then s - Mod(readPos, s) else Mod(readPos, s)
  }

  /**
   * What the copying loop makes of file c, src being memory from the start of the source, from `readPos` and
   * `writePos` on.
   */
  function Copied(text: Text, s: nat, c: seq<Byte>, readPos: nat, writePos: nat, end: nat, src: seq<Byte>)
    : (r: seq<Byte>)
    requires s > 0 && readPos <= end <= |c|
    ensures |r| == |c|
    decreases end - readPos
  {
    NextLater(s, readPos);
    var next := NextStart(s, readPos);
    if end <= next then Splice(c, readPos, ReadBytes(src, writePos, end - readPos))
    else
      Copied(text, s, Splice(c, readPos, ReadBytes(src, writePos, next - readPos)), next,
             writePos + Moved(text, s, readPos), end, src)
  }

  lemma NextLater(s: nat, readPos: nat)
    requires s > 0
    ensures NextStart(s, readPos) == readPos + (s - Mod(readPos, s)) > readPos
  {
    DivMod(readPos, s);
    assert (Div(readPos, s) + 1) * s == Div(readPos, s) * s + s;
  }

  lemma ModOf(s: nat, k: nat, j: nat)
    requires k * s <= j < (k + 1) * s
    ensures Div(j, s) == k && Mod(j, s) == j - k * s
  {
    assert (k + 1) * s == k * s + s;
    DivUnique(j, s, k, j - k * s);
  }

  lemma NextAligned(s: nat, k: nat)
    requires s > 0
    ensures Mod(k * s, s) == 0 && Div(k * s, s) == k && NextStart(s, k * s) == (k + 1) * s == k * s + s
  {
    DivUnique(k * s, s, k, 0);
  }

  lemma CopiedStep(text: Text, s: nat, c: seq<Byte>, readPos: nat, writePos: nat, end: nat, src: seq<Byte>)
    requires s > 0 && readPos <= end <= |c|
    ensures var next := NextStart(s, readPos);
      && next > readPos
      && Copied(text, s, c, readPos, writePos, end, src) ==
        if end <= next then Splice(c, readPos, ReadBytes(src, writePos, end - readPos))
        else Copied(text, s, Splice(c, readPos, ReadBytes(src, writePos, next - readPos)), next,
                    writePos + Moved(text, s, readPos), end, src)
  {
    hide Splice, Moved, NextStart, ReadBytes;
    NextLater(s, readPos);
  }

  /** With the corrected advance the range of the file becomes the source. */
  lemma {:induction false} CopiedCorrected(s: nat, c: seq<Byte>, readPos: nat, writePos: nat, end: nat, src: seq<Byte>)
    requires s > 0 && readPos <= end <= |c| && writePos + (end - readPos) <= |src|
    ensures Copied(Corrected, s, c, readPos, writePos, end, src)
      == Splice(c, readPos, src[writePos..writePos + (end - readPos)])
    decreases end - readPos
  {
    hide Splice, Mod, NextStart, Copied, ReadBytes;
    NextLater(s, readPos);
    CopiedStep(Corrected, s, c, readPos, writePos, end, src);
    var next := NextStart(s, readPos);
    if end <= next {
      assert ReadBytes(src, writePos, end - readPos) == src[writePos..writePos + (end - readPos)];
    } else {
      var n := next - readPos;
      var x := ReadBytes(src, writePos, n);
      assert x == src[writePos..writePos + n];
      CopiedCorrected(s, Splice(c, readPos, x), next, writePos + n, end, src);
      SpliceJoin(c, readPos, x, src[writePos + n..writePos + n + (end - next)]);
      assert x + src[writePos + n..writePos + n + (end - next)] == src[writePos..writePos + (end - readPos)];
    }
  }

  /** With the written advance every cluster after the first gets the same bytes of the source. */
  lemma {:induction false} CopiedAligned(s: nat, c: seq<Byte>, k: nat, w: nat, end: nat, src: seq<Byte>, j: nat)
    requires s > 0 && k * s <= end <= |c| && j < |c|
    ensures Copied(Written, s, c, k * s, w, end, src)[j]
         == if k * s <= j < end then ReadByte(src, w + Mod(j, s)) else c[j]
    decreases end - k * s
  {
    hide Mod, NextStart, Copied, Splice, ReadBytes;
    NextAligned(s, k);
    CopiedStep(Written, s, c, k * s, w, end, src);
    var n := if end <= (k + 1) * s then end - k * s else s;
    var c' := Splice(c, k * s, ReadBytes(src, w, n));
    assert c'[j] == if k * s <= j < k * s + n then ReadByte(src, w + (j - k * s)) else c[j];
    if k * s <= j < (k + 1) * s {
      ModOf(s, k, j);
    }
    if end > (k + 1) * s {
      CopiedAligned(s, c', k + 1, w, end, src, j);
    }
  }

  lemma CopiedWritten(s: nat, c: seq<Byte>, pos: nat, end: nat, src: seq<Byte>, j: nat)
    requires s > 0 && pos <= end <= |c| && pos <= j < end
    ensures Copied(Written, s, c, pos, 0, end, src)[j]
         == ReadByte(src, if j < NextStart(s, pos) then j - pos else Mod(pos, s) + Mod(j, s))
  {
    hide Mod, Splice;
    NextLater(s, pos);
    var next := NextStart(s, pos);
    if end <= next {
      SpliceAt(c, pos, ReadBytes(src, 0, end - pos), j);
    } else {
      CopiedAligned(s, Splice(c, pos, ReadBytes(src, 0, next - pos)), Div(pos, s) + 1, Mod(pos, s), end, src, j);
      SpliceAt(c, pos, ReadBytes(src, 0, next - pos), j);
    }
  }

  /** The range lies in one cluster, or in two of which the first is entered exactly in the middle. */
  predicate AdvanceWorks(v: Volume, pos: nat, size: nat)
    requires v.Valid()
  {
    || Offset(v, pos) + size <= v.ClusterSize()
    || (Offset(v, pos) + size <= 2 * v.ClusterSize() && 2 * Offset(v, pos) == v.ClusterSize())
  }

  /** Byte j of the range, in the a-th cluster after the one that holds pos, comes from its place in the source. */
  lemma AdvancePlace(v: Volume, pos: nat, size: nat, j: nat)
    requires v.Valid() && AdvanceWorks(v, pos, size) && pos <= j < pos + size
    ensures var s := v.ClusterSize(); j >= NextStart(s, pos) ==> Mod(pos, s) + Mod(j, s) == j - pos
  {
    var s := v.ClusterSize();
    hide Volume.ClusterSize, Mod;
    NextLater(s, pos);
    if j >= NextStart(s, pos) {
      assert (Div(pos, s) + 1 + 1) * s == NextStart(s, pos) + s;
      ModOf(s, Div(pos, s) + 1, j);
    }
  }

  /**
   * The copying loop with the advance as written puts the source into the file, whatever both hold, exactly when the
   * range stays in one cluster, or starts in the middle of one and ends in the next.
   */
  lemma WrittenAdvanceExact(v: Volume, pos: nat, size: nat, n: nat)
    requires v.Valid() && pos + size <= n
    ensures (forall c: seq<Byte>, src: seq<Byte> :: |c| == n && |src| >= size + v.ClusterSize() ==>
              Copied(Written, v.ClusterSize(), c, pos, 0, pos + size, src) == Splice(c, pos, src[..size]))
            <==> AdvanceWorks(v, pos, size)
  {
    var s := v.ClusterSize();
    if AdvanceWorks(v, pos, size) {
      forall c: seq<Byte>, src: seq<Byte> | |c| == n && |src| >= size + s
        ensures Copied(Written, s, c, pos, 0, pos + size, src) == Splice(c, pos, src[..size])
      {
        AdvanceRight(v, pos, size, c, src);
      }
    } else {
      var c, src := AdvanceWrong(v, pos, size, n);
    }
  }

  lemma AdvanceRight(v: Volume, pos: nat, size: nat, c: seq<Byte>, src: seq<Byte>)
    requires v.Valid() && pos + size <= |c| && |src| >= size + v.ClusterSize() && AdvanceWorks(v, pos, size)
    ensures Copied(Written, v.ClusterSize(), c, pos, 0, pos + size, src) == Splice(c, pos, src[..size])
  {
    var s := v.ClusterSize();
    assert s > 0;
    hide Volume.ClusterSize, Copied, AdvanceWorks, Mod, NextStart;
    var r := Copied(Written, s, c, pos, 0, pos + size, src);
    forall j | 0 <= j < |c| ensures r[j] == if pos <= j < pos + size then src[j - pos] else c[j] {
      if pos <= j < pos + size { AdvancePlace(v, pos, size, j); }
      AdvanceByte(s, pos, size, c, src, j);
    }
    assert r == Splice(c, pos, src[..size]);
  }

  lemma AdvanceByte(s: nat, pos: nat, size: nat, c: seq<Byte>, src: seq<Byte>, j: nat)
    requires s > 0 && pos + size <= |c| && |src| >= size && j < |c|
    requires pos <= j < pos + size && j >= NextStart(s, pos) ==> Mod(pos, s) + Mod(j, s) == j - pos
    ensures Copied(Written, s, c, pos, 0, pos + size, src)[j] == if pos <= j < pos + size then src[j - pos] else c[j]
  {
    hide Copied, NextStart, Mod;
    if pos <= j < pos + size {
      CopiedWritten(s, c, pos, pos + size, src, j);
    } else {
      CopiedOutside(s, c, pos, 0, pos + size, src, j);
    }
  }

  /** No byte outside the range changes, wherever the source is read. */
  lemma {:induction false} CopiedOutside(s: nat, c: seq<Byte>, readPos: nat, w: nat, end: nat, src: seq<Byte>, j: nat)
    requires s > 0 && readPos <= end <= |c| && j < |c| && !(readPos <= j < end)
    ensures Copied(Written, s, c, readPos, w, end, src)[j] == c[j]
    decreases end - readPos
  {
    hide Moved, NextStart, Copied, Splice, ReadBytes;
    CopiedStep(Written, s, c, readPos, w, end, src);
    var next := NextStart(s, readPos);
    if end > next {
      var c' := Splice(c, readPos, ReadBytes(src, w, next - readPos));
      CopiedOutside(s, c', next, w + Moved(Written, s, readPos), end, src, j);
    }
  }

  lemma AdvanceWrong(v: Volume, pos: nat, size: nat, n: nat) returns (c: seq<Byte>, src: seq<Byte>)
    requires v.Valid() && pos + size <= n && !AdvanceWorks(v, pos, size)
    ensures |c| == n && |src| == size + v.ClusterSize()
    ensures Copied(Written, v.ClusterSize(), c, pos, 0, pos + size, src) != Splice(c, pos, src[..size])
  {
    var s, off := v.ClusterSize(), Offset(v, pos);
    hide Volume.ClusterSize, Copied, NextStart;
    c := seq(n, i => 0);
    src := seq(size + s, i => if i == off then 1 else 0);
    NextLater(s, pos);
    var j := NextStart(s, pos) + if 2 * off != s then 0 else s;
    NextOffset(s, pos, j);
    CopiedWritten(s, c, pos, pos + size, src, j);
    assert Splice(c, pos, src[..size])[j] == src[j - pos] == 0;
  }

  lemma NextOffset(s: nat, pos: nat, j: nat)
    requires s > 0 && (j == NextStart(s, pos) || j == NextStart(s, pos) + s)
    ensures Mod(j, s) == 0
  {
    hide Mod, Div;
    var k := Div(pos, s) + 1;
    assert (k + 1) * s == k * s + s;
    NextAligned(s, k);
    NextAligned(s, k + 1);
  }

  /** Two 512-byte clusters written from position 0: the second gets the beginning of the source again. */
  lemma WrittenAdvanceFails(c: seq<Byte>, src: seq<Byte>, i: nat)
    requires |c| >= 1024 && |src| >= 1024 && i < 512
    ensures Copied(Written, 512, c, 0, 0, 1024, src)[512 + i] == src[i]
  {
    hide Copied;
    CopiedWritten(512, c, 0, 1024, src, 512 + i);
  }
}
