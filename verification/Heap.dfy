/** The heap as it is kept in memory: headers inside the arena, linked by `next` and found by address arithmetic. */
module HeapMemory {
  import opened Bits
  import opened Readings
  import opened HeapSpec

  /** A `HeapEntry`; `next` is 0 for NULL. */
  datatype Header = Header(free: bool, size: nat, next: nat)

  /** The headers in memory by address, stale ones included. */
  type Memory = map<nat, Header>

  /** The header that chunk 0 of bs has at address a. */
  function HeaderOf(a: nat, bs: seq<Chunk>): Header
    requires bs != []
  {
    Header(bs[0].free, bs[0].size, if |bs| == 1 then 0 else NextAddr(a, bs[0]))
  }

  /** The headers from a on are those of bs, each `next` being the computed next address, the last one NULL. */
  predicate Chain(mem: Memory, a: nat, bs: seq<Chunk>)
    decreases |bs|
  {
    && bs != [] && a > 0 && a in mem && mem[a] == HeaderOf(a, bs)
    && (|bs| > 1 ==> Chain(mem, NextAddr(a, bs[0]), bs[1..]))
  }

  /** Address x is the header of some chunk of bs that satisfies `free`. */
  predicate HeaderAt(a: nat, bs: seq<Chunk>, x: nat, onlyFree: bool)
    decreases |bs|
  {
    bs != [] && ((x == a && (onlyFree ==> bs[0].free)) || HeaderAt(NextAddr(a, bs[0]), bs[1..], x, onlyFree))
  }

  ghost predicate Same(mem: Memory, mem': Memory, x: nat) {
    (x in mem' <==> x in mem) && (x in mem ==> mem'[x] == mem[x])
  }

  lemma {:induction false} HeaderAfter(a: nat, bs: seq<Chunk>, x: nat, onlyFree: bool)
    requires HeaderAt(a, bs, x, onlyFree)
    ensures a <= x && x + HEADER <= a + Extent(bs)
    decreases |bs|
  {
    if x != a || (onlyFree && !bs[0].free) {
      HeaderAfter(NextAddr(a, bs[0]), bs[1..], x, onlyFree);
    }
  }

  /** A chain depends only on its own headers. */
  lemma {:induction false} ChainSame(mem: Memory, mem': Memory, a: nat, bs: seq<Chunk>)
    requires Chain(mem, a, bs) && forall x: nat :: HeaderAt(a, bs, x, false) ==> Same(mem, mem', x)
    ensures Chain(mem', a, bs)
    decreases |bs|
  {
    assert HeaderAt(a, bs, a, false);
    if |bs| > 1 {
      ChainSame(mem, mem', NextAddr(a, bs[0]), bs[1..]);
    }
  }

  /** A header never overlaps a live payload, so callers may write whatever they like into theirs. */
  lemma {:induction false} HeaderApart(a: nat, bs: seq<Chunk>, x: nat, p: Payload)
    requires HeaderAt(a, bs, x, false) && p in Live(a, bs)
    ensures x + HEADER <= p.start || p.End() <= x
    decreases |bs|
  {
    if x == a {
      LiveInside(a, bs, p);
    } else if !bs[0].free && p == Payload(a + HEADER, bs[0].size) {
      HeaderAfter(NextAddr(a, bs[0]), bs[1..], x, false);
    } else {
      HeaderApart(NextAddr(a, bs[0]), bs[1..], x, p);
    }
  }

  /** Writes that touch only live payloads leave the chain as it is. */
  lemma CallersWriteSafely(mem: Memory, mem': Memory, a: nat, bs: seq<Chunk>)
    requires Chain(mem, a, bs)
    requires forall x: nat :: !Same(mem, mem', x) ==>
      exists p :: p in Live(a, bs) && x < p.End() && p.start < x + HEADER
    ensures Chain(mem', a, bs)
  {
    forall x: nat | HeaderAt(a, bs, x, false) ensures Same(mem, mem', x) {
      if !Same(mem, mem', x) {
        var p :| p in Live(a, bs) && x < p.End() && p.start < x + HEADER;
        HeaderApart(a, bs, x, p);
      }
    }
    ChainSame(mem, mem', a, bs);
  }

  // ----- clean -------------------------------------------------------------

  /** One iteration of the loop of `clean` at entry a, whose successor by address is nx. */
  function JoinHeaders(mem: Memory, a: nat, nx: nat): Memory
    requires a in mem && nx in mem
  {
    if mem[a].free && mem[nx].free
    then mem[a := Header(true, mem[a].size + mem[nx].size + HEADER, mem[nx].next)] else mem
  }

  /** The loop of `clean` from entry a, for at most n steps; the next entry is the one found before the join. */
  function CleanMemory(mem: Memory, a: nat, n: nat): Memory
    decreases n
  {
    if n == 0 || a !in mem || mem[a].next == 0 then mem
    else
      var nx := a + HEADER + mem[a].size;
      if nx !in mem then mem
      else
        var mem1 := JoinHeaders(mem, a, nx);
        if mem1[a].next == 0 then mem1 else CleanMemory(mem1, nx, n - 1)
  }

  /**
   * Although the pass goes on from headers that are no longer chunks, it leaves a chain for `Clean(bs)`, and the only
   * headers it rewrites were headers of free chunks.
   */
  lemma {:induction false} CleanChain(mem: Memory, a: nat, bs: seq<Chunk>, n: nat)
    requires Chain(mem, a, bs) && n >= |bs|
    ensures var mem' := CleanMemory(mem, a, n);
      && Chain(mem', a, Clean(bs))
      && (|bs| > 1 ==> Chain(mem', NextAddr(a, bs[0]), Clean(bs[1..])))
      && forall x: nat :: !HeaderAt(a, bs, x, true) ==> Same(mem, mem', x)
    decreases |bs|
  {
    if |bs| > 1 {
      var nx := NextAddr(a, bs[0]);
      var mem1 := JoinHeaders(mem, a, nx);
      ChainApart(mem, mem1, a, bs);
      if |bs| == 2 {
        if bs[0].free && bs[1].free {
          assert bs[2..] == [];
        } else {
          CleanChain(mem1, nx, bs[1..], n - 1);
        }
      } else {
        CleanChain(mem1, nx, bs[1..], n - 1);
        assert bs[1..][1..] == bs[2..];
        HeadKept(mem1, CleanMemory(mem1, nx, n - 1), a, bs);
      }
    }
  }

  /** Rewriting the first header leaves the rest of the chain. */
  lemma ChainApart(mem: Memory, mem1: Memory, a: nat, bs: seq<Chunk>)
    requires |bs| > 1 && Chain(mem, a, bs) && forall x: nat :: x != a ==> Same(mem, mem1, x)
    ensures Chain(mem1, NextAddr(a, bs[0]), bs[1..])
  {
    forall x: nat | HeaderAt(NextAddr(a, bs[0]), bs[1..], x, false) ensures Same(mem, mem1, x) {
      HeaderAfter(NextAddr(a, bs[0]), bs[1..], x, false);
    }
    ChainSame(mem, mem1, NextAddr(a, bs[0]), bs[1..]);
  }

  lemma HeadKept(mem1: Memory, mem': Memory, a: nat, bs: seq<Chunk>)
    requires |bs| > 1 && a in mem1
    requires forall x: nat :: !HeaderAt(NextAddr(a, bs[0]), bs[1..], x, true) ==> Same(mem1, mem', x)
    ensures a in mem' && mem'[a] == mem1[a]
  {
    if HeaderAt(NextAddr(a, bs[0]), bs[1..], a, true) {
      HeaderAfter(NextAddr(a, bs[0]), bs[1..], a, true);
    }
  }

  // ----- malloc ------------------------------------------------------------

  datatype Outcome = Take | Split | Refuse

  /** `size + sizeof(HeapEntry)`, which wraps as written. */
  function Room(text: Text, n: nat): nat {
    if text == Written then (n + HEADER) % WORD else n + HEADER
  }

  /**
   * The size that `split` gives the new entry; as written the operands are the wrong way round and the result wraps.
   */
  function RestSize(text: Text, n: nat, size: nat): nat {
    match text
    case Written => (n - (size + HEADER)) % WORD
    case Corrected => if size > n + HEADER then size - (n + HEADER) else 0
  }

  /** What `malloc` does with the entry its loop stops at; as written it does not look at `free` again. */
  function Decide(text: Text, h: Header, n: nat): Outcome {
    if text == Corrected && !h.free then Refuse
    else if h.size >= n && h.size <= Room(text, n) then Take
    else if h.size > Room(text, n) then Split
    else Refuse
  }

  /** Memory and result after `malloc` has stopped at entry e. */
  function MallocAt(text: Text, mem: Memory, e: nat, n: nat): (Memory, nat)
    requires e in mem
  {
    var h := mem[e];
    match Decide(text, h, n)
    case Take => (mem[e := h.(free := false)], e + HEADER)
    case Split =>
      var nx := if text == Written then (e + n + HEADER) % WORD else e + n + HEADER;
      (mem[nx := Header(true, RestSize(text, n, h.size), h.next)][e := Header(false, n, nx)], e + HEADER)
    case Refuse => (mem, 0)
  }

  /**
   * The entries on which `malloc` as written does what it should: a free one that need not be split, or one too
   * small.
   */
  predicate Agrees(h: Header, n: nat) {
    (h.free && n <= h.size <= n + HEADER) || (h.size < n && h.size <= (n + HEADER) % WORD)
  }

  /** Exactly there the written `malloc` and the corrected one do the same. */
  lemma WrittenMallocExact(mem: Memory, e: nat, n: nat)
    requires e in mem && 0 < n < WORD && mem[e].size < WORD / 2
    ensures MallocAt(Written, mem, e, n) == MallocAt(Corrected, mem, e, n) <==> Agrees(mem[e], n)
  {
    var h := mem[e];
    if Decide(Written, h, n) == Split && Decide(Corrected, h, n) == Split {
      var w, c := MallocAt(Written, mem, e, n).0, MallocAt(Corrected, mem, e, n).0;
      WrapBig(n, h.size);
      assert w[e].next == c[e].next ==> w[c[e].next] != c[c[e].next];
    } else if Decide(Written, h, n) == Split {
      assert MallocAt(Written, mem, e, n).1 != 0;
    }
  }

  lemma WrapBig(n: nat, size: nat)
    requires n < size + HEADER && size < WORD / 2
    ensures RestSize(Written, n, size) == WORD + n - size - HEADER
  {
  }

  /** The chain of a list in which chunk k has been replaced by chunks over the same bytes. */
  lemma {:induction false} ChainReplace(mem: Memory, mem': Memory, a: nat, bs: seq<Chunk>, k: nat, mid: seq<Chunk>)
    requires Chain(mem, a, bs) && k < |bs| && mid != []
    requires forall x: nat :: !Same(mem, mem', x) ==> Addr(a, bs, k) <= x < NextAddr(Addr(a, bs, k), bs[k])
    requires Chain(mem', Addr(a, bs, k), mid + bs[k + 1..])
    ensures Chain(mem', a, bs[..k] + mid + bs[k + 1..])
    decreases k
  {
    if k == 0 {
      assert bs[..0] + mid + bs[1..] == mid + bs[1..];
    } else {
      var tail := bs[1..];
      AddrAfter(a, bs, k);
      ChainReplace(mem, mem', NextAddr(a, bs[0]), tail, k - 1, mid);
      var r := bs[..k] + mid + bs[k + 1..];
      assert r[0] == bs[0] && r[1..] == tail[..k - 1] + mid + tail[k..];
      assert Same(mem, mem', a);
    }
  }

  lemma AddrAfter(a: nat, bs: seq<Chunk>, k: nat)
    requires 0 < k < |bs|
    ensures a < Addr(a, bs, k)
  {
    AddrExtent(a, bs, k);
    assert bs[..k] != [];
  }

  lemma {:induction false} ChainAt(mem: Memory, a: nat, bs: seq<Chunk>, k: nat)
    requires Chain(mem, a, bs) && k < |bs|
    ensures Chain(mem, Addr(a, bs, k), bs[k..])
    decreases k
  {
    if k > 0 {
      ChainAt(mem, NextAddr(a, bs[0]), bs[1..], k - 1);
      assert bs[k..] == bs[1..][k - 1..];
    }
  }

  /** The chain after allocating from a free chunk that is the first of the list. */
  lemma CutChain(mem: Memory, e: nat, bs: seq<Chunk>, n: nat)
    requires Chain(mem, e, bs) && Fits(bs[0], n)
    ensures var mem' := MallocAt(Corrected, mem, e, n).0;
      && Chain(mem', e, Cut(bs[0], n) + bs[1..])
      && forall x: nat :: !Same(mem, mem', x) ==> e <= x < NextAddr(e, bs[0])
  {
    var mem', c := MallocAt(Corrected, mem, e, n).0, Cut(bs[0], n);
    if |bs| > 1 { ChainRest(mem, mem', e, bs); }
    var r := c + bs[1..];
    if |c| == 1 {
      assert r[0] == c[0] && r[1..] == bs[1..];
    } else {
      assert r[0] == c[0] && r[1..] == [c[1]] + bs[1..];
      assert r[1..][0] == c[1] && r[1..][1..] == bs[1..];
    }
  }

  lemma ChainRest(mem: Memory, mem': Memory, e: nat, bs: seq<Chunk>)
    requires |bs| > 1 && Chain(mem, e, bs) && forall x: nat :: !Same(mem, mem', x) ==> e <= x < NextAddr(e, bs[0])
    ensures Chain(mem', NextAddr(e, bs[0]), bs[1..])
  {
    forall x: nat | HeaderAt(NextAddr(e, bs[0]), bs[1..], x, false) ensures Same(mem, mem', x) {
      HeaderAfter(NextAddr(e, bs[0]), bs[1..], x, false);
    }
    ChainSame(mem, mem', NextAddr(e, bs[0]), bs[1..]);
  }

  /** The corrected `malloc` on memory is `AfterMalloc` on chunks, and its result is the payload granted. */
  lemma MallocChain(mem: Memory, a: nat, bs: seq<Chunk>, n: nat)
    requires Chain(mem, a, bs) && n > 0
    ensures var k := Stop(bs, n);
      && Addr(a, bs, k) in mem
      && var (mem', r) := MallocAt(Corrected, mem, Addr(a, bs, k), n);
        && Chain(mem', a, AfterMalloc(bs, n))
        && r == (if Fits(bs[k], n) then Granted(a, bs, n).start else 0)
  {
    var k := Stop(bs, n);
    var e := Addr(a, bs, k);
    ChainAt(mem, a, bs, k);
    if Fits(bs[k], n) {
      CutChain(mem, e, bs[k..], n);
      assert bs[k..][1..] == bs[k + 1..];
      ChainReplace(mem, MallocAt(Corrected, mem, e, n).0, a, bs, k, Cut(bs[k], n));
    }
  }

  // ----- what the written split does to the tiling --------------------------

  /** The headers from a on form chunks that take exactly `arena` bytes. */
  ghost predicate Tiled(mem: Memory, a: nat, arena: nat) {
    exists bs :: Chain(mem, a, bs) && Extent(bs) == arena
  }

  /** Two chains with the same headers before chunk k have the same chunks before it. */
  lemma {:induction false} ChainReach(mem: Memory, mem': Memory, a: nat, bs: seq<Chunk>, bs': seq<Chunk>, k: nat)
    requires Chain(mem, a, bs) && Chain(mem', a, bs') && k < |bs|
    requires forall x: nat :: x < Addr(a, bs, k) && HeaderAt(a, bs, x, false) ==> Same(mem, mem', x)
    ensures k < |bs'| && Chain(mem', Addr(a, bs, k), bs'[k..]) && Extent(bs'[k..]) <= Extent(bs')
    decreases k
  {
    if k > 0 {
      AddrAfter(a, bs, k);
      assert HeaderAt(a, bs, a, false);
      assert Same(mem, mem', a);
      ChainReach(mem, mem', NextAddr(a, bs[0]), bs[1..], bs'[1..], k - 1);
      assert bs'[1..][k - 1..] == bs'[k..];
    } else {
      assert bs'[0..] == bs';
    }
  }

  /** On a tiled arena below 2^63 bytes, `malloc` as written leaves it tiled exactly when it does not split. */
  lemma WrittenMallocTiles(mem: Memory, a: nat, bs: seq<Chunk>, n: nat)
    requires Chain(mem, a, bs) && Extent(bs) < WORD / 2 && a + Extent(bs) < WORD && 0 < n < WORD
    ensures Addr(a, bs, Stop(bs, n)) in mem
    ensures var e := Addr(a, bs, Stop(bs, n));
      Tiled(MallocAt(Written, mem, e, n).0, a, Extent(bs)) <==> Decide(Written, mem[e], n) != Split
  {
    var k := Stop(bs, n);
    var e := Addr(a, bs, k);
    ChainAt(mem, a, bs, k);
    AddrExtent(a, bs, k);
    ExtentConcat(bs[..k], bs[k..]);
    assert bs == bs[..k] + bs[k..];
    var mem' := MallocAt(Written, mem, e, n).0;
    match Decide(Written, mem[e], n) {
      case Refuse =>
        assert Tiled(mem', a, Extent(bs));
      case Take =>
        TakeTiles(mem, a, bs, k);
      case Split =>
        if Tiled(mem', a, Extent(bs)) {
          var bs' :| Chain(mem', a, bs') && Extent(bs') == Extent(bs);
          SplitHeaders(mem, e, n);
          ChainReach(mem, mem', a, bs, bs', k);
          SplitTooBig(mem', e, bs'[k..], n);
          assert false;
        }
    }
  }

  lemma TakeTiles(mem: Memory, a: nat, bs: seq<Chunk>, k: nat)
    requires Chain(mem, a, bs) && k < |bs| && Addr(a, bs, k) in mem
    ensures var e := Addr(a, bs, k); Tiled(mem[e := mem[e].(free := false)], a, Extent(bs))
  {
    var e, mid := Addr(a, bs, k), [Chunk(bs[k].size, false)];
    var mem' := mem[e := mem[e].(free := false)];
    ChainAt(mem, a, bs, k);
    var r := mid + bs[k + 1..];
    assert r[0] == mid[0] && r[1..] == bs[k + 1..] == bs[k..][1..];
    if k + 1 < |bs| { ChainRest(mem, mem', e, bs[k..]); }
    ChainReplace(mem, mem', a, bs, k, mid);
    Replace(a, bs, k, mid);
  }

  /**
   * The written split writes no header below its entry; either the request or the new entry is as large as half of
   * memory.
   */
  lemma SplitHeaders(mem: Memory, e: nat, n: nat)
    requires e in mem && 0 < n < WORD && mem[e].size + HEADER < WORD / 2 && e + HEADER + mem[e].size < WORD
    requires Decide(Written, mem[e], n) == Split
    ensures var mem' := MallocAt(Written, mem, e, n).0;
      && (forall x: nat :: x < e ==> Same(mem, mem', x))
      && e in mem' && mem'[e].size == n
      && (n < WORD / 2 ==>
          && mem'[e].next == e + n + HEADER && e + n + HEADER in mem'
          && mem'[e + n + HEADER].size >= WORD / 2)
  {
    if n < WORD / 2 {
      WrapBig(n, mem[e].size);
    } else {
      assert n + HEADER >= WORD;
      assert (e + n + HEADER) % WORD >= e;
    }
  }

  lemma SplitTooBig(mem': Memory, e: nat, t: seq<Chunk>, n: nat)
    requires Chain(mem', e, t) && mem'[e].size == n
    requires n < WORD / 2 ==>
      mem'[e].next == e + n + HEADER && e + n + HEADER in mem' && mem'[e + n + HEADER].size >= WORD / 2
    ensures Extent(t) >= WORD / 2
  {
    if n < WORD / 2 {
      assert |t| > 1 && t[1..][0].size >= WORD / 2;
    }
  }

  /** The first allocation on a fresh 64 KiB heap, as written, already leaves a free entry of almost 2^64 bytes. */
  lemma WrittenSplitFails()
    ensures var mem := map[0x1000 := Header(true, 0x10000 - HEADER, 0)];
      && Tiled(mem, 0x1000, 0x10000)
      && !Tiled(MallocAt(Written, mem, 0x1000, 100).0, 0x1000, 0x10000)
  {
    var mem, bs := map[0x1000 := Header(true, 0x10000 - HEADER, 0)], [Chunk(0x10000 - HEADER, true)];
    assert Chain(mem, 0x1000, bs) && Extent(bs) == 0x10000;
    WrittenMallocTiles(mem, 0x1000, bs, 100);
  }

  /**
   * As written, `malloc` hands out memory that is still in use exactly when no free chunk fits and the last chunk,
   * where the search stops, is allocated and large enough, or only larger than the wrapped `size + 24`.
   */
  lemma WrittenReuses(mem: Memory, a: nat, bs: seq<Chunk>, n: nat)
    requires Chain(mem, a, bs) && 0 < n < WORD
    ensures Addr(a, bs, Stop(bs, n)) in mem
    ensures var r, last := MallocAt(Written, mem, Addr(a, bs, Stop(bs, n)), n).1, bs[|bs| - 1];
      (exists p :: p in Live(a, bs) && p.start == r) <==>
      (forall i :: 0 <= i < |bs| ==> !Fits(bs[i], n)) && !last.free &&
      (last.size >= n || last.size > (n + HEADER) % WORD)
  {
    var k := Stop(bs, n);
    ChainAt(mem, a, bs, k);
    var r := MallocAt(Written, mem, Addr(a, bs, k), n).1;
    if bs[k].free {
      GrantApart(a, bs, k, PayloadOf(a, bs, k));
    } else {
      FreeExact(a, bs, k);
    }
    forall p | p in Live(a, bs) ensures p.start > 0 {
      LiveInside(a, bs, p);
    }
  }

  /** On a fresh 64 KiB heap a request for all of it and then one for a byte, as written, get the same address. */
  lemma WrittenReuseFails()
    ensures var mem := map[0x1000 := Header(true, 0x10000 - HEADER, 0)];
      var (mem1, p) := MallocAt(Written, mem, 0x1000, 65512);
      && 0x1000 in mem1 && mem1[0x1000] == Header(false, 65512, 0)
      && p == MallocAt(Written, mem1, 0x1000, 1).1 == 0x1000 + HEADER
      && MallocAt(Corrected, mem1, 0x1000, 1).1 == 0
  {
  }

  /** On a full 64 KiB heap a request for 2^64 - 1 bytes, whose `size + 24` wraps to 23, gets the address in use. */
  lemma WrittenWrapFails()
    ensures var mem, bs := map[0x1000 := Header(false, 65512, 0)], [Chunk(65512, false)];
      && Chain(mem, 0x1000, bs) && Payload(0x1000 + HEADER, 65512) in Live(0x1000, bs)
      && MallocAt(Written, mem, 0x1000, WORD - 1).1 == 0x1000 + HEADER
      && MallocAt(Corrected, mem, 0x1000, WORD - 1).1 == 0
  {
  }

  // ----- the heap itself ---------------------------------------------------

  class Heap {
    const text: Text
    var first: nat
    var size: nat
    var mem: Memory
    ghost var chunks: seq<Chunk>

    ghost predicate Valid()
      reads this
    {
      Chain(mem, first, chunks) && Extent(chunks) == size
    }

    /**
     * `base` is the address that `kmalloc(size)` returned. An arena smaller than a header gets a free entry of almost
     * 2^64 bytes, because the difference wraps.
     */
    constructor (text: Text, base: nat, size: nat)
      requires base > 0 && size < WORD
      ensures this.text == text && first == base && this.size == size
      ensures size >= HEADER ==> Valid() && chunks == [Chunk(size - HEADER, true)]
      ensures size < HEADER ==>
        mem == map[base := Header(true, WORD - (HEADER - size), 0)] && !Tiled(mem, base, size)
    {
      this.text := text;
      this.first, this.size := base, size;
      mem := map[base := Header(true, (size - HEADER) % WORD, 0)];
      chunks := [Chunk((size - HEADER) % WORD, true)];
    }

    method Malloc(n: nat) returns (r: nat)
      requires Valid()
      modifies this`mem, this`chunks
      ensures n == 0 ==> r == 0 && mem == old(mem)
      ensures n > 0 ==>
        var e := Addr(first, old(chunks), Stop(old(chunks), n));
        e in old(mem) && (mem, r) == MallocAt(text, old(mem), e, n)
      ensures chunks == AfterMalloc(old(chunks), n)
      ensures n > 0 && text == Corrected ==> Valid()
      ensures n > 0 && text == Corrected ==>
        r == if Fits(old(chunks)[Stop(old(chunks), n)], n) then Granted(first, old(chunks), n).start else 0
    {
      hide Chain, Stop, Addr, Live, Granted;
      if n == 0 {
        return 0;
      }
      var entry := FindEntry(n);
      MallocChain(mem, first, chunks, n);
      MallocExact(first, chunks, n);
      chunks := AfterMalloc(chunks, n);
      var h := mem[entry];
      if (text == Corrected ==> h.free) && h.size >= n && h.size <= Room(text, n) {
        r := entry + HEADER;
        mem := mem[entry := h.(free := false)];
      } else if (text == Corrected ==> h.free) && h.size > Room(text, n) {
        SplitEntry(entry, n);
        r := entry + HEADER;
      } else {
        r := 0;
      }
    }

    /** The search loop of `malloc`. */
    method FindEntry(n: nat) returns (entry: nat)
      requires Valid()
      ensures entry == Addr(first, chunks, Stop(chunks, n)) && entry in mem
    {
      ghost var k := 0;
      entry := first;
      assert chunks[0..] == chunks;
      while (mem[entry].size < n || !mem[entry].free) && mem[entry].next != 0
        invariant k < |chunks| && entry == Addr(first, chunks, k) && Chain(mem, entry, chunks[k..])
        invariant Stop(chunks, n) == k + Stop(chunks[k..], n)
        decreases |chunks| - k
      {
        entry := entry + HEADER + mem[entry].size;
        assert chunks[k..][1..] == chunks[k + 1..];
        AddrNext(first, chunks, k);
        k := k + 1;
      }
    }

    /** `split`: after the corrected one the entry is two chunks, the one granted and a free one of the rest. */
    method SplitEntry(entry: nat, n: nat)
      requires entry in mem
      modifies this`mem
      ensures var h := old(mem)[entry];
        var nx := if text == Written then (entry + n + HEADER) % WORD else entry + n + HEADER;
        mem == old(mem)[nx := Header(true, RestSize(text, n, h.size), h.next)][entry := Header(false, n, nx)]
      ensures text == Corrected ==>
        forall bs: seq<Chunk> :: bs != [] && Chain(old(mem), entry, bs) && bs[0].free && bs[0].size > n + HEADER ==>
          Chain(mem, entry, [Chunk(n, false), Chunk(bs[0].size - n - HEADER, true)] + bs[1..])
    {
      hide Chain, RestSize;
      ghost var mem0 := mem;
      var next := if text == Written then (entry + n + HEADER) % WORD else entry + n + HEADER;
      mem := mem[next := if next in mem then mem[next].(free := true) else Header(true, 0, 0)];
      mem := mem[next := mem[next].(next := mem[entry].next)];
      mem := mem[next := mem[next].(size := RestSize(text, n, mem[entry].size))];
      mem := mem[entry := mem[entry].(next := next)];
      mem := mem[entry := mem[entry].(size := n)];
      mem := mem[entry := mem[entry].(free := false)];
      SixAssignments(text, mem0, entry, n, next);
      if text == Corrected { SplitChains(mem0, mem, entry, n); }
    }

    method Clean()
      requires Chain(mem, first, chunks)
      modifies this`mem
      ensures mem == CleanMemory(old(mem), first, |chunks|)
    {
      ghost var bs, end := chunks, CleanMemory(mem, first, |chunks|);
      var entry: nat := first;
      while mem[entry].next != 0
        invariant Chain(mem, entry, bs) && CleanMemory(mem, entry, |bs|) == end
        decreases |bs|
      {
        ghost var before := mem;
        var next := entry + HEADER + mem[entry].size;
        if mem[entry].free && mem[next].free {
          mem := mem[entry := Header(true, mem[entry].size + mem[next].size + HEADER, mem[next].next)];
        }
        if mem[entry].next == 0 {
          return;
        }
        ChainApart(before, mem, entry, bs);
        bs := bs[1..];
        entry := next;
      }
    }

    /**
     * `free` on any header that has been written, the header of a chunk or a stale one, as long as it does not lie
     * inside the header of a chunk.
     */
    method Free(ptr: nat)
      requires Valid() && ptr >= HEADER && ptr - HEADER in mem
      requires forall x: nat :: HeaderAt(first, chunks, x, false) && x <= ptr - HEADER < x + HEADER ==>
        x == ptr - HEADER
      modifies this`mem, this`chunks
      ensures Valid()
      ensures forall k: nat :: k < |old(chunks)| && PayloadOf(first, old(chunks), k).start == ptr ==>
        chunks == AfterFree(old(chunks), k)
      ensures (forall k: nat :: k < |old(chunks)| ==> PayloadOf(first, old(chunks), k).start != ptr) ==>
        chunks == HeapSpec.Clean(old(chunks))
    {
      var entry := ptr - HEADER;
      ghost var freed := Freed(mem, first, chunks, ptr);
      mem := mem[entry := mem[entry].(free := true)];
      chunks := freed;
      CleanChain(mem, first, freed, |freed|);
      CleanExtent(first, freed);
      Clean();
      chunks := HeapSpec.Clean(freed);
    }
  }

  /** The six assignments of `split` leave the two headers, even when the written address wraps onto the entry. */
  lemma SixAssignments(text: Text, mem: Memory, entry: nat, n: nat, next: nat)
    requires entry in mem
    ensures
      var m1 := mem[next := if next in mem then mem[next].(free := true) else Header(true, 0, 0)];
      var m2 := m1[next := m1[next].(next := m1[entry].next)];
      var m3 := m2[next := m2[next].(size := RestSize(text, n, m2[entry].size))];
      var m4 := m3[entry := m3[entry].(next := next)];
      var m5 := m4[entry := m4[entry].(size := n)];
      var m6 := m5[entry := m5[entry].(free := false)];
      var h := mem[entry];
      m6 == mem[next := Header(true, RestSize(text, n, h.size), h.next)][entry := Header(false, n, next)]
  {
    hide RestSize;
  }

  lemma SplitChains(mem: Memory, mem': Memory, e: nat, n: nat)
    requires e in mem
    requires var nx := e + n + HEADER;
      mem' == mem[nx := Header(true, RestSize(Corrected, n, mem[e].size), mem[e].next)][e := Header(false, n, nx)]
    ensures forall bs: seq<Chunk> :: bs != [] && Chain(mem, e, bs) && bs[0].free && bs[0].size > n + HEADER ==>
      Chain(mem', e, [Chunk(n, false), Chunk(bs[0].size - n - HEADER, true)] + bs[1..])
  {
    forall bs: seq<Chunk> | bs != [] && Chain(mem, e, bs) && bs[0].free && bs[0].size > n + HEADER
      ensures Chain(mem', e, [Chunk(n, false), Chunk(bs[0].size - n - HEADER, true)] + bs[1..])
    {
      CutChain(mem, e, bs, n);
    }
  }

  lemma CleanExtent(a: nat, bs: seq<Chunk>)
    ensures Extent(HeapSpec.Clean(bs)) == Extent(bs)
  {
    CleanLive(a, bs);
  }

  /** The chunks after the flag has been set: one more is free, or none when the header was stale. */
  lemma Freed(mem: Memory, a: nat, bs: seq<Chunk>, ptr: nat) returns (freed: seq<Chunk>)
    requires Chain(mem, a, bs) && ptr >= HEADER && ptr - HEADER in mem
    ensures var e := ptr - HEADER; Chain(mem[e := mem[e].(free := true)], a, freed)
    ensures Extent(freed) == Extent(bs)
    ensures forall k: nat :: k < |bs| && PayloadOf(a, bs, k).start == ptr ==> freed == bs[k := Chunk(bs[k].size, true)]
    ensures (forall k: nat :: k < |bs| ==> PayloadOf(a, bs, k).start != ptr) ==> freed == bs
  {
    var e := ptr - HEADER;
    if k: nat :| k < |bs| && PayloadOf(a, bs, k).start == ptr {
      freed := bs[k := Chunk(bs[k].size, true)];
      FreeChain(mem, a, bs, k);
      Replace(a, bs, k, [Chunk(bs[k].size, true)]);
      assert freed == bs[..k] + [Chunk(bs[k].size, true)] + bs[k + 1..];
      forall j: nat | j < |bs| && PayloadOf(a, bs, j).start == ptr ensures j == k {
        if j < k { AddrLess(a, bs, j, k); } else if k < j { AddrLess(a, bs, k, j); }
      }
    } else {
      freed := bs;
      forall x: nat | HeaderAt(a, bs, x, false) ensures x != e {
        var k := HeaderIndex(a, bs, x);
        assert PayloadOf(a, bs, k).start == x + HEADER;
      }
      ChainSame(mem, mem[e := mem[e].(free := true)], a, bs);
    }
  }

  lemma {:induction false} HeaderIndex(a: nat, bs: seq<Chunk>, x: nat) returns (k: nat)
    requires HeaderAt(a, bs, x, false)
    ensures k < |bs| && Addr(a, bs, k) == x
    decreases |bs|
  {
    if x == a {
      k := 0;
    } else {
      k := HeaderIndex(NextAddr(a, bs[0]), bs[1..], x);
      k := k + 1;
    }
  }

  lemma {:induction false} AddrLess(a: nat, bs: seq<Chunk>, j: nat, k: nat)
    requires j < k < |bs|
    ensures Addr(a, bs, j) < Addr(a, bs, k)
    decreases j
  {
    if j == 0 {
      AddrAfter(a, bs, k);
    } else {
      AddrLess(NextAddr(a, bs[0]), bs[1..], j - 1, k - 1);
    }
  }

  lemma {:induction false} AddrNext(a: nat, bs: seq<Chunk>, k: nat)
    requires k < |bs|
    ensures Addr(a, bs, k + 1) == NextAddr(Addr(a, bs, k), bs[k])
    decreases k
  {
    if k > 0 {
      AddrNext(NextAddr(a, bs[0]), bs[1..], k - 1);
    }
  }

  lemma FreeChain(mem: Memory, a: nat, bs: seq<Chunk>, k: nat)
    requires Chain(mem, a, bs) && k < |bs| && Addr(a, bs, k) in mem
    ensures var e := Addr(a, bs, k);
      Chain(mem[e := mem[e].(free := true)], a, bs[k := Chunk(bs[k].size, true)])
  {
    var e, mid := Addr(a, bs, k), [Chunk(bs[k].size, true)];
    var mem' := mem[e := mem[e].(free := true)];
    ChainAt(mem, a, bs, k);
    var r := mid + bs[k + 1..];
    assert r[0] == mid[0] && r[1..] == bs[k + 1..] == bs[k..][1..];
    if k + 1 < |bs| { ChainRest(mem, mem', e, bs[k..]); }
    ChainReplace(mem, mem', a, bs, k, mid);
    assert bs[..k] + mid + bs[k + 1..] == bs[k := mid[0]];
  }
}
