/** RAM is an array of words; what `memset` does to the bytes in them. */
module RamBytes {
  import opened Arith

  /** 256^k */
  function Scale(k: nat): (r: nat)
    ensures r > 0
  {
    if k == 0 then 1 else 256 * Scale(k - 1)
  }

  /** Byte k of a little-endian word. */
  function ByteOf(w: nat, k: nat): nat { Mod(Div(w, Scale(k)), 256) }

  /** The word with byte k replaced. */
  function WithByte(w: nat, k: nat, b: nat): nat {
    (Div(w, Scale(k + 1)) * 256 + b) * Scale(k) + Mod(w, Scale(k))
  }

  function ByteAt(m: seq<nat>, a: nat): nat { if a / 8 < |m| then ByteOf(m[a / 8], a % 8) else 0 }

  function PutByte(m: seq<nat>, a: nat, b: nat): (r: seq<nat>)
    ensures |r| == |m|
  {
    if a / 8 < |m| then m[a / 8 := WithByte(m[a / 8], a % 8, b)] else m
  }

  /** `memset` with zero over n bytes from address `from` on. */
  function ClearBytes(m: seq<nat>, from: nat, n: nat): (r: seq<nat>)
    ensures |r| == |m|
  {
    if n == 0 then m else PutByte(ClearBytes(m, from, n - 1), from + n - 1, 0)
  }

  lemma {:induction false} ScaleAdd(j: nat, k: nat)
    ensures Scale(j + k) == Scale(j) * Scale(k)
  {
    if j > 0 {
      ScaleAdd(j - 1, k);
      ScaleStep(j - 1);
      ScaleStep(j - 1 + k);
      MulAssoc(256, Scale(j - 1), Scale(k));
    }
  }

  lemma MulAssoc(a: nat, b: nat, c: nat)
    ensures a * (b * c) == a * b * c
  {
  }

  lemma DivDiv(n: nat, a: nat, b: nat)
    requires a > 0 && b > 0
    ensures a * b > 0 && Div(n, a * b) == Div(Div(n, a), b)
  {
    hide Div, Mod;
    var q := Div(n, a);
    DivMod(n, a);
    DivMod(q, b);
    assert a * b > 0 by { MulMono(1, a, b); }
    var r := Mod(q, b) * a + Mod(n, a);
    assert r < a * b by {
      MulMono(Mod(q, b) + 1, b, a);
      assert (Mod(q, b) + 1) * a == Mod(q, b) * a + a;
    }
    assert n == Div(q, b) * (a * b) + r by {
      assert Div(q, b) * (a * b) == (Div(q, b) * b) * a;
      assert (Div(q, b) * b + Mod(q, b)) * a == (Div(q, b) * b) * a + Mod(q, b) * a;
    }
    Unique(n, a * b, Div(q, b), r);
  }

  lemma Unique(n: nat, d: nat, k: nat, r: nat)
    requires r < d && n == k * d + r
    ensures Div(n, d) == k && Mod(n, d) == r
  {
    DivUnique(n, d, k, r);
  }

  /** A byte above position k does not depend on what is below the next byte. */
  lemma ByteAbove(w: nat, x: nat, k: nat, j: nat)
    requires k < j && Div(w, Scale(k + 1)) == Div(x, Scale(k + 1))
    ensures ByteOf(w, j) == ByteOf(x, j)
  {
    hide Div, Mod, Scale;
    ScaleAdd(k + 1, j - k - 1);
    DivDiv(w, Scale(k + 1), Scale(j - k - 1));
    DivDiv(x, Scale(k + 1), Scale(j - k - 1));
  }

  /** A byte below position k depends on the part below it only. */
  lemma ByteBelow(q: nat, low: nat, k: nat, j: nat)
    requires j < k && low < Scale(k)
    ensures ByteOf(q * Scale(k) + low, j) == ByteOf(low, j)
  {
    hide Div, Mod, Scale;
    ScaleAdd(j, k - j);
    ScaleStep(k - j - 1);
    var s, rest := Scale(j), Scale(k - j - 1);
    assert q * Scale(k) == (q * rest * 256) * s by {
      assert Scale(k) == s * (256 * rest);
      assert q * (s * (256 * rest)) == (q * rest * 256) * s;
    }
    Shift(q * rest * 256, s, low);
    Shift(q * rest, 256, Div(low, s));
  }

  lemma ScaleStep(k: nat)
    ensures Scale(k + 1) == 256 * Scale(k)
  {
  }

  lemma Shift(q: nat, d: nat, p: nat)
    requires d > 0
    ensures Div(q * d + p, d) == q + Div(p, d) && Mod(q * d + p, d) == Mod(p, d)
  {
    DivAdd(q, d, p);
  }

  lemma WithByteExact(w: nat, k: nat, b: nat, j: nat)
    requires b < 256
    ensures ByteOf(WithByte(w, k, b), j) == if j == k then b else ByteOf(w, j)
  {
    hide Div, Mod, Scale;
    var s, high, low := Scale(k), Div(w, Scale(k + 1)), Mod(w, Scale(k));
    ScaleStep(k);
    DivMod(w, s);
    Unique((high * 256 + b) * s + low, s, high * 256 + b, low);
    if j == k {
      Unique(high * 256 + b, 256, high, b);
    } else if j < k {
      ByteBelow(high * 256 + b, low, k, j);
      ByteBelow(Div(w, s), low, k, j);
    } else {
      DivDiv(WithByte(w, k, b), s, 256);
      Unique(high * 256 + b, 256, high, b);
      assert s * 256 == 256 * s;
      ByteAbove(w, WithByte(w, k, b), k, j);
    }
  }

  lemma PutByteExact(m: seq<nat>, a: nat, b: nat, x: nat)
    requires b < 256 && a / 8 < |m|
    ensures ByteAt(PutByte(m, a, b), x) == if x == a then b else ByteAt(m, x)
  {
    hide ByteOf, WithByte;
    if x / 8 == a / 8 {
      WithByteExact(m[a / 8], a % 8, b, x % 8);
    }
  }

  /** Exactly the bytes of the range become zero. */
  lemma {:induction false} ClearExact(m: seq<nat>, from: nat, n: nat, x: nat)
    requires from + n <= 8 * |m|
    ensures ByteAt(ClearBytes(m, from, n), x) == if from <= x < from + n then 0 else ByteAt(m, x)
  {
    if n > 0 {
      hide ByteAt, PutByte;
      ClearExact(m, from, n - 1, x);
      PutByteExact(ClearBytes(m, from, n - 1), from + n - 1, 0, x);
    }
  }
}
