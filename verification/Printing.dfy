/** `uitoa` and `itoa`: digits written backwards into a fixed buffer and reversed in place. */
module Printing {
  import opened Arith
  import opened Bits

  /** The length of `uitoa_buffer` and of `itoa_buffer`. */
  const BUFFER: nat := 50

  function DigitChar(d: nat): char
    requires d < 36
  {
    if d > 9 then (d - 10) as char + 'a' else d as char + '0'
  }

  /** The digits of n, most significant first; none for 0. */
  function Digits(n: nat, base: nat): string
    requires 2 <= base <= 36
  {
    if n == 0 then "" else
      Shrinks(n, base);
      Digits(Div(n, base), base) + [DigitChar(Mod(n, base))]
  }

  function Numeral(n: nat, base: nat): string
    requires 2 <= base <= 36
  {
    if n == 0 then "0" else Digits(n, base)
  }

  lemma Shrinks(n: nat, base: nat)
    requires n > 0 && base >= 2
    ensures n / base < n
  {
    assert n == n / base * base + n % base;
    if n / base >= n {
      MulMono(n, n / base, base);
      MulMono(2, base, n);
      assert false;
    }
  }

  // ----- reading digits back ------------------------------------------------

  predicate IsDigit(c: char, base: nat) {
    ('0' <= c <= '9' && c as nat - '0' as nat < base) || ('a' <= c <= 'z' && c as nat - 'a' as nat + 10 < base)
  }

  function DigitValue(c: char): nat {
    if '0' <= c <= '9' then c as nat - '0' as nat else if 'a' <= c then c as nat - 'a' as nat + 10 else 0
  }

  function Parse(s: string, base: nat): nat {
    if s == "" then 0 else Parse(s[..|s| - 1], base) * base + DigitValue(s[|s| - 1])
  }

  predicate AllDigits(s: string, base: nat) { forall i :: 0 <= i < |s| ==> IsDigit(s[i], base) }

  /** Parsing the numeral gives the number back; there is no leading zero; every character is a digit of the base. */
  lemma {:induction false} ParseDigits(n: nat, base: nat)
    requires 2 <= base <= 36
    ensures Parse(Digits(n, base), base) == n
    ensures n > 0 ==> Digits(n, base) != "" && Digits(n, base)[0] != '0'
    ensures AllDigits(Digits(n, base), base)
  {
    hide Div, Mod;
    if n > 0 {
      DigitsLast(n, base);
      ParseDigits(Div(n, base), base);
      DigitRead(Mod(n, base), base);
      ParseSnoc(Digits(Div(n, base), base), DigitChar(Mod(n, base)), base);
    }
  }

  lemma DigitsLast(n: nat, base: nat)
    requires n > 0 && 2 <= base <= 36
    ensures Div(n, base) < n && n == Div(n, base) * base + Mod(n, base)
    ensures Digits(n, base) == Digits(Div(n, base), base) + [DigitChar(Mod(n, base))]
  {
    Shrinks(n, base);
  }

  lemma ParseSnoc(s: string, c: char, base: nat)
    ensures Parse(s + [c], base) == Parse(s, base) * base + DigitValue(c)
  {
    assert (s + [c])[..|s|] == s;
  }

  lemma DigitRead(d: nat, base: nat)
    requires d < base <= 36
    ensures IsDigit(DigitChar(d), base) && DigitValue(DigitChar(d)) == d && (DigitChar(d) == '0' <==> d == 0)
  {
  }

  /** Numerals are the only such strings: printing undoes parsing. */
  lemma {:induction false} DigitsParse(s: string, base: nat)
    requires 2 <= base <= 36 && AllDigits(s, base) && (s != "" ==> s[0] != '0')
    ensures Digits(Parse(s, base), base) == s
    decreases |s|
  {
    if s == "" {
    } else {
      hide Digits, Parse;
      var init, c := s[..|s| - 1], s[|s| - 1];
      assert s == init + [c];
      DigitsParse(init, base);
      ParseSnoc(init, c, base);
      ParsePositive(s, base);
      assert IsDigit(c, base) && DigitChar(DigitValue(c)) == c;
      LastDigit(Parse(init, base), DigitValue(c), base);
    }
  }

  lemma LastDigit(n: nat, d: nat, base: nat)
    requires 2 <= base <= 36 && d < base && n * base + d > 0
    ensures Digits(n * base + d, base) == Digits(n, base) + [DigitChar(d)]
  {
    hide Digits;
    DivUnique(n * base + d, base, n, d);
    DigitsLast(n * base + d, base);
  }

  lemma {:induction false} ParsePositive(s: string, base: nat)
    requires 2 <= base && AllDigits(s, base) && s != "" && s[0] != '0'
    ensures Parse(s, base) > 0
    decreases |s|
  {
    var init := s[..|s| - 1];
    if init == "" {
      assert IsDigit(s[0], base);
    } else {
      ParsePositive(init, base);
      MulMono(1, Parse(init, base), base);
    }
  }

  /** A number as people write it: at least one digit, and a first digit '0' only when it is the only one. */
  predicate IsNumeral(s: string, base: nat) {
    s != "" && AllDigits(s, base) && (s[0] == '0' ==> |s| == 1)
  }

  /** Every number, 0 included, is printed as such a string, which stands for it. */
  lemma NumeralReads(n: nat, base: nat)
    requires 2 <= base <= 36
    ensures IsNumeral(Numeral(n, base), base) && Parse(Numeral(n, base), base) == n
  {
    ParseDigits(n, base);
    ZeroNumeral(base);
  }

  /** And every such string, "0" included, is what its number is printed as. */
  lemma ReadsNumeral(s: string, base: nat)
    requires 2 <= base <= 36 && IsNumeral(s, base)
    ensures Numeral(Parse(s, base), base) == s
  {
    if s[0] == '0' {
      assert s == "0";
      ZeroNumeral(base);
    } else {
      DigitsParse(s, base);
      ParsePositive(s, base);
    }
  }

  /** Behind an optional minus sign, which a zero does not have. */
  predicate IsSigned(s: string, base: nat) {
    IsNumeral(s, base) || (s != "" && s[0] == '-' && IsNumeral(s[1..], base) && s[1] != '0')
  }

  lemma SignedReads(num: int, base: nat)
    requires 2 <= base <= 36
    ensures IsSigned(Signed(num, base), base) && ParseSigned(Signed(num, base), base) == num
  {
    if num < 0 {
      NumeralReads(-num, base);
      ParseDigits(-num, base);
      assert Signed(num, base)[1..] == Numeral(-num, base);
    } else {
      NumeralReads(num, base);
      assert IsDigit(Numeral(num, base)[0], base);
    }
  }

  lemma ReadsSigned(s: string, base: nat)
    requires 2 <= base <= 36 && IsSigned(s, base)
    ensures Signed(ParseSigned(s, base), base) == s
  {
    if s[0] == '-' {
      assert !IsDigit('-', base);
      ReadsNumeral(s[1..], base);
      ParsePositive(s[1..], base);
      assert "-" + s[1..] == s;
    } else {
      ReadsNumeral(s, base);
    }
  }

  // ----- how long a numeral is ----------------------------------------------

  function Pow(base: nat, k: nat): nat {
    if k == 0 then 1 else base * Pow(base, k - 1)
  }

  /** A number has at most k digits exactly when it is below base^k. */
  lemma {:induction false} DigitCount(n: nat, base: nat, k: nat)
    requires 2 <= base <= 36
    ensures |Digits(n, base)| <= k <==> n < Pow(base, k)
    decreases k
  {
    if k == 0 {
    } else if n == 0 {
      PowPositive(base, k);
    } else {
      Shrinks(n, base);
      DigitCount(n / base, base, k - 1);
      DivBelow(n, base, Pow(base, k - 1));
    }
  }

  lemma DivBelow(n: nat, d: nat, m: nat)
    requires d > 0
    ensures n / d < m <==> n < d * m
  {
    assert n == n / d * d + n % d;
    if n / d < m {
      MulMono(n / d + 1, m, d);
    } else {
      MulMono(m, n / d, d);
    }
  }

  lemma {:induction false} PowPositive(base: nat, k: nat)
    requires base > 0
    ensures Pow(base, k) > 0
  {
    if k > 0 { PowPositive(base, k - 1); }
  }

  lemma {:induction false} PowMono(a: nat, b: nat, k: nat)
    requires a <= b
    ensures Pow(a, k) <= Pow(b, k)
  {
    if k > 0 {
      PowMono(a, b, k - 1);
      MulMono(a, b, Pow(a, k - 1));
      MulMono(Pow(a, k - 1), Pow(b, k - 1), b);
    }
  }

  lemma {:induction false} PowAdd(a: nat, j: nat, k: nat)
    ensures Pow(a, j + k) == Pow(a, j) * Pow(a, k)
  {
    if j > 0 {
      PowAdd(a, j - 1, k);
      assert a * (Pow(a, j - 1) * Pow(a, k)) == (a * Pow(a, j - 1)) * Pow(a, k);
    }
  }

  /** The numeral and its terminating NUL fit the buffer. */
  predicate FitsBuffer(n: nat, base: nat)
    requires 2 <= base <= 36
  {
    |Numeral(n, base)| + 1 <= BUFFER
  }

  /** Which numbers fit, for each base. */
  lemma FitsExactly(n: nat, base: nat)
    requires 2 <= base <= 36
    ensures FitsBuffer(n, base) <==> n < Pow(base, BUFFER - 1)
  {
    DigitCount(n, base, BUFFER - 1);
    PowPositive(base, BUFFER - 1);
  }

  /** The buffer holds every 64-bit number exactly when the base is at least 3. */
  lemma BufferBound(base: nat)
    requires 2 <= base <= 36
    ensures (forall n: nat :: n < WORD ==> FitsBuffer(n, base)) <==> base >= 3
  {
    if base >= 3 {
      forall n: nat | n < WORD ensures FitsBuffer(n, base) {
        FitsExactly(n, base);
        ThreeUp(base, BUFFER - 1);
      }
    } else {
      var n := TooLong();
    }
  }

  lemma ThreeUp(base: nat, k: nat)
    requires base >= 3 && k == 49
    ensures Pow(base, k) > WORD
  {
    ThreeTo49();
    PowMono(3, base, k);
  }

  lemma TooLong() returns (n: nat)
    ensures n < WORD && !FitsBuffer(n, 2)
  {
    TwoTo49();
    n := Pow(2, 49);
    FitsExactly(n, 2);
  }

  lemma ThreeTo49()
    ensures Pow(3, 49) > WORD
  {
    assert Pow(3, 7) == 2187;
    PowAdd(3, 7, 7);
    PowAdd(3, 14, 14);
    PowAdd(3, 28, 14);
    PowAdd(3, 42, 7);
  }

  lemma TwoTo49()
    ensures Pow(2, 49) < WORD
  {
    assert Pow(2, 7) == 128;
    PowAdd(2, 7, 7);
    PowAdd(2, 14, 14);
    PowAdd(2, 28, 14);
    PowAdd(2, 42, 7);
  }

  // ----- the routines -------------------------------------------------------

  function Reversed(s: string): string {
    if s == "" then "" else Reversed(s[1..]) + [s[0]]
  }

  lemma {:induction false} ReversedAt(s: string, k: nat)
    requires k < |s|
    ensures |Reversed(s)| == |s| && Reversed(s)[k] == s[|s| - 1 - k]
    decreases |s|
  {
    if |s| == 1 {
    } else if k == |s| - 1 {
      ReversedAt(s[1..], 0);
    } else {
      ReversedAt(s[1..], k);
    }
  }

  /** `reverse(str, length)` */
  method Reverse(str: array<char>, length: nat)
    requires length <= str.Length
    modifies str
    ensures str[..length] == Reversed(old(str[..length])) && str[length..] == old(str[length..])
  {
    var start, end := 0, length - 1;
    while start < end
      invariant 0 <= start <= end + 1 && start + end == length - 1
      invariant forall k :: 0 <= k < start ==> str[k] == old(str[length - 1 - k]) && str[length - 1 - k] == old(str[k])
      invariant forall k :: start <= k <= end ==> str[k] == old(str[k])
      invariant forall k :: length <= k < str.Length ==> str[k] == old(str[k])
    {
      str[start], str[end] := str[end], str[start];
      start, end := start + 1, end - 1;
    }
    ghost var was := old(str[..length]);
    forall k | 0 <= k < length ensures |Reversed(was)| == length && str[..length][k] == Reversed(was)[k] {
      ReversedAt(was, k);
      assert str[k] == old(str[length - 1 - k]);
    }
    assert length == 0 ==> was == "";
  }

  lemma {:induction false} ReversedSnoc(s: string, c: char)
    ensures Reversed(s + [c]) == [c] + Reversed(s)
  {
    if s == "" {
      assert s + [c] == [c];
    } else {
      assert (s + [c])[1..] == s[1..] + [c];
      ReversedSnoc(s[1..], c);
    }
  }

  method PutDigit(buf: array<char>, i: nat, c: char)
    requires i < buf.Length
    modifies buf
    ensures Reversed(buf[..i + 1]) == [c] + Reversed(old(buf[..i]))
  {
    ghost var before := buf[..i];
    buf[i] := c;
    assert buf[..i + 1] == before + [c];
    ReversedSnoc(before, c);
  }

  /** The loop that both routines share: the digits of num, least significant first. */
  method PutDigits(buf: array<char>, num: nat, base: nat) returns (i: nat)
    requires 2 <= base <= 36 && |Digits(num, base)| <= buf.Length
    modifies buf
    ensures i == |Digits(num, base)| && Reversed(buf[..i]) == Digits(num, base)
  {
    hide Div, Mod;
    i := 0;
    var n: nat := num;
    while n != 0
      invariant i <= buf.Length && Digits(num, base) == Digits(n, base) + Reversed(buf[..i]) &&
        |Reversed(buf[..i])| == i
    {
      DigitsLast(n, base);
      PutDigit(buf, i, DigitChar(Mod(n, base)));
      i := i + 1;
      n := Div(n, base);
    }
  }

  method Uitoa(buf: array<char>, num: nat, base: nat) returns (length: nat)
    requires 2 <= base <= 36 && buf.Length == BUFFER && FitsBuffer(num, base)
    modifies buf
    ensures length < BUFFER && buf[..length] == Numeral(num, base) && buf[length] == '\0'
    ensures IsNumeral(buf[..length], base) && Parse(buf[..length], base) == num
  {
    hide IsNumeral, Parse, Digits, Reversed;
    NumeralReads(num, base);
    if num == 0 {
      buf[0], buf[1] := '0', '\0';
      return 1;
    }
    length := PutDigits(buf, num, base);
    buf[length] := '\0';
    Reverse(buf, length);
    assert buf[length..][0] == '\0';
  }

  /** The form of a signed number. */
  function Signed(num: int, base: nat): string
    requires 2 <= base <= 36
  {
    if num < 0 then "-" + Digits(-num, base) else Numeral(num, base)
  }

  /**
   * The numbers that `itoa` negates or keeps as they are: no negation leaves `int`, no conversion to `size_t` changes
   * the value.
   */
  predicate ItoaDomain(num: int, base: nat) {
    -0x8000_0000 < num < 0x8000_0000 && 2 <= base <= 36 && (num < 0 ==> base == 10)
  }

  method Itoa(buf: array<char>, num: int, base: nat) returns (length: nat)
    requires ItoaDomain(num, base) && buf.Length == BUFFER
    modifies buf
    ensures length < BUFFER && buf[..length] == Signed(num, base) && buf[length] == '\0'
    ensures IsSigned(buf[..length], base) && ParseSigned(buf[..length], base) == num
  {
    hide ParseSigned, IsSigned;
    SignedReads(num, base);
    SignedShort(num, base);
    if num == 0 {
      buf[0], buf[1] := '0', '\0';
      return 1;
    }
    var n := if num < 0 && base == 10 then -num else num;
    length := PutDigits(buf, n, base);
    if num < 0 {
      ghost var before := buf[..length];
      buf[length] := '-';
      assert buf[..length + 1] == before + ['-'];
      ReversedSnoc(before, '-');
      length := length + 1;
    }
    buf[length] := '\0';
    Reverse(buf, length);
    assert buf[length..][0] == '\0';
  }

  lemma SignedShort(num: int, base: nat)
    requires ItoaDomain(num, base)
    ensures |Digits(if num < 0 then -num else num, base)| <= 31
  {
    hide Pow, Digits;
    var n: nat := if num < 0 then -num else num;
    var k := 31;
    TwoTo31(k);
    DigitCount(n, base, k);
    PowMono(2, base, k);
  }

  lemma TwoTo31(k: nat)
    requires k == 31
    ensures Pow(2, k) == 0x8000_0000
  {
    assert Pow(2, 7) == 128;
    PowAdd(2, 7, 7);
    PowAdd(2, 14, 14);
    PowAdd(2, 28, 3);
  }

  /** Reading an optional minus sign and digits. */
  function ParseSigned(s: string, base: nat): int {
    if s != "" && s[0] == '-' then -(Parse(s[1..], base) as int) else Parse(s, base)
  }

  lemma ZeroNumeral(base: nat)
    ensures Parse("0", base) == 0
  {
    assert "0"[..0] == "";
  }

  lemma SignedRoundTrip(num: int, base: nat)
    requires 2 <= base <= 36
    ensures ParseSigned(Signed(num, base), base) == num
    ensures num > 0 ==> Signed(num, base) != "" && Signed(num, base)[0] != '0'
    ensures num < 0 ==> |Signed(num, base)| > 1 && Signed(num, base)[1] != '0'
  {
    if num < 0 {
      ParseDigits(-num, base);
      assert Signed(num, base)[1..] == Digits(-num, base);
    } else {
      ParseDigits(num, base);
      ZeroNumeral(base);
      if num > 0 { assert IsDigit(Signed(num, base)[0], base); }
    }
  }

  // ----- negative numbers outside base 10 --------------------------------------

  /** An `int` that takes part in an operation with a `size_t`. */
  function Unsigned(n: int): nat
    requires -0x8000_0000 <= n
  {
    if n < 0 then n + WORD else n
  }

  /** A `size_t` stored in an `int`. */
  function Truncated(u: nat): (n: int)
    ensures -0x8000_0000 <= n < 0x8000_0000
  {
    var low := u % 0x1_0000_0000;
    if low < 0x8000_0000 then low else low - 0x1_0000_0000
  }

  /** `num` after k iterations of the digit loop of `itoa`. */
  function NumAfter(num: int, base: nat, k: nat): (n: int)
    requires -0x8000_0000 <= num < 0x8000_0000 && base > 0
    ensures -0x8000_0000 <= n < 0x8000_0000
  {
    if k == 0 then num else Truncated(Unsigned(NumAfter(num, base, k - 1)) / base)
  }

  predicate PowerOfTwo(base: nat) { base in {2, 4, 8, 16, 32} }

  lemma NegativeStep(n: int, base: nat)
    requires -0x8000_0000 <= n < 0 && PowerOfTwo(base)
    ensures Truncated(Unsigned(n) / base) < 0
  {
    var q := WORD / base / 0x1_0000_0000;
    assert (n + WORD) / base == q * 0x1_0000_0000 + n / base by {
      if base == 2 {
      } else if base == 4 {
      } else if base == 8 {
      } else if base == 16 {
      } else {
      }
    }
    LowHalf(q, n / base);
  }

  lemma LowHalf(q: nat, n: int)
    requires -0x8000_0000 <= n < 0 && q > 0
    ensures Truncated(q * 0x1_0000_0000 + n) == n
  {
    assert q * 0x1_0000_0000 + n == (q - 1) * 0x1_0000_0000 + (0x1_0000_0000 + n);
    DivAdd(q - 1, 0x1_0000_0000, 0x1_0000_0000 + n);
  }

  lemma {:induction false} NegativeStays(num: int, base: nat, k: nat)
    requires -0x8000_0000 <= num < 0 && PowerOfTwo(base)
    ensures NumAfter(num, base, k) < 0
  {
    if k > 0 {
      NegativeStays(num, base, k - 1);
      NegativeStep(NumAfter(num, base, k - 1), base);
    }
  }

  lemma {:induction false} LoopSteps(num: int, base: nat, k: nat)
    requires 0 <= num < 0x8000_0000 && base >= 2
    ensures 0 <= NumAfter(num, base, k) && (NumAfter(num, base, k) == 0 || NumAfter(num, base, k) + k <= num)
  {
    if k > 0 {
      hide Truncated, Unsigned;
      LoopSteps(num, base, k - 1);
      PositiveStep(NumAfter(num, base, k - 1), base);
    }
  }

  lemma PositiveStep(n: int, base: nat)
    requires 0 <= n < 0x8000_0000 && base >= 2
    ensures var next := Truncated(Unsigned(n) / base); 0 <= next && (next == 0 || next < n)
  {
    if n > 0 { Shrinks(n, base); } else { assert 0 / base == 0; }
  }

  /** In a base that is a power of two the digit loop of `itoa` ends exactly for numbers that are not negative. */
  lemma ItoaEnds(num: int, base: nat)
    requires -0x8000_0000 <= num < 0x8000_0000 && PowerOfTwo(base)
    ensures (exists k: nat :: NumAfter(num, base, k) == 0) <==> num >= 0
  {
    if num >= 0 {
      LoopSteps(num, base, num + 1);
      assert NumAfter(num, base, num + 1) == 0;
    } else {
      forall k: nat ensures NumAfter(num, base, k) != 0 {
        NegativeStays(num, base, k);
      }
    }
  }
}
