/** 8.3 names: `filenameToFAT` and `fatToFilename`. */
module FatNames {

  function Spaces(n: nat): (s: string)
    ensures |s| == n && forall i :: 0 <= i < n ==> s[i] == ' '
  {
    if n == 0 then "" else Spaces(n - 1) + " "
  }

  function Pad(s: string, n: nat): (r: string)
    requires |s| <= n
    ensures |r| == n
  {
    s + Spaces(n - |s|)
  }

  /** The part before the first dot, cut after max characters. */
  function BaseLength(name: string, max: nat): (b: nat)
    ensures b <= |name| && b <= max
    ensures forall i :: 0 <= i < b ==> name[i] != '.'
    ensures b < max && b < |name| ==> name[b] == '.'
  {
    if max == 0 || name == "" || name[0] == '.' then 0 else 1 + BaseLength(name[1..], max - 1)
  }

  function Cut(s: string, n: nat): (r: string)
    ensures |r| <= n
  {
    if |s| <= n then s else s[..n]
  }

  /** `filenameToFAT`: one character after the base is skipped, whatever it is. */
  function ToFat(name: string): (r: string)
    ensures |r| == 11
  {
    var b := BaseLength(name, 8);
    Pad(name[..b], 8) + Pad(if b == |name| then "" else Cut(name[b + 1..], 3), 3)
  }

  function Squeeze(s: string): string {
    if s == "" then "" else Squeeze(s[..|s| - 1]) + if s[|s| - 1] == ' ' then "" else [s[|s| - 1]]
  }

  /** `fatToFilename`: no extension when the first extension character is a space. */
  function FromFat(fat: string): string
    requires |fat| == 11
  {
    Squeeze(fat[..8]) + if fat[8] == ' ' then "" else "." + Squeeze(fat[8..])
  }

  /**
   * Byte by byte: with the first dot at d, or none, the first 8 characters before it, padded, and of what follows the
   * character behind them 3, padded.
   */
  lemma ToFatBytes(name: string, d: nat)
    requires d <= |name| && (forall i :: 0 <= i < d ==> name[i] != '.') && (d < |name| ==> name[d] == '.')
    ensures forall k :: 0 <= k < 8 ==> ToFat(name)[k] == if k < d then name[k] else ' '
    ensures var b := if d < 8 then d else 8;
      forall k: nat :: 8 <= k < 11 ==> ToFat(name)[k] == if b + k - 7 < |name| then name[b + k - 7] else ' '
  {
    var b := if d < 8 then d else 8;
    assert BaseLength(name, 8) == b;
    hide BaseLength, Spaces;
    var ext := if b == |name| then "" else Cut(name[b + 1..], 3);
    assert ToFat(name) == Pad(name[..b], 8) + Pad(ext, 3);
    forall k: nat | 8 <= k < 11 ensures ToFat(name)[k] == if b + k - 7 < |name| then name[b + k - 7] else ' ' {
      assert ToFat(name)[k] == Pad(ext, 3)[k - 8];
    }
  }

  /** `fatToFilename` drops the spaces and keeps the order of the rest. */
  lemma {:induction false} SqueezeConcat(x: string, y: string)
    ensures Squeeze(x + y) == Squeeze(x) + Squeeze(y)
    decreases |y|
  {
    if y == "" {
      assert x + y == x;
    } else {
      assert (x + y)[..|x + y| - 1] == x + y[..|y| - 1];
      SqueezeConcat(x, y[..|y| - 1]);
    }
  }

  lemma SqueezeOne(c: char)
    ensures Squeeze([c]) == if c == ' ' then "" else [c]
  {
    assert [c][..0] == "";
  }

  // ----- round trips ---------------------------------------------------------

  predicate NoSpace(s: string) { forall i :: 0 <= i < |s| ==> s[i] != ' ' }

  lemma {:induction false} SqueezeFull(s: string)
    requires NoSpace(s)
    ensures Squeeze(s) == s
  {
    if s != "" {
      SqueezeFull(s[..|s| - 1]);
      assert s[..|s| - 1] + [s[|s| - 1]] == s;
    }
  }

  lemma {:induction false} SqueezeNoSpace(s: string)
    ensures NoSpace(Squeeze(s)) && |Squeeze(s)| <= |s|
  {
    if s != "" { SqueezeNoSpace(s[..|s| - 1]); }
  }

  lemma {:induction false} SqueezePad(s: string, n: nat)
    requires NoSpace(s) && |s| <= n
    ensures Squeeze(Pad(s, n)) == s
    decreases n
  {
    if |s| == n {
      assert Pad(s, n) == s;
      SqueezeFull(s);
    } else {
      assert Pad(s, n)[..n - 1] == Pad(s, n - 1);
      SqueezePad(s, n - 1);
    }
  }

  /** A name that fits: a base of at most 8 and, after the first dot, an extension of 1 to 3 characters. */
  predicate ShortName(name: string) {
    && NoSpace(name)
    && var b := BaseLength(name, |name|);
      b <= 8 && (b == |name| || 1 <= |name| - b - 1 <= 3)
  }

  lemma {:induction false} BaseUnbounded(name: string, max: nat)
    ensures BaseLength(name, max) == if BaseLength(name, |name|) <= max then BaseLength(name, |name|) else max
    decreases |name|
  {
    if max != 0 && name != "" && name[0] != '.' {
      BaseUnbounded(name[1..], max - 1);
    }
  }

  /** Base, dot and cut extension make up the name exactly when the base ends at a dot and nothing was cut. */
  lemma Rejoin(name: string, b: nat, ext: string)
    requires b == BaseLength(name, 8) && ext == if b == |name| then "" else Cut(name[b + 1..], 3)
    ensures (if ext == "" then name[..b] else name[..b] + "." + ext) == name <==>
      var long := BaseLength(name, |name|); long <= 8 && (long == |name| || 1 <= |name| - long - 1 <= 3)
  {
    hide BaseLength;
    BaseUnbounded(name, 8);
    var long := BaseLength(name, |name|);
    var r := if ext == "" then name[..b] else name[..b] + "." + ext;
    if b == |name| {
      assert r == name;
    } else if long > 8 {
      if ext != "" { assert r[8] == '.' && name[8] != '.'; }
    } else {
      DotSplit(name, b);
      if |name| - b - 1 > 3 { assert |r| == b + 4 < |name|; }
    }
  }

  lemma DotSplit(name: string, b: nat)
    requires b < |name| && name[b] == '.'
    ensures name[..b] + "." + name[b + 1..] == name
  {
  }

  /** `fatToFilename` undoes `filenameToFAT` exactly on the names that fit. */
  lemma NameRoundTrip(name: string)
    ensures FromFat(ToFat(name)) == name <==> ShortName(name)
  {
    hide BaseLength, Squeeze, Spaces;
    var b, fat := BaseLength(name, 8), ToFat(name);
    var ext := if b == |name| then "" else Cut(name[b + 1..], 3);
    BaseUnbounded(name, 8);
    assert fat[..8] == Pad(name[..b], 8) && fat[8..] == Pad(ext, 3);
    assert fat[8] == Pad(ext, 3)[0];
    SqueezeNoSpace(fat[..8]);
    SqueezeNoSpace(fat[8..]);
    if NoSpace(name) {
      SqueezePad(name[..b], 8);
      SqueezePad(ext, 3);
      assert FromFat(fat) == if ext == "" then name[..b] else name[..b] + "." + ext;
      Rejoin(name, b, ext);
    } else {
      assert NoSpace(FromFat(fat));
    }
  }

  /** Characters first, then only spaces. */
  predicate RightPadded(s: string) {
    forall i, j :: 0 <= i < j < |s| && s[i] == ' ' ==> s[j] == ' '
  }

  lemma {:induction false} PadSqueeze(s: string)
    requires RightPadded(s)
    ensures |Squeeze(s)| <= |s| && Pad(Squeeze(s), |s|) == s
  {
    if s != "" {
      var n := |s| - 1;
      assert s[..n] + [s[n]] == s;
      if s[n] == ' ' {
        PadSqueeze(s[..n]);
        hide RightPadded;
        PadOne(Squeeze(s[..n]), n);
      } else {
        assert NoSpace(s);
        hide RightPadded, Squeeze;
        SqueezeFull(s);
      }
    }
  }

  lemma PadOne(s: string, n: nat)
    requires |s| <= n
    ensures Pad(s, n + 1) == Pad(s, n) + " "
  {
  }

  /** An 11-byte directory name as `filenameToFAT` makes them: two right-padded parts, no dot in the first. */
  predicate FatName(fat: string)
    requires |fat| == 11
  {
    RightPadded(fat[..8]) && RightPadded(fat[8..]) && forall i :: 0 <= i < 8 ==> fat[i] != '.'
  }

  lemma ToFatShape(name: string)
    ensures FatName(ToFat(name)) || !NoSpace(name)
  {
    var b := BaseLength(name, 8);
    var ext := if b == |name| then "" else Cut(name[b + 1..], 3);
    var fat := ToFat(name);
    assert fat[..8] == Pad(name[..b], 8) && fat[8..] == Pad(ext, 3);
    if NoSpace(name) {
      assert NoSpace(ext) && NoSpace(name[..b]);
    }
  }

  lemma {:induction false} BaseExact(base: string, rest: string, max: nat)
    requires |base| <= max && (forall i :: 0 <= i < |base| ==> base[i] != '.') && (rest == "" || rest[0] == '.')
    ensures BaseLength(base + rest, max) == |base|
    decreases |base|
  {
    if base == "" {
      assert base + rest == rest;
    } else {
      assert (base + rest)[1..] == base[1..] + rest;
      BaseExact(base[1..], rest, max - 1);
    }
  }

  /** `filenameToFAT` undoes `fatToFilename` exactly on the 11-byte names of that shape. */
  lemma FatRoundTrip(fat: string)
    requires |fat| == 11
    ensures ToFat(FromFat(fat)) == fat <==> FatName(fat)
  {
    SqueezeNoSpace(fat[..8]);
    SqueezeNoSpace(fat[8..]);
    ToFatShape(FromFat(fat));
    if FatName(fat) { FatNameKept(fat); }
  }

  lemma FatNameKept(fat: string)
    requires |fat| == 11 && FatName(fat)
    ensures ToFat(FromFat(fat)) == fat
  {
    var base, ext := Squeeze(fat[..8]), Squeeze(fat[8..]);
    PadSqueeze(fat[..8]);
    PadSqueeze(fat[8..]);
    assert forall i :: 0 <= i < |base| ==> base[i] == Pad(base, 8)[i] == fat[i];
    assert fat[8] == fat[8..][0];
    if fat[8] == ' ' {
      AllSpaces(fat[8..]);
    }
    hide RightPadded, Squeeze, Pad;
    assert fat == fat[..8] + fat[8..];
    PartsToFat(base, fat[8] != ' ', ext);
  }

  /** The name of two parts, the second one present or not. */
  lemma PartsToFat(base: string, dot: bool, ext: string)
    requires |base| <= 8 && |ext| <= 3 && forall i :: 0 <= i < |base| ==> base[i] != '.'
    ensures ToFat(base + if dot then "." + ext else "") == Pad(base, 8) + Pad(if dot then ext else "", 3)
  {
    hide BaseLength, Pad;
    var rest := if dot then "." + ext else "";
    BaseExact(base, rest, 8);
    assert (base + rest)[..|base|] == base;
    if dot { assert (base + rest)[|base| + 1..] == rest[1..] == ext; }
  }

  lemma AllSpaces(s: string)
    requires s != "" && RightPadded(s) && s[0] == ' '
    ensures s == Spaces(|s|) && s == Pad("", |s|)
  {
  }

  lemma ThreeSpaces(s: string)
    requires |s| == 3 && forall k :: 0 <= k < 3 ==> s[k] == ' '
    ensures s == Pad("", 3)
  {
    AllSpaces(s);
  }

  // ----- the routines --------------------------------------------------------

  method FilenameToFAT(fatname: array<char>, name: string)
    requires fatname.Length >= 11
    modifies fatname
    ensures fatname[..11] == ToFat(name) && fatname[11..] == old(fatname[11..])
  {
    for n := 0 to 11
      invariant forall k :: 0 <= k < fatname.Length ==> fatname[k] == if k < n then ' ' else old(fatname[k])
    {
      fatname[n] := ' ';
    }
    assert forall k :: 0 <= k < 11 ==> fatname[k] == ' ';
    hide BaseLength, Spaces;
    ThreeSpaces(fatname[8..11]);
    var j := CopyBase(fatname, name);
    assert fatname[8..11] == fatname[8..][..3];
    if j < |name| {
      CopyExtension(fatname, name, j + 1);
    }
    assert fatname[..11] == fatname[..8] + fatname[8..11];
  }

  /** The first loop; at a dot it only counts i up to 8. */
  method CopyBase(fatname: array<char>, name: string) returns (j: nat)
    requires fatname.Length >= 11 && forall k :: 0 <= k < 11 ==> fatname[k] == ' '
    modifies fatname
    ensures j == BaseLength(name, 8) && fatname[..8] == Pad(name[..j], 8)
    ensures fatname[8..] == old(fatname[8..])
  {
    var i := 0;
    j := 0;
    assert name[0..] == name;
    while j < |name| && i < 8
      invariant j <= i <= 8 && j <= |name| && BaseLength(name, 8) == j + BaseLength(name[j..], 8 - j)
      invariant i > j ==> j < |name| && name[j] == '.'
      invariant forall k :: 0 <= k < fatname.Length ==> fatname[k] == if k < j then name[k] else old(fatname[k])
    {
      if name[j] != '.' {
        fatname[i] := name[j];
        assert name[j..][1..] == name[j + 1..];
        j := j + 1;
      }
      i := i + 1;
    }
    assert fatname[..8] == name[..j] + Spaces(8 - j);
  }

  /** The second loop, from i = 8. */
  method CopyExtension(fatname: array<char>, name: string, from: nat)
    requires fatname.Length >= 11 && from <= |name| && forall k :: 8 <= k < 11 ==> fatname[k] == ' '
    modifies fatname
    ensures fatname[8..11] == Pad(Cut(name[from..], 3), 3)
    ensures fatname[..8] == old(fatname[..8]) && fatname[11..] == old(fatname[11..])
  {
    var i, j := 8, from;
    while j < |name| && i < 11
      invariant from <= j <= |name| && i == 8 + (j - from) && i <= 11
      invariant forall k :: 0 <= k < fatname.Length ==>
        fatname[k] == if 8 <= k < i then name[from + (k - 8)] else old(fatname[k])
    {
      fatname[i] := name[j];
      i, j := i + 1, j + 1;
    }
    assert Cut(name[from..], 3) == name[from..j];
    assert fatname[8..11] == name[from..j] + Spaces(11 - i);
  }

  method FatToFilename(name: array<char>, fatname: string) returns (length: nat)
    requires |fatname| == 11 && name.Length >= 13
    modifies name
    ensures length <= 12 && name[..length] == FromFat(fatname) && name[length] == '\0'
  {
    length := CopyUnspaced(name, 0, fatname[..8]);
    if fatname[8] != ' ' {
      name[length] := '.';
      ghost var base := name[..length];
      length := CopyUnspaced(name, length + 1, fatname[8..]);
      assert name[..length] == base + "." + Squeeze(fatname[8..]);
    }
    name[length] := '\0';
  }

  /** A loop that copies what is not a space. */
  method CopyUnspaced(name: array<char>, from: nat, part: string) returns (j: nat)
    requires from + |part| < name.Length
    modifies name
    ensures from <= j <= from + |part| && name[..j] == old(name[..from]) + Squeeze(part)
  {
    j := from;
    for i := 0 to |part|
      invariant from <= j <= from + i && name[..j] == old(name[..from]) + Squeeze(part[..i])
    {
      assert part[..i + 1][..i] == part[..i];
      if part[i] != ' ' {
        ghost var before := name[..j];
        name[j] := part[i];
        j := j + 1;
        assert name[..j] == before + [part[i]];
      }
    }
    assert part[..|part|] == part;
  }
}
