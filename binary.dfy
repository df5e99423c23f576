/**
 * Binary text of natural numbers. `ToBinary` stands for the repository's
 * `decToBin` helper and for `Number.prototype.toString(2)`: most significant
 * digit first, no leading zeros, "0" for zero. `PadLeft` is the left padding
 * with '0' that `getBits`, `powerSet` and `padStart(n, '0')` perform.
 */
module Binary {

  function Pow2(k: nat): (r: nat)
    ensures r >= 1
  {
    if k == 0 then 1 else 2 * Pow2(k - 1)
  }

  function BitChar(b: nat): char
    requires b < 2
  {
    if b == 0 then '0' else '1'
  }

  predicate IsBinaryText(s: string)
  {
    forall i :: 0 <= i < |s| ==> s[i] == '0' || s[i] == '1'
  }

  function ToBinary(v: nat): (s: string)
    ensures |s| >= 1 && IsBinaryText(s)
    decreases v
  {
    if v < 2 then [BitChar(v)] else ToBinary(v / 2) + [BitChar(v % 2)]
  }

  /** Reads a string of '0'/'1' digits as a binary number. */
  function FromBinary(s: string): nat
    decreases |s|
  {
    if |s| == 0 then 0
    else 2 * FromBinary(s[..|s| - 1]) + (if s[|s| - 1] == '1' then 1 else 0)
  }

  function Zeros(k: nat): (s: string)
    ensures |s| == k && forall i :: 0 <= i < k ==> s[i] == '0'
  {
    seq(k, _ => '0')
  }

  /** `s` with '0' prepended until it is at least `width` long. */
  function PadLeft(s: string, width: nat): (r: string)
    ensures |r| == if |s| < width then width else |s|
  {
    if |s| < width then Zeros(width - |s|) + s else s
  }

  /** `value` in binary, left-padded with '0' to at least `width` digits. */
  function BinaryOfWidth(value: nat, width: nat): string
  {
    PadLeft(ToBinary(value), width)
  }

  lemma {:induction false} BinaryRoundTrip(v: nat)
    ensures FromBinary(ToBinary(v)) == v
    decreases v
  {
    if v >= 2 {
      BinaryRoundTrip(v / 2);
      var s := ToBinary(v);
      assert s[..|s| - 1] == ToBinary(v / 2);
    }
  }

  lemma {:induction false} LeadingZerosIgnored(k: nat, s: string)
    ensures FromBinary(Zeros(k) + s) == FromBinary(s)
    decreases |s|
  {
    var t := Zeros(k) + s;
    if |s| == 0 {
      AllZerosReadAsZero(k);
      assert t == Zeros(k);
    } else {
      LeadingZerosIgnored(k, s[..|s| - 1]);
      assert t[..|t| - 1] == Zeros(k) + s[..|s| - 1];
    }
  }

  lemma {:induction false} AllZerosReadAsZero(k: nat)
    ensures FromBinary(Zeros(k)) == 0
  {
    if k > 0 {
      AllZerosReadAsZero(k - 1);
      assert Zeros(k)[..k - 1] == Zeros(k - 1);
    }
  }

  /** With at least one digit allowed, `v` fits in `n` digits exactly when `v < 2^n`. */
  lemma {:induction false} BinaryLength(v: nat, n: nat)
    requires n >= 1
    ensures |ToBinary(v)| <= n <==> v < Pow2(n)
    decreases v
  {
    if v >= 2 {
      if n == 1 {
        assert |ToBinary(v)| == |ToBinary(v / 2)| + 1;
      } else {
        BinaryLength(v / 2, n - 1);
      }
    }
  }

  /**
   * The padded rendering reads back as the value, and has exactly `width`
   * digits when the value is below `2^width` (and `width` is positive).
   */
  lemma BinaryOfWidthSpec(value: nat, width: nat)
    ensures FromBinary(BinaryOfWidth(value, width)) == value
    ensures IsBinaryText(BinaryOfWidth(value, width))
    ensures width >= 1 && value < Pow2(width) ==> |BinaryOfWidth(value, width)| == width
    ensures width == 0 ==> BinaryOfWidth(value, width) == ToBinary(value)
  {
    var s := ToBinary(value);
    BinaryRoundTrip(value);
    if |s| < width {
      LeadingZerosIgnored(width - |s|, s);
    }
    if width >= 1 {
      BinaryLength(value, width);
    }
  }

  /** `2^m - 1` is written as `m` ones. */
  lemma {:induction false} AllOnes(m: nat)
    requires m >= 1
    ensures ToBinary(Pow2(m) - 1) == seq(m, _ => '1')
  {
    if m > 1 {
      AllOnes(m - 1);
      assert (Pow2(m) - 1) / 2 == Pow2(m - 1) - 1;
      assert (Pow2(m) - 1) % 2 == 1;
    }
  }

  /** `2^k - 2` is written as `k - 1` ones followed by one zero. */
  lemma AllButLast(k: nat)
    requires k >= 2
    ensures ToBinary(Pow2(k) - 2) == seq(k - 1, _ => '1') + ['0']
  {
    AllOnes(k - 1);
    assert (Pow2(k) - 2) / 2 == Pow2(k - 1) - 1;
    assert (Pow2(k) - 2) % 2 == 0;
  }

  /**
   * A `k`-digit binary text, read as a number, is below `2^k` and is written
   * back, padded to `k` digits, as the same text.
   */
  lemma {:induction false} FixedWidthRoundTrip(s: string)
    requires |s| >= 1 && IsBinaryText(s)
    ensures FromBinary(s) < Pow2(|s|)
    ensures BinaryOfWidth(FromBinary(s), |s|) == s
    decreases |s|
  {
    BinaryBounds(s);
    var k := |s|;
    var p := s[..k - 1];
    assert s == p + [s[k - 1]];
    if k == 1 {
      assert FromBinary(s) == FromBinary(p) * 2 + FromBinary([s[0]]);
    } else {
      assert IsBinaryText(p) by {
        forall i | 0 <= i < |p|
          ensures p[i] == '0' || p[i] == '1'
        {
          assert p[i] == s[i];
        }
      }
      FixedWidthRoundTrip(p);
      AppendDigit(p, s[k - 1]);
    }
  }

  /** Appending a digit to a padded rendering gives the padded rendering of the longer text. */
  lemma AppendDigit(p: string, c: char)
    requires |p| >= 1 && (c == '0' || c == '1')
    requires BinaryOfWidth(FromBinary(p), |p|) == p
    ensures BinaryOfWidth(FromBinary(p + [c]), |p| + 1) == p + [c]
  {
    var s := p + [c];
    assert s[..|s| - 1] == p;
    var v := FromBinary(s);
    assert v == 2 * FromBinary(p) + (if c == '1' then 1 else 0);
    if FromBinary(p) == 0 {
      AppendToZero(p, c, v);
    } else {
      AppendToPositive(p, c, v);
    }
  }

  lemma AppendToZero(p: string, c: char, v: nat)
    requires |p| >= 1 && (c == '0' || c == '1')
    requires BinaryOfWidth(0, |p|) == p
    requires v == if c == '1' then 1 else 0
    ensures BinaryOfWidth(v, |p| + 1) == p + [c]
  {
    assert ToBinary(0) == ['0'];
    assert p == Zeros(|p| - 1) + ['0'];
    assert p == Zeros(|p|);
    assert ToBinary(v) == [c];
    assert BinaryOfWidth(v, |p| + 1) == Zeros(|p|) + [c];
  }

  lemma AppendToPositive(p: string, c: char, v: nat)
    requires |p| >= 1 && (c == '0' || c == '1')
    requires FromBinary(p) >= 1
    requires BinaryOfWidth(FromBinary(p), |p|) == p
    requires v == 2 * FromBinary(p) + (if c == '1' then 1 else 0)
    ensures BinaryOfWidth(v, |p| + 1) == p + [c]
  {
    var w := FromBinary(p);
    var x := ToBinary(w);
    assert PadLeft(x, |p|) == p;
    assert |x| <= |p|;
    ShiftIn(w, c);
    PadAppend(x, c, |p|);
    assert BinaryOfWidth(v, |p| + 1) == PadLeft(x + [c], |p| + 1);
  }

  /** Doubling a positive value and adding a bit appends that bit's digit. */
  lemma ShiftIn(w: nat, c: char)
    requires w >= 1 && (c == '0' || c == '1')
    ensures ToBinary(2 * w + (if c == '1' then 1 else 0)) == ToBinary(w) + [c]
  {
    var v := 2 * w + (if c == '1' then 1 else 0);
    assert v / 2 == w && v % 2 == (if c == '1' then 1 else 0);
  }

  /** Padding commutes with appending a digit. */
  lemma PadAppend(x: string, c: char, n: nat)
    requires |x| <= n
    ensures PadLeft(x + [c], n + 1) == PadLeft(x, n) + [c]
  {
    if |x| < n {
      assert PadLeft(x + [c], n + 1) == Zeros(n - |x|) + (x + [c]);
    }
  }

  /** A binary text with a '0' reads below `2^k - 1`; one with a '1' reads as at least 1. */
  lemma {:induction false} BinaryBounds(s: string)
    requires IsBinaryText(s)
    ensures FromBinary(s) <= Pow2(|s|) - 1
    ensures (exists j :: 0 <= j < |s| && s[j] == '0') ==> FromBinary(s) <= Pow2(|s|) - 2
    ensures (exists j :: 0 <= j < |s| && s[j] == '1') ==> FromBinary(s) >= 1
    decreases |s|
  {
    if |s| > 0 {
      var k := |s|;
      var p := s[..k - 1];
      BinaryBounds(p);
      if exists j :: 0 <= j < |s| && s[j] == '0' {
        var j :| 0 <= j < |s| && s[j] == '0';
        if j < k - 1 {
          assert p[j] == '0';
        }
      }
      if exists j :: 0 <= j < |s| && s[j] == '1' {
        var j :| 0 <= j < |s| && s[j] == '1';
        if j < k - 1 {
          assert p[j] == '1';
        }
      }
    }
  }
}
