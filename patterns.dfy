/**
 * Implicant patterns: strings over '0', '1' and '-' ('-' marks a variable that
 * has been merged away). Both engines of the repository compare and merge
 * patterns position by position; the concepts they share are defined here once.
 */
module Patterns {

  /**
   * Position `i` of `a` disagrees with `b`. Reading past the end of `b` gives
   * `undefined` or "" in JavaScript, which never equals a character of `a`.
   */
  predicate Mismatch(a: string, b: string, i: nat)
    requires i < |a|
  {
    i >= |b| || a[i] != b[i]
  }

  /** Number of mismatching positions among the first `i` positions of `a`. */
  function MismatchesBelow(a: string, b: string, i: nat): nat
    requires i <= |a|
  {
    if i == 0 then 0
    else MismatchesBelow(a, b, i - 1) + (if Mismatch(a, b, i - 1) then 1 else 0)
  }

  /** Number of positions below `|a|` at which `a` and `b` differ. */
  function MismatchCount(a: string, b: string): nat
  {
    MismatchesBelow(a, b, |a|)
  }

  /**
   * `implicant` covers `minterm`: every position of the minterm is matched
   * by a '-' or by the same character of the implicant.
   */
  predicate Covers(minterm: string, implicant: string)
  {
    && |minterm| <= |implicant|
    && forall i :: 0 <= i < |minterm| ==> implicant[i] == '-' || minterm[i] == implicant[i]
  }

  /**
   * The pattern obtained from `a` by writing '-' wherever `b` disagrees; it
   * has the length of `a` and covers `a` (and `b`, when the lengths agree).
   */
  function Merge(a: string, b: string): (r: string)
    ensures |r| == |a|
    ensures Covers(a, r)
    ensures |a| == |b| ==> Covers(b, r)
  {
    seq(|a|, i requires 0 <= i < |a| => if Mismatch(a, b, i) then '-' else a[i])
  }

  /** Occurrences of `c` among the first `i` characters of `s`. */
  function CountBelow(s: string, c: char, i: nat): nat
    requires i <= |s|
  {
    if i == 0 then 0 else CountBelow(s, c, i - 1) + (if s[i - 1] == c then 1 else 0)
  }

  /** `(s.match(/1/g) || []).length`, and the count of '-' characters. */
  function Ones(s: string): nat { CountBelow(s, '1', |s|) }

  function Dashes(s: string): nat { CountBelow(s, '-', |s|) }

  lemma {:induction false} CountBelowBound(s: string, c: char, i: nat)
    requires i <= |s|
    ensures CountBelow(s, c, i) <= i
  {
    if i > 0 {
      CountBelowBound(s, c, i - 1);
    }
  }

  lemma OnesBound(s: string)
    ensures Ones(s) <= |s|
  {
    CountBelowBound(s, '1', |s|);
  }

  lemma DashesBound(s: string)
    ensures Dashes(s) <= |s|
  {
    CountBelowBound(s, '-', |s|);
  }

  lemma {:induction false} MismatchesMonotone(a: string, b: string, i: nat, j: nat)
    requires i <= j <= |a|
    ensures MismatchesBelow(a, b, i) <= MismatchesBelow(a, b, j)
    decreases j
  {
    if i < j {
      MismatchesMonotone(a, b, i, j - 1);
    }
  }

  lemma {:induction false} NoMismatchesBelow(a: string, b: string, i: nat)
    requires i <= |a|
    requires MismatchesBelow(a, b, i) == 0
    ensures forall k :: 0 <= k < i ==> !Mismatch(a, b, k)
  {
    if i > 0 {
      NoMismatchesBelow(a, b, i - 1);
    }
  }

  /** Patterns of equal length without a mismatch are identical. */
  lemma NoMismatchMeansEqual(a: string, b: string)
    requires |a| == |b| && MismatchCount(a, b) == 0
    ensures a == b
  {
    NoMismatchesBelow(a, b, |a|);
    forall k | 0 <= k < |a|
      ensures a[k] == b[k]
    {
      assert !Mismatch(a, b, k);
    }
  }

  lemma {:induction false} MismatchesBelowSymmetric(a: string, b: string, i: nat)
    requires |a| == |b| && i <= |a|
    ensures MismatchesBelow(a, b, i) == MismatchesBelow(b, a, i)
  {
    if i > 0 {
      MismatchesBelowSymmetric(a, b, i - 1);
    }
  }

  /** Mismatch count and merged pattern do not depend on operand order. */
  lemma MergeSymmetric(a: string, b: string)
    requires |a| == |b|
    ensures MismatchCount(a, b) == MismatchCount(b, a)
    ensures Merge(a, b) == Merge(b, a)
  {
    MismatchesBelowSymmetric(a, b, |a|);
  }

  lemma {:induction false} NoMismatchWithSelf(a: string, i: nat)
    requires i <= |a|
    ensures MismatchesBelow(a, a, i) == 0
  {
    if i > 0 {
      NoMismatchWithSelf(a, i - 1);
    }
  }

  /** A pattern merged with itself has no mismatch and is unchanged. */
  lemma MergeWithSelf(a: string)
    ensures MismatchCount(a, a) == 0
    ensures Merge(a, a) == a
  {
    NoMismatchWithSelf(a, |a|);
  }

  lemma CoversReflexive(a: string)
    ensures Covers(a, a)
  {
  }

  lemma CoversTransitive(m: string, p: string, q: string)
    requires Covers(m, p) && Covers(p, q)
    ensures Covers(m, q)
  {
    forall i | 0 <= i < |m|
      ensures q[i] == '-' || m[i] == q[i]
    {
      assert p[i] == '-' || m[i] == p[i];
      assert q[i] == '-' || p[i] == q[i];
    }
  }

  /**
   * Over the first `i` positions, twice the dashes of the merge minus the
   * dashes of both operands lies between one and two per mismatch.
   */
  lemma {:induction false} MergeDashesBelow(a: string, b: string, i: nat)
    requires |a| == |b| && i <= |a|
    ensures MismatchesBelow(a, b, i)
      <= 2 * CountBelow(Merge(a, b), '-', i) - CountBelow(a, '-', i) - CountBelow(b, '-', i)
      <= 2 * MismatchesBelow(a, b, i)
  {
    if i > 0 {
      MergeDashesBelow(a, b, i - 1);
    }
  }

  /**
   * Merging two patterns with the same number of dashes that differ at
   * exactly one position adds exactly one dash.
   */
  lemma MergeAddsOneDash(a: string, b: string)
    requires |a| == |b|
    requires Dashes(a) == Dashes(b)
    requires MismatchCount(a, b) == 1
    ensures Dashes(Merge(a, b)) == Dashes(a) + 1
  {
    MergeDashesBelow(a, b, |a|);
  }

  /** Position `i` is the only mismatch below `n`. */
  predicate OnlyMismatchAt(a: string, b: string, n: nat, i: nat)
    requires n <= |a|
  {
    i < n && Mismatch(a, b, i) && forall j :: 0 <= j < n && j != i ==> !Mismatch(a, b, j)
  }

  /** Exactly one position below `n` is a mismatch. */
  predicate UniqueMismatchBelow(a: string, b: string, n: nat)
    requires n <= |a|
  {
    exists i :: 0 <= i < n && OnlyMismatchAt(a, b, n, i)
  }

  /** No mismatch below `n` exactly when the count below `n` is zero. */
  lemma {:induction false} ZeroMismatches(a: string, b: string, n: nat)
    requires n <= |a|
    ensures MismatchesBelow(a, b, n) == 0 <==> forall j :: 0 <= j < n ==> !Mismatch(a, b, j)
    decreases n
  {
    if n > 0 {
      ZeroMismatches(a, b, n - 1);
    }
  }

  /** A count of one below `n` locates the single mismatching position. */
  lemma {:induction false} LocateMismatch(a: string, b: string, n: nat) returns (i: nat)
    requires n <= |a| && MismatchesBelow(a, b, n) == 1
    ensures OnlyMismatchAt(a, b, n, i)
    decreases n
  {
    if Mismatch(a, b, n - 1) {
      ZeroMismatches(a, b, n - 1);
      i := n - 1;
    } else {
      i := LocateMismatch(a, b, n - 1);
    }
  }

  /** A single mismatching position below `n` gives a count of one. */
  lemma {:induction false} CountOnlyMismatch(a: string, b: string, n: nat, i: nat)
    requires n <= |a| && OnlyMismatchAt(a, b, n, i)
    ensures MismatchesBelow(a, b, n) == 1
    decreases n
  {
    if i == n - 1 {
      ZeroMismatches(a, b, n - 1);
    } else {
      assert !Mismatch(a, b, n - 1);
      CountOnlyMismatch(a, b, n - 1, i);
    }
  }
}
