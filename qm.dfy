/**
 * The string-only Quine–McCluskey variant of src/utils/qm.js. Minterms are
 * padded binary strings, buckets are keyed by the count of '1', every merged
 * pattern goes into an insertion-ordered set of primes, and the result is the
 * list of essential primes when there is one, all primes otherwise. It shares
 * the pattern concepts of `Patterns` with the tabulation engine but none of its
 * policies.
 */
module QmStrings {
  import opened Wrappers
  import opened Strings
  import opened Binary
  import opened Patterns
  import opened Render
  import Implicants

  // ---------------------------------------------------------------------
  // Pattern helpers
  // ---------------------------------------------------------------------

  /** `differByOneBit`: counts the positions below `|m1|` where the patterns differ. */
  method DifferByOneBit(m1: string, m2: string) returns (r: bool)
    ensures r <==> MismatchCount(m1, m2) == 1
  {
    var count := 0;
    for i := 0 to |m1|
      invariant count == MismatchesBelow(m1, m2, i)
    {
      if i >= |m2| || m1[i] != m2[i] {
        count := count + 1;
      }
    }
    r := count == 1;
  }

  /**
   * `differByOneBit(m1, m2)` holds exactly when one position below `|m1|`
   * differs; it is symmetric for patterns of equal length.
   */
  lemma DifferByOneBitMeans(m1: string, m2: string)
    ensures MismatchCount(m1, m2) == 1 <==> UniqueMismatchBelow(m1, m2, |m1|)
    ensures |m1| == |m2| ==> MismatchCount(m1, m2) == MismatchCount(m2, m1)
  {
    if MismatchCount(m1, m2) == 1 {
      var i := LocateMismatch(m1, m2, |m1|);
    }
    if UniqueMismatchBelow(m1, m2, |m1|) {
      var i :| 0 <= i < |m1| && OnlyMismatchAt(m1, m2, |m1|, i);
      CountOnlyMismatch(m1, m2, |m1|, i);
    }
    if |m1| == |m2| {
      MismatchesBelowSymmetric(m1, m2, |m1|);
    }
  }

  /** `combineMinterms`: `m1` with '-' wherever `m2` disagrees. */
  function CombineMinterms(m1: string, m2: string): (r: string)
    ensures |r| == |m1|
    ensures forall i :: 0 <= i < |m1| ==> (r[i] == '-' <==> m1[i] == '-' || Mismatch(m1, m2, i))
    ensures forall i :: 0 <= i < |m1| && r[i] != '-' ==> r[i] == m1[i] && i < |m2| && r[i] == m2[i]
  {
    Merge(m1, m2)
  }

  /** `isCovered`: each position of the minterm is matched by '-' or the same character. */
  predicate IsCovered(minterm: string, implicant: string)
  {
    Covers(minterm, implicant)
  }

  /**
   * A pattern covers itself, the combination of two equal-length patterns
   * covers both, and combining patterns that differ at exactly one place and
   * have equally many dashes adds exactly one dash.
   */
  lemma CombineCovers(m1: string, m2: string)
    ensures IsCovered(m1, m1)
    ensures IsCovered(m1, CombineMinterms(m1, m2))
    ensures |m1| == |m2| ==> IsCovered(m2, CombineMinterms(m1, m2))
    ensures |m1| == |m2| && Dashes(m1) == Dashes(m2) && MismatchCount(m1, m2) == 1 ==>
      Dashes(CombineMinterms(m1, m2)) == Dashes(m1) + 1
  {
    CoversReflexive(m1);
    if |m1| == |m2| && Dashes(m1) == Dashes(m2) && MismatchCount(m1, m2) == 1 {
      MergeAddsOneDash(m1, m2);
    }
  }

  // ---------------------------------------------------------------------
  // Collections used by `quineMcCluskey`
  // ---------------------------------------------------------------------

  /** Width of the padded minterms: `padStart(numVars)` never shortens "0". */
  function Width(numVars: nat): (w: nat)
    ensures w >= 1
  {
    if numVars == 0 then 1 else numVars
  }

  /** Line 23: each minterm as binary left-padded with '0' to `numVars` digits. */
  function BinMinterms(minterms: seq<nat>, numVars: nat): seq<string>
  {
    seq(|minterms|, i requires 0 <= i < |minterms| => BinaryOfWidth(minterms[i], numVars))
  }

  /** Every padded minterm has `Width(numVars)` binary digits and reads back as its value. */
  lemma BinMintermsSpec(minterms: seq<nat>, numVars: nat)
    requires forall m :: m in minterms ==> m < Pow2(numVars)
    ensures |BinMinterms(minterms, numVars)| == |minterms|
    ensures forall i :: 0 <= i < |minterms| ==>
      var s := BinMinterms(minterms, numVars)[i];
      |s| == Width(numVars) && IsBinaryText(s) && FromBinary(s) == minterms[i]
  {
    forall i | 0 <= i < |minterms|
      ensures var s := BinMinterms(minterms, numVars)[i];
        |s| == Width(numVars) && IsBinaryText(s) && FromBinary(s) == minterms[i]
    {
      BinaryOfWidthSpec(minterms[i], numVars);
      assert minterms[i] in minterms;
    }
  }

  /** A string of binary digits has no dash. */
  lemma {:induction false} NoDashInBinary(s: string, i: nat)
    requires i <= |s| && IsBinaryText(s)
    ensures CountBelow(s, '-', i) == 0
    decreases i
  {
    if i > 0 {
      NoDashInBinary(s, i - 1);
    }
  }

  /** The elements of `list` with `k` ones, in order. */
  function WithOnes(list: seq<string>, k: nat): (r: seq<string>)
    ensures forall p :: p in r <==> p in list && Ones(p) == k
    decreases |list|
  {
    if |list| == 0 then []
    else
      var last := list[|list| - 1];
      assert forall p :: p in list <==> p in list[..|list| - 1] || p == last;
      WithOnes(list[..|list| - 1], k) + (if Ones(last) == k then [last] else [])
  }

  lemma WithOnesSnoc(list: seq<string>, m: string, k: nat)
    ensures WithOnes(list + [m], k) == WithOnes(list, k) + (if Ones(m) == k then [m] else [])
  {
    assert (list + [m])[..|list|] == list;
  }

  /** `Set.prototype.add` on an insertion-ordered set: append unless present. */
  function SetAdd(s: seq<string>, x: string): (r: seq<string>)
    ensures forall y :: y in r <==> y in s || y == x
    ensures Distinct(s) ==> Distinct(r)
    ensures |s| <= |r| && forall i :: 0 <= i < |s| ==> r[i] == s[i]
    ensures Elems(r) == Elems(s) + {x}
  {
    if x in s then s else s + [x]
  }

  /** `Object.keys` of a map with numeric keys below `n`: ascending. */
  function AscendingKeys(groups: map<nat, seq<string>>, n: nat): (r: seq<nat>)
    ensures forall k :: k in r <==> k in groups && k < n
    ensures forall i, j :: 0 <= i < j < |r| ==> r[i] < r[j]
    ensures forall i :: 0 <= i < |r| ==> r[i] < n
  {
    if n == 0 then [] else AscendingKeys(groups, n - 1) + (if n - 1 in groups then [n - 1] else [])
  }

  /** Line 70: the padded minterms that no combination consumed, in order. */
  function Uncombined(binMinterms: seq<string>, used: set<string>): (r: seq<string>)
    ensures forall m :: m in r <==> m in binMinterms && m !in used
    decreases |binMinterms|
  {
    if |binMinterms| == 0 then []
    else
      var last := binMinterms[|binMinterms| - 1];
      assert forall p :: p in binMinterms <==> p in binMinterms[..|binMinterms| - 1] || p == last;
      Uncombined(binMinterms[..|binMinterms| - 1], used) + (if last !in used then [last] else [])
  }

  /** Some member of `primes` covers `u`. */
  predicate CoveredIn(u: string, primes: seq<string>)
  {
    exists p :: p in primes && Covers(u, p)
  }

  // ---------------------------------------------------------------------
  // The rounds on sets of patterns
  // ---------------------------------------------------------------------

  /** The members of a list. */
  function Elems(list: seq<string>): set<string>
  {
    set x | x in list
  }

  /** `p` is in the bucket of its count of '1'. */
  predicate InBuckets(groups: map<nat, seq<string>>, p: string)
  {
    Ones(p) in groups && p in groups[Ones(p)]
  }

  lemma ElemsSnoc(list: seq<string>, x: string)
    ensures Elems(list + [x]) == Elems(list) + {x}
  {
    assert forall y :: y in list + [x] <==> y in list || y == x;
  }

  /** `groups` holds exactly the patterns of `level`, in non-empty buckets. */
  ghost predicate Bucketed(groups: map<nat, seq<string>>, level: set<string>)
  {
    && (forall p :: InBuckets(groups, p) <==> p in level)
    && forall k :: k in groups ==> groups[k] != []
  }

  /** Every pattern of `level` has length `w` and `d` dashes. */
  ghost predicate LevelShape(level: set<string>, w: nat, d: nat)
  {
    forall p :: p in level ==> |p| == w && Dashes(p) == d
  }

  /** Some pattern of `level` has `k` ones, so the bucket `k` exists. */
  ghost predicate HasOnes(level: set<string>, k: nat)
  {
    exists p :: p in level && Ones(p) == k
  }

  /**
   * The TypeError of line 49: for some adjacent pair of keys the upper
   * bucket exists and the lower one does not.
   */
  ghost predicate Stuck(level: set<string>, keys: seq<nat>)
  {
    exists i :: 0 <= i < |keys| - 1 && HasOnes(level, keys[i + 1]) && !HasOnes(level, keys[i])
  }

  /**
   * `a` and `b` differ in exactly one place, `a` under the key `keys[j]` and
   * `b` under the next key, for some `j < n`.
   */
  ghost predicate PairBelow(keys: seq<nat>, n: nat, a: string, b: string)
  {
    && MismatchCount(a, b) == 1
    && exists j :: 0 <= j < n && j + 1 < |keys| && keys[j] == Ones(a) && keys[j + 1] == Ones(b)
  }

  /** The combinations of the pairs of `level` under the first `n` adjacent pairs of keys. */
  ghost function CombinationsBelow(level: set<string>, keys: seq<nat>, n: nat): set<string>
  {
    set a, b | a in level && b in level && PairBelow(keys, n, a, b) :: CombineMinterms(a, b)
  }

  /** The patterns of `level` in such pairs, on either side. */
  ghost function UsedBelow(level: set<string>, keys: seq<nat>, n: nat): set<string>
  {
    set a | a in level && exists b :: b in level && (PairBelow(keys, n, a, b) || PairBelow(keys, n, b, a))
  }

  /** Lines 45-67 on sets: every combination that one round adds. */
  ghost function Combinations(level: set<string>, keys: seq<nat>): set<string>
  {
    CombinationsBelow(level, keys, |keys|)
  }

  /** Lines 61-62 on sets: every pattern that one round marks as used. */
  ghost function UsedIn(level: set<string>, keys: seq<nat>): set<string>
  {
    UsedBelow(level, keys, |keys|)
  }

  /** How the rounds end: the TypeError, or the set of every combination made. */
  datatype Outcome = Failed | Finished(found: set<string>)

  /** `o` with `earlier` added to what it found. */
  function Extend(earlier: set<string>, o: Outcome): Outcome
  {
    match o
    case Failed => Failed
    case Finished(found) => Finished(earlier + found)
  }

  /**
   * Lines 41-75 on sets: the rounds from `level`, whose patterns have `d`
   * dashes. A round fails when it is stuck; otherwise its combinations form
   * the next level, and the rounds stop after one that combines nothing.
   */
  ghost function Run(level: set<string>, keys: seq<nat>, w: nat, d: nat): Outcome
    requires LevelShape(level, w, d)
    decreases w + 1 - d
  {
    if Stuck(level, keys) then Failed
    else
      var next := Combinations(level, keys);
      if next == {} then Finished({})
      else
        CombinationsShape(level, keys, w, d);
        Extend(next, Run(next, keys, w, d + 1))
  }

  /** Combining patterns with `d` dashes gives patterns with `d + 1`, so there are at most `w` of them. */
  lemma CombinationsShape(level: set<string>, keys: seq<nat>, w: nat, d: nat)
    requires LevelShape(level, w, d)
    ensures LevelShape(Combinations(level, keys), w, d + 1)
    ensures Combinations(level, keys) != {} ==> d + 1 <= w
  {
    forall c | c in Combinations(level, keys)
      ensures |c| == w && Dashes(c) == d + 1
    {
      var a, b :| a in level && b in level && PairBelow(keys, |keys|, a, b) && c == CombineMinterms(a, b);
      MergeAddsOneDash(a, b);
    }
    if Combinations(level, keys) != {} {
      var c :| c in Combinations(level, keys);
      DashesBound(c);
    }
  }

  /** A round that is not stuck hands its combinations to the next one. */
  lemma RunStep(level: set<string>, keys: seq<nat>, w: nat, d: nat)
    requires LevelShape(level, w, d) && !Stuck(level, keys)
    ensures LevelShape(Combinations(level, keys), w, d + 1)
    ensures Run(level, keys, w, d) == Extend(Combinations(level, keys), Run(Combinations(level, keys), keys, w, d + 1))
  {
    CombinationsShape(level, keys, w, d);
    if Combinations(level, keys) == {} {
      assert Run({}, keys, w, d + 1) == Finished({}) by {
        assert Combinations({}, keys) == {};
      }
    }
  }

  /** After the rounds found `found` and reached `level`, one more round adds its combinations to `found`. */
  lemma RunAdvance(level0: set<string>, level: set<string>, keys: seq<nat>, w: nat, d: nat, found: set<string>)
    requires LevelShape(level0, w, 0) && LevelShape(level, w, d) && !Stuck(level, keys)
    requires Run(level0, keys, w, 0) == Extend(found, Run(level, keys, w, d))
    ensures LevelShape(Combinations(level, keys), w, d + 1)
    ensures Combinations(level, keys) != {} ==> d + 1 <= w
    ensures Run(level0, keys, w, 0) == Extend(found + Combinations(level, keys), Run(Combinations(level, keys), keys, w, d + 1))
  {
    RunStep(level, keys, w, d);
    CombinationsShape(level, keys, w, d);
    var next := Combinations(level, keys);
    match Run(next, keys, w, d + 1)
    case Failed =>
    case Finished(more) =>
      assert found + (next + more) == (found + next) + more;
  }

  /**
   * Every pattern of the first level is covered by what the rounds find or
   * is left unused: a used pattern is covered by a combination it took part
   * in, and the first round's combinations are among what the rounds find.
   */
  lemma RunCovers(level0: set<string>, keys: seq<nat>, w: nat, m: string)
    requires LevelShape(level0, w, 0) && Run(level0, keys, w, 0).Finished? && m in level0
    ensures exists p :: p in Run(level0, keys, w, 0).found + (level0 - UsedIn(level0, keys)) && Covers(m, p)
  {
    var found := Run(level0, keys, w, 0).found;
    if m in UsedIn(level0, keys) {
      var b :| b in level0 && (PairBelow(keys, |keys|, m, b) || PairBelow(keys, |keys|, b, m));
      var c := if PairBelow(keys, |keys|, m, b) then CombineMinterms(m, b) else CombineMinterms(b, m);
      CombineCovers(m, b);
      CombineCovers(b, m);
      assert c in Combinations(level0, keys);
      RunStep(level0, keys, w, 0);
      assert c in found;
    } else {
      CoversReflexive(m);
      assert m in level0 - UsedIn(level0, keys);
    }
  }

  /** The rounds from a stuck level fail, and the rounds from an empty level find nothing. */
  lemma RunEnds(level: set<string>, keys: seq<nat>, w: nat, d: nat)
    requires LevelShape(level, w, d)
    ensures Stuck(level, keys) ==> Run(level, keys, w, d) == Failed
    ensures level == {} ==> Run(level, keys, w, d) == Finished({})
  {
    if level == {} {
      assert Combinations(level, keys) == {};
    }
  }


  /** Line 36: the counts of '1' that occur in `level`, below `n`, ascending. */
  ghost function OnesKeys(level: set<string>, n: nat): seq<nat>
  {
    if n == 0 then [] else OnesKeys(level, n - 1) + (if HasOnes(level, n - 1) then [n - 1] else [])
  }

  /** `AscendingKeys` of a map whose keys are the counts of '1' in `level`. */
  lemma {:induction false} KeysOfLevel(groups: map<nat, seq<string>>, level: set<string>, n: nat)
    requires forall k :: k in groups <==> HasOnes(level, k)
    ensures AscendingKeys(groups, n) == OnesKeys(level, n)
  {
    if n > 0 {
      KeysOfLevel(groups, level, n - 1);
    }
  }

  /** The combination of `a` and `b` when they differ in exactly one place. */
  ghost function PairCombo(a: string, b: string): set<string>
  {
    if MismatchCount(a, b) == 1 then {CombineMinterms(a, b)} else {}
  }

  /** `a` and `b` when they differ in exactly one place. */
  ghost function PairUsed(a: string, b: string): set<string>
  {
    if MismatchCount(a, b) == 1 then {a, b} else {}
  }

  /** The combinations of `a` with the patterns of `upper`, pair by pair. */
  ghost function RowCombos(a: string, upper: seq<string>): set<string>
    decreases |upper|
  {
    if |upper| == 0 then {} else RowCombos(a, upper[..|upper| - 1]) + PairCombo(a, upper[|upper| - 1])
  }

  ghost function RowUsed(a: string, upper: seq<string>): set<string>
    decreases |upper|
  {
    if |upper| == 0 then {} else RowUsed(a, upper[..|upper| - 1]) + PairUsed(a, upper[|upper| - 1])
  }

  /** The combinations of the pairs across two buckets, row by row. */
  ghost function BlockCombos(lower: seq<string>, upper: seq<string>): set<string>
    decreases |lower|
  {
    if |lower| == 0 then {} else BlockCombos(lower[..|lower| - 1], upper) + RowCombos(lower[|lower| - 1], upper)
  }

  ghost function BlockUsed(lower: seq<string>, upper: seq<string>): set<string>
    decreases |lower|
  {
    if |lower| == 0 then {} else BlockUsed(lower[..|lower| - 1], upper) + RowUsed(lower[|lower| - 1], upper)
  }

  lemma {:induction false} RowSpec(a: string, upper: seq<string>)
    ensures forall c :: c in RowCombos(a, upper) <==>
      exists b :: b in upper && MismatchCount(a, b) == 1 && c == CombineMinterms(a, b)
    ensures forall u :: u in RowUsed(a, upper) <==>
      exists b :: b in upper && MismatchCount(a, b) == 1 && (u == a || u == b)
    decreases |upper|
  {
    if |upper| > 0 {
      RowSpec(a, upper[..|upper| - 1]);
      assert forall b :: b in upper <==> b in upper[..|upper| - 1] || b == upper[|upper| - 1];
    }
  }

  /** A block holds the combinations, and the patterns, of exactly the pairs across it that differ once. */
  lemma {:induction false} BlockSpec(lower: seq<string>, upper: seq<string>)
    ensures forall c :: c in BlockCombos(lower, upper) <==>
      exists a, b :: a in lower && b in upper && MismatchCount(a, b) == 1 && c == CombineMinterms(a, b)
    ensures forall u :: u in BlockUsed(lower, upper) <==>
      exists a, b :: a in lower && b in upper && MismatchCount(a, b) == 1 && (u == a || u == b)
    decreases |lower|
  {
    if |lower| > 0 {
      BlockSpec(lower[..|lower| - 1], upper);
      RowSpec(lower[|lower| - 1], upper);
      assert forall a :: a in lower <==> a in lower[..|lower| - 1] || a == lower[|lower| - 1];
    }
  }

  /** A bucket of `groups` holds exactly the patterns of `level` with its count of ones. */
  lemma InBucket(groups: map<nat, seq<string>>, level: set<string>, w: nat, d: nat, k: nat, p: string)
    requires Shape(groups, w, d) && Bucketed(groups, level)
    ensures (k in groups && p in groups[k]) <==> p in level && Ones(p) == k
  {
  }

  /** The buckets of `groups` are the counts of ones that occur in `level`. */
  lemma KeysPresent(groups: map<nat, seq<string>>, level: set<string>, w: nat, d: nat)
    requires Shape(groups, w, d) && Bucketed(groups, level)
    ensures forall k :: k in groups <==> HasOnes(level, k)
  {
    forall k
      ensures k in groups <==> HasOnes(level, k)
    {
      if k in groups {
        InBucket(groups, level, w, d, k, groups[k][0]);
      }
      if HasOnes(level, k) {
        var p :| p in level && Ones(p) == k;
        InBucket(groups, level, w, d, k, p);
      }
    }
  }

  /** A pair under the first `n` adjacent keys is one under the first `n - 1`, or one across the buckets of pair `n - 1`. */
  lemma AdjacentPair(
    groups: map<nat, seq<string>>, level: set<string>, keys: seq<nat>, w: nat, d: nat, n: nat, a: string, b: string)
    requires Shape(groups, w, d) && Bucketed(groups, level) && 1 <= n < |keys|
    ensures a in level && b in level && PairBelow(keys, n, a, b) <==>
      (a in level && b in level && PairBelow(keys, n - 1, a, b))
      || (keys[n - 1] in groups && keys[n] in groups && a in groups[keys[n - 1]] && b in groups[keys[n]] && MismatchCount(a, b) == 1)
  {
    InBucket(groups, level, w, d, keys[n - 1], a);
    InBucket(groups, level, w, d, keys[n], b);
    if PairBelow(keys, n, a, b) && !PairBelow(keys, n - 1, a, b) {
      var j :| 0 <= j < n && j + 1 < |keys| && keys[j] == Ones(a) && keys[j + 1] == Ones(b);
      assert j == n - 1;
    }
  }

  /** The combinations under the first `n` adjacent keys: those under the first `n - 1`, and those of the buckets of pair `n - 1`. */
  lemma AdjacentCombos(groups: map<nat, seq<string>>, level: set<string>, keys: seq<nat>, w: nat, d: nat, n: nat)
    requires Shape(groups, w, d) && Bucketed(groups, level) && 1 <= n < |keys|
    ensures keys[n - 1] !in groups || keys[n] !in groups ==>
      CombinationsBelow(level, keys, n) == CombinationsBelow(level, keys, n - 1)
    ensures keys[n - 1] in groups && keys[n] in groups ==>
      CombinationsBelow(level, keys, n) == CombinationsBelow(level, keys, n - 1) + BlockCombos(groups[keys[n - 1]], groups[keys[n]])
  {
    var both := keys[n - 1] in groups && keys[n] in groups;
    var block := if both then BlockCombos(groups[keys[n - 1]], groups[keys[n]]) else {};
    if both {
      BlockSpec(groups[keys[n - 1]], groups[keys[n]]);
    }
    forall c | c in CombinationsBelow(level, keys, n)
      ensures c in CombinationsBelow(level, keys, n - 1) || c in block
    {
      var a, b :| a in level && b in level && PairBelow(keys, n, a, b) && c == CombineMinterms(a, b);
      AdjacentPair(groups, level, keys, w, d, n, a, b);
    }
    forall c | c in CombinationsBelow(level, keys, n - 1) || c in block
      ensures c in CombinationsBelow(level, keys, n)
    {
      if c in CombinationsBelow(level, keys, n - 1) {
        var a, b :| a in level && b in level && PairBelow(keys, n - 1, a, b) && c == CombineMinterms(a, b);
        AdjacentPair(groups, level, keys, w, d, n, a, b);
      } else {
        var a, b :| a in groups[keys[n - 1]] && b in groups[keys[n]] && MismatchCount(a, b) == 1 && c == CombineMinterms(a, b);
        AdjacentPair(groups, level, keys, w, d, n, a, b);
      }
    }
  }

  /** The same for the used patterns. */
  lemma AdjacentUsed(groups: map<nat, seq<string>>, level: set<string>, keys: seq<nat>, w: nat, d: nat, n: nat)
    requires Shape(groups, w, d) && Bucketed(groups, level) && 1 <= n < |keys|
    ensures keys[n - 1] !in groups || keys[n] !in groups ==>
      UsedBelow(level, keys, n) == UsedBelow(level, keys, n - 1)
    ensures keys[n - 1] in groups && keys[n] in groups ==>
      UsedBelow(level, keys, n) == UsedBelow(level, keys, n - 1) + BlockUsed(groups[keys[n - 1]], groups[keys[n]])
  {
    var both := keys[n - 1] in groups && keys[n] in groups;
    var block := if both then BlockUsed(groups[keys[n - 1]], groups[keys[n]]) else {};
    if both {
      BlockSpec(groups[keys[n - 1]], groups[keys[n]]);
    }
    forall u | u in UsedBelow(level, keys, n)
      ensures u in UsedBelow(level, keys, n - 1) || u in block
    {
      var b :| b in level && (PairBelow(keys, n, u, b) || PairBelow(keys, n, b, u));
      AdjacentPair(groups, level, keys, w, d, n, u, b);
      AdjacentPair(groups, level, keys, w, d, n, b, u);
    }
    forall u | u in UsedBelow(level, keys, n - 1) || u in block
      ensures u in UsedBelow(level, keys, n)
    {
      if u in UsedBelow(level, keys, n - 1) {
        var b :| b in level && (PairBelow(keys, n - 1, u, b) || PairBelow(keys, n - 1, b, u));
        AdjacentPair(groups, level, keys, w, d, n, u, b);
        AdjacentPair(groups, level, keys, w, d, n, b, u);
      } else {
        var a, b :| a in groups[keys[n - 1]] && b in groups[keys[n]] && MismatchCount(a, b) == 1 && (u == a || u == b);
        AdjacentPair(groups, level, keys, w, d, n, a, b);
      }
    }
  }

  /** Only the first `|keys| - 1` adjacent pairs of keys exist. */
  lemma BelowAll(level: set<string>, keys: seq<nat>, n: nat)
    requires n + 1 >= |keys|
    ensures CombinationsBelow(level, keys, n) == Combinations(level, keys)
    ensures UsedBelow(level, keys, n) == UsedIn(level, keys)
  {
    forall a, b
      ensures PairBelow(keys, n, a, b) <==> PairBelow(keys, |keys|, a, b)
    {
    }
  }

  // ---------------------------------------------------------------------
  // The merge rounds
  // ---------------------------------------------------------------------

  /** Every bucket holds patterns of length `w` with `dashes` dashes, keyed by their ones. */
  predicate Shape(groups: map<nat, seq<string>>, w: nat, dashes: nat)
  {
    forall k, p :: k in groups && p in groups[k] ==> |p| == w && Dashes(p) == dashes && Ones(p) == k
  }

  /** The variables that one pass of the `while` loop updates (lines 33-35 and 38). */
  datatype Sweep = Sweep(nextGroups: map<nat, seq<string>>, primes: seq<string>, used: set<string>, hasCombined: bool)

  /** What holds of the variables of a round after each merge attempt. */
  predicate RoundState(w: nat, dashes: nat, s: Sweep)
  {
    && Shape(s.nextGroups, w, dashes + 1)
    && (forall k :: k in s.nextGroups ==> s.nextGroups[k] != [] && Distinct(s.nextGroups[k]))
    && Distinct(s.primes)
    && (forall p :: p in s.primes ==> |p| == w)
    && (s.hasCombined <==> s.nextGroups != map[])
  }

  /** `t` is `s` after combining pairs whose combinations are `combos` and whose patterns are `usedNow`. */
  ghost predicate Gained(s: Sweep, t: Sweep, combos: set<string>, usedNow: set<string>)
  {
    && Elems(t.primes) == Elems(s.primes) + combos
    && (forall p :: InBuckets(t.nextGroups, p) <==> InBuckets(s.nextGroups, p) || p in combos)
    && t.used == s.used + usedNow
  }

  lemma GainedTrans(s: Sweep, t: Sweep, u: Sweep, combos1: set<string>, used1: set<string>, combos2: set<string>, used2: set<string>)
    requires Gained(s, t, combos1, used1) && Gained(t, u, combos2, used2)
    ensures Gained(s, u, combos1 + combos2, used1 + used2)
  {
  }

  /** Lines 55-58: `combined` joins the bucket of its count of '1' unless already there. */
  function AddToBucket(groups: map<nat, seq<string>>, c: string): (r: map<nat, seq<string>>)
    ensures forall k :: k in r <==> k in groups || k == Ones(c)
    ensures forall k, p :: k in r && p in r[k] <==> (k in groups && p in groups[k]) || (k == Ones(c) && p == c)
    ensures forall k :: k in r && k != Ones(c) ==> r[k] == groups[k]
    ensures (forall k :: k in groups ==> Distinct(groups[k])) ==> forall k :: k in r ==> Distinct(r[k])
    ensures (forall k :: k in groups ==> groups[k] != []) ==> forall k :: k in r ==> r[k] != []
    ensures forall p :: InBuckets(r, p) <==> InBuckets(groups, p) || p == c
  {
    var bucket := if Ones(c) in groups then groups[Ones(c)] else [];
    groups[Ones(c) := SetAdd(bucket, c)]
  }

  /** Adding a pattern of the right length and dash count keeps the bucket shape. */
  lemma ShapeAdd(groups: map<nat, seq<string>>, c: string, w: nat, dashes: nat)
    requires Shape(groups, w, dashes) && |c| == w && Dashes(c) == dashes
    ensures Shape(AddToBucket(groups, c), w, dashes)
  {
    var r := AddToBucket(groups, c);
    forall k, p | k in r && p in r[k]
      ensures |p| == w && Dashes(p) == dashes && Ones(p) == k
    {
      if !(k in groups && p in groups[k]) {
        assert k == Ones(c) && p == c;
      }
    }
  }

  /**
   * Lines 51-63 for one pair: when the two patterns differ in exactly one
   * place their combination goes once into its bucket and into `primes`,
   * both become used and `hasCombined` is set; otherwise nothing changes.
   */
  function CombinePair(s: Sweep, m1: string, m2: string): Sweep
  {
    if MismatchCount(m1, m2) == 1 then
      var c := CombineMinterms(m1, m2);
      Sweep(AddToBucket(s.nextGroups, c), SetAdd(s.primes, c), s.used + {m1, m2}, true)
    else s
  }

  /** Lines 50-65: `m1` against every pattern of `upper`, in order. */
  function CombineRow(s: Sweep, m1: string, upper: seq<string>): Sweep
    decreases |upper|
  {
    if |upper| == 0 then s else CombinePair(CombineRow(s, m1, upper[..|upper| - 1]), m1, upper[|upper| - 1])
  }

  /** Lines 49-66: every pattern of `lower` against every pattern of `upper`, in order. */
  function CombineBlock(s: Sweep, lower: seq<string>, upper: seq<string>): Sweep
    decreases |lower|
  {
    if |lower| == 0 then s else CombineRow(CombineBlock(s, lower[..|lower| - 1], upper), lower[|lower| - 1], upper)
  }

  /**
   * Lines 45-67 over the first `n` adjacent pairs of keys: a pair without
   * its upper bucket is skipped, one without its lower bucket is the
   * TypeError of line 49 (`None`).
   */
  function CombineKeys(s: Sweep, groups: map<nat, seq<string>>, keys: seq<nat>, n: nat): Option<Sweep>
    requires n < |keys| || n == 0
  {
    if n == 0 then Some(s)
    else
      match CombineKeys(s, groups, keys, n - 1)
      case None => None
      case Some(t) =>
        if keys[n] !in groups then Some(t)
        else if keys[n - 1] !in groups then None
        else Some(CombineBlock(t, groups[keys[n - 1]], groups[keys[n]]))
  }

  /** One pair keeps the round state and gains its combination and its two patterns. */
  lemma PairFacts(s: Sweep, m1: string, m2: string, w: nat, d: nat)
    requires |m1| == w && |m2| == w && Dashes(m1) == d && Dashes(m2) == d && RoundState(w, d, s)
    ensures RoundState(w, d, CombinePair(s, m1, m2))
    ensures Gained(s, CombinePair(s, m1, m2), PairCombo(m1, m2), PairUsed(m1, m2))
  {
    if MismatchCount(m1, m2) == 1 {
      MergeAddsOneDash(m1, m2);
      ShapeAdd(s.nextGroups, CombineMinterms(m1, m2), w, d + 1);
    }
  }

  lemma {:induction false} RowFacts(s: Sweep, m1: string, upper: seq<string>, w: nat, d: nat)
    requires |m1| == w && Dashes(m1) == d && (forall p :: p in upper ==> |p| == w && Dashes(p) == d)
    requires RoundState(w, d, s)
    ensures RoundState(w, d, CombineRow(s, m1, upper))
    ensures Gained(s, CombineRow(s, m1, upper), RowCombos(m1, upper), RowUsed(m1, upper))
    decreases |upper|
  {
    if |upper| > 0 {
      var init, last := upper[..|upper| - 1], upper[|upper| - 1];
      assert forall p :: p in init ==> p in upper;
      RowFacts(s, m1, init, w, d);
      var t := CombineRow(s, m1, init);
      PairFacts(t, m1, last, w, d);
      GainedTrans(s, t, CombinePair(t, m1, last), RowCombos(m1, init), RowUsed(m1, init), PairCombo(m1, last), PairUsed(m1, last));
    }
  }

  /** A block of pairs keeps the round state and gains the block's combinations and patterns. */
  lemma {:induction false} BlockFacts(s: Sweep, lower: seq<string>, upper: seq<string>, w: nat, d: nat)
    requires (forall p :: p in lower ==> |p| == w && Dashes(p) == d) && (forall p :: p in upper ==> |p| == w && Dashes(p) == d)
    requires RoundState(w, d, s)
    ensures RoundState(w, d, CombineBlock(s, lower, upper))
    ensures Gained(s, CombineBlock(s, lower, upper), BlockCombos(lower, upper), BlockUsed(lower, upper))
    decreases |lower|
  {
    if |lower| > 0 {
      var init, last := lower[..|lower| - 1], lower[|lower| - 1];
      assert forall p :: p in init ==> p in lower;
      BlockFacts(s, init, upper, w, d);
      var t := CombineBlock(s, init, upper);
      RowFacts(t, last, upper, w, d);
      GainedTrans(s, t, CombineRow(t, last, upper), BlockCombos(init, upper), BlockUsed(init, upper), RowCombos(last, upper), RowUsed(last, upper));
    }
  }

  /** The adjacent pairs of keys fail exactly at a pair whose upper bucket exists and whose lower one does not. */
  lemma {:induction false} KeysFail(s: Sweep, groups: map<nat, seq<string>>, keys: seq<nat>, n: nat)
    requires n < |keys| || n == 0
    ensures CombineKeys(s, groups, keys, n).None? <==> exists i :: 0 <= i < n && keys[i + 1] in groups && keys[i] !in groups
  {
    if n > 0 {
      KeysFail(s, groups, keys, n - 1);
      if keys[n] in groups && keys[n - 1] !in groups {
        assert 0 <= n - 1 < n && keys[n - 1 + 1] in groups && keys[n - 1] !in groups;
      }
      if exists i :: 0 <= i < n && keys[i + 1] in groups && keys[i] !in groups {
        var i :| 0 <= i < n && keys[i + 1] in groups && keys[i] !in groups;
        if i < n - 1 {
          assert CombineKeys(s, groups, keys, n - 1).None?;
        }
      }
    }
  }

  /** One more adjacent pair of keys keeps the round state and gains its buckets' combinations and patterns. */
  lemma KeysGainStep(
    s: Sweep, t: Sweep, groups: map<nat, seq<string>>, level: set<string>, keys: seq<nat>, w: nat, d: nat, n: nat)
    requires RoundState(w, d, t)
    requires 1 <= n < |keys| && CombineKeys(s, groups, keys, n - 1) == Some(t)
    requires Gained(s, t, CombinationsBelow(level, keys, n - 1), UsedBelow(level, keys, n - 1))
    requires keys[n - 1] !in groups || keys[n] !in groups ==>
      CombinationsBelow(level, keys, n) == CombinationsBelow(level, keys, n - 1)
      && UsedBelow(level, keys, n) == UsedBelow(level, keys, n - 1)
    requires keys[n - 1] in groups && keys[n] in groups ==>
      && CombinationsBelow(level, keys, n) == CombinationsBelow(level, keys, n - 1) + BlockCombos(groups[keys[n - 1]], groups[keys[n]])
      && UsedBelow(level, keys, n) == UsedBelow(level, keys, n - 1) + BlockUsed(groups[keys[n - 1]], groups[keys[n]])
      && (forall p :: p in groups[keys[n - 1]] ==> |p| == w && Dashes(p) == d)
      && (forall p :: p in groups[keys[n]] ==> |p| == w && Dashes(p) == d)
    ensures CombineKeys(s, groups, keys, n).Some? ==>
      RoundState(w, d, CombineKeys(s, groups, keys, n).value)
      && Gained(s, CombineKeys(s, groups, keys, n).value, CombinationsBelow(level, keys, n), UsedBelow(level, keys, n))
  {
    if keys[n] in groups && keys[n - 1] in groups {
      BlockGain(s, t, groups[keys[n - 1]], groups[keys[n]], w, d,
        CombinationsBelow(level, keys, n - 1), UsedBelow(level, keys, n - 1), CombinationsBelow(level, keys, n), UsedBelow(level, keys, n));
    }
  }

  /** What the `n`-th adjacent pair of keys adds, in the terms `KeysGainStep` needs. */
  lemma AdjacentFacts(groups: map<nat, seq<string>>, level: set<string>, keys: seq<nat>, w: nat, d: nat, n: nat)
    requires Shape(groups, w, d) && Bucketed(groups, level) && 1 <= n < |keys|
    ensures keys[n - 1] !in groups || keys[n] !in groups ==>
      CombinationsBelow(level, keys, n) == CombinationsBelow(level, keys, n - 1)
      && UsedBelow(level, keys, n) == UsedBelow(level, keys, n - 1)
    ensures keys[n - 1] in groups && keys[n] in groups ==>
      && CombinationsBelow(level, keys, n) == CombinationsBelow(level, keys, n - 1) + BlockCombos(groups[keys[n - 1]], groups[keys[n]])
      && UsedBelow(level, keys, n) == UsedBelow(level, keys, n - 1) + BlockUsed(groups[keys[n - 1]], groups[keys[n]])
      && (forall p :: p in groups[keys[n - 1]] ==> |p| == w && Dashes(p) == d)
      && (forall p :: p in groups[keys[n]] ==> |p| == w && Dashes(p) == d)
  {
    AdjacentCombos(groups, level, keys, w, d, n);
    AdjacentUsed(groups, level, keys, w, d, n);
    if keys[n] in groups && keys[n - 1] in groups {
      BucketShape(groups, w, d, keys[n - 1]);
      BucketShape(groups, w, d, keys[n]);
    }
  }

  lemma BucketShape(groups: map<nat, seq<string>>, w: nat, d: nat, k: nat)
    requires Shape(groups, w, d) && k in groups
    ensures forall p :: p in groups[k] ==> |p| == w && Dashes(p) == d
  {
  }

  /** `BlockFacts` followed by `GainedTrans`, with the sets gained so far named. */
  lemma BlockGain(
    s: Sweep, t: Sweep, lower: seq<string>, upper: seq<string>, w: nat, d: nat,
    combos0: set<string>, used0: set<string>, combos: set<string>, used: set<string>)
    requires (forall p :: p in lower ==> |p| == w && Dashes(p) == d) && (forall p :: p in upper ==> |p| == w && Dashes(p) == d)
    requires RoundState(w, d, t) && Gained(s, t, combos0, used0)
    requires combos == combos0 + BlockCombos(lower, upper) && used == used0 + BlockUsed(lower, upper)
    ensures RoundState(w, d, CombineBlock(t, lower, upper)) && Gained(s, CombineBlock(t, lower, upper), combos, used)
  {
    BlockFacts(t, lower, upper, w, d);
    GainedTrans(s, t, CombineBlock(t, lower, upper), combos0, used0, BlockCombos(lower, upper), BlockUsed(lower, upper));
  }

  /** Adjacent pairs that do not fail keep the round state and gain the combinations and the used patterns of `level` under them. */
  lemma {:induction false} KeysGain(
    s: Sweep, groups: map<nat, seq<string>>, level: set<string>, keys: seq<nat>, w: nat, d: nat, n: nat)
    requires Shape(groups, w, d) && Bucketed(groups, level) && RoundState(w, d, s)
    requires n < |keys| || n == 0
    ensures CombineKeys(s, groups, keys, n).Some? ==>
      RoundState(w, d, CombineKeys(s, groups, keys, n).value)
      && Gained(s, CombineKeys(s, groups, keys, n).value, CombinationsBelow(level, keys, n), UsedBelow(level, keys, n))
  {
    if n == 0 {
      assert CombinationsBelow(level, keys, 0) == {};
      assert UsedBelow(level, keys, 0) == {};
    } else {
      KeysGain(s, groups, level, keys, w, d, n - 1);
      if CombineKeys(s, groups, keys, n - 1).Some? {
        AdjacentFacts(groups, level, keys, w, d, n);
        KeysGainStep(s, CombineKeys(s, groups, keys, n - 1).value, groups, level, keys, w, d, n);
      }
    }
  }

  /** Once failed, the adjacent pairs stay failed. */
  lemma {:induction false} KeysStayFailed(s: Sweep, groups: map<nat, seq<string>>, keys: seq<nat>, n: nat, m: nat)
    requires n <= m && (m < |keys| || m == 0) && CombineKeys(s, groups, keys, n).None?
    ensures CombineKeys(s, groups, keys, m).None?
    decreases m
  {
    if n < m {
      KeysStayFailed(s, groups, keys, n, m - 1);
    }
  }

  /** Lines 51-63 for one pair, as the source runs them. */
  method TryCombine(
    m1: string, m2: string, nextGroups0: map<nat, seq<string>>, primes0: seq<string>, used0: set<string>, hasCombined0: bool)
    returns (nextGroups: map<nat, seq<string>>, primes: seq<string>, used: set<string>, hasCombined: bool)
    ensures Sweep(nextGroups, primes, used, hasCombined) == CombinePair(Sweep(nextGroups0, primes0, used0, hasCombined0), m1, m2)
  {
    nextGroups, primes, used, hasCombined := nextGroups0, primes0, used0, hasCombined0;
    var differ := DifferByOneBit(m1, m2);
    if differ {
      var combined := CombineMinterms(m1, m2);
      nextGroups := AddToBucket(nextGroups, combined);
      primes := SetAdd(primes, combined);
      used := used + {m1, m2};
      hasCombined := true;
    }
  }

  /** Lines 49-66 as the source runs them. */
  method CombineBuckets(
    lower: seq<string>, upper: seq<string>,
    nextGroups0: map<nat, seq<string>>, primes0: seq<string>, used0: set<string>, hasCombined0: bool)
    returns (nextGroups: map<nat, seq<string>>, primes: seq<string>, used: set<string>, hasCombined: bool)
    ensures Sweep(nextGroups, primes, used, hasCombined) == CombineBlock(Sweep(nextGroups0, primes0, used0, hasCombined0), lower, upper)
  {
    nextGroups, primes, used, hasCombined := nextGroups0, primes0, used0, hasCombined0;
    for x := 0 to |lower|
      invariant Sweep(nextGroups, primes, used, hasCombined) == CombineBlock(Sweep(nextGroups0, primes0, used0, hasCombined0), lower[..x], upper)
    {
      assert lower[..x + 1][..x] == lower[..x];
      nextGroups, primes, used, hasCombined := CombineWithAll(lower[x], upper, nextGroups, primes, used, hasCombined);
    }
    assert lower[..|lower|] == lower;
  }

  /** Lines 50-65 as the source runs them. */
  method CombineWithAll(
    m1: string, upper: seq<string>,
    nextGroups0: map<nat, seq<string>>, primes0: seq<string>, used0: set<string>, hasCombined0: bool)
    returns (nextGroups: map<nat, seq<string>>, primes: seq<string>, used: set<string>, hasCombined: bool)
    ensures Sweep(nextGroups, primes, used, hasCombined) == CombineRow(Sweep(nextGroups0, primes0, used0, hasCombined0), m1, upper)
  {
    nextGroups, primes, used, hasCombined := nextGroups0, primes0, used0, hasCombined0;
    for y := 0 to |upper|
      invariant Sweep(nextGroups, primes, used, hasCombined) == CombineRow(Sweep(nextGroups0, primes0, used0, hasCombined0), m1, upper[..y])
    {
      assert upper[..y + 1][..y] == upper[..y];
      nextGroups, primes, used, hasCombined := TryCombine(m1, upper[y], nextGroups, primes, used, hasCombined);
    }
    assert upper[..|upper|] == upper;
  }

  /**
   * Lines 42-71, one pass of the `while` loop: adjacent buckets are combined,
   * then the padded minterms that were never used join `primes`. Fails, as
   * the source does with a TypeError, exactly when the round is stuck. The
   * new buckets hold the round's combinations, `primes` gains them and the
   * unused padded minterms, and `used` gains the round's used patterns.
   */
  method Round(
    binMinterms: seq<string>, groups: map<nat, seq<string>>, keys: seq<nat>, ghost level: set<string>,
    ghost w: nat, ghost dashes: nat, primes0: seq<string>, used0: set<string>)
    returns (ok: bool, nextGroups: map<nat, seq<string>>, primes: seq<string>, used: set<string>, hasCombined: bool)
    requires forall m :: m in binMinterms ==> |m| == w
    requires Shape(groups, w, dashes) && Bucketed(groups, level)
    requires Distinct(primes0) && (forall p :: p in primes0 ==> |p| == w)
    ensures !ok <==> Stuck(level, keys)
    ensures ok ==> RoundState(w, dashes, Sweep(nextGroups, primes, used, hasCombined))
    ensures ok ==> Elems(primes) == Elems(primes0) + Combinations(level, keys) + (Elems(binMinterms) - used)
    ensures ok ==> used == used0 + UsedIn(level, keys)
    ensures ok ==> Bucketed(nextGroups, Combinations(level, keys))
    ensures ok ==> (hasCombined <==> Combinations(level, keys) != {})
  {
    ok, nextGroups, primes, used, hasCombined := CombineAdjacent(groups, keys, primes0, used0);
    SweepFacts(groups, level, keys, w, dashes, primes0, used0);
    if ok {
      primes := AddUncombined(binMinterms, used, primes, w);
    }
  }

  /** The number of adjacent pairs of keys. */
  function LastPair(keys: seq<nat>): (n: nat)
    ensures n < |keys| || n == 0
  {
    if |keys| == 0 then 0 else |keys| - 1
  }

  /** Lines 45-68 as the source runs them: `ok` is false at the TypeError of line 49. */
  method CombineAdjacent(groups: map<nat, seq<string>>, keys: seq<nat>, primes0: seq<string>, used0: set<string>)
    returns (ok: bool, nextGroups: map<nat, seq<string>>, primes: seq<string>, used: set<string>, hasCombined: bool)
    ensures var outcome := CombineKeys(Sweep(map[], primes0, used0, false), groups, keys, LastPair(keys));
      (ok <==> outcome.Some?) && (ok ==> outcome.value == Sweep(nextGroups, primes, used, hasCombined))
  {
    ghost var start := Sweep(map[], primes0, used0, false);
    ghost var last := LastPair(keys);
    nextGroups, primes, used, hasCombined := map[], primes0, used0, false;
    var i := 0;
    while i < |keys| - 1
      invariant 0 <= i <= last
      invariant CombineKeys(start, groups, keys, i) == Some(Sweep(nextGroups, primes, used, hasCombined))
    {
      if keys[i + 1] in groups {
        if keys[i] !in groups {
          KeysStayFailed(start, groups, keys, i + 1, last);
          return false, nextGroups, primes, used, hasCombined;
        }
        var lower, upper := groups[keys[i]], groups[keys[i + 1]];
        nextGroups, primes, used, hasCombined := CombineBuckets(lower, upper, nextGroups, primes, used, hasCombined);
      }
      i := i + 1;
    }
    ok := true;
  }

  /**
   * Lines 45-68 on sets: the adjacent pairs of keys fail exactly when the
   * level is stuck; otherwise `primes` gains the level's combinations, which
   * fill the new buckets, and `used` gains the patterns they used.
   */
  lemma SweepFacts(
    groups: map<nat, seq<string>>, level: set<string>, keys: seq<nat>, w: nat, d: nat, primes0: seq<string>, used0: set<string>)
    requires Shape(groups, w, d) && Bucketed(groups, level)
    requires Distinct(primes0) && (forall p :: p in primes0 ==> |p| == w)
    ensures var outcome := CombineKeys(Sweep(map[], primes0, used0, false), groups, keys, LastPair(keys));
      && (outcome.None? <==> Stuck(level, keys))
      && (outcome.Some? ==>
        && RoundState(w, d, outcome.value)
        && Elems(outcome.value.primes) == Elems(primes0) + Combinations(level, keys)
        && outcome.value.used == used0 + UsedIn(level, keys)
        && Bucketed(outcome.value.nextGroups, Combinations(level, keys))
        && (outcome.value.hasCombined <==> Combinations(level, keys) != {}))
  {
    var start := Sweep(map[], primes0, used0, false);
    var last := LastPair(keys);
    KeysPresent(groups, level, w, d);
    KeysFail(start, groups, keys, last);
    KeysGain(start, groups, level, keys, w, d, last);
    BelowAll(level, keys, last);
    var outcome := CombineKeys(start, groups, keys, last);
    if outcome.Some? && outcome.value.hasCombined {
      var k :| k in outcome.value.nextGroups;
      assert InBuckets(outcome.value.nextGroups, outcome.value.nextGroups[k][0]);
    }
  }

  /** Lines 70-71: every padded minterm that no combination used joins `primes`, and nothing else does. */
  method AddUncombined(binMinterms: seq<string>, used: set<string>, primes0: seq<string>, ghost w: nat)
    returns (primes: seq<string>)
    requires forall m :: m in binMinterms ==> |m| == w
    requires Distinct(primes0) && (forall p :: p in primes0 ==> |p| == w)
    ensures Distinct(primes) && (forall p :: p in primes ==> |p| == w)
    ensures Elems(primes) == Elems(primes0) + (Elems(binMinterms) - used)
  {
    var uncombined := Uncombined(binMinterms, used);
    primes := primes0;
    for j := 0 to |uncombined|
      invariant Distinct(primes) && (forall p :: p in primes ==> |p| == w)
      invariant Elems(primes) == Elems(primes0) + Elems(uncombined[..j])
    {
      ElemsSnoc(uncombined[..j], uncombined[j]);
      assert uncombined[..j + 1] == uncombined[..j] + [uncombined[j]];
      primes := SetAdd(primes, uncombined[j]);
    }
    assert uncombined[..|uncombined|] == uncombined;
  }

  /** `groups` buckets `list` by the count of '1', each bucket in list order. */
  ghost predicate Grouped(groups: map<nat, seq<string>>, list: seq<string>)
  {
    forall k :: (k in groups <==> WithOnes(list, k) != []) && (k in groups ==> groups[k] == WithOnes(list, k))
  }

  /** Appending a pattern to its bucket keeps the grouping of the longer list. */
  lemma GroupedSnoc(groups: map<nat, seq<string>>, list: seq<string>, m: string)
    requires Grouped(groups, list)
    ensures Grouped(groups[Ones(m) := (if Ones(m) in groups then groups[Ones(m)] else []) + [m]], list + [m])
  {
    forall k
      ensures WithOnes(list + [m], k) == WithOnes(list, k) + (if Ones(m) == k then [m] else [])
    {
      WithOnesSnoc(list, m, k);
    }
  }

  /** Lines 27-31: the padded minterms bucketed by their count of '1', each bucket in input order. */
  method GroupByOnes(binMinterms: seq<string>) returns (groups: map<nat, seq<string>>)
    ensures forall k :: k in groups <==> WithOnes(binMinterms, k) != []
    ensures forall k :: k in groups ==> groups[k] == WithOnes(binMinterms, k)
  {
    groups := map[];
    for j := 0 to |binMinterms|
      invariant Grouped(groups, binMinterms[..j])
    {
      var m := binMinterms[j];
      var ones := Ones(m);
      var bucket := if ones in groups then groups[ones] else [];
      GroupedSnoc(groups, binMinterms[..j], m);
      assert binMinterms[..j + 1] == binMinterms[..j] + [m];
      groups := groups[ones := bucket + [m]];
    }
    assert binMinterms[..|binMinterms|] == binMinterms;
  }

  // ---------------------------------------------------------------------
  // Essential primes and the result
  // ---------------------------------------------------------------------

  /** Line 80: the members of `primes` that cover `m`, in set order. */
  function CoveringOf(m: string, primes: seq<string>): (r: seq<string>)
    ensures forall p :: p in r <==> p in primes && IsCovered(m, p)
    ensures Distinct(primes) ==> Distinct(r)
    decreases |primes|
  {
    if |primes| == 0 then []
    else
      var last := primes[|primes| - 1];
      assert forall p :: p in primes <==> p in primes[..|primes| - 1] || p == last;
      CoveringOf(m, primes[..|primes| - 1]) + (if IsCovered(m, last) then [last] else [])
  }

  /** `e` is the only member of `primes` covering `m`. */
  predicate OnlyCover(e: string, m: string, primes: seq<string>)
  {
    e in primes && IsCovered(m, e) && forall p :: p in primes && IsCovered(m, p) ==> p == e
  }

  /** With distinct primes, a single covering prime is exactly a sole cover. */
  lemma SingleCoverage(m: string, primes: seq<string>)
    requires Distinct(primes)
    ensures |CoveringOf(m, primes)| == 1 ==> OnlyCover(CoveringOf(m, primes)[0], m, primes)
    ensures forall e :: OnlyCover(e, m, primes) ==> CoveringOf(m, primes) == [e]
  {
    var c := CoveringOf(m, primes);
    forall e | OnlyCover(e, m, primes)
      ensures c == [e]
    {
      assert e in c;
      forall k | 0 <= k < |c|
        ensures c[k] == e
      {
        assert c[k] in c;
      }
      assert (set x | x in c) == {e};
      DistinctCard(c);
    }
  }

  /** Lines 78-82: the sole covering prime of each padded minterm that has one, in minterm order. */
  function Essentials(binMinterms: seq<string>, primes: seq<string>): seq<string>
    decreases |binMinterms|
  {
    if |binMinterms| == 0 then []
    else
      var init := binMinterms[..|binMinterms| - 1];
      var coverage := CoveringOf(binMinterms[|binMinterms| - 1], primes);
      Essentials(init, primes) + (if |coverage| == 1 then [coverage[0]] else [])
  }

  /**
   * Each essential is the sole prime covering some padded minterm, and each
   * padded minterm with a sole covering prime contributes it.
   */
  lemma {:induction false} EssentialsSpec(binMinterms: seq<string>, primes: seq<string>)
    requires Distinct(primes)
    ensures forall e :: e in Essentials(binMinterms, primes) ==>
      exists m :: m in binMinterms && OnlyCover(e, m, primes)
    ensures forall m, e :: m in binMinterms && OnlyCover(e, m, primes) ==> e in Essentials(binMinterms, primes)
    decreases |binMinterms|
  {
    if |binMinterms| > 0 {
      var init := binMinterms[..|binMinterms| - 1];
      var last := binMinterms[|binMinterms| - 1];
      EssentialsSpec(init, primes);
      SingleCoverage(last, primes);
      assert forall m :: m in binMinterms <==> m in init || m == last;
    }
  }

  /** Lines 78-82 as the source runs them. */
  method CollectEssentials(binMinterms: seq<string>, primes: seq<string>) returns (essential: seq<string>)
    ensures essential == Essentials(binMinterms, primes)
  {
    essential := [];
    for j := 0 to |binMinterms|
      invariant essential == Essentials(binMinterms[..j], primes)
    {
      var coverage := CoveringOf(binMinterms[j], primes);
      if |coverage| == 1 {
        essential := essential + [coverage[0]];
      }
      assert binMinterms[..j + 1][..j] == binMinterms[..j];
    }
    assert binMinterms[..|binMinterms|] == binMinterms;
  }

  /** The padded minterms as the first level of the rounds. */
  ghost function Level0(minterms: seq<nat>, numVars: nat): set<string>
  {
    Elems(BinMinterms(minterms, numVars))
  }

  /** The padded minterms have the run's width and no dashes. */
  lemma BinLevel(minterms: seq<nat>, numVars: nat)
    requires forall m :: m in minterms ==> m < Pow2(numVars)
    ensures LevelShape(Level0(minterms, numVars), Width(numVars), 0)
  {
    BinMintermsSpec(minterms, numVars);
    forall m | m in BinMinterms(minterms, numVars)
      ensures Dashes(m) == 0
    {
      NoDashInBinary(m, |m|);
    }
  }

  /** Line 36: the keys of the first buckets, fixed for every round. */
  ghost function Keys0(minterms: seq<nat>, numVars: nat): seq<nat>
  {
    OnesKeys(Level0(minterms, numVars), Width(numVars) + 1)
  }

  /** Lines 33-75 on sets: how the rounds on the padded minterms end. */
  ghost function Rounds(minterms: seq<nat>, numVars: nat): Outcome
    requires forall m :: m in minterms ==> m < Pow2(numVars)
  {
    BinLevel(minterms, numVars);
    Run(Level0(minterms, numVars), Keys0(minterms, numVars), Width(numVars), 0)
  }

  /** Lines 70-71 on sets: the padded minterms that the first round does not use. */
  ghost function Unmerged(minterms: seq<nat>, numVars: nat): set<string>
  {
    Level0(minterms, numVars) - UsedIn(Level0(minterms, numVars), Keys0(minterms, numVars))
  }

  /** Line 36 on the first buckets: their keys in ascending order are the first keys of the rounds. */
  lemma FirstKeys(minterms: seq<nat>, numVars: nat, groups: map<nat, seq<string>>)
    requires forall k :: k in groups <==> HasOnes(Level0(minterms, numVars), k)
    ensures AscendingKeys(groups, Width(numVars) + 1) == Keys0(minterms, numVars)
  {
    KeysOfLevel(groups, Level0(minterms, numVars), Width(numVars) + 1);
  }

  lemma RoundsOf(minterms: seq<nat>, numVars: nat)
    requires forall m :: m in minterms ==> m < Pow2(numVars)
    ensures LevelShape(Level0(minterms, numVars), Width(numVars), 0)
    ensures Rounds(minterms, numVars) == Run(Level0(minterms, numVars), Keys0(minterms, numVars), Width(numVars), 0)
  {
    BinLevel(minterms, numVars);
  }

  // ---------------------------------------------------------------------
  // What the rounds find are implicants
  // ---------------------------------------------------------------------

  /** Every pattern of `level` is an implicant of the function listing `minterms`. */
  ghost predicate AllImplicants(level: set<string>, minterms: seq<nat>, n: nat)
  {
    forall p :: p in level ==> Implicants.IsImplicant(p, minterms, n)
  }

  /** The keys of line 36 ascend strictly and stay below `n`. */
  lemma {:induction false} OnesKeysAscend(level: set<string>, n: nat)
    ensures forall i, j :: 0 <= i < j < |OnesKeys(level, n)| ==> OnesKeys(level, n)[i] < OnesKeys(level, n)[j]
    ensures forall i :: 0 <= i < |OnesKeys(level, n)| ==> OnesKeys(level, n)[i] < n
  {
    if n > 0 {
      OnesKeysAscend(level, n - 1);
    }
  }

  /**
   * A combination of line 60 joins two implicants under ascending keys, so
   * the pattern with more ones has exactly one more: it is an implicant too.
   */
  lemma CombinationsImplicants(level: set<string>, keys: seq<nat>, w: nat, d: nat, minterms: seq<nat>)
    requires w >= 1 && LevelShape(level, w, d) && AllImplicants(level, minterms, w)
    requires forall i, j :: 0 <= i < j < |keys| ==> keys[i] < keys[j]
    ensures AllImplicants(Combinations(level, keys), minterms, w)
  {
    forall c | c in Combinations(level, keys)
      ensures Implicants.IsImplicant(c, minterms, w)
    {
      var a, b :| a in level && b in level && PairBelow(keys, |keys|, a, b) && c == CombineMinterms(a, b);
      var j :| 0 <= j < |keys| && j + 1 < |keys| && keys[j] == Ones(a) && keys[j + 1] == Ones(b);
      Implicants.MergedImplicant(a, b, minterms, w);
    }
  }

  /** When the rounds from a level of implicants finish, everything they found is an implicant. */
  lemma {:induction false} RunImplicants(level: set<string>, keys: seq<nat>, w: nat, d: nat, minterms: seq<nat>)
    requires w >= 1 && LevelShape(level, w, d) && AllImplicants(level, minterms, w)
    requires forall i, j :: 0 <= i < j < |keys| ==> keys[i] < keys[j]
    ensures Run(level, keys, w, d).Finished? ==> AllImplicants(Run(level, keys, w, d).found, minterms, w)
    decreases w + 1 - d
  {
    if !Stuck(level, keys) {
      var next := Combinations(level, keys);
      RunStep(level, keys, w, d);
      CombinationsShape(level, keys, w, d);
      if next != {} {
        CombinationsImplicants(level, keys, w, d, minterms);
        RunImplicants(next, keys, w, d + 1, minterms);
      }
    }
  }

  /** A padded minterm matches itself alone, so it is an implicant. */
  lemma Level0Implicants(minterms: seq<nat>, numVars: nat)
    requires numVars >= 1 && forall m :: m in minterms ==> m < Pow2(numVars)
    ensures AllImplicants(Level0(minterms, numVars), minterms, numVars)
  {
    BinMintermsSpec(minterms, numVars);
    forall p | p in Level0(minterms, numVars)
      ensures Implicants.IsImplicant(p, minterms, numVars)
    {
      var i :| 0 <= i < |minterms| && BinMinterms(minterms, numVars)[i] == p;
      var v := minterms[i];
      assert v in minterms;
      forall x | Implicants.Matches(x, p, numVars)
        ensures x in minterms
      {
        Implicants.OnlyItself(v, x, numVars);
      }
    }
  }

  /**
   * With at least one variable, every prime of lines 60 and 70-71 is an
   * implicant: each input its pattern matches is one of the minterms.
   */
  lemma PrimesAreImplicants(minterms: seq<nat>, numVars: nat)
    requires numVars >= 1 && forall m :: m in minterms ==> m < Pow2(numVars)
    ensures Rounds(minterms, numVars).Finished? ==>
      AllImplicants(Rounds(minterms, numVars).found + Unmerged(minterms, numVars), minterms, numVars)
  {
    RoundsOf(minterms, numVars);
    Level0Implicants(minterms, numVars);
    OnesKeysAscend(Level0(minterms, numVars), Width(numVars) + 1);
    RunImplicants(Level0(minterms, numVars), Keys0(minterms, numVars), numVars, 0, minterms);
  }

  /** What the rounds find, with the unused padded minterms, covers every padded minterm. */
  lemma PrimesCover(binMinterms: seq<string>, keys: seq<nat>, w: nat, primes: seq<string>)
    requires LevelShape(Elems(binMinterms), w, 0) && Run(Elems(binMinterms), keys, w, 0).Finished?
    requires Elems(primes) == Run(Elems(binMinterms), keys, w, 0).found + (Elems(binMinterms) - UsedIn(Elems(binMinterms), keys))
    ensures forall m :: m in binMinterms ==> CoveredIn(m, primes)
  {
    var level := Elems(binMinterms);
    forall m | m in binMinterms
      ensures CoveredIn(m, primes)
    {
      RunCovers(level, keys, w, m);
      var p :| p in Run(level, keys, w, 0).found + (level - UsedIn(level, keys)) && Covers(m, p);
      assert p in Elems(primes);
    }
  }

  /** Lines 24-31: the buckets by count of ones hold exactly the padded minterms. */
  lemma FirstBuckets(binMinterms: seq<string>, groups: map<nat, seq<string>>, w: nat)
    requires LevelShape(Elems(binMinterms), w, 0)
    requires forall k :: k in groups <==> WithOnes(binMinterms, k) != []
    requires forall k :: k in groups ==> groups[k] == WithOnes(binMinterms, k)
    ensures Shape(groups, w, 0) && Bucketed(groups, Elems(binMinterms))
  {
    forall p | InBuckets(groups, p)
      ensures p in Elems(binMinterms)
    {
      assert p in WithOnes(binMinterms, Ones(p));
    }
    forall p | p in Elems(binMinterms)
      ensures InBuckets(groups, p)
    {
      assert p in WithOnes(binMinterms, Ones(p));
    }
    forall k | k in groups
      ensures groups[k] != []
    {
    }
  }

  /**
   * `quineMcCluskey(minterms, numVars)`. Fails, with the TypeError of line
   * 49, exactly when the rounds get stuck. Otherwise the primes are distinct
   * patterns of the padded width, and as a set they are every combination
   * of every round together with the padded minterms the first round does
   * not use; they cover every input minterm. The result is the essential
   * list if it is non-empty, all primes otherwise.
   */
  method QuineMcCluskey(minterms: seq<nat>, numVars: nat) returns (r: Result<seq<string>, string>, primes: seq<string>)
    requires forall m :: m in minterms ==> m < Pow2(numVars)
    ensures r.Err? <==> Rounds(minterms, numVars).Failed?
    ensures r.Ok? ==> Elems(primes) == Rounds(minterms, numVars).found + Unmerged(minterms, numVars)
    ensures r.Ok? ==> Distinct(primes) && forall p :: p in primes ==> |p| == Width(numVars)
    ensures r.Ok? ==> forall m :: m in BinMinterms(minterms, numVars) ==> CoveredIn(m, primes)
    ensures r.Ok? && numVars >= 1 ==> forall p :: p in primes ==> Implicants.IsImplicant(p, minterms, numVars)
    ensures r.Ok? ==>
      var essential := Essentials(BinMinterms(minterms, numVars), primes);
      r.value == if |essential| > 0 then essential else primes
  {
    var binMinterms := BinMinterms(minterms, numVars);
    var ok, pr := FindPrimes(minterms, numVars);
    primes := pr;
    if !ok {
      r := Err("TypeError: groups[keys[i]] is not iterable");
      return;
    }
    BinLevel(minterms, numVars);
    PrimesCover(binMinterms, Keys0(minterms, numVars), Width(numVars), pr);
    if numVars >= 1 {
      PrimesAreImplicants(minterms, numVars);
      assert forall p :: p in pr ==> p in Elems(pr);
    }
    var essential := CollectEssentials(binMinterms, pr);
    r := Ok(if |essential| > 0 then essential else pr);
  }

  /**
   * Lines 21-75: the padded minterms are grouped by count of ones and merged
   * round after round. Fails exactly when the rounds get stuck; otherwise the
   * primes are distinct patterns of the padded width and, as a set, what the
   * rounds find together with the padded minterms the first round does not use.
   */
  method FindPrimes(minterms: seq<nat>, numVars: nat) returns (ok: bool, primes: seq<string>)
    requires forall m :: m in minterms ==> m < Pow2(numVars)
    ensures ok <==> !Rounds(minterms, numVars).Failed?
    ensures ok ==> Elems(primes) == Rounds(minterms, numVars).found + Unmerged(minterms, numVars)
    ensures ok ==> Distinct(primes) && forall p :: p in primes ==> |p| == Width(numVars)
  {
    var binMinterms := BinMinterms(minterms, numVars);
    ghost var w := Width(numVars);
    ghost var level := Elems(binMinterms);
    BinLevel(minterms, numVars);
    var groups := GroupByOnes(binMinterms);
    FirstBuckets(binMinterms, groups, w);
    KeysPresent(groups, level, w, 0);
    FirstKeys(minterms, numVars, groups);
    var keys := AscendingKeys(groups, Width(numVars) + 1);
    ok, primes := MergeRounds(binMinterms, groups, keys, w);
    RoundsOf(minterms, numVars);
  }

  /**
   * What the loop of lines 33-75 knows after the rounds that reached `level`
   * (with `dashes` dashes) and found `found`: the rounds from `level0` are
   * those rounds followed by the rounds from `level`, and `primes` holds what
   * was found together with the padded minterms the first round did not use.
   */
  ghost predicate Progress(
    level0: set<string>, keys: seq<nat>, w: nat, level: set<string>, dashes: nat, found: set<string>,
    primes: seq<string>, used: set<string>, anyRound: bool)
    requires LevelShape(level0, w, 0)
  {
    && LevelShape(level, w, dashes)
    && Run(level0, keys, w, 0) == Extend(found, Run(level, keys, w, dashes))
    && Distinct(primes) && (forall p :: p in primes ==> |p| == w)
    && Elems(primes) == found + (if anyRound then level0 - UsedIn(level0, keys) else {})
    && (anyRound ==> dashes >= 1 && level0 - used == level0 - UsedIn(level0, keys))
    && (!anyRound ==> dashes == 0 && level == level0 && used == {} && found == {} && primes == [])
  }

  lemma ExtendNothing(o: Outcome)
    ensures Extend({}, o) == o
  {
    if o.Finished? {
      assert {} + o.found == o.found;
    }
  }

  /** Before the first round nothing is found and `primes` is empty. */
  lemma ProgressStart(level0: set<string>, keys: seq<nat>, w: nat)
    requires LevelShape(level0, w, 0)
    ensures Progress(level0, keys, w, level0, 0, {}, [], {}, false)
  {
    ExtendNothing(Run(level0, keys, w, 0));
    assert Elems([]) == {};
  }

  /** When the rounds reach an empty level, they have found `found` and `primes` is complete. */
  lemma ProgressEnd(
    level0: set<string>, keys: seq<nat>, w: nat, level: set<string>, dashes: nat, found: set<string>,
    primes: seq<string>, used: set<string>)
    requires LevelShape(level0, w, 0) && Progress(level0, keys, w, level, dashes, found, primes, used, true) && level == {}
    ensures Run(level0, keys, w, 0) == Finished(found)
    ensures Elems(primes) == found + (level0 - UsedIn(level0, keys))
  {
    RunEnds(level, keys, w, dashes);
  }

  /** The patterns a round uses come from its level. */
  lemma UsedInLevel(level: set<string>, keys: seq<nat>)
    ensures UsedIn(level, keys) <= level
  {
  }

  /** One round that is not stuck keeps `Progress`, with its combinations as the next level. */
  lemma ProgressStep(
    level0: set<string>, keys: seq<nat>, w: nat, level: set<string>, dashes: nat, found: set<string>,
    primes: seq<string>, used: set<string>, anyRound: bool, primes': seq<string>, used': set<string>)
    requires LevelShape(level0, w, 0)
    requires Progress(level0, keys, w, level, dashes, found, primes, used, anyRound) && !Stuck(level, keys)
    requires Distinct(primes') && (forall p :: p in primes' ==> |p| == w)
    requires used' == used + UsedIn(level, keys)
    requires Elems(primes') == Elems(primes) + Combinations(level, keys) + (level0 - used')
    ensures Progress(level0, keys, w, Combinations(level, keys), dashes + 1, found + Combinations(level, keys), primes', used', true)
    ensures Combinations(level, keys) != {} ==> dashes + 1 <= w
  {
    RunAdvance(level0, level, keys, w, dashes, found);
    UsedInLevel(level, keys);
    if anyRound {
      assert level0 - used' == level0 - used by {
        assert forall u :: u in level0 ==> Dashes(u) == 0;
        assert forall u :: u in UsedIn(level, keys) ==> Dashes(u) == dashes;
      }
    }
  }

  /** One pass of the loop of lines 33-75, as `Round` runs it, keeping `Progress`. */
  method MergeStep(
    binMinterms: seq<string>, groups: map<nat, seq<string>>, keys: seq<nat>, ghost level: set<string>,
    ghost w: nat, ghost dashes: nat, ghost found: set<string>, primes0: seq<string>, used0: set<string>, ghost anyRound: bool)
    returns (ok: bool, nextGroups: map<nat, seq<string>>, primes: seq<string>, used: set<string>, hasCombined: bool,
      ghost next: set<string>, ghost found': set<string>)
    requires LevelShape(Elems(binMinterms), w, 0)
    requires Shape(groups, w, dashes) && Bucketed(groups, level)
    requires Progress(Elems(binMinterms), keys, w, level, dashes, found, primes0, used0, anyRound)
    ensures !ok ==> Run(Elems(binMinterms), keys, w, 0).Failed?
    ensures ok ==> next == Combinations(level, keys) && found' == found + next
    ensures ok ==> Shape(nextGroups, w, dashes + 1) && Bucketed(nextGroups, next)
    ensures ok ==> Progress(Elems(binMinterms), keys, w, next, dashes + 1, found', primes, used, true)
    ensures ok && hasCombined ==> dashes + 1 <= w
    ensures ok && !hasCombined ==> next == {}
  {
    next, found' := {}, found;
    assert forall m :: m in binMinterms ==> m in Elems(binMinterms);
    ok, nextGroups, primes, used, hasCombined := Round(binMinterms, groups, keys, level, w, dashes, primes0, used0);
    if !ok {
      RunEnds(level, keys, w, dashes);
      return;
    }
    ProgressStep(Elems(binMinterms), keys, w, level, dashes, found, primes0, used0, anyRound, primes, used);
    next := Combinations(level, keys);
    found' := found + next;
  }

  /**
   * Lines 33-75: merge rounds until one combines nothing. Round `d` works on
   * patterns with `d` dashes, so the rounds end after at most `w + 1` passes.
   * The loop fails exactly when the rounds on sets do, and otherwise collects
   * what they find together with the padded minterms the first round does not
   * use.
   */
  method MergeRounds(binMinterms: seq<string>, groups0: map<nat, seq<string>>, keys: seq<nat>, ghost w: nat)
    returns (ok: bool, primes: seq<string>)
    requires LevelShape(Elems(binMinterms), w, 0)
    requires Shape(groups0, w, 0) && Bucketed(groups0, Elems(binMinterms))
    ensures ok <==> !Run(Elems(binMinterms), keys, w, 0).Failed?
    ensures ok ==>
      Elems(primes) == Run(Elems(binMinterms), keys, w, 0).found + (Elems(binMinterms) - UsedIn(Elems(binMinterms), keys))
    ensures ok ==> Distinct(primes) && forall p :: p in primes ==> |p| == w
  {
    ghost var level0 := Elems(binMinterms);
    ghost var level := level0;
    ghost var found: set<string> := {};
    var groups := groups0;
    primes := [];
    var used: set<string> := {};
    ghost var dashes: nat := 0;
    var hasCombined := true;
    ghost var anyRound := false;
    ProgressStart(level0, keys, w);
    while hasCombined
      invariant Shape(groups, w, dashes) && Bucketed(groups, level)
      invariant Progress(level0, keys, w, level, dashes, found, primes, used, anyRound)
      invariant hasCombined ==> dashes <= w
      invariant !hasCombined ==> anyRound && level == {}
      decreases if hasCombined then w + 1 - dashes else 0
    {
      ok, groups, primes, used, hasCombined, level, found := MergeStep(binMinterms, groups, keys, level, w, dashes, found, primes, used, anyRound);
      if !ok {
        return;
      }
      dashes := dashes + 1;
      anyRound := true;
    }
    ProgressEnd(level0, keys, w, level, dashes, found, primes, used);
    ok := true;
  }

  // ---------------------------------------------------------------------
  // Rendering
  // ---------------------------------------------------------------------

  /**
   * Lines 92-95 for digit `bit` at position `i`: nothing for '-', the name
   * for '1' (`undefined` past the end, which the filter drops like ""), the
   * name followed by `'` for any other digit.
   */
  function TermText(bit: char, i: nat, variables: seq<string>): string
  {
    if bit == '-' then ""
    else if bit == '1' then JoinName(variables, i)
    else TemplateName(variables, i) + "'"
  }

  /** `filter(Boolean)` on strings: drops the empty ones, keeping order. */
  function NonEmpty(list: seq<string>): (r: seq<string>)
    ensures forall x :: x in r <==> x in list && x != ""
    ensures |r| <= |list|
    ensures (forall i :: 0 <= i < |list| ==> list[i] == "") ==> r == []
    decreases |list|
  {
    if |list| == 0 then []
    else
      var init := list[..|list| - 1];
      var last := list[|list| - 1];
      assert forall p :: p in list <==> p in init || p == last;
      assert forall i :: 0 <= i < |init| ==> init[i] == list[i];
      var kept := NonEmpty(init);
      if last != "" then kept + [last] else kept
  }

  /** The filter works element by element: filtering a concatenation concatenates the filtered parts, so order is kept. */
  lemma {:induction false} NonEmptyAppend(a: seq<string>, b: seq<string>)
    ensures NonEmpty(a + b) == NonEmpty(a) + NonEmpty(b)
    decreases |b|
  {
    if |b| == 0 {
      assert a + b == a;
    } else {
      var init := b[..|b| - 1];
      assert (a + b)[..|a + b| - 1] == a + init;
      NonEmptyAppend(a, init);
    }
  }

  /** The literal texts that survive the filter and the de-duplication. */
  function UniqueTerms(minterm: string, variables: seq<string>): seq<string>
  {
    var terms := seq(|minterm|, i requires 0 <= i < |minterm| => TermText(minterm[i], i, variables));
    Dedup(NonEmpty(terms))
  }

  /** `convertToReadableExpression`. */
  function ConvertToReadableExpression(minterm: string, variables: seq<string>): string
  {
    Join(UniqueTerms(minterm, variables), "⋀")
  }

  /**
   * The joined terms are distinct and are exactly the non-empty texts of the
   * digits: a '-' digit contributes nothing. The first surviving digit's
   * text comes first, and a pattern of dashes only gives the empty string.
   */
  lemma ConvertSpec(minterm: string, variables: seq<string>)
    ensures Distinct(UniqueTerms(minterm, variables))
    ensures forall x :: x in UniqueTerms(minterm, variables) <==>
      x != "" && exists i :: 0 <= i < |minterm| && minterm[i] != '-' && TermText(minterm[i], i, variables) == x
    ensures |minterm| > 0 && TermText(minterm[0], 0, variables) != "" ==>
      |UniqueTerms(minterm, variables)| > 0 && UniqueTerms(minterm, variables)[0] == TermText(minterm[0], 0, variables)
    ensures (forall i :: 0 <= i < |minterm| ==> minterm[i] == '-') ==> ConvertToReadableExpression(minterm, variables) == ""
  {
    var terms := seq(|minterm|, i requires 0 <= i < |minterm| => TermText(minterm[i], i, variables));
    var kept := NonEmpty(terms);
    DedupSpec(kept);
    forall x
      ensures x in kept <==> x != "" && exists i :: 0 <= i < |minterm| && minterm[i] != '-' && TermText(minterm[i], i, variables) == x
    {
      if x in kept {
        var i :| 0 <= i < |terms| && terms[i] == x;
        assert minterm[i] != '-';
      }
      if x != "" && exists i :: 0 <= i < |minterm| && minterm[i] != '-' && TermText(minterm[i], i, variables) == x {
        var i :| 0 <= i < |minterm| && minterm[i] != '-' && TermText(minterm[i], i, variables) == x;
        assert terms[i] == x;
      }
    }
    if |minterm| > 0 && TermText(minterm[0], 0, variables) != "" {
      assert terms == [terms[0]] + terms[1..];
      assert NonEmpty(terms)[0] == terms[0] by {
        NonEmptyFirst(terms);
      }
    }
    if forall i :: 0 <= i < |minterm| ==> minterm[i] == '-' {
    }
  }

  /**
   * One more digit adds its text at the end, unless the text is empty or
   * an earlier digit already gave it: the terms follow the digits' order.
   */
  lemma UniqueTermsSnoc(minterm: string, c: char, variables: seq<string>)
    ensures var t := TermText(c, |minterm|, variables);
      UniqueTerms(minterm + [c], variables) ==
        UniqueTerms(minterm, variables) + (if t == "" || t in UniqueTerms(minterm, variables) then [] else [t])
  {
    var t := TermText(c, |minterm|, variables);
    var extended := minterm + [c];
    var terms := seq(|minterm|, i requires 0 <= i < |minterm| => TermText(minterm[i], i, variables));
    var terms' := seq(|extended|, i requires 0 <= i < |extended| => TermText(extended[i], i, variables));
    assert terms' == terms + [t];
    NonEmptyAppend(terms, [t]);
    assert NonEmpty([t]) == (if t == "" then [] else [t]) by {
      assert [t][..0] == [];
    }
    DedupSpec(NonEmpty(terms));
    if t != "" {
      DedupSnoc(NonEmpty(terms), t);
    } else {
      assert NonEmpty(terms') == NonEmpty(terms);
    }
  }

  lemma {:induction false} NonEmptyFirst(list: seq<string>)
    requires |list| > 0 && list[0] != ""
    ensures |NonEmpty(list)| > 0 && NonEmpty(list)[0] == list[0]
    decreases |list|
  {
    if |list| > 1 {
      NonEmptyFirst(list[..|list| - 1]);
    }
  }
}
