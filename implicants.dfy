/**
 * Implicants and prime implicants of a Boolean function of `n` variables
 * given by its listed inputs (required values and don't-cares), and the
 * invariants of the tabulation rounds that find them: round `r` holds, in
 * bucket `k`, patterns with `r` dashes and `k` ones, each standing for
 * exactly the inputs it matches, and every implicant with `r` dashes has a
 * Minterm in that round.
 */
module Implicants {
  import opened Binary
  import opened Patterns
  import opened Minterms
  import opened Terms

  /** A pattern over '0', '1' and '-'. */
  predicate IsPattern(p: string)
  {
    forall i :: 0 <= i < |p| ==> p[i] == '0' || p[i] == '1' || p[i] == '-'
  }

  /** The input `x` of `n` variables matches `p`: its `n`-digit binary text is covered by `p`. */
  ghost predicate Matches(x: nat, p: string, n: nat)
  {
    x < Pow2(n) && Covers(BinaryOfWidth(x, n), p)
  }

  /** An `n`-digit pattern every input of which is listed. */
  ghost predicate IsImplicant(p: string, listed: seq<nat>, n: nat)
  {
    && |p| == n
    && IsPattern(p)
    && forall x :: Matches(x, p, n) ==> x in listed
  }

  /** An implicant that stops being one as soon as any of its digits becomes '-'. */
  ghost predicate IsPrimeImplicant(p: string, listed: seq<nat>, n: nat)
  {
    && IsImplicant(p, listed, n)
    && forall j :: 0 <= j < |p| && p[j] != '-' ==> !IsImplicant(p[j := '-'], listed, n)
  }

  /** The Minterm's values are exactly the inputs its pattern matches. */
  ghost predicate Exact(t: Minterm, n: nat)
  {
    forall x :: x in t.values <==> Matches(x, t.value, n)
  }

  /** `t` belongs in bucket `k` of round `r`. */
  ghost predicate Shaped(t: Minterm, n: nat, r: nat, k: nat)
  {
    && |t.value| == n
    && IsPattern(t.value)
    && Dashes(t.value) == r
    && Ones(t.value) == k
    && Exact(t, n)
  }

  /** Round `r` has `n + 1 - r` buckets, and each Minterm belongs in its bucket. */
  ghost predicate RoundShape(groups: seq<seq<Minterm>>, n: nat, r: nat)
  {
    && |groups| + r == n + 1
    && forall k, t :: 0 <= k < |groups| && t in groups[k] ==> Shaped(t, n, r, k)
  }

  /** Every value of a Minterm of the round is listed. */
  ghost predicate ListedRound(groups: seq<seq<Minterm>>, listed: seq<nat>)
  {
    forall k, t, v :: 0 <= k < |groups| && t in groups[k] && v in t.values ==> v in listed
  }

  /** Every implicant with `r` dashes has a Minterm in the bucket of its count of ones. */
  ghost predicate CompleteRound(groups: seq<seq<Minterm>>, listed: seq<nat>, n: nat, r: nat)
  {
    forall p :: IsImplicant(p, listed, n) && Dashes(p) == r ==>
      Ones(p) < |groups| && exists t :: t in groups[Ones(p)] && t.value == p
  }

  // ---------------------------------------------------------------------
  // Counting digits
  // ---------------------------------------------------------------------

  lemma {:induction false} CountBelowUpdate(s: string, j: nat, c: char, d: char, i: nat)
    requires j < |s| && i <= |s|
    ensures CountBelow(s[j := c], d, i) + (if j < i && s[j] == d then 1 else 0)
      == CountBelow(s, d, i) + (if j < i && c == d then 1 else 0)
    decreases i
  {
    if i > 0 {
      CountBelowUpdate(s, j, c, d, i - 1);
    }
  }

  /** Writing `c` at `j` removes the digit that was there from the count and adds `c`. */
  lemma CountUpdate(s: string, j: nat, c: char, d: char)
    requires j < |s|
    ensures CountBelow(s[j := c], d, |s|) + (if s[j] == d then 1 else 0)
      == CountBelow(s, d, |s|) + (if c == d then 1 else 0)
  {
    CountBelowUpdate(s, j, c, d, |s|);
  }

  /** A positive count locates an occurrence. */
  lemma {:induction false} FindBelow(s: string, c: char, i: nat) returns (j: nat)
    requires i <= |s| && CountBelow(s, c, i) >= 1
    ensures j < i && s[j] == c
    decreases i
  {
    if s[i - 1] == c {
      j := i - 1;
    } else {
      j := FindBelow(s, c, i - 1);
    }
  }

  /** A zero count means no occurrence. */
  lemma {:induction false} ZeroCount(s: string, c: char, i: nat)
    requires i <= |s| && CountBelow(s, c, i) == 0
    ensures forall j :: 0 <= j < i ==> s[j] != c
    decreases i
  {
    if i > 0 {
      ZeroCount(s, c, i - 1);
    }
  }

  /** A full count means `c` everywhere. */
  lemma {:induction false} FullCount(s: string, c: char, i: nat)
    requires i <= |s| && CountBelow(s, c, i) == i
    ensures forall j :: 0 <= j < i ==> s[j] == c
    decreases i
  {
    if i > 0 {
      CountBelowBound(s, c, i - 1);
      FullCount(s, c, i - 1);
    }
  }

  // ---------------------------------------------------------------------
  // Patterns that differ in one digit
  // ---------------------------------------------------------------------

  /** Changing one digit makes exactly one mismatch. */
  lemma OneMismatch(s: string, j: nat, c: char)
    requires j < |s| && s[j] != c
    ensures MismatchCount(s, s[j := c]) == 1
  {
    CountOnlyMismatch(s, s[j := c], |s|, j);
  }

  /** Different patterns of equal length mismatch somewhere. */
  lemma DistinctMismatch(a: string, b: string)
    requires |a| == |b| && a != b
    ensures MismatchCount(a, b) >= 1
  {
    var i :| 0 <= i < |a| && a[i] != b[i];
    MismatchesMonotone(a, b, i + 1, |a|);
  }

  /**
   * Patterns with the same dashes, one more '1' in `b` and at most one
   * mismatch differ at exactly one digit, '0' in `a` and '1' in `b`; their
   * merge has a '-' there.
   */
  lemma NeighbourMerge(a: string, b: string) returns (j: nat)
    requires |a| == |b| && IsPattern(a) && IsPattern(b)
    requires Dashes(a) == Dashes(b) && Ones(b) == Ones(a) + 1 && MismatchCount(a, b) <= 1
    ensures j < |a| && a[j] == '0' && b == a[j := '1'] && Merge(a, b) == a[j := '-']
  {
    assert a != b;
    DistinctMismatch(a, b);
    j := LocateMismatch(a, b, |a|);
    forall i | 0 <= i < |a| && i != j
      ensures a[i] == b[i]
    {
      assert !Mismatch(a, b, i);
    }
    assert b == a[j := b[j]];
    CountUpdate(a, j, b[j], '-');
    CountUpdate(a, j, b[j], '1');
    assert Merge(a, b) == a[j := '-'];
  }

  /** A '-' at `j` matches what either digit there matches. */
  lemma SplitMatches(x: nat, p: string, j: nat, n: nat)
    requires n >= 1 && |p| == n && j < n && p[j] == '-'
    ensures Matches(x, p, n) <==> Matches(x, p[j := '0'], n) || Matches(x, p[j := '1'], n)
  {
    if x < Pow2(n) {
      var b := BinaryOfWidth(x, n);
      BinaryOfWidthSpec(x, n);
      assert b[j] == '0' || b[j] == '1';
      if Covers(b, p) {
        var c := b[j];
        assert Covers(b, p[j := c]) by {
          forall i | 0 <= i < |b|
            ensures p[j := c][i] == '-' || b[i] == p[j := c][i]
          {
          }
        }
      }
      if Covers(b, p[j := '0']) || Covers(b, p[j := '1']) {
        forall i | 0 <= i < |b|
          ensures p[i] == '-' || b[i] == p[i]
        {
          if i != j {
            assert p[j := '0'][i] == p[i] && p[j := '1'][i] == p[i];
          }
        }
      }
    }
  }

  /** Both halves of an implicant with a '-' at `j` are implicants. */
  lemma SplitImplicant(p: string, listed: seq<nat>, n: nat, j: nat)
    requires n >= 1 && IsImplicant(p, listed, n) && j < n && p[j] == '-'
    ensures IsImplicant(p[j := '0'], listed, n) && IsImplicant(p[j := '1'], listed, n)
  {
    forall x | Matches(x, p[j := '0'], n) || Matches(x, p[j := '1'], n)
      ensures x in listed
    {
      SplitMatches(x, p, j, n);
    }
  }

  /** Two implicants that differ only at `j` join into an implicant with a '-' there. */
  lemma JoinImplicants(p: string, listed: seq<nat>, n: nat, j: nat)
    requires n >= 1 && |p| == n && j < n && p[j] == '-'
    requires IsImplicant(p[j := '0'], listed, n) && IsImplicant(p[j := '1'], listed, n)
    ensures IsImplicant(p, listed, n)
  {
    forall i | 0 <= i < |p|
      ensures p[i] == '0' || p[i] == '1' || p[i] == '-'
    {
      if i != j {
        assert p[j := '0'][i] == p[i];
      }
    }
    forall x | Matches(x, p, n)
      ensures x in listed
    {
      SplitMatches(x, p, j, n);
    }
  }

  /**
   * Patterns with the same dashes that differ in exactly one place differ
   * there by a '0' and a '1': the one with more '1's has exactly one more.
   */
  lemma AdjacentOnes(a: string, b: string)
    requires |a| == |b| && IsPattern(a) && IsPattern(b)
    requires Dashes(a) == Dashes(b) && MismatchCount(a, b) == 1 && Ones(a) < Ones(b)
    ensures Ones(b) == Ones(a) + 1
  {
    var j := LocateMismatch(a, b, |a|);
    forall i | 0 <= i < |a| && i != j
      ensures a[i] == b[i]
    {
      assert !Mismatch(a, b, i);
    }
    assert b == a[j := b[j]];
    CountUpdate(a, j, b[j], '-');
    CountUpdate(a, j, b[j], '1');
  }

  /** Two implicants with the same dashes and a single '0'/'1' difference merge into an implicant. */
  lemma MergedImplicant(a: string, b: string, listed: seq<nat>, n: nat)
    requires n >= 1 && IsImplicant(a, listed, n) && IsImplicant(b, listed, n)
    requires Dashes(a) == Dashes(b) && MismatchCount(a, b) == 1 && Ones(a) < Ones(b)
    ensures IsImplicant(Merge(a, b), listed, n)
  {
    AdjacentOnes(a, b);
    var j := NeighbourMerge(a, b);
    var p := a[j := '-'];
    assert p[j := '0'] == a && p[j := '1'] == b;
    JoinImplicants(p, listed, n, j);
  }

  // ---------------------------------------------------------------------
  // One round to the next
  // ---------------------------------------------------------------------

  /** The merge of neighbours of round `r` belongs in bucket `k` of round `r + 1`. */
  lemma MergeShaped(t1: Minterm, t2: Minterm, u: Minterm, n: nat, r: nat, k: nat)
    requires n >= 1 && Shaped(t1, n, r, k) && Shaped(t2, n, r, k + 1)
    requires Combinable(t1, t2) && MergeOf(u, t1, t2)
    ensures Shaped(u, n, r + 1, k)
  {
    var a := t1.value;
    var j := NeighbourMerge(a, t2.value);
    var p := a[j := '-'];
    CountUpdate(a, j, '-', '-');
    CountUpdate(a, j, '-', '1');
    assert p[j := '0'] == a && p[j := '1'] == t2.value;
    forall x
      ensures x in u.values <==> Matches(x, p, n)
    {
      SplitMatches(x, p, j, n);
    }
  }

  /** The merges of round `r` form round `r + 1`, with listed values only. */
  lemma NextRoundShape(groups: seq<seq<Minterm>>, newGroups: seq<seq<Minterm>>, listed: seq<nat>, n: nat, r: nat)
    requires n >= 1 && RoundShape(groups, n, r) && ListedRound(groups, listed)
    requires |newGroups| == |groups| - 1
    requires forall k :: 0 <= k < |newGroups| ==> MergedBucket(groups[k], groups[k + 1], newGroups[k])
    ensures RoundShape(newGroups, n, r + 1) && ListedRound(newGroups, listed)
  {
    forall k, u | 0 <= k < |newGroups| && u in newGroups[k]
      ensures Shaped(u, n, r + 1, k)
    {
      MergedShaped(groups, newGroups, listed, n, r, k, u);
    }
    forall k, u, v | 0 <= k < |newGroups| && u in newGroups[k] && v in u.values
      ensures v in listed
    {
      MergedShaped(groups, newGroups, listed, n, r, k, u);
    }
  }

  /** One Minterm of the next round. */
  lemma MergedShaped(groups: seq<seq<Minterm>>, newGroups: seq<seq<Minterm>>, listed: seq<nat>, n: nat, r: nat, k: nat, u: Minterm)
    requires n >= 1 && RoundShape(groups, n, r) && ListedRound(groups, listed)
    requires |newGroups| == |groups| - 1 && k < |newGroups| && u in newGroups[k]
    requires MergedBucket(groups[k], groups[k + 1], newGroups[k])
    ensures Shaped(u, n, r + 1, k) && forall v :: v in u.values ==> v in listed
  {
    var t1, t2 :| t1 in groups[k] && t2 in groups[k + 1] && Combinable(t1, t2) && MergeOf(u, t1, t2);
    assert Shaped(t1, n, r, k) && Shaped(t2, n, r, k + 1);
    MergeShaped(t1, t2, u, n, r, k);
  }

  /**
   * Every implicant with `r + 1` dashes is the merge of its two halves at a
   * '-', which sit in adjacent buckets of round `r`; so it is in round `r + 1`.
   */
  lemma CompleteNext(groups: seq<seq<Minterm>>, newGroups: seq<seq<Minterm>>, listed: seq<nat>, n: nat, r: nat)
    requires n >= 1 && CompleteRound(groups, listed, n, r)
    requires |newGroups| == |groups| - 1
    requires forall k :: 0 <= k < |newGroups| ==> MergedBucket(groups[k], groups[k + 1], newGroups[k])
    ensures CompleteRound(newGroups, listed, n, r + 1)
  {
    forall p | IsImplicant(p, listed, n) && Dashes(p) == r + 1
      ensures Ones(p) < |newGroups| && exists u :: u in newGroups[Ones(p)] && u.value == p
    {
      var j := FindBelow(p, '-', |p|);
      var k := Ones(p);
      var ta, tb := Halves(groups, listed, n, r, p, j);
      assert MergedBucket(groups[k], groups[k + 1], newGroups[k]);
      var u :| u in newGroups[k] && MergeOf(u, ta, tb);
    }
  }

  /** The halves of an implicant with `r + 1` dashes at a '-' are combinable Minterms of adjacent buckets of round `r`. */
  lemma Halves(groups: seq<seq<Minterm>>, listed: seq<nat>, n: nat, r: nat, p: string, j: nat) returns (ta: Minterm, tb: Minterm)
    requires n >= 1 && CompleteRound(groups, listed, n, r)
    requires IsImplicant(p, listed, n) && Dashes(p) == r + 1 && j < |p| && p[j] == '-'
    ensures Ones(p) + 1 < |groups| && ta in groups[Ones(p)] && tb in groups[Ones(p) + 1]
    ensures Combinable(ta, tb) && Merge(ta.value, tb.value) == p
  {
    var a, b := p[j := '0'], p[j := '1'];
    SplitImplicant(p, listed, n, j);
    CountUpdate(p, j, '0', '-');
    CountUpdate(p, j, '0', '1');
    CountUpdate(p, j, '1', '-');
    CountUpdate(p, j, '1', '1');
    var k := Ones(p);
    ta :| ta in groups[k] && ta.value == a;
    tb :| tb in groups[k + 1] && tb.value == b;
    assert b == a[j := '1'];
    OneMismatch(a, j, '1');
    assert Merge(a, b) == p;
  }

  // ---------------------------------------------------------------------
  // Survivors and primes
  // ---------------------------------------------------------------------

  /** A Minterm of the round with listed values has an implicant pattern. */
  lemma TermImplicant(t: Minterm, listed: seq<nat>, n: nat, r: nat, k: nat)
    requires Shaped(t, n, r, k) && forall v :: v in t.values ==> v in listed
    ensures IsImplicant(t.value, listed, n)
  {
  }

  /**
   * If a digit of a round Minterm can become '-' and stay an implicant, the
   * Minterm with that digit flipped is in an adjacent bucket: a partner.
   */
  lemma JoinGivesPartner(groups: seq<seq<Minterm>>, listed: seq<nat>, n: nat, r: nat, k: nat, t: Minterm, j: nat)
    requires n >= 1 && RoundShape(groups, n, r) && CompleteRound(groups, listed, n, r)
    requires 0 <= k < |groups| && t in groups[k] && j < |t.value| && t.value[j] != '-'
    ensures IsImplicant(t.value[j := '-'], listed, n) ==> HasPartner(groups, t)
  {
    var p := t.value;
    assert Shaped(t, n, r, k);
    if IsImplicant(p[j := '-'], listed, n) {
      var wide := p[j := '-'];
      SplitImplicant(wide, listed, n, j);
      if p[j] == '0' {
        var q := p[j := '1'];
        assert wide[j := '1'] == q;
        CountUpdate(p, j, '1', '-');
        CountUpdate(p, j, '1', '1');
        var t2 :| t2 in groups[k + 1] && t2.value == q;
        OneMismatch(p, j, '1');
        assert PartnerAcross(groups[k], groups[k + 1], t);
      } else {
        var q := p[j := '0'];
        assert wide[j := '0'] == q;
        CountUpdate(p, j, '0', '-');
        CountUpdate(p, j, '0', '1');
        var t1 :| t1 in groups[k - 1] && t1.value == q;
        assert q[j := '1'] == p;
        OneMismatch(q, j, '1');
        assert PartnerAcross(groups[k - 1], groups[k], t);
      }
    }
  }

  /** A round Minterm with a partner has a digit that can become '-' in an implicant. */
  lemma PartnerGivesJoin(groups: seq<seq<Minterm>>, listed: seq<nat>, n: nat, r: nat, t: Minterm)
    requires n >= 1 && RoundShape(groups, n, r) && ListedRound(groups, listed)
    ensures HasPartner(groups, t) ==>
      exists j :: 0 <= j < |t.value| && t.value[j] != '-' && IsImplicant(t.value[j := '-'], listed, n)
  {
    if HasPartner(groups, t) {
      var k :| 0 <= k < |groups| - 1 && PartnerAcross(groups[k], groups[k + 1], t);
      var t1, t2;
      if t in groups[k] && exists t2 :: t2 in groups[k + 1] && Combinable(t, t2) {
        t1 := t;
        t2 :| t2 in groups[k + 1] && Combinable(t, t2);
      } else {
        t2 := t;
        t1 :| t1 in groups[k] && Combinable(t1, t);
      }
      assert Shaped(t1, n, r, k) && Shaped(t2, n, r, k + 1);
      var j := NeighbourMerge(t1.value, t2.value);
      var wide := t1.value[j := '-'];
      assert wide[j := '0'] == t1.value && wide[j := '1'] == t2.value;
      TermImplicant(t1, listed, n, r, k);
      TermImplicant(t2, listed, n, r, k + 1);
      JoinImplicants(wide, listed, n, j);
      assert t2.value[j := '-'] == wide;
    }
  }

  /** A round Minterm without a partner is a prime implicant. */
  lemma SurvivorPrime(groups: seq<seq<Minterm>>, listed: seq<nat>, n: nat, r: nat, k: nat, t: Minterm)
    requires n >= 1 && RoundShape(groups, n, r) && ListedRound(groups, listed) && CompleteRound(groups, listed, n, r)
    requires 0 <= k < |groups| && t in groups[k] && !HasPartner(groups, t)
    ensures IsPrimeImplicant(t.value, listed, n)
  {
    TermImplicant(t, listed, n, r, k);
    forall j | 0 <= j < |t.value| && t.value[j] != '-'
      ensures !IsImplicant(t.value[j := '-'], listed, n)
    {
      JoinGivesPartner(groups, listed, n, r, k, t, j);
    }
  }

  /** A round Minterm with a prime implicant pattern has no partner. */
  lemma PrimeSurvives(groups: seq<seq<Minterm>>, listed: seq<nat>, n: nat, r: nat, t: Minterm)
    requires n >= 1 && RoundShape(groups, n, r) && ListedRound(groups, listed)
    requires IsPrimeImplicant(t.value, listed, n)
    ensures !HasPartner(groups, t)
  {
    PartnerGivesJoin(groups, listed, n, r, t);
  }

  /** In the last round (all '-'), every Minterm is prime and every prime with `r` dashes is there. */
  lemma LastRound(groups: seq<seq<Minterm>>, listed: seq<nat>, n: nat, r: nat)
    requires n >= 1 && |groups| == 1
    requires RoundShape(groups, n, r) && ListedRound(groups, listed) && CompleteRound(groups, listed, n, r)
    ensures forall t :: t in groups[0] ==> IsPrimeImplicant(t.value, listed, n)
    ensures forall p :: IsPrimeImplicant(p, listed, n) && Dashes(p) >= r ==>
      exists t :: t in groups[0] && t.value == p
  {
    forall t | t in groups[0]
      ensures IsPrimeImplicant(t.value, listed, n)
    {
      assert Shaped(t, n, r, 0);
      TermImplicant(t, listed, n, r, 0);
      FullCount(t.value, '-', n);
    }
    forall p | IsPrimeImplicant(p, listed, n) && Dashes(p) >= r
      ensures exists t :: t in groups[0] && t.value == p
    {
      DashesBound(p);
    }
  }

  /**
   * The result of a round, drawn from its partnerless Minterms and from the
   * next round's result, is exact and prime, and holds every prime with at
   * least `r` dashes.
   */
  lemma RoundResult(groups: seq<seq<Minterm>>, collected: seq<Minterm>, rest: seq<Minterm>, unused: seq<Minterm>,
                    listed: seq<nat>, n: nat, r: nat)
    requires n >= 1 && RoundShape(groups, n, r) && ListedRound(groups, listed) && CompleteRound(groups, listed, n, r)
    requires forall u :: u in collected ==> u in TermsOf(groups) && !HasPartner(groups, u)
    requires forall k, t :: 0 <= k < |groups| && t in groups[k] && !HasPartner(groups, t) ==> ContainsEqual(collected, t)
    requires forall u :: u in rest ==> Exact(u, n) && IsPrimeImplicant(u.value, listed, n)
    requires forall p :: IsPrimeImplicant(p, listed, n) && Dashes(p) >= r + 1 ==> exists u :: u in rest && u.value == p
    requires forall u :: u in unused ==> u in collected || u in rest
    requires forall t :: ContainsEqual(collected, t) ==> ContainsEqual(unused, t)
    requires forall t :: t in rest ==> ContainsEqual(unused, t)
    ensures forall u :: u in unused ==> Exact(u, n) && IsPrimeImplicant(u.value, listed, n)
    ensures forall p :: IsPrimeImplicant(p, listed, n) && Dashes(p) >= r ==> exists u :: u in unused && u.value == p
  {
    forall u | u in collected
      ensures Exact(u, n) && IsPrimeImplicant(u.value, listed, n)
    {
      var k :| 0 <= k < |groups| && u in groups[k];
      SurvivorPrime(groups, listed, n, r, k, u);
    }
    forall p | IsPrimeImplicant(p, listed, n) && Dashes(p) >= r
      ensures exists u :: u in unused && u.value == p
    {
      var t;
      if Dashes(p) == r {
        t :| t in groups[Ones(p)] && t.value == p;
        PrimeSurvives(groups, listed, n, r, t);
        assert ContainsEqual(collected, t);
      } else {
        t :| t in rest && t.value == p;
      }
      var i :| 0 <= i < |unused| && unused[i].Equals(t);
      assert unused[i] in unused;
    }
  }

  // ---------------------------------------------------------------------
  // The first round
  // ---------------------------------------------------------------------

  lemma {:induction false} WithOnesCount(values: seq<nat>, width: nat, k: nat)
    ensures forall v :: v in WithOnes(values, width, k) ==> Ones(BinaryOfWidth(v, width)) == k
    decreases |values|
  {
    if |values| > 0 {
      WithOnesCount(values[..|values| - 1], width, k);
    }
  }

  /** A binary text is matched by itself alone. */
  lemma OnlyItself(v: nat, x: nat, n: nat)
    requires n >= 1 && v < Pow2(n)
    ensures Matches(x, BinaryOfWidth(v, n), n) <==> x == v
  {
    var b := BinaryOfWidth(v, n);
    BinaryOfWidthSpec(v, n);
    CoversReflexive(b);
    if Matches(x, b, n) {
      var c := BinaryOfWidth(x, n);
      BinaryOfWidthSpec(x, n);
      assert c == b;
    }
  }

  /**
   * The initial grouping (bucket `k` holding, for each listed value with
   * `k` ones, a Minterm for that value alone) is round 0.
   */
  lemma InitialRound(groups: seq<seq<Minterm>>, listed: seq<nat>, n: nat)
    requires n >= 1 && forall v :: v in listed ==> v < Pow2(n)
    requires |groups| == n + 1
    requires forall k :: 0 <= k < |groups| ==> |groups[k]| == |WithOnes(listed, n, k)|
    requires forall k, j :: 0 <= k < |groups| && 0 <= j < |groups[k]| ==>
      var v := WithOnes(listed, n, k)[j];
      groups[k][j].values == [v] && groups[k][j].value == BinaryOfWidth(v, n)
    ensures RoundShape(groups, n, 0) && ListedRound(groups, listed) && CompleteRound(groups, listed, n, 0)
  {
    forall k, t | 0 <= k < |groups| && t in groups[k]
      ensures Shaped(t, n, 0, k) && forall v :: v in t.values ==> v in listed
    {
      var j :| 0 <= j < |groups[k]| && groups[k][j] == t;
      var v := WithOnes(listed, n, k)[j];
      WithOnesSubset(listed, n, k);
      WithOnesCount(listed, n, k);
      BinaryOfWidthSpec(v, n);
      NoDashes(t.value);
      forall x
        ensures x in t.values <==> Matches(x, t.value, n)
      {
        OnlyItself(v, x, n);
      }
    }
    forall p | IsImplicant(p, listed, n) && Dashes(p) == 0
      ensures Ones(p) < |groups| && exists t :: t in groups[Ones(p)] && t.value == p
    {
      ZeroCount(p, '-', |p|);
      assert IsBinaryText(p);
      FixedWidthRoundTrip(p);
      var x := FromBinary(p);
      CoversReflexive(p);
      assert Matches(x, p, n);
      InOwnOnesList(listed, n, x);
      OnesOfWidth(x, n);
      var j :| 0 <= j < |WithOnes(listed, n, Ones(p))| && WithOnes(listed, n, Ones(p))[j] == x;
      assert groups[Ones(p)][j].value == p;
    }
  }

  /** A binary text has no '-'. */
  lemma NoDashes(s: string)
    requires IsBinaryText(s)
    ensures Dashes(s) == 0
  {
    NoneBelow(s, '-', |s|);
  }

  lemma {:induction false} NoneBelow(s: string, c: char, i: nat)
    requires i <= |s| && forall j :: 0 <= j < i ==> s[j] != c
    ensures CountBelow(s, c, i) == 0
    decreases i
  {
    if i > 0 {
      NoneBelow(s, c, i - 1);
    }
  }
}
