/**
 * The tabulation engine: builds prime implicants by repeatedly merging
 * Minterms of adjacent one-count buckets, picks essential prime implicants,
 * covers the rest by an exhaustive subset search, and renders the result as
 * a sum of products.
 */
module Tabulation {
  import opened Wrappers
  import opened Strings
  import opened Binary
  import opened Patterns
  import opened Minterms
  import opened Terms
  import opened Cover
  import opened Render
  import opened Implicants

  class QuineMcCluskey {
    const variables: seq<string>
    const values: seq<nat>
    const allValues: seq<nat>
    const dontCares: seq<nat>
    const isMaxterm: bool
    /** The rendered expression, computed once by the constructor. */
    var func: Option<string>
    /** The implicants `func` renders. */
    ghost var solution: seq<Minterm>
    /** The prime implicants `solution` was chosen from. */
    ghost var primes: seq<Minterm>

    /**
     * Expands the operators in the variable names, keeps the value lists
     * (`allValues` is the required values followed by the don't-cares) and
     * stores the rendering of a solved cover.
     */
    constructor (variables: seq<string>, values: seq<nat>, dontCares: seq<nat>, isMaxterm: bool)
      requires forall v :: v in values + dontCares ==> v < Pow2(|variables|)
      ensures |this.variables| == |variables|
      ensures forall i :: 0 <= i < |variables| ==> this.variables[i] == ExpandOperators(variables[i])
      ensures this.values == values && this.dontCares == dontCares && this.isMaxterm == isMaxterm
      ensures allValues == values + dontCares && Valid()
      ensures func == Some(Expression(solution, this.variables))
      ensures solution == Solution(values, dontCares, primes)
      ensures forall t :: t in solution ==> t in primes && WellFormed(t, Width())
      ensures Distinct(values) ==> forall v :: v in values ==> CoveredBy(v, solution)
      ensures forall t :: t in primes ==> fresh(t) && !t.used && WellFormed(t, Width())
      ensures forall v :: v in allValues ==> CoveredBy(v, primes)
      ensures forall t, v :: t in primes && v in t.values ==> v in allValues
      ensures |variables| >= 1 ==> NoEqualPair(primes)
      ensures |variables| >= 1 ==> forall t :: t in primes ==> Exact(t, |variables|)
      ensures |variables| >= 1 ==> forall t :: t in primes ==> IsPrimeImplicant(t.value, allValues, |variables|)
      ensures |variables| >= 1 ==> forall p :: IsPrimeImplicant(p, allValues, |variables|) ==>
        exists t :: t in primes && t.value == p
    {
      var names := PreprocessVariables(variables);
      this.variables := names;
      this.values := values;
      this.allValues := values + dontCares;
      this.dontCares := dontCares;
      this.isMaxterm := isMaxterm;
      func := None;
      new;
      var f, s, p := GetFunction();
      solution := s;
      primes := p;
      func := Some(f);
    }

    /** Every value handed to the tabulation fits in `|variables|` binary digits. */
    ghost predicate Valid()
    {
      && allValues == values + dontCares
      && forall v :: v in allValues ==> v < Pow2(|variables|)
    }

    /** Pattern length of every Minterm of a run ("0" is one digit even without variables). */
    ghost function Width(): nat
    {
      if |variables| == 0 then 1 else |variables|
    }

    /** `value` in binary, left-padded with '0' to `|variables|` digits. */
    method GetBits(value: nat) returns (s: string)
      ensures s == BinaryOfWidth(value, |variables|)
      ensures IsBinaryText(s) && FromBinary(s) == value
      ensures value < Pow2(|variables|) ==> |s| == Width()
    {
      s := PadBinary(value, |variables|);
      BinaryOfWidthSpec(value, |variables|);
    }

    /**
     * Lines 49-51 and 102-105: the binary text of `value`, with '0' prepended
     * until it is `width` digits long.
     */
    static method PadBinary(value: nat, width: nat) returns (s: string)
      ensures s == BinaryOfWidth(value, width)
    {
      ghost var b := ToBinary(value);
      s := ToBinary(value);
      var j := |s|;
      ghost var k := 0;
      while j < width
        invariant j == |b| + k && s == Zeros(k) + b
        invariant k == 0 || j <= width
      {
        assert "0" + (Zeros(k) + b) == Zeros(k + 1) + b;
        s := "0" + s;
        j := j + 1;
        k := k + 1;
      }
      assert Zeros(0) + b == b;
    }

    /**
     * One bucket per possible count of ones (`|variables| + 1` of them); each
     * value lands, in input order, in the bucket of its count of ones as a
     * fresh unused Minterm standing for that value alone.
     */
    method InitialGroup() returns (groups: seq<seq<Minterm>>)
      requires Valid()
      ensures |groups| == |variables| + 1
      ensures forall k :: 0 <= k < |groups| ==>
        |groups[k]| == |WithOnes(allValues, |variables|, k)|
      ensures forall k, j :: 0 <= k < |groups| && 0 <= j < |groups[k]| ==>
        var v := WithOnes(allValues, |variables|, k)[j];
        groups[k][j].values == [v] && groups[k][j].value == BinaryOfWidth(v, |variables|)
      ensures forall k, t :: 0 <= k < |groups| && t in groups[k] ==> fresh(t)
      ensures forall k, t :: 0 <= k < |groups| && t in groups[k] ==> !t.used
    {
      var n := |variables|;
      groups := [];
      for i := 0 to n + 1
        invariant |groups| == i
        invariant forall k :: 0 <= k < i ==> groups[k] == []
      {
        groups := groups + [[]];
      }
      for idx := 0 to |allValues|
        invariant |groups| == n + 1
        invariant forall k :: 0 <= k < |groups| ==> |groups[k]| == |WithOnes(allValues[..idx], n, k)|
        invariant forall k, j :: 0 <= k < |groups| && 0 <= j < |groups[k]| ==>
          var v := WithOnes(allValues[..idx], n, k)[j];
          groups[k][j].values == [v] && groups[k][j].value == BinaryOfWidth(v, n)
        invariant forall k, t :: 0 <= k < |groups| && t in groups[k] ==> fresh(t)
        invariant forall k, t :: 0 <= k < |groups| && t in groups[k] ==> !t.used
      {
        ghost var m;
        ghost var before := groups;
        groups, m := PlaceValue(groups, idx);
        assert forall k, t :: 0 <= k < |groups| && t in groups[k] ==> t in before[k] || t == m;
      }
      assert allValues[..|allValues|] == allValues;
    }

    /** Lines 70-83 for `allValues[idx]`: its Minterm appended to the bucket of its count of '1'. */
    method PlaceValue(groups: seq<seq<Minterm>>, idx: nat) returns (next: seq<seq<Minterm>>, ghost m: Minterm)
      requires Valid() && idx < |allValues| && |groups| == |variables| + 1
      requires forall k :: 0 <= k < |groups| ==> |groups[k]| == |WithOnes(allValues[..idx], |variables|, k)|
      requires forall k, j :: 0 <= k < |groups| && 0 <= j < |groups[k]| ==>
        var v := WithOnes(allValues[..idx], |variables|, k)[j];
        groups[k][j].values == [v] && groups[k][j].value == BinaryOfWidth(v, |variables|)
      ensures |next| == |groups|
      ensures forall k :: 0 <= k < |next| ==> |next[k]| == |WithOnes(allValues[..idx + 1], |variables|, k)|
      ensures forall k, j :: 0 <= k < |next| && 0 <= j < |next[k]| ==>
        var v := WithOnes(allValues[..idx + 1], |variables|, k)[j];
        next[k][j].values == [v] && next[k][j].value == BinaryOfWidth(v, |variables|)
      ensures fresh(m) && !m.used
      ensures forall k :: 0 <= k < |next| ==> next[k] == groups[k] || next[k] == groups[k] + [m]
    {
      var n := |variables|;
      var value := allValues[idx];
      assert value in allValues;
      var count := 0;
      var bits := GetBits(value);
      for j := 0 to |bits|
        invariant count == CountBelow(bits, '1', j)
      {
        if bits[j] == '1' {
          count := count + 1;
        }
      }
      OnesOfWidth(value, n);
      var minterm := new Minterm([value], bits);
      m := minterm;
      assert allValues[..idx + 1][..idx] == allValues[..idx];
      next := groups[count := groups[count] + [minterm]];
    }

    /** `getPrimeImplicants()`: the search started from the initial grouping. */
    method GetPrimeImplicants() returns (primes: seq<Minterm>)
      requires Valid()
      ensures forall t :: t in primes ==> fresh(t) && !t.used
      ensures |variables| >= 1 ==> NoEqualPair(primes)
      ensures forall v :: v in allValues ==> CoveredBy(v, primes)
      ensures forall t, v :: t in primes && v in t.values ==> v in allValues
      ensures forall t :: t in primes ==> WellFormed(t, Width())
      ensures |variables| >= 1 ==> forall t :: t in primes ==> Exact(t, |variables|)
      ensures |variables| >= 1 ==> forall t :: t in primes ==> IsPrimeImplicant(t.value, allValues, |variables|)
      ensures |variables| >= 1 ==> forall p :: IsPrimeImplicant(p, allValues, |variables|) ==>
        exists t :: t in primes && t.value == p
    {
      var groups := InitialGroup();
      InitialGroupFacts(groups, allValues, |variables|);
      if |variables| >= 1 {
        InitialRound(groups, allValues, |variables|);
      }
      assert forall u :: u in TermsOf(groups) ==> fresh(u) && !u.used;
      primes := PrimeImplicantsFrom(groups, 0);
      forall t, v | t in primes && v in t.values
        ensures v in allValues
      {
        assert CoveredByGroups(v, groups);
        var k :| 0 <= k < |groups| && CoveredBy(v, groups[k]);
        var j :| 0 <= j < |groups[k]| && v in groups[k][j].values;
        assert groups[k][j] in groups[k];
      }
    }


    /**
     * One round of adjacent-bucket merging followed by the recursive call on
     * the next round's buckets (one fewer than this round's). The result
     * holds, once each, the Minterms of every round that were never merged;
     * none of this round's survivors combines with a term of a bucket next
     * to its own.
     */
    method PrimeImplicantsFrom(groups: seq<seq<Minterm>>, ghost r: nat) returns (unused: seq<Minterm>)
      requires |groups| >= 1
      requires forall t :: t in TermsOf(groups) ==> !t.used
      requires |variables| >= 1 ==>
        RoundShape(groups, |variables|, r) && ListedRound(groups, allValues) && CompleteRound(groups, allValues, |variables|, r)
      modifies TermsOf(groups)
      decreases |groups|
      ensures |groups| == 1 ==> unused == groups[0]
      ensures |groups| >= 2 ==> NoEqualPair(unused)
      ensures forall u :: u in unused ==> !u.used
      ensures forall u :: u in unused ==> u in TermsOf(groups) || fresh(u)
      ensures forall k, t, v :: 0 <= k < |groups| && t in groups[k] && v in t.values ==> CoveredBy(v, unused)
      ensures forall u, v :: u in unused && v in u.values ==> CoveredByGroups(v, groups)
      ensures (forall k, t :: 0 <= k < |groups| && t in groups[k] ==> WellFormed(t, Width()))
        ==> forall u :: u in unused ==> WellFormed(u, Width())
      ensures forall k, u :: 0 <= k < |groups| && u in groups[k] && u in unused ==> !HasPartner(groups, u)
      ensures |variables| >= 1 ==> forall u :: u in unused ==> Exact(u, |variables|)
      ensures |variables| >= 1 ==> forall u :: u in unused ==> IsPrimeImplicant(u.value, allValues, |variables|)
      ensures |variables| >= 1 ==> forall p :: IsPrimeImplicant(p, allValues, |variables|) && Dashes(p) >= r ==>
        exists u :: u in unused && u.value == p
    {
      if |groups| == 1 {
        unused := groups[0];
        forall u, v | u in unused && v in u.values
          ensures CoveredByGroups(v, groups)
        {
          var i :| 0 <= i < |unused| && unused[i] == u;
          assert CoveredBy(v, groups[0]);
        }
        forall t, v | t in groups[0] && v in t.values
          ensures CoveredBy(v, unused)
        {
          var i :| 0 <= i < |unused| && unused[i] == t;
        }
        if |variables| >= 1 {
          LastRound(groups, allValues, |variables|, r);
        }
        return;
      }
      var newGroups := MergeAdjacent(groups);
      MergedBucketsSound(groups, newGroups, Width());
      if |variables| >= 1 {
        NextRoundShape(groups, newGroups, allValues, |variables|, r);
        CompleteNext(groups, newGroups, allValues, |variables|, r);
      }
      forall t | t in TermsOf(groups)
        ensures t.used <==> HasPartner(groups, t)
      {
        MarkedMeansPartner(groups, t);
      }
      UsedTermsMerged(groups, newGroups);

      unused := CollectUnused(groups);
      ghost var collected := unused;
      var rest := PrimeImplicantsFrom(newGroups, r + 1);
      unused := AddUnused(unused, rest);
      PrefixKeeps(collected, unused);
      if |variables| >= 1 {
        RoundResult(groups, collected, rest, unused, allValues, |variables|, r);
      }
      ResultCovers(groups, newGroups, rest, unused);
      ResultSound(groups, newGroups, rest, unused, Width());
      forall k, u | 0 <= k < |groups| && u in groups[k] && u in unused
        ensures !HasPartner(groups, u)
      {
        BucketInTerms(groups, k);
      }
    }

    /**
     * Every value of a term of the round is covered by the result: unused
     * terms through an equal result element, merged terms through the
     * recursive call's cover of the next round.
     */
    static lemma ResultCovers(groups: seq<seq<Minterm>>, newGroups: seq<seq<Minterm>>,
                              rest: seq<Minterm>, unused: seq<Minterm>)
      requires forall k, t :: 0 <= k < |groups| && t in groups[k] && !t.used ==> ContainsEqual(unused, t)
      requires forall k, t, v :: 0 <= k < |groups| && t in groups[k] && t.used && v in t.values ==>
        CoveredByGroups(v, newGroups)
      requires forall k, t, v :: 0 <= k < |newGroups| && t in newGroups[k] && v in t.values ==> CoveredBy(v, rest)
      requires forall t :: t in rest ==> ContainsEqual(unused, t)
      ensures forall k, t, v :: 0 <= k < |groups| && t in groups[k] && v in t.values ==> CoveredBy(v, unused)
    {
      forall k, t, v | 0 <= k < |groups| && t in groups[k] && v in t.values
        ensures CoveredBy(v, unused)
      {
        if t.used {
          assert CoveredByGroups(v, newGroups);
          var k' :| 0 <= k' < |newGroups| && CoveredBy(v, newGroups[k']);
          var i :| 0 <= i < |newGroups[k']| && v in newGroups[k'][i].values;
          assert newGroups[k'][i] in newGroups[k'];
          assert CoveredBy(v, rest);
          var j :| 0 <= j < |rest| && v in rest[j].values;
          ContainsEqualCovers(unused, rest[j], v);
        } else {
          ContainsEqualCovers(unused, t, v);
        }
      }
    }

    /**
     * `solve()`: the prime implicants, then the essential pass over the
     * required values with `valuesUsed` flags, then (unless every flag is
     * set) the subset search over the unflagged values.
     */
    method Solve() returns (solution: seq<Minterm>, ghost primes: seq<Minterm>)
      requires Valid()
      ensures forall t :: t in primes ==> fresh(t) && !t.used && WellFormed(t, Width())
      ensures forall v :: v in allValues ==> CoveredBy(v, primes)
      ensures forall t, v :: t in primes && v in t.values ==> v in allValues
      ensures |variables| >= 1 ==> NoEqualPair(primes)
      ensures |variables| >= 1 ==> forall t :: t in primes ==> Exact(t, |variables|)
      ensures |variables| >= 1 ==> forall t :: t in primes ==> IsPrimeImplicant(t.value, allValues, |variables|)
      ensures |variables| >= 1 ==> forall p :: IsPrimeImplicant(p, allValues, |variables|) ==>
        exists t :: t in primes && t.value == p
      ensures solution == Solution(values, dontCares, primes)
      ensures forall t :: t in solution ==> t in primes
      ensures Distinct(values) ==> forall v :: v in values ==> CoveredBy(v, solution)
    {
      var primeImplicants := GetPrimeImplicants();
      primes := primeImplicants;
      var essentials, valuesUsed := EssentialLoop(primeImplicants);
      SolutionFromPrimes(values, dontCares, primes);
      if Distinct(values) {
        SolutionCovers(values, dontCares, primes);
      }
      if forall k :: 0 <= k < valuesUsed.Length ==> valuesUsed[k] {
        assert forall k :: 0 <= k < |values| ==> valuesUsed[..][k];
        solution := essentials;
        return;
      }
      var remaining := Unflagged(values, valuesUsed[..]);
      var remainingImplicants := Candidates(primeImplicants, remaining);
      var additional := PowerSet(remaining, remainingImplicants);
      solution := essentials + additional;
    }

    /**
     * Lines 238-264: each required value listed by exactly one implicant
     * makes that implicant essential, once, and flags the values it lists.
     */
    method EssentialLoop(primeImplicants: seq<Minterm>) returns (essentials: seq<Minterm>, valuesUsed: array<bool>)
      ensures fresh(valuesUsed) && valuesUsed.Length == |values|
      ensures Pass(essentials, valuesUsed[..]) == EssentialPass(values, dontCares, primeImplicants, |values|)
    {
      essentials := [];
      valuesUsed := new bool[|values|](_ => false);
      assert valuesUsed[..] == seq(|values|, _ => false);
      for i := 0 to |values|
        invariant valuesUsed.Length == |values|
        invariant EssentialPass(values, dontCares, primeImplicants, i) == Pass(essentials, valuesUsed[..])
      {
        var value := values[i];
        var uses, last := CountUses(value, primeImplicants);
        if uses == 1 && last.Some? && !ContainsEqual(essentials, last.value) {
          MarkValues(valuesUsed, last.value.values);
          essentials := essentials + [last.value];
        }
      }
    }

    /** Lines 245-252: how many implicants list `value`, and the last of them. */
    static method CountUses(value: nat, primes: seq<Minterm>) returns (uses: nat, last: Option<Minterm>)
      ensures uses == Uses(value, primes) && last == LastCovering(value, primes)
    {
      uses := 0;
      last := None;
      for j := 0 to |primes|
        invariant uses == Uses(value, primes[..j]) && last == LastCovering(value, primes[..j])
      {
        assert primes[..j + 1][..j] == primes[..j];
        if value in primes[j].values {
          uses := uses + 1;
          last := Some(primes[j]);
        }
      }
      assert primes[..|primes|] == primes;
    }

    /** Lines 256-261: flags the first position of each listed value that is not a don't-care. */
    method MarkValues(valuesUsed: array<bool>, vs: seq<nat>)
      requires valuesUsed.Length == |values|
      modifies valuesUsed
      ensures valuesUsed[..] == MarkAll(old(valuesUsed[..]), vs, values, dontCares)
    {
      for j := 0 to |vs|
        invariant valuesUsed[..] == MarkAll(old(valuesUsed[..]), vs[..j], values, dontCares)
      {
        assert vs[..j + 1][..j] == vs[..j];
        var v := vs[j];
        if v !in dontCares {
          var idx := IndexOf(values, v);
          if idx != -1 {
            valuesUsed[idx] := true;
          }
        }
      }
      assert vs[..|vs|] == vs;
    }

    /**
     * `powerSet(values, primeImplicants)`: every subset by mask from 1 to
     * `2^k - 2`, those whose gathered values match `values`, and the first
     * of least size among them, or `[]`.
     */
    static method PowerSet(values: seq<nat>, primeImplicants: seq<Minterm>) returns (minSet: seq<Minterm>)
      ensures minSet == FirstMinimalCover(values, primeImplicants)
    {
      var powerset := AllSubsets(primeImplicants);
      powerset := CoveringSubsets(powerset, values);
      minSet := SmallestSubset(powerset);
    }

    /** Lines 95-114: the subsets of masks 1 to `2^k - 2`, in mask order. */
    static method AllSubsets(primeImplicants: seq<Minterm>) returns (powerset: seq<seq<Minterm>>)
      ensures powerset == Masks(primeImplicants)
    {
      var k := |primeImplicants|;
      powerset := [];
      var i := 1;
      while i < Pow2(k) - 1
        invariant 1 <= i && (i <= Pow2(k) - 1 || i == 1)
        invariant |powerset| == i - 1
        invariant forall q :: 0 <= q < i - 1 ==> powerset[q] == SubsetAt(primeImplicants, q + 1)
      {
        var currentset := SubsetFor(i, primeImplicants);
        powerset := powerset + [currentset];
        i := i + 1;
      }
      forall q | 0 <= q < |powerset|
        ensures powerset[q] == Masks(primeImplicants)[q]
      {
        MaskAt(primeImplicants, q);
      }
    }

    /** Lines 117-137: the subsets whose gathered values match `values`, in order. */
    static method CoveringSubsets(powerset: seq<seq<Minterm>>, values: seq<nat>) returns (newpowerset: seq<seq<Minterm>>)
      ensures newpowerset == KeepIf(powerset, AcceptTest(values))
    {
      newpowerset := [];
      for idx := 0 to |powerset|
        invariant newpowerset == KeepIf(powerset[..idx], AcceptTest(values))
      {
        assert powerset[..idx + 1][..idx] == powerset[..idx];
        var subset := powerset[idx];
        var tempValues := GatherCovered(subset, values);
        if |tempValues| == |values|
          && (forall j :: 0 <= j < |tempValues| ==> tempValues[j] in values)
          && (forall j :: 0 <= j < |values| ==> values[j] in tempValues)
        {
          newpowerset := newpowerset + [subset];
        }
      }
      assert powerset[..|powerset|] == powerset;
    }

    /** Lines 140-150: the first subset of least size, or `[]` when there is none. */
    static method SmallestSubset(powerset: seq<seq<Minterm>>) returns (minSet: seq<Minterm>)
      ensures minSet == MinFirst(powerset)
    {
      if |powerset| == 0 {
        return [];
      }
      minSet := powerset[0];
      for idx := 0 to |powerset|
        invariant minSet == MinFirst(powerset[..if idx == 0 then 1 else idx])
      {
        assert powerset[..idx + 1][..idx] == powerset[..idx];
        if |powerset[idx]| < |minSet| {
          minSet := powerset[idx];
        }
      }
      assert powerset[..|powerset|] == powerset;
    }

    /** Lines 99-112: the candidates at the '1' digits of mask `i` written with `k` digits. */
    static method SubsetFor(i: nat, cands: seq<Minterm>) returns (currentset: seq<Minterm>)
      requires 1 <= i < Pow2(|cands|)
      ensures currentset == SubsetAt(cands, i)
    {
      var binValue := PadBinary(i, |cands|);
      BinaryOfWidthSpec(i, |cands|);
      currentset := [];
      for j := 0 to |binValue|
        invariant currentset == Pick(cands[..j], binValue[..j])
      {
        PickStep(cands, binValue, j);
        if binValue[j] == '1' {
          currentset := currentset + [cands[j]];
        }
      }
      assert cands[..|cands|] == cands && binValue[..|binValue|] == binValue;
    }

    /** Lines 121-131: the required values the subset lists, each once, in order of discovery. */
    static method GatherCovered(subset: seq<Minterm>, values: seq<nat>) returns (tempValues: seq<nat>)
      ensures tempValues == Gathered(subset, values)
    {
      tempValues := [];
      for a := 0 to |subset|
        invariant tempValues == Gathered(subset[..a], values)
      {
        assert subset[..a + 1][..a] == subset[..a];
        var vs := subset[a].GetValues();
        ghost var before := tempValues;
        for b := 0 to |vs|
          invariant tempValues == GatherValues(before, vs[..b], values)
        {
          assert vs[..b + 1][..b] == vs[..b];
          var value := vs[b];
          if value !in tempValues && value in values {
            tempValues := tempValues + [value];
          }
        }
        assert vs[..|vs|] == vs;
      }
      assert subset[..|subset|] == subset;
    }

    /** Lines 299-331 after the memo check: the rendering of a solution. */
    method RenderSolution(solution: seq<Minterm>) returns (f: string)
      ensures f == Expression(solution, variables)
    {
      if |solution| == 0 {
        return "0";
      }
      var result: seq<string> := [];
      for i := 0 to |solution|
        invariant result == Products(solution[..i], variables)
      {
        assert solution[..i + 1][..i] == solution[..i];
        var pattern := solution[i].GetValue();
        var implicantResult: seq<string> := [];
        for j := 0 to |pattern|
          invariant implicantResult == LiteralsBelow(pattern, variables, j)
        {
          var bit := pattern[j];
          if bit == '1' {
            implicantResult := implicantResult + [JoinName(variables, j)];
          } else if bit == '0' {
            implicantResult := implicantResult + ["¬" + TemplateName(variables, j)];
          }
        }
        if |implicantResult| > 0 {
          result := result + [Join(implicantResult, "⋀")];
        }
      }
      assert solution[..|solution|] == solution;
      f := if |result| > 0 then Join(result, " ⋁ ") else "1";
    }

    /**
     * `getFunction()`: the stored expression when there is one, otherwise
     * the rendering of a freshly solved cover.
     */
    method GetFunction() returns (f: string, ghost solution: seq<Minterm>, ghost primes: seq<Minterm>)
      requires Valid()
      ensures func.Some? ==> f == func.value
      ensures func.None? ==> f == Expression(solution, variables)
      ensures func.None? ==> solution == Solution(values, dontCares, primes)
      ensures func.None? ==> forall t :: t in solution ==> t in primes && WellFormed(t, Width())
      ensures func.None? && Distinct(values) ==> forall v :: v in values ==> CoveredBy(v, solution)
      ensures func.None? ==> forall t :: t in primes ==> fresh(t) && !t.used && WellFormed(t, Width())
      ensures func.None? ==> forall v :: v in allValues ==> CoveredBy(v, primes)
      ensures func.None? ==> forall t, v :: t in primes && v in t.values ==> v in allValues
      ensures func.None? && |variables| >= 1 ==> NoEqualPair(primes)
      ensures func.None? && |variables| >= 1 ==> forall t :: t in primes ==> Exact(t, |variables|)
      ensures func.None? && |variables| >= 1 ==> forall t :: t in primes ==> IsPrimeImplicant(t.value, allValues, |variables|)
      ensures func.None? && |variables| >= 1 ==> forall p :: IsPrimeImplicant(p, allValues, |variables|) ==>
        exists t :: t in primes && t.value == p
    {
      if func.Some? {
        return func.value, [], [];
      }
      var s;
      s, primes := Solve();
      solution := s;
      f := RenderSolution(s);
    }

    /** `preprocessVariables`: each name with its first `⊕` and then its first `≡` expanded. */
    static method PreprocessVariables(variables: seq<string>) returns (names: seq<string>)
      ensures |names| == |variables|
      ensures forall i :: 0 <= i < |names| ==> names[i] == ExpandOperators(variables[i])
    {
      names := variables;
      for i := 0 to |names|
        invariant |names| == |variables|
        invariant forall k :: 0 <= k < i ==> names[k] == ExpandOperators(variables[k])
        invariant forall k :: i <= k < |names| ==> names[k] == variables[k]
      {
        var name := names[i];
        if '⊕' in name {
          name := ReplaceFirst(name, '⊕', XorText);
        }
        if '≡' in name {
          name := ReplaceFirst(name, '≡', XnorText);
        }
        names := names[i := name];
      }
    }
  }

  /**
   * A term of a round that was marked while no term was marked before has a
   * partner, and that partner's merge sits in the next round.
   */
  lemma UsedTermsMerged(groups: seq<seq<Minterm>>, newGroups: seq<seq<Minterm>>)
    requires |newGroups| == |groups| - 1
    requires forall k, t :: 0 <= k < |groups| && t in groups[k] && t.used ==> HasPartner(groups, t)
    requires forall k :: 0 <= k < |newGroups| ==> MergedBucket(groups[k], groups[k + 1], newGroups[k])
    ensures forall k, t, v :: 0 <= k < |groups| && t in groups[k] && t.used && v in t.values ==>
      CoveredByGroups(v, newGroups)
  {
    forall k, t, v | 0 <= k < |groups| && t in groups[k] && t.used && v in t.values
      ensures CoveredByGroups(v, newGroups)
    {
      PartnerMergeCovers(groups, newGroups, t, v);
    }
  }

  /**
   * Lines 180-203: every term of each bucket against every term of the next;
   * the merges of bucket `k` and `k + 1` go, without equal duplicates, to
   * bucket `k` of the next round. A term ends up used exactly when it was
   * used before or has a partner in an adjacent bucket.
   */
  method MergeAdjacent(groups: seq<seq<Minterm>>) returns (newGroups: seq<seq<Minterm>>)
    requires |groups| >= 1
    modifies TermsOf(groups)
    ensures |newGroups| == |groups| - 1
    ensures forall u :: u in TermsOf(newGroups) ==> fresh(u) && !u.used && u !in TermsOf(groups)
    ensures forall k :: 0 <= k < |newGroups| ==> MergedBucket(groups[k], groups[k + 1], newGroups[k])
    ensures forall t :: t in TermsOf(groups) ==> (t.used <==> old(t.used) || t in MarkedBy(groups))
  {
    newGroups := seq(|groups| - 1, _ => []);
    for compare := 0 to |groups| - 1
      invariant |newGroups| == |groups| - 1
      invariant forall k :: compare <= k < |newGroups| ==> newGroups[k] == []
      invariant forall u :: u in TermsOf(newGroups) ==> fresh(u) && !u.used && u !in TermsOf(groups)
      invariant forall k :: 0 <= k < compare ==> MergedBucket(groups[k], groups[k + 1], newGroups[k])
      invariant forall t :: t in TermsOf(groups) ==> (t.used <==> old(t.used) || t in MarkedBy(groups[..compare + 1]))
    {
      MarkedGrow(groups, compare);
      newGroups := MergeStep(groups, compare, newGroups);
    }
    assert groups[..|groups|] == groups;
  }

  /**
   * Lines 180-203, one pass of the comparison loop: bucket `compare` of the
   * next round, still empty, receives the merges of buckets `compare` and
   * `compare + 1`.
   */
  method MergeStep(groups: seq<seq<Minterm>>, compare: nat, newGroups: seq<seq<Minterm>>) returns (next: seq<seq<Minterm>>)
    requires compare + 1 < |groups| && |newGroups| == |groups| - 1
    requires newGroups[compare] == []
    requires forall u :: u in TermsOf(newGroups) ==> !u.used && u !in TermsOf(groups)
    modifies TermsOf(groups)
    ensures |next| == |newGroups| && next == newGroups[compare := next[compare]]
    ensures forall u :: u in TermsOf(next) ==> (u in TermsOf(newGroups) || fresh(u)) && !u.used && u !in TermsOf(groups)
    ensures MergedBucket(groups[compare], groups[compare + 1], next[compare])
    ensures forall t :: t in TermsOf(groups) ==>
      (t.used <==> old(t.used) || t in PartnersIn(groups[compare], groups[compare + 1]))
  {
    BucketInTerms(groups, compare);
    BucketInTerms(groups, compare + 1);
    var merged := MergeBuckets(groups[compare], groups[compare + 1]);
    TermsOfFill(newGroups, compare, merged);
    next := newGroups[compare := merged];
  }

  /**
   * Lines 185-202: every term of `group1` against the terms of `group2`,
   * filling the next round's bucket, which starts empty.
   */
  method MergeBuckets(group1: seq<Minterm>, group2: seq<Minterm>) returns (out: seq<Minterm>)
    modifies group1, group2
    ensures forall u :: u in out ==> fresh(u)
    ensures forall u :: u in out ==> !u.used
    ensures MergedBucket(group1, group2, out)
    ensures forall t :: t in group1 || t in group2 ==> (t.used <==> old(t.used) || t in PartnersIn(group1, group2))
  {
    out := [];
    for a := 0 to |group1|
      invariant NoEqualPair(out)
      invariant forall i :: 0 <= i < |out| ==> fresh(out[i])
      invariant forall i :: 0 <= i < |out| ==> !out[i].used
      invariant forall i :: 0 <= i < |out| ==> IsMergeAcross(out[i], group1, group2)
      invariant forall i, t2 :: 0 <= i < a && t2 in group2 && Combinable(group1[i], t2) ==> HoldsMerge(out, group1[i], t2)
      invariant forall t :: t in group1 || t in group2 ==> (t.used <==> old(t.used) || t in PartnersIn(group1[..a], group2))
    {
      var term1 := group1[a];
      PartnersGrow(group1, a, group2);
      ghost var previous := out;
      out := MergeWith(term1, group2, out);
      HoldsMergeGrow(group1, group2, a, previous, out);
      MergeAcrossGrow(group1, group2, a, previous, out);
    }
    assert group1[..|group1|] == group1;
  }

  /** Lines 186-201: `term1` against every term of `group2`. */
  method MergeWith(term1: Minterm, group2: seq<Minterm>, bucket: seq<Minterm>) returns (out: seq<Minterm>)
    requires NoEqualPair(bucket)
    modifies term1, group2
    ensures |bucket| <= |out| && forall i :: 0 <= i < |bucket| ==> out[i] == bucket[i]
    ensures NoEqualPair(out)
    ensures forall i :: |bucket| <= i < |out| ==> fresh(out[i])
    ensures forall i :: |bucket| <= i < |out| ==> !out[i].used
    ensures forall i :: |bucket| <= i < |out| ==> IsMergeAcross(out[i], [term1], group2)
    ensures forall t2 :: t2 in group2 && Combinable(term1, t2) ==> HoldsMerge(out, term1, t2)
    ensures forall t :: t == term1 || t in group2 ==> (t.used <==> old(t.used) || t in PartnersIn([term1], group2))
  {
    out := bucket;
    ghost var created: set<Minterm> := {};
    for b := 0 to |group2|
      invariant |bucket| <= |out| && forall i :: 0 <= i < |bucket| ==> out[i] == bucket[i]
      invariant NoEqualPair(out)
      invariant forall u :: u in created ==> fresh(u) && !u.used && u != term1 && u !in group2
      invariant forall i :: |bucket| <= i < |out| ==> out[i] in created && IsMergeAcross(out[i], [term1], group2)
      invariant forall j :: 0 <= j < b && Combinable(term1, group2[j]) ==> HoldsMerge(out, term1, group2[j])
      invariant forall t :: t == term1 || t in group2 ==> (t.used <==> old(t.used) || t in PartnersIn([term1], group2[..b]))
    {
      var term2 := group2[b];
      PartnersOfOneGrow(term1, group2, b);
      ghost var previous := out;
      out := CombineInto(term1, term2, out);
      if |out| > |previous| {
        created := created + {out[|previous|]};
        assert IsMergeAcross(out[|previous|], [term1], group2) by {
          assert term1 in [term1] && term2 in group2;
        }
      }
      forall i | |bucket| <= i < |out|
        ensures out[i] in created && IsMergeAcross(out[i], [term1], group2)
      {
        if i < |previous| {
          assert out[i] == previous[i];
        }
      }
      HoldsMergeStep(term1, group2, b, previous, out);
    }
    assert group2[..|group2|] == group2;
  }

  /**
   * Lines 189-200: one attempt to combine two terms; on success both are
   * marked and the merge is pushed unless an equal Minterm is already there.
   */
  method CombineInto(term1: Minterm, term2: Minterm, bucket: seq<Minterm>) returns (out: seq<Minterm>)
    requires NoEqualPair(bucket)
    modifies term1, term2
    ensures term1.used == (old(term1.used) || Combinable(term1, term2))
    ensures term2.used == (old(term2.used) || Combinable(term1, term2))
    ensures |bucket| <= |out| <= |bucket| + 1 && forall i :: 0 <= i < |bucket| ==> out[i] == bucket[i]
    ensures NoEqualPair(out)
    ensures |out| > |bucket| ==> fresh(out[|bucket|])
    ensures |out| > |bucket| ==> !out[|bucket|].used
    ensures |out| > |bucket| ==> Combinable(term1, term2) && MergeOf(out[|bucket|], term1, term2)
    ensures Combinable(term1, term2) ==> HoldsMerge(out, term1, term2)
  {
    out := bucket;
    var term3 := term1.Combine(term2);
    if term3 != null {
      term1.Use();
      term2.Use();
      if !ContainsEqual(out, term3) {
        NoEqualPairAppend(out, term3);
        out := out + [term3];
      }
      var i :| 0 <= i < |out| && out[i].Equals(term3);
      assert out[i] in out && MergeOf(out[i], term1, term2);
    }
  }

  /** Lines 205-212: the unused terms of every bucket, once each. */
  method CollectUnused(groups: seq<seq<Minterm>>) returns (unused: seq<Minterm>)
    ensures forall u :: u in unused ==> u in TermsOf(groups) && !u.used
    ensures NoEqualPair(unused)
    ensures forall k, t :: 0 <= k < |groups| && t in groups[k] && !t.used ==> ContainsEqual(unused, t)
  {
    unused := [];
    for k := 0 to |groups|
      invariant forall u :: u in unused ==> u in TermsOf(groups) && !u.used
      invariant NoEqualPair(unused)
      invariant forall k', t :: 0 <= k' < k && t in groups[k'] && !t.used ==> ContainsEqual(unused, t)
    {
      ghost var previous := unused;
      BucketInTerms(groups, k);
      unused := AddUnused(unused, groups[k]);
      PrefixKeeps(previous, unused);
    }
  }

  /**
   * Lines 207-211 and 215-219: appends each unused term that has no equal
   * in the list yet.
   */
  method AddUnused(list: seq<Minterm>, terms: seq<Minterm>) returns (out: seq<Minterm>)
    ensures |list| <= |out| && forall i :: 0 <= i < |list| ==> out[i] == list[i]
    ensures forall i :: |list| <= i < |out| ==> out[i] in terms && !out[i].used
    ensures forall u :: u in out ==> u in list || u in terms
    ensures forall t :: t in terms && !t.used ==> ContainsEqual(out, t)
    ensures NoEqualPair(list) ==> NoEqualPair(out)
  {
    out := list;
    for j := 0 to |terms|
      invariant |list| <= |out| && forall i :: 0 <= i < |list| ==> out[i] == list[i]
      invariant forall i :: |list| <= i < |out| ==> out[i] in terms && !out[i].used
      invariant forall u :: u in out ==> u in list || u in terms
      invariant forall j' :: 0 <= j' < j && !terms[j'].used ==> ContainsEqual(out, terms[j'])
      invariant NoEqualPair(list) ==> NoEqualPair(out)
    {
      var term := terms[j];
      if !term.IsUsed() && !ContainsEqual(out, term) {
        if NoEqualPair(list) {
          NoEqualPairAppend(out, term);
        }
        ghost var previous := out;
        out := out + [term];
        PrefixKeeps(previous, out);
        EqualsIsReflexiveAndSymmetric(term, term);
        assert out[|out| - 1].Equals(term);
      }
    }
  }
}
