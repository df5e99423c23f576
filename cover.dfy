/**
 * The covering step of the tabulation engine (`solve` and `powerSet`):
 * essential prime implicants first, then an exhaustive search over subsets of
 * the implicants that still matter for the values left uncovered.
 */
module Cover {
  import opened Wrappers
  import opened Strings
  import opened Binary
  import opened Minterms
  import opened Terms

  // ---------------------------------------------------------------------
  // Essential prime implicants
  // ---------------------------------------------------------------------

  /** How many implicants list `v` among their values (the `uses` counter). */
  function Uses(v: nat, primes: seq<Minterm>): nat
    decreases |primes|
  {
    if |primes| == 0 then 0
    else Uses(v, primes[..|primes| - 1]) + (if v in primes[|primes| - 1].values then 1 else 0)
  }

  /** The last implicant listing `v` (the `last` variable), if any. */
  function LastCovering(v: nat, primes: seq<Minterm>): Option<Minterm>
    decreases |primes|
  {
    if |primes| == 0 then None
    else if v in primes[|primes| - 1].values then Some(primes[|primes| - 1])
    else LastCovering(v, primes[..|primes| - 1])
  }

  /**
   * `uses` is zero exactly when no implicant lists `v`; when it is one, the
   * last implicant listing `v` is the only one; from two on there are two
   * positions listing `v`.
   */
  lemma {:induction false} UsesSpec(v: nat, primes: seq<Minterm>)
    ensures Uses(v, primes) == 0 <==> !CoveredBy(v, primes)
    ensures LastCovering(v, primes).Some? <==> CoveredBy(v, primes)
    ensures LastCovering(v, primes).Some? ==>
      LastCovering(v, primes).value in primes && v in LastCovering(v, primes).value.values
    ensures Uses(v, primes) == 1 ==>
      forall j :: 0 <= j < |primes| && v in primes[j].values ==> primes[j] == LastCovering(v, primes).value
    ensures Uses(v, primes) >= 2 ==>
      exists a, b :: 0 <= a < b < |primes| && v in primes[a].values && v in primes[b].values
    decreases |primes|
  {
    if |primes| > 0 {
      var init := primes[..|primes| - 1];
      var last := primes[|primes| - 1];
      UsesSpec(v, init);
      if CoveredBy(v, init) {
        var i :| 0 <= i < |init| && v in init[i].values;
        assert primes[i] == init[i];
      }
      if CoveredBy(v, primes) && v !in last.values {
        var i :| 0 <= i < |primes| && v in primes[i].values;
        assert init[i] == primes[i];
      }
      forall j | 0 <= j < |init| && v in primes[j].values
        ensures v in init[j].values
      {
        assert init[j] == primes[j];
      }
      if Uses(v, primes) >= 2 && v in last.values {
        var i :| 0 <= i < |init| && v in init[i].values;
        assert primes[i] == init[i];
      }
      if Uses(v, primes) >= 2 && v !in last.values {
        var a, b :| 0 <= a < b < |init| && v in init[a].values && v in init[b].values;
        assert primes[a] == init[a] && primes[b] == init[b];
      }
    }
  }

  /** A value listed at one position only is counted once. */
  lemma {:induction false} UsesOnce(v: nat, primes: seq<Minterm>, a: nat)
    requires a < |primes| && v in primes[a].values
    requires forall j :: 0 <= j < |primes| && j != a ==> v !in primes[j].values
    ensures Uses(v, primes) == 1
    decreases |primes|
  {
    var init := primes[..|primes| - 1];
    if a < |primes| - 1 {
      UsesOnce(v, init, a);
    } else {
      UsesSpec(v, init);
      forall i | 0 <= i < |init|
        ensures v !in init[i].values
      {
        assert init[i] == primes[i];
      }
    }
  }

  /** `valuesUsed[values.indexOf(v)] = true` for a value that is not a don't-care. */
  function Mark(flags: seq<bool>, v: nat, values: seq<nat>, dontCares: seq<nat>): (r: seq<bool>)
    requires |flags| == |values|
    ensures |r| == |values|
  {
    var idx := IndexOf(values, v);
    if v !in dontCares && idx != -1 then flags[idx := true] else flags
  }

  /** The marking loop over the values of a newly chosen essential implicant. */
  function MarkAll(flags: seq<bool>, vs: seq<nat>, values: seq<nat>, dontCares: seq<nat>): (r: seq<bool>)
    requires |flags| == |values|
    ensures |r| == |values|
    decreases |vs|
  {
    if |vs| == 0 then flags
    else Mark(MarkAll(flags, vs[..|vs| - 1], values, dontCares), vs[|vs| - 1], values, dontCares)
  }

  /**
   * The marking loop sets a flag exactly at the first position of each
   * listed value that is not a don't-care, and clears none.
   */
  lemma {:induction false} MarkAllSpec(flags: seq<bool>, vs: seq<nat>, values: seq<nat>, dontCares: seq<nat>)
    requires |flags| == |values|
    ensures forall i :: 0 <= i < |values| ==>
      (MarkAll(flags, vs, values, dontCares)[i] <==>
        flags[i] || (values[i] in vs && values[i] !in dontCares && IndexOf(values, values[i]) == i))
    decreases |vs|
  {
    if |vs| > 0 {
      var init := vs[..|vs| - 1];
      MarkAllSpec(flags, init, values, dontCares);
      forall i | 0 <= i < |values|
        ensures values[i] in vs <==> values[i] in init || values[i] == vs[|vs| - 1]
      {
        assert vs == init + [vs[|vs| - 1]];
      }
    }
  }

  /** The essential list and the `valuesUsed` flags after a prefix of the values. */
  datatype Pass = Pass(essentials: seq<Minterm>, flags: seq<bool>)

  /**
   * Lines 241-264 over the first `n` values: a value listed by exactly one
   * implicant makes that implicant essential, unless an equal one is already
   * in the list; the new essential's non-don't-care values are flagged.
   */
  function EssentialPass(values: seq<nat>, dontCares: seq<nat>, primes: seq<Minterm>, n: nat): (p: Pass)
    requires n <= |values|
    ensures |p.flags| == |values|
    decreases n
  {
    if n == 0 then Pass([], seq(|values|, _ => false))
    else
      var p := EssentialPass(values, dontCares, primes, n - 1);
      var v := values[n - 1];
      var last := LastCovering(v, primes);
      if Uses(v, primes) == 1 && last.Some? && !ContainsEqual(p.essentials, last.value) then
        Pass(p.essentials + [last.value], MarkAll(p.flags, last.value.values, values, dontCares))
      else p
  }

  /** `e` is the only implicant listing the required value `v`. */
  predicate SoleCover(e: Minterm, v: nat, primes: seq<Minterm>)
  {
    e in primes && v in e.values && Uses(v, primes) == 1
  }

  /**
   * The state after the pass over the first `n` values: no two essentials
   * are equal; each is the sole implicant listing one of those values; every
   * one of those values with a sole implicant is listed by an essential; and
   * a flag is set exactly at the first position of a value that is not a
   * don't-care and is listed by an essential.
   */
  predicate PassFacts(values: seq<nat>, dontCares: seq<nat>, primes: seq<Minterm>, n: nat, p: Pass)
    requires n <= |values| && |p.flags| == |values|
  {
    && NoEqualPair(p.essentials)
    && (forall e :: e in p.essentials ==> exists i :: 0 <= i < n && SoleCover(e, values[i], primes))
    && (forall i :: 0 <= i < n && Uses(values[i], primes) == 1 ==> CoveredBy(values[i], p.essentials))
    && (forall i :: 0 <= i < |values| ==>
          (p.flags[i] <==> values[i] !in dontCares && IndexOf(values, values[i]) == i
                           && CoveredBy(values[i], p.essentials)))
  }

  lemma CoveredByPush(x: nat, list: seq<Minterm>, e: Minterm)
    ensures CoveredBy(x, list + [e]) <==> CoveredBy(x, list) || x in e.values
  {
    var es := list + [e];
    if CoveredBy(x, list) {
      CoveredByAppend(x, list, [e]);
    }
    if x in e.values {
      assert es[|es| - 1] == e;
    }
    if CoveredBy(x, es) {
      var i :| 0 <= i < |es| && x in es[i].values;
      if i < |list| {
        assert es[i] == list[i];
      }
    }
  }

  /** Adding the sole cover `e` of `values[n - 1]` keeps the pass facts. */
  lemma AddEssential(values: seq<nat>, dontCares: seq<nat>, primes: seq<Minterm>, n: nat, p: Pass, e: Minterm)
    requires 1 <= n <= |values| && |p.flags| == |values|
    requires PassFacts(values, dontCares, primes, n - 1, p)
    requires SoleCover(e, values[n - 1], primes) && !ContainsEqual(p.essentials, e)
    ensures PassFacts(values, dontCares, primes, n,
                      Pass(p.essentials + [e], MarkAll(p.flags, e.values, values, dontCares)))
  {
    var es := p.essentials + [e];
    NoEqualPairAppend(p.essentials, e);
    MarkAllSpec(p.flags, e.values, values, dontCares);
    forall x | true
      ensures CoveredBy(x, es) <==> CoveredBy(x, p.essentials) || x in e.values
    {
      CoveredByPush(x, p.essentials, e);
    }
    forall f | f in es
      ensures exists i :: 0 <= i < n && SoleCover(f, values[i], primes)
    {
      if f != e {
        assert f in p.essentials;
      }
    }
  }

  /** One more value keeps the pass facts. */
  lemma EssentialStep(values: seq<nat>, dontCares: seq<nat>, primes: seq<Minterm>, n: nat)
    requires 1 <= n <= |values|
    requires PassFacts(values, dontCares, primes, n - 1, EssentialPass(values, dontCares, primes, n - 1))
    ensures PassFacts(values, dontCares, primes, n, EssentialPass(values, dontCares, primes, n))
  {
    var p := EssentialPass(values, dontCares, primes, n - 1);
    var v := values[n - 1];
    var last := LastCovering(v, primes);
    UsesSpec(v, primes);
    if Uses(v, primes) == 1 && last.Some? && !ContainsEqual(p.essentials, last.value) {
      AddEssential(values, dontCares, primes, n, p, last.value);
    } else if Uses(v, primes) == 1 {
      var i :| 0 <= i < |p.essentials| && p.essentials[i].Equals(last.value);
      assert v in p.essentials[i].values;
    }
  }

  /** The pass facts hold after every prefix of the required values. */
  lemma {:induction false} EssentialPassSpec(values: seq<nat>, dontCares: seq<nat>, primes: seq<Minterm>, n: nat)
    requires n <= |values|
    ensures PassFacts(values, dontCares, primes, n, EssentialPass(values, dontCares, primes, n))
    decreases n
  {
    if n > 0 {
      EssentialPassSpec(values, dontCares, primes, n - 1);
      EssentialStep(values, dontCares, primes, n);
    }
  }

  // ---------------------------------------------------------------------
  // What is left for the subset search
  // ---------------------------------------------------------------------

  /** `values.filter((_, i) => !valuesUsed[i])`. */
  function Unflagged(values: seq<nat>, flags: seq<bool>): (r: seq<nat>)
    requires |flags| == |values|
    decreases |values|
  {
    if |values| == 0 then []
    else
      Unflagged(values[..|values| - 1], flags[..|flags| - 1])
        + (if flags[|flags| - 1] then [] else [values[|values| - 1]])
  }

  /** The unflagged values are those at an unflagged position; distinct input stays distinct. */
  lemma {:induction false} UnflaggedSpec(values: seq<nat>, flags: seq<bool>)
    requires |flags| == |values|
    ensures forall v :: v in Unflagged(values, flags) <==> exists i :: 0 <= i < |values| && !flags[i] && values[i] == v
    ensures Distinct(values) ==> Distinct(Unflagged(values, flags))
    decreases |values|
  {
    if |values| > 0 {
      var n := |values| - 1;
      UnflaggedSpec(values[..n], flags[..n]);
      forall v | v in Unflagged(values, flags)
        ensures exists i :: 0 <= i < |values| && !flags[i] && values[i] == v
      {
        if v in Unflagged(values[..n], flags[..n]) {
          var i :| 0 <= i < n && !flags[..n][i] && values[..n][i] == v;
          assert !flags[i] && values[i] == v;
        }
      }
      forall v | exists i :: 0 <= i < |values| && !flags[i] && values[i] == v
        ensures v in Unflagged(values, flags)
      {
        var i :| 0 <= i < |values| && !flags[i] && values[i] == v;
        if i < n {
          assert !flags[..n][i] && values[..n][i] == v;
        }
      }
      if Distinct(values) {
        assert Distinct(values[..n]);
        if !flags[n] {
          assert values[n] !in Unflagged(values[..n], flags[..n]);
        }
      }
    }
  }

  /** `primeImplicants.filter(p => p.getValues().some(v => remaining.includes(v)))`. */
  function Candidates(primes: seq<Minterm>, remaining: seq<nat>): (r: seq<Minterm>)
    decreases |primes|
  {
    if |primes| == 0 then []
    else
      var last := primes[|primes| - 1];
      Candidates(primes[..|primes| - 1], remaining)
        + (if exists v :: v in last.values && v in remaining then [last] else [])
  }

  /**
   * The candidates are the implicants listing a remaining value, and a
   * remaining value is listed as often among them as among all implicants.
   */
  lemma {:induction false} CandidatesSpec(primes: seq<Minterm>, remaining: seq<nat>, w: nat)
    ensures forall p :: p in Candidates(primes, remaining) ==> p in primes
    ensures w in remaining ==> Uses(w, Candidates(primes, remaining)) == Uses(w, primes)
    decreases |primes|
  {
    if |primes| > 0 {
      var init := primes[..|primes| - 1];
      var last := primes[|primes| - 1];
      CandidatesSpec(init, remaining, w);
      var c := Candidates(init, remaining);
      forall p | p in c
        ensures p in primes
      {
        assert p in init;
      }
      if exists v :: v in last.values && v in remaining {
        assert Candidates(primes, remaining) == c + [last];
        assert (c + [last])[..|c|] == c;
      } else {
        assert Candidates(primes, remaining) == c;
        assert w in remaining ==> Uses(w, primes) == Uses(w, init);
      }
    }
  }

  // ---------------------------------------------------------------------
  // The subset search
  // ---------------------------------------------------------------------

  /** The candidates at the positions where `bits` holds a '1'. */
  function Pick(cands: seq<Minterm>, bits: string): (r: seq<Minterm>)
    requires |bits| == |cands|
    decreases |cands|
  {
    if |cands| == 0 then []
    else
      Pick(cands[..|cands| - 1], bits[..|bits| - 1])
        + (if bits[|bits| - 1] == '1' then [cands[|cands| - 1]] else [])
  }

  /** Picking over one more position appends that candidate when its bit is '1'. */
  lemma PickStep(cands: seq<Minterm>, bits: string, j: nat)
    requires |bits| == |cands| && j < |cands|
    ensures Pick(cands[..j + 1], bits[..j + 1]) == Pick(cands[..j], bits[..j]) + (if bits[j] == '1' then [cands[j]] else [])
  {
    assert cands[..j + 1][..j] == cands[..j];
    assert bits[..j + 1][..j] == bits[..j];
  }

  /** A candidate at a '1' position is picked; nothing else is. */
  lemma {:induction false} PickSpec(cands: seq<Minterm>, bits: string)
    requires |bits| == |cands|
    ensures forall j :: 0 <= j < |bits| && bits[j] == '1' ==> cands[j] in Pick(cands, bits)
    ensures forall t :: t in Pick(cands, bits) ==> exists j :: 0 <= j < |bits| && bits[j] == '1' && cands[j] == t
    decreases |cands|
  {
    if |cands| > 0 {
      var n := |cands| - 1;
      PickSpec(cands[..n], bits[..n]);
      forall j | 0 <= j < n && bits[j] == '1'
        ensures cands[j] in Pick(cands, bits)
      {
        assert bits[..n][j] == '1' && cands[..n][j] == cands[j];
      }
      forall t | t in Pick(cands, bits)
        ensures exists j :: 0 <= j < |bits| && bits[j] == '1' && cands[j] == t
      {
        if t in Pick(cands[..n], bits[..n]) {
          var j :| 0 <= j < n && bits[..n][j] == '1' && cands[..n][j] == t;
          assert bits[j] == '1' && cands[j] == t;
        }
      }
    }
  }

  /** Lines 99-112: the subset selected by mask `i`, its `k`-digit binary text read most significant first. */
  function SubsetAt(cands: seq<Minterm>, i: nat): seq<Minterm>
    requires 1 <= i < Pow2(|cands|)
  {
    BinaryOfWidthSpec(i, |cands|);
    Pick(cands, BinaryOfWidth(i, |cands|))
  }

  /** Appends each value of `vs` that `values` holds and `temp` does not yet hold. */
  function GatherValues(temp: seq<nat>, vs: seq<nat>, values: seq<nat>): seq<nat>
    decreases |vs|
  {
    if |vs| == 0 then temp
    else
      var t := GatherValues(temp, vs[..|vs| - 1], values);
      var v := vs[|vs| - 1];
      if v !in t && v in values then t + [v] else t
  }

  /** Lines 121-128: `tempValues`, the required values the subset lists, once each. */
  function Gathered(subset: seq<Minterm>, values: seq<nat>): seq<nat>
    decreases |subset|
  {
    if |subset| == 0 then []
    else GatherValues(Gathered(subset[..|subset| - 1], values), subset[|subset| - 1].values, values)
  }

  /** Lines 132-135: the gathered values are as many as, and the same as, the required ones. */
  predicate Accepted(subset: seq<Minterm>, values: seq<nat>)
  {
    var temp := Gathered(subset, values);
    && |temp| == |values|
    && (forall j :: 0 <= j < |temp| ==> temp[j] in values)
    && (forall j :: 0 <= j < |values| ==> values[j] in temp)
  }

  lemma {:induction false} GatherValuesSpec(temp: seq<nat>, vs: seq<nat>, values: seq<nat>)
    requires Distinct(temp)
    ensures Distinct(GatherValues(temp, vs, values))
    ensures forall v :: v in GatherValues(temp, vs, values) <==> v in temp || (v in vs && v in values)
    decreases |vs|
  {
    if |vs| > 0 {
      var init := vs[..|vs| - 1];
      GatherValuesSpec(temp, init, values);
      assert vs == init + [vs[|vs| - 1]];
    }
  }

  /** The gathered values are distinct, and are the required values some member of the subset lists. */
  lemma {:induction false} GatheredSpec(subset: seq<Minterm>, values: seq<nat>)
    ensures Distinct(Gathered(subset, values))
    ensures forall v :: v in Gathered(subset, values) <==> v in values && CoveredBy(v, subset)
    decreases |subset|
  {
    if |subset| > 0 {
      var init := subset[..|subset| - 1];
      var last := subset[|subset| - 1];
      GatheredSpec(init, values);
      GatherValuesSpec(Gathered(init, values), last.values, values);
      forall v
        ensures CoveredBy(v, subset) <==> CoveredBy(v, init) || v in last.values
      {
        if CoveredBy(v, init) {
          var i :| 0 <= i < |init| && v in init[i].values;
          assert subset[i] == init[i];
        }
        if CoveredBy(v, subset) {
          var i :| 0 <= i < |subset| && v in subset[i].values;
          if i < |init| {
            assert init[i] == subset[i];
          }
        }
      }
    }
  }

  /**
   * A subset passes the check exactly when the required values have no
   * repeats and every one of them is listed by a member of the subset.
   */
  lemma AcceptedMeans(subset: seq<Minterm>, values: seq<nat>)
    ensures Accepted(subset, values) <==>
      Distinct(values) && forall v :: v in values ==> CoveredBy(v, subset)
  {
    var temp := Gathered(subset, values);
    GatheredSpec(subset, values);
    DistinctCard(temp);
    DistinctCard(values);
    if Accepted(subset, values) {
      forall x
        ensures x in temp <==> x in values
      {
        if x in temp {
          var j :| 0 <= j < |temp| && temp[j] == x;
        }
        if x in values {
          var j :| 0 <= j < |values| && values[j] == x;
        }
      }
      assert (set x: nat | x in temp) == (set x: nat | x in values);
      assert Distinct(values);
    }
    if Distinct(values) && forall v :: v in values ==> CoveredBy(v, subset) {
      forall x
        ensures x in temp <==> x in values
      {
      }
      assert (set x: nat | x in temp) == (set x: nat | x in values);
      assert |temp| == |values|;
      forall j | 0 <= j < |values|
        ensures values[j] in temp
      {
        assert values[j] in values;
      }
      assert Accepted(subset, values);
    }
  }

  /** Lines 98-114: every subset in mask order, masks 1 to `2^k - 2`. */
  function Masks(cands: seq<Minterm>): (r: seq<seq<Minterm>>)
    ensures |r| == if Pow2(|cands|) >= 2 then Pow2(|cands|) - 2 else 0
  {
    var n := if Pow2(|cands|) >= 2 then Pow2(|cands|) - 2 else 0;
    seq(n, q requires 0 <= q < n => SubsetAt(cands, q + 1))
  }

  /** Position `q` of the list holds the subset of mask `q + 1`. */
  lemma MaskAt(cands: seq<Minterm>, q: nat)
    requires q < |Masks(cands)|
    ensures 1 <= q + 1 < Pow2(|cands|) - 1 && Masks(cands)[q] == SubsetAt(cands, q + 1)
  {
  }

  /** Lines 117-137: the elements that pass the test `ok`, in order. */
  function KeepIf<T>(list: seq<T>, ok: T -> bool): seq<T>
    decreases |list|
  {
    if |list| == 0 then []
    else KeepIf(list[..|list| - 1], ok) + (if ok(list[|list| - 1]) then [list[|list| - 1]] else [])
  }

  /** Lines 140-150: the first list of least size, or `[]` for none. */
  function MinFirst<T>(list: seq<seq<T>>): seq<T>
    decreases |list|
  {
    if |list| == 0 then []
    else if |list| == 1 then list[0]
    else
      var best := MinFirst(list[..|list| - 1]);
      if |list[|list| - 1]| < |best| then list[|list| - 1] else best
  }

  /** The check of lines 121-139 as a test on subsets. */
  function AcceptTest(values: seq<nat>): seq<Minterm> -> bool
  {
    subset => Accepted(subset, values)
  }

  /** `powerSet(values, cands)`: the first smallest accepted subset, or `[]`. */
  function FirstMinimalCover(values: seq<nat>, cands: seq<Minterm>): seq<Minterm>
  {
    MinFirst(KeepIf(Masks(cands), AcceptTest(values)))
  }

  /**
   * `r` is `list[q]`, an element passing `ok` that is no larger than any
   * passing one and strictly smaller than every passing one before `q`.
   */
  predicate FirstMinAt<T(==)>(list: seq<seq<T>>, ok: seq<T> -> bool, r: seq<T>, q: nat)
  {
    && q < |list| && ok(list[q]) && r == list[q]
    && (forall q' :: 0 <= q' < |list| && ok(list[q']) ==> |r| <= |list[q']|)
    && (forall q' :: 0 <= q' < q && ok(list[q']) ==> |r| < |list[q']|)
  }

  /** The filter is empty exactly when no element passes. */
  lemma {:induction false} KeepIfEmpty<T>(list: seq<T>, ok: T -> bool)
    ensures KeepIf(list, ok) == [] <==> forall q :: 0 <= q < |list| ==> !ok(list[q])
    decreases |list|
  {
    if |list| > 0 {
      var init := list[..|list| - 1];
      KeepIfEmpty(init, ok);
      assert forall q :: 0 <= q < |init| ==> init[q] == list[q];
    }
  }

  /** A first smallest element of a prefix stays one when the next element is no smaller or fails. */
  lemma ExtendFirstMin<T>(list: seq<seq<T>>, ok: seq<T> -> bool, r: seq<T>, q: nat)
    requires |list| > 0 && FirstMinAt(list[..|list| - 1], ok, r, q)
    requires ok(list[|list| - 1]) ==> |r| <= |list[|list| - 1]|
    ensures FirstMinAt(list, ok, r, q)
  {
    assert forall k :: 0 <= k < |list| - 1 ==> list[..|list| - 1][k] == list[k];
  }

  /** The last element is the first smallest when it passes and is smaller than every earlier passing one. */
  lemma LastFirstMin<T>(list: seq<seq<T>>, ok: seq<T> -> bool)
    requires |list| > 0 && ok(list[|list| - 1])
    requires forall k :: 0 <= k < |list| - 1 && ok(list[k]) ==> |list[|list| - 1]| < |list[k]|
    ensures FirstMinAt(list, ok, list[|list| - 1], |list| - 1)
  {
  }

  /**
   * Filtering then taking the first smallest yields `[]` when nothing
   * passes, and otherwise the first smallest passing element.
   */
  lemma {:induction false} MinOfKept<T>(list: seq<seq<T>>, ok: seq<T> -> bool)
    ensures (forall q :: 0 <= q < |list| ==> !ok(list[q])) ==> MinFirst(KeepIf(list, ok)) == []
    ensures (exists q :: 0 <= q < |list| && ok(list[q])) ==>
      exists q :: FirstMinAt(list, ok, MinFirst(KeepIf(list, ok)), q)
    decreases |list|
  {
    KeepIfEmpty(list, ok);
    if |list| > 0 {
      var n := |list| - 1;
      var init := list[..n];
      var x := list[n];
      MinOfKept(init, ok);
      KeepIfEmpty(init, ok);
      var a := KeepIf(init, ok);
      var r := MinFirst(KeepIf(list, ok));
      assert forall q :: 0 <= q < n ==> init[q] == list[q];
      if ok(x) {
        assert KeepIf(list, ok) == a + [x];
        assert (a + [x])[..|a|] == a;
        if a == [] {
          LastFirstMin(list, ok);
        } else {
          var q0 :| FirstMinAt(init, ok, MinFirst(a), q0);
          if |x| < |MinFirst(a)| {
            LastFirstMin(list, ok);
          } else {
            ExtendFirstMin(list, ok, r, q0);
          }
        }
      } else {
        assert KeepIf(list, ok) == a;
        if exists q :: 0 <= q < |list| && ok(list[q]) {
          var q0 :| FirstMinAt(init, ok, MinFirst(a), q0);
          ExtendFirstMin(list, ok, r, q0);
        }
      }
    }
  }

  lemma MaskWitness(cands: seq<Minterm>, values: seq<nat>, q: nat)
    requires FirstMinAt(Masks(cands), AcceptTest(values), FirstMinimalCover(values, cands), q)
    ensures 1 <= q + 1 < Pow2(|cands|) - 1 && FirstMinimalCover(values, cands) == SubsetAt(cands, q + 1)
    ensures FirstMinAt(Masks(cands), AcceptTest(values), FirstMinimalCover(values, cands), (q + 1) - 1)
  {
    MaskAt(cands, q);
  }

  /**
   * The subset search result in terms of masks: `[]` when no mask from 1 to
   * `2^k - 2` is accepted; otherwise the subset of an accepted mask `i` that
   * is no larger than any accepted subset and strictly smaller than those of
   * every earlier accepted mask. The full set (mask `2^k - 1`) is never tried.
   */
  lemma FirstMinimalCoverSpec(values: seq<nat>, cands: seq<Minterm>)
    ensures (forall i :: 1 <= i < Pow2(|cands|) - 1 ==> !Accepted(SubsetAt(cands, i), values)) ==>
      FirstMinimalCover(values, cands) == []
    ensures (exists i :: 1 <= i < Pow2(|cands|) - 1 && Accepted(SubsetAt(cands, i), values)) ==>
      exists i :: 1 <= i < Pow2(|cands|) - 1 && FirstMinimalCover(values, cands) == SubsetAt(cands, i)
        && FirstMinAt(Masks(cands), AcceptTest(values), FirstMinimalCover(values, cands), i - 1)
  {
    if exists i :: 1 <= i < Pow2(|cands|) - 1 && Accepted(SubsetAt(cands, i), values) {
      var i :| 1 <= i < Pow2(|cands|) - 1 && Accepted(SubsetAt(cands, i), values);
      SomeMaskAccepted(values, cands, i);
    } else {
      NoMaskAccepted(values, cands);
    }
  }

  /** With an accepted mask, the search result is the subset of some first smallest accepted mask. */
  lemma SomeMaskAccepted(values: seq<nat>, cands: seq<Minterm>, i: nat)
    requires 1 <= i < Pow2(|cands|) - 1 && Accepted(SubsetAt(cands, i), values)
    ensures exists j ::
      && 1 <= j < Pow2(|cands|) - 1 && FirstMinimalCover(values, cands) == SubsetAt(cands, j)
      && FirstMinAt(Masks(cands), AcceptTest(values), FirstMinimalCover(values, cands), j - 1)
  {
    var list := Masks(cands);
    var ok := AcceptTest(values);
    MinOfKept(list, ok);
    MaskAt(cands, i - 1);
    assert ok(list[i - 1]);
    var q :| FirstMinAt(list, ok, FirstMinimalCover(values, cands), q);
    MaskWitness(cands, values, q);
  }

  /** With no accepted mask, the search result is empty. */
  lemma NoMaskAccepted(values: seq<nat>, cands: seq<Minterm>)
    requires forall i :: 1 <= i < Pow2(|cands|) - 1 ==> !Accepted(SubsetAt(cands, i), values)
    ensures FirstMinimalCover(values, cands) == []
  {
    var list := Masks(cands);
    var ok := AcceptTest(values);
    MinOfKept(list, ok);
    forall q | 0 <= q < |list|
      ensures !ok(list[q])
    {
      MaskAt(cands, q);
    }
  }

  // ---------------------------------------------------------------------
  // The whole covering step
  // ---------------------------------------------------------------------

  /**
   * Lines 234-282 for the given prime implicants: the essential list alone
   * when every flag is set, otherwise the essential list followed by the
   * subset search over the unflagged values and the implicants listing one.
   */
  function Solution(values: seq<nat>, dontCares: seq<nat>, primes: seq<Minterm>): seq<Minterm>
  {
    var p := EssentialPass(values, dontCares, primes, |values|);
    if forall i :: 0 <= i < |p.flags| ==> p.flags[i] then p.essentials
    else
      var remaining := Unflagged(values, p.flags);
      p.essentials + FirstMinimalCover(remaining, Candidates(primes, remaining))
  }

  /** The essentials are implicants, and a value with a sole implicant has that implicant among them. */
  lemma SoleCoverIsEssential(values: seq<nat>, dontCares: seq<nat>, primes: seq<Minterm>, w: nat, c: Minterm)
    requires w in values && c in primes && w in c.values && Uses(w, primes) == 1
    ensures c in EssentialPass(values, dontCares, primes, |values|).essentials
  {
    var p := EssentialPass(values, dontCares, primes, |values|);
    EssentialPassSpec(values, dontCares, primes, |values|);
    UsesSpec(w, primes);
    var i :| 0 <= i < |values| && values[i] == w;
    assert CoveredBy(values[i], p.essentials);
    var k :| 0 <= k < |p.essentials| && w in p.essentials[k].values;
    var e := p.essentials[k];
    assert e in p.essentials;
    var i' :| 0 <= i' < |values| && SoleCover(e, values[i'], primes);
    var j :| 0 <= j < |primes| && primes[j] == e;
    var j' :| 0 <= j' < |primes| && primes[j'] == c;
  }

  /** The `k`-digit text with a '0' at position `a` and '1' elsewhere. */
  function AllBut(k: nat, a: nat): (bits: string)
    ensures |bits| == k && IsBinaryText(bits)
    ensures forall j :: 0 <= j < k ==> (bits[j] == '0' <==> j == a)
  {
    seq(k, j requires 0 <= j < k => if j == a then '0' else '1')
  }

  /**
   * Leaving out one of at least two candidates is a mask from 1 to
   * `2^k - 2` whose subset holds every other candidate.
   */
  lemma AllButMask(cands: seq<Minterm>, a: nat, b: nat)
    requires a < |cands| && b < |cands| && a != b
    ensures var i := FromBinary(AllBut(|cands|, a));
      && 1 <= i < Pow2(|cands|) - 1
      && forall j :: 0 <= j < |cands| && j != a ==> cands[j] in SubsetAt(cands, i)
  {
    var bits := AllBut(|cands|, a);
    assert bits[a] == '0' && bits[b] == '1';
    BinaryBounds(bits);
    FixedWidthRoundTrip(bits);
    PickSpec(cands, bits);
  }

  /**
   * A remaining value is listed by a candidate other than `a`, when `a`
   * lists a remaining value `v` that no essential lists.
   */
  lemma OtherCandidate(values: seq<nat>, dontCares: seq<nat>, primes: seq<Minterm>,
                       remaining: seq<nat>, cands: seq<Minterm>, v: nat, a: nat, w: nat)
    requires forall x :: x in values ==> CoveredBy(x, primes)
    requires remaining == Unflagged(values, EssentialPass(values, dontCares, primes, |values|).flags)
    requires cands == Candidates(primes, remaining)
    requires !CoveredBy(v, EssentialPass(values, dontCares, primes, |values|).essentials)
    requires a < |cands| && v in cands[a].values
    requires w in remaining
    ensures exists j :: 0 <= j < |cands| && j != a && w in cands[j].values
  {
    UnflaggedSpec(values, EssentialPass(values, dontCares, primes, |values|).flags);
    assert w in values;
    CandidatesSpec(primes, remaining, w);
    UsesSpec(w, cands);
    UsesSpec(w, primes);
    var j :| 0 <= j < |cands| && w in cands[j].values;
    if j == a {
      if Uses(w, cands) == 1 {
        SoleCoverIsEssential(values, dontCares, primes, w, cands[a]);
        assert false;
      }
      var c, d :| 0 <= c < d < |cands| && w in cands[c].values && w in cands[d].values;
      j := if c != a then c else d;
    }
    assert j != a && w in cands[j].values;
  }

  /** A remaining value that no essential lists is listed by two candidates. */
  lemma TwoCandidates(values: seq<nat>, dontCares: seq<nat>, primes: seq<Minterm>,
                      remaining: seq<nat>, cands: seq<Minterm>, v: nat)
    requires forall w :: w in values ==> CoveredBy(w, primes)
    requires remaining == Unflagged(values, EssentialPass(values, dontCares, primes, |values|).flags)
    requires cands == Candidates(primes, remaining)
    requires v in remaining && !CoveredBy(v, EssentialPass(values, dontCares, primes, |values|).essentials)
    ensures exists a, b :: 0 <= a < b < |cands| && v in cands[a].values && v in cands[b].values
  {
    var p := EssentialPass(values, dontCares, primes, |values|);
    EssentialPassSpec(values, dontCares, primes, |values|);
    UnflaggedSpec(values, p.flags);
    CandidatesSpec(primes, remaining, v);
    UsesSpec(v, primes);
    UsesSpec(v, cands);
    var i :| 0 <= i < |values| && values[i] == v;
    assert Uses(v, primes) != 1;
  }

  lemma MemberCovers(w: nat, subset: seq<Minterm>, t: Minterm)
    requires t in subset && w in t.values
    ensures CoveredBy(w, subset)
  {
    var m :| 0 <= m < |subset| && subset[m] == t;
  }

  /** Every remaining value is listed by some candidate other than the one at `a`. */
  predicate OthersList(cands: seq<Minterm>, a: nat, remaining: seq<nat>)
  {
    forall w :: w in remaining ==> exists j :: 0 <= j < |cands| && j != a && w in cands[j].values
  }

  lemma OtherCandidates(values: seq<nat>, dontCares: seq<nat>, primes: seq<Minterm>,
                        remaining: seq<nat>, cands: seq<Minterm>, v: nat, a: nat)
    requires forall x :: x in values ==> CoveredBy(x, primes)
    requires remaining == Unflagged(values, EssentialPass(values, dontCares, primes, |values|).flags)
    requires cands == Candidates(primes, remaining)
    requires !CoveredBy(v, EssentialPass(values, dontCares, primes, |values|).essentials)
    requires a < |cands| && v in cands[a].values
    ensures OthersList(cands, a, remaining)
  {
    forall w | w in remaining
      ensures exists j :: 0 <= j < |cands| && j != a && w in cands[j].values
    {
      OtherCandidate(values, dontCares, primes, remaining, cands, v, a, w);
    }
  }

  /** Leaving out candidate `a` keeps every remaining value listed, with a mask from 1 to `2^k - 2`. */
  lemma DropOneCovers(cands: seq<Minterm>, a: nat, b: nat, remaining: seq<nat>)
    requires a < |cands| && b < |cands| && a != b
    requires OthersList(cands, a, remaining)
    ensures var i := FromBinary(AllBut(|cands|, a));
      && 1 <= i < Pow2(|cands|) - 1
      && forall w :: w in remaining ==> CoveredBy(w, SubsetAt(cands, i))
  {
    AllButMask(cands, a, b);
    var subset := SubsetAt(cands, FromBinary(AllBut(|cands|, a)));
    forall w | w in remaining
      ensures CoveredBy(w, subset)
    {
      var j :| 0 <= j < |cands| && j != a && w in cands[j].values;
      MemberCovers(w, subset, cands[j]);
    }
  }

  /**
   * When some remaining value is listed by no essential, dropping one of the
   * two candidates listing it leaves a proper, non-empty subset that still
   * lists every remaining value, so some mask from 1 to `2^k - 2` passes.
   */
  lemma ProperSubsetCovers(values: seq<nat>, dontCares: seq<nat>, primes: seq<Minterm>,
                           remaining: seq<nat>, cands: seq<Minterm>, v: nat)
    requires Distinct(values)
    requires forall w :: w in values ==> CoveredBy(w, primes)
    requires remaining == Unflagged(values, EssentialPass(values, dontCares, primes, |values|).flags)
    requires cands == Candidates(primes, remaining)
    requires v in remaining && !CoveredBy(v, EssentialPass(values, dontCares, primes, |values|).essentials)
    ensures exists i :: 1 <= i < Pow2(|cands|) - 1 && Accepted(SubsetAt(cands, i), remaining)
  {
    TwoCandidates(values, dontCares, primes, remaining, cands, v);
    var a, b :| 0 <= a < b < |cands| && v in cands[a].values && v in cands[b].values;
    OtherCandidates(values, dontCares, primes, remaining, cands, v, a);
    UnflaggedSpec(values, EssentialPass(values, dontCares, primes, |values|).flags);
    DropOneAccepted(cands, a, b, remaining);
  }

  /** Dropping candidate `a` gives an accepted mask when the others list every remaining value. */
  lemma DropOneAccepted(cands: seq<Minterm>, a: nat, b: nat, remaining: seq<nat>)
    requires a < |cands| && b < |cands| && a != b
    requires OthersList(cands, a, remaining) && Distinct(remaining)
    ensures exists i :: 1 <= i < Pow2(|cands|) - 1 && Accepted(SubsetAt(cands, i), remaining)
  {
    DropOneCovers(cands, a, b, remaining);
    var i := FromBinary(AllBut(|cands|, a));
    AcceptedMeans(SubsetAt(cands, i), remaining);
  }

  /** In that case the first smallest accepted subset lists every remaining value. */
  lemma ExtraCovers(values: seq<nat>, dontCares: seq<nat>, primes: seq<Minterm>,
                    remaining: seq<nat>, cands: seq<Minterm>, v: nat)
    requires Distinct(values)
    requires forall w :: w in values ==> CoveredBy(w, primes)
    requires remaining == Unflagged(values, EssentialPass(values, dontCares, primes, |values|).flags)
    requires cands == Candidates(primes, remaining)
    requires v in remaining && !CoveredBy(v, EssentialPass(values, dontCares, primes, |values|).essentials)
    ensures forall w :: w in remaining ==> CoveredBy(w, FirstMinimalCover(remaining, cands))
  {
    var extra := FirstMinimalCover(remaining, cands);
    ProperSubsetCovers(values, dontCares, primes, remaining, cands, v);
    FirstMinimalCoverSpec(remaining, cands);
    var i :| 1 <= i < Pow2(|cands|) - 1 && extra == SubsetAt(cands, i)
      && FirstMinAt(Masks(cands), AcceptTest(remaining), extra, i - 1);
    MaskAt(cands, i - 1);
    AcceptedMeans(extra, remaining);
  }

  /** Values listed by the essentials or, when it is appended, by the extra cover, are listed by the union. */
  lemma JoinCovers(values: seq<nat>, essentials: seq<Minterm>, extra: seq<Minterm>, allFlagged: bool, sol: seq<Minterm>)
    requires sol == if allFlagged then essentials else essentials + extra
    requires forall w :: w in values ==> CoveredBy(w, essentials) || (!allFlagged && CoveredBy(w, extra))
    ensures forall w :: w in values ==> CoveredBy(w, sol)
  {
    forall w | w in values
      ensures CoveredBy(w, sol)
    {
      if CoveredBy(w, essentials) {
        CoveredByAppend(w, essentials, extra);
      } else {
        CoveredByPrefix(w, essentials, extra);
      }
    }
  }

  /**
   * Every required value is listed by an implicant of the solution, provided
   * the required values have no repeats and each is listed by some implicant.
   */
  lemma SolutionCovers(values: seq<nat>, dontCares: seq<nat>, primes: seq<Minterm>)
    requires Distinct(values)
    requires forall w :: w in values ==> CoveredBy(w, primes)
    ensures forall w :: w in values ==> CoveredBy(w, Solution(values, dontCares, primes))
  {
    var p := EssentialPass(values, dontCares, primes, |values|);
    EssentialPassSpec(values, dontCares, primes, |values|);
    UnflaggedSpec(values, p.flags);
    var remaining := Unflagged(values, p.flags);
    var cands := Candidates(primes, remaining);
    var extra := FirstMinimalCover(remaining, cands);
    var allFlagged := forall i :: 0 <= i < |p.flags| ==> p.flags[i];
    if exists v :: v in remaining && !CoveredBy(v, p.essentials) {
      var v :| v in remaining && !CoveredBy(v, p.essentials);
      ExtraCovers(values, dontCares, primes, remaining, cands, v);
    }
    forall w | w in values && !CoveredBy(w, p.essentials)
      ensures !allFlagged && w in remaining
    {
      var i :| 0 <= i < |values| && values[i] == w;
      assert !p.flags[i];
    }
    JoinCovers(values, p.essentials, extra, allFlagged, Solution(values, dontCares, primes));
  }

  lemma CoveredByPrefix(v: nat, list: seq<Minterm>, extra: seq<Minterm>)
    requires CoveredBy(v, extra)
    ensures CoveredBy(v, list + extra)
  {
    var i :| 0 <= i < |extra| && v in extra[i].values;
    assert (list + extra)[|list| + i] == extra[i];
  }

  lemma {:induction false} MinFirstIn<T>(list: seq<seq<T>>)
    requires |list| > 0
    ensures MinFirst(list) in list
    decreases |list|
  {
    if |list| > 1 {
      MinFirstIn(list[..|list| - 1]);
    }
  }

  lemma {:induction false} KeepIfIn<T>(list: seq<T>, ok: T -> bool)
    ensures forall x :: x in KeepIf(list, ok) ==> x in list
    decreases |list|
  {
    if |list| > 0 {
      KeepIfIn(list[..|list| - 1], ok);
    }
  }

  /** The subset search picks candidates only. */
  lemma FirstMinimalCoverFrom(values: seq<nat>, cands: seq<Minterm>)
    ensures forall t :: t in FirstMinimalCover(values, cands) ==> t in cands
  {
    var list := Masks(cands);
    var kept := KeepIf(list, AcceptTest(values));
    if |kept| > 0 {
      MinFirstIn(kept);
      KeepIfIn(list, AcceptTest(values));
      var q :| 0 <= q < |list| && list[q] == MinFirst(kept);
      MaskAt(cands, q);
      BinaryOfWidthSpec(q + 1, |cands|);
      PickSpec(cands, BinaryOfWidth(q + 1, |cands|));
    }
  }

  /** Every implicant of the solution is one of the given prime implicants. */
  lemma SolutionFromPrimes(values: seq<nat>, dontCares: seq<nat>, primes: seq<Minterm>)
    ensures forall t :: t in Solution(values, dontCares, primes) ==> t in primes
  {
    var p := EssentialPass(values, dontCares, primes, |values|);
    EssentialPassSpec(values, dontCares, primes, |values|);
    var remaining := Unflagged(values, p.flags);
    var cands := Candidates(primes, remaining);
    CandidatesSpec(primes, remaining, 0);
    FirstMinimalCoverFrom(remaining, cands);
    forall t | t in p.essentials
      ensures t in primes
    {
      var i :| 0 <= i < |values| && SoleCover(t, values[i], primes);
    }
  }
}
