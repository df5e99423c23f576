/**
 * Facts about lists of Minterms, shared by the prime-implicant search and the
 * covering step of the tabulation engine.
 */
module Terms {
  import opened Binary
  import opened Patterns
  import opened Minterms

  /** `valueIn(t, list)` for a Minterm: some element equals `t`. */
  predicate ContainsEqual(list: seq<Minterm>, t: Minterm)
  {
    exists i :: 0 <= i < |list| && list[i].Equals(t)
  }

  /** No two elements of the list are equal Minterms. */
  predicate NoEqualPair(list: seq<Minterm>)
  {
    forall i, j :: 0 <= i < j < |list| ==> !list[i].Equals(list[j])
  }

  /** Some element of the list stands for the input value `v`. */
  predicate CoveredBy(v: nat, list: seq<Minterm>)
  {
    exists i :: 0 <= i < |list| && v in list[i].values
  }

  /** Some bucket holds an element that stands for `v`. */
  predicate CoveredByGroups(v: nat, groups: seq<seq<Minterm>>)
  {
    exists k :: 0 <= k < |groups| && CoveredBy(v, groups[k])
  }

  /** Every Minterm held by some bucket. */
  ghost function TermsOf(groups: seq<seq<Minterm>>): set<Minterm>
  {
    set k, t | 0 <= k < |groups| && t in groups[k] :: t
  }

  /** A pattern of the given width that every one of its values agrees with. */
  ghost predicate WellFormed(t: Minterm, width: nat)
  {
    |t.value| == width && AllAgree(t.values, t.value)
  }

  /** The values whose `width`-digit binary text has `k` ones, in input order. */
  function WithOnes(values: seq<nat>, width: nat, k: nat): seq<nat>
    decreases |values|
  {
    if |values| == 0 then []
    else
      var last := values[|values| - 1];
      WithOnes(values[..|values| - 1], width, k)
        + (if Ones(BinaryOfWidth(last, width)) == k then [last] else [])
  }

  /** Each value lands in the list of its own count of ones. */
  lemma {:induction false} InOwnOnesList(values: seq<nat>, width: nat, v: nat)
    requires v in values
    ensures v in WithOnes(values, width, Ones(BinaryOfWidth(v, width)))
    decreases |values|
  {
    var init := values[..|values| - 1];
    if v != values[|values| - 1] {
      assert v in init;
      InOwnOnesList(init, width, v);
    }
  }

  /** A value below `2^width` has at most `width` ones (one digit when `width` is 0). */
  lemma OnesOfWidth(v: nat, width: nat)
    requires v < Pow2(width)
    ensures Ones(BinaryOfWidth(v, width)) <= width
  {
    BinaryOfWidthSpec(v, width);
    OnesBound(BinaryOfWidth(v, width));
    if width == 0 {
      assert BinaryOfWidth(v, width) == "0";
    }
  }

  lemma CoveredByAppend(v: nat, list: seq<Minterm>, extra: seq<Minterm>)
    requires CoveredBy(v, list)
    ensures CoveredBy(v, list + extra)
  {
    var i :| 0 <= i < |list| && v in list[i].values;
    assert (list + extra)[i] == list[i];
  }

  lemma NoEqualPairAppend(list: seq<Minterm>, t: Minterm)
    requires NoEqualPair(list) && !ContainsEqual(list, t)
    ensures NoEqualPair(list + [t])
  {
    forall i, j | 0 <= i < j < |list| + 1
      ensures !(list + [t])[i].Equals((list + [t])[j])
    {
      if j == |list| {
        assert !list[i].Equals(t);
      }
    }
  }

  lemma CoveredByGroupsGrow(v: nat, groups: seq<seq<Minterm>>, k: nat, t: Minterm)
    requires 0 <= k < |groups| && CoveredByGroups(v, groups)
    ensures CoveredByGroups(v, groups[k := groups[k] + [t]])
  {
    var g := groups[k := groups[k] + [t]];
    var k' :| 0 <= k' < |groups| && CoveredBy(v, groups[k']);
    if k' == k {
      CoveredByAppend(v, groups[k], [t]);
    }
    assert CoveredBy(v, g[k']);
  }

  lemma {:induction false} WithOnesSubset(values: seq<nat>, width: nat, k: nat)
    ensures forall v :: v in WithOnes(values, width, k) ==> v in values
    decreases |values|
  {
    if |values| > 0 {
      WithOnesSubset(values[..|values| - 1], width, k);
    }
  }

  /**
   * Buckets laid out as the initial grouping lays them out cover every value,
   * hold only given values, and hold well-formed patterns.
   */
  lemma InitialGroupFacts(groups: seq<seq<Minterm>>, values: seq<nat>, n: nat)
    requires forall v :: v in values ==> v < Pow2(n)
    requires |groups| == n + 1
    requires forall k :: 0 <= k < |groups| ==> |groups[k]| == |WithOnes(values, n, k)|
    requires forall k, j :: 0 <= k < |groups| && 0 <= j < |groups[k]| ==>
      var v := WithOnes(values, n, k)[j];
      groups[k][j].values == [v] && groups[k][j].value == BinaryOfWidth(v, n)
    ensures forall v :: v in values ==> CoveredByGroups(v, groups)
    ensures forall k, t :: 0 <= k < |groups| && t in groups[k] ==>
      WellFormed(t, if n == 0 then 1 else n)
    ensures forall k, t, v :: 0 <= k < |groups| && t in groups[k] && v in t.values ==> v in values
  {
    forall v | v in values
      ensures CoveredByGroups(v, groups)
    {
      InOwnOnesList(values, n, v);
      var k := Ones(BinaryOfWidth(v, n));
      OnesOfWidth(v, n);
      var j :| 0 <= j < |WithOnes(values, n, k)| && WithOnes(values, n, k)[j] == v;
      assert v in groups[k][j].values;
      assert CoveredBy(v, groups[k]);
    }
    forall k, t | 0 <= k < |groups| && t in groups[k]
      ensures WellFormed(t, if n == 0 then 1 else n)
      ensures forall v :: v in t.values ==> v in values
    {
      var j :| 0 <= j < |groups[k]| && groups[k][j] == t;
      var v := WithOnes(values, n, k)[j];
      WithOnesSubset(values, n, k);
      assert v in values;
      CoversReflexive(t.value);
      if n == 0 {
        assert v < Pow2(0);
        assert t.value == "0" && BinaryOfWidth(v, 1) == "0";
      } else {
        BinaryOfWidthSpec(v, n);
      }
    }
  }

  /** `combine` succeeds on the pair: the patterns differ in at most one position. */
  predicate Combinable(t1: Minterm, t2: Minterm)
  {
    MismatchCount(t1.value, t2.value) <= 1
  }

  /** `t` sits in one of two adjacent buckets and combines with a term of the other. */
  ghost predicate PartnerAcross(group1: seq<Minterm>, group2: seq<Minterm>, t: Minterm)
  {
    || (t in group1 && exists t2 :: t2 in group2 && Combinable(t, t2))
    || (t in group2 && exists t1 :: t1 in group1 && Combinable(t1, t))
  }

  /** `t` combines with a term of a bucket adjacent to one that holds it. */
  ghost predicate HasPartner(groups: seq<seq<Minterm>>, t: Minterm)
  {
    exists k :: 0 <= k < |groups| - 1 && PartnerAcross(groups[k], groups[k + 1], t)
  }

  /** `u` carries the merged pattern and the joined values of `t1` and `t2`. */
  ghost predicate MergeOf(u: Minterm, t1: Minterm, t2: Minterm)
  {
    u.value == Merge(t1.value, t2.value) && u.values == t1.values + t2.values
  }

  /** Some element of the bucket is the merge of `t1` with `t2`. */
  ghost predicate HoldsMerge(bucket: seq<Minterm>, t1: Minterm, t2: Minterm)
  {
    exists u :: u in bucket && MergeOf(u, t1, t2)
  }

  /** `u` is the merge of a combinable pair drawn from the two buckets. */
  ghost predicate IsMergeAcross(u: Minterm, group1: seq<Minterm>, group2: seq<Minterm>)
  {
    exists t1, t2 :: t1 in group1 && t2 in group2 && Combinable(t1, t2) && MergeOf(u, t1, t2)
  }

  /**
   * After the merges of `group1[a]` were appended to a bucket, every pair
   * from `group1[..a + 1]` and `group2` that combines has its merge there.
   */
  lemma HoldsMergeGrow(group1: seq<Minterm>, group2: seq<Minterm>, a: nat, previous: seq<Minterm>, out: seq<Minterm>)
    requires a < |group1|
    requires |previous| <= |out| && forall i :: 0 <= i < |previous| ==> out[i] == previous[i]
    requires forall i, t2 :: 0 <= i < a && t2 in group2 && Combinable(group1[i], t2) ==> HoldsMerge(previous, group1[i], t2)
    requires forall t2 :: t2 in group2 && Combinable(group1[a], t2) ==> HoldsMerge(out, group1[a], t2)
    ensures forall i, t2 :: 0 <= i < a + 1 && t2 in group2 && Combinable(group1[i], t2) ==> HoldsMerge(out, group1[i], t2)
  {
    forall i, t2 | 0 <= i < a && t2 in group2 && Combinable(group1[i], t2)
      ensures HoldsMerge(out, group1[i], t2)
    {
      var u :| u in previous && MergeOf(u, group1[i], t2);
      var j :| 0 <= j < |previous| && previous[j] == u;
      assert out[j] == u;
    }
  }

  /**
   * After the merge attempt of `term1` with `group2[b]`, every term of
   * `group2[..b + 1]` that combines with `term1` has its merge in the bucket.
   */
  lemma HoldsMergeStep(term1: Minterm, group2: seq<Minterm>, b: nat, previous: seq<Minterm>, out: seq<Minterm>)
    requires b < |group2|
    requires |previous| <= |out| && forall i :: 0 <= i < |previous| ==> out[i] == previous[i]
    requires forall j :: 0 <= j < b && Combinable(term1, group2[j]) ==> HoldsMerge(previous, term1, group2[j])
    requires Combinable(term1, group2[b]) ==> HoldsMerge(out, term1, group2[b])
    ensures forall j :: 0 <= j < b + 1 && Combinable(term1, group2[j]) ==> HoldsMerge(out, term1, group2[j])
  {
    forall j | 0 <= j < b && Combinable(term1, group2[j])
      ensures HoldsMerge(out, term1, group2[j])
    {
      var u :| u in previous && MergeOf(u, term1, group2[j]);
      var k :| 0 <= k < |previous| && previous[k] == u;
      assert out[k] == u;
    }
  }

  /** The merges of `group1[a]` appended to a bucket of merges across both buckets keep it so. */
  lemma MergeAcrossGrow(group1: seq<Minterm>, group2: seq<Minterm>, a: nat, previous: seq<Minterm>, out: seq<Minterm>)
    requires a < |group1|
    requires |previous| <= |out| && forall i :: 0 <= i < |previous| ==> out[i] == previous[i]
    requires forall i :: 0 <= i < |previous| ==> IsMergeAcross(previous[i], group1, group2)
    requires forall i :: |previous| <= i < |out| ==> IsMergeAcross(out[i], [group1[a]], group2)
    ensures forall i :: 0 <= i < |out| ==> IsMergeAcross(out[i], group1, group2)
  {
    forall i | 0 <= i < |out|
      ensures IsMergeAcross(out[i], group1, group2)
    {
      if i >= |previous| {
        var t1, t2 :| t1 in [group1[a]] && t2 in group2 && Combinable(t1, t2) && MergeOf(out[i], t1, t2);
        assert t1 in group1;
      } else {
        assert out[i] == previous[i];
      }
    }
  }

  /**
   * `bucket` is the next round's bucket for the adjacent buckets `group1` and
   * `group2`: no two of its Minterms are equal, each is the merge of a
   * combinable pair across the two, and every such pair has its merge there.
   */
  ghost predicate MergedBucket(group1: seq<Minterm>, group2: seq<Minterm>, bucket: seq<Minterm>)
  {
    && NoEqualPair(bucket)
    && (forall u :: u in bucket ==> IsMergeAcross(u, group1, group2))
    && (forall t1, t2 :: t1 in group1 && t2 in group2 && Combinable(t1, t2) ==> HoldsMerge(bucket, t1, t2))
  }

  /** A list holding a Minterm equal to `t` stands for every value of `t`. */
  lemma ContainsEqualCovers(list: seq<Minterm>, t: Minterm, v: nat)
    requires ContainsEqual(list, t) && v in t.values
    ensures CoveredBy(v, list)
  {
    var i :| 0 <= i < |list| && list[i].Equals(t);
    assert v in list[i].values;
  }

  /** Extending a list keeps what its prefix contains. */
  lemma PrefixKeeps(list: seq<Minterm>, out: seq<Minterm>)
    requires |list| <= |out| && forall i :: 0 <= i < |list| ==> out[i] == list[i]
    ensures forall t :: ContainsEqual(list, t) ==> ContainsEqual(out, t)
    ensures forall v :: CoveredBy(v, list) ==> CoveredBy(v, out)
  {
    forall t: Minterm | ContainsEqual(list, t)
      ensures ContainsEqual(out, t)
    {
      var i :| 0 <= i < |list| && list[i].Equals(t);
      assert out[i] == list[i];
    }
    forall v | CoveredBy(v, list)
      ensures CoveredBy(v, out)
    {
      var i :| 0 <= i < |list| && v in list[i].values;
      assert out[i] == list[i];
    }
  }

  /**
   * Buckets of merges of adjacent input buckets hold only values of the input
   * and, when the input's patterns are well formed, well-formed patterns.
   */
  lemma MergedBucketsSound(groups: seq<seq<Minterm>>, newGroups: seq<seq<Minterm>>, width: nat)
    requires |newGroups| == |groups| - 1
    requires forall k :: 0 <= k < |newGroups| ==> MergedBucket(groups[k], groups[k + 1], newGroups[k])
    ensures forall k, u, v :: 0 <= k < |newGroups| && u in newGroups[k] && v in u.values ==>
      CoveredByGroups(v, groups)
    ensures (forall k, t :: 0 <= k < |groups| && t in groups[k] ==> WellFormed(t, width)) ==>
      forall k, u :: 0 <= k < |newGroups| && u in newGroups[k] ==> WellFormed(u, width)
  {
    forall k, u, v | 0 <= k < |newGroups| && u in newGroups[k] && v in u.values
      ensures CoveredByGroups(v, groups)
    {
      assert MergedBucket(groups[k], groups[k + 1], newGroups[k]);
      var t1, t2 :| t1 in groups[k] && t2 in groups[k + 1] && Combinable(t1, t2) && MergeOf(u, t1, t2);
      if v in t1.values {
        var i :| 0 <= i < |groups[k]| && groups[k][i] == t1;
        assert CoveredBy(v, groups[k]);
      } else {
        var i :| 0 <= i < |groups[k + 1]| && groups[k + 1][i] == t2;
        assert CoveredBy(v, groups[k + 1]);
      }
    }
    if forall k, t :: 0 <= k < |groups| && t in groups[k] ==> WellFormed(t, width) {
      forall k, u | 0 <= k < |newGroups| && u in newGroups[k]
        ensures WellFormed(u, width)
      {
        assert MergedBucket(groups[k], groups[k + 1], newGroups[k]);
        var t1, t2 :| t1 in groups[k] && t2 in groups[k + 1] && Combinable(t1, t2) && MergeOf(u, t1, t2);
        assert WellFormed(t1, width) && WellFormed(t2, width);
        MergeKeepsAgreement(t1.values, t1.value, t2.values, t2.value);
      }
    }
  }

  /**
   * A term with a partner in an adjacent bucket hands each of its values on
   * to the next round, through the merge with that partner.
   */
  lemma PartnerMergeCovers(groups: seq<seq<Minterm>>, newGroups: seq<seq<Minterm>>, t: Minterm, v: nat)
    requires |newGroups| == |groups| - 1
    requires forall k :: 0 <= k < |newGroups| ==> MergedBucket(groups[k], groups[k + 1], newGroups[k])
    requires HasPartner(groups, t) && v in t.values
    ensures CoveredByGroups(v, newGroups)
  {
    var k :| 0 <= k < |groups| - 1 && PartnerAcross(groups[k], groups[k + 1], t);
    var t1, t2;
    if t in groups[k] && exists t2 :: t2 in groups[k + 1] && Combinable(t, t2) {
      t1 := t;
      t2 :| t2 in groups[k + 1] && Combinable(t, t2);
    } else {
      t2 := t;
      t1 :| t1 in groups[k] && Combinable(t1, t);
    }
    assert t1 in groups[k] && t2 in groups[k + 1] && Combinable(t1, t2);
    assert MergedBucket(groups[k], groups[k + 1], newGroups[k]);
    assert HoldsMerge(newGroups[k], t1, t2);
    var u :| u in newGroups[k] && MergeOf(u, t1, t2);
    var i :| 0 <= i < |newGroups[k]| && newGroups[k][i] == u;
    assert v in newGroups[k][i].values;
  }

  /**
   * A result drawn from the round's own terms and from the next round's
   * result holds only values of the round and, when the round's patterns are
   * well formed, well-formed patterns.
   */
  lemma ResultSound(groups: seq<seq<Minterm>>, newGroups: seq<seq<Minterm>>,
                    rest: seq<Minterm>, unused: seq<Minterm>, width: nat)
    requires forall u :: u in unused ==> u in TermsOf(groups) || u in rest
    requires forall u, v :: u in rest && v in u.values ==> CoveredByGroups(v, newGroups)
    requires forall k, u, v :: 0 <= k < |newGroups| && u in newGroups[k] && v in u.values ==>
      CoveredByGroups(v, groups)
    requires (forall k, t :: 0 <= k < |groups| && t in groups[k] ==> WellFormed(t, width)) ==>
      forall u :: u in rest ==> WellFormed(u, width)
    ensures forall u, v :: u in unused && v in u.values ==> CoveredByGroups(v, groups)
    ensures (forall k, t :: 0 <= k < |groups| && t in groups[k] ==> WellFormed(t, width)) ==>
      forall u :: u in unused ==> WellFormed(u, width)
  {
    forall u, v | u in unused && v in u.values
      ensures CoveredByGroups(v, groups)
    {
      if u in TermsOf(groups) {
        var k :| 0 <= k < |groups| && u in groups[k];
        var i :| 0 <= i < |groups[k]| && groups[k][i] == u;
        assert CoveredBy(v, groups[k]);
      } else {
        assert CoveredByGroups(v, newGroups);
        var k :| 0 <= k < |newGroups| && CoveredBy(v, newGroups[k]);
        var i :| 0 <= i < |newGroups[k]| && v in newGroups[k][i].values;
        assert newGroups[k][i] in newGroups[k];
      }
    }
  }

  /** The terms of two adjacent buckets that combine with a term of the other bucket. */
  ghost function PartnersIn(group1: seq<Minterm>, group2: seq<Minterm>): set<Minterm>
  {
    set t | t in group1 + group2 && PartnerAcross(group1, group2, t)
  }

  /** The terms of a round that combine with a term of an adjacent bucket. */
  ghost function MarkedBy(groups: seq<seq<Minterm>>): set<Minterm>
    decreases |groups|
  {
    if |groups| < 2 then {}
    else MarkedBy(groups[..|groups| - 1]) + PartnersIn(groups[|groups| - 2], groups[|groups| - 1])
  }

  /** The marked terms of a round are exactly those with a partner. */
  lemma {:induction false} MarkedMeansPartner(groups: seq<seq<Minterm>>, t: Minterm)
    ensures t in MarkedBy(groups) <==> HasPartner(groups, t)
    decreases |groups|
  {
    if |groups| >= 2 {
      var init := groups[..|groups| - 1];
      MarkedMeansPartner(init, t);
      var last := |groups| - 2;
      if HasPartner(groups, t) {
        var k :| 0 <= k < |groups| - 1 && PartnerAcross(groups[k], groups[k + 1], t);
        if k < last {
          assert init[k] == groups[k] && init[k + 1] == groups[k + 1];
          assert HasPartner(init, t);
        } else {
          assert t in PartnersIn(groups[last], groups[last + 1]);
        }
      }
      if HasPartner(init, t) {
        var k :| 0 <= k < |init| - 1 && PartnerAcross(init[k], init[k + 1], t);
        assert init[k] == groups[k] && init[k + 1] == groups[k + 1];
      }
      if t in PartnersIn(groups[last], groups[last + 1]) {
        assert PartnerAcross(groups[last], groups[last + 1], t);
      }
    }
  }

  /** Pairing `term1` with one more term of the second bucket adds at most those two partners. */
  lemma PartnersOfOneGrow(term1: Minterm, group2: seq<Minterm>, b: nat)
    requires b < |group2|
    ensures PartnersIn([term1], group2[..b + 1]) ==
      PartnersIn([term1], group2[..b]) + (if Combinable(term1, group2[b]) then {term1, group2[b]} else {})
  {
    assert group2[..b + 1] == group2[..b] + [group2[b]];
  }

  /** One more term of the first bucket adds its own partners. */
  lemma PartnersGrow(group1: seq<Minterm>, a: nat, group2: seq<Minterm>)
    requires a < |group1|
    ensures PartnersIn(group1[..a + 1], group2) == PartnersIn(group1[..a], group2) + PartnersIn([group1[a]], group2)
  {
    assert group1[..a + 1] == group1[..a] + [group1[a]];
  }

  /** One more bucket adds the partners across it and the bucket before. */
  lemma MarkedGrow(groups: seq<seq<Minterm>>, c: nat)
    requires c + 1 < |groups|
    ensures MarkedBy(groups[..c + 2]) == MarkedBy(groups[..c + 1]) + PartnersIn(groups[c], groups[c + 1])
  {
    assert groups[..c + 2][..c + 1] == groups[..c + 1];
  }

  /** Filling an empty bucket adds exactly the bucket's Minterms to the round. */
  lemma TermsOfFill(groups: seq<seq<Minterm>>, c: nat, bucket: seq<Minterm>)
    requires c < |groups| && groups[c] == []
    ensures TermsOf(groups[c := bucket]) == TermsOf(groups) + set u | u in bucket
  {
    var filled := groups[c := bucket];
    forall u | u in TermsOf(filled)
      ensures u in TermsOf(groups) || u in bucket
    {
      var k :| 0 <= k < |filled| && u in filled[k];
      if k != c {
        assert u in groups[k];
      }
    }
    forall u | u in TermsOf(groups)
      ensures u in TermsOf(filled)
    {
      var k :| 0 <= k < |groups| && u in groups[k];
      assert u in filled[k];
    }
    forall u | u in bucket
      ensures u in TermsOf(filled)
    {
      assert u in filled[c];
    }
  }

  /** Every bucket's terms are terms of the round. */
  lemma BucketInTerms(groups: seq<seq<Minterm>>, k: nat)
    requires k < |groups|
    ensures forall t :: t in groups[k] ==> t in TermsOf(groups)
  {
  }
}
