/**
 * The implicant record of the tabulation engine: the decimal inputs it stands
 * for, its pattern over '0', '1' and '-', and a flag set once it has been
 * merged into a larger implicant.
 */
module Minterms {
  import opened Wrappers
  import opened Strings
  import opened Binary
  import opened Patterns

  /**
   * Every value, written in binary with as many digits as the pattern has
   * positions, is covered by the pattern (it agrees at each non-'-' position).
   */
  ghost predicate AllAgree(values: seq<nat>, pattern: string)
  {
    forall v :: v in values ==> Covers(BinaryOfWidth(v, |pattern|), pattern)
  }

  /** Merging two equal-length patterns keeps every value of both in agreement. */
  lemma MergeKeepsAgreement(xs: seq<nat>, a: string, ys: seq<nat>, b: string)
    requires |a| == |b|
    requires AllAgree(xs, a) && AllAgree(ys, b)
    ensures AllAgree(xs + ys, Merge(a, b))
  {
    var m := Merge(a, b);
    forall v | v in xs + ys
      ensures Covers(BinaryOfWidth(v, |m|), m)
    {
      if v in xs {
        CoversTransitive(BinaryOfWidth(v, |a|), a, m);
      } else {
        CoversTransitive(BinaryOfWidth(v, |b|), b, m);
      }
    }
  }

  class Minterm {
    /** The decimal inputs this implicant stands for. */
    const values: seq<nat>
    /** The pattern over '0', '1' and '-'. */
    const value: string
    /** Set once this implicant has been merged with another. */
    var used: bool

    /** A new Minterm holds the given values and pattern and is not yet used. */
    constructor (values: seq<nat>, value: string)
      ensures this.values == values && this.value == value
      ensures !used
    {
      this.values := values;
      this.value := value;
      used := false;
    }

    /**
     * `m(v1, v2, ...) = pattern`: the values in decimal, separated by ", ",
     * between "m(" and ") = ", then the pattern; `ReadMinterm` reads both back.
     */
    function ToString(): (s: string)
      ensures |s| >= 6 + |value| && s[..2] == "m("
      ensures s[2..|s| - |value| - 4] == Join(DecimalTexts(values), ", ")
      ensures s[|s| - |value|..] == value
      ensures s[|s| - |value| - 4..|s| - |value|] == ") = "
      ensures ReadMinterm(s) == Some((values, value))
    {
      ToStringReadsBack(values, value);
      "m(" + Join(DecimalTexts(values), ", ") + ") = " + value
    }

    /** Same pattern and the same values in the same order. */
    predicate Equals(other: Minterm?)
      ensures Equals(other) <==> other != null && value == other.value && values == other.values
    {
      && other != null
      && value == other.value
      && |values| == |other.values|
      && forall i :: 0 <= i < |values| ==> values[i] == other.values[i]
    }

    function GetValues(): (r: seq<nat>)
      ensures r == values
    {
      values
    }

    function GetValue(): (r: string)
      ensures r == value
    {
      value
    }

    function IsUsed(): (r: bool)
      reads this
      ensures r == used
    {
      used
    }

    /** Marks this Minterm as used; values and pattern are constant. */
    method Use()
      modifies this
      ensures IsUsed()
    {
      used := true;
    }

    /**
     * Scans the two patterns left to right, writing '-' at each mismatch,
     * and gives up (null) as soon as a second mismatch is seen. Otherwise the
     * result is a fresh, unused Minterm with the merged pattern and this
     * operand's values followed by the other's.
     */
    method Combine(other: Minterm) returns (r: Minterm?)
      ensures r == null <==> MismatchCount(value, other.value) > 1
      ensures r != null ==> fresh(r) && !r.used
      ensures r != null ==> r.value == Merge(value, other.value)
      ensures r != null ==> r.values == values + other.values
      ensures r != null && |value| == |other.value| && AllAgree(values, value) && AllAgree(other.values, other.value)
        ==> AllAgree(r.values, r.value)
    {
      var diff := 0;
      var result := "";
      var i := 0;
      while i < |value|
        invariant 0 <= i <= |value|
        invariant diff == MismatchesBelow(value, other.value, i) && diff <= 1
        invariant result == Merge(value, other.value)[..i]
      {
        if i >= |other.value| || value[i] != other.value[i] {
          diff := diff + 1;
          result := result + "-";
        } else {
          result := result + [value[i]];
        }
        if diff > 1 {
          MismatchesMonotone(value, other.value, i + 1, |value|);
          return null;
        }
        i := i + 1;
      }
      assert result == Merge(value, other.value);
      if |value| == |other.value| && AllAgree(values, value) && AllAgree(other.values, other.value) {
        MergeKeepsAgreement(values, value, other.values, other.value);
      }
      r := new Minterm(values + other.values, result);
    }
  }

  /** Decimal text of each value, for `values.join(", ")`. */
  function DecimalTexts(values: seq<nat>): (r: seq<string>)
    ensures |r| == |values|
    ensures forall i :: 0 <= i < |values| ==> DecimalValue(r[i]) == values[i]
  {
    var r := seq(|values|, i requires 0 <= i < |values| => DecimalString(values[i]));
    assert forall i :: 0 <= i < |values| ==> DecimalValue(r[i]) == values[i] by {
      forall i | 0 <= i < |values| {
        DecimalRoundTrip(values[i]);
      }
    }
    r
  }

  /**
   * Reads `m(v1, v2, ...) = pattern` back into the values and the pattern:
   * the values end at the first ')', which must open ") = ".
   */
  function ReadMinterm(s: string): Option<(seq<nat>, string)>
  {
    if |s| < 2 || s[..2] != "m(" then None
    else
      var k := IndexOf(s[2..], ')');
      if k == -1 || |s| < k + 6 || s[k + 2..k + 6] != ") = " then None
      else Some((ReadDecimals(s[2..k + 2]), s[k + 6..]))
  }

  /** The values joined with ", " read back as the values. */
  lemma {:induction false} JoinedDecimals(vs: seq<nat>)
    ensures ReadDecimals(Join(DecimalTexts(vs), ", ")) == vs
    decreases |vs|
  {
    var texts := DecimalTexts(vs);
    if |vs| == 1 {
      assert Join(texts, ", ") == DecimalString(vs[0]);
    } else if |vs| >= 2 {
      var first := DecimalString(vs[0]);
      assert texts[1..] == DecimalTexts(vs[1..]);
      JoinedDecimals(vs[1..]);
      var tail := Join(DecimalTexts(vs[1..]), ", ");
      assert Join(texts, ", ") == first + ", " + tail;
      ReadDecimalsCons(first, tail);
      assert vs == [vs[0]] + vs[1..];
    }
  }

  /** The values joined with ", " are digits, commas and spaces only. */
  lemma {:induction false} JoinedDecimalsCharset(vs: seq<nat>)
    ensures forall c :: c in Join(DecimalTexts(vs), ", ") ==> c == ',' || c == ' ' || '0' <= c <= '9'
    decreases |vs|
  {
    var texts := DecimalTexts(vs);
    if |vs| == 1 {
      assert Join(texts, ", ") == DecimalString(vs[0]);
    } else if |vs| >= 2 {
      assert texts[1..] == DecimalTexts(vs[1..]);
      JoinedDecimalsCharset(vs[1..]);
      assert Join(texts, ", ") == DecimalString(vs[0]) + ", " + Join(DecimalTexts(vs[1..]), ", ");
    }
  }

  /** The rendering of any values and any pattern reads back as the same values and pattern. */
  lemma ToStringReadsBack(values: seq<nat>, value: string)
    ensures ReadMinterm("m(" + Join(DecimalTexts(values), ", ") + ") = " + value) == Some((values, value))
  {
    JoinedDecimals(values);
    JoinedDecimalsCharset(values);
    ReadFramed(Join(DecimalTexts(values), ", "), value);
  }

  /** Text between "m(" and ") = " that holds no ')' is read as the list, the rest as the pattern. */
  lemma ReadFramed(joined: string, value: string)
    requires ')' !in joined
    ensures ReadMinterm("m(" + joined + ") = " + value) == Some((ReadDecimals(joined), value))
  {
    FramedParts(joined, value);
  }

  /** Where the parts of a rendering lie: the first ')' after "m(" is the one that opens ") = ". */
  lemma FramedParts(joined: string, value: string)
    requires ')' !in joined
    ensures var s := "m(" + joined + ") = " + value;
      && s[..2] == "m("
      && IndexOf(s[2..], ')') == |joined|
      && s[|joined| + 2..|joined| + 6] == ") = "
      && s[2..|joined| + 2] == joined
      && s[|joined| + 6..] == value
  {
    var s := "m(" + joined + ") = " + value;
    var rest := s[2..];
    assert rest == joined + (") = " + value);
    assert rest[..|joined|] == joined;
    IndexOfAt(rest, ')', |joined|);
  }

  /** Equality of Minterms is reflexive and symmetric. */
  lemma EqualsIsReflexiveAndSymmetric(a: Minterm, b: Minterm)
    ensures a.Equals(a)
    ensures a.Equals(b) <==> b.Equals(a)
  {
  }
}
