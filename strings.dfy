/**
 * String and sequence helpers that stand for the JavaScript built-ins the
 * minimiser relies on: `Array.prototype.join`, `indexOf`, `String.replace`
 * with a string pattern (first occurrence only), `new Set(list)` spread back
 * into an array, and decimal `Number.prototype.toString`.
 */
module Strings {

  /** `parts.join(sep)`. */
  function Join(parts: seq<string>, sep: string): string
    decreases |parts|
  {
    if |parts| == 0 then ""
    else if |parts| == 1 then parts[0]
    else parts[0] + sep + Join(parts[1..], sep)
  }

  /** `list.indexOf(x)`: the first index holding `x`, or -1. */
  function IndexOf<T(==)>(list: seq<T>, x: T): (r: int)
    ensures -1 <= r && (r == -1 <==> x !in list)
    ensures 0 <= r ==> r < |list| && list[r] == x && x !in list[..r]
  {
    if |list| == 0 then -1
    else if list[0] == x then 0
    else
      var r := IndexOf(list[1..], x);
      if r == -1 then -1 else r + 1
  }

  /** An index holding `x` with no `x` before it is the one `IndexOf` finds. */
  lemma IndexOfAt<T>(list: seq<T>, x: T, r: nat)
    requires r < |list| && list[r] == x && x !in list[..r]
    ensures IndexOf(list, x) == r
  {
  }

  /** `s.replace(c, rep)` where the search string is the single character `c`. */
  function ReplaceFirst<T(==)>(s: seq<T>, c: T, rep: seq<T>): (r: seq<T>)
    ensures c !in s ==> r == s
    ensures c in s ==>
      var i := IndexOf(s, c);
      r == s[..i] + rep + s[i + 1..]
  {
    var i := IndexOf(s, c);
    if i == -1 then s else s[..i] + rep + s[i + 1..]
  }

  /**
   * `s.replace(a, ra)` when `s` holds `a`, then `.replace(b, rb)` when the
   * result holds `b`; replacing an absent element changes nothing, so the
   * guards are implicit.
   */
  function ReplaceInTurn<T(==)>(s: seq<T>, a: T, ra: seq<T>, b: T, rb: seq<T>): seq<T>
  {
    ReplaceFirst(ReplaceFirst(s, a, ra), b, rb)
  }

  /** The first `b`, at `j`, comes before the first `a`, at `i`: both are replaced where they stood. */
  lemma ReplaceInTurnEarlier<T>(s: seq<T>, a: T, ra: seq<T>, b: T, rb: seq<T>, i: nat, j: nat)
    requires i == IndexOf(s, a) && j == IndexOf(s, b) && j < i
    ensures ReplaceInTurn(s, a, ra, b, rb) == s[..j] + rb + s[j + 1..i] + ra + s[i + 1..]
  {
    assert i < |s| && s[j] == b && b !in s[..j];
    ReplaceInTurnAt(s, a, ra, b, rb);
    var t := s[..i] + ra + s[i + 1..];
    assert ReplaceInTurn(s, a, ra, b, rb) == ReplaceFirst(t, b, rb);
    ReplaceAfterEarlier(s, i, ra, b, j, rb);
  }

  /** The first `a`, at `i`, comes before the first `b`, at `j`, and `ra` holds no `b`: both are replaced where they stood. */
  lemma ReplaceInTurnLater<T>(s: seq<T>, a: T, ra: seq<T>, b: T, rb: seq<T>, i: nat, j: nat)
    requires i == IndexOf(s, a) && j == IndexOf(s, b) && i < j && b !in ra
    ensures ReplaceInTurn(s, a, ra, b, rb) == s[..i] + ra + s[i + 1..j] + rb + s[j + 1..]
  {
    ReplaceInTurnAt(s, a, ra, b, rb);
    ReplaceAfterLater(s, i, ra, b, j, rb);
  }

  /** When `s` holds `a`, the second replacement works on `s` with its first `a` replaced. */
  lemma ReplaceInTurnAt<T>(s: seq<T>, a: T, ra: seq<T>, b: T, rb: seq<T>)
    requires a in s
    ensures ReplaceInTurn(s, a, ra, b, rb) == ReplaceFirst(s[..IndexOf(s, a)] + ra + s[IndexOf(s, a) + 1..], b, rb)
  {
  }

  /** The first `b` lies before the replaced position `i`: it is replaced where it was. */
  lemma ReplaceAfterEarlier<T>(s: seq<T>, i: nat, ra: seq<T>, b: T, j: nat, rb: seq<T>)
    requires j < i < |s| && s[j] == b && b !in s[..j]
    ensures ReplaceFirst(s[..i] + ra + s[i + 1..], b, rb) == s[..j] + rb + s[j + 1..i] + ra + s[i + 1..]
  {
    var t := s[..i] + ra + s[i + 1..];
    assert t[..j] == s[..j];
    IndexOfAt(t, b, j);
    assert t[j + 1..] == s[j + 1..i] + ra + s[i + 1..];
  }

  /** The first `b` lies after the replaced position `i` and `ra` holds no `b`: it is replaced `|ra| - 1` further on. */
  lemma ReplaceAfterLater<T>(s: seq<T>, i: nat, ra: seq<T>, b: T, j: nat, rb: seq<T>)
    requires i < j < |s| && s[j] == b && b !in s[..j] && b !in ra
    ensures ReplaceFirst(s[..i] + ra + s[i + 1..], b, rb) == s[..i] + ra + s[i + 1..j] + rb + s[j + 1..]
  {
    var t := s[..i] + ra + s[i + 1..];
    var front := s[..i] + ra + s[i + 1..j];
    assert t == front + s[j..];
    assert b !in front by {
      assert forall y :: y in s[i + 1..j] ==> y in s[..j];
      assert forall y :: y in s[..i] ==> y in s[..j];
    }
    IndexOfAt(t, b, |front|);
    assert t[|front| + 1..] == s[j + 1..];
  }

  /** `[...new Set(list)]`: the elements in order of first occurrence. */
  function Dedup<T(==)>(list: seq<T>): seq<T>
  {
    DedupAfter([], list)
  }

  /** Appends to `seen` each element of `rest` not yet kept. */
  function DedupAfter<T(==)>(seen: seq<T>, rest: seq<T>): seq<T>
    decreases |rest|
  {
    if |rest| == 0 then seen
    else if rest[0] in seen then DedupAfter(seen, rest[1..])
    else DedupAfter(seen + [rest[0]], rest[1..])
  }

  predicate Distinct<T(==)>(list: seq<T>)
  {
    forall i, j :: 0 <= i < j < |list| ==> list[i] != list[j]
  }

  lemma {:induction false} DedupAfterSpec<T>(seen: seq<T>, rest: seq<T>)
    requires Distinct(seen)
    ensures Distinct(DedupAfter(seen, rest))
    ensures forall x :: x in DedupAfter(seen, rest) <==> x in seen || x in rest
    ensures |seen| <= |DedupAfter(seen, rest)| && DedupAfter(seen, rest)[..|seen|] == seen
    decreases |rest|
  {
    if |rest| == 0 {
    } else if rest[0] in seen {
      DedupAfterSpec(seen, rest[1..]);
      assert forall x :: x in rest <==> x == rest[0] || x in rest[1..];
    } else {
      var next := seen + [rest[0]];
      DedupAfterSpec(next, rest[1..]);
      assert forall x :: x in rest <==> x == rest[0] || x in rest[1..];
      assert DedupAfter(seen, rest)[..|next|] == next;
      assert DedupAfter(seen, rest)[..|seen|] == next[..|seen|];
    }
  }

  /**
   * One more element at the end of the input is kept, at the end, exactly
   * when it is neither among the kept elements nor earlier in the input.
   */
  lemma {:induction false} DedupAfterSnoc<T>(seen: seq<T>, rest: seq<T>, x: T)
    ensures DedupAfter(seen, rest + [x]) ==
      DedupAfter(seen, rest) + (if x in seen || x in rest then [] else [x])
    decreases |rest|
  {
    if |rest| == 0 {
      assert rest + [x] == [x];
    } else {
      assert (rest + [x])[1..] == rest[1..] + [x];
      assert forall y :: y in rest <==> y == rest[0] || y in rest[1..];
      if rest[0] in seen {
        DedupAfterSnoc(seen, rest[1..], x);
      } else {
        DedupAfterSnoc(seen + [rest[0]], rest[1..], x);
      }
    }
  }

  /** `[...new Set(list)]` keeps the order of first occurrence: an element is appended when it is new. */
  lemma DedupSnoc<T>(list: seq<T>, x: T)
    ensures Dedup(list + [x]) == Dedup(list) + (if x in list then [] else [x])
  {
    DedupAfterSnoc([], list, x);
  }

  /** The kept elements stand in the order of their first occurrences in the input. */
  lemma {:induction false} DedupOrder<T>(list: seq<T>)
    ensures forall i, j :: 0 <= i < j < |Dedup(list)| ==> IndexOf(list, Dedup(list)[i]) < IndexOf(list, Dedup(list)[j])
    decreases |list|
  {
    if |list| > 0 {
      var init, x := list[..|list| - 1], list[|list| - 1];
      assert list == init + [x];
      DedupOrder(init);
      DedupSnoc(init, x);
      DedupSpec(init);
      var d, r := Dedup(init), Dedup(list);
      forall i, j | 0 <= i < j < |r|
        ensures IndexOf(list, r[i]) < IndexOf(list, r[j])
      {
        IndexOfPrefix(init, x, d[i]);
        if j < |d| {
          IndexOfPrefix(init, x, d[j]);
        } else {
          IndexOfAt(list, x, |init|);
        }
      }
    }
  }

  /** An element of `init` is found where it was, whatever is appended. */
  lemma IndexOfPrefix<T>(init: seq<T>, x: T, y: T)
    requires y in init
    ensures IndexOf(init + [x], y) == IndexOf(init, y)
  {
    var k := IndexOf(init, y);
    assert (init + [x])[..k] == init[..k];
    IndexOfAt(init + [x], y, k);
  }

  /** The first occurrence of each element survives, each exactly once. */
  lemma DedupSpec<T>(list: seq<T>)
    ensures Distinct(Dedup(list))
    ensures forall x :: x in Dedup(list) <==> x in list
    ensures |Dedup(list)| <= |list|
    ensures |list| > 0 ==> |Dedup(list)| > 0 && Dedup(list)[0] == list[0]
  {
    DedupAfterSpec([], list);
    DedupLength([], list);
    if |list| > 0 {
      assert [] + [list[0]] == [list[0]];
      assert Dedup(list) == DedupAfter([list[0]], list[1..]);
      DedupAfterSpec([list[0]], list[1..]);
    }
  }

  lemma {:induction false} DedupLength<T>(seen: seq<T>, rest: seq<T>)
    ensures |DedupAfter(seen, rest)| <= |seen| + |rest|
    decreases |rest|
  {
    if |rest| > 0 {
      if rest[0] in seen {
        DedupLength(seen, rest[1..]);
      } else {
        DedupLength(seen + [rest[0]], rest[1..]);
      }
    }
  }

  /** A list is free of repeats exactly when it has as many elements as its set. */
  lemma {:induction false} DistinctCard<T>(s: seq<T>)
    ensures |set x | x in s| <= |s|
    ensures Distinct(s) <==> |set x | x in s| == |s|
    decreases |s|
  {
    if |s| > 0 {
      var init := s[..|s| - 1];
      var x := s[|s| - 1];
      DistinctCard(init);
      assert (set y | y in s) == (set y | y in init) + {x};
      if x in init {
        assert (set y | y in s) == (set y | y in init);
        var i :| 0 <= i < |init| && init[i] == x;
        assert s[i] == s[|s| - 1];
      } else {
        assert Distinct(s) <==> Distinct(init) by {
          if Distinct(init) {
            forall i, j | 0 <= i < j < |s|
              ensures s[i] != s[j]
            {
              if j < |init| {
                assert init[i] == s[i] && init[j] == s[j];
              } else {
                assert s[i] == init[i];
              }
            }
          }
        }
      }
    }
  }

  /**
   * Reads back a list written with `join(", ")`: the decimal value of each
   * piece before a ',', the piece after it read from the character after the
   * following space; the empty text is the empty list.
   */
  function ReadDecimals(text: string): seq<nat>
    decreases |text|
  {
    var i := IndexOf(text, ',');
    if i == -1 then (if |text| == 0 then [] else [DecimalValue(text)])
    else
      var rest := if i + 2 <= |text| then text[i + 2..] else [];
      [DecimalValue(text[..i])] + ReadDecimals(rest)
  }

  /** The piece before the first ", " is read first, the rest after it. */
  lemma ReadDecimalsCons(first: string, tail: string)
    requires ',' !in first
    ensures ReadDecimals(first + ", " + tail) == [DecimalValue(first)] + ReadDecimals(tail)
  {
    var text := first + ", " + tail;
    assert text[..|first|] == first;
    IndexOfAt(text, ',', |first|);
    assert text[|first| + 2..] == tail;
  }

  /** Decimal rendering of a natural number, as `String(n)` gives it. */
  function DecimalString(n: nat): (s: string)
    ensures |s| >= 1 && forall i :: 0 <= i < |s| ==> '0' <= s[i] <= '9'
    decreases n
  {
    if n < 10 then [DecimalDigit(n)] else DecimalString(n / 10) + [DecimalDigit(n % 10)]
  }

  function DecimalDigit(d: nat): (c: char)
    requires d < 10
    ensures '0' <= c <= '9'
  {
    ('0' as int + d) as char
  }

  /** Reading decimal digits back. */
  function DecimalValue(s: string): nat
    decreases |s|
  {
    if |s| == 0 then 0
    else 10 * DecimalValue(s[..|s| - 1]) + DigitValue(s[|s| - 1])
  }

  function DigitValue(c: char): nat
  {
    if '0' <= c <= '9' then (c as int - '0' as int) as nat else 0
  }

  /** The decimal text of `n` reads back as `n`. */
  lemma {:induction false} DecimalRoundTrip(n: nat)
    ensures DecimalValue(DecimalString(n)) == n
    decreases n
  {
    if n >= 10 {
      DecimalRoundTrip(n / 10);
      var s := DecimalString(n);
      assert s[..|s| - 1] == DecimalString(n / 10);
      assert DigitValue(s[|s| - 1]) == n % 10;
    }
  }
}
