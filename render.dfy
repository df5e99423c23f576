/**
 * Text produced by the tabulation engine: the expansion of `⊕` and `≡` in
 * variable names, and the sum-of-products rendering of a solution, where a
 * '1' digit is the variable, a '0' digit its negation with `¬`, a '-' digit
 * nothing, literals are joined by `⋀` and products by ` ⋁ `.
 */
module Render {
  import opened Strings
  import opened Patterns
  import opened Minterms

  const XorText: string := "(A⋀¬B)⋁(¬A⋀B)"
  const XnorText: string := "(A⋀B)⋁(¬A⋀¬B)"

  /** One variable name after preprocessing: the first `⊕`, then the first `≡`, replaced by its expansion. */
  function ExpandOperators(name: string): string
  {
    ReplaceInTurn(name, '⊕', XorText, '≡', XnorText)
  }

  /**
   * A name without either operator is kept; otherwise the first `⊕` is
   * replaced by the exclusive-or expansion and the first `≡` of the name by
   * the equivalence expansion, each where it stood, whichever comes first
   * (the exclusive-or expansion holds no `≡`).
   */
  lemma ExpandOperatorsSpec(name: string)
    ensures '⊕' !in name && '≡' !in name ==> ExpandOperators(name) == name
    ensures '⊕' in name && '≡' !in name ==>
      var i := IndexOf(name, '⊕');
      ExpandOperators(name) == name[..i] + XorText + name[i + 1..]
    ensures '⊕' !in name && '≡' in name ==>
      var i := IndexOf(name, '≡');
      ExpandOperators(name) == name[..i] + XnorText + name[i + 1..]
    ensures '⊕' in name && '≡' in name && IndexOf(name, '≡') < IndexOf(name, '⊕') ==>
      var i := IndexOf(name, '⊕');
      var j := IndexOf(name, '≡');
      ExpandOperators(name) == name[..j] + XnorText + name[j + 1..i] + XorText + name[i + 1..]
    ensures '⊕' in name && '≡' in name && IndexOf(name, '⊕') < IndexOf(name, '≡') ==>
      var i := IndexOf(name, '⊕');
      var j := IndexOf(name, '≡');
      ExpandOperators(name) == name[..i] + XorText + name[i + 1..j] + XnorText + name[j + 1..]
  {
    if '⊕' in name && '≡' in name {
      if IndexOf(name, '≡') < IndexOf(name, '⊕') {
        ExpandXnorFirst(name, IndexOf(name, '⊕'), IndexOf(name, '≡'));
      } else {
        ExpandXorFirst(name, IndexOf(name, '⊕'), IndexOf(name, '≡'));
      }
    } else if '⊕' in name {
      XorTextHasNoXnor();
    }
  }

  /** With both operators and the first `≡`, at `j`, before the first `⊕`, at `i`, each is replaced where it stood. */
  lemma ExpandXnorFirst(name: string, i: nat, j: nat)
    requires i == IndexOf(name, '⊕') && j == IndexOf(name, '≡') && j < i
    ensures ExpandOperators(name) == name[..j] + XnorText + name[j + 1..i] + XorText + name[i + 1..]
  {
    ReplaceInTurnEarlier(name, '⊕', XorText, '≡', XnorText, i, j);
  }

  /** With both operators and the first `⊕`, at `i`, before the first `≡`, at `j`, each is replaced where it stood. */
  lemma ExpandXorFirst(name: string, i: nat, j: nat)
    requires i == IndexOf(name, '⊕') && j == IndexOf(name, '≡') && i < j
    ensures ExpandOperators(name) == name[..i] + XorText + name[i + 1..j] + XnorText + name[j + 1..]
  {
    XorTextHasNoXnor();
    ReplaceInTurnLater(name, '⊕', XorText, '≡', XnorText, i, j);
  }

  /** The exclusive-or expansion holds no `≡`, so the second replacement never lands inside it. */
  lemma XorTextHasNoXnor()
    ensures '≡' !in XorText
  {
    assert XorText == ['('] + "A⋀¬B)⋁(¬A⋀B)";
  }

  /** The text a variable takes in a template literal: `undefined` past the end of the list. */
  function TemplateName(variables: seq<string>, j: nat): string
  {
    if j < |variables| then variables[j] else "undefined"
  }

  /** The text a variable takes in `Array.prototype.join`: empty past the end of the list. */
  function JoinName(variables: seq<string>, j: nat): string
  {
    if j < |variables| then variables[j] else ""
  }

  /** The literal for digit `bit` at position `j`: the name, its negation, or none. */
  function LiteralOf(bit: char, j: nat, variables: seq<string>): seq<string>
  {
    if bit == '1' then [JoinName(variables, j)]
    else if bit == '0' then ["¬" + TemplateName(variables, j)]
    else []
  }

  /** Lines 314-321 over the first `i` digits of `pattern`. */
  function LiteralsBelow(pattern: string, variables: seq<string>, i: nat): seq<string>
    requires i <= |pattern|
  {
    if i == 0 then [] else LiteralsBelow(pattern, variables, i - 1) + LiteralOf(pattern[i - 1], i - 1, variables)
  }

  /** `implicantResult` for one pattern. */
  function Literals(pattern: string, variables: seq<string>): seq<string>
  {
    LiteralsBelow(pattern, variables, |pattern|)
  }

  /** How many of the first `i` digits are '0' or '1'. */
  function LiteralCount(pattern: string, i: nat): nat
    requires i <= |pattern|
  {
    CountBelow(pattern, '1', i) + CountBelow(pattern, '0', i)
  }

  /**
   * There is one literal per '0' or '1' digit, in digit order: the digit at
   * position `j` gives the literal at position `LiteralCount(pattern, j)`,
   * the name for '1' and `¬` before the name for '0'.
   */
  lemma LiteralsSpec(pattern: string, variables: seq<string>, i: nat)
    requires i <= |pattern|
    ensures |LiteralsBelow(pattern, variables, i)| == LiteralCount(pattern, i)
    ensures forall j :: 0 <= j < i && pattern[j] == '1' ==>
      LiteralCount(pattern, j) < LiteralCount(pattern, i) &&
      LiteralsBelow(pattern, variables, i)[LiteralCount(pattern, j)] == JoinName(variables, j)
    ensures forall j :: 0 <= j < i && pattern[j] == '0' ==>
      LiteralCount(pattern, j) < LiteralCount(pattern, i) &&
      LiteralsBelow(pattern, variables, i)[LiteralCount(pattern, j)] == "¬" + TemplateName(variables, j)
  {
    LiteralsLength(pattern, variables, i);
    forall j | 0 <= j < i && (pattern[j] == '1' || pattern[j] == '0')
      ensures LiteralCount(pattern, j) < LiteralCount(pattern, i)
      ensures LiteralsBelow(pattern, variables, i)[LiteralCount(pattern, j)] == LiteralOf(pattern[j], j, variables)[0]
    {
      LiteralAt(pattern, variables, j, i);
    }
  }

  /** The literal of digit `j` sits at position `LiteralCount(pattern, j)`. */
  lemma LiteralAt(pattern: string, variables: seq<string>, j: nat, i: nat)
    requires j < i <= |pattern| && (pattern[j] == '1' || pattern[j] == '0')
    ensures LiteralCount(pattern, j) < LiteralCount(pattern, i)
    ensures |LiteralsBelow(pattern, variables, i)| == LiteralCount(pattern, i)
    ensures LiteralsBelow(pattern, variables, i)[LiteralCount(pattern, j)] == LiteralOf(pattern[j], j, variables)[0]
  {
    var upTo := LiteralsBelow(pattern, variables, j + 1);
    var c := LiteralCount(pattern, j);
    LiteralsLength(pattern, variables, j);
    LiteralsLength(pattern, variables, j + 1);
    LiteralsLength(pattern, variables, i);
    LiteralsPrefix(pattern, variables, j + 1, i);
    assert upTo == LiteralsBelow(pattern, variables, j) + LiteralOf(pattern[j], j, variables);
    assert |upTo| == c + 1 && upTo[c] == LiteralOf(pattern[j], j, variables)[0];
  }

  /** There are as many literals below `i` as '0' and '1' digits. */
  lemma {:induction false} LiteralsLength(pattern: string, variables: seq<string>, i: nat)
    requires i <= |pattern|
    ensures |LiteralsBelow(pattern, variables, i)| == LiteralCount(pattern, i)
    decreases i
  {
    if i > 0 {
      LiteralsLength(pattern, variables, i - 1);
    }
  }

  /** The literals of a shorter prefix of the pattern begin the literals of a longer one. */
  lemma {:induction false} LiteralsPrefix(pattern: string, variables: seq<string>, j: nat, i: nat)
    requires j <= i <= |pattern|
    ensures |LiteralsBelow(pattern, variables, j)| <= |LiteralsBelow(pattern, variables, i)|
    ensures forall k :: 0 <= k < |LiteralsBelow(pattern, variables, j)| ==>
      LiteralsBelow(pattern, variables, i)[k] == LiteralsBelow(pattern, variables, j)[k]
    decreases i - j
  {
    if j < i {
      LiteralsPrefix(pattern, variables, j, i - 1);
      var prev := LiteralsBelow(pattern, variables, i - 1);
      assert LiteralsBelow(pattern, variables, i) == prev + LiteralOf(pattern[i - 1], i - 1, variables);
    }
  }

  /** A pattern has no literal exactly when it has no '0' and no '1' digit. */
  lemma {:induction false} NoLiterals(pattern: string, variables: seq<string>, i: nat)
    requires i <= |pattern|
    ensures LiteralsBelow(pattern, variables, i) == [] <==>
      forall j :: 0 <= j < i ==> pattern[j] != '0' && pattern[j] != '1'
    decreases i
  {
    if i > 0 {
      NoLiterals(pattern, variables, i - 1);
    }
  }

  /** Lines 309-328: the products of the implicants that have at least one literal. */
  function Products(implicants: seq<Minterm>, variables: seq<string>): seq<string>
    decreases |implicants|
  {
    if |implicants| == 0 then []
    else
      var t := implicants[|implicants| - 1];
      Products(implicants[..|implicants| - 1], variables)
        + (if |Literals(t.value, variables)| > 0 then [Product(t, variables)] else [])
  }

  /** One implicant's literals joined by `⋀`. */
  function Product(t: Minterm, variables: seq<string>): string
  {
    Join(Literals(t.value, variables), "⋀")
  }

  /** Lines 302-331: the rendered expression for a solution. */
  function Expression(implicants: seq<Minterm>, variables: seq<string>): string
  {
    if |implicants| == 0 then "0"
    else
      var products := Products(implicants, variables);
      if |products| > 0 then Join(products, " ⋁ ") else "1"
  }

  /** An implicant has a product exactly when its pattern has a '0' or '1' digit. */
  predicate HasLiteral(t: Minterm)
  {
    exists j :: 0 <= j < |t.value| && (t.value[j] == '0' || t.value[j] == '1')
  }

  lemma HasLiteralMeans(t: Minterm, variables: seq<string>)
    ensures HasLiteral(t) <==> |Literals(t.value, variables)| > 0
  {
    NoLiterals(t.value, variables, |t.value|);
  }

  /**
   * The products are one per implicant with a literal: the `⋀`
   * join of its literals; there are no more products than implicants.
   */
  lemma {:induction false} ProductsSpec(implicants: seq<Minterm>, variables: seq<string>)
    ensures |Products(implicants, variables)| <= |implicants|
    ensures Products(implicants, variables) == [] <==> forall t :: t in implicants ==> !HasLiteral(t)
    decreases |implicants|
  {
    if |implicants| > 0 {
      var init := implicants[..|implicants| - 1];
      var t := implicants[|implicants| - 1];
      ProductsSpec(init, variables);
      HasLiteralMeans(t, variables);
      LastSplit(implicants);
    }
  }

  /** A member of a nonempty list is a member of its front or its last element. */
  lemma LastSplit(implicants: seq<Minterm>)
    requires |implicants| > 0
    ensures forall u :: u in implicants <==> u in implicants[..|implicants| - 1] || u == implicants[|implicants| - 1]
  {
    var init := implicants[..|implicants| - 1];
    forall u | u in implicants
      ensures u in init || u == implicants[|implicants| - 1]
    {
      var k :| 0 <= k < |implicants| && implicants[k] == u;
      if k < |init| {
        assert init[k] == u;
      }
    }
  }

  /** Each product is the `⋀` join of the literals of an implicant with a literal, and each such implicant has its product. */
  lemma {:induction false} ProductsMembers(implicants: seq<Minterm>, variables: seq<string>, x: string)
    ensures x in Products(implicants, variables) <==>
      exists t :: t in implicants && HasLiteral(t) && x == Product(t, variables)
    decreases |implicants|
  {
    if |implicants| > 0 {
      var init := implicants[..|implicants| - 1];
      var t := implicants[|implicants| - 1];
      ProductsMembers(init, variables, x);
      HasLiteralMeans(t, variables);
      LastSplit(implicants);
    }
  }

  /**
   * The expression is "0" for no implicants, "1" when every implicant is
   * all '-', and otherwise the ` ⋁ ` join of the products.
   */
  lemma ExpressionSpec(implicants: seq<Minterm>, variables: seq<string>)
    ensures |implicants| == 0 ==> Expression(implicants, variables) == "0"
    ensures |implicants| > 0 && (forall t :: t in implicants ==> !HasLiteral(t)) ==>
      Expression(implicants, variables) == "1"
    ensures (exists t :: t in implicants && HasLiteral(t)) ==>
      Expression(implicants, variables) == Join(Products(implicants, variables), " ⋁ ")
  {
    ProductsSpec(implicants, variables);
  }
}
