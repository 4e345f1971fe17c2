/**
 * Comparison of variables with literals (`match_literal`): the set
 * comparison as the source performs it, and what the comparison guarantees.
 */
module Matching {
  import opened Wrappers
  import opened Identity
  import opened Select
  import opened VariableIr
  import SetMatch

  /** `position` of the first literal (not wildcard) that the item matches, or the length. */
  method PositionOfMatch(item: Node, remaining: seq<LiteralOrWildcard>) returns (p: nat)
    ensures p <= |remaining|
    ensures p < |remaining| ==> remaining[p].Lit? && MatchLiteral(item, remaining[p].lit)
    ensures forall q :: 0 <= q < p ==> !(remaining[q].Lit? && MatchLiteral(item, remaining[q].lit))
  {
    p := 0;
    while p < |remaining| && !(remaining[p].Lit? && MatchLiteral(item, remaining[p].lit))
      invariant 0 <= p <= |remaining|
      invariant forall q :: 0 <= q < p ==> !(remaining[q].Lit? && MatchLiteral(item, remaining[q].lit))
    {
      p := p + 1;
    }
  }

  /** `position` of the first wildcard, or the length. */
  method PositionOfWildcard(remaining: seq<LiteralOrWildcard>) returns (p: nat)
    ensures p <= |remaining|
    ensures p < |remaining| ==> remaining[p].Wildcard?
    ensures forall q :: 0 <= q < p ==> !remaining[q].Wildcard?
  {
    p := 0;
    while p < |remaining| && !remaining[p].Wildcard?
      invariant 0 <= p <= |remaining|
      invariant forall q :: 0 <= q < p ==> !remaining[q].Wildcard?
    {
      p := p + 1;
    }
  }

  /**
   * The set branch of `match_literal` (variable/mod.rs:824-873) as written:
   * each item, in iteration order, takes the first remaining literal it
   * matches, otherwise the first remaining wildcard, and that position is
   * `swap_remove`d from a working copy of the literal.
   */
  method MatchSetLiteral(items: seq<Node>, lit: Literal) returns (r: bool)
    ensures r == GreedySetMatch(items, lit)
  {
    if !lit.Array? {
      return false;
    }
    var elems := lit.elems;
    if |elems| != |items| {
      return false;
    }
    ghost var table := MatchTable(items, elems);
    ghost var wild := Wildcards(elems);
    var remaining := elems;
    ghost var slots := SetMatch.Range(|elems|);
    var k := 0;
    while k < |items|
      invariant 0 <= k <= |items|
      invariant |slots| == |remaining| == |items| - k
      invariant SetMatch.Slots(slots, |elems|)
      invariant forall p :: 0 <= p < |slots| ==> remaining[p] == elems[slots[p]]
      invariant SetMatch.GreedyMatch(table, wild) == SetMatch.GreedyFrom(table, wild, k, slots)
    {
      var p := PositionOfMatch(items[k], remaining);
      LiteralStep(items, elems, k, remaining, slots, p);
      var taken := p;
      if p == |remaining| {
        var w := PositionOfWildcard(remaining);
        WildcardStep(elems, remaining, slots, w);
        if w == |remaining| {
          SetMatch.GreedyStuck(table, wild, k, slots);
          return false;
        }
        taken := w;
      }
      SetMatch.GreedyStep(table, wild, k, slots, taken);
      SwapRemoveBoth(elems, remaining, slots, taken);
      remaining := SetMatch.SwapRemove(remaining, taken);
      slots := SetMatch.SwapRemove(slots, taken);
      k := k + 1;
    }
    return true;
  }

  /** What `PositionOfMatch` finds is what `FirstSet` finds on the item's row of the table. */
  lemma LiteralStep(items: seq<Node>, elems: seq<LiteralOrWildcard>, k: nat,
                    remaining: seq<LiteralOrWildcard>, slots: seq<nat>, p: nat)
    requires k < |items| && |slots| == |remaining| && SetMatch.Slots(slots, |elems|)
    requires forall q :: 0 <= q < |slots| ==> remaining[q] == elems[slots[q]]
    requires p <= |remaining|
    requires p < |remaining| ==> remaining[p].Lit? && MatchLiteral(items[k], remaining[p].lit)
    requires forall q :: 0 <= q < p ==> !(remaining[q].Lit? && MatchLiteral(items[k], remaining[q].lit))
    ensures SetMatch.FirstSet(MatchTable(items, elems)[k], slots) == if p < |remaining| then Some(p) else None
  {
    var row := MatchTable(items, elems)[k];
    assert forall q :: 0 <= q < |slots| ==>
      row[slots[q]] == (remaining[q].Lit? && MatchLiteral(items[k], remaining[q].lit));
    if p < |remaining| {
      FirstIsUnique(row, slots, p);
    }
  }

  /** What `PositionOfWildcard` finds is what `FirstSet` finds among the wildcards. */
  lemma WildcardStep(elems: seq<LiteralOrWildcard>, remaining: seq<LiteralOrWildcard>, slots: seq<nat>, w: nat)
    requires |slots| == |remaining| && SetMatch.Slots(slots, |elems|)
    requires forall q :: 0 <= q < |slots| ==> remaining[q] == elems[slots[q]]
    requires w <= |remaining|
    requires w < |remaining| ==> remaining[w].Wildcard?
    requires forall q :: 0 <= q < w ==> !remaining[q].Wildcard?
    ensures SetMatch.FirstSet(Wildcards(elems), slots) == if w < |remaining| then Some(w) else None
  {
    if w < |remaining| {
      FirstIsUnique(Wildcards(elems), slots, w);
    }
  }

  /** Removing the same place from the working literal and from its positions keeps them in step. */
  lemma SwapRemoveBoth(elems: seq<LiteralOrWildcard>, remaining: seq<LiteralOrWildcard>, slots: seq<nat>, p: nat)
    requires |slots| == |remaining| && p < |slots| && SetMatch.Slots(slots, |elems|)
    requires forall q :: 0 <= q < |slots| ==> remaining[q] == elems[slots[q]]
    ensures SetMatch.Slots(SetMatch.SwapRemove(slots, p), |elems|)
    ensures forall q :: 0 <= q < |slots| - 1 ==>
              SetMatch.SwapRemove(remaining, p)[q] == elems[SetMatch.SwapRemove(slots, p)[q]]
  {
  }

  /** The first set column among the remaining positions is the one `FirstSet` finds. */
  lemma FirstIsUnique(row: seq<bool>, rem: seq<nat>, p: nat)
    requires SetMatch.Slots(rem, |row|) && p < |rem| && row[rem[p]]
    requires forall q :: 0 <= q < p ==> !row[rem[q]]
    ensures SetMatch.FirstSet(row, rem) == Some(p)
  {
  }

  /**
   * A set equals an array literal exactly when the literal has as many
   * positions as the set has items and the items can be given distinct
   * positions, each a wildcard or a literal the item matches.
   */
  lemma SetMatchIffAssignment(items: seq<Node>, lit: Literal)
    ensures SetLiteralMatches(items, lit) <==>
              lit.Array? && |lit.elems| == |items|
              && exists sigma :: SetMatch.IsAssignment(MatchTable(items, lit.elems), Wildcards(lit.elems), sigma)
  {
    if lit.Array? && |lit.elems| == |items| {
      var table := MatchTable(items, lit.elems);
      var wild := Wildcards(lit.elems);
      SetMatch.PerfectMatchIffAssignment(table, wild);
      assert SetLiteralMatches(items, lit) == SetMatch.PerfectMatch(table, wild);
      if SetMatch.PerfectMatch(table, wild) {
        var sigma :| SetMatch.IsAssignment(table, wild, sigma);
        assert SetMatch.IsAssignment(MatchTable(items, lit.elems), Wildcards(lit.elems), sigma);
        assert SetLiteralMatches(items, lit);
        assert exists sigma :: SetMatch.IsAssignment(MatchTable(items, lit.elems), Wildcards(lit.elems), sigma);
      }
    }
  }

  /** The set comparison gives the same answer whatever order the items are visited in. */
  lemma SetMatchIgnoresItemOrder(items: seq<Node>, lit: Literal, i: nat, j: nat)
    requires i < |items| && j < |items|
    ensures SetLiteralMatches(SetMatch.Swap(items, i, j), lit) == SetLiteralMatches(items, lit)
  {
    if lit.Array? && |lit.elems| == |items| {
      var table := MatchTable(items, lit.elems);
      var wild := Wildcards(lit.elems);
      assert MatchTable(SetMatch.Swap(items, i, j), lit.elems) == SetMatch.Swap(table, i, j);
      SetMatch.PerfectMatchIgnoresItemOrder(table, wild, i, j);
    }
  }

  /** A literal of wildcards only equals every set with as many items. */
  lemma SetMatchesAllWildcards(items: seq<Node>, n: nat)
    requires n == |items|
    ensures SetLiteralMatches(items, Literal.Array(seq(n, _ => Wildcard)))
  {
    var elems := seq(n, _ => Wildcard);
    SetMatch.AllWildcardsMatch(MatchTable(items, elems), Wildcards(elems));
  }

  /** An array literal of another length never equals a set. */
  lemma SetMatchNeedsSameLength(items: seq<Node>, lit: Literal)
    requires lit.Array? && |lit.elems| != |items|
    ensures !SetLiteralMatches(items, lit) && !GreedySetMatch(items, lit)
  {
  }

  // ---------------------------------------------------------------------
  // A set of two tuples on which the as-written comparison goes wrong

  function Field32(name: string, v: int): Node {
    Scalar(NoNamespace(Some(name)), Some("i32"), Some(Integer(I32, v)))
  }

  /** The tuple `(a, b)` of two `i32`. */
  function Pair(a: int, b: int): Node {
    Struct(NoNamespace(None), Some("(i32, i32)"), [Field32("__0", a), Field32("__1", b)])
  }

  /** The literal `(1, _)`. */
  function OneAnything(): Literal {
    Literal.Array([Lit(Int(1)), Wildcard])
  }

  /** The literal `(1, 2)`. */
  function OneTwo(): Literal {
    Literal.Array([Lit(Int(1)), Lit(Int(2))])
  }

  lemma PairMatches()
    ensures MatchLiteral(Pair(1, 2), OneAnything()) && MatchLiteral(Pair(1, 2), OneTwo())
    ensures MatchLiteral(Pair(1, 3), OneAnything()) && !MatchLiteral(Pair(1, 3), OneTwo())
  {
    assert !MatchLiteral(Field32("__1", 3), Int(2));
  }

  /**
   * The set `{(1, 2), (1, 3)}`, visited in that order (a B-tree set always
   * visits it so), against the literal `{(1, _), (1, 2)}`: the source
   * answers "not equal", although `(1, 3)` can take `(1, _)` and `(1, 2)`
   * can take `(1, 2)`. Visited the other way round, the answer is "equal".
   */
  lemma GreedySetMatchCounterexample()
    ensures var lit := Literal.Array([Lit(OneAnything()), Lit(OneTwo())]);
            && !GreedySetMatch([Pair(1, 2), Pair(1, 3)], lit)
            && GreedySetMatch([Pair(1, 3), Pair(1, 2)], lit)
            && SetLiteralMatches([Pair(1, 2), Pair(1, 3)], lit)
  {
    PairMatches();
    MatchTableOfTwo(Pair(1, 2), Pair(1, 3), OneAnything(), OneTwo());
    MatchTableOfTwo(Pair(1, 3), Pair(1, 2), OneAnything(), OneTwo());
    SetMatch.GreedyDependsOnItemOrder();
    SetMatch.GreedyRejectsMatchableTable();
  }

  /** The table of two items against a literal of two non-wildcard positions. */
  lemma MatchTableOfTwo(x: Node, y: Node, l1: Literal, l2: Literal)
    ensures MatchTable([x, y], [Lit(l1), Lit(l2)])
            == [[MatchLiteral(x, l1), MatchLiteral(x, l2)], [MatchLiteral(y, l1), MatchLiteral(y, l2)]]
    ensures Wildcards([Lit(l1), Lit(l2)]) == [false, false]
  {
    var w := Wildcards([Lit(l1), Lit(l2)]);
    assert !w[0] && !w[1];
    var t := MatchTable([x, y], [Lit(l1), Lit(l2)]);
    assert t[0] == [MatchLiteral(x, l1), MatchLiteral(x, l2)];
    assert t[1] == [MatchLiteral(y, l1), MatchLiteral(y, l2)];
  }

  // ---------------------------------------------------------------------
  // Other kinds of variables

  /** A pointer equals an address literal of its own value and nothing else, not even that number. */
  lemma PointerMatchesOnlyItsAddress(id: VariableIdentity, t: Option<string>, p: Addr, lit: Literal)
    ensures MatchLiteral(Pointer(id, t, Some(p)), lit) <==> lit == Literal.Address(p)
    ensures !MatchLiteral(Pointer(id, t, Some(p)), Literal.Int(if p < I64_LIMIT then p else 0))
  {
  }

  /** Integers compare after the cast to `i64`: `u64::MAX` equals `-1`. */
  lemma IntegerMatchesAfterCast(id: VariableIdentity, t: Option<string>)
    ensures MatchLiteral(Scalar(id, t, Some(Integer(U64, TWO_64 - 1))), Literal.Int(-1))
    ensures MatchLiteral(Scalar(id, t, Some(Integer(I32, 5))), Literal.Int(5))
  {
  }

  /** A C enum equals a variant literal without payload naming its value. */
  lemma CEnumMatchIff(id: VariableIdentity, t: Option<string>, v: string, lit: Literal)
    ensures MatchLiteral(CEnum(id, t, Some(v)), lit) <==> lit == EnumVariant(v, None)
  {
  }

  /**
   * A Rust enum equals a variant literal naming its selected variant; a
   * payload in the literal must then equal the variant's value.
   */
  lemma RustEnumMatchIff(id: VariableIdentity, t: Option<string>, sel: Node, variant: string, payload: Option<Literal>)
    ensures MatchLiteral(RustEnum(id, t, Some(sel)), EnumVariant(variant, payload)) <==>
              IdentityOf(sel).name == Some(variant) && (payload.None? || MatchLiteral(sel, payload.value))
  {
  }

  /** An array equals an array literal of its length whose every position is a wildcard or matches. */
  lemma ArrayMatchIff(id: VariableIdentity, t: Option<string>, items: seq<Node>, elems: seq<LiteralOrWildcard>)
    ensures MatchLiteral(Node.Array(id, t, Items(items)), Literal.Array(elems)) <==>
              |elems| == |items|
              && forall i :: 0 <= i < |items| ==> elems[i] == Wildcard || MatchLiteral(items[i], elems[i].lit)
  {
  }

  /** Cells, reference cells and vectors compare by what they hold. */
  lemma WrappersMatchInner(o: Original, inner: Node, lit: Literal)
    ensures MatchLiteral(Specialized(Cell(Some(inner), o)), lit) == MatchLiteral(inner, lit)
    ensures MatchLiteral(Specialized(RefCell(Some(inner), o)), lit) == MatchLiteral(inner, lit)
    ensures MatchLiteral(Specialized(Vector(Some(inner), o)), lit) == MatchLiteral(inner, lit)
    ensures !MatchLiteral(Specialized(Cell(None, o)), lit)
  {
  }

  /** A variable's own name plays no part in the comparison. */
  lemma MatchIgnoresOwnName(n: Node, name: Option<string>, lit: Literal)
    ensures MatchLiteral(WithName(n, name), lit) == MatchLiteral(n, lit)
  {
  }

  lemma HexDigitInjective(a: nat, b: nat)
    requires a < 16 && b < 16 && HexDigit(a) == HexDigit(b)
    ensures a == b
  {
  }

  lemma {:induction false} HexInjective(a: seq<Byte>, b: seq<Byte>)
    requires |a| == |b| && Hex(a) == Hex(b)
    ensures a == b
  {
    if a != [] {
      var ha := Hex(a);
      assert ha[0] == HexDigit(a[0] / 16) && Hex(b)[0] == HexDigit(b[0] / 16);
      assert ha[1] == HexDigit(a[0] % 16) && Hex(b)[1] == HexDigit(b[0] % 16);
      HexDigitInjective(a[0] / 16, b[0] / 16);
      HexDigitInjective(a[0] % 16, b[0] % 16);
      assert Hex(a[1..]) == ha[2..];
      assert Hex(b[1..]) == Hex(b)[2..];
      HexInjective(a[1..], b[1..]);
      assert a == [a[0]] + a[1..];
      assert b == [b[0]] + b[1..];
    }
  }

  /** Text joined by a hyphen splits back into its parts when the left parts have equal lengths. */
  lemma SplitAtHyphen(x: string, y: string, x': string, y': string)
    requires |x| == |x'| && x + "-" + y == x' + "-" + y'
    ensures x == x' && y == y'
  {
    var s := x + "-" + y;
    assert x == s[..|x|] && x' == s[..|x|];
    assert y == s[|x| + 1..] && y' == (x' + "-" + y')[|x| + 1..];
  }

  /** Distinct UUIDs have distinct texts, so a string literal equals at most one UUID. */
  lemma UuidTextInjective(a: UuidBytes, b: UuidBytes)
    requires UuidText(a) == UuidText(b)
    ensures a == b
  {
    var a2 := Hex(a[..4]) + "-" + Hex(a[4..6]);
    var b2 := Hex(b[..4]) + "-" + Hex(b[4..6]);
    var a3 := a2 + "-" + Hex(a[6..8]);
    var b3 := b2 + "-" + Hex(b[6..8]);
    var a4 := a3 + "-" + Hex(a[8..10]);
    var b4 := b3 + "-" + Hex(b[8..10]);
    SplitAtHyphen(a4, Hex(a[10..]), b4, Hex(b[10..]));
    SplitAtHyphen(a3, Hex(a[8..10]), b3, Hex(b[8..10]));
    SplitAtHyphen(a2, Hex(a[6..8]), b2, Hex(b[6..8]));
    SplitAtHyphen(Hex(a[..4]), Hex(a[4..6]), Hex(b[..4]), Hex(b[4..6]));
    HexInjective(a[..4], b[..4]);
    HexInjective(a[4..6], b[4..6]);
    HexInjective(a[6..8], b[6..8]);
    HexInjective(a[8..10], b[8..10]);
    HexInjective(a[10..], b[10..]);
    assert a == a[..4] + a[4..6] + a[6..8] + a[8..10] + a[10..];
    assert b == b[..4] + b[4..6] + b[6..8] + b[8..10] + b[10..];
  }

  /** Two UUID variables that equal the same literal hold the same bytes. */
  lemma UuidMatchUnique(o1: Original, o2: Original, a: UuidBytes, b: UuidBytes, lit: Literal)
    requires MatchLiteral(Specialized(Uuid(Some(a), o1)), lit)
    requires MatchLiteral(Specialized(Uuid(Some(b), o2)), lit)
    ensures a == b
  {
    UuidTextInjective(a, b);
  }
}
