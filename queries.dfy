/**
 * Navigation in a variable: `field`, `index` and the in-place slicing of an
 * array (`ArrayVariable::slice`), with the properties the expression
 * evaluator relies on.
 */
module Queries {
  import opened Wrappers
  import opened Identity
  import opened Select
  import opened VariableIr

  // ---------------------------------------------------------------------
  // Slicing

  /**
   * The bounds `slice` accepts without panicking: `drain(..left)` needs
   * `left <= len`, and `drain(right - left..)` needs `left <= right` (no
   * `usize` underflow) and `right <= len`. A missing bound is 0 or the length.
   */
  predicate SliceInBounds(items: ItemList, left: Option<nat>, right: Option<nat>) {
    items.Items? ==>
      left.GetOr(0) <= |items.list|
      && (right.Some? ==> left.GetOr(0) <= right.value <= |items.list|)
  }

  /** The item list `slice(left, right)` leaves: positions `left..right` of the old one. */
  function Sliced(items: ItemList, left: Option<nat>, right: Option<nat>): (r: ItemList)
    requires SliceInBounds(items, left, right)
    ensures r.Items? <==> items.Items?
    ensures r.Items? ==>
              var lo := left.GetOr(0);
              var hi := right.GetOr(|items.list|);
              |r.list| == hi - lo && forall k :: 0 <= k < |r.list| ==> r.list[k] == items.list[lo + k]
  {
    match items
    case NoItems => NoItems
    case Items(list) => Items(list[left.GetOr(0)..right.GetOr(|list|)])
  }

  /** An array variable whose item vector `slice` drains in place. */
  class ArrayVariable {
    var identity: VariableIdentity
    var typeName: Option<string>
    var items: ItemList

    constructor (identity: VariableIdentity, typeName: Option<string>, items: ItemList)
      ensures this.identity == identity && this.typeName == typeName && this.items == items
    {
      this.identity := identity;
      this.typeName := typeName;
      this.items := items;
    }

    /** The variable as a node of the variable tree. */
    function AsNode(): (n: Node)
      reads this
      ensures n.Array? && n.items == items && IdentityOf(n) == identity
    {
      Node.Array(identity, typeName, items)
    }

    /**
     * `ArrayVariable::slice`: drop the first `left` items, then keep the
     * first `right - left` of the rest. Absent items stay absent.
     */
    method Slice(left: Option<nat>, right: Option<nat>)
      requires SliceInBounds(items, left, right)
      modifies this
      ensures items == Sliced(old(items), left, right)
      ensures identity == old(identity) && typeName == old(typeName)
    {
      if items.Items? {
        var list := items.list;
        if left.Some? {
          list := list[left.value..];
        }
        if right.Some? {
          list := list[..right.value - left.GetOr(0)];
        }
        items := Items(list);
      }
    }
  }

  /** Slicing without bounds changes nothing. */
  lemma SliceWithoutBounds(items: ItemList)
    ensures Sliced(items, None, None) == items
  {
    if items.Items? {
      assert items.list[0..|items.list|] == items.list;
    }
  }

  /** Slicing twice is slicing once, with the inner bounds shifted by the outer left bound. */
  lemma SliceTwice(items: ItemList, l1: nat, r1: nat, l2: nat, r2: nat)
    requires SliceInBounds(items, Some(l1), Some(r1))
    requires SliceInBounds(Sliced(items, Some(l1), Some(r1)), Some(l2), Some(r2))
    ensures SliceInBounds(items, Some(l1 + l2), Some(l1 + r2))
    ensures Sliced(Sliced(items, Some(l1), Some(r1)), Some(l2), Some(r2)) == Sliced(items, Some(l1 + l2), Some(l1 + r2))
  {
  }

  /** Element `k` of the sliced array is element `left + k` of the original one. */
  lemma IndexAfterSlice(id: VariableIdentity, t: Option<string>, list: seq<Node>, left: Option<nat>, right: Option<nat>, k: Int64)
    requires SliceInBounds(Items(list), left, right)
    requires 0 <= k && left.GetOr(0) + k < right.GetOr(|list|)
    ensures left.GetOr(0) + k < I64_LIMIT ==>
              Index(Node.Array(id, t, Sliced(Items(list), left, right)), Literal.Int(k))
              == Index(Node.Array(id, t, Items(list)), Literal.Int(left.GetOr(0) + k))
    ensures Index(Node.Array(id, t, Sliced(Items(list), left, right)), Literal.Int(k)).Some?
  {
  }

  // ---------------------------------------------------------------------
  // Indexing

  /** A non-negative index selects that item when it is in range, and nothing otherwise. */
  lemma IndexArrayNonNegative(id: VariableIdentity, t: Option<string>, items: seq<Node>, i: Int64)
    requires 0 <= i
    ensures Index(Node.Array(id, t, Items(items)), Literal.Int(i)) == if i < |items| then Some(items[i]) else None
  {
  }

  /**
   * A negative index selects nothing: cast to `usize` it exceeds every
   * vector length, as a vector never holds more than `isize::MAX` items.
   */
  lemma IndexArrayNegative(id: VariableIdentity, t: Option<string>, items: seq<Node>, i: Int64)
    requires i < 0 && |items| <= I64_LIMIT
    ensures Index(Node.Array(id, t, Items(items)), Literal.Int(i)) == None
  {
  }

  /** Only integer literals index an array, and an array without items has none to give. */
  lemma IndexArrayNeedsInt(id: VariableIdentity, t: Option<string>, items: ItemList, idx: Literal)
    requires !idx.Int? || items.NoItems?
    ensures Index(Node.Array(id, t, items), idx) == None
  {
  }

  /** A vector is indexed through the array of its elements. */
  lemma IndexVector(o: Original, id: VariableIdentity, t: Option<string>, items: seq<Node>, i: Int64)
    requires 0 <= i
    ensures Index(Specialized(Vector(Some(Node.Array(id, t, Items(items))), o)), Literal.Int(i))
            == if i < |items| then Some(items[i]) else None
  {
    IndexArrayNonNegative(id, t, items, i);
  }

  /**
   * Indexing a map by a literal yields the value of the first pair whose key
   * matches it, renamed `value`; hash maps and B-tree maps agree.
   */
  lemma IndexMapFirstMatch(o: Original, pairs: seq<KV>, idx: Literal)
    ensures var r := Index(Specialized(HashMap(Pairs(pairs), o)), idx);
            && r == Index(Specialized(BTreeMap(Pairs(pairs), o)), idx)
            && (r.Some? <==> exists i :: 0 <= i < |pairs| && MatchLiteral(pairs[i].key, idx))
            && (r.Some? ==> exists i :: 0 <= i < |pairs| && MatchLiteral(pairs[i].key, idx)
                                       && IdentityOf(r.value).name == Some("value")
                                       && r.value == WithName(pairs[i].value, Some("value")))
  {
    IndexOfHashMap(o, pairs, idx);
    IndexOfBTreeMap(o, pairs, idx);
    var r := FirstKeyMatching(pairs, idx);
    if r.Some? {
      var i :| 0 <= i < |pairs| && MatchLiteral(pairs[i].key, idx) && r.value == WithName(pairs[i].value, Some("value"));
      assert IdentityOf(r.value).name == Some("value");
    }
  }

  /**
   * The loop of `index` over a map's pairs: the value of the first pair
   * whose key matches the literal, renamed `value`.
   */
  method FindValueByKey(pairs: seq<KV>, idx: Literal) returns (r: Option<Node>)
    ensures r == FirstKeyMatching(pairs, idx)
  {
    var i := 0;
    while i < |pairs|
      invariant 0 <= i <= |pairs|
      invariant FirstKeyMatching(pairs, idx) == FirstKeyMatching(pairs[i..], idx)
    {
      assert pairs[i..][1..] == pairs[i + 1..];
      if MatchLiteral(pairs[i].key, idx) {
        return Some(WithName(pairs[i].value, Some("value")));
      }
      i := i + 1;
    }
    return None;
  }

  /** A hash map is indexed by its first matching key. */
  lemma IndexOfHashMap(o: Original, pairs: seq<KV>, idx: Literal)
    ensures Index(Specialized(HashMap(Pairs(pairs), o)), idx) == FirstKeyMatching(pairs, idx)
  {
    IndexOfSpecialized(HashMap(Pairs(pairs), o), idx);
  }

  /** A B-tree map is indexed by its first matching key. */
  lemma IndexOfBTreeMap(o: Original, pairs: seq<KV>, idx: Literal)
    ensures Index(Specialized(BTreeMap(Pairs(pairs), o)), idx) == FirstKeyMatching(pairs, idx)
  {
    var spec := BTreeMap(Pairs(pairs), o);
    IndexOfSpecialized(spec, idx);
    assert SpecializedIndex(spec, idx) == FirstKeyMatching(pairs, idx);
  }

  /** Indexing a specialized node is indexing its specialization. */
  lemma IndexOfSpecialized(spec: Specialization, idx: Literal)
    ensures Index(Specialized(spec), idx) == SpecializedIndex(spec, idx)
  {
  }

  /**
   * Indexing a set answers a boolean scalar named `contains`, true exactly
   * when some item matches the literal.
   */
  lemma IndexSetIsMembership(o: Original, items: seq<Node>, idx: Literal, k: nat)
    requires k < |items| && MatchLiteral(items[k], idx)
    ensures Index(Specialized(HashSet(Items(items), o)), idx) == Some(Contains(true))
    ensures Index(Specialized(BTreeSet(Items(items), o)), idx) == Some(Contains(true))
    ensures Name(Contains(true)) == "contains"
  {
    IndexOfSet(o, items, idx);
    assert !StartsWithTwoUnderscores("contains");
  }

  /** Both kinds of set answer whether some item matches. */
  lemma IndexOfSet(o: Original, items: seq<Node>, idx: Literal)
    ensures Index(Specialized(HashSet(Items(items), o)), idx) == Some(Contains(exists i :: 0 <= i < |items| && MatchLiteral(items[i], idx)))
    ensures Index(Specialized(BTreeSet(Items(items), o)), idx) == Some(Contains(exists i :: 0 <= i < |items| && MatchLiteral(items[i], idx)))
  {
  }

  /** When no item matches, the set answers `contains = false`. */
  lemma IndexSetWithoutMatch(o: Original, items: seq<Node>, idx: Literal)
    requires forall k :: 0 <= k < |items| ==> !MatchLiteral(items[k], idx)
    ensures Index(Specialized(HashSet(Items(items), o)), idx) == Some(Contains(false))
    ensures Index(Specialized(BTreeSet(Items(items), o)), idx) == Some(Contains(false))
  {
    IndexOfSet(o, items, idx);
  }

  /** Indexing ignores the variable's own name. */
  lemma IndexIgnoresOwnName(n: Node, name: Option<string>, idx: Literal)
    ensures Index(WithName(n, name), idx) == Index(n, idx)
  {
  }

  // ---------------------------------------------------------------------
  // Fields

  /** A structure has a field exactly when one of its members has that name; the first such is taken. */
  lemma FieldOfStruct(id: VariableIdentity, t: Option<string>, members: seq<Node>, f: string)
    ensures var r := Field(Struct(id, t, members), f);
            && (r.Some? <==> exists i :: 0 <= i < |members| && Name(members[i]) == f)
            && (r.Some? ==> exists i :: 0 <= i < |members| && r.value == members[i] && Name(members[i]) == f
                                       && forall j :: 0 <= j < i ==> Name(members[j]) != f)
  {
  }

  /** A field of a hash map is the value under an equal string key, renamed after the key. */
  lemma FieldOfHashMap(o: Original, pairs: seq<KV>, f: string)
    ensures var r := Field(Specialized(HashMap(Pairs(pairs), o)), f);
            && (r.Some? <==> exists i :: 0 <= i < |pairs| && StringKey(pairs[i].key) == Some(f))
            && (r.Some? ==> IdentityOf(r.value).name == Some(f)
                            && exists i :: 0 <= i < |pairs| && StringKey(pairs[i].key) == Some(f)
                                           && r.value == WithName(pairs[i].value, Some(f)))
  {
    FieldOfHashMapIsFirstStringKey(o, pairs, f);
    var r := FirstStringKey(pairs, f);
    if r.Some? {
      var i :| 0 <= i < |pairs| && StringKey(pairs[i].key) == Some(f) && r.value == CloneAndRename(pairs[i].value, f);
      assert IdentityOf(r.value).name == Some(f);
    }
  }

  lemma FieldOfHashMapIsFirstStringKey(o: Original, pairs: seq<KV>, f: string)
    ensures Field(Specialized(HashMap(Pairs(pairs), o)), f) == FirstStringKey(pairs, f)
  {
    FieldOfSpecialized(HashMap(Pairs(pairs), o), f);
  }

  /** B-tree maps, sets, arrays and scalars have no fields. */
  lemma FieldUnsupported(o: Original, kvs: KvList, elems: ItemList, id: VariableIdentity, t: Option<string>,
                         s: Option<SupportedScalar>, f: string)
    ensures Field(Specialized(BTreeMap(kvs, o)), f) == None
    ensures Field(Specialized(HashSet(elems, o)), f) == None
    ensures Field(Node.Array(id, t, elems), f) == None
    ensures Field(Scalar(id, t, s), f) == None
  {
  }

  /** A Rust enum forwards `field` to the variant it holds, and has none without one. */
  lemma FieldThroughRustEnum(id: VariableIdentity, t: Option<string>, inner: Node, f: string)
    ensures Field(RustEnum(id, t, Some(inner)), f) == Field(inner, f)
    ensures Field(RustEnum(id, t, None), f) == None
  {
  }

  /** Cells and thread-locals forward `field` to the value they hold. */
  lemma FieldThroughCells(spec: Specialization, inner: Node, f: string)
    requires (spec.Cell? && spec.inner == Some(inner)) || (spec.RefCell? && spec.inner == Some(inner))
             || (spec.Tls? && spec.innerValue == Some(inner))
    ensures Field(Specialized(spec), f) == Field(inner, f)
  {
    FieldOfSpecialized(spec, f);
    assert SpecializedField(spec, f) == Field(inner, f);
  }

  lemma FieldOfSpecialized(spec: Specialization, f: string)
    ensures Field(Specialized(spec), f) == SpecializedField(spec, f)
  {
  }

  /** A field found in a structure is named as asked (the lookup key is its name). */
  lemma {:induction false} FieldHasAskedName(n: Node, f: string)
    requires Field(n, f).Some?
    ensures n.Struct? ==> Name(Field(n, f).value) == f
    ensures n.Specialized? && n.spec.HashMap? ==> IdentityOf(Field(n, f).value).name == Some(f)
  {
    match n
    case Struct(id, t, members) =>
      FieldOfStruct(id, t, members, f);
    case Specialized(HashMap(Pairs(pairs), o)) =>
      FieldOfHashMap(o, pairs, f);
    case _ =>
  }

  /** Taking a field ignores the variable's own name. */
  lemma FieldIgnoresOwnName(n: Node, name: Option<string>, f: string)
    ensures Field(WithName(n, name), f) == Field(n, f)
  {
  }
}
