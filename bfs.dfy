/**
 * Breadth-first traversal of a variable and its descendants (`BfsIterator`)
 * and the lookups built on it (`assume_field_as_*`).
 */
module Bfs {
  import opened Wrappers
  import opened Identity
  import opened Select
  import opened VariableIr

  /**
   * The direct descendants the traversal visits: members of structures and
   * of the original structures of specialized variables (except `Rc`, `Arc`
   * and `Uuid`), items of arrays, and the selected variant of a Rust enum.
   */
  function Children(n: Node): seq<Node> {
    match n
    case Struct(_, _, members) => members
    case Array(_, _, Items(items)) => items
    case RustEnum(_, _, Some(v)) => [v]
    case Specialized(spec) =>
      if spec.Rc? || spec.Arc? || spec.Uuid? then [] else spec.original.members
    case _ => []
  }

  /** The number of variables the traversal visits from `n`, `n` included. */
  function Size(n: Node): nat
    decreases n, 1
  {
    match n
    case Struct(_, _, members) => 1 + SumSize(members)
    case Array(_, _, Items(items)) => 1 + SumSize(items)
    case RustEnum(_, _, Some(v)) => 1 + Size(v)
    case Specialized(spec) =>
      if spec.Rc? || spec.Arc? || spec.Uuid? then 1 else 1 + SumSize(spec.original.members)
    case _ => 1
  }

  function SumSize(s: seq<Node>): nat
    decreases s, 0
  {
    if s == [] then 0 else Size(s[0]) + SumSize(s[1..])
  }

  lemma {:induction false} SumSizeAppend(a: seq<Node>, b: seq<Node>)
    ensures SumSize(a + b) == SumSize(a) + SumSize(b)
  {
    if a != [] {
      assert (a + b)[1..] == a[1..] + b;
      SumSizeAppend(a[1..], b);
    } else {
      assert a + b == b;
    }
  }

  lemma SizeIsOnePlusChildren(n: Node)
    ensures Size(n) == 1 + SumSize(Children(n))
  {
    if n.RustEnum? && n.selected.Some? {
      assert SumSize([n.selected.value]) == Size(n.selected.value) + SumSize([]);
    }
  }

  /** Visiting the front of the queue and queueing its children shrinks what is left to visit. */
  lemma VisitShrinks(queue: seq<Node>)
    requires queue != []
    ensures SumSize(queue[1..] + Children(queue[0])) == SumSize(queue) - 1
  {
    SumSizeAppend(queue[1..], Children(queue[0]));
    SizeIsOnePlusChildren(queue[0]);
  }

  /** The variables the traversal yields, in order, starting from `queue`. */
  function BfsOrder(queue: seq<Node>): seq<Node>
    decreases SumSize(queue)
  {
    if queue == [] then []
    else
      VisitShrinks(queue);
      [queue[0]] + BfsOrder(queue[1..] + Children(queue[0]))
  }

  /** All children of the variables of `level`, level by level left to right. */
  function NextLevel(level: seq<Node>): seq<Node> {
    if level == [] then [] else Children(level[0]) + NextLevel(level[1..])
  }

  /**
   * The traversal is breadth-first: whatever is queued is yielded first, in
   * queue order, before any of its children, which follow in order.
   */
  lemma {:induction false} BfsOrderLevels(level: seq<Node>, rest: seq<Node>)
    ensures BfsOrder(level + rest) == level + BfsOrder(rest + NextLevel(level))
  {
    if level == [] {
      assert level + rest == rest;
      assert rest + NextLevel(level) == rest;
    } else {
      var head := level[0];
      var tail := level[1..];
      var rest' := rest + Children(head);
      BfsOrderStep(level + rest);
      QueueAfterVisit(level, rest);
      BfsOrderLevels(tail, rest');
      NextLevelStep(level);
      assert rest' + NextLevel(tail) == rest + (Children(head) + NextLevel(tail));
      assert level == [head] + tail;
    }
  }

  /** Visiting the front of `level + rest` queues its children behind `rest`. */
  lemma QueueAfterVisit(level: seq<Node>, rest: seq<Node>)
    requires level != []
    ensures (level + rest)[0] == level[0]
    ensures (level + rest)[1..] + Children(level[0]) == level[1..] + (rest + Children(level[0]))
  {
    assert (level + rest)[1..] == level[1..] + rest;
  }

  lemma NextLevelStep(level: seq<Node>)
    requires level != []
    ensures NextLevel(level) == Children(level[0]) + NextLevel(level[1..])
  {
  }

  /** One step of the traversal. */
  lemma BfsOrderStep(queue: seq<Node>)
    requires queue != []
    ensures BfsOrder(queue) == [queue[0]] + BfsOrder(queue[1..] + Children(queue[0]))
  {
  }

  /** From one variable: itself, its children, then their children, and so on. */
  lemma BfsOrderOfRoot(root: Node)
    ensures BfsOrder([root]) == [root] + BfsOrder(Children(root))
    ensures BfsOrder(Children(root)) == Children(root) + BfsOrder(NextLevel(Children(root)))
  {
    BfsOrderLevels([root], []);
    assert [root] + [] == [root];
    assert NextLevel([root]) == Children(root);
    assert [] + NextLevel([root]) == Children(root);
    BfsOrderLevels(Children(root), []);
    assert Children(root) + [] == Children(root);
    assert [] + NextLevel(Children(root)) == NextLevel(Children(root));
  }

  /** Every variable is yielded exactly once: as many as the tree holds. */
  lemma {:induction false} BfsOrderLength(queue: seq<Node>)
    ensures |BfsOrder(queue)| == SumSize(queue)
    decreases SumSize(queue)
  {
    if queue != [] {
      VisitShrinks(queue);
      BfsOrderLength(queue[1..] + Children(queue[0]));
    }
  }

  /**
   * The variables of the trees of `queue` listed depth first, each tree
   * before its children: a reference listing of the same variables.
   */
  function Flatten(queue: seq<Node>): seq<Node>
    decreases SumSize(queue)
  {
    if queue == [] then []
    else
      SizeIsOnePlusChildren(queue[0]);
      [queue[0]] + Flatten(Children(queue[0])) + Flatten(queue[1..])
  }

  lemma {:induction false} FlattenAppend(a: seq<Node>, b: seq<Node>)
    ensures Flatten(a + b) == Flatten(a) + Flatten(b)
    decreases SumSize(a)
  {
    if a == [] {
      assert a + b == b;
    } else {
      assert (a + b)[1..] == a[1..] + b;
      SizeIsOnePlusChildren(a[0]);
      FlattenAppend(a[1..], b);
    }
  }

  /**
   * The traversal yields every variable of the queued trees exactly as
   * often as the depth-first listing holds it: the two orders are
   * permutations of each other.
   */
  lemma {:induction false} BfsOrderIsPermutation(queue: seq<Node>)
    ensures multiset(BfsOrder(queue)) == multiset(Flatten(queue))
    decreases SumSize(queue)
  {
    if queue != [] {
      var head := queue[0];
      var next := queue[1..] + Children(head);
      VisitShrinks(queue);
      BfsOrderIsPermutation(next);
      FlattenAppend(queue[1..], Children(head));
      assert BfsOrder(queue) == [head] + BfsOrder(next);
      assert Flatten(queue) == [head] + Flatten(Children(head)) + Flatten(queue[1..]);
    }
  }

  /** `BfsIterator`: the queue of variables still to visit. */
  class BfsIterator {
    var queue: seq<Node>

    /** `bfs_iterator`: the traversal starts with the variable itself. */
    constructor (root: Node)
      ensures queue == [root]
    {
      queue := [root];
    }

    /** What the iterator will still yield. */
    function Remaining(): seq<Node>
      reads this
    {
      BfsOrder(queue)
    }

    /** `Iterator::next`: yield the front of the queue and queue its children. */
    method Next() returns (r: Option<Node>)
      modifies this
      ensures old(queue) == [] ==> r == None && queue == []
      ensures old(queue) != [] ==> r == Some(old(queue)[0]) && queue == old(queue)[1..] + Children(old(queue)[0])
      ensures old(Remaining()) == (if r.Some? then [r.value] else []) + Remaining()
      ensures SumSize(queue) < old(SumSize(queue)) || r == None
    {
      if queue == [] {
        return None;
      }
      var item := queue[0];
      queue := queue[1..];
      var children := Children(item);
      var i := 0;
      while i < |children|
        invariant 0 <= i <= |children|
        invariant queue == old(queue)[1..] + children[..i]
      {
        queue := queue + [children[i]];
        i := i + 1;
      }
      assert children[..i] == children;
      VisitShrinks(old(queue));
      return Some(item);
    }
  }

  /** Drain a fresh iterator: the variables in the order the traversal yields them. */
  method Collect(root: Node) returns (order: seq<Node>)
    ensures order == BfsOrder([root])
  {
    var it := new BfsIterator(root);
    order := [];
    while true
      invariant order + it.Remaining() == BfsOrder([root])
      decreases SumSize(it.queue)
    {
      var next := it.Next();
      if next.None? {
        assert it.Remaining() == [];
        return;
      }
      order := order + [next.value];
    }
  }

  // ---------------------------------------------------------------------
  // Lookups over the traversal

  datatype AssumeError = FieldNotFound(field: string) | FieldNotANumber(field: string) | IncompleteInterp(what: string)

  datatype Result<T> = Ok(value: T) | Err(error: AssumeError)

  /**
   * `assume_field_as_scalar_number`: the first variable in traversal order
   * whose displayed name is `field` must be an integer scalar of at most 64
   * bits; its value is cast to `i64`.
   */
  function AssumeFieldAsScalarNumber(root: Node, field: string): (r: Result<Int64>)
    ensures r.Err? ==> r.error == FieldNotFound(field) || r.error == FieldNotANumber(field)
    ensures r.Err? && r.error.FieldNotFound? <==>
              forall i :: 0 <= i < |BfsOrder([root])| ==> Name(BfsOrder([root])[i]) != field
    ensures var order := BfsOrder([root]);
            forall i :: 0 <= i < |order| && Name(order[i]) == field
                        && (forall j :: 0 <= j < i ==> Name(order[j]) != field) ==>
              if order[i].Scalar? && TryAsNumber(order[i].value).Some?
              then r == Ok(TryAsNumber(order[i].value).value)
              else r == Err(FieldNotANumber(field))
  {
    match FirstNamed(BfsOrder([root]), field)
    case None => Err(FieldNotFound(field))
    case Some(first) =>
      if first.Scalar? && TryAsNumber(first.value).Some? then Ok(TryAsNumber(first.value).value)
      else Err(FieldNotANumber(field))
  }

  /** The `find_map` of `assume_field_as_pointer`: named `field` and holding an address. */
  predicate IsPointerNamed(n: Node, field: string) {
    n.Pointer? && n.identity.name == Some(field) && n.address.Some?
  }

  /** The address of the first pointer of `order` named `field` that holds one. */
  function FirstPointerNamed(order: seq<Node>, field: string): (r: Option<Addr>)
    ensures r.None? <==> forall i :: 0 <= i < |order| ==> !IsPointerNamed(order[i], field)
    ensures r.Some? ==> exists i :: 0 <= i < |order| && IsPointerNamed(order[i], field)
                                    && order[i].address == r
                                    && forall j :: 0 <= j < i ==> !IsPointerNamed(order[j], field)
  {
    if order == [] then None
    else if IsPointerNamed(order[0], field) then order[0].address
    else
      var r := FirstPointerNamed(order[1..], field);
      assert forall j :: 1 <= j < |order| ==> order[j] == order[1..][j - 1];
      r
  }

  /**
   * `assume_field_as_pointer`: pointers named `field` but holding no address
   * are passed over, and the search goes on.
   */
  function AssumeFieldAsPointer(root: Node, field: string): (r: Result<Addr>)
    ensures r.Err? <==> forall i :: 0 <= i < |BfsOrder([root])| ==> !IsPointerNamed(BfsOrder([root])[i], field)
    ensures r.Err? ==> r.error == IncompleteInterp("pointer")
    ensures var order := BfsOrder([root]);
            forall i :: 0 <= i < |order| && IsPointerNamed(order[i], field)
                        && (forall j :: 0 <= j < i ==> !IsPointerNamed(order[j], field)) ==>
              r == Ok(order[i].address.value)
  {
    match FirstPointerNamed(BfsOrder([root]), field)
    case Some(p) => Ok(p)
    case None => Err(IncompleteInterp("pointer"))
  }

  /** A Rust enum (or, with `structure` set, a structure) named `field`. */
  predicate IsKindNamed(n: Node, structure: bool, field: string) {
    (if structure then n.Struct? else n.RustEnum?) && n.identity.name == Some(field)
  }

  /** The first Rust enum (or structure) of `order` named `field`. */
  function FirstKindNamed(order: seq<Node>, structure: bool, field: string): (r: Option<Node>)
    ensures r.None? <==> forall i :: 0 <= i < |order| ==> !IsKindNamed(order[i], structure, field)
    ensures r.Some? ==> exists i :: 0 <= i < |order| && order[i] == r.value && IsKindNamed(order[i], structure, field)
                                    && forall j :: 0 <= j < i ==> !IsKindNamed(order[j], structure, field)
  {
    if order == [] then None
    else if IsKindNamed(order[0], structure, field) then Some(order[0])
    else
      var r := FirstKindNamed(order[1..], structure, field);
      assert forall j :: 1 <= j < |order| ==> order[j] == order[1..][j - 1];
      r
  }

  /** `assume_field_as_rust_enum`; its error names a pointer, as in the source. */
  function AssumeFieldAsRustEnum(root: Node, field: string): (r: Result<Node>)
    ensures r.Ok? ==> r.value.RustEnum? && r.value.identity.name == Some(field)
    ensures r.Err? <==> forall i :: 0 <= i < |BfsOrder([root])| ==> !IsKindNamed(BfsOrder([root])[i], false, field)
    ensures r.Err? ==> r.error == IncompleteInterp("pointer")
    ensures var order := BfsOrder([root]);
            forall i :: 0 <= i < |order| && IsKindNamed(order[i], false, field)
                        && (forall j :: 0 <= j < i ==> !IsKindNamed(order[j], false, field)) ==>
              r == Ok(order[i])
  {
    match FirstKindNamed(BfsOrder([root]), false, field)
    case Some(e) => Ok(e)
    case None => Err(IncompleteInterp("pointer"))
  }

  /** `assume_field_as_struct`. */
  function AssumeFieldAsStruct(root: Node, field: string): (r: Result<Node>)
    ensures r.Ok? ==> r.value.Struct? && r.value.identity.name == Some(field)
    ensures r.Err? <==> forall i :: 0 <= i < |BfsOrder([root])| ==> !IsKindNamed(BfsOrder([root])[i], true, field)
    ensures r.Err? ==> r.error == IncompleteInterp("structure")
    ensures var order := BfsOrder([root]);
            forall i :: 0 <= i < |order| && IsKindNamed(order[i], true, field)
                        && (forall j :: 0 <= j < i ==> !IsKindNamed(order[j], true, field)) ==>
              r == Ok(order[i])
  {
    match FirstKindNamed(BfsOrder([root]), true, field)
    case Some(st) => Ok(st)
    case None => Err(IncompleteInterp("structure"))
  }

  /**
   * Breadth first, the variable itself is looked at before any of its
   * descendants: when it bears the name asked for, it decides the lookup.
   */
  lemma LookupStopsAtRoot(root: Node, field: string)
    requires Name(root) == field
    ensures AssumeFieldAsScalarNumber(root, field)
            == if root.Scalar? && TryAsNumber(root.value).Some? then Ok(TryAsNumber(root.value).value)
               else Err(FieldNotANumber(field))
    ensures IsPointerNamed(root, field) ==> AssumeFieldAsPointer(root, field) == Ok(root.address.value)
    ensures IsKindNamed(root, true, field) ==> AssumeFieldAsStruct(root, field) == Ok(root)
    ensures IsKindNamed(root, false, field) ==> AssumeFieldAsRustEnum(root, field) == Ok(root)
  {
    assert BfsOrder([root])[0] == root;
  }

  /** A scalar without a value, named `name`. */
  function Leaf(name: string): Node {
    Scalar(NoNamespace(Some(name)), None, None)
  }

  /** An array named `name` holding two scalars. */
  function ArrayOfTwo(name: string, first: string, second: string): Node {
    Node.Array(NoNamespace(Some(name)), None, Items([Leaf(first), Leaf(second)]))
  }

  /** The names displayed for a sequence of variables. */
  function Names(order: seq<Node>): (r: seq<string>)
    ensures |r| == |order| && forall i :: 0 <= i < |order| ==> r[i] == Name(order[i])
  {
    seq(|order|, i requires 0 <= i < |order| => Name(order[i]))
  }

  lemma LeafName(name: string)
    requires !StartsWithTwoUnderscores(name)
    ensures Name(Leaf(name)) == name
  {
  }

  /**
   * The traversal of a structure holding two arrays of two scalars each
   * yields the structure, both arrays, then the four scalars.
   */
  lemma BfsOrderTwoArrays(id: VariableIdentity, a1: Node, a2: Node, l1: Node, l2: Node, l3: Node, l4: Node)
    requires a1.Array? && a1.items == Items([l1, l2]) && a2.Array? && a2.items == Items([l3, l4])
    requires l1.Scalar? && l2.Scalar? && l3.Scalar? && l4.Scalar?
    ensures BfsOrder([Struct(id, None, [a1, a2])]) == [Struct(id, None, [a1, a2]), a1, a2, l1, l2, l3, l4]
  {
    var tree := Struct(id, None, [a1, a2]);
    var leaves := [l1, l2, l3, l4];
    BfsOrderOfRoot(tree);
    assert Children(tree) == [a1, a2];
    NextLevelOfTwoArrays(a1, a2, l1, l2, l3, l4);
    BfsOrderOfLeaves(leaves);
  }

  lemma NextLevelOfTwoArrays(a1: Node, a2: Node, l1: Node, l2: Node, l3: Node, l4: Node)
    requires a1.Array? && a1.items == Items([l1, l2]) && a2.Array? && a2.items == Items([l3, l4])
    ensures NextLevel([a1, a2]) == [l1, l2, l3, l4]
  {
    NextLevelStep([a1, a2]);
    assert [a1, a2][1..] == [a2];
    NextLevelStep([a2]);
    assert [a2][1..] == [];
  }

  /** Variables without children are yielded as they are queued, and nothing else. */
  lemma BfsOrderOfLeaves(leaves: seq<Node>)
    requires forall i :: 0 <= i < |leaves| ==> leaves[i].Scalar?
    ensures BfsOrder(leaves) == leaves
  {
    LeavesHaveNoChildren(leaves);
    BfsOrderLevels(leaves, []);
    assert leaves + [] == leaves;
    assert [] + NextLevel(leaves) == [];
  }

  /**
   * The first test tree of the source: `struct_1` holding `array_1`
   * (`scalar_1`, `scalar_2`) and `array_2` (`scalar_3`, `scalar_4`) is
   * visited in the order of these names.
   */
  lemma BfsOrderExample(names: seq<string>)
    requires names == ["struct_1", "array_1", "array_2", "scalar_1", "scalar_2", "scalar_3", "scalar_4"]
    ensures var tree := Struct(NoNamespace(Some(names[0])), None,
                               [ArrayOfTwo(names[1], names[3], names[4]), ArrayOfTwo(names[2], names[5], names[6])]);
            Names(BfsOrder([tree])) == names
  {
    var a1 := ArrayOfTwo(names[1], names[3], names[4]);
    var a2 := ArrayOfTwo(names[2], names[5], names[6]);
    BfsOrderTwoArrays(NoNamespace(Some(names[0])), a1, a2, Leaf(names[3]), Leaf(names[4]), Leaf(names[5]), Leaf(names[6]));
    var order := BfsOrder([Struct(NoNamespace(Some(names[0])), None, [a1, a2])]);
    forall i | 0 <= i < 7
      ensures Name(order[i]) == names[i]
    {
      assert !StartsWithTwoUnderscores(names[i]);
    }
  }

  /**
   * A structure holding a structure (of a scalar, a Rust enum and a scalar)
   * and a pointer: the pointer comes before the inner structure's members,
   * and the enum's selected variant comes last.
   */
  lemma BfsOrderNested(outer: Node, inner: Node, ptr: Node, l1: Node, variant: Node, l3: Node, l2: Node)
    requires outer.Struct? && outer.members == [inner, ptr] && ptr.Pointer?
    requires inner.Struct? && inner.members == [l1, variant, l3]
    requires variant.RustEnum? && variant.selected == Some(l2)
    requires l1.Scalar? && l2.Scalar? && l3.Scalar?
    ensures BfsOrder([outer]) == [outer, inner, ptr, l1, variant, l3, l2]
  {
    BfsOrderOfRoot(outer);
    assert Children(outer) == [inner, ptr];
    NestedInnerLevels(inner, ptr, l1, variant, l3, l2);
  }

  lemma NestedInnerLevels(inner: Node, ptr: Node, l1: Node, variant: Node, l3: Node, l2: Node)
    requires ptr.Pointer? && inner.Struct? && inner.members == [l1, variant, l3]
    requires variant.RustEnum? && variant.selected == Some(l2)
    requires l1.Scalar? && l2.Scalar? && l3.Scalar?
    ensures BfsOrder([inner, ptr]) == [inner, ptr, l1, variant, l3, l2]
  {
    var level1 := [inner, ptr];
    var level2 := [l1, variant, l3];
    NestedLevels(inner, ptr, l1, variant, l3, l2);
    assert BfsOrder(level1) == level1 + BfsOrder(level2) by {
      BfsOrderLevels(level1, []);
      assert level1 + [] == level1 && [] + level2 == level2;
    }
    NestedLastLevels(l1, variant, l3, l2);
    assert level1 + (level2 + [l2]) == [inner, ptr, l1, variant, l3, l2];
  }

  lemma NestedLastLevels(l1: Node, variant: Node, l3: Node, l2: Node)
    requires variant.RustEnum? && variant.selected == Some(l2)
    requires l1.Scalar? && l2.Scalar? && l3.Scalar?
    requires NextLevel([l1, variant, l3]) == [l2]
    ensures BfsOrder([l1, variant, l3]) == [l1, variant, l3, l2]
  {
    BfsOrderLevels([l1, variant, l3], []);
    assert [l1, variant, l3] + [] == [l1, variant, l3];
    assert [] + [l2] == [l2];
    BfsOrderOfLeaves([l2]);
  }

  lemma NestedLevels(inner: Node, ptr: Node, l1: Node, variant: Node, l3: Node, l2: Node)
    requires inner.Struct? && inner.members == [l1, variant, l3] && ptr.Pointer?
    requires variant.RustEnum? && variant.selected == Some(l2)
    requires l1.Scalar? && l3.Scalar?
    ensures NextLevel([inner, ptr]) == [l1, variant, l3]
    ensures NextLevel([l1, variant, l3]) == [l2]
  {
    var level1 := [inner, ptr];
    var level2 := [l1, variant, l3];
    NextLevelStep(level1);
    assert level1[1..] == [ptr];
    NextLevelStep([ptr]);
    assert [ptr][1..] == [];
    NextLevelStep(level2);
    NextLevelStep(level2[1..]);
    NextLevelStep(level2[2..]);
    assert level2[1..][1..] == level2[2..] == [l3];
    assert level2[2..][1..] == [];
  }

  /**
   * The second test tree of the source: `struct_1` holding `struct_2`
   * (`scalar_1`, `enum_1` with selected variant `scalar_2`, `scalar_3`) and
   * `pointer_1`.
   */
  function NestedTree(names: seq<string>): Node
    requires |names| == 7
  {
    var variant := RustEnum(NoNamespace(Some(names[4])), None, Some(Leaf(names[6])));
    var inner := Struct(NoNamespace(Some(names[1])), None, [Leaf(names[3]), variant, Leaf(names[5])]);
    Struct(NoNamespace(Some(names[0])), None, [inner, Pointer(NoNamespace(Some(names[2])), None, None)])
  }

  /** The second test tree is visited in the order the source's test expects. */
  lemma BfsOrderNestedExample(names: seq<string>)
    requires names == ["struct_1", "struct_2", "pointer_1", "scalar_1", "enum_1", "scalar_3", "scalar_2"]
    ensures Names(BfsOrder([NestedTree(names)])) == names
  {
    var tree := NestedTree(names);
    var inner := tree.members[0];
    BfsOrderNested(tree, inner, tree.members[1], inner.members[0], inner.members[1], inner.members[2],
                   inner.members[1].selected.value);
    var order := BfsOrder([tree]);
    forall i | 0 <= i < 7
      ensures Name(order[i]) == names[i]
    {
      assert !StartsWithTwoUnderscores(names[i]);
    }
  }

  lemma {:induction false} LeavesHaveNoChildren(leaves: seq<Node>)
    requires forall i :: 0 <= i < |leaves| ==> leaves[i].Scalar?
    ensures NextLevel(leaves) == []
  {
    if leaves != [] {
      LeavesHaveNoChildren(leaves[1..]);
    }
  }
}
