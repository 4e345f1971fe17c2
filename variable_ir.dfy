/**
 * The debugger's representation of a debuggee variable (`VariableIR`) and the
 * queries made on it by the expression evaluator: taking a field, taking an
 * element by index, and comparing with a literal (`match_literal`).
 */
module VariableIr {
  import opened Wrappers
  import opened Identity
  import opened Select
  import SetMatch

  type Byte = x: int | 0 <= x < 256

  /** The sixteen bytes of a UUID, most significant first. */
  type UuidBytes = s: seq<Byte> | |s| == 16 witness seq(16, _ => 0)

  const I64_MIN: int := -0x8000_0000_0000_0000
  const I64_LIMIT: int := 0x8000_0000_0000_0000
  const TWO_64: int := 0x1_0000_0000_0000_0000

  /** The integer types a scalar may have; `isize`/`usize` are 64 bits wide. */
  datatype IntKind = I8 | I16 | I32 | I64 | I128 | Isize | U8 | U16 | U32 | U64 | U128 | Usize

  /** A scalar value. Floating point values keep only their width and raw bits. */
  datatype SupportedScalar =
    | Integer(kind: IntKind, v: int)
    | Float(width: nat, bits: nat)
    | Boolean(b: bool)
    | Character(c: char)
    | Empty

  /** `ScalarVariable`, `StructVariable`, `ArrayVariable`, … as one tree. */
  datatype Node =
    | Scalar(identity: VariableIdentity, typeName: Option<string>, value: Option<SupportedScalar>)
    | Struct(identity: VariableIdentity, typeName: Option<string>, members: seq<Node>)
    | Array(identity: VariableIdentity, typeName: Option<string>, items: ItemList)
    | CEnum(identity: VariableIdentity, typeName: Option<string>, variant: Option<string>)
    | RustEnum(identity: VariableIdentity, typeName: Option<string>, selected: Option<Node>)
    | Pointer(identity: VariableIdentity, typeName: Option<string>, address: Option<Addr>)
    | Subroutine(identity: VariableIdentity, returnTypeName: Option<string>)
    | Specialized(spec: Specialization)
    | CModified(identity: VariableIdentity, typeName: Option<string>, inner: Option<Node>)

  /** The optional item list of an array or a set (`Option<Vec<VariableIR>>`). */
  datatype ItemList = NoItems | Items(list: seq<Node>)

  /** A key-value pair of a map. */
  datatype KV = KV(key: Node, value: Node)

  /** The optional pair list of a map. */
  datatype KvList = NoPairs | Pairs(pairs: seq<KV>)

  /** The structure a specialized variable was recognised from. */
  datatype Original = Original(identity: VariableIdentity, typeName: Option<string>, members: seq<Node>)

  /**
   * Variables of well-known library types (`SpecializedVariableIR`). A vector
   * keeps the array of its elements (the first member of its structure); a
   * thread-local, a cell or a reference cell its inner value; `Rc`/`Arc` the
   * address they point to.
   */
  datatype Specialization =
    | Vector(buffer: Option<Node>, original: Original)
    | VecDeque(buffer: Option<Node>, original: Original)
    | String(text: Option<string>, original: Original)
    | Str(text: Option<string>, original: Original)
    | Tls(innerValue: Option<Node>, original: Original)
    | HashMap(kvs: KvList, original: Original)
    | HashSet(elements: ItemList, original: Original)
    | BTreeMap(kvs: KvList, original: Original)
    | BTreeSet(elements: ItemList, original: Original)
    | Cell(inner: Option<Node>, original: Original)
    | RefCell(inner: Option<Node>, original: Original)
    | Rc(target: Option<Addr>, original: Original)
    | Arc(target: Option<Addr>, original: Original)
    | Uuid(bytes: Option<UuidBytes>, original: Original)

  // ---------------------------------------------------------------------
  // Integers

  /** Rust's `as i64` on an integer: keep the low 64 bits, read as two's complement. */
  function WrapI64(x: int): (r: Int64)
    ensures I64_MIN <= x < I64_LIMIT ==> r == x
    ensures (r - x) % TWO_64 == 0
  {
    (x - I64_MIN) % TWO_64 + I64_MIN
  }

  /** Rust's `as usize` on an `i64`: a negative number wraps to 2^64 plus it. */
  function I64ToUsize(i: Int64): (r: nat)
    ensures r < TWO_64 && (r - i) % TWO_64 == 0
    ensures i < 0 ==> r >= I64_LIMIT
  {
    if i >= 0 then i else i + TWO_64
  }

  /** `ScalarVariable::try_as_number`: integers of 64 bits or fewer, cast to `i64`. */
  function TryAsNumber(value: Option<SupportedScalar>): (r: Option<Int64>)
    ensures r.Some? <==> value.Some? && value.value.Integer? && value.value.kind != I128 && value.value.kind != U128
    ensures r.Some? ==> r.value == WrapI64(value.value.v)
  {
    match value
    case Some(Integer(kind, v)) => if kind == I128 || kind == U128 then None else Some(WrapI64(v))
    case _ => None
  }

  /** A `u64` above `i64::MAX` is read back as a negative number. */
  lemma TryAsNumberWrapsLargeUnsigned()
    ensures TryAsNumber(Some(Integer(U64, TWO_64 - 1))) == Some(-1)
    ensures TryAsNumber(Some(Integer(I128, 5))) == None
  {
  }

  // ---------------------------------------------------------------------
  // Identity

  /** `VariableIR::identity`: specialized variables answer with their original structure's. */
  function IdentityOf(n: Node): VariableIdentity {
    match n
    case Specialized(spec) => spec.original.identity
    case _ => n.identity
  }

  /** `name()`: the displayed identity. */
  function Name(n: Node): string {
    Render(IdentityOf(n))
  }

  /** Set the variable's own name (`identity_mut().name = …`), nothing else. */
  function WithName(n: Node, name: Option<string>): (r: Node)
    ensures IdentityOf(r) == IdentityOf(n).(name := name)
    ensures r.Specialized? <==> n.Specialized?
  {
    match n
    case Specialized(spec) =>
      Specialized(spec.(original := spec.original.(identity := spec.original.identity.(name := name))))
    case Scalar(id, t, v) => Scalar(id.(name := name), t, v)
    case Struct(id, t, ms) => Struct(id.(name := name), t, ms)
    case Array(id, t, items) => Node.Array(id.(name := name), t, items)
    case CEnum(id, t, v) => CEnum(id.(name := name), t, v)
    case RustEnum(id, t, sel) => RustEnum(id.(name := name), t, sel)
    case Pointer(id, t, a) => Pointer(id.(name := name), t, a)
    case Subroutine(id, rt) => Subroutine(id.(name := name), rt)
    case CModified(id, t, inner) => CModified(id.(name := name), t, inner)
  }

  /** `clone_and_rename`: the same variable under a new name. */
  function CloneAndRename(n: Node, newName: string): (r: Node)
    ensures IdentityOf(r).name == Some(newName)
    ensures IdentityOf(r).namespace == IdentityOf(n).namespace
  {
    WithName(n, Some(newName))
  }

  /** Renaming back to the old name gives the original variable. */
  lemma WithNameRoundTrip(n: Node, name: Option<string>)
    ensures WithName(WithName(n, name), IdentityOf(n).name) == n
  {
  }

  // ---------------------------------------------------------------------
  // Comparison with literals

  /** `SupportedScalar::equal_with_literal`. */
  function EqualWithLiteral(s: SupportedScalar, lit: Literal): (r: bool)
    ensures s.Float? || s.Empty? ==> !r
    ensures r ==> lit.Int? || lit.Bool? || (lit.String? && |lit.text| == 1)
    ensures s.Integer? ==> (r <==> lit.Int? && lit.i == WrapI64(s.v))
  {
    match s
    case Integer(_, v) => lit == Literal.Int(WrapI64(v))
    case Float(_, _) => false
    case Boolean(b) => lit == Literal.Bool(b)
    case Character(c) => lit == Literal.String([c])
    case Empty => false
  }

  function HexDigit(d: nat): (c: char)
    requires d < 16
    ensures ('0' <= c <= '9') || ('a' <= c <= 'f')
  {
    if d < 10 then ('0' as int + d) as char else ('a' as int + d - 10) as char
  }

  /** Lower-case hexadecimal, two digits per byte. */
  function Hex(bs: seq<Byte>): (r: string)
    ensures |r| == 2 * |bs|
  {
    if bs == [] then "" else [HexDigit(bs[0] / 16), HexDigit(bs[0] % 16)] + Hex(bs[1..])
  }

  /** The hyphenated lower-case form of a UUID, groups of 4-2-2-2-6 bytes. */
  function UuidText(b: UuidBytes): (r: string)
    ensures |r| == 36 && r[8] == '-' && r[13] == '-' && r[18] == '-' && r[23] == '-'
  {
    Hex(b[..4]) + "-" + Hex(b[4..6]) + "-" + Hex(b[6..8]) + "-" + Hex(b[8..10]) + "-" + Hex(b[10..])
  }

  /**
   * `match_literal`: whether the variable equals the literal. Arrays and
   * tuples compare position by position, structures by member name, enums by
   * variant name and payload, and sets by a one-to-one assignment of their
   * items to the literal's positions (`SetLiteralMatches`).
   */
  function MatchLiteral(n: Node, lit: Literal): (r: bool)
    ensures r && n.Array? ==> lit.Array?
    ensures r && n.Struct? ==> lit.Array? || lit.AssocArray?
    ensures r && n.Pointer? ==> lit.Address?
    ensures r && (n.CEnum? || n.RustEnum?) ==> lit.EnumVariant?
    ensures n.Subroutine? || n.CModified? ==> !r
    decreases n, 1
  {
    match n
    case Scalar(_, _, Some(s)) => EqualWithLiteral(s, lit)
    case Pointer(_, _, Some(p)) => lit == Literal.Address(p)
    case Array(_, _, Items(items)) =>
      lit.Array? && |lit.elems| == |items|
      && forall i :: 0 <= i < |items| ==>
           lit.elems[i].Wildcard? || MatchLiteral(items[i], lit.elems[i].lit)
    case Struct(_, _, members) =>
      (match lit
       case Array(elems) =>
         |elems| == |members|
         && forall i :: 0 <= i < |members| ==>
              elems[i].Wildcard? || MatchLiteral(members[i], elems[i].lit)
       case AssocArray(fields) =>
         |fields| == |members|
         && forall i :: 0 <= i < |members| ==>
              var name := IdentityOf(members[i]).name;
              name.Some? && name.value in fields
              && (fields[name.value].Wildcard? || MatchLiteral(members[i], fields[name.value].lit))
       case _ => false)
    case Specialized(spec) =>
      (match spec
       case String(Some(t), _) => lit == Literal.String(t)
       case Str(Some(t), _) => lit == Literal.String(t)
       case Uuid(Some(b), _) => lit == Literal.String(UuidText(b))
       case Cell(Some(inner), _) => MatchLiteral(inner, lit)
       case RefCell(Some(inner), _) => MatchLiteral(inner, lit)
       case Rc(Some(p), _) => lit == Literal.Address(p)
       case Arc(Some(p), _) => lit == Literal.Address(p)
       case Vector(Some(buffer), _) => MatchLiteral(buffer, lit)
       case VecDeque(Some(buffer), _) => MatchLiteral(buffer, lit)
       case HashSet(Items(items), _) => SetLiteralMatches(items, lit)
       case BTreeSet(Items(items), _) => SetLiteralMatches(items, lit)
       case _ => false)
    case CEnum(_, _, Some(v)) => lit.EnumVariant? && lit.payload.None? && lit.variant == v
    case RustEnum(_, _, Some(sel)) =>
      lit.EnumVariant? && IdentityOf(sel).name == Some(lit.variant)
      && (lit.payload.None? || MatchLiteral(sel, lit.payload.value))
    case _ => false
  }

  /** `table[k][j]`: item `k` matches the literal (not wildcard) at position `j`. */
  function MatchTable(items: seq<Node>, elems: seq<LiteralOrWildcard>): (table: seq<seq<bool>>)
    ensures |table| == |items| && forall k :: 0 <= k < |table| ==> |table[k]| == |elems|
    decreases items, 0
  {
    seq(|items|, k requires 0 <= k < |items| =>
      seq(|elems|, j requires 0 <= j < |elems| => elems[j].Lit? && MatchLiteral(items[k], elems[j].lit)))
  }

  /** Which positions of the literal are wildcards. */
  function Wildcards(elems: seq<LiteralOrWildcard>): (wild: seq<bool>)
    ensures |wild| == |elems| && forall j :: 0 <= j < |elems| ==> wild[j] == elems[j].Wildcard?
  {
    seq(|elems|, j requires 0 <= j < |elems| => elems[j].Wildcard?)
  }

  /**
   * A set equals an array literal of the same length when each item can be
   * given its own position, one whose literal it matches or a wildcard.
   */
  function SetLiteralMatches(items: seq<Node>, lit: Literal): (r: bool)
    ensures r ==> lit.Array? && |lit.elems| == |items|
    decreases items, 1
  {
    lit.Array? && |lit.elems| == |items|
    && SetMatch.PerfectMatch(MatchTable(items, lit.elems), Wildcards(lit.elems))
  }

  /**
   * The set comparison as the source writes it: greedy, in iteration order.
   * It never accepts a set the one-to-one comparison rejects.
   */
  function GreedySetMatch(items: seq<Node>, lit: Literal): (r: bool)
    ensures r ==> SetLiteralMatches(items, lit)
  {
    if lit.Array? && |lit.elems| == |items| then
      SetMatch.GreedyImpliesPerfect(MatchTable(items, lit.elems), Wildcards(lit.elems));
      SetMatch.GreedyMatch(MatchTable(items, lit.elems), Wildcards(lit.elems))
    else false
  }

  // ---------------------------------------------------------------------
  // Fields and indexing

  /** `find(|member| field_name == member.name())`: the first member with that name. */
  function FirstNamed(members: seq<Node>, field: string): (r: Option<Node>)
    ensures r.None? <==> forall i :: 0 <= i < |members| ==> Name(members[i]) != field
    ensures r.Some? ==> exists i :: 0 <= i < |members| && members[i] == r.value && Name(members[i]) == field
                                    && forall j :: 0 <= j < i ==> Name(members[j]) != field
  {
    if members == [] then None
    else if Name(members[0]) == field then Some(members[0])
    else
      var r := FirstNamed(members[1..], field);
      assert forall j :: 1 <= j < |members| ==> members[j] == members[1..][j - 1];
      r
  }

  /** The text of a `String`/`Str` key, if the key is one. */
  function StringKey(key: Node): Option<string> {
    match key
    case Specialized(String(Some(t), _)) => Some(t)
    case Specialized(Str(Some(t), _)) => Some(t)
    case _ => None
  }

  /** The value of the first pair whose string key equals `field`, renamed to the key. */
  function FirstStringKey(pairs: seq<KV>, field: string): (r: Option<Node>)
    ensures r.None? <==> forall i :: 0 <= i < |pairs| ==> StringKey(pairs[i].key) != Some(field)
    ensures r.Some? ==> exists i :: 0 <= i < |pairs| && StringKey(pairs[i].key) == Some(field)
                                    && r.value == CloneAndRename(pairs[i].value, field)
                                    && forall j :: 0 <= j < i ==> StringKey(pairs[j].key) != Some(field)
  {
    if pairs == [] then None
    else if StringKey(pairs[0].key) == Some(field) then Some(CloneAndRename(pairs[0].value, field))
    else
      var r := FirstStringKey(pairs[1..], field);
      assert forall j :: 1 <= j < |pairs| ==> pairs[j] == pairs[1..][j - 1];
      r
  }

  /** `VariableIR::field`. */
  function Field(n: Node, field: string): (r: Option<Node>)
    ensures r.Some? ==> n.Struct? || n.RustEnum? || n.Specialized?
  {
    match n
    case Struct(_, _, members) => FirstNamed(members, field)
    case RustEnum(_, _, Some(v)) => Field(v, field)
    case Specialized(spec) => SpecializedField(spec, field)
    case _ => None
  }

  /** The `Specialized` arm of `field`: hash maps, thread-locals and cells. */
  function SpecializedField(spec: Specialization, field: string): Option<Node> {
    match spec
    case HashMap(Pairs(pairs), _) => FirstStringKey(pairs, field)
    case Tls(Some(inner), _) => Field(inner, field)
    case Cell(Some(inner), _) => Field(inner, field)
    case RefCell(Some(inner), _) => Field(inner, field)
    case _ => None
  }

  /** The value of the first pair whose key matches the literal, named `value`. */
  function FirstKeyMatching(pairs: seq<KV>, idx: Literal): (r: Option<Node>)
    ensures r.None? <==> forall i :: 0 <= i < |pairs| ==> !MatchLiteral(pairs[i].key, idx)
    ensures r.Some? ==> exists i :: 0 <= i < |pairs| && MatchLiteral(pairs[i].key, idx)
                                    && r.value == WithName(pairs[i].value, Some("value"))
                                    && forall j :: 0 <= j < i ==> !MatchLiteral(pairs[j].key, idx)
  {
    if pairs == [] then None
    else if MatchLiteral(pairs[0].key, idx) then Some(WithName(pairs[0].value, Some("value")))
    else
      var r := FirstKeyMatching(pairs[1..], idx);
      assert forall j :: 1 <= j < |pairs| ==> pairs[j] == pairs[1..][j - 1];
      r
  }

  /** The boolean scalar `contains` answered by indexing a set. */
  function Contains(found: bool): Node {
    Scalar(NoNamespace(Some("contains")), Some("bool"), Some(Boolean(found)))
  }

  /** `VariableIR::index`. */
  function Index(n: Node, idx: Literal): (r: Option<Node>)
    ensures r.Some? ==> n.Array? || n.RustEnum? || n.Specialized?
    ensures n.Array? && r.Some? ==> idx.Int? && n.items.Items? && r.value in n.items.list
  {
    match n
    case Array(_, _, Items(items)) =>
      if idx.Int? && I64ToUsize(idx.i) < |items| then Some(items[I64ToUsize(idx.i)]) else None
    case RustEnum(_, _, Some(v)) => Index(v, idx)
    case Specialized(spec) => SpecializedIndex(spec, idx)
    case _ => None
  }

  /** The `Specialized` arm of `index`: vectors, thread-locals, cells, maps and sets. */
  function SpecializedIndex(spec: Specialization, idx: Literal): Option<Node> {
    match spec
    case Vector(Some(buffer), _) => Index(buffer, idx)
    case VecDeque(Some(buffer), _) => Index(buffer, idx)
    case Tls(Some(inner), _) => Index(inner, idx)
    case Cell(Some(inner), _) => Index(inner, idx)
    case RefCell(Some(inner), _) => Index(inner, idx)
    case BTreeMap(Pairs(pairs), _) => FirstKeyMatching(pairs, idx)
    case HashMap(Pairs(pairs), _) => FirstKeyMatching(pairs, idx)
    case BTreeSet(Items(items), _) =>
      Some(Contains(exists i :: 0 <= i < |items| && MatchLiteral(items[i], idx)))
    case HashSet(Items(items), _) =>
      Some(Contains(exists i :: 0 <= i < |items| && MatchLiteral(items[i], idx)))
    case _ => None
  }
}
