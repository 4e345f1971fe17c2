/**
 * Type-directed decoding (`VariableParser`): a base type's DWARF encoding
 * and byte size choose the scalar kind, the value bytes are read in
 * little-endian order, and enumerations pick their variant by discriminant
 * (DWARF 5, sections 5.1 and 5.7.10; encodings from section 7.8).
 */
module Parser {
  import opened Wrappers
  import opened Identity
  import opened Select
  import opened VariableIr

  // Base type encodings, DWARF 5 section 7.8 (table 7.11).
  const DW_ATE_address: nat := 0x1
  const DW_ATE_boolean: nat := 0x2
  const DW_ATE_float: nat := 0x4
  const DW_ATE_signed: nat := 0x5
  const DW_ATE_signed_char: nat := 0x6
  const DW_ATE_unsigned: nat := 0x7
  const DW_ATE_unsigned_char: nat := 0x8
  const DW_ATE_UTF: nat := 0x10
  const DW_ATE_ASCII: nat := 0x12

  /** A base type declaration: its name, byte size and encoding, each possibly absent. */
  datatype ScalarType = ScalarType(name: Option<string>, byteSize: Option<nat>, encoding: Option<nat>)

  /** What `parse_scalar` decides to read before looking at the bytes. */
  datatype Shape = IntShape(kind: IntKind) | FloatShape(width: nat) | BoolShape | CharShape | EmptyShape

  /** Size in bytes of an integer kind on a 64-bit target. */
  function KindWidth(k: IntKind): (w: nat)
    ensures w >= 1
  {
    match k
    case I8 => 1  case U8 => 1
    case I16 => 2 case U16 => 2
    case I32 => 4 case U32 => 4
    case I64 => 8 case U64 => 8 case Isize => 8 case Usize => 8
    case I128 => 16 case U128 => 16
  }

  predicate IsSigned(k: IntKind) {
    k == I8 || k == I16 || k == I32 || k == I64 || k == I128 || k == Isize
  }

  /** The kind chosen for a signed (`unsigned == false`) or unsigned integer of a byte size. */
  function IntKindOfSize(unsigned: bool, size: nat, name: Option<string>): (r: Option<Shape>)
    ensures r.Some? <==> size in {0, 1, 2, 4, 8, 16}
    ensures r == Some(EmptyShape) <==> size == 0
    ensures r.Some? && size != 0 ==>
              r.value.IntShape? && KindWidth(r.value.kind) == size && IsSigned(r.value.kind) == !unsigned
  {
    match size
    case 0 => Some(EmptyShape)
    case 1 => Some(IntShape(if unsigned then U8 else I8))
    case 2 => Some(IntShape(if unsigned then U16 else I16))
    case 4 => Some(IntShape(if unsigned then U32 else I32))
    case 8 =>
      if unsigned then Some(IntShape(if name == Some("usize") then Usize else U64))
      else Some(IntShape(if name == Some("isize") then Isize else I64))
    case 16 => Some(IntShape(if unsigned then U128 else I128))
    case _ => None
  }

  /**
   * The shape `parse_scalar` reads for a base type; `None` for an absent or
   * unknown encoding and for an unexpected size. A missing byte size counts
   * as 0.
   */
  function ShapeOf(t: ScalarType): (s: Option<Shape>)
    ensures s.Some? ==> t.encoding.Some?
    ensures s.Some? && s.value.FloatShape? ==>
              t.encoding == Some(DW_ATE_float) && s.value.width == t.byteSize.GetOr(0) && s.value.width in {4, 8}
  {
    if t.encoding.None? then None
    else
      var e := t.encoding.value;
      var size := t.byteSize.GetOr(0);
      if e == DW_ATE_address then Some(IntShape(Usize))
      else if e == DW_ATE_signed_char then Some(IntShape(I8))
      else if e == DW_ATE_unsigned_char then Some(IntShape(U8))
      else if e == DW_ATE_signed then IntKindOfSize(false, size, t.name)
      else if e == DW_ATE_unsigned then IntKindOfSize(true, size, t.name)
      else if e == DW_ATE_float then (if size == 4 || size == 8 then Some(FloatShape(size)) else None)
      else if e == DW_ATE_boolean then Some(BoolShape)
      else if e == DW_ATE_UTF || e == DW_ATE_ASCII then Some(CharShape)
      else None
  }

  /** Bytes read for a shape (`size_of::<T>()` of the Rust type read). */
  function ShapeWidth(s: Shape): nat {
    match s
    case IntShape(k) => KindWidth(k)
    case FloatShape(w) => w
    case BoolShape => 1
    case CharShape => 4
    case EmptyShape => 0
  }

  // ---------------------------------------------------------------------
  // Little-endian integers

  function Pow256(n: nat): (p: nat)
    ensures p >= 1
  {
    if n == 0 then 1 else 256 * Pow256(n - 1)
  }

  /** Half of `Pow256(w)`: the first value a `w`-byte signed integer cannot hold. */
  function SignedLimit(w: nat): (h: int)
    requires w >= 1
    ensures 2 * h == Pow256(w) && h >= 1
  {
    128 * Pow256(w - 1)
  }

  /** The unsigned value of bytes stored least significant first. */
  function LittleEndian(bs: seq<Byte>): (v: nat)
    ensures v < Pow256(|bs|)
  {
    if bs == [] then 0 else bs[0] + 256 * LittleEndian(bs[1..])
  }

  /** The `w` bytes, least significant first, that store `v`. */
  function ToLittleEndian(v: nat, w: nat): (bs: seq<Byte>)
    requires v < Pow256(w)
    ensures |bs| == w && LittleEndian(bs) == v
  {
    if w == 0 then [] else [v % 256] + ToLittleEndian(v / 256, w - 1)
  }

  /** Storing the value read from some bytes gives back those bytes. */
  lemma {:induction false} LittleEndianInjective(bs: seq<Byte>)
    ensures ToLittleEndian(LittleEndian(bs), |bs|) == bs
  {
    if bs != [] {
      var v := LittleEndian(bs);
      assert v % 256 == bs[0] && v / 256 == LittleEndian(bs[1..]);
      LittleEndianInjective(bs[1..]);
    }
  }

  /** Two's complement reading of a `w`-byte unsigned value. */
  function ToSigned(u: nat, w: nat): (v: int)
    requires w >= 1 && u < Pow256(w)
    ensures -SignedLimit(w) <= v < SignedLimit(w)
    ensures v == u || v == u - Pow256(w)
  {
    if u >= SignedLimit(w) then u - Pow256(w) else u
  }

  /** Whether `v` is a value of the integer kind. */
  predicate InKindRange(k: IntKind, v: int) {
    if IsSigned(k) then -SignedLimit(KindWidth(k)) <= v < SignedLimit(KindWidth(k))
    else 0 <= v < Pow256(KindWidth(k))
  }

  predicate IsScalarValue(code: nat) {
    code < 0xD800 || (0xE000 <= code < 0x11_0000)
  }

  /**
   * What `read_unaligned` needs for the read to be defined: enough bytes, a
   * boolean byte of 0 or 1, and a Unicode scalar value for a `char`.
   */
  predicate Readable(s: Shape, bytes: seq<Byte>) {
    |bytes| >= ShapeWidth(s)
    && (s.BoolShape? ==> bytes[0] <= 1)
    && (s.CharShape? ==> IsScalarValue(LittleEndian(bytes[..4])))
  }

  /** `scalar_from_bytes` on a little-endian target. */
  function Decode(s: Shape, bytes: seq<Byte>): (r: SupportedScalar)
    requires Readable(s, bytes)
    ensures s.IntShape? ==> r.Integer? && r.kind == s.kind && InKindRange(r.kind, r.v)
  {
    match s
    case IntShape(k) =>
      var u := LittleEndian(bytes[..KindWidth(k)]);
      Integer(k, if IsSigned(k) then ToSigned(u, KindWidth(k)) else u)
    case FloatShape(w) => Float(w, LittleEndian(bytes[..w]))
    case BoolShape => Boolean(bytes[0] == 1)
    case CharShape => Character(LittleEndian(bytes[..4]) as char)
    case EmptyShape => Empty
  }

  /** The bytes a value must be readable as, if the shape reads any. */
  predicate ValueReadable(t: ScalarType, value: Option<seq<Byte>>) {
    ShapeOf(t).Some? && value.Some? ==> Readable(ShapeOf(t).value, value.value)
  }

  /**
   * `parse_scalar`: the scalar keeps the type's name; its value is `Empty`
   * for a zero-sized integer even without bytes, the decoded bytes for a
   * known shape, and absent for missing bytes or an unknown shape.
   */
  function ParseScalar(identity: VariableIdentity, value: Option<seq<Byte>>, t: ScalarType): (n: Node)
    requires ValueReadable(t, value)
    ensures n.Scalar? && n.identity == identity && n.typeName == t.name
    ensures n.value.Some? <==> ShapeOf(t).Some? && (ShapeOf(t) == Some(EmptyShape) || value.Some?)
  {
    var v :=
      match ShapeOf(t)
      case None => None
      case Some(EmptyShape) => Some(Empty)
      case Some(s) => if value.Some? then Some(Decode(s, value.value)) else None;
    Scalar(identity, t.name, v)
  }

  // ---------------------------------------------------------------------
  // Properties of the scalar rules

  /** Integer encodings choose a kind of exactly the declared size and of the encoded signedness. */
  lemma IntegerShapeMatchesDeclaration(t: ScalarType)
    requires t.encoding == Some(DW_ATE_signed) || t.encoding == Some(DW_ATE_unsigned)
    requires t.byteSize.GetOr(0) in {1, 2, 4, 8, 16}
    ensures ShapeOf(t).Some? && ShapeOf(t).value.IntShape?
    ensures KindWidth(ShapeOf(t).value.kind) == t.byteSize.value
    ensures IsSigned(ShapeOf(t).value.kind) <==> t.encoding == Some(DW_ATE_signed)
  {
  }

  /** The pointer-sized kinds are chosen by the type's name only. */
  lemma PointerSizedByName(t: ScalarType)
    requires t.byteSize == Some(8)
    ensures t.encoding == Some(DW_ATE_signed) ==> (ShapeOf(t) == Some(IntShape(Isize)) <==> t.name == Some("isize"))
    ensures t.encoding == Some(DW_ATE_unsigned) ==> (ShapeOf(t) == Some(IntShape(Usize)) <==> t.name == Some("usize"))
  {
  }

  /** A zero-sized integer is `Empty` whatever the bytes; a zero-sized float is not decoded. */
  lemma ZeroSizedScalars(id: VariableIdentity, name: Option<string>, value: Option<seq<Byte>>)
    ensures ParseScalar(id, value, ScalarType(name, None, Some(DW_ATE_signed))).value == Some(Empty)
    ensures ParseScalar(id, value, ScalarType(name, Some(0), Some(DW_ATE_unsigned))).value == Some(Empty)
    ensures ParseScalar(id, value, ScalarType(name, Some(0), Some(DW_ATE_float))).value == None
  {
  }

  /** Unknown encodings and unexpected sizes give a scalar without a value. */
  lemma UnknownTypesHaveNoValue(id: VariableIdentity, t: ScalarType, value: Option<seq<Byte>>)
    requires t.encoding.None?
             || t.encoding.value !in {DW_ATE_address, DW_ATE_boolean, DW_ATE_float, DW_ATE_signed,
                                      DW_ATE_signed_char, DW_ATE_unsigned, DW_ATE_unsigned_char,
                                      DW_ATE_UTF, DW_ATE_ASCII}
             || ((t.encoding == Some(DW_ATE_signed) || t.encoding == Some(DW_ATE_unsigned))
                 && t.byteSize.GetOr(0) !in {0, 1, 2, 4, 8, 16})
             || (t.encoding == Some(DW_ATE_float) && t.byteSize.GetOr(0) !in {4, 8})
    ensures ParseScalar(id, value, t).value == None
  {
  }

  /** An integer stored in little-endian order is read back as itself. */
  lemma ParseScalarRoundTrip(id: VariableIdentity, t: ScalarType, v: int)
    requires ShapeOf(t).Some? && ShapeOf(t).value.IntShape?
    requires InKindRange(ShapeOf(t).value.kind, v)
    ensures var k := ShapeOf(t).value.kind;
            var w := KindWidth(k);
            var u := if v < 0 then v + Pow256(w) else v;
            ParseScalar(id, Some(ToLittleEndian(u, w)), t).value == Some(Integer(k, v))
  {
    DecodeRoundTrip(ShapeOf(t).value.kind, v);
  }

  /** Decoding the stored bytes of an integer gives the integer back. */
  lemma DecodeRoundTrip(k: IntKind, v: int)
    requires InKindRange(k, v)
    ensures var w := KindWidth(k);
            var u := if v < 0 then v + Pow256(w) else v;
            0 <= u < Pow256(w) && Decode(IntShape(k), ToLittleEndian(u, w)) == Integer(k, v)
  {
    var w := KindWidth(k);
    var u := if v < 0 then v + Pow256(w) else v;
    if IsSigned(k) {
      ToSignedOfStored(v, w);
    }
    DecodeStored(k, u);
  }

  /** Decoding `w` stored bytes reads the stored number, as the kind's signedness says. */
  lemma DecodeStored(k: IntKind, u: nat)
    requires u < Pow256(KindWidth(k))
    ensures Decode(IntShape(k), ToLittleEndian(u, KindWidth(k)))
            == Integer(k, if IsSigned(k) then ToSigned(u, KindWidth(k)) else u)
  {
    var bs := ToLittleEndian(u, KindWidth(k));
    assert bs[..KindWidth(k)] == bs;
  }

  /** The signed reading of a stored signed value is that value. */
  lemma ToSignedOfStored(v: int, w: nat)
    requires w >= 1 && -SignedLimit(w) <= v < SignedLimit(w)
    ensures var u := if v < 0 then v + Pow256(w) else v;
            0 <= u < Pow256(w) && ToSigned(u, w) == v
  {
  }

  /**
   * Reading eight bytes as `u64` and casting to `i64` (`try_as_number`) gives
   * the same number as reading them as `i64`.
   */
  lemma UnsignedAndSignedReadAgree(id: VariableIdentity, name: Option<string>, bytes: seq<Byte>)
    requires |bytes| >= 8
    ensures var u := ParseScalar(id, Some(bytes), ScalarType(name, Some(8), Some(DW_ATE_unsigned)));
            var s := ParseScalar(id, Some(bytes), ScalarType(name, Some(8), Some(DW_ATE_signed)));
            TryAsNumber(u.value) == TryAsNumber(s.value) && TryAsNumber(s.value).Some?
  {
    var x := LittleEndian(bytes[..8]);
    assert Pow256(8) == TWO_64;
    assert WrapI64(x) == ToSigned(x, 8);
  }

  // ---------------------------------------------------------------------
  // Enumerations

  /** The discriminant read from a parsed discriminant variable, if it is an integer scalar. */
  function DiscriminantOf(discr: Option<Node>): (d: Option<Int64>)
    ensures d.Some? ==> discr.Some? && discr.value.Scalar? && d == TryAsNumber(discr.value.value)
    ensures discr.Some? && discr.value.Scalar? ==> d == TryAsNumber(discr.value.value)
  {
    match discr
    case Some(Scalar(_, _, v)) => TryAsNumber(v)
    case _ => None
  }

  /**
   * `parse_c_enum`: the variant is the enumerator named for the
   * discriminant, or absent if the discriminant is unreadable or unnamed.
   */
  function ParseCEnum(identity: VariableIdentity, typeName: Option<string>, discr: Option<Node>,
                      enumerators: map<Int64, string>): (n: Node)
    ensures n.CEnum? && n.identity == identity && n.typeName == typeName
    ensures n.variant.Some? <==> DiscriminantOf(discr).Some? && DiscriminantOf(discr).value in enumerators
    ensures n.variant.Some? ==> n.variant.value == enumerators[DiscriminantOf(discr).value]
  {
    var d := DiscriminantOf(discr);
    CEnum(identity, typeName, if d.Some? && d.value in enumerators then Some(enumerators[d.value]) else None)
  }

  /**
   * `parse_rust_enum`: the variant of the discriminant, else the default
   * variant (the entry without a discriminant value); nothing when the
   * discriminant cannot be read. Each entry holds the variant member as
   * parsed from the value's bytes (`None` when that parse fails).
   */
  function ParseRustEnum(identity: VariableIdentity, typeName: Option<string>, discr: Option<Node>,
                         enumerators: map<Option<Int64>, Option<Node>>): (n: Node)
    ensures n.RustEnum? && n.identity == identity && n.typeName == typeName
    ensures DiscriminantOf(discr).None? ==> n.selected.None?
    ensures DiscriminantOf(discr).Some? && Some(DiscriminantOf(discr).value) in enumerators ==>
              n.selected == enumerators[Some(DiscriminantOf(discr).value)]
    ensures DiscriminantOf(discr).Some? && Some(DiscriminantOf(discr).value) !in enumerators ==>
              n.selected == (if None in enumerators then enumerators[None] else None)
  {
    var d := DiscriminantOf(discr);
    var member :=
      if d.None? then None
      else if Some(d.value) in enumerators then Some(enumerators[Some(d.value)])
      else if None in enumerators then Some(enumerators[None])
      else None;
    RustEnum(identity, typeName, if member.Some? then member.value else None)
  }

  /** A parsed C enum matches a variant literal exactly when the discriminant names that variant. */
  lemma ParsedCEnumMatches(identity: VariableIdentity, typeName: Option<string>, discr: Option<Node>,
                           enumerators: map<Int64, string>, variant: string)
    ensures MatchLiteral(ParseCEnum(identity, typeName, discr, enumerators), EnumVariant(variant, None)) <==>
              var d := DiscriminantOf(discr);
              d.Some? && d.value in enumerators && enumerators[d.value] == variant
  {
  }

  /**
   * A parsed Rust enum whose discriminant has no entry of its own matches a
   * variant literal exactly when the default variant is that variant.
   */
  lemma ParsedRustEnumFallsBack(identity: VariableIdentity, typeName: Option<string>, discr: Option<Node>,
                                enumerators: map<Option<Int64>, Option<Node>>, variant: string)
    requires DiscriminantOf(discr).Some? && Some(DiscriminantOf(discr).value) !in enumerators
    ensures MatchLiteral(ParseRustEnum(identity, typeName, discr, enumerators), EnumVariant(variant, None)) <==>
              None in enumerators && enumerators[None].Some? && IdentityOf(enumerators[None].value).name == Some(variant)
  {
  }

  /** A discriminant read from a scalar of 64 bits or fewer selects by its `i64` value. */
  lemma ParseRustEnumByScalar(identity: VariableIdentity, typeName: Option<string>, did: VariableIdentity,
                              k: IntKind, v: int, enumerators: map<Option<Int64>, Option<Node>>)
    requires k != I128 && k != U128 && Some(WrapI64(v)) in enumerators
    ensures ParseRustEnum(identity, typeName, Some(Scalar(did, None, Some(Integer(k, v)))), enumerators).selected
            == enumerators[Some(WrapI64(v))]
  {
  }
}
