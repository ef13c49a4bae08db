// The in-memory datatype model and the size of one element.

module Dtypes {
  import opened Common
  import opened Grid

  datatype ByteOrder = Little | Big

  datatype Charset = Ascii | Utf8

  datatype RefType = ObjectRef | RegionRef

  datatype Field = Field(name: seq<Byte>, offset: nat, dtype: Dtype)

  datatype Dtype =
    | IntType(size: nat, signed: bool, order: ByteOrder)
    | FloatType(size: nat, order: ByteOrder)
    | StringType(fixedLen: Option<nat>, charset: Charset)
    | CompoundType(fields: seq<Field>)
    | ArrayType(base: Dtype, dims: seq<nat>)
    | EnumType(base: Dtype, members: seq<(seq<Byte>, int)>)
    | OpaqueType(size: nat, tag: seq<Byte>)
    | ReferenceType(refType: RefType)
    | VarLenType(base: Dtype)
    | BitfieldType(size: nat, order: ByteOrder)

  /** Size of one element; None when a variable-length part makes it open. */
  function Size(t: Dtype): Option<nat>
    decreases t
  {
    match t
    case IntType(size, _, _) => Some(size)
    case FloatType(size, _) => Some(size)
    case BitfieldType(size, _) => Some(size)
    case OpaqueType(size, _) => Some(size)
    case StringType(fixedLen, _) => fixedLen
    case ReferenceType(r) => Some(if r.ObjectRef? then 8 else 12)
    case EnumType(base, _) => Size(base)
    case ArrayType(base, dims) =>
      var s := Size(base);
      if s.None? then None else Some(s.value * Product(dims))
    case CompoundType(fields) => FieldsSize(fields)
    case VarLenType(_) => None
  }

  /** End of the field that reaches furthest. */
  function FieldsSize(fields: seq<Field>): Option<nat>
    decreases fields
  {
    if fields == [] then Some(0)
    else
      var first := Size(fields[0].dtype);
      if first.None? then None
      else
        var rest := FieldsSize(fields[1..]);
        if rest.None? then None else Some(Max(fields[0].offset + first.value, rest.value))
  }

  /** Stored footprint of an element: variable-length parts are 16-byte references. */
  function Footprint(t: Dtype): nat {
    if Size(t).Some? then Size(t).value else 16
  }
}
