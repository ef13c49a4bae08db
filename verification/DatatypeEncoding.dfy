// Datatype messages as the format spells them, and the theorem that the parser
// reads every nested datatype back.

module DatatypeEncoding {
  import opened Common
  import opened Dtypes
  import opened Datatype

  // ------------------------------------------------------------------
  // Spelling
  // ------------------------------------------------------------------

  function OrderBit(order: ByteOrder): Byte { if order.Big? then 1 else 0 }

  function CharsetBits(charset: Charset): Byte { if charset.Utf8? then 16 else 0 }

  /** The 8-byte header: class and version, 24 bits of class flags, size. */
  function Header(class_: nat, version: nat, bits: seq<Byte>, size: nat): (h: seq<Byte>)
    requires class_ < 16 && version < 16 && |bits| == 3
    ensures |h| == 8
  {
    [version * 16 + class_] + bits + LeBytes(size, 4)
  }

  /** A member name: NUL-terminated, padded to 8 bytes up to version 1. */
  function NameBytes(version: nat, name: seq<Byte>): (b: seq<Byte>)
    ensures |b| == if version <= 1 then Align8(|name| + 1) else |name| + 1
  {
    name + [0] + Zeros((if version <= 1 then Align8(|name| + 1) else |name| + 1) - (|name| + 1))
  }

  /** Arrays came with version 2 of the message. */
  function ArrayVersion(version: nat): nat { if version < 2 then 2 else version }

  /** Two's complement. */
  function Unsigned(value: int, width: nat): nat { value % Pow(256, width) }

  function ValueBytes(members: seq<(seq<Byte>, int)>, width: nat): seq<Byte> {
    if members == [] then [] else LeBytes(Unsigned(members[0].1, width), width) + ValueBytes(members[1..], width)
  }

  function MemberNames(version: nat, members: seq<(seq<Byte>, int)>): seq<Byte> {
    if members == [] then [] else NameBytes(version, members[0].0) + MemberNames(version, members[1..])
  }

  function ArrayProperties(version: nat, dims: seq<nat>): seq<Byte>
    requires |dims| < 256
  {
    [|dims|] + (if version == 2 then Zeros(3) else []) + EncodeWords(dims)
      + (if version == 2 then Zeros(4 * |dims|) else [])
  }

  /** The message for `t` with every part in the given version. */
  function Encode(version: nat, t: Dtype): (b: seq<Byte>)
    requires version < 16 && WellFormed(t)
    ensures |b| >= 8
    decreases t, 1
  {
    match t
    case IntType(size, signed, order) =>
      Header(0, version, [OrderBit(order) + (if signed then 8 else 0), 0, 0], size)
      + Zeros(if version == 1 then 4 else 0)
    case FloatType(size, order) =>
      Header(1, version, [OrderBit(order), 0, 0], size) + Zeros(if version == 1 then 12 else 0)
    case StringType(Some(n), charset) => Header(3, version, [CharsetBits(charset), 0, 0], n)
    case StringType(None, charset) =>
      Header(9, version, [1, 0, 0], 16) + Header(3, version, [CharsetBits(charset), 0, 0], 1)
    case BitfieldType(size, order) =>
      Header(4, version, [OrderBit(order), 0, 0], size) + Zeros(if version == 1 then 4 else 0)
    case OpaqueType(size, tag) =>
      Header(5, version, [|tag|, 0, 0], size) + tag + Zeros(Align8(|tag|) - |tag|)
    case ReferenceType(r) => Header(7, version, [if r.RegionRef? then 1 else 0, 0, 0], if r.RegionRef? then 12 else 8)
    case CompoundType(fields) =>
      Header(6, version, LeBytes(|fields|, 3), Footprint(t) % 0x1_0000_0000) + EncodeFields(version, fields)
    case EnumType(base, members) =>
      var width := Size(base).value;
      Header(8, version, LeBytes(|members|, 3), width)
      + Encode(version, base) + MemberNames(version, members) + ValueBytes(members, width)
    case VarLenType(base) => Header(9, version, [0, 0, 0], 16) + Encode(version, base)
    case ArrayType(base, dims) =>
      Header(10, ArrayVersion(version), [0, 0, 0], Footprint(t) % 0x1_0000_0000)
      + ArrayProperties(ArrayVersion(version), dims) + Encode(version, base)
  }

  function EncodeFields(version: nat, fields: seq<Field>): seq<Byte>
    requires version < 16 && FieldsWellFormed(fields)
    decreases fields, 0
  {
    if fields == [] then []
    else
      NameBytes(version, fields[0].name) + LeBytes(fields[0].offset, 4)
      + (if version == 1 then Zeros(28) else []) + Encode(version, fields[0].dtype)
      + EncodeFields(version, fields[1..])
  }

  predicate Nameable(name: seq<Byte>) { 0 !in name }

  /** What the message format can express. */
  predicate WellFormed(t: Dtype)
    decreases t, 1
  {
    match t
    case IntType(size, _, _) => size < 0x1_0000_0000
    case FloatType(size, _) => size < 0x1_0000_0000
    case StringType(Some(n), _) => n < 0x1_0000_0000
    case StringType(None, _) => true
    case BitfieldType(size, _) => size < 0x1_0000_0000
    case OpaqueType(size, tag) => size < 0x1_0000_0000 && |tag| < 256 && Nameable(tag)
    case ReferenceType(_) => true
    case CompoundType(fields) => |fields| < 0x100_0000 && FieldsWellFormed(fields)
    case EnumType(base, members) =>
      && WellFormed(base) && |members| < 0x100_0000
      && Size(base).Some? && WordSize(Size(base).value)
      && (forall i :: 0 <= i < |members| ==> Nameable(members[i].0) && FitsSigned(members[i].1, Size(base).value))
    case VarLenType(base) => WellFormed(base)
    case ArrayType(base, dims) =>
      WellFormed(base) && |dims| < 256 && Fits32(dims)
  }

  predicate FieldsWellFormed(fields: seq<Field>)
    decreases fields, 0
  {
    fields == [] ||
      (Nameable(fields[0].name) && fields[0].offset < 0x1_0000_0000 && WellFormed(fields[0].dtype)
       && FieldsWellFormed(fields[1..]))
  }

  predicate FitsSigned(value: int, width: nat) { 0 <= 2 * value + Pow(256, width) < 2 * Pow(256, width) }

  /** Nested datatypes below the outermost one. */
  function Nesting(t: Dtype): nat
    decreases t, 1
  {
    match t
    case StringType(None, _) => 1
    case CompoundType(fields) => FieldsNesting(fields)
    case EnumType(base, _) => 1 + Nesting(base)
    case VarLenType(base) => 1 + Nesting(base)
    case ArrayType(base, _) => 1 + Nesting(base)
    case _ => 0
  }

  function FieldsNesting(fields: seq<Field>): nat
    decreases fields, 0
  {
    if fields == [] then 0 else Max(1 + Nesting(fields[0].dtype), FieldsNesting(fields[1..]))
  }

  /** Every name and tag inside `t` is valid text. */
  predicate Readable(utf8: Utf8, t: Dtype)
    decreases t, 1
  {
    match t
    case OpaqueType(_, tag) => utf8(tag)
    case CompoundType(fields) => FieldsReadable(utf8, fields)
    case EnumType(base, members) =>
      Readable(utf8, base) && forall i :: 0 <= i < |members| ==> utf8(members[i].0)
    case VarLenType(base) => Readable(utf8, base)
    case ArrayType(base, _) => Readable(utf8, base)
    case _ => true
  }

  predicate FieldsReadable(utf8: Utf8, fields: seq<Field>)
    decreases fields, 0
  {
    fields == [] || (utf8(fields[0].name) && Readable(utf8, fields[0].dtype) && FieldsReadable(utf8, fields[1..]))
  }

  // ------------------------------------------------------------------
  // Reading the parts
  // ------------------------------------------------------------------

  lemma HeaderReads(body: seq<Byte>, class_: nat, version: nat, bits: seq<Byte>, size: nat)
    requires class_ < 16 && version < 16 && |bits| == 3 && size < 0x1_0000_0000
    requires At(body, 0, Header(class_, version, bits, size))
    ensures |body| >= 8 && body[0] % 16 == class_ && body[0] / 16 == version
    ensures body[1] == bits[0] && body[1..4] == bits && LeNat(body[4..8]) == size
  {
    var h := Header(class_, version, bits, size);
    AtInside(body, 0, h, 0, 1);
    AtInside(body, 0, h, 1, 4);
    AtInside(body, 0, h, 4, 8);
    assert body[0] == body[0..1][0] == version * 16 + class_;
    assert body[1] == body[1..4][0];
    Pow256Values();
    LeRoundTrip(size, 4);
  }

  lemma CountReads(n: nat)
    requires n < 0x100_0000
    ensures LeNat(LeBytes(n, 3)) == n
  {
    assert Pow(256, 3) == 256 * Pow(256, 2) && Pow(256, 2) == 256 * Pow(256, 1) && Pow(256, 1) == 256;
    LeRoundTrip(n, 3);
  }

  lemma NameReads(utf8: Utf8, body: seq<Byte>, pos: nat, version: nat, name: seq<Byte>)
    requires At(body, pos, NameBytes(version, name)) && Nameable(name) && utf8(name)
    ensures Name(utf8, body, pos, version) == Ok((name, |NameBytes(version, name)|))
  {
    var b := NameBytes(version, name);
    var end := pos + |name|;
    AtInside(body, pos, b, 0, |name|);
    AtInside(body, pos, b, |name|, |name| + 1);
    assert body[end] == body[end..end + 1][0] == 0;
    forall i | pos <= i < end ensures body[i] != 0 {
      assert body[i] == body[pos..end][i - pos] == name[i - pos];
    }
    assert NulAt(body, pos) == Some(end);
    assert body[pos..end] == name;
  }

  function NamesOf(members: seq<(seq<Byte>, int)>): (n: seq<seq<Byte>>)
    ensures |n| == |members| && forall i :: 0 <= i < |n| ==> n[i] == members[i].0
  {
    if members == [] then [] else [members[0].0] + NamesOf(members[1..])
  }

  lemma {:induction false} NamesRead(utf8: Utf8, body: seq<Byte>, pos: nat, version: nat, members: seq<(seq<Byte>, int)>)
    requires At(body, pos, MemberNames(version, members))
    requires forall i :: 0 <= i < |members| ==> Nameable(members[i].0) && utf8(members[i].0)
    ensures NamesFrom(utf8, body, version, |members|, pos)
         == Ok((NamesOf(members), pos + |MemberNames(version, members)|))
    decreases members
  {
    hide Name, NameBytes;
    if members != [] {
      var rest := members[1..];
      AtSplit(body, pos, NameBytes(version, members[0].0), MemberNames(version, rest));
      NameReads(utf8, body, pos, version, members[0].0);
      NamesRead(utf8, body, pos + |NameBytes(version, members[0].0)|, version, rest);
    }
  }

  lemma ValueReads(value: int, width: nat)
    requires WordSize(width)
    requires FitsSigned(value, width)
    ensures EnumValue(LeBytes(Unsigned(value, width), width)) == Ok(value)
  {
    Pow256Values();
    LeRoundTrip(Unsigned(value, width), width);
  }

  lemma {:induction false} ValuesRead(body: seq<Byte>, pos: nat, members: seq<(seq<Byte>, int)>, names: seq<seq<Byte>>,
                                      width: nat)
    requires WordSize(width)
    requires At(body, pos, ValueBytes(members, width)) && |names| == |members|
    requires forall i :: 0 <= i < |members| ==> names[i] == members[i].0 && FitsSigned(members[i].1, width)
    ensures MembersFrom(body, names, width, pos) == Ok((members, pos + |ValueBytes(members, width)|))
    decreases members
  {
    hide EnumValue, FitsSigned;
    if members != [] {
      var rest := members[1..];
      AtSplit(body, pos, LeBytes(Unsigned(members[0].1, width), width), ValueBytes(rest, width));
      ValueReads(members[0].1, width);
      ValuesRead(body, pos + width, rest, names[1..], width);
      assert [(names[0], members[0].1)] + rest == members;
    }
  }

  lemma DimsRead(body: seq<Byte>, at: nat, dims: seq<nat>)
    requires At(body, at, EncodeWords(dims)) && Fits32(dims)
    ensures at + 4 * |dims| <= |body| && Words(body, at, |dims|) == dims
  {
    AtFits(body, at, EncodeWords(dims));
    WordsRoundTrip(body, at, dims);
  }

  // ------------------------------------------------------------------
  // The round trip
  // ------------------------------------------------------------------

  /** A nested message is read where it is stored: the parser takes exactly its
      bytes, whatever follows. */
  lemma {:induction false} NestedParses(utf8: Utf8, body: seq<Byte>, at: nat, version: nat, t: Dtype, depth: nat)
    requires Legal(utf8, version, t, depth) && At(body, at, Encode(version, t))
    ensures at <= |body| && Parse(utf8, body[at..], depth) == Ok((t, |Encode(version, t)|))
    decreases t, 3
  {
    hide Parse, Encode, WellFormed, Readable, Nesting;
    var b := Encode(version, t);
    RoundTrip(utf8, version, t, depth);
    assert body[at..] == b + body[at + |b|..];
    ExtensionParsesAlike(utf8, b, body[at + |b|..], depth);
  }

  /** One member, from its parts. */
  lemma FieldFromParts(utf8: Utf8, body: seq<Byte>, version: nat, pos: nat, depth: nat, f: Field, nameLen: nat,
                       typeLen: nat)
    requires depth <= MAX_NESTING && Name(utf8, body, pos, version) == Ok((f.name, nameLen))
    requires ReadLe(body, pos + nameLen, 4) == Ok(f.offset)
    requires var typeAt := pos + nameLen + (if version == 1 then 32 else 4);
      typeAt < |body| && Parse(utf8, body[typeAt..], depth + 1) == Ok((f.dtype, typeLen))
    ensures OneField(utf8, body, version, pos, depth)
         == Ok((f, pos + nameLen + (if version == 1 then 32 else 4) + typeLen))
  {
    hide Parse, Name, ReadLe;
  }

  lemma FieldSpelled(version: nat, fields: seq<Field>)
    requires version < 16 && fields != [] && FieldsWellFormed(fields)
    ensures EncodeFields(version, fields)
         == NameBytes(version, fields[0].name) + LeBytes(fields[0].offset, 4)
            + (if version == 1 then Zeros(28) else []) + Encode(version, fields[0].dtype)
            + EncodeFields(version, fields[1..])
  {
    hide Encode, NameBytes, LeBytes, Zeros, WellFormed, Nameable;
  }

  /** Where the parts of the first member stand. */
  lemma FieldParts(body: seq<Byte>, pos: nat, version: nat, fields: seq<Field>)
    requires version < 16 && fields != [] && FieldsWellFormed(fields)
    requires At(body, pos, EncodeFields(version, fields))
    ensures var name, t := NameBytes(version, fields[0].name), Encode(version, fields[0].dtype);
      var typeAt := pos + |name| + (if version == 1 then 32 else 4);
      At(body, pos, name) && At(body, pos + |name|, LeBytes(fields[0].offset, 4)) && At(body, typeAt, t)
      && At(body, typeAt + |t|, EncodeFields(version, fields[1..]))
      && typeAt + |t| <= |body|
      && |EncodeFields(version, fields)| == typeAt - pos + |t| + |EncodeFields(version, fields[1..])|
  {
    hide Encode, NameBytes, EncodeFields, At, LeBytes, WellFormed, Nameable;
    FieldSpelled(version, fields);
    var name, offset := NameBytes(version, fields[0].name), LeBytes(fields[0].offset, 4);
    var legacy: seq<Byte> := if version == 1 then Zeros(28) else [];
    var t, rest := Encode(version, fields[0].dtype), EncodeFields(version, fields[1..]);
    AtSplit(body, pos, name + offset + legacy + t, rest);
    AtSplit(body, pos, name + offset + legacy, t);
    AtSplit(body, pos, name + offset, legacy);
    AtSplit(body, pos, name, offset);
    AtFits(body, pos, name + offset + legacy + t);
  }

  lemma {:induction false} FieldReads(utf8: Utf8, body: seq<Byte>, pos: nat, version: nat, fields: seq<Field>, depth: nat)
    requires version < 16 && fields != [] && FieldsWellFormed(fields) && FieldsReadable(utf8, fields)
    requires depth + FieldsNesting(fields) <= MAX_NESTING && At(body, pos, EncodeFields(version, fields))
    ensures var next := pos + |EncodeFields(version, fields)| - |EncodeFields(version, fields[1..])|;
      OneField(utf8, body, version, pos, depth) == Ok((fields[0], next))
      && At(body, next, EncodeFields(version, fields[1..]))
    decreases fields, 0
  {
    hide Parse, Encode, WellFormed, Readable, Nesting, Name, NameBytes, EncodeFields, OneField;
    hide At, ReadLe, LeBytes, Nameable;
    var f := fields[0];
    var name, t := NameBytes(version, f.name), Encode(version, f.dtype);
    FieldParts(body, pos, version, fields);
    NameReads(utf8, body, pos, version, f.name);
    Pow256Values();
    ReadLeAt(body, pos + |name|, 4, f.offset);
    NestedParses(utf8, body, pos + |name| + (if version == 1 then 32 else 4), version, f.dtype, depth + 1);
    FieldFromParts(utf8, body, version, pos, depth, f, |name|, |t|);
  }

  lemma {:induction false} FieldsRead(utf8: Utf8, body: seq<Byte>, pos: nat, version: nat, fields: seq<Field>, depth: nat)
    requires version < 16 && FieldsWellFormed(fields) && FieldsReadable(utf8, fields)
    requires depth <= MAX_NESTING && depth + FieldsNesting(fields) <= MAX_NESTING
    requires At(body, pos, EncodeFields(version, fields))
    ensures FieldsFrom(utf8, body, version, |fields|, pos, depth)
         == Ok((fields, pos + |EncodeFields(version, fields)|))
    decreases fields, 1
  {
    hide OneField, EncodeFields;
    if fields == [] {
      assert EncodeFields(version, fields) == [] by { NoFields(version); }
    } else {
      var rest := fields[1..];
      FieldReads(utf8, body, pos, version, fields, depth);
      var next := pos + |EncodeFields(version, fields)| - |EncodeFields(version, rest)|;
      FieldsRead(utf8, body, next, version, rest, depth);
      assert [fields[0]] + rest == fields;
    }
  }

  lemma NoFields(version: nat)
    requires version < 16
    ensures EncodeFields(version, []) == []
  {
  }

  lemma AtFits(body: seq<Byte>, pos: nat, x: seq<Byte>)
    requires At(body, pos, x)
    ensures pos + |x| <= |body|
  {
  }

  lemma FirstByte(body: seq<Byte>, pos: nat, x: Byte)
    requires At(body, pos, [x])
    ensures pos < |body| && body[pos] == x
  {
    assert body[pos] == body[pos..pos + 1][0];
  }

  lemma AtStart(b: seq<Byte>)
    ensures At(b, 0, b)
  {
  }

  /** `t` can be spelled, and read at this depth. */
  ghost predicate Legal(utf8: Utf8, version: nat, t: Dtype, depth: nat) {
    version < 16 && WellFormed(t) && Readable(utf8, t) && depth + Nesting(t) <= MAX_NESTING
  }

  lemma EnumSpelled(utf8: Utf8, version: nat, t: Dtype, depth: nat)
    requires t.EnumType? && Legal(utf8, version, t, depth)
    ensures Legal(utf8, version, t.base, depth + 1) && Size(t.base).Some?
    ensures var width := Size(t.base).value;
      WordSize(width) && |t.members| < 0x100_0000
      && (forall i :: 0 <= i < |t.members| ==> Nameable(t.members[i].0) && FitsSigned(t.members[i].1, width))
      && (forall i :: 0 <= i < |t.members| ==> utf8(t.members[i].0))
      && Encode(version, t) == Header(8, version, LeBytes(|t.members|, 3), width) + Encode(version, t.base)
                               + MemberNames(version, t.members) + ValueBytes(t.members, width)
  {
    hide Nameable, FitsSigned, Header, MemberNames, ValueBytes, LeBytes;
  }

  lemma ArraySpelled(utf8: Utf8, version: nat, t: Dtype, depth: nat)
    requires t.ArrayType? && Legal(utf8, version, t, depth)
    ensures Legal(utf8, version, t.base, depth + 1)
    ensures |t.dims| < 256 && Fits32(t.dims)
    ensures Encode(version, t) == Header(10, ArrayVersion(version), [0, 0, 0], Footprint(t) % 0x1_0000_0000)
                                  + ArrayProperties(ArrayVersion(version), t.dims) + Encode(version, t.base)
  {
    hide Header, ArrayProperties, Footprint;
  }

  lemma CompoundSpelled(utf8: Utf8, version: nat, t: Dtype, depth: nat)
    requires t.CompoundType? && Legal(utf8, version, t, depth)
    ensures |t.fields| < 0x100_0000 && FieldsWellFormed(t.fields) && FieldsReadable(utf8, t.fields)
    ensures depth + FieldsNesting(t.fields) <= MAX_NESTING
    ensures Encode(version, t) == Header(6, version, LeBytes(|t.fields|, 3), Footprint(t) % 0x1_0000_0000)
                                  + EncodeFields(version, t.fields)
  {
    hide Header, EncodeFields, Footprint, LeBytes;
  }

  lemma VarLenSpelled(utf8: Utf8, version: nat, t: Dtype, depth: nat)
    requires t.VarLenType? && Legal(utf8, version, t, depth)
    ensures Legal(utf8, version, t.base, depth + 1)
    ensures Encode(version, t) == Header(9, version, [0, 0, 0], 16) + Encode(version, t.base)
  {
    hide Header;
  }

  /** An enumeration, from its parts. */
  lemma EnumFromParts(utf8: Utf8, b: seq<Byte>, version: nat, t: Dtype, depth: nat, count: nat, width: nat,
                      baseLen: nat, namesEnd: nat, end: nat)
    requires t.EnumType? && depth <= MAX_NESTING && |b| >= 16
    requires b[0] % 16 == 8 && b[0] / 16 == version && LeNat(b[1..4]) == count && LeNat(b[4..8]) == width
    requires Parse(utf8, b[8..], depth + 1) == Ok((t.base, baseLen))
    requires NamesFrom(utf8, b, version, count, 8 + baseLen) == Ok((NamesOf(t.members), namesEnd))
    requires MembersFrom(b, NamesOf(t.members), width, namesEnd) == Ok((t.members, end))
    ensures Parse(utf8, b, depth) == Ok((t, end))
  {
    hide NamesFrom, MembersFrom, NamesOf, LeNat;
    assert Parse(utf8, b, depth) == ParseEnum(utf8, b, version, width, depth);
  }

  lemma {:induction false} EnumRoundTrip(utf8: Utf8, version: nat, t: Dtype, depth: nat)
    requires t.EnumType? && Legal(utf8, version, t, depth)
    ensures Parse(utf8, Encode(version, t), depth) == Ok((t, |Encode(version, t)|))
    decreases t, 1
  {
    hide Parse, Encode, WellFormed, Readable, Nesting, Size, LeBytes;
    hide Header, NamesFrom, MembersFrom, MemberNames, ValueBytes, Nameable, FitsSigned, LeNat, At;
    EnumSpelled(utf8, version, t, depth);
    var b, width, members := Encode(version, t), Size(t.base).value, t.members;
    var head, base := Header(8, version, LeBytes(|members|, 3), width), Encode(version, t.base);
    var names, values := MemberNames(version, members), ValueBytes(members, width);
    AtStart(b);
    AtSplit(b, 0, head + base + names, values);
    AtSplit(b, 0, head + base, names);
    AtSplit(b, 0, head, base);
    AtFits(b, 0, head + base);
    HeaderReads(b, 8, version, LeBytes(|members|, 3), width);
    CountReads(|members|);
    NestedParses(utf8, b, 8, version, t.base, depth + 1);
    NamesRead(utf8, b, 8 + |base|, version, members);
    ValuesRead(b, 8 + |base| + |names|, members, NamesOf(members), width);
    EnumFromParts(utf8, b, version, t, depth, |members|, width, |base|, 8 + |base| + |names|, |b|);
  }

  /** An array, from its parts. */
  lemma ArrayFromParts(utf8: Utf8, b: seq<Byte>, version: nat, t: Dtype, depth: nat, propsEnd: nat, baseLen: nat)
    requires t.ArrayType? && version >= 2 && depth <= MAX_NESTING && |b| >= 9
    requires b[0] % 16 == 10 && b[0] / 16 == version && b[8] == |t.dims|
    requires propsEnd == (if version == 2 then 12 else 9) + (if version == 2 then 8 else 4) * |t.dims| <= |b|
    requires Words(b, if version == 2 then 12 else 9, |t.dims|) == t.dims
    requires Parse(utf8, b[propsEnd..], depth + 1) == Ok((t.base, baseLen))
    ensures Parse(utf8, b, depth) == Ok((t, propsEnd + baseLen))
  {
    hide Words, LeNat;
    assert Parse(utf8, b, depth) == ParseArray(utf8, b, version, depth);
  }

  lemma {:induction false} ArrayRoundTrip(utf8: Utf8, version: nat, t: Dtype, depth: nat)
    requires t.ArrayType? && Legal(utf8, version, t, depth)
    ensures Parse(utf8, Encode(version, t), depth) == Ok((t, |Encode(version, t)|))
    decreases t, 1
  {
    hide Parse, Encode, WellFormed, Readable, Nesting;
    hide Header, LeNat, Words, EncodeWords, Footprint, At, ArrayProperties;
    ArraySpelled(utf8, version, t, depth);
    var b, v, dims := Encode(version, t), ArrayVersion(version), t.dims;
    var size := Footprint(t) % 0x1_0000_0000;
    var head := Header(10, v, [0, 0, 0], size);
    var props, base := ArrayProperties(v, dims), Encode(version, t.base);
    AtStart(b);
    AtSplit(b, 0, head + props, base);
    AtSplit(b, 0, head, props);
    AtFits(b, 0, head + props + base);
    HeaderReads(b, 10, v, [0, 0, 0], size);
    PropertiesRead(b, v, dims);
    NestedParses(utf8, b, 8 + |props|, version, t.base, depth + 1);
    ArrayFromParts(utf8, b, v, t, depth, 8 + |props|, |base|);
  }

  lemma PropertiesRead(b: seq<Byte>, v: nat, dims: seq<nat>)
    requires |dims| < 256 && At(b, 8, ArrayProperties(v, dims))
    requires Fits32(dims)
    ensures 8 + |ArrayProperties(v, dims)|
         == (if v == 2 then 12 else 9) + (if v == 2 then 8 else 4) * |dims| <= |b|
    ensures b[8] == |dims|
    ensures Words(b, if v == 2 then 12 else 9, |dims|) == dims
  {
    var reserved: seq<Byte> := if v == 2 then Zeros(3) else [];
    var permutation: seq<Byte> := if v == 2 then Zeros(4 * |dims|) else [];
    assert ArrayProperties(v, dims) == [|dims|] + reserved + EncodeWords(dims) + permutation;
    AtFits(b, 8, ArrayProperties(v, dims));
    hide LeNat, Words, EncodeWords, At;
    AtSplit(b, 8, [|dims|] + reserved + EncodeWords(dims), permutation);
    AtSplit(b, 8, [|dims|] + reserved, EncodeWords(dims));
    AtSplit(b, 8, [|dims|], reserved);
    FirstByte(b, 8, |dims|);
    DimsRead(b, 9 + |reserved|, dims);
  }

  lemma OpaqueRoundTrip(utf8: Utf8, version: nat, t: Dtype, depth: nat)
    requires t.OpaqueType? && version < 16 && WellFormed(t) && Readable(utf8, t) && depth <= MAX_NESTING
    ensures Parse(utf8, Encode(version, t), depth) == Ok((t, |Encode(version, t)|))
  {
    var b, tag := Encode(version, t), t.tag;
    var head, pad := Header(5, version, [|tag|, 0, 0], t.size), Zeros(Align8(|tag|) - |tag|);
    assert b == head + tag + pad;
    hide Encode, Header, LeNat;
    AtStart(b);
    AtSplit(b, 0, head + tag, pad);
    AtSplit(b, 0, head, tag);
    HeaderReads(b, 5, version, [|tag|, 0, 0], t.size);
    NoNul(tag, 0);
  }

  lemma {:induction false} NoNul(tag: seq<Byte>, pos: nat)
    requires Nameable(tag)
    ensures NulAt(tag, pos) == None
    decreases |tag| - pos
  {
    if pos < |tag| {
      assert tag[pos] in tag;
      NoNul(tag, pos + 1);
    }
  }

  lemma {:induction false} CompoundRoundTrip(utf8: Utf8, version: nat, t: Dtype, depth: nat)
    requires t.CompoundType? && Legal(utf8, version, t, depth)
    ensures Parse(utf8, Encode(version, t), depth) == Ok((t, |Encode(version, t)|))
    decreases t, 1
  {
    hide Encode, WellFormed, Readable, Nesting, At, LeBytes;
    hide Header, LeNat, Footprint, EncodeFields, FieldsFrom;
    CompoundSpelled(utf8, version, t, depth);
    var b, fields := Encode(version, t), t.fields;
    var size := Footprint(t) % 0x1_0000_0000;
    var head := Header(6, version, LeBytes(|fields|, 3), size);
    AtStart(b);
    AtSplit(b, 0, head, EncodeFields(version, fields));
    HeaderReads(b, 6, version, LeBytes(|fields|, 3), size);
    CountReads(|fields|);
    FieldsRead(utf8, b, 8, version, fields, depth);
  }

  /** Main result: every datatype the format can express, however nested, is read
      back exactly, in every message version. */
  lemma {:induction false} RoundTrip(utf8: Utf8, version: nat, t: Dtype, depth: nat)
    requires Legal(utf8, version, t, depth)
    ensures Parse(utf8, Encode(version, t), depth) == Ok((t, |Encode(version, t)|))
    decreases t, 2
  {
    var b := Encode(version, t);
    match t
    case EnumType(_, _) => EnumRoundTrip(utf8, version, t, depth);
    case ArrayType(_, _) => ArrayRoundTrip(utf8, version, t, depth);
    case CompoundType(_) => CompoundRoundTrip(utf8, version, t, depth);
    case OpaqueType(_, _) => OpaqueRoundTrip(utf8, version, t, depth);
    case VarLenType(base) => VarLenRoundTrip(utf8, version, t, depth);
    case StringType(None, charset) => VlenStringRoundTrip(utf8, version, charset, depth);
    case _ => ScalarRoundTrip(utf8, version, t, depth);
  }

  lemma {:induction false} VarLenRoundTrip(utf8: Utf8, version: nat, t: Dtype, depth: nat)
    requires t.VarLenType? && Legal(utf8, version, t, depth)
    ensures Parse(utf8, Encode(version, t), depth) == Ok((t, |Encode(version, t)|))
    decreases t, 1
  {
    hide Encode, WellFormed, Readable, Nesting, At, Header, LeNat;
    VarLenSpelled(utf8, version, t, depth);
    var b, head, base := Encode(version, t), Header(9, version, [0, 0, 0], 16), Encode(version, t.base);
    AtStart(b);
    AtSplit(b, 0, head, base);
    HeaderReads(b, 9, version, [0, 0, 0], 16);
    NestedParses(utf8, b, 8, version, t.base, depth + 1);
  }

  lemma VlenStringRoundTrip(utf8: Utf8, version: nat, charset: Charset, depth: nat)
    requires version < 16 && depth + 1 <= MAX_NESTING
    ensures Parse(utf8, Encode(version, StringType(None, charset)), depth)
         == Ok((StringType(None, charset), |Encode(version, StringType(None, charset))|))
  {
    var head, inner := Header(9, version, [1, 0, 0], 16), Header(3, version, [CharsetBits(charset), 0, 0], 1);
    var b := head + inner;
    hide Header, LeNat, FieldsFrom, ParseEnum, ParseArray, ParseOpaque;
    AtStart(b);
    AtSplit(b, 0, head, inner);
    HeaderReads(b, 9, version, [1, 0, 0], 16);
    assert b[8..] == inner;
    AtStart(inner);
    HeaderReads(inner, 3, version, [CharsetBits(charset), 0, 0], 1);
  }

  /** The classes without parts: header, and properties that are skipped. */
  lemma ScalarRoundTrip(utf8: Utf8, version: nat, t: Dtype, depth: nat)
    requires t.IntType? || t.FloatType? || t.BitfieldType? || t.ReferenceType? || (t.StringType? && t.fixedLen.Some?)
    requires version < 16 && WellFormed(t) && depth <= MAX_NESTING
    ensures Parse(utf8, Encode(version, t), depth) == Ok((t, |Encode(version, t)|))
  {
    var b := Encode(version, t);
    hide Header, LeNat, FieldsFrom, ParseEnum, ParseArray, ParseOpaque;
    match t
    case IntType(size, signed, order) =>
      ScalarHeader(b, 0, version, OrderBit(order) + (if signed then 8 else 0), size, if version == 1 then 4 else 0);
    case FloatType(size, order) =>
      ScalarHeader(b, 1, version, OrderBit(order), size, if version == 1 then 12 else 0);
    case BitfieldType(size, order) =>
      ScalarHeader(b, 4, version, OrderBit(order), size, if version == 1 then 4 else 0);
    case ReferenceType(r) =>
      ScalarHeader(b, 7, version, if r.RegionRef? then 1 else 0, if r.RegionRef? then 12 else 8, 0);
    case StringType(n, charset) => ScalarHeader(b, 3, version, CharsetBits(charset), n.value, 0);
  }

  lemma ScalarHeader(b: seq<Byte>, class_: nat, version: nat, flags: Byte, size: nat, extra: nat)
    requires class_ < 16 && version < 16 && size < 0x1_0000_0000
    requires b == Header(class_, version, [flags, 0, 0], size) + Zeros(extra)
          || (extra == 0 && b == Header(class_, version, [flags, 0, 0], size))
    ensures |b| == 8 + extra && b[0] % 16 == class_ && b[0] / 16 == version
    ensures b[1] == flags && LeNat(b[4..8]) == size
  {
    var head := Header(class_, version, [flags, 0, 0], size);
    hide Header, LeNat;
    assert b[..8] == head;
    AtStart(b);
    assert At(b, 0, head);
    HeaderReads(b, class_, version, [flags, 0, 0], size);
  }
}
