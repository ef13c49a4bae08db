// The parser on the writer's datatype messages: what is read back, and when it is
// what was described.

module WrittenDatatypes {
  import opened Arithmetic
  import opened Common
  import opened Grid
  import opened Dtypes
  import opened Datatype
  import opened DatatypeEncoding
  import opened DatatypeWriter

  // ------------------------------------------------------------------
  // Reading element types back
  // ------------------------------------------------------------------

  /** The names inside a boolean message are text to this reader. */
  ghost predicate Legible(utf8: Utf8, e: ElemSpec) { e.Bool? ==> utf8(FALSE) && utf8(TRUE) }

  /** The header of a message that goes on with `rest`. */
  lemma HeadOf(b: seq<Byte>, class_: nat, version: nat, bits: seq<Byte>, size: nat, rest: seq<Byte>)
    requires class_ < 16 && version < 16 && |bits| == 3 && size < 0x1_0000_0000
    requires b == Header(class_, version, bits, size) + rest
    ensures |b| >= 8 && b[0] % 16 == class_ && b[0] / 16 == version
    ensures b[1] == bits[0] && b[1..4] == bits && LeNat(b[4..8]) == size && b[8..] == rest
  {
    hide Header, LeNat;
    AtStart(b);
    AtSplit(b, 0, Header(class_, version, bits, size), rest);
    HeaderReads(b, class_, version, bits, size);
  }

  lemma FixedParses(utf8: Utf8, size: nat, signed: bool, order: ByteOrder, depth: nat)
    requires WordSize(size) && depth <= MAX_NESTING
    ensures Parse(utf8, FixedBytes(size, signed, order), depth) == Ok((IntType(size, signed, order), 12))
  {
    hide Header, LeNat, LeBytes;
    var b, bits: seq<Byte> := FixedBytes(size, signed, order), [FixedFlags(signed, order), 0, 0];
    var rest := Zeros(2) + LeBytes(8 * size, 2);
    assert b == Header(0, 1, bits, size) + rest;
    HeadOf(b, 0, 1, bits, size, rest);
  }

  function FloatFlags(size: nat, order: ByteOrder): (bits: seq<Byte>)
    requires size == 2 || size == 4 || size == 8
    ensures |bits| == 3
  {
    [0x20 + OrderBit(order), 8 * size - 1, 0]
  }

  lemma FloatSplits(size: nat, order: ByteOrder) returns (rest: seq<Byte>)
    requires size == 2 || size == 4 || size == 8
    ensures FloatBytes(size, order) == Header(1, 1, FloatFlags(size, order), size) + rest
  {
    hide Header, LeBytes, Mantissa, ExpBits, Bias;
    rest := Zeros(2) + LeBytes(8 * size, 2) + [Mantissa(size), ExpBits(size), 0, Mantissa(size)] + LeBytes(Bias(size), 4);
  }

  lemma FloatParses(utf8: Utf8, size: nat, order: ByteOrder, depth: nat)
    requires (size == 2 || size == 4 || size == 8) && depth <= MAX_NESTING
    ensures Parse(utf8, FloatBytes(size, order), depth) == Ok((FloatType(size, order), 20))
  {
    hide Header, LeNat, FloatBytes, FieldsFrom, ParseEnum, ParseArray, ParseOpaque;
    var rest := FloatSplits(size, order);
    HeadOf(FloatBytes(size, order), 1, 1, FloatFlags(size, order), size, rest);
  }

  lemma StringParses(utf8: Utf8, width: nat, flags: Byte, depth: nat)
    requires width < 0x1_0000_0000 && depth <= MAX_NESTING
    ensures Parse(utf8, StringBytes(width, flags), depth)
         == Ok((StringType(Some(width), if flags / 16 != 0 then Utf8 else Ascii), 8))
  {
    hide Header, LeNat;
    assert StringBytes(width, flags) == Header(3, 1, [flags, 0, 0], width) + [];
    HeadOf(StringBytes(width, flags), 3, 1, [flags, 0, 0], width, []);
  }

  lemma VlenStrParses(utf8: Utf8, depth: nat)
    requires depth + 1 <= MAX_NESTING
    ensures Parse(utf8, VlenStrBytes(), depth) == Ok((StringType(None, Utf8), 16))
  {
    hide Header, LeNat, StringBytes;
    HeadOf(VlenStrBytes(), 9, 1, [1, 1, 0], 16, StringBytes(1, 16));
    StringParses(utf8, 1, 16, depth + 1);
  }

  function BoolMembers(): seq<(seq<Byte>, int)> { [(FALSE, 0), (TRUE, 1)] }

  lemma SmallFields()
    ensures LeBytes(2, 3) == [2, 0, 0] && LeBytes(1, 4) == [1, 0, 0, 0] && LeBytes(8, 2) == [8, 0]
    ensures LeBytes(0, 1) == [0] && LeBytes(1, 1) == [1]
  {
    assert LeBytes(0, 1) == [0] && LeBytes(0, 2) == [0, 0] && LeBytes(0, 3) == [0, 0, 0];
  }

  lemma BoolNames()
    ensures MemberNames(1, BoolMembers()) == FALSE + [0, 0, 0] + (TRUE + [0, 0, 0, 0])
    ensures ValueBytes(BoolMembers(), 1) == LeBytes(0, 1) + LeBytes(1, 1)
  {
    var rest := BoolMembers()[1..];
    assert rest == [(TRUE, 1)] && rest[1..] == [];
    assert NameBytes(1, FALSE) == FALSE + [0, 0, 0];
    assert NameBytes(1, TRUE) == TRUE + [0, 0, 0, 0];
    assert MemberNames(1, rest) == NameBytes(1, TRUE) + MemberNames(1, []);
    assert Pow(256, 1) == 256;
    hide LeBytes;
    assert ValueBytes(rest, 1) == LeBytes(1, 1) + ValueBytes([], 1);
  }

  /** The bytes h5py expects are an enumeration over a signed byte. */
  lemma BoolSpelled()
    ensures BOOL_BYTES == Header(8, 1, LeBytes(2, 3), 1) + FixedBytes(1, true, Little)
                          + MemberNames(1, BoolMembers()) + ValueBytes(BoolMembers(), 1)
  {
    SmallFields();
    BoolNames();
    hide LeBytes, MemberNames, ValueBytes;
    assert Header(8, 1, LeBytes(2, 3), 1) == [0x18, 2, 0, 0, 1, 0, 0, 0];
    assert FixedBytes(1, true, Little) == [0x10, 8, 0, 0, 1, 0, 0, 0, 0, 0, 8, 0];
  }

  lemma BoolParses(utf8: Utf8, depth: nat)
    requires depth + 1 <= MAX_NESTING && utf8(FALSE) && utf8(TRUE)
    ensures Parse(utf8, BOOL_BYTES, depth) == Ok((DtypeOf(Bool), 38))
  {
    BoolSpelled();
    BoolNames();
    hide Header, LeNat, LeBytes, FixedBytes, MemberNames, ValueBytes, At, NamesFrom, MembersFrom, Parse, EnumValue;
    var b, members := BOOL_BYTES, BoolMembers();
    var head, base := Header(8, 1, LeBytes(2, 3), 1), FixedBytes(1, true, Little);
    var names, values := MemberNames(1, members), ValueBytes(members, 1);
    assert |head| == 8 && |base| == 12 && |names| == 16 && |values| == 2 && |b| == 38;
    AtStart(b);
    AtSplit(b, 0, head + base + names, values);
    AtSplit(b, 0, head + base, names);
    AtSplit(b, 0, head, base);
    HeaderReads(b, 8, 1, LeBytes(2, 3), 1);
    CountReads(2);
    FixedParses(utf8, 1, true, Little, depth + 1);
    ParsesAt(utf8, b, 8, base, depth + 1);
    assert Nameable(FALSE) && Nameable(TRUE);
    NamesRead(utf8, b, 20, 1, members);
    assert Pow(256, 1) == 256;
    ValuesRead(b, 36, members, NamesOf(members), 1);
    EnumFromParts(utf8, b, 1, DtypeOf(Bool), depth, 2, 1, 12, 36, 38);
  }

  /** A message is read where it stands, whatever follows. */
  lemma ParsesAt(utf8: Utf8, body: seq<Byte>, at: nat, x: seq<Byte>, depth: nat)
    requires At(body, at, x) && Parse(utf8, x, depth).Ok?
    ensures at <= |body| && Parse(utf8, body[at..], depth) == Parse(utf8, x, depth)
  {
    hide Parse;
    assert body[at..] == x + body[at + |x|..];
    ExtensionParsesAlike(utf8, x, body[at + |x|..], depth);
  }

  /** The nested message of an element type reads as that type, and as all of it. */
  lemma NestedReads(utf8: Utf8, e: ElemSpec, depth: nat)
    requires Supported(e) && Legible(utf8, e) && depth + 1 <= MAX_NESTING
    ensures Parse(utf8, Nested(e), depth) == Ok((DtypeOf(e), NestedSize(e)))
  {
    hide Parse, FixedBytes, FloatBytes, StringBytes, VlenStrBytes;
    match e
    case Fixed(size, signed, order) => FixedParses(utf8, size, signed, order, depth);
    case FloatIeee(size, order) => FloatParses(utf8, size, order, depth);
    case VlenStr => VlenStrParses(utf8, depth);
    case FixedStr(width) => StringParses(utf8, width, 1, depth);
    case Bool => BoolParses(utf8, depth);
  }

  /** So does the padded one of a dataset, without its padding. */
  lemma BodyReads(utf8: Utf8, e: ElemSpec, depth: nat)
    requires Supported(e) && Legible(utf8, e) && depth + 1 <= MAX_NESTING
    ensures Parse(utf8, Body(e), depth) == Ok((DtypeOf(e), NestedSize(e)))
  {
    hide Parse, Nested;
    NestedReads(utf8, e, depth);
    ExtensionParsesAlike(utf8, Nested(e), Zeros(BodySize(e) - NestedSize(e)), depth);
  }

  // ------------------------------------------------------------------
  // Reading structured types back
  // ------------------------------------------------------------------

  lemma OpaqueReadsBack(utf8: Utf8, size: nat, tag: seq<Byte>)
    requires OpaqueAccepted(size, tag) && utf8(tag)
    ensures Parse(utf8, OpaqueBody(size, tag), 0) == Ok((OpaqueType(size, tag), |OpaqueBody(size, tag)|))
  {
    hide Header, LeNat;
    var b, span := OpaqueBody(size, tag), Align8(|tag| + 1);
    HeadOf(b, 5, 1, [span, 0, 0], size, NameBytes(1, tag));
    var stored := b[8..8 + span];
    assert stored == NameBytes(1, tag);
    assert NulAt(stored, 0) == Some(|tag|) by { PaddedNul(tag, 0); }
    assert stored[..|tag|] == tag;
    assert Align8(span) == span;
  }

  lemma {:induction false} PaddedNul(tag: seq<Byte>, pos: nat)
    requires Nameable(tag) && pos <= |tag|
    ensures NulAt(NameBytes(1, tag), pos) == Some(|tag|)
    decreases |tag| - pos
  {
    var b := NameBytes(1, tag);
    if pos < |tag| {
      assert b[pos] == tag[pos] && tag[pos] in tag;
      PaddedNul(tag, pos + 1);
    }
  }

  lemma BitfieldReadsBack(utf8: Utf8, size: nat, order: ByteOrder)
    requires 1 <= size <= 8
    ensures Parse(utf8, BitfieldBody(size, order), 0) == Ok((BitfieldType(size, order), |BitfieldBody(size, order)|))
  {
    hide Header, LeNat, LeBytes;
    var rest := Zeros(2) + LeBytes(8 * size, 2);
    assert BitfieldBody(size, order) == Header(4, 1, [OrderBit(order), 0, 0], size) + rest;
    HeadOf(BitfieldBody(size, order), 4, 1, [OrderBit(order), 0, 0], size, rest);
  }

  lemma SequenceReadsBack(utf8: Utf8, base: ElemSpec)
    requires Supported(base) && Legible(utf8, base)
    ensures Parse(utf8, SequenceBody(base), 0) == Ok((VarLenType(DtypeOf(base)), |SequenceBody(base)|))
  {
    hide Header, LeNat, Nested;
    HeadOf(SequenceBody(base), 9, 1, [0, 0, 0], 16, Nested(base));
    NestedReads(utf8, base, 1);
  }

  lemma ArrayReadsBack(utf8: Utf8, base: ElemSpec, dims: seq<nat>)
    requires Supported(base) && Legible(utf8, base) && ArrayAccepted(base, dims)
    ensures Parse(utf8, ArrayBody(base, dims), 0) == Ok((ArrayType(DtypeOf(base), dims), |ArrayBody(base, dims)|))
  {
    hide Parse, Product, Nested, LeNat, Words, At, ArrayBody, ByteSize, DtypeOf;
    var n, b := |dims|, ArrayBody(base, dims);
    ArrayParts(base, dims);
    ExtentsFit(base, dims);
    DimsRead(b, 12, dims);
    NestedReads(utf8, base, 1);
    ParsesAt(utf8, b, 12 + 8 * n, Nested(base), 1);
    ArrayFromParts(utf8, b, 2, ArrayType(DtypeOf(base), dims), 0, 12 + 8 * n, NestedSize(base));
  }

  /** The size a reader computes for an array is the one the writer declared. */
  lemma ArrayStrideReadsBack(base: ElemSpec, dims: seq<nat>)
    requires !base.VlenStr?
    ensures Size(ArrayType(DtypeOf(base), dims)) == Some(Product(dims) * ByteSize(base))
  {
    hide Product, DtypeOf;
    BaseSize(base);
    MulCommutes(ByteSize(base), Product(dims));
  }

  /** Where the parts of an array message stand. */
  lemma ArrayParts(base: ElemSpec, dims: seq<nat>)
    requires Supported(base) && ArrayAccepted(base, dims)
    ensures var n, b := |dims|, ArrayBody(base, dims);
      && |b| == 12 + 8 * n + NestedSize(base)
      && b[0] % 16 == 10 && b[0] / 16 == 2 && b[8] == n
      && At(b, 12, EncodeWords(dims)) && At(b, 12 + 8 * n, Nested(base))
  {
    hide Nested, EncodeWords, Product, At, Iota, Header, ByteSize;
    var n, b := |dims|, ArrayBody(base, dims);
    var head, extents, order := ArrayHead(base, dims), EncodeWords(dims), EncodeWords(Iota(n));
    AtStart(b);
    AtSplit(b, 0, head + extents + order, Nested(base));
    AtSplit(b, 0, head + extents, order);
    AtSplit(b, 0, head, extents);
    ArrayHeadReads(b, Product(dims) * ByteSize(base), n);
  }

  lemma ArrayHeadReads(b: seq<Byte>, size: nat, n: Byte)
    requires size < 0x1_0000_0000 && At(b, 0, Header(10, 2, [0, 0, 0], size) + [n, 0, 0, 0])
    ensures |b| >= 12 && b[0] % 16 == 10 && b[0] / 16 == 2 && b[8] == n
  {
    hide Header, At, LeNat;
    var rank: seq<Byte> := [n, 0, 0, 0];
    AtFits(b, 0, Header(10, 2, [0, 0, 0], size) + rank);
    AtSplit(b, 0, Header(10, 2, [0, 0, 0], size), rank);
    HeaderReads(b, 10, 2, [0, 0, 0], size);
    assert rank == [n] + [0, 0, 0];
    AtSplit(b, 8, [n], [0, 0, 0]);
    FirstByte(b, 8, n);
  }

  lemma BaseSize(base: ElemSpec)
    ensures !base.VlenStr? ==> Size(DtypeOf(base)) == Some(ByteSize(base))
  {
  }

  /** An extent is no more than the size of the whole element. */
  lemma ExtentsFit(base: ElemSpec, dims: seq<nat>)
    requires Supported(base) && ArrayAccepted(base, dims)
    ensures Fits32(dims)
  {
    hide Product;
    BaseHasBytes(base);
    MulAtLeast(ByteSize(base), Product(dims));
    forall d | 0 <= d < |dims| ensures dims[d] < 0x1_0000_0000 {
      ExtentInProduct(dims, d);
    }
  }

  lemma {:induction false} ExtentInProduct(dims: seq<nat>, d: nat)
    requires d < |dims| && forall e :: 0 <= e < |dims| ==> dims[e] > 0
    ensures dims[d] <= Product(dims)
    decreases d
  {
    var p := Product(dims[1..]);
    assert Product(dims) == dims[0] * p;
    PositiveProduct(dims[1..]);
    if d == 0 {
      MulCommutes(dims[0], p);
      MulAtLeast(p, dims[0]);
    } else {
      ExtentInProduct(dims[1..], d - 1);
      MulAtLeast(dims[0], p);
    }
  }

  lemma MulCommutes(a: nat, b: nat)
    ensures a * b == b * a
  {
  }

  /** The members as a reader sees them. */
  function WrittenFields(fields: seq<Field>): (w: seq<Field>)
    ensures |w| == |fields|
  {
    seq(|fields|, i requires 0 <= i < |fields| =>
      Field(fields[i].name, fields[i].offset, AsWritten(fields[i].dtype)))
  }

  lemma {:induction false} MemberAt(body: seq<Byte>, base: nat, fields: seq<Field>, n: nat, i: nat)
    requires i < n <= |fields| && Writable(fields, n) && At(body, base, MembersBytes(fields, n))
    ensures At(body, base + MembersSize(fields, i), MemberBytes(fields[i]))
    decreases n
  {
    hide MemberElem, MemberBytes, MemberSize, At;
    AtSplit(body, base, MembersBytes(fields, n - 1), MemberBytes(fields[n - 1]));
    if i < n - 1 {
      MemberAt(body, base, fields, n - 1, i);
    }
  }

  lemma MemberReads(utf8: Utf8, body: seq<Byte>, pos: nat, f: Field)
    requires MemberElem(f.dtype).Ok? && Nameable(f.name) && utf8(f.name) && f.offset < 0x1_0000_0000
    requires At(body, pos, MemberBytes(f))
    ensures OneField(utf8, body, 1, pos, 0)
         == Ok((Field(f.name, f.offset, AsWritten(f.dtype)), pos + MemberSize(f)))
  {
    hide MemberElem, Nested, LeBytes, At, Parse, Name, ReadLe, OneField, NameBytes;
    var e, name, offset := ElemOf(f), NameBytes(1, f.name), LeBytes(f.offset, 4);
    AtFits(body, pos, MemberBytes(f));
    AtSplit(body, pos, name + offset + Zeros(28), Nested(e));
    AtSplit(body, pos, name + offset, Zeros(28));
    AtSplit(body, pos, name, offset);
    NameReads(utf8, body, pos, 1, f.name);
    Pow256Values();
    ReadLeAt(body, pos + |name|, 4, f.offset);
    MemberLegible(utf8, f);
    NestedReads(utf8, e, 1);
    ParsesAt(utf8, body, pos + |name| + 32, Nested(e), 1);
    FieldFromParts(utf8, body, 1, pos, 0, Field(f.name, f.offset, AsWritten(f.dtype)), |name|, NestedSize(e));
  }

  lemma MemberLegible(utf8: Utf8, f: Field)
    requires MemberElem(f.dtype).Ok?
    ensures Legible(utf8, ElemOf(f)) && DtypeOf(ElemOf(f)) == AsWritten(f.dtype) && NestedSize(ElemOf(f)) > 0
  {
    MemberKept(f.dtype);
  }

  /** Every member can be named and found by this reader. */
  ghost predicate MembersLegible(utf8: Utf8, fields: seq<Field>) {
    && Writable(fields, |fields|)
    && forall i :: 0 <= i < |fields| ==>
         Nameable(fields[i].name) && utf8(fields[i].name) && fields[i].offset < 0x1_0000_0000
  }

  lemma {:induction false} MembersRead(utf8: Utf8, body: seq<Byte>, fields: seq<Field>, i: nat)
    requires MembersLegible(utf8, fields) && i <= |fields| && At(body, 8, MembersBytes(fields, |fields|))
    ensures FieldsFrom(utf8, body, 1, |fields| - i, 8 + MembersSize(fields, i), 0)
         == Ok((WrittenFields(fields)[i..], 8 + MembersSize(fields, |fields|)))
    decreases |fields| - i
  {
    hide OneField, MemberElem, MemberBytes, MemberSize, AsWritten, At;
    if i == |fields| {
      assert WrittenFields(fields)[i..] == [];
    } else {
      MemberAt(body, 8, fields, |fields|, i);
      MemberReads(utf8, body, 8 + MembersSize(fields, i), fields[i]);
      MembersRead(utf8, body, fields, i + 1);
      assert [WrittenFields(fields)[i]] + WrittenFields(fields)[i + 1..] == WrittenFields(fields)[i..];
    }
  }

  lemma AcceptedLegible(utf8: Utf8, fields: seq<Field>, structSize: nat)
    requires CompoundAccepted(fields, structSize) && forall i :: 0 <= i < |fields| ==> utf8(fields[i].name)
    ensures MembersLegible(utf8, fields)
  {
    AcceptedWritable(fields, |fields|, structSize);
    forall i | 0 <= i < |fields|
      ensures Nameable(fields[i].name) && utf8(fields[i].name) && fields[i].offset < 0x1_0000_0000
    {
      assert MemberAccepted(fields, i, structSize);
    }
  }

  /** Main result: whatever record the writer accepts, the reader finds its
      members, in order and at their offsets, and takes the whole message; their
      types too, exactly when no text is marked as UTF-8. */
  lemma CompoundReadsBack(utf8: Utf8, fields: seq<Field>, structSize: nat)
    requires CompoundAccepted(fields, structSize) && forall i :: 0 <= i < |fields| ==> utf8(fields[i].name)
    ensures Writable(fields, |fields|)
    ensures var body := CompoundBody(fields, structSize);
      && Parse(utf8, body, 0) == Ok((CompoundType(WrittenFields(fields)), |body|))
      && (Parse(utf8, body, 0) == Ok((CompoundType(fields), |body|)) <==>
            forall i :: 0 <= i < |fields| ==> !Utf8Text(fields[i].dtype))
  {
    hide MemberAccepted, MemberElem, Header, LeNat, LeBytes, At, MembersBytes, MembersSize, FieldsFrom, AsWritten;
    AcceptedLegible(utf8, fields, structSize);
    var b, count := CompoundBody(fields, structSize), LeBytes(|fields|, 3);
    HeadOf(b, 6, 1, count, structSize, MembersBytes(fields, |fields|));
    AtStart(b);
    AtSplit(b, 0, Header(6, 1, count, structSize), MembersBytes(fields, |fields|));
    CountReads(|fields|);
    NoMembers(fields);
    MembersRead(utf8, b, fields, 0);
    assert WrittenFields(fields)[0..] == WrittenFields(fields);
    FieldsKept(fields);
  }

  lemma FieldsKept(fields: seq<Field>)
    requires Writable(fields, |fields|)
    ensures WrittenFields(fields) == fields <==> forall i :: 0 <= i < |fields| ==> !Utf8Text(fields[i].dtype)
  {
    hide MemberElem;
    forall i | 0 <= i < |fields|
      ensures WrittenFields(fields)[i] == fields[i] <==> !Utf8Text(fields[i].dtype)
    {
      MemberKept(fields[i].dtype);
    }
    if forall i :: 0 <= i < |fields| ==> !Utf8Text(fields[i].dtype) {
      assert WrittenFields(fields) == fields;
    }
  }

  // ------------------------------------------------------------------
  // The stride of a record
  // ------------------------------------------------------------------

  /** The size a reader computes is the end of the furthest member. */
  lemma {:induction false} FurthestMember(fields: seq<Field>, limit: nat)
    requires limit > 0
    requires forall i :: 0 <= i < |fields| ==>
      Size(fields[i].dtype).Some? && fields[i].offset + Size(fields[i].dtype).value <= limit
    ensures FieldsSize(fields).Some? && FieldsSize(fields).value <= limit
    ensures FieldsSize(fields).value == limit <==>
      exists i :: 0 <= i < |fields| && fields[i].offset + Size(fields[i].dtype).value == limit
  {
    hide Size;
    if fields != [] {
      var rest := fields[1..];
      FurthestMember(rest, limit);
      if FieldsSize(rest).value == limit {
        var i :| 0 <= i < |rest| && rest[i].offset + Size(rest[i].dtype).value == limit;
        assert fields[i + 1] == rest[i];
      }
      if i :| 0 <= i < |fields| && fields[i].offset + Size(fields[i].dtype).value == limit {
        assert i == 0 || rest[i - 1] == fields[i];
      }
    }
  }

  /** The writer steps from record to record by the declared size; the reader, to
      which that size is lost, by the same exactly when some member ends there. */
  lemma StrideReadsBack(fields: seq<Field>, structSize: nat)
    requires CompoundAccepted(fields, structSize)
    ensures Size(CompoundType(WrittenFields(fields))).Some?
    ensures Writable(fields, |fields|)
    ensures Size(CompoundType(WrittenFields(fields))) == Some(structSize) <==>
      exists i :: 0 <= i < |fields| && EndOf(fields[i]) == structSize
  {
    AcceptedWritable(fields, |fields|, structSize);
    var w := WrittenFields(fields);
    forall i | 0 <= i < |w|
      ensures Size(w[i].dtype).Some? && w[i].offset + Size(w[i].dtype).value == EndOf(fields[i]) <= structSize
    {
      assert MemberAccepted(fields, i, structSize);
      WrittenSize(fields[i].dtype);
    }
    hide MemberElem, MemberAccepted, Size;
    FurthestMember(w, structSize);
    assert Size(CompoundType(w)) == FieldsSize(w) by { CompoundSizeIs(w); }
    if i :| 0 <= i < |fields| && EndOf(fields[i]) == structSize {
      assert w[i].offset + Size(w[i].dtype).value == structSize;
    }
  }

  lemma CompoundSizeIs(fields: seq<Field>)
    ensures Size(CompoundType(fields)) == FieldsSize(fields)
  {
  }

  lemma WrittenSize(t: Dtype)
    requires MemberElem(t).Ok?
    ensures Size(AsWritten(t)) == Some(ByteSize(MemberElem(t).value))
  {
  }

  /** A record with padding at its end is written with one stride and read with
      another: one 4-byte member in 8 bytes. */
  lemma PaddedRecord()
    ensures var fields := [Field([97], 0, IntType(4, true, Little))];
      CompoundAccepted(fields, 8) && Size(CompoundType(WrittenFields(fields))) == Some(4)
  {
    var fields := [Field([97], 0, IntType(4, true, Little))];
    assert WrittenFields(fields) == fields && fields[1..] == [];
    assert FieldsSize([]) == Some(0);
    assert Size(IntType(4, true, Little)) == Some(4);
    assert FieldsSize(fields) == Some(4);
    assert MemberAccepted(fields, 0, 8);
  }
}
