// The writer's datatype messages: element types, and the five classes that need
// a description of their own.

module DatatypeWriter {
  import opened Arithmetic
  import opened Common
  import opened Grid
  import opened Elements
  import opened Dtypes
  import opened Datatype
  import opened DatatypeEncoding

  // ------------------------------------------------------------------
  // Element types
  // ------------------------------------------------------------------

  /** The element types that need no description of their own. */
  datatype ElemSpec =
    | Fixed(size: nat, signed: bool, order: ByteOrder)
    | FloatIeee(size: nat, order: ByteOrder)
    | VlenStr
    | FixedStr(width: nat)
    | Bool

  /** The entries of the writer's table. */
  predicate Supported(e: ElemSpec) {
    match e
    case Fixed(size, _, _) => WordSize(size)
    case FloatIeee(size, _) => size == 2 || size == 4 || size == 8
    case FixedStr(width) => 1 <= width < 0x1_0000_0000
    case _ => true
  }

  const FALSE: seq<Byte> := [70, 65, 76, 83, 69]
  const TRUE: seq<Byte> := [84, 82, 85, 69]

  /** What a reader makes of an element type. */
  function DtypeOf(e: ElemSpec): Dtype {
    match e
    case Fixed(size, signed, order) => IntType(size, signed, order)
    case FloatIeee(size, order) => FloatType(size, order)
    case VlenStr => StringType(None, Utf8)
    case FixedStr(width) => StringType(Some(width), Ascii)
    case Bool => EnumType(IntType(1, true, Little), [(FALSE, 0), (TRUE, 1)])
  }

  /** Bytes of one stored element. */
  function ByteSize(e: ElemSpec): nat {
    match e
    case Fixed(size, _, _) => size
    case FloatIeee(size, _) => size
    case VlenStr => 16
    case FixedStr(width) => width
    case Bool => 1
  }

  /** The element type a member or base of type `t` is written as. */
  function MemberElem(t: Dtype): (r: Result<ElemSpec>)
    ensures r.Ok? ==> Supported(r.value)
  {
    match t
    case StringType(Some(width), _) => if 1 <= width < 0x1_0000_0000 then Ok(FixedStr(width)) else Err(Format)
    case FloatType(size, order) =>
      if size == 2 || size == 4 || size == 8 then Ok(FloatIeee(size, order)) else Err(Format)
    case IntType(size, signed, order) =>
      if WordSize(size) then Ok(Fixed(size, signed, order)) else Err(Format)
    case _ => Err(Format)
  }

  predicate Utf8Text(t: Dtype) { t.StringType? && t.charset.Utf8? }

  /** `t` without the character set the writer drops. */
  function AsWritten(t: Dtype): Dtype { if t.StringType? then StringType(t.fixedLen, Ascii) else t }

  /** A writable type is kept, except that its text is marked as ASCII. */
  lemma MemberKept(t: Dtype)
    requires MemberElem(t).Ok?
    ensures DtypeOf(MemberElem(t).value) == AsWritten(t)
    ensures AsWritten(t) == t <==> !Utf8Text(t)
    ensures Size(t) == Some(ByteSize(MemberElem(t).value)) && ByteSize(MemberElem(t).value) >= 1
  {
  }

  // ------------------------------------------------------------------
  // The bytes of an element type
  // ------------------------------------------------------------------

  function FixedFlags(signed: bool, order: ByteOrder): Byte { OrderBit(order) + (if signed then 8 else 0) }

  function ExpBits(size: nat): (bits: nat)
    ensures bits <= 15
  {
    if size == 2 then 5 else if size == 4 then 8 else if size == 8 then 11 else 15
  }

  /** Header, bit offset and precision. */
  function FixedBytes(size: nat, signed: bool, order: ByteOrder): (b: seq<Byte>)
    ensures |b| == 12
  {
    Header(0, 1, [FixedFlags(signed, order), 0, 0], size) + Zeros(2) + LeBytes(8 * size, 2)
  }

  function Mantissa(size: nat): Byte
    requires size == 2 || size == 4 || size == 8
  {
    8 * size - ExpBits(size) - 1
  }

  function Bias(size: nat): nat { Pow(2, Max(ExpBits(size) - 1, 0)) - 1 }

  /** Header, bit offset, precision, exponent, mantissa and bias. */
  function FloatBytes(size: nat, order: ByteOrder): (b: seq<Byte>)
    requires size == 2 || size == 4 || size == 8
    ensures |b| == 20
  {
    Header(1, 1, [0x20 + OrderBit(order), 8 * size - 1, 0], size) + Zeros(2) + LeBytes(8 * size, 2)
      + [Mantissa(size), ExpBits(size), 0, Mantissa(size)] + LeBytes(Bias(size), 4)
  }

  function StringBytes(width: nat, flags: Byte): (b: seq<Byte>)
    ensures |b| == 8
  {
    Header(3, 1, [flags, 0, 0], width)
  }

  function VlenStrBytes(): (b: seq<Byte>)
    ensures |b| == 16
  {
    Header(9, 1, [1, 1, 0], 16) + StringBytes(1, 16)
  }

  const BOOL_BYTES: seq<Byte> :=
    [0x18, 2, 0, 0, 1, 0, 0, 0]
    + [0x10, 8, 0, 0, 1, 0, 0, 0, 0, 0, 8, 0]
    + [70, 65, 76, 83, 69, 0, 0, 0]
    + [84, 82, 85, 69, 0, 0, 0, 0]
    + [0, 1]

  /** The message of an element type inside another message. */
  function Nested(e: ElemSpec): (b: seq<Byte>)
    requires Supported(e)
    ensures |b| == NestedSize(e)
  {
    match e
    case Fixed(size, signed, order) => FixedBytes(size, signed, order)
    case FloatIeee(size, order) => FloatBytes(size, order)
    case VlenStr => VlenStrBytes()
    case FixedStr(width) => StringBytes(width, 1)
    case Bool => BOOL_BYTES
  }

  function NestedSize(e: ElemSpec): nat {
    match e
    case Fixed(_, _, _) => 12
    case FloatIeee(_, _) => 20
    case VlenStr => 16
    case FixedStr(_) => 8
    case Bool => 38
  }

  /** Numbers standing alone are padded to 8 bytes. */
  function BodySize(e: ElemSpec): (n: nat)
    ensures NestedSize(e) <= n <= NestedSize(e) + 4
  {
    NestedSize(e) + if e.Fixed? || e.FloatIeee? then 4 else 0
  }

  function Body(e: ElemSpec): (b: seq<Byte>)
    requires Supported(e)
    ensures |b| == BodySize(e)
  {
    Nested(e) + Zeros(BodySize(e) - NestedSize(e))
  }

  // ------------------------------------------------------------------
  // Writing into a buffer
  // ------------------------------------------------------------------

  lemma PatchWithin(before: seq<Byte>, start: nat, x: seq<Byte>, at: nat, y: seq<Byte>)
    requires start + |x| <= |before| && at + |y| <= |x|
    ensures Patch(Patch(before, start, x), start + at, y) == Patch(before, start, Patch(x, at, y))
  {
  }

  lemma PatchOver(before: seq<Byte>, start: nat, x: seq<Byte>, y: seq<Byte>)
    requires start + |x| <= |before| && |y| == |x|
    ensures Patch(Patch(before, start, x), start, y) == Patch(before, start, y)
  {
  }

  /** Overwrite part of a region that holds `image`. */
  method Put(buf: array<Byte>, start: nat, ghost before: seq<Byte>, ghost image: seq<Byte>, at: nat, x: seq<Byte>)
    requires start + |image| <= |before| && at + |x| <= |image| && buf[..] == Patch(before, start, image)
    modifies buf
    ensures buf[..] == Patch(before, start, Patch(image, at, x))
  {
    hide Patch;
    CopyBytes(buf, start + at, x);
    PatchWithin(before, start, image, at, x);
  }

  lemma FillNext(a: seq<Byte>, k: nat, x: seq<Byte>)
    requires |x| <= k
    ensures Patch(a + Zeros(k), |a|, x) == a + x + Zeros(k - |x|)
  {
  }

  lemma FillHole(a: seq<Byte>, k: nat, b: seq<Byte>, x: seq<Byte>)
    requires |x| <= k
    ensures Patch(a + Zeros(k) + b, |a|, x) == a + x + Zeros(k - |x|) + b
  {
  }

  lemma FixedImage(size: nat, signed: bool, order: ByteOrder)
    ensures Patch(Patch(Patch(Patch(Zeros(16), 0, [0x10]), 1, [FixedFlags(signed, order)]), 4, LeBytes(size, 4)),
                  10, LeBytes(8 * size, 2))
         == FixedBytes(size, signed, order) + Zeros(4)
  {
    hide LeBytes, FixedFlags, Header;
    var f, p := FixedFlags(signed, order), LeBytes(8 * size, 2);
    var head := Header(0, 1, [f, 0, 0], size);
    assert Patch(Patch(Zeros(16), 0, [0x10]), 1, [f]) == [0x10] + [f, 0, 0] + Zeros(12);
    hide Patch;
    HeaderImage(0, [f, 0, 0], size, 8);
    SkipZeros(head, 2, 6);
    FillNext(head + Zeros(2), 6, p);
  }

  method WriteFixedDtype(buf: array<Byte>, start: nat, size: nat, signed: bool, order: ByteOrder) returns (n: nat)
    requires start + 16 <= buf.Length
    modifies buf
    ensures buf[..] == Patch(old(buf[..]), start, FixedBytes(size, signed, order) + Zeros(4)) && n == 16
  {
    hide Patch, LeBytes, FixedBytes, FixedFlags;
    ghost var before := buf[..];
    CopyBytes(buf, start, Zeros(16));
    Put(buf, start, before, Zeros(16), 0, [0x10]);
    ghost var image := Patch(Zeros(16), 0, [0x10]);
    Put(buf, start, before, image, 1, [FixedFlags(signed, order)]);
    image := Patch(image, 1, [FixedFlags(signed, order)]);
    Put(buf, start, before, image, 4, LeBytes(size, 4));
    image := Patch(image, 4, LeBytes(size, 4));
    Put(buf, start, before, image, 10, LeBytes(8 * size, 2));
    FixedImage(size, signed, order);
    return 16;
  }

  /** The fields of a float message patched into zeros. */
  function FloatHead(size: nat, order: ByteOrder): (b: seq<Byte>)
    requires size == 2 || size == 4 || size == 8
    ensures |b| == 24
  {
    Patch(Patch(Patch(Zeros(24), 0, [0x11]), 1, [0x20 + OrderBit(order)]), 2, [8 * size - 1])
  }

  lemma FloatImage(size: nat, order: ByteOrder)
    requires size == 2 || size == 4 || size == 8
    ensures Patch(Patch(Patch(Patch(FloatHead(size, order), 4, LeBytes(size, 4)), 10, LeBytes(8 * size, 2)),
                        12, [Mantissa(size), ExpBits(size), 0, Mantissa(size)]), 16, LeBytes(Bias(size), 4))
         == FloatBytes(size, order) + Zeros(4)
  {
    hide LeBytes, Mantissa, ExpBits, Bias, Patch, FloatHead, Header;
    var head := Header(1, 1, [0x20 + OrderBit(order), 8 * size - 1, 0], size);
    var p, b := LeBytes(8 * size, 2), LeBytes(Bias(size), 4);
    var m: seq<Byte> := [Mantissa(size), ExpBits(size), 0, Mantissa(size)];
    FloatLead(size, order);
    HeaderImage(1, [0x20 + OrderBit(order), 8 * size - 1, 0], size, 16);
    SkipZeros(head, 2, 14);
    FillNext(head + Zeros(2), 14, p);
    FillNext(head + Zeros(2) + p, 12, m);
    FillNext(head + Zeros(2) + p + m, 8, b);
  }

  lemma SkipZeros(a: seq<Byte>, n: nat, k: nat)
    ensures a + Zeros(n + k) == a + Zeros(n) + Zeros(k)
  {
  }

  /** Writing the size completes a version-1 header. */
  lemma HeaderImage(class_: nat, bits: seq<Byte>, size: nat, k: nat)
    requires class_ < 16 && |bits| == 3
    ensures Patch([0x10 + class_] + bits + Zeros(4 + k), 4, LeBytes(size, 4))
         == Header(class_, 1, bits, size) + Zeros(k)
  {
    FillNext([0x10 + class_] + bits, 4 + k, LeBytes(size, 4));
  }

  lemma FloatLead(size: nat, order: ByteOrder)
    requires size == 2 || size == 4 || size == 8
    ensures FloatHead(size, order) == [0x11] + [0x20 + OrderBit(order), 8 * size - 1, 0] + Zeros(20)
  {
    var flags, sign: Byte := 0x20 + OrderBit(order), 8 * size - 1;
    assert Patch(Patch(Zeros(24), 0, [0x11]), 1, [flags]) == [0x11, flags] + Zeros(22);
    assert Patch([0x11, flags] + Zeros(22), 2, [sign]) == [0x11, flags, sign] + Zeros(21);
  }

  method WriteFloatDtype(buf: array<Byte>, start: nat, size: nat, order: ByteOrder) returns (n: nat)
    requires size == 2 || size == 4 || size == 8
    requires start + 24 <= buf.Length
    modifies buf
    ensures buf[..] == Patch(old(buf[..]), start, FloatBytes(size, order) + Zeros(4)) && n == 24
  {
    hide Patch, LeBytes, FloatBytes;
    ghost var before := buf[..];
    CopyBytes(buf, start, Zeros(24));
    Put(buf, start, before, Zeros(24), 0, [0x11]);
    ghost var image := Patch(Zeros(24), 0, [0x11]);
    Put(buf, start, before, image, 1, [0x20 + OrderBit(order)]);
    image := Patch(image, 1, [0x20 + OrderBit(order)]);
    Put(buf, start, before, image, 2, [8 * size - 1]);
    image := Patch(image, 2, [8 * size - 1]);
    Put(buf, start, before, image, 4, LeBytes(size, 4));
    image := Patch(image, 4, LeBytes(size, 4));
    Put(buf, start, before, image, 10, LeBytes(8 * size, 2));
    image := Patch(image, 10, LeBytes(8 * size, 2));
    Put(buf, start, before, image, 12, [Mantissa(size), ExpBits(size), 0, Mantissa(size)]);
    image := Patch(image, 12, [Mantissa(size), ExpBits(size), 0, Mantissa(size)]);
    Put(buf, start, before, image, 16, LeBytes(Bias(size), 4));
    FloatImage(size, order);
    return 24;
  }

  lemma StringImage(width: nat, flags: Byte)
    ensures Patch(Patch(Patch(Zeros(8), 0, [0x13]), 1, [flags]), 4, LeBytes(width, 4)) == StringBytes(width, flags)
  {
    hide LeBytes, Header;
    assert Patch(Patch(Zeros(8), 0, [0x13]), 1, [flags]) == [0x13] + [flags, 0, 0] + Zeros(4);
    hide Patch;
    HeaderImage(3, [flags, 0, 0], width, 0);
    assert StringBytes(width, flags) + Zeros(0) == StringBytes(width, flags);
  }

  method WriteStringDtype(buf: array<Byte>, start: nat, width: nat, flags: Byte) returns (n: nat)
    requires start + 8 <= buf.Length
    modifies buf
    ensures buf[..] == Patch(old(buf[..]), start, StringBytes(width, flags)) && n == 8
  {
    hide Patch, LeBytes, StringBytes;
    ghost var before := buf[..];
    CopyBytes(buf, start, Zeros(8));
    Put(buf, start, before, Zeros(8), 0, [0x13]);
    ghost var image := Patch(Zeros(8), 0, [0x13]);
    Put(buf, start, before, image, 1, [flags]);
    image := Patch(image, 1, [flags]);
    Put(buf, start, before, image, 4, LeBytes(width, 4));
    StringImage(width, flags);
    return 8;
  }

  lemma VlenStrImage()
    ensures Patch(Patch(Patch(Patch(Patch(Zeros(16), 0, [0x19]), 1, [1]), 2, [1]), 4, LeBytes(16, 4)),
                  8, StringBytes(1, 16))
         == VlenStrBytes()
  {
    hide LeBytes, StringBytes, Header;
    var first := Patch(Zeros(16), 0, [0x19]);
    assert first == [0x19] + Zeros(15);
    assert Patch(Patch(first, 1, [1]), 2, [1]) == [0x19] + [1, 1, 0] + Zeros(12);
    hide Patch;
    HeaderImage(9, [1, 1, 0], 16, 8);
    FillNext(Header(9, 1, [1, 1, 0], 16), 8, StringBytes(1, 16));
    assert VlenStrBytes() + Zeros(0) == VlenStrBytes();
  }

  method WriteVlenStrDtype(buf: array<Byte>, start: nat) returns (n: nat)
    requires start + 16 <= buf.Length
    modifies buf
    ensures buf[..] == Patch(old(buf[..]), start, VlenStrBytes()) && n == 16
  {
    hide Patch, LeBytes, StringBytes, VlenStrBytes;
    ghost var before := buf[..];
    CopyBytes(buf, start, Zeros(16));
    Put(buf, start, before, Zeros(16), 0, [0x19]);
    ghost var image := Patch(Zeros(16), 0, [0x19]);
    Put(buf, start, before, image, 1, [1]);
    image := Patch(image, 1, [1]);
    Put(buf, start, before, image, 2, [1]);
    image := Patch(image, 2, [1]);
    Put(buf, start, before, image, 4, LeBytes(16, 4));
    image := Patch(image, 4, LeBytes(16, 4));
    var inner := WriteStringDtype(buf, start + 8, 1, 16);
    PatchWithin(before, start, image, 8, StringBytes(1, 16));
    VlenStrImage();
    return 16;
  }

  method WriteDatatypeBody(buf: array<Byte>, start: nat, e: ElemSpec) returns (n: nat)
    requires Supported(e) && start + BodySize(e) <= buf.Length
    modifies buf
    ensures buf[..] == Patch(old(buf[..]), start, Body(e)) && n == BodySize(e)
  {
    hide Patch, FixedBytes, FloatBytes, StringBytes, VlenStrBytes;
    NoPadding(e);
    match e
    case Fixed(size, signed, order) => n := WriteFixedDtype(buf, start, size, signed, order);
    case FloatIeee(size, order) => n := WriteFloatDtype(buf, start, size, order);
    case VlenStr => n := WriteVlenStrDtype(buf, start);
    case FixedStr(width) => n := WriteStringDtype(buf, start, width, 1);
    case Bool =>
      CopyBytes(buf, start, BOOL_BYTES);
      n := 38;
  }

  lemma NoPadding(e: ElemSpec)
    requires Supported(e)
    ensures !e.Fixed? && !e.FloatIeee? ==> Body(e) == Nested(e)
  {
    hide Nested;
  }

  /** The message without its padding, built aside so that the padding erases nothing. */
  method WriteNestedDatatypeBody(buf: array<Byte>, start: nat, e: ElemSpec) returns (n: nat)
    requires Supported(e) && start + NestedSize(e) <= buf.Length
    modifies buf
    ensures buf[..] == Patch(old(buf[..]), start, Nested(e)) && n == NestedSize(e)
  {
    hide Patch, Nested;
    var scratch := new Byte[BodySize(e)](i => 0);
    ghost var empty := scratch[..];
    var wrote := WriteDatatypeBody(scratch, 0, e);
    PatchAll(empty, Body(e));
    assert scratch[..NestedSize(e)] == Body(e)[..NestedSize(e)] == Nested(e);
    CopyBytes(buf, start, scratch[..NestedSize(e)]);
    return NestedSize(e);
  }

  lemma PatchAll(before: seq<Byte>, x: seq<Byte>)
    requires |before| == |x|
    ensures Patch(before, 0, x) == x
  {
  }

  // ------------------------------------------------------------------
  // Building a message from its start
  // ------------------------------------------------------------------

  /** A message body and the size of the elements it describes. */
  datatype EncodedDtype = EncodedDtype(body: seq<Byte>, elemSize: nat, vlenBase: Option<ElemSpec>)

  /** A buffer of `size` bytes of which those in `done` are written. */
  ghost predicate Started(buf: seq<Byte>, size: nat, done: seq<Byte>) {
    |done| <= size && buf == done + Zeros(size - |done|)
  }

  lemma AppendFills(buf: seq<Byte>, size: nat, done: seq<Byte>, x: seq<Byte>)
    requires Started(buf, size, done) && |done| + |x| <= size
    ensures Started(Patch(buf, |done|, x), size, done + x)
  {
    FillNext(done, size - |done|, x);
  }

  lemma SkipKeeps(buf: seq<Byte>, size: nat, done: seq<Byte>, n: nat)
    requires Started(buf, size, done) && |done| + n <= size
    ensures Started(buf, size, done + Zeros(n))
  {
    SkipZeros(done, n, size - |done| - n);
  }

  lemma StartedFull(buf: seq<Byte>, done: seq<Byte>)
    requires Started(buf, |done|, done)
    ensures buf == done
  {
    assert done + Zeros(0) == done;
  }

  method Append(buf: array<Byte>, ghost done: seq<Byte>, pos: nat, x: seq<Byte>)
    requires Started(buf[..], buf.Length, done) && pos == |done| && pos + |x| <= buf.Length
    modifies buf
    ensures Started(buf[..], buf.Length, done + x)
  {
    hide Patch, Started;
    AppendFills(buf[..], buf.Length, done, x);
    CopyBytes(buf, pos, x);
  }

  /** A zeroed buffer that begins with a version-1 header of this class. */
  method NewMessage(size: nat, classVersion: Byte, bits: seq<Byte>, elemSize: nat) returns (buf: array<Byte>)
    requires size >= 8 && |bits| == 3
    ensures fresh(buf) && buf.Length == size
    ensures Started(buf[..], size, Header(classVersion % 16, classVersion / 16, bits, elemSize))
  {
    hide LeBytes;
    buf := new Byte[size](i => 0);
    assert Started(buf[..], size, []);
    hide Started;
    Append(buf, [], 0, [classVersion]);
    Append(buf, [] + [classVersion], 1, bits);
    Append(buf, [] + [classVersion] + bits, 4, LeBytes(elemSize, 4));
    assert [] + [classVersion] + bits + LeBytes(elemSize, 4)
        == Header(classVersion % 16, classVersion / 16, bits, elemSize);
  }

  // ------------------------------------------------------------------
  // Opaque, bit field, sequence
  // ------------------------------------------------------------------

  function OpaqueBody(size: nat, tag: seq<Byte>): seq<Byte>
    requires Align8(|tag| + 1) < 256
  {
    Header(5, 1, [Align8(|tag| + 1), 0, 0], size) + NameBytes(1, tag)
  }

  predicate OpaqueAccepted(size: nat, tag: seq<Byte>) {
    1 <= size < 0x1_0000_0000 && Nameable(tag) && Align8(|tag| + 1) < 256
  }

  /** `tag` padded with zeros, of which there is at least one. */
  method Opaque(size: nat, tag: seq<Byte>) returns (r: Result<EncodedDtype>)
    ensures r == if OpaqueAccepted(size, tag) then Ok(EncodedDtype(OpaqueBody(size, tag), size, None)) else Err(Format)
  {
    hide LeBytes, Started, Header;
    var span := Align8(|tag| + 1);
    if size == 0 || 0 in tag || span >= 256 || size >= 0x1_0000_0000 {
      return Err(Format);
    }
    var body := NewMessage(8 + span, 0x15, [span, 0, 0], size);
    ghost var head := Header(5, 1, [span, 0, 0], size);
    Append(body, head, 8, tag);
    SkipKeeps(body[..], 8 + span, head + tag, span - |tag|);
    assert head + tag + Zeros(span - |tag|) == OpaqueBody(size, tag);
    StartedFull(body[..], OpaqueBody(size, tag));
    return Ok(EncodedDtype(body[..], size, None));
  }

  function BitfieldBody(size: nat, order: ByteOrder): seq<Byte> {
    Header(4, 1, [OrderBit(order), 0, 0], size) + Zeros(2) + LeBytes(8 * size, 2)
  }

  method Bitfield(size: nat, order: ByteOrder) returns (r: Result<EncodedDtype>)
    ensures r == if 1 <= size <= 8 then Ok(EncodedDtype(BitfieldBody(size, order), size, None)) else Err(Format)
  {
    hide LeBytes, Started, Header;
    if size == 0 || size > 8 {
      return Err(Format);
    }
    var body := NewMessage(12, 0x14, [OrderBit(order), 0, 0], size);
    ghost var head := Header(4, 1, [OrderBit(order), 0, 0], size);
    SkipKeeps(body[..], 12, head, 2);
    Append(body, head + Zeros(2), 10, LeBytes(8 * size, 2));
    StartedFull(body[..], BitfieldBody(size, order));
    return Ok(EncodedDtype(body[..], size, None));
  }

  function SequenceBody(base: ElemSpec): seq<Byte>
    requires Supported(base)
  {
    Header(9, 1, [0, 0, 0], 16) + Nested(base)
  }

  method VlenSequence(base: ElemSpec) returns (r: Result<EncodedDtype>)
    requires Supported(base)
    ensures r == if base.VlenStr? then Err(Format) else Ok(EncodedDtype(SequenceBody(base), 16, Some(base)))
  {
    hide LeBytes, Started, Header, Nested, Patch;
    if base.VlenStr? {
      return Err(Format);
    }
    var body := NewMessage(8 + NestedSize(base), 0x19, [0, 0, 0], 16);
    ghost var head := Header(9, 1, [0, 0, 0], 16);
    AppendFills(body[..], body.Length, head, Nested(base));
    var wrote := WriteNestedDatatypeBody(body, 8, base);
    StartedFull(body[..], SequenceBody(base));
    return Ok(EncodedDtype(body[..], 16, Some(base)));
  }

  // ------------------------------------------------------------------
  // Array
  // ------------------------------------------------------------------

  const MAX_ARRAY_DIMS: nat := 32

  function Iota(n: nat): (s: seq<nat>)
    ensures |s| == n && forall i :: 0 <= i < n ==> s[i] == i
  {
    seq(n, i requires 0 <= i => i)
  }

  predicate ArrayAccepted(base: ElemSpec, dims: seq<nat>) {
    && 1 <= |dims| <= MAX_ARRAY_DIMS && (forall d :: 0 <= d < |dims| ==> dims[d] > 0)
    && Product(dims) * ByteSize(base) < 0x1_0000_0000
  }

  function ArrayHead(base: ElemSpec, dims: seq<nat>): (b: seq<Byte>)
    requires |dims| < 256
    ensures |b| == 12
  {
    Header(10, 2, [0, 0, 0], Product(dims) * ByteSize(base)) + [|dims|, 0, 0, 0]
  }

  /** Header, rank, extents, the identity permutation and the base type. */
  function ArrayBody(base: ElemSpec, dims: seq<nat>): seq<Byte>
    requires Supported(base) && |dims| < 256
  {
    ArrayHead(base, dims) + EncodeWords(dims) + EncodeWords(Iota(|dims|)) + Nested(base)
  }

  /** Product of the extents unless one is 0 or it leaves 64 bits. */
  method ArrayExtent(dims: seq<nat>) returns (r: Result<nat>)
    ensures r.Ok? ==> (forall d :: 0 <= d < |dims| ==> dims[d] > 0) && r.value == Product(dims)
    ensures r.Err? ==> r == Err(Format)
    ensures r.Err? ==> (exists d :: 0 <= d < |dims| && dims[d] == 0) || Product(dims) > U64_MAX
  {
    hide Product;
    var count: nat := 1;
    assert dims[0..] == dims;
    for i := 0 to |dims|
      invariant forall d :: 0 <= d < i ==> dims[d] > 0
      invariant count * Product(dims[i..]) == Product(dims)
    {
      if dims[i] == 0 {
        return Err(Format);
      }
      ProductStep(dims, i, count);
      if count * dims[i] > U64_MAX {
        RestPositive(dims, i + 1, count * dims[i]);
        return Err(Format);
      }
      count := count * dims[i];
    }
    assert Product(dims[|dims|..]) == 1 by { EmptyProduct(dims); }
    return Ok(count);
  }

  lemma ProductStep(dims: seq<nat>, i: nat, count: nat)
    requires i < |dims|
    ensures count * Product(dims[i..]) == count * dims[i] * Product(dims[i + 1..])
  {
    assert dims[i..][0] == dims[i] && dims[i..][1..] == dims[i + 1..];
    var p := Product(dims[i + 1..]);
    assert Product(dims[i..]) == dims[i] * p;
    hide Product;
    assert count * (dims[i] * p) == count * dims[i] * p;
  }

  lemma RestPositive(dims: seq<nat>, i: nat, count: nat)
    requires i <= |dims| && count * Product(dims[i..]) == Product(dims)
    ensures (exists d :: 0 <= d < |dims| && dims[d] == 0) || Product(dims) >= count
  {
    hide Product;
    if forall d :: 0 <= d < |dims| ==> dims[d] > 0 {
      PositiveProduct(dims[i..]);
      MulAtLeast(Product(dims[i..]), count);
    }
  }

  lemma EmptyProduct(dims: seq<nat>)
    ensures Product(dims[|dims|..]) == 1
  {
  }

  lemma {:induction false} WordsSnoc(w: seq<nat>, x: nat)
    ensures EncodeWords(w + [x]) == EncodeWords(w) + LeBytes(x, 4)
    decreases w
  {
    hide LeBytes;
    if w == [] {
      assert [] + [x] == [x] && |[x][1..]| == 0;
    } else {
      assert (w + [x])[1..] == w[1..] + [x];
      WordsSnoc(w[1..], x);
    }
  }

  /** Two areas of `n` words after `head`, written from their starts as far as
      `a` and `b`, with `rest` bytes behind them. */
  ghost predicate TwoAreas(buf: seq<Byte>, head: seq<Byte>, a: seq<Byte>, b: seq<Byte>, n: nat, rest: nat) {
    |a| == |b| <= 4 * n && buf == head + a + Zeros(4 * n - |a|) + (b + Zeros(4 * n - |a|) + Zeros(rest))
  }

  lemma AreasOpen(buf: seq<Byte>, head: seq<Byte>, n: nat, rest: nat)
    requires Started(buf, |head| + 8 * n + rest, head)
    ensures TwoAreas(buf, head, [], [], n, rest)
  {
    SkipZeros(head, 4 * n, 4 * n + rest);
    SkipZeros([], 4 * n, rest);
    assert head + [] == head;
    assert [] + Zeros(4 * n + rest) == Zeros(4 * n + rest);
  }

  lemma AreasStep(buf: seq<Byte>, head: seq<Byte>, a: seq<Byte>, b: seq<Byte>, n: nat, rest: nat,
                  x: seq<Byte>, y: seq<Byte>)
    requires TwoAreas(buf, head, a, b, n, rest) && |x| == |y| == 4 && |a| + 4 <= 4 * n
    ensures TwoAreas(Patch(Patch(buf, |head| + |a|, x), |head| + 4 * n + |b|, y), head, a + x, b + y, n, rest)
  {
    hide Patch;
    var k := 4 * n - |a|;
    FillHole(head + a, k, b + Zeros(k) + Zeros(rest), x);
    var front := head + a + x + Zeros(k - 4) + b;
    assert head + a + x + Zeros(k - 4) + (b + Zeros(k) + Zeros(rest)) == front + Zeros(k) + Zeros(rest);
    FillHole(front, k, Zeros(rest), y);
    assert front + y + Zeros(k - 4) + Zeros(rest)
        == head + (a + x) + Zeros(k - 4) + (b + y + Zeros(k - 4) + Zeros(rest));
  }

  lemma AreasClose(buf: seq<Byte>, head: seq<Byte>, a: seq<Byte>, b: seq<Byte>, n: nat, rest: nat)
    requires TwoAreas(buf, head, a, b, n, rest) && |a| == 4 * n
    ensures Started(buf, |head| + 8 * n + rest, head + a + b)
  {
    assert head + a + Zeros(0) == head + a;
    assert b + Zeros(0) + Zeros(rest) == b + Zeros(rest);
    assert head + a + (b + Zeros(rest)) == head + a + b + Zeros(rest);
  }

  /** The extents and, behind all of them, the identity permutation. */
  method WriteExtents(body: array<Byte>, ghost head: seq<Byte>, dims: seq<nat>)
    requires |head| == 12 && 12 + 8 * |dims| <= body.Length
    requires Started(body[..], body.Length, head)
    modifies body
    ensures Started(body[..], body.Length, head + EncodeWords(dims) + EncodeWords(Iota(|dims|)))
  {
    hide Started, TwoAreas, LeBytes, Patch;
    var n := |dims|;
    ghost var rest: nat := body.Length - 12 - 8 * n;
    AreasOpen(body[..], head, n, rest);
    assert dims[..0] == [] && Iota(0) == [];
    for i := 0 to n
      invariant TwoAreas(body[..], head, EncodeWords(dims[..i]), EncodeWords(Iota(i)), n, rest)
    {
      hide EncodeWords;
      AreasStep(body[..], head, EncodeWords(dims[..i]), EncodeWords(Iota(i)), n, rest,
                LeBytes(dims[i], 4), LeBytes(i, 4));
      CopyBytes(body, 12 + i * 4, LeBytes(dims[i], 4));
      CopyBytes(body, 12 + n * 4 + i * 4, LeBytes(i, 4));
      assert dims[..i + 1] == dims[..i] + [dims[i]] && Iota(i + 1) == Iota(i) + [i];
      WordsSnoc(dims[..i], dims[i]);
      WordsSnoc(Iota(i), i);
    }
    assert dims[..n] == dims;
    AreasClose(body[..], head, EncodeWords(dims), EncodeWords(Iota(n)), n, rest);
  }

  method Array(base: ElemSpec, dims: seq<nat>) returns (r: Result<EncodedDtype>)
    requires Supported(base)
    ensures r == if ArrayAccepted(base, dims)
                 then Ok(EncodedDtype(ArrayBody(base, dims), Product(dims) * ByteSize(base), None)) else Err(Format)
  {
    hide LeBytes, Started, Header, Nested, EncodeWords, Product, Patch;
    if dims == [] || |dims| > MAX_ARRAY_DIMS {
      return Err(Format);
    }
    var count := ArrayExtent(dims);
    BaseHasBytes(base);
    MulAtLeast(ByteSize(base), Product(dims));
    if count.IsFailure() {
      return Err(Format);
    }
    var elemSize := count.value * ByteSize(base);
    if elemSize >= 0x1_0000_0000 {
      return Err(Format);
    }
    var n := |dims|;
    var body := NewMessage(12 + 8 * n + NestedSize(base), 0x2A, [0, 0, 0], elemSize);
    Append(body, Header(10, 2, [0, 0, 0], elemSize), 8, [n, 0, 0, 0]);
    WriteExtents(body, ArrayHead(base, dims), dims);
    ghost var front := ArrayHead(base, dims) + EncodeWords(dims) + EncodeWords(Iota(n));
    AppendFills(body[..], body.Length, front, Nested(base));
    var wrote := WriteNestedDatatypeBody(body, 12 + 8 * n, base);
    StartedFull(body[..], ArrayBody(base, dims));
    return Ok(EncodedDtype(body[..], elemSize, None));
  }

  lemma BaseHasBytes(base: ElemSpec)
    requires Supported(base)
    ensures ByteSize(base) >= 1
  {
  }

  // ------------------------------------------------------------------
  // Compound
  // ------------------------------------------------------------------

  /** The element types of the first `n` members, all of which have one. */
  predicate Writable(fields: seq<Field>, n: nat)
    requires n <= |fields|
  {
    forall i :: 0 <= i < n ==> MemberElem(fields[i].dtype).Ok?
  }

  function ElemOf(f: Field): (e: ElemSpec)
    requires MemberElem(f.dtype).Ok?
    ensures Supported(e)
  {
    MemberElem(f.dtype).value
  }

  function EndOf(f: Field): nat
    requires MemberElem(f.dtype).Ok?
  {
    f.offset + ByteSize(ElemOf(f))
  }

  /** Byte `k` of a record belongs to the member. */
  predicate Occupies(f: Field, k: nat) { MemberElem(f.dtype).Ok? && f.offset <= k < EndOf(f) }

  /** What the writer asks of member `i` given those before it. */
  predicate MemberAccepted(fields: seq<Field>, i: nat, structSize: nat)
    requires i < |fields|
  {
    && fields[i].name != [] && Nameable(fields[i].name)
    && (forall j :: 0 <= j < |fields| && j != i ==> fields[j].name != fields[i].name)
    && MemberElem(fields[i].dtype).Ok? && EndOf(fields[i]) <= structSize
    && Apart(fields, i)
  }

  /** Member `i` shares no byte with those before it. */
  predicate Apart(fields: seq<Field>, i: nat)
    requires i < |fields| && MemberElem(fields[i].dtype).Ok?
  {
    forall j :: 0 <= j < i && MemberElem(fields[j].dtype).Ok? ==>
      EndOf(fields[j]) <= fields[i].offset || EndOf(fields[i]) <= fields[j].offset
  }

  predicate CompoundAccepted(fields: seq<Field>, structSize: nat) {
    && 0 < |fields| < 0x100_0000 && 0 < structSize < 0x1_0000_0000
    && forall i :: 0 <= i < |fields| ==> MemberAccepted(fields, i, structSize)
  }

  /** Name, offset, the obsolete dimension block and the type of a member. */
  function MemberBytes(f: Field): (b: seq<Byte>)
    requires MemberElem(f.dtype).Ok?
    ensures |b| == MemberSize(f)
  {
    NameBytes(1, f.name) + LeBytes(f.offset, 4) + Zeros(28) + Nested(ElemOf(f))
  }

  function MemberSize(f: Field): nat
    requires MemberElem(f.dtype).Ok?
  {
    Align8(|f.name| + 1) + 32 + NestedSize(ElemOf(f))
  }

  function MembersBytes(fields: seq<Field>, n: nat): (b: seq<Byte>)
    requires n <= |fields| && Writable(fields, n)
    ensures |b| == MembersSize(fields, n)
  {
    if n == 0 then [] else MembersBytes(fields, n - 1) + MemberBytes(fields[n - 1])
  }

  function MembersSize(fields: seq<Field>, n: nat): nat
    requires n <= |fields| && Writable(fields, n)
  {
    if n == 0 then 0 else MembersSize(fields, n - 1) + MemberSize(fields[n - 1])
  }

  function CompoundBody(fields: seq<Field>, structSize: nat): seq<Byte>
    requires Writable(fields, |fields|)
  {
    Header(6, 1, LeBytes(|fields|, 3), structSize) + MembersBytes(fields, |fields|)
  }

  /** Every byte of the record that a member so far occupies is marked. */
  ghost predicate Marked(occupied: seq<bool>, fields: seq<Field>, n: nat)
    requires n <= |fields|
  {
    forall k :: 0 <= k < |occupied| ==> (occupied[k] <==> exists j :: 0 <= j < n && Occupies(fields[j], k))
  }

  /** Mark the bytes of member `i`; false when one of them is taken. */
  method MarkMember(occupied: array<bool>, fields: seq<Field>, i: nat) returns (ok: bool)
    requires i < |fields| && Writable(fields, i + 1) && EndOf(fields[i]) <= occupied.Length
    requires Marked(occupied[..], fields, i)
    modifies occupied
    ensures ok <==> Apart(fields, i)
    ensures ok ==> Marked(occupied[..], fields, i + 1)
  {
    hide MemberElem;
    ghost var before := occupied[..];
    MemberHasBytes(fields[i]);
    for k := fields[i].offset to EndOf(fields[i])
      invariant forall m :: fields[i].offset <= m < k ==> !before[m]
      invariant forall m :: 0 <= m < occupied.Length ==>
        (occupied[m] <==> (before[m] || (fields[i].offset <= m < k)))
    {
      if occupied[k] {
        assert before[k];
        var j :| 0 <= j < i && Occupies(fields[j], k);
        return false;
      }
      occupied[k] := true;
    }
    AllFree(before, fields, i);
    forall m | 0 <= m < occupied.Length
      ensures occupied[..][m] <==> exists j :: 0 <= j < i + 1 && Occupies(fields[j], m)
    {
      MarkedOne(before, fields, i, m);
    }
    return true;
  }

  lemma MemberHasBytes(f: Field)
    requires MemberElem(f.dtype).Ok?
    ensures f.offset < EndOf(f)
  {
  }

  lemma MarkedOne(before: seq<bool>, fields: seq<Field>, i: nat, m: nat)
    requires i < |fields| && Marked(before, fields, i) && m < |before|
    ensures (before[m] || Occupies(fields[i], m)) <==> exists j :: 0 <= j < i + 1 && Occupies(fields[j], m)
  {
    hide Occupies;
  }

  /** A member none of whose bytes was taken is apart from those before it. */
  lemma AllFree(before: seq<bool>, fields: seq<Field>, i: nat)
    requires i < |fields| && Writable(fields, i + 1) && EndOf(fields[i]) <= |before|
    requires Marked(before, fields, i)
    requires forall m :: fields[i].offset <= m < EndOf(fields[i]) ==> !before[m]
    ensures Apart(fields, i)
  {
    hide MemberElem, EndOf, Occupies;
    forall j | 0 <= j < i
      ensures EndOf(fields[j]) <= fields[i].offset || EndOf(fields[i]) <= fields[j].offset
    {
      if fields[i].offset < EndOf(fields[j]) && fields[j].offset < EndOf(fields[i]) {
        var m := SharedByte(fields[i], fields[j]);
        Taken(before, fields, i, j, m);
      }
    }
  }

  lemma Taken(before: seq<bool>, fields: seq<Field>, i: nat, j: nat, m: nat)
    requires j < i <= |fields| && Marked(before, fields, i) && m < |before| && Occupies(fields[j], m)
    ensures before[m]
  {
    hide Occupies;
  }

  lemma SharedByte(f: Field, g: Field) returns (m: nat)
    requires MemberElem(f.dtype).Ok? && MemberElem(g.dtype).Ok?
    requires f.offset < EndOf(g) && g.offset < EndOf(f)
    ensures Occupies(f, m) && Occupies(g, m) && f.offset <= m < EndOf(f)
  {
    MemberHasBytes(f);
    MemberHasBytes(g);
    m := Max(f.offset, g.offset);
  }

  /** The member checks, in order, with the map of occupied bytes. */
  method CheckMembers(fields: seq<Field>, structSize: nat) returns (ok: bool)
    ensures ok <==> forall i :: 0 <= i < |fields| ==> MemberAccepted(fields, i, structSize)
  {
    hide MemberElem, Apart;
    var occupied := new bool[structSize](k => false);
    for i := 0 to |fields|
      invariant forall j :: 0 <= j < i ==> MemberAccepted(fields, j, structSize)
      invariant Marked(occupied[..], fields, i)
    {
      if fields[i].name == [] || 0 in fields[i].name {
        assert !MemberAccepted(fields, i, structSize);
        return false;
      }
      if exists j :: 0 <= j < |fields| && j != i && fields[j].name == fields[i].name {
        assert !MemberAccepted(fields, i, structSize);
        return false;
      }
      var e := MemberElem(fields[i].dtype);
      if e.IsFailure() || fields[i].offset + ByteSize(e.value) > structSize {
        assert !MemberAccepted(fields, i, structSize);
        return false;
      }
      AcceptedWritable(fields, i, structSize);
      var free := MarkMember(occupied, fields, i);
      if !free {
        assert !MemberAccepted(fields, i, structSize);
        return false;
      }
    }
    ok := true;
  }

  method CompoundSize(fields: seq<Field>) returns (size: nat)
    requires Writable(fields, |fields|)
    ensures size == 8 + MembersSize(fields, |fields|)
  {
    hide MemberElem, MemberSize;
    size := 8;
    for i := 0 to |fields|
      invariant size == 8 + MembersSize(fields, i)
    {
      size := size + MemberSize(fields[i]);
    }
  }

  /** One member at `pos`. */
  method WriteMember(body: array<Byte>, ghost done: seq<Byte>, pos: nat, f: Field)
    requires MemberElem(f.dtype).Ok? && Started(body[..], body.Length, done)
    requires pos == |done| && pos + MemberSize(f) <= body.Length
    modifies body
    ensures Started(body[..], body.Length, done + MemberBytes(f))
  {
    hide Started, LeBytes, Nested, MemberElem, Patch;
    var span, e := Align8(|f.name| + 1), ElemOf(f);
    Append(body, done, pos, f.name);
    SkipKeeps(body[..], body.Length, done + f.name, span - |f.name|);
    ghost var now := done + f.name + Zeros(span - |f.name|);
    Append(body, now, pos + span, LeBytes(f.offset, 4));
    now := now + LeBytes(f.offset, 4);
    SkipKeeps(body[..], body.Length, now, 28);
    now := now + Zeros(28);
    AppendFills(body[..], body.Length, now, Nested(e));
    var wrote := WriteNestedDatatypeBody(body, pos + span + 32, e);
    MemberSpelled(done, f);
  }

  lemma MemberSpelled(done: seq<Byte>, f: Field)
    requires MemberElem(f.dtype).Ok?
    ensures done + f.name + Zeros(Align8(|f.name| + 1) - |f.name|) + LeBytes(f.offset, 4) + Zeros(28)
            + Nested(ElemOf(f))
         == done + MemberBytes(f)
  {
    hide LeBytes, Nested, MemberElem;
    var pad := Align8(|f.name| + 1) - |f.name|;
    assert NameBytes(1, f.name) == f.name + Zeros(pad);
  }

  method Compound(fields: seq<Field>, structSize: nat) returns (r: Result<EncodedDtype>)
    ensures CompoundAccepted(fields, structSize) ==>
      Writable(fields, |fields|) && r == Ok(EncodedDtype(CompoundBody(fields, structSize), structSize, None))
    ensures !CompoundAccepted(fields, structSize) ==> r == Err(Format)
  {
    hide MemberElem, MemberAccepted, Started, Header, MemberBytes, MemberSize, MembersBytes, MembersSize, LeBytes;
    if fields == [] || |fields| > 0xFF_FFFF || structSize == 0 {
      return Err(Format);
    }
    var ok := CheckMembers(fields, structSize);
    if !ok || structSize >= 0x1_0000_0000 {
      return Err(Format);
    }
    AcceptedWritable(fields, |fields|, structSize);
    var size := CompoundSize(fields);
    var body := NewMessage(size, 0x16, LeBytes(|fields|, 3), structSize);
    ghost var head := Header(6, 1, LeBytes(|fields|, 3), structSize);
    var pos: nat := 8;
    assert MembersBytes(fields, 0) == [] && head + [] == head by { NoMembers(fields); }
    for i := 0 to |fields|
      invariant body.Length == size && pos == 8 + MembersSize(fields, i)
      invariant Started(body[..], size, head + MembersBytes(fields, i))
    {
      MembersStep(fields, i);
      WriteMember(body, head + MembersBytes(fields, i), pos, fields[i]);
      assert head + MembersBytes(fields, i) + MemberBytes(fields[i])
          == head + (MembersBytes(fields, i) + MemberBytes(fields[i]));
      pos := pos + MemberSize(fields[i]);
    }
    StartedFull(body[..], CompoundBody(fields, structSize));
    return Ok(EncodedDtype(body[..], structSize, None));
  }

  lemma NoMembers(fields: seq<Field>)
    ensures MembersBytes(fields, 0) == [] && MembersSize(fields, 0) == 0
  {
  }

  lemma MembersStep(fields: seq<Field>, i: nat)
    requires i < |fields| && Writable(fields, |fields|)
    ensures MembersBytes(fields, i + 1) == MembersBytes(fields, i) + MemberBytes(fields[i])
    ensures MembersSize(fields, i + 1) == MembersSize(fields, i) + MemberSize(fields[i])
    ensures MembersSize(fields, i + 1) <= MembersSize(fields, |fields|)
  {
    hide MemberElem, MemberBytes, MemberSize;
    SizesGrow(fields, i + 1, |fields|);
  }

  lemma {:induction false} SizesGrow(fields: seq<Field>, a: nat, b: nat)
    requires a <= b <= |fields| && Writable(fields, |fields|)
    ensures MembersSize(fields, a) <= MembersSize(fields, b)
    decreases b
  {
    hide MemberElem, MemberSize;
    if a < b {
      SizesGrow(fields, a, b - 1);
    }
  }

  lemma AcceptedWritable(fields: seq<Field>, n: nat, structSize: nat)
    requires n <= |fields| && forall i :: 0 <= i < n ==> MemberAccepted(fields, i, structSize)
    ensures Writable(fields, n)
  {
    forall i | 0 <= i < n ensures MemberElem(fields[i].dtype).Ok? {
      assert MemberAccepted(fields, i, structSize);
    }
  }
}
