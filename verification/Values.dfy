// Decoding typed values: variable-length references into global heap
// collections, parsed at most once each through a mutable cache.

module Values {
  import opened Arithmetic
  import opened Common
  import opened Grid
  import opened Dtypes
  import opened GlobalHeap

  const MAX_DECODE_DEPTH: nat := 16

  datatype RegionSelection = Points(points: seq<seq<nat>>) | Slabs(slabs: seq<(nat, nat)>)

  /** A decoded element; floats keep their bit pattern. */
  datatype Value =
    | IntValue(i: int)
    | UintValue(u: nat)
    | FloatValue(size: nat, bits: nat)
    | StrValue(s: seq<Byte>)
    | OpaqueValue(bytes: seq<Byte>)
    | ObjectRefValue(address: nat)
    | RegionRefValue(dataset: nat, selection: RegionSelection)
    | SequenceValue(elems: seq<Value>)
    | CompoundValue(members: seq<(seq<Byte>, Value)>)
    | EnumValue(raw: int)
    | BitfieldValue(pattern: nat)

  /** The file image, and the UTF-8 validity test of the standard library. */
  datatype Env = Env(file: seq<Byte>, utf8: seq<Byte> -> bool)

  // ------------------------------------------------------------------
  // References and heap objects
  // ------------------------------------------------------------------

  datatype VlenRef = VlenRef(length: nat, address: nat, index: nat)

  function ParseVlenRef(bytes: seq<Byte>): Result<VlenRef> {
    if |bytes| < 16 then Err(Format)
    else
      var index := LeNat(bytes[12..16]);
      if index >= 0x1_0000 then Err(Format)
      else Ok(VlenRef(LeNat(bytes[0..4]), LeNat(bytes[4..12]), index))
  }

  /** A heap object looked up by a fresh parse of its collection. */
  function HeapObject(file: seq<Byte>, address: nat, index: nat): Result<seq<Byte>> {
    var heap :- Parsed(file, address);
    heap.Object(index)
  }

  /** Bytes before the first NUL. */
  function TruncateAtNul(b: seq<Byte>): (t: seq<Byte>)
    ensures t <= b && 0 !in t
    ensures |t| == |b| || b[|t|] == 0
  {
    if b == [] || b[0] == 0 then []
    else
      assert b == [b[0]] + b[1..];
      [b[0]] + TruncateAtNul(b[1..])
  }

  function DecodeText(env: Env, raw: seq<Byte>): Result<seq<Byte>> {
    var trimmed := TruncateAtNul(raw);
    if env.utf8(trimmed) then Ok(trimmed) else Err(Format)
  }

  function VlenString(env: Env, ref: seq<Byte>): Result<seq<Byte>> {
    var r :- ParseVlenRef(ref);
    if r.length == 0 then Ok([])
    else
      var raw :- HeapObject(env.file, r.address, r.index);
      DecodeText(env, raw)
  }

  // ------------------------------------------------------------------
  // Fixed-size scalars
  // ------------------------------------------------------------------

  function Reversed(b: seq<Byte>): (r: seq<Byte>)
    ensures |r| == |b|
  {
    if b == [] then [] else Reversed(b[1..]) + [b[0]]
  }

  function Unsigned(b: seq<Byte>, order: ByteOrder): nat {
    if order.Little? then LeNat(b) else LeNat(Reversed(b))
  }

  function DecodeInt(bytes: seq<Byte>, size: nat, signed: bool, order: ByteOrder): Result<Value> {
    if |bytes| < size then Err(Format)
    else if size == 0 || size > 8 then Err(NotImplemented)
    else
      var raw := Unsigned(bytes[..size], order);
      Ok(if signed then IntValue(Signed(raw, size)) else UintValue(raw))
  }

  function DecodeFloat(bytes: seq<Byte>, size: nat, order: ByteOrder): Result<Value> {
    if |bytes| < size then Err(Format)
    else if size != 2 && size != 4 && size != 8 then Err(NotImplemented)
    else Ok(FloatValue(size, Unsigned(bytes[..size], order)))
  }

  function DecodeBitfield(bytes: seq<Byte>, size: nat, order: ByteOrder): Result<Value> {
    if |bytes| < size then Err(Format)
    else if size == 0 || size > 8 then Err(NotImplemented)
    else Ok(BitfieldValue(Unsigned(bytes[..size], order)))
  }

  function DecodeFixedString(env: Env, bytes: seq<Byte>, n: nat): Result<Value> {
    if |bytes| < n then Err(Format)
    else
      var s :- DecodeText(env, bytes[..n]);
      Ok(StrValue(s))
  }

  /** An integer value reinterpreted as the enum's raw 64-bit number. */
  function EnumRaw(v: Value): Result<Value> {
    match v
    case IntValue(i) => Ok(EnumValue(i))
    case UintValue(u) => Ok(EnumValue(if u >= 0x8000_0000_0000_0000 then u - 0x1_0000_0000_0000_0000 else u))
    case _ => Err(Format)
  }

  // ------------------------------------------------------------------
  // Region selections
  // ------------------------------------------------------------------

  function ReadPoints(data: seq<Byte>, at: nat, n: nat, ndim: nat): seq<seq<nat>>
    requires at + n * (8 * ndim) <= |data|
    decreases n
  {
    if n == 0 then []
    else
      MulStep(n, 8 * ndim);
      [Words64(data, at, ndim)] + ReadPoints(data, at + 8 * ndim, n - 1, ndim)
  }

  function ReadSlabs(data: seq<Byte>, at: nat, n: nat, ndim: nat): seq<(nat, nat)>
    requires at + n * (16 * ndim) <= |data|
    decreases n
  {
    if n == 0 then []
    else
      MulStep(n, 16 * ndim);
      var starts, counts := Words64(data, at, ndim), Words64(data, at + 8 * ndim, ndim);
      seq(ndim, d requires 0 <= d < ndim => (starts[d], counts[d])) + ReadSlabs(data, at + 16 * ndim, n - 1, ndim)
  }

  function ParseRegion(b: seq<Byte>): Result<RegionSelection> {
    if |b| < 16 then Err(Format)
    else
      var kind, ndim := LeNat(b[2..4]), LeNat(b[8..12]);
      if kind != 1 && kind != 2 then Err(NotImplemented)
      else if |b| < 20 then Err(Format)
      else
        var n := LeNat(b[16..20]);
        if kind == 1 then
          if |b| - 20 < n * (8 * ndim) then Err(Format) else Ok(Points(ReadPoints(b, 20, n, ndim)))
        else
          if |b| - 20 < n * (16 * ndim) then Err(Format) else Ok(Slabs(ReadSlabs(b, 20, n, ndim)))
  }

  function DecodeReference(env: Env, bytes: seq<Byte>, r: RefType): Result<Value> {
    match r
    case ObjectRef =>
      if |bytes| < 8 then Err(Format) else Ok(ObjectRefValue(LeNat(bytes[..8])))
    case RegionRef =>
      if |bytes| < 12 then Err(Format)
      else
        var raw :- HeapObject(env.file, LeNat(bytes[8..12]), 1);
        var selection :- ParseRegion(raw);
        Ok(RegionRefValue(LeNat(bytes[..8]), selection))
  }

  // ------------------------------------------------------------------
  // The decoder, without a cache
  // ------------------------------------------------------------------

  function Decode(env: Env, bytes: seq<Byte>, t: Dtype, depth: nat): Result<Value>
    decreases t, 0, 0
  {
    if depth >= MAX_DECODE_DEPTH then Err(Format)
    else
      match t
      case IntType(size, signed, order) => DecodeInt(bytes, size, signed, order)
      case FloatType(size, order) => DecodeFloat(bytes, size, order)
      case StringType(Some(n), _) => DecodeFixedString(env, bytes, n)
      case StringType(None, _) =>
        var s :- VlenString(env, bytes);
        Ok(StrValue(s))
      case OpaqueType(size, _) =>
        if |bytes| < size then Err(Panic) else Ok(OpaqueValue(bytes[..size]))
      case BitfieldType(size, order) => DecodeBitfield(bytes, size, order)
      case ReferenceType(r) => DecodeReference(env, bytes, r)
      case EnumType(base, _) =>
        var v :- Decode(env, bytes, base, depth + 1);
        EnumRaw(v)
      case ArrayType(base, dims) =>
        if |bytes| < Product(dims) * Footprint(base) then Err(Format)
        else
          var elems :- DecodeElems(env, bytes, base, Product(dims), depth + 1);
          Ok(SequenceValue(elems))
      case VarLenType(base) => DecodeSequence(env, bytes, base, depth + 1)
      case CompoundType(fields) =>
        var members :- DecodeFields(env, bytes, fields, depth + 1);
        Ok(CompoundValue(members))
  }

  /** The sequence a reference points to, its elements decoded at `depth`. */
  function DecodeSequence(env: Env, ref: seq<Byte>, base: Dtype, depth: nat): Result<Value>
    decreases base, 2, 0
  {
    var r :- ParseVlenRef(ref);
    if r.length == 0 then Ok(SequenceValue([]))
    else
      var raw :- HeapObject(env.file, r.address, r.index);
      if |raw| < r.length * Footprint(base) then Err(Format)
      else
        var elems :- DecodeElems(env, raw, base, r.length, depth);
        Ok(SequenceValue(elems))
  }

  /** `n` consecutive elements from the start of `raw`. */
  function DecodeElems(env: Env, raw: seq<Byte>, base: Dtype, n: nat, depth: nat): Result<seq<Value>>
    requires n * Footprint(base) <= |raw|
    decreases base, 1, n
  {
    if n == 0 then Ok([])
    else
      MulStep(n, Footprint(base));
      var before :- DecodeElems(env, raw, base, n - 1, depth);
      var at := (n - 1) * Footprint(base);
      var last :- Decode(env, raw[at..at + Footprint(base)], base, depth);
      Ok(before + [last])
  }

  function DecodeFields(env: Env, bytes: seq<Byte>, fields: seq<Field>, depth: nat): Result<seq<(seq<Byte>, Value)>>
    decreases fields, 0, 0
  {
    if fields == [] then Ok([])
    else
      var f := fields[0];
      var slice := Get(bytes, f.offset, f.offset + Footprint(f.dtype));
      if slice.None? then Err(Format)
      else
        var v :- Decode(env, slice.value, f.dtype, depth);
        var rest :- DecodeFields(env, bytes, fields[1..], depth);
        Ok([(f.name, v)] + rest)
  }

  // ------------------------------------------------------------------
  // Depth
  // ------------------------------------------------------------------

  /** A value decoded at some depth decodes the same at any smaller depth. */
  lemma {:induction false} ShallowerDecodes(env: Env, bytes: seq<Byte>, t: Dtype, deep: nat, shallow: nat)
    requires shallow <= deep && Decode(env, bytes, t, deep).Ok?
    ensures Decode(env, bytes, t, shallow) == Decode(env, bytes, t, deep)
    decreases t, 0, 0
  {
    hide Parsed, Footprint, ParseRegion, DecodeInt, DecodeFloat, DecodeBitfield, DecodeText, Product;
    match t
    case EnumType(base, _) => ShallowerDecodes(env, bytes, base, deep + 1, shallow + 1);
    case ArrayType(base, dims) => ShallowerElems(env, bytes, base, Product(dims), deep + 1, shallow + 1);
    case VarLenType(base) => ShallowerSequence(env, bytes, base, deep + 1, shallow + 1);
    case CompoundType(fields) => ShallowerFields(env, bytes, fields, deep + 1, shallow + 1);
    case _ =>
  }

  lemma {:induction false} ShallowerElems(env: Env, raw: seq<Byte>, base: Dtype, n: nat, deep: nat, shallow: nat)
    requires n * Footprint(base) <= |raw|
    requires shallow <= deep && DecodeElems(env, raw, base, n, deep).Ok?
    ensures DecodeElems(env, raw, base, n, shallow) == DecodeElems(env, raw, base, n, deep)
    decreases base, 1, n
  {
    hide Decode, Footprint;
    if n > 0 {
      MulStep(n, Footprint(base));
      ShallowerElems(env, raw, base, n - 1, deep, shallow);
      var at := (n - 1) * Footprint(base);
      ShallowerDecodes(env, raw[at..at + Footprint(base)], base, deep, shallow);
    }
  }

  lemma {:induction false} ShallowerSequence(env: Env, ref: seq<Byte>, base: Dtype, deep: nat, shallow: nat)
    requires shallow <= deep && DecodeSequence(env, ref, base, deep).Ok?
    ensures DecodeSequence(env, ref, base, shallow) == DecodeSequence(env, ref, base, deep)
    decreases base, 2, 0
  {
    hide HeapObject, Footprint;
    var r := ParseVlenRef(ref).value;
    if r.length != 0 {
      var raw := HeapObject(env.file, r.address, r.index).value;
      ShallowerElems(env, raw, base, r.length, deep, shallow);
    }
  }

  lemma {:induction false} ShallowerFields(env: Env, bytes: seq<Byte>, fields: seq<Field>, deep: nat, shallow: nat)
    requires shallow <= deep && DecodeFields(env, bytes, fields, deep).Ok?
    ensures DecodeFields(env, bytes, fields, shallow) == DecodeFields(env, bytes, fields, deep)
    decreases fields, 0, 0
  {
    hide Decode, Footprint;
    if fields != [] {
      var f := fields[0];
      var slice := Get(bytes, f.offset, f.offset + Footprint(f.dtype)).value;
      ShallowerDecodes(env, slice, f.dtype, deep, shallow);
      ShallowerFields(env, bytes, fields[1..], deep, shallow);
    }
  }

  // ------------------------------------------------------------------
  // Batch decoders, without a cache
  // ------------------------------------------------------------------

  function Ref(data: seq<Byte>, i: nat): (r: seq<Byte>)
    requires 16 * i + 16 <= |data|
    ensures |r| == 16
  {
    data[16 * i..16 * i + 16]
  }

  function StringsUpTo(env: Env, data: seq<Byte>, n: nat): Result<seq<seq<Byte>>>
    requires 16 * n <= |data|
  {
    if n == 0 then Ok([])
    else
      var before :- StringsUpTo(env, data, n - 1);
      var s :- VlenString(env, Ref(data, n - 1));
      Ok(before + [s])
  }

  function VlenStrings(env: Env, data: seq<Byte>, n: nat): Result<seq<seq<Byte>>> {
    if |data| < 16 * n then Err(Format) else StringsUpTo(env, data, n)
  }

  /** Nested references are decoded one level down, fixed-size elements at the top. */
  function BatchDepth(base: Dtype): nat { if Size(base).None? then 1 else 0 }

  function VlenSequence(env: Env, ref: seq<Byte>, base: Dtype): Result<Value> {
    DecodeSequence(env, ref, base, BatchDepth(base))
  }

  function SequencesUpTo(env: Env, data: seq<Byte>, n: nat, base: Dtype): Result<seq<Value>>
    requires 16 * n <= |data|
  {
    if n == 0 then Ok([])
    else
      var before :- SequencesUpTo(env, data, n - 1, base);
      var v :- VlenSequence(env, Ref(data, n - 1), base);
      Ok(before + [v])
  }

  function VlenSequences(env: Env, data: seq<Byte>, n: nat, base: Dtype): Result<seq<Value>> {
    if |data| < 16 * n then Err(Format) else SequencesUpTo(env, data, n, base)
  }

  /** One reference: wherever the general decoder succeeds on the VarLen type,
      the batch decoder agrees. */
  lemma BatchElement(env: Env, ref: seq<Byte>, base: Dtype)
    requires Decode(env, ref, VarLenType(base), 0).Ok?
    ensures VlenSequence(env, ref, base) == Decode(env, ref, VarLenType(base), 0)
  {
    ShallowerSequence(env, ref, base, 1, BatchDepth(base));
  }

  /** The batch decoder is the element-by-element map of the general decoder. */
  lemma {:induction false} BatchIsMap(env: Env, data: seq<Byte>, n: nat, base: Dtype)
    requires 16 * n <= |data|
    requires forall i: nat :: i < n ==> Decode(env, Ref(data, i), VarLenType(base), 0).Ok?
    ensures var r := VlenSequences(env, data, n, base);
      r.Ok? && |r.value| == n &&
      forall i: nat :: i < n ==> Ok(r.value[i]) == Decode(env, Ref(data, i), VarLenType(base), 0)
    decreases n
  {
    hide Decode, VlenSequence;
    if n > 0 {
      BatchIsMap(env, data, n - 1, base);
      BatchElement(env, Ref(data, n - 1), base);
    }
  }

  // ------------------------------------------------------------------
  // The decoder with its cache
  // ------------------------------------------------------------------

  class HeapCache {
    var cache: map<nat, GlobalHeap>

    constructor ()
      ensures cache == map[]
    {
      cache := map[];
    }

    /** Every entry is what a fresh parse at its address would give. */
    ghost predicate Valid(file: seq<Byte>)
      reads this
    {
      forall a :: a in cache ==> Parsed(file, a) == Ok(cache[a])
    }

    /** Each collection is parsed at most once: cached ones are kept. */
    method ObjectBytes(file: seq<Byte>, address: nat, index: nat) returns (r: Result<seq<Byte>>)
      requires Valid(file)
      modifies this
      ensures Valid(file) && r == HeapObject(file, address, index)
      ensures old(cache).Keys <= cache.Keys <= old(cache).Keys + {address}
    {
      if address !in cache {
        var heap := Parse(file, address);
        if heap.IsFailure() {
          return heap.PropagateFailure();
        }
        cache := cache[address := heap.Extract()];
      }
      r := cache[address].Object(index);
    }

    method DecodeVlenString(env: Env, ref: seq<Byte>) returns (r: Result<seq<Byte>>)
      requires Valid(env.file)
      modifies this
      ensures Valid(env.file) && r == VlenString(env, ref)
    {
      var p := ParseVlenRef(ref);
      if p.IsFailure() {
        return p.PropagateFailure();
      }
      var v := p.Extract();
      if v.length == 0 {
        return Ok([]);
      }
      var raw := ObjectBytes(env.file, v.address, v.index);
      if raw.IsFailure() {
        return raw.PropagateFailure();
      }
      return DecodeText(env, raw.Extract());
    }

    method DecodeRef(env: Env, bytes: seq<Byte>, t: RefType) returns (r: Result<Value>)
      requires Valid(env.file)
      modifies this
      ensures Valid(env.file) && r == DecodeReference(env, bytes, t)
    {
      match t
      case ObjectRef => return DecodeReference(env, bytes, t);
      case RegionRef =>
        if |bytes| < 12 {
          return Err(Format);
        }
        var raw := ObjectBytes(env.file, LeNat(bytes[8..12]), 1);
        if raw.IsFailure() {
          return raw.PropagateFailure();
        }
        var selection := ParseRegion(raw.Extract());
        if selection.IsFailure() {
          return selection.PropagateFailure();
        }
        return Ok(RegionRefValue(LeNat(bytes[..8]), selection.Extract()));
    }

    /** The cached decoder returns what the uncached one returns. */
    method DecodeOne(env: Env, bytes: seq<Byte>, t: Dtype, depth: nat) returns (r: Result<Value>)
      requires Valid(env.file)
      modifies this
      ensures Valid(env.file) && r == Decode(env, bytes, t, depth)
      decreases t, 0, 0
    {
      hide Parsed, Footprint, ParseRegion, DecodeText, Product, DecodeReference, VlenString;
      if depth >= MAX_DECODE_DEPTH {
        return Err(Format);
      }
      match t {
        case IntType(size, signed, order) => r := DecodeInt(bytes, size, signed, order);
        case FloatType(size, order) => r := DecodeFloat(bytes, size, order);
        case StringType(Some(n), _) => r := DecodeFixedString(env, bytes, n);
        case StringType(None, _) =>
          var s := DecodeVlenString(env, bytes);
          r := if s.Ok? then Ok(StrValue(s.value)) else Err(s.error);
        case OpaqueType(size, _) =>
          r := if |bytes| < size then Err(Panic) else Ok(OpaqueValue(bytes[..size]));
        case BitfieldType(size, order) => r := DecodeBitfield(bytes, size, order);
        case ReferenceType(k) => r := DecodeRef(env, bytes, k);
        case EnumType(base, _) =>
          var v := DecodeOne(env, bytes, base, depth + 1);
          r := if v.Ok? then EnumRaw(v.value) else v;
        case ArrayType(base, dims) =>
          var n := Product(dims);
          if |bytes| < n * Footprint(base) {
            return Err(Format);
          }
          var elems := DecodeMany(env, bytes, base, n, depth + 1);
          r := if elems.Ok? then Ok(SequenceValue(elems.value)) else Err(elems.error);
        case VarLenType(base) => r := DecodeVarLen(env, bytes, base, depth + 1);
        case CompoundType(fields) =>
          var members := DecodeCompoundElement(env, bytes, fields, depth + 1);
          r := if members.Ok? then Ok(CompoundValue(members.value)) else Err(members.error);
      }
    }

    method DecodeVarLen(env: Env, bytes: seq<Byte>, base: Dtype, depth: nat) returns (r: Result<Value>)
      requires Valid(env.file)
      modifies this
      ensures Valid(env.file) && r == DecodeSequence(env, bytes, base, depth)
      decreases base, 2, 0
    {
      hide Parsed, Footprint, Decode, DecodeElems;
      var p := ParseVlenRef(bytes);
      if p.IsFailure() {
        return p.PropagateFailure();
      }
      var v := p.Extract();
      if v.length == 0 {
        return Ok(SequenceValue([]));
      }
      var raw := ObjectBytes(env.file, v.address, v.index);
      if raw.IsFailure() {
        return raw.PropagateFailure();
      }
      if |raw.value| < v.length * Footprint(base) {
        return Err(Format);
      }
      var elems := DecodeMany(env, raw.value, base, v.length, depth);
      return if elems.Ok? then Ok(SequenceValue(elems.value)) else Err(elems.error);
    }

    method DecodeMany(env: Env, raw: seq<Byte>, base: Dtype, n: nat, depth: nat) returns (r: Result<seq<Value>>)
      requires Valid(env.file) && n * Footprint(base) <= |raw|
      modifies this
      ensures Valid(env.file) && r == DecodeElems(env, raw, base, n, depth)
      decreases base, 1, 0
    {
      hide Parsed, Footprint, Decode;
      var elems: seq<Value> := [];
      var size := Footprint(base);
      for j := 0 to n
        invariant Valid(env.file)
        invariant j * size <= |raw| && DecodeElems(env, raw, base, j, depth) == Ok(elems)
      {
        StepFits(j, n, size, |raw|);
        var v := DecodeOne(env, raw[j * size..j * size + size], base, depth);
        if v.IsFailure() {
          ElemsFail(env, raw, base, j + 1, n, depth);
          return v.PropagateFailure();
        }
        elems := elems + [v.Extract()];
      }
      return Ok(elems);
    }

    method DecodeCompoundElement(env: Env, bytes: seq<Byte>, fields: seq<Field>, depth: nat)
      returns (r: Result<seq<(seq<Byte>, Value)>>)
      requires Valid(env.file)
      modifies this
      ensures Valid(env.file) && r == DecodeFields(env, bytes, fields, depth)
      decreases fields, 0, 0
    {
      hide Parsed, Footprint, Decode;
      var members: seq<(seq<Byte>, Value)> := [];
      assert fields[0..] == fields;
      PrependNone(DecodeFields(env, bytes, fields, depth));
      for k := 0 to |fields|
        invariant Valid(env.file)
        invariant DecodeFields(env, bytes, fields, depth) == Prepended(members, DecodeFields(env, bytes, fields[k..], depth))
      {
        var f := fields[k];
        assert fields[k..][0] == f && fields[k..][1..] == fields[k + 1..];
        var slice := Get(bytes, f.offset, f.offset + Footprint(f.dtype));
        if slice.None? {
          return Err(Format);
        }
        var v := DecodeOne(env, slice.value, f.dtype, depth);
        if v.IsFailure() {
          return v.PropagateFailure();
        }
        PrependOne(members, (f.name, v.value), DecodeFields(env, bytes, fields[k + 1..], depth));
        members := members + [(f.name, v.Extract())];
      }
      assert |fields[|fields|..]| == 0 && members + [] == members;
      return Ok(members);
    }
  }

  function Prepended<T>(before: seq<T>, rest: Result<seq<T>>): Result<seq<T>> {
    match rest
    case Ok(r) => Ok(before + r)
    case Err(e) => Err(e)
  }

  lemma PrependNone<T>(rest: Result<seq<T>>)
    ensures Prepended([], rest) == rest
  {
    assert rest.Ok? ==> [] + rest.value == rest.value;
  }

  lemma PrependOne<T>(before: seq<T>, x: T, rest: Result<seq<T>>)
    ensures Prepended(before, Prepended([x], rest)) == Prepended(before + [x], rest)
  {
    assert rest.Ok? ==> before + ([x] + rest.value) == before + [x] + rest.value;
  }

  /** A failing element makes the whole list fail with the same error. */
  lemma {:induction false} ElemsFail(env: Env, raw: seq<Byte>, base: Dtype, j: nat, n: nat, depth: nat)
    requires j <= n && n * Footprint(base) <= |raw| && j * Footprint(base) <= |raw|
    requires DecodeElems(env, raw, base, j, depth).Err?
    ensures DecodeElems(env, raw, base, n, depth) == DecodeElems(env, raw, base, j, depth)
    decreases n - j
  {
    hide Decode, Footprint;
    if j < n {
      StepFits(j, n, Footprint(base), |raw|);
      ElemsFail(env, raw, base, j + 1, n, depth);
    }
  }

  // ------------------------------------------------------------------
  // Batch decoders with their cache
  // ------------------------------------------------------------------

  lemma {:induction false} StringsFail(env: Env, data: seq<Byte>, j: nat, n: nat)
    requires j <= n && 16 * n <= |data| && StringsUpTo(env, data, j).Err?
    ensures StringsUpTo(env, data, n) == StringsUpTo(env, data, j)
    decreases n - j
  {
    if j < n {
      StringsFail(env, data, j + 1, n);
    }
  }

  method DecodeVlenStrings(env: Env, data: seq<Byte>, n: nat) returns (r: Result<seq<seq<Byte>>>)
    ensures r == VlenStrings(env, data, n)
  {
    hide Parsed, VlenString;
    if |data| < n * 16 {
      return Err(Format);
    }
    var out: seq<seq<Byte>> := [];
    var cache := new HeapCache();
    for i := 0 to n
      invariant cache.Valid(env.file) && fresh(cache)
      invariant StringsUpTo(env, data, i) == Ok(out)
    {
      var s := cache.DecodeVlenString(env, Ref(data, i));
      if s.IsFailure() {
        StringsFail(env, data, i + 1, n);
        return s.PropagateFailure();
      }
      out := out + [s.Extract()];
    }
    return Ok(out);
  }

  lemma {:induction false} SequencesFail(env: Env, data: seq<Byte>, j: nat, n: nat, base: Dtype)
    requires j <= n && 16 * n <= |data| && SequencesUpTo(env, data, j, base).Err?
    ensures SequencesUpTo(env, data, n, base) == SequencesUpTo(env, data, j, base)
    decreases n - j
  {
    if j < n {
      SequencesFail(env, data, j + 1, n, base);
    }
  }

  method DecodeVlenSequences(env: Env, data: seq<Byte>, n: nat, base: Dtype) returns (r: Result<seq<Value>>)
    ensures r == VlenSequences(env, data, n, base)
  {
    hide Parsed, Footprint, DecodeSequence;
    if |data| < n * 16 {
      return Err(Format);
    }
    var out: seq<Value> := [];
    var cache := new HeapCache();
    for i := 0 to n
      invariant cache.Valid(env.file) && fresh(cache)
      invariant SequencesUpTo(env, data, i, base) == Ok(out)
    {
      var v := cache.DecodeVarLen(env, Ref(data, i), base, BatchDepth(base));
      if v.IsFailure() {
        SequencesFail(env, data, i + 1, n, base);
        return v.PropagateFailure();
      }
      out := out + [v.Extract()];
    }
    return Ok(out);
  }
}
