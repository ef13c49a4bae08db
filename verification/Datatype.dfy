// The datatype message parser, and the theorem that it is self-delimiting:
// what it returns depends only on the bytes it reports as consumed.

module Datatype {
  import opened Common
  import opened Dtypes

  const MAX_NESTING: nat := 32

  type Utf8 = seq<Byte> -> bool

  // ------------------------------------------------------------------
  // Small readers
  // ------------------------------------------------------------------

  /** Position of the first NUL at or after `pos`. */
  function NulAt(body: seq<Byte>, pos: nat): (r: Option<nat>)
    ensures r.Some? ==> pos <= r.value < |body| && body[r.value] == 0
    ensures r.Some? ==> forall i :: pos <= i < r.value ==> body[i] != 0
    ensures r.None? ==> forall i :: pos <= i < |body| ==> body[i] != 0
    decreases |body| - pos
  {
    if pos >= |body| then None
    else if body[pos] == 0 then Some(pos)
    else NulAt(body, pos + 1)
  }

  /** Text that is not UTF-8 reads as empty. */
  function Text(utf8: Utf8, bytes: seq<Byte>): seq<Byte> { if utf8(bytes) then bytes else [] }

  /** A NUL-terminated name at `pos` and the bytes it takes; up to version 1
      names are padded to 8 bytes. */
  function Name(utf8: Utf8, body: seq<Byte>, pos: nat, version: nat): (r: Result<(seq<Byte>, nat)>)
    ensures r.Ok? ==> r.value.1 >= 1
  {
    if pos >= |body| then Err(Format)
    else
      match NulAt(body, pos)
      case None => Err(Format)
      case Some(nul) =>
        var raw := nul - pos + 1;
        Ok((Text(utf8, body[pos..nul]), if version <= 1 then Align8(raw) else raw))
  }

  function EnumValue(bytes: seq<Byte>): Result<int> {
    if WordSize(|bytes|) then Ok(Signed(LeNat(bytes), |bytes|))
    else Err(Format)
  }

  function Order(flags: Byte): ByteOrder { if flags % 2 != 0 then Big else Little }

  function TextCharset(t: Dtype): Charset { if t.StringType? then t.charset else Ascii }

  /** `first` in front of what a list reader returned. */
  function Prefixed<T>(first: seq<T>, r: Result<(seq<T>, nat)>): Result<(seq<T>, nat)> {
    if r.Err? then r else Ok((first + r.value.0, r.value.1))
  }

  lemma PrefixedByNothing<T>(r: Result<(seq<T>, nat)>)
    ensures Prefixed([], r) == r
  {
    if r.Ok? {
      assert [] + r.value.0 == r.value.0;
    }
  }

  lemma PrefixedTwice<T>(first: seq<T>, x: T, r: Result<(seq<T>, nat)>)
    ensures Prefixed(first, Prefixed([x], r)) == Prefixed(first + [x], r)
  {
    if r.Ok? {
      assert first + ([x] + r.value.0) == first + [x] + r.value.0;
    }
  }

  lemma PrefixedError<T>(first: seq<T>, error: Error)
    ensures Prefixed(first, Err(error)) == Err(error)
  {
  }

  lemma PrefixedEnd<T>(first: seq<T>, pos: nat)
    ensures Prefixed(first, Ok(([], pos))) == Ok((first, pos))
  {
    assert first + [] == first;
  }

  // ------------------------------------------------------------------
  // The parser
  // ------------------------------------------------------------------

  /** The datatype at the start of `body` and the bytes it takes. */
  function Parse(utf8: Utf8, body: seq<Byte>, depth: nat): Result<(Dtype, nat)>
    decreases if depth <= MAX_NESTING then MAX_NESTING + 1 - depth else 0, 2, 0
  {
    if depth > MAX_NESTING then Err(Format)
    else if |body| < 8 then Err(Format)
    else
      var class_, version, flags, size := body[0] % 16, body[0] / 16, body[1], LeNat(body[4..8]);
      if class_ == 0 then
        Ok((IntType(size, flags / 8 % 2 != 0, Order(flags)), if version == 1 then 12 else 8))
      else if class_ == 1 then Ok((FloatType(size, Order(flags)), if version == 1 then 20 else 8))
      else if class_ == 3 then Ok((StringType(Some(size), if flags / 16 != 0 then Utf8 else Ascii), 8))
      else if class_ == 4 then Ok((BitfieldType(size, Order(flags)), if version == 1 then 12 else 8))
      else if class_ == 5 then ParseOpaque(utf8, body, size)
      else if class_ == 6 then
        var fields :- FieldsFrom(utf8, body, version, LeNat(body[1..4]), 8, depth);
        Ok((CompoundType(fields.0), fields.1))
      else if class_ == 7 then Ok((ReferenceType(if flags % 16 != 0 then RegionRef else ObjectRef), 8))
      else if class_ == 8 then ParseEnum(utf8, body, version, size, depth)
      else if class_ == 9 then
        if |body| < 9 then Err(Format)
        else
          var base :- Parse(utf8, body[8..], depth + 1);
          Ok((if flags % 16 == 1 then StringType(None, TextCharset(base.0)) else VarLenType(base.0), 8 + base.1))
      else if class_ == 10 then ParseArray(utf8, body, version, depth)
      else Err(UnsupportedDatatype(class_))
  }

  function ParseOpaque(utf8: Utf8, body: seq<Byte>, size: nat): Result<(Dtype, nat)>
    requires |body| >= 8
  {
    var tagLen: nat := body[1];
    if 8 + tagLen > |body| then Err(Format)
    else
      var tag := body[8..8 + tagLen];
      var end := NulAt(tag, 0);
      Ok((OpaqueType(size, Text(utf8, if end.Some? then tag[..end.value] else tag)), 8 + Align8(tagLen)))
  }

  /** One compound member at `pos`, and where the next one starts. */
  function OneField(utf8: Utf8, body: seq<Byte>, version: nat, pos: nat, depth: nat): Result<(Field, nat)>
    requires depth <= MAX_NESTING
    decreases MAX_NESTING + 1 - depth, 0, 0
  {
    var name :- Name(utf8, body, pos, version);
    var at := pos + name.1;
    var offset :- ReadLe(body, at, 4);
    if version == 1 && at + 32 > |body| then Err(Format)
    else
      var typeAt := if version == 1 then at + 32 else at + 4;
      if typeAt >= |body| then Err(Format)
      else
        var t :- Parse(utf8, body[typeAt..], depth + 1);
        Ok((Field(name.0, offset, t.0), typeAt + t.1))
  }

  /** `count` members from `pos` on, and where they end. */
  function FieldsFrom(utf8: Utf8, body: seq<Byte>, version: nat, count: nat, pos: nat, depth: nat)
    : Result<(seq<Field>, nat)>
    requires depth <= MAX_NESTING
    decreases MAX_NESTING + 1 - depth, 1, count
  {
    if count == 0 then Ok(([], pos))
    else
      var first :- OneField(utf8, body, version, pos, depth);
      Prefixed([first.0], FieldsFrom(utf8, body, version, count - 1, first.1, depth))
  }

  function NamesFrom(utf8: Utf8, body: seq<Byte>, version: nat, count: nat, pos: nat): (r: Result<(seq<seq<Byte>>, nat)>)
    ensures r.Ok? ==> |r.value.0| == count && r.value.1 >= pos
    decreases count
  {
    if count == 0 then Ok(([], pos))
    else
      var first :- Name(utf8, body, pos, version);
      Prefixed([first.0], NamesFrom(utf8, body, version, count - 1, pos + first.1))
  }

  function MembersFrom(body: seq<Byte>, names: seq<seq<Byte>>, size: nat, pos: nat)
    : (r: Result<(seq<(seq<Byte>, int)>, nat)>)
    ensures r.Ok? ==> |r.value.0| == |names| && r.value.1 >= pos
    decreases names
  {
    if names == [] then Ok(([], pos))
    else if pos + size > |body| then Err(Format)
    else
      var value :- EnumValue(body[pos..pos + size]);
      Prefixed([(names[0], value)], MembersFrom(body, names[1..], size, pos + size))
  }

  function ParseEnum(utf8: Utf8, body: seq<Byte>, version: nat, size: nat, depth: nat): Result<(Dtype, nat)>
    requires |body| >= 8 && depth <= MAX_NESTING
    decreases MAX_NESTING + 1 - depth, 0, 0
  {
    if |body| < 9 then Err(Format)
    else
      var base :- Parse(utf8, body[8..], depth + 1);
      var names :- NamesFrom(utf8, body, version, LeNat(body[1..4]), 8 + base.1);
      var members :- MembersFrom(body, names.0, size, names.1);
      Ok((EnumType(base.0, members.0), members.1))
  }

  function ParseArray(utf8: Utf8, body: seq<Byte>, version: nat, depth: nat): Result<(Dtype, nat)>
    requires |body| >= 8 && depth <= MAX_NESTING
    decreases MAX_NESTING + 1 - depth, 0, 0
  {
    if version < 2 then Err(Format)
    else if |body| < 9 then Err(Format)
    else
      var ndims: nat := body[8];
      var dimsAt := if version == 2 then 12 else 9;
      var dimsEnd := dimsAt + ndims * 4;
      var propsEnd := if version == 2 then dimsEnd + ndims * 4 else dimsEnd;
      if |body| < propsEnd then Err(Format)
      else
        var base :- Parse(utf8, body[propsEnd..], depth + 1);
        Ok((ArrayType(base.0, Words(body, dimsAt, ndims)), propsEnd + base.1))
  }

  // ------------------------------------------------------------------
  // The loops of the parser
  // ------------------------------------------------------------------

  method ParseDatatypeConsuming(utf8: Utf8, body: seq<Byte>, depth: nat) returns (r: Result<(Dtype, nat)>)
    ensures r == Parse(utf8, body, depth)
    decreases if depth <= MAX_NESTING then MAX_NESTING + 1 - depth else 0, 1
  {
    hide FieldsFrom, LeNat, NulAt;
    if depth > MAX_NESTING || |body| < 8 {
      return Err(Format);
    }
    var class_, version, flags, size := body[0] % 16, body[0] / 16, body[1], LeNat(body[4..8]);
    match class_ {
      case 0 => r := Ok((IntType(size, flags / 8 % 2 != 0, Order(flags)), if version == 1 then 12 else 8));
      case 1 => r := Ok((FloatType(size, Order(flags)), if version == 1 then 20 else 8));
      case 3 => r := Ok((StringType(Some(size), if flags / 16 != 0 then Utf8 else Ascii), 8));
      case 4 => r := Ok((BitfieldType(size, Order(flags)), if version == 1 then 12 else 8));
      case 5 => r := ParseOpaque(utf8, body, size);
      case 6 => r := ParseCompoundLoop(utf8, body, version, depth);
      case 7 => r := Ok((ReferenceType(if flags % 16 != 0 then RegionRef else ObjectRef), 8));
      case 8 => r := ParseEnumLoop(utf8, body, version, size, depth);
      case 9 =>
        if |body| < 9 {
          return Err(Format);
        }
        var base := ParseDatatypeConsuming(utf8, body[8..], depth + 1);
        if base.IsFailure() {
          return base.PropagateFailure();
        }
        var (t, consumed) := base.value;
        r := Ok((if flags % 16 == 1 then StringType(None, TextCharset(t)) else VarLenType(t), 8 + consumed));
      case 10 => r := ParseArrayLoop(utf8, body, version, depth);
      case _ => r := Err(UnsupportedDatatype(class_));
    }
  }

  method ParseCompoundLoop(utf8: Utf8, body: seq<Byte>, version: nat, depth: nat) returns (r: Result<(Dtype, nat)>)
    requires |body| >= 8 && depth <= MAX_NESTING
    ensures var f := FieldsFrom(utf8, body, version, LeNat(body[1..4]), 8, depth);
      r == if f.Err? then Err(f.error) else Ok((CompoundType(f.value.0), f.value.1))
    decreases MAX_NESTING + 1 - depth, 0
  {
    hide LeNat, Name, Parse, Prefixed;
    var count := LeNat(body[1..4]);
    var pos: nat, fields: seq<Field> := 8, [];
    ghost var all := FieldsFrom(utf8, body, version, count, 8, depth);
    PrefixedByNothing(all);
    for i := 0 to count
      invariant all == Prefixed(fields, FieldsFrom(utf8, body, version, count - i, pos, depth))
    {
      ghost var one := OneField(utf8, body, version, pos, depth);
      if one.Err? {
        PrefixedError(fields, one.error);
      }
      var name := Name(utf8, body, pos, version);
      if name.IsFailure() {
        return name.PropagateFailure();
      }
      pos := pos + name.value.1;
      var offset := ReadLe(body, pos, 4);
      if offset.IsFailure() {
        return offset.PropagateFailure();
      }
      pos := pos + 4;
      if version == 1 {
        if pos + 28 > |body| {
          return Err(Format);
        }
        pos := pos + 28;
      }
      if pos >= |body| {
        return Err(Format);
      }
      var member := ParseDatatypeConsuming(utf8, body[pos..], depth + 1);
      if member.IsFailure() {
        return member.PropagateFailure();
      }
      pos := pos + member.value.1;
      ghost var rest := FieldsFrom(utf8, body, version, count - i - 1, pos, depth);
      PrefixedTwice(fields, Field(name.value.0, offset.value, member.value.0), rest);
      fields := fields + [Field(name.value.0, offset.value, member.value.0)];
    }
    PrefixedEnd(fields, pos);
    return Ok((CompoundType(fields), pos));
  }

  method ReadNames(utf8: Utf8, body: seq<Byte>, version: nat, count: nat, start: nat)
    returns (r: Result<(seq<seq<Byte>>, nat)>)
    ensures r == NamesFrom(utf8, body, version, count, start)
  {
    hide Name, Prefixed;
    var pos: nat, names: seq<seq<Byte>> := start, [];
    ghost var all := NamesFrom(utf8, body, version, count, start);
    PrefixedByNothing(all);
    for i := 0 to count
      invariant all == Prefixed(names, NamesFrom(utf8, body, version, count - i, pos))
    {
      var name := Name(utf8, body, pos, version);
      if name.IsFailure() {
        PrefixedError(names, name.error);
        return name.PropagateFailure();
      }
      pos := pos + name.value.1;
      PrefixedTwice(names, name.value.0, NamesFrom(utf8, body, version, count - i - 1, pos));
      names := names + [name.value.0];
    }
    PrefixedEnd(names, pos);
    return Ok((names, pos));
  }

  method ReadMembers(body: seq<Byte>, names: seq<seq<Byte>>, size: nat, start: nat)
    returns (r: Result<(seq<(seq<Byte>, int)>, nat)>)
    ensures r == MembersFrom(body, names, size, start)
  {
    hide EnumValue, Prefixed;
    var pos: nat, members: seq<(seq<Byte>, int)> := start, [];
    ghost var all := MembersFrom(body, names, size, start);
    PrefixedByNothing(all);
    assert names[0..] == names;
    for i := 0 to |names|
      invariant all == Prefixed(members, MembersFrom(body, names[i..], size, pos))
    {
      assert names[i..][0] == names[i] && names[i..][1..] == names[i + 1..];
      if pos + size > |body| {
        PrefixedError(members, Format);
        return Err(Format);
      }
      var value := EnumValue(body[pos..pos + size]);
      if value.IsFailure() {
        PrefixedError(members, value.error);
        return value.PropagateFailure();
      }
      pos := pos + size;
      PrefixedTwice(members, (names[i], value.value), MembersFrom(body, names[i + 1..], size, pos));
      members := members + [(names[i], value.value)];
    }
    assert |names[|names|..]| == 0;
    PrefixedEnd(members, pos);
    return Ok((members, pos));
  }

  method ParseEnumLoop(utf8: Utf8, body: seq<Byte>, version: nat, size: nat, depth: nat)
    returns (r: Result<(Dtype, nat)>)
    requires |body| >= 8 && depth <= MAX_NESTING
    ensures r == ParseEnum(utf8, body, version, size, depth)
    decreases MAX_NESTING + 1 - depth, 0
  {
    hide LeNat, Parse, NamesFrom, MembersFrom;
    if |body| < 9 {
      return Err(Format);
    }
    var count := LeNat(body[1..4]);
    var base := ParseDatatypeConsuming(utf8, body[8..], depth + 1);
    if base.IsFailure() {
      return base.PropagateFailure();
    }
    var names := ReadNames(utf8, body, version, count, 8 + base.value.1);
    if names.IsFailure() {
      return names.PropagateFailure();
    }
    var members := ReadMembers(body, names.value.0, size, names.value.1);
    if members.IsFailure() {
      return members.PropagateFailure();
    }
    return Ok((EnumType(base.value.0, members.value.0), members.value.1));
  }

  method ParseArrayLoop(utf8: Utf8, body: seq<Byte>, version: nat, depth: nat) returns (r: Result<(Dtype, nat)>)
    requires |body| >= 8 && depth <= MAX_NESTING
    ensures r == ParseArray(utf8, body, version, depth)
    decreases MAX_NESTING + 1 - depth, 0
  {
    hide LeNat, Parse;
    if version < 2 || |body| < 9 {
      return Err(Format);
    }
    var ndims: nat := body[8];
    var dimsAt := if version == 2 then 12 else 9;
    var dimsEnd := dimsAt + ndims * 4;
    var propsEnd := if version == 2 then dimsEnd + ndims * 4 else dimsEnd;
    if |body| < propsEnd {
      return Err(Format);
    }
    var dims: seq<nat> := [];
    for i := 0 to ndims
      invariant dims == Words(body, dimsAt, i)
    {
      dims := dims + [LeNat(body[dimsAt + i * 4..dimsAt + i * 4 + 4])];
    }
    var base := ParseDatatypeConsuming(utf8, body[propsEnd..], depth + 1);
    if base.IsFailure() {
      return base.PropagateFailure();
    }
    return Ok((ArrayType(base.value.0, dims), propsEnd + base.value.1));
  }

  // ------------------------------------------------------------------
  // Self-delimitation
  // ------------------------------------------------------------------

  /** Both bodies have at least `m` bytes and share the first `m`. */
  ghost predicate Agree(a: seq<Byte>, b: seq<Byte>, m: int) {
    && m <= |a| && m <= |b|
    && forall i :: 0 <= i < m ==> a[i] == b[i]
  }

  lemma AgreeSlice(a: seq<Byte>, b: seq<Byte>, m: int, lo: nat, hi: nat)
    requires Agree(a, b, m) && lo <= hi <= m
    ensures a[lo..hi] == b[lo..hi]
  {
  }

  lemma AgreeTail(a: seq<Byte>, b: seq<Byte>, m: int, lo: nat)
    requires Agree(a, b, m) && lo <= m
    ensures Agree(a[lo..], b[lo..], m - lo)
  {
  }

  /** The first NUL of `a` is the first NUL of `b` when it lies in the part they share. */
  lemma {:induction false} NulLocal(a: seq<Byte>, b: seq<Byte>, pos: nat)
    requires NulAt(a, pos).Some? && Agree(a, b, NulAt(a, pos).value + 1)
    ensures NulAt(b, pos) == NulAt(a, pos)
    decreases |a| - pos
  {
    if a[pos] != 0 {
      NulLocal(a, b, pos + 1);
    }
  }

  lemma NameLocal(utf8: Utf8, a: seq<Byte>, b: seq<Byte>, pos: nat, version: nat)
    requires Name(utf8, a, pos, version).Ok?
    requires Agree(a, b, Min(pos + Name(utf8, a, pos, version).value.1, |a|))
    ensures Name(utf8, b, pos, version) == Name(utf8, a, pos, version)
  {
    var nul := NulAt(a, pos).value;
    NulLocal(a, b, pos);
    AgreeSlice(a, b, nul + 1, pos, nul);
  }

  lemma {:induction false} NamesLocal(utf8: Utf8, a: seq<Byte>, b: seq<Byte>, version: nat, count: nat, pos: nat)
    requires NamesFrom(utf8, a, version, count, pos).Ok?
    requires Agree(a, b, Min(NamesFrom(utf8, a, version, count, pos).value.1, |a|))
    ensures NamesFrom(utf8, b, version, count, pos) == NamesFrom(utf8, a, version, count, pos)
    decreases count
  {
    hide Name;
    if count > 0 {
      var next := pos + Name(utf8, a, pos, version).value.1;
      NameLocal(utf8, a, b, pos, version);
      NamesLocal(utf8, a, b, version, count - 1, next);
    }
  }

  lemma {:induction false} MembersLocal(a: seq<Byte>, b: seq<Byte>, names: seq<seq<Byte>>, size: nat, pos: nat)
    requires MembersFrom(a, names, size, pos).Ok?
    requires Agree(a, b, Min(MembersFrom(a, names, size, pos).value.1, |a|))
    ensures MembersFrom(b, names, size, pos) == MembersFrom(a, names, size, pos)
    decreases names
  {
    hide EnumValue;
    if names != [] {
      AgreeSlice(a, b, pos + size, pos, pos + size);
      MembersLocal(a, b, names[1..], size, pos + size);
    }
  }

  /** Every datatype takes at least the 8 bytes of its header. */
  lemma {:induction false} ConsumesHeader(utf8: Utf8, body: seq<Byte>, depth: nat)
    requires Parse(utf8, body, depth).Ok?
    ensures Parse(utf8, body, depth).value.1 >= 8
  {
    hide Name, LeNat;
    if body[0] % 16 == 6 {
      FieldsAdvance(utf8, body, body[0] / 16, LeNat(body[1..4]), 8, depth);
    }
  }

  lemma {:induction false} FieldsAdvance(utf8: Utf8, body: seq<Byte>, version: nat, count: nat, pos: nat, depth: nat)
    requires depth <= MAX_NESTING && FieldsFrom(utf8, body, version, count, pos, depth).Ok?
    ensures FieldsFrom(utf8, body, version, count, pos, depth).value.1 >= pos
    decreases count
  {
    hide Name, Parse;
    if count > 0 {
      FieldsAdvance(utf8, body, version, count - 1, OneField(utf8, body, version, pos, depth).value.1, depth);
    }
  }

  lemma {:induction false} FieldLocal(utf8: Utf8, a: seq<Byte>, b: seq<Byte>, version: nat, pos: nat, depth: nat)
    requires depth <= MAX_NESTING && OneField(utf8, a, version, pos, depth).Ok?
    requires Agree(a, b, Min(OneField(utf8, a, version, pos, depth).value.1, |a|))
    ensures OneField(utf8, b, version, pos, depth) == OneField(utf8, a, version, pos, depth)
    decreases MAX_NESTING + 1 - depth, 0, 0
  {
    hide Name, LeNat, Parse;
    var at := pos + Name(utf8, a, pos, version).value.1;
    var typeAt := if version == 1 then at + 32 else at + 4;
    var m := Min(OneField(utf8, a, version, pos, depth).value.1, |a|);
    ConsumesHeader(utf8, a[typeAt..], depth + 1);
    NameLocal(utf8, a, b, pos, version);
    AgreeSlice(a, b, m, at, at + 4);
    AgreeTail(a, b, m, typeAt);
    ParseLocal(utf8, a[typeAt..], b[typeAt..], depth + 1);
  }

  lemma {:induction false} FieldsLocal(utf8: Utf8, a: seq<Byte>, b: seq<Byte>, version: nat, count: nat, pos: nat,
                                       depth: nat)
    requires depth <= MAX_NESTING && FieldsFrom(utf8, a, version, count, pos, depth).Ok?
    requires Agree(a, b, Min(FieldsFrom(utf8, a, version, count, pos, depth).value.1, |a|))
    ensures FieldsFrom(utf8, b, version, count, pos, depth) == FieldsFrom(utf8, a, version, count, pos, depth)
    decreases MAX_NESTING + 1 - depth, 1, count
  {
    hide OneField;
    if count > 0 {
      var next := OneField(utf8, a, version, pos, depth).value.1;
      FieldsAdvance(utf8, a, version, count - 1, next, depth);
      FieldLocal(utf8, a, b, version, pos, depth);
      FieldsLocal(utf8, a, b, version, count - 1, next, depth);
    }
  }

  lemma {:induction false} EnumLocal(utf8: Utf8, a: seq<Byte>, b: seq<Byte>, version: nat, size: nat, depth: nat)
    requires |a| >= 8 && |b| >= 8 && depth <= MAX_NESTING && ParseEnum(utf8, a, version, size, depth).Ok?
    requires Agree(a, b, Min(ParseEnum(utf8, a, version, size, depth).value.1, |a|)) && a[..8] == b[..8]
    ensures ParseEnum(utf8, b, version, size, depth) == ParseEnum(utf8, a, version, size, depth)
    decreases MAX_NESTING + 1 - depth, 0, 0
  {
    hide LeNat, Parse, NamesFrom, MembersFrom;
    var m := Min(ParseEnum(utf8, a, version, size, depth).value.1, |a|);
    var base := Parse(utf8, a[8..], depth + 1).value;
    var names := NamesFrom(utf8, a, version, LeNat(a[1..4]), 8 + base.1).value;
    ConsumesHeader(utf8, a[8..], depth + 1);
    assert a[1..4] == a[..8][1..4] == b[..8][1..4] == b[1..4];
    AgreeTail(a, b, m, 8);
    ParseLocal(utf8, a[8..], b[8..], depth + 1);
    NamesLocal(utf8, a, b, version, LeNat(a[1..4]), 8 + base.1);
    MembersLocal(a, b, names.0, size, names.1);
  }

  lemma {:induction false} ArrayLocal(utf8: Utf8, a: seq<Byte>, b: seq<Byte>, version: nat, depth: nat)
    requires |a| >= 8 && |b| >= 8 && depth <= MAX_NESTING && ParseArray(utf8, a, version, depth).Ok?
    requires Agree(a, b, Min(ParseArray(utf8, a, version, depth).value.1, |a|))
    ensures ParseArray(utf8, b, version, depth) == ParseArray(utf8, a, version, depth)
    decreases MAX_NESTING + 1 - depth, 0, 0
  {
    hide LeNat, Parse, Words;
    var m := Min(ParseArray(utf8, a, version, depth).value.1, |a|);
    var ndims: nat := a[8];
    var dimsAt := if version == 2 then 12 else 9;
    var propsEnd := dimsAt + (if version == 2 then 8 else 4) * ndims;
    ConsumesHeader(utf8, a[propsEnd..], depth + 1);
    AgreeTail(a, b, m, propsEnd);
    ParseLocal(utf8, a[propsEnd..], b[propsEnd..], depth + 1);
    WordsLocal(a, b, m, dimsAt, ndims);
  }

  lemma WordsLocal(a: seq<Byte>, b: seq<Byte>, m: int, at: nat, n: nat)
    requires Agree(a, b, m) && at + 4 * n <= m
    ensures Words(a, at, n) == Words(b, at, n)
  {
    hide LeNat;
    forall i | 0 <= i < n ensures Words(a, at, n)[i] == Words(b, at, n)[i] {
      AgreeSlice(a, b, m, at + i * 4, at + i * 4 + 4);
    }
  }

  lemma OpaqueLocal(utf8: Utf8, a: seq<Byte>, b: seq<Byte>, size: nat)
    requires |a| >= 8 && |b| >= 8 && ParseOpaque(utf8, a, size).Ok?
    requires Agree(a, b, Min(ParseOpaque(utf8, a, size).value.1, |a|)) && a[1] == b[1]
    ensures ParseOpaque(utf8, b, size) == ParseOpaque(utf8, a, size)
  {
    hide NulAt;
    var tagLen: nat := a[1];
    AgreeSlice(a, b, Min(ParseOpaque(utf8, a, size).value.1, |a|), 8, 8 + tagLen);
  }

  /** Main result: a successful parse depends only on the bytes it reports as
      consumed, as far as they are present. */
  lemma {:induction false} ParseLocal(utf8: Utf8, a: seq<Byte>, b: seq<Byte>, depth: nat)
    requires Parse(utf8, a, depth).Ok? && Agree(a, b, Min(Parse(utf8, a, depth).value.1, |a|))
    ensures Parse(utf8, b, depth) == Parse(utf8, a, depth)
    decreases MAX_NESTING + 1 - depth, 2, 0
  {
    hide LeNat, FieldsFrom, ParseEnum, ParseArray, ParseOpaque;
    var n := Parse(utf8, a, depth).value.1;
    ConsumesHeader(utf8, a, depth);
    var m := Min(n, |a|);
    AgreeSlice(a, b, m, 4, 8);
    AgreeSlice(a, b, m, 1, 4);
    AgreeSlice(a, b, m, 0, 8);
    var class_, version, size := a[0] % 16, a[0] / 16, LeNat(a[4..8]);
    if class_ == 5 {
      OpaqueLocal(utf8, a, b, size);
    } else if class_ == 6 {
      FieldsLocal(utf8, a, b, version, LeNat(a[1..4]), 8, depth);
    } else if class_ == 8 {
      EnumLocal(utf8, a, b, version, size, depth);
    } else if class_ == 9 {
      ConsumesHeader(utf8, a[8..], depth + 1);
      AgreeTail(a, b, m, 8);
      ParseLocal(utf8, a[8..], b[8..], depth + 1);
    } else if class_ == 10 {
      ArrayLocal(utf8, a, b, version, depth);
    }
  }

  /** Bytes after a datatype never change it. */
  lemma ExtensionParsesAlike(utf8: Utf8, body: seq<Byte>, suffix: seq<Byte>, depth: nat)
    requires Parse(utf8, body, depth).Ok?
    ensures Parse(utf8, body + suffix, depth) == Parse(utf8, body, depth)
  {
    hide Parse;
    ParseLocal(utf8, body, body + suffix, depth);
  }

  /** The consumed bytes alone give the same datatype. */
  lemma TruncationParsesAlike(utf8: Utf8, body: seq<Byte>, depth: nat)
    requires Parse(utf8, body, depth).Ok? && Parse(utf8, body, depth).value.1 <= |body|
    ensures Parse(utf8, body[..Parse(utf8, body, depth).value.1], depth) == Parse(utf8, body, depth)
  {
    hide Parse;
    ParseLocal(utf8, body, body[..Parse(utf8, body, depth).value.1], depth);
  }
}
