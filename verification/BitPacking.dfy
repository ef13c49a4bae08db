// Bit-packed filters: MSB-first n-bit unpacking and the integer scale-offset
// decoder, and the packing they invert.

module BitPacking {
  import opened Arithmetic
  import opened Common
  import opened Elements
  import opened Powers

  // ------------------------------------------------------------------
  // Bit streams
  // ------------------------------------------------------------------

  /** Bit `p` of a stream, most significant bit first within each byte. */
  function Bit(data: seq<Byte>, p: nat): (b: nat)
    requires p < 8 * |data|
    ensures b < 2
  {
    data[p / 8] / Pow(2, 7 - p % 8) % 2
  }

  /** The `n`-bit number that starts at bit `s`. */
  function Field(data: seq<Byte>, s: nat, n: nat): nat
    requires s + n <= 8 * |data|
  {
    if n == 0 then 0 else 2 * Field(data, s, n - 1) + Bit(data, s + n - 1)
  }

  lemma {:induction false} FieldBound(data: seq<Byte>, s: nat, n: nat)
    requires s + n <= 8 * |data|
    ensures Field(data, s, n) < Pow(2, n)
  {
    if n > 0 {
      FieldBound(data, s, n - 1);
    }
  }

  // ------------------------------------------------------------------
  // Unpacking
  // ------------------------------------------------------------------

  /** `value << bitOffset` in 64 bits. */
  function PlacedWord(value: nat, bitOffset: nat): nat { value * Pow(2, bitOffset) % Pow(2, 64) }

  /** Element `i` of the unpacked output: its bits placed at `bitOffset` in a
      64-bit word, of which the low bytes are kept. */
  function UnpackedElem(data: seq<Byte>, elemSize: nat, bits: nat, bitOffset: nat, i: nat): (e: seq<Byte>)
    requires i * bits + bits <= 8 * |data|
    ensures |e| == elemSize
  {
    LeBytes(PlacedWord(Field(data, i * bits, bits), bitOffset), if elemSize <= 8 then elemSize else 8)
      + Zeros(if elemSize <= 8 then 0 else elemSize - 8)
  }

  function UnpackedUpTo(data: seq<Byte>, elemSize: nat, bits: nat, bitOffset: nat, n: nat): (o: seq<Byte>)
    requires n * bits <= 8 * |data|
    ensures |o| == n * elemSize
  {
    if n == 0 then []
    else
      MulStep(n, bits);
      MulStep(n, elemSize);
      UnpackedUpTo(data, elemSize, bits, bitOffset, n - 1) + UnpackedElem(data, elemSize, bits, bitOffset, n - 1)
  }

  /** Bits of an element: a saturating 64-bit product, cut to 32 bits. */
  function MaxBits(elemSize: nat): (m: nat)
    ensures elemSize < 0x2000_0000 ==> m == 8 * elemSize
  {
    (if 8 * elemSize <= U64_MAX then 8 * elemSize else U64_MAX) % 0x1_0000_0000
  }

  /** Shifting a 64-bit word by 64 or more aborts in a checked build. */
  function Unpacked(data: seq<Byte>, elemSize: nat, bits: nat, bitOffset: nat): Result<seq<Byte>> {
    if elemSize == 0 || bits == 0 || bits > MaxBits(elemSize) || bitOffset >= MaxBits(elemSize) then Err(Format)
    else
      var n := 8 * |data| / bits;
      CountFits(0, bits, 8 * |data|);
      if n > 0 && (bits > 64 || bitOffset >= 64) then Err(Panic)
      else Ok(UnpackedUpTo(data, elemSize, bits, bitOffset, n))
  }

  /** Gather one field bit by bit, most significant first. */
  method GatherBits(data: seq<Byte>, bitStart: nat, bits: nat) returns (value: nat)
    requires bitStart + bits <= 8 * |data|
    ensures value == Field(data, bitStart, bits)
  {
    hide Pow, Field, Bit;
    value := 0;
    GatherStart(data, bitStart, bits);
    for b := 0 to bits
      invariant value == Placed(data, bitStart, bits, b)
    {
      var byteIdx := (bitStart + b) / 8;
      var bitInByte := 7 - (bitStart + b) % 8;
      if byteIdx < |data| {
        var bit := data[byteIdx] / Pow(2, bitInByte) % 2;
        GatherStep(data, bitStart, bits, b);
        value := value + bit * Pow(2, bits - 1 - b);
      }
    }
  }

  /** The first `b` bits of a field, in their final position. */
  ghost function Placed(data: seq<Byte>, s: nat, bits: nat, b: nat): nat
    requires s + bits <= 8 * |data| && b <= bits
  {
    Field(data, s, b) * Pow(2, bits - b)
  }

  lemma GatherStart(data: seq<Byte>, s: nat, bits: nat)
    requires s + bits <= 8 * |data|
    ensures Placed(data, s, bits, 0) == 0 && Placed(data, s, bits, bits) == Field(data, s, bits)
  {
    assert Field(data, s, 0) == 0 && Pow(2, 0) == 1;
  }

  lemma GatherStep(data: seq<Byte>, s: nat, bits: nat, b: nat)
    requires s + bits <= 8 * |data| && b < bits
    ensures Placed(data, s, bits, b + 1)
         == Placed(data, s, bits, b) + data[(s + b) / 8] / Pow(2, 7 - (s + b) % 8) % 2 * Pow(2, bits - 1 - b)
  {
    DoubleAndAdd(Field(data, s, b), Bit(data, s + b), Pow(2, bits - 1 - b));
  }

  lemma DoubleAndAdd(f: nat, bit: nat, p: nat)
    ensures f * (2 * p) + bit * p == (2 * f + bit) * p
  {
  }

  method UnpackNBit(data: seq<Byte>, elemSize: nat, bits: nat, bitOffset: nat) returns (r: Result<seq<Byte>>)
    ensures r == Unpacked(data, elemSize, bits, bitOffset)
  {
    hide UnpackedElem, UnpackedUpTo;
    if elemSize == 0 {
      return Err(Format);
    }
    if bits == 0 {
      return Err(Format);
    }
    if bits > MaxBits(elemSize) || bitOffset >= MaxBits(elemSize) {
      return Err(Format);
    }
    var n := 8 * |data| / bits;
    CountFits(0, bits, 8 * |data|);
    if n > 0 && (bits > 64 || bitOffset >= 64) {
      return Err(Panic);
    }
    var out := UnpackElements(data, elemSize, bits, bitOffset, n);
    return Ok(out);
  }

  method UnpackElements(data: seq<Byte>, elemSize: nat, bits: nat, bitOffset: nat, n: nat) returns (out: seq<Byte>)
    requires n * bits <= 8 * |data|
    ensures out == UnpackedUpTo(data, elemSize, bits, bitOffset, n)
  {
    hide UnpackedElem;
    out := [];
    for i := 0 to n
      invariant i * bits <= 8 * |data|
      invariant out == UnpackedUpTo(data, elemSize, bits, bitOffset, i)
    {
      StepFits(i, n, bits, 8 * |data|);
      MulStep(i + 1, elemSize);
      var elem := UnpackOne(data, elemSize, bits, bitOffset, i);
      out := out + elem;
    }
  }

  method UnpackOne(data: seq<Byte>, elemSize: nat, bits: nat, bitOffset: nat, i: nat) returns (elem: seq<Byte>)
    requires i * bits + bits <= 8 * |data|
    ensures elem == UnpackedElem(data, elemSize, bits, bitOffset, i)
  {
    hide LeBytes, Pow, Field;
    var bitStart := i * bits;
    var value := GatherBits(data, bitStart, bits);
    var placed := PlacedWord(value, bitOffset);
    var copyLen := if elemSize <= 8 then elemSize else 8;
    elem := LeBytes(placed, copyLen) + Zeros(elemSize - copyLen);
  }

  lemma {:induction false} ElementOfUnpacked(data: seq<Byte>, elemSize: nat, bits: nat, bitOffset: nat, n: nat, i: nat)
    requires n * bits <= 8 * |data| && i < n
    ensures i * bits + bits <= 8 * |data|
    ensures Elem(UnpackedUpTo(data, elemSize, bits, bitOffset, n), i, elemSize)
         == UnpackedElem(data, elemSize, bits, bitOffset, i)
    decreases n
  {
    hide UnpackedElem, Elem, Fits;
    MulStep(n, bits);
    if i < n - 1 {
      ElementOfUnpacked(data, elemSize, bits, bitOffset, n - 1, i);
    }
    ElemOfAppend(UnpackedUpTo(data, elemSize, bits, bitOffset, n - 1),
                 UnpackedElem(data, elemSize, bits, bitOffset, n - 1), n - 1, i);
  }

  // ------------------------------------------------------------------
  // Scale-offset
  // ------------------------------------------------------------------

  /** The number a packed word stands for before the minimum is added; sizes
      that are not a machine word count as zero. */
  function PackedValue(word: seq<Byte>, elemSize: nat): int {
    if !WordSize(elemSize) then 0
    else if elemSize == 1 then LeNat(word) else Signed(LeNat(word), elemSize)
  }

  /** The stored minimum; missing bytes count as zero. */
  function MinValue(minBytes: seq<Byte>, elemSize: nat): int {
    if !WordSize(elemSize) then 0
    else if |minBytes| >= elemSize then Signed(LeNat(minBytes[..elemSize]), elemSize)
    else Signed(LeNat(minBytes + Zeros(elemSize - |minBytes|)), elemSize)
  }

  /** One decoded element: the packed word (sign-extended unless one byte wide)
      plus the minimum, in wrapping 64-bit arithmetic, low bytes kept. */
  function Rescaled(word: seq<Byte>, elemSize: nat, min: int): (e: seq<Byte>)
    requires elemSize <= 8
    ensures |e| == elemSize
  {
    LeBytes((PackedValue(word, elemSize) + min) % Pow(256, 8), 8)[..elemSize]
  }

  function RescaledUpTo(unpacked: seq<Byte>, elemSize: nat, min: int, n: nat): (o: seq<Byte>)
    requires elemSize <= 8 && n * elemSize <= |unpacked|
    ensures |o| == n * elemSize
  {
    if n == 0 then []
    else
      MulStep(n, elemSize);
      RescaledUpTo(unpacked, elemSize, min, n - 1) + Rescaled(Elem(unpacked, n - 1, elemSize), elemSize, min)
  }

  /** The integer scale-offset decoder.  Elements wider than 8 bytes abort. */
  function ScaleOffset(data: seq<Byte>, elemSize: nat, minBits: nat, minBytes: seq<Byte>): Result<seq<Byte>> {
    if elemSize == 0 || minBits == 0 then Ok(data)
    else
      var unpacked :- Unpacked(data, elemSize, minBits, 0);
      var n := |unpacked| / elemSize;
      CountFits(0, elemSize, |unpacked|);
      if elemSize > 8 then if n > 0 then Err(Panic) else Ok([])
      else Ok(RescaledUpTo(unpacked, elemSize, MinValue(minBytes, elemSize), n))
  }

  method DecodeScaleOffsetInt(data: seq<Byte>, elemSize: nat, minBits: nat, minBytes: seq<Byte>)
    returns (r: Result<seq<Byte>>)
    ensures r == ScaleOffset(data, elemSize, minBits, minBytes)
  {
    hide Rescaled, Unpacked, MinValue;
    if elemSize == 0 || minBits == 0 {
      return Ok(data);
    }
    var u := UnpackNBit(data, elemSize, minBits, 0);
    if u.IsFailure() {
      return u.PropagateFailure();
    }
    var unpacked := u.Extract();
    var n := |unpacked| / elemSize;
    CountFits(0, elemSize, |unpacked|);
    var min := MinValue(minBytes, elemSize);
    var out: seq<Byte> := [];
    for i := 0 to n
      invariant i * elemSize <= |unpacked| && (elemSize > 8 ==> i == 0 && out == [])
      invariant elemSize <= 8 ==> out == RescaledUpTo(unpacked, elemSize, min, i)
    {
      if elemSize > 8 {
        return Err(Panic);
      }
      StepFits(i, n, elemSize, |unpacked|);
      MulStep(i + 1, elemSize);
      out := out + Rescaled(unpacked[i * elemSize..i * elemSize + elemSize], elemSize, min);
    }
    return Ok(out);
  }

  lemma {:induction false} ElementOfRescaled(unpacked: seq<Byte>, elemSize: nat, min: int, n: nat, i: nat)
    requires elemSize <= 8 && n * elemSize <= |unpacked| && i < n
    ensures Fits(unpacked, i, elemSize)
    ensures Elem(RescaledUpTo(unpacked, elemSize, min, n), i, elemSize)
         == Rescaled(Elem(unpacked, i, elemSize), elemSize, min)
    decreases n
  {
    hide Rescaled;
    MulStep(n, elemSize);
    if i < n - 1 {
      ElementOfRescaled(unpacked, elemSize, min, n - 1, i);
    }
    assert Fits(unpacked, n - 1, elemSize);
    hide Elem, Fits;
    ElemOfAppend(RescaledUpTo(unpacked, elemSize, min, n - 1),
                 Rescaled(Elem(unpacked, n - 1, elemSize), elemSize, min), n - 1, i);
  }

  // ------------------------------------------------------------------
  // Modular arithmetic of one element
  // ------------------------------------------------------------------

  lemma {:induction false} LowBytes(n: nat, w: nat, k: nat)
    requires k <= w
    ensures LeBytes(n, w)[..k] == LeBytes(n % Pow(256, k), k)
  {
    if k > 0 {
      LowBytes(n / 256, w - 1, k - 1);
      SplitMod(n, Pow(256, k - 1));
      assert LeBytes(n, w)[..k] == [n % 256] + LeBytes(n / 256, w - 1)[..k - 1];
    }
  }

  lemma SplitMod(n: nat, p: nat)
    requires p > 0
    ensures (n % (256 * p)) % 256 == n % 256
    ensures (n % (256 * p)) / 256 == n / 256 % p
  {
    var m := n / 256;
    var q, r := m / p, m % p;
    assert m == q * p + r;
    assert n == 256 * m + n % 256;
    assert 256 * (q * p) == q * (256 * p);
    assert n == q * (256 * p) + (256 * r + n % 256);
    DivModUnique(n, 256 * p, q, 256 * r + n % 256);
  }

  /** The low bytes of a number denote its residue. */
  lemma LowBytesValue(n: nat, w: nat, k: nat)
    requires k <= w
    ensures LeNat(LeBytes(n, w)[..k]) == n % Pow(256, k)
  {
    LowBytes(n, w, k);
    LeRoundTrip(n % Pow(256, k), k);
  }

  /** Sign extension keeps the residue. */
  lemma SignedResidue(raw: nat, w: nat)
    ensures Signed(raw, w) % Pow(256, w) == raw % Pow(256, w)
  {
    if Signed(raw, w) != raw {
      AddMultiple(raw, Pow(256, w), -1);
    }
  }

  lemma SameResidueSum(a: int, b: int, x: int, y: int, m: nat)
    requires m > 0 && a % m == x % m && b % m == y % m
    ensures (a + b) % m == (x + y) % m
  {
    ModAdd(a, b, m);
    ModAdd(x, y, m);
  }

  lemma RescaledResidue(word: seq<Byte>, elemSize: nat, min: int)
    requires WordSize(elemSize)
    ensures LeNat(Rescaled(word, elemSize, min)) == (PackedValue(word, elemSize) + min) % Pow(256, elemSize)
  {
    hide LeBytes, LeNat, Pow, PackedValue;
    var n := PackedValue(word, elemSize) + min;
    LowBytesValue(n % Pow(256, 8), 8, elemSize);
    ResidueOfTotal(n, elemSize);
  }

  /** A rescaled element is the packed value plus the minimum, modulo the
      element's range. */
  lemma RescaledValue(word: seq<Byte>, elemSize: nat, minBytes: seq<Byte>)
    requires WordSize(elemSize) && |word| == elemSize && |minBytes| == elemSize
    ensures LeNat(Rescaled(word, elemSize, Signed(LeNat(minBytes), elemSize)))
         == (LeNat(word) + LeNat(minBytes)) % Pow(256, elemSize)
  {
    hide Rescaled, LeNat, Pow, Signed;
    var min := Signed(LeNat(minBytes), elemSize);
    RescaledResidue(word, elemSize, min);
    SignedResidue(LeNat(word), elemSize);
    SignedResidue(LeNat(minBytes), elemSize);
    SameResidueSum(PackedValue(word, elemSize), min, LeNat(word), LeNat(minBytes), Pow(256, elemSize));
  }

  lemma ResidueOfTotal(n: int, w: nat)
    requires w <= 8
    ensures (n % Pow(256, 8)) % Pow(256, w) == n % Pow(256, w)
  {
    hide Pow;
    PowAdd(256, w, 8 - w);
    ModOfMod(n, Pow(256, w), Pow(256, 8 - w));
  }

  // ------------------------------------------------------------------
  // Packing
  // ------------------------------------------------------------------

  /** Bit `p` of the concatenated `bits`-wide values, zero past the end. */
  function SourceBit(values: seq<nat>, bits: nat, p: nat): (b: nat)
    requires bits > 0
    ensures b < 2
  {
    if p / bits < |values| then values[p / bits] / Pow(2, bits - 1 - p % bits) % 2 else 0
  }

  function PackedByte(values: seq<nat>, bits: nat, k: nat): Byte
    requires bits > 0
  {
    128 * SourceBit(values, bits, 8 * k) + 64 * SourceBit(values, bits, 8 * k + 1)
      + 32 * SourceBit(values, bits, 8 * k + 2) + 16 * SourceBit(values, bits, 8 * k + 3)
      + 8 * SourceBit(values, bits, 8 * k + 4) + 4 * SourceBit(values, bits, 8 * k + 5)
      + 2 * SourceBit(values, bits, 8 * k + 6) + SourceBit(values, bits, 8 * k + 7)
  }

  /** MSB-first packing, padded with zero bits to a whole byte. */
  function Packed(values: seq<nat>, bits: nat): (d: seq<Byte>)
    requires bits > 0
    ensures 8 * |d| >= |values| * bits
  {
    seq((|values| * bits + 7) / 8, k requires 0 <= k => PackedByte(values, bits, k))
  }

  lemma OneBit(hi: nat, b: nat, lo: nat, p: nat)
    requires lo < p && b < 2
    ensures (hi * (2 * p) + b * p + lo) / p % 2 == b
  {
    assert hi * (2 * p) + b * p + lo == (2 * hi + b) * p + lo;
    DivModUnique(hi * (2 * p) + b * p + lo, p, 2 * hi + b, lo);
  }

  /** Bit `j` of a byte assembled from eight bits, most significant first. */
  lemma BitOfByte(b0: nat, b1: nat, b2: nat, b3: nat, b4: nat, b5: nat, b6: nat, b7: nat, x: nat)
    requires b0 < 2 && b1 < 2 && b2 < 2 && b3 < 2 && b4 < 2 && b5 < 2 && b6 < 2 && b7 < 2
    requires x == 128 * b0 + 64 * b1 + 32 * b2 + 16 * b3 + 8 * b4 + 4 * b5 + 2 * b6 + b7
    ensures x / 128 % 2 == b0 && x / 64 % 2 == b1 && x / 32 % 2 == b2 && x / 16 % 2 == b3
    ensures x / 8 % 2 == b4 && x / 4 % 2 == b5 && x / 2 % 2 == b6 && x / 1 % 2 == b7
  {
    OneBit(0, b0, 64 * b1 + 32 * b2 + 16 * b3 + 8 * b4 + 4 * b5 + 2 * b6 + b7, 128);
    OneBit(b0, b1, 32 * b2 + 16 * b3 + 8 * b4 + 4 * b5 + 2 * b6 + b7, 64);
    OneBit(2 * b0 + b1, b2, 16 * b3 + 8 * b4 + 4 * b5 + 2 * b6 + b7, 32);
    OneBit(4 * b0 + 2 * b1 + b2, b3, 8 * b4 + 4 * b5 + 2 * b6 + b7, 16);
    OneBit(8 * b0 + 4 * b1 + 2 * b2 + b3, b4, 4 * b5 + 2 * b6 + b7, 8);
    OneBit(16 * b0 + 8 * b1 + 4 * b2 + 2 * b3 + b4, b5, 2 * b6 + b7, 4);
    OneBit(32 * b0 + 16 * b1 + 8 * b2 + 4 * b3 + 2 * b4 + b5, b6, b7, 2);
    OneBit(64 * b0 + 32 * b1 + 16 * b2 + 8 * b3 + 4 * b4 + 2 * b5 + b6, b7, 0, 1);
  }

  lemma PackedBit(values: seq<nat>, bits: nat, p: nat)
    requires bits > 0 && p < 8 * |Packed(values, bits)|
    ensures Bit(Packed(values, bits), p) == SourceBit(values, bits, p)
  {
    hide SourceBit, Pow;
    var k := p / 8;
    var x := Packed(values, bits)[k];
    SmallPowers();
    BitOfByte(SourceBit(values, bits, 8 * k), SourceBit(values, bits, 8 * k + 1),
              SourceBit(values, bits, 8 * k + 2), SourceBit(values, bits, 8 * k + 3),
              SourceBit(values, bits, 8 * k + 4), SourceBit(values, bits, 8 * k + 5),
              SourceBit(values, bits, 8 * k + 6), SourceBit(values, bits, 8 * k + 7), x);
    hide Packed;
    assert p == 8 * k + p % 8;
  }

  /** The first `j` bits of field `i` are the top `j` bits of value `i`. */
  lemma {:induction false} PackedPrefix(values: seq<nat>, bits: nat, i: nat, j: nat)
    requires bits > 0 && i < |values| && j <= bits && values[i] < Pow(2, bits)
    ensures i * bits + bits <= 8 * |Packed(values, bits)|
    ensures Field(Packed(values, bits), i * bits, j) == values[i] / Pow(2, bits - j)
  {
    hide Packed, Bit;
    StepFits(i, |values|, bits, |values| * bits);
    if j == 0 {
      assert values[i] / Pow(2, bits) == 0;
    } else {
      PackedPrefix(values, bits, i, j - 1);
      var p := i * bits + (j - 1);
      PackedBit(values, bits, p);
      IndexOfBit(i, bits, j - 1);
      HalveDiv(values[i], Pow(2, bits - j));
    }
  }

  lemma IndexOfBit(i: nat, bits: nat, j: nat)
    requires j < bits
    ensures (i * bits + j) / bits == i && (i * bits + j) % bits == j
  {
    DivModUnique(i * bits + j, bits, i, j);
    assert ((i * bits + j) / bits - i) * bits == 0;
  }

  lemma HalveDiv(v: nat, p: nat)
    requires p > 0
    ensures v / p == 2 * (v / (2 * p)) + v / p % 2
  {
    var q, r := v / (2 * p), v % (2 * p);
    assert v == q * (2 * p) + r;
    if r < p {
      DivModUnique(v, p, 2 * q, r);
    } else {
      DivModUnique(v, p, 2 * q + 1, r - p);
    }
  }

  /** Unpacking a packed list gives each value back. */
  lemma FieldOfPacked(values: seq<nat>, bits: nat, i: nat)
    requires bits > 0 && i < |values| && values[i] < Pow(2, bits)
    ensures i * bits + bits <= 8 * |Packed(values, bits)|
    ensures Field(Packed(values, bits), i * bits, bits) == values[i]
  {
    hide Packed, Field;
    PackedPrefix(values, bits, i, bits);
    assert Pow(2, 0) == 1;
  }

  /** Main result: for word-sized elements and values of at most `bits` bits,
      decoding the packed stream succeeds, and its first elements are the values
      plus the minimum modulo the element range, whatever the byte straddling
      and however many pad bits follow. */
  lemma ScaleOffsetInvertsPacking(values: seq<nat>, elemSize: nat, bits: nat, minBytes: seq<Byte>, i: nat)
    requires WordSize(elemSize) && |minBytes| == elemSize && 1 <= bits <= 8 * elemSize
    requires i < |values| && values[i] < Pow(2, bits)
    ensures ScaleOffset(Packed(values, bits), elemSize, bits, minBytes).Ok?
    ensures LeNat(Elem(ScaleOffset(Packed(values, bits), elemSize, bits, minBytes).value, i, elemSize))
         == (values[i] + LeNat(minBytes)) % Pow(256, elemSize)
  {
    hide Packed, Rescaled, UnpackedElem, UnpackedUpTo, RescaledUpTo, ScaleOffset, Elem, Fits, LeNat, Signed, Pow;
    var data := Packed(values, bits);
    DecodedElement(data, elemSize, bits, minBytes, |values|, i);
    PlainWordOfPacked(values, elemSize, bits, i);
    var word := UnpackedElem(data, elemSize, bits, 0, i);
    RescaledValue(word, elemSize, minBytes);
    assert minBytes[..elemSize] == minBytes;
    assert MinValue(minBytes, elemSize) == Signed(LeNat(minBytes), elemSize);
  }

  lemma PlainWordOfPacked(values: seq<nat>, elemSize: nat, bits: nat, i: nat)
    requires elemSize <= 8 && 1 <= bits <= 8 * elemSize
    requires i < |values| && values[i] < Pow(2, bits)
    ensures i * bits + bits <= 8 * |Packed(values, bits)|
    ensures LeNat(UnpackedElem(Packed(values, bits), elemSize, bits, 0, i)) == values[i]
  {
    hide Packed, UnpackedElem, LeNat;
    WordOfPacked(values, elemSize, bits, 0, i);
    assert Pow(2, 0) == 1;
  }

  /** Element `i` of a decoded stream is the rescaled `i`-th field. */
  lemma DecodedElement(data: seq<Byte>, elemSize: nat, bits: nat, minBytes: seq<Byte>, n: nat, i: nat)
    requires WordSize(elemSize) && |minBytes| == elemSize && 1 <= bits <= 8 * elemSize
    requires n * bits <= 8 * |data| && i < n
    ensures i * bits + bits <= 8 * |data|
    ensures ScaleOffset(data, elemSize, bits, minBytes).Ok?
    ensures Elem(ScaleOffset(data, elemSize, bits, minBytes).value, i, elemSize)
         == Rescaled(UnpackedElem(data, elemSize, bits, 0, i), elemSize, MinValue(minBytes, elemSize))
  {
    hide Rescaled, UnpackedElem, UnpackedUpTo, RescaledUpTo, Elem, Fits, MinValue;
    var total := 8 * |data| / bits;
    CountFits(total, bits, 8 * |data|);
    CountFits(n, bits, 8 * |data|);
    var unpacked := UnpackedUpTo(data, elemSize, bits, 0, total);
    IndexOfBit(total, elemSize, 0);
    ElementOfUnpacked(data, elemSize, bits, 0, total, i);
    ElementOfRescaled(unpacked, elemSize, MinValue(minBytes, elemSize), total, i);
  }

  lemma ShiftedBound(v: nat, a: nat, b: nat)
    requires v < Pow(2, a)
    ensures v * Pow(2, b) < Pow(2, a + b)
  {
    hide Pow;
    PowAdd(2, a, b);
    MulLess(v, Pow(2, a), Pow(2, b), 0);
  }

  /** The n-bit decoder inverts packing: element `i` of the unpacked stream is
      value `i` moved up by the bit offset. */
  lemma WordOfPacked(values: seq<nat>, elemSize: nat, bits: nat, bitOffset: nat, i: nat)
    requires elemSize <= 8 && 1 <= bits && bits + bitOffset <= 8 * elemSize
    requires i < |values| && values[i] < Pow(2, bits)
    ensures i * bits + bits <= 8 * |Packed(values, bits)|
    ensures LeNat(UnpackedElem(Packed(values, bits), elemSize, bits, bitOffset, i)) == values[i] * Pow(2, bitOffset)
  {
    hide Packed, Field, Pow, LeBytes, LeNat, UnpackedElem;
    FieldOfPacked(values, bits, i);
    var v := values[i] * Pow(2, bitOffset);
    PlacedBound(values[i], bits, bitOffset, elemSize);
    ElemOfField(Packed(values, bits), elemSize, bits, bitOffset, i, v);
    LeRoundTrip(v, elemSize);
  }

  /** A value moved up by the bit offset stays within the element. */
  lemma PlacedBound(v: nat, bits: nat, bitOffset: nat, elemSize: nat)
    requires elemSize <= 8 && bits + bitOffset <= 8 * elemSize && v < Pow(2, bits)
    ensures v * Pow(2, bitOffset) < Pow(256, elemSize) <= Pow(2, 64)
  {
    hide Pow;
    ShiftedBound(v, bits, bitOffset);
    PowMonotone(2, bits + bitOffset, 8 * elemSize);
    PowMonotone(2, 8 * elemSize, 64);
    Pow256IsPow2(elemSize);
  }

  lemma ElemOfField(data: seq<Byte>, elemSize: nat, bits: nat, bitOffset: nat, i: nat, v: nat)
    requires elemSize <= 8 && i * bits + bits <= 8 * |data|
    requires v == Field(data, i * bits, bits) * Pow(2, bitOffset) && v < Pow(2, 64)
    ensures UnpackedElem(data, elemSize, bits, bitOffset, i) == LeBytes(v, elemSize)
  {
    hide Field, Pow, LeBytes;
    SmallMod(v, Pow(2, 64));
    assert Zeros(0) == [];
  }
}
