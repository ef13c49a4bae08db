// Shared vocabulary: results, bytes, little-endian fields and bounds-checked
// slices of a file image.

module Common {

  /** The error kinds the readers distinguish; message texts are not modelled.
      `Panic` stands for a slice index that aborts instead of returning. */
  datatype Error =
    | Format
    | Corrupted
    | NotImplemented
    | NotFound
    | UnsupportedHeader(version: nat)
    | UnsupportedDatatype(class_: nat)
    | UnsupportedFilter
    | Panic

  datatype Option<+T> = None | Some(value: T)

  datatype Result<+T> = Ok(value: T) | Err(error: Error) {
    predicate IsFailure() { Err? }

    function PropagateFailure<U>(): Result<U>
      requires Err?
    {
      Err(error)
    }

    function Extract(): T
      requires Ok?
    {
      value
    }
  }

  /** What a chunk index says of one chunk: where its bytes are, how many, which
      filters were skipped, and its origin in the dataset. */
  datatype Record = Record(address: nat, size: nat, filterMask: nat, offsets: seq<nat>)

  type Byte = b: int | 0 <= b < 256

  const U64_MAX: nat := 0xFFFF_FFFF_FFFF_FFFF

  function Min(a: int, b: int): (m: int)
    ensures m <= a && m <= b && (m == a || m == b)
  {
    if a <= b then a else b
  }

  function Max(a: int, b: int): (m: int)
    ensures m >= a && m >= b && (m == a || m == b)
  {
    if a <= b then b else a
  }

  function Zeros(n: nat): (z: seq<Byte>)
    ensures |z| == n && forall i :: 0 <= i < n ==> z[i] == 0
  {
    seq(n, i => 0)
  }

  // ------------------------------------------------------------------
  // Powers and little-endian integers
  // ------------------------------------------------------------------

  function Pow(b: nat, e: nat): (p: nat)
    ensures b > 0 ==> p > 0
  {
    if e == 0 then 1 else b * Pow(b, e - 1)
  }

  lemma Pow256Values()
    ensures Pow(256, 1) == 256
    ensures Pow(256, 2) == 0x1_0000
    ensures Pow(256, 4) == 0x1_0000_0000
    ensures Pow(256, 8) == 0x1_0000_0000_0000_0000
  {
    assert Pow(256, 2) == 256 * Pow(256, 1);
    assert Pow(256, 3) == 256 * Pow(256, 2);
    assert Pow(256, 4) == 256 * Pow(256, 3);
    assert Pow(256, 5) == 256 * Pow(256, 4);
    assert Pow(256, 6) == 256 * Pow(256, 5);
    assert Pow(256, 7) == 256 * Pow(256, 6);
    assert Pow(256, 8) == 256 * Pow(256, 7);
  }

  /** The unsigned integer a little-endian byte string denotes. */
  function LeNat(bs: seq<Byte>): nat {
    if bs == [] then 0 else bs[0] + 256 * LeNat(bs[1..])
  }

  /** The low `w` bytes of `n`, least significant first. */
  function LeBytes(n: nat, w: nat): (bs: seq<Byte>)
    ensures |bs| == w
  {
    if w == 0 then [] else [n % 256] + LeBytes(n / 256, w - 1)
  }

  lemma {:induction false} LeRoundTrip(n: nat, w: nat)
    requires n < Pow(256, w)
    ensures LeNat(LeBytes(n, w)) == n
  {
    if w > 0 {
      LeRoundTrip(n / 256, w - 1);
      assert LeBytes(n, w)[1..] == LeBytes(n / 256, w - 1);
    }
  }

  lemma {:induction false} LeBound(bs: seq<Byte>)
    ensures LeNat(bs) < Pow(256, |bs|)
  {
    if bs != [] {
      LeBound(bs[1..]);
    }
  }

  /** Widths of a machine word. */
  predicate WordSize(size: nat) { size == 1 || size == 2 || size == 4 || size == 8 }

  /** Two's complement reading of a `w`-byte number. */
  function Signed(raw: nat, w: nat): int { if 2 * raw >= Pow(256, w) then raw - Pow(256, w) else raw }

  /** Round up to the next multiple of 8. */
  function Align8(n: nat): (r: nat)
    ensures n <= r < n + 8 && r % 8 == 0
  {
    (n + 7) / 8 * 8
  }

  // ------------------------------------------------------------------
  // Slices of a file image
  // ------------------------------------------------------------------

  /** `data.get(lo..hi)`. */
  function Get(data: seq<Byte>, lo: nat, hi: nat): Option<seq<Byte>> {
    if lo <= hi <= |data| then Some(data[lo..hi]) else None
  }

  /** A bounds-checked little-endian field of `w` bytes. */
  function ReadLe(data: seq<Byte>, off: nat, w: nat): Result<nat> {
    if off + w <= |data| then Ok(LeNat(data[off..off + w])) else Err(Format)
  }

  /** `x` is stored in `data` at `base`. */
  ghost predicate At(data: seq<Byte>, base: nat, x: seq<Byte>) {
    base + |x| <= |data| && data[base..base + |x|] == x
  }

  lemma AtSplit(data: seq<Byte>, base: nat, a: seq<Byte>, b: seq<Byte>)
    requires At(data, base, a + b)
    ensures At(data, base, a)
    ensures At(data, base + |a|, b)
  {
    var ab := a + b;
    assert data[base..base + |a|] == data[base..base + |ab|][..|a|] == ab[..|a|] == a;
    assert data[base + |a|..base + |ab|] == data[base..base + |ab|][|a|..] == ab[|a|..] == b;
  }

  lemma AtInside(data: seq<Byte>, base: nat, x: seq<Byte>, lo: nat, hi: nat)
    requires At(data, base, x) && lo <= hi <= |x|
    ensures base + hi <= |data| && data[base + lo..base + hi] == x[lo..hi]
  {
    forall i | 0 <= i < hi - lo
      ensures data[base + lo..base + hi][i] == x[lo..hi][i]
    {
      assert data[base + lo + i] == data[base..base + |x|][lo + i];
    }
  }

  lemma AtEmbedded(prefix: seq<Byte>, x: seq<Byte>, suffix: seq<Byte>)
    ensures At(prefix + x + suffix, |prefix|, x)
  {
    var d := prefix + x + suffix;
    assert d[|prefix|..|prefix| + |x|] == x;
  }

  /** Reading a field that was written little-endian gives the number back. */
  lemma ReadLeAt(data: seq<Byte>, off: nat, w: nat, n: nat)
    requires At(data, off, LeBytes(n, w)) && n < Pow(256, w)
    ensures ReadLe(data, off, w) == Ok(n)
  {
    LeRoundTrip(n, w);
  }

  // ------------------------------------------------------------------
  // Runs of fixed-width fields
  // ------------------------------------------------------------------

  /** `n` consecutive u32 fields. */
  function Words(data: seq<Byte>, at: nat, n: nat): (w: seq<nat>)
    requires at + 4 * n <= |data|
    ensures |w| == n
  {
    seq(n, i requires 0 <= i < n => LeNat(data[at + 4 * i..at + 4 * i + 4]))
  }

  function Words64(data: seq<Byte>, at: nat, n: nat): (w: seq<nat>)
    requires at + 8 * n <= |data|
    ensures |w| == n
  {
    seq(n, i requires 0 <= i < n => LeNat(data[at + 8 * i..at + 8 * i + 8]))
  }

  function EncodeWords(w: seq<nat>): (e: seq<Byte>)
    ensures |e| == 4 * |w|
  {
    if w == [] then [] else LeBytes(w[0], 4) + EncodeWords(w[1..])
  }

  predicate Fits32(w: seq<nat>) { forall i :: 0 <= i < |w| ==> w[i] < 0x1_0000_0000 }

  lemma {:induction false} WordsRoundTrip(data: seq<Byte>, at: nat, w: seq<nat>)
    requires At(data, at, EncodeWords(w)) && Fits32(w)
    ensures Words(data, at, |w|) == w
    decreases w
  {
    if w != [] {
      AtSplit(data, at, LeBytes(w[0], 4), EncodeWords(w[1..]));
      WordsRoundTrip(data, at + 4, w[1..]);
      Pow256Values();
      LeRoundTrip(w[0], 4);
      forall i | 0 <= i < |w| ensures Words(data, at, |w|)[i] == w[i] {
        if i > 0 {
          assert Words(data, at, |w|)[i] == Words(data, at + 4, |w| - 1)[i - 1];
        }
      }
    }
  }
}
