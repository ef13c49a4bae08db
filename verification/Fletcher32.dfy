// The Fletcher-32 checksum with deferred carries in two 32-bit accumulators,
// its closed form, and what it detects.

module Fletcher32 {
  import opened Arithmetic
  import opened Common

  const WRAP: nat := 0x1_0000_0000
  const BLOCK: nat := 360

  /** Number of 16-bit words; a trailing odd byte counts as one. */
  function WordCount(data: seq<Byte>): nat { (|data| + 1) / 2 }

  /** Word `i`, high byte first; the low half of a trailing odd byte is zero. */
  function Word(data: seq<Byte>, i: nat): (w: nat)
    requires i < WordCount(data)
    ensures w < 0x1_0000
  {
    (data[2 * i] as nat) * 256 + if 2 * i + 1 < |data| then data[2 * i + 1] else 0
  }

  /** Sum of the first `k` words. */
  function Sum(data: seq<Byte>, k: nat): nat
    requires k <= WordCount(data)
  {
    if k == 0 then 0 else Sum(data, k - 1) + Word(data, k - 1)
  }

  /** Sum of the first `k` running sums. */
  function SumOfSums(data: seq<Byte>, k: nat): nat
    requires k <= WordCount(data)
  {
    if k == 0 then 0 else SumOfSums(data, k - 1) + Sum(data, k)
  }

  /** The representative the carry folds settle on: 0 for 0, else 1..65535. */
  function Canon(x: nat): nat { if x == 0 then 0 else (x - 1) % 65535 + 1 }

  /** Closed form of the checksum. */
  function Checksum(data: seq<Byte>): (c: nat)
    ensures c < WRAP
  {
    Canon(SumOfSums(data, WordCount(data))) * 0x1_0000 + Canon(Sum(data, WordCount(data)))
  }

  // ------------------------------------------------------------------
  // Carry folds
  // ------------------------------------------------------------------

  /** `(x & 0xffff) + (x >> 16)`. */
  function Fold(x: nat): nat { x % 0x1_0000 + x / 0x1_0000 }

  /** `acc` stands for the unbounded sum `x`: same residue, and zero together. */
  predicate Stands(acc: nat, x: nat) {
    acc % 65535 == x % 65535 && (acc == 0 <==> x == 0)
  }

  lemma FoldStands(acc: nat, x: nat)
    requires Stands(acc, x)
    ensures Stands(Fold(acc), x)
  {
    assert acc == Fold(acc) + 65535 * (acc / 0x1_0000);
    AddMultiple(Fold(acc), 65535, acc / 0x1_0000);
  }

  lemma AddStands(acc: nat, x: nat, acc': nat, x': nat)
    requires Stands(acc, x) && Stands(acc', x')
    ensures Stands(acc + acc', x + x')
  {
    ModAdd(acc, acc', 65535);
    ModAdd(x, x', 65535);
  }

  lemma CanonFromStands(acc: nat, x: nat)
    requires Stands(acc, x) && acc <= 65535
    ensures acc == Canon(x)
  {
    if x > 0 {
      ModAdd(x - 1, 1, 65535);
    }
  }

  // ------------------------------------------------------------------
  // The accumulator loop
  // ------------------------------------------------------------------

  /** Largest values the accumulators hold between blocks. */
  const MAX1: nat := 65896
  const MAX2: nat := 131070

  /** Largest second accumulator after `k` words of a block: the first one
      grows by at most 65535 a word. */
  function Peak2(k: nat): nat { if k == 0 then MAX2 else Peak2(k - 1) + MAX1 + 65535 * k }

  lemma {:induction false} PeakClosedForm(k: nat)
    ensures 2 * Peak2(k) == 2 * MAX2 + 2 * MAX1 * k + 65535 * (k * (k + 1))
  {
    if k > 0 {
      PeakClosedForm(k - 1);
      assert k * (k + 1) == (k - 1) * k + 2 * k;
    }
  }

  lemma {:induction false} PeakMonotone(k: nat, l: nat)
    requires k <= l
    ensures Peak2(k) <= Peak2(l)
  {
    if k < l {
      PeakMonotone(k, l - 1);
    }
  }

  /** The deferred-carry bound: within a block of 360 words no 32-bit addition
      can wrap, whatever the data and however many blocks came before. */
  lemma BlockNeverWraps(k: nat)
    requires k <= BLOCK
    ensures MAX1 + 65535 * k < WRAP && Peak2(k) < WRAP
    ensures Fold(MAX1 + 65535 * BLOCK) <= MAX1
  {
    PeakMonotone(k, BLOCK);
    PeakClosedForm(BLOCK);
  }

  /** The 32-bit wrapping addition. */
  function Add32(a: nat, b: nat): nat { (a + b) % WRAP }

  lemma Add32Exact(a: nat, b: nat)
    requires a + b < WRAP
    ensures Add32(a, b) == a + b
  {
  }

  lemma FoldBounds(x1: nat, x2: nat)
    requires x1 <= MAX1 + 65535 * BLOCK && x2 < WRAP
    ensures Fold(x1) <= MAX1 && Fold(x2) <= MAX2
  {
  }

  lemma WordStands(w: nat)
    ensures Stands(w, w)
  {
  }

  /** Add one word to both accumulators; the additions wrap at 32 bits, but
      below the bounds they are exact. */
  method AddWord(ghost data: seq<Byte>, ghost k: nat, word: nat, s1: nat, s2: nat) returns (sum1: nat, sum2: nat)
    requires k < WordCount(data) && word == Word(data, k)
    requires Stands(s1, Sum(data, k)) && Stands(s2, SumOfSums(data, k))
    requires s1 + 65535 < WRAP && s1 + s2 + 65535 < WRAP
    ensures sum1 <= s1 + 65535 && sum2 == s2 + sum1
    ensures Stands(sum1, Sum(data, k + 1)) && Stands(sum2, SumOfSums(data, k + 1))
  {
    hide Stands, Add32, Word;
    WordStands(word);
    AddStands(s1, Sum(data, k), word, word);
    Add32Exact(s1, word);
    sum1 := Add32(s1, word);
    AddStands(s2, SumOfSums(data, k), sum1, Sum(data, k + 1));
    Add32Exact(s2, sum1);
    sum2 := Add32(s2, sum1);
  }

  /** One block of at most 360 words, then the carries are folded in. */
  method AccumulateBlock(data: seq<Byte>, start: nat, block: nat, s1: nat, s2: nat) returns (sum1: nat, sum2: nat)
    requires block <= BLOCK && 2 * (start + block) <= |data|
    requires s1 <= MAX1 && s2 <= MAX2
    requires Stands(s1, Sum(data, start)) && Stands(s2, SumOfSums(data, start))
    ensures sum1 <= MAX1 && sum2 <= MAX2
    ensures Stands(sum1, Sum(data, start + block)) && Stands(sum2, SumOfSums(data, start + block))
  {
    hide Stands, Fold, Sum, SumOfSums;
    sum1, sum2 := s1, s2;
    var i := 2 * start;
    var left: nat := block;
    while left > 0
      invariant left <= block && i == 2 * (start + (block - left)) && start + block <= WordCount(data)
      invariant sum1 <= MAX1 + 65535 * (block - left) && sum2 <= Peak2(block - left)
      invariant Stands(sum1, Sum(data, start + (block - left)))
      invariant Stands(sum2, SumOfSums(data, start + (block - left)))
    {
      ghost var k := block - left;
      var word := (data[i] as nat) * 256 + data[i + 1];
      assert word == Word(data, start + k);
      BlockNeverWraps(k + 1);
      sum1, sum2 := AddWord(data, start + k, word, sum1, sum2);
      i := i + 2;
      left := left - 1;
    }
    BlockNeverWraps(block);
    FoldStands(sum1, Sum(data, start + block));
    FoldStands(sum2, SumOfSums(data, start + block));
    FoldBounds(sum1, sum2);
    sum1, sum2 := Fold(sum1), Fold(sum2);
  }

  /** A trailing odd byte is the high half of one more word. */
  method AccumulateOdd(data: seq<Byte>, k: nat, s1: nat, s2: nat) returns (sum1: nat, sum2: nat)
    requires |data| == 2 * k + 1 && s1 <= MAX1 && s2 <= MAX2
    requires Stands(s1, Sum(data, k)) && Stands(s2, SumOfSums(data, k))
    ensures Fold(sum1) <= 65535 && Fold(sum2) <= 65535
    ensures Stands(sum1, Sum(data, k + 1)) && Stands(sum2, SumOfSums(data, k + 1))
  {
    hide Stands, Fold, Sum, SumOfSums;
    var word := (data[2 * k] as nat) * 256;
    sum1, sum2 := AddWord(data, k, word, s1, s2);
    FoldStands(sum1, Sum(data, k + 1));
    FoldStands(sum2, SumOfSums(data, k + 1));
    FoldsSettle(sum1, sum2);
    sum1, sum2 := Fold(sum1), Fold(sum2);
  }

  /** The checksum loop; every addition is the wrapping 32-bit one. */
  method Compute(data: seq<Byte>) returns (c: nat)
    ensures c == Checksum(data)
  {
    hide Stands, Fold, Canon, Sum, SumOfSums;
    var sum1: nat, sum2: nat := 0, 0;
    var words: nat := |data| / 2;
    var i: nat := 0;
    NothingStands(data);
    while words > 0
      invariant words <= |data| / 2 && i == |data| / 2 - words && |data| / 2 <= WordCount(data)
      invariant sum1 <= MAX1 && sum2 <= MAX2
      invariant Stands(sum1, Sum(data, i)) && Stands(sum2, SumOfSums(data, i))
    {
      var block := if words < BLOCK then words else BLOCK;
      words := words - block;
      sum1, sum2 := AccumulateBlock(data, i, block, sum1, sum2);
      i := i + block;
    }
    FoldsSettle(sum1, sum2);
    if |data| % 2 == 1 {
      sum1, sum2 := AccumulateOdd(data, i, sum1, sum2);
      i := i + 1;
    }
    assert i == WordCount(data);
    FoldStands(sum1, Sum(data, i));
    FoldStands(sum2, SumOfSums(data, i));
    sum1, sum2 := Fold(sum1), Fold(sum2);
    CanonFromStands(sum1, Sum(data, i));
    CanonFromStands(sum2, SumOfSums(data, i));
    c := sum2 * 0x1_0000 % WRAP + sum1;
  }

  lemma NothingStands(data: seq<Byte>)
    ensures Stands(0, Sum(data, 0)) && Stands(0, SumOfSums(data, 0))
  {
  }

  /** Accumulators after the last block, and after a trailing odd byte and its
      fold, are small enough for one more fold to bring them into 16 bits. */
  lemma FoldsSettle(x1: nat, x2: nat)
    ensures x1 <= MAX1 ==> Fold(x1) <= 65535
    ensures x2 <= MAX2 ==> Fold(x2) <= 65535
    ensures x1 <= MAX1 + 65535 ==> Fold(Fold(x1)) <= 65535
    ensures x2 <= MAX2 + MAX1 + 65535 ==> Fold(Fold(x2)) <= 65535
  {
  }

  // ------------------------------------------------------------------
  // Append and verify
  // ------------------------------------------------------------------

  function Appended(data: seq<Byte>): seq<Byte> { data + LeBytes(Checksum(data), 4) }

  method AppendFletcher32(data: seq<Byte>) returns (out: seq<Byte>)
    ensures out == Appended(data)
  {
    var checksum := Compute(data);
    out := data + LeBytes(checksum, 4);
  }

  function Verified(data: seq<Byte>): Result<seq<Byte>> {
    if |data| < 4 then Err(Corrupted)
    else
      var payload := data[..|data| - 4];
      if LeNat(data[|data| - 4..]) != Checksum(payload) then Err(Corrupted) else Ok(payload)
  }

  method VerifyFletcher32(data: seq<Byte>) returns (r: Result<seq<Byte>>)
    ensures r == Verified(data)
  {
    if |data| < 4 {
      return Err(Corrupted);
    }
    var payload := data[..|data| - 4];
    var stored := LeNat(data[|data| - 4..]);
    var computed := Compute(payload);
    if stored != computed {
      return Err(Corrupted);
    }
    return Ok(payload);
  }

  /** A payload followed by any 32-bit checksum verifies exactly when the
      checksum is its own. */
  lemma VerifiesExactly(payload: seq<Byte>, checksum: nat)
    requires checksum < WRAP
    ensures Verified(payload + LeBytes(checksum, 4))
      == if checksum == Checksum(payload) then Ok(payload) else Err(Corrupted)
  {
    hide Checksum;
    var data := payload + LeBytes(checksum, 4);
    Pow256Values();
    LeRoundTrip(checksum, 4);
    assert data[..|data| - 4] == payload;
    assert data[|data| - 4..] == LeBytes(checksum, 4);
  }

  lemma VerifyUndoesAppend(data: seq<Byte>)
    ensures Verified(Appended(data)) == Ok(data)
  {
    hide Checksum;
    VerifiesExactly(data, Checksum(data));
  }

  // ------------------------------------------------------------------
  // What the checksum detects
  // ------------------------------------------------------------------

  /** The two buffers differ at most in word `i`. */
  ghost predicate DifferAt(a: seq<Byte>, b: seq<Byte>, i: nat) {
    && |a| == |b| && i < WordCount(a)
    && forall k :: 0 <= k < WordCount(a) && k != i ==> Word(a, k) == Word(b, k)
  }

  lemma {:induction false} SumsDiffer(a: seq<Byte>, b: seq<Byte>, i: nat, k: nat)
    requires DifferAt(a, b, i) && k <= WordCount(a)
    ensures k <= i ==> Sum(b, k) == Sum(a, k) && SumOfSums(b, k) == SumOfSums(a, k)
    ensures k > i ==> Sum(b, k) == Sum(a, k) + Word(b, i) - Word(a, i)
    ensures k > i ==> SumOfSums(b, k) == SumOfSums(a, k) + (k - i) * (Word(b, i) - Word(a, i))
  {
    hide Word;
    if k > 0 {
      SumsDiffer(a, b, i, k - 1);
      var delta := Word(b, i) - Word(a, i);
      assert (k - i) * delta == (k - 1 - i) * delta + delta;
    }
  }

  lemma CanonResidue(x: nat)
    ensures Canon(x) % 65535 == x % 65535
    ensures Canon(x) == 0 <==> x == 0
    ensures Canon(x) <= 65535
  {
    if x > 0 {
      ModAdd(x - 1, 1, 65535);
      ModAdd((x - 1) % 65535, 1, 65535);
    }
  }

  /** Equal halves mean equal residues and zero together, and conversely. */
  lemma CanonEqual(x: nat, y: nat)
    ensures Canon(x) == Canon(y) <==> (x % 65535 == y % 65535 && (x == 0 <==> y == 0))
  {
    CanonResidue(x);
    CanonResidue(y);
    if x % 65535 == y % 65535 && x > 0 && y > 0 {
      assert Canon(x) % 65535 == Canon(y) % 65535;
    }
  }

  lemma ChecksumHalves(a: seq<Byte>, b: seq<Byte>)
    ensures Checksum(a) == Checksum(b) <==>
      (Canon(Sum(a, WordCount(a))) == Canon(Sum(b, WordCount(b)))
       && Canon(SumOfSums(a, WordCount(a))) == Canon(SumOfSums(b, WordCount(b))))
  {
    hide Sum, SumOfSums, Canon;
    CanonResidue(Sum(a, WordCount(a)));
    CanonResidue(Sum(b, WordCount(b)));
    CanonResidue(SumOfSums(a, WordCount(a)));
    CanonResidue(SumOfSums(b, WordCount(b)));
  }

  lemma {:induction false} SumBelowSums(data: seq<Byte>, k: nat)
    requires k <= WordCount(data)
    ensures Sum(data, k) <= SumOfSums(data, k)
    ensures forall i :: 0 <= i < k ==> Word(data, i) <= Sum(data, k)
    ensures Sum(data, k) == 0 ==> SumOfSums(data, k) == 0
  {
    if k > 0 {
      SumBelowSums(data, k - 1);
    }
  }

  lemma ModDiffer(x: nat, y: nat, d: int)
    requires y == x + d
    ensures y % 65535 == x % 65535 <==> d % 65535 == 0
  {
    var q, r := x / 65535, x % 65535;
    var e, f := d / 65535, d % 65535;
    assert y == 65535 * (q + e) + (r + f);
    if f == 0 {
      DivModUnique(y, 65535, q + e, r);
    } else if r + f < 65535 {
      DivModUnique(y, 65535, q + e, r + f);
    } else {
      DivModUnique(y, 65535, q + e + 1, r + f - 65535);
    }
  }

  lemma MultipleVanishes(k: nat, d: int)
    requires d % 65535 == 0
    ensures (k * d) % 65535 == 0
  {
    var e := d / 65535;
    assert d == 65535 * e;
    assert k * d == 65535 * (k * e) by {
      assert k * (65535 * e) == 65535 * (k * e);
    }
    DivModUnique(k * d, 65535, k * e, 0);
  }

  lemma SameWordCount(a: seq<Byte>, b: seq<Byte>)
    requires |a| == |b|
    ensures WordCount(a) == WordCount(b)
  {
  }

  /** A half survives a change of `d` exactly when the residue does and zero stays zero. */
  lemma HalfKept(x: nat, y: nat, d: int)
    requires y == x + d
    ensures Canon(x) == Canon(y) <==> d % 65535 == 0 && (x == 0 <==> y == 0)
  {
    hide Canon;
    CanonEqual(x, y);
    ModDiffer(x, y, d);
  }

  /** Exactly which single-word changes go unnoticed: the new word must be
      congruent to the old one modulo 65535 and, unless they are equal, some
      other word must be non-zero. */
  lemma OneWordChange(a: seq<Byte>, b: seq<Byte>, i: nat)
    requires DifferAt(a, b, i)
    ensures Verified(b + LeBytes(Checksum(a), 4)).Ok? <==>
      ((Word(b, i) - Word(a, i)) % 65535 == 0
       && (Word(a, i) == Word(b, i) || Sum(a, WordCount(a)) != Word(a, i)))
  {
    hide Word, Sum, SumOfSums, Canon, Checksum, Verified, LeBytes, WordCount;
    VerifiesExactly(b, Checksum(a));
    var n := WordCount(a);
    assert WordCount(b) == n by { SameWordCount(a, b); }
    SumsDiffer(a, b, i, n);
    ChecksumHalves(a, b);
    SumBelowSums(a, n);
    SumBelowSums(b, n);
    var d := Word(b, i) - Word(a, i);
    HalfKept(Sum(a, n), Sum(b, n), d);
    HalfKept(SumOfSums(a, n), SumOfSums(b, n), (n - i) * d);
    if d % 65535 == 0 {
      MultipleVanishes(n - i, d);
    }
  }

  /** Replacing a word by one that is not congruent to it is always rejected. */
  lemma IncongruentWordRejected(a: seq<Byte>, b: seq<Byte>, i: nat)
    requires DifferAt(a, b, i) && Word(a, i) % 65535 != Word(b, i) % 65535
    ensures Verified(b + LeBytes(Checksum(a), 4)) == Err(Corrupted)
  {
    hide Word, Sum, SumOfSums, Canon, Checksum, Verified, LeBytes;
    OneWordChange(a, b, i);
    ModDiffer(Word(a, i), Word(b, i), Word(b, i) - Word(a, i));
    VerifiesExactly(b, Checksum(a));
  }

  /** Exactly which exchanges of two words go unnoticed.  `mid` is `a` with word
      `i` overwritten by word `j`; overwriting word `j` then gives `b`. */
  lemma WordExchange(a: seq<Byte>, mid: seq<Byte>, b: seq<Byte>, i: nat, j: nat)
    requires i < j && DifferAt(a, mid, i) && DifferAt(mid, b, j)
    requires Word(mid, i) == Word(a, j) && Word(b, j) == Word(a, i)
    ensures Verified(b + LeBytes(Checksum(a), 4)).Ok? <==> ((j - i) * (Word(a, j) - Word(a, i))) % 65535 == 0
  {
    hide Word, Sum, SumOfSums, Canon, Checksum, Verified, LeBytes;
    VerifiesExactly(b, Checksum(a));
    var n := WordCount(a);
    SumsDiffer(a, mid, i, n);
    SumsDiffer(mid, b, j, n);
    assert Word(mid, j) == Word(a, j);
    var d := Word(a, j) - Word(a, i);
    assert (n - i) * d + (n - j) * (-d) == (j - i) * d;
    ChecksumHalves(a, b);
    CanonEqual(Sum(a, n), Sum(b, n));
    CanonEqual(SumOfSums(a, n), SumOfSums(b, n));
    SumBelowSums(a, n);
    SumBelowSums(b, n);
    ModDiffer(SumOfSums(a, n), SumOfSums(b, n), (j - i) * d);
  }
}
