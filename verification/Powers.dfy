// Facts about powers.

module Powers {
  import opened Common

  lemma {:induction false} PowAdd(b: nat, m: nat, n: nat)
    ensures Pow(b, m + n) == Pow(b, m) * Pow(b, n)
  {
    if m > 0 {
      PowAdd(b, m - 1, n);
      MulAssoc(b, Pow(b, m - 1), Pow(b, n));
    }
  }

  lemma MulAssoc(a: int, b: int, c: int)
    ensures a * b * c == a * (b * c)
  {
  }

  lemma {:induction false} Pow256IsPow2(w: nat)
    ensures Pow(256, w) == Pow(2, 8 * w)
  {
    if w > 0 {
      Pow256IsPow2(w - 1);
      PowAdd(2, 8, 8 * (w - 1));
      assert Pow(2, 8) == 256 by {
        assert Pow(2, 4) == 16 by { assert Pow(2, 2) == 4 && Pow(2, 3) == 8; }
        assert Pow(2, 5) == 32 && Pow(2, 6) == 64 && Pow(2, 7) == 128;
      }
    }
  }

  lemma {:induction false} PowMonotone(b: nat, m: nat, n: nat)
    requires b > 0 && m <= n
    ensures Pow(b, m) <= Pow(b, n)
  {
    if m < n {
      PowMonotone(b, m, n - 1);
      assert Pow(b, n) == b * Pow(b, n - 1) >= Pow(b, n - 1);
    }
  }

  lemma SmallPowers()
    ensures Pow(2, 0) == 1 && Pow(2, 1) == 2 && Pow(2, 2) == 4 && Pow(2, 3) == 8
    ensures Pow(2, 4) == 16 && Pow(2, 5) == 32 && Pow(2, 6) == 64 && Pow(2, 7) == 128
  {
    assert Pow(2, 1) == 2 && Pow(2, 2) == 4 && Pow(2, 3) == 8;
    assert Pow(2, 4) == 16 && Pow(2, 5) == 32;
    assert Pow(2, 6) == 64 && Pow(2, 7) == 128;
  }

  lemma Pow64()
    ensures Pow(2, 64) == U64_MAX + 1
  {
    Pow256IsPow2(8);
    Pow256Values();
  }

  lemma PowZero()
    ensures Pow(2, 0) == 1
  {
  }

  lemma PowSucc(e: nat)
    ensures Pow(2, e + 1) == 2 * Pow(2, e)
  {
  }
}
