// Row-major addressing of N-dimensional boxes: `row_major_strides` and
// `flat_to_coords`, and the mixed-radix bijection behind them.

module Grid {
  import opened Arithmetic

  /** Number of cells of a box. */
  function Product(dims: seq<nat>): nat {
    if dims == [] then 1 else dims[0] * Product(dims[1..])
  }

  predicate InBox(c: seq<nat>, dims: seq<nat>) {
    |c| == |dims| && forall d :: 0 <= d < |c| ==> c[d] < dims[d]
  }

  /** Row-major position of `c`: the sum of coordinate times stride. */
  function Ravel(dims: seq<nat>, c: seq<nat>): nat
    requires |c| == |dims|
  {
    if dims == [] then 0 else c[0] * Product(dims[1..]) + Ravel(dims[1..], c[1..])
  }

  /** Coordinates of a flat position; a zero stride leaves its coordinate 0. */
  function Unravel(dims: seq<nat>, flat: nat): (c: seq<nat>)
    ensures |c| == |dims|
  {
    hide Product;
    if dims == [] then []
    else
      var p := Product(dims[1..]);
      if p == 0 then [0] + Unravel(dims[1..], flat)
      else [flat / p] + Unravel(dims[1..], flat % p)
  }

  function Strides(dims: seq<nat>): (s: seq<nat>)
    ensures |s| == |dims|
    ensures forall d :: 0 <= d < |dims| ==> s[d] == Product(dims[d + 1..])
  {
    seq(|dims|, d requires 0 <= d < |dims| => Product(dims[d + 1..]))
  }

  // ------------------------------------------------------------------
  // The mixed-radix bijection
  // ------------------------------------------------------------------

  lemma {:induction false} RavelBound(dims: seq<nat>, c: seq<nat>)
    requires InBox(c, dims)
    ensures Ravel(dims, c) < Product(dims)
  {
    if dims != [] {
      RavelBound(dims[1..], c[1..]);
      MulLess(c[0], dims[0], Product(dims[1..]), Ravel(dims[1..], c[1..]));
    }
  }

  lemma {:induction false} UnravelInBox(dims: seq<nat>, flat: nat)
    requires flat < Product(dims)
    ensures InBox(Unravel(dims, flat), dims)
    ensures Ravel(dims, Unravel(dims, flat)) == flat
  {
    if dims != [] {
      var p := Product(dims[1..]);
      assert flat < dims[0] * p && p > 0;
      hide Product;
      DivBound(flat, dims[0], p);
      UnravelInBox(dims[1..], flat % p);
      var c := Unravel(dims, flat);
      assert c[1..] == Unravel(dims[1..], flat % p);
      assert forall d :: 1 <= d < |c| ==> c[d] == c[1..][d - 1] && dims[d] == dims[1..][d - 1];
    }
  }

  lemma {:induction false} UnravelRavel(dims: seq<nat>, c: seq<nat>)
    requires InBox(c, dims)
    ensures Unravel(dims, Ravel(dims, c)) == c
  {
    if dims != [] {
      var p, r := Product(dims[1..]), Ravel(dims[1..], c[1..]);
      RavelBound(dims[1..], c[1..]);
      DivModUnique(Ravel(dims, c), p, c[0], r);
      UnravelRavel(dims[1..], c[1..]);
      assert c == [c[0]] + c[1..];
    }
  }

  lemma RavelInjective(dims: seq<nat>, a: seq<nat>, b: seq<nat>)
    requires InBox(a, dims) && InBox(b, dims) && Ravel(dims, a) == Ravel(dims, b)
    ensures a == b
  {
    UnravelRavel(dims, a);
    UnravelRavel(dims, b);
  }

  /** Row-major order is lexicographic order. */
  lemma {:induction false} RavelMonotone(dims: seq<nat>, a: seq<nat>, b: seq<nat>, d: nat)
    requires InBox(a, dims) && InBox(b, dims)
    requires d < |dims| && a[..d] == b[..d] && a[d] < b[d]
    ensures Ravel(dims, a) < Ravel(dims, b)
  {
    var p := Product(dims[1..]);
    if d == 0 {
      RavelBound(dims[1..], a[1..]);
      MulLess(a[0], b[0], p, Ravel(dims[1..], a[1..]));
    } else {
      assert a[0] == a[..d][0] == b[..d][0] == b[0];
      assert a[1..][..d - 1] == a[..d][1..] == b[..d][1..] == b[1..][..d - 1];
      RavelMonotone(dims[1..], a[1..], b[1..], d - 1);
    }
  }

  lemma {:induction false} RavelWeaklyMonotone(dims: seq<nat>, a: seq<nat>, b: seq<nat>)
    requires |a| == |b| == |dims| && forall d :: 0 <= d < |a| ==> a[d] <= b[d]
    ensures Ravel(dims, a) <= Ravel(dims, b)
  {
    if dims != [] {
      RavelWeaklyMonotone(dims[1..], a[1..], b[1..]);
      MulMonotone(a[0], b[0], Product(dims[1..]));
    }
  }

  /** Two different coordinates first differ somewhere. */
  lemma {:induction false} FirstDifference(a: seq<nat>, b: seq<nat>) returns (d: nat)
    requires |a| == |b| && a != b
    ensures d < |a| && a[..d] == b[..d] && a[d] != b[d]
  {
    if a[0] != b[0] {
      d := 0;
    } else {
      assert a == [a[0]] + a[1..] && b == [b[0]] + b[1..];
      d := FirstDifference(a[1..], b[1..]);
      d := d + 1;
      assert a[..d] == [a[0]] + a[1..][..d - 1] && b[..d] == [b[0]] + b[1..][..d - 1];
    }
  }

  /** A smaller flat position has lexicographically smaller coordinates. */
  lemma UnravelLexicographic(dims: seq<nat>, f: nat, g: nat) returns (d: nat)
    requires f < g < Product(dims)
    ensures d < |dims| && Unravel(dims, f)[..d] == Unravel(dims, g)[..d]
    ensures Unravel(dims, f)[d] < Unravel(dims, g)[d]
  {
    hide Product, Ravel, Unravel;
    var a, b := Unravel(dims, f), Unravel(dims, g);
    UnravelInBox(dims, f);
    UnravelInBox(dims, g);
    d := FirstDifference(a, b);
    if b[d] < a[d] {
      RavelMonotone(dims, b, a, d);
    }
  }

  // ------------------------------------------------------------------
  // Odometer steps
  // ------------------------------------------------------------------

  lemma {:induction false} RavelZero(dims: seq<nat>, c: seq<nat>)
    requires |c| == |dims| && forall d :: 0 <= d < |c| ==> c[d] == 0
    ensures Ravel(dims, c) == 0
  {
    if dims != [] {
      RavelZero(dims[1..], c[1..]);
    }
  }

  lemma {:induction false} RavelLast(dims: seq<nat>, c: seq<nat>)
    requires |c| == |dims| && forall d :: 0 <= d < |c| ==> c[d] + 1 == dims[d]
    ensures Ravel(dims, c) + 1 == Product(dims)
  {
    if dims != [] {
      RavelLast(dims[1..], c[1..]);
      assert Product(dims) == (c[0] + 1) * Product(dims[1..]) == c[0] * Product(dims[1..]) + Product(dims[1..]);
    }
  }

  /** `b` follows `a`: digit `d` is incremented and the full digits after it wrap. */
  predicate Follows(dims: seq<nat>, a: seq<nat>, b: seq<nat>, d: nat)
    requires |a| == |b| == |dims|
  {
    && d < |dims|
    && a[..d] == b[..d]
    && b[d] == a[d] + 1
    && forall e :: d < e < |dims| ==> a[e] + 1 == dims[e] && b[e] == 0
  }

  lemma {:induction false} OdometerStep(dims: seq<nat>, a: seq<nat>, b: seq<nat>, d: nat)
    requires |a| == |b| == |dims| && Follows(dims, a, b, d)
    ensures Ravel(dims, b) == Ravel(dims, a) + 1
  {
    var p := Product(dims[1..]);
    if d == 0 {
      RavelZero(dims[1..], b[1..]);
      RavelLast(dims[1..], a[1..]);
      assert b[0] * p == a[0] * p + p;
    } else {
      assert a[0] == a[..d][0] == b[..d][0] == b[0];
      assert a[1..][..d - 1] == a[..d][1..] == b[..d][1..] == b[1..][..d - 1];
      OdometerStep(dims[1..], a[1..], b[1..], d - 1);
    }
  }

  lemma {:induction false} PositiveProduct(dims: seq<nat>)
    requires forall d :: 0 <= d < |dims| ==> dims[d] > 0
    ensures Product(dims) > 0
  {
    if dims != [] {
      PositiveProduct(dims[1..]);
    }
  }

  lemma {:induction false} ZeroProduct(dims: seq<nat>, d: nat)
    requires d < |dims| && dims[d] == 0
    ensures Product(dims) == 0
  {
    if d > 0 {
      ZeroProduct(dims[1..], d - 1);
    }
  }

  // ------------------------------------------------------------------
  // The source's loops
  // ------------------------------------------------------------------

  lemma ProductStep(dims: seq<nat>, d: nat)
    requires d < |dims|
    ensures Product(dims[d..]) == dims[d] * Product(dims[d + 1..])
  {
    assert dims[d..][1..] == dims[d + 1..];
  }

  method RowMajorStrides(dims: seq<nat>) returns (strides: seq<nat>)
    ensures strides == Strides(dims)
  {
    var n := |dims|;
    strides := seq(n, i => 1);
    if n == 0 {
      return;
    }
    var d := n - 1;
    assert dims[n..] == [];
    while d > 0
      invariant 0 <= d < n == |strides|
      invariant forall k :: d <= k < n ==> strides[k] == Product(dims[k + 1..])
    {
      d := d - 1;
      ProductStep(dims, d + 1);
      strides := strides[d := strides[d + 1] * dims[d + 1]];
    }
  }

  lemma UnravelStep(dims: seq<nat>, d: nat, rest: nat)
    requires d < |dims|
    ensures var p := Product(dims[d + 1..]);
      Unravel(dims[d..], rest) ==
        if p == 0 then [0] + Unravel(dims[d + 1..], rest) else [rest / p] + Unravel(dims[d + 1..], rest % p)
  {
    assert dims[d..][1..] == dims[d + 1..];
  }

  method FlatToCoords(flat: nat, dims: seq<nat>, strides: seq<nat>) returns (coords: seq<nat>)
    requires strides == Strides(dims)
    ensures coords == Unravel(dims, flat)
  {
    hide Product, Unravel;
    var ndims := |strides|;
    coords := seq(ndims, i => 0);
    var rest := flat;
    assert dims[0..] == dims;
    for d := 0 to ndims
      invariant |coords| == ndims
      invariant forall k :: d <= k < ndims ==> coords[k] == 0
      invariant coords[..d] + Unravel(dims[d..], rest) == Unravel(dims, flat)
    {
      ghost var before := coords;
      UnravelStep(dims, d, rest);
      if strides[d] != 0 {
        coords := coords[d := rest / strides[d]];
        rest := rest % strides[d];
      }
      assert coords[..d + 1] == before[..d] + [coords[d]];
    }
    assert coords[..ndims] == coords;
  }
}
