// Byte buffers seen as rows of fixed-size elements.

module Elements {
  import opened Arithmetic
  import opened Common

  // ------------------------------------------------------------------
  // Elements and guarded copies
  // ------------------------------------------------------------------

  /** The f-th element of `es` bytes, or nothing when it does not fit. */
  function Elem(buf: seq<Byte>, f: nat, es: nat): (e: seq<Byte>)
    ensures |e| == if Fits(buf, f, es) then es else 0
  {
    if f * es + es <= |buf| then buf[f * es..f * es + es] else []
  }

  predicate Fits(buf: seq<Byte>, f: nat, es: nat) { f * es + es <= |buf| }

  lemma ElemFits(buf: seq<Byte>, f: nat, n: nat, es: nat)
    requires |buf| == n * es && f < n
    ensures Fits(buf, f, es)
  {
    MulMonotone(f + 1, n, es);
  }

  lemma ElemsApart(f: nat, g: nat, es: nat)
    requires f < g
    ensures f * es + es <= g * es
  {
    MulMonotone(f + 1, g, es);
  }

  /** Buffers of `n` elements are equal when their elements are. */
  lemma ElemsEqual(a: seq<Byte>, b: seq<Byte>, n: nat, es: nat)
    requires |a| == n * es && |b| == n * es
    requires forall f: nat :: f < n ==> Elem(a, f, es) == Elem(b, f, es)
    ensures a == b
  {
    forall i | 0 <= i < |a| ensures a[i] == b[i] {
      assert es > 0;
      DivBound(i, n, es);
      var f := i / es;
      ElemFits(a, f, n, es);
      ElemFits(b, f, n, es);
      assert i == f * es + i % es;
      assert a[i] == Elem(a, f, es)[i % es];
      assert b[i] == Elem(b, f, es)[i % es];
      assert Elem(a, f, es) == Elem(b, f, es);
    }
  }

  function Patch(buf: seq<Byte>, at: nat, x: seq<Byte>): (r: seq<Byte>)
    requires at + |x| <= |buf|
    ensures |r| == |buf|
  {
    buf[..at] + x + buf[at + |x|..]
  }

  lemma PatchedElems(buf: seq<Byte>, dst: nat, x: seq<Byte>, f: nat)
    requires dst * |x| + |x| <= |buf|
    ensures Elem(Patch(buf, dst * |x|, x), f, |x|) == if f == dst then x else Elem(buf, f, |x|)
  {
    hide Patch;
    if f < dst {
      ElemsApart(f, dst, |x|);
    } else if dst < f {
      ElemsApart(dst, f, |x|);
    }
    PatchedSlice(buf, dst * |x|, x, f * |x|);
  }

  /** A window of the patch's length at the patch, or apart from it. */
  lemma PatchedSlice(buf: seq<Byte>, at: nat, x: seq<Byte>, from: nat)
    requires at + |x| <= |buf|
    ensures from == at ==> Patch(buf, at, x)[from..from + |x|] == x
    ensures from + |x| <= |buf| && (from + |x| <= at || at + |x| <= from) ==>
      Patch(buf, at, x)[from..from + |x|] == buf[from..from + |x|]
  {
  }

  /** The buffer after the guarded element copy shared by scatter and gather. */
  function Copied(buf: seq<Byte>, dst: nat, src: seq<Byte>, from: nat, es: nat): seq<Byte> {
    if Fits(src, from, es) && Fits(buf, dst, es) then Patch(buf, dst * es, Elem(src, from, es)) else buf
  }

  lemma CopiedElem(buf: seq<Byte>, dst: nat, src: seq<Byte>, from: nat, es: nat, f: nat)
    requires Fits(buf, dst, es)
    ensures Elem(Copied(buf, dst, src, from, es), f, es)
         == if f == dst && Fits(src, from, es) then Elem(src, from, es) else Elem(buf, f, es)
  {
    if Fits(src, from, es) {
      PatchedElems(buf, dst, Elem(src, from, es), f);
    }
  }

  /** `output[at..at + len].copy_from_slice(x)`. */
  method CopyBytes(output: array<Byte>, at: nat, x: seq<Byte>)
    requires at + |x| <= output.Length
    modifies output
    ensures output[..] == Patch(old(output[..]), at, x)
  {
    forall i | 0 <= i < |x| {
      output[at + i] := x[i];
    }
  }

  method CopyElem(output: array<Byte>, dst: nat, src: seq<Byte>, from: nat, es: nat)
    modifies output
    ensures output[..] == Copied(old(output[..]), dst, src, from, es)
  {
    var srcOff, dstOff := from * es, dst * es;
    if srcOff + es <= |src| && dstOff + es <= output.Length {
      CopyBytes(output, dstOff, src[srcOff..srcOff + es]);
    }
  }

  // ------------------------------------------------------------------
  // Buffers given element by element
  // ------------------------------------------------------------------

  function Concat(pieces: seq<seq<Byte>>): seq<Byte> {
    if pieces == [] then [] else Concat(pieces[..|pieces| - 1]) + pieces[|pieces| - 1]
  }

  lemma ElemOfAppend(a: seq<Byte>, x: seq<Byte>, n: nat, f: nat)
    requires |a| == n * |x| && f <= n
    ensures |a + x| == (n + 1) * |x|
    ensures Elem(a + x, f, |x|) == if f < n then Elem(a, f, |x|) else x
  {
    if f < n {
      ElemsApart(f, n, |x|);
    }
  }

  lemma {:induction false} ConcatElems(pieces: seq<seq<Byte>>, es: nat)
    requires forall f :: 0 <= f < |pieces| ==> |pieces[f]| == es
    ensures |Concat(pieces)| == |pieces| * es
    ensures forall f :: 0 <= f < |pieces| ==> Elem(Concat(pieces), f, es) == pieces[f]
  {
    hide Elem, Fits;
    if pieces != [] {
      var n := |pieces| - 1;
      ConcatElems(pieces[..n], es);
      forall f | 0 <= f < |pieces|
        ensures |Concat(pieces)| == |pieces| * es && Elem(Concat(pieces), f, es) == pieces[f]
      {
        ElemOfAppend(Concat(pieces[..n]), pieces[n], n, f);
        assert f < n ==> pieces[..n][f] == pieces[f];
      }
      ElemOfAppend(Concat(pieces[..n]), pieces[n], n, n);
    }
  }

  /** A buffer is the concatenation of the elements found in it. */
  lemma ConcatUnique(buf: seq<Byte>, pieces: seq<seq<Byte>>, es: nat)
    requires |buf| == |pieces| * es
    requires forall f :: 0 <= f < |pieces| ==> |pieces[f]| == es && Elem(buf, f, es) == pieces[f]
    ensures buf == Concat(pieces)
  {
    ConcatElems(pieces, es);
    ElemsEqual(buf, Concat(pieces), |pieces|, es);
  }

  lemma ZeroElem(n: nat, f: nat, es: nat)
    requires f < n
    ensures Elem(Zeros(n * es), f, es) == Zeros(es)
  {
    ElemFits(Zeros(n * es), f, n, es);
    ZeroSlice(n * es, f * es, es);
  }

  lemma ZeroSlice(len: nat, lo: nat, es: nat)
    requires lo + es <= len
    ensures Zeros(len)[lo..lo + es] == Zeros(es)
  {
  }

  method ZeroBuffer(n: nat, es: nat) returns (output: array<Byte>)
    ensures fresh(output) && output.Length == n * es
    ensures forall f: nat :: f < n ==> Elem(output[..], f, es) == Zeros(es)
  {
    output := new Byte[n * es](i => 0);
    assert output[..] == Zeros(n * es);
    forall f: nat | f < n ensures Elem(output[..], f, es) == Zeros(es) {
      ZeroElem(n, f, es);
    }
  }
}
