/**
 * The spectrum utilities of dsp.c: the running maximum of |F| that spectrogram
 * and composite_spectrum both scan for, and composite_spectrum's alpha blend of an
 * overlay image into the spectrum.
 */
module Spectrum {
  import opened Common
  import opened Layout

  /** M_E as math.h spells it. */
  const E: real := 2.71828182845904523536

  /** rsn_fabs. */
  function Abs(x: real): (r: real)
    ensures r >= 0.0 && (r == x || r == -x)
  {
    if x < 0.0 then -x else x
  }

  /** The number of entries the scan looks at: F[0] always, then F[1..count-1]. */
  function Reach(count: nat): (r: nat)
    ensures r >= 1 && r >= count && (count > 0 ==> r == count)
  {
    if count == 0 then 1 else count
  }

  /** The running maximum of |s[0]|, ..., |s[k-1]|, replaced only by a strictly larger value. */
  function Peak(s: seq<real>, k: nat): real
    requires 1 <= k <= |s|
  {
    if k == 1 then Abs(s[0])
    else if Abs(s[k - 1]) > Peak(s, k - 1) then Abs(s[k - 1])
    else Peak(s, k - 1)
  }

  /** The running maximum bounds every entry it has seen and is one of them. */
  lemma {:induction false} PeakBounds(s: seq<real>, k: nat)
    requires 1 <= k <= |s|
    ensures forall i :: 0 <= i < k ==> Abs(s[i]) <= Peak(s, k)
    ensures exists i :: 0 <= i < k && Peak(s, k) == Abs(s[i])
  {
    if k > 1 {
      PeakBounds(s, k - 1);
      if Abs(s[k - 1]) > Peak(s, k - 1) {
        assert Peak(s, k) == Abs(s[k - 1]);
      } else {
        var i :| 0 <= i < k - 1 && Peak(s, k - 1) == Abs(s[i]);
        assert Peak(s, k) == Abs(s[i]);
      }
    } else {
      assert Peak(s, 1) == Abs(s[0]);
    }
  }

  /**
   * The max scan of spectrogram and composite_spectrum: |F[0]| and then every
   * |F[i]| for 0 < i < count. The result bounds every scanned entry and is one of them.
   */
  method MaxAbs(F: array<real>, count: nat) returns (max: real)
    requires 0 < F.Length && count <= F.Length
    ensures max == Peak(F[..], Reach(count))
    ensures forall i :: 0 <= i < Reach(count) ==> Abs(F[i]) <= max
    ensures exists i :: 0 <= i < Reach(count) && max == Abs(F[i])
  {
    max := Abs(F[0]);
    var i := 1;
    while i < count
      invariant 1 <= i <= Reach(count)
      invariant max == Peak(F[..], i)
    {
      if Abs(F[i]) > max {
        max := Abs(F[i]);
      }
      i := i + 1;
    }
    PeakBounds(F[..], Reach(count));
  }

  /**
   * The overlay stride A of composite_spectrum: the overlay carries an alpha
   * channel after the L spectral channels when L is odd, and in place of the last
   * one when L is even, so A is the least even number not below L.
   */
  function Stride(L: nat): (A: nat)
    ensures A % 2 == 0 && L <= A <= L + 1
  {
    if L % 2 == 1 then L + 1 else L
  }

  /** composite_spectrum's choice of a and A: the alpha index is always the last slot of a pixel. */
  method OverlayLayout(L: nat) returns (a: int, A: int)
    ensures A == Stride(L) && a == A - 1
    ensures L % 2 == 1 ==> a == L
    ensures L % 2 == 0 ==> a == L - 1
  {
    a, A := L - 1, L;
    if L % 2 == 1 {
      a, A := L, L + 1;
    }
  }

  /** Sample o of row y of an overlay, 0 outside it. */
  function Sample(img: seq<seq<Pel>>, y: nat, o: nat): Pel {
    if y < |img| && o < |img[y]| then img[y][o] else 0
  }

  /**
   * The overlay value of composite_spectrum for sample p: with lg = log(max + 1),
   * p / c for c = 255 / lg is p * lg / 255 (and 0 when lg = 0, where c is infinite).
   */
  function OverlayTerm(m: Libm, lg: real, M: nat, N: nat, p: Pel): real
    requires m.Sane() && M * N > 0
  {
    (m.pow(E, (p as real) * lg / 255.0) - 1.0) * 0.5 / m.sqrt((M * N) as real)
  }

  /**
   * The blend of composite_spectrum: overlay value t weighted by alpha / 255 plus
   * the old coefficient weighted by (255 - alpha) / 255. Alpha 0 keeps the previous
   * coefficient, alpha 255 replaces it, and every result lies between the two.
   */
  function Blend(t: real, alpha: Pel, prev: real): (r: real)
    ensures alpha == 0 ==> r == prev
    ensures alpha == 255 ==> r == t
    ensures (t <= r <= prev) || (prev <= r <= t)
  {
    BlendBetween(t, alpha, prev);
    Weighted(t, alpha, prev)
  }

  /** t * alpha / 255 + prev * (255 - alpha) / 255, as composite_spectrum computes it. */
  function Weighted(t: real, alpha: Pel, prev: real): real {
    t * (alpha as real) / 255.0 + prev * (255.0 - (alpha as real)) / 255.0
  }

  /** The weighted sum moves prev towards t by the fraction alpha / 255. */
  lemma BlendBetween(t: real, alpha: Pel, prev: real)
    ensures alpha == 0 ==> Weighted(t, alpha, prev) == prev
    ensures alpha == 255 ==> Weighted(t, alpha, prev) == t
    ensures (t <= Weighted(t, alpha, prev) <= prev) || (prev <= Weighted(t, alpha, prev) <= t)
  {
    var q := (alpha as real) / 255.0;
    var r := Weighted(t, alpha, prev);
    assert 0.0 <= q <= 1.0;
    assert r == t * q + prev * (1.0 - q);
    if alpha == 0 {
      assert q == 0.0;
    } else if alpha == 255 {
      assert q == 1.0;
    }
    if t <= prev {
      NonNegativeProduct(prev - t, q);
      NonNegativeProduct(prev - t, 1.0 - q);
      assert r - t == (prev - t) * (1.0 - q) && prev - r == (prev - t) * q;
    } else {
      NonNegativeProduct(t - prev, q);
      NonNegativeProduct(t - prev, 1.0 - q);
      assert t - r == (t - prev) * (1.0 - q) && r - prev == (t - prev) * q;
    }
  }

  lemma NonNegativeProduct(a: real, b: real)
    requires a >= 0.0 && b >= 0.0
    ensures a * b >= 0.0
  {
  }

  /** What composite_spectrum stores in coefficient k that held x, for lg = log(max + 1). */
  function BlendAt(m: Libm, lg: real, L: nat, M: nat, N: nat, overlay: seq<seq<Pel>>, k: nat, x: real): real
    requires m.Sane()
  {
    var A, y, c, z := Stride(L), Row(M, N, k), Col(N, k), Chan(M, N, k);
    if M * N == 0 || A == 0 then x
    else Blend(OverlayTerm(m, lg, M, N, Sample(overlay, y, Offset(A, c, z))),
               Sample(overlay, y, Offset(A, c, A - 1)), x)
  }

  /** S with every coefficient k in [lo, hi) blended as composite_spectrum blends it. */
  ghost function BlendRange(m: Libm, lg: real, L: nat, M: nat, N: nat, overlay: seq<seq<Pel>>,
                            S: seq<real>, lo: nat, hi: nat): (r: seq<real>)
    requires m.Sane()
    ensures |r| == |S|
  {
    seq(|S|, k requires 0 <= k < |S| => if lo <= k < hi then BlendAt(m, lg, L, M, N, overlay, k, S[k]) else S[k])
  }

  /** Blending nothing changes nothing. */
  lemma BlendRangeEmpty(m: Libm, lg: real, L: nat, M: nat, N: nat, overlay: seq<seq<Pel>>, S: seq<real>, lo: nat)
    requires m.Sane()
    ensures BlendRange(m, lg, L, M, N, overlay, S, lo, lo) == S
  {
  }

  /** Blending coefficient hi next extends the blended range by one. */
  lemma BlendRangeStep(m: Libm, lg: real, L: nat, M: nat, N: nat, overlay: seq<seq<Pel>>,
                       S: seq<real>, lo: nat, hi: nat, v: real)
    requires m.Sane() && lo <= hi < |S| && v == BlendAt(m, lg, L, M, N, overlay, hi, S[hi])
    ensures BlendRange(m, lg, L, M, N, overlay, S, lo, hi)[hi := v] == BlendRange(m, lg, L, M, N, overlay, S, lo, hi + 1)
  {
  }

  /** Blending [a, b) and then [b, c) is blending [a, c). */
  lemma BlendRangeJoin(m: Libm, lg: real, L: nat, M: nat, N: nat, overlay: seq<seq<Pel>>,
                       S: seq<real>, a: nat, b: nat, c: nat)
    requires m.Sane() && a <= b <= c
    ensures BlendRange(m, lg, L, M, N, overlay, BlendRange(m, lg, L, M, N, overlay, S, a, b), b, c)
            == BlendRange(m, lg, L, M, N, overlay, S, a, c)
  {
  }

  /** composite_spectrum's x loop: the N coefficients of row y of channel z are blended. */
  method CompositeLine(L: nat, M: nat, N: nat, F: array<real>, overlay: seq<seq<Pel>>, m: Libm, lg: real,
                       a: int, A: int, z: nat, y: nat)
    requires m.Sane() && z < L && y < M && L * M * N <= F.Length
    requires A == Stride(L) && a == A - 1 && Fits(overlay, M, N * A)
    modifies F
    ensures F[..] == BlendRange(m, lg, L, M, N, overlay, old(F[..]), PlaneIndex(M, N, z, y, 0), PlaneIndex(M, N, z, y + 1, 0))
  {
    PlaneIndexStep(M, N, z, y);
    ghost var start := PlaneIndex(M, N, z, y, 0);
    ghost var S := F[..];
    BlendRangeEmpty(m, lg, L, M, N, overlay, S, start);
    var x := 0;
    while x < N
      invariant x <= N
      invariant F[..] == BlendRange(m, lg, L, M, N, overlay, S, start, start + x)
    {
      PlaneIndexAsWritten(M, N, z, y, x);
      PlaneIndexBound(L, M, N, z, y, x);
      PlaneIndexDecode(M, N, z, y, x);
      OffsetBound(A, N, x, z);
      OffsetBound(A, N, x, a);
      MulMono(1, M, N);
      var k := z * M * N + y * N + x;
      assert k == start + x && F[k] == S[k];
      var v := Blend(OverlayTerm(m, lg, M, N, overlay[y][x * A + z]), overlay[y][x * A + a], F[k]);
      BlendRangeStep(m, lg, L, M, N, overlay, S, start, k, v);
      F[k] := v;
      x := x + 1;
    }
  }

  /** composite_spectrum's y loop: the M x N coefficients of channel z are blended. */
  method CompositePlane(L: nat, M: nat, N: nat, F: array<real>, overlay: seq<seq<Pel>>, m: Libm, lg: real,
                        a: int, A: int, z: nat)
    requires m.Sane() && z < L && L * M * N <= F.Length
    requires A == Stride(L) && a == A - 1 && Fits(overlay, M, N * A)
    modifies F
    ensures F[..] == BlendRange(m, lg, L, M, N, overlay, old(F[..]), PlaneIndex(M, N, z, 0, 0), PlaneIndex(M, N, z + 1, 0, 0))
  {
    PlaneIndexStep(M, N, z, M);
    ghost var start := PlaneIndex(M, N, z, 0, 0);
    ghost var S := F[..];
    BlendRangeEmpty(m, lg, L, M, N, overlay, S, start);
    var y := 0;
    while y < M
      invariant y <= M
      invariant F[..] == BlendRange(m, lg, L, M, N, overlay, S, start, PlaneIndex(M, N, z, y, 0))
    {
      CompositeLine(L, M, N, F, overlay, m, lg, a, A, z, y);
      PlaneIndexNext(M, N, z, y);
      BlendRangeJoin(m, lg, L, M, N, overlay, S, start, PlaneIndex(M, N, z, y, 0), PlaneIndex(M, N, z, y + 1, 0));
      y := y + 1;
    }
  }

  /** composite_spectrum's z loop: every one of the L * M * N coefficients is blended. */
  method CompositeAll(L: nat, M: nat, N: nat, F: array<real>, overlay: seq<seq<Pel>>, m: Libm, lg: real,
                      a: int, A: int)
    requires m.Sane() && L * M * N <= F.Length
    requires A == Stride(L) && a == A - 1 && Fits(overlay, M, N * A)
    modifies F
    ensures F[..] == BlendRange(m, lg, L, M, N, overlay, old(F[..]), 0, L * M * N)
  {
    ghost var S := F[..];
    BlendRangeEmpty(m, lg, L, M, N, overlay, S, 0);
    MulMono(0, M, N);
    var z := 0;
    while z < L
      invariant z <= L
      invariant F[..] == BlendRange(m, lg, L, M, N, overlay, S, 0, PlaneIndex(M, N, z, 0, 0))
    {
      CompositePlane(L, M, N, F, overlay, m, lg, a, A, z);
      PlaneIndexNext(M, N, z, 0);
      BlendRangeJoin(m, lg, L, M, N, overlay, S, 0, PlaneIndex(M, N, z, 0, 0), PlaneIndex(M, N, z + 1, 0, 0));
      z := z + 1;
    }
    PlaneIndexEnd(L, M, N);
  }

  /** lg = log(max + 1) for the max scan of the first count coefficients. */
  method LogPeak(F: array<real>, count: nat, m: Libm) returns (lg: real)
    requires 0 < F.Length && count <= F.Length
    ensures lg == m.log(Peak(F[..], Reach(count)) + 1.0)
  {
    var max := MaxAbs(F, count);
    lg := m.log(max + 1.0);
  }

  /**
   * composite_spectrum: with max the largest |F[i]| over the spectrum, every
   * coefficient is replaced by the blend of its overlay value and itself under the
   * overlay's alpha at the same pixel; the overlay has stride A and alpha at A - 1.
   */
  method Composite(L: nat, M: nat, N: nat, F: array<real>, overlay: seq<seq<Pel>>, m: Libm)
    requires m.Sane() && 0 < F.Length && L * M * N <= F.Length && Fits(overlay, M, N * Stride(L))
    modifies F
    ensures forall k :: 0 <= k < F.Length ==>
              F[k] == (if k < L * M * N
                       then BlendAt(m, m.log(Peak(old(F[..]), Reach(L * M * N)) + 1.0), L, M, N, overlay, k, old(F[k]))
                       else old(F[k]))
  {
    var a, A := OverlayLayout(L);
    var lg := LogPeak(F, L * M * N, m);
    ghost var S := F[..];
    CompositeAll(L, M, N, F, overlay, m, lg, a, A);
    forall k | 0 <= k < F.Length
      ensures F[k] == (if k < L * M * N then BlendAt(m, lg, L, M, N, overlay, k, S[k]) else S[k])
    {
      assert F[k] == BlendRange(m, lg, L, M, N, overlay, S, 0, L * M * N)[k];
    }
  }
}
