/**
 * The KISS FFT backend of core.c. The forward transform mirrors each channel of
 * the H x W image into an even-symmetric 2H x 2W grid, runs the real-input 2-D
 * FFT of KISS on it and unshifts the first H x W outputs into the plane-major
 * spectrum. The inverse rebuilds a half spectrum of 2H rows of W + 1 complex
 * values per channel from H x W coefficients, runs the inverse real FFT and
 * stores the top-left H x W block, divided by 4WH and clamped, into the image.
 * The FFTs are parameters; the model states which buffer entries the index
 * logic reads and writes and with what.
 */
module Kiss {
  import opened Common
  import opened Layout
  import Dsp
  import opened Stages

  /**
   * kiss_fftndr and kiss_fftndri configured for the 2H x 2W grid: the forward real
   * FFT yields 2H rows of W + 1 complex values, the inverse 2H rows of 2W reals.
   */
  datatype Kiss = Kiss(fftndr: (nat, nat, seq<real>) -> seq<Cpx>, fftndri: (nat, nat, seq<Cpx>) -> seq<real>)
  {
    /** The forward transform writes the whole complex buffer the code allocates for it. */
    ghost predicate Sane() {
      forall H: nat, W: nat, p: seq<real> :: |fftndr(H, W, p)| == 2 * H * (W + 1)
    }
  }

  // ---------------------------------------------------------------- the mirror

  /** Index i of a reflected axis of 2n entries maps back to entry i, or 2n - 1 - i past the edge. */
  function Reflect(n: nat, i: nat): (r: nat)
    ensures i < 2 * n ==> r < n
  {
    if i < n then i else if i < 2 * n then 2 * n - 1 - i else 0
  }

  /** Entry k of the mirrored grid of channel z: the image sample of the reflected row and column. */
  function MirrorAt(f: seq<seq<Pel>>, L: nat, H: nat, W: nat, z: nat, k: nat): real {
    if W == 0 then 0.0 else Dsp.Pixel(f, Reflect(H, k / (2 * W)), Offset(L, Reflect(W, k % (2 * W)), z))
  }

  /** The 2H x 2W even-symmetric extension of channel z the forward transform works on. */
  function Mirror(f: seq<seq<Pel>>, L: nat, H: nat, W: nat, z: nat): (m: seq<real>)
    ensures |m| == 2 * H * (2 * W)
  {
    seq(2 * H * (2 * W), k requires 0 <= k < 2 * H * (2 * W) => MirrorAt(f, L, H, W, z, k))
  }

  /** Entry (r, c) of the mirrored grid is the sample of row Reflect(H, r), column Reflect(W, c). */
  lemma MirrorDecode(f: seq<seq<Pel>>, L: nat, H: nat, W: nat, z: nat, r: nat, c: nat)
    requires r < 2 * H && c < 2 * W
    ensures RowMajor(r, c, 2 * W) < 2 * H * (2 * W)
    ensures Mirror(f, L, H, W, z)[RowMajor(r, c, 2 * W)] == Dsp.Pixel(f, Reflect(H, r), Offset(L, Reflect(W, c), z))
  {
    RowMajorBound(r, c, 2 * W, 2 * H);
    DivModUnique(RowMajor(r, c, 2 * W), r, c, 2 * W);
  }

  /** The mirrored grid is even about its horizontal and its vertical centre line. */
  lemma MirrorSymmetric(f: seq<seq<Pel>>, L: nat, H: nat, W: nat, z: nat, r: nat, c: nat)
    requires r < 2 * H && c < 2 * W
    ensures RowMajor(r, c, 2 * W) < 2 * H * (2 * W)
    ensures RowMajor(2 * H - 1 - r, c, 2 * W) < 2 * H * (2 * W)
    ensures RowMajor(r, 2 * W - 1 - c, 2 * W) < 2 * H * (2 * W)
    ensures Mirror(f, L, H, W, z)[RowMajor(2 * H - 1 - r, c, 2 * W)] == Mirror(f, L, H, W, z)[RowMajor(r, c, 2 * W)]
    ensures Mirror(f, L, H, W, z)[RowMajor(r, 2 * W - 1 - c, 2 * W)] == Mirror(f, L, H, W, z)[RowMajor(r, c, 2 * W)]
  {
    MirrorDecode(f, L, H, W, z, r, c);
    MirrorDecode(f, L, H, W, z, 2 * H - 1 - r, c);
    MirrorDecode(f, L, H, W, z, r, 2 * W - 1 - c);
    assert Reflect(H, 2 * H - 1 - r) == Reflect(H, r);
    assert Reflect(W, 2 * W - 1 - c) == Reflect(W, c);
  }

  /** The top-left H x W block of the mirrored grid is channel z of the image itself. */
  lemma MirrorTopLeft(f: seq<seq<Pel>>, L: nat, H: nat, W: nat, z: nat, y: nat, x: nat)
    requires Fits(f, H, W * L) && z < L && y < H && x < W
    ensures RowMajor(y, x, 2 * W) < 2 * H * (2 * W) && Offset(L, x, z) < |f[y]|
    ensures Mirror(f, L, H, W, z)[RowMajor(y, x, 2 * W)] == f[y][Offset(L, x, z)] as real
  {
    MirrorDecode(f, L, H, W, z, y, x);
    OffsetBound(L, W, x, z);
  }

  /**
   * While the mirror loop runs: the rows below y and their reflections below the
   * bottom edge are done, and so are columns below xc of row y and their
   * reflections right of the centre.
   */
  predicate MirrorDone(H: nat, W: nat, y: nat, xc: nat, r: nat, c: nat) {
    r < y || 2 * H - y <= r || (r == y && (c < xc || (W <= c && c < W + xc)))
  }

  function MirrorState(T: seq<real>, f: seq<seq<Pel>>, L: nat, H: nat, W: nat, z: nat, y: nat, xc: nat, k: nat): real
    requires k < |T|
  {
    if W > 0 && MirrorDone(H, W, y, xc, k / (2 * W), k % (2 * W)) then MirrorAt(f, L, H, W, z, k) else T[k]
  }

  /** The mirrored buffer part way through the loop, starting from contents T. */
  ghost function Mirroring(T: seq<real>, f: seq<seq<Pel>>, L: nat, H: nat, W: nat, z: nat, y: nat, xc: nat): (m: seq<real>)
    ensures |m| == |T|
  {
    seq(|T|, k requires 0 <= k < |T| => MirrorState(T, f, L, H, W, z, y, xc, k))
  }

  lemma MirrorStart(T: seq<real>, f: seq<seq<Pel>>, L: nat, H: nat, W: nat, z: nat)
    requires |T| == 2 * H * (2 * W)
    ensures Mirroring(T, f, L, H, W, z, 0, 0) == T
  {
    forall k | 0 <= k < |T|
      ensures MirrorState(T, f, L, H, W, z, 0, 0, k) == T[k]
    {
      RowMajorOnto(k, 2 * W, 2 * H);
    }
  }

  lemma MirrorEnd(T: seq<real>, f: seq<seq<Pel>>, L: nat, H: nat, W: nat, z: nat)
    requires |T| == 2 * H * (2 * W)
    ensures Mirroring(T, f, L, H, W, z, H, 0) == Mirror(f, L, H, W, z)
  {
  }

  /** Entry k of the mirror loop: column x of row y and its reflection at column 2W - 1 - x. */
  lemma MirrorStep(T: seq<real>, f: seq<seq<Pel>>, L: nat, H: nat, W: nat, z: nat, y: nat, x: nat, k: nat)
    requires Fits(f, H, W * L) && z < L && y < H && x < W && |T| == 2 * H * (2 * W) && k == RowMajor(y, x, 2 * W)
    ensures k + W < |T| && Offset(L, x, z) < |f[y]| && Offset(L, W - 1 - x, z) < |f[y]|
    ensures Mirroring(T, f, L, H, W, z, y, x)[k := f[y][Offset(L, x, z)] as real][k + W := f[y][Offset(L, W - 1 - x, z)] as real]
            == Mirroring(T, f, L, H, W, z, y, x + 1)
  {
    RowMajorBound(y, x + W, 2 * W, 2 * H);
    OffsetBound(L, W, x, z);
    OffsetBound(L, W, W - 1 - x, z);
    DivModUnique(k, y, x, 2 * W);
    DivModUnique(k + W, y, x + W, 2 * W);
    forall i | 0 <= i < |T| && i != k && i != k + W
      ensures MirrorState(T, f, L, H, W, z, y, x, i) == MirrorState(T, f, L, H, W, z, y, x + 1, i)
    {
      RowMajorOnto(i, 2 * W, 2 * H);
    }
  }

  /** The copies of regions [s, s + n) and [d, d + n) of A: memcpy(A + d, A + s, n). */
  function Copied(A: seq<real>, d: nat, s: nat, n: nat): (r: seq<real>)
    requires s + n <= |A|
    ensures |r| == |A|
  {
    seq(|A|, k requires 0 <= k < |A| => if d <= k < d + n then A[k - d + s] else A[k])
  }

  /** memcpy of n entries: the two regions may not overlap. */
  method Memcpy(a: array<real>, d: nat, s: nat, n: nat)
    requires s + n <= a.Length && d + n <= a.Length && (s + n <= d || d + n <= s)
    modifies a
    ensures a[..] == Copied(old(a[..]), d, s, n)
  {
    forall i | 0 <= i < n {
      a[d + i] := a[s + i];
    }
  }

  /** After the copy of finished row y onto row 2H - 1 - y, row y + 1 is next. */
  lemma MirrorCopyAt(T: seq<real>, f: seq<seq<Pel>>, L: nat, H: nat, W: nat, z: nat, y: nat, d: nat, s: nat, k: nat)
    requires y < H && |T| == 2 * H * (2 * W) && d == RowMajor(2 * H - 1 - y, 0, 2 * W) && s == RowMajor(y, 0, 2 * W)
    requires k < |T| && s + 2 * W <= |T|
    ensures Copied(Mirroring(T, f, L, H, W, z, y, W), d, s, 2 * W)[k] == Mirroring(T, f, L, H, W, z, y + 1, 0)[k]
  {
    RowMajorOnto(k, 2 * W, 2 * H);
    if d <= k < d + 2 * W {
      var c := k - d;
      DivModUnique(k, 2 * H - 1 - y, c, 2 * W);
      DivModUnique(s + c, y, c, 2 * W);
      assert Reflect(H, 2 * H - 1 - y) == y;
    } else if k / (2 * W) == 2 * H - 1 - y {
      assert false;
    }
  }

  lemma MirrorCopy(T: seq<real>, f: seq<seq<Pel>>, L: nat, H: nat, W: nat, z: nat, y: nat, d: nat, s: nat)
    requires y < H && |T| == 2 * H * (2 * W) && d == RowMajor(2 * H - 1 - y, 0, 2 * W) && s == RowMajor(y, 0, 2 * W)
    ensures s + 2 * W <= d && d + 2 * W <= |T|
    ensures Copied(Mirroring(T, f, L, H, W, z, y, W), d, s, 2 * W) == Mirroring(T, f, L, H, W, z, y + 1, 0)
  {
    PlaneIndexNext(2 * H, 2 * W, 0, y);
    MulMono(y + 1, 2 * H - 1 - y, 2 * W);
    MulMono(2 * H - 1 - y + 1, 2 * H, 2 * W);
    forall k | 0 <= k < |T|
      ensures Copied(Mirroring(T, f, L, H, W, z, y, W), d, s, 2 * W)[k] == Mirroring(T, f, L, H, W, z, y + 1, 0)[k]
    {
      MirrorCopyAt(T, f, L, H, W, z, y, d, s, k);
    }
  }

  /** One pass of the inner mirror loop: image[y][x*L + z] and image[y][(W-1-x)*L + z] into row y. */
  method MirrorCell(f: seq<seq<Pel>>, L: nat, H: nat, W: nat, z: nat, y: nat, x: nat, k: nat, m: array<real>,
                    ghost T: seq<real>)
    requires Fits(f, H, W * L) && z < L && y < H && x < W && m.Length == |T| == 2 * H * (2 * W)
    requires k == RowMajor(y, x, 2 * W) && m[..] == Mirroring(T, f, L, H, W, z, y, x)
    modifies m
    ensures m[..] == Mirroring(T, f, L, H, W, z, y, x + 1)
  {
    ghost var before := m[..];
    MirrorStep(T, f, L, H, W, z, y, x, k);
    m[k] := f[y][Offset(L, x, z)] as real;
    m[k + W] := f[y][Offset(L, W - 1 - x, z)] as real;
    assert m[..] == before[k := f[y][Offset(L, x, z)] as real][k + W := f[y][Offset(L, W - 1 - x, z)] as real];
  }

  /** Row y of the mirror loop: both halves of row y, then the copy of row y onto row 2H - 1 - y. */
  method MirrorLine(f: seq<seq<Pel>>, L: nat, H: nat, W: nat, z: nat, y: nat, base: nat, m: array<real>,
                    ghost T: seq<real>)
    requires Fits(f, H, W * L) && z < L && y < H && m.Length == |T| == 2 * H * (2 * W)
    requires base == RowMajor(y, 0, 2 * W) && m[..] == Mirroring(T, f, L, H, W, z, y, 0)
    modifies m
    ensures m[..] == Mirroring(T, f, L, H, W, z, y + 1, 0)
  {
    var x := 0;
    while x < W
      invariant x <= W && m[..] == Mirroring(T, f, L, H, W, z, y, x)
    {
      MirrorCell(f, L, H, W, z, y, x, base + x, m, T);
      x := x + 1;
    }
    var d := (2 * H - 1 - y) * (2 * W);
    MirrorCopy(T, f, L, H, W, z, y, d, base);
    Memcpy(m, d, base, 2 * W);
  }

  /** The mirror loop of rsn_decompose_kiss for channel z: the buffer becomes the mirrored grid, whatever it held. */
  method MirrorPlane(f: seq<seq<Pel>>, L: nat, H: nat, W: nat, z: nat, m: array<real>)
    requires Fits(f, H, W * L) && z < L && m.Length == 2 * H * (2 * W)
    modifies m
    ensures m[..] == Mirror(f, L, H, W, z)
  {
    ghost var T := m[..];
    MirrorStart(T, f, L, H, W, z);
    var y, base := 0, 0;
    while y < H
      invariant y <= H && base == RowMajor(y, 0, 2 * W) && m[..] == Mirroring(T, f, L, H, W, z, y, 0)
    {
      MirrorLine(f, L, H, W, z, y, base, m, T);
      y, base := y + 1, base + 2 * W;
    }
    MirrorEnd(T, f, L, H, W, z);
  }

  // ---------------------------------------------------------------- the forward shift

  /** EXP of the forward transform, -pi / (2 * W * H). */
  function ForwardExp(H: nat, W: nat): real
    requires H > 0 && W > 0
  {
    -PI / (2.0 * (W as real) * (H as real))
  }

  /** The shift angle of entry (y, x) as the code forms it: EXP * (x*W + y*H). */
  function ShiftAngle(e: real, H: nat, W: nat, y: nat, x: nat): real {
    e * ((x * W + y * H) as real)
  }

  /**
   * The angle the factorisation e^(-i pi x / 2W) * e^(-i pi y / 2H) of the shift calls
   * for at entry (y, x): the per-axis phases of the column and the row added.
   */
  function FactoredAngle(H: nat, W: nat, y: nat, x: nat): (a: real)
    requires H > 0 && W > 0
    ensures a == -PI * (x as real) / (2.0 * (W as real)) + -PI * (y as real) / (2.0 * (H as real))
  {
    ForwardExp(H, W) * ((x * H + y * W) as real)
  }

  /** The code's angle EXP * (x*W + y*H) is the factored one exactly on the diagonal x = y or for a square image. */
  lemma ShiftAngleFactoredIff(H: nat, W: nat, y: nat, x: nat)
    requires H > 0 && W > 0
    ensures ShiftAngle(ForwardExp(H, W), H, W, y, x) == FactoredAngle(H, W, y, x) <==> x == y || W == H
  {
    var e := ForwardExp(H, W);
    assert e < 0.0;
    assert ((x * W + y * H) as real) - ((x * H + y * W) as real) == ((x as real) - (y as real)) * ((W as real) - (H as real));
    assert ShiftAngle(e, H, W, y, x) - FactoredAngle(H, W, y, x) == e * (((x as real) - (y as real)) * ((W as real) - (H as real)));
  }

  /** A 1 x 2 image: at entry (0, 1) the code's angle is -pi/2 where the factorisation asks for -pi/4. */
  lemma ShiftAngleWide()
    ensures ShiftAngle(ForwardExp(1, 2), 1, 2, 0, 1) == -PI / 2.0
    ensures FactoredAngle(1, 2, 0, 1) == -PI / 4.0
    ensures ShiftAngle(ForwardExp(1, 2), 1, 2, 0, 1) != FactoredAngle(1, 2, 0, 1)
  {
  }

  /** The complex product of two values. */
  function Mul(a: Cpx, b: Cpx): Cpx {
    Cpx(a.r * b.r - a.i * b.i, a.r * b.i + a.i * b.r)
  }

  /** The real part of c times e^(i a): c.r cos a - c.i sin a. */
  function Unshift(c: Cpx, m: Libm, a: real): (v: real)
    ensures v == Mul(c, Cpx(m.cos(a), m.sin(a))).r
  {
    c.r * m.cos(a) - c.i * m.sin(a)
  }

  /** Coefficient (y, x) of one channel: the unshifted FFT output of row y, column x of the W + 1 wide buffer. */
  function ShiftedAt(C: seq<Cpx>, m: Libm, H: nat, W: nat, y: nat, x: nat): real
    requires H > 0 && W > 0
  {
    var k := RowMajor(y, x, W + 1);
    Unshift(if k < |C| then C[k] else Cpx(0.0, 0.0), m, ShiftAngle(ForwardExp(H, W), H, W, y, x))
  }

  /** The H x W plane of coefficients one channel's FFT output C yields. */
  function Shifted(C: seq<Cpx>, m: Libm, H: nat, W: nat): (P: seq<real>)
    requires H > 0 && W > 0
    ensures |P| == H * W
  {
    seq(H * W, k requires 0 <= k < H * W => ShiftedAt(C, m, H, W, k / W, k % W))
  }

  /** The coefficient planes rsn_decompose_kiss computes, one per channel. */
  ghost function KissPlanes(f: seq<seq<Pel>>, kiss: Kiss, m: Libm, L: nat, H: nat, W: nat): (P: seq<seq<real>>)
    requires H > 0 && W > 0
    ensures |P| == L
  {
    seq(L, z requires 0 <= z < L => Shifted(kiss.fftndr(H, W, Mirror(f, L, H, W, z)), m, H, W))
  }

  /** Coefficient (z, y, x) of the flattened planes is the unshifted output (y, x) of channel z. */
  lemma ShiftCell(P: seq<seq<real>>, L: nat, H: nat, W: nat, z: nat, y: nat, x: nat, C: seq<Cpx>, m: Libm, i: nat)
    requires H > 0 && W > 0 && z < L == |P| && y < H && x < W && P[z] == Shifted(C, m, H, W)
    requires |C| == 2 * H * (W + 1) && i == PlaneIndex(H, W, z, y, x)
    ensures i < L * H * W && RowMajor(y, x, W + 1) < |C|
    ensures Flatten(P, L, H, W)[i] == Unshift(C[RowMajor(y, x, W + 1)], m, ShiftAngle(ForwardExp(H, W), H, W, y, x))
  {
    FlattenAt(P, L, H, W, z, y, x);
    RowMajorBound(y, x, W, H);
    DivModUnique(RowMajor(y, x, W), y, x, W);
    RowMajorBound(y, x, W + 1, 2 * H);
  }

  /** One pass of the unshift loop: F[z*H*W + y*W + x] = Re(cpx[y*(W+1) + x] * e^(i EXP (x*W + y*H))). */
  method ShiftWrite(L: nat, H: nat, W: nat, z: nat, y: nat, x: nat, C: seq<Cpx>, m: Libm, e: real, F: array<real>,
                    i: nat, k: nat, ghost P: seq<seq<real>>, ghost S: seq<real>)
    requires H > 0 && W > 0 && e == ForwardExp(H, W) && z < L == |P| && y < H && x < W && P[z] == Shifted(C, m, H, W)
    requires |C| == 2 * H * (W + 1) && i == PlaneIndex(H, W, z, y, x) && k == RowMajor(y, x, W + 1)
    requires F.Length == |S| == L * H * W && F[..] == Overwritten(Flatten(P, L, H, W), S, i)
    modifies F
    ensures F[..] == Overwritten(Flatten(P, L, H, W), S, i + 1)
  {
    ShiftCell(P, L, H, W, z, y, x, C, m, i);
    OverwriteStep(Flatten(P, L, H, W), S, i);
    ghost var before := F[..];
    F[i] := Unshift(C[k], m, ShiftAngle(e, H, W, y, x));
    assert F[..] == before[i := Flatten(P, L, H, W)[i]];
  }

  /** Row y of the unshift loop of channel z. */
  method ShiftLine(L: nat, H: nat, W: nat, z: nat, y: nat, C: seq<Cpx>, m: Libm, e: real, F: array<real>, dst: nat,
                   ghost P: seq<seq<real>>, ghost S: seq<real>)
    requires H > 0 && W > 0 && e == ForwardExp(H, W) && z < L == |P| && y < H && P[z] == Shifted(C, m, H, W)
    requires |C| == 2 * H * (W + 1) && dst == PlaneIndex(H, W, z, y, 0) && F.Length == |S| == L * H * W
    requires F[..] == Overwritten(Flatten(P, L, H, W), S, dst)
    modifies F
    ensures F[..] == Overwritten(Flatten(P, L, H, W), S, dst + W)
  {
    var x, k := 0, y * (W + 1);
    while x < W
      invariant x <= W && k == RowMajor(y, x, W + 1)
      invariant F[..] == Overwritten(Flatten(P, L, H, W), S, dst + x)
    {
      ShiftWrite(L, H, W, z, y, x, C, m, e, F, dst + x, k, P, S);
      x, k := x + 1, k + 1;
    }
  }

  /** The unshift loop of channel z: the H x W coefficients of plane z of the spectrum. */
  method ShiftPlane(L: nat, H: nat, W: nat, z: nat, C: seq<Cpx>, m: Libm, e: real, F: array<real>, base: nat,
                    ghost P: seq<seq<real>>, ghost S: seq<real>)
    requires H > 0 && W > 0 && e == ForwardExp(H, W) && z < L == |P| && P[z] == Shifted(C, m, H, W)
    requires |C| == 2 * H * (W + 1) && base == PlaneIndex(H, W, z, 0, 0) && F.Length == |S| == L * H * W
    requires F[..] == Overwritten(Flatten(P, L, H, W), S, base)
    modifies F
    ensures base + H * W <= L * H * W
    ensures F[..] == Overwritten(Flatten(P, L, H, W), S, base + H * W)
  {
    PlaneIndexNext(H, W, z, 0);
    PlaneIndexEnd(L, H, W);
    MulMono(z + 1, L, H * W);
    var y, dst := 0, base;
    while y < H
      invariant y <= H && dst == PlaneIndex(H, W, z, y, 0)
      invariant F[..] == Overwritten(Flatten(P, L, H, W), S, dst)
    {
      ShiftLine(L, H, W, z, y, C, m, e, F, dst, P, S);
      PlaneIndexNext(H, W, z, y);
      y, dst := y + 1, dst + W;
    }
    PlaneIndexStep(H, W, z, H);
  }

  /**
   * rsn_decompose_kiss: every channel is mirrored, transformed by KISS and unshifted
   * into its plane of the spectrum, so the spectrum is the flattened KISS planes.
   */
  method Decompose(f: seq<seq<Pel>>, L: nat, H: nat, W: nat, kiss: Kiss, m: Libm, F: array<real>)
    requires H > 0 && W > 0 && Fits(f, H, W * L) && kiss.Sane() && F.Length == L * H * W
    modifies F
    ensures F[..] == Flatten(KissPlanes(f, kiss, m, L, H, W), L, H, W)
  {
    var mirrored := new real[2 * H * (2 * W)];
    var e := -PI / (2.0 * (W as real) * (H as real));
    ghost var P := KissPlanes(f, kiss, m, L, H, W);
    ghost var S := F[..];
    var z, base := 0, 0;
    while z < L
      invariant z <= L && base == PlaneIndex(H, W, z, 0, 0) && base <= L * H * W
      invariant F[..] == Overwritten(Flatten(P, L, H, W), S, base)
    {
      MirrorPlane(f, L, H, W, z, mirrored);
      var C := kiss.fftndr(H, W, mirrored[..]);
      ShiftPlane(L, H, W, z, C, m, e, F, base, P, S);
      z, base := z + 1, base + H * W;
    }
    PlaneIndexEnd(L, H, W);
    OverwriteAll(Flatten(P, L, H, W), S);
  }

  // ---------------------------------------------------------------- the inverse: zeroing, refilling, storing

  /** EXP of the inverse transform, pi / (2 * W * H). */
  function InverseExp(H: nat, W: nat): real
    requires H > 0 && W > 0
  {
    PI / (2.0 * (W as real) * (H as real))
  }

  /** v e^(i a), as the code builds the entries of the upper rows: (v cos a, v sin a). */
  function Rotated(v: real, m: Libm, a: real): Cpx {
    Cpx(v * m.cos(a), v * m.sin(a))
  }

  /** -v e^(i a), as the code builds the reflected rows: (v * -cos a, v * -sin a). */
  function Reflected(v: real, m: Libm, a: real): (c: Cpx)
    ensures c.r == -Rotated(v, m, a).r && c.i == -Rotated(v, m, a).i
  {
    Cpx(v * -m.cos(a), v * -m.sin(a))
  }

  /** Entry k of the 2H x (W + 1) complex buffer is in the Nyquist column W or the Nyquist row H. */
  predicate Nyquist(H: nat, W: nat, k: nat) {
    k % (W + 1) == W || k / (W + 1) == H
  }

  /** What the pre-zeroing establishes and the refill keeps: every Nyquist entry is zero. */
  ghost predicate NyquistZero(A: seq<Cpx>, H: nat, W: nat) {
    |A| == 2 * H * (W + 1) && forall k :: 0 <= k < |A| && Nyquist(H, W, k) ==> A[k] == Cpx(0.0, 0.0)
  }

  /**
   * Entry (r, c) of the half spectrum of the channel whose coefficients start at c0:
   * zero in column W and row H; row r < H holds coefficient (r, c) shifted by
   * e^(i a); row r > H holds coefficient (2H - r, c) shifted by -e^(i a), with
   * a = EXP * (c*W + r*H) in both cases.
   */
  function HalfAt(Fs: seq<real>, c0: nat, m: Libm, e: real, H: nat, W: nat, r: nat, c: nat): Cpx {
    if c == W || r == H || 2 * H <= r then Cpx(0.0, 0.0)
    else if r < H then
      Rotated(Dsp.Coef(Fs, c0 + RowMajor(r, c, W)), m, ShiftAngle(e, H, W, r, c))
    else
      Reflected(Dsp.Coef(Fs, c0 + RowMajor(2 * H - r, c, W)), m, ShiftAngle(e, H, W, r, c))
  }

  /** The buffer kiss_fftndri inverts for the channel whose coefficients start at c0. */
  function Half(Fs: seq<real>, c0: nat, m: Libm, e: real, H: nat, W: nat): (A: seq<Cpx>)
    ensures |A| == 2 * H * (W + 1)
  {
    seq(2 * H * (W + 1), k requires 0 <= k < 2 * H * (W + 1) => HalfAt(Fs, c0, m, e, H, W, k / (W + 1), k % (W + 1)))
  }

  /** The inverse planes rsn_recompose_kiss obtains, one 2H x 2W grid per channel. */
  ghost function KissInverse(Fs: seq<real>, kiss: Kiss, m: Libm, L: nat, H: nat, W: nat): (Q: seq<seq<real>>)
    requires H > 0 && W > 0
    ensures |Q| == L
  {
    seq(L, z requires 0 <= z < L => kiss.fftndri(H, W, Half(Fs, PlaneIndex(H, W, z, 0, 0), m, InverseExp(H, W), H, W)))
  }

  /**
   * The entries of the half spectrum: row y < H holds coefficient (y, x) of the
   * channel, and for 0 < y < H its reflection, row 2H - y, holds the same
   * coefficient with the sign flipped; column W and row H are zero.
   */
  lemma HalfEntries(Fs: seq<real>, c0: nat, m: Libm, e: real, H: nat, W: nat, y: nat, x: nat)
    requires y < H && x < W && c0 + RowMajor(y, x, W) < |Fs|
    ensures RowMajor(y, x, W + 1) < 2 * H * (W + 1) && RowMajor(2 * H - 1 - y, W, W + 1) < 2 * H * (W + 1)
    ensures RowMajor(H, x, W + 1) < 2 * H * (W + 1) && (0 < y ==> RowMajor(2 * H - y, x, W + 1) < 2 * H * (W + 1))
    ensures Half(Fs, c0, m, e, H, W)[RowMajor(y, x, W + 1)] == Rotated(Fs[c0 + RowMajor(y, x, W)], m, ShiftAngle(e, H, W, y, x))
    ensures 0 < y ==> (Half(Fs, c0, m, e, H, W)[RowMajor(2 * H - y, x, W + 1)]
                       == Reflected(Fs[c0 + RowMajor(y, x, W)], m, ShiftAngle(e, H, W, 2 * H - y, x)))
    ensures Half(Fs, c0, m, e, H, W)[RowMajor(H, x, W + 1)] == Cpx(0.0, 0.0)
    ensures Half(Fs, c0, m, e, H, W)[RowMajor(2 * H - 1 - y, W, W + 1)] == Cpx(0.0, 0.0)
  {
    RowMajorBound(y, x, W + 1, 2 * H);
    DivModUnique(RowMajor(y, x, W + 1), y, x, W + 1);
    RowMajorBound(H, x, W + 1, 2 * H);
    DivModUnique(RowMajor(H, x, W + 1), H, x, W + 1);
    RowMajorBound(2 * H - 1 - y, W, W + 1, 2 * H);
    DivModUnique(RowMajor(2 * H - 1 - y, W, W + 1), 2 * H - 1 - y, W, W + 1);
    if 0 < y {
      RowMajorBound(2 * H - y, x, W + 1, 2 * H);
      DivModUnique(RowMajor(2 * H - y, x, W + 1), 2 * H - y, x, W + 1);
    }
  }

  /** While the pre-zeroing runs: column W of the rows below y, and row H below column xc, are zero. */
  function ZeroState(T: seq<Cpx>, H: nat, W: nat, y: nat, xc: nat, k: nat): Cpx
    requires k < |T|
  {
    if (k % (W + 1) == W && k / (W + 1) < y) || (k / (W + 1) == H && k % (W + 1) < xc) then Cpx(0.0, 0.0) else T[k]
  }

  ghost function Zeroing(T: seq<Cpx>, H: nat, W: nat, y: nat, xc: nat): (A: seq<Cpx>)
    ensures |A| == |T|
  {
    seq(|T|, k requires 0 <= k < |T| => ZeroState(T, H, W, y, xc, k))
  }

  lemma ZeroColumnStep(T: seq<Cpx>, H: nat, W: nat, y: nat, k: nat)
    requires y < 2 * H && |T| == 2 * H * (W + 1) && k == RowMajor(y, W, W + 1)
    ensures k < |T| && Zeroing(T, H, W, y, 0)[k := Cpx(0.0, 0.0)] == Zeroing(T, H, W, y + 1, 0)
  {
    RowMajorBound(y, W, W + 1, 2 * H);
    DivModUnique(k, y, W, W + 1);
    forall i | 0 <= i < |T| && i != k
      ensures ZeroState(T, H, W, y, 0, i) == ZeroState(T, H, W, y + 1, 0, i)
    {
      RowMajorOnto(i, W + 1, 2 * H);
    }
  }

  lemma ZeroRowStep(T: seq<Cpx>, H: nat, W: nat, x: nat, k: nat)
    requires x < W && |T| == 2 * H * (W + 1) && k == RowMajor(H, x, W + 1) && 0 < H
    ensures k < |T| && Zeroing(T, H, W, 2 * H, x)[k := Cpx(0.0, 0.0)] == Zeroing(T, H, W, 2 * H, x + 1)
  {
    RowMajorBound(H, x, W + 1, 2 * H);
    DivModUnique(k, H, x, W + 1);
    forall i | 0 <= i < |T| && i != k
      ensures ZeroState(T, H, W, 2 * H, x, i) == ZeroState(T, H, W, 2 * H, x + 1, i)
    {
      RowMajorOnto(i, W + 1, 2 * H);
    }
  }

  lemma ZeroedNyquist(T: seq<Cpx>, H: nat, W: nat)
    requires |T| == 2 * H * (W + 1)
    ensures NyquistZero(Zeroing(T, H, W, 2 * H, W), H, W)
  {
    forall k | 0 <= k < |T| && Nyquist(H, W, k)
      ensures ZeroState(T, H, W, 2 * H, W, k) == Cpx(0.0, 0.0)
    {
      RowMajorOnto(k, W + 1, 2 * H);
    }
  }

  /**
   * The pre-zeroing of rsn_recompose_kiss: column W of all 2H rows, then row H for
   * x < W. Afterwards every Nyquist entry is zero and every other entry is as it was.
   */
  method PreZero(cpx: array<Cpx>, H: nat, W: nat)
    requires 0 < H && cpx.Length == 2 * H * (W + 1)
    modifies cpx
    ensures cpx[..] == Zeroing(old(cpx[..]), H, W, 2 * H, W) && NyquistZero(cpx[..], H, W)
  {
    ghost var T := cpx[..];
    assert cpx[..] == Zeroing(T, H, W, 0, 0);
    var y, k := 0, W;
    while y < 2 * H
      invariant y <= 2 * H && k == RowMajor(y, W, W + 1) && cpx[..] == Zeroing(T, H, W, y, 0)
    {
      ZeroColumnStep(T, H, W, y, k);
      cpx[k] := Cpx(0.0, 0.0);
      y, k := y + 1, k + W + 1;
    }
    var x, j := 0, H * (W + 1);
    while x < W
      invariant x <= W && j == RowMajor(H, x, W + 1) && cpx[..] == Zeroing(T, H, W, 2 * H, x)
    {
      ZeroRowStep(T, H, W, x, j);
      cpx[j] := Cpx(0.0, 0.0);
      x, j := x + 1, j + 1;
    }
    ZeroedNyquist(T, H, W);
  }

  /**
   * While a channel is refilled: the Nyquist entries, the rows below y and their
   * reflections above 2H - y, and columns below xc of rows y and 2H - y are done.
   */
  predicate FillDone(H: nat, W: nat, y: nat, xc: nat, r: nat, c: nat) {
    c == W || r == H || r < y || 2 * H - y < r || ((r == y || r == 2 * H - y) && c < xc)
  }

  function FillState(T: seq<Cpx>, Fs: seq<real>, c0: nat, m: Libm, e: real, H: nat, W: nat, y: nat, xc: nat, k: nat): Cpx
    requires k < |T|
  {
    if FillDone(H, W, y, xc, k / (W + 1), k % (W + 1)) then HalfAt(Fs, c0, m, e, H, W, k / (W + 1), k % (W + 1)) else T[k]
  }

  ghost function Filling(T: seq<Cpx>, Fs: seq<real>, c0: nat, m: Libm, e: real, H: nat, W: nat, y: nat, xc: nat): (A: seq<Cpx>)
    ensures |A| == |T|
  {
    seq(|T|, k requires 0 <= k < |T| => FillState(T, Fs, c0, m, e, H, W, y, xc, k))
  }

  lemma FillStart(T: seq<Cpx>, Fs: seq<real>, c0: nat, m: Libm, e: real, H: nat, W: nat)
    requires NyquistZero(T, H, W)
    ensures Filling(T, Fs, c0, m, e, H, W, 0, 0) == T
  {
    forall k | 0 <= k < |T|
      ensures FillState(T, Fs, c0, m, e, H, W, 0, 0, k) == T[k]
    {
      RowMajorOnto(k, W + 1, 2 * H);
    }
  }

  lemma FillEnd(T: seq<Cpx>, Fs: seq<real>, c0: nat, m: Libm, e: real, H: nat, W: nat)
    requires |T| == 2 * H * (W + 1)
    ensures Filling(T, Fs, c0, m, e, H, W, H, 0) == Half(Fs, c0, m, e, H, W)
  {
  }

  /** Row 0, column x: only the entry itself, row 0 has no reflection. */
  lemma FillFirstStep(T: seq<Cpx>, Fs: seq<real>, c0: nat, m: Libm, e: real, H: nat, W: nat, x: nat)
    requires 0 < H && x < W && |T| == 2 * H * (W + 1) && c0 + x < |Fs|
    ensures x < |T|
    ensures Filling(T, Fs, c0, m, e, H, W, 0, x)[x := Rotated(Fs[c0 + x], m, ShiftAngle(e, H, W, 0, x))]
            == Filling(T, Fs, c0, m, e, H, W, 0, x + 1)
  {
    RowMajorBound(0, x, W + 1, 2 * H);
    DivModUnique(x, 0, x, W + 1);
    forall i | 0 <= i < |T| && i != x
      ensures FillState(T, Fs, c0, m, e, H, W, 0, x, i) == FillState(T, Fs, c0, m, e, H, W, 0, x + 1, i)
    {
      RowMajorOnto(i, W + 1, 2 * H);
    }
  }

  /** Row y > 0, column x: the entry and its reflection in row 2H - y, both from coefficient (y, x). */
  lemma FillStep(T: seq<Cpx>, Fs: seq<real>, c0: nat, m: Libm, e: real, H: nat, W: nat, y: nat, x: nat,
                 k: nat, k': nat, i: nat)
    requires 0 < y < H && x < W && |T| == 2 * H * (W + 1)
    requires k == RowMajor(y, x, W + 1) && k' == RowMajor(2 * H - y, x, W + 1) && i == c0 + RowMajor(y, x, W) && i < |Fs|
    ensures k < |T| && k' < |T|
    ensures Filling(T, Fs, c0, m, e, H, W, y, x)[k := Rotated(Fs[i], m, ShiftAngle(e, H, W, y, x))]
                                                [k' := Reflected(Fs[i], m, ShiftAngle(e, H, W, 2 * H - y, x))]
            == Filling(T, Fs, c0, m, e, H, W, y, x + 1)
  {
    RowMajorBound(y, x, W + 1, 2 * H);
    RowMajorBound(2 * H - y, x, W + 1, 2 * H);
    DivModUnique(k, y, x, W + 1);
    DivModUnique(k', 2 * H - y, x, W + 1);
    forall j | 0 <= j < |T| && j != k && j != k'
      ensures FillState(T, Fs, c0, m, e, H, W, y, x, j) == FillState(T, Fs, c0, m, e, H, W, y, x + 1, j)
    {
      RowMajorOnto(j, W + 1, 2 * H);
    }
  }

  /** Once row y is done, with its reflection, row y + 1 is next. */
  lemma FillNext(T: seq<Cpx>, Fs: seq<real>, c0: nat, m: Libm, e: real, H: nat, W: nat, y: nat)
    requires y < H && |T| == 2 * H * (W + 1)
    ensures Filling(T, Fs, c0, m, e, H, W, y, W) == Filling(T, Fs, c0, m, e, H, W, y + 1, 0)
  {
    forall k | 0 <= k < |T|
      ensures FillState(T, Fs, c0, m, e, H, W, y, W, k) == FillState(T, Fs, c0, m, e, H, W, y + 1, 0, k)
    {
      RowMajorOnto(k, W + 1, 2 * H);
    }
  }

  /** Row 0 of the refill: cpx[x] = coefficient x of the channel times e^(i EXP x W). */
  method FillFirstRow(Fs: seq<real>, coeff: nat, m: Libm, e: real, H: nat, W: nat, cpx: array<Cpx>,
                      ghost T: seq<Cpx>) returns (next: nat)
    requires 0 < H && cpx.Length == |T| == 2 * H * (W + 1) && coeff + W <= |Fs|
    requires cpx[..] == Filling(T, Fs, coeff, m, e, H, W, 0, 0)
    modifies cpx
    ensures next == coeff + W && cpx[..] == Filling(T, Fs, coeff, m, e, H, W, 1, 0)
  {
    var x, p := 0, coeff;
    while x < W
      invariant x <= W && p == coeff + x && cpx[..] == Filling(T, Fs, coeff, m, e, H, W, 0, x)
    {
      FillFirstStep(T, Fs, coeff, m, e, H, W, x);
      cpx[x] := Rotated(Fs[p], m, ShiftAngle(e, H, W, 0, x));
      x, p := x + 1, p + 1;
    }
    FillNext(T, Fs, coeff, m, e, H, W, 0);
    next := p;
  }

  /** One pass of the refill of row y > 0: entry (y, x) and its reflection (2H - y, x), from the same coefficient. */
  method FillCell(Fs: seq<real>, c0: nat, m: Libm, e: real, H: nat, W: nat, y: nat, x: nat, p: nat, k: nat, k': nat,
                  cpx: array<Cpx>, ghost T: seq<Cpx>)
    requires 0 < y < H && x < W && cpx.Length == |T| == 2 * H * (W + 1)
    requires k == RowMajor(y, x, W + 1) && k' == RowMajor(2 * H - y, x, W + 1) && p == c0 + RowMajor(y, x, W) && p < |Fs|
    requires cpx[..] == Filling(T, Fs, c0, m, e, H, W, y, x)
    modifies cpx
    ensures cpx[..] == Filling(T, Fs, c0, m, e, H, W, y, x + 1)
  {
    FillStep(T, Fs, c0, m, e, H, W, y, x, k, k', p);
    ghost var before := cpx[..];
    cpx[k] := Rotated(Fs[p], m, ShiftAngle(e, H, W, y, x));
    cpx[k'] := Reflected(Fs[p], m, ShiftAngle(e, H, W, 2 * H - y, x));
    assert cpx[..] == before[k := Rotated(Fs[p], m, ShiftAngle(e, H, W, y, x))]
                            [k' := Reflected(Fs[p], m, ShiftAngle(e, H, W, 2 * H - y, x))];
  }

  /** Row y > 0 of the refill; the read position in the coefficients moves on by W. */
  method FillRow(Fs: seq<real>, c0: nat, m: Libm, e: real, H: nat, W: nat, y: nat, coeff: nat, cpx: array<Cpx>,
                 ghost T: seq<Cpx>) returns (next: nat)
    requires 0 < y < H && cpx.Length == |T| == 2 * H * (W + 1) && coeff == c0 + RowMajor(y, 0, W) && coeff + W <= |Fs|
    requires cpx[..] == Filling(T, Fs, c0, m, e, H, W, y, 0)
    modifies cpx
    ensures next == coeff + W && cpx[..] == Filling(T, Fs, c0, m, e, H, W, y + 1, 0)
  {
    var x, p, k, k' := 0, coeff, y * (W + 1), (2 * H - y) * (W + 1);
    while x < W
      invariant x <= W && p == coeff + x && k == RowMajor(y, x, W + 1) && k' == RowMajor(2 * H - y, x, W + 1)
      invariant cpx[..] == Filling(T, Fs, c0, m, e, H, W, y, x)
    {
      FillCell(Fs, c0, m, e, H, W, y, x, p, k, k', cpx, T);
      x, p, k, k' := x + 1, p + 1, k + 1, k' + 1;
    }
    FillNext(T, Fs, c0, m, e, H, W, y);
    next := p;
  }

  /**
   * The refill of one channel: row 0, then rows 1..H-1 with their reflections. The
   * read position in the coefficients moves on by H*W, and the buffer becomes the channel's half
   * spectrum whatever it held outside the Nyquist entries; those stay zero.
   */
  method FillChannel(Fs: seq<real>, coeff: nat, m: Libm, e: real, H: nat, W: nat, cpx: array<Cpx>) returns (next: nat)
    requires 0 < H && 0 < W && coeff + H * W <= |Fs| && NyquistZero(cpx[..], H, W)
    modifies cpx
    ensures next == coeff + H * W
    ensures cpx[..] == Half(Fs, coeff, m, e, H, W) && NyquistZero(cpx[..], H, W)
  {
    ghost var T := cpx[..];
    FillStart(T, Fs, coeff, m, e, H, W);
    MulMono(1, H, W);
    var p := FillFirstRow(Fs, coeff, m, e, H, W, cpx, T);
    var y := 1;
    while y < H
      invariant 1 <= y <= H && p == coeff + RowMajor(y, 0, W) && cpx[..] == Filling(T, Fs, coeff, m, e, H, W, y, 0)
    {
      MulMono(y + 1, H, W);
      p := FillRow(Fs, coeff, m, e, H, W, y, p, cpx, T);
      y := y + 1;
    }
    FillEnd(T, Fs, coeff, m, e, H, W);
    next := p;
  }

  /**
   * rsn_recompose_kiss: after the pre-zeroing, each channel's half spectrum is
   * rebuilt and inverted by KISS, and the top-left H x W block of the result,
   * divided by 4WH and clamped, becomes that channel of the first W*L samples of
   * every output row. The rest of each row is untouched.
   */
  method Recompose(Fs: seq<real>, L: nat, H: nat, W: nat, kiss: Kiss, m: Libm, rows: seq<array<Pel>>)
    requires 0 < H && 0 < W && L * H * W <= |Fs|
    requires |rows| == H && forall j :: 0 <= j < H ==> W * L <= rows[j].Length
    requires forall j, j' :: 0 <= j < j' < H ==> rows[j] != rows[j']
    modifies set j | 0 <= j < H :: rows[j]
    ensures forall j, o :: 0 <= j < H && 0 <= o < rows[j].Length ==>
              rows[j][o] == if o < W * L
                            then ClampPel(Normalise(AreaNormalisation(H, W),
                                                    Interleave(KissInverse(Fs, kiss, m, L, H, W), L, H, W, 2 * W)[j][o]))
                            else old(rows[j][o])
  {
    var nm := AreaNormalisation(H, W);
    ghost var Q := KissInverse(Fs, kiss, m, L, H, W);
    ghost var S := seq(H, j requires 0 <= j < H reads (if 0 <= j < |rows| then {rows[j]} else {}) => rows[j][..]);
    InversePlanes(Fs, L, H, W, kiss, m, rows, nm, Q, S);
    forall j, o | 0 <= j < H && 0 <= o < rows[j].Length
      ensures rows[j][o] == if o < W * L then ClampPel(Normalise(nm, Interleave(Q, L, H, W, 2 * W)[j][o])) else old(rows[j][o])
    {
      assert rows[j][o] == Stored(S[j], Q, nm, L, W, 2 * W, j, L, 0)[o];
      StoredAll(S[j], Q, nm, L, H, W, 2 * W, j, o);
    }
  }

  /** The channel loop of the KISS recompose: every channel's samples stored into the rows. */
  method InversePlanes(Fs: seq<real>, L: nat, H: nat, W: nat, kiss: Kiss, m: Libm, rows: seq<array<Pel>>,
                       nm: Normalisation, ghost Q: seq<seq<real>>, ghost S: seq<seq<Pel>>)
    requires 0 < H && 0 < W && L * H * W <= |Fs|
    requires |rows| == H && forall j :: 0 <= j < H ==> W * L <= rows[j].Length
    requires forall j, j' :: 0 <= j < j' < H ==> rows[j] != rows[j']
    requires nm == AreaNormalisation(H, W) && Q == KissInverse(Fs, kiss, m, L, H, W)
    requires |S| == H && forall j :: 0 <= j < H ==> S[j] == rows[j][..]
    modifies set j | 0 <= j < H :: rows[j]
    ensures forall j :: 0 <= j < H ==> rows[j][..] == Stored(S[j], Q, nm, L, W, 2 * W, j, L, 0)
  {
    var cpx := new Cpx[2 * H * (W + 1)];
    PreZero(cpx, H, W);
    var e := PI / (2.0 * (W as real) * (H as real));
    var z, coeff := 0, 0;
    while z < L
      invariant z <= L && coeff == PlaneIndex(H, W, z, 0, 0) && NyquistZero(cpx[..], H, W)
      invariant forall j :: 0 <= j < H ==> rows[j][..] == Stored(S[j], Q, nm, L, W, 2 * W, j, z, 0)
    {
      PlaneIndexNext(H, W, z, 0);
      PlaneIndexEnd(L, H, W);
      MulMono(z + 1, L, H * W);
      ghost var c0 := coeff;
      coeff := FillChannel(Fs, coeff, m, e, H, W, cpx);
      var inv := kiss.fftndri(H, W, cpx[..]);
      assert inv == Q[z] by {
        assert e == InverseExp(H, W) && c0 == PlaneIndex(H, W, z, 0, 0);
      }
      StorePlane(L, H, W, 2 * W, inv, Q, nm, z, rows, S);
      z := z + 1;
    }
  }
}
