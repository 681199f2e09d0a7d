/**
 * The native transforms of dsp.c. The cosines are the foreign `cos` of a Libm
 * value, so a coefficient is described as the sum the loops accumulate, term by
 * term, in the order the loops visit them; what is proved is where each term is
 * added, which weight multiplies it and that the weight table is filled before
 * it is read.
 */
module Dsp {
  import opened Common
  import opened Layout

  /** CC: the orthonormality factor of a pair of frequencies. */
  function CC(a: int, b: int): (r: real)
    ensures r == 0.5 <==> a == 0 && b == 0
    ensures r == 1.0 <==> a != 0 && b != 0
    ensures (a == 0) != (b == 0) ==> r == SQRT1_2
    ensures 0.0 < r <= 1.0
  {
    if a != 0 then (if b != 0 then 1.0 else SQRT1_2) else (if b != 0 then SQRT1_2 else 0.5)
  }

  /** CC does not depend on the order of its arguments. */
  lemma CCSymmetric(a: int, b: int)
    ensures CC(a, b) == CC(b, a)
  {
  }

  /** NORM, HNORM, NORM2, PI_M, PI_N, HPI_M, HPI_N of an M x N plane. */
  datatype Norms = Norms(norm: real, hnorm: real, norm2: real, piM: real, piN: real, hpiM: real, hpiN: real)

  /**
   * The constants of an M x N plane. An empty plane runs no loop, so its (infinite
   * in C) constants are never used and are recorded here as zeros.
   */
  function MakeNorms(m: Libm, M: nat, N: nat): (n: Norms)
    requires m.Sane()
    ensures M > 0 && N > 0 ==> n.norm * m.sqrt((N * M) as real) == 2.0 && n.hnorm * 2.0 == n.norm
    ensures M > 0 && N > 0 ==> n.norm2 * m.sqrt((2 * N * M) as real) == 2.0
    ensures M > 0 && N > 0 ==> n.piM * (M as real) == PI && n.piN * (N as real) == PI
    ensures M > 0 && N > 0 ==> n.hpiM * 2.0 == n.piM && n.hpiN * 2.0 == n.piN
  {
    if M == 0 || N == 0 then Norms(0.0, 0.0, 0.0, 0.0, 0.0, 0.0, 0.0)
    else Norms(2.0 / m.sqrt((N * M) as real), 1.0 / m.sqrt((N * M) as real), 2.0 / m.sqrt((2 * N * M) as real),
               PI / (M as real), PI / (N as real), PI / ((2 * M) as real), PI / ((2 * N) as real))
  }

  /** The running angle after k steps of p: 0, p, p + p, ..., as the loops of dsp.c accumulate it. */
  function Steps(k: nat, p: real): real {
    if k == 0 then 0.0 else Steps(k - 1, p) + p
  }

  /** In exact arithmetic the running angle is the product k * p. */
  lemma {:induction false} StepsIsProduct(k: nat, p: real)
    ensures Steps(k, p) == (k as real) * p
  {
    if k > 0 {
      StepsIsProduct(k - 1, p);
      assert ((k - 1) as real) * p + p == (k as real) * p;
    }
  }

  /** j * PI_Mv + HPI_Mv with PI_Mv and HPI_Mv the running v-th multiples of PI_M and HPI_M: the row angle. */
  function AngleM(n: Norms, v: nat, j: nat): real {
    (j as real) * Steps(v, n.piM) + Steps(v, n.hpiM)
  }

  /** i * PI_Nu + HPI_Nu with the running u-th multiples of PI_N and HPI_N: the column angle. */
  function AngleN(n: Norms, u: nat, i: nat): real {
    (i as real) * Steps(u, n.piN) + Steps(u, n.hpiN)
  }

  /** The angle of frequency 0 is 0 for every sample. */
  lemma AngleOfZero(n: Norms, p: nat)
    ensures AngleM(n, 0, p) == 0.0 && AngleN(n, 0, p) == 0.0
  {
  }

  /**
   * The weight rsn_dct and rsn_idct give the pair (frequency v, u; sample j, i):
   * HNORM for the DC term, NORM2 times one cosine on the first row or column,
   * NORM times two cosines elsewhere.
   */
  function Weight(m: Libm, n: Norms, v: nat, u: nat, j: nat, i: nat): real {
    if u + v == 0 then n.hnorm
    else if u == 0 then n.norm2 * m.cos(AngleM(n, v, j))
    else if v == 0 then n.norm2 * m.cos(AngleN(n, u, i))
    else n.norm * m.cos(AngleM(n, v, j)) * m.cos(AngleN(n, u, i))
  }

  /** CC with the factor of exactly one zero frequency left as s; CC itself takes the decimal M_SQRT1_2. */
  function Ortho(s: real, a: int, b: int): (r: real)
    ensures s == SQRT1_2 ==> r == CC(a, b)
    ensures r == 0.5 || r == 1.0 || r == s
  {
    if a != 0 then (if b != 0 then 1.0 else s) else (if b != 0 then s else 0.5)
  }

  /**
   * The four branches of the weight are the textbook orthonormal DCT-II factor
   * NORM * Ortho(s, u, v) * cos(..) * cos(..), given cos 0 = 1, HNORM = NORM / 2 and
   * NORM2 = NORM * s. NormsTextbook shows that the constants rsn_dct computes meet
   * this with s = sqrt(1/2) itself, whose square the decimal M_SQRT1_2 only approximates.
   */
  lemma WeightIsTextbook(m: Libm, n: Norms, s: real, v: nat, u: nat, j: nat, i: nat)
    requires m.cos(0.0) == 1.0 && n.hnorm * 2.0 == n.norm && n.norm2 == n.norm * s
    ensures Weight(m, n, v, u, j, i) == n.norm * Ortho(s, u, v) * m.cos(AngleM(n, v, j)) * m.cos(AngleN(n, u, i))
  {
    AngleOfZero(n, j);
    AngleOfZero(n, i);
  }

  /** With an exact sqrt, NORM2 = 2/sqrt(2NM) is NORM = 2/sqrt(NM) times sqrt(1/2), and HNORM is half of NORM. */
  lemma NormsTextbook(m: Libm, M: nat, N: nat)
    requires m.Sane() && m.ExactSqrt() && M > 0 && N > 0
    ensures var n, s := MakeNorms(m, M, N), m.sqrt(0.5);
            s > 0.0 && s * s == 0.5 && n.hnorm * 2.0 == n.norm && n.norm2 == n.norm * s
  {
    MulMono(1, N, M);
    var x := (N * M) as real;
    assert (2 * N * M) as real == 2.0 * x;
    var r, t, s := m.sqrt(x), m.sqrt(2.0 * x), m.sqrt(0.5);
    assert r > 0.0 && t > 0.0 && s > 0.0;
    assert (t * s) * (t * s) == (t * t) * (s * s) == x == r * r;
    assert (t * s - r) * (t * s + r) == 0.0;
    assert t * s == r;
    assert 2.0 / r * s == 2.0 / t;
  }

  /** The weight rsn_dct applies, with its own constants, is the textbook orthonormal DCT-II weight. */
  lemma ComputedWeightIsTextbook(m: Libm, M: nat, N: nat, v: nat, u: nat, j: nat, i: nat)
    requires m.Sane() && m.ExactSqrt() && m.cos(0.0) == 1.0 && M > 0 && N > 0
    ensures var n := MakeNorms(m, M, N);
            Weight(m, n, v, u, j, i) == n.norm * Ortho(m.sqrt(0.5), u, v) * m.cos(AngleM(n, v, j)) * m.cos(AngleN(n, u, i))
  {
    NormsTextbook(m, M, N);
    WeightIsTextbook(m, MakeNorms(m, M, N), m.sqrt(0.5), v, u, j, i);
  }

  /** rsn_dct_rowcol's first (row) pass weight of sample column i for frequency u. */
  function RowWeight(m: Libm, n: Norms, u: nat, i: nat): real {
    if u == 0 then 1.0 else m.cos(AngleN(n, u, i))
  }

  /** rsn_dct_rowcol's second (column) pass weight of row j for frequencies (v, u). */
  function ColWeight(m: Libm, n: Norms, v: nat, u: nat, j: nat): real {
    if v + u == 0 then n.hnorm
    else if v == 0 then n.norm2
    else if u == 0 then n.norm2 * m.cos(AngleM(n, v, j))
    else n.norm * m.cos(AngleM(n, v, j))
  }

  /**
   * The row and column passes factor the direct weight exactly, once the cosine
   * of the zero angle is 1: row-column and direct transforms apply the same weights.
   */
  lemma RowColFactorsWeight(m: Libm, n: Norms, v: nat, u: nat, j: nat, i: nat)
    requires m.cos(0.0) == 1.0
    ensures ColWeight(m, n, v, u, j) * RowWeight(m, n, u, i) == Weight(m, n, v, u, j, i)
  {
    AngleOfZero(n, j);
  }

  /** (p + 0.5) * f * M_PI / n, the angle of rsn_dct_direct. */
  function HalfAngle(p: nat, f: nat, n: nat): real {
    if n == 0 then 0.0 else ((p as real) + 0.5) * (f as real) * PI / (n as real)
  }

  /** The product one loop iteration adds (named, so that code and sums share one expression). */
  function Mul(a: real, b: real): real { a * b }
  function Product(a: real, b: real, c: real): real { a * b * c }

  /** Sample o of row j of an image snapshot, as a coefficient. */
  function Pixel(img: seq<seq<Pel>>, j: nat, o: nat): real {
    if j < |img| && o < |img[j]| then img[j][o] as real else 0.0
  }

  /** Entry k of a coefficient snapshot. */
  function Coef(F: seq<real>, k: nat): real {
    if k < |F| then F[k] else 0.0
  }

  /** The term rsn_dct_direct adds to coefficient (z, v, u) for sample (j, i). */
  function DirectTerm(f: seq<seq<Pel>>, m: Libm, L: nat, M: nat, N: nat, z: nat, v: nat, u: nat,
                      j: nat, i: nat): real {
    Product(Pixel(f, j, Offset(L, i, z)), m.cos(HalfAngle(j, v, M)), m.cos(HalfAngle(i, u, N)))
  }

  /** The terms of sample row j, columns 0..n-1, in loop order. */
  ghost function DirectRowSum(f: seq<seq<Pel>>, m: Libm, L: nat, M: nat, N: nat, z: nat, v: nat, u: nat,
                              j: nat, n: nat): real {
    if n == 0 then 0.0
    else DirectRowSum(f, m, L, M, N, z, v, u, j, n - 1) + DirectTerm(f, m, L, M, N, z, v, u, j, n - 1)
  }

  /** The terms of sample rows 0..rows-1, N columns each, in loop order. */
  ghost function DirectSum(f: seq<seq<Pel>>, m: Libm, L: nat, M: nat, N: nat, z: nat, v: nat, u: nat,
                           rows: nat): real {
    if rows == 0 then 0.0
    else DirectSum(f, m, L, M, N, z, v, u, rows - 1) + DirectRowSum(f, m, L, M, N, z, v, u, rows - 1, N)
  }

  /** What rsn_dct_direct adds to coefficient k. */
  ghost function DirectAt(f: seq<seq<Pel>>, m: Libm, L: nat, M: nat, N: nat, k: nat): real {
    DirectSum(f, m, L, M, N, Chan(M, N, k), Row(M, N, k), Col(N, k), M)
  }

  /** The innermost loop of rsn_dct_direct: row j's N terms are added to coefficient k. */
  method DirectRow(L: nat, M: nat, N: nat, f: seq<seq<Pel>>, F: array<real>, m: Libm,
                   z: nat, v: nat, u: nat, k: nat, j: nat)
    requires Fits(f, M, N * L) && z < L && k < F.Length && j < M
    modifies F
    ensures F[k] == old(F[k]) + DirectRowSum(f, m, L, M, N, z, v, u, j, N)
    ensures forall k' :: 0 <= k' < F.Length && k' != k ==> F[k'] == old(F[k'])
  {
    var i := 0;
    while i < N
      invariant i <= N
      invariant F[k] == old(F[k]) + DirectRowSum(f, m, L, M, N, z, v, u, j, i)
      invariant forall k' :: 0 <= k' < F.Length && k' != k ==> F[k'] == old(F[k'])
    {
      OffsetBound(L, N, i, z);
      assert Pixel(f, j, Offset(L, i, z)) == f[j][i * L + z] as real;
      F[k] := F[k] + Product(f[j][i * L + z] as real, m.cos(HalfAngle(j, v, M)), m.cos(HalfAngle(i, u, N)));
      i := i + 1;
    }
  }

  /** The two innermost loops of rsn_dct_direct: one coefficient gets its M x N terms. */
  method DirectCell(L: nat, M: nat, N: nat, f: seq<seq<Pel>>, F: array<real>, m: Libm,
                    z: nat, v: nat, u: nat, k: nat)
    requires Fits(f, M, N * L) && z < L && k < F.Length
    modifies F
    ensures F[k] == old(F[k]) + DirectSum(f, m, L, M, N, z, v, u, M)
    ensures forall k' :: 0 <= k' < F.Length && k' != k ==> F[k'] == old(F[k'])
  {
    var j := 0;
    while j < M
      invariant j <= M
      invariant F[k] == old(F[k]) + DirectSum(f, m, L, M, N, z, v, u, j)
      invariant forall k' :: 0 <= k' < F.Length && k' != k ==> F[k'] == old(F[k'])
    {
      DirectRow(L, M, N, f, F, m, z, v, u, k, j);
      j := j + 1;
    }
  }

  /** The u loop of rsn_dct_direct: the N coefficients of row v of channel z get their sums. */
  method DirectLine(L: nat, M: nat, N: nat, f: seq<seq<Pel>>, F: array<real>, m: Libm, z: nat, v: nat)
    requires Fits(f, M, N * L) && z < L && v < M && L * M * N <= F.Length
    modifies F
    ensures forall k :: 0 <= k < F.Length && PlaneIndex(M, N, z, v, 0) <= k < PlaneIndex(M, N, z, v + 1, 0) ==>
              F[k] == old(F[k]) + DirectAt(f, m, L, M, N, k)
    ensures forall k :: 0 <= k < F.Length && !(PlaneIndex(M, N, z, v, 0) <= k < PlaneIndex(M, N, z, v + 1, 0)) ==>
              F[k] == old(F[k])
  {
    PlaneIndexStep(M, N, z, v);
    var u := 0;
    while u < N
      invariant u <= N
      invariant forall k :: 0 <= k < F.Length && PlaneIndex(M, N, z, v, 0) <= k < PlaneIndex(M, N, z, v, u) ==>
                  F[k] == old(F[k]) + DirectAt(f, m, L, M, N, k)
      invariant forall k :: 0 <= k < F.Length && !(PlaneIndex(M, N, z, v, 0) <= k < PlaneIndex(M, N, z, v, u)) ==>
                  F[k] == old(F[k])
    {
      PlaneIndexAsWritten(M, N, z, v, u);
      PlaneIndexBound(L, M, N, z, v, u);
      PlaneIndexDecode(M, N, z, v, u);
      DirectCell(L, M, N, f, F, m, z, v, u, z * N * M + v * N + u);
      u := u + 1;
    }
  }

  /** The v loop of rsn_dct_direct: the M x N coefficients of channel z get their sums. */
  method DirectPlane(L: nat, M: nat, N: nat, f: seq<seq<Pel>>, F: array<real>, m: Libm, z: nat)
    requires Fits(f, M, N * L) && z < L && L * M * N <= F.Length
    modifies F
    ensures forall k :: 0 <= k < F.Length && PlaneIndex(M, N, z, 0, 0) <= k < PlaneIndex(M, N, z + 1, 0, 0) ==>
              F[k] == old(F[k]) + DirectAt(f, m, L, M, N, k)
    ensures forall k :: 0 <= k < F.Length && !(PlaneIndex(M, N, z, 0, 0) <= k < PlaneIndex(M, N, z + 1, 0, 0)) ==>
              F[k] == old(F[k])
  {
    PlaneIndexStep(M, N, z, M);
    var v := 0;
    while v < M
      invariant v <= M
      invariant forall k :: 0 <= k < F.Length && PlaneIndex(M, N, z, 0, 0) <= k < PlaneIndex(M, N, z, v, 0) ==>
                  F[k] == old(F[k]) + DirectAt(f, m, L, M, N, k)
      invariant forall k :: 0 <= k < F.Length && !(PlaneIndex(M, N, z, 0, 0) <= k < PlaneIndex(M, N, z, v, 0)) ==>
                  F[k] == old(F[k])
    {
      DirectLine(L, M, N, f, F, m, z, v);
      PlaneIndexNext(M, N, z, v);
      v := v + 1;
    }
  }

  /**
   * rsn_dct_direct: every coefficient of the L x M x N spectrum gets the sum of
   * its terms added to what it held, so the spectrum is the transform only if F
   * starts at zero; nothing past L*M*N is touched.
   */
  method DctDirect(L: nat, M: nat, N: nat, f: seq<seq<Pel>>, F: array<real>, m: Libm)
    requires Fits(f, M, N * L) && L * M * N <= F.Length
    modifies F
    ensures forall k :: 0 <= k < L * M * N ==> F[k] == old(F[k]) + DirectAt(f, m, L, M, N, k)
    ensures forall k :: L * M * N <= k < F.Length ==> F[k] == old(F[k])
  {
    var z := 0;
    while z < L
      invariant z <= L
      invariant forall k :: 0 <= k < F.Length && k < PlaneIndex(M, N, z, 0, 0) ==> F[k] == old(F[k]) + DirectAt(f, m, L, M, N, k)
      invariant forall k :: 0 <= k < F.Length && PlaneIndex(M, N, z, 0, 0) <= k ==> F[k] == old(F[k])
    {
      DirectPlane(L, M, N, f, F, m, z);
      PlaneIndexNext(M, N, z, 0);
      z := z + 1;
    }
    PlaneIndexEnd(L, M, N);
  }

  /** The term rsn_dct adds to coefficient (z, v, u) for sample (j, i). */
  function ForwardTerm(f: seq<seq<Pel>>, m: Libm, n: Norms, L: nat, z: nat, v: nat, u: nat, j: nat, i: nat): real {
    Mul(Weight(m, n, v, u, j, i), Pixel(f, j, Offset(L, i, z)))
  }

  ghost function ForwardRowSum(f: seq<seq<Pel>>, m: Libm, n: Norms, L: nat, z: nat, v: nat, u: nat,
                               j: nat, cols: nat): real {
    if cols == 0 then 0.0
    else ForwardRowSum(f, m, n, L, z, v, u, j, cols - 1) + ForwardTerm(f, m, n, L, z, v, u, j, cols - 1)
  }

  ghost function ForwardSum(f: seq<seq<Pel>>, m: Libm, n: Norms, L: nat, N: nat, z: nat, v: nat, u: nat,
                            rows: nat): real {
    if rows == 0 then 0.0
    else ForwardSum(f, m, n, L, N, z, v, u, rows - 1) + ForwardRowSum(f, m, n, L, z, v, u, rows - 1, N)
  }

  /** What rsn_dct adds to coefficient k: its weighted sum over the M x N samples of its channel. */
  ghost function ForwardAt(f: seq<seq<Pel>>, m: Libm, n: Norms, L: nat, M: nat, N: nat, k: nat): real {
    ForwardSum(f, m, n, L, N, Chan(M, N, k), Row(M, N, k), Col(N, k), M)
  }

  /** The wisdom table holds the weights of frequency (v, u) for every sample. */
  ghost predicate Wise(wisdom: array2<real>, m: Libm, n: Norms, v: nat, u: nat)
    reads wisdom
  {
    forall j, i :: 0 <= j < wisdom.Length0 && 0 <= i < wisdom.Length1 ==>
      wisdom[j, i] == Weight(m, n, v, u, j, i)
  }

  /**
   * The weight rsn_dct computes for its table, from the running angles v * PI/M,
   * v * PI/(2M), u * PI/N and u * PI/(2N): the weight of (v, u; j, i).
   */
  method TableWeight(m: Libm, n: Norms, v: nat, u: nat, j: nat, i: nat,
                     PI_Mv: real, HPI_Mv: real, PI_Nu: real, HPI_Nu: real) returns (w: real)
    requires PI_Mv == Steps(v, n.piM) && HPI_Mv == Steps(v, n.hpiM)
    requires PI_Nu == Steps(u, n.piN) && HPI_Nu == Steps(u, n.hpiN)
    ensures w == Weight(m, n, v, u, j, i)
  {
    assert (j as real) * PI_Mv + HPI_Mv == AngleM(n, v, j);
    assert (i as real) * PI_Nu + HPI_Nu == AngleN(n, u, i);
    if u + v == 0 {
      w := n.hnorm;
    } else if u == 0 {
      w := n.norm2 * m.cos((j as real) * PI_Mv + HPI_Mv);
    } else if v == 0 {
      w := n.norm2 * m.cos((i as real) * PI_Nu + HPI_Nu);
    } else {
      w := n.norm * m.cos((j as real) * PI_Mv + HPI_Mv) * m.cos((i as real) * PI_Nu + HPI_Nu);
    }
  }

  /** One row of rsn_dct's channel-0 pass: it writes wisdom[j][i] and adds weight * sample. */
  method DctFirstRow(L: nat, M: nat, N: nat, f: seq<seq<Pel>>, F: array<real>, wisdom: array2<real>,
                     m: Libm, n: Norms, v: nat, u: nat, PI_Mv: real, HPI_Mv: real, PI_Nu: real, HPI_Nu: real,
                     k: nat, j: nat)
    requires Fits(f, M, N * L) && L > 0 && k < F.Length && j < M
    requires wisdom.Length0 == M && wisdom.Length1 == N
    requires PI_Mv == Steps(v, n.piM) && HPI_Mv == Steps(v, n.hpiM)
    requires PI_Nu == Steps(u, n.piN) && HPI_Nu == Steps(u, n.hpiN)
    modifies F, wisdom
    ensures F[k] == old(F[k]) + ForwardRowSum(f, m, n, L, 0, v, u, j, N)
    ensures forall k' :: 0 <= k' < F.Length && k' != k ==> F[k'] == old(F[k'])
    ensures forall i :: 0 <= i < N ==> wisdom[j, i] == Weight(m, n, v, u, j, i)
    ensures forall j', i :: 0 <= j' < M && j' != j && 0 <= i < N ==> wisdom[j', i] == old(wisdom[j', i])
  {
    var i := 0;
    while i < N
      invariant i <= N
      invariant F[k] == old(F[k]) + ForwardRowSum(f, m, n, L, 0, v, u, j, i)
      invariant forall k' :: 0 <= k' < F.Length && k' != k ==> F[k'] == old(F[k'])
      invariant forall i' :: 0 <= i' < i ==> wisdom[j, i'] == Weight(m, n, v, u, j, i')
      invariant forall j', i' :: 0 <= j' < M && j' != j && 0 <= i' < N ==> wisdom[j', i'] == old(wisdom[j', i'])
    {
      var w := TableWeight(m, n, v, u, j, i, PI_Mv, HPI_Mv, PI_Nu, HPI_Nu);
      wisdom[j, i] := w;
      OffsetBound(L, N, i, 0);
      assert Pixel(f, j, Offset(L, i, 0)) == f[j][i * L] as real;
      F[k] := F[k] + Mul(wisdom[j, i], f[j][i * L] as real);
      i := i + 1;
    }
  }

  /** rsn_dct's channel-0 pass for frequency (v, u): coefficient k gets its sum, the table its weights. */
  method DctFirst(L: nat, M: nat, N: nat, f: seq<seq<Pel>>, F: array<real>, wisdom: array2<real>,
                  m: Libm, n: Norms, v: nat, u: nat, PI_Mv: real, HPI_Mv: real, PI_Nu: real, HPI_Nu: real, k: nat)
    requires Fits(f, M, N * L) && L > 0 && k < F.Length
    requires wisdom.Length0 == M && wisdom.Length1 == N
    requires PI_Mv == Steps(v, n.piM) && HPI_Mv == Steps(v, n.hpiM)
    requires PI_Nu == Steps(u, n.piN) && HPI_Nu == Steps(u, n.hpiN)
    modifies F, wisdom
    ensures F[k] == old(F[k]) + ForwardSum(f, m, n, L, N, 0, v, u, M)
    ensures forall k' :: 0 <= k' < F.Length && k' != k ==> F[k'] == old(F[k'])
    ensures Wise(wisdom, m, n, v, u)
  {
    var j := 0;
    while j < M
      invariant j <= M
      invariant F[k] == old(F[k]) + ForwardSum(f, m, n, L, N, 0, v, u, j)
      invariant forall k' :: 0 <= k' < F.Length && k' != k ==> F[k'] == old(F[k'])
      invariant forall j', i :: 0 <= j' < j && 0 <= i < N ==> wisdom[j', i] == Weight(m, n, v, u, j', i)
    {
      DctFirstRow(L, M, N, f, F, wisdom, m, n, v, u, PI_Mv, HPI_Mv, PI_Nu, HPI_Nu, k, j);
      j := j + 1;
    }
  }

  /** One row of rsn_dct's pass over channel z >= 1, reading the weights back from the table. */
  method DctOtherRow(L: nat, M: nat, N: nat, f: seq<seq<Pel>>, F: array<real>, wisdom: array2<real>,
                     m: Libm, n: Norms, z: nat, v: nat, u: nat, k: nat, j: nat)
    requires Fits(f, M, N * L) && z < L && k < F.Length && j < M
    requires wisdom.Length0 == M && wisdom.Length1 == N && Wise(wisdom, m, n, v, u)
    modifies F
    ensures F[k] == old(F[k]) + ForwardRowSum(f, m, n, L, z, v, u, j, N)
    ensures forall k' :: 0 <= k' < F.Length && k' != k ==> F[k'] == old(F[k'])
  {
    var i := 0;
    while i < N
      invariant i <= N
      invariant F[k] == old(F[k]) + ForwardRowSum(f, m, n, L, z, v, u, j, i)
      invariant forall k' :: 0 <= k' < F.Length && k' != k ==> F[k'] == old(F[k'])
    {
      OffsetBound(L, N, i, z);
      assert Pixel(f, j, Offset(L, i, z)) == f[j][i * L + z] as real;
      F[k] := F[k] + Mul(wisdom[j, i], f[j][i * L + z] as real);
      i := i + 1;
    }
  }

  /** rsn_dct's pass over channel z >= 1 for frequency (v, u). */
  method DctOther(L: nat, M: nat, N: nat, f: seq<seq<Pel>>, F: array<real>, wisdom: array2<real>,
                  m: Libm, n: Norms, z: nat, v: nat, u: nat, k: nat)
    requires Fits(f, M, N * L) && z < L && k < F.Length
    requires wisdom.Length0 == M && wisdom.Length1 == N && Wise(wisdom, m, n, v, u)
    modifies F
    ensures F[k] == old(F[k]) + ForwardSum(f, m, n, L, N, z, v, u, M)
    ensures forall k' :: 0 <= k' < F.Length && k' != k ==> F[k'] == old(F[k'])
  {
    var j := 0;
    while j < M
      invariant j <= M && Wise(wisdom, m, n, v, u)
      invariant F[k] == old(F[k]) + ForwardSum(f, m, n, L, N, z, v, u, j)
      invariant forall k' :: 0 <= k' < F.Length && k' != k ==> F[k'] == old(F[k'])
    {
      DctOtherRow(L, M, N, f, F, wisdom, m, n, z, v, u, k, j);
      j := j + 1;
    }
  }

  /** Coefficient k belongs to frequency (v, u) of some channel. */
  ghost predicate AtFrequency(L: nat, M: nat, N: nat, k: nat, v: nat, u: nat) {
    k < L * M * N && Row(M, N, k) == v && Col(N, k) == u
  }

  /**
   * The body of rsn_dct's frequency loops: channel 0 fills the table, channels
   * 1..L-1 reuse it; exactly the L coefficients of frequency (v, u) change.
   */
  method DctFrequency(L: nat, M: nat, N: nat, f: seq<seq<Pel>>, F: array<real>, wisdom: array2<real>,
                      m: Libm, n: Norms, v: nat, u: nat, PI_Mv: real, HPI_Mv: real, PI_Nu: real, HPI_Nu: real)
    requires Fits(f, M, N * L) && L > 0 && v < M && u < N && L * M * N <= F.Length
    requires wisdom.Length0 == M && wisdom.Length1 == N
    requires PI_Mv == Steps(v, n.piM) && HPI_Mv == Steps(v, n.hpiM)
    requires PI_Nu == Steps(u, n.piN) && HPI_Nu == Steps(u, n.hpiN)
    modifies F, wisdom
    ensures forall k :: 0 <= k < F.Length ==>
              F[k] == old(F[k]) + (if AtFrequency(L, M, N, k, v, u) then ForwardAt(f, m, n, L, M, N, k) else 0.0)
  {
    PlaneIndexAsWritten(M, N, 0, v, u);
    PlaneIndexBound(L, M, N, 0, v, u);
    PlaneIndexDecode(M, N, 0, v, u);
    DctFirst(L, M, N, f, F, wisdom, m, n, v, u, PI_Mv, HPI_Mv, PI_Nu, HPI_Nu, v * N + u);
    forall k | 0 <= k < L * M * N {
      PlaneIndexRecode(L, M, N, k);
    }
    var z := 1;
    while z < L
      invariant 1 <= z <= L && Wise(wisdom, m, n, v, u)
      invariant forall k :: 0 <= k < F.Length ==>
                  F[k] == old(F[k]) + (if AtFrequency(L, M, N, k, v, u) && Chan(M, N, k) < z
                                       then ForwardAt(f, m, n, L, M, N, k) else 0.0)
    {
      PlaneIndexAsWritten(M, N, z, v, u);
      PlaneIndexBound(L, M, N, z, v, u);
      PlaneIndexDecode(M, N, z, v, u);
      DctOther(L, M, N, f, F, wisdom, m, n, z, v, u, z * N * M + v * N + u);
      z := z + 1;
    }
  }

  /** rsn_dct's u loop for frequency row v: the running column angles stay u * PI_N and u * HPI_N. */
  method DctLine(L: nat, M: nat, N: nat, f: seq<seq<Pel>>, F: array<real>, wisdom: array2<real>,
                 m: Libm, n: Norms, v: nat, PI_Mv: real, HPI_Mv: real)
    requires Fits(f, M, N * L) && L > 0 && v < M && L * M * N <= F.Length
    requires wisdom.Length0 == M && wisdom.Length1 == N
    requires PI_Mv == Steps(v, n.piM) && HPI_Mv == Steps(v, n.hpiM)
    modifies F, wisdom
    ensures forall k :: 0 <= k < F.Length ==>
              F[k] == old(F[k]) + (if k < L * M * N && Row(M, N, k) == v then ForwardAt(f, m, n, L, M, N, k) else 0.0)
  {
    var u, PI_Nu, HPI_Nu := 0, 0.0, 0.0;
    while u < N
      invariant u <= N && PI_Nu == Steps(u, n.piN) && HPI_Nu == Steps(u, n.hpiN)
      invariant forall k :: 0 <= k < F.Length ==>
                  F[k] == old(F[k]) + (if k < L * M * N && Row(M, N, k) == v && Col(N, k) < u
                                       then ForwardAt(f, m, n, L, M, N, k) else 0.0)
    {
      DctFrequency(L, M, N, f, F, wisdom, m, n, v, u, PI_Mv, HPI_Mv, PI_Nu, HPI_Nu);
      u, PI_Nu, HPI_Nu := u + 1, PI_Nu + n.piN, HPI_Nu + n.hpiN;
    }
    forall k | 0 <= k < L * M * N {
      PlaneIndexRecode(L, M, N, k);
    }
  }

  /**
   * rsn_dct: the orthonormal DCT-II of each of the L channels of the M x N image f
   * is added to the plane-major spectrum F. Every coefficient of the spectrum gets
   * the weighted sum of its channel's samples, and nothing past L*M*N changes.
   * The per-frequency weights are computed once, on channel 0, and reused.
   */
  method Dct(L: nat, M: nat, N: nat, f: seq<seq<Pel>>, F: array<real>, m: Libm)
    requires Fits(f, M, N * L) && L > 0 && L * M * N <= F.Length && m.Sane()
    modifies F
    ensures forall k :: 0 <= k < F.Length ==>
              F[k] == old(F[k]) + (if k < L * M * N then ForwardAt(f, m, MakeNorms(m, M, N), L, M, N, k) else 0.0)
  {
    var n := MakeNorms(m, M, N);
    var wisdom := new real[M, N];
    var v, PI_Mv, HPI_Mv := 0, 0.0, 0.0;
    while v < M
      invariant v <= M && PI_Mv == Steps(v, n.piM) && HPI_Mv == Steps(v, n.hpiM)
      invariant forall k :: 0 <= k < F.Length ==>
                  F[k] == old(F[k]) + (if k < L * M * N && Row(M, N, k) < v
                                       then ForwardAt(f, m, n, L, M, N, k) else 0.0)
    {
      DctLine(L, M, N, f, F, wisdom, m, n, v, PI_Mv, HPI_Mv);
      v, PI_Mv, HPI_Mv := v + 1, PI_Mv + n.piM, HPI_Mv + n.hpiM;
    }
    forall k | 0 <= k < L * M * N {
      PlaneIndexRecode(L, M, N, k);
    }
  }

  /** The term rsn_idct adds to sample (j, i) of channel z for frequency (v, u). */
  function InverseTerm(F: seq<real>, m: Libm, n: Norms, M: nat, N: nat, z: nat, j: nat, i: nat,
                       v: nat, u: nat): real {
    Mul(Weight(m, n, v, u, j, i), Coef(F, PlaneIndex(M, N, z, v, u)))
  }

  ghost function InverseRowSum(F: seq<real>, m: Libm, n: Norms, M: nat, N: nat, z: nat, j: nat, i: nat,
                               v: nat, cols: nat): real {
    if cols == 0 then 0.0
    else InverseRowSum(F, m, n, M, N, z, j, i, v, cols - 1) + InverseTerm(F, m, n, M, N, z, j, i, v, cols - 1)
  }

  /** The sum rsn_idct accumulates in s for sample (j, i) of channel z over the first `rows` frequency rows. */
  ghost function InverseSum(F: seq<real>, m: Libm, n: Norms, M: nat, N: nat, z: nat, j: nat, i: nat,
                            rows: nat): real {
    if rows == 0 then 0.0
    else InverseSum(F, m, n, M, N, z, j, i, rows - 1) + InverseRowSum(F, m, n, M, N, z, j, i, rows - 1, N)
  }

  /** The sample rsn_idct stores at offset o of row j: the clamped sum of channel o % L at pixel o / L. */
  ghost function InverseSample(F: seq<real>, m: Libm, n: Norms, L: nat, M: nat, N: nat, j: nat, o: nat): Pel {
    if L == 0 then 0 else ClampPel(InverseSum(F, m, n, M, N, o % L, j, o / L, M))
  }

  /** The table of rsn_idct holds the weights of sample (j, i) for every frequency. */
  ghost predicate InverseWise(wisdom: array2<real>, m: Libm, n: Norms, j: nat, i: nat)
    reads wisdom
  {
    forall v, u :: 0 <= v < wisdom.Length0 && 0 <= u < wisdom.Length1 ==>
      wisdom[v, u] == Weight(m, n, v, u, j, i)
  }

  /**
   * One frequency row of rsn_idct's channel-0 pass: the weight of (v, u) is stored
   * in cell [0][0], [v][0], [0][u] or [v][u] by case, each of which is cell [v][u],
   * and then read back from [v][u].
   */
  method IdctFirstLine(L: nat, M: nat, N: nat, F: seq<real>, wisdom: array2<real>, m: Libm, n: Norms,
                       j: nat, i: nat, v: nat, PI_Mv: real, HPI_Mv: real, s0: real) returns (s: real)
    requires L > 0 && L * M * N <= |F| && v < M
    requires wisdom.Length0 == M && wisdom.Length1 == N
    requires PI_Mv == Steps(v, n.piM) && HPI_Mv == Steps(v, n.hpiM)
    modifies wisdom
    ensures s == s0 + InverseRowSum(F, m, n, M, N, 0, j, i, v, N)
    ensures forall u :: 0 <= u < N ==> wisdom[v, u] == Weight(m, n, v, u, j, i)
    ensures forall v', u :: 0 <= v' < M && v' != v && 0 <= u < N ==> wisdom[v', u] == old(wisdom[v', u])
  {
    s := s0;
    var u, PI_Nu, HPI_Nu := 0, 0.0, 0.0;
    while u < N
      invariant u <= N && PI_Nu == Steps(u, n.piN) && HPI_Nu == Steps(u, n.hpiN)
      invariant s == s0 + InverseRowSum(F, m, n, M, N, 0, j, i, v, u)
      invariant forall u' :: 0 <= u' < u ==> wisdom[v, u'] == Weight(m, n, v, u', j, i)
      invariant forall v', u' :: 0 <= v' < M && v' != v && 0 <= u' < N ==> wisdom[v', u'] == old(wisdom[v', u'])
    {
      var w := TableWeight(m, n, v, u, j, i, PI_Mv, HPI_Mv, PI_Nu, HPI_Nu);
      if u + v == 0 {
        wisdom[0, 0] := w;
      } else if u == 0 {
        wisdom[v, 0] := w;
      } else if v == 0 {
        wisdom[0, u] := w;
      } else {
        wisdom[v, u] := w;
      }
      PlaneIndexAsWritten(M, N, 0, v, u);
      PlaneIndexBound(L, M, N, 0, v, u);
      assert Coef(F, PlaneIndex(M, N, 0, v, u)) == F[v * N + u];
      s := s + Mul(wisdom[v, u], F[v * N + u]);
      u, PI_Nu, HPI_Nu := u + 1, PI_Nu + n.piN, HPI_Nu + n.hpiN;
    }
  }

  /** rsn_idct's channel-0 pass for sample (j, i): the sum of channel 0, and a table full of its weights. */
  method IdctFirst(L: nat, M: nat, N: nat, F: seq<real>, wisdom: array2<real>, m: Libm, n: Norms,
                   j: nat, i: nat) returns (s: real)
    requires L > 0 && L * M * N <= |F|
    requires wisdom.Length0 == M && wisdom.Length1 == N
    modifies wisdom
    ensures s == InverseSum(F, m, n, M, N, 0, j, i, M)
    ensures InverseWise(wisdom, m, n, j, i)
  {
    s := 0.0;
    var v, PI_Mv, HPI_Mv := 0, 0.0, 0.0;
    while v < M
      invariant v <= M && PI_Mv == Steps(v, n.piM) && HPI_Mv == Steps(v, n.hpiM)
      invariant s == InverseSum(F, m, n, M, N, 0, j, i, v)
      invariant forall v', u :: 0 <= v' < v && 0 <= u < N ==> wisdom[v', u] == Weight(m, n, v', u, j, i)
    {
      s := IdctFirstLine(L, M, N, F, wisdom, m, n, j, i, v, PI_Mv, HPI_Mv, s);
      v, PI_Mv, HPI_Mv := v + 1, PI_Mv + n.piM, HPI_Mv + n.hpiM;
    }
  }

  /** One frequency row of rsn_idct's pass over channel z >= 1, reading the table. */
  method IdctOtherLine(L: nat, M: nat, N: nat, F: seq<real>, wisdom: array2<real>, m: Libm, n: Norms,
                       z: nat, j: nat, i: nat, v: nat, s0: real) returns (s: real)
    requires z < L && L * M * N <= |F| && v < M
    requires wisdom.Length0 == M && wisdom.Length1 == N && InverseWise(wisdom, m, n, j, i)
    ensures s == s0 + InverseRowSum(F, m, n, M, N, z, j, i, v, N)
  {
    s := s0;
    var u := 0;
    while u < N
      invariant u <= N
      invariant s == s0 + InverseRowSum(F, m, n, M, N, z, j, i, v, u)
    {
      PlaneIndexAsWritten(M, N, z, v, u);
      PlaneIndexBound(L, M, N, z, v, u);
      assert Coef(F, PlaneIndex(M, N, z, v, u)) == F[z * N * M + v * N + u];
      s := s + Mul(wisdom[v, u], F[z * N * M + v * N + u]);
      u := u + 1;
    }
  }

  /** rsn_idct's sum for sample (j, i) of channel z >= 1. */
  method IdctOther(L: nat, M: nat, N: nat, F: seq<real>, wisdom: array2<real>, m: Libm, n: Norms,
                   z: nat, j: nat, i: nat) returns (s: real)
    requires z < L && L * M * N <= |F|
    requires wisdom.Length0 == M && wisdom.Length1 == N && InverseWise(wisdom, m, n, j, i)
    ensures s == InverseSum(F, m, n, M, N, z, j, i, M)
  {
    s := 0.0;
    var v := 0;
    while v < M
      invariant v <= M
      invariant s == InverseSum(F, m, n, M, N, z, j, i, v)
    {
      s := IdctOtherLine(L, M, N, F, wisdom, m, n, z, j, i, v, s);
      v := v + 1;
    }
  }

  /**
   * The body of rsn_idct's sample loops: channel 0 of pixel (j, i) refills the
   * table, channels 1..L-1 reuse it, and each sum is stored through the clamp.
   * Exactly the L samples of pixel i of row j change.
   */
  method IdctPixel(L: nat, M: nat, N: nat, F: seq<real>, f: seq<array<Pel>>, wisdom: array2<real>,
                   m: Libm, n: Norms, j: nat, i: nat, base: nat)
    requires L > 0 && L * M * N <= |F| && j < M <= |f| && i < N && base == i * L && base + L <= f[j].Length
    requires wisdom.Length0 == M && wisdom.Length1 == N
    modifies f[j], wisdom
    ensures forall z :: 0 <= z < L ==> f[j][base + z] == ClampPel(InverseSum(F, m, n, M, N, z, j, i, M))
    ensures forall o :: 0 <= o < f[j].Length && (o < base || base + L <= o) ==> f[j][o] == old(f[j][o])
  {
    var s := IdctFirst(L, M, N, F, wisdom, m, n, j, i);
    f[j][base] := ClampPel(s);
    var z := 1;
    while z < L
      invariant 1 <= z <= L && InverseWise(wisdom, m, n, j, i)
      invariant forall z' :: 0 <= z' < z ==> f[j][base + z'] == ClampPel(InverseSum(F, m, n, M, N, z', j, i, M))
      invariant forall o :: 0 <= o < f[j].Length && (o < base || base + z <= o) ==> f[j][o] == old(f[j][o])
    {
      s := IdctOther(L, M, N, F, wisdom, m, n, z, j, i);
      f[j][base + z] := ClampPel(s);
      z := z + 1;
    }
  }

  /** Pixel i of row j, stated per offset: offset o of the pixel holds channel o % L of pixel o / L. */
  method IdctStore(L: nat, M: nat, N: nat, F: seq<real>, f: seq<array<Pel>>, wisdom: array2<real>,
                   m: Libm, n: Norms, j: nat, i: nat, base: nat)
    requires L > 0 && L * M * N <= |F| && j < M <= |f| && i < N && base == i * L && base + L <= f[j].Length
    requires wisdom.Length0 == M && wisdom.Length1 == N
    modifies f[j], wisdom
    ensures forall o :: base <= o < base + L ==> f[j][o] == InverseSample(F, m, n, L, M, N, j, o)
    ensures forall o :: 0 <= o < f[j].Length && (o < base || base + L <= o) ==> f[j][o] == old(f[j][o])
  {
    IdctPixel(L, M, N, F, f, wisdom, m, n, j, i, base);
    forall o | base <= o < base + L
      ensures f[j][o] == InverseSample(F, m, n, L, M, N, j, o)
    {
      DivModUnique(o, i, o - base, L);
      assert f[j][base + (o - base)] == ClampPel(InverseSum(F, m, n, M, N, o - base, j, i, M));
    }
  }

  /** rsn_idct's i loop: every sample of row j is stored, the rest of the row is untouched. */
  method IdctRow(L: nat, M: nat, N: nat, F: seq<real>, f: seq<array<Pel>>, wisdom: array2<real>,
                 m: Libm, n: Norms, j: nat)
    requires L > 0 && L * M * N <= |F| && j < M <= |f| && N * L <= f[j].Length
    requires wisdom.Length0 == M && wisdom.Length1 == N
    modifies f[j], wisdom
    ensures forall o :: 0 <= o < N * L ==> f[j][o] == InverseSample(F, m, n, L, M, N, j, o)
    ensures forall o :: N * L <= o < f[j].Length ==> f[j][o] == old(f[j][o])
  {
    var i, base := 0, 0;
    while i < N
      invariant i <= N && base == i * L
      invariant forall o :: 0 <= o < base ==> f[j][o] == InverseSample(F, m, n, L, M, N, j, o)
      invariant forall o :: base <= o < f[j].Length ==> f[j][o] == old(f[j][o])
    {
      OffsetNext(L, N, i);
      IdctStore(L, M, N, F, f, wisdom, m, n, j, i, base);
      i, base := i + 1, base + L;
    }
  }

  /**
   * rsn_idct: every sample of the M x N image f, in every channel, becomes the
   * clamped orthonormal inverse DCT (DCT-III) of its channel's plane of F; samples
   * past N*L in a row are untouched.
   */
  method Idct(L: nat, M: nat, N: nat, F: seq<real>, f: seq<array<Pel>>, m: Libm)
    requires L > 0 && L * M * N <= |F| && m.Sane()
    requires M <= |f| && forall j :: 0 <= j < M ==> N * L <= f[j].Length
    requires forall j, j' :: 0 <= j < j' < M ==> f[j] != f[j']
    modifies set j | 0 <= j < M :: f[j]
    ensures forall j, o :: 0 <= j < M && 0 <= o < N * L ==>
              f[j][o] == InverseSample(F, m, MakeNorms(m, M, N), L, M, N, j, o)
    ensures forall j, o :: 0 <= j < M && N * L <= o < f[j].Length ==> f[j][o] == old(f[j][o])
  {
    var n := MakeNorms(m, M, N);
    var wisdom := new real[M, N];
    var j := 0;
    while j < M
      invariant j <= M
      invariant forall j', o :: 0 <= j' < j && 0 <= o < N * L ==>
                  f[j'][o] == InverseSample(F, m, n, L, M, N, j', o)
      invariant forall j', o :: 0 <= j' < M && (j <= j' || N * L <= o) && 0 <= o < f[j'].Length ==>
                  f[j'][o] == old(f[j'][o])
    {
      IdctRow(L, M, N, F, f, wisdom, m, n, j);
      j := j + 1;
    }
  }

  /** The term rsn_dct_rowcol's row pass adds to tmp (z, v, u) for sample column i of row v. */
  function RowTerm(f: seq<seq<Pel>>, m: Libm, n: Norms, L: nat, z: nat, v: nat, u: nat, i: nat): real {
    Mul(RowWeight(m, n, u, i), Pixel(f, v, Offset(L, i, z)))
  }

  ghost function RowSum(f: seq<seq<Pel>>, m: Libm, n: Norms, L: nat, z: nat, v: nat, u: nat, cols: nat): real {
    if cols == 0 then 0.0 else RowSum(f, m, n, L, z, v, u, cols - 1) + RowTerm(f, m, n, L, z, v, u, cols - 1)
  }

  /** What the row pass adds to tmp entry k: the 1-D transform along row Row(k) at frequency Col(k). */
  ghost function RowAt(f: seq<seq<Pel>>, m: Libm, n: Norms, L: nat, M: nat, N: nat, k: nat): real {
    RowSum(f, m, n, L, Chan(M, N, k), Row(M, N, k), Col(N, k), N)
  }

  /** The term the column pass adds to F (z, v, u) for row j of the row-pass result T. */
  function ColTerm(T: seq<real>, m: Libm, n: Norms, M: nat, N: nat, z: nat, v: nat, u: nat, j: nat): real {
    Mul(ColWeight(m, n, v, u, j), Coef(T, PlaneIndex(M, N, z, j, u)))
  }

  ghost function ColSum(T: seq<real>, m: Libm, n: Norms, M: nat, N: nat, z: nat, v: nat, u: nat, rows: nat): real {
    if rows == 0 then 0.0 else ColSum(T, m, n, M, N, z, v, u, rows - 1) + ColTerm(T, m, n, M, N, z, v, u, rows - 1)
  }

  /** What the column pass adds to coefficient k. */
  ghost function ColAt(T: seq<real>, m: Libm, n: Norms, M: nat, N: nat, k: nat): real {
    ColSum(T, m, n, M, N, Chan(M, N, k), Row(M, N, k), Col(N, k), M)
  }

  /** The row weight rsn_dct_rowcol stores: 1 for column frequency 0, the running-angle cosine otherwise. */
  method RowTableWeight(m: Libm, n: Norms, u: nat, i: nat, PI_Nu: real, HPI_Nu: real) returns (w: real)
    requires PI_Nu == Steps(u, n.piN) && HPI_Nu == Steps(u, n.hpiN)
    ensures w == RowWeight(m, n, u, i)
  {
    assert (i as real) * PI_Nu + HPI_Nu == AngleN(n, u, i);
    if u == 0 {
      w := 1.0;
    } else {
      w := m.cos((i as real) * PI_Nu + HPI_Nu);
    }
  }

  /** Channel 0 of the row pass for tmp entry k = (0, v, u): it stores the row weights in row v of the table. */
  method RowcolRowFirst(L: nat, M: nat, N: nat, f: seq<seq<Pel>>, tmp: array<real>, wisdom: array2<real>,
                        m: Libm, n: Norms, v: nat, u: nat, PI_Nu: real, HPI_Nu: real, k: nat)
    requires Fits(f, M, N * L) && L > 0 && v < M && k < tmp.Length
    requires wisdom.Length0 == M && wisdom.Length1 == N
    requires PI_Nu == Steps(u, n.piN) && HPI_Nu == Steps(u, n.hpiN)
    modifies tmp, wisdom
    ensures tmp[k] == old(tmp[k]) + RowSum(f, m, n, L, 0, v, u, N)
    ensures forall k' :: 0 <= k' < tmp.Length && k' != k ==> tmp[k'] == old(tmp[k'])
    ensures forall i :: 0 <= i < N ==> wisdom[v, i] == RowWeight(m, n, u, i)
  {
    var i := 0;
    while i < N
      invariant i <= N
      invariant tmp[k] == old(tmp[k]) + RowSum(f, m, n, L, 0, v, u, i)
      invariant forall k' :: 0 <= k' < tmp.Length && k' != k ==> tmp[k'] == old(tmp[k'])
      invariant forall i' :: 0 <= i' < i ==> wisdom[v, i'] == RowWeight(m, n, u, i')
    {
      var w := RowTableWeight(m, n, u, i, PI_Nu, HPI_Nu);
      wisdom[v, i] := w;
      OffsetBound(L, N, i, 0);
      assert Pixel(f, v, Offset(L, i, 0)) == f[v][i * L] as real;
      tmp[k] := tmp[k] + Mul(wisdom[v, i], f[v][i * L] as real);
      i := i + 1;
    }
  }

  /** Channel z >= 1 of the row pass for tmp entry k = (z, v, u), reading row v of the table. */
  method RowcolRowOther(L: nat, M: nat, N: nat, f: seq<seq<Pel>>, tmp: array<real>, wisdom: array2<real>,
                        m: Libm, n: Norms, z: nat, v: nat, u: nat, k: nat)
    requires Fits(f, M, N * L) && z < L && v < M && k < tmp.Length
    requires wisdom.Length0 == M && wisdom.Length1 == N
    requires forall i :: 0 <= i < N ==> wisdom[v, i] == RowWeight(m, n, u, i)
    modifies tmp
    ensures tmp[k] == old(tmp[k]) + RowSum(f, m, n, L, z, v, u, N)
    ensures forall k' :: 0 <= k' < tmp.Length && k' != k ==> tmp[k'] == old(tmp[k'])
  {
    var i := 0;
    while i < N
      invariant i <= N
      invariant tmp[k] == old(tmp[k]) + RowSum(f, m, n, L, z, v, u, i)
      invariant forall k' :: 0 <= k' < tmp.Length && k' != k ==> tmp[k'] == old(tmp[k'])
    {
      OffsetBound(L, N, i, z);
      assert Pixel(f, v, Offset(L, i, z)) == f[v][i * L + z] as real;
      tmp[k] := tmp[k] + Mul(wisdom[v, i], f[v][i * L + z] as real);
      i := i + 1;
    }
  }

  /** The row pass for row v and frequency u: exactly the L tmp entries (z, v, u) change. */
  method RowcolRowFrequency(L: nat, M: nat, N: nat, f: seq<seq<Pel>>, tmp: array<real>, wisdom: array2<real>,
                            m: Libm, n: Norms, v: nat, u: nat, PI_Nu: real, HPI_Nu: real)
    requires Fits(f, M, N * L) && L > 0 && v < M && u < N && L * M * N <= tmp.Length
    requires wisdom.Length0 == M && wisdom.Length1 == N
    requires PI_Nu == Steps(u, n.piN) && HPI_Nu == Steps(u, n.hpiN)
    modifies tmp, wisdom
    ensures forall k :: 0 <= k < tmp.Length ==>
              tmp[k] == old(tmp[k]) + (if AtFrequency(L, M, N, k, v, u) then RowAt(f, m, n, L, M, N, k) else 0.0)
  {
    PlaneIndexAsWritten(M, N, 0, v, u);
    PlaneIndexBound(L, M, N, 0, v, u);
    PlaneIndexDecode(M, N, 0, v, u);
    RowcolRowFirst(L, M, N, f, tmp, wisdom, m, n, v, u, PI_Nu, HPI_Nu, v * N + u);
    forall k | 0 <= k < L * M * N {
      PlaneIndexRecode(L, M, N, k);
    }
    var z := 1;
    while z < L
      invariant 1 <= z <= L
      invariant forall i :: 0 <= i < N ==> wisdom[v, i] == RowWeight(m, n, u, i)
      invariant forall k :: 0 <= k < tmp.Length ==>
                  tmp[k] == old(tmp[k]) + (if AtFrequency(L, M, N, k, v, u) && Chan(M, N, k) < z
                                           then RowAt(f, m, n, L, M, N, k) else 0.0)
    {
      PlaneIndexAsWritten(M, N, z, v, u);
      PlaneIndexBound(L, M, N, z, v, u);
      PlaneIndexDecode(M, N, z, v, u);
      RowcolRowOther(L, M, N, f, tmp, wisdom, m, n, z, v, u, z * N * M + v * N + u);
      z := z + 1;
    }
  }

  /** The row pass's u loop for row v, with the running column angles. */
  method RowcolRowLine(L: nat, M: nat, N: nat, f: seq<seq<Pel>>, tmp: array<real>, wisdom: array2<real>,
                       m: Libm, n: Norms, v: nat)
    requires Fits(f, M, N * L) && L > 0 && v < M && L * M * N <= tmp.Length
    requires wisdom.Length0 == M && wisdom.Length1 == N
    modifies tmp, wisdom
    ensures forall k :: 0 <= k < tmp.Length ==>
              tmp[k] == old(tmp[k]) + (if k < L * M * N && Row(M, N, k) == v then RowAt(f, m, n, L, M, N, k) else 0.0)
  {
    var u, PI_Nu, HPI_Nu := 0, 0.0, 0.0;
    while u < N
      invariant u <= N && PI_Nu == Steps(u, n.piN) && HPI_Nu == Steps(u, n.hpiN)
      invariant forall k :: 0 <= k < tmp.Length ==>
                  tmp[k] == old(tmp[k]) + (if k < L * M * N && Row(M, N, k) == v && Col(N, k) < u
                                           then RowAt(f, m, n, L, M, N, k) else 0.0)
    {
      RowcolRowFrequency(L, M, N, f, tmp, wisdom, m, n, v, u, PI_Nu, HPI_Nu);
      u, PI_Nu, HPI_Nu := u + 1, PI_Nu + n.piN, HPI_Nu + n.hpiN;
    }
    forall k | 0 <= k < L * M * N {
      PlaneIndexRecode(L, M, N, k);
    }
  }

  /** rsn_dct_rowcol's first pass: every tmp entry gets its row transform added. */
  method RowcolRows(L: nat, M: nat, N: nat, f: seq<seq<Pel>>, tmp: array<real>, wisdom: array2<real>,
                    m: Libm, n: Norms)
    requires Fits(f, M, N * L) && L > 0 && L * M * N <= tmp.Length
    requires wisdom.Length0 == M && wisdom.Length1 == N
    modifies tmp, wisdom
    ensures forall k :: 0 <= k < tmp.Length ==>
              tmp[k] == old(tmp[k]) + (if k < L * M * N then RowAt(f, m, n, L, M, N, k) else 0.0)
  {
    var v := 0;
    while v < M
      invariant v <= M
      invariant forall k :: 0 <= k < tmp.Length ==>
                  tmp[k] == old(tmp[k]) + (if k < L * M * N && Row(M, N, k) < v
                                           then RowAt(f, m, n, L, M, N, k) else 0.0)
    {
      RowcolRowLine(L, M, N, f, tmp, wisdom, m, n, v);
      v := v + 1;
    }
    forall k | 0 <= k < L * M * N {
      PlaneIndexRecode(L, M, N, k);
    }
  }

  /** The column weight rsn_dct_rowcol stores, from the running row angles. */
  method ColTableWeight(m: Libm, n: Norms, v: nat, u: nat, j: nat, PI_Mv: real, HPI_Mv: real) returns (w: real)
    requires PI_Mv == Steps(v, n.piM) && HPI_Mv == Steps(v, n.hpiM)
    ensures w == ColWeight(m, n, v, u, j)
  {
    assert (j as real) * PI_Mv + HPI_Mv == AngleM(n, v, j);
    if v + u == 0 {
      w := n.hnorm;
    } else if v == 0 {
      w := n.norm2;
    } else if u == 0 {
      w := n.norm2 * m.cos((j as real) * PI_Mv + HPI_Mv);
    } else {
      w := n.norm * m.cos((j as real) * PI_Mv + HPI_Mv);
    }
  }

  /**
   * Channel 0 of the column pass for coefficient k = (0, v, u): the weight of row j
   * is stored in cell [j][0] or [j][u] by case, each of which is cell [j][u].
   */
  method RowcolColFirst(L: nat, M: nat, N: nat, T: seq<real>, F: array<real>, wisdom: array2<real>,
                        m: Libm, n: Norms, v: nat, u: nat, PI_Mv: real, HPI_Mv: real, k: nat)
    requires L > 0 && u < N && L * M * N <= |T| && k < F.Length
    requires wisdom.Length0 == M && wisdom.Length1 == N
    requires PI_Mv == Steps(v, n.piM) && HPI_Mv == Steps(v, n.hpiM)
    modifies F, wisdom
    ensures F[k] == old(F[k]) + ColSum(T, m, n, M, N, 0, v, u, M)
    ensures forall k' :: 0 <= k' < F.Length && k' != k ==> F[k'] == old(F[k'])
    ensures forall j :: 0 <= j < M ==> wisdom[j, u] == ColWeight(m, n, v, u, j)
  {
    var j := 0;
    while j < M
      invariant j <= M
      invariant F[k] == old(F[k]) + ColSum(T, m, n, M, N, 0, v, u, j)
      invariant forall k' :: 0 <= k' < F.Length && k' != k ==> F[k'] == old(F[k'])
      invariant forall j' :: 0 <= j' < j ==> wisdom[j', u] == ColWeight(m, n, v, u, j')
    {
      var w := ColTableWeight(m, n, v, u, j, PI_Mv, HPI_Mv);
      if v + u == 0 {
        wisdom[j, 0] := w;
      } else if v == 0 {
        wisdom[j, u] := w;
      } else if u == 0 {
        wisdom[j, 0] := w;
      } else {
        wisdom[j, u] := w;
      }
      PlaneIndexAsWritten(M, N, 0, j, u);
      PlaneIndexBound(L, M, N, 0, j, u);
      assert Coef(T, PlaneIndex(M, N, 0, j, u)) == T[j * N + u];
      F[k] := F[k] + Mul(wisdom[j, u], T[j * N + u]);
      j := j + 1;
    }
  }

  /** Channel z >= 1 of the column pass for coefficient k = (z, v, u), reading column u of the table. */
  method RowcolColOther(L: nat, M: nat, N: nat, T: seq<real>, F: array<real>, wisdom: array2<real>,
                        m: Libm, n: Norms, z: nat, v: nat, u: nat, k: nat)
    requires z < L && u < N && L * M * N <= |T| && k < F.Length
    requires wisdom.Length0 == M && wisdom.Length1 == N
    requires forall j :: 0 <= j < M ==> wisdom[j, u] == ColWeight(m, n, v, u, j)
    modifies F
    ensures F[k] == old(F[k]) + ColSum(T, m, n, M, N, z, v, u, M)
    ensures forall k' :: 0 <= k' < F.Length && k' != k ==> F[k'] == old(F[k'])
  {
    var j := 0;
    while j < M
      invariant j <= M
      invariant F[k] == old(F[k]) + ColSum(T, m, n, M, N, z, v, u, j)
      invariant forall k' :: 0 <= k' < F.Length && k' != k ==> F[k'] == old(F[k'])
    {
      PlaneIndexAsWritten(M, N, z, j, u);
      PlaneIndexBound(L, M, N, z, j, u);
      assert Coef(T, PlaneIndex(M, N, z, j, u)) == T[z * N * M + j * N + u];
      F[k] := F[k] + Mul(wisdom[j, u], T[z * N * M + j * N + u]);
      j := j + 1;
    }
  }

  /** The column pass for frequency (v, u): exactly the L coefficients (z, v, u) change. */
  method RowcolColFrequency(L: nat, M: nat, N: nat, T: seq<real>, F: array<real>, wisdom: array2<real>,
                            m: Libm, n: Norms, v: nat, u: nat, PI_Mv: real, HPI_Mv: real)
    requires L > 0 && v < M && u < N && L * M * N <= |T| && L * M * N <= F.Length
    requires wisdom.Length0 == M && wisdom.Length1 == N
    requires PI_Mv == Steps(v, n.piM) && HPI_Mv == Steps(v, n.hpiM)
    modifies F, wisdom
    ensures forall k :: 0 <= k < F.Length ==>
              F[k] == old(F[k]) + (if AtFrequency(L, M, N, k, v, u) then ColAt(T, m, n, M, N, k) else 0.0)
  {
    PlaneIndexAsWritten(M, N, 0, v, u);
    PlaneIndexBound(L, M, N, 0, v, u);
    PlaneIndexDecode(M, N, 0, v, u);
    RowcolColFirst(L, M, N, T, F, wisdom, m, n, v, u, PI_Mv, HPI_Mv, v * N + u);
    forall k | 0 <= k < L * M * N {
      PlaneIndexRecode(L, M, N, k);
    }
    var z := 1;
    while z < L
      invariant 1 <= z <= L
      invariant forall j :: 0 <= j < M ==> wisdom[j, u] == ColWeight(m, n, v, u, j)
      invariant forall k :: 0 <= k < F.Length ==>
                  F[k] == old(F[k]) + (if AtFrequency(L, M, N, k, v, u) && Chan(M, N, k) < z
                                       then ColAt(T, m, n, M, N, k) else 0.0)
    {
      PlaneIndexAsWritten(M, N, z, v, u);
      PlaneIndexBound(L, M, N, z, v, u);
      PlaneIndexDecode(M, N, z, v, u);
      RowcolColOther(L, M, N, T, F, wisdom, m, n, z, v, u, z * N * M + v * N + u);
      z := z + 1;
    }
  }

  /** The column pass's v loop for column frequency u, with the running row angles. */
  method RowcolColLine(L: nat, M: nat, N: nat, T: seq<real>, F: array<real>, wisdom: array2<real>,
                       m: Libm, n: Norms, u: nat)
    requires L > 0 && u < N && L * M * N <= |T| && L * M * N <= F.Length
    requires wisdom.Length0 == M && wisdom.Length1 == N
    modifies F, wisdom
    ensures forall k :: 0 <= k < F.Length ==>
              F[k] == old(F[k]) + (if k < L * M * N && Col(N, k) == u then ColAt(T, m, n, M, N, k) else 0.0)
  {
    var v, PI_Mv, HPI_Mv := 0, 0.0, 0.0;
    while v < M
      invariant v <= M && PI_Mv == Steps(v, n.piM) && HPI_Mv == Steps(v, n.hpiM)
      invariant forall k :: 0 <= k < F.Length ==>
                  F[k] == old(F[k]) + (if k < L * M * N && Col(N, k) == u && Row(M, N, k) < v
                                       then ColAt(T, m, n, M, N, k) else 0.0)
    {
      RowcolColFrequency(L, M, N, T, F, wisdom, m, n, v, u, PI_Mv, HPI_Mv);
      v, PI_Mv, HPI_Mv := v + 1, PI_Mv + n.piM, HPI_Mv + n.hpiM;
    }
    forall k | 0 <= k < L * M * N {
      PlaneIndexRecode(L, M, N, k);
    }
  }

  /** rsn_dct_rowcol's second pass: every coefficient gets its column transform of T added. */
  method RowcolCols(L: nat, M: nat, N: nat, T: seq<real>, F: array<real>, wisdom: array2<real>,
                    m: Libm, n: Norms)
    requires L > 0 && L * M * N <= |T| && L * M * N <= F.Length
    requires wisdom.Length0 == M && wisdom.Length1 == N
    modifies F, wisdom
    ensures forall k :: 0 <= k < F.Length ==>
              F[k] == old(F[k]) + (if k < L * M * N then ColAt(T, m, n, M, N, k) else 0.0)
  {
    var u := 0;
    while u < N
      invariant u <= N
      invariant forall k :: 0 <= k < F.Length ==>
                  F[k] == old(F[k]) + (if k < L * M * N && Col(N, k) < u then ColAt(T, m, n, M, N, k) else 0.0)
    {
      RowcolColLine(L, M, N, T, F, wisdom, m, n, u);
      u := u + 1;
    }
    forall k | 0 <= k < L * M * N {
      PlaneIndexRecode(L, M, N, k);
    }
  }

  /** The tmp buffer after the row pass: what malloc left in it plus each entry's row transform. */
  ghost function RowPassOf(tmp0: seq<real>, f: seq<seq<Pel>>, m: Libm, n: Norms, L: nat, M: nat, N: nat): seq<real> {
    seq(|tmp0|, k requires 0 <= k < |tmp0| => tmp0[k] + (if k < L * M * N then RowAt(f, m, n, L, M, N, k) else 0.0))
  }

  /**
   * rsn_dct_rowcol: the row pass adds into tmp, whose initial contents tmp0 are
   * whatever malloc returned; the column pass adds the column transform of the
   * result into F. Nothing past L*M*N changes.
   */
  method DctRowcol(L: nat, M: nat, N: nat, f: seq<seq<Pel>>, F: array<real>, m: Libm, tmp0: seq<real>)
    requires Fits(f, M, N * L) && L > 0 && L * M * N <= F.Length && m.Sane()
    requires |tmp0| == L * M * N
    modifies F
    ensures forall k :: 0 <= k < F.Length ==>
              F[k] == old(F[k]) + (if k < L * M * N
                                   then ColAt(RowPassOf(tmp0, f, m, MakeNorms(m, M, N), L, M, N), m,
                                              MakeNorms(m, M, N), M, N, k)
                                   else 0.0)
  {
    var n := MakeNorms(m, M, N);
    var wisdom := new real[M, N];
    var tmp := new real[L * M * N](k requires 0 <= k < L * M * N => tmp0[k]);
    RowcolRows(L, M, N, f, tmp, wisdom, m, n);
    assert tmp[..] == RowPassOf(tmp0, f, m, n, L, M, N);
    RowcolCols(L, M, N, tmp[..], F, wisdom, m, n);
  }

  /** c * (a + r * p) == c * a + (c * r) * p, on the named products. */
  lemma MulDistributes(c: real, a: real, r: real, p: real)
    ensures Mul(c, a + Mul(r, p)) == Mul(c, a) + Mul(Mul(c, r), p)
  {
    assert c * (a + r * p) == c * a + c * (r * p);
  }

  /** c * (a + b) == c * a + c * b, on the named products. */
  lemma MulAdds(c: real, a: real, b: real)
    ensures Mul(c, a + b) == Mul(c, a) + Mul(c, b)
  {
  }

  /** Scaling row j's row transform by its column weight gives row j's share of the direct sum. */
  lemma {:induction false} RowScaled(f: seq<seq<Pel>>, m: Libm, n: Norms, L: nat, z: nat, v: nat, u: nat,
                                     j: nat, cols: nat)
    requires m.cos(0.0) == 1.0
    ensures Mul(ColWeight(m, n, v, u, j), RowSum(f, m, n, L, z, j, u, cols)) == ForwardRowSum(f, m, n, L, z, v, u, j, cols)
  {
    if cols > 0 {
      var c, a := ColWeight(m, n, v, u, j), RowSum(f, m, n, L, z, j, u, cols - 1);
      var r, p := RowWeight(m, n, u, cols - 1), Pixel(f, j, Offset(L, cols - 1, z));
      RowScaled(f, m, n, L, z, v, u, j, cols - 1);
      RowColFactorsWeight(m, n, v, u, j, cols - 1);
      MulDistributes(c, a, r, p);
      assert RowSum(f, m, n, L, z, j, u, cols) == a + Mul(r, p);
      assert Mul(c, r) == Weight(m, n, v, u, j, cols - 1);
    }
  }

  /**
   * A column pass over row transforms added to a starting buffer J adds up to the
   * column pass over J plus, row by row, the direct sum.
   */
  lemma {:induction false} ColOfRows(T: seq<real>, J: seq<real>, f: seq<seq<Pel>>, m: Libm, n: Norms,
                                     L: nat, M: nat, N: nat, z: nat, v: nat, u: nat, rows: nat)
    requires m.cos(0.0) == 1.0 && rows <= M
    requires forall j :: 0 <= j < M ==>
               Coef(T, PlaneIndex(M, N, z, j, u)) == Coef(J, PlaneIndex(M, N, z, j, u)) + RowSum(f, m, n, L, z, j, u, N)
    ensures ColSum(T, m, n, M, N, z, v, u, rows) == ColSum(J, m, n, M, N, z, v, u, rows) + ForwardSum(f, m, n, L, N, z, v, u, rows)
  {
    if rows > 0 {
      ColOfRows(T, J, f, m, n, L, M, N, z, v, u, rows - 1);
      RowScaled(f, m, n, L, z, v, u, rows - 1, N);
      MulAdds(ColWeight(m, n, v, u, rows - 1), Coef(J, PlaneIndex(M, N, z, rows - 1, u)),
              RowSum(f, m, n, L, z, rows - 1, u, N));
    }
  }

  /** The column pass over an all-zero buffer adds nothing. */
  lemma {:induction false} ColOfZero(J: seq<real>, m: Libm, n: Norms, M: nat, N: nat, z: nat, v: nat, u: nat, rows: nat)
    requires forall k :: 0 <= k < |J| ==> J[k] == 0.0
    ensures ColSum(J, m, n, M, N, z, v, u, rows) == 0.0
  {
    if rows > 0 {
      ColOfZero(J, m, n, M, N, z, v, u, rows - 1);
    }
  }

  /**
   * What rsn_dct_rowcol adds to coefficient k is what rsn_dct adds plus the column
   * transform of whatever tmp held before the row pass.
   */
  lemma RowcolAddsJunk(tmp0: seq<real>, f: seq<seq<Pel>>, m: Libm, n: Norms, L: nat, M: nat, N: nat, k: nat)
    requires m.cos(0.0) == 1.0 && |tmp0| == L * M * N && k < L * M * N
    ensures ColAt(RowPassOf(tmp0, f, m, n, L, M, N), m, n, M, N, k) == ColAt(tmp0, m, n, M, N, k) + ForwardAt(f, m, n, L, M, N, k)
  {
    var T := RowPassOf(tmp0, f, m, n, L, M, N);
    PlaneIndexRecode(L, M, N, k);
    var z, v, u := Chan(M, N, k), Row(M, N, k), Col(N, k);
    forall j | 0 <= j < M
      ensures Coef(T, PlaneIndex(M, N, z, j, u)) == Coef(tmp0, PlaneIndex(M, N, z, j, u)) + RowSum(f, m, n, L, z, j, u, N)
    {
      PlaneIndexBound(L, M, N, z, j, u);
      PlaneIndexDecode(M, N, z, j, u);
    }
    ColOfRows(T, tmp0, f, m, n, L, M, N, z, v, u, M);
  }

  /**
   * Had tmp started at zero, rsn_dct_rowcol would add exactly what rsn_dct adds:
   * the row-column factorisation computes the same weighted sums.
   */
  lemma RowcolIsForward(tmp0: seq<real>, f: seq<seq<Pel>>, m: Libm, n: Norms, L: nat, M: nat, N: nat, k: nat)
    requires m.cos(0.0) == 1.0 && |tmp0| == L * M * N && k < L * M * N
    requires forall k' :: 0 <= k' < |tmp0| ==> tmp0[k'] == 0.0
    ensures ColAt(RowPassOf(tmp0, f, m, n, L, M, N), m, n, M, N, k) == ForwardAt(f, m, n, L, M, N, k)
  {
    RowcolAddsJunk(tmp0, f, m, n, L, M, N, k);
    ColOfZero(tmp0, m, n, M, N, Chan(M, N, k), Row(M, N, k), Col(N, k), M);
  }

  /**
   * The junk term is not zero: a 1 x 1 one-channel tmp that happens to hold 1.0
   * adds HNORM to the coefficient (and HNORM is positive, see UnitHnormPositive).
   */
  lemma UnitColumnPass(m: Libm, n: Norms)
    ensures ColAt([1.0], m, n, 1, 1, 0) == n.hnorm
  {
    assert Chan(1, 1, 0) == 0 && Row(1, 1, 0) == 0 && Col(1, 0) == 0;
    assert ColSum([1.0], m, n, 1, 1, 0, 0, 0, 1) == ColTerm([1.0], m, n, 1, 1, 0, 0, 0, 0);
    assert ColTerm([1.0], m, n, 1, 1, 0, 0, 0, 0) == Mul(n.hnorm, 1.0);
  }

  /** HNORM of a 1 x 1 plane is 1 / sqrt(1), which is positive. */
  lemma UnitHnormPositive(m: Libm)
    requires m.Sane()
    ensures MakeNorms(m, 1, 1).hnorm > 0.0
  {
    assert m.sqrt(1.0) > 0.0;
  }

  /**
   * rsn_dct_rowcol with its temporary buffer zeroed, as calloc would return it:
   * every coefficient gets exactly what rsn_dct adds.
   */
  method DctRowcolZeroed(L: nat, M: nat, N: nat, f: seq<seq<Pel>>, F: array<real>, m: Libm)
    requires Fits(f, M, N * L) && L > 0 && L * M * N <= F.Length && m.Sane() && m.cos(0.0) == 1.0
    modifies F
    ensures forall k :: 0 <= k < F.Length ==>
              F[k] == old(F[k]) + (if k < L * M * N then ForwardAt(f, m, MakeNorms(m, M, N), L, M, N, k) else 0.0)
  {
    var zeros := seq(L * M * N, _ => 0.0);
    DctRowcol(L, M, N, f, F, m, zeros);
    forall k | 0 <= k < L * M * N {
      RowcolIsForward(zeros, f, m, MakeNorms(m, M, N), L, M, N, k);
    }
  }
}
