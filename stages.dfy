/**
 * The stages core.c and resine.c share line for line: the 2-D FFTW path's copies
 * between the channel-interleaved image, the per-channel planes and the
 * plane-major spectrum; the execution of a foreign FFTW plan on every plane; the
 * clamped store of the inverse planes into the output image; and the crop /
 * zero-pad loop of rsn_scale_standard.
 */
module Stages {
  import opened Common
  import opened Layout
  import opened Util
  import Dsp

  /**
   * The two FFTW r2r plans the 2-D path executes on an M x N plane: REDFT10 (the
   * unnormalised DCT-II) forward and REDFT01 (the unnormalised DCT-III) inverse.
   * The model does not interpret them.
   */
  datatype Fftw = Fftw(redft10: (nat, nat, seq<real>) -> seq<real>, redft01: (nat, nat, seq<real>) -> seq<real>)
  {
    /** An in-place execution writes a plane of the size it was given. */
    ghost predicate Sane() {
      forall M: nat, N: nat, p: seq<real> :: |redft10(M, N, p)| == |p| && |redft01(M, N, p)| == |p|
    }
  }

  /** Entry k of plane z of a snapshot of planes (0 outside it). */
  function Sample(P: seq<seq<real>>, z: nat, k: nat): real {
    if z < |P| && k < |P[z]| then P[z][k] else 0.0
  }

  /** A[..n] followed by B[n..]: B with its first n entries overwritten by those of A. */
  function Overwritten<T>(A: seq<T>, B: seq<T>, n: nat): (r: seq<T>)
    requires |A| == |B|
    ensures |r| == |B|
  {
    seq(|B|, k requires 0 <= k < |B| => if k < n then A[k] else B[k])
  }

  lemma OverwriteStep<T>(A: seq<T>, B: seq<T>, n: nat)
    requires |A| == |B| && n < |B|
    ensures Overwritten(A, B, n)[n := A[n]] == Overwritten(A, B, n + 1)
  {
  }

  lemma OverwriteAll<T>(A: seq<T>, B: seq<T>)
    requires |A| == |B|
    ensures Overwritten(A, B, |B|) == A && Overwritten(A, B, 0) == B
  {
  }

  // ---------------------------------------------------------------- layouts

  /** Sample k of plane z of the planar copy: pixel k % N of row k / N, channel z. */
  function PlanarAt(f: seq<seq<Pel>>, L: nat, N: nat, z: nat, k: nat): real {
    if N == 0 then 0.0 else Dsp.Pixel(f, k / N, Offset(L, k % N, z))
  }

  /** The L planes, each M x N row-major, the 2-D path splits image f into. */
  function Planar(f: seq<seq<Pel>>, L: nat, M: nat, N: nat): (P: seq<seq<real>>)
    ensures |P| == L && forall z :: 0 <= z < L ==> |P[z]| == M * N
  {
    seq(L, z requires 0 <= z < L => seq(M * N, k requires 0 <= k < M * N => PlanarAt(f, L, N, z, k)))
  }

  /**
   * The M rows of N pixels of L interleaved channels that planes P describe, when
   * row j of each plane starts at j * w (w = N for a plane of exactly N columns).
   */
  function Interleave(P: seq<seq<real>>, L: nat, M: nat, N: nat, w: nat): (g: seq<seq<real>>)
    ensures |g| == M && forall j :: 0 <= j < M ==> |g[j]| == N * L
  {
    seq(M, j requires 0 <= j < M =>
      seq(N * L, o requires 0 <= o < N * L => if L == 0 then 0.0 else Sample(P, o % L, RowMajor(j, o / L, w))))
  }

  /** The plane-major spectrum holding planes P one after the other. */
  function Flatten(P: seq<seq<real>>, L: nat, M: nat, N: nat): (F: seq<real>)
    ensures |F| == L * M * N
  {
    seq(L * M * N, k requires 0 <= k < L * M * N => Sample(P, Chan(M, N, k), RowMajor(Row(M, N, k), Col(N, k), N)))
  }

  /** The L planes of M x N coefficients a plane-major spectrum F consists of. */
  function Unflatten(F: seq<real>, L: nat, M: nat, N: nat): (P: seq<seq<real>>)
    ensures |P| == L && forall z :: 0 <= z < L ==> |P[z]| == M * N
  {
    seq(L, z requires 0 <= z < L => seq(M * N, k requires 0 <= k < M * N => Dsp.Coef(F, RowMajor(z, k, M * N))))
  }

  /** Sample o of row j survives the planar copy and the interleave back. */
  lemma InterleavePlanarAt(f: seq<seq<Pel>>, L: nat, M: nat, N: nat, j: nat, o: nat)
    requires Fits(f, M, N * L) && j < M && o < N * L
    ensures Interleave(Planar(f, L, M, N), L, M, N, N)[j][o] == f[j][o] as real
  {
    RowMajorOnto(o, L, N);
    var x, z := o / L, o % L;
    RowMajorBound(j, x, N, M);
    DivModUnique(RowMajor(j, x, N), j, x, N);
    assert Offset(L, x, z) == o;
    assert Planar(f, L, M, N)[z][RowMajor(j, x, N)] == PlanarAt(f, L, N, z, RowMajor(j, x, N));
  }

  /**
   * Interleaving the planar copy of an image gives the image back: the two copies are inverse.
   * The other direction rests on the index bijection: Layout.PlaneIndexInjective and
   * Layout.PlaneIndexRecode for the indices, FlattenUnflatten and UnflattenFlatten for the planes.
   */
  lemma InterleavePlanar(f: seq<seq<Pel>>, L: nat, M: nat, N: nat)
    requires Fits(f, M, N * L)
    ensures forall j, o :: 0 <= j < M && 0 <= o < N * L ==> Interleave(Planar(f, L, M, N), L, M, N, N)[j][o] == f[j][o] as real
  {
    forall j, o | 0 <= j < M && 0 <= o < N * L
      ensures Interleave(Planar(f, L, M, N), L, M, N, N)[j][o] == f[j][o] as real
    {
      InterleavePlanarAt(f, L, M, N, j, o);
    }
  }

  /** Splitting a plane-major spectrum into planes and flattening them again changes nothing. */
  lemma FlattenUnflatten(F: seq<real>, L: nat, M: nat, N: nat)
    requires |F| == L * M * N
    ensures Flatten(Unflatten(F, L, M, N), L, M, N) == F
  {
    forall k | 0 <= k < L * M * N
      ensures Flatten(Unflatten(F, L, M, N), L, M, N)[k] == F[k]
    {
      PlaneIndexRecode(L, M, N, k);
      RowMajorBound(Row(M, N, k), Col(N, k), N, M);
      assert M * N == N * M;
    }
  }

  /** Flattening L planes of M x N and splitting the result again gives the planes back. */
  lemma UnflattenFlatten(P: seq<seq<real>>, L: nat, M: nat, N: nat)
    requires |P| == L && forall z :: 0 <= z < L ==> |P[z]| == M * N
    ensures Unflatten(Flatten(P, L, M, N), L, M, N) == P
  {
    var Q := Unflatten(Flatten(P, L, M, N), L, M, N);
    forall z | 0 <= z < L
      ensures Q[z] == P[z]
    {
      forall k | 0 <= k < M * N
        ensures Q[z][k] == P[z][k]
      {
        RowMajorOnto(k, N, M);
        var y, x := k / N, k % N;
        PlaneIndexDecode(M, N, z, y, x);
        PlaneIndexBound(L, M, N, z, y, x);
        assert RowMajor(z, k, M * N) == PlaneIndex(M, N, z, y, x);
      }
    }
  }

  /** Coefficient (z, y, x) of the flattened planes is sample y*N + x of plane z. */
  lemma FlattenAt(P: seq<seq<real>>, L: nat, M: nat, N: nat, z: nat, y: nat, x: nat)
    requires z < L && y < M && x < N
    ensures PlaneIndex(M, N, z, y, x) < L * M * N
    ensures Flatten(P, L, M, N)[PlaneIndex(M, N, z, y, x)] == Sample(P, z, RowMajor(y, x, N))
  {
    PlaneIndexBound(L, M, N, z, y, x);
    PlaneIndexDecode(M, N, z, y, x);
  }

  // ---------------------------------------------------------------- decompose copies

  /** One channel of the planar copy: plane[y*N + x] = f[y][x*L + z], y < M, x < N. */
  method PlanarPlane(L: nat, M: nat, N: nat, f: seq<seq<Pel>>, z: nat, plane: array<real>)
    requires z < L && plane.Length == M * N
    modifies plane
    ensures plane[..] == Planar(f, L, M, N)[z]
  {
    ghost var P := Planar(f, L, M, N)[z];
    ghost var S := plane[..];
    var y, base := 0, 0;
    while y < M
      invariant y <= M && base == y * N && base <= M * N
      invariant plane[..] == Overwritten(P, S, base)
    {
      OffsetNext(N, M, y);
      var x := 0;
      while x < N
        invariant x <= N
        invariant plane[..] == Overwritten(P, S, base + x)
      {
        DivModUnique(base + x, y, x, N);
        OverwriteStep(P, S, base + x);
        plane[base + x] := Dsp.Pixel(f, y, Offset(L, x, z));
        x := x + 1;
      }
      y, base := y + 1, base + N;
    }
    OverwriteAll(P, S);
  }

  /** The planar copy of the 2-D decomposition: plane z receives channel z of f. */
  method SplitPlanes(L: nat, M: nat, N: nat, f: seq<seq<Pel>>, ps: seq<array<real>>)
    requires |ps| == L && forall z :: 0 <= z < L ==> ps[z].Length == M * N
    requires forall z, z' :: 0 <= z < z' < L ==> ps[z] != ps[z']
    modifies set z | 0 <= z < L :: ps[z]
    ensures forall z :: 0 <= z < L ==> ps[z][..] == Planar(f, L, M, N)[z]
  {
    var z := 0;
    while z < L
      invariant z <= L
      invariant forall z' :: 0 <= z' < z ==> ps[z'][..] == Planar(f, L, M, N)[z']
    {
      PlanarPlane(L, M, N, f, z, ps[z]);
      z := z + 1;
    }
  }

  /** rsn_fftw_execute_r2r(plan, plane, plane): the foreign plan rewrites the plane in place. */
  method Execute(M: nat, N: nat, plan: (nat, nat, seq<real>) -> seq<real>, plane: array<real>)
    requires |plan(M, N, plane[..])| == plane.Length
    modifies plane
    ensures plane[..] == plan(M, N, old(plane[..]))
  {
    var r := plan(M, N, plane[..]);
    forall k | 0 <= k < plane.Length {
      plane[k] := r[k];
    }
  }

  /**
   * The plan built on planes[0] and executed there, then re-executed on planes
   * 1..L-1: every plane is replaced by its transform.
   */
  method ExecutePlanes(L: nat, M: nat, N: nat, plan: (nat, nat, seq<real>) -> seq<real>, ps: seq<array<real>>)
    requires 0 < L == |ps| && forall z :: 0 <= z < L ==> ps[z].Length == M * N
    requires forall z, z' :: 0 <= z < z' < L ==> ps[z] != ps[z']
    requires forall p: seq<real> :: |plan(M, N, p)| == |p|
    modifies set z | 0 <= z < L :: ps[z]
    ensures forall z :: 0 <= z < L ==> ps[z][..] == plan(M, N, old(ps[z][..]))
  {
    Execute(M, N, plan, ps[0]);
    var z := 1;
    while z < L
      invariant 1 <= z <= L
      invariant forall z' :: 0 <= z' < z ==> ps[z'][..] == plan(M, N, old(ps[z'][..]))
      invariant forall z' :: z <= z' < L ==> ps[z'][..] == old(ps[z'][..])
    {
      Execute(M, N, plan, ps[z]);
      z := z + 1;
    }
  }

  /** One row of the copy into the spectrum: F[z*M*N + y*N + x] = P[z][y*N + x] for x < N. */
  method MergeLine(L: nat, M: nat, N: nat, P: seq<seq<real>>, z: nat, y: nat, F: array<real>, dst: nat,
                   ghost S: seq<real>)
    requires z < L && y < M && dst == PlaneIndex(M, N, z, y, 0) && F.Length == |S| == L * M * N
    requires F[..] == Overwritten(Flatten(P, L, M, N), S, dst)
    modifies F
    ensures F[..] == Overwritten(Flatten(P, L, M, N), S, dst + N)
  {
    var x, k := 0, y * N;
    while x < N
      invariant x <= N && k == RowMajor(y, x, N)
      invariant F[..] == Overwritten(Flatten(P, L, M, N), S, dst + x)
    {
      FlattenAt(P, L, M, N, z, y, x);
      OverwriteStep(Flatten(P, L, M, N), S, dst + x);
      F[dst + x] := Sample(P, z, k);
      x, k := x + 1, k + 1;
    }
  }

  /** One plane of the copy into the spectrum, row after row. */
  method MergePlane(L: nat, M: nat, N: nat, P: seq<seq<real>>, z: nat, F: array<real>, base: nat,
                    ghost S: seq<real>)
    requires z < L && base == PlaneIndex(M, N, z, 0, 0) && F.Length == |S| == L * M * N
    requires F[..] == Overwritten(Flatten(P, L, M, N), S, base)
    modifies F
    ensures base + M * N <= L * M * N
    ensures F[..] == Overwritten(Flatten(P, L, M, N), S, base + M * N)
  {
    PlaneIndexNext(M, N, z, 0);
    PlaneIndexEnd(L, M, N);
    MulMono(z + 1, L, M * N);
    var y, dst := 0, base;
    while y < M
      invariant y <= M && dst == PlaneIndex(M, N, z, y, 0)
      invariant F[..] == Overwritten(Flatten(P, L, M, N), S, dst)
    {
      MergeLine(L, M, N, P, z, y, F, dst, S);
      PlaneIndexNext(M, N, z, y);
      y, dst := y + 1, dst + N;
    }
    PlaneIndexStep(M, N, z, M);
  }

  /** The copy of the planes into the spectrum: F is the flattened planes, all of it overwritten. */
  method MergePlanes(L: nat, M: nat, N: nat, P: seq<seq<real>>, F: array<real>)
    requires F.Length == L * M * N
    modifies F
    ensures F[..] == Flatten(P, L, M, N)
  {
    ghost var S := F[..];
    var z, base := 0, 0;
    while z < L
      invariant z <= L && base == PlaneIndex(M, N, z, 0, 0) && base <= L * M * N
      invariant F[..] == Overwritten(Flatten(P, L, M, N), S, base)
    {
      PlaneIndexNext(M, N, z, 0);
      MergePlane(L, M, N, P, z, F, base, S);
      z, base := z + 1, base + M * N;
    }
    PlaneIndexEnd(L, M, N);
    OverwriteAll(Flatten(P, L, M, N), S);
  }

  // ---------------------------------------------------------------- recompose copies

  /** One plane of the copy out of the spectrum: plane[y*N + x] = F[z*M*N + y*N + x]. */
  method UnflattenPlane(L: nat, M: nat, N: nat, F: seq<real>, z: nat, plane: array<real>)
    requires z < L && plane.Length == M * N && L * M * N <= |F|
    modifies plane
    ensures plane[..] == Unflatten(F, L, M, N)[z]
  {
    ghost var P := Unflatten(F, L, M, N)[z];
    ghost var S := plane[..];
    var base := PlaneIndex(M, N, z, 0, 0);
    PlaneIndexNext(M, N, z, 0);
    PlaneIndexEnd(L, M, N);
    MulMono(z + 1, L, M * N);
    var y, row := 0, 0;
    while y < M
      invariant y <= M && row == y * N && row <= M * N
      invariant plane[..] == Overwritten(P, S, row)
    {
      OffsetNext(N, M, y);
      var x := 0;
      while x < N
        invariant x <= N
        invariant plane[..] == Overwritten(P, S, row + x)
      {
        OverwriteStep(P, S, row + x);
        plane[row + x] := F[base + row + x];
        x := x + 1;
      }
      y, row := y + 1, row + N;
    }
    OverwriteAll(P, S);
  }

  /** The copy of the target spectrum into the planes of the 2-D recomposition. */
  method UnflattenPlanes(L: nat, M: nat, N: nat, F: seq<real>, ps: seq<array<real>>)
    requires |ps| == L && forall z :: 0 <= z < L ==> ps[z].Length == M * N
    requires forall z, z' :: 0 <= z < z' < L ==> ps[z] != ps[z']
    requires L * M * N <= |F|
    modifies set z | 0 <= z < L :: ps[z]
    ensures forall z :: 0 <= z < L ==> ps[z][..] == Unflatten(F, L, M, N)[z]
  {
    var z := 0;
    while z < L
      invariant z <= L
      invariant forall z' :: 0 <= z' < z ==> ps[z'][..] == Unflatten(F, L, M, N)[z']
    {
      UnflattenPlane(L, M, N, F, z, ps[z]);
      z := z + 1;
    }
  }

  // ---------------------------------------------------------------- the clamped store

  /** How the inverse planes are normalised before the store: divided by d (core.c) or multiplied by s (resine.c). */
  datatype Normalisation = DivideBy(d: real) | MultiplyBy(s: real)
  {
    /** A division needs a non-zero divisor. */
    predicate Defined() { DivideBy? ==> d != 0.0 }
  }

  function Normalise(nm: Normalisation, v: real): real
    requires nm.Defined()
  {
    match nm
    case DivideBy(d) => v / d
    case MultiplyBy(s) => v * s
  }

  /**
   * The normalisation core.c applies after both of its unnormalised inverse
   * transforms of an M x N plane: a division by 4 N M, which is never zero.
   */
  function AreaNormalisation(M: nat, N: nat): (nm: Normalisation)
    requires 0 < M && 0 < N
    ensures nm.Defined()
  {
    MulMono(1, M, 4 * N);
    DivideBy((4 * N * M) as real)
  }

  /**
   * Row j of the output while the store runs: the samples of every channel below zc,
   * and of channel zc for the pixels below xc, hold the clamped normalised plane
   * sample (row j of a plane starting at j * w); every other sample is still the one S held.
   */
  function Stored(S: seq<Pel>, Q: seq<seq<real>>, nm: Normalisation, L: nat, N: nat, w: nat, j: nat, zc: nat, xc: nat): (r: seq<Pel>)
    requires nm.Defined()
    ensures |r| == |S|
  {
    seq(|S|, o requires 0 <= o < |S| =>
      if L > 0 && o < N * L && (o % L < zc || (o % L == zc && o / L < xc))
      then ClampPel(Normalise(nm, Sample(Q, o % L, RowMajor(j, o / L, w))))
      else S[o])
  }

  lemma StoreStep(S: seq<Pel>, Q: seq<seq<real>>, nm: Normalisation, L: nat, N: nat, w: nat, j: nat, z: nat, x: nat, o: nat)
    requires nm.Defined() && x < N && z < L && o == Offset(L, x, z) && o < |S|
    ensures Stored(S, Q, nm, L, N, w, j, z, x)[o := ClampPel(Normalise(nm, Sample(Q, z, RowMajor(j, x, w))))]
            == Stored(S, Q, nm, L, N, w, j, z, x + 1)
  {
    OffsetBound(L, N, x, z);
    DivModUnique(o, x, z, L);
  }

  lemma StoreNext(S: seq<Pel>, Q: seq<seq<real>>, nm: Normalisation, L: nat, N: nat, w: nat, j: nat, z: nat)
    requires nm.Defined()
    ensures Stored(S, Q, nm, L, N, w, j, z, N) == Stored(S, Q, nm, L, N, w, j, z + 1, 0)
  {
    var A, B := Stored(S, Q, nm, L, N, w, j, z, N), Stored(S, Q, nm, L, N, w, j, z + 1, 0);
    forall o | 0 <= o < |S|
      ensures A[o] == B[o]
    {
      if L > 0 && o < N * L {
        RowMajorOnto(o, L, N);
        var r, q := o % L, o / L;
        assert (r < z || (r == z && q < N)) == (r < z + 1 || (r == z + 1 && q < 0));
      }
    }
    assert A == B;
  }

  /**
   * Channel z of output row y: row[x*L + z] = clamp(normalise(q[y*w + x])) for x < N,
   * where q is plane z of Q.
   */
  method StoreLine(L: nat, N: nat, w: nat, q: seq<real>, ghost Q: seq<seq<real>>, nm: Normalisation, z: nat, y: nat,
                   row: array<Pel>, ghost S: seq<Pel>)
    requires nm.Defined() && z < L && z < |Q| && Q[z] == q && N * L <= row.Length == |S|
    requires row[..] == Stored(S, Q, nm, L, N, w, y, z, 0)
    modifies row
    ensures row[..] == Stored(S, Q, nm, L, N, w, y, z + 1, 0)
  {
    var x, o, k := 0, z, y * w;
    while x < N
      invariant x <= N && o == Offset(L, x, z) && k == RowMajor(y, x, w)
      invariant row[..] == Stored(S, Q, nm, L, N, w, y, z, x)
    {
      OffsetBound(L, N, x, z);
      StoreStep(S, Q, nm, L, N, w, y, z, x, o);
      var v := ClampPel(Normalise(nm, if k < |q| then q[k] else 0.0));
      row[o] := v;
      x, o, k := x + 1, o + L, k + 1;
    }
    StoreNext(S, Q, nm, L, N, w, y, z);
  }

  /** Channel z of the store, over all M output rows. */
  method StorePlane(L: nat, M: nat, N: nat, w: nat, q: seq<real>, ghost Q: seq<seq<real>>, nm: Normalisation, z: nat,
                    rows: seq<array<Pel>>, ghost S: seq<seq<Pel>>)
    requires nm.Defined() && z < L && z < |Q| && Q[z] == q && |rows| == |S| == M
    requires forall j :: 0 <= j < M ==> N * L <= rows[j].Length == |S[j]|
    requires forall j, j' :: 0 <= j < j' < M ==> rows[j] != rows[j']
    requires forall j :: 0 <= j < M ==> rows[j][..] == Stored(S[j], Q, nm, L, N, w, j, z, 0)
    modifies set j | 0 <= j < M :: rows[j]
    ensures forall j :: 0 <= j < M ==> rows[j][..] == Stored(S[j], Q, nm, L, N, w, j, z + 1, 0)
  {
    var y := 0;
    while y < M
      invariant y <= M
      invariant forall j :: 0 <= j < y ==> rows[j][..] == Stored(S[j], Q, nm, L, N, w, j, z + 1, 0)
      invariant forall j :: y <= j < M ==> rows[j][..] == Stored(S[j], Q, nm, L, N, w, j, z, 0)
    {
      StoreLine(L, N, w, q, Q, nm, z, y, rows[y], S[y]);
      y := y + 1;
    }
  }

  /** Once every channel is stored, row j holds the clamped normalised interleaved planes and its tail is untouched. */
  lemma StoredAll(S: seq<Pel>, Q: seq<seq<real>>, nm: Normalisation, L: nat, M: nat, N: nat, w: nat, j: nat, o: nat)
    requires nm.Defined() && j < M && o < |S|
    ensures Stored(S, Q, nm, L, N, w, j, L, 0)[o]
            == if o < N * L then ClampPel(Normalise(nm, Interleave(Q, L, M, N, w)[j][o])) else S[o]
  {
    if o < N * L {
      RowMajorOnto(o, L, N);
    }
  }

  /**
   * The store of the 2-D recomposition: every sample of the first N*L of each of
   * the M rows becomes the clamped normalised sample of the interleaved planes;
   * the rest of each row is untouched.
   */
  method StorePlanes(L: nat, M: nat, N: nat, Q: seq<seq<real>>, nm: Normalisation, rows: seq<array<Pel>>)
    requires nm.Defined() && |Q| == L && |rows| == M
    requires forall j :: 0 <= j < M ==> N * L <= rows[j].Length
    requires forall j, j' :: 0 <= j < j' < M ==> rows[j] != rows[j']
    modifies set j | 0 <= j < M :: rows[j]
    ensures forall j, o :: 0 <= j < M && 0 <= o < rows[j].Length ==>
              rows[j][o] == if o < N * L then ClampPel(Normalise(nm, Interleave(Q, L, M, N, N)[j][o])) else old(rows[j][o])
  {
    ghost var S := seq(M, j requires 0 <= j < M reads (if 0 <= j < |rows| then {rows[j]} else {}) => rows[j][..]);
    var z := 0;
    while z < L
      invariant z <= L
      invariant forall j :: 0 <= j < M ==> rows[j][..] == Stored(S[j], Q, nm, L, N, N, j, z, 0)
    {
      StorePlane(L, M, N, N, Q[z], Q, nm, z, rows, S);
      z := z + 1;
    }
    forall j, o | 0 <= j < M && 0 <= o < rows[j].Length
      ensures rows[j][o] == if o < N * L then ClampPel(Normalise(nm, Interleave(Q, L, M, N, N)[j][o])) else old(rows[j][o])
    {
      assert rows[j][o] == Stored(S[j], Q, nm, L, N, N, j, L, 0)[o];
      StoredAll(S[j], Q, nm, L, M, N, N, j, o);
    }
  }

  // ---------------------------------------------------------------- the 2-D FFTW stages

  /** The spectrum the 2-D decomposition computes: the forward plan of each channel plane, flattened. */
  ghost function Forward2d(fftw: Fftw, f: seq<seq<Pel>>, L: nat, M: nat, N: nat): seq<real> {
    Flatten(seq(L, z requires 0 <= z < L => fftw.redft10(M, N, Planar(f, L, M, N)[z])), L, M, N)
  }

  /** The planes the 2-D recomposition stores: the inverse plan of each plane of the target spectrum. */
  ghost function Inverse2d(fftw: Fftw, F: seq<real>, L: nat, M: nat, N: nat): seq<seq<real>> {
    seq(L, z requires 0 <= z < L => fftw.redft01(M, N, Unflatten(F, L, M, N)[z]))
  }

  /** Allocation followed by release of the same fresh buffers leaves the live map as it was. */
  lemma AllocFreeCancels(live: map<object, Family>, rows: object, rs: set<object>, f: Family)
    requires rows !in live && forall o :: o in rs ==> o !in live
    ensures (live[rows := Generic] + Tag(rs, f)) - {rows} - rs == live
  {
  }

  /** rsn_malloc_array(config, sizeof(rsn_frequency), L, K): L fresh zeroed planes of K coefficients. */
  method AllocPlanes(heap: Heap, config: Config, L: nat, K: nat) returns (planes: array<array?<real>>, ps: seq<array<real>>)
    modifies heap
    ensures fresh(planes) && planes.Length == L && |ps| == L && DistinctRows(planes, L)
    ensures forall z :: 0 <= z < L ==> planes[z] == ps[z] && fresh(ps[z]) && ps[z].Length == K
    ensures forall z, z' :: 0 <= z < z' < L ==> ps[z] != ps[z']
    ensures planes !in old(heap.live) && forall o :: o in RowSet(planes, L) ==> o !in old(heap.live)
    ensures heap.live == old(heap.live)[planes := Generic]
                         + Tag(RowSet(planes, L), AllocFamily(heap.build, config.transform, FREQUENCY_SIZE))
  {
    planes := heap.MallocArray(config, FREQUENCY_SIZE, 0.0, L, K);
    ps := seq(L, z requires 0 <= z < L && planes[z] != null reads planes => planes[z]);
  }

  /** rsn_free_array(config.transform, L, &planes) on planes from AllocPlanes: the live map is restored. */
  method ReleasePlanes(heap: Heap, config: Config, L: nat, planes: array<array?<real>>, ghost live0: map<object, Family>)
    requires DistinctRows(planes, L) && planes !in live0 && forall o :: o in RowSet(planes, L) ==> o !in live0
    requires heap.live == live0[planes := Generic]
                          + Tag(RowSet(planes, L), AllocFamily(heap.build, config.transform, FREQUENCY_SIZE))
    modifies heap, planes
    ensures heap.live == live0
  {
    FrequencyRoutingAgrees(heap.build, config.transform);
    AllocFreeCancels(live0, planes, RowSet(planes, L), AllocFamily(heap.build, config.transform, FREQUENCY_SIZE));
    var gone := heap.FreeArray(config.transform, L, planes);
  }

  /**
   * rsn_decompose_fftw_2d: the planes come from rsn_malloc_array and go back through
   * rsn_free_array; in between, channel z is copied into plane z, every plane is
   * transformed and the planes are copied, in order, over the whole spectrum.
   */
  method Decompose2d(heap: Heap, config: Config, L: nat, M: nat, N: nat, f: seq<seq<Pel>>, F: array<real>, fftw: Fftw)
    requires 0 < L && F.Length == L * M * N && fftw.Sane()
    modifies heap, F
    ensures F[..] == Forward2d(fftw, f, L, M, N)
    ensures heap.live == old(heap.live)
  {
    var planes, ps := AllocPlanes(heap, config, L, M * N);
    SplitPlanes(L, M, N, f, ps);
    ExecutePlanes(L, M, N, fftw.redft10, ps);
    MergePlanes(L, M, N, seq(L, z requires 0 <= z < L reads (if 0 <= z < |ps| then {ps[z]} else {}) => ps[z][..]), F);
    ReleasePlanes(heap, config, L, planes, old(heap.live));
  }

  /**
   * rsn_recompose_fftw_2d: the target spectrum is copied plane by plane into fresh
   * planes, every plane is inverse-transformed, and each sample is normalised and
   * stored, clamped, into its interleaved place in the output rows; the planes are
   * released again.
   */
  method Recompose2d(heap: Heap, config: Config, L: nat, M: nat, N: nat, F: seq<real>, rows: seq<array<Pel>>,
                     fftw: Fftw, nm: Normalisation)
    requires 0 < L && L * M * N <= |F| && fftw.Sane() && nm.Defined()
    requires |rows| == M && forall j :: 0 <= j < M ==> N * L <= rows[j].Length
    requires forall j, j' :: 0 <= j < j' < M ==> rows[j] != rows[j']
    modifies heap, set j | 0 <= j < M :: rows[j]
    ensures forall j, o :: 0 <= j < M && 0 <= o < rows[j].Length ==>
              rows[j][o] == if o < N * L then ClampPel(Normalise(nm, Interleave(Inverse2d(fftw, F, L, M, N), L, M, N, N)[j][o]))
                            else old(rows[j][o])
    ensures heap.live == old(heap.live)
  {
    var planes, ps := AllocPlanes(heap, config, L, M * N);
    UnflattenPlanes(L, M, N, F, ps);
    ExecutePlanes(L, M, N, fftw.redft01, ps);
    var Q := seq(L, z requires 0 <= z < L reads (if 0 <= z < |ps| then {ps[z]} else {}) => ps[z][..]);
    assert Q == Inverse2d(fftw, F, L, M, N);
    StorePlanes(L, M, N, Q, nm, rows);
    ReleasePlanes(heap, config, L, planes, old(heap.live));
  }

  // ---------------------------------------------------------------- rsn_scale_standard

  function Min(a: nat, b: nat): (r: nat)
    ensures r <= a && r <= b && (r == a || r == b)
  {
    if a < b then a else b
  }

  /**
   * Coefficient k of the L x Ms x Ns target lies in the block it shares with the
   * L x M x N source: row below min(M, Ms), column below min(N, Ns).
   */
  predicate InWindow(L: nat, M: nat, N: nat, Ms: nat, Ns: nat, k: nat) {
    k < L * Ms * Ns && Row(Ms, Ns, k) < Min(M, Ms) && Col(Ns, k) < Min(N, Ns)
  }

  /** Target entry k once the copy has passed it: in the window, the scaled source coefficient; else T's. */
  function ScaledAt(T: seq<real>, F: seq<real>, L: nat, M: nat, N: nat, Ms: nat, Ns: nat, scale: real, k: nat): real
    requires k < |T|
  {
    if InWindow(L, M, N, Ms, Ns, k)
    then Dsp.Coef(F, PlaneIndex(M, N, Chan(Ms, Ns, k), Row(Ms, Ns, k), Col(Ns, k))) * scale
    else T[k]
  }

  /**
   * The target T once the crop / zero-pad copy has passed every entry below bound:
   * an entry in the shared block holds the source coefficient of the same channel,
   * row and column times scale; every other entry is T's.
   */
  ghost function Rescaled(T: seq<real>, F: seq<real>, L: nat, M: nat, N: nat, Ms: nat, Ns: nat, scale: real,
                          bound: nat): (r: seq<real>)
    ensures |r| == |T|
  {
    seq(|T|, k requires 0 <= k < |T| => if k < bound then ScaledAt(T, F, L, M, N, Ms, Ns, scale, k) else T[k])
  }

  /** Entries outside the shared block are passed over. */
  lemma RescaleSkip(T: seq<real>, F: seq<real>, L: nat, M: nat, N: nat, Ms: nat, Ns: nat, scale: real, a: nat, b: nat)
    requires a <= b && forall k :: a <= k < b ==> !InWindow(L, M, N, Ms, Ns, k)
    ensures Rescaled(T, F, L, M, N, Ms, Ns, scale, a) == Rescaled(T, F, L, M, N, Ms, Ns, scale, b)
  {
    forall k | a <= k < b && k < |T|
      ensures ScaledAt(T, F, L, M, N, Ms, Ns, scale, k) == T[k]
    {
    }
  }

  /** Passing over entry k writes what ScaledAt says. */
  lemma RescaleStep(T: seq<real>, F: seq<real>, L: nat, M: nat, N: nat, Ms: nat, Ns: nat, scale: real, k: nat)
    requires k < |T|
    ensures Rescaled(T, F, L, M, N, Ms, Ns, scale, k)[k := ScaledAt(T, F, L, M, N, Ms, Ns, scale, k)]
            == Rescaled(T, F, L, M, N, Ms, Ns, scale, k + 1)
  {
  }

  /** Target (z, y, x) of the shared block is in the window, fed by source (z, y, x). */
  lemma WindowAt(L: nat, M: nat, N: nat, Ms: nat, Ns: nat, z: nat, y: nat, x: nat)
    requires z < L && y < Min(M, Ms) && x < Min(N, Ns)
    ensures InWindow(L, M, N, Ms, Ns, PlaneIndex(Ms, Ns, z, y, x))
    ensures PlaneIndex(M, N, Chan(Ms, Ns, PlaneIndex(Ms, Ns, z, y, x)), Row(Ms, Ns, PlaneIndex(Ms, Ns, z, y, x)),
                       Col(Ns, PlaneIndex(Ms, Ns, z, y, x))) == PlaneIndex(M, N, z, y, x) < L * M * N
  {
    PlaneIndexBound(L, Ms, Ns, z, y, x);
    PlaneIndexDecode(Ms, Ns, z, y, x);
    PlaneIndexBound(L, M, N, z, y, x);
  }

  /** Target (z, y, x), at k, of the shared block receives source (z, y, x), at i, times the scale. */
  lemma ScaledInWindow(T: seq<real>, F: seq<real>, L: nat, M: nat, N: nat, Ms: nat, Ns: nat, scale: real,
                       z: nat, y: nat, x: nat, k: nat, i: nat)
    requires z < L && y < Min(M, Ms) && x < Min(N, Ns) && L * M * N <= |F| && L * Ms * Ns <= |T|
    requires k == PlaneIndex(Ms, Ns, z, y, x) && i == PlaneIndex(M, N, z, y, x)
    ensures k < |T| && i < |F| && ScaledAt(T, F, L, M, N, Ms, Ns, scale, k) == F[i] * scale
  {
    WindowAt(L, M, N, Ms, Ns, z, y, x);
  }

  /** The tail of target row y, columns min(N, Ns)..Ns-1, is outside the window. */
  lemma RowTailOutside(L: nat, M: nat, N: nat, Ms: nat, Ns: nat, z: nat, y: nat)
    requires y < Ms
    ensures forall k :: PlaneIndex(Ms, Ns, z, y, Min(N, Ns)) <= k < PlaneIndex(Ms, Ns, z, y + 1, 0) ==>
              !InWindow(L, M, N, Ms, Ns, k)
  {
    PlaneIndexNext(Ms, Ns, z, y);
    forall k | PlaneIndex(Ms, Ns, z, y, Min(N, Ns)) <= k < PlaneIndex(Ms, Ns, z, y + 1, 0)
      ensures !InWindow(L, M, N, Ms, Ns, k)
    {
      var x := k - PlaneIndex(Ms, Ns, z, y, 0);
      assert k == PlaneIndex(Ms, Ns, z, y, x);
      PlaneIndexDecode(Ms, Ns, z, y, x);
    }
  }

  /** Target rows min(M, Ms)..Ms-1 of channel z are outside the window. */
  lemma {:induction false} RowsOutside(L: nat, M: nat, N: nat, Ms: nat, Ns: nat, z: nat, y: nat)
    requires Min(M, Ms) <= y <= Ms
    ensures forall k :: PlaneIndex(Ms, Ns, z, y, 0) <= k < PlaneIndex(Ms, Ns, z, Ms, 0) ==>
              !InWindow(L, M, N, Ms, Ns, k)
    decreases Ms - y
  {
    if y < Ms {
      RowsOutside(L, M, N, Ms, Ns, z, y + 1);
      PlaneIndexNext(Ms, Ns, z, y);
      forall k | PlaneIndex(Ms, Ns, z, y, 0) <= k < PlaneIndex(Ms, Ns, z, y + 1, 0)
        ensures !InWindow(L, M, N, Ms, Ns, k)
      {
        var x := k - PlaneIndex(Ms, Ns, z, y, 0);
        assert k == PlaneIndex(Ms, Ns, z, y, x);
        PlaneIndexDecode(Ms, Ns, z, y, x);
      }
    }
  }

  /** Writing source (z, y, x) times the scale to target (z, y, x) advances the scan by one entry. */
  lemma RescaleCell(T: seq<real>, F: seq<real>, L: nat, M: nat, N: nat, Ms: nat, Ns: nat, scale: real,
                    z: nat, y: nat, x: nat, k: nat, i: nat, S: seq<real>)
    requires z < L && y < Min(M, Ms) && x < Min(N, Ns) && L * M * N <= |F| && L * Ms * Ns <= |T|
    requires k == PlaneIndex(Ms, Ns, z, y, x) && i == PlaneIndex(M, N, z, y, x)
    requires S == Rescaled(T, F, L, M, N, Ms, Ns, scale, k)
    ensures k < |S| && i < |F| && S[k := F[i] * scale] == Rescaled(T, F, L, M, N, Ms, Ns, scale, k + 1)
  {
    ScaledInWindow(T, F, L, M, N, Ms, Ns, scale, z, y, x, k, i);
    RescaleStep(T, F, L, M, N, Ms, Ns, scale, k);
  }

  /** The scan passes over the tail of target row y without writing. */
  lemma RowTailSkip(T: seq<real>, F: seq<real>, L: nat, M: nat, N: nat, Ms: nat, Ns: nat, scale: real,
                    z: nat, y: nat, a: nat)
    requires y < Ms && a == PlaneIndex(Ms, Ns, z, y, Min(N, Ns))
    ensures Rescaled(T, F, L, M, N, Ms, Ns, scale, a) == Rescaled(T, F, L, M, N, Ms, Ns, scale, PlaneIndex(Ms, Ns, z, y + 1, 0))
  {
    RowTailOutside(L, M, N, Ms, Ns, z, y);
    PlaneIndexNext(Ms, Ns, z, y);
    RescaleSkip(T, F, L, M, N, Ms, Ns, scale, a, PlaneIndex(Ms, Ns, z, y + 1, 0));
  }

  /** The scan passes over target rows min(M, Ms)..Ms-1 of channel z without writing. */
  lemma PlaneTailSkip(T: seq<real>, F: seq<real>, L: nat, M: nat, N: nat, Ms: nat, Ns: nat, scale: real,
                      z: nat, a: nat)
    requires a == PlaneIndex(Ms, Ns, z, Min(M, Ms), 0)
    ensures Rescaled(T, F, L, M, N, Ms, Ns, scale, a) == Rescaled(T, F, L, M, N, Ms, Ns, scale, PlaneIndex(Ms, Ns, z + 1, 0, 0))
  {
    RowsOutside(L, M, N, Ms, Ns, z, Min(M, Ms));
    PlaneIndexStep(Ms, Ns, z, Ms);
    RescaleSkip(T, F, L, M, N, Ms, Ns, scale, a, PlaneIndex(Ms, Ns, z + 1, 0, 0));
  }

  /** One step of the scale loop: target (z, y, x), at k, receives source (z, y, x), at i, times the scale. */
  method ScaleCell(L: nat, M: nat, N: nat, Ms: nat, Ns: nat, F: seq<real>, Fs: array<real>, scale: real,
                   z: nat, y: nat, x: nat, i: nat, k: nat, ghost T: seq<real>)
    requires z < L && y < Min(M, Ms) && x < Min(N, Ns) && L * M * N <= |F| && Fs.Length == |T| && L * Ms * Ns <= |T|
    requires k == PlaneIndex(Ms, Ns, z, y, x) && i == PlaneIndex(M, N, z, y, x)
    requires Fs[..] == Rescaled(T, F, L, M, N, Ms, Ns, scale, k)
    modifies Fs
    ensures Fs[..] == Rescaled(T, F, L, M, N, Ms, Ns, scale, k + 1)
  {
    ghost var before := Fs[..];
    RescaleCell(T, F, L, M, N, Ms, Ns, scale, z, y, x, k, i, before);
    Fs[k] := F[i] * scale;
    assert Fs[..] == before[k := F[i] * scale];
  }

  /** Row y of channel z of the scale loop: the first min(N, Ns) target entries get source times scale. */
  method ScaleLine(L: nat, M: nat, N: nat, Ms: nat, Ns: nat, F: seq<real>, Fs: array<real>, scale: real,
                   z: nat, y: nat, src: nat, dst: nat, ghost T: seq<real>)
    requires z < L && y < Min(M, Ms) && L * M * N <= |F| && Fs.Length == |T|
    requires src == PlaneIndex(M, N, z, y, 0) && dst == PlaneIndex(Ms, Ns, z, y, 0) && L * Ms * Ns <= |T|
    requires Fs[..] == Rescaled(T, F, L, M, N, Ms, Ns, scale, dst)
    modifies Fs
    ensures Fs[..] == Rescaled(T, F, L, M, N, Ms, Ns, scale, PlaneIndex(Ms, Ns, z, y + 1, 0))
  {
    var xlim := Min(N, Ns);
    var x := 0;
    while x < xlim
      invariant x <= xlim
      invariant Fs[..] == Rescaled(T, F, L, M, N, Ms, Ns, scale, dst + x)
    {
      ScaleCell(L, M, N, Ms, Ns, F, Fs, scale, z, y, x, src + x, dst + x, T);
      x := x + 1;
    }
    RowTailSkip(T, F, L, M, N, Ms, Ns, scale, z, y, dst + xlim);
  }

  /** Channel z of the scale loop: rows below min(M, Ms), then the rows outside the window are passed over. */
  method ScalePlane(L: nat, M: nat, N: nat, Ms: nat, Ns: nat, F: seq<real>, Fs: array<real>, scale: real,
                    z: nat, ghost T: seq<real>)
    requires z < L && L * M * N <= |F| && Fs.Length == |T| && L * Ms * Ns <= |T|
    requires Fs[..] == Rescaled(T, F, L, M, N, Ms, Ns, scale, PlaneIndex(Ms, Ns, z, 0, 0))
    modifies Fs
    ensures Fs[..] == Rescaled(T, F, L, M, N, Ms, Ns, scale, PlaneIndex(Ms, Ns, z + 1, 0, 0))
  {
    var ylim := Min(M, Ms);
    var y, src, dst := 0, PlaneIndex(M, N, z, 0, 0), PlaneIndex(Ms, Ns, z, 0, 0);
    while y < ylim
      invariant y <= ylim && src == PlaneIndex(M, N, z, y, 0) && dst == PlaneIndex(Ms, Ns, z, y, 0)
      invariant Fs[..] == Rescaled(T, F, L, M, N, Ms, Ns, scale, dst)
    {
      ScaleLine(L, M, N, Ms, Ns, F, Fs, scale, z, y, src, dst, T);
      PlaneIndexNext(M, N, z, y);
      PlaneIndexNext(Ms, Ns, z, y);
      y, src, dst := y + 1, src + N, dst + Ns;
    }
    PlaneTailSkip(T, F, L, M, N, Ms, Ns, scale, z, dst);
  }

  /**
   * The copy loop of rsn_scale_standard: for z < L, y < min(M, Ms), x < min(N, Ns),
   * Fs[z*Ms*Ns + y*Ns + x] = F[z*M*N + y*N + x] * scale. Every other entry of Fs is
   * left as it was.
   */
  method ScaleStandard(L: nat, M: nat, N: nat, Ms: nat, Ns: nat, F: seq<real>, Fs: array<real>, scale: real)
    requires L * M * N <= |F| && L * Ms * Ns <= Fs.Length
    modifies Fs
    ensures Fs[..] == Rescaled(old(Fs[..]), F, L, M, N, Ms, Ns, scale, L * Ms * Ns)
  {
    ghost var T := Fs[..];
    assert Fs[..] == Rescaled(T, F, L, M, N, Ms, Ns, scale, 0);
    var z := 0;
    while z < L
      invariant z <= L
      invariant Fs[..] == Rescaled(T, F, L, M, N, Ms, Ns, scale, PlaneIndex(Ms, Ns, z, 0, 0))
    {
      ScalePlane(L, M, N, Ms, Ns, F, Fs, scale, z, T);
      z := z + 1;
    }
    PlaneIndexEnd(L, Ms, Ns);
  }

  /**
   * What the copy loop promises inside the shared block: target (z, y, x) is the
   * source coefficient of the same channel, row and column times the scale.
   */
  lemma RescaledInside(T: seq<real>, F: seq<real>, L: nat, M: nat, N: nat, Ms: nat, Ns: nat, scale: real,
                       z: nat, y: nat, x: nat)
    requires L * M * N <= |F| && |T| == L * Ms * Ns
    requires z < L && y < Min(M, Ms) && x < Min(N, Ns)
    ensures PlaneIndex(Ms, Ns, z, y, x) < |T| && PlaneIndex(M, N, z, y, x) < |F|
    ensures Rescaled(T, F, L, M, N, Ms, Ns, scale, |T|)[PlaneIndex(Ms, Ns, z, y, x)] == F[PlaneIndex(M, N, z, y, x)] * scale
  {
    ScaledInWindow(T, F, L, M, N, Ms, Ns, scale, z, y, x, PlaneIndex(Ms, Ns, z, y, x), PlaneIndex(M, N, z, y, x));
  }

  /** ... and outside it every target coefficient is left as it was (zero, for a fresh target). */
  lemma RescaledOutside(T: seq<real>, F: seq<real>, L: nat, M: nat, N: nat, Ms: nat, Ns: nat, scale: real, k: nat)
    requires k < |T| && !InWindow(L, M, N, Ms, Ns, k)
    ensures Rescaled(T, F, L, M, N, Ms, Ns, scale, |T|)[k] == T[k]
  {
  }

  /**
   * Padding a spectrum to a larger one and cropping the result back to the original
   * size gives the original coefficients times the product of the two scales.
   */
  lemma CropAfterPad(T: seq<real>, T': seq<real>, F: seq<real>, L: nat, M: nat, N: nat, Ms: nat, Ns: nat,
                     s: real, s': real)
    requires M <= Ms && N <= Ns && |F| == L * M * N && |T| == L * Ms * Ns && |T'| == L * M * N
    ensures forall k :: 0 <= k < L * M * N ==>
              Rescaled(T', Rescaled(T, F, L, M, N, Ms, Ns, s, L * Ms * Ns), L, Ms, Ns, M, N, s', L * M * N)[k]
              == F[k] * s * s'
  {
    var G := Rescaled(T, F, L, M, N, Ms, Ns, s, L * Ms * Ns);
    forall k | 0 <= k < L * M * N
      ensures Rescaled(T', G, L, Ms, Ns, M, N, s', L * M * N)[k] == F[k] * s * s'
    {
      PlaneIndexRecode(L, M, N, k);
      var z, y, x := Chan(M, N, k), Row(M, N, k), Col(N, k);
      WindowAt(L, Ms, Ns, M, N, z, y, x);
      WindowAt(L, M, N, Ms, Ns, z, y, x);
    }
  }
}
