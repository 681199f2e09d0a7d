/**
 * The two buffer layouts every transform converts between: a coefficient plane is
 * plane-major, F[z*M*N + y*N + x]; an image row is channel-interleaved, row[x*L + z].
 * Both are row-major maps, and both are bijections onto their buffers.
 */
module Layout {

  /** Row-major position of (y, x) in rows of width w. */
  function RowMajor(y: nat, x: nat, w: nat): nat { y * w + x }

  /** Plane-major position of channel z, row y, column x in an L x M x N spectrum. */
  function PlaneIndex(M: nat, N: nat, z: nat, y: nat, x: nat): nat {
    RowMajor(z, RowMajor(y, x, N), M * N)
  }

  /** Offset of channel z of pixel x in an interleaved row of L channels. */
  function Offset(L: nat, x: nat, z: nat): nat { RowMajor(x, z, L) }

  lemma MulMono(a: nat, b: nat, c: nat)
    requires a <= b
    ensures a * c <= b * c
  {
  }

  /** A row-major position lies inside an h x w buffer. */
  lemma RowMajorBound(y: nat, x: nat, w: nat, h: nat)
    requires y < h && x < w
    ensures RowMajor(y, x, w) < h * w
    ensures RowMajor(y, x, w) < (y + 1) * w
  {
    MulMono(y + 1, h, w);
  }

  /** Distinct positions have distinct row-major indices. */
  lemma RowMajorInjective(y: nat, x: nat, y': nat, x': nat, w: nat)
    requires x < w && x' < w
    requires RowMajor(y, x, w) == RowMajor(y', x', w)
    ensures y == y' && x == x'
  {
    if y < y' {
      MulMono(y + 1, y', w);
      assert false;
    } else if y' < y {
      MulMono(y' + 1, y, w);
      assert false;
    }
  }

  /** Every index of an h x w buffer is some row-major position. */
  lemma RowMajorOnto(k: nat, w: nat, h: nat)
    requires k < h * w
    ensures w > 0 && k / w < h && k % w < w && RowMajor(k / w, k % w, w) == k
  {
    assert w > 0;
    if k / w >= h {
      MulMono(h, k / w, w);
      assert false;
    }
  }

  /** A plane-major index lies inside the spectrum. */
  lemma PlaneIndexBound(L: nat, M: nat, N: nat, z: nat, y: nat, x: nat)
    requires z < L && y < M && x < N
    ensures PlaneIndex(M, N, z, y, x) < L * M * N
  {
    RowMajorBound(y, x, N, M);
    assert M * N == N * M;
    RowMajorBound(z, RowMajor(y, x, N), M * N, L);
    assert L * (M * N) == L * M * N;
  }

  /** The plane-major map is injective. */
  lemma PlaneIndexInjective(M: nat, N: nat, z: nat, y: nat, x: nat, z': nat, y': nat, x': nat)
    requires y < M && x < N && y' < M && x' < N
    requires PlaneIndex(M, N, z, y, x) == PlaneIndex(M, N, z', y', x')
    ensures z == z' && y == y' && x == x'
  {
    RowMajorBound(y, x, N, M);
    RowMajorBound(y', x', N, M);
    assert M * N == N * M;
    RowMajorInjective(z, RowMajor(y, x, N), z', RowMajor(y', x', N), M * N);
    RowMajorInjective(y, x, y', x', N);
  }

  /** The plane-major map is onto: every coefficient belongs to one (z, y, x). */
  lemma PlaneIndexOnto(L: nat, M: nat, N: nat, k: nat)
    requires k < L * M * N
    ensures exists z: nat, y: nat, x: nat :: z < L && y < M && x < N && PlaneIndex(M, N, z, y, x) == k
  {
    assert L * M * N == L * (M * N);
    RowMajorOnto(k, M * N, L);
    var z, r := k / (M * N), k % (M * N);
    assert M * N == N * M;
    RowMajorOnto(r, N, M);
    assert PlaneIndex(M, N, z, r / N, r % N) == k;
  }

  /** An interleaved offset lies inside a row of N pixels of L channels. */
  lemma OffsetBound(L: nat, N: nat, x: nat, z: nat)
    requires x < N && z < L
    ensures Offset(L, x, z) < N * L
  {
    RowMajorBound(x, z, L, N);
  }

  /** The interleaved map is injective. */
  lemma OffsetInjective(L: nat, x: nat, z: nat, x': nat, z': nat)
    requires z < L && z' < L
    requires Offset(L, x, z) == Offset(L, x', z')
    ensures x == x' && z == z'
  {
    RowMajorInjective(x, z, x', z', L);
  }

  /** The interleaved map is onto: every sample of a row is one channel of one pixel. */
  lemma OffsetOnto(L: nat, N: nat, k: nat)
    requires k < N * L
    ensures exists x: nat, z: nat :: x < N && z < L && Offset(L, x, z) == k
  {
    RowMajorOnto(k, L, N);
    assert Offset(L, k / L, k % L) == k;
  }

  /** The channel, row and column a plane-major index k belongs to. */
  function Chan(M: nat, N: nat, k: nat): nat { if M * N == 0 then 0 else k / (M * N) }
  function Row(M: nat, N: nat, k: nat): nat { if M * N == 0 then 0 else (k % (M * N)) / N }
  function Col(N: nat, k: nat): nat { if N == 0 then 0 else k % N }

  /** Euclidean division is unique: k = q * d + r with 0 <= r < d fixes k / d and k % d. */
  lemma DivModUnique(k: nat, q: nat, r: nat, d: nat)
    requires r < d && k == RowMajor(q, r, d)
    ensures k / d == q && k % d == r
  {
    RowMajorOnto(k, d, q + 1);
    RowMajorInjective(q, r, k / d, k % d, d);
  }

  /** Decoding a plane-major index gives back its channel, row and column. */
  lemma PlaneIndexDecode(M: nat, N: nat, z: nat, y: nat, x: nat)
    requires y < M && x < N
    ensures Chan(M, N, PlaneIndex(M, N, z, y, x)) == z
    ensures Row(M, N, PlaneIndex(M, N, z, y, x)) == y
    ensures Col(N, PlaneIndex(M, N, z, y, x)) == x
  {
    var k := PlaneIndex(M, N, z, y, x);
    RowMajorBound(y, x, N, M);
    assert M * N == N * M;
    DivModUnique(k, z, RowMajor(y, x, N), M * N);
    DivModUnique(RowMajor(y, x, N), y, x, N);
    assert k == RowMajor(z * M + y, x, N) by {
      assert z * (M * N) == (z * M) * N;
      assert (z * M + y) * N == (z * M) * N + y * N;
    }
    DivModUnique(k, z * M + y, x, N);
  }

  /** Every index below L * M * N is the plane-major index of its own decoding. */
  lemma PlaneIndexRecode(L: nat, M: nat, N: nat, k: nat)
    requires k < L * M * N
    ensures Chan(M, N, k) < L && Row(M, N, k) < M && Col(N, k) < N
    ensures PlaneIndex(M, N, Chan(M, N, k), Row(M, N, k), Col(N, k)) == k
  {
    PlaneIndexOnto(L, M, N, k);
    var z: nat, y: nat, x: nat :| z < L && y < M && x < N && PlaneIndex(M, N, z, y, x) == k;
    PlaneIndexDecode(M, N, z, y, x);
  }

  /** Stepping the row-major loops: the end of a row is the start of the next, and so on. */
  lemma PlaneIndexStep(M: nat, N: nat, z: nat, y: nat)
    ensures PlaneIndex(M, N, z, y, N) == PlaneIndex(M, N, z, y + 1, 0)
    ensures PlaneIndex(M, N, z, M, 0) == PlaneIndex(M, N, z + 1, 0, 0)
  {
    assert (z + 1) * (M * N) == z * (M * N) + M * N;
  }

  /** The two spellings of the plane-major index in the code, z*N*M + y*N + x and z*M*N + y*N + x. */
  lemma PlaneIndexAsWritten(M: nat, N: nat, z: nat, y: nat, x: nat)
    ensures z * N * M + y * N + x == PlaneIndex(M, N, z, y, x)
    ensures z * M * N + y * N + x == PlaneIndex(M, N, z, y, x)
  {
    assert z * N * M == z * (M * N);
    assert z * M * N == z * (M * N);
  }

  /** The next row starts N further on, the next channel M * N further on. */
  lemma PlaneIndexNext(M: nat, N: nat, z: nat, y: nat)
    ensures PlaneIndex(M, N, z, y + 1, 0) == PlaneIndex(M, N, z, y, 0) + N
    ensures PlaneIndex(M, N, z + 1, 0, 0) == PlaneIndex(M, N, z, 0, 0) + M * N
  {
    assert (z + 1) * (M * N) == z * (M * N) + M * N;
  }

  /** The next pixel of an interleaved row starts L further on, and pixel i < N ends inside the row. */
  lemma OffsetNext(L: nat, N: nat, i: nat)
    requires i < N
    ensures (i + 1) * L == i * L + L <= N * L
  {
    MulMono(i + 1, N, L);
  }

  /** The sweep over all L channels ends exactly at the end of the spectrum. */
  lemma PlaneIndexEnd(L: nat, M: nat, N: nat)
    ensures PlaneIndex(M, N, L, 0, 0) == L * M * N
  {
    assert L * (M * N) == L * M * N;
  }
}
