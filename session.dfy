/**
 * The state of one resampling run (rsn_data): the borrowed source image and the
 * three buffers the stages hand on to each other, the source spectrum, the target
 * spectrum and the output image. Both library revisions, lib/core.c and
 * lib/resine.c, set this state up, release it and destroy it with the same code.
 *
 * Every buffer the state holds is live in the allocator, tagged with the family
 * that will have to release it; Held() names them all, so "the live buffers
 * outside Held() do not change" is the statement that a stage neither leaks nor
 * releases anything that is not its own.
 */
module Session {
  import opened Common
  import opened Util
  import Stages
  import Kiss
  import Layout

  /** The foreign libraries a build calls: FFTW's real-to-real plans, KISS FFT's transforms, libm. */
  datatype Foreign = Foreign(fftw: Stages.Fftw, kiss: Kiss.Kiss, m: Libm)
  {
    /** The output sizes the transforms promise, and positive square roots. */
    ghost predicate Sane() {
      fftw.Sane() && kiss.Sane() && m.Sane()
    }
  }

  /** n zero coefficients: what a fresh rsn_malloc buffer holds. */
  function Zeros(n: nat): (r: seq<real>)
    ensures |r| == n && forall k :: 0 <= k < n ==> r[k] == 0.0
  {
    seq(n, _ => 0.0)
  }

  /** What a stage finds in a spectrum slot: the buffer's contents, or those of the zeroed buffer it will allocate. */
  ghost function Contents(a: array?<real>, n: nat): (r: seq<real>)
    reads a
    ensures a == null ==> r == Zeros(n)
  {
    if a == null then Zeros(n) else a[..]
  }

  /** The sizes of a sized geometry are positive, and so are the buffer lengths built from them. */
  lemma SizedLengths(info: Info)
    requires info.Sized()
    ensures info.SourceLength() > 0 && info.TargetLength() > 0 && info.widthS * info.channels > 0
    ensures info.SourceLength() == (info.channels as nat) * (info.height as nat) * (info.width as nat)
    ensures info.TargetLength() == (info.channels as nat) * (info.heightS as nat) * (info.widthS as nat)
  {
    Layout.MulMono(1, info.channels, info.height);
    Layout.MulMono(1, info.channels * info.height, info.width);
    Layout.MulMono(1, info.channels, info.heightS);
    Layout.MulMono(1, info.channels * info.heightS, info.widthS);
    Layout.MulMono(1, info.widthS, info.channels);
  }

  /**
   * The three zeroed buffers rsn_init allocates under PREALLOC: both spectra and the
   * output image, all fresh, and live with the families rsn_malloc gives them.
   */
  method Preallocate(heap: Heap, info: Info) returns (fi: array<real>, fis: array<real>, out: array<array?<Pel>>)
    requires info.Sized()
    modifies heap
    ensures fi != fis && fi.Length == info.SourceLength() && fis.Length == info.TargetLength()
    ensures fi[..] == Zeros(info.SourceLength()) && fis[..] == Zeros(info.TargetLength())
    ensures out.Length == info.heightS && DistinctRows(out, out.Length)
    ensures forall j :: 0 <= j < out.Length ==> out[j].Length == info.widthS * info.channels
    ensures forall j, i :: 0 <= j < out.Length && 0 <= i < out[j].Length ==> out[j][i] == 0
    ensures heap.live == old(heap.live)[fi := AllocFamily(heap.build, info.config.transform, FREQUENCY_SIZE)]
                                       [fis := AllocFamily(heap.build, info.config.transform, FREQUENCY_SIZE)]
                                       [out := Generic] + Tag(RowSet(out, out.Length), Generic)
    ensures heap.live.Keys - ({fi as object, fis as object, out as object} + RowSet(out, out.Length)) == old(heap.live.Keys)
    ensures fresh({fi as object, fis as object, out as object} + RowSet(out, out.Length))
  {
    SizedLengths(info);
    PelRoutingIsGeneric(heap.build, info.config.transform);
    ghost var keys0 := heap.live.Keys;
    fi := heap.Malloc(info.config, FREQUENCY_SIZE, 0.0, info.SourceLength() as nat);
    fis := heap.Malloc(info.config, FREQUENCY_SIZE, 0.0, info.TargetLength() as nat);
    out := heap.MallocArray(info.config, PEL_SIZE, 0 as Pel, info.heightS as nat, (info.widthS * info.channels) as nat);
    assert fi[..] == Zeros(info.SourceLength()) && fis[..] == Zeros(info.TargetLength());
    assert fi !in keys0 && fis !in keys0 && out !in keys0;
    assert forall o :: o in RowSet(out, out.Length) ==> o !in keys0;
  }

  /** The rsn_malloc_array of the output image: height_s zeroed rows of width_s * channels samples. */
  method AllocateOutput(heap: Heap, info: Info) returns (out: array<array?<Pel>>)
    requires info.Sized()
    modifies heap
    ensures out.Length == info.heightS && DistinctRows(out, out.Length)
    ensures forall j :: 0 <= j < out.Length ==> out[j].Length == info.widthS * info.channels
    ensures forall j, i :: 0 <= j < out.Length && 0 <= i < out[j].Length ==> out[j][i] == 0
    ensures heap.live == old(heap.live)[out := Generic] + Tag(RowSet(out, out.Length), Generic)
    ensures heap.live.Keys - ({out as object} + RowSet(out, out.Length)) == old(heap.live.Keys)
    ensures fresh({out as object} + RowSet(out, out.Length))
  {
    SizedLengths(info);
    PelRoutingIsGeneric(heap.build, info.config.transform);
    ghost var keys0 := heap.live.Keys;
    out := heap.MallocArray(info.config, PEL_SIZE, 0 as Pel, info.heightS as nat, (info.widthS * info.channels) as nat);
    assert out !in keys0 && forall o :: o in RowSet(out, out.Length) ==> o !in keys0;
  }

  /** The samples of an image given as an array of row pointers (a missing row reads as empty). */
  ghost function Pixels(img: array<array?<Pel>>): (r: seq<seq<Pel>>)
    reads img, RowSet(img, img.Length)
    ensures |r| == img.Length
    ensures forall j :: 0 <= j < img.Length && img[j] != null ==> r[j] == img[j][..]
  {
    seq(img.Length, j requires 0 <= j < img.Length reads img, RowSet(img, img.Length) =>
      if img[j] == null then [] else assert img[..img.Length][j] == img[j]; img[j][..])
  }

  /** Releasing the spectra S of a state holding S and O, on top of L0, leaves L0 and O. */
  lemma ReleaseLeavesOutput(K: set<object>, L0: set<object>, S: set<object>, O: set<object>)
    requires K - (S + O) == L0 && S + O <= K && S !! O
    ensures K - S == L0 + O
  {
  }

  class Data {
    /** The allocator every buffer of the run comes from. */
    const heap: Heap
    /** The source image: borrowed from the client, never written or released. */
    const image: seq<seq<Pel>>
    /** The source spectrum, channels * height * width coefficients. */
    var freqImage: array?<real>
    /** The target spectrum, channels * height_s * width_s coefficients. */
    var freqImageS: array?<real>
    /** The output image: height_s row pointers, each to width_s * channels samples. */
    var imageS: array?<array?<Pel>>

    /** The spectra held. */
    ghost function Spectra(): set<object>
      reads this
    {
      (if freqImage == null then {} else {freqImage as object})
      + (if freqImageS == null then {} else {freqImageS as object})
    }

    /** The rows of the output image. */
    ghost function OutRows(): set<object>
      reads this, imageS
    {
      if imageS == null then {} else RowSet(imageS, imageS.Length)
    }

    /** The output image held: its row-pointer array and its rows. */
    ghost function Output(): set<object>
      reads this, imageS
    {
      (if imageS == null then {} else {imageS as object}) + OutRows()
    }

    /** Every buffer the state holds. */
    ghost function Held(): set<object>
      reads this, imageS
    {
      Spectra() + Output()
    }

    /**
     * The state is well formed for geometry info: each buffer it holds has the size
     * info gives it and is live, the spectra tagged with the family rsn_malloc chose
     * for the configured transform, the output rows (calloc'ed samples) and their
     * pointer array with the generic one; the two spectra are distinct buffers and
     * so are the rows.
     */
    ghost predicate Valid(info: Info)
      reads this, heap, imageS
    {
      info.Sized() &&
      (freqImage != null ==>
         freqImage.Length == info.SourceLength() && freqImage in heap.live &&
         heap.live[freqImage] == AllocFamily(heap.build, info.config.transform, FREQUENCY_SIZE)) &&
      (freqImageS != null ==>
         freqImageS.Length == info.TargetLength() && freqImageS in heap.live &&
         heap.live[freqImageS] == AllocFamily(heap.build, info.config.transform, FREQUENCY_SIZE)) &&
      (freqImage != null && freqImageS != null ==> freqImage != freqImageS) &&
      (imageS != null ==>
         imageS.Length == info.heightS && DistinctRows(imageS, imageS.Length) &&
         imageS in heap.live && heap.live[imageS] == Generic &&
         forall j :: 0 <= j < imageS.Length ==>
           imageS[j].Length == info.widthS * info.channels &&
           imageS[j] in heap.live && heap.live[imageS[j] as object] == Generic)
    }

    /** The buffers held are live, and the spectra are not part of the output image. */
    lemma HeldLive(info: Info)
      requires Valid(info)
      ensures Spectra() + Output() <= heap.live.Keys && Spectra() !! Output()
    {
    }

    /**
     * rsn_init: borrows the image and starts with no buffers, unless the greed has
     * the PREALLOC bit, in which case all three are allocated up front, zeroed.
     */
    constructor Init(heap: Heap, info: Info, img: seq<seq<Pel>>)
      requires info.Sized()
      modifies heap
      ensures this.heap == heap && image == img && Valid(info)
      ensures Preallocates(info.config.greed) ==>
                freqImage != null && freqImageS != null && imageS != null &&
                freqImage[..] == Zeros(info.SourceLength()) && freqImageS[..] == Zeros(info.TargetLength()) &&
                forall j, i :: 0 <= j < imageS.Length && 0 <= i < imageS[j].Length ==> imageS[j][i] == 0
      ensures !Preallocates(info.config.greed) ==> freqImage == null && freqImageS == null && imageS == null
      ensures heap.live.Keys - Held() == old(heap.live.Keys) && fresh(Held())
    {
      var fi: array?<real> := null;
      var fis: array?<real> := null;
      var out: array?<array?<Pel>> := null;
      if Preallocates(info.config.greed) {
        ghost var live0, fam := heap.live, AllocFamily(heap.build, info.config.transform, FREQUENCY_SIZE);
        var a, b, rows := Preallocate(heap, info);
        RowsTagged(live0[a := fam][b := fam][rows := Generic], rows, rows.Length, Generic);
        fi, fis, out := a, b, rows;
      }
      this.heap := heap;
      image := img;
      freqImage := fi;
      freqImageS := fis;
      imageS := out;
    }

    /** The source spectrum slot is filled with a zeroed rsn_malloc buffer when it is empty. */
    method EnsureSource(info: Info)
      requires Valid(info)
      modifies this, heap
      ensures Valid(info) && freqImage != null
      ensures if old(freqImage) != null then freqImage == old(freqImage) else fresh(freqImage)
      ensures freqImage[..] == old(Contents(freqImage, info.SourceLength()))
      ensures freqImageS == old(freqImageS) && imageS == old(imageS)
      ensures heap.live.Keys - Held() == old(heap.live.Keys - Held())
    {
      if freqImage == null {
        SizedLengths(info);
        var a := heap.Malloc(info.config, FREQUENCY_SIZE, 0.0, info.SourceLength() as nat);
        assert a[..] == Zeros(info.SourceLength());
        freqImage := a;
      }
    }

    /** The target spectrum slot is filled with a zeroed rsn_malloc buffer when it is empty. */
    method EnsureTarget(info: Info)
      requires Valid(info)
      modifies this, heap
      ensures Valid(info) && freqImageS != null
      ensures if old(freqImageS) != null then freqImageS == old(freqImageS) else fresh(freqImageS)
      ensures freqImageS[..] == old(Contents(freqImageS, info.TargetLength()))
      ensures freqImage == old(freqImage) && imageS == old(imageS)
      ensures heap.live.Keys - Held() == old(heap.live.Keys - Held())
    {
      if freqImageS == null {
        SizedLengths(info);
        var a := heap.Malloc(info.config, FREQUENCY_SIZE, 0.0, info.TargetLength() as nat);
        assert a[..] == Zeros(info.TargetLength());
        freqImageS := a;
      }
    }

    /** The output image slot is filled with height_s fresh rows of width_s * channels samples when it is empty. */
    method EnsureOutput(info: Info)
      requires Valid(info)
      modifies this, heap
      ensures Valid(info) && imageS != null
      ensures if old(imageS) != null then imageS == old(imageS) else fresh(Output())
      ensures freqImage == old(freqImage) && freqImageS == old(freqImageS)
      ensures heap.live.Keys - Held() == old(heap.live.Keys - Held())
    {
      if imageS == null {
        var rows := AllocateOutput(heap, info);
        imageS := rows;
      }
    }

    /** Unless the greed has the RETAIN bit, the source spectrum is released and its slot nulled. */
    method ReleaseSource(info: Info)
      requires Valid(info)
      modifies this, heap
      ensures Valid(info)
      ensures freqImage == if Retains(info.config.greed) then old(freqImage) else null
      ensures freqImageS == old(freqImageS) && imageS == old(imageS)
      ensures heap.live.Keys - Held() == old(heap.live.Keys - Held())
    {
      if !Retains(info.config.greed) {
        FrequencyRoutingAgrees(heap.build, info.config.transform);
        freqImage := heap.Free(info.config.transform, freqImage);
      }
    }

    /** Unless the greed has the RETAIN bit, the target spectrum is released and its slot nulled. */
    method ReleaseTarget(info: Info)
      requires Valid(info)
      modifies this, heap
      ensures Valid(info)
      ensures freqImageS == if Retains(info.config.greed) then old(freqImageS) else null
      ensures freqImage == old(freqImage) && imageS == old(imageS)
      ensures heap.live.Keys - Held() == old(heap.live.Keys - Held())
    {
      if !Retains(info.config.greed) {
        FrequencyRoutingAgrees(heap.build, info.config.transform);
        freqImageS := heap.Free(info.config.transform, freqImageS);
      }
    }

    /**
     * rsn_cleanup: releases both spectra (rsn_free is a no-op on a NULL slot) and
     * hands the output image to the caller, who now owns it. The buffers outside
     * the spectra stay live.
     */
    method Cleanup(info: Info) returns (out: array?<array?<Pel>>)
      requires Valid(info)
      modifies this, heap
      ensures Valid(info) && out == imageS == old(imageS)
      ensures freqImage == null && freqImageS == null
      ensures heap.live == old(heap.live) - old(Spectra())
    {
      FrequencyRoutingAgrees(heap.build, info.config.transform);
      ghost var live0 := heap.live;
      freqImage := heap.Free(info.config.transform, freqImage);
      freqImageS := heap.Free(info.config.transform, freqImageS);
      assert heap.live == live0 - old(Spectra());
      out := imageS;
    }

    /**
     * rsn_destroy: releases the output image row by row and its pointer array
     * (samples always go back to the generic allocator), then cleans up. Nothing
     * the state held is live afterwards, and nothing else was released.
     */
    method Destroy(info: Info)
      requires Valid(info)
      modifies this, heap, imageS
      ensures freqImage == null && freqImageS == null && imageS == null
      ensures heap.live == old(heap.live) - old(Held())
    {
      ghost var live0 := heap.live;
      ghost var rows0 := OutRows();
      if imageS != null {
        assert RowSet(imageS, info.heightS as nat) == rows0;
      }
      imageS := heap.FreeArray(TRANSFORM_NONE, info.heightS as nat, imageS);
      assert heap.live == live0 - (if old(imageS) == null then {} else {old(imageS) as object}) - rows0;
      var _ := Cleanup(info);
      assert heap.live == live0 - old(Held());
    }
  }
}
