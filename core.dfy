/**
 * lib/core.c, the libresine core with three backends: FFTW's 2-D real-to-real
 * plans, KISS FFT on the mirrored image, and the native row-column DCT. A run
 * decomposes the source image into its spectrum, crops or zero-pads the spectrum
 * to the target size with a scale factor, and recomposes the target image; each
 * stage allocates the buffer it writes when it is missing, and under a greed
 * without the RETAIN bit releases the buffer it consumed.
 */
module Core {
  import opened Common
  import opened Layout
  import opened Util
  import Dsp
  import opened Stages
  import Kiss
  import opened Session

  /**
   * The transform code that runs. The FFTW inverse plans are unnormalised; nm is
   * what the recompose loop applies to their output before clamping.
   */
  datatype Backend = Native | UseFftw(nm: Normalisation) | UseKiss
  {
    predicate Defined() { UseFftw? ==> nm.Defined() }
  }

  /**
   * The switch of rsn_decompose and rsn_recompose: the FFTW and KISS cases exist
   * only when the build has that library, every other code falls to the native DCT.
   * The FFTW output is divided by 4 * width_s * height_s.
   */
  function Dispatch(b: Build, info: Info): (be: Backend)
    requires info.Sized()
    ensures be.UseFftw? <==> b.hasFftw && info.config.transform == TRANSFORM_FFTW
    ensures be.UseKiss? <==> b.hasKiss && info.config.transform == TRANSFORM_KISS
    ensures be.UseFftw? ==> be.nm == DivideBy((4 * info.widthS * info.heightS) as real)
    ensures be.Defined()
  {
    if b.hasFftw && info.config.transform == TRANSFORM_FFTW then UseFftw(AreaNormalisation(info.heightS, info.widthS))
    else if b.hasKiss && info.config.transform == TRANSFORM_KISS then UseKiss
    else Native
  }

  /** The default configuration runs FFTW when the build has it and the native DCT otherwise, never KISS. */
  lemma DefaultDispatch(b: Build, info: Info)
    requires info.Sized() && info.config == Defaults(b)
    ensures Dispatch(b, info).UseFftw? <==> b.hasFftw
    ensures Dispatch(b, info).Native? <==> !b.hasFftw
  {
  }

  /**
   * The source spectrum rsn_decompose leaves in a buffer that held T: the FFTW
   * 2-D plans of the planes, the KISS half spectra shifted back to a DCT, or what
   * the native row-column DCT adds to T.
   */
  ghost function Forward(be: Backend, fg: Foreign, info: Info, f: seq<seq<Pel>>, tmp0: seq<real>, T: seq<real>): seq<real>
    requires info.Sized() && fg.Sane()
  {
    var L, M, N := info.channels as nat, info.height as nat, info.width as nat;
    match be
    case UseFftw(_) => Forward2d(fg.fftw, f, L, M, N)
    case UseKiss => Flatten(Kiss.KissPlanes(f, fg.kiss, fg.m, L, M, N), L, M, N)
    case Native =>
      seq(|T|, k requires 0 <= k < |T| =>
        T[k] + Dsp.ColAt(Dsp.RowPassOf(tmp0, f, fg.m, Dsp.MakeNorms(fg.m, M, N), L, M, N), fg.m,
                         Dsp.MakeNorms(fg.m, M, N), M, N, k))
  }

  /**
   * The branches of rsn_scale_standard that take the plain area ratio. Unlike the
   * switch of rsn_decompose and rsn_recompose they test `#ifdef`, so a macro defined
   * as 0 still selects them.
   */
  predicate AreaRatioBranch(b: Build, info: Info) {
    (b.fftw.defined && info.config.transform == TRANSFORM_FFTW) || (b.kiss.defined && info.config.transform == TRANSFORM_KISS)
  }

  /**
   * The scale factor of rsn_scale_standard: the area ratio for the unnormalised
   * FFTW and KISS transforms, its square root for the orthonormal native DCT.
   * Whenever Dispatch picks FFTW or KISS the factor is the area ratio.
   */
  function ScaleFactor(b: Build, info: Info, m: Libm): (s: real)
    requires info.Sized()
    ensures AreaRatioBranch(b, info) ==> s * ((info.width * info.height) as real) == (info.widthS * info.heightS) as real
    ensures !AreaRatioBranch(b, info) && m.ExactSqrt() ==>
              s * s * ((info.width * info.height) as real) == (info.widthS * info.heightS) as real
    ensures !Dispatch(b, info).Native? ==> s * ((info.width * info.height) as real) == (info.widthS * info.heightS) as real
    ensures m.Sane() ==> s > 0.0
  {
    SizedLengths(info);
    MulMono(1, info.width, info.height);
    MulMono(1, info.widthS, info.heightS);
    var ratio := (info.widthS * info.heightS) as real / (info.width * info.height) as real;
    if AreaRatioBranch(b, info) then ratio else m.sqrt(ratio)
  }

  /**
   * core.c's scale factor and dispatch disagree when HAS_FFTW is defined as 0: the
   * FFTW code then runs the orthonormal native DCT but still gets the plain area
   * ratio, whose square is not the ratio unless the area is unchanged.
   */
  lemma ScaleFactorZeroMacro(info: Info, m: Libm)
    requires info.Sized() && m.Sane() && m.ExactSqrt() && info.config.transform == TRANSFORM_FFTW
    requires info.widthS * info.heightS != info.width * info.height
    ensures Dispatch(Build(DefinedAs(0), Undefined), info).Native?
    ensures var s := ScaleFactor(Build(DefinedAs(0), Undefined), info, m);
            s * ((info.width * info.height) as real) == (info.widthS * info.heightS) as real &&
            s * s * ((info.width * info.height) as real) != (info.widthS * info.heightS) as real
  {
    var b := Build(DefinedAs(0), Undefined);
    var s := ScaleFactor(b, info, m);
    var area, areaS := (info.width * info.height) as real, (info.widthS * info.heightS) as real;
    MulMono(1, info.widthS, info.heightS);
    assert s * area == areaS && areaS > 0.0;
    assert s != 1.0;
    assert s * s * area == s * areaS;
  }

  /** The target spectrum the copy loop of rsn_scale_standard leaves in a buffer that held T, from source spectrum F and factor s. */
  ghost function Scaled(info: Info, s: real, T: seq<real>, F: seq<real>): seq<real>
    requires info.Sized()
  {
    Rescaled(T, F, info.channels as nat, info.height as nat, info.width as nat, info.heightS as nat, info.widthS as nat,
             s, |T|)
  }

  /** The geometry of the way back: source and target sizes exchanged. */
  function Back(info: Info): Info {
    Info(info.config, info.channels, info.widthS, info.heightS, info.width, info.height)
  }

  /** Two factors that carry a to b and b back to a multiply to one. */
  lemma FactorsCancel(s: real, s': real, a: real, b: real)
    requires a > 0.0 && b > 0.0 && s * a == b && s' * b == a
    ensures s * s' == 1.0
  {
    assert (s * s') * b == s * (s' * b) == s * a == b;
    assert (s * s' - 1.0) * b == 0.0;
  }

  /**
   * With the FFTW or KISS transform, padding a spectrum up to the target size and
   * cropping it back with the factor of the way back restores it exactly: the two
   * area ratios cancel.
   */
  lemma PadThenCrop(b: Build, info: Info, m: Libm, T: seq<real>, T': seq<real>, F: seq<real>)
    requires info.Sized() && !Dispatch(b, info).Native?
    requires info.height <= info.heightS && info.width <= info.widthS
    requires |F| == info.SourceLength() && |T| == info.TargetLength() && |T'| == info.SourceLength()
    ensures Scaled(Back(info), ScaleFactor(b, Back(info), m), T', Scaled(info, ScaleFactor(b, info, m), T, F)) == F
  {
    SizedLengths(info);
    var L, M, N, Ms, Ns := info.channels as nat, info.height as nat, info.width as nat, info.heightS as nat, info.widthS as nat;
    var s, s' := ScaleFactor(b, info, m), ScaleFactor(b, Back(info), m);
    MulMono(1, N, M);
    MulMono(1, Ns, Ms);
    FactorsCancel(s, s', (N * M) as real, (Ns * Ms) as real);
    CropAfterPad(T, T', F, L, M, N, Ms, Ns, s, s');
    var R := Scaled(Back(info), s', T', Scaled(info, s, T, F));
    assert |R| == |F|;
    forall k | 0 <= k < |F| ensures R[k] == F[k] {
      assert R[k] == F[k] * s * s';
    }
  }

  /**
   * The output image rsn_recompose stores from target spectrum F: clamped samples
   * of the inverse FFTW plans normalised by nm, of the inverse KISS transform
   * divided by 4 * width_s * height_s, or of the native inverse DCT. Every row is
   * width_s pixels of all channels.
   */
  ghost function Recomposed(be: Backend, fg: Foreign, info: Info, F: seq<real>): (g: seq<seq<Pel>>)
    requires info.Sized() && fg.Sane() && be.Defined()
    ensures |g| == info.heightS && forall j :: 0 <= j < |g| ==> |g[j]| == info.widthS * info.channels
  {
    var L, M, N := info.channels as nat, info.heightS as nat, info.widthS as nat;
    seq(M, j requires 0 <= j < M =>
      seq(N * L, o requires 0 <= o < N * L =>
        match be
        case UseFftw(nm) => ClampPel(Normalise(nm, Interleave(Inverse2d(fg.fftw, F, L, M, N), L, M, N, N)[j][o]))
        case UseKiss => ClampPel(Normalise(AreaNormalisation(M, N),
                                           Interleave(Kiss.KissInverse(F, fg.kiss, fg.m, L, M, N), L, M, N, 2 * N)[j][o]))
        case Native => Dsp.InverseSample(F, fg.m, Dsp.MakeNorms(fg.m, M, N), L, M, N, j, o)))
  }

  /** A whole decompose, scale and recompose with backend be and scale factor s, on spectra that held T1 and T2. */
  ghost function Run(be: Backend, s: real, info: Info, fg: Foreign, f: seq<seq<Pel>>, tmp0: seq<real>,
                     T1: seq<real>, T2: seq<real>): (g: seq<seq<Pel>>)
    requires info.Sized() && fg.Sane() && be.Defined()
    ensures |g| == info.heightS
  {
    Recomposed(be, fg, info, Scaled(info, s, T2, Forward(be, fg, info, f, tmp0, T1)))
  }

  /** The whole run of resine_data in core.c on a state whose spectra held T1 and T2. */
  ghost function Pipeline(b: Build, info: Info, fg: Foreign, f: seq<seq<Pel>>, tmp0: seq<real>,
                          T1: seq<real>, T2: seq<real>): (g: seq<seq<Pel>>)
    requires info.Sized() && fg.Sane()
  {
    Run(Dispatch(b, info), ScaleFactor(b, info, fg.m), info, fg, f, tmp0, T1, T2)
  }

  /**
   * The forward transform the switch of rsn_decompose runs into spectrum F: the
   * FFTW 2-D path, the KISS path, or the native row-column DCT, whose scratch
   * buffer holds the uninitialised contents tmp0. The allocator ends as it began.
   */
  method Transform(be: Backend, fg: Foreign, info: Info, f: seq<seq<Pel>>, tmp0: seq<real>, F: array<real>, heap: Heap)
    requires info.Sized() && fg.Sane() && F.Length == info.SourceLength()
    requires Fits(f, info.height, info.width * info.channels) && |tmp0| == info.SourceLength()
    modifies heap, F
    ensures heap.live == old(heap.live)
    ensures F[..] == Forward(be, fg, info, f, tmp0, old(F[..]))
  {
    SizedLengths(info);
    var L, M, N := info.channels as nat, info.height as nat, info.width as nat;
    match be
    case UseFftw(_) =>
      Decompose2d(heap, info.config, L, M, N, f, F, fg.fftw);
    case UseKiss =>
      Kiss.Decompose(f, L, M, N, fg.kiss, fg.m, F);
    case Native =>
      Dsp.DctRowcol(L, M, N, f, F, fg.m, tmp0);
      assert F[..] == Forward(Native, fg, info, f, tmp0, old(F[..]));
  }

  /** rsn_decompose: fills the source spectrum slot when it is empty, then runs the dispatched forward transform into it. */
  method Decompose(d: Data, info: Info, fg: Foreign, tmp0: seq<real>)
    requires d.Valid(info) && fg.Sane()
    requires Fits(d.image, info.height, info.width * info.channels) && |tmp0| == info.SourceLength()
    modifies d, d.heap, d.freqImage
    ensures d.Valid(info) && d.freqImage != null
    ensures old(d.freqImage) != null ==> d.freqImage == old(d.freqImage)
    ensures d.freqImageS == old(d.freqImageS) && d.imageS == old(d.imageS)
    ensures d.heap.live.Keys - d.Held() == old(d.heap.live.Keys - d.Held())
    ensures d.freqImage[..] == Forward(Dispatch(d.heap.build, info), fg, info, d.image, tmp0,
                                       old(Contents(d.freqImage, info.SourceLength())))
  {
    d.EnsureSource(info);
    Transform(Dispatch(d.heap.build, info), fg, info, d.image, tmp0, d.freqImage, d.heap);
  }

  /** rsn_scale_standard: crops or zero-pads the source spectrum into the target one, times ScaleFactor. */
  method ScaleStandard(d: Data, info: Info, m: Libm)
    requires d.Valid(info) && d.freqImage != null && d.freqImageS != null
    modifies d.freqImageS
    ensures d.freqImageS[..] == Scaled(info, ScaleFactor(d.heap.build, info, m), old(d.freqImageS[..]), d.freqImage[..])
  {
    SizedLengths(info);
    var scale := ScaleFactor(d.heap.build, info, m);
    Stages.ScaleStandard(info.channels as nat, info.height as nat, info.width as nat, info.heightS as nat,
                         info.widthS as nat, d.freqImage[..], d.freqImageS, scale);
  }

  /** rsn_upscale_smooth: a stub that warns and performs the standard scaling. */
  method UpscaleSmooth(d: Data, info: Info, m: Libm)
    requires d.Valid(info) && d.freqImage != null && d.freqImageS != null
    modifies d.freqImageS
    ensures d.freqImageS[..] == Scaled(info, ScaleFactor(d.heap.build, info, m), old(d.freqImageS[..]), d.freqImage[..])
  {
    ScaleStandard(d, info, m);
  }

  /**
   * rsn_scale: fills the target spectrum slot when it is empty, scales into it
   * (the smooth mode is the standard one), and releases the source spectrum unless
   * the greed retains it.
   */
  method Scale(d: Data, info: Info, m: Libm)
    requires d.Valid(info) && d.freqImage != null
    modifies d, d.heap, d.freqImageS
    ensures d.Valid(info) && d.freqImageS != null
    ensures old(d.freqImageS) != null ==> d.freqImageS == old(d.freqImageS)
    ensures d.freqImage == if Retains(info.config.greed) then old(d.freqImage) else null
    ensures d.imageS == old(d.imageS)
    ensures d.heap.live.Keys - d.Held() == old(d.heap.live.Keys - d.Held())
    ensures d.freqImageS[..] == Scaled(info, ScaleFactor(d.heap.build, info, m), old(Contents(d.freqImageS, info.TargetLength())), old(d.freqImage[..]))
  {
    d.EnsureTarget(info);
    if info.config.scaling == SCALING_SMOOTH {
      UpscaleSmooth(d, info, m);
    } else {
      ScaleStandard(d, info, m);
    }
    d.ReleaseSource(info);
  }

  /**
   * The inverse transform the switch of rsn_recompose runs from target spectrum F
   * into the output rows: every row ends as the matching row of Recomposed. The
   * allocator ends as it began.
   */
  method Inverse(be: Backend, fg: Foreign, info: Info, F: seq<real>, rows: seq<array<Pel>>, heap: Heap)
    requires info.Sized() && fg.Sane() && be.Defined() && |F| == info.TargetLength()
    requires |rows| == info.heightS && forall j :: 0 <= j < |rows| ==> rows[j].Length == info.widthS * info.channels
    requires forall j, j' :: 0 <= j < j' < |rows| ==> rows[j] != rows[j']
    modifies heap, set j | 0 <= j < |rows| :: rows[j]
    ensures heap.live == old(heap.live)
    ensures forall j :: 0 <= j < |rows| ==> rows[j][..] == Recomposed(be, fg, info, F)[j]
  {
    SizedLengths(info);
    var L, M, N := info.channels as nat, info.heightS as nat, info.widthS as nat;
    match be
    case UseFftw(nm) =>
      Recompose2d(heap, info.config, L, M, N, F, rows, fg.fftw, nm);
    case UseKiss =>
      Kiss.Recompose(F, L, M, N, fg.kiss, fg.m, rows);
    case Native =>
      Dsp.Idct(L, M, N, F, rows, fg.m);
    forall j | 0 <= j < M
      ensures rows[j][..] == Recomposed(be, fg, info, F)[j]
    {
    }
  }

  /**
   * rsn_recompose: fills the output image slot when it is empty, runs the
   * dispatched inverse transform into it, and releases the target spectrum unless
   * the greed retains it.
   */
  method Recompose(d: Data, info: Info, fg: Foreign)
    requires d.Valid(info) && d.freqImageS != null && fg.Sane()
    modifies d, d.heap, d.OutRows()
    ensures d.Valid(info) && d.imageS != null
    ensures old(d.imageS) != null ==> d.imageS == old(d.imageS)
    ensures d.freqImage == old(d.freqImage)
    ensures d.freqImageS == if Retains(info.config.greed) then old(d.freqImageS) else null
    ensures d.heap.live.Keys - d.Held() == old(d.heap.live.Keys - d.Held())
    ensures Pixels(d.imageS) == Recomposed(Dispatch(d.heap.build, info), fg, info, old(d.freqImageS[..]))
  {
    d.EnsureOutput(info);
    StoreAndRelease(d, info, fg, Dispatch(d.heap.build, info));
  }

  /**
   * The part of rsn_recompose after the output image exists: the inverse transform
   * of backend be, then the release of the target spectrum unless the greed retains it.
   */
  method StoreAndRelease(d: Data, info: Info, fg: Foreign, be: Backend)
    requires d.Valid(info) && d.freqImageS != null && d.imageS != null && fg.Sane() && be.Defined()
    modifies d, d.heap, d.OutRows()
    ensures d.Valid(info) && d.imageS == old(d.imageS)
    ensures d.freqImage == old(d.freqImage)
    ensures d.freqImageS == if Retains(info.config.greed) then old(d.freqImageS) else null
    ensures d.heap.live.Keys - d.Held() == old(d.heap.live.Keys - d.Held())
    ensures Pixels(d.imageS) == Recomposed(be, fg, info, old(d.freqImageS[..]))
  {
    ghost var F, img := d.freqImageS[..], d.imageS;
    ghost var g := Recomposed(be, fg, info, F);
    Store(d, info, fg, be);
    assert Pixels(img) == g;
    d.ReleaseTarget(info);
  }

  /** The switch of rsn_recompose, running backend be on a state that holds both the target spectrum and the output image. */
  method Store(d: Data, info: Info, fg: Foreign, be: Backend)
    requires d.Valid(info) && d.freqImageS != null && d.imageS != null && fg.Sane() && be.Defined()
    modifies d.heap, d.OutRows()
    ensures d.freqImage == old(d.freqImage) && d.freqImageS == old(d.freqImageS) && d.imageS == old(d.imageS)
    ensures d.Valid(info) && d.Held() == old(d.Held())
    ensures d.heap.live == old(d.heap.live)
    ensures Pixels(d.imageS) == Recomposed(be, fg, info, d.freqImageS[..])
  {
    InverseInto(be, fg, info, d.freqImageS[..], d.imageS, d.heap);
  }

  /** The dispatched inverse transform written into the rows of an output image. */
  method InverseInto(be: Backend, fg: Foreign, info: Info, F: seq<real>, img: array<array?<Pel>>, heap: Heap)
    requires info.Sized() && fg.Sane() && be.Defined() && |F| == info.TargetLength()
    requires img.Length == info.heightS && DistinctRows(img, img.Length)
    requires forall j :: 0 <= j < img.Length ==> img[j].Length == info.widthS * info.channels
    modifies heap, RowSet(img, img.Length)
    ensures heap.live == old(heap.live)
    ensures Pixels(img) == Recomposed(be, fg, info, F)
  {
    var rows: seq<array<Pel>> := seq(img.Length, j requires 0 <= j < img.Length && img[j] != null reads img => img[j]);
    assert forall j :: 0 <= j < |rows| ==> rows[j] in RowSet(img, img.Length) by {
      forall j | 0 <= j < |rows| ensures rows[j] in RowSet(img, img.Length) {
        assert img[..img.Length][j] == rows[j];
      }
    }
    Inverse(be, fg, info, F, rows, heap);
    ghost var g := Recomposed(be, fg, info, F);
    forall j | 0 <= j < img.Length
      ensures Pixels(img)[j] == g[j]
    {
      assert rows[j] == img[j];
    }
    assert Pixels(img) == g;
  }

  /**
   * resine_data in core.c: decompose, scale, recompose (the timing output is left
   * out). It returns nothing; the output image stays in the state.
   */
  method ResineData(d: Data, info: Info, fg: Foreign, tmp0: seq<real>)
    requires d.Valid(info) && fg.Sane()
    requires Fits(d.image, info.height, info.width * info.channels) && |tmp0| == info.SourceLength()
    modifies d, d.heap, d.freqImage, d.freqImageS, d.OutRows()
    ensures d.Valid(info) && d.imageS != null
    ensures old(d.imageS) != null ==> d.imageS == old(d.imageS)
    ensures Retains(info.config.greed) <==> d.freqImage != null
    ensures Retains(info.config.greed) <==> d.freqImageS != null
    ensures d.heap.live.Keys - d.Held() == old(d.heap.live.Keys - d.Held())
    ensures Pixels(d.imageS) == Pipeline(d.heap.build, info, fg, d.image, tmp0,
                                         old(Contents(d.freqImage, info.SourceLength())),
                                         old(Contents(d.freqImageS, info.TargetLength())))
  {
    ghost var T1 := Contents(d.freqImage, info.SourceLength());
    ghost var T2 := Contents(d.freqImageS, info.TargetLength());
    ghost var be := Dispatch(d.heap.build, info);
    Decompose(d, info, fg, tmp0);
    ghost var F := d.freqImage[..];
    assert Contents(d.freqImageS, info.TargetLength()) == T2;
    Scale(d, info, fg.m);
    ghost var Fs := d.freqImageS[..];
    assert Fs == Scaled(info, ScaleFactor(d.heap.build, info, fg.m), T2, F);
    Recompose(d, info, fg);
  }

  /**
   * resine: a whole run on a fresh state. The caller gets the output image, which
   * holds the pipeline's samples of zeroed spectra; every other buffer of the run
   * has been released, so the output is all that remains live beyond what was.
   */
  method Resine(heap: Heap, info: Info, image: seq<seq<Pel>>, fg: Foreign, tmp0: seq<real>)
    returns (out: array<array?<Pel>>)
    requires info.Sized() && fg.Sane()
    requires Fits(image, info.height, info.width * info.channels) && |tmp0| == info.SourceLength()
    modifies heap
    ensures out.Length == info.heightS && DistinctRows(out, out.Length)
    ensures Pixels(out) == Pipeline(heap.build, info, fg, image, tmp0,
                                    Zeros(info.SourceLength()), Zeros(info.TargetLength()))
    ensures heap.live.Keys == old(heap.live.Keys) + {out as object} + RowSet(out, out.Length)
  {
    var d := new Data.Init(heap, info, image);
    assert Contents(d.freqImage, info.SourceLength()) == Zeros(info.SourceLength());
    assert Contents(d.freqImageS, info.TargetLength()) == Zeros(info.TargetLength());
    out := RunAndFinish(d, info, fg, tmp0);
  }

  /** The body of resine after rsn_init: resine_data, then rsn_cleanup. */
  method RunAndFinish(d: Data, info: Info, fg: Foreign, tmp0: seq<real>) returns (out: array<array?<Pel>>)
    requires d.Valid(info) && fg.Sane()
    requires Fits(d.image, info.height, info.width * info.channels) && |tmp0| == info.SourceLength()
    modifies d, d.heap, d.freqImage, d.freqImageS, d.OutRows()
    ensures out.Length == info.heightS && DistinctRows(out, out.Length)
    ensures Pixels(out) == Pipeline(d.heap.build, info, fg, d.image, tmp0,
                                    old(Contents(d.freqImage, info.SourceLength())),
                                    old(Contents(d.freqImageS, info.TargetLength())))
    ensures d.heap.live.Keys == old(d.heap.live.Keys - d.Held()) + {out as object} + RowSet(out, out.Length)
  {
    ghost var p := Pipeline(d.heap.build, info, fg, d.image, tmp0, Contents(d.freqImage, info.SourceLength()),
                            Contents(d.freqImageS, info.TargetLength()));
    ghost var keys := d.heap.live.Keys - d.Held();
    ResineData(d, info, fg, tmp0);
    ghost var img := d.imageS;
    assert Pixels(img) == p && d.heap.live.Keys - d.Held() == keys;
    out := Finish(d, info);
  }

  /** The rsn_cleanup at the end of resine: the spectra go, the output image is handed out. */
  method Finish(d: Data, info: Info) returns (out: array<array?<Pel>>)
    requires d.Valid(info) && d.imageS != null
    modifies d, d.heap
    ensures out == old(d.imageS) && out.Length == info.heightS && DistinctRows(out, out.Length)
    ensures Pixels(out) == old(Pixels(d.imageS))
    ensures d.heap.live.Keys == old(d.heap.live.Keys - d.Held()) + {out as object} + RowSet(out, out.Length)
  {
    ghost var keys, spectra, output := d.heap.live.Keys, d.Spectra(), d.Output();
    d.HeldLive(info);
    ReleaseLeavesOutput(keys, keys - d.Held(), spectra, output);
    var o := d.Cleanup(info);
    out := o;
    assert output == {out as object} + RowSet(out, out.Length);
  }
}
