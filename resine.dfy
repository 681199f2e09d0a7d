/**
 * lib/resine.c, the earlier revision of the libresine core: the same buffer
 * lifecycle as core.c, with only two backends (FFTW's 2-D real-to-real plans and
 * the native row-column DCT), FFTW outputs normalised by 0.5 / sqrt(width * height)
 * at both the scaling and the recompose step, and a resine_data that returns
 * the output image.
 */
module Resine {
  import opened Common
  import opened Layout
  import opened Util
  import opened Stages
  import opened Session
  import Core

  /** The multiplier the FFTW recompose loop applies: 0.5 / sqrt(width * height), over the source sizes. */
  function InverseFactor(info: Info, m: Libm): (s: real)
    requires info.Sized() && m.Sane()
    ensures s > 0.0 && 2.0 * s * m.sqrt((info.width * info.height) as real) == 1.0
  {
    MulMono(1, info.width, info.height);
    0.5 / m.sqrt((info.width * info.height) as real)
  }

  /**
   * The switch of rsn_decompose and rsn_recompose in resine.c: FFTW when the build
   * has it and the transform asks for it, the native DCT for every other code; KISS
   * is never run.
   */
  function Dispatch(b: Build, info: Info, m: Libm): (be: Core.Backend)
    requires info.Sized() && m.Sane()
    ensures be.UseFftw? <==> b.hasFftw && info.config.transform == TRANSFORM_FFTW
    ensures !be.UseKiss?
    ensures be.UseFftw? ==> be.nm == MultiplyBy(InverseFactor(info, m))
    ensures be.Defined()
  {
    if b.hasFftw && info.config.transform == TRANSFORM_FFTW then Core.UseFftw(MultiplyBy(InverseFactor(info, m)))
    else Core.Native
  }

  /**
   * The scale factor of rsn_scale_standard in resine.c, chosen on the transform
   * code alone (with or without FFTW in the build): the FFTW recompose multiplier for
   * FFTW, the ratio sqrt(width_s * height_s) / sqrt(width * height) otherwise.
   */
  function ScaleFactor(info: Info, m: Libm): (s: real)
    requires info.Sized() && m.Sane()
    ensures s > 0.0
    ensures info.config.transform == TRANSFORM_FFTW ==> s == InverseFactor(info, m)
    ensures info.config.transform != TRANSFORM_FFTW ==>
              s * m.sqrt((info.width * info.height) as real) == m.sqrt((info.widthS * info.heightS) as real)
  {
    MulMono(1, info.width, info.height);
    MulMono(1, info.widthS, info.heightS);
    if info.config.transform == TRANSFORM_FFTW then InverseFactor(info, m)
    else m.sqrt((info.widthS * info.heightS) as real) / m.sqrt((info.width * info.height) as real)
  }

  /** Two positive numbers with the same square are equal. */
  lemma PositiveRootsUnique(p: real, q: real)
    requires p > 0.0 && q > 0.0 && p * p == q * q
    ensures p == q
  {
    assert (p - q) * (p + q) == p * p - q * q == 0.0;
  }

  /**
   * With an exact sqrt, both revisions give the FFTW path the same overall gain:
   * resine.c's two multipliers of 0.5 / sqrt(width * height) give
   * 1 / (4 * width * height), which is also core.c's area ratio followed by its
   * division by 4 * width_s * height_s.
   */
  lemma FftwGainAgrees(b: Build, info: Info, m: Libm)
    requires info.Sized() && m.Sane() && m.ExactSqrt() && b.hasFftw && info.config.transform == TRANSFORM_FFTW
    ensures ScaleFactor(info, m) * InverseFactor(info, m)
            == Core.ScaleFactor(b, info, m) / (4 * info.widthS * info.heightS) as real
  {
    MulMono(1, info.width, info.height);
    MulMono(1, info.widthS, info.heightS);
    MulMono(1, 4 * info.widthS, info.heightS);
    var a, area := (info.widthS * info.heightS) as real, (info.width * info.height) as real;
    var c, f := Core.ScaleFactor(b, info, m), InverseFactor(info, m);
    var r := m.sqrt(area);
    assert r * r == area;
    assert 4.0 * (f * f) * area == (2.0 * f * r) * (2.0 * f * r) == 1.0;
    assert c * area == a;
    assert (c / (4.0 * a)) * (4.0 * area) == 1.0;
    assert (4 * info.widthS * info.heightS) as real == 4.0 * a;
  }

  /**
   * With an exact sqrt, both revisions give the native path the same factor:
   * sqrt(width_s * height_s) / sqrt(width * height) is the square root of the area
   * ratio. This covers every transform code outside the FFTW code, which resine.c
   * always scales as FFTW, and outside core.c's `#ifdef HAS_KISS` branch.
   */
  lemma NativeFactorAgrees(b: Build, info: Info, m: Libm)
    requires info.Sized() && m.Sane() && m.ExactSqrt()
    requires !Core.AreaRatioBranch(b, info) && info.config.transform != TRANSFORM_FFTW
    ensures ScaleFactor(info, m) == Core.ScaleFactor(b, info, m)
  {
    MulMono(1, info.width, info.height);
    MulMono(1, info.widthS, info.heightS);
    var a, area := (info.widthS * info.heightS) as real, (info.width * info.height) as real;
    var s, c := ScaleFactor(info, m), Core.ScaleFactor(b, info, m);
    var ra, rb := m.sqrt(a), m.sqrt(area);
    assert rb * rb == area && ra * ra == a;
    assert s * rb == ra;
    assert c == m.sqrt(a / area);
    assert c * c == a / area;
    assert (s * s) * area == (s * rb) * (s * rb) == a;
    PositiveRootsUnique(s, c);
  }

  /** rsn_decompose in resine.c: fills the source spectrum slot when it is empty, then runs the dispatched forward transform. */
  method Decompose(d: Data, info: Info, fg: Foreign, tmp0: seq<real>)
    requires d.Valid(info) && fg.Sane()
    requires Fits(d.image, info.height, info.width * info.channels) && |tmp0| == info.SourceLength()
    modifies d, d.heap, d.freqImage
    ensures d.Valid(info) && d.freqImage != null
    ensures old(d.freqImage) != null ==> d.freqImage == old(d.freqImage)
    ensures d.freqImageS == old(d.freqImageS) && d.imageS == old(d.imageS)
    ensures d.heap.live.Keys - d.Held() == old(d.heap.live.Keys - d.Held())
    ensures d.freqImage[..] == Core.Forward(Dispatch(d.heap.build, info, fg.m), fg, info, d.image, tmp0,
                                            old(Contents(d.freqImage, info.SourceLength())))
  {
    d.EnsureSource(info);
    Core.Transform(Dispatch(d.heap.build, info, fg.m), fg, info, d.image, tmp0, d.freqImage, d.heap);
  }

  /** rsn_scale_standard in resine.c: crops or zero-pads the source spectrum into the target one, times ScaleFactor. */
  method ScaleStandard(d: Data, info: Info, m: Libm)
    requires d.Valid(info) && d.freqImage != null && d.freqImageS != null && m.Sane()
    modifies d.freqImageS
    ensures d.freqImageS[..] == Core.Scaled(info, ScaleFactor(info, m), old(d.freqImageS[..]), d.freqImage[..])
  {
    SizedLengths(info);
    var scale := ScaleFactor(info, m);
    Stages.ScaleStandard(info.channels as nat, info.height as nat, info.width as nat, info.heightS as nat,
                         info.widthS as nat, d.freqImage[..], d.freqImageS, scale);
  }

  /** rsn_upscale_smooth in resine.c: a stub that warns and performs the standard scaling. */
  method UpscaleSmooth(d: Data, info: Info, m: Libm)
    requires d.Valid(info) && d.freqImage != null && d.freqImageS != null && m.Sane()
    modifies d.freqImageS
    ensures d.freqImageS[..] == Core.Scaled(info, ScaleFactor(info, m), old(d.freqImageS[..]), d.freqImage[..])
  {
    ScaleStandard(d, info, m);
  }

  /**
   * rsn_scale in resine.c: fills the target spectrum slot when it is empty, scales
   * into it, and releases the source spectrum unless the greed retains it.
   */
  method Scale(d: Data, info: Info, m: Libm)
    requires d.Valid(info) && d.freqImage != null && m.Sane()
    modifies d, d.heap, d.freqImageS
    ensures d.Valid(info) && d.freqImageS != null
    ensures old(d.freqImageS) != null ==> d.freqImageS == old(d.freqImageS)
    ensures d.freqImage == if Retains(info.config.greed) then old(d.freqImage) else null
    ensures d.imageS == old(d.imageS)
    ensures d.heap.live.Keys - d.Held() == old(d.heap.live.Keys - d.Held())
    ensures d.freqImageS[..] == Core.Scaled(info, ScaleFactor(info, m), old(Contents(d.freqImageS, info.TargetLength())),
                                            old(d.freqImage[..]))
  {
    d.EnsureTarget(info);
    if info.config.scaling == SCALING_SMOOTH {
      UpscaleSmooth(d, info, m);
    } else {
      ScaleStandard(d, info, m);
    }
    d.ReleaseSource(info);
  }

  /**
   * rsn_recompose in resine.c: fills the output image slot when it is empty, runs
   * the dispatched inverse transform into it, and releases the target spectrum
   * unless the greed retains it.
   */
  method Recompose(d: Data, info: Info, fg: Foreign)
    requires d.Valid(info) && d.freqImageS != null && fg.Sane()
    modifies d, d.heap, d.OutRows()
    ensures d.Valid(info) && d.imageS != null
    ensures old(d.imageS) != null ==> d.imageS == old(d.imageS)
    ensures d.freqImage == old(d.freqImage)
    ensures d.freqImageS == if Retains(info.config.greed) then old(d.freqImageS) else null
    ensures d.heap.live.Keys - d.Held() == old(d.heap.live.Keys - d.Held())
    ensures Pixels(d.imageS) == Core.Recomposed(Dispatch(d.heap.build, info, fg.m), fg, info, old(d.freqImageS[..]))
  {
    d.EnsureOutput(info);
    Core.StoreAndRelease(d, info, fg, Dispatch(d.heap.build, info, fg.m));
  }

  /** The whole run of resine_data in resine.c on a state whose spectra held T1 and T2. */
  ghost function Pipeline(b: Build, info: Info, fg: Foreign, f: seq<seq<Pel>>, tmp0: seq<real>,
                          T1: seq<real>, T2: seq<real>): seq<seq<Pel>>
    requires info.Sized() && fg.Sane()
  {
    Core.Run(Dispatch(b, info, fg.m), ScaleFactor(info, fg.m), info, fg, f, tmp0, T1, T2)
  }

  /**
   * resine_data in resine.c: decompose, scale, recompose (the timing output is left
   * out), returning the output image the state holds.
   */
  method ResineData(d: Data, info: Info, fg: Foreign, tmp0: seq<real>) returns (out: array<array?<Pel>>)
    requires d.Valid(info) && fg.Sane()
    requires Fits(d.image, info.height, info.width * info.channels) && |tmp0| == info.SourceLength()
    modifies d, d.heap, d.freqImage, d.freqImageS, d.OutRows()
    ensures d.Valid(info) && out == d.imageS
    ensures old(d.imageS) != null ==> out == old(d.imageS)
    ensures Retains(info.config.greed) <==> d.freqImage != null
    ensures Retains(info.config.greed) <==> d.freqImageS != null
    ensures d.heap.live.Keys - d.Held() == old(d.heap.live.Keys - d.Held())
    ensures Pixels(out) == Pipeline(d.heap.build, info, fg, d.image, tmp0,
                                    old(Contents(d.freqImage, info.SourceLength())),
                                    old(Contents(d.freqImageS, info.TargetLength())))
  {
    ghost var T2 := Contents(d.freqImageS, info.TargetLength());
    Decompose(d, info, fg, tmp0);
    ghost var F := d.freqImage[..];
    assert Contents(d.freqImageS, info.TargetLength()) == T2;
    Scale(d, info, fg.m);
    ghost var Fs := d.freqImageS[..];
    assert Fs == Core.Scaled(info, ScaleFactor(info, fg.m), T2, F);
    Recompose(d, info, fg);
    out := d.imageS;
  }

  /**
   * resine in resine.c: a whole run on a fresh state. The caller gets the output
   * image, which holds the pipeline's samples of zeroed spectra; every other buffer
   * of the run has been released.
   */
  method Resine(heap: Heap, info: Info, image: seq<seq<Pel>>, fg: Foreign, tmp0: seq<real>)
    returns (out: array<array?<Pel>>)
    requires info.Sized() && fg.Sane()
    requires Fits(image, info.height, info.width * info.channels) && |tmp0| == info.SourceLength()
    modifies heap
    ensures out.Length == info.heightS && DistinctRows(out, out.Length)
    ensures Pixels(out) == Pipeline(heap.build, info, fg, image, tmp0,
                                    Zeros(info.SourceLength()), Zeros(info.TargetLength()))
    ensures heap.live.Keys == old(heap.live.Keys) + {out as object} + RowSet(out, out.Length)
  {
    var d := new Data.Init(heap, info, image);
    assert Contents(d.freqImage, info.SourceLength()) == Zeros(info.SourceLength());
    assert Contents(d.freqImageS, info.TargetLength()) == Zeros(info.TargetLength());
    out := RunAndFinish(d, info, fg, tmp0);
  }

  /** The body of resine after rsn_init: resine_data, then rsn_cleanup. */
  method RunAndFinish(d: Data, info: Info, fg: Foreign, tmp0: seq<real>) returns (out: array<array?<Pel>>)
    requires d.Valid(info) && fg.Sane()
    requires Fits(d.image, info.height, info.width * info.channels) && |tmp0| == info.SourceLength()
    modifies d, d.heap, d.freqImage, d.freqImageS, d.OutRows()
    ensures out.Length == info.heightS && DistinctRows(out, out.Length)
    ensures Pixels(out) == Pipeline(d.heap.build, info, fg, d.image, tmp0,
                                    old(Contents(d.freqImage, info.SourceLength())),
                                    old(Contents(d.freqImageS, info.TargetLength())))
    ensures d.heap.live.Keys == old(d.heap.live.Keys - d.Held()) + {out as object} + RowSet(out, out.Length)
  {
    ghost var p := Pipeline(d.heap.build, info, fg, d.image, tmp0, Contents(d.freqImage, info.SourceLength()),
                            Contents(d.freqImageS, info.TargetLength()));
    ghost var keys := d.heap.live.Keys - d.Held();
    var img := ResineData(d, info, fg, tmp0);
    assert img == d.imageS && Pixels(img) == p;
    assert d.heap.live.Keys - d.Held() == keys;
    out := Core.Finish(d, info);
  }
}
