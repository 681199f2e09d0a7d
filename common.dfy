/**
 * Shared definitions of libresine: the transform, scaling and greed codes, the
 * configuration and geometry records, the sample type, output clamping and the
 * foreign math functions the transforms call.
 */
module Common {

  // Transform codes.
  const TRANSFORM_NONE: int := -1
  const TRANSFORM_NATIVE: int := 0
  const TRANSFORM_FFTW: int := 1
  const TRANSFORM_KISS: int := 2

  // Scaling codes.
  const SCALING_STANDARD: int := 0
  const SCALING_SMOOTH: int := 1

  // Greed (buffer retention) codes: a bit mask of PREALLOC and RETAIN.
  const GREED_LEAN: int := 0
  const GREED_PREALLOC: int := 1
  const GREED_RETAIN: int := 2
  const GREED_PREALLOC_RETAIN: int := 3

  /** sizeof(rsn_pel): one unsigned char. */
  const PEL_SIZE: nat := 1
  /** sizeof(rsn_frequency) in the default double-precision build. */
  const FREQUENCY_SIZE: nat := 8

  /** M_PI and M_SQRT1_2 as math.h spells them. */
  const PI: real := 3.14159265358979323846
  const SQRT1_2: real := 0.70710678118654752440

  /** An 8-bit sample (rsn_pel). */
  newtype Pel = x: int | 0 <= x < 256

  /** rsn_config: every field is a plain C int. */
  datatype Config = Config(transform: int, scaling: int, verbosity: int, threads: int, greed: int)

  /** rsn_info: configuration plus source and target geometry. */
  datatype Info = Info(config: Config, channels: int, width: int, height: int, widthS: int, heightS: int)
  {
    /** The geometry every stage relies on: positive sizes on both sides. */
    predicate Sized() {
      channels > 0 && width > 0 && height > 0 && widthS > 0 && heightS > 0
    }
    /** Length of the source coefficient plane: channels * height * width. */
    function SourceLength(): int { channels * height * width }
    /** Length of the target coefficient plane: channels * height_s * width_s. */
    function TargetLength(): int { channels * heightS * widthS }
  }

  /** A preprocessor macro as the build leaves it: not defined, or defined to an integer value. */
  datatype Macro = Undefined | DefinedAs(value: int) {
    /** What `#ifdef` tests. */
    const defined: bool := DefinedAs?
    /** What `#if` tests: an undefined macro reads as 0. */
    const holds: bool := DefinedAs? && value != 0
  }

  /**
   * The compile-time choices HAS_FFTW and HAS_KISS. Almost every test in the
   * library is `#if`, which is what hasFftw and hasKiss give; the scale factor of
   * core.c alone tests `#ifdef`.
   */
  datatype Build = Build(fftw: Macro, kiss: Macro) {
    const hasFftw: bool := fftw.holds
    const hasKiss: bool := kiss.holds
  }

  /** RSN_TRANSFORM_DEFAULT: FFTW when compiled in, native otherwise. */
  function TransformDefault(b: Build): int {
    if b.hasFftw then TRANSFORM_FFTW else TRANSFORM_NATIVE
  }

  /** greed & RSN_GREED_PREALLOC, for every int including negative ones (two's complement bit 0). */
  predicate Preallocates(greed: int) { greed % 2 == 1 }

  /** greed & RSN_GREED_RETAIN, for every int (two's complement bit 1). */
  predicate Retains(greed: int) { (greed / 2) % 2 == 1 }

  /** The four named greed levels are exactly the four combinations of the two bits. */
  lemma GreedLevels()
    ensures !Preallocates(GREED_LEAN) && !Retains(GREED_LEAN)
    ensures Preallocates(GREED_PREALLOC) && !Retains(GREED_PREALLOC)
    ensures !Preallocates(GREED_RETAIN) && Retains(GREED_RETAIN)
    ensures Preallocates(GREED_PREALLOC_RETAIN) && Retains(GREED_PREALLOC_RETAIN)
  {
  }

  /** rsn_defaults: the default transform, standard scaling, silent, one thread, retain. */
  function Defaults(b: Build): (c: Config)
    ensures c.transform == TransformDefault(b)
    ensures c.transform == TRANSFORM_FFTW <==> b.hasFftw
    ensures c.scaling == SCALING_STANDARD && c.verbosity == 0 && c.threads == 1
    ensures Retains(c.greed) && !Preallocates(c.greed)
  {
    Config(TransformDefault(b), SCALING_STANDARD, 0, 1, GREED_RETAIN)
  }

  /** C99 round(): nearest integer, halves away from zero. */
  function Round(s: real): (r: int)
    ensures (r as real) - 0.5 <= s <= (r as real) + 0.5
    ensures s >= 0.0 ==> r >= 0 && s < (r as real) + 0.5
    ensures s < 0.0 ==> r <= 0 && (r as real) - 0.5 < s
  {
    if s >= 0.0 then (s + 0.5).Floor else -((0.5 - s).Floor)
  }

  /**
   * The saturating store of every inverse transform:
   * s > 255 ? 255 : s < 0 ? 0 : round(s), converted to an 8-bit sample.
   */
  function ClampPel(s: real): (p: Pel)
    ensures s > 255.0 ==> p == 255
    ensures s < 0.0 ==> p == 0
    ensures 0.0 <= s <= 255.0 ==> (p as real) - 0.5 <= s < (p as real) + 0.5
  {
    if s > 255.0 then 255 else if s < 0.0 then 0 else Round(s) as Pel
  }

  /** Clamping is monotone: a larger value never stores a smaller sample. */
  lemma ClampMonotone(s: real, t: real)
    requires s <= t
    ensures ClampPel(s) <= ClampPel(t)
  {
  }

  /** Every stored sample value is a fixed point of the clamp. */
  lemma ClampKeepsPels(p: Pel)
    ensures ClampPel(p as real) == p
  {
  }

  /** The first M rows of image f exist and hold at least W samples each. */
  predicate Fits(f: seq<seq<Pel>>, M: nat, W: nat) {
    M <= |f| && forall j :: 0 <= j < M ==> W <= |f[j]|
  }

  /**
   * The math library functions the transforms call, as values: the model does not
   * interpret them, it only says where and with which arguments they are applied.
   */
  datatype Libm = Libm(cos: real -> real, sin: real -> real, sqrt: real -> real,
                       log: real -> real, pow: (real, real) -> real)
  {
    /** What every division by a square root relies on: sqrt of a positive number is positive. */
    ghost predicate Sane() {
      forall x: real :: x > 0.0 ==> sqrt(x) > 0.0
    }

    /** sqrt as the exact square root on the non-negative reals, for statements about the factors themselves. */
    ghost predicate ExactSqrt() {
      forall x: real :: x >= 0.0 ==> sqrt(x) >= 0.0 && sqrt(x) * sqrt(x) == x
    }
  }

  /** A complex number (kiss_fft_cpx). */
  datatype Cpx = Cpx(r: real, i: real)
}
