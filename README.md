# Resine in Dafny

Resine (libresine) resizes an image in the frequency domain. It runs a 2-D
DCT-II on every channel, crops or zero-pads the coefficient planes to the target
size while applying a scale factor, and runs a DCT-III back, clamping the result
to 8-bit samples. This project models the exact logic around the transforms:

- the buffer lifecycle of the `rsn_data` context, in both library revisions
  (`lib/core.c` and `lib/resine.c`);
- the index mappings between interleaved images and planar coefficient buffers;
- the crop/zero-pad copy and its scale factor;
- the KISS mirror extension and the Hermitian half-spectrum fill;
- the native DCT loops with their accumulation and twiddle tables;
- the allocator wrappers of `lib/util.c`;
- the spectrum max scan and the overlay blend;
- the command-line front end's greed bump, file-type test and in-place alpha
  flattening (`main.c` lines 93–138).

The transforms themselves are left abstract:

- FFTW's r2r plans and KISS's real FFT are function-valued parameters
  (`Stages.Fftw`, `Kiss.Kiss`);
- `cos`, `sin`, `sqrt`, `log` and `pow` are fields of `Common.Libm`;
- `rsn_frequency` is `real`.

What the model proves is that every stage writes what it claims at the index it
claims, frees what it claims, and clamps what it stores.

Modules, one per file:

| file | module | models |
|---|---|---|
| common.dfy | Common | `common.h` codes, `rsn_config`/`rsn_info`, `rsn_pel`, round and clamp, `rsn_defaults` |
| layout.dfy | Layout | the index maps `y*w+x`, `x*c+z` and `z*M*N+y*N+x`, and their bijection lemmas |
| util.dfy | Util | `rsn_malloc`, `rsn_malloc_array`, `rsn_free`, `rsn_free_array`, `rsn_realloc`, `rsn_realloc_array` over a heap that tags every live buffer with its allocator family |
| dsp.dfy | Dsp | `CC`, `rsn_dct_direct`, `rsn_dct`, `rsn_idct`, `rsn_dct_rowcol` |
| spectrum.dfy | Spectrum | the max-abs scan and `composite_spectrum` |
| stages.dfy | Stages | code shared by both revisions: the planar copies, the FFTW 2-D stages, the clamped store and `rsn_scale_standard`'s copy loop |
| kiss.dfy | Kiss | `rsn_decompose_kiss` and `rsn_recompose_kiss` |
| session.dfy | Session | the `rsn_data` context as a class with the four slots; lazy allocation and release of the slots |
| core.dfy | Core | `lib/core.c`: dispatch, the scale factor, the stage wrappers, `resine_data` (void), `resine` |
| resine.dfy | Resine | `lib/resine.c`: FFTW-or-native dispatch, its scale factor and normalisation, `resine_data` returning `image_s`, `resine` |
| cli.dfy | Cli | `main.c` lines 93–138 |

The two library revisions disagree on the return type of `resine_data`:
`lib/core.c:351` returns nothing, and `lib/resine.c:216` returns `data->image_s`,
as `lib/resine.h:45` declares. Each is modelled as written: `Core.ResineData`
has no result, and `Resine.ResineData` returns the output rows. They also differ in
the scale factor. core.c takes the area ratio when the code is FFTW and `HAS_FFTW`
is defined, or KISS and `HAS_KISS` is defined (`#ifdef`, `lib/core.c:315-320`),
whereas its dispatch tests the macros' values (`#if`, `lib/core.c:98-106`). So a
build with `HAS_FFTW` defined to 0 runs the native DCT with the FFTW area ratio.
The `Build` record keeps both readings of each macro. resine.c (`lib/resine.c:191`) picks 0.5/√(w·h) on the FFTW code alone,
even in a build without FFTW, where the native DCT then runs. The model keeps both
choices as written.

## Model

| member | source | states |
|---|---|---|
| Common.GreedLevels | lib/common.h:43-46 | LEAN, PREALLOC, RETAIN and PREALLOC_RETAIN are exactly the four combinations of the PREALLOC bit (bit 0) and the RETAIN bit (bit 1) |
| Common.Defaults | lib/resine.c:12-22 | the transform is the build's default, which is FFTW exactly when `HAS_FFTW` is nonzero; scaling is STANDARD, verbosity 0, threads 1, and greed has RETAIN but not PREALLOC |
| Common.Round | lib/resine.c:169 | C `round`: the result is within one half of the argument, and halves go away from zero |
| Common.ClampPel | lib/resine.c:168-169 | a value above 255 stores 255, a value below 0 stores 0, and anything else stores the sample nearest to it |
| Common.ClampMonotone | lib/dsp.c:77 | the clamped store is monotone |
| Common.ClampKeepsPels | lib/dsp.c:83 | every 8-bit sample value is stored unchanged |
| Layout.PlaneIndexInjective | lib/dsp.c:24 | distinct (z, y, x) with y < M and x < N have distinct planar indices z·M·N + y·N + x |
| Layout.PlaneIndexRecode | lib/dsp.c:24 | every index below L·M·N decodes to an in-range (z, y, x) that encodes back to it, so the planar map is onto |
| Layout.OffsetInjective | lib/dsp.c:183 | the interleaved offset x·L + z is injective for channel numbers z < L |
| Layout.OffsetBound | lib/dsp.c:183 | the interleaved offset of pixel x < N and channel z < L lies within a row of N·L samples |
| Util.RoutingAgrees | lib/util.c:48-73 | a buffer from `rsn_malloc(config, base, …)` released with `rsn_free(config.transform, …)` returns to the allocator that produced it, unless it holds samples under FFTW |
| Util.FrequencyRoutingAgrees | lib/util.c:66-73 | a coefficient buffer always goes back to the allocator that produced it |
| Util.PelRoutingIsGeneric | lib/util.c:67 | sample buffers always come from the generic allocator and go back to it through RSN_TRANSFORM_NONE |
| Util.Heap.Malloc | lib/util.c:66-73 | `rsn_malloc` returns a fresh zeroed buffer of `multiplier` elements, tagged FFTW only for the FFTW transform with a non-sample element size |
| Util.Heap.MallocArray | lib/util.c:75-79 | `rsn_malloc_array` returns an array of y distinct fresh rows, each holding a zeroed buffer of x elements |
| Util.Heap.Free | lib/util.c:48-57 | `rsn_free` does nothing on NULL; otherwise it releases the buffer through the allocator its tag names and nulls the slot, so a second call does nothing |
| Util.Heap.FreeArray | lib/util.c:59-64 | `rsn_free_array` does nothing on NULL; otherwise it frees each of the first `length` rows, nulls their slots, then frees the outer array |
| Util.Heap.Realloc | lib/util.c:81-90 | through FFTW the original is released and a fresh zeroed buffer returned; through the generic allocator the common prefix is kept |
| Util.Heap.ReallocArray | lib/util.c:92-96 | the outer array is resized to y rows, then each of rows 0..y-1 goes through `rsn_realloc` |
| Dsp.CC | lib/dsp.c:14 | CC(a, b) is 0.5 when both are 0, √½ when exactly one is 0, and 1 otherwise |
| Dsp.CCSymmetric | lib/dsp.c:14 | CC is symmetric in its arguments |
| Dsp.MakeNorms | lib/dsp.c:28-34 | NORM·√(NM) = 2, HNORM = NORM/2, NORM2·√(2NM) = 2, PI_M·M = π, PI_N·N = π, and the half angles are half of those |
| Dsp.StepsIsProduct | lib/dsp.c:38-39 | the running angles `PI_Mv += PI_M` after v steps equal v·PI_M |
| Dsp.Ortho | lib/dsp.c:14 | CC's shape with the one-zero factor left as s: 0.5, 1 or s, and CC itself for s = M_SQRT1_2 |
| Dsp.WeightIsTextbook | lib/dsp.c:42-45 | for any constants with HNORM = NORM/2 and NORM2 = NORM·s, the four branches of the wisdom weight are NORM·Ortho(s, u, v)·cos·cos |
| Dsp.NormsTextbook | lib/dsp.c:28-30 | with an exact sqrt, the computed HNORM is NORM/2 and NORM2 = 2/√(2NM) is NORM·s with s = √½, s > 0 and s² = ½ |
| Dsp.ComputedWeightIsTextbook | lib/dsp.c:28-45 | with an exact sqrt, the weight rsn_dct builds from its own constants is the textbook weight NORM·Ortho(√½, u, v)·cos·cos |
| Dsp.RowColFactorsWeight | lib/dsp.c:103-117 | the column weight of the row-column DCT times its row weight is the direct DCT's weight |
| Dsp.DctDirect | lib/dsp.c:17-25 | every coefficient below L·M·N gains its direct double sum; the result is that sum only when F starts at zero |
| Dsp.TableWeight | lib/dsp.c:42-45 | the wisdom entry computed from the running angles is the weight for (v, u, j, i) |
| Dsp.DctFirst | lib/dsp.c:40-47 | channel 0 of frequency (v, u) gains its weighted sum, and the table then holds every weight for (v, u) |
| Dsp.DctOther | lib/dsp.c:48-51 | channels z ≥ 1 gain the same weighted sum, reading the table channel 0 filled |
| Dsp.DctFrequency | lib/dsp.c:39-52 | one frequency (v, u) adds the forward sum to the coefficients at (v, u) of every channel and changes nothing else |
| Dsp.Dct | lib/dsp.c:27-53 | `rsn_dct` adds to each coefficient below L·M·N its forward sum and leaves the rest unchanged |
| Dsp.IdctFirst | lib/dsp.c:69-76 | one branch per (v, u) writes the table entry as the sum reads it, and every entry is written before channel 0's sum uses it |
| Dsp.IdctOther | lib/dsp.c:79-82 | channels z ≥ 1 reuse the table filled for channel 0 and get the same weighted sum |
| Dsp.IdctStore | lib/dsp.c:77-84 | the L samples of pixel (j, i) are the clamped inverse sums of their channels; other samples are untouched |
| Dsp.Idct | lib/dsp.c:55-86 | every sample of the first N·L of each row is the clamped inverse sum, hence in [0, 255]; the rest of each row is untouched |
| Dsp.RowcolRows | lib/dsp.c:100-110 | the row pass adds each entry's row transform into `tmp` |
| Dsp.RowcolCols | lib/dsp.c:111-123 | the column pass adds the column transform of `tmp` into F |
| Dsp.DctRowcol | lib/dsp.c:88-125 | F gains the column transform of (initial `tmp` + row transforms) |
| Dsp.RowcolAddsJunk | lib/dsp.c:98-123 | what `rsn_dct_rowcol` adds is what `rsn_dct` adds plus the column transform of whatever `tmp` held before the row pass |
| Dsp.UnitColumnPass | lib/dsp.c:98 | a 1×1 one-channel `tmp` holding 1.0 adds HNORM to the coefficient |
| Dsp.UnitHnormPositive | lib/dsp.c:90 | HNORM of a 1×1 plane is positive, so that junk term is not zero |
| Dsp.RowcolIsForward | lib/dsp.c:88-123 | with `tmp` starting at zero the row-column DCT adds exactly the direct forward sum |
| Dsp.DctRowcolZeroed | lib/dsp.c:88-125 | the row-column DCT over a zeroed temporary adds exactly the forward sum that `rsn_dct` adds |
| Spectrum.Abs | lib/dsp.c:172 | `fabs`: non-negative and equal to x or -x |
| Spectrum.Reach | lib/dsp.c:172-176 | the scan covers max(1, L·M·N) entries, because F[0] is read before the loop |
| Spectrum.PeakBounds | lib/dsp.c:176-177 | the running maximum is at least every scanned \|F[i]\| and equal to one of them |
| Spectrum.MaxAbs | lib/dsp.c:225-227 | the max scan returns a value ≥ \|F[i]\| for every scanned i that equals some \|F[i]\| |
| Spectrum.Stride | lib/dsp.c:219-223 | the overlay stride A is even, with L ≤ A ≤ L + 1 |
| Spectrum.OverlayLayout | lib/dsp.c:219-223 | odd L gives A = L + 1 and a = L; even L gives A = L and a = L - 1; in both a = A - 1 |
| Spectrum.Blend | lib/dsp.c:233 | overlay alpha 0 leaves the coefficient unchanged, alpha 255 replaces it by the overlay term, and any other alpha lies between the two |
| Spectrum.BlendBetween | lib/dsp.c:233 | the weighted sum `t·α/255 + F·(255-α)/255` meets Blend's three promises |
| Spectrum.CompositeAll | lib/dsp.c:230-233 | the blend loop replaces each of the first L·M·N coefficients by its blend and nothing else |
| Spectrum.LogPeak | lib/dsp.c:225-228 | log(max + 1) is taken of the max-abs of the scanned coefficients |
| Spectrum.Composite | lib/dsp.c:218-234 | every coefficient below L·M·N becomes its blend under the log-peak of the original spectrum; the rest are unchanged |
| Stages.InterleavePlanar | lib/resine.c:124-127 | copying the image to planes and reading it back interleaved returns every sample: the planar copy is lossless |
| Stages.FlattenUnflatten | lib/resine.c:150-153 | splitting a coefficient buffer into planes and merging it back gives the same buffer |
| Stages.UnflattenFlatten | lib/resine.c:139-142 | merging planes into one buffer and splitting it again gives the same planes |
| Stages.FlattenAt | lib/resine.c:142 | the merged buffer holds sample (z, y·N + x) of the planes at z·M·N + y·N + x |
| Stages.SplitPlanes | lib/resine.c:124-127 | each plane z holds channel z of the image in row-major order |
| Stages.ExecutePlanes | lib/resine.c:133-136 | each plane is replaced, in place, by the plan applied to it |
| Stages.MergePlanes | lib/resine.c:139-142 | `freq_image` is fully overwritten by the merged planes |
| Stages.UnflattenPlanes | lib/resine.c:150-153 | each plane z holds channel z of the coefficient buffer |
| Stages.AreaNormalisation | lib/core.c:291 | the division by 4·w_s·h_s is by a non-zero value |
| Stages.AllocPlanes | lib/resine.c:122 | the temporary planes are L distinct fresh buffers of the given length, tagged by the coefficient routing |
| Stages.ReleasePlanes | lib/resine.c:144 | releasing the planes restores the heap to what it was before they were allocated |
| Stages.StorePlanes | lib/resine.c:164-170 | each output sample is the clamped, normalised planar value of its channel; samples past width_s·channels are untouched |
| Stages.Decompose2d | lib/resine.c:120-145 | `freq_image` becomes the per-plane forward transform of the planar copy, and the temporary planes are freed before return |
| Stages.Recompose2d | lib/resine.c:147-173 | `image_s` holds the clamped, normalised inverse of the planes, and the temporary planes are freed |
| Stages.Min | lib/core.c:327-328 | `ylim` and `xlim` are the smaller of the two sizes |
| Stages.ScaleStandard | lib/core.c:327-333 | the target buffer becomes the rescale of its old contents: the window is written, the rest is kept |
| Stages.RescaledInside | lib/core.c:332-333 | inside the min(h, h_s)×min(w, w_s) window, target (z, y, x) is source (z, y, x)·scale |
| Stages.RescaledOutside | lib/core.c:329-333 | every target entry outside the window keeps its old value, which is zero when the buffer is fresh |
| Stages.CropAfterPad | lib/core.c:327-333 | zero-padding to a larger size and cropping back returns every source coefficient times the product of the two factors |
| Kiss.Reflect | lib/core.c:136-138 | the even reflection maps an index below 2n to an index below n |
| Kiss.MirrorDecode | lib/core.c:133-139 | entry (r, c) of the mirror buffer is input pixel (Reflect(H, r), Reflect(W, c)) of channel z |
| Kiss.MirrorSymmetric | lib/core.c:133-139 | the mirror is even-symmetric: m[y][x] = m[2H-1-y][x] = m[y][2W-1-x] |
| Kiss.MirrorTopLeft | lib/core.c:135 | the top-left H×W block of the mirror is channel z of the input |
| Kiss.Memcpy | lib/core.c:138 | `memcpy` copies n entries from s to d and changes nothing else |
| Kiss.MirrorCopy | lib/core.c:138 | copying row y to row 2H-1-y completes the mirror for that pair of rows |
| Kiss.MirrorPlane | lib/core.c:132-139 | after the loops the buffer is the mirror of channel z |
| Kiss.Unshift | lib/core.c:146-147 | the phase shift keeps the real part of the complex product of the bin and e^(i·angle) |
| Kiss.FactoredAngle | lib/core.c:127-130 | the factored angle EXP·(x·H + y·W) is the sum of the per-axis phases −πx/(2W) and −πy/(2H) |
| Kiss.ShiftAngleFactoredIff | lib/core.c:127-147 | the code's angle EXP·(x·W + y·H) equals the factored angle exactly when x = y or W = H |
| Kiss.ShiftAngleWide | lib/core.c:146-147 | for a 1×2 image, entry (0, 1) gets the angle −π/2 where the factorisation asks for −π/4 |
| Kiss.ShiftCell | lib/core.c:143-147 | planar coefficient (z, y, x) is the shifted bin y·(W+1) + x, with the phase angle left as written |
| Kiss.Decompose | lib/core.c:122-155 | `freq_image` becomes the flattened shifted half-spectra of the mirrored channels |
| Kiss.Reflected | lib/core.c:188-191 | the lower-half entry is the negated rotation |
| Kiss.HalfEntries | lib/core.c:174-192 | row y < H holds the rotated coefficient, the mirror row 2H-y holds its reflection, and column W and row H are zero |
| Kiss.ZeroedNyquist | lib/core.c:162-166 | after the two zeroing loops, every entry in column W or in row H is zero |
| Kiss.PreZero | lib/core.c:162-166 | the pre-zeroing writes exactly column W of all 2H rows and row H |
| Kiss.FillFirstRow | lib/core.c:175-179 | row 0 is filled from the first W coefficients, and the read position in the coefficients advances W |
| Kiss.FillRow | lib/core.c:180-192 | rows y and 2H-y are filled from the next W coefficients, and the read position advances W |
| Kiss.FillChannel | lib/core.c:175-192 | one channel fills the whole half spectrum, keeps the Nyquist zeros, and advances the read position exactly H·W |
| Kiss.InversePlanes | lib/core.c:174-201 | every channel's inverse is stored clamped and normalised at offset x·c+z of its row |
| Kiss.Recompose | lib/core.c:157-205 | `image_s` holds the clamped inverse of each channel's half spectrum divided by 4·W·H; samples past width_s·channels are untouched |
| Session.Preallocate | lib/core.c:63-67 | PREALLOC allocates zeroed `freq_image` (c·h·w) and `freq_image_s` (c·h_s·w_s), and `image_s` as h_s distinct fresh rows of w_s·c zeroed samples |
| Session.AllocateOutput | lib/core.c:95-96 | the output is h_s fresh distinct rows of w_s·c zeroed samples |
| Session.Data.Init | lib/core.c:56-72 | with PREALLOC both coefficient planes and every output row are allocated and zeroed, without it all three slots are NULL; the borrowed image is stored |
| Session.Data.EnsureSource | lib/core.c:76-77 | `freq_image` is allocated only when NULL, and otherwise reused as it is |
| Session.Data.EnsureTarget | lib/core.c:301-302 | `freq_image_s` is allocated only when NULL, and otherwise reused as it is |
| Session.Data.EnsureOutput | lib/core.c:95-96 | `image_s` is allocated only when NULL, and otherwise reused |
| Session.Data.ReleaseSource | lib/core.c:309 | without RETAIN `freq_image` is freed and nulled; with RETAIN it is kept |
| Session.Data.ReleaseTarget | lib/core.c:108 | without RETAIN `freq_image_s` is freed and nulled; with RETAIN it is kept |
| Session.Data.Cleanup | lib/core.c:378-396 | both coefficient planes are freed (safe when already NULL) and `image_s` is returned; the borrowed image is never freed |
| Session.Data.Destroy | lib/core.c:398-401 | all three slots end NULL and every buffer the context held (the output rows and array, both planes) is released, and nothing else |
| Core.Dispatch | lib/core.c:98-106 | the FFTW path runs exactly for FFTW when compiled in, with normalisation by 4·w_s·h_s; the KISS path exactly for KISS when compiled in; anything else is native |
| Core.DefaultDispatch | lib/core.c:44-50 | under the defaults the FFTW path runs exactly when FFTW is compiled in, and the native path otherwise |
| Core.ScaleFactor | lib/core.c:315-325 | when the code is FFTW with `HAS_FFTW` defined, or KISS with `HAS_KISS` defined, the factor times w·h is w_s·h_s; otherwise its square times w·h is w_s·h_s; whenever FFTW or KISS is dispatched it is the area ratio; it is positive |
| Core.ScaleFactorZeroMacro | lib/core.c:315-325 | with `HAS_FFTW` defined to 0 and the FFTW code, the native DCT is dispatched yet the factor is the area ratio, whose square is not the area ratio when the sizes change |
| Core.PadThenCrop | lib/core.c:312-334 | when FFTW or KISS is dispatched, scaling up to a larger size and back with the reverse factor returns the source spectrum exactly |
| Core.Transform | lib/core.c:79-87 | the forward transform of the dispatched backend is written into `freq_image` |
| Core.Decompose | lib/core.c:75-92 | `freq_image` is allocated if NULL and then holds the forward transform of the image; no other slot changes |
| Core.ScaleStandard | lib/core.c:312-334 | `freq_image_s` becomes the crop/zero-pad of `freq_image` with core.c's factor |
| Core.UpscaleSmooth | lib/core.c:340-343 | SMOOTH scaling produces exactly the STANDARD result |
| Core.Scale | lib/core.c:300-310 | `freq_image_s` is allocated if NULL and filled with the scaled spectrum, and `freq_image` is freed unless RETAIN |
| Core.Inverse | lib/core.c:98-106 | each output row is the dispatched backend's clamped inverse |
| Core.Recompose | lib/core.c:94-109 | `image_s` is allocated if NULL and holds the clamped inverse, and `freq_image_s` is freed unless RETAIN |
| Core.StoreAndRelease | lib/core.c:98-108 | the stored output is the inverse of the old `freq_image_s`, which is then freed unless RETAIN |
| Core.Store | lib/core.c:98-106 | the inverse is written into the existing output rows without touching the heap |
| Core.InverseInto | lib/core.c:98-106 | the output rows, viewed as values, equal the recomposed image |
| Core.ResineData | lib/core.c:351-376 | decompose, scale and recompose run in order; the output is the composed pipeline; the planes survive exactly under RETAIN |
| Core.Resine | lib/core.c:345-349 | `resine` returns fresh distinct rows holding the pipeline applied to zeroed planes; only the output rows stay live |
| Core.RunAndFinish | lib/core.c:347-348 | after `resine_data` and `rsn_cleanup` the context's other buffers are released and the output rows stay live |
| Core.Finish | lib/core.c:390-395 | cleanup returns `image_s` and releases everything else the context held |
| Resine.InverseFactor | lib/resine.c:167 | the factor 0.5/√(w·h) is positive, and 2·s·√(w·h) = 1 |
| Resine.Dispatch | lib/resine.c:63-68 | the FFTW path runs exactly for FFTW when compiled in, multiplying by 0.5/√(w·h); every other transform code, KISS included, is native |
| Resine.ScaleFactor | lib/resine.c:191 | the factor is 0.5/√(w·h) for FFTW and otherwise satisfies s·√(w·h) = √(w_s·h_s); it is positive |
| Resine.FftwGainAgrees | lib/resine.c:191 | with an exact square root, resine.c's FFTW scale times its inverse normalisation equals core.c's scale over 4·w_s·h_s in a build with FFTW: both revisions have the same overall FFTW gain |
| Resine.NativeFactorAgrees | lib/resine.c:191 | with an exact square root, both revisions use the same factor √(w_s·h_s/(w·h)) whenever the code is not FFTW and core.c's `#ifdef` test does not pick the area ratio |
| Resine.Decompose | lib/resine.c:43-57 | `freq_image` is allocated if NULL and holds the FFTW-2d or native forward transform |
| Resine.ScaleStandard | lib/resine.c:189-199 | `freq_image_s` becomes the crop/zero-pad of `freq_image` over the same window, with resine.c's factor |
| Resine.UpscaleSmooth | lib/resine.c:205-208 | SMOOTH scaling produces exactly the STANDARD result |
| Resine.Scale | lib/resine.c:177-187 | `freq_image_s` is allocated if NULL and filled, and `freq_image` is freed unless RETAIN |
| Resine.Recompose | lib/resine.c:59-71 | `image_s` is allocated if NULL and holds the clamped inverse, and `freq_image_s` is freed unless RETAIN |
| Resine.ResineData | lib/resine.c:216-243 | decompose, scale and recompose run in order, and the returned rows are `data->image_s` holding the composed pipeline |
| Resine.Resine | lib/resine.c:210-214 | `resine` returns fresh distinct rows holding the pipeline applied to zeroed planes; only the output rows stay live |
| Resine.RunAndFinish | lib/resine.c:211-213 | after `resine_data` and `rsn_cleanup` the context's other buffers are released and the returned rows stay live |
| Cli.GraphGreed | main.c:93 | a graph request guarantees RETAIN; without one, or with RETAIN already set, greed is unchanged; otherwise it becomes RETAIN alone and loses PREALLOC |
| Cli.LastDot | main.c:97 | `strrchr`: the position found holds a '.' with no '.' after it, and no position means there is no '.' |
| Cli.LastDotAfter | main.c:97 | in a + "." + b, where b has no '.', the last '.' is the one after a |
| Cli.TypeAsWritten | main.c:97-98 | the type is undefined exactly when the name has no '.'; otherwise the extension from the last '.' decides it |
| Cli.NoDotIsUndefined | main.c:97 | the name "image" reaches the NULL case |
| Cli.FileType | main.c:97-101 | the type is JPEG, PNG or NONE; a name without '.' is NONE; elsewhere it agrees with the code as written |
| Cli.TypeByLastPart | main.c:97-101 | only the text after the last '.' decides the type |
| Cli.ExtensionTypeIgnoresCase | main.c:97-101 | extensions that differ only in ASCII case have the same type |
| Cli.TypeExamples | main.c:97-101 | ".JPG", ".jpeg" and ".jp2" are JPEG, ".Png" is PNG, ".pn" and ".gif" are NONE |
| Cli.ReadExit | main.c:105-110 | PNG and JPEG inputs are read; any other type ends `main` with status 1 |
| Cli.Premultiply | main.c:121 | the premultiplied sample is ⌊colour·alpha/255⌋, so it is at most the colour |
| Cli.NoClobber | main.c:119-123 | a write at x·c + z lands at or before every source sample still to be read and strictly before the pixel's alpha |
| Cli.CompactStep | main.c:121 | writing sample (x, z) advances the compaction state by exactly one sample |
| Cli.CompactedPixels | main.c:135 | after compaction, sample z of pixel x is that pixel's old colour z, premultiplied under JPEG |
| Cli.CompactPixel | main.c:120-121 | the channel loop of one pixel writes its c samples from the pixel's not-yet-overwritten source samples |
| Cli.CompactRow | main.c:119-121 | one row is compacted from c + 1 to c channels in place |
| Cli.CompactRows | main.c:118-124 | every row is compacted, and each row only by its own loop |
| Cli.ScanRow | main.c:128-129 | the alpha scan of a row finds every alpha sample (stride c, offset c - 1) equal to 255 exactly when it returns true |
| Cli.OpacityScan | main.c:127-129 | the flag stays true exactly when it was true and every row is opaque |
| Cli.FlattenAlpha | main.c:116-138 | at most one channel is removed; JPEG with an even count always drops one; otherwise one is dropped exactly when the count is even and all alpha is 255; kept pixels hold their colours, premultiplied under JPEG |

## Left out

- FFTW's and KISS's transforms, plans, allocators and thread set-up are function-valued parameters or are not modelled. Only their input and output lengths are constrained.
- `cos`, `sin`, `sqrt`, `log` and `pow` are uninterpreted. The contracts require only √x > 0 for x > 0, and √x·√x = x where a lemma states that requirement. No orthonormality or round-trip of the transforms is claimed.
- Floating point is modelled as exact `real`. Truncation to `rsn_pel` is modelled exactly; rounding error is not.
- Sizes and index products are unbounded integers. The C `int` overflow of `channels*height*width` and of the KISS angle products is not modelled.
- Zero and negative sizes are excluded (`Info.Sized`). The source divides by them and allocates nothing for them.
- The 3-D `rsn_decompose_fftw`/`rsn_recompose_fftw` (lib/core.c:210-242, lib/resine.c:84-116) are never dispatched: they are left out.
- `rsn_idct_rowcol` (lib/dsp.c:126-168) is marked broken and is never called: it is left out.
- `spectrogram`, `spectrogram_anchored` and `spectrogram_decompress` (lib/dsp.c:170-215) are left out, beyond the max scan they share with `composite_spectrum`.
- Kiss.Decompose: the phase argument (x·W + y·H)·π/(2WH) is kept as written, as is the inverse's in Kiss.Recompose. The corrected angle is stated and proved on its own (Kiss.FactoredAngle); the transforms do not use it. See Findings.
- KISS's `cfg`, `mirrored` and `cpxF` buffers are local arrays, not tracked heap buffers.
- The in-place `/=` and `*=` on temporary buffers is folded into the stored value.
- `HAS_FFTW` and `HAS_KISS` are the `Build` record: each macro is undefined or defined to an integer, so both `#if` and `#ifdef` read it as the preprocessor does.
- The `rsn_data` struct itself (its malloc and final free) is the `Session.Data` object. Its release is not tracked.
- Verbosity, the stopwatch, `print_spectrum`, `print_image` and the warning `fprintf` are I/O and are left out.
- The native-path spectrum round trip (forward then inverse returning the image) is not proved: it needs the cosine's orthogonality.
- Util.Heap.Malloc: every allocation (`calloc`, `malloc`, `fftw_malloc`) is taken to succeed; a NULL result, and the `memset` on it at lib/util.c:69, are not modelled. The same holds for every allocation below.
- Util.Heap.Realloc: every `realloc` is taken to succeed and to return a new block; C may grow or shrink the block in place and return the same pointer, and that aliasing is not modelled.
- Util.Heap.Realloc: the grown tail that C `realloc` leaves uninitialised is not described.
- Util.Heap.ReallocArray: only shrinking or keeping the row count is described; growing would hand uninitialised row slots to `realloc`.
- Cli.FlattenAlpha: the row `realloc` whose result `main.c` discards (lines 123 and 136) is a logical length change; the row keeps its storage.
- Option parsing, `strtof` scale factors, image reading and writing, and the rest of `main.c` outside lines 93–138 are I/O and are left out. The output type of a missing output name stays NONE (main.c:69, 99-102); that follows from `Cli.FileType` and is not a separate member.
- The image's extension test covers ASCII case folding only, as `strncasecmp` does in the C locale.

## Findings

| source | as written | input that shows it | evidently intended | confidence | as-written member | corrected member |
|---|---|---|---|---|---|---|
| lib/dsp.c:98 | `tmp` comes from `malloc`, and the row pass adds into it with `+=` | a 1×1 one-channel image whose `tmp` happens to hold 1.0: the coefficient gains an extra HNORM > 0 | `tmp` zeroed (as `calloc` would give), so the row-column DCT adds exactly the forward sum | not executed | Dsp.RowcolAddsJunk | Dsp.DctRowcolZeroed |
| lib/core.c:146-147 | the forward shift angle is EXP·(x·W + y·H) with EXP = −π/(2WH); the inverse (lib/core.c:184-190) forms its angle the same way | W = 2, H = 1, entry (y, x) = (0, 1): the code's angle is −π/2, while the factorisation e^(−iπx/2W)·e^(−iπy/2H) of lib/core.c:127-129 gives −π/4 | the angle EXP·(x·H + y·W), which splits into the two per-axis phases | not executed | Kiss.ShiftAngleWide | Kiss.FactoredAngle |
| main.c:97 | `strncasecmp(strrchr(infile,'.'), …)` with no NULL check | the file name "image", which has no '.': `strrchr` returns NULL and `strncasecmp` reads it | a name without an extension is an unsupported type and ends with status 1 | not executed | Cli.TypeAsWritten | Cli.FileType |

For the first row, `Dsp.UnitColumnPass` and `Dsp.UnitHnormPositive` exhibit the
non-zero junk term. The pipelines (`Core.Pipeline`, `Resine.Pipeline`) take the
initial `tmp` contents as a parameter, so every statement about them holds for
whatever `malloc` returned. An all-zero `tmp` gives exactly the corrected
`Dsp.DctRowcolZeroed` result (`Dsp.RowcolIsForward`). For the second row,
`Cli.NoDotIsUndefined` exhibits the undefined case, and `Cli.FileType` proves that
a name without '.' is NONE, which `Cli.ReadExit` turns into status 1.
