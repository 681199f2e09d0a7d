/**
 * main.c, the command-line front end between option parsing and the call into
 * the library: the greed bump for a spectrogram request, the choice of image
 * format from a file name's extension, and the in-place flattening of an alpha
 * channel, which compacts every interleaved row from c + 1 channels to c.
 */
module Cli {
  import opened Common
  import opened Layout

  datatype Option<T> = None | Some(value: T)

  /** RSN_IMGTYPE_* of image.h. */
  const IMGTYPE_NONE: int := -1
  const IMGTYPE_PNG: int := 0
  const IMGTYPE_JPEG: int := 1

  /**
   * A graph request makes sure the greed has the RETAIN bit, so that the target
   * spectrum survives the run; a greed without it is replaced by RSN_GREED_RETAIN
   * itself, which drops a PREALLOC bit.
   */
  function GraphGreed(graph: bool, greed: int): (g: int)
    ensures graph ==> Retains(g)
    ensures !graph || Retains(greed) ==> g == greed
    ensures graph && !Retains(greed) ==> !Preallocates(g)
  {
    if graph && !Retains(greed) then GREED_RETAIN else greed
  }

  /** The position of the last '.' of a C string: what strrchr(name, '.') points at. */
  function LastDot(name: string): (r: Option<nat>)
    ensures r.Some? ==> r.value < |name| && name[r.value] == '.' && '.' !in name[r.value + 1..]
    ensures r.None? ==> '.' !in name
  {
    if |name| == 0 then None
    else if name[|name| - 1] == '.' then Some(|name| - 1)
    else
      var r := LastDot(name[..|name| - 1]);
      assert name == name[..|name| - 1] + [name[|name| - 1]];
      if r.Some? then assert name[r.value + 1..] == name[..|name| - 1][r.value + 1..] + [name[|name| - 1]]; r
      else r
  }

  /** The last '.' of a string is the one in its last part, whatever comes before. */
  lemma {:induction false} LastDotAfter(a: string, b: string)
    requires '.' !in b
    ensures LastDot(a + "." + b) == Some(|a|)
  {
    if |b| == 0 {
      assert a + "." + b == a + ".";
    } else {
      var b' := b[..|b| - 1];
      assert (a + "." + b)[..|a + "." + b| - 1] == a + "." + b';
      assert b[|b| - 1] in b;
      assert '.' !in b' by {
        forall i | 0 <= i < |b'| ensures b'[i] != '.' { assert b'[i] == b[i]; }
      }
      LastDotAfter(a, b');
    }
  }

  /** tolower for ASCII. */
  function Lower(c: char): char {
    if 'A' <= c <= 'Z' then (c as int + 32) as char else c
  }

  /** The character at position i of a C string, its terminator past the end. */
  function CharAt(s: string, i: nat): char {
    if i < |s| then s[i] else '\0'
  }

  /** strncasecmp(s, t, n) == 0: the first n characters agree up to case, the terminator included. */
  predicate CaseEqual(s: string, t: string, n: nat) {
    forall i :: 0 <= i < n ==> Lower(CharAt(s, i)) == Lower(CharAt(t, i))
  }

  /** The type test on an extension (from its '.' on): ".jp" then ".png", each up to case. */
  function ExtensionType(ext: string): int {
    if CaseEqual(ext, ".jp", 3) then IMGTYPE_JPEG
    else if CaseEqual(ext, ".png", 4) then IMGTYPE_PNG
    else IMGTYPE_NONE
  }

  /**
   * The file-type test of main.c as written: strrchr then strncasecmp. A name
   * without a '.' makes strrchr return NULL, which strncasecmp then reads; that
   * undefined case is None.
   */
  function TypeAsWritten(name: string): (t: Option<int>)
    ensures t.None? <==> '.' !in name
    ensures t.Some? ==> t.value == ExtensionType(name[LastDot(name).value..])
  {
    match LastDot(name)
    case None => None
    case Some(k) => Some(ExtensionType(name[k..]))
  }

  /** A file name without a '.' sends the file-type test into a NULL dereference. */
  lemma NoDotIsUndefined()
    ensures TypeAsWritten("image") == None
  {
    assert '.' !in "image" by {
      forall i | 0 <= i < |"image"| ensures "image"[i] != '.' { }
    }
  }

  /**
   * The file-type test as intended: a name without an extension is not a supported
   * type, like any other name that matches neither test.
   */
  function FileType(name: string): (t: int)
    ensures t == IMGTYPE_JPEG || t == IMGTYPE_PNG || t == IMGTYPE_NONE
    ensures '.' !in name ==> t == IMGTYPE_NONE
    ensures TypeAsWritten(name).Some? ==> t == TypeAsWritten(name).value
  {
    match LastDot(name)
    case None => IMGTYPE_NONE
    case Some(k) => ExtensionType(name[k..])
  }

  /** Only the part after the last '.' decides the type. */
  lemma TypeByLastPart(a: string, b: string)
    requires '.' !in b
    ensures FileType(a + "." + b) == ExtensionType("." + b)
  {
    LastDotAfter(a, b);
    assert (a + "." + b)[|a|..] == "." + b;
  }

  /** The type test ignores case. */
  lemma ExtensionTypeIgnoresCase(ext: string, ext': string)
    requires |ext| == |ext'| && forall i :: 0 <= i < |ext| ==> Lower(ext[i]) == Lower(ext'[i])
    ensures ExtensionType(ext) == ExtensionType(ext')
  {
    forall i: nat ensures Lower(CharAt(ext, i)) == Lower(CharAt(ext', i)) { }
  }

  /** Some names as main.c reads them: any case of ".jp" is JPEG (".jpeg" and ".jp2" too), ".png" is PNG, others are not supported. */
  lemma TypeExamples()
    ensures ExtensionType(".JPG") == IMGTYPE_JPEG && ExtensionType(".jpeg") == IMGTYPE_JPEG
    ensures ExtensionType(".jp2") == IMGTYPE_JPEG && ExtensionType(".Png") == IMGTYPE_PNG
    ensures ExtensionType(".pn") == IMGTYPE_NONE && ExtensionType(".gif") == IMGTYPE_NONE
  {
    assert !CaseEqual(".pn", ".png", 4) by { assert Lower(CharAt(".pn", 3)) != Lower(CharAt(".png", 3)); }
    assert !CaseEqual(".pn", ".jp", 3) by { assert Lower(CharAt(".pn", 1)) != Lower(CharAt(".jp", 1)); }
    assert !CaseEqual(".gif", ".jp", 3) by { assert Lower(CharAt(".gif", 1)) != Lower(CharAt(".jp", 1)); }
    assert !CaseEqual(".gif", ".png", 4) by { assert Lower(CharAt(".gif", 1)) != Lower(CharAt(".png", 1)); }
    assert !CaseEqual(".Png", ".jp", 3) by { assert Lower(CharAt(".Png", 1)) != Lower(CharAt(".jp", 1)); }
  }

  /** The switch on the input type: PNG and JPEG are read, anything else ends main with status 1. */
  function ReadExit(inType: int): (exit: Option<int>)
    ensures exit.None? <==> inType == IMGTYPE_PNG || inType == IMGTYPE_JPEG
    ensures exit.Some? ==> exit.value == 1
  {
    if inType == IMGTYPE_PNG || inType == IMGTYPE_JPEG then None else Some(1)
  }

  /** The premultiplied sample: the double colour * alpha / 255.0, truncated when stored into the unsigned char. */
  function Premultiply(p: Pel, a: Pel): (r: Pel)
    ensures r <= p
    ensures (r as int) * 255 <= (p as int) * (a as int) < (r as int + 1) * 255
  {
    MulMono(a as nat, 255, p as nat);
    ((p as int) * (a as int) / 255) as Pel
  }

  /**
   * Sample z of pixel x once a row of c + 1 channels is compacted to c: the
   * premultiplied colour under JPEG output, the colour itself otherwise.
   */
  function CompactAt(row: seq<Pel>, c: nat, premultiply: bool, x: nat, z: nat): Pel
    requires Offset(c + 1, x, c) < |row| && z <= c
  {
    if premultiply then Premultiply(row[Offset(c + 1, x, z)], row[Offset(c + 1, x, c)])
    else row[Offset(c + 1, x, z)]
  }

  /** The first n samples of a row of R0 compacted from c + 1 channels of w pixels to c; the rest still R0. */
  function Compacted(R0: seq<Pel>, c: nat, w: nat, premultiply: bool, n: nat): (r: seq<Pel>)
    requires 0 < c && w * (c + 1) <= |R0| && n <= w * c
    ensures |r| == |R0|
  {
    seq(|R0|, i requires 0 <= i < |R0| =>
      if i < n then
        RowMajorOnto(i, c, w);
        OffsetBound(c + 1, w, i / c, c);
        CompactAt(R0, c, premultiply, i / c, i % c)
      else R0[i])
  }

  /** Every write of the compaction lands before every read still pending, so no source sample is overwritten before it is read. */
  lemma NoClobber(c: nat, x: nat, z: nat, x': nat, z': nat)
    requires z < c && z' < c && (x < x' || (x == x' && z <= z'))
    ensures Offset(c, x, z) <= Offset(c + 1, x', z') < Offset(c + 1, x', c)
  {
    if x < x' {
      MulMono(x + 1, x', c);
      MulMono(c, c + 1, x');
    } else {
      MulMono(c, c + 1, x);
    }
  }

  /** Before the first write the row is the original. */
  lemma CompactedNone(R0: seq<Pel>, c: nat, w: nat, premultiply: bool)
    requires 0 < c && w * (c + 1) <= |R0|
    ensures Compacted(R0, c, w, premultiply, 0) == R0
  {
  }

  /** Writing sample (x, z) advances the compaction by one. */
  lemma CompactStep(R0: seq<Pel>, c: nat, w: nat, premultiply: bool, x: nat, z: nat)
    requires 0 < c && w * (c + 1) <= |R0| && x < w && z < c
    ensures Offset(c, x, z) < w * c && Offset(c + 1, x, c) < |R0|
    ensures Compacted(R0, c, w, premultiply, Offset(c, x, z))[Offset(c, x, z) := CompactAt(R0, c, premultiply, x, z)]
            == Compacted(R0, c, w, premultiply, Offset(c, x, z) + 1)
  {
    OffsetBound(c, w, x, z);
    OffsetBound(c + 1, w, x, c);
    DivModUnique(Offset(c, x, z), x, z, c);
  }

  /** The samples of a compacted row: pixel x, channel z of the result is CompactAt of the original row; the tail is untouched. */
  lemma CompactedPixels(R0: seq<Pel>, c: nat, w: nat, premultiply: bool, x: nat, z: nat)
    requires 0 < c && w * (c + 1) <= |R0| && x < w && z < c
    ensures Offset(c, x, z) < w * c && Offset(c + 1, x, c) < |R0|
    ensures Compacted(R0, c, w, premultiply, w * c)[Offset(c, x, z)] == CompactAt(R0, c, premultiply, x, z)
  {
    OffsetBound(c, w, x, z);
    OffsetBound(c + 1, w, x, c);
    DivModUnique(Offset(c, x, z), x, z, c);
  }

  /** One pixel of the compaction loop: its c samples, in channel order. */
  method CompactPixel(row: array<Pel>, c: nat, w: nat, premultiply: bool, x: nat, ghost R0: seq<Pel>)
    requires 0 < c && x < w && w * (c + 1) <= row.Length == |R0|
    requires x * c <= w * c && row[..] == Compacted(R0, c, w, premultiply, x * c)
    modifies row
    ensures (x + 1) * c <= w * c
    ensures row[..] == Compacted(R0, c, w, premultiply, (x + 1) * c)
  {
    MulMono(x + 1, w, c);
    assert Offset(c, x, 0) == x * c && Offset(c, x, c) == (x + 1) * c;
    var z := 0;
    while z < c
      invariant z <= c
      invariant row[..] == Compacted(R0, c, w, premultiply, Offset(c, x, z))
    {
      NoClobber(c, x, z, x, z);
      CompactStep(R0, c, w, premultiply, x, z);
      var src, alpha := Offset(c + 1, x, z), Offset(c + 1, x, c);
      assert row[src] == R0[src] && row[alpha] == R0[alpha];
      if premultiply {
        row[Offset(c, x, z)] := Premultiply(row[src], row[alpha]);
      } else {
        row[Offset(c, x, z)] := row[src];
      }
      z := z + 1;
    }
  }

  /** The loop over the pixels of one row. */
  method CompactRow(row: array<Pel>, c: nat, w: nat, premultiply: bool)
    requires 0 < c && w * (c + 1) <= row.Length
    modifies row
    ensures w * c <= row.Length
    ensures row[..] == Compacted(old(row[..]), c, w, premultiply, w * c)
  {
    ghost var R0 := row[..];
    MulMono(c, c + 1, w);
    CompactedNone(R0, c, w, premultiply);
    var x := 0;
    while x < w
      invariant x <= w && x * c <= w * c
      invariant row[..] == Compacted(R0, c, w, premultiply, x * c)
    {
      CompactPixel(row, c, w, premultiply, x, R0);
      x := x + 1;
    }
  }

  /** The compaction over every row of the image. */
  method CompactRows(img: seq<array<Pel>>, c: nat, w: nat, premultiply: bool)
    requires 0 < c && forall y :: 0 <= y < |img| ==> w * (c + 1) <= img[y].Length
    requires forall y, y' :: 0 <= y < y' < |img| ==> img[y] != img[y']
    modifies set y | 0 <= y < |img| :: img[y]
    ensures forall y :: 0 <= y < |img| ==> img[y][..] == Compacted(old(img[y][..]), c, w, premultiply, w * c)
  {
    var y := 0;
    while y < |img|
      invariant y <= |img|
      invariant forall j :: 0 <= j < y ==> img[j][..] == Compacted(old(img[j][..]), c, w, premultiply, w * c)
      invariant forall j :: y <= j < |img| ==> img[j][..] == old(img[j][..])
    {
      CompactRow(img[y], c, w, premultiply);
      y := y + 1;
    }
  }

  /** Every alpha sample of a row of w pixels of c channels (stride c, offset c - 1) is 255. */
  ghost predicate Opaque(row: seq<Pel>, c: nat, w: nat)
    requires 0 < c && w * c <= |row|
  {
    forall i :: 0 <= i < w * c && i % c == c - 1 ==> row[i] == 255
  }

  /** Within the pixel starting at k * c, only its last sample has remainder c - 1. */
  lemma PixelWindow(k: nat, c: nat, i: nat)
    requires 0 < c && k * c <= i < k * c + c
    ensures i % c == i - k * c
  {
    DivModUnique(i, k, i - k * c, c);
  }

  /** The scan of one row: its alpha samples are read at c - 1, 2c - 1, ... while the flag stays up. */
  method ScanRow(row: array<Pel>, c: nat, w: nat) returns (solid: bool)
    requires 0 < c && w * c <= row.Length
    ensures solid == Opaque(row[..], c, w)
  {
    solid := true;
    var x := c - 1;
    ghost var k := 0;
    while solid && x < w * c
      invariant x == k * c + c - 1 && k <= w
      invariant solid == forall i :: 0 <= i < k * c && i % c == c - 1 ==> row[i] == 255
      invariant !solid ==> !Opaque(row[..], c, w)
      decreases w * c - x, solid
    {
      MulMono(k + 1, w, c);
      PixelWindow(k, c, x);
      if row[x] != 255 {
        solid := false;
      }
      forall i | k * c <= i < k * c + c && i % c == c - 1 ensures i == x {
        PixelWindow(k, c, i);
      }
      x, k := x + c, k + 1;
    }
    if solid && k < w {
      MulMono(k + 1, w, c);
    }
  }

  /** The opacity loop over all rows, entered with the flag flatten. */
  method OpacityScan(img: seq<array<Pel>>, c: nat, w: nat, flatten: bool) returns (result: bool)
    requires 0 < c && forall y :: 0 <= y < |img| ==> w * c <= img[y].Length
    ensures result == (flatten && forall y :: 0 <= y < |img| ==> Opaque(img[y][..], c, w))
  {
    result := flatten;
    var y := 0;
    while result && y < |img|
      invariant y <= |img|
      invariant result == (flatten && forall j :: 0 <= j < y ==> Opaque(img[j][..], c, w))
      invariant !result ==> !(flatten && forall j :: 0 <= j < |img| ==> Opaque(img[j][..], c, w))
    {
      result := ScanRow(img[y], c, w);
      y := y + 1;
    }
  }

  /**
   * The alpha flattening of main.c on an image of height rows (the image
   * rows), each width * channels samples: with JPEG output and an even channel
   * count the alpha channel is multiplied into the colours; otherwise an even
   * channel count whose alpha is 255 everywhere is stripped. The rows keep their
   * storage; the new channel count says how much of each is the image.
   */
  method FlattenAlpha(img: seq<array<Pel>>, channels: int, width: nat, outType: int) returns (c: int)
    requires channels > 0 && forall y :: 0 <= y < |img| ==> img[y].Length == width * channels
    requires forall y, y' :: 0 <= y < y' < |img| ==> img[y] != img[y']
    modifies set y | 0 <= y < |img| :: img[y]
    ensures c == channels || c == channels - 1
    ensures outType == IMGTYPE_JPEG && channels % 2 == 0 ==> c == channels - 1
    ensures !(outType == IMGTYPE_JPEG && channels % 2 == 0) ==>
              (c == channels - 1 <==> channels % 2 == 0 && forall y :: 0 <= y < |img| ==> Opaque(old(img[y][..]), channels, width))
    ensures c == channels ==> forall y :: 0 <= y < |img| ==> img[y][..] == old(img[y][..])
    ensures c == channels - 1 ==>
              forall y :: 0 <= y < |img| ==> img[y][..] == Compacted(old(img[y][..]), c, width, outType == IMGTYPE_JPEG, width * c)
  {
    c := channels;
    var flatten := channels % 2 == 0;
    if outType == IMGTYPE_JPEG && flatten {
      c := c - 1;
      CompactRows(img, c, width, true);
      flatten := false;
    }
    flatten := OpacityScan(img, c, width, flatten);
    if flatten {
      c := c - 1;
      CompactRows(img, c, width, false);
    }
  }
}
