/** twitterify.go: puts a GIF animation or a PNG image, centred, on a
    canvas of at least a minimum size and, for a GIF, lengthens the
    animation either by showing every frame twice or by repeating the whole
    sequence. Decoding, encoding and pixel compositing are outside the
    model: the decoded file is an input and `draw.Draw` is a parameter. */
module Twitterify {

  import opened Base
  import opened Geometry

  /** The command-line flags; DefaultFlags holds their defaults. */
  datatype Flags = Flags(width: int, height: int, repeat: int, transparent: bool,
                         duplicate: bool, duration: int)

  function DefaultFlags(): Flags {
    Flags(506, 128, 3, false, false, 0)
  }

  datatype Rgba = Rgba(r: uint8, g: uint8, b: uint8, a: uint8)

  /** `image.Paletted`: bounds, one palette index per pixel, the palette. */
  datatype Paletted = Paletted(rect: Rectangle, pix: seq<uint8>, palette: seq<Rgba>)

  /** `image.Config` of a GIF: global palette and logical screen size. */
  datatype Config = Config(colorModel: seq<Rgba>, width: nat, height: nat)

  /** `gif.GIF`. */
  datatype Gif = Gif(image: seq<Paletted>, delay: seq<int>, loopCount: int,
                     disposal: seq<uint8>, config: Config, backgroundIndex: uint8)

  /** `draw.Draw(dst, r, src, image.ZP, draw.Over)`: composites src into r
      of dst and gives the new dst. */
  type Compose = (Paletted, Rectangle, Paletted) -> Paletted

  // ---------------------------------------------------------------------
  // Canvas size and offset

  /** `if v < min { v = min }`: the larger of the two. */
  function AtLeast(v: int, min: int): (r: int)
    ensures r >= v && r >= min && (r == v || r == min)
  {
    if v < min then min else v
  }

  /** The canvas: per axis the source size raised to the flag's minimum. */
  function CanvasSize(src: Point, f: Flags): Point {
    Point(AtLeast(src.x, f.width), AtLeast(src.y, f.height))
  }

  /** `size/2 - src/2` per axis; all operands are non-negative, where Go's
      and Dafny's division agree. */
  function Offset(size: Point, src: Point): Point
    requires size.x >= 0 && size.y >= 0 && src.x >= 0 && src.y >= 0
  {
    Point(size.x / 2 - src.x / 2, size.y / 2 - src.y / 2)
  }

  // ---------------------------------------------------------------------
  // One output frame

  function Area(size: Point): nat
    requires size.x >= 0 && size.y >= 0
  {
    size.x * size.y
  }

  /** The canvas before compositing: `image.NewPaletted` with the frame's
      palette, every pixel set to the frame's first pixel unless the
      background is to stay transparent (index 0). */
  function Background(size: Point, m: Paletted, transparent: bool): Paletted
    requires size.x >= 0 && size.y >= 0
    requires !transparent && Area(size) > 0 ==> |m.pix| > 0
  {
    var n := Area(size);
    Paletted(Rectangle(Origin(), size),
             seq(n, k requires 0 <= k < n => if transparent then 0 else m.pix[0]),
             m.palette)
  }

  /** The canvas allocation and the fill loop of `handleGif`. */
  method NewCanvas(size: Point, m: Paletted, transparent: bool) returns (d: Paletted)
    requires size.x >= 0 && size.y >= 0
    requires !transparent && Area(size) > 0 ==> |m.pix| > 0
    ensures d.rect == Rectangle(Origin(), size) && d.palette == m.palette
    ensures |d.pix| == size.x * size.y
    ensures forall k :: 0 <= k < |d.pix| ==> d.pix[k] == if transparent then 0 else m.pix[0]
    ensures d == Background(size, m, transparent)
  {
    var pix := new uint8[Area(size)](_ => 0);
    if !transparent {
      var k := 0;
      while k < pix.Length
        invariant 0 <= k <= pix.Length
        invariant forall j :: 0 <= j < k ==> pix[j] == m.pix[0]
        invariant forall j :: k <= j < pix.Length ==> pix[j] == 0
      {
        pix[k] := m.pix[0];
        k := k + 1;
      }
    }
    d := Paletted(Rectangle(Origin(), size), pix[..], m.palette);
    assert d.pix == Background(size, m, transparent).pix;
  }

  // ---------------------------------------------------------------------
  // Frame sequences

  /** Every element twice. */
  function Doubled<T>(xs: seq<T>): (r: seq<T>)
    ensures |r| == 2 * |xs|
  {
    if xs == [] then [] else Doubled(xs[..|xs| - 1]) + [xs[|xs| - 1], xs[|xs| - 1]]
  }

  /** Every element twice except the last, which appears once. */
  function Dup<T>(xs: seq<T>): (r: seq<T>)
    ensures |r| == if xs == [] then 0 else 2 * |xs| - 1
  {
    if xs == [] then [] else Doubled(xs[..|xs| - 1]) + [xs[|xs| - 1]]
  }

  /** The whole sequence `k` times, and once when `k < 1`. */
  function Repeat<T>(xs: seq<T>, k: int): seq<T>
    decreases k
  {
    if k <= 1 then xs else Repeat(xs, k - 1) + xs
  }

  lemma {:induction false} DoubledAt<T>(xs: seq<T>, j: nat)
    requires j < 2 * |xs|
    ensures Doubled(xs)[j] == xs[j / 2]
    decreases |xs|
  {
    var init := xs[..|xs| - 1];
    if j < 2 * |init| {
      DoubledAt(init, j);
    }
  }

  /** Duplicate mode: output j shows input j / 2, and there are 2n-1. */
  lemma DupAt<T>(xs: seq<T>, j: nat)
    requires j < |Dup(xs)|
    ensures Dup(xs)[j] == xs[j / 2]
  {
    var init := xs[..|xs| - 1];
    if j < 2 * |init| {
      DoubledAt(init, j);
    }
  }

  lemma {:induction false} RepeatLength<T>(xs: seq<T>, k: int)
    ensures |Repeat(xs, k)| == |xs| * (if k < 1 then 1 else k)
    decreases k
  {
    if k > 1 {
      RepeatLength(xs, k - 1);
      assert |xs| * k == |xs| * (k - 1) + |xs|;
    }
  }

  /** Repeat mode: max(k, 1) copies, output j shows input j mod n. */
  lemma {:induction false} RepeatAt<T>(xs: seq<T>, k: int, j: nat)
    requires |xs| > 0 && j < |xs| * (if k < 1 then 1 else k)
    ensures |Repeat(xs, k)| == |xs| * (if k < 1 then 1 else k)
    ensures Repeat(xs, k)[j] == xs[j % |xs|]
    decreases k
  {
    RepeatLength(xs, k);
    var n := |xs|;
    if k <= 1 {
      CellOfIndex(0, n, j);
    } else {
      var before := n * (k - 1);
      RepeatLength(xs, k - 1);
      if j < before {
        RepeatAt(xs, k - 1, j);
      } else {
        LastCopy(n, k - 1, j);
      }
    }
  }

  /** An index in the last of k + 1 copies of n elements. */
  lemma LastCopy(n: nat, k: nat, j: nat)
    requires n > 0 && n * k <= j < n * k + n
    ensures j % n == j - n * k
  {
    CellOfIndex(k, n, j - n * k);
  }

  lemma RepeatEmpty<T>(xs: seq<T>, k: int)
    requires xs == []
    ensures Repeat(xs, k) == []
  {
    RepeatLength(xs, k);
  }

  lemma {:induction false} RepeatPrefix<T>(xs: seq<T>, k: int)
    ensures |Repeat(xs, k)| >= |xs| && Repeat(xs, k)[..|xs|] == xs
    decreases k
  {
    if k > 1 {
      RepeatPrefix(xs, k - 1);
    }
  }

  /** What the per-frame loop has produced after i frames. */
  function FirstPass<T>(xs: seq<T>, i: nat, dup: bool): seq<T>
    requires i <= |xs|
  {
    if !dup then xs[..i] else if i == |xs| then Dup(xs) else Doubled(xs[..i])
  }

  /** One more frame of the per-frame loop: twice in duplicate mode, except
      the last frame; once otherwise. */
  lemma FirstPassStep<T>(xs: seq<T>, i: nat, dup: bool)
    requires i < |xs|
    ensures FirstPass(xs, i + 1, dup) ==
      if dup && i != |xs| - 1 then FirstPass(xs, i, dup) + [xs[i]] + [xs[i]]
      else FirstPass(xs, i, dup) + [xs[i]]
  {
    assert xs[..i + 1][..i] == xs[..i];
    if i + 1 == |xs| {
      assert xs[..|xs| - 1] == xs[..i];
    }
  }

  // ---------------------------------------------------------------------
  // handleGif

  /** What `handleGif` indexes without checking: a delay per frame and,
      when there are disposals at all, a disposal per frame. */
  predicate Readable(g: Gif) {
    |g.delay| >= |g.image| && (|g.disposal| == 0 || |g.disposal| >= |g.image|)
  }

  function SourceSize(g: Gif): Point {
    Point(g.config.width, g.config.height)
  }

  /** `m.Pix[0]` is read only for a canvas that is filled and not empty. */
  predicate Fillable(g: Gif, f: Flags) {
    var size := CanvasSize(SourceSize(g), f);
    !f.transparent && Area(size) > 0 ==> forall i :: 0 <= i < |g.image| ==> |g.image[i].pix| > 0
  }

  /** Output frame i before duplication or repetition. */
  function FrameOut(g: Gif, f: Flags, draw: Compose, i: nat): Paletted
    requires Fillable(g, f) && i < |g.image|
  {
    var size := CanvasSize(SourceSize(g), f);
    var m := g.image[i];
    draw(Background(size, m, f.transparent), m.rect.Add(Offset(size, SourceSize(g))), m)
  }

  /** The delay of frame i: the source's unless a positive duration is set. */
  function FrameDelay(g: Gif, f: Flags, i: nat): int
    requires Readable(g) && i < |g.image|
  {
    if f.duration > 0 then f.duration else g.delay[i]
  }

  function Frames(g: Gif, f: Flags, draw: Compose): (r: seq<Paletted>)
    requires Fillable(g, f)
    ensures |r| == |g.image|
  {
    seq(|g.image|, i requires 0 <= i < |g.image| => FrameOut(g, f, draw, i))
  }

  /** The delays the per-frame loop appends: halved in duplicate mode. */
  function Delays(g: Gif, f: Flags): (r: seq<int>)
    requires Readable(g)
    ensures |r| == |g.image|
  {
    seq(|g.image|, i requires 0 <= i < |g.image| =>
      if f.duplicate then GoDiv(FrameDelay(g, f, i), 2) else FrameDelay(g, f, i))
  }

  /** The source's disposals, one per frame, or none when it has none. */
  function Disposals(g: Gif): (r: seq<uint8>)
    requires Readable(g)
    ensures |r| == 0 || |r| == |g.image|
  {
    if |g.disposal| > 0 then g.disposal[..|g.image|] else []
  }

  /** Duplication or repetition, as the flags select. */
  function Lengthen<T>(xs: seq<T>, f: Flags): seq<T> {
    if f.duplicate then Dup(xs) else Repeat(xs, f.repeat)
  }

  /** The GIF that `handleGif` encodes. */
  function TwitterifyGif(g: Gif, f: Flags, draw: Compose): Gif
    requires Readable(g) && Fillable(g, f)
  {
    var size := CanvasSize(SourceSize(g), f);
    Gif(Lengthen(Frames(g, f, draw), f), Lengthen(Delays(g, f), f), g.loopCount,
        Lengthen(Disposals(g), f), Config(g.config.colorModel, size.x, size.y),
        g.backgroundIndex)
  }

  /** Which source frame output frame j shows. */
  function SourceIndex(f: Flags, n: nat, j: nat): nat
    requires n > 0
  {
    if f.duplicate then j / 2 else j % n
  }

  /** The number of output frames for n source frames. */
  function OutCount(f: Flags, n: nat): nat {
    if n == 0 then 0
    else if f.duplicate then 2 * n - 1
    else n * (if f.repeat < 1 then 1 else f.repeat)
  }

  /** Duplication or repetition of n elements gives OutCount(f, n) of
      them, and element j is the source element SourceIndex(f, n, j). */
  lemma LengthenAt<T>(xs: seq<T>, f: Flags, j: nat)
    ensures |Lengthen(xs, f)| == OutCount(f, |xs|)
    ensures j < |Lengthen(xs, f)| ==> Lengthen(xs, f)[j] == xs[SourceIndex(f, |xs|, j)]
  {
    if xs == [] {
      RepeatEmpty(xs, f.repeat);
    } else if f.duplicate {
      if j < |Dup(xs)| {
        DupAt(xs, j);
      }
    } else {
      RepeatLength(xs, f.repeat);
      if j < |Repeat(xs, f.repeat)| {
        RepeatAt(xs, f.repeat, j);
      }
    }
  }

  /** The shape of the output: frames, delays and disposals in lockstep;
      2n-1 frames with halved delays when duplicating, n*max(repeat, 1)
      frames cycling through the source otherwise. */
  lemma TwitterifyGifShape(g: Gif, f: Flags, draw: Compose, j: nat)
    requires Readable(g) && Fillable(g, f) && |g.image| > 0
    ensures var t := TwitterifyGif(g, f, draw);
      |t.image| == OutCount(f, |g.image|) && |t.delay| == |t.image| &&
      (if |g.disposal| > 0 then |t.disposal| == |t.image| else t.disposal == [])
    ensures var t := TwitterifyGif(g, f, draw); var i := SourceIndex(f, |g.image|, j);
      j < |t.image| ==>
        i < |g.image| && t.image[j] == FrameOut(g, f, draw, i) &&
        t.delay[j] == if f.duplicate then GoDiv(FrameDelay(g, f, i), 2) else FrameDelay(g, f, i)
  {
    var n := |g.image|;
    LengthenAt(Frames(g, f, draw), f, j);
    LengthenAt(Delays(g, f), f, j);
    LengthenAt(Disposals(g), f, j);
    if j < OutCount(f, n) {
      SourceInRange(f, n, j);
    }
  }

  lemma SourceInRange(f: Flags, n: nat, j: nat)
    requires n > 0 && j < OutCount(f, n)
    ensures SourceIndex(f, n, j) < n
  {
  }

  /** The canvas is never smaller than the source, and the header fields
      are copied. */
  lemma TwitterifyGifHeader(g: Gif, f: Flags, draw: Compose)
    requires Readable(g) && Fillable(g, f)
    ensures var t := TwitterifyGif(g, f, draw);
      t.loopCount == g.loopCount && t.backgroundIndex == g.backgroundIndex &&
      t.config.colorModel == g.config.colorModel &&
      t.config.width >= g.config.width && t.config.width >= f.width &&
      t.config.height >= g.config.height && t.config.height >= f.height
  {
  }

  /** One source frame of `handleGif`: canvas, fill and compositing. */
  method MakeFrame(g: Gif, f: Flags, draw: Compose, i: nat) returns (d: Paletted)
    requires Readable(g) && Fillable(g, f) && i < |g.image|
    ensures d == FrameOut(g, f, draw, i)
  {
    var size := CanvasSize(SourceSize(g), f);
    var offset := Offset(size, SourceSize(g));
    var m := g.image[i];
    var canvas := NewCanvas(size, m, f.transparent);
    d := draw(canvas, m.rect.Add(offset), m);
  }

  /** The per-frame loop of `handleGif`. */
  method FramePass(g: Gif, f: Flags, draw: Compose)
    returns (images: seq<Paletted>, delays: seq<int>, disposals: seq<uint8>)
    requires Readable(g) && Fillable(g, f)
    ensures images == FirstPass(Frames(g, f, draw), |g.image|, f.duplicate)
    ensures delays == FirstPass(Delays(g, f), |g.image|, f.duplicate)
    ensures disposals == FirstPass(Disposals(g), |Disposals(g)|, f.duplicate)
  {
    var n := |g.image|;
    var hasDisposal := |g.disposal| > 0;
    ghost var frames, ds, ps := Frames(g, f, draw), Delays(g, f), Disposals(g);
    images, delays, disposals := [], [], [];
    var i := 0;
    while i < n
      invariant 0 <= i <= n
      invariant images == FirstPass(frames, i, f.duplicate)
      invariant delays == FirstPass(ds, i, f.duplicate)
      invariant disposals == if hasDisposal then FirstPass(ps, i, f.duplicate) else []
    {
      var d := MakeFrame(g, f, draw, i);
      var delay := g.delay[i];
      if f.duration > 0 {
        delay := f.duration;
      }
      FirstPassStep(frames, i, f.duplicate);
      FirstPassStep(ds, i, f.duplicate);
      if hasDisposal {
        FirstPassStep(ps, i, f.duplicate);
      }
      if f.duplicate {
        images, delays := images + [d], delays + [GoDiv(delay, 2)];
        if hasDisposal {
          disposals := disposals + [g.disposal[i]];
        }
        if i != n - 1 {
          images, delays := images + [d], delays + [GoDiv(delay, 2)];
          if hasDisposal {
            disposals := disposals + [g.disposal[i]];
          }
        }
      } else {
        images, delays := images + [d], delays + [delay];
        if hasDisposal {
          disposals := disposals + [g.disposal[i]];
        }
      }
      i := i + 1;
    }
  }

  /** Appending entry i again during round k. */
  lemma RepeatStep<T>(xs: seq<T>, k: int, i: nat, acc: seq<T>)
    requires k >= 1 && i < |xs| && acc == Repeat(xs, k) + xs[..i]
    ensures i < |acc| && acc[i] == xs[i] && acc + [acc[i]] == Repeat(xs, k) + xs[..i + 1]
  {
    RepeatPrefix(xs, k);
    assert xs[..i + 1] == xs[..i] + [xs[i]];
  }

  /** A finished round is one more copy. */
  lemma RepeatRound<T>(xs: seq<T>, k: int)
    requires k >= 1
    ensures Repeat(xs, k) + xs[..|xs|] == Repeat(xs, k + 1)
  {
    assert xs[..|xs|] == xs;
  }

  /** The repetition loop of `handleGif`: appends the first n entries
      again for k = 1 .. repeat-1. */
  method RepeatPass(images0: seq<Paletted>, delays0: seq<int>, disposals0: seq<uint8>, repeat: int)
    returns (images: seq<Paletted>, delays: seq<int>, disposals: seq<uint8>)
    requires |delays0| == |images0| && (|disposals0| == 0 || |disposals0| == |images0|)
    ensures images == Repeat(images0, repeat) && delays == Repeat(delays0, repeat)
    ensures disposals == Repeat(disposals0, repeat)
  {
    var n := |images0|;
    images, delays, disposals := images0, delays0, disposals0;
    var k := 1;
    while k < repeat
      invariant k >= 1 && (repeat >= 1 ==> k <= repeat) && (repeat < 1 ==> k == 1)
      invariant images == Repeat(images0, k) && delays == Repeat(delays0, k)
      invariant disposals == if |disposals0| > 0 then Repeat(disposals0, k) else []
    {
      var i := 0;
      RepeatPrefix(disposals0, k);
      while i < n
        invariant 0 <= i <= n
        invariant images == Repeat(images0, k) + images0[..i]
        invariant delays == Repeat(delays0, k) + delays0[..i]
        invariant disposals == if |disposals0| > 0 then Repeat(disposals0, k) + disposals0[..i] else []
      {
        RepeatStep(images0, k, i, images);
        RepeatStep(delays0, k, i, delays);
        images, delays := images + [images[i]], delays + [delays[i]];
        if |disposals| > 0 {
          RepeatStep(disposals0, k, i, disposals);
          disposals := disposals + [disposals[i]];
        }
        i := i + 1;
      }
      RepeatRound(images0, k);
      RepeatRound(delays0, k);
      RepeatRound(disposals0, k);
      k := k + 1;
    }
    if |disposals0| == 0 {
      RepeatEmpty(disposals0, repeat);
    }
  }

  /** `handleGif` after decoding: the output is TwitterifyGif. */
  method HandleGif(g: Gif, f: Flags, draw: Compose) returns (target: Gif)
    requires Readable(g) && Fillable(g, f)
    ensures target == TwitterifyGif(g, f, draw)
  {
    var size := CanvasSize(SourceSize(g), f);
    var images, delays, disposals := FramePass(g, f, draw);
    assert Frames(g, f, draw)[..|g.image|] == Frames(g, f, draw);
    assert Delays(g, f)[..|g.image|] == Delays(g, f);
    assert Disposals(g)[..|Disposals(g)|] == Disposals(g);
    if !f.duplicate {
      images, delays, disposals := RepeatPass(images, delays, disposals, f.repeat);
    }
    target := Gif(images, delays, g.loopCount, disposals,
                  Config(g.config.colorModel, size.x, size.y), g.backgroundIndex);
  }

  // ---------------------------------------------------------------------
  // handlePng

  /** What `handlePng` draws: the canvas size, whether it is first painted
      white, and the rectangle the source is composited into. */
  datatype PngPlan = PngPlan(size: Point, whiteFill: bool, placed: Rectangle)

  function HandlePng(srcBounds: Rectangle, f: Flags): PngPlan
    requires srcBounds.WellFormed()
  {
    var src := srcBounds.Size();
    var size := CanvasSize(src, f);
    PngPlan(size, !f.transparent, srcBounds.Add(Offset(size, src)))
  }

  /** A decoded PNG has its origin at (0, 0): it lands inside the canvas,
      centred, untouched when no padding is needed, on white unless the
      transparent flag is set. */
  lemma HandlePngPlaced(srcBounds: Rectangle, f: Flags)
    requires srcBounds.WellFormed() && srcBounds.min == Origin()
    ensures var p := HandlePng(srcBounds, f);
      p.placed.Inside(Rectangle(Origin(), p.size)) && p.placed.Size() == srcBounds.Size() &&
      (srcBounds.Dx() >= f.width && srcBounds.Dy() >= f.height ==> p.placed == srcBounds) &&
      p.whiteFill == !f.transparent
  {
    var src := srcBounds.Size();
    var size := CanvasSize(src, f);
    var off := Offset(size, src);
    PlacedAxis(src.x, f.width);
    PlacedAxis(src.y, f.height);
    ShiftInside(srcBounds, size, off);
    if srcBounds.Dx() >= f.width && srcBounds.Dy() >= f.height {
      NoPadding(srcBounds, f);
    }
  }

  /** The source, shifted by an offset that keeps it on the canvas per axis,
      lies inside the canvas and keeps its size. */
  lemma ShiftInside(srcBounds: Rectangle, size: Point, off: Point)
    requires srcBounds.WellFormed() && srcBounds.min == Origin()
    requires 0 <= off.x && off.x + srcBounds.Dx() <= size.x
    requires 0 <= off.y && off.y + srcBounds.Dy() <= size.y
    ensures srcBounds.Add(off).Inside(Rectangle(Origin(), size))
    ensures srcBounds.Add(off).Size() == srcBounds.Size()
  {
  }

  /** One axis of the canvas: a source side s, raised to at least want and
      centred, stays on the canvas, and is not moved when it needs no
      padding. */
  lemma PlacedAxis(s: int, want: int)
    requires s >= 0
    ensures var size := AtLeast(s, want);
      var off := size / 2 - s / 2;
      0 <= off && off + s <= size && (s >= want ==> off == 0)
  {
    Centred(AtLeast(s, want), s);
  }

  lemma NoPadding(srcBounds: Rectangle, f: Flags)
    requires srcBounds.WellFormed() && srcBounds.min == Origin()
    requires srcBounds.Dx() >= f.width && srcBounds.Dy() >= f.height
    ensures HandlePng(srcBounds, f).placed == srcBounds
  {
    var src := srcBounds.Size();
    assert CanvasSize(src, f) == src;
    assert Offset(src, src) == Origin();
  }
}
