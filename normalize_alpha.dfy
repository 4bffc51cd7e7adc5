/** normalize-alpha.go: every fully transparent pixel of an NRGBA image is
    overwritten with one background value, so that transparent pixels no
    longer carry stray colour. Pixels are four bytes R, G, B, A. */
module NormalizeAlpha {

  import opened Base

  /** What `png.Decode` produced: an NRGBA image (its `Pix` buffer) or an
      image of some other colour model. */
  datatype Decoded = NRGBA(pix: array<uint8>) | OtherModel

  /** A pixel buffer as the NRGBA decoder lays it out: whole pixels. */
  predicate WholePixels(s: seq<uint8>) {
    |s| % 4 == 0
  }

  /** Whole pixels stay whole when four bytes are added or removed. */
  lemma PixelBoundary(i: nat)
    requires i % 4 == 0
    ensures (i + 4) % 4 == 0 && (i >= 4 ==> (i - 4) % 4 == 0)
  {
    var q := i / 4;
    assert i == 4 * q;
    assert i + 4 == 4 * (q + 1);
  }

  /** The background: the first pixel when that pixel is transparent,
      transparent black otherwise. */
  function Background(s: seq<uint8>): (bg: seq<uint8>)
    requires |s| >= 4
    ensures |bg| == 4 && bg[3] == 0
    ensures s[3] == 0 ==> bg == s[..4]
    ensures s[3] != 0 ==> bg == [0, 0, 0, 0]
  {
    if s[3] == 0 then s[..4] else [0, 0, 0, 0]
  }

  /** One pixel after the pass: a transparent pixel becomes bg. */
  function Fix(px: seq<uint8>, bg: seq<uint8>): (r: seq<uint8>)
    requires |px| == 4 && |bg| == 4
    ensures |r| == 4
  {
    if px[3] == 0 then bg else px
  }

  /** The buffer with every pixel passed through Fix, pixel by pixel. */
  function NormalizeWith(s: seq<uint8>, bg: seq<uint8>): (r: seq<uint8>)
    requires WholePixels(s) && |bg| == 4
    ensures |r| == |s|
    decreases |s|
  {
    if s == [] then [] else NormalizeWith(s[..|s| - 4], bg) + Fix(s[|s| - 4..], bg)
  }

  /** The buffer after the pass of normalize-alpha.go. */
  function Normalized(s: seq<uint8>): (r: seq<uint8>)
    requires WholePixels(s) && |s| >= 4
    ensures |r| == |s|
  {
    NormalizeWith(s, Background(s))
  }

  /** Pixel p of the result is pixel p of the input passed through Fix. */
  lemma {:induction false} PixelOf(s: seq<uint8>, bg: seq<uint8>, p: nat)
    requires WholePixels(s) && |bg| == 4 && 4 * p + 4 <= |s|
    ensures NormalizeWith(s, bg)[4 * p..4 * p + 4] == Fix(s[4 * p..4 * p + 4], bg)
    decreases |s|
  {
    var init := s[..|s| - 4];
    var a := NormalizeWith(init, bg);
    var last := Fix(s[|s| - 4..], bg);
    assert NormalizeWith(s, bg) == a + last;
    if 4 * p + 4 < |s| {
      PixelOf(init, bg, p);
      assert init[4 * p..4 * p + 4] == s[4 * p..4 * p + 4];
      assert (a + last)[4 * p..4 * p + 4] == a[4 * p..4 * p + 4];
    } else {
      assert |a| == 4 * p && s[4 * p..4 * p + 4] == s[|s| - 4..];
      assert (a + last)[4 * p..4 * p + 4] == last;
    }
  }

  /** A transparent pixel becomes the background; any other pixel is kept
      byte for byte; no alpha byte changes. */
  lemma NormalizedPixel(s: seq<uint8>, p: nat)
    requires WholePixels(s) && |s| >= 4 && 4 * p + 4 <= |s|
    ensures s[4 * p + 3] == 0 ==> Normalized(s)[4 * p..4 * p + 4] == Background(s)
    ensures s[4 * p + 3] != 0 ==> Normalized(s)[4 * p..4 * p + 4] == s[4 * p..4 * p + 4]
    ensures Normalized(s)[4 * p + 3] == s[4 * p + 3]
  {
    var r := Normalized(s);
    PixelOf(s, Background(s), p);
    assert r[4 * p + 3] == r[4 * p..4 * p + 4][3];
  }

  /** The pass keeps the background it chose: the new first pixel decides
      the same background. */
  lemma BackgroundStable(s: seq<uint8>)
    requires WholePixels(s) && |s| >= 4
    ensures Background(Normalized(s)) == Background(s)
  {
    var r := Normalized(s);
    NormalizedPixel(s, 0);
    assert r[..4] == r[0..4];
  }

  /** With a transparent background, passing a buffer twice through
      NormalizeWith is the same as passing it once. */
  lemma {:induction false} NormalizeWithTwice(s: seq<uint8>, bg: seq<uint8>)
    requires WholePixels(s) && |bg| == 4 && bg[3] == 0
    ensures NormalizeWith(NormalizeWith(s, bg), bg) == NormalizeWith(s, bg)
    decreases |s|
  {
    if s != [] {
      var r := NormalizeWith(s, bg);
      var a := NormalizeWith(s[..|s| - 4], bg);
      assert r[..|r| - 4] == a && r[|r| - 4..] == Fix(s[|s| - 4..], bg);
      NormalizeWithTwice(s[..|s| - 4], bg);
    }
  }

  /** Running the pass on its own output changes nothing. */
  lemma NormalizeIdempotent(s: seq<uint8>)
    requires WholePixels(s) && |s| >= 4
    ensures Normalized(Normalized(s)) == Normalized(s)
  {
    BackgroundStable(s);
    NormalizeWithTwice(s, Background(s));
  }

  /** The buffer t with its pixel at byte i passed through Fix. */
  function FixAt(t: seq<uint8>, i: nat, bg: seq<uint8>): seq<uint8>
    requires i + 4 <= |t| && |bg| == 4
  {
    t[..i] + Fix(t[i..i + 4], bg) + t[i + 4..]
  }

  /** Passing one more pixel through Fix extends the result by a pixel. */
  lemma NormalizeWithExtend(s: seq<uint8>, bg: seq<uint8>, i: nat)
    requires WholePixels(s) && |bg| == 4 && i % 4 == 0 && i + 4 <= |s|
    ensures WholePixels(s[..i + 4])
    ensures NormalizeWith(s[..i + 4], bg) == NormalizeWith(s[..i], bg) + Fix(s[i..i + 4], bg)
  {
    PixelBoundary(i);
    var u := s[..i + 4];
    assert u[..|u| - 4] == s[..i] && u[|u| - 4..] == s[i..i + 4];
  }

  /** FixAt on a buffer split at the pixel it fixes. */
  lemma FixAtSplit(d: seq<uint8>, rest: seq<uint8>, bg: seq<uint8>)
    requires |rest| >= 4 && |bg| == 4
    ensures FixAt(d + rest, |d|, bg) == d + Fix(rest[..4], bg) + rest[4..]
  {
    var t := d + rest;
    assert t[..|d|] == d && t[|d|..|d| + 4] == rest[..4] && t[|d| + 4..] == rest[4..];
  }

  /** One more pixel of the loop: the prefix that is done grows by one
      pixel of the result and the rest of the input is untouched. */
  lemma NormalizeStep(t: seq<uint8>, s: seq<uint8>, bg: seq<uint8>, i: nat)
    requires WholePixels(s) && |bg| == 4 && i % 4 == 0 && i + 4 <= |s|
    requires t == NormalizeWith(s[..i], bg) + s[i..]
    ensures WholePixels(s[..i + 4])
    ensures FixAt(t, i, bg) == NormalizeWith(s[..i + 4], bg) + s[i + 4..]
  {
    FixAtSplit(NormalizeWith(s[..i], bg), s[i..], bg);
    assert s[i..][..4] == s[i..i + 4] && s[i..][4..] == s[i + 4..];
    NormalizeWithExtend(s, bg, i);
  }

  /** `copy(source.Pix[i:i+4], background[:])` when pixel i is transparent. */
  method FixPixel(pix: array<uint8>, i: nat, background: seq<uint8>)
    requires i + 4 <= pix.Length && |background| == 4
    modifies pix
    ensures pix[..] == FixAt(old(pix[..]), i, background)
  {
    ghost var t := pix[..];
    if pix[i + 3] == 0 {
      pix[i], pix[i + 1], pix[i + 2], pix[i + 3] :=
        background[0], background[1], background[2], background[3];
    }
    assert pix[..] == FixAt(t, i, background) by {
      forall k | 0 <= k < pix.Length
        ensures pix[k] == FixAt(t, i, background)[k]
      {
        if k < i {
        } else if k < i + 4 {
          assert FixAt(t, i, background)[k] == Fix(t[i..i + 4], background)[k - i];
        } else {
        }
      }
    }
  }

  /** The pixel loop of `handleFile`, in place on the buffer. */
  method NormalizePix(pix: array<uint8>)
    requires WholePixels(pix[..]) && pix.Length >= 4
    modifies pix
    ensures pix[..] == Normalized(old(pix[..]))
  {
    ghost var s := pix[..];
    var background: seq<uint8> := [0, 0, 0, 0];
    if pix[3] == 0 {
      background := pix[..4];
    }
    assert background == Background(s);
    var i := 0;
    while i < pix.Length
      invariant 0 <= i <= pix.Length && i % 4 == 0
      invariant pix[..] == NormalizeWith(s[..i], background) + s[i..]
    {
      ghost var t := pix[..];
      FixPixel(pix, i, background);
      NormalizeStep(t, s, background, i);
      i := i + 4;
    }
    assert s[..i] == s;
  }

  /** `handleFile` after decoding: an image that is not NRGBA is an error
      and nothing is rewritten; otherwise the pixels are normalised. */
  method HandleDecoded(m: Decoded) returns (err: Option<string>)
    requires m.NRGBA? ==> WholePixels(m.pix[..]) && m.pix.Length >= 4
    modifies if m.NRGBA? then {m.pix} else {}
    ensures m.OtherModel? ==> err == Some("not RGBA")
    ensures m.NRGBA? ==> err == None && m.pix[..] == Normalized(old(m.pix[..]))
  {
    match m
    case OtherModel =>
      err := Some("not RGBA");
    case NRGBA(pix) =>
      NormalizePix(pix);
      err := None;
  }
}
