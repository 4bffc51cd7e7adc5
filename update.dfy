/** update.go: builds the gallery README. Every folder of images becomes a
    set of thumbnails (or a collage grid), and the sets are written out as
    markdown links. Image decoding, scaling and file output are outside the
    model; a decoded image is represented by its size. */
module Update {

  import opened Base
  import opened Geometry
  import opened FilePath

  const ThumbnailSize: int := 128
  const MaxColumns: int := 6

  /** `ImageLink`: a thumbnail, the image it opens and where it was drawn. */
  datatype ImageLink = ImageLink(thumb: string, actual: string, bounds: Rectangle)

  // ---------------------------------------------------------------------
  // Collage

  /** NewCollage's column count: the requested one, or fewer when there
      are fewer images. */
  function GridColumns(count: int, columnsPerRow: int): (c: int)
    ensures c <= count && c <= columnsPerRow && (c == count || c == columnsPerRow)
  {
    if count < columnsPerRow then count else columnsPerRow
  }

  /** The grid of NewCollage holds every image, wastes less than a row, and
      image k sits at column k mod columns of row k div columns. */
  lemma CollageGridFits(count: int, columnsPerRow: int, k: nat)
    requires count > 0 && columnsPerRow > 0
    ensures var c := GridColumns(count, columnsPerRow); var rows := CeilDiv(count, c);
      0 < c <= columnsPerRow && count <= rows * c < count + c &&
      (k < count ==> k / c < rows && k % c < c && (k / c) * c + k % c == k)
  {
    var c := GridColumns(count, columnsPerRow);
    var rows := CeilDiv(count, c);
    if k < count {
      assert k == (k / c) * c + k % c;
    }
  }

  /** `Collage`: the cursor (x, y) of the next cell, the grid, the links
      drawn so far and the bounds of the canvas image. */
  class Collage {
    var x: int
    var y: int
    const columnsPerRow: int
    const cellSize: int
    const imageBounds: Rectangle
    var name: string
    var output: string
    var folder: string
    var links: seq<ImageLink>

    /** The cursor is in the grid, one link was made per drawn image, and
        link i is for cell i in row-major order. */
    ghost predicate Valid()
      reads this
    {
      columnsPerRow > 0 && 0 <= x < columnsPerRow && 0 <= y &&
      |links| == y * columnsPerRow + x &&
      forall i :: 0 <= i < |links| ==>
        links[i].thumb == "" && links[i].bounds == Bounds(i % columnsPerRow, i / columnsPerRow)
    }

    /** `NewCollage(count, columnsPerRow, cellSize)`. */
    constructor (count: int, columnsPerRow: int, cellSize: int)
      requires count > 0 && columnsPerRow > 0
      ensures Valid()
      ensures this.columnsPerRow == GridColumns(count, columnsPerRow) && this.cellSize == cellSize
      ensures imageBounds == Rect(0, 0, this.columnsPerRow * cellSize,
                                  CeilDiv(count, this.columnsPerRow) * cellSize)
      ensures x == 0 && y == 0 && links == [] && name == "" && output == "" && folder == ""
    {
      var cols := GridColumns(count, columnsPerRow);
      var rowCount := CeilDiv(count, cols);
      this.columnsPerRow := cols;
      this.cellSize := cellSize;
      imageBounds := Rect(0, 0, cols * cellSize, rowCount * cellSize);
      x, y := 0, 0;
      name, output, folder := "", "", "";
      links := [];
    }

    /** `Bounds(x, y)`: the square cell of side cellSize at column x and
        row y. */
    function Bounds(x: int, y: int): (r: Rectangle)
      ensures cellSize >= 0 ==>
        r.min == Point(x * cellSize, y * cellSize) && r.Size() == Point(cellSize, cellSize)
    {
      var x0 := x * cellSize;
      var y0 := y * cellSize;
      Rect(x0, y0, x0 + cellSize, y0 + cellSize)
    }

    /** `Draw(path, m)` without the pixel scaling: records the link for
        the current cell, then advances the cursor in row-major order. */
    method Draw(path: string)
      requires Valid()
      modifies this`x, this`y, this`links
      ensures Valid()
      ensures links == old(links) + [ImageLink("", path, Bounds(old(x), old(y)))]
      ensures x == |links| % columnsPerRow && y == |links| / columnsPerRow
    {
      var frame := Bounds(x, y);
      CellOfIndex(y, columnsPerRow, x);
      links := links + [ImageLink("", path, frame)];
      x := x + 1;
      if x >= columnsPerRow {
        x := 0;
        y := y + 1;
      }
      assert |links| == y * columnsPerRow + x by {
        assert (y - 1) * columnsPerRow + columnsPerRow == y * columnsPerRow;
      }
      CellOfIndex(y, columnsPerRow, x);
    }
  }

  // ---------------------------------------------------------------------
  // FitBoundsIntoFrame

  /** `FitBoundsIntoFrame(bounds, frame)`: the image scaled to the frame's
      height (portrait) or width (otherwise), standing on the frame's bottom
      edge and centred horizontally. */
  function FitBoundsIntoFrame(bounds: Rectangle, frame: Rectangle): (r: Rectangle)
    requires bounds.WellFormed() && frame.WellFormed() && (bounds.Dx() > 0 || bounds.Dy() > 0)
    ensures r.max.y == frame.max.y
    ensures r.min.x + r.max.x == 2 * (frame.min.x + frame.Dx() / 2)
    ensures bounds.Dx() < bounds.Dy() ==>
      r.Dy() == frame.Dy() && r.Dx() == 2 * ((frame.Dy() * bounds.Dx() / bounds.Dy()) / 2)
    ensures bounds.Dx() >= bounds.Dy() ==>
      r.Dx() == 2 * (frame.Dx() / 2) && r.Dy() == frame.Dx() * bounds.Dy() / bounds.Dx()
  {
    var size := bounds.Size();
    var frameSize := frame.Size();
    var target :=
      if size.x < size.y then Point(frameSize.y * size.x / size.y, frameSize.y)
      else Point(frameSize.x, frameSize.x * size.y / size.x);
    var centerX := frame.min.x + frameSize.x / 2;
    Rectangle(Point(centerX - target.x / 2, frame.max.y - target.y),
              Point(centerX + target.x / 2, frame.max.y))
  }

  /** In a square frame, such as a collage cell, the fitted image stays
      inside the frame. */
  lemma FitInsideSquare(bounds: Rectangle, frame: Rectangle)
    requires bounds.WellFormed() && frame.WellFormed() && (bounds.Dx() > 0 || bounds.Dy() > 0)
    requires frame.Dx() == frame.Dy()
    ensures FitBoundsIntoFrame(bounds, frame).Inside(frame)
  {
    var s := frame.Dx();
    if bounds.Dx() < bounds.Dy() {
      MulDivAtMost(s, bounds.Dx(), bounds.Dy());
    } else {
      MulDivAtMost(s, bounds.Dy(), bounds.Dx());
    }
  }

  // ---------------------------------------------------------------------
  // Thumbs

  /** The size Downscale gives a thumbnail: `size` high, the width
      scaled to keep the aspect ratio (Go's `/` on the product). */
  function DownscaleSize(src: Extent, size: int): (p: Point)
    ensures p.y == size
    ensures size >= 0 ==> p.x * src.y <= src.x * size < (p.x + 1) * src.y
  {
    var w := GoDiv(src.x * size, src.y);
    if size >= 0 then DivBracket(src.x * size, src.y); Point(w, size) else Point(w, size)
  }

  /** One set of thumbnails, as CreateThumbsIndex reads it. */
  datatype ThumbSet = ThumbSet(name: string, folder: string, links: seq<ImageLink>)

  /** `Thumbs`: one folder's thumbnails. */
  class Thumbs {
    var size: int
    var name: string
    var output: string
    var folder: string
    var links: seq<ImageLink>

    /** `&Thumbs{}`. */
    constructor ()
      ensures size == 0 && name == "" && output == "" && folder == "" && links == []
    {
      size := 0;
      name, output, folder := "", "", "";
      links := [];
    }

    function Set(): ThumbSet
      reads this
    {
      ThumbSet(name, folder, links)
    }

    /** `ExportSVG` without the Inkscape run: records a link with empty
        bounds. */
    method ExportSvg(actual: string, out: string)
      modifies this`links
      ensures links == old(links) + [ImageLink(out, actual, ZeroRect())]
    {
      links := links + [ImageLink(out, actual, ZeroRect())];
    }

    /** `Downscale` without the pixel scaling: records the link and gives
        the bounds of the thumbnail image. */
    method Downscale(actual: string, out: string, m: Extent) returns (inner: Rectangle)
      modifies this`links
      ensures inner == Rectangle(Origin(), DownscaleSize(m, size))
      ensures links == old(links) + [ImageLink(out, actual, inner)]
    {
      var targetSize := Point(0, size);
      targetSize := targetSize.(x := GoDiv(m.x * size, m.y));
      inner := Rectangle(Origin(), targetSize);
      links := links + [ImageLink(out, actual, inner)];
    }

    /** The body of MakeThumbs's loop for one directory entry. */
    method AddFile(file: FileEntry)
      requires size == ThumbnailSize
      modifies this`links
      ensures links == old(links) + EntryLinks(folder, output, file)
    {
      if Contains(file.name, ".sheet.") {
        return;
      }
      var path := Join(folder, file.name);
      var outpath := Join(output, file.name);
      outpath := ReplaceExt(outpath, ".png");
      if Ext(path) == ".svg" {
        ExportSvg(path, outpath);
        return;
      }
      match file.image {
        case None =>
        case Some(m) =>
          var _ := Downscale(path, outpath, m);
      }
    }
  }

  // ---------------------------------------------------------------------
  // Directory order: FileInfos.Less

  /** A directory entry of MakeThumbs: its name and what LoadImage makes of
      it (None when opening or decoding fails). */
  datatype FileEntry = FileEntry(name: string, image: Option<Extent>)

  /** Go's `<` on strings: lexicographic by character (byte order of UTF-8
      is code point order). */
  predicate NameLess(a: string, b: string)
    decreases |a|
  {
    |b| > 0 && (|a| == 0 || a[0] < b[0] || (a[0] == b[0] && NameLess(a[1..], b[1..])))
  }

  /** `FileInfos.Less` is a strict total order on names, as sort.Sort needs. */
  lemma {:induction false} NameLessIrreflexive(a: string)
    ensures !NameLess(a, a)
    decreases |a|
  {
    if |a| > 0 {
      NameLessIrreflexive(a[1..]);
    }
  }

  lemma {:induction false} NameLessTransitive(a: string, b: string, c: string)
    requires NameLess(a, b) && NameLess(b, c)
    ensures NameLess(a, c)
    decreases |a|
  {
    if |a| > 0 && a[0] == b[0] && b[0] == c[0] {
      NameLessTransitive(a[1..], b[1..], c[1..]);
    }
  }

  lemma {:induction false} NameLessTotal(a: string, b: string)
    ensures a == b || NameLess(a, b) || NameLess(b, a)
    decreases |a|
  {
    if |a| > 0 && |b| > 0 && a[0] == b[0] {
      NameLessTotal(a[1..], b[1..]);
      if a[1..] == b[1..] {
        assert a == [a[0]] + a[1..] && b == [b[0]] + b[1..];
      }
    }
  }

  ghost predicate SortedByName(xs: seq<FileEntry>) {
    forall i, j :: 0 <= i < j < |xs| ==> !NameLess(xs[j].name, xs[i].name)
  }

  /** f placed before the first entry of xs that is not less than it. */
  function Insert(f: FileEntry, xs: seq<FileEntry>): (r: seq<FileEntry>)
    ensures multiset(r) == multiset(xs) + multiset{f}
  {
    if xs == [] then [f]
    else if NameLess(xs[0].name, f.name) then
      assert xs == [xs[0]] + xs[1..];
      [xs[0]] + Insert(f, xs[1..])
    else [f] + xs
  }

  /** `sort.Sort(FileInfos(files))`: the entries ordered by name. */
  function SortByName(xs: seq<FileEntry>): (r: seq<FileEntry>)
    ensures multiset(r) == multiset(xs)
  {
    if xs == [] then [] else
      assert xs == [xs[0]] + xs[1..];
      Insert(xs[0], SortByName(xs[1..]))
  }

  lemma {:induction false} InsertSorted(f: FileEntry, xs: seq<FileEntry>)
    requires SortedByName(xs)
    ensures SortedByName(Insert(f, xs))
    decreases |xs|
  {
    if xs != [] {
      if NameLess(xs[0].name, f.name) {
        InsertSorted(f, xs[1..]);
        var r := Insert(f, xs);
        forall j | 0 < j < |r|
          ensures !NameLess(r[j].name, xs[0].name)
        {
          assert r[j] in multiset(xs[1..]) + multiset{f};
          if r[j] == f {
            NameLessIrreflexive(f.name);
            NotLessBoth(f.name, xs[0].name);
          } else {
            var k :| 0 <= k < |xs[1..]| && xs[1..][k] == r[j];
            assert xs[k + 1] == r[j];
          }
        }
      } else {
        forall j | 0 <= j < |xs|
          ensures !NameLess(xs[j].name, f.name)
        {
          if j > 0 && NameLess(xs[j].name, f.name) {
            NameLessTotal(f.name, xs[0].name);
            if f.name != xs[0].name {
              NameLessTransitive(xs[j].name, f.name, xs[0].name);
            }
          }
        }
      }
    }
  }

  lemma NotLessBoth(a: string, b: string)
    requires NameLess(b, a)
    ensures !NameLess(a, b)
  {
    if NameLess(a, b) {
      NameLessTransitive(a, b, a);
      NameLessIrreflexive(a);
    }
  }

  /** The sort's result is ordered by name. */
  lemma {:induction false} SortByNameSorted(xs: seq<FileEntry>)
    ensures SortedByName(SortByName(xs))
    decreases |xs|
  {
    if xs != [] {
      SortByNameSorted(xs[1..]);
      InsertSorted(xs[0], SortByName(xs[1..]));
    }
  }

  // ---------------------------------------------------------------------
  // MakeThumbs

  /** What MakeThumbs does with one directory entry: nothing for a `.sheet.`
      file, an exported link for an SVG, a downscaled link for an image that
      loads, and nothing for one that does not. */
  function EntryLinks(folder: string, output: string, f: FileEntry): (r: seq<ImageLink>)
    ensures |r| <= 1
    ensures r != [] ==>
      (!Contains(f.name, ".sheet.") &&
       r[0].actual == Join(folder, f.name) &&
       r[0].thumb == ReplaceExt(Join(output, f.name), ".png"))
  {
    if Contains(f.name, ".sheet.") then []
    else
      var path := Join(folder, f.name);
      var outpath := ReplaceExt(Join(output, f.name), ".png");
      if Ext(path) == ".svg" then [ImageLink(outpath, path, ZeroRect())]
      else match f.image
        case None => []
        case Some(m) => [ImageLink(outpath, path, Rectangle(Origin(), DownscaleSize(m, ThumbnailSize)))]
  }

  /** The links MakeThumbs makes for entries taken in the given order. */
  function ThumbLinks(folder: string, output: string, files: seq<FileEntry>): seq<ImageLink> {
    if files == [] then []
    else ThumbLinks(folder, output, files[..|files| - 1]) + EntryLinks(folder, output, files[|files| - 1])
  }

  /** Every thumbnail MakeThumbs links to is a `.png` file in the output
      folder, at most one per entry. */
  lemma {:induction false} ThumbLinksPng(folder: string, output: string, files: seq<FileEntry>, i: nat)
    ensures |ThumbLinks(folder, output, files)| <= |files|
    ensures i < |ThumbLinks(folder, output, files)| ==>
      Ext(ThumbLinks(folder, output, files)[i].thumb) == ".png"
    decreases |files|
  {
    if files != [] {
      var init := files[..|files| - 1];
      var a := ThumbLinks(folder, output, init);
      var last := EntryLinks(folder, output, files[|files| - 1]);
      ThumbLinksPng(folder, output, init, i);
      if |a| <= i < |a + last| {
        EntryLinkPng(folder, output, files[|files| - 1]);
        assert (a + last)[i] == last[0];
      } else if i < |a| {
        assert (a + last)[i] == a[i];
      }
    }
  }

  lemma EntryLinkPng(folder: string, output: string, f: FileEntry)
    ensures EntryLinks(folder, output, f) != [] ==>
      Ext(EntryLinks(folder, output, f)[0].thumb) == ".png"
  {
    if EntryLinks(folder, output, f) != [] {
      assert IsExt(".png");
      ReplaceExtRoundTrip(Join(output, f.name), ".png");
    }
  }

  /** `MakeThumbs` after `ReadDir`: no thumbs for an empty folder; else
      the entries are sorted by name and each makes its link in turn. */
  method MakeThumbs(name: string, folder: string, output: string, files: seq<FileEntry>)
    returns (thumbs: Thumbs?)
    ensures files == [] ==> thumbs == null
    ensures files != [] ==>
      (thumbs != null && fresh(thumbs) &&
       thumbs.size == ThumbnailSize && thumbs.name == name &&
       thumbs.output == output && thumbs.folder == folder &&
       thumbs.links == ThumbLinks(folder, output, SortByName(files)))
  {
    if |files| == 0 {
      return null;
    }
    var sorted := SortByName(files);
    thumbs := new Thumbs();
    thumbs.size := ThumbnailSize;
    thumbs.name := name;
    thumbs.output := output;
    thumbs.folder := folder;
    var i := 0;
    while i < |sorted|
      invariant 0 <= i <= |sorted|
      invariant thumbs.size == ThumbnailSize && thumbs.name == name
      invariant thumbs.output == output && thumbs.folder == folder
      invariant thumbs.links == ThumbLinks(folder, output, sorted[..i])
    {
      assert sorted[..i + 1][..i] == sorted[..i];
      thumbs.AddFile(sorted[i]);
      i := i + 1;
    }
    assert sorted[..|sorted|] == sorted;
  }

  // ---------------------------------------------------------------------
  // CreateThumbsIndex

  function Header(t: ThumbSet): string {
    "\n### [" + t.name + "](" + t.folder + ")\n\n"
  }

  function LinkLine(l: ImageLink): string {
    "[<img src=\"" + l.thumb + "\">](" + l.actual + ")\n"
  }

  function LinkLines(links: seq<ImageLink>): string {
    if links == [] then "" else LinkLines(links[..|links| - 1]) + LinkLine(links[|links| - 1])
  }

  /** The header of a set when titles are on, nothing otherwise. */
  function Title(withTitle: bool, t: ThumbSet): string {
    if withTitle then Header(t) else ""
  }

  function SetText(withTitle: bool, t: ThumbSet): string {
    Title(withTitle, t) + LinkLines(t.links)
  }

  function SetsText(withTitle: bool, sets: seq<ThumbSet>): string {
    if sets == [] then "" else SetsText(withTitle, sets[..|sets| - 1]) + SetText(withTitle, sets[|sets| - 1])
  }

  /** The markdown that CreateThumbsIndex writes. */
  function ThumbsIndex(withTitle: bool, sets: seq<ThumbSet>): string {
    SetsText(withTitle, sets) + "\n\n"
  }

  /** All links of the sets, in order. */
  function AllLinks(sets: seq<ThumbSet>): seq<ImageLink> {
    if sets == [] then [] else AllLinks(sets[..|sets| - 1]) + sets[|sets| - 1].links
  }

  lemma {:induction false} LinkLinesAppend(a: seq<ImageLink>, b: seq<ImageLink>)
    ensures LinkLines(a + b) == LinkLines(a) + LinkLines(b)
    decreases |b|
  {
    if b != [] {
      var b' := b[..|b| - 1];
      assert (a + b)[..|a + b| - 1] == a + b';
      LinkLinesAppend(a, b');
    } else {
      assert a + b == a;
    }
  }

  /** Without titles the index is one line per link, over all sets in
      order, then a blank line. */
  lemma {:induction false} ThumbsIndexUntitled(sets: seq<ThumbSet>)
    ensures ThumbsIndex(false, sets) == LinkLines(AllLinks(sets)) + "\n\n"
    decreases |sets|
  {
    UntitledText(sets);
  }

  lemma {:induction false} UntitledText(sets: seq<ThumbSet>)
    ensures SetsText(false, sets) == LinkLines(AllLinks(sets))
    decreases |sets|
  {
    if sets != [] {
      var init := sets[..|sets| - 1];
      UntitledText(init);
      LinkLinesAppend(AllLinks(init), sets[|sets| - 1].links);
    }
  }

  /** The text of the sets a + b is the text of a followed by that of b:
      each set is written on its own, in order. */
  lemma {:induction false} SetsTextAppend(withTitle: bool, a: seq<ThumbSet>, b: seq<ThumbSet>)
    ensures SetsText(withTitle, a + b) == SetsText(withTitle, a) + SetsText(withTitle, b)
    decreases |b|
  {
    if b != [] {
      var b' := b[..|b| - 1];
      assert (a + b)[..|a + b| - 1] == a + b';
      SetsTextAppend(withTitle, a, b');
    } else {
      assert a + b == a;
    }
  }

  /** One more set of the outer loop: its header, when titles are on, then
      its link lines. */
  lemma IndexStep(withTitle: bool, sets: seq<ThumbSet>, i: nat, buf: string)
    requires i < |sets| && buf == SetsText(withTitle, sets[..i])
    ensures (buf + Title(withTitle, sets[i])) + LinkLines(sets[i].links) == SetsText(withTitle, sets[..i + 1])
  {
    assert sets[..i + 1][..i] == sets[..i];
  }

  /** The inner loop of CreateThumbsIndex: one line per link. */
  method WriteLinks(start: string, links: seq<ImageLink>) returns (buf: string)
    ensures buf == start + LinkLines(links)
  {
    buf := start;
    var j := 0;
    while j < |links|
      invariant 0 <= j <= |links|
      invariant buf == start + LinkLines(links[..j])
    {
      assert links[..j + 1][..j] == links[..j];
      buf := buf + LinkLine(links[j]);
      j := j + 1;
    }
    assert links[..j] == links;
  }

  /** `CreateThumbsIndex(withtitle, thumbsets)`, writing into a buffer. */
  method CreateThumbsIndex(withTitle: bool, sets: seq<ThumbSet>) returns (buf: string)
    ensures buf == ThumbsIndex(withTitle, sets)
  {
    buf := "";
    var i := 0;
    while i < |sets|
      invariant 0 <= i <= |sets|
      invariant buf == SetsText(withTitle, sets[..i])
    {
      var thumbs := sets[i];
      IndexStep(withTitle, sets, i, buf);
      buf := WriteLinks(buf + Title(withTitle, thumbs), thumbs.links);
      i := i + 1;
    }
    assert sets[..i] == sets;
    buf := buf + "\n\n";
  }
}
