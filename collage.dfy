/** collage.go: walks a directory for PNG and JPEG images, drops the small
    ones, shuffles the rest and lays them out on a grid of square cells,
    each image scaled so that its longer side fills the cell and centred
    in it. Decoding, shuffling and drawing are outside the model: a loaded
    image is its size, the shuffle is a permutation passed in, and the
    layout yields the rectangle each image is scaled into. */
module CollageTool {

  import opened Base
  import opened Geometry
  import opened FilePath
  import opened FileWalk

  /** The defaults of the `-c`, `-s` and `-o` flags. */
  const DefaultColumns: int := 8
  const DefaultCellSize: int := 128
  const DefaultOutput: string := "collage.jpg"

  /** Images narrower or shorter than this are left out. */
  const MinSide: int := 64

  // ---------------------------------------------------------------------
  // Collecting files

  /** The walk function of `main`: an error passed by Walk is returned, and
      `.git` is answered with `SkipDir`; every other entry lets the walk go
      on. */
  function Answer(v: Visit): Verdict {
    if v.failed then Fail
    else if v.path == ".git" then SkipDir
    else Continue
  }

  /** An entry the walk function collects: no error, not `.git`, not a
      directory, a `.png` or `.jpg` extension and not the output file. */
  predicate Wanted(output: string, v: Visit) {
    !v.failed && v.path != ".git" && !v.isDir &&
    (Ext(v.path) == ".png" || Ext(v.path) == ".jpg") && v.path != output
  }

  /** The paths collected by the calls c, in order. */
  function FilesFrom(output: string, visits: seq<Visit>, c: seq<nat>): seq<string> {
    if c == [] then []
    else
      var i := c[|c| - 1];
      FilesFrom(output, visits, c[..|c| - 1]) +
        (if i < |visits| && Wanted(output, visits[i]) then [visits[i].path] else [])
  }

  /** What the walk has gathered, and whether it has stopped on an error. */
  datatype Collection = Collection(files: seq<string>, stopped: bool)

  /** `filepath.Walk` over the entries with the walk function of `main`. */
  function Collect(output: string, visits: seq<Visit>): Collection {
    var w := Calls(Answer, visits);
    Collection(FilesFrom(output, visits, w.calls), w.ended)
  }

  /** The paths of the calls c are the wanted ones among them. */
  lemma {:induction false} FilesFromSpec(output: string, visits: seq<Visit>, c: seq<nat>, p: string)
    ensures p in FilesFrom(output, visits, c) <==>
      exists k :: 0 <= k < |c| && c[k] < |visits| && Wanted(output, visits[c[k]]) && visits[c[k]].path == p
    decreases |c|
  {
    if c != [] {
      var init := c[..|c| - 1];
      FilesFromSpec(output, visits, init, p);
      assert forall k :: 0 <= k < |init| ==> init[k] == c[k];
    }
  }

  /** The walk collects exactly the wanted paths whose entries it passes to
      the walk function. */
  lemma CollectedPaths(output: string, visits: seq<Visit>, p: string)
    ensures var c := Calls(Answer, visits).calls;
      p in Collect(output, visits).files <==>
        exists i :: 0 <= i < |visits| && i in c && Wanted(output, visits[i]) && visits[i].path == p
  {
    var c := Calls(Answer, visits).calls;
    FilesFromSpec(output, visits, c, p);
    if p in Collect(output, visits).files {
      var k :| 0 <= k < |c| && c[k] < |visits| && Wanted(output, visits[c[k]]) && visits[c[k]].path == p;
      assert c[k] in c;
    }
    if exists i :: 0 <= i < |visits| && i in c && Wanted(output, visits[i]) && visits[i].path == p {
      var i :| 0 <= i < |visits| && i in c && Wanted(output, visits[i]) && visits[i].path == p;
      var k :| 0 <= k < |c| && c[k] == i;
    }
  }

  /** The walk stops iff an entry it passes to the walk function carries an
      error. */
  lemma CollectStopped(output: string, visits: seq<Visit>)
    ensures var c := Calls(Answer, visits).calls;
      Collect(output, visits).stopped <==> exists i :: 0 <= i < |visits| && i in c && visits[i].failed
  {
    CallsEnded(Answer, visits);
  }

  /** With no error and no `.git`, every entry is passed to the walk
      function. */
  lemma CollectReachesAll(visits: seq<Visit>, i: nat)
    requires i < |visits|
    requires forall j :: 0 <= j < |visits| ==> !visits[j].failed && visits[j].path != ".git"
    ensures i in Calls(Answer, visits).calls
  {
    CallsOpen(Answer, visits, i);
  }

  /** Nothing below a `.git` directory is passed to the walk function. */
  lemma GitDirNotEntered(visits: seq<Visit>, i: nat, j: nat)
    requires i < j < |visits| && i in Calls(Answer, visits).calls
    requires visits[i] == Visit(".git", true, false) && HasPrefix(visits[j].path, ".git/")
    ensures j !in Calls(Answer, visits).calls
  {
    GitSlash();
    SkipDirNotEntered(Answer, visits, i, j);
  }

  /** A `.git` file is answered with `SkipDir` as well, which skips the rest
      of the directory holding it: in a walk of "." no later entry is passed
      to the walk function. */
  lemma GitFileEndsWalk(visits: seq<Visit>, i: nat, j: nat)
    requires i < j < |visits| && i in Calls(Answer, visits).calls
    requires visits[i] == Visit(".git", false, false)
    ensures j !in Calls(Answer, visits).calls
  {
    GitIsName();
    SkipNameEndsWalk(Answer, visits, i, j);
  }

  lemma GitSlash()
    ensures ".git/" == ".git" + [Separator]
  {
  }

  lemma GitIsName()
    ensures forall k :: 0 <= k < |".git"| ==> ".git"[k] != Separator
  {
  }

  /** The walk of `main`: `filepath.Walk` passing the entries it does not cut
      off to the walk function, which gathers each collected path as Walk
      reports it. */
  method CollectFiles(output: string, visits: seq<Visit>) returns (files: seq<string>)
    ensures files == Collect(output, visits).files
  {
    files := [];
    var skips: seq<string> := [];
    ghost var calls: seq<nat> := [];
    var i := 0;
    while i < |visits|
      invariant 0 <= i <= |visits|
      invariant Calls(Answer, visits[..i]) == Walked(calls, skips, false)
      invariant files == FilesFrom(output, visits, calls)
    {
      var v := visits[i];
      if Skipped(skips, v.path) {
        CallsSkip(Answer, visits, i, calls, skips);
      } else {
        CallsVisit(Answer, visits, i, calls, skips);
        FilesFromNext(output, visits, calls, i);
        calls := calls + [i];
        if v.failed {
          CallsStays(Answer, visits, i + 1);
          return;
        } else if v.path == ".git" {
          skips := skips + [SkipScope(v)];
        } else if Wanted(output, v) {
          files := files + [v.path];
        }
      }
      i := i + 1;
    }
    assert visits[..i] == visits;
  }

  /** One more call: its path is collected when it is wanted. */
  lemma FilesFromNext(output: string, visits: seq<Visit>, c: seq<nat>, i: nat)
    requires i < |visits|
    ensures FilesFrom(output, visits, c + [i]) ==
      FilesFrom(output, visits, c) + (if Wanted(output, visits[i]) then [visits[i].path] else [])
  {
    assert (c + [i])[..|c|] == c;
  }

  /** `filepath.Join(dir, path)` on every path. */
  function JoinAll(dir: string, paths: seq<string>): (r: seq<string>)
    ensures |r| == |paths| && forall k :: 0 <= k < |r| ==> r[k] == Join(dir, paths[k])
  {
    if paths == [] then [] else JoinAll(dir, paths[..|paths| - 1]) + [Join(dir, paths[|paths| - 1])]
  }

  /** The files collected as written: collage.go joins dir to a path that
      already starts with dir. */
  function CollectedAsWritten(dir: string, output: string, visits: seq<Visit>): (r: seq<string>)
    ensures |r| == |Collect(output, visits).files|
  {
    JoinAll(dir, Collect(output, visits).files)
  }

  /** Walking "gophers" that holds one image, the path collected as written
      names no file the walk saw, so it fails to open; without the join the
      collected path is that image. */
  lemma CollectedAsWrittenMisses()
    ensures var visits := [Visit("gophers", true, false), Visit("gophers/a.png", false, false)];
      CollectedAsWritten("gophers", DefaultOutput, visits) == ["gophers" + "/" + "gophers/a.png"] &&
      Collect(DefaultOutput, visits).files == ["gophers/a.png"] &&
      forall v :: v in visits ==> v.path != "gophers" + "/" + "gophers/a.png"
  {
    var visits := [Visit("gophers", true, false), Visit("gophers/a.png", false, false)];
    SampleCalls(visits);
    SampleFiles(visits);
    assert |"gophers" + "/" + "gophers/a.png"| == 21;
  }

  /** Neither entry of the sample is cut off. */
  lemma SampleCalls(visits: seq<Visit>)
    requires visits == [Visit("gophers", true, false), Visit("gophers/a.png", false, false)]
    ensures Calls(Answer, visits).calls == [0, 1]
  {
    assert visits[0].path != ".git" && visits[1].path != ".git";
    ContinueAll(Answer, visits);
  }

  /** Of the two calls, the image is collected. */
  lemma SampleFiles(visits: seq<Visit>)
    requires visits == [Visit("gophers", true, false), Visit("gophers/a.png", false, false)]
    ensures FilesFrom(DefaultOutput, visits, [0, 1]) == ["gophers/a.png"]
  {
    assert IsExt(".png");
    ExtOfExtSuffix("gophers/a", ".png");
    assert "gophers/a" + ".png" == "gophers/a.png";
    var c: seq<nat> := [0, 1];
    assert c[..1] == [0] && c[..1][..0] == [];
    assert FilesFrom(DefaultOutput, visits, c[..1]) == [];
  }

  // ---------------------------------------------------------------------
  // Loading and the size filter

  /** A decoded image: its path and its size. */
  datatype Picture = Picture(path: string, size: Extent)

  predicate BigEnough(sz: Extent) {
    sz.x >= MinSide && sz.y >= MinSide
  }

  /** The images kept from the files in order: `load` gives the size of what
      opening and decoding a path yields, or None when either fails. */
  function Kept(files: seq<string>, load: string -> Option<Extent>): seq<Picture> {
    if files == [] then []
    else
      var path := files[|files| - 1];
      Kept(files[..|files| - 1], load) +
        (match load(path)
          case Some(sz) => if BigEnough(sz) then [Picture(path, sz)] else []
          case None => [])
  }

  /** Every kept image loaded from one of the files and is big enough, and
      every file that loads as a big enough image is kept. */
  lemma {:induction false} KeptSpec(files: seq<string>, load: string -> Option<Extent>, q: Picture)
    ensures q in Kept(files, load) <==> q.path in files && load(q.path) == Some(q.size) && BigEnough(q.size)
    decreases |files|
  {
    if files != [] {
      var init := files[..|files| - 1];
      KeptSpec(init, load, q);
      assert files == init + [files[|files| - 1]];
    }
  }

  /** The loading loop of `main`. */
  method LoadImages(files: seq<string>, load: string -> Option<Extent>) returns (ordered: seq<Picture>)
    ensures ordered == Kept(files, load)
  {
    ordered := [];
    var i := 0;
    while i < |files|
      invariant 0 <= i <= |files|
      invariant ordered == Kept(files[..i], load)
    {
      assert files[..i + 1][..i] == files[..i];
      var path := files[i];
      var m := load(path);
      i := i + 1;
      if m.None? {
        continue;
      }
      var sz := m.value;
      if sz.x < MinSide || sz.y < MinSide {
        continue;
      }
      ordered := ordered + [Picture(path, sz)];
    }
    assert files[..i] == files;
  }

  // ---------------------------------------------------------------------
  // Shuffling

  /** What `rand.Perm(n)` returns: every index below n exactly once. */
  ghost predicate IsPermutation(perm: seq<int>, n: nat) {
    |perm| == n &&
    (forall i :: 0 <= i < n ==> 0 <= perm[i] < n) &&
    (forall i, j :: 0 <= i < j < n ==> perm[i] != perm[j]) &&
    (forall d :: 0 <= d < n ==> d in perm)
  }

  /** `images[dst] = ordered[src]` for every pair of the permutation; the
      slice starts out nil, and every slot gets an image. */
  method Permute(ordered: seq<Picture>, perm: seq<int>) returns (images: array<Option<Picture>>)
    requires IsPermutation(perm, |ordered|)
    ensures fresh(images) && images.Length == |ordered|
    ensures forall src :: 0 <= src < |ordered| ==> images[perm[src]] == Some(ordered[src])
    ensures forall d :: 0 <= d < images.Length ==> images[d].Some?
  {
    images := new Option<Picture>[|ordered|](_ => None);
    for src := 0 to |ordered|
      invariant forall s :: 0 <= s < src ==> images[perm[s]] == Some(ordered[s])
    {
      images[perm[src]] := Some(ordered[src]);
    }
    forall d | 0 <= d < images.Length
      ensures images[d].Some?
    {
      assert d in perm;
      var s :| 0 <= s < |perm| && perm[s] == d;
    }
  }

  // ---------------------------------------------------------------------
  // Grid layout

  /** The canvas: cols cells wide and enough rows of cells for n images. */
  function Canvas(n: nat, cols: int, cell: int): (r: Rectangle)
    requires cols > 0
    ensures cell >= 0 ==> r == Rectangle(Origin(), Point(cell * cols, cell * CeilDiv(n, cols)))
  {
    Rect(0, 0, cell * cols, cell * CeilDiv(n, cols))
  }

  /** The cell of image i: column i mod cols, row i div cols. */
  function CellOf(i: nat, cols: int, cell: int): Rectangle
    requires cols > 0
  {
    var z := Point(cell * (i % cols), cell * (i / cols));
    Rectangle(z, z.Add(Point(cell, cell)))
  }

  /** Where image i of size sz is drawn: scaled so that its longer side is
      the cell, at the cell's corner moved by half the cell and back by half
      the scaled size (Go's truncating `/`). */
  function Placement(i: nat, sz: Extent, cols: int, cell: int): Rectangle
    requires cols > 0
  {
    var dz := ScaleToSquare(sz, cell);
    var z := Point(cell * (i % cols), cell * (i / cols));
    Rectangle(z, z.Add(dz)).Add(Point(GoDiv(cell, 2), GoDiv(cell, 2)))
      .Sub(Point(GoDiv(dz.x, 2), GoDiv(dz.y, 2)))
  }

  /** The placed image has the scaled size, lies inside its cell and is
      centred there: the margins on either side differ by at most one. */
  lemma PlacementInCell(i: nat, sz: Extent, cols: int, cell: nat)
    requires cols > 0
    ensures var r := Placement(i, sz, cols, cell); var c := CellOf(i, cols, cell);
      r.Size() == ScaleToSquare(sz, cell) && r.Inside(c) &&
      -1 <= (r.min.x - c.min.x) - (c.max.x - r.max.x) <= 1 &&
      -1 <= (r.min.y - c.min.y) - (c.max.y - r.max.y) <= 1
  {
    var dz := ScaleToSquare(sz, cell);
    GoDivTruncates(cell, 2);
    GoDivTruncates(dz.x, 2);
    GoDivTruncates(dz.y, 2);
    Centred(cell, dz.x);
    Centred(cell, dz.y);
  }

  /** The cell of every image lies on the canvas. */
  lemma CellOnCanvas(n: nat, i: nat, cols: int, cell: nat)
    requires cols > 0 && i < n
    ensures CellOf(i, cols, cell).Inside(Canvas(n, cols, cell))
  {
    var rows := CeilDiv(n, cols);
    var col, row := i % cols, i / cols;
    RowInRange(n, i, cols);
    CellEdge(col, cols, cell);
    CellEdge(row, rows, cell);
  }

  /** Image i of n is in one of the rows. */
  lemma RowInRange(n: nat, i: nat, cols: int)
    requires cols > 0 && i < n
    ensures i / cols < CeilDiv(n, cols)
  {
    var rows := CeilDiv(n, cols);
    var row := i / cols;
    assert row * cols <= i by {
      assert i == row * cols + i % cols;
    }
    if row >= rows {
      MulMono(rows, row, cols);
    }
  }

  /** Cell k of m along one axis starts and ends within that axis. */
  lemma CellEdge(k: nat, m: nat, cell: nat)
    requires k < m
    ensures 0 <= cell * k && cell * k + cell <= cell * m
  {
    MulMono(k + 1, m, cell);
    assert (k + 1) * cell == cell * k + cell;
  }

  /** The drawing loop of `main`: the canvas and, for image i, the
      rectangle it is scaled into. */
  method Layout(sizes: seq<Extent>, cols: int, cell: int) returns (canvas: Rectangle, rects: seq<Rectangle>)
    requires cols > 0
    ensures canvas == Canvas(|sizes|, cols, cell)
    ensures |rects| == |sizes| && forall i :: 0 <= i < |sizes| ==> rects[i] == Placement(i, sizes[i], cols, cell)
  {
    var rows := (|sizes| + cols - 1) / cols;
    canvas := Rect(0, 0, cell * cols, cell * rows);
    rects := [];
    for i := 0 to |sizes|
      invariant |rects| == i && forall k :: 0 <= k < i ==> rects[k] == Placement(k, sizes[k], cols, cell)
    {
      var col := i % cols;
      var row := i / cols;
      var sz := sizes[i];
      var dz := sz;
      if sz.x > sz.y {
        dz := Point(cell, GoDiv(cell * sz.y, sz.x));
      } else {
        dz := Point(GoDiv(cell * sz.x, sz.y), cell);
      }
      var z := Point(cell * col, cell * row);
      var r := Rectangle(z, z.Add(dz));
      r := r.Add(Point(GoDiv(cell, 2), GoDiv(cell, 2))).Sub(Point(GoDiv(dz.x, 2), GoDiv(dz.y, 2)));
      rects := rects + [r];
    }
  }
}
