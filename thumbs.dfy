/** thumbs.go: walks a directory and writes a JPEG thumbnail for every PNG
    and JPEG image, scaled so that its longer side is the cell size.
    Decoding, scaling and encoding are outside the model: a loaded image is
    its size and each thumbnail is the job of writing it. */
module ThumbsTool {

  import opened Base
  import opened Geometry
  import opened FilePath
  import opened FileWalk

  /** The defaults of the `-s` and `-o` flags. */
  const DefaultCellSize: int := 128
  const DefaultOutput: string := ".thumb"

  /** The name `savejpg` (ext ".jpg") or `savepng` (ext ".png") writes:
      path with its extension replaced by ext. */
  function SavePath(path: string, ext: string): (r: string)
    requires ext == ".jpg" || ext == ".png"
    ensures Ext(r) == ext && ReplaceExt(r, ext) == r
    ensures r == path[..|path| - |Ext(path)|] + ext
  {
    assert IsExt(ext);
    ReplaceExtRoundTrip(path, ext);
    ReplaceExt(path, ext)
  }

  /** A directory the walk does not enter: one whose path starts with `.`,
      other than `.` and `..`. */
  predicate Hidden(v: Visit) {
    v.isDir && HasPrefix(v.path, ".") && v.path != "." && v.path != ".."
  }

  /** A path the walk processes: no error, not a directory, a `.png` or
      `.jpg` extension and no `.sketch.` in it. */
  predicate Wanted(v: Visit) {
    !v.failed && !v.isDir && (Ext(v.path) == ".png" || Ext(v.path) == ".jpg") &&
    !Contains(v.path, ".sketch.")
  }

  /** The walk function of `main`. `load` gives the size of the image at a
      path, or None when opening or decoding fails. An error passed by Walk
      is returned, a hidden directory is answered with `SkipDir`, and a
      wanted path is processed, whose error is returned. */
  function Answer(load: string -> Option<Extent>, v: Visit): Verdict {
    if v.failed then Fail
    else if Hidden(v) then SkipDir
    else if !Wanted(v) then Continue
    else if load(v.path).None? then Fail
    else Continue
  }

  function Callback(load: string -> Option<Extent>): Visit -> Verdict {
    v => Answer(load, v)
  }

  /** One thumbnail to write: where, and at which size. */
  datatype Job = Job(out: string, size: Point)

  /** `process` for an image of size sz at path: the scaled size and the
      output name under the output folder. */
  function JobFor(output: string, cell: int, path: string, sz: Extent): (j: Job)
    ensures Ext(j.out) == ".jpg"
    ensures j.size == ScaleToSquare(sz, cell)
  {
    Job(SavePath(Join(output, path), ".jpg"), ScaleToSquare(sz, cell))
  }

  /** The entry i is processed and its image loads. */
  predicate Loads(load: string -> Option<Extent>, visits: seq<Visit>, i: nat) {
    i < |visits| && Wanted(visits[i]) && load(visits[i].path).Some?
  }

  /** The thumbnails written by the calls c, in order. */
  function JobsFrom(output: string, cell: int, load: string -> Option<Extent>,
                    visits: seq<Visit>, c: seq<nat>): seq<Job>
  {
    if c == [] then []
    else
      var i := c[|c| - 1];
      JobsFrom(output, cell, load, visits, c[..|c| - 1]) +
        (if Loads(load, visits, i) then [JobFor(output, cell, visits[i].path, load(visits[i].path).value)] else [])
  }

  /** The calls among c whose images load, in order. */
  function Loaded(load: string -> Option<Extent>, visits: seq<Visit>, c: seq<nat>): (r: seq<nat>)
    ensures forall i :: i in r <==> i in c && Loads(load, visits, i)
    ensures (forall k, l :: 0 <= k < l < |c| ==> c[k] < c[l]) ==>
      forall k, l :: 0 <= k < l < |r| ==> r[k] < r[l]
  {
    if c == [] then []
    else
      var i := c[|c| - 1];
      var init := c[..|c| - 1];
      assert c == init + [i];
      var r0 := Loaded(load, visits, init);
      assert forall k :: 0 <= k < |r0| ==> r0[k] in init;
      r0 + (if Loads(load, visits, i) then [i] else [])
  }

  /** The thumbnails so far, and whether the walk has ended on an error. */
  datatype Run = Run(jobs: seq<Job>, failed: bool)

  /** `filepath.Walk` over the entries with the walk function of `main`. */
  function Walk(output: string, cell: int, load: string -> Option<Extent>, visits: seq<Visit>): Run {
    var w := Calls(Callback(load), visits);
    Run(JobsFrom(output, cell, load, visits, w.calls), w.ended)
  }

  /** The thumbnails of the calls c are one per call whose image loads, in
      the order of the calls. */
  lemma {:induction false} JobsFromSpec(output: string, cell: int, load: string -> Option<Extent>,
                                         visits: seq<Visit>, c: seq<nat>)
    ensures var jobs := JobsFrom(output, cell, load, visits, c);
      var l := Loaded(load, visits, c);
      |jobs| == |l| &&
      forall k :: 0 <= k < |l| ==>
        Loads(load, visits, l[k]) && jobs[k] == JobFor(output, cell, visits[l[k]].path, load(visits[l[k]].path).value)
    decreases |c|
  {
    if c != [] {
      JobsFromSpec(output, cell, load, visits, c[..|c| - 1]);
    }
  }

  /** The walk writes one thumbnail per entry it passes to the walk function
      that is a wanted image and loads, in walk order, and each is a `.jpg`
      whose size is the image scaled to the cell. */
  lemma WalkJobs(output: string, cell: int, load: string -> Option<Extent>, visits: seq<Visit>)
    ensures var c := Calls(Callback(load), visits).calls;
      var l := Loaded(load, visits, c);
      var jobs := Walk(output, cell, load, visits).jobs;
      (forall i :: i in l <==> i in c && Loads(load, visits, i)) &&
      (forall k, m :: 0 <= k < m < |l| ==> l[k] < l[m]) &&
      |jobs| == |l| &&
      forall k :: 0 <= k < |l| ==>
        Loads(load, visits, l[k]) && jobs[k] == JobFor(output, cell, visits[l[k]].path, load(visits[l[k]].path).value)
  {
    var c := Calls(Callback(load), visits).calls;
    CallsInOrder(Callback(load), visits);
    JobsFromSpec(output, cell, load, visits, c);
  }

  /** The walk ends on an error iff some entry passed to the walk function
      carries an error from Walk, or is a wanted image that fails to load. */
  lemma WalkFails(output: string, cell: int, load: string -> Option<Extent>, visits: seq<Visit>)
    ensures var c := Calls(Callback(load), visits).calls;
      Walk(output, cell, load, visits).failed <==>
        exists i :: 0 <= i < |visits| && i in c &&
          (visits[i].failed || (Wanted(visits[i]) && load(visits[i].path).None?))
  {
    var fn := Callback(load);
    CallsEnded(fn, visits);
    assert forall i :: 0 <= i < |visits| ==>
      (fn(visits[i]) == Fail <==> visits[i].failed || (Wanted(visits[i]) && load(visits[i].path).None?));
  }

  /** Nothing below a hidden directory is passed to the walk function, so
      no thumbnail is written for it. */
  lemma HiddenNotEntered(load: string -> Option<Extent>, visits: seq<Visit>, i: nat, j: nat)
    requires i < j < |visits| && i in Calls(Callback(load), visits).calls
    requires Hidden(visits[i]) && !visits[i].failed
    requires HasPrefix(visits[j].path, visits[i].path + [Separator])
    ensures j !in Calls(Callback(load), visits).calls
    ensures j !in Loaded(load, visits, Calls(Callback(load), visits).calls)
  {
    var fn := Callback(load);
    assert fn(visits[i]) == SkipDir;
    SkipDirNotEntered(fn, visits, i, j);
  }

  /** A thumbnail keeps the aspect ratio: its longer side is the cell and
      neither side exceeds it. */
  lemma JobSize(output: string, cell: nat, path: string, sz: Extent)
    ensures var d := JobFor(output, cell, path, sz).size;
      0 <= d.x <= cell && 0 <= d.y <= cell && (d.x == cell || d.y == cell)
  {
  }

  /** `process` for a wanted path: the thumbnail for the image, or None when
      it fails to load. */
  method Process(output: string, cell: int, load: string -> Option<Extent>, path: string)
    returns (job: Option<Job>)
    ensures job.None? <==> load(path).None?
    ensures job.Some? ==> job.value == JobFor(output, cell, path, load(path).value)
  {
    var m := load(path);
    if m.None? {
      return None;
    }
    var size := m.value;
    var dz: Point;
    if size.x > size.y {
      dz := Point(cell, GoDiv(size.y * cell, size.x));
    } else {
      dz := Point(GoDiv(size.x * cell, size.y), cell);
    }
    assert dz == ScaleToSquare(size, cell);
    return Some(Job(SavePath(Join(output, path), ".jpg"), dz));
  }

  /** The walk of `main`: `filepath.Walk` passing the entries it does not cut
      off to the walk function, which processes each wanted path as Walk
      reports it. */
  method WalkThumbs(output: string, cell: int, load: string -> Option<Extent>, visits: seq<Visit>)
    returns (jobs: seq<Job>, failed: bool)
    ensures Run(jobs, failed) == Walk(output, cell, load, visits)
  {
    ghost var fn := Callback(load);
    jobs, failed := [], false;
    var skips: seq<string> := [];
    ghost var calls: seq<nat> := [];
    var i := 0;
    while i < |visits|
      invariant 0 <= i <= |visits|
      invariant Calls(fn, visits[..i]) == Walked(calls, skips, false)
      invariant jobs == JobsFrom(output, cell, load, visits, calls)
    {
      var v := visits[i];
      if Skipped(skips, v.path) {
        CallsSkip(fn, visits, i, calls, skips);
      } else {
        CallsVisit(fn, visits, i, calls, skips);
        JobsFromNext(output, cell, load, visits, calls, i);
        calls := calls + [i];
        assert fn(v) == Answer(load, v);
        if v.failed {
          failed := true;
          CallsStays(fn, visits, i + 1);
          return;
        } else if Hidden(v) {
          skips := skips + [SkipScope(v)];
        } else if Wanted(v) {
          var job := Process(output, cell, load, v.path);
          if job.None? {
            failed := true;
            CallsStays(fn, visits, i + 1);
            return;
          }
          jobs := jobs + [job.value];
        }
      }
      i := i + 1;
    }
    assert visits[..i] == visits;
  }

  /** One more call: its thumbnail is added when its image loads. */
  lemma JobsFromNext(output: string, cell: int, load: string -> Option<Extent>,
                     visits: seq<Visit>, c: seq<nat>, i: nat)
    ensures JobsFrom(output, cell, load, visits, c + [i]) ==
      JobsFrom(output, cell, load, visits, c) +
        (if Loads(load, visits, i) then [JobFor(output, cell, visits[i].path, load(visits[i].path).value)] else [])
  {
    assert (c + [i])[..|c|] == c;
  }

  /** The walk as written: `process` opens `Join(dir, path)`, but the path
      Walk reports already starts with dir. */
  function WalkAsWritten(dir: string, output: string, cell: int, load: string -> Option<Extent>,
                         visits: seq<Visit>): Run
  {
    Walk(output, cell, OpenAsWritten(dir, load), visits)
  }

  /** What `process` gets for a reported path, as written. */
  function OpenAsWritten(dir: string, load: string -> Option<Extent>): string -> Option<Extent> {
    p => load(Join(dir, p))
  }

  /** Walking "gophers" that holds one 256x128 image: as written the image
      fails to open and the walk ends on an error with no thumbnail; the
      walk that opens the reported path writes its 128x64 thumbnail under
      the output folder. */
  lemma WalkAsWrittenFails()
    ensures var visits := [Visit("gophers", true, false), Visit("gophers/a.png", false, false)];
      WalkAsWritten("gophers", DefaultOutput, DefaultCellSize, SampleImage, visits) == Run([], true) &&
      var w := Walk(DefaultOutput, DefaultCellSize, SampleImage, visits);
      !w.failed && |w.jobs| == 1 && w.jobs[0].size == Point(128, 64) &&
      w.jobs[0].out == SavePath(Join(DefaultOutput, "gophers/a.png"), ".jpg")
  {
    var visits := [Visit("gophers", true, false), Visit("gophers/a.png", false, false)];
    SampleWanted();
    SampleDir();
    var asWritten := OpenAsWritten("gophers", SampleImage);
    assert asWritten("gophers/a.png") == None by {
      var joined := Join("gophers", "gophers/a.png");
      assert |joined| == 21;
      assert SampleImage(joined) == None;
    }
    WalkTwo(DefaultOutput, DefaultCellSize, asWritten, visits);
    WalkTwo(DefaultOutput, DefaultCellSize, SampleImage, visits);
    assert ScaleToSquare(Point(256, 128), DefaultCellSize) == Point(128, 64);
  }

  /** The walk over a directory that is not hidden and one wanted path
      below it: both are passed to the walk function, and the walk writes
      the thumbnail of the path if it loads and ends on an error if not. */
  lemma WalkTwo(output: string, cell: int, load: string -> Option<Extent>, visits: seq<Visit>)
    requires |visits| == 2 && visits[0].isDir && !visits[0].failed && !Hidden(visits[0])
    requires Wanted(visits[1])
    ensures Calls(Callback(load), visits).calls == [0, 1]
    ensures Walk(output, cell, load, visits) ==
      match load(visits[1].path)
        case None => Run([], true)
        case Some(sz) => Run([JobFor(output, cell, visits[1].path, sz)], false)
  {
    var fn := Callback(load);
    assert fn(visits[0]) == Continue;
    CallsTwo(fn, visits);
    var c: seq<nat> := [0, 1];
    assert c[..1] == [0] && c[..1][..0] == [];
    assert JobsFrom(output, cell, load, visits, c[..1]) == [];
  }

  lemma SampleDir()
    ensures !Hidden(Visit("gophers", true, false))
  {
    assert "gophers"[0] != '.';
  }

  lemma SampleWanted()
    ensures Wanted(Visit("gophers/a.png", false, false))
  {
    assert IsExt(".png");
    ExtOfExtSuffix("gophers/a", ".png");
    assert "gophers/a" + ".png" == "gophers/a.png";
    NoSketch();
  }

  /** A directory "gophers" holding one 256x128 image. */
  function SampleImage(p: string): Option<Extent> {
    var size: Extent := Point(256, 128);
    if p == "gophers/a.png" then Some(size) else None
  }

  lemma NoSketch()
    ensures !Contains("gophers/a.png", ".sketch.")
  {
    var s := "gophers/a.png";
    forall i | 0 <= i <= |s| - 8
      ensures !OccursAt(s, ".sketch.", i)
    {
      assert s[i..i + 8][0] == s[i] && s[i] != '.';
    }
  }
}
