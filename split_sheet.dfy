/** split-sheet.go: cuts one PNG image per frame tag out of a sprite sheet,
    using the frame rectangles of its JSON atlas. Decoding, drawing and
    encoding are outside the model: each output image is the job of
    copying one rectangle of the sheet into a file. */
module SplitSheet {

  import opened Base
  import opened Geometry
  import opened FilePath

  /** The default of the `-transparent` flag. */
  const DefaultTransparent: bool := true

  /** An atlas frame: the rectangle X, Y, W, H of the sheet. */
  datatype Frame = Frame(x: int, y: int, w: int, h: int)

  /** A frame tag: a name and the index of its first frame. */
  datatype FrameTag = FrameTag(name: string, from: int)

  datatype Atlas = Atlas(frames: seq<Frame>, frameTags: seq<FrameTag>)

  /** One output image: its file, its bounds, the sheet point copied to its
      origin, and whether it is filled with white first. */
  datatype Job = Job(outName: string, target: Rectangle, source: Point, whiteFill: bool)

  /** The file written for a tag: `gopher-<name>.png` in the output folder. */
  function OutName(dir: string, name: string): (r: string)
    ensures Ext(r) == ".png"
    ensures HasSuffix(r, "gopher-" + name + ".png")
  {
    var file := "gopher-" + name + ".png";
    var r := Join(dir, file);
    assert IsExt(".png");
    assert r == (if dir == "" then "" else dir + [Separator]) + ("gopher-" + name) + ".png";
    ExtOfExtSuffix((if dir == "" then "" else dir + [Separator]) + ("gopher-" + name), ".png");
    r
  }

  /** The job for a tag whose first frame is f. */
  function JobFor(dir: string, transparent: bool, tag: FrameTag, f: Frame): (j: Job)
    ensures j.target.WellFormed()
    ensures f.w >= 0 && f.h >= 0 ==> j.target == Rectangle(Origin(), Point(f.w, f.h))
    ensures j.source == Point(f.x, f.y)
    ensures j.whiteFill <==> !transparent
    ensures Ext(j.outName) == ".png"
  {
    Job(OutName(dir, tag.name), Rect(0, 0, f.w, f.h), Point(f.x, f.y), !transparent)
  }

  /** The jobs so far, and whether the program has exited on a tag whose
      frame index is out of range. */
  datatype Split = Split(jobs: seq<Job>, failed: bool)

  predicate InRange(frames: seq<Frame>, tag: FrameTag) {
    0 <= tag.from < |frames|
  }

  function TagStep(dir: string, transparent: bool, frames: seq<Frame>, s: Split, tag: FrameTag): Split {
    if s.failed then s
    else if !InRange(frames, tag) then s.(failed := true)
    else s.(jobs := s.jobs + [JobFor(dir, transparent, tag, frames[tag.from])])
  }

  /** The loop over the frame tags, in order. */
  function SplitTags(dir: string, transparent: bool, frames: seq<Frame>, tags: seq<FrameTag>): Split {
    if tags == [] then Split([], false)
    else TagStep(dir, transparent, frames, SplitTags(dir, transparent, frames, tags[..|tags| - 1]), tags[|tags| - 1])
  }

  /** Job k is the job of tag k and its first frame, so each job comes
      from a tag in range, in tag order. */
  lemma {:induction false} SplitTagsJobs(dir: string, transparent: bool, frames: seq<Frame>,
                                          tags: seq<FrameTag>, k: nat)
    ensures var s := SplitTags(dir, transparent, frames, tags);
      |s.jobs| <= |tags| &&
      (k < |s.jobs| ==>
        InRange(frames, tags[k]) && s.jobs[k] == JobFor(dir, transparent, tags[k], frames[tags[k].from]))
    decreases |tags|
  {
    if tags != [] {
      var n := |tags| - 1;
      var init := tags[..n];
      SplitTagsJobs(dir, transparent, frames, init, k);
      if k < |SplitTags(dir, transparent, frames, init).jobs| {
        assert tags[k] == init[k];
      } else {
        SplitTagsPrefix(dir, transparent, frames, init);
      }
    }
  }

  /** The jobs are those of a run of tags in range from the start: when the
      loop fails, it stops at the first tag out of range, and otherwise it
      has one job per tag. */
  lemma {:induction false} SplitTagsPrefix(dir: string, transparent: bool, frames: seq<Frame>,
                                            tags: seq<FrameTag>)
    ensures var s := SplitTags(dir, transparent, frames, tags);
      (forall i :: 0 <= i < |s.jobs| && i < |tags| ==> InRange(frames, tags[i])) &&
      (s.failed ==> |s.jobs| < |tags| && !InRange(frames, tags[|s.jobs|])) &&
      (!s.failed ==> |s.jobs| == |tags|)
    decreases |tags|
  {
    if tags != [] {
      var n := |tags| - 1;
      var init := tags[..n];
      SplitTagsPrefix(dir, transparent, frames, init);
      var a := SplitTags(dir, transparent, frames, init);
      var s := SplitTags(dir, transparent, frames, tags);
      assert s == TagStep(dir, transparent, frames, a, tags[n]);
      assert forall i :: 0 <= i < n ==> tags[i] == init[i];
      if a.failed {
        assert s == a && tags[|a.jobs|] == init[|a.jobs|];
      } else if !InRange(frames, tags[n]) {
        assert s.jobs == a.jobs && |a.jobs| == n;
      } else {
        assert s.jobs == a.jobs + [JobFor(dir, transparent, tags[n], frames[tags[n].from])];
      }
    }
  }

  /** The loop fails iff some tag's frame index is out of range. */
  lemma SplitTagsFails(dir: string, transparent: bool, frames: seq<Frame>, tags: seq<FrameTag>)
    ensures SplitTags(dir, transparent, frames, tags).failed <==>
      exists i :: 0 <= i < |tags| && !InRange(frames, tags[i])
  {
    SplitTagsPrefix(dir, transparent, frames, tags);
  }

  /** Once the loop has failed, later tags change nothing. */
  lemma {:induction false} SplitStays(dir: string, transparent: bool, frames: seq<Frame>,
                                       tags: seq<FrameTag>, i: nat)
    requires i <= |tags| && SplitTags(dir, transparent, frames, tags[..i]).failed
    ensures SplitTags(dir, transparent, frames, tags) == SplitTags(dir, transparent, frames, tags[..i])
    decreases |tags|
  {
    if i < |tags| {
      var init := tags[..|tags| - 1];
      assert init[..i] == tags[..i];
      SplitStays(dir, transparent, frames, init, i);
    } else {
      assert tags[..i] == tags;
    }
  }

  /** One more tag in range: its job is appended. */
  lemma SplitStep(dir: string, transparent: bool, frames: seq<Frame>, tags: seq<FrameTag>, i: nat,
                  jobs: seq<Job>)
    requires i < |tags| && InRange(frames, tags[i])
    requires SplitTags(dir, transparent, frames, tags[..i]) == Split(jobs, false)
    ensures SplitTags(dir, transparent, frames, tags[..i + 1]) ==
      Split(jobs + [JobFor(dir, transparent, tags[i], frames[tags[i].from])], false)
  {
    assert tags[..i + 1][..i] == tags[..i];
  }

  /** A tag out of range ends the loop: the jobs are those of the tags
      before it. */
  lemma SplitFails(dir: string, transparent: bool, frames: seq<Frame>, tags: seq<FrameTag>, i: nat,
                   jobs: seq<Job>)
    requires i < |tags| && !InRange(frames, tags[i])
    requires SplitTags(dir, transparent, frames, tags[..i]) == Split(jobs, false)
    ensures SplitTags(dir, transparent, frames, tags) == Split(jobs, true)
  {
    assert tags[..i + 1][..i] == tags[..i];
    assert SplitTags(dir, transparent, frames, tags[..i + 1]) == Split(jobs, true);
    SplitStays(dir, transparent, frames, tags, i + 1);
  }

  /** The body of `main`'s loop for a tag whose first frame is frame. */
  method MakeJob(dir: string, transparent: bool, frametag: FrameTag, frame: Frame) returns (job: Job)
    ensures job == JobFor(dir, transparent, frametag, frame)
  {
    var target := Rect(0, 0, frame.w, frame.h);
    var whiteFill := !transparent;
    var source := Point(frame.x, frame.y);
    var outname := Join(dir, "gopher-" + frametag.name + ".png");
    job := Job(outname, target, source, whiteFill);
  }

  /** The loop of `main` after the atlas is decoded. */
  method SplitAtlas(atlas: Atlas, dir: string, transparent: bool) returns (jobs: seq<Job>, failed: bool)
    ensures Split(jobs, failed) == SplitTags(dir, transparent, atlas.frames, atlas.frameTags)
  {
    var tags := atlas.frameTags;
    jobs, failed := [], false;
    var i := 0;
    while i < |tags|
      invariant 0 <= i <= |tags|
      invariant SplitTags(dir, transparent, atlas.frames, tags[..i]) == Split(jobs, false)
    {
      var frametag := tags[i];
      if frametag.from < 0 || frametag.from >= |atlas.frames| {
        failed := true;
        SplitFails(dir, transparent, atlas.frames, tags, i, jobs);
        return;
      }
      var job := MakeJob(dir, transparent, frametag, atlas.frames[frametag.from]);
      SplitStep(dir, transparent, atlas.frames, tags, i, jobs);
      jobs := jobs + [job];
      i := i + 1;
    }
    assert tags[..i] == tags;
  }
}
