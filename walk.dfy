/** `filepath.Walk` as the tools use it. The tree is the list of its entries
    in the order Walk reaches them: a directory before the entries below it,
    and each directory's entries in lexical order. Walk passes each entry to
    the walk function unless an earlier answer has cut it off: an error ends
    the walk, and `SkipDir` cuts off the subtree of a directory, or the rest
    of the directory that holds a file. */
module FileWalk {

  import opened FilePath

  /** An entry of the tree: the path Walk reports for it (its names below
      the root joined to the root), whether it is a directory, and whether
      Walk passes an error for it instead of file info. */
  datatype Visit = Visit(path: string, isDir: bool, failed: bool)

  /** What a walk function returns: nil, `filepath.SkipDir` or an error. */
  datatype Verdict = Continue | SkipDir | Fail

  /** The directory part of p: everything before its last separator, or
      "." when it has none (`filepath.Dir` without Clean). */
  function Dir(p: string): string {
    DirBefore(p, |p|)
  }

  function DirBefore(p: string, i: nat): string
    requires i <= |p|
  {
    if i == 0 then "."
    else if p[i - 1] == Separator then p[..i - 1]
    else DirBefore(p, i - 1)
  }

  /** A path with no separator is a name in ".". */
  lemma {:induction false} DirOfName(p: string, i: nat)
    requires i <= |p| && forall k :: 0 <= k < i ==> p[k] != Separator
    ensures DirBefore(p, i) == "."
  {
    if i > 0 {
      DirOfName(p, i - 1);
    }
  }

  /** p lies below the directory d. Every path of a walk from "." lies
      below ".". */
  predicate Below(p: string, d: string) {
    d == "." || HasPrefix(p, d + [Separator])
  }

  /** What a `SkipDir` answer for v cuts off: below v itself for a
      directory, below the directory holding v for a file. */
  function SkipScope(v: Visit): string {
    if v.isDir then v.path else Dir(v.path)
  }

  /** The walk so far: the indices of the entries passed to the walk
      function, the scopes cut off, and whether an error has ended it. */
  datatype Walked = Walked(calls: seq<nat>, skips: seq<string>, ended: bool)

  predicate Skipped(skips: seq<string>, p: string) {
    exists k :: 0 <= k < |skips| && Below(p, skips[k])
  }

  /** Walk reaching entry i, v, for which the walk function answers r. */
  function Step(w: Walked, i: nat, v: Visit, r: Verdict): Walked {
    if w.ended || Skipped(w.skips, v.path) then w
    else match r
      case Continue => w.(calls := w.calls + [i])
      case SkipDir => w.(calls := w.calls + [i], skips := w.skips + [SkipScope(v)])
      case Fail => w.(calls := w.calls + [i], ended := true)
  }

  /** The walk over the entries, with walk function fn. */
  function Calls(fn: Visit -> Verdict, visits: seq<Visit>): Walked {
    if visits == [] then Walked([], [], false)
    else
      var n := |visits| - 1;
      Step(Calls(fn, visits[..n]), n, visits[n], fn(visits[n]))
  }

  /** Some call among c before entry i returned an error. */
  ghost predicate FailedBefore(fn: Visit -> Verdict, visits: seq<Visit>, c: seq<nat>, i: int) {
    exists j :: 0 <= j < i && j < |visits| && j in c && fn(visits[j]) == Fail
  }

  /** Some call among c before entry i returned `SkipDir` for a scope
      that holds p. */
  ghost predicate CutOff(fn: Visit -> Verdict, visits: seq<Visit>, c: seq<nat>, i: int, p: string) {
    exists j :: 0 <= j < i && j < |visits| && j in c && fn(visits[j]) == SkipDir &&
      Below(p, SkipScope(visits[j]))
  }

  /** Entry i is open for the calls c: no earlier call returned an error,
      and none cut off a scope holding it. */
  ghost predicate Open(fn: Visit -> Verdict, visits: seq<Visit>, c: seq<nat>, i: nat)
    requires i < |visits|
  {
    !FailedBefore(fn, visits, c, i) && !CutOff(fn, visits, c, i, visits[i].path)
  }

  /** The calls are entries, in walk order, each at most once. */
  lemma {:induction false} CallsInOrder(fn: Visit -> Verdict, visits: seq<Visit>)
    ensures forall k :: 0 <= k < |Calls(fn, visits).calls| ==> Calls(fn, visits).calls[k] < |visits|
    ensures forall k, l :: 0 <= k < l < |Calls(fn, visits).calls| ==>
      Calls(fn, visits).calls[k] < Calls(fn, visits).calls[l]
    decreases |visits|
  {
    if visits != [] {
      var n := |visits| - 1;
      CallsInOrder(fn, visits[..n]);
      var a := Calls(fn, visits[..n]);
      var w := Calls(fn, visits);
      assert w == Step(a, n, visits[n], fn(visits[n]));
      assert |visits[..n]| == n;
      assert forall k :: 0 <= k < |a.calls| ==> a.calls[k] < n;
      if w.calls != a.calls {
        assert w.calls == a.calls + [n];
        assert forall k :: 0 <= k < |a.calls| ==> w.calls[k] == a.calls[k];
      }
    }
  }

  /** The walk has ended iff some call returned an error. */
  lemma {:induction false} CallsEnded(fn: Visit -> Verdict, visits: seq<Visit>)
    ensures var w := Calls(fn, visits);
      w.ended <==> FailedBefore(fn, visits, w.calls, |visits|)
    decreases |visits|
  {
    if visits != [] {
      var n := |visits| - 1;
      var init := visits[..n];
      CallsEnded(fn, init);
      CallsInOrder(fn, init);
      var a := Calls(fn, init);
      assert n !in a.calls;
      var w := Calls(fn, visits);
      assert w == Step(a, n, visits[n], fn(visits[n]));
      SameBefore(fn, init, visits, a.calls, n);
      CallsAppend(fn, visits, a.calls, w.calls, n);
    }
  }

  /** The scopes cut off are those of the calls that returned `SkipDir`. */
  lemma {:induction false} CallsSkips(fn: Visit -> Verdict, visits: seq<Visit>, p: string)
    ensures var w := Calls(fn, visits);
      Skipped(w.skips, p) <==> CutOff(fn, visits, w.calls, |visits|, p)
    decreases |visits|
  {
    if visits != [] {
      var n := |visits| - 1;
      var init := visits[..n];
      var v := visits[n];
      CallsSkips(fn, init, p);
      CallsInOrder(fn, init);
      var a := Calls(fn, init);
      assert n !in a.calls;
      var w := Calls(fn, visits);
      assert w == Step(a, n, v, fn(v));
      SameBefore(fn, init, visits, a.calls, n);
      CallsAppend(fn, visits, a.calls, w.calls, n);
      if !a.ended && !Skipped(a.skips, v.path) && fn(v) == SkipDir {
        SkippedAppend(a.skips, SkipScope(v), p);
      }
    }
  }

  lemma SkippedAppend(skips: seq<string>, d: string, p: string)
    ensures Skipped(skips + [d], p) <==> Skipped(skips, p) || Below(p, d)
  {
    var t := skips + [d];
    if Below(p, d) {
      assert t[|skips|] == d;
    }
    if Skipped(skips, p) {
      var k :| 0 <= k < |skips| && Below(p, skips[k]);
      assert t[k] == skips[k];
    }
  }

  /** The predicates up to entry i read the same on two entry lists that
      agree before i. */
  lemma SameBefore(fn: Visit -> Verdict, a: seq<Visit>, b: seq<Visit>, c: seq<nat>, i: nat)
    requires i <= |a| && i <= |b| && a[..i] == b[..i]
    ensures FailedBefore(fn, a, c, i) <==> FailedBefore(fn, b, c, i)
    ensures forall p :: CutOff(fn, a, c, i, p) <==> CutOff(fn, b, c, i, p)
  {
    assert forall j :: 0 <= j < i ==> a[j] == a[..i][j] == b[..i][j] == b[j];
  }

  /** One more entry n: the calls up to n are those of c, and b either is c
      or adds n. */
  lemma CallsAppend(fn: Visit -> Verdict, visits: seq<Visit>, c: seq<nat>, b: seq<nat>, n: nat)
    requires n < |visits| && (b == c || b == c + [n])
    ensures FailedBefore(fn, visits, b, n) <==> FailedBefore(fn, visits, c, n)
    ensures forall p :: CutOff(fn, visits, b, n, p) <==> CutOff(fn, visits, c, n, p)
    ensures FailedBefore(fn, visits, b, n + 1) <==>
      FailedBefore(fn, visits, c, n) || (n in b && fn(visits[n]) == Fail)
    ensures forall p :: CutOff(fn, visits, b, n + 1, p) <==>
      CutOff(fn, visits, c, n, p) || (n in b && fn(visits[n]) == SkipDir && Below(p, SkipScope(visits[n])))
  {
  }

  /** Walk calls the walk function exactly on the entries that are open:
      those that no earlier call's error or `SkipDir` has cut off. */
  lemma {:induction false} CallsOpen(fn: Visit -> Verdict, visits: seq<Visit>, i: nat)
    requires i < |visits|
    ensures var w := Calls(fn, visits);
      i in w.calls <==> Open(fn, visits, w.calls, i)
    decreases |visits|
  {
    var n := |visits| - 1;
    var init := visits[..n];
    var a := Calls(fn, init);
    var w := Calls(fn, visits);
    assert w == Step(a, n, visits[n], fn(visits[n]));
    CallsInOrder(fn, init);
    assert |init| == n;
    assert n !in a.calls;
    if i < n {
      CallsOpen(fn, init, i);
      assert init[i] == visits[i];
      SameBefore(fn, init, visits, a.calls, i);
      CallsAppend(fn, visits, a.calls, w.calls, n);
      SameBefore(fn, visits, visits, a.calls, i);
      AppendBefore(fn, visits, a.calls, w.calls, i, n);
    } else {
      CallsEnded(fn, init);
      CallsSkips(fn, init, visits[n].path);
      SameBefore(fn, init, visits, a.calls, n);
      CallsAppend(fn, visits, a.calls, w.calls, n);
    }
  }

  /** Before entry i < n, adding n to the calls changes nothing. */
  lemma AppendBefore(fn: Visit -> Verdict, visits: seq<Visit>, c: seq<nat>, b: seq<nat>, i: nat, n: nat)
    requires i < n < |visits| && (b == c || b == c + [n])
    ensures FailedBefore(fn, visits, b, i) <==> FailedBefore(fn, visits, c, i)
    ensures CutOff(fn, visits, b, i, visits[i].path) <==> CutOff(fn, visits, c, i, visits[i].path)
  {
  }

  /** One more entry of the walk. */
  lemma CallsNext(fn: Visit -> Verdict, visits: seq<Visit>, i: nat)
    requires i < |visits|
    ensures Calls(fn, visits[..i + 1]) == Step(Calls(fn, visits[..i]), i, visits[i], fn(visits[i]))
  {
    assert visits[..i + 1][..i] == visits[..i];
  }

  /** Walk reaching entry i, when it is cut off. */
  lemma CallsSkip(fn: Visit -> Verdict, visits: seq<Visit>, i: nat, calls: seq<nat>, skips: seq<string>)
    requires i < |visits| && Calls(fn, visits[..i]) == Walked(calls, skips, false)
    requires Skipped(skips, visits[i].path)
    ensures Calls(fn, visits[..i + 1]) == Walked(calls, skips, false)
  {
    CallsNext(fn, visits, i);
  }

  /** Walk reaching entry i, when it is not cut off: the walk function is
      called on it, and its answer decides the rest of the walk. */
  lemma CallsVisit(fn: Visit -> Verdict, visits: seq<Visit>, i: nat, calls: seq<nat>, skips: seq<string>)
    requires i < |visits| && Calls(fn, visits[..i]) == Walked(calls, skips, false)
    requires !Skipped(skips, visits[i].path)
    ensures Calls(fn, visits[..i + 1]) ==
      Walked(calls + [i],
             if fn(visits[i]) == SkipDir then skips + [SkipScope(visits[i])] else skips,
             fn(visits[i]) == Fail)
  {
    CallsNext(fn, visits, i);
  }

  /** Once the walk has ended, later entries change nothing. */
  lemma {:induction false} CallsStays(fn: Visit -> Verdict, visits: seq<Visit>, i: nat)
    requires i <= |visits| && Calls(fn, visits[..i]).ended
    ensures Calls(fn, visits) == Calls(fn, visits[..i])
    decreases |visits|
  {
    if i < |visits| {
      var init := visits[..|visits| - 1];
      assert init[..i] == visits[..i];
      CallsStays(fn, init, i);
    } else {
      assert visits[..i] == visits;
    }
  }

  /** After a `SkipDir` for v, no entry in v's scope is passed to the walk
      function. */
  lemma SkipCutsOff(fn: Visit -> Verdict, visits: seq<Visit>, i: nat, j: nat)
    requires i < j < |visits|
    requires i in Calls(fn, visits).calls && fn(visits[i]) == SkipDir
    requires Below(visits[j].path, SkipScope(visits[i]))
    ensures j !in Calls(fn, visits).calls
  {
    CallsOpen(fn, visits, j);
  }

  /** A `SkipDir` for a file that is a name in "." skips the rest of ".",
      so no later entry is passed to the walk function. */
  lemma SkipNameEndsWalk(fn: Visit -> Verdict, visits: seq<Visit>, i: nat, j: nat)
    requires i < j < |visits|
    requires i in Calls(fn, visits).calls && fn(visits[i]) == SkipDir && !visits[i].isDir
    requires forall k :: 0 <= k < |visits[i].path| ==> visits[i].path[k] != Separator
    ensures j !in Calls(fn, visits).calls
  {
    DirOfName(visits[i].path, |visits[i].path|);
    SkipCutsOff(fn, visits, i, j);
  }

  /** When the walk function lets every entry go on, Walk passes it every
      entry in order. */
  lemma {:induction false} ContinueAll(fn: Visit -> Verdict, visits: seq<Visit>)
    requires forall j :: 0 <= j < |visits| ==> fn(visits[j]) == Continue
    ensures Calls(fn, visits) == Walked(Indices(|visits|), [], false)
    decreases |visits|
  {
    if visits != [] {
      var n := |visits| - 1;
      assert forall j :: 0 <= j < n ==> visits[..n][j] == visits[j];
      ContinueAll(fn, visits[..n]);
    }
  }

  /** Two entries, the first let go on: both are passed to the walk
      function. */
  lemma CallsTwo(fn: Visit -> Verdict, visits: seq<Visit>)
    requires |visits| == 2 && fn(visits[0]) == Continue
    ensures Calls(fn, visits) == Step(Walked([0], [], false), 1, visits[1], fn(visits[1]))
    ensures Calls(fn, visits).calls == [0, 1]
  {
    assert visits[..1][..0] == [] && visits[..2] == visits;
    CallsNext(fn, visits, 0);
    var w1 := Walked([0], [], false);
    assert Calls(fn, visits[..1]) == w1;
    assert !Skipped(w1.skips, visits[1].path);
    CallsNext(fn, visits, 1);
  }

  /** 0, 1, ..., n - 1. */
  function Indices(n: nat): (r: seq<nat>)
    ensures |r| == n && forall k :: 0 <= k < n ==> r[k] == k
  {
    if n == 0 then [] else Indices(n - 1) + [n - 1]
  }

  /** After `SkipDir` for a directory, nothing below it is passed to the
      walk function. */
  lemma SkipDirNotEntered(fn: Visit -> Verdict, visits: seq<Visit>, i: nat, j: nat)
    requires i < j < |visits|
    requires i in Calls(fn, visits).calls && fn(visits[i]) == SkipDir && visits[i].isDir
    requires HasPrefix(visits[j].path, visits[i].path + [Separator])
    ensures j !in Calls(fn, visits).calls
  {
    SkipCutsOff(fn, visits, i, j);
  }

  /** After an error, no later entry is passed to the walk function. */
  lemma FailEnds(fn: Visit -> Verdict, visits: seq<Visit>, i: nat, j: nat)
    requires i < j < |visits|
    requires i in Calls(fn, visits).calls && fn(visits[i]) == Fail
    ensures j !in Calls(fn, visits).calls
  {
    CallsOpen(fn, visits, j);
  }
}
