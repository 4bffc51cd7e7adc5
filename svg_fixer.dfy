/** `ProcessSVG` of fix-svg-style.go as the Go code runs it: the state its
    closures share (the arena, `getElementByID`, `resolveColorCache` and
    `changed`) is the state of an object, and each closure and loop is a
    method proved to compute what the functions of the pass describe. */
module SvgFix {
  import opened Base
  import opened SvgTree
  import opened SvgPatterns
  import opened SvgResolve
  import opened SvgProcess
  import opened SvgWalk
  import opened SvgPrune

  /** Prepend for the result of the sweep's collection loop. */
  function PrependDead(t: seq<nat>, r: Result<(seq<nat>, Pass), SvgError>): Result<(seq<nat>, Pass), SvgError> {
    match r
    case Ok(x) => Ok((t + x.0, x.1))
    case Err(e) => Err(e)
  }

  lemma PrependDeadTwice(a: seq<nat>, b: seq<nat>, r: Result<(seq<nat>, Pass), SvgError>)
    ensures PrependDead(a, PrependDead(b, r)) == PrependDead(a + b, r)
  {
    if r.Ok? {
      assert a + (b + r.value.0) == (a + b) + r.value.0;
    }
  }

  /** Removing first x and then y is removing x + y. */
  lemma {:induction false} WithoutTwice(cs: seq<nat>, x: seq<nat>, y: seq<nat>)
    ensures Without(Without(cs, x), y) == Without(cs, x + y)
    decreases |cs|
  {
    if cs != [] {
      WithoutTwice(cs[1..], x, y);
      var w := Without(cs[1..], x);
      if cs[0] !in x {
        assert Without(cs, x) == [cs[0]] + w;
        assert ([cs[0]] + w)[1..] == w;
      } else {
        assert Without(cs, x) == w;
      }
    }
  }

  /** One turn of the loop over the children of h. */
  lemma ChildStep(p: Pass, h: nat, i: nat)
    requires ValidPass(p) && h < |p.nodes| && i < |p.nodes[h].children|
    ensures var r := ProcessNode(p, p.nodes[h].children[i]);
      (r.Err? ==> ProcessChildren(p, h, i) == Err(r.error)) &&
      (r.Ok? ==> ValidPass(r.value) && |r.value.nodes| == |p.nodes| &&
                 r.value.nodes[h].children == p.nodes[h].children &&
                 ProcessChildren(p, h, i) == ProcessChildren(r.value, h, i + 1))
  {
    var r := ProcessNode(p, p.nodes[h].children[i]);
    if r.Ok? {
      StylesOnlyNode(p.nodes, r.value.nodes, h);
    }
  }

  /** One turn of the loop over the roots. */
  lemma RootStep(p: Pass, roots: seq<nat>, i: nat)
    requires ValidPass(p) && i < |roots| && forall k :: 0 <= k < |roots| ==> roots[k] < |p.nodes|
    ensures var r := ProcessNode(p, roots[i]);
      (r.Err? ==> ProcessRoots(p, roots, i) == Err(r.error)) &&
      (r.Ok? ==> ValidPass(r.value) && |r.value.nodes| == |p.nodes| &&
                 ProcessRoots(p, roots, i) == ProcessRoots(r.value, roots, i + 1))
  {
  }

  lemma PrependEmpty(r: Result<(string, Pass), SvgError>)
    ensures Prepend("", r) == r
  {
    if r.Ok? {
      assert "" + r.value.0 == r.value.0;
    }
  }

  lemma PrependDeadEmpty(r: Result<(seq<nat>, Pass), SvgError>)
    ensures PrependDead([], r) == r
  {
    if r.Ok? {
      assert [] + r.value.0 == r.value.0;
    }
  }

  /** The arena with the child list of d replaced. */
  function WithChildren(nodes: seq<Node>, d: nat, cs: seq<nat>): seq<Node>
    requires d < |nodes|
  {
    nodes[d := nodes[d].(children := cs)]
  }

  lemma WithChildrenSame(nodes: seq<Node>, d: nat)
    requires d < |nodes|
    ensures WithChildren(nodes, d, nodes[d].children) == nodes
  {
  }

  lemma WithChildrenTwice(nodes: seq<Node>, d: nat, a: seq<nat>, b: seq<nat>)
    requires d < |nodes|
    ensures WithChildren(WithChildren(nodes, d, a), d, b) == WithChildren(nodes, d, b)
  {
  }

  /** One turn of the removal loop: removing x after the children in done
      leaves what removing done + [x] does. */
  lemma RemoveOne(nodes: seq<Node>, d: nat, cs: seq<nat>, done: seq<nat>, x: nat)
    requires d < |nodes|
    ensures var kids := Without(cs, done);
      Without(kids, [x]) == Without(cs, done + [x]) &&
      WithChildren(WithChildren(nodes, d, kids), d, Without(kids, [x])) == WithChildren(nodes, d, Without(cs, done + [x]))
  {
    WithoutTwice(cs, done, [x]);
    WithChildrenTwice(nodes, d, Without(cs, done), Without(Without(cs, done), [x]));
  }

  class SvgFixer {
    var nodes: seq<Node>
    var byId: map<string, nat>
    var cache: map<string, string>
    var changed: bool

    /** The fields as a pass state. */
    function State(): Pass
      reads this
    {
      Pass(nodes, byId, cache, changed)
    }

    ghost predicate Valid()
      reads this
    {
      ValidPass(State())
    }

    /** A fresh call: empty index, empty cache, nothing changed. */
    constructor(doc: seq<Node>)
      requires ValidArena(doc)
      ensures State() == Pass(doc, map[], map[], false) && Valid()
    {
      nodes := doc;
      byId := map[];
      cache := map[];
      changed := false;
    }

    /** The `for {}` loop of lines 86-92 with its cycle made explicit. */
    method FollowHref(id: string, start: nat) returns (r: Result<nat, SvgError>)
      requires Valid() && start < |nodes|
      ensures r == FollowChain(nodes, byId, id, start, {start})
    {
      var node := start;
      var visited: set<nat> := {start};
      while true
        invariant node < |nodes| && node in visited && visited <= Handles(nodes)
        invariant FollowChain(nodes, byId, id, node, visited) == FollowChain(nodes, byId, id, start, {start})
        decreases Handles(nodes) - visited
      {
        var xlink := GetAttributeValue(nodes[node], "href");
        if xlink == "" {
          return Ok(node);
        }
        var key := xlink[1..];
        if key !in byId {
          return Err(UnknownId(key));
        }
        var next := byId[key];
        if next in visited {
          return Err(CyclicHref(id));
        }
        node := next;
        visited := visited + {next};
      }
    }

    /** The body of `resolveColor(id)` after the cache lookup (lines 85-107),
        reporting the paint it finds. */
    method FreshPaint(id: string) returns (r: Result<Paint, SvgError>)
      requires Valid()
      ensures r == ResolveFresh(nodes, byId, id)
    {
      if id !in byId {
        return Err(UnknownId(id));
      }
      var t := FollowHref(id, byId[id]);
      if t.Err? {
        return Err(t.error);
      }
      var stops := GetElementsByTagName(nodes, t.value, "stop");
      if |stops| == 0 {
        return Ok(Transparent);
      }
      if |stops| >= 2 {
        return Ok(KeepGradient);
      }
      var style := GetAttributeValue(nodes[stops[0]], "style");
      var m := StopColor(style);
      if m.None? {
        return Err(MissingStopColor(id));
      }
      return Ok(Flat(m.value));
    }

    /** `resolveColor(id)` (lines 80-108). */
    method ResolveColor(id: string) returns (r: Result<string, SvgError>)
      requires Valid()
      modifies this
      ensures var spec := ResolveCached(old(State()), id);
        (spec.Ok? ==> r == Ok(spec.value.text) && State() == spec.value.pass) &&
        (spec.Err? ==> r == Err(spec.error) && State() == old(State()))
      ensures Valid()
    {
      if id in cache {
        return Ok(cache[id]);
      }
      var paint := FreshPaint(id);
      if paint.Err? {
        return Err(paint.error);
      }
      if paint.value.Flat? {
        cache := cache[id := paint.value.color];
      }
      return Ok(PaintText(paint.value, id));
    }

    /** The closure of lines 124-131 (or 133-140) on the reference that
        starts at i and ends at e. */
    method ReplaceMatch(prefix: string, s: string, i: nat, e: nat) returns (r: Result<string, SvgError>)
      requires Valid() && i < |s| && UrlRefAt(s, i, prefix) == Some(e)
      modifies this
      ensures r.Ok? ==> (Valid() &&
        RewriteRefsFrom(old(State()), prefix, s, i) == Prepend(r.value, RewriteRefsFrom(State(), prefix, s, e + 1)))
      ensures r.Err? ==> RewriteRefsFrom(old(State()), prefix, s, i) == Err(r.error)
    {
      ghost var q0 := State();
      var res := ResolveColor(s[i + |UrlHead(prefix)|..e]);
      if res.Err? {
        RewriteFailStep(q0, prefix, s, i, e, res.error);
        return Err(res.error);
      }
      var repl := prefix + res.value;
      RewriteMatchStep(q0, prefix, s, i, e, res.value, State());
      changed := changed || repl != s[i..e + 1];
      return Ok(repl);
    }

    /** One step of the scan at position i: copy a character that starts
        no reference, or replace the reference that starts there. */
    method ReplaceStep(prefix: string, s: string, i: nat) returns (r: Result<(string, nat), SvgError>)
      requires Valid() && i < |s|
      modifies this
      ensures r.Ok? ==> (i < r.value.1 <= |s| && Valid() &&
        RewriteRefsFrom(old(State()), prefix, s, i) == Prepend(r.value.0, RewriteRefsFrom(State(), prefix, s, r.value.1)))
      ensures r.Err? ==> RewriteRefsFrom(old(State()), prefix, s, i) == Err(r.error)
    {
      var m := UrlRefAt(s, i, prefix);
      if m.None? {
        RewriteCopyStep(State(), prefix, s, i);
        return Ok(([s[i]], i + 1));
      }
      var repl := ReplaceMatch(prefix, s, i, m.value);
      if repl.Err? {
        return Err(repl.error);
      }
      return Ok((repl.value, m.value + 1));
    }

    /** `ReplaceAllStringFunc` with the fill or stroke pattern and the
        closure of lines 124-131 or 133-140. */
    method ReplaceRefs(prefix: string, s: string) returns (r: Result<string, SvgError>)
      requires Valid()
      modifies this
      ensures var spec := RewriteRefs(old(State()), prefix, s);
        (spec.Ok? ==> r == Ok(spec.value.0) && State() == spec.value.1) &&
        (spec.Err? ==> r == Err(spec.error))
    {
      var out := "";
      var i := 0;
      PrependEmpty(RewriteRefs(State(), prefix, s));
      while i < |s|
        invariant i <= |s| && Valid()
        invariant Prepend(out, RewriteRefsFrom(State(), prefix, s, i)) == RewriteRefs(old(State()), prefix, s)
        decreases |s| - i
      {
        ghost var before := State();
        var step := ReplaceStep(prefix, s, i);
        if step.Err? {
          return Err(step.error);
        }
        PrependTwice(out, step.value.0, RewriteRefsFrom(State(), prefix, s, step.value.1));
        out := out + step.value.0;
        i := step.value.1;
      }
      assert out + "" == out;
      return Ok(out);
    }

    /** `style.Val = v`. */
    method SetStyle(h: nat, k: nat, v: string)
      requires Valid() && h < |nodes| && k < |nodes[h].attrs| && nodes[h].attrs[k].key == "style"
      modifies this
      ensures State() == SetAttrVal(old(State()), h, k, v) && Valid()
    {
      SetStyleKeeps(State(), h, k, v);
      var n := nodes[h];
      nodes := nodes[h := n.(attrs := n.attrs[k := Attribute(n.attrs[k].key, v)])];
    }

    /** Lines 122-141 for node h. */
    method RewriteNodeStyle(h: nat) returns (err: Option<SvgError>)
      requires Valid() && h < |nodes|
      modifies this
      ensures var spec := RewriteStyle(old(State()), h);
        (spec.Ok? ==> err.None? && State() == spec.value) &&
        (spec.Err? ==> err == Some(spec.error))
    {
      var k := GetAttribute(nodes[h], "style");
      if k.None? {
        return None;
      }
      var v := RemoveVisibility(nodes[h].attrs[k.value].val);
      SetStyle(h, k.value, v);
      var fill := ReplaceRefs("fill:", v);
      if fill.Err? {
        return Some(fill.error);
      }
      SetStyle(h, k.value, fill.value);
      var stroke := ReplaceRefs("stroke:", fill.value);
      if stroke.Err? {
        return Some(stroke.error);
      }
      SetStyle(h, k.value, stroke.value);
      return None;
    }

    /** `process(node)` (lines 110-142). */
    method Process(h: nat) returns (err: Option<SvgError>)
      requires Valid() && h < |nodes|
      modifies this
      ensures var spec := ProcessNode(old(State()), h);
        (spec.Ok? ==> err.None? && State() == spec.value) &&
        (spec.Err? ==> err == Some(spec.error))
      decreases |nodes| - h, 1
    {
      var id := GetAttributeValue(nodes[h], "id");
      if id != "" {
        byId := byId[id := h];
      }
      assert State() == old(State()).(byId := IndexNode(old(nodes), old(byId), h));
      err := ProcessChildNodes(h);
      if err.None? {
        err := RewriteNodeStyle(h);
      }
    }

    /** The loop over the children of h (lines 118-120). */
    method ProcessChildNodes(h: nat) returns (err: Option<SvgError>)
      requires Valid() && h < |nodes|
      modifies this
      ensures var spec := ProcessChildren(old(State()), h, 0);
        (spec.Ok? ==> err.None? && State() == spec.value) &&
        (spec.Err? ==> err == Some(spec.error))
      decreases |nodes| - h, 0
    {
      var cs := nodes[h].children;
      var i := 0;
      err := None;
      ghost var cur := State();
      while i < |cs|
        invariant i <= |cs| && cur == State() && ValidPass(cur) && |cur.nodes| == |old(nodes)|
        invariant cur.nodes[h].children == cs && err.None?
        invariant ProcessChildren(old(State()), h, 0) == ProcessChildren(cur, h, i)
      {
        assert h < cs[i];
        err := Process(cs[i]);
        ChildStep(cur, h, i);
        if err.Some? {
          return;
        }
        cur := State();
        i := i + 1;
      }
    }

    /** The loop of lines 153-161 over the children of d: `toRemove`. */
    method CollectRemovals(d: nat) returns (r: Result<seq<nat>, SvgError>)
      requires Valid() && d < |nodes|
      modifies this
      ensures r.Ok? ==> CollectDead(old(State()), old(nodes)[d].children, 0) == Ok((r.value, State()))
      ensures r.Err? ==> CollectDead(old(State()), old(nodes)[d].children, 0) == Err(r.error)
    {
      var cs := nodes[d].children;
      var toRemove: seq<nat> := [];
      var i := 0;
      PrependDeadEmpty(CollectDead(State(), cs, 0));
      while i < |cs|
        invariant i <= |cs| && Valid()
        invariant nodes == old(nodes) && byId == old(byId) && changed == old(changed)
        invariant CollectDead(old(State()), cs, 0) == PrependDead(toRemove, CollectDead(State(), cs, i))
      {
        var c := cs[i];
        if nodes[c].data == "linearGradient" {
          var id := GetAttributeValue(nodes[c], "id");
          ghost var q0 := State();
          var res := ResolveColor(id);
          if res.Err? {
            return Err(res.error);
          }
          var dead := if SelfRef(id) != res.value then [c] else [];
          assert CollectDead(q0, cs, i) == PrependDead(dead, CollectDead(State(), cs, i + 1));
          PrependDeadTwice(toRemove, dead, CollectDead(State(), cs, i + 1));
          toRemove := toRemove + dead;
        }
        i := i + 1;
      }
      assert toRemove + [] == toRemove;
      return Ok(toRemove);
    }

    /** The loop of lines 163-166: remove each collected child of d. */
    method RemoveChildren(d: nat, toRemove: seq<nat>)
      requires d < |nodes|
      modifies this
      ensures nodes == WithChildren(old(nodes), d, Without(old(nodes)[d].children, toRemove))
      ensures byId == old(byId) && cache == old(cache) && changed == (old(changed) || |toRemove| > 0)
    {
      var cs := nodes[d].children;
      var kids := cs;
      WithoutNothing(cs);
      assert toRemove[..0] == [];
      WithChildrenSame(nodes, d);
      var j := 0;
      while j < |toRemove|
        invariant j <= |toRemove| && kids == Without(cs, toRemove[..j])
        invariant nodes == WithChildren(old(nodes), d, kids)
        invariant byId == old(byId) && cache == old(cache)
        invariant changed == (old(changed) || j > 0)
      {
        changed := true;
        RemoveOne(old(nodes), d, cs, toRemove[..j], toRemove[j]);
        assert toRemove[..j] + [toRemove[j]] == toRemove[..j + 1];
        kids := Without(kids, [toRemove[j]]);
        nodes := WithChildren(nodes, d, kids);
        j := j + 1;
      }
      assert toRemove[..|toRemove|] == toRemove;
    }

    /** Lines 152-166 for one defs element d: collect, then remove. */
    method SweepDefs(d: nat) returns (err: Option<SvgError>)
      requires Valid() && d < |nodes|
      modifies this
      ensures var spec := PruneDefs(old(State()), d);
        (spec.Ok? ==> err.None? && State() == spec.value) &&
        (spec.Err? ==> err == Some(spec.error))
    {
      var collected := CollectRemovals(d);
      if collected.Err? {
        return Some(collected.error);
      }
      RemoveChildren(d, collected.value);
      return None;
    }

    /** Lines 144-146: process every root in order. */
    method ProcessAll(roots: seq<nat>) returns (err: Option<SvgError>)
      requires Valid() && forall k :: 0 <= k < |roots| ==> roots[k] < |nodes|
      modifies this
      ensures var spec := ProcessRoots(old(State()), roots, 0);
        (spec.Ok? ==> err.None? && State() == spec.value) &&
        (spec.Err? ==> err == Some(spec.error))
    {
      var i := 0;
      err := None;
      ghost var cur := State();
      while i < |roots|
        invariant i <= |roots| && ValidPass(cur) && cur == State() && |cur.nodes| == |old(nodes)| && err.None?
        invariant ProcessRoots(old(State()), roots, 0) == ProcessRoots(cur, roots, i)
      {
        err := Process(roots[i]);
        RootStep(cur, roots, i);
        if err.Some? {
          return;
        }
        cur := State();
        i := i + 1;
      }
    }

    /** Lines 149-168. */
    method Sweep(roots: seq<nat>) returns (err: Option<SvgError>)
      requires Valid() && forall k :: 0 <= k < |roots| ==> roots[k] < |nodes|
      modifies this
      ensures var spec := PruneRoots(old(State()), roots, 0);
        (spec.Ok? ==> err.None? && State() == spec.value) &&
        (spec.Err? ==> err == Some(spec.error))
    {
      var i := 0;
      while i < |roots|
        invariant i <= |roots| && Valid() && |nodes| == |old(nodes)|
        invariant PruneRoots(old(State()), roots, 0) == PruneRoots(State(), roots, i)
      {
        var defss := GetElementsByTagName(nodes, roots[i], "defs");
        ghost var atRoot := State();
        var j := 0;
        while j < |defss|
          invariant j <= |defss| && Valid() && |nodes| == |atRoot.nodes|
          invariant PruneDefsList(atRoot, defss, 0) == PruneDefsList(State(), defss, j)
        {
          err := SweepDefs(defss[j]);
          if err.Some? {
            return;
          }
          j := j + 1;
        }
        i := i + 1;
      }
      return None;
    }
  }

  /** `ProcessSVG(nodes)` (lines 68-171): the walk over the roots and the
      sweep, returning `changed` and the document after; the errors stand
      for the panics and the endless loop of the Go code. */
  method ProcessSVG(doc: seq<Node>, roots: seq<nat>) returns (r: Result<(bool, seq<Node>), SvgError>)
    requires ValidArena(doc) && forall k :: 0 <= k < |roots| ==> roots[k] < |doc|
    ensures r == ProcessSvgSpec(doc, roots)
  {
    var f := new SvgFixer(doc);
    var failed := f.ProcessAll(roots);
    if failed.Some? {
      return Err(failed.value);
    }
    var err := f.Sweep(roots);
    if err.Some? {
      return Err(err.value);
    }
    return Ok((f.changed, f.nodes));
  }
}
