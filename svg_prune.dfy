/** The dead-gradient sweep of fix-svg-style.go (lines 148-168) and the
    whole of `ProcessSVG` (lines 68-171). */
module SvgPrune {
  import opened Base
  import opened SvgTree
  import opened SvgResolve
  import opened SvgProcess
  import opened SvgWalk

  /** The self-reference a gradient keeps when it is still needed. */
  function SelfRef(id: string): string {
    "url(#" + id + ")"
  }

  /** The sweep's test on a child of a defs element: its tag (or text) is
      `linearGradient`; the node type is not checked (line 154). */
  predicate IsGradientChild(nodes: seq<Node>, c: nat)
    requires c < |nodes|
  {
    nodes[c].data == "linearGradient"
  }

  /** The sweep removes child c, judged with the answers of pass base: a
      gradient whose resolveColor(id) no longer reads as its own url. */
  predicate Dead(base: Pass, c: nat)
    requires ValidPass(base) && c < |base.nodes|
  {
    var id := AttrValue(base.nodes[c], "id");
    IsGradientChild(base.nodes, c) && Answer(base, id).Ok? && Answer(base, id).value != SelfRef(id)
  }

  /** The children of cs from i that are dead for base, in their order: the
      reference definition of `toRemove`. */
  ghost function DeadRef(base: Pass, cs: seq<nat>, i: nat): seq<nat>
    requires ValidPass(base) && i <= |cs| && forall k :: 0 <= k < |cs| ==> cs[k] < |base.nodes|
    decreases |cs| - i
  {
    if i == |cs| then []
    else (if Dead(base, cs[i]) then [cs[i]] else []) + DeadRef(base, cs, i + 1)
  }

  /** The loop of lines 153-161 from the i-th child: `toRemove` and the
      pass after its resolveColor calls. */
  function CollectDead(p: Pass, cs: seq<nat>, i: nat): (r: Result<(seq<nat>, Pass), SvgError>)
    requires ValidPass(p) && i <= |cs| && forall k :: 0 <= k < |cs| ==> cs[k] < |p.nodes|
    ensures r.Ok? ==> r.value.1.nodes == p.nodes && r.value.1.byId == p.byId && r.value.1.changed == p.changed
    decreases |cs| - i
  {
    if i == |cs| then Ok(([], p))
    else if !IsGradientChild(p.nodes, cs[i]) then CollectDead(p, cs, i + 1)
    else
      var id := AttrValue(p.nodes[cs[i]], "id");
      match ResolveCached(p, id)
      case Err(e) => Err(e)
      case Ok(res) =>
        match CollectDead(res.pass, cs, i + 1)
        case Err(e) => Err(e)
        case Ok(rest) => Ok(((if SelfRef(id) != res.text then [cs[i]] else []) + rest.0, rest.1))
  }

  /** The collected list is the reference one: exactly the dead gradient
      children, in sibling order; the cache stays faithful. Pass q is base
      after earlier resolveColor calls on the same arena. */
  lemma {:induction false} CollectDeadSpec(base: Pass, q: Pass, cs: seq<nat>, i: nat)
    requires CacheFaithful(base, q) && ValidPass(q)
    requires i <= |cs| && forall k :: 0 <= k < |cs| ==> cs[k] < |base.nodes|
    requires CollectDead(q, cs, i).Ok?
    ensures CollectDead(q, cs, i).value.0 == DeadRef(base, cs, i)
    ensures CacheFaithful(base, CollectDead(q, cs, i).value.1)
    decreases |cs| - i
  {
    if i < |cs| && IsGradientChild(q.nodes, cs[i]) {
      var id := AttrValue(q.nodes[cs[i]], "id");
      ResolveStable(base, q, id);
      CollectDeadSpec(base, ResolveCached(q, id).value.pass, cs, i + 1);
    } else if i < |cs| {
      CollectDeadSpec(base, q, cs, i + 1);
    }
  }

  /** The loop fails exactly when the resolution of some gradient child's
      id fails (a child without an id resolves "" and fails). */
  lemma {:induction false} CollectDeadFails(base: Pass, q: Pass, cs: seq<nat>, i: nat)
    requires CacheFaithful(base, q) && ValidPass(q)
    requires i <= |cs| && forall k :: 0 <= k < |cs| ==> cs[k] < |base.nodes|
    ensures CollectDead(q, cs, i).Err? <==>
      exists k :: i <= k < |cs| && IsGradientChild(base.nodes, cs[k]) && Answer(base, AttrValue(base.nodes[cs[k]], "id")).Err?
    decreases |cs| - i
  {
    if i < |cs| {
      var id := AttrValue(q.nodes[cs[i]], "id");
      ResolveStable(base, q, id);
      if IsGradientChild(q.nodes, cs[i]) && ResolveCached(q, id).Ok? {
        CollectDeadFails(base, ResolveCached(q, id).value.pass, cs, i + 1);
      } else {
        CollectDeadFails(base, q, cs, i + 1);
      }
    }
  }

  /** Membership in the reference list: a child of cs from i that is dead. */
  lemma {:induction false} DeadRefMembers(base: Pass, cs: seq<nat>, i: nat)
    requires ValidPass(base) && i <= |cs| && forall k :: 0 <= k < |cs| ==> cs[k] < |base.nodes|
    ensures forall x :: x in DeadRef(base, cs, i) <==> x in cs[i..] && Dead(base, x)
    decreases |cs| - i
  {
    if i < |cs| {
      DeadRefMembers(base, cs, i + 1);
      assert cs[i..] == [cs[i]] + cs[i + 1..];
    }
  }

  /** `defs.RemoveChild(child)` for every child in dead. */
  function Without(cs: seq<nat>, dead: seq<nat>): (r: seq<nat>)
    ensures forall x :: x in r <==> x in cs && x !in dead
    decreases |cs|
  {
    if cs == [] then []
    else (if cs[0] in dead then [] else [cs[0]]) + Without(cs[1..], dead)
  }

  /** b is a's elements with some left out, in a's order. */
  ghost predicate SubseqOf(b: seq<nat>, a: seq<nat>)
    decreases |a|
  {
    if a == [] then b == []
    else if b != [] && b[0] == a[0] then SubseqOf(b[1..], a[1..])
    else SubseqOf(b, a[1..])
  }

  lemma {:induction false} WithoutKeepsOrder(cs: seq<nat>, dead: seq<nat>)
    ensures SubseqOf(Without(cs, dead), cs)
    decreases |cs|
  {
    if cs != [] {
      WithoutKeepsOrder(cs[1..], dead);
      var w := Without(cs[1..], dead);
      if cs[0] in dead {
        assert Without(cs, dead) == w;
      }
      if cs[0] !in dead {
        assert Without(cs, dead) == [cs[0]] + w;
        assert ([cs[0]] + w)[1..] == w;
      } else if w != [] {
        assert w[0] in w;
      }
    }
  }

  lemma {:induction false} WithoutNothing(cs: seq<nat>)
    ensures Without(cs, []) == cs
    decreases |cs|
  {
    if cs != [] {
      WithoutNothing(cs[1..]);
      assert cs == [cs[0]] + cs[1..];
    }
  }

  /** Removal keeps a valid arena. */
  lemma WithoutValid(nodes: seq<Node>, d: nat, dead: seq<nat>)
    requires ValidArena(nodes) && d < |nodes|
    ensures ValidArena(nodes[d := nodes[d].(children := Without(nodes[d].children, dead))])
  {
    var cs := nodes[d].children;
    var w := Without(cs, dead);
    forall k | 0 <= k < |w| ensures d < w[k] < |nodes| {
      assert w[k] in w;
      var j :| 0 <= j < |cs| && cs[j] == w[k];
    }
  }

  /** Lines 150-167 for one defs element d: collect, then remove, and set
      `changed` when anything is removed. */
  function PruneDefs(p: Pass, d: nat): (r: Result<Pass, SvgError>)
    requires ValidPass(p) && d < |p.nodes|
    ensures r.Ok? ==> ValidPass(r.value) && |r.value.nodes| == |p.nodes| && (p.changed ==> r.value.changed)
  {
    match CollectDead(p, p.nodes[d].children, 0)
    case Err(e) => Err(e)
    case Ok(res) =>
      var q := res.1;
      WithoutValid(q.nodes, d, res.0);
      Ok(q.(nodes := q.nodes[d := q.nodes[d].(children := Without(q.nodes[d].children, res.0))],
            changed := q.changed || |res.0| > 0))
  }

  /** The sweep over one defs element: it removes exactly the dead
      gradient children and keeps every other child in order; nothing else
      in the arena changes, and a removal sets `changed`. */
  lemma PruneDefsSpec(p: Pass, d: nat)
    requires ValidPass(p) && d < |p.nodes| && PruneDefs(p, d).Ok?
    ensures var q := PruneDefs(p, d).value;
      forall x :: x in q.nodes[d].children <==> x in p.nodes[d].children && !Dead(p, x)
    ensures SubseqOf(PruneDefs(p, d).value.nodes[d].children, p.nodes[d].children)
    ensures var q := PruneDefs(p, d).value;
      q.nodes[d].kind == p.nodes[d].kind && q.nodes[d].data == p.nodes[d].data && q.nodes[d].attrs == p.nodes[d].attrs
    ensures var q := PruneDefs(p, d).value;
      forall g :: 0 <= g < |p.nodes| && g != d ==> q.nodes[g] == p.nodes[g]
    ensures var q := PruneDefs(p, d).value;
      q.byId == p.byId && CacheFaithful(p, q.(nodes := p.nodes))
    ensures var q := PruneDefs(p, d).value;
      q.changed <==> p.changed || q.nodes[d].children != p.nodes[d].children
  {
    var cs := p.nodes[d].children;
    var res := CollectDead(p, cs, 0).value;
    CollectDeadSpec(p, p, cs, 0);
    DeadRefMembers(p, cs, 0);
    assert cs[0..] == cs;
    WithoutKeepsOrder(cs, res.0);
    var q := PruneDefs(p, d).value;
    if |res.0| == 0 {
      WithoutNothing(cs);
    } else {
      assert res.0[0] in res.0;
      assert res.0[0] !in q.nodes[d].children;
    }
  }

  /** The defs elements in order defss from j. */
  function PruneDefsList(p: Pass, defss: seq<nat>, j: nat): (r: Result<Pass, SvgError>)
    requires ValidPass(p) && j <= |defss| && forall k :: 0 <= k < |defss| ==> defss[k] < |p.nodes|
    ensures r.Ok? ==> ValidPass(r.value) && |r.value.nodes| == |p.nodes| && (p.changed ==> r.value.changed)
    decreases |defss| - j
  {
    if j == |defss| then Ok(p)
    else
      match PruneDefs(p, defss[j])
      case Err(e) => Err(e)
      case Ok(q) => PruneDefsList(q, defss, j + 1)
  }

  /** Lines 149-168: for each root, its direct `defs` element children. */
  function PruneRoots(p: Pass, roots: seq<nat>, i: nat): (r: Result<Pass, SvgError>)
    requires ValidPass(p) && i <= |roots| && forall k :: 0 <= k < |roots| ==> roots[k] < |p.nodes|
    ensures r.Ok? ==> ValidPass(r.value) && |r.value.nodes| == |p.nodes| && (p.changed ==> r.value.changed)
    decreases |roots| - i
  {
    if i == |roots| then Ok(p)
    else
      var defss := ElementsByTag(p.nodes, p.nodes[roots[i]].children, "defs");
      match PruneDefsList(p, defss, 0)
      case Err(e) => Err(e)
      case Ok(q) => PruneRoots(q, roots, i + 1)
  }

  // ---------------------------------------------------------------------
  // What the sweep as a whole may change

  lemma {:induction false} SubseqMembers(b: seq<nat>, a: seq<nat>)
    requires SubseqOf(b, a)
    ensures forall x :: x in b ==> x in a
    decreases |a|
  {
    if a != [] {
      if b != [] && b[0] == a[0] {
        SubseqMembers(b[1..], a[1..]);
        assert forall x :: x in b ==> x == b[0] || x in b[1..];
      } else {
        SubseqMembers(b, a[1..]);
      }
    }
  }

  lemma {:induction false} SubseqTail(c: seq<nat>, x: seq<nat>)
    requires SubseqOf(c, x) && c != []
    ensures SubseqOf(c[1..], x)
    decreases |x|
  {
    if x != [] {
      if c[0] == x[0] {
        SubseqWeaken(c[1..], x);
      } else {
        SubseqTail(c, x[1..]);
        if c[1..] != [] && c[1..][0] == x[0] {
          SubseqTail(c[1..], x[1..]);
        }
      }
    }
  }

  /** From SubseqOf(c, x[1..]) to SubseqOf(c, x). */
  lemma {:induction false} SubseqWeaken(c: seq<nat>, x: seq<nat>)
    requires x != [] && SubseqOf(c, x[1..])
    ensures SubseqOf(c, x)
    decreases |x|, 0
  {
    if c != [] && c[0] == x[0] {
      SubseqTail(c, x[1..]);
    }
  }

  lemma {:induction false} SubseqTrans(c: seq<nat>, b: seq<nat>, a: seq<nat>)
    requires SubseqOf(c, b) && SubseqOf(b, a)
    ensures SubseqOf(c, a)
    decreases |a|
  {
    if a != [] {
      if b != [] && b[0] == a[0] {
        if c != [] && c[0] == b[0] {
          SubseqTrans(c[1..], b[1..], a[1..]);
        } else {
          SubseqTrans(c, b[1..], a[1..]);
          SubseqWeaken(c, a);
        }
      } else {
        SubseqTrans(c, b, a[1..]);
        SubseqWeaken(c, a);
      }
    }
  }

  /** The children of h in b are those in a with some `linearGradient`
      nodes left out, in a's order. */
  ghost predicate SweptChildren(a: seq<Node>, b: seq<Node>, h: nat)
    requires h < |a| && h < |b|
  {
    SubseqOf(b[h].children, a[h].children) &&
    forall x :: x in a[h].children && x !in b[h].children ==> x < |a| && a[x].data == "linearGradient"
  }

  /** Handle h is a `defs` element among the direct children of a root. */
  ghost predicate DefsOfRoot(nodes: seq<Node>, roots: seq<nat>, h: nat)
    requires h < |nodes|
  {
    IsElementNamed(nodes, h, "defs") && exists k :: 0 <= k < |roots| && roots[k] < |nodes| && h in nodes[roots[k]].children
  }

  /** What the sweep does to the pass: attributes, tags and index stay,
      children lists only lose `linearGradient` nodes, only under a defs
      child of a root, and any loss sets `changed`. */
  ghost predicate SweepKeeps(a: Pass, b: Pass, roots: seq<nat>) {
    |b.nodes| == |a.nodes| && ValidPass(b) && b.byId == a.byId && (a.changed ==> b.changed) &&
    (forall h :: 0 <= h < |a.nodes| ==>
      b.nodes[h].kind == a.nodes[h].kind && b.nodes[h].data == a.nodes[h].data && b.nodes[h].attrs == a.nodes[h].attrs) &&
    (forall h :: 0 <= h < |a.nodes| ==> SweptChildren(a.nodes, b.nodes, h)) &&
    (forall h :: 0 <= h < |a.nodes| && b.nodes[h].children != a.nodes[h].children ==>
      b.changed && DefsOfRoot(a.nodes, roots, h))
  }

  lemma SweepKeepsRefl(a: Pass, roots: seq<nat>)
    requires ValidPass(a)
    ensures SweepKeeps(a, a, roots)
  {
    forall h | 0 <= h < |a.nodes| ensures SweptChildren(a.nodes, a.nodes, h) {
      SubseqRefl(a.nodes[h].children);
    }
  }

  lemma {:induction false} SubseqRefl(a: seq<nat>)
    ensures SubseqOf(a, a)
    decreases |a|
  {
    if a != [] {
      SubseqRefl(a[1..]);
    }
  }

  lemma SweepKeepsTrans(a: Pass, b: Pass, c: Pass, roots: seq<nat>)
    requires SweepKeeps(a, b, roots) && SweepKeeps(b, c, roots)
    ensures SweepKeeps(a, c, roots)
  {
    forall h | 0 <= h < |a.nodes| ensures SweptChildren(a.nodes, c.nodes, h) {
      assert SweptChildren(a.nodes, b.nodes, h) && SweptChildren(b.nodes, c.nodes, h);
      SubseqTrans(c.nodes[h].children, b.nodes[h].children, a.nodes[h].children);
    }
    forall h | 0 <= h < |a.nodes| && c.nodes[h].children != a.nodes[h].children
      ensures c.changed && DefsOfRoot(a.nodes, roots, h)
    {
      if b.nodes[h].children == a.nodes[h].children {
        assert DefsOfRoot(b.nodes, roots, h);
        var k :| 0 <= k < |roots| && roots[k] < |b.nodes| && h in b.nodes[roots[k]].children;
        assert SweptChildren(a.nodes, b.nodes, roots[k]);
        SubseqMembers(b.nodes[roots[k]].children, a.nodes[roots[k]].children);
      }
    }
  }

  /** The sweep of one defs child of a root keeps to SweepKeeps. */
  lemma PruneDefsKeeps(p: Pass, d: nat, roots: seq<nat>)
    requires ValidPass(p) && d < |p.nodes| && PruneDefs(p, d).Ok? && DefsOfRoot(p.nodes, roots, d)
    ensures SweepKeeps(p, PruneDefs(p, d).value, roots)
  {
    var q := PruneDefs(p, d).value;
    PruneDefsSpec(p, d);
    forall h | 0 <= h < |p.nodes| ensures SweptChildren(p.nodes, q.nodes, h) {
      if h != d {
        SubseqRefl(p.nodes[h].children);
      }
    }
  }

  lemma {:induction false} PruneDefsListKeeps(p: Pass, defss: seq<nat>, j: nat, roots: seq<nat>)
    requires ValidPass(p) && j <= |defss| && forall k :: 0 <= k < |defss| ==> defss[k] < |p.nodes|
    requires forall k :: j <= k < |defss| ==> DefsOfRoot(p.nodes, roots, defss[k])
    requires PruneDefsList(p, defss, j).Ok?
    ensures SweepKeeps(p, PruneDefsList(p, defss, j).value, roots)
    decreases |defss| - j
  {
    if j == |defss| {
      SweepKeepsRefl(p, roots);
    } else {
      var q := PruneDefs(p, defss[j]).value;
      PruneDefsKeeps(p, defss[j], roots);
      forall k | j + 1 <= k < |defss| ensures DefsOfRoot(q.nodes, roots, defss[k]) {
        assert DefsOfRoot(p.nodes, roots, defss[k]);
        var r :| 0 <= r < |roots| && roots[r] < |p.nodes| && defss[k] in p.nodes[roots[r]].children;
        assert SweptChildren(p.nodes, q.nodes, roots[r]);
        assert p.nodes[defss[k]].data == "defs";
      }
      PruneDefsListKeeps(q, defss, j + 1, roots);
      SweepKeepsTrans(p, q, PruneDefsList(q, defss, j + 1).value, roots);
    }
  }

  lemma {:induction false} PruneRootsKeeps(p: Pass, roots: seq<nat>, i: nat)
    requires ValidPass(p) && i <= |roots| && forall k :: 0 <= k < |roots| ==> roots[k] < |p.nodes|
    requires PruneRoots(p, roots, i).Ok?
    ensures SweepKeeps(p, PruneRoots(p, roots, i).value, roots)
    decreases |roots| - i
  {
    if i == |roots| {
      SweepKeepsRefl(p, roots);
    } else {
      var defss := ElementsByTag(p.nodes, p.nodes[roots[i]].children, "defs");
      ElementsByTagMembers(p.nodes, p.nodes[roots[i]].children, "defs");
      forall k | 0 <= k < |defss| ensures DefsOfRoot(p.nodes, roots, defss[k]) {
        assert defss[k] in defss;
      }
      var q := PruneDefsList(p, defss, 0).value;
      PruneDefsListKeeps(p, defss, 0, roots);
      PruneRootsKeeps(q, roots, i + 1);
      SweepKeepsTrans(p, q, PruneRoots(q, roots, i + 1).value, roots);
    }
  }

  /** `ProcessSVG(nodes)`: the walk over the roots, then the sweep, on a
      fresh index and cache; the result is `changed` and the arena after. */
  function ProcessSvgSpec(nodes: seq<Node>, roots: seq<nat>): Result<(bool, seq<Node>), SvgError>
    requires ValidArena(nodes) && forall k :: 0 <= k < |roots| ==> roots[k] < |nodes|
  {
    var p := Pass(nodes, map[], map[], false);
    match ProcessRoots(p, roots, 0)
    case Err(e) => Err(e)
    case Ok(q) =>
      match PruneRoots(q, roots, 0)
      case Err(e) => Err(e)
      case Ok(r) => Ok((r.changed, r.nodes))
  }

  /** What ProcessSVG does to a document, when it neither panics nor loops:
      tags and node kinds stay, attribute keys stay, every attribute value
      other than a style value stays, children lists lose only
      `linearGradient` nodes, only under a `defs` child of a root and in
      their order, and any such loss is reported as a change. */
  lemma ProcessSvgOutcome(nodes: seq<Node>, roots: seq<nat>)
    requires ValidArena(nodes) && forall k :: 0 <= k < |roots| ==> roots[k] < |nodes|
    requires ProcessSvgSpec(nodes, roots).Ok?
    ensures var out := ProcessSvgSpec(nodes, roots).value.1;
      ValidArena(out) && |out| == |nodes| &&
      (forall h :: 0 <= h < |nodes| ==>
        (out[h].kind == nodes[h].kind && out[h].data == nodes[h].data && |out[h].attrs| == |nodes[h].attrs|))
    ensures var out := ProcessSvgSpec(nodes, roots).value.1;
      forall h, k :: 0 <= h < |nodes| && 0 <= k < |nodes[h].attrs| ==>
        out[h].attrs[k].key == nodes[h].attrs[k].key &&
        (nodes[h].attrs[k].key != "style" ==> out[h].attrs[k].val == nodes[h].attrs[k].val)
    ensures var out := ProcessSvgSpec(nodes, roots).value.1;
      forall h :: 0 <= h < |nodes| ==> SweptChildren(nodes, out, h)
    ensures var r := ProcessSvgSpec(nodes, roots).value;
      forall h :: 0 <= h < |nodes| && r.1[h].children != nodes[h].children ==> r.0 && DefsOfRoot(nodes, roots, h)
  {
    var p := Pass(nodes, map[], map[], false);
    var q := ProcessRoots(p, roots, 0).value;
    PruneRootsKeeps(q, roots, 0);
    var r := PruneRoots(q, roots, 0).value;
    assert StylesOnly(nodes, q.nodes);
    forall h | 0 <= h < |nodes|
      ensures q.nodes[h].kind == nodes[h].kind && q.nodes[h].data == nodes[h].data &&
        q.nodes[h].children == nodes[h].children && |q.nodes[h].attrs| == |nodes[h].attrs|
      ensures forall k :: 0 <= k < |nodes[h].attrs| ==>
        (q.nodes[h].attrs[k].key == nodes[h].attrs[k].key &&
         (nodes[h].attrs[k].key != "style" ==> q.nodes[h].attrs[k].val == nodes[h].attrs[k].val))
    {
      StylesOnlyNode(nodes, q.nodes, h);
    }
    forall h | 0 <= h < |nodes| && DefsOfRoot(q.nodes, roots, h) ensures DefsOfRoot(nodes, roots, h) {
      var k :| 0 <= k < |roots| && roots[k] < |q.nodes| && h in q.nodes[roots[k]].children;
      assert q.nodes[roots[k]].children == nodes[roots[k]].children;
    }
    forall h | 0 <= h < |nodes| ensures SweptChildren(nodes, r.nodes, h) {
      assert SweptChildren(q.nodes, r.nodes, h);
      assert q.nodes[h].children == nodes[h].children;
      forall x | x in nodes[h].children && x !in r.nodes[h].children ensures x < |nodes| && nodes[x].data == "linearGradient" {
        assert q.nodes[x].data == nodes[x].data;
      }
    }
  }
}
