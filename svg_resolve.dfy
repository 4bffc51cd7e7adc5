/** The gradient colour resolver of fix-svg-style.go (`resolveColor`, lines
    79-108) as functions of the state of one pass: the arena, the id index
    `getElementByID` and the cache `resolveColorCache`. The two panics of the
    Go code and its unguarded `for {}` loop become explicit errors. */
module SvgResolve {
  import opened Base
  import opened SvgTree
  import opened SvgPatterns

  /** What the Go code does instead of returning a colour. */
  datatype SvgError =
    | UnknownId(id: string)          // a nil *html.Node is dereferenced
    | CyclicHref(id: string)         // the href loop never exits
    | MissingStopColor(id: string)   // `match` is nil and `match[1]` panics

  /** The state shared by the closures of one ProcessSVG call. */
  datatype Pass = Pass(nodes: seq<Node>, byId: map<string, nat>, cache: map<string, string>, changed: bool)

  ghost predicate ValidPass(p: Pass) {
    ValidArena(p.nodes) && forall id :: id in p.byId ==> p.byId[id] < |p.nodes|
  }

  // ---------------------------------------------------------------------
  // The href inheritance chain (lines 85-92)

  /** One turn of the `for {}` loop from node h: stop on an empty href, or
      move to the node indexed under the href without its first character,
      which may be missing from the index. */
  datatype Hop = Stop | Next(to: nat) | Dangling(id: string)

  function HopFrom(nodes: seq<Node>, byId: map<string, nat>, h: nat): Hop
    requires h < |nodes|
  {
    var href := AttrValue(nodes[h], "href");
    if href == "" then Stop
    else if href[1..] in byId then Next(byId[href[1..]])
    else Dangling(href[1..])
  }

  /** The node the Go loop holds after k turns, if it gets that far. */
  function WalkN(nodes: seq<Node>, byId: map<string, nat>, h: nat, k: nat): Option<nat>
    requires h < |nodes| && forall id :: id in byId ==> byId[id] < |nodes|
    ensures WalkN(nodes, byId, h, k).Some? ==> WalkN(nodes, byId, h, k).value < |nodes|
    decreases k
  {
    if k == 0 then Some(h)
    else match HopFrom(nodes, byId, h)
      case Next(y) => WalkN(nodes, byId, y, k - 1)
      case _ => None
  }

  /** The handles of an arena of n nodes. */
  function Handles(nodes: seq<Node>): (r: set<nat>)
    ensures forall h: nat :: h in r <==> h < |nodes|
  {
    Below(|nodes|)
  }

  function Below(n: nat): (r: set<nat>)
    ensures forall h: nat :: h in r <==> h < n
  {
    if n == 0 then {} else Below(n - 1) + {n - 1}
  }

  /** Every visited node other than the current one hops to a visited node:
      the visited set is the path walked so far. */
  ghost predicate PathClosed(nodes: seq<Node>, byId: map<string, nat>, visited: set<nat>, h: nat)
    requires forall v :: v in visited ==> v < |nodes|
  {
    forall v {:trigger HopFrom(nodes, byId, v)} :: v in visited && v != h ==>
      HopFrom(nodes, byId, v).Next? && HopFrom(nodes, byId, v).to in visited
  }

  /** The href loop with the cycle it could enter made explicit: the node it
      stops at, `UnknownId` where Go dereferences nil, and `CyclicHref` where
      Go would loop forever. `id` is the requested id, for the message. */
  function FollowChain(nodes: seq<Node>, byId: map<string, nat>, id: string, h: nat, visited: set<nat>): Result<nat, SvgError>
    requires h < |nodes| && forall i :: i in byId ==> byId[i] < |nodes|
    requires h in visited && visited <= Handles(nodes)
    ensures FollowChain(nodes, byId, id, h, visited).Ok? ==> FollowChain(nodes, byId, id, h, visited).value < |nodes|
    decreases Handles(nodes) - visited
  {
    match HopFrom(nodes, byId, h)
    case Stop => Ok(h)
    case Dangling(x) => Err(UnknownId(x))
    case Next(y) =>
      if y in visited then Err(CyclicHref(id))
      else FollowChain(nodes, byId, id, y, visited + {y})
  }

  ghost predicate IndexInArena(nodes: seq<Node>, byId: map<string, nat>) {
    forall i :: i in byId ==> byId[i] < |nodes|
  }

  /** A chain that FollowChain ends at t is one the Go loop leaves at t. */
  lemma {:induction false} FollowChainStops(nodes: seq<Node>, byId: map<string, nat>, id: string, h: nat, visited: set<nat>)
    requires h < |nodes| && IndexInArena(nodes, byId)
    requires h in visited && visited <= Handles(nodes)
    requires FollowChain(nodes, byId, id, h, visited).Ok?
    ensures var t := FollowChain(nodes, byId, id, h, visited).value;
      exists k: nat :: WalkN(nodes, byId, h, k) == Some(t) && HopFrom(nodes, byId, t) == Stop
    decreases Handles(nodes) - visited
  {
    var t := FollowChain(nodes, byId, id, h, visited).value;
    match HopFrom(nodes, byId, h)
    case Stop =>
      assert WalkN(nodes, byId, h, 0) == Some(t);
    case Next(y) =>
      FollowChainStops(nodes, byId, id, y, visited + {y});
      var k: nat :| WalkN(nodes, byId, y, k) == Some(t) && HopFrom(nodes, byId, t) == Stop;
      assert WalkN(nodes, byId, h, k + 1) == Some(t);
  }

  /** UnknownId(x) from FollowChain is the Go loop reaching a node whose href
      names x, which is not indexed, so that the loop then derefences nil. */
  lemma {:induction false} FollowChainDangles(nodes: seq<Node>, byId: map<string, nat>, id: string, h: nat, visited: set<nat>)
    requires h < |nodes| && IndexInArena(nodes, byId)
    requires h in visited && visited <= Handles(nodes)
    requires FollowChain(nodes, byId, id, h, visited).Err?
    requires FollowChain(nodes, byId, id, h, visited).error.UnknownId?
    ensures var x := FollowChain(nodes, byId, id, h, visited).error.id;
      exists k: nat, u: nat :: WalkN(nodes, byId, h, k) == Some(u) && u < |nodes| && HopFrom(nodes, byId, u) == Dangling(x)
    decreases Handles(nodes) - visited
  {
    var x := FollowChain(nodes, byId, id, h, visited).error.id;
    match HopFrom(nodes, byId, h)
    case Dangling(_) =>
      assert WalkN(nodes, byId, h, 0) == Some(h);
    case Next(y) =>
      FollowChainDangles(nodes, byId, id, y, visited + {y});
      var k: nat, u: nat :| WalkN(nodes, byId, y, k) == Some(u) && u < |nodes| && HopFrom(nodes, byId, u) == Dangling(x);
      assert WalkN(nodes, byId, h, k + 1) == Some(u);
  }

  /** The walk from any node of a closed set stays in it for ever. */
  lemma {:induction false} ClosedWalkForever(nodes: seq<Node>, byId: map<string, nat>, s: set<nat>, x: nat, k: nat)
    requires IndexInArena(nodes, byId) && forall v :: v in s ==> v < |nodes|
    requires forall v {:trigger HopFrom(nodes, byId, v)} :: v in s ==>
      HopFrom(nodes, byId, v).Next? && HopFrom(nodes, byId, v).to in s
    requires x in s
    ensures WalkN(nodes, byId, x, k).Some? && WalkN(nodes, byId, x, k).value in s
    decreases k
  {
    if k > 0 {
      ClosedWalkForever(nodes, byId, s, HopFrom(nodes, byId, x).to, k - 1);
    }
  }

  /** CyclicHref from FollowChain is a chain on which the Go loop never
      stops: every turn moves on to another indexed node. */
  lemma {:induction false} FollowChainCycles(nodes: seq<Node>, byId: map<string, nat>, id: string, h: nat, visited: set<nat>, start: nat)
    requires h < |nodes| && IndexInArena(nodes, byId)
    requires h in visited && visited <= Handles(nodes)
    requires PathClosed(nodes, byId, visited, h) && start in visited
    requires FollowChain(nodes, byId, id, h, visited).Err?
    requires FollowChain(nodes, byId, id, h, visited).error.CyclicHref?
    ensures forall k: nat ::
      WalkN(nodes, byId, start, k).Some? && HopFrom(nodes, byId, WalkN(nodes, byId, start, k).value).Next?
    decreases Handles(nodes) - visited
  {
    match HopFrom(nodes, byId, h)
    case Next(y) =>
      if y in visited {
        forall k: nat
          ensures WalkN(nodes, byId, start, k).Some? && HopFrom(nodes, byId, WalkN(nodes, byId, start, k).value).Next?
        {
          ClosedWalkForever(nodes, byId, visited, start, k);
        }
      } else {
        FollowChainCycles(nodes, byId, id, y, visited + {y}, start);
      }
  }

  /** The walk is deterministic: it cannot both stop at t and reach a node
      whose hop is a different kind at another turn. */
  lemma {:induction false} WalkEndsOnce(nodes: seq<Node>, byId: map<string, nat>, h: nat, k1: nat, t: nat, k2: nat)
    requires h < |nodes| && IndexInArena(nodes, byId)
    requires WalkN(nodes, byId, h, k1) == Some(t) && !HopFrom(nodes, byId, t).Next?
    requires WalkN(nodes, byId, h, k2).Some?
    ensures k2 <= k1
    ensures k2 == k1 ==> WalkN(nodes, byId, h, k2) == Some(t)
    decreases k1
  {
    if k1 > 0 && k2 > 0 {
      WalkEndsOnce(nodes, byId, HopFrom(nodes, byId, h).to, k1 - 1, t, k2 - 1);
    }
  }

  /** The Go loop started at h breaks out with `node` equal to t. */
  ghost predicate LoopLeavesAt(nodes: seq<Node>, byId: map<string, nat>, h: nat, t: nat)
    requires h < |nodes| && IndexInArena(nodes, byId)
  {
    exists k: nat :: WalkN(nodes, byId, h, k) == Some(t) && HopFrom(nodes, byId, t) == Stop
  }

  /** The Go loop started at h meets an href to the unindexed id x, and
      dereferences the nil node on its next turn. */
  ghost predicate LoopDerefsNil(nodes: seq<Node>, byId: map<string, nat>, h: nat, x: string)
    requires h < |nodes| && IndexInArena(nodes, byId)
  {
    exists k: nat, u: nat :: WalkN(nodes, byId, h, k) == Some(u) && u < |nodes| && HopFrom(nodes, byId, u) == Dangling(x)
  }

  /** The Go loop started at h never exits. */
  ghost predicate LoopRunsForever(nodes: seq<Node>, byId: map<string, nat>, h: nat)
    requires h < |nodes| && IndexInArena(nodes, byId)
  {
    forall k: nat :: WalkN(nodes, byId, h, k).Some? && HopFrom(nodes, byId, WalkN(nodes, byId, h, k).value).Next?
  }

  /** The loop ends in at most one way. */
  lemma LoopOutcomesExclusive(nodes: seq<Node>, byId: map<string, nat>, h: nat)
    requires h < |nodes| && IndexInArena(nodes, byId)
    ensures forall t: nat, t': nat :: LoopLeavesAt(nodes, byId, h, t) && LoopLeavesAt(nodes, byId, h, t') ==> t == t'
    ensures forall x, x' :: LoopDerefsNil(nodes, byId, h, x) && LoopDerefsNil(nodes, byId, h, x') ==> x == x'
    ensures forall t: nat, x :: !(LoopLeavesAt(nodes, byId, h, t) && LoopDerefsNil(nodes, byId, h, x))
    ensures forall t: nat :: LoopRunsForever(nodes, byId, h) ==> !LoopLeavesAt(nodes, byId, h, t)
    ensures forall x :: LoopRunsForever(nodes, byId, h) ==> !LoopDerefsNil(nodes, byId, h, x)
  {
    forall t: nat, t': nat | LoopLeavesAt(nodes, byId, h, t) && LoopLeavesAt(nodes, byId, h, t') ensures t == t' {
      var k: nat :| WalkN(nodes, byId, h, k) == Some(t) && HopFrom(nodes, byId, t) == Stop;
      var k': nat :| WalkN(nodes, byId, h, k') == Some(t') && HopFrom(nodes, byId, t') == Stop;
      WalkEndsOnce(nodes, byId, h, k, t, k');
      WalkEndsOnce(nodes, byId, h, k', t', k);
    }
    forall x, x' | LoopDerefsNil(nodes, byId, h, x) && LoopDerefsNil(nodes, byId, h, x') ensures x == x' {
      var k: nat, u: nat :| WalkN(nodes, byId, h, k) == Some(u) && u < |nodes| && HopFrom(nodes, byId, u) == Dangling(x);
      var k': nat, u': nat :| WalkN(nodes, byId, h, k') == Some(u') && u' < |nodes| && HopFrom(nodes, byId, u') == Dangling(x');
      WalkEndsOnce(nodes, byId, h, k, u, k');
      WalkEndsOnce(nodes, byId, h, k', u', k);
    }
    forall t: nat, x ensures !(LoopLeavesAt(nodes, byId, h, t) && LoopDerefsNil(nodes, byId, h, x)) {
      if LoopLeavesAt(nodes, byId, h, t) && LoopDerefsNil(nodes, byId, h, x) {
        var k: nat :| WalkN(nodes, byId, h, k) == Some(t) && HopFrom(nodes, byId, t) == Stop;
        var k': nat, u: nat :| WalkN(nodes, byId, h, k') == Some(u) && u < |nodes| && HopFrom(nodes, byId, u) == Dangling(x);
        WalkEndsOnce(nodes, byId, h, k, t, k');
        WalkEndsOnce(nodes, byId, h, k', u, k);
      }
    }
  }

  /** FollowChain from the first node agrees with the Go loop in every case:
      it returns t exactly when the loop leaves at t, reports an unknown id
      exactly when the loop meets an href to an unindexed id, and reports a
      cycle exactly when the loop runs for ever. */
  lemma ChainMatchesLoop(nodes: seq<Node>, byId: map<string, nat>, id: string, h: nat)
    requires h < |nodes| && IndexInArena(nodes, byId)
    ensures forall t: nat :: FollowChain(nodes, byId, id, h, {h}) == Ok(t) <==> LoopLeavesAt(nodes, byId, h, t)
    ensures forall x :: FollowChain(nodes, byId, id, h, {h}) == Err(UnknownId(x)) <==> LoopDerefsNil(nodes, byId, h, x)
    ensures FollowChain(nodes, byId, id, h, {h}) == Err(CyclicHref(id)) <==> LoopRunsForever(nodes, byId, h)
  {
    var r := FollowChain(nodes, byId, id, h, {h});
    LoopOutcomesExclusive(nodes, byId, h);
    FollowChainErrors(nodes, byId, id, h, {h});
    if r.Ok? {
      FollowChainStops(nodes, byId, id, h, {h});
      assert LoopLeavesAt(nodes, byId, h, r.value);
    } else if r.error.UnknownId? {
      FollowChainDangles(nodes, byId, id, h, {h});
      assert LoopDerefsNil(nodes, byId, h, r.error.id);
    } else {
      assert PathClosed(nodes, byId, {h}, h);
      FollowChainCycles(nodes, byId, id, h, {h}, h);
      assert LoopRunsForever(nodes, byId, h);
    }
  }

  /** FollowChain fails only with an unknown id or a cycle on the requested id. */
  lemma {:induction false} FollowChainErrors(nodes: seq<Node>, byId: map<string, nat>, id: string, h: nat, visited: set<nat>)
    requires h < |nodes| && IndexInArena(nodes, byId)
    requires h in visited && visited <= Handles(nodes)
    ensures FollowChain(nodes, byId, id, h, visited).Err? ==>
      FollowChain(nodes, byId, id, h, visited).error.UnknownId? ||
      FollowChain(nodes, byId, id, h, visited).error == CyclicHref(id)
    decreases Handles(nodes) - visited
  {
    match HopFrom(nodes, byId, h)
    case Next(y) =>
      if y !in visited {
        FollowChainErrors(nodes, byId, id, y, visited + {y});
      }
    case _ =>
  }

  // ---------------------------------------------------------------------
  // Resolution of one id (lines 94-107) and the cache (lines 79-83, 106)

  /** What a gradient reference becomes. */
  datatype Paint = Transparent | KeepGradient | Flat(color: string)

  /** The text `resolveColor` returns for a paint of the requested id. */
  function PaintText(paint: Paint, id: string): string {
    match paint
    case Transparent => "rgba(0,0,0,0)"
    case KeepGradient => "url(#" + id + ")"
    case Flat(c) => c
  }

  /** The "stop" element children of node t, as GetElementsByTagName finds them. */
  function StopsOf(nodes: seq<Node>, t: nat): seq<nat>
    requires t < |nodes| && ValidArena(nodes)
  {
    ElementsByTag(nodes, nodes[t].children, "stop")
  }

  /** The paint of the chain's terminal node t for the requested id. */
  function TerminalPaint(nodes: seq<Node>, id: string, t: nat): Result<Paint, SvgError>
    requires t < |nodes| && ValidArena(nodes)
  {
    var stops := StopsOf(nodes, t);
    if |stops| == 0 then Ok(Transparent)
    else if |stops| >= 2 then Ok(KeepGradient)
    else match StopColor(AttrValue(nodes[stops[0]], "style"))
      case None => Err(MissingStopColor(id))
      case Some(c) => Ok(Flat(c))
  }

  /** `resolveColor(id)` without the cache. */
  function ResolveFresh(nodes: seq<Node>, byId: map<string, nat>, id: string): Result<Paint, SvgError>
    requires ValidArena(nodes) && IndexInArena(nodes, byId)
  {
    if id !in byId then Err(UnknownId(id))
    else match FollowChain(nodes, byId, id, byId[id], {byId[id]})
      case Err(e) => Err(e)
      case Ok(t) => TerminalPaint(nodes, id, t)
  }

  /** The colour of a reference whose chain the Go loop leaves at t: a
      terminal without "stop" children gives transparent black, two or more
      keep the gradient, and a single stop gives its `stop-color` capture or
      fails when its style has none. */
  lemma ResolveByTerminal(nodes: seq<Node>, byId: map<string, nat>, id: string, k: nat, t: nat)
    requires ValidArena(nodes) && IndexInArena(nodes, byId)
    requires id in byId
    requires WalkN(nodes, byId, byId[id], k) == Some(t) && HopFrom(nodes, byId, t) == Stop
    ensures |StopsOf(nodes, t)| == 0 ==> ResolveFresh(nodes, byId, id) == Ok(Transparent)
    ensures |StopsOf(nodes, t)| >= 2 ==> ResolveFresh(nodes, byId, id) == Ok(KeepGradient)
    ensures |StopsOf(nodes, t)| == 1 ==>
      var style := AttrValue(nodes[StopsOf(nodes, t)[0]], "style");
      ResolveFresh(nodes, byId, id) ==
        if StopColor(style).Some? then Ok(Flat(StopColor(style).value)) else Err(MissingStopColor(id))
  {
    ChainMatchesLoop(nodes, byId, id, byId[id]);
    assert FollowChain(nodes, byId, id, byId[id], {byId[id]}) == Ok(t);
  }

  /** The result of one `resolveColor(id)` call and the pass after it. */
  datatype Resolved = Resolved(text: string, pass: Pass)

  /** `resolveColor(id)` with its cache: a cached id answers from the cache;
      otherwise the id is resolved afresh and only a single-stop colour is
      stored, under the requested id. */
  function ResolveCached(p: Pass, id: string): (r: Result<Resolved, SvgError>)
    requires ValidPass(p)
    ensures r.Ok? ==> r.value.pass.nodes == p.nodes && r.value.pass.byId == p.byId && r.value.pass.changed == p.changed
  {
    if id in p.cache then Ok(Resolved(p.cache[id], p))
    else match ResolveFresh(p.nodes, p.byId, id)
      case Err(e) => Err(e)
      case Ok(paint) =>
        Ok(Resolved(PaintText(paint, id),
                    if paint.Flat? then p.(cache := p.cache[id := paint.color]) else p))
  }

  /** The cache only grows and its entries never change; nothing but the
      cache changes; a cached id is answered from the cache; a stored colour
      is the one returned and never holds a ';'. */
  lemma ResolveCachedSpec(p: Pass, id: string)
    requires ValidPass(p)
    ensures ResolveCached(p, id).Ok? ==>
      var q := ResolveCached(p, id).value.pass;
      q.nodes == p.nodes && q.byId == p.byId && q.changed == p.changed &&
      p.cache.Keys <= q.cache.Keys && (forall i :: i in p.cache ==> q.cache[i] == p.cache[i]) &&
      q.cache.Keys <= p.cache.Keys + {id}
    ensures id in p.cache ==> ResolveCached(p, id) == Ok(Resolved(p.cache[id], p))
    ensures id !in p.cache && ResolveCached(p, id).Ok? && id in ResolveCached(p, id).value.pass.cache ==>
      var r := ResolveCached(p, id).value;
      r.pass.cache[id] == r.text && ResolveFresh(p.nodes, p.byId, id) == Ok(Flat(r.text)) &&
      forall k :: 0 <= k < |r.text| ==> r.text[k] != ';'
  {
    if id !in p.cache && ResolveCached(p, id).Ok? && id in ResolveCached(p, id).value.pass.cache {
      var f := ResolveFresh(p.nodes, p.byId, id);
      assert f.Ok? && f.value.Flat?;
      var t := FollowChain(p.nodes, p.byId, id, p.byId[id], {p.byId[id]}).value;
      StopColorSpec(AttrValue(p.nodes[StopsOf(p.nodes, t)[0]], "style"));
    }
  }

  /** The answer reads as the reference `url(#id)` itself exactly for a
      multi-stop gradient, or for a single stop whose captured colour is
      that text; a transparent result never does. */
  lemma PaintTextSelf(paint: Paint, id: string)
    ensures PaintText(paint, id) == "url(#" + id + ")" <==>
      paint == KeepGradient || paint == Flat("url(#" + id + ")")
  {
    if paint == Transparent {
      assert PaintText(paint, id)[0] != ("url(#" + id + ")")[0];
    }
  }
}
