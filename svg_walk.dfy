/** The recursive `process` closure of fix-svg-style.go (lines 110-146):
    index the node's id, process its children in order, then rewrite its
    own style attribute. */
module SvgWalk {
  import opened Base
  import opened SvgTree
  import opened SvgPatterns
  import opened SvgResolve
  import opened SvgProcess

  /** What a walk step may do to the pass: change style values only, keep
      the index valid, never clear `changed` and never drop a cache entry. */
  ghost predicate WalkKeeps(p: Pass, q: Pass) {
    StylesOnly(p.nodes, q.nodes) && ValidPass(q) && (p.changed ==> q.changed) &&
    CacheExtends(p.cache, q.cache)
  }

  lemma WalkKeepsTrans(p: Pass, q: Pass, r: Pass)
    requires WalkKeeps(p, q) && WalkKeeps(q, r)
    ensures WalkKeeps(p, r)
  {
  }

  /** `style.Val = v` for the style attribute k of node h. */
  lemma SetStyleKeeps(p: Pass, h: nat, k: nat, v: string)
    requires ValidPass(p) && h < |p.nodes| && k < |p.nodes[h].attrs| && p.nodes[h].attrs[k].key == "style"
    ensures var q := SetAttrVal(p, h, k, v);
      q.byId == p.byId && q.cache == p.cache && q.changed == p.changed &&
      StylesOnly(p.nodes, q.nodes) && ValidPass(q) && q.nodes[h].attrs[k].key == "style" &&
      (forall g :: 0 <= g < |p.nodes| && g != h ==> q.nodes[g] == p.nodes[g])
  {
    var q := SetAttrVal(p, h, k, v);
    StylesOnlySet(p.nodes, h, k, v);
    StylesOnlyValid(p.nodes, q.nodes);
  }

  /** The style rewrite of node h (lines 122-141): `visibility:visible`
      with its terminator is deleted, then the fill references and then the
      stroke references are rewritten, each result stored before the next
      step reads the arena. A node without a style attribute is left alone. */
  function RewriteStyle(p: Pass, h: nat): (r: Result<Pass, SvgError>)
    requires ValidPass(p) && h < |p.nodes|
    ensures r.Ok? ==> WalkKeeps(p, r.value) && r.value.byId == p.byId
  {
    match FirstAttr(p.nodes[h].attrs, "style")
    case None => Ok(p)
    case Some(k) =>
      var v0 := RemoveVisibility(p.nodes[h].attrs[k].val);
      var p1 := SetAttrVal(p, h, k, v0);
      SetStyleKeeps(p, h, k, v0);
      match RewriteRefs(p1, "fill:", v0)
      case Err(e) => Err(e)
      case Ok(fill) =>
        var p2 := SetAttrVal(fill.1, h, k, fill.0);
        SetStyleKeeps(fill.1, h, k, fill.0);
        RewriteRefsExtends(p1, "fill:", v0);
        match RewriteRefs(p2, "stroke:", fill.0)
        case Err(e) => Err(e)
        case Ok(stroke) =>
          SetStyleKeeps(stroke.1, h, k, stroke.0);
          RewriteRefsExtends(p2, "stroke:", fill.0);
          Ok(SetAttrVal(stroke.1, h, k, stroke.0))
  }

  /** The rewrite of h's style leaves every other node as it was. */
  lemma RewriteStyleFrame(p: Pass, h: nat)
    requires ValidPass(p) && h < |p.nodes| && RewriteStyle(p, h).Ok?
    ensures forall g :: 0 <= g < |p.nodes| && g != h ==> RewriteStyle(p, h).value.nodes[g] == p.nodes[g]
  {
  }

  /** Storing the value an attribute already has changes nothing. */
  lemma SetAttrValSame(p: Pass, h: nat, k: nat)
    requires h < |p.nodes| && k < |p.nodes[h].attrs|
    ensures SetAttrVal(p, h, k, p.nodes[h].attrs[k].val) == p
  {
    var n := p.nodes[h];
    assert n.attrs[k := Attribute(n.attrs[k].key, n.attrs[k].val)] == n.attrs;
    assert p.nodes[h := n] == p.nodes;
  }

  /** No match of the reference pattern with this prefix anywhere in s. */
  predicate NoRefs(s: string, prefix: string) {
    forall j :: 0 <= j < |s| ==> UrlRefAt(s, j, prefix).None?
  }

  /** Deleting `visibility:visible` never sets `changed`: a style without
      fill or stroke references after the deletion is stored deleted, and
      the pass is otherwise untouched. */
  lemma RewriteStyleVisibilityOnly(p: Pass, h: nat, k: nat)
    requires ValidPass(p) && h < |p.nodes| && FirstAttr(p.nodes[h].attrs, "style") == Some(k)
    requires NoRefs(RemoveVisibility(p.nodes[h].attrs[k].val), "fill:")
    requires NoRefs(RemoveVisibility(p.nodes[h].attrs[k].val), "stroke:")
    ensures RewriteStyle(p, h) == Ok(SetAttrVal(p, h, k, RemoveVisibility(p.nodes[h].attrs[k].val)))
  {
    var v0 := RemoveVisibility(p.nodes[h].attrs[k].val);
    var p1 := SetAttrVal(p, h, k, v0);
    SetStyleKeeps(p, h, k, v0);
    RewriteRefsNoMatch(p1, "fill:", v0, 0);
    assert v0[0..] == v0;
    SetAttrValSame(p1, h, k);
    RewriteRefsNoMatch(p1, "stroke:", v0, 0);
  }

  /** The style rewrite sets `changed` exactly when it was set or one of
      its fill replacements (answered on the arena after the deletion) or
      one of its stroke replacements (answered on the arena after the fill
      rewrite) differs from the text it replaces. */
  lemma RewriteStyleChanged(p: Pass, h: nat, k: nat)
    requires ValidPass(p) && h < |p.nodes| && FirstAttr(p.nodes[h].attrs, "style") == Some(k)
    requires RewriteStyle(p, h).Ok?
    ensures var v0 := RemoveVisibility(p.nodes[h].attrs[k].val);
      var p1 := SetAttrVal(p, h, k, v0);
      ValidPass(p1) && RewriteRefs(p1, "fill:", v0).Ok? &&
      var v1 := RewriteRefs(p1, "fill:", v0).value.0;
      var p2 := SetAttrVal(RewriteRefs(p1, "fill:", v0).value.1, h, k, v1);
      ValidPass(p2) &&
      (RewriteStyle(p, h).value.changed <==>
        p.changed || SomeReplacementDiffers(p1, "fill:", v0, 0) || SomeReplacementDiffers(p2, "stroke:", v1, 0))
  {
    var v0 := RemoveVisibility(p.nodes[h].attrs[k].val);
    var p1 := SetAttrVal(p, h, k, v0);
    SetStyleKeeps(p, h, k, v0);
    var fill := RewriteRefs(p1, "fill:", v0).value;
    var p2 := SetAttrVal(fill.1, h, k, fill.0);
    SetStyleKeeps(fill.1, h, k, fill.0);
    RewriteRefsChanged(p1, "fill:", v0, 0);
    RewriteRefsChanged(p2, "stroke:", fill.0, 0);
  }

  // ---------------------------------------------------------------------
  // The walk

  /** `getElementByID[id] = node` for a non-empty id (lines 112-115). */
  function IndexNode(nodes: seq<Node>, byId: map<string, nat>, h: nat): map<string, nat>
    requires h < |nodes|
  {
    var id := AttrValue(nodes[h], "id");
    if id != "" then byId[id := h] else byId
  }

  /** `process(node)`: index, children in order, then the node's style. */
  function ProcessNode(p: Pass, h: nat): (r: Result<Pass, SvgError>)
    requires ValidPass(p) && h < |p.nodes|
    ensures r.Ok? ==> WalkKeeps(p, r.value)
    decreases |p.nodes| - h, 1
  {
    var p1 := p.(byId := IndexNode(p.nodes, p.byId, h));
    match ProcessChildren(p1, h, 0)
    case Err(e) => Err(e)
    case Ok(p2) =>
      match RewriteStyle(p2, h)
      case Err(e) => Err(e)
      case Ok(p3) =>
        WalkKeepsTrans(p1, p2, p3);
        Ok(p3)
  }

  /** The loop over the children of parent from the i-th one (lines 118-120). */
  function ProcessChildren(p: Pass, parent: nat, i: nat): (r: Result<Pass, SvgError>)
    requires ValidPass(p) && parent < |p.nodes| && i <= |p.nodes[parent].children|
    ensures r.Ok? ==> WalkKeeps(p, r.value)
    decreases |p.nodes| - parent, 0, |p.nodes[parent].children| - i
  {
    if i == |p.nodes[parent].children| then Ok(p)
    else
      match ProcessNode(p, p.nodes[parent].children[i])
      case Err(e) => Err(e)
      case Ok(q) =>
        StylesOnlyNode(p.nodes, q.nodes, parent);
        match ProcessChildren(q, parent, i + 1)
        case Err(e) => Err(e)
        case Ok(q') =>
          WalkKeepsTrans(p, q, q');
          Ok(q')
  }

  /** `for _, node := range nodes { process(node) }` (lines 144-146). */
  function ProcessRoots(p: Pass, roots: seq<nat>, i: nat): (r: Result<Pass, SvgError>)
    requires ValidPass(p) && i <= |roots| && forall j :: 0 <= j < |roots| ==> roots[j] < |p.nodes|
    ensures r.Ok? ==> WalkKeeps(p, r.value)
    decreases |roots| - i
  {
    if i == |roots| then Ok(p)
    else
      match ProcessNode(p, roots[i])
      case Err(e) => Err(e)
      case Ok(q) =>
        match ProcessRoots(q, roots, i + 1)
        case Err(e) => Err(e)
        case Ok(q') =>
          WalkKeepsTrans(p, q, q');
          Ok(q')
  }

  // ---------------------------------------------------------------------
  // The order of the walk

  /** The subtree of h in pre-order: the order `process` enters nodes. */
  ghost function PreOrder(nodes: seq<Node>, h: nat): (r: seq<nat>)
    requires ValidArena(nodes) && h < |nodes|
    ensures forall k :: 0 <= k < |r| ==> r[k] < |nodes|
    decreases |nodes| - h, 1
  {
    [h] + PreOrderChildren(nodes, h, 0)
  }

  ghost function PreOrderChildren(nodes: seq<Node>, parent: nat, i: nat): (r: seq<nat>)
    requires ValidArena(nodes) && parent < |nodes| && i <= |nodes[parent].children|
    ensures forall k :: 0 <= k < |r| ==> r[k] < |nodes|
    decreases |nodes| - parent, 0, |nodes[parent].children| - i
  {
    if i == |nodes[parent].children| then []
    else PreOrder(nodes, nodes[parent].children[i]) + PreOrderChildren(nodes, parent, i + 1)
  }

  /** The index after entering the nodes hs in order. */
  ghost function IndexAll(nodes: seq<Node>, byId: map<string, nat>, hs: seq<nat>): map<string, nat>
    requires forall k :: 0 <= k < |hs| ==> hs[k] < |nodes|
    decreases |hs|
  {
    if hs == [] then byId else IndexAll(nodes, IndexNode(nodes, byId, hs[0]), hs[1..])
  }

  lemma {:induction false} IndexAllAppend(nodes: seq<Node>, byId: map<string, nat>, a: seq<nat>, b: seq<nat>)
    requires forall k :: 0 <= k < |a| ==> a[k] < |nodes|
    requires forall k :: 0 <= k < |b| ==> b[k] < |nodes|
    ensures IndexAll(nodes, byId, a + b) == IndexAll(nodes, IndexAll(nodes, byId, a), b)
    decreases |a|
  {
    if a != [] {
      assert (a + b)[1..] == a[1..] + b;
      IndexAllAppend(nodes, IndexNode(nodes, byId, a[0]), a[1..], b);
    } else {
      assert a + b == b;
    }
  }

  /** Ids are not style values, so the index does not see style rewrites. */
  lemma {:induction false} IndexAllStyles(a: seq<Node>, b: seq<Node>, byId: map<string, nat>, hs: seq<nat>)
    requires StylesOnly(a, b) && forall k :: 0 <= k < |hs| ==> hs[k] < |a|
    ensures IndexAll(b, byId, hs) == IndexAll(a, byId, hs)
    decreases |hs|
  {
    if hs != [] {
      StylesOnlyAttr(a, b, hs[0], "id");
      IndexAllStyles(a, b, IndexNode(a, byId, hs[0]), hs[1..]);
    }
  }

  /** The pre-order depends only on the shape of the arena. */
  lemma {:induction false} PreOrderShape(a: seq<Node>, b: seq<Node>, h: nat)
    requires ValidArena(a) && StylesOnly(a, b) && h < |a|
    ensures ValidArena(b) && PreOrder(b, h) == PreOrder(a, h)
    decreases |a| - h, 1
  {
    StylesOnlyValid(a, b);
    StylesOnlyNode(a, b, h);
    PreOrderChildrenShape(a, b, h, 0);
  }

  lemma {:induction false} PreOrderChildrenShape(a: seq<Node>, b: seq<Node>, parent: nat, i: nat)
    requires ValidArena(a) && StylesOnly(a, b) && parent < |a| && i <= |a[parent].children|
    ensures ValidArena(b) && b[parent].children == a[parent].children &&
      PreOrderChildren(b, parent, i) == PreOrderChildren(a, parent, i)
    decreases |a| - parent, 0, |a[parent].children| - i
  {
    StylesOnlyValid(a, b);
    StylesOnlyNode(a, b, parent);
    if i < |a[parent].children| {
      PreOrderShape(a, b, a[parent].children[i]);
      PreOrderChildrenShape(a, b, parent, i + 1);
    }
  }

  /** After `process(h)` the index is the old one updated with the ids of
      h's subtree in pre-order: a node's id is indexed before its children
      are entered, and a later duplicate id overwrites an earlier one. */
  lemma {:induction false} ProcessNodeIndexes(p: Pass, h: nat)
    requires ValidPass(p) && h < |p.nodes| && ProcessNode(p, h).Ok?
    ensures ProcessNode(p, h).value.byId == IndexAll(p.nodes, p.byId, PreOrder(p.nodes, h))
    decreases |p.nodes| - h, 1
  {
    var p1 := p.(byId := IndexNode(p.nodes, p.byId, h));
    ProcessChildrenIndexes(p1, h, 0);
    assert PreOrder(p.nodes, h)[1..] == PreOrderChildren(p.nodes, h, 0);
  }

  lemma {:induction false} ProcessChildrenIndexes(p: Pass, parent: nat, i: nat)
    requires ValidPass(p) && parent < |p.nodes| && i <= |p.nodes[parent].children|
    requires ProcessChildren(p, parent, i).Ok?
    ensures ProcessChildren(p, parent, i).value.byId == IndexAll(p.nodes, p.byId, PreOrderChildren(p.nodes, parent, i))
    decreases |p.nodes| - parent, 0, |p.nodes[parent].children| - i
  {
    if i < |p.nodes[parent].children| {
      var c := p.nodes[parent].children[i];
      var q := ProcessNode(p, c).value;
      ProcessNodeIndexes(p, c);
      StylesOnlyNode(p.nodes, q.nodes, parent);
      ProcessChildrenIndexes(q, parent, i + 1);
      IndexChildStep(p.nodes, q.nodes, p.byId, parent, i);
    }
  }

  /** Entering child i's subtree and then, on an arena that differs only in
      styles, the later children's subtrees enters the children from i. */
  lemma IndexChildStep(a: seq<Node>, b: seq<Node>, byId: map<string, nat>, parent: nat, i: nat)
    requires ValidArena(a) && StylesOnly(a, b) && parent < |a| && i < |a[parent].children|
    ensures ValidArena(b) && b[parent].children == a[parent].children
    ensures var c := a[parent].children[i];
      IndexAll(b, IndexAll(a, byId, PreOrder(a, c)), PreOrderChildren(b, parent, i + 1)) ==
        IndexAll(a, byId, PreOrderChildren(a, parent, i))
  {
    var c := a[parent].children[i];
    PreOrderChildrenShape(a, b, parent, i + 1);
    IndexAllStyles(a, b, IndexAll(a, byId, PreOrder(a, c)), PreOrderChildren(a, parent, i + 1));
    IndexAllAppend(a, byId, PreOrder(a, c), PreOrderChildren(a, parent, i + 1));
  }

  /** The style of h is rewritten last, against the index of its whole
      subtree: only ids entered before it in pre-order (its ancestors'
      earlier subtrees, itself and its descendants) can be resolved. */
  lemma ProcessNodeRewritesLast(p: Pass, h: nat)
    requires ValidPass(p) && h < |p.nodes| && ProcessNode(p, h).Ok?
    ensures exists q :: (ValidPass(q) && h < |q.nodes| && StylesOnly(p.nodes, q.nodes) &&
      q.byId == IndexAll(p.nodes, p.byId, PreOrder(p.nodes, h)) &&
      RewriteStyle(q, h) == ProcessNode(p, h))
  {
    var p1 := p.(byId := IndexNode(p.nodes, p.byId, h));
    var q := ProcessChildren(p1, h, 0).value;
    ProcessChildrenIndexes(p1, h, 0);
    assert PreOrder(p.nodes, h)[1..] == PreOrderChildren(p.nodes, h, 0);
    assert IndexAll(p.nodes, p.byId, PreOrder(p.nodes, h)) == IndexAll(p.nodes, p1.byId, PreOrderChildren(p.nodes, h, 0));
  }

  /** `process(h)` changes only the style values of nodes in h's subtree. */
  lemma {:induction false} ProcessNodeFrame(p: Pass, h: nat)
    requires ValidPass(p) && h < |p.nodes| && ProcessNode(p, h).Ok?
    ensures forall g :: 0 <= g < |p.nodes| && g !in PreOrder(p.nodes, h) ==>
      ProcessNode(p, h).value.nodes[g] == p.nodes[g]
    decreases |p.nodes| - h, 1
  {
    var p1 := p.(byId := IndexNode(p.nodes, p.byId, h));
    ProcessChildrenFrame(p1, h, 0);
    RewriteStyleFrame(ProcessChildren(p1, h, 0).value, h);
  }

  lemma {:induction false} ProcessChildrenFrame(p: Pass, parent: nat, i: nat)
    requires ValidPass(p) && parent < |p.nodes| && i <= |p.nodes[parent].children|
    requires ProcessChildren(p, parent, i).Ok?
    ensures forall g :: 0 <= g < |p.nodes| && g !in PreOrderChildren(p.nodes, parent, i) ==>
      ProcessChildren(p, parent, i).value.nodes[g] == p.nodes[g]
    decreases |p.nodes| - parent, 0, |p.nodes[parent].children| - i
  {
    if i < |p.nodes[parent].children| {
      var c := p.nodes[parent].children[i];
      var q := ProcessNode(p, c).value;
      ProcessNodeFrame(p, c);
      StylesOnlyNode(p.nodes, q.nodes, parent);
      ProcessChildrenFrame(q, parent, i + 1);
      PreOrderChildrenShape(p.nodes, q.nodes, parent, i + 1);
    }
  }
}
