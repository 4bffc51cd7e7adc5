/** The element tree the SVG gradient flattener works on (fix-svg-style.go),
    kept as an arena: a node is named by its index in a sequence, and a node
    lists its children by index. Every child has a larger index than its
    parent, which is how a document tree numbered in document order looks,
    and which makes every walk down the tree terminate. */
module SvgTree {
  import opened Base

  /** `html.ElementNode` or any other kind (text, comment, ...). */
  datatype NodeType = ElementNode | OtherNode

  /** `html.Attribute`; the namespace is not modelled. */
  datatype Attribute = Attribute(key: string, val: string)

  /** `html.Node`: `data` is the tag name of an element and the text of a
      text node; the sibling list is `children`. */
  datatype Node = Node(kind: NodeType, data: string, attrs: seq<Attribute>, children: seq<nat>)

  /** Every child handle points past its parent and into the arena. */
  ghost predicate ValidArena(nodes: seq<Node>) {
    forall h, k :: 0 <= h < |nodes| && 0 <= k < |nodes[h].children| ==>
      h < nodes[h].children[k] < |nodes|
  }

  /** A node with the value of every "style" attribute blanked: all of it
      that a style rewrite cannot change. */
  function Unstyled(n: Node): (u: Node)
    ensures u.kind == n.kind && u.data == n.data && u.children == n.children && |u.attrs| == |n.attrs|
  {
    n.(attrs := seq(|n.attrs|, k requires 0 <= k < |n.attrs| =>
      if n.attrs[k].key == "style" then Attribute("style", "") else n.attrs[k]))
  }

  function UnstyledAll(nodes: seq<Node>): (r: seq<Node>)
    ensures |r| == |nodes|
  {
    seq(|nodes|, h requires 0 <= h < |nodes| => Unstyled(nodes[h]))
  }

  /** b differs from a at most in the values of "style" attributes. */
  ghost predicate StylesOnly(a: seq<Node>, b: seq<Node>) {
    UnstyledAll(a) == UnstyledAll(b)
  }

  /** Node h reads the same in both arenas except for its style values. */
  lemma StylesOnlyNode(a: seq<Node>, b: seq<Node>, h: nat)
    requires StylesOnly(a, b) && h < |a|
    ensures |b| == |a| && b[h].kind == a[h].kind && b[h].data == a[h].data &&
      b[h].children == a[h].children && |b[h].attrs| == |a[h].attrs|
    ensures forall k :: 0 <= k < |a[h].attrs| ==>
      (b[h].attrs[k].key == a[h].attrs[k].key &&
       (a[h].attrs[k].key != "style" ==> b[h].attrs[k].val == a[h].attrs[k].val))
  {
    assert UnstyledAll(a)[h] == UnstyledAll(b)[h];
    forall k | 0 <= k < |a[h].attrs|
      ensures b[h].attrs[k].key == a[h].attrs[k].key &&
        (a[h].attrs[k].key != "style" ==> b[h].attrs[k].val == a[h].attrs[k].val)
    {
      assert Unstyled(a[h]).attrs[k] == Unstyled(b[h]).attrs[k];
    }
  }

  /** Storing a new value in a style attribute keeps everything else. */
  lemma StylesOnlySet(nodes: seq<Node>, h: nat, k: nat, v: string)
    requires h < |nodes| && k < |nodes[h].attrs| && nodes[h].attrs[k].key == "style"
    ensures StylesOnly(nodes, nodes[h := nodes[h].(attrs := nodes[h].attrs[k := Attribute("style", v)])])
  {
    var n := nodes[h];
    var m := n.(attrs := n.attrs[k := Attribute("style", v)]);
    assert Unstyled(m).attrs == Unstyled(n).attrs;
    var b := nodes[h := m];
    assert UnstyledAll(b) == UnstyledAll(nodes) by {
      forall g | 0 <= g < |nodes| ensures UnstyledAll(b)[g] == UnstyledAll(nodes)[g] {
      }
    }
  }

  /** The arena invariant depends only on the child lists. */
  lemma StylesOnlyValid(a: seq<Node>, b: seq<Node>)
    requires ValidArena(a) && StylesOnly(a, b)
    ensures ValidArena(b)
  {
    forall h, k | 0 <= h < |b| && 0 <= k < |b[h].children|
      ensures h < b[h].children[k] < |b|
    {
      StylesOnlyNode(a, b, h);
    }
  }

  /** The index of the first attribute called `name`, scanning from i. */
  function FirstAttrFrom(attrs: seq<Attribute>, name: string, i: nat): (r: Option<nat>)
    requires i <= |attrs|
    ensures r.Some? ==> i <= r.value < |attrs| && attrs[r.value].key == name
    decreases |attrs| - i
  {
    if i == |attrs| then None
    else if attrs[i].key == name then Some(i)
    else FirstAttrFrom(attrs, name, i + 1)
  }

  /** The scan finds the first attribute called `name` from i, and finds
      nothing exactly when there is none. */
  lemma {:induction false} FirstAttrFromSpec(attrs: seq<Attribute>, name: string, i: nat)
    requires i <= |attrs|
    ensures var r := FirstAttrFrom(attrs, name, i);
      r.Some? ==> forall j :: i <= j < r.value ==> attrs[j].key != name
    ensures FirstAttrFrom(attrs, name, i).None? ==> forall j :: i <= j < |attrs| ==> attrs[j].key != name
    decreases |attrs| - i
  {
    if i < |attrs| && attrs[i].key != name {
      FirstAttrFromSpec(attrs, name, i + 1);
    }
  }

  /** The first attribute called `name`, as `GetAttribute` finds it. */
  function FirstAttr(attrs: seq<Attribute>, name: string): Option<nat> {
    FirstAttrFrom(attrs, name, 0)
  }

  /** `GetAttributeValue` (fix-svg-style.go:173-180): the value of the first
      attribute with that key, or "" when there is none. */
  function AttrValue(node: Node, name: string): (v: string)
  {
    match FirstAttr(node.attrs, name)
    case Some(k) => node.attrs[k].val
    case None => ""
  }

  /** The value `AttrValue` returns, stated without the scan: the first
      attribute called `name` supplies it, and "" means there is none or the
      first one is empty. */
  lemma AttrValueSpec(node: Node, name: string)
    ensures (forall j :: 0 <= j < |node.attrs| ==> node.attrs[j].key != name) ==>
      AttrValue(node, name) == ""
    ensures forall k ::
      (0 <= k < |node.attrs| && node.attrs[k].key == name &&
       forall j :: 0 <= j < k ==> node.attrs[j].key != name) ==>
      AttrValue(node, name) == node.attrs[k].val
  {
    FirstAttrFromSpec(node.attrs, name, 0);
  }

  /** A child that `GetElementsByTagName` collects: an element with that tag. */
  predicate IsElementNamed(nodes: seq<Node>, h: nat, tag: string)
    requires h < |nodes|
  {
    nodes[h].kind == ElementNode && nodes[h].data == tag
  }

  /** The handles in cs that are elements called tag, in their order in cs. */
  function ElementsByTag(nodes: seq<Node>, cs: seq<nat>, tag: string): (r: seq<nat>)
    requires forall k :: 0 <= k < |cs| ==> cs[k] < |nodes|
    ensures |r| <= |cs|
    ensures forall k :: 0 <= k < |r| ==> r[k] < |nodes|
    decreases |cs|
  {
    if cs == [] then []
    else
      var rest := ElementsByTag(nodes, cs[1..], tag);
      if IsElementNamed(nodes, cs[0], tag) then [cs[0]] + rest else rest
  }

  /** ElementsByTag collects exactly the children of cs that are elements
      with that tag. */
  lemma {:induction false} ElementsByTagMembers(nodes: seq<Node>, cs: seq<nat>, tag: string)
    requires forall k :: 0 <= k < |cs| ==> cs[k] < |nodes|
    ensures forall x :: x in ElementsByTag(nodes, cs, tag) <==> x in cs && IsElementNamed(nodes, x, tag)
    decreases |cs|
  {
    if cs != [] {
      ElementsByTagMembers(nodes, cs[1..], tag);
      assert forall x :: x in cs <==> x == cs[0] || x in cs[1..];
    }
  }

  /** ElementsByTag keeps the order of the children: the elements found
      in a + b are those found in a, then those found in b. */
  lemma {:induction false} ElementsByTagAppend(nodes: seq<Node>, a: seq<nat>, b: seq<nat>, tag: string)
    requires forall k :: 0 <= k < |a| ==> a[k] < |nodes|
    requires forall k :: 0 <= k < |b| ==> b[k] < |nodes|
    ensures forall k :: 0 <= k < |a + b| ==> (a + b)[k] < |nodes|
    ensures ElementsByTag(nodes, a + b, tag) == ElementsByTag(nodes, a, tag) + ElementsByTag(nodes, b, tag)
    decreases |a|
  {
    assert forall k :: 0 <= k < |a + b| ==> (a + b)[k] == if k < |a| then a[k] else b[k - |a|];
    if a == [] {
      assert a + b == b;
    } else {
      assert (a + b)[1..] == a[1..] + b;
      ElementsByTagAppend(nodes, a[1..], b, tag);
    }
  }

  /** `GetAttributeValue` (fix-svg-style.go:173-180), the loop over node.Attr. */
  method GetAttributeValue(node: Node, name: string) returns (v: string)
    ensures v == AttrValue(node, name)
  {
    var i := 0;
    while i < |node.attrs|
      invariant 0 <= i <= |node.attrs|
      invariant FirstAttrFrom(node.attrs, name, i) == FirstAttr(node.attrs, name)
    {
      if node.attrs[i].key == name {
        return node.attrs[i].val;
      }
      i := i + 1;
    }
    return "";
  }

  /** `GetAttribute` (fix-svg-style.go:182-189): the position of the first
      attribute with that key, standing for the pointer Go returns. */
  method GetAttribute(node: Node, name: string) returns (r: Option<nat>)
    ensures r.Some? ==> (r.value < |node.attrs| && node.attrs[r.value].key == name &&
      forall j :: 0 <= j < r.value ==> node.attrs[j].key != name)
    ensures r.None? ==> forall j :: 0 <= j < |node.attrs| ==> node.attrs[j].key != name
    ensures r == FirstAttr(node.attrs, name)
  {
    var i := 0;
    while i < |node.attrs|
      invariant 0 <= i <= |node.attrs|
      invariant forall j :: 0 <= j < i ==> node.attrs[j].key != name
      invariant FirstAttrFrom(node.attrs, name, i) == FirstAttr(node.attrs, name)
    {
      if node.attrs[i].key == name {
        return Some(i);
      }
      i := i + 1;
    }
    return None;
  }

  /** `GetElementsByTagName` (fix-svg-style.go:191-209): the element children
      of node h with the given tag, in sibling order. */
  method GetElementsByTagName(nodes: seq<Node>, h: nat, tag: string) returns (xs: seq<nat>)
    requires h < |nodes| && ValidArena(nodes)
    ensures xs == ElementsByTag(nodes, nodes[h].children, tag)
  {
    var cs := nodes[h].children;
    xs := [];
    var i := 0;
    while i < |cs|
      invariant 0 <= i <= |cs|
      invariant xs == ElementsByTag(nodes, cs[..i], tag)
    {
      assert cs[..i + 1] == cs[..i] + [cs[i]];
      ElementsByTagAppend(nodes, cs[..i], [cs[i]], tag);
      if nodes[cs[i]].kind == ElementNode && nodes[cs[i]].data == tag {
        xs := xs + [cs[i]];
      }
      i := i + 1;
    }
    assert cs[..i] == cs;
  }
}
