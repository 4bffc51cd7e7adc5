/** The `process` closure of fix-svg-style.go (lines 110-146) and the
    dead-gradient sweep (lines 148-170) as functions of the pass state. A
    `style.Val = ...` assignment replaces one attribute value in the arena;
    the later reads of resolveColor see it, as they see the Go string the
    pointer leads to. */
module SvgProcess {
  import opened Base
  import opened SvgTree
  import opened SvgPatterns
  import opened SvgResolve

  // ---------------------------------------------------------------------
  // What a pass may change

  /** Lookups of any attribute other than "style" read the same in both. */
  lemma {:induction false} StylesOnlyAttr(a: seq<Node>, b: seq<Node>, h: nat, name: string)
    requires StylesOnly(a, b) && h < |a| && name != "style"
    ensures AttrValue(b[h], name) == AttrValue(a[h], name)
  {
    StylesOnlyNode(a, b, h);
    FirstAttrSameKeys(a[h].attrs, b[h].attrs, name, 0);
  }

  lemma {:induction false} FirstAttrSameKeys(x: seq<Attribute>, y: seq<Attribute>, name: string, i: nat)
    requires |x| == |y| && i <= |x|
    requires forall k :: 0 <= k < |x| ==> x[k].key == y[k].key
    ensures FirstAttrFrom(x, name, i) == FirstAttrFrom(y, name, i)
    decreases |x| - i
  {
    if i < |x| {
      FirstAttrSameKeys(x, y, name, i + 1);
    }
  }

  /** b holds every entry of a unchanged. */
  ghost predicate CacheExtends(a: map<string, string>, b: map<string, string>) {
    a.Keys <= b.Keys && forall id :: id in a ==> b[id] == a[id]
  }

  /** q is base after some resolveColor calls on the same arena: the cache
      gained only entries that a fresh resolution of base confirms. */
  ghost predicate CacheFaithful(base: Pass, q: Pass) {
    ValidPass(base) &&
    q.nodes == base.nodes && q.byId == base.byId && CacheExtends(base.cache, q.cache) &&
    forall id :: id in q.cache && id !in base.cache ==>
      ResolveFresh(base.nodes, base.byId, id) == Ok(Flat(q.cache[id]))
  }

  /** The text resolveColor answers, or its failure. */
  function Answer(p: Pass, id: string): Result<string, SvgError>
    requires ValidPass(p)
  {
    match ResolveCached(p, id)
    case Ok(r) => Ok(r.text)
    case Err(e) => Err(e)
  }

  /** Within one arena the cache changes no answer: after any calls that
      keep the cache faithful, resolveColor(id) answers as it did at the
      start, and the cache stays faithful. */
  lemma ResolveStable(base: Pass, q: Pass, id: string)
    requires CacheFaithful(base, q)
    ensures ValidPass(q) && Answer(q, id) == Answer(base, id)
    ensures ResolveCached(q, id).Ok? ==> CacheFaithful(base, ResolveCached(q, id).value.pass)
  {
    AnswerStable(base, q, id);
    CacheStaysFaithful(base, q, id);
  }

  lemma AnswerStable(base: Pass, q: Pass, id: string)
    requires CacheFaithful(base, q)
    ensures ValidPass(q) && Answer(q, id) == Answer(base, id)
  {
    if id in q.cache && id !in base.cache {
      FreshAnswer(base, id, q.cache[id]);
    }
  }

  /** An id whose fresh resolution is a flat colour answers that colour. */
  lemma FreshAnswer(p: Pass, id: string, c: string)
    requires ValidPass(p) && id !in p.cache && ResolveFresh(p.nodes, p.byId, id) == Ok(Flat(c))
    ensures Answer(p, id) == Ok(c)
  {
  }

  lemma CacheStaysFaithful(base: Pass, q: Pass, id: string)
    requires CacheFaithful(base, q)
    ensures ValidPass(q) && (ResolveCached(q, id).Ok? ==> CacheFaithful(base, ResolveCached(q, id).value.pass))
  {
  }

  lemma CacheFaithfulTrans(a: Pass, b: Pass, c: Pass)
    requires CacheFaithful(a, b) && CacheFaithful(b, c)
    ensures CacheFaithful(a, c)
  {
  }

  // ---------------------------------------------------------------------
  // `ReplaceAllStringFunc` with the fill and stroke patterns (lines 124-140)

  /** Overwrite the value of attribute k of node h. */
  function SetAttrVal(p: Pass, h: nat, k: nat, v: string): (q: Pass)
    requires h < |p.nodes| && k < |p.nodes[h].attrs|
  {
    var n := p.nodes[h];
    p.(nodes := p.nodes[h := n.(attrs := n.attrs[k := Attribute(n.attrs[k].key, v)])])
  }

  /** The rewrite r with the text t in front of its output. */
  function Prepend(t: string, r: Result<(string, Pass), SvgError>): Result<(string, Pass), SvgError> {
    match r
    case Ok(x) => Ok((t + x.0, x.1))
    case Err(e) => Err(e)
  }

  /** The rewrite of s from position i: the text before the leftmost match
      is copied, a match `<prefix>url(#id)` becomes prefix + resolveColor(id)
      and sets `changed` when that differs from the match, and the scan
      resumes after the match. A resolveColor failure aborts the rewrite. */
  function RewriteRefsFrom(p: Pass, prefix: string, s: string, i: nat): (r: Result<(string, Pass), SvgError>)
    requires ValidPass(p) && i <= |s|
    ensures r.Ok? ==> r.value.1.nodes == p.nodes && r.value.1.byId == p.byId && (p.changed ==> r.value.1.changed)
    decreases |s| - i
  {
    if i == |s| then Ok(("", p))
    else match UrlRefAt(s, i, prefix)
      case None =>
        Prepend([s[i]], RewriteRefsFrom(p, prefix, s, i + 1))
      case Some(e) =>
        var id := s[i + |UrlHead(prefix)|..e];
        match ResolveCached(p, id)
        case Err(err) => Err(err)
        case Ok(res) =>
          var repl := prefix + res.text;
          var q := res.pass.(changed := res.pass.changed || repl != s[i..e + 1]);
          Prepend(repl, RewriteRefsFrom(q, prefix, s, e + 1))
  }

  /** One step of the rewrite at a position where no reference starts. */
  lemma RewriteCopyStep(p: Pass, prefix: string, s: string, i: nat)
    requires ValidPass(p) && i < |s| && UrlRefAt(s, i, prefix).None?
    ensures RewriteRefsFrom(p, prefix, s, i) == Prepend([s[i]], RewriteRefsFrom(p, prefix, s, i + 1))
  {
  }

  /** One step of the rewrite at a reference whose colour resolves. */
  lemma RewriteMatchStep(p: Pass, prefix: string, s: string, i: nat, e: nat, text: string, q: Pass)
    requires ValidPass(p) && i < |s| && UrlRefAt(s, i, prefix) == Some(e)
    requires ResolveCached(p, s[i + |UrlHead(prefix)|..e]) == Ok(Resolved(text, q))
    ensures RewriteRefsFrom(p, prefix, s, i) ==
      Prepend(prefix + text, RewriteRefsFrom(q.(changed := q.changed || prefix + text != s[i..e + 1]), prefix, s, e + 1))
  {
  }

  /** One step of a rewrite that succeeds, at a reference: its colour
      resolves, and the rewrite goes on after the ')' with that answer. */
  lemma RewriteMatchOk(p: Pass, prefix: string, s: string, i: nat) returns (e: nat, res: Resolved)
    requires ValidPass(p) && i < |s| && UrlRefAt(s, i, prefix).Some? && RewriteRefsFrom(p, prefix, s, i).Ok?
    ensures UrlRefAt(s, i, prefix) == Some(e)
    ensures ResolveCached(p, s[i + |UrlHead(prefix)|..e]) == Ok(res)
    ensures RewriteRefsFrom(p, prefix, s, i) ==
      Prepend(prefix + res.text,
              RewriteRefsFrom(res.pass.(changed := res.pass.changed || prefix + res.text != s[i..e + 1]), prefix, s, e + 1))
  {
    e := UrlRefAt(s, i, prefix).value;
    res := ResolveCached(p, s[i + |UrlHead(prefix)|..e]).value;
  }

  /** RewriteMatchOk without the answer: the text that replaces the match,
      and a pass that has `changed` set when that text differs from it. */
  lemma RewriteMatchText(p: Pass, prefix: string, s: string, i: nat) returns (e: nat, text: string, q: Pass)
    requires ValidPass(p) && i < |s| && UrlRefAt(s, i, prefix).Some? && RewriteRefsFrom(p, prefix, s, i).Ok?
    ensures UrlRefAt(s, i, prefix) == Some(e) && ValidPass(q) && (text != s[i..e + 1] ==> q.changed)
    ensures RewriteRefsFrom(p, prefix, s, i) == Prepend(text, RewriteRefsFrom(q, prefix, s, e + 1))
  {
    var res;
    e, res := RewriteMatchOk(p, prefix, s, i);
    text := prefix + res.text;
    q := res.pass.(changed := res.pass.changed || text != s[i..e + 1]);
  }

  /** One step of the rewrite at a reference whose colour fails. */
  lemma RewriteFailStep(p: Pass, prefix: string, s: string, i: nat, e: nat, err: SvgError)
    requires ValidPass(p) && i < |s| && UrlRefAt(s, i, prefix) == Some(e)
    requires ResolveCached(p, s[i + |UrlHead(prefix)|..e]) == Err(err)
    ensures RewriteRefsFrom(p, prefix, s, i) == Err(err)
  {
  }

  /** The rewrite leaves arena and index alone and only adds cache entries
      that a fresh resolution confirms. */
  lemma {:induction false} RewriteRefsFaithful(p: Pass, prefix: string, s: string, i: nat)
    requires ValidPass(p) && i <= |s|
    requires RewriteRefsFrom(p, prefix, s, i).Ok?
    ensures CacheFaithful(p, RewriteRefsFrom(p, prefix, s, i).value.1)
    decreases |s| - i, 1
  {
    if i == |s| {
      assert RewriteRefsFrom(p, prefix, s, i).value.1 == p;
    } else if UrlRefAt(s, i, prefix).None? {
      FaithfulCopy(p, prefix, s, i);
    } else {
      FaithfulMatch(p, prefix, s, i);
    }
  }

  lemma {:induction false} FaithfulCopy(p: Pass, prefix: string, s: string, i: nat)
    requires ValidPass(p) && i < |s| && UrlRefAt(s, i, prefix).None?
    requires RewriteRefsFrom(p, prefix, s, i).Ok?
    ensures CacheFaithful(p, RewriteRefsFrom(p, prefix, s, i).value.1)
    decreases |s| - i, 0
  {
    RewriteCopyStep(p, prefix, s, i);
    RewriteRefsFaithful(p, prefix, s, i + 1);
  }

  lemma {:induction false} FaithfulMatch(p: Pass, prefix: string, s: string, i: nat)
    requires ValidPass(p) && i < |s| && UrlRefAt(s, i, prefix).Some?
    requires RewriteRefsFrom(p, prefix, s, i).Ok?
    ensures CacheFaithful(p, RewriteRefsFrom(p, prefix, s, i).value.1)
    decreases |s| - i, 0
  {
    var e, q := FaithfulStep(p, prefix, s, i);
    RewriteRefsFaithful(q, prefix, s, e + 1);
    var r := RewriteRefsFrom(q, prefix, s, e + 1).value.1;
    CacheFaithfulTrans(p, q, r);
    assert RewriteRefsFrom(p, prefix, s, i).value.1 == r;
  }

  /** `ReplaceAllStringFunc(s, ...)` for the pattern `<prefix>url(#...)`. */
  function RewriteRefs(p: Pass, prefix: string, s: string): Result<(string, Pass), SvgError>
    requires ValidPass(p)
  {
    RewriteRefsFrom(p, prefix, s, 0)
  }

  /** The rewrite only adds cache entries. */
  lemma RewriteRefsExtends(p: Pass, prefix: string, s: string)
    requires ValidPass(p) && RewriteRefs(p, prefix, s).Ok?
    ensures CacheExtends(p.cache, RewriteRefs(p, prefix, s).value.1.cache)
  {
    RewriteRefsFaithful(p, prefix, s, 0);
  }


  /** The replacement for the match at j, with the answers of pass p. */
  predicate ReplacementDiffers(p: Pass, prefix: string, s: string, j: nat)
    requires ValidPass(p) && UrlRefAt(s, j, prefix).Some?
  {
    var e := UrlRefAt(s, j, prefix).value;
    var a := Answer(p, s[j + |UrlHead(prefix)|..e]);
    a.Ok? && prefix + a.value != s[j..e + 1]
  }

  /** Text without a match is copied and resolves nothing. */
  lemma {:induction false} RewriteRefsNoMatch(p: Pass, prefix: string, s: string, i: nat)
    requires ValidPass(p) && i <= |s|
    requires forall j :: i <= j < |s| ==> UrlRefAt(s, j, prefix).None?
    ensures RewriteRefsFrom(p, prefix, s, i) == Ok((s[i..], p))
    decreases |s| - i
  {
    if i < |s| {
      RewriteCopyStep(p, prefix, s, i);
      RewriteRefsNoMatch(p, prefix, s, i + 1);
      assert s[i..] == [s[i]] + s[i + 1..];
    }
  }

  /** When `changed` stays false, the rewritten text is the original. */
  lemma {:induction false} RewriteRefsQuiet(p: Pass, prefix: string, s: string, i: nat)
    requires ValidPass(p) && i <= |s|
    requires RewriteRefsFrom(p, prefix, s, i).Ok? && !RewriteRefsFrom(p, prefix, s, i).value.1.changed
    ensures RewriteRefsFrom(p, prefix, s, i).value.0 == s[i..]
    decreases |s| - i, 1
  {
    if i == |s| {
      assert RewriteRefsFrom(p, prefix, s, i) == Ok(("", p));
    } else if UrlRefAt(s, i, prefix).None? {
      QuietCopy(p, prefix, s, i);
    } else {
      QuietMatch(p, prefix, s, i);
    }
  }

  lemma {:induction false} QuietCopy(p: Pass, prefix: string, s: string, i: nat)
    requires ValidPass(p) && i < |s| && UrlRefAt(s, i, prefix).None?
    requires RewriteRefsFrom(p, prefix, s, i).Ok? && !RewriteRefsFrom(p, prefix, s, i).value.1.changed
    ensures RewriteRefsFrom(p, prefix, s, i).value.0 == s[i..]
    decreases |s| - i, 0
  {
    RewriteCopyStep(p, prefix, s, i);
    RewriteRefsQuiet(p, prefix, s, i + 1);
    assert s[i..] == [s[i]] + s[i + 1..];
  }

  lemma {:induction false} QuietMatch(p: Pass, prefix: string, s: string, i: nat)
    requires ValidPass(p) && i < |s| && UrlRefAt(s, i, prefix).Some?
    requires RewriteRefsFrom(p, prefix, s, i).Ok? && !RewriteRefsFrom(p, prefix, s, i).value.1.changed
    ensures RewriteRefsFrom(p, prefix, s, i).value.0 == s[i..]
    decreases |s| - i, 0
  {
    var e, text, q := RewriteMatchText(p, prefix, s, i);
    RewriteRefsQuiet(q, prefix, s, e + 1);
    SliceSplit(s, i, e + 1);
  }

  /** The text before the leftmost match is copied unchanged. */
  lemma {:induction false} RewriteRefsCopies(p: Pass, prefix: string, s: string, i: nat, j: nat)
    requires ValidPass(p) && i <= j <= |s|
    requires forall k :: i <= k < j ==> UrlRefAt(s, k, prefix).None?
    ensures RewriteRefsFrom(p, prefix, s, i) == Prepend(s[i..j], RewriteRefsFrom(p, prefix, s, j))
    decreases j - i
  {
    if i < j {
      RewriteCopyStep(p, prefix, s, i);
      RewriteRefsCopies(p, prefix, s, i + 1, j);
      PrependTwice([s[i]], s[i + 1..j], RewriteRefsFrom(p, prefix, s, j));
      assert [s[i]] + s[i + 1..j] == s[i..j];
    } else {
      PrependTwice([], [], RewriteRefsFrom(p, prefix, s, j));
      assert s[i..j] == [];
    }
  }

  lemma PrependTwice(a: string, b: string, r: Result<(string, Pass), SvgError>)
    ensures Prepend(a, Prepend(b, r)) == Prepend(a + b, r)
    ensures Prepend([], r) == r
  {
    if r.Ok? {
      assert a + (b + r.value.0) == (a + b) + r.value.0;
      assert [] + r.value.0 == r.value.0;
    }
  }

  /** A regexp match `<prefix>url(#id)` at j is replaced by prefix +
      resolveColor(id), `changed` is set when that differs from the match,
      and the scan continues after the match. */
  lemma RewriteRefsReplaces(p: Pass, prefix: string, s: string, j: nat, id: string)
    requires ValidPass(p) && IsUrlRef(s, j, prefix, id)
    ensures var m := UrlHead(prefix) + id + ")";
      var a := ResolveCached(p, id);
      RewriteRefsFrom(p, prefix, s, j) ==
        if a.Err? then Err(a.error)
        else
          var repl := prefix + a.value.text;
          Prepend(repl, RewriteRefsFrom(a.value.pass.(changed := a.value.pass.changed || repl != m), prefix, s, j + |m|))
  {
    var m := UrlHead(prefix) + id + ")";
    var h := |UrlHead(prefix)|;
    var e := j + h + |id|;
    UrlRefAtComplete(s, j, prefix, id);
    assert s[j + h..e] == id by {
      SliceOfSlice(s, j, j + |m|, h, h + |id|);
      assert m[h..h + |id|] == id;
    }
  }

  /** Some match of the scan from i has a replacement that differs from
      the matched text, with the answers of pass base. */
  ghost predicate SomeReplacementDiffers(base: Pass, prefix: string, s: string, i: nat)
    requires ValidPass(base)
  {
    exists j :: i <= j < |s| && UrlRefAt(s, j, prefix).Some? && ReplacementDiffers(base, prefix, s, j)
  }

  lemma SomeReplacementDiffersSkip(base: Pass, prefix: string, s: string, i: nat)
    requires ValidPass(base) && i < |s| && UrlRefAt(s, i, prefix).None?
    ensures SomeReplacementDiffers(base, prefix, s, i) <==> SomeReplacementDiffers(base, prefix, s, i + 1)
  {
    if SomeReplacementDiffers(base, prefix, s, i) {
      var j :| i <= j < |s| && UrlRefAt(s, j, prefix).Some? && ReplacementDiffers(base, prefix, s, j);
      assert j != i;
    }
  }

  lemma SomeReplacementDiffersMatch(base: Pass, prefix: string, s: string, i: nat)
    requires ValidPass(base) && i < |s| && RefPrefix(prefix) && UrlRefAt(s, i, prefix).Some?
    ensures var e := UrlRefAt(s, i, prefix).value;
      SomeReplacementDiffers(base, prefix, s, i) <==>
        ReplacementDiffers(base, prefix, s, i) || SomeReplacementDiffers(base, prefix, s, e + 1)
  {
    var e := UrlRefAt(s, i, prefix).value;
    if SomeReplacementDiffers(base, prefix, s, i) {
      SomeReplacementDiffersSplit(base, prefix, s, i);
    }
    if ReplacementDiffers(base, prefix, s, i) {
      assert SomeReplacementDiffers(base, prefix, s, i);
    }
    if SomeReplacementDiffers(base, prefix, s, e + 1) {
      var j :| e + 1 <= j < |s| && UrlRefAt(s, j, prefix).Some? && ReplacementDiffers(base, prefix, s, j);
      assert SomeReplacementDiffers(base, prefix, s, i);
    }
  }

  lemma SomeReplacementDiffersSplit(base: Pass, prefix: string, s: string, i: nat)
    requires ValidPass(base) && i < |s| && RefPrefix(prefix) && UrlRefAt(s, i, prefix).Some?
    requires SomeReplacementDiffers(base, prefix, s, i)
    ensures ReplacementDiffers(base, prefix, s, i) || SomeReplacementDiffers(base, prefix, s, UrlRefAt(s, i, prefix).value + 1)
  {
    var e := UrlRefAt(s, i, prefix).value;
    var j :| i <= j < |s| && UrlRefAt(s, j, prefix).Some? && ReplacementDiffers(base, prefix, s, j);
    if i < j <= e {
      UrlRefsDisjoint(s, i, j, prefix);
      assert false;
    } else if j != i {
      assert e + 1 <= j;
    }
  }

  /** `changed` is set by the rewrite of s from i exactly when it was set
      already or some match's replacement differs from the matched text. */
  lemma {:induction false} RewriteRefsChanged(p: Pass, prefix: string, s: string, i: nat)
    requires ValidPass(p) && i <= |s| && RefPrefix(prefix)
    requires RewriteRefsFrom(p, prefix, s, i).Ok?
    ensures RewriteRefsFrom(p, prefix, s, i).value.1.changed <==>
      p.changed || exists j :: i <= j < |s| && UrlRefAt(s, j, prefix).Some? && ReplacementDiffers(p, prefix, s, j)
  {
    RewriteRefsChangedFrom(p, p, prefix, s, i);
    DiffersFromSome(p, prefix, s, i);
  }

  /** SomeReplacementDiffers in the order the scan visits the matches: the
      match at i when one starts there, then the rest after it. */
  ghost predicate DiffersFrom(base: Pass, prefix: string, s: string, i: nat)
    requires ValidPass(base) && i <= |s|
    decreases |s| - i
  {
    i < |s| &&
    match UrlRefAt(s, i, prefix)
    case None => DiffersFrom(base, prefix, s, i + 1)
    case Some(e) => ReplacementDiffers(base, prefix, s, i) || DiffersFrom(base, prefix, s, e + 1)
  }

  lemma {:induction false} DiffersFromSome(base: Pass, prefix: string, s: string, i: nat)
    requires ValidPass(base) && i <= |s| && RefPrefix(prefix)
    ensures DiffersFrom(base, prefix, s, i) <==> SomeReplacementDiffers(base, prefix, s, i)
    decreases |s| - i, 1
  {
    if i == |s| {
      assert !DiffersFrom(base, prefix, s, i);
    } else if UrlRefAt(s, i, prefix).None? {
      DiffersFromSomeCopy(base, prefix, s, i);
    } else {
      DiffersFromSomeMatch(base, prefix, s, i);
    }
  }

  lemma {:induction false} DiffersFromSomeCopy(base: Pass, prefix: string, s: string, i: nat)
    requires ValidPass(base) && i < |s| && RefPrefix(prefix) && UrlRefAt(s, i, prefix).None?
    ensures DiffersFrom(base, prefix, s, i) <==> SomeReplacementDiffers(base, prefix, s, i)
    decreases |s| - i, 0
  {
    assert DiffersFrom(base, prefix, s, i) == DiffersFrom(base, prefix, s, i + 1);
    DiffersFromSome(base, prefix, s, i + 1);
    SomeReplacementDiffersSkip(base, prefix, s, i);
  }

  lemma {:induction false} DiffersFromSomeMatch(base: Pass, prefix: string, s: string, i: nat)
    requires ValidPass(base) && i < |s| && RefPrefix(prefix) && UrlRefAt(s, i, prefix).Some?
    ensures DiffersFrom(base, prefix, s, i) <==> SomeReplacementDiffers(base, prefix, s, i)
    decreases |s| - i, 0
  {
    var e := UrlRefAt(s, i, prefix).value;
    assert DiffersFrom(base, prefix, s, i) == (ReplacementDiffers(base, prefix, s, i) || DiffersFrom(base, prefix, s, e + 1));
    DiffersFromSome(base, prefix, s, e + 1);
    SomeReplacementDiffersMatch(base, prefix, s, i);
  }


  /** RewriteRefsChanged for a pass q reached from base by earlier calls. */
  lemma {:induction false} RewriteRefsChangedFrom(base: Pass, q: Pass, prefix: string, s: string, i: nat)
    requires CacheFaithful(base, q) && i <= |s|
    requires ValidPass(q) && RewriteRefsFrom(q, prefix, s, i).Ok?
    ensures RewriteRefsFrom(q, prefix, s, i).value.1.changed <==>
      q.changed || DiffersFrom(base, prefix, s, i)
    decreases |s| - i, 1
  {
    if i == |s| {
      assert RewriteRefsFrom(q, prefix, s, i) == Ok(("", q));
    } else if UrlRefAt(s, i, prefix).None? {
      ChangedFromCopy(base, q, prefix, s, i);
    } else {
      ChangedFromMatch(base, q, prefix, s, i);
    }
  }

  lemma {:induction false} ChangedFromCopy(base: Pass, q: Pass, prefix: string, s: string, i: nat)
    requires CacheFaithful(base, q) && i < |s| && UrlRefAt(s, i, prefix).None?
    requires ValidPass(q) && RewriteRefsFrom(q, prefix, s, i).Ok?
    ensures RewriteRefsFrom(q, prefix, s, i).value.1.changed <==>
      q.changed || DiffersFrom(base, prefix, s, i)
    decreases |s| - i, 0
  {
    RewriteCopyStep(q, prefix, s, i);
    RewriteRefsChangedFrom(base, q, prefix, s, i + 1);
  }

  lemma {:induction false} ChangedFromMatch(base: Pass, q: Pass, prefix: string, s: string, i: nat)
    requires CacheFaithful(base, q) && i < |s| && UrlRefAt(s, i, prefix).Some?
    requires ValidPass(q) && RewriteRefsFrom(q, prefix, s, i).Ok?
    ensures RewriteRefsFrom(q, prefix, s, i).value.1.changed <==>
      q.changed || DiffersFrom(base, prefix, s, i)
    decreases |s| - i, 0
  {
    var e, q' := MatchStep(base, q, prefix, s, i);
    RewriteRefsChangedFrom(base, q', prefix, s, e + 1);
  }

  /** One replacement of the scan keeps the cache faithful. */
  lemma FaithfulStep(p: Pass, prefix: string, s: string, i: nat) returns (e: nat, q': Pass)
    requires ValidPass(p) && i < |s| && UrlRefAt(s, i, prefix).Some? && RewriteRefsFrom(p, prefix, s, i).Ok?
    ensures UrlRefAt(s, i, prefix) == Some(e)
    ensures ValidPass(q') && CacheFaithful(p, q')
    ensures RewriteRefsFrom(q', prefix, s, e + 1).Ok?
    ensures RewriteRefsFrom(p, prefix, s, i).value.1 == RewriteRefsFrom(q', prefix, s, e + 1).value.1
  {
    var res;
    e, res := RewriteMatchOk(p, prefix, s, i);
    CacheStaysFaithful(p, p, s[i + |UrlHead(prefix)|..e]);
    q' := res.pass.(changed := res.pass.changed || prefix + res.text != s[i..e + 1]);
  }

  /** One replacement of the scan: the pass q' the scan goes on with after
      the match at i, which is still faithful to base and has `changed` set
      exactly when it was or this replacement differs. */
  lemma MatchStep(base: Pass, q: Pass, prefix: string, s: string, i: nat) returns (e: nat, q': Pass)
    requires CacheFaithful(base, q) && i < |s|
    requires ValidPass(q) && RewriteRefsFrom(q, prefix, s, i).Ok?
    requires UrlRefAt(s, i, prefix).Some?
    ensures UrlRefAt(s, i, prefix) == Some(e)
    ensures ValidPass(q') && CacheFaithful(base, q')
    ensures q'.changed <==> q.changed || ReplacementDiffers(base, prefix, s, i)
    ensures RewriteRefsFrom(q', prefix, s, e + 1).Ok?
    ensures RewriteRefsFrom(q, prefix, s, i).value.1 == RewriteRefsFrom(q', prefix, s, e + 1).value.1
  {
    var res;
    e, res := RewriteMatchOk(q, prefix, s, i);
    var id := s[i + |UrlHead(prefix)|..e];
    AnswerStable(base, q, id);
    CacheStaysFaithful(base, q, id);
    AnswerOf(q, id, res);
    q' := res.pass.(changed := res.pass.changed || prefix + res.text != s[i..e + 1]);
  }

  /** What resolveColor answers is the text of its result, and the answer
      leaves `changed` alone. */
  lemma AnswerOf(p: Pass, id: string, res: Resolved)
    requires ValidPass(p) && ResolveCached(p, id) == Ok(res)
    ensures Answer(p, id) == Ok(res.text) && res.pass.changed == p.changed
  {
  }
}
