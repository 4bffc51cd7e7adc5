/** Scanners for the four regular expressions of fix-svg-style.go:74-77,
    with Go's leftmost-first semantics written out. In `[;$]` the `$` is a
    literal dollar sign inside a character class, not an end anchor. */
module SvgPatterns {
  import opened Base

  /** The characters of w from its k-th one on sit in s from i + k on. */
  predicate TextFrom(s: string, i: nat, w: string, k: nat)
    requires i + |w| <= |s| && k <= |w|
    decreases |w| - k
  {
    k == |w| || (s[i + k] == w[k] && TextFrom(s, i, w, k + 1))
  }

  /** The literal text w occurs in s at position i. */
  predicate TextAt(s: string, i: nat, w: string) {
    i + |w| <= |s| && TextFrom(s, i, w, 0)
  }

  lemma {:induction false} TextFromChars(s: string, i: nat, w: string, k: nat)
    requires i + |w| <= |s| && k <= |w|
    ensures TextFrom(s, i, w, k) <==> forall j :: k <= j < |w| ==> s[i + j] == w[j]
    decreases |w| - k
  {
    if k < |w| {
      TextFromChars(s, i, w, k + 1);
    }
  }

  /** TextAt is the comparison of a slice of s with w. */
  lemma TextAtSlice(s: string, i: nat, w: string)
    requires i + |w| <= |s|
    ensures TextAt(s, i, w) <==> s[i..i + |w|] == w
  {
    TextFromChars(s, i, w, 0);
    if s[i..i + |w|] == w {
      forall j | 0 <= j < |w| ensures s[i + j] == w[j] {
        assert s[i..i + |w|][j] == s[i + j];
      }
    }
  }

  // ---------------------------------------------------------------------
  // `(visibility:visible)[;$]`, deleted by ReplaceAllString (line 123)

  const VisibilityVisible: string := "visibility:visible"

  /** A terminator of the style patterns: ';' or a literal '$'. */
  predicate IsTerminator(c: char) { c == ';' || c == '$' }

  /** `(visibility:visible)[;$]` matches at position i of s. */
  predicate VisibilityAt(s: string, i: nat) {
    i + |VisibilityVisible| + 1 <= |s| &&
    TextAt(s, i, VisibilityVisible) &&
    IsTerminator(s[i + |VisibilityVisible|])
  }

  /** `rxRemoveStyle.ReplaceAllString(s, "")`: scanning left to right, each
      match is deleted together with its terminator and the scan resumes
      after it; every other character is kept. */
  function RemoveVisibility(s: string): string
    decreases |s|
  {
    if |s| == 0 then ""
    else if VisibilityAt(s, 0) then RemoveVisibility(s[|VisibilityVisible| + 1..])
    else [s[0]] + RemoveVisibility(s[1..])
  }

  lemma VisibilityAtShift(s: string, i: nat)
    requires |s| > 0
    ensures VisibilityAt(s[1..], i) == VisibilityAt(s, i + 1)
  {
    if i + |VisibilityVisible| + 1 <= |s[1..]| {
      TextAtSlice(s[1..], i, VisibilityVisible);
      TextAtSlice(s, i + 1, VisibilityVisible);
      assert s[1..][i..i + |VisibilityVisible|] == s[i + 1..i + 1 + |VisibilityVisible|];
    }
  }

  /** A style string with no `visibility:visible` followed by ';' or '$' is
      left exactly as it was. */
  lemma {:induction false} RemoveVisibilityNoMatch(s: string)
    requires forall i: nat :: !VisibilityAt(s, i)
    ensures RemoveVisibility(s) == s
    decreases |s|
  {
    if |s| > 0 {
      assert !VisibilityAt(s, 0);
      forall i: nat ensures !VisibilityAt(s[1..], i) {
        VisibilityAtShift(s, i);
      }
      RemoveVisibilityNoMatch(s[1..]);
    }
  }

  /** The leftmost match is deleted with its terminator: everything before
      it is kept as it was, and the scan resumes right after the terminator. */
  lemma {:induction false} RemoveVisibilityFirst(s: string, i: nat)
    requires VisibilityAt(s, i)
    requires forall j: nat :: j < i ==> !VisibilityAt(s, j)
    ensures RemoveVisibility(s) == s[..i] + RemoveVisibility(s[i + |VisibilityVisible| + 1..])
    decreases i
  {
    if i > 0 {
      var n := |VisibilityVisible| + 1;
      assert !VisibilityAt(s, 0);
      VisibilityAtShift(s, i - 1);
      forall j: nat | j < i - 1 ensures !VisibilityAt(s[1..], j) {
        VisibilityAtShift(s, j);
      }
      RemoveVisibilityFirst(s[1..], i - 1);
      assert s[1..][i - 1 + n..] == s[i + n..];
      assert [s[0]] + s[1..][..i - 1] == s[..i];
    }
  }

  /** A style holding a match at i, or earlier, has a leftmost match. */
  lemma {:induction false} LeftmostVisibility(s: string, i: nat) returns (k: nat)
    requires VisibilityAt(s, i)
    ensures k <= i && VisibilityAt(s, k)
    ensures forall j: nat :: j < k ==> !VisibilityAt(s, j)
    decreases i
  {
    if exists j: nat :: j < i && VisibilityAt(s, j) {
      var j: nat :| j < i && VisibilityAt(s, j);
      k := LeftmostVisibility(s, j);
    } else {
      k := i;
    }
  }

  /** A style with any match loses at least that match and its terminator. */
  lemma RemoveVisibilityShortens(s: string, i: nat)
    requires VisibilityAt(s, i)
    ensures |RemoveVisibility(s)| <= |s| - |VisibilityVisible| - 1
  {
    var k := LeftmostVisibility(s, i);
    RemoveVisibilityFirst(s, k);
    RemoveVisibilityDeletes(s[k + |VisibilityVisible| + 1..]);
  }

  /** a is obtained from b by deleting characters. */
  ghost predicate Subsequence(a: string, b: string)
    decreases |b|
  {
    if a == [] then true
    else if b == [] then false
    else (a[0] == b[0] && Subsequence(a[1..], b[1..])) || Subsequence(a, b[1..])
  }

  lemma {:induction false} SubsequenceDrop(a: string, b: string, n: nat)
    requires n <= |b| && Subsequence(a, b[n..])
    ensures Subsequence(a, b)
    decreases n
  {
    if n > 0 {
      assert b[1..][n - 1..] == b[n..];
      SubsequenceDrop(a, b[1..], n - 1);
      if a != [] {
        assert Subsequence(a, b[1..]);
      }
    }
  }

  /** The visibility pass only deletes: everything it keeps appears in the
      original, in the original order, and nothing is added. */
  lemma {:induction false} RemoveVisibilityDeletes(s: string)
    ensures Subsequence(RemoveVisibility(s), s)
    ensures |RemoveVisibility(s)| <= |s|
    decreases |s|
  {
    if |s| > 0 {
      if VisibilityAt(s, 0) {
        var n := |VisibilityVisible| + 1;
        RemoveVisibilityDeletes(s[n..]);
        SubsequenceDrop(RemoveVisibility(s[n..]), s, n);
      } else {
        RemoveVisibilityDeletes(s[1..]);
        var r := RemoveVisibility(s);
        assert r == [s[0]] + RemoveVisibility(s[1..]);
        assert r[1..] == RemoveVisibility(s[1..]);
      }
    }
  }

  // ---------------------------------------------------------------------
  // `fill:url\((#[a-zA-Z0-9\-]+)\)` and `stroke:url\((#[a-zA-Z0-9\-]+)\)`

  /** One character of `[a-zA-Z0-9\-]`. */
  predicate IdChar(c: char) {
    ('a' <= c <= 'z') || ('A' <= c <= 'Z') || ('0' <= c <= '9') || c == '-'
  }

  /** The end of the longest run of id characters starting at j. */
  function IdRunEnd(s: string, j: nat): (e: nat)
    requires j <= |s|
    ensures j <= e <= |s|
    ensures e < |s| ==> !IdChar(s[e])
    decreases |s| - j
  {
    if j < |s| && IdChar(s[j]) then IdRunEnd(s, j + 1) else j
  }

  /** Every character of the run is an id character. */
  lemma {:induction false} IdRunEndChars(s: string, j: nat)
    requires j <= |s|
    ensures forall k :: j <= k < IdRunEnd(s, j) ==> IdChar(s[k])
    decreases |s| - j
  {
    if j < |s| && IdChar(s[j]) {
      IdRunEndChars(s, j + 1);
    }
  }

  /** The literal text before the id: `fill:url(#` or `stroke:url(#`. */
  function UrlHead(prefix: string): string { prefix + "url(#" }

  /** `<prefix>url(#<id>)` matches at i, and gives the position of its ')'.
      The id run is greedy and ')' is not an id character, so there is at
      most one match at any position. */
  function UrlRefAt(s: string, i: nat, prefix: string): (r: Option<nat>)
    ensures r.Some? ==> i + |UrlHead(prefix)| < r.value < |s| && s[r.value] == ')'
  {
    var head := UrlHead(prefix);
    if TextAt(s, i, head) then
      var e := IdRunEnd(s, i + |head|);
      if e > i + |head| && e < |s| && s[e] == ')' then Some(e) else None
    else None
  }

  /** The text of s from i is `<prefix>url(#<id>)...` with id a non-empty
      run of id characters: the regexp matches there with this capture. */
  predicate IsUrlRef(s: string, i: nat, prefix: string, id: string) {
    var m := UrlHead(prefix) + id + ")";
    |id| >= 1 && (forall k :: 0 <= k < |id| ==> IdChar(id[k])) &&
    i + |m| <= |s| && s[i..i + |m|] == m
  }

  /** What UrlRefAt returns is a match of the regexp, whose capture is the
      text between `#` and the ')' it points at. */
  lemma UrlRefAtSound(s: string, i: nat, prefix: string)
    requires UrlRefAt(s, i, prefix).Some?
    ensures var e := UrlRefAt(s, i, prefix).value;
      i + |UrlHead(prefix)| < e < |s| && IsUrlRef(s, i, prefix, s[i + |UrlHead(prefix)|..e])
  {
    var head := UrlHead(prefix);
    var e := UrlRefAt(s, i, prefix).value;
    var id := s[i + |head|..e];
    TextAtSlice(s, i, head);
    IdRunEndChars(s, i + |head|);
    assert s[i..e + 1] == s[i..i + |head|] + s[i + |head|..e] + s[e..e + 1];
  }

  /** Every match of the regexp at i is the one UrlRefAt returns. */
  lemma UrlRefAtComplete(s: string, i: nat, prefix: string, id: string)
    requires IsUrlRef(s, i, prefix, id)
    ensures UrlRefAt(s, i, prefix) == Some(i + |UrlHead(prefix)| + |id|)
  {
    var head := UrlHead(prefix);
    var m := head + id + ")";
    var start := i + |head|;
    assert s[i..i + |m|] == m;
    assert s[i..start] == m[..|head|];
    forall k | start <= k < start + |id| ensures IdChar(s[k]) {
      assert s[k] == m[k - i];
      assert m[k - i] == id[k - start];
    }
    assert s[start + |id|] == m[|head| + |id|];
    TextAtSlice(s, i, head);
    IdRunEndAt(s, start, start + |id|);
  }

  lemma {:induction false} IdRunEndAt(s: string, j: nat, e: nat)
    requires j <= e < |s|
    requires forall k :: j <= k < e ==> IdChar(s[k])
    requires !IdChar(s[e])
    ensures IdRunEnd(s, j) == e
    decreases e - j
  {
    if j < e {
      IdRunEndAt(s, j + 1, e);
    }
  }

  /** The two literal prefixes of the reference patterns. */
  predicate RefPrefix(prefix: string) {
    prefix == "fill:" || prefix == "stroke:"
  }

  /** Matches of the fill or of the stroke pattern never overlap: no match
      starts inside another, so the left-to-right scan meets every match. */
  lemma UrlRefsDisjoint(s: string, i: nat, j: nat, prefix: string)
    requires RefPrefix(prefix)
    requires UrlRefAt(s, i, prefix).Some?
    requires i < j <= UrlRefAt(s, i, prefix).value
    ensures UrlRefAt(s, j, prefix).None?
  {
    var e := UrlRefAt(s, i, prefix).value;
    var head := UrlHead(prefix);
    var w := |prefix| - 1;
    var t := j + w;
    assert head[w] == ':';
    TextAtSlice(s, i, head);
    assert s[i..i + |head|] == head;
    if j + |head| <= |s| {
      var x: nat;
      if t >= e {
        x := e - j;
        assert s[e] == ')';
        assert head[x] != ')';
      } else if t < i + |head| {
        x := w;
        assert s[t] == s[i..i + |head|][t - i];
        assert head[t - i] != ':';
      } else {
        x := w;
        IdRunEndChars(s, i + |head|);
        assert IdChar(s[t]);
      }
      assert x < |head| && s[j + x] != head[x];
      assert s[j..j + |head|][x] == s[j + x];
      TextAtSlice(s, j, head);
    }
  }

  // ---------------------------------------------------------------------
  // `stop-color:([^;]*)[;$]`, read by FindStringSubmatch (line 104)

  const StopColorKey: string := "stop-color:"

  /** The first ';' at or after j, or |s|. */
  function SemicolonFrom(s: string, j: nat): (e: nat)
    requires j <= |s|
    ensures j <= e <= |s|
    ensures e < |s| ==> s[e] == ';'
    decreases |s| - j
  {
    if j == |s| || s[j] == ';' then j else SemicolonFrom(s, j + 1)
  }

  /** No ';' comes before the one SemicolonFrom finds. */
  lemma {:induction false} SemicolonFromClear(s: string, j: nat)
    requires j <= |s|
    ensures forall k :: j <= k < SemicolonFrom(s, j) ==> s[k] != ';'
    decreases |s| - j
  {
    if j < |s| && s[j] != ';' {
      SemicolonFromClear(s, j + 1);
    }
  }

  /** The last '$' in s[j..e], if any. */
  function LastDollar(s: string, j: nat, e: nat): (r: Option<nat>)
    requires j <= e <= |s|
    ensures r.Some? ==> j <= r.value < e && s[r.value] == '$'
    decreases e - j
  {
    if e == j then None
    else if s[e - 1] == '$' then Some(e - 1)
    else LastDollar(s, j, e - 1)
  }

  /** LastDollar finds the last '$' of s[j..e], and None means there is none. */
  lemma {:induction false} LastDollarSpec(s: string, j: nat, e: nat)
    requires j <= e <= |s|
    ensures LastDollar(s, j, e).Some? ==> forall k :: LastDollar(s, j, e).value < k < e ==> s[k] != '$'
    ensures LastDollar(s, j, e).None? ==> forall k :: j <= k < e ==> s[k] != '$'
    decreases e - j
  {
    if e > j && s[e - 1] != '$' {
      LastDollarSpec(s, j, e - 1);
    }
  }

  /** The capture c matches at i: `stop-color:` then c, which holds no ';',
      then ';' or '$'. */
  predicate IsStopColorMatch(s: string, i: nat, c: string) {
    var j := i + |StopColorKey|;
    j + |c| < |s| && s[i..j] == StopColorKey && s[j..j + |c|] == c &&
    (forall k :: 0 <= k < |c| ==> c[k] != ';') && IsTerminator(s[j + |c|])
  }

  /** The capture a backtracking matcher takes at position i: the run of
      non-';' characters when a ';' ends it, and otherwise the longest part
      of that run that a literal '$' follows. */
  function StopColorAt(s: string, i: nat): Option<string> {
    var j := i + |StopColorKey|;
    if TextAt(s, i, StopColorKey) then
      var e := SemicolonFrom(s, j);
      if e < |s| then Some(s[j..e])
      else
        match LastDollar(s, j, e)
        case Some(k) => Some(s[j..k])
        case None => None
    else None
  }

  /** Nothing matches at i. */
  ghost predicate NoStopColorAt(s: string, i: nat) {
    forall c :: !IsStopColorMatch(s, i, c)
  }

  /** c is the longest capture of a match at i. */
  ghost predicate LongestStopColorAt(s: string, i: nat, c: string) {
    IsStopColorMatch(s, i, c) && forall c' :: IsStopColorMatch(s, i, c') ==> |c'| <= |c|
  }

  /** StopColorAt gives the longest capture of a match at i, and None
      exactly when nothing matches at i. */
  lemma StopColorAtSpec(s: string, i: nat)
    ensures StopColorAt(s, i).Some? ==> LongestStopColorAt(s, i, StopColorAt(s, i).value)
    ensures StopColorAt(s, i).None? ==> NoStopColorAt(s, i)
  {
    var j := i + |StopColorKey|;
    if j <= |s| {
      TextAtSlice(s, i, StopColorKey);
    }
    if j <= |s| && s[i..j] == StopColorKey {
      var e := SemicolonFrom(s, j);
      SemicolonFromClear(s, j);
      if e < |s| {
        var c := s[j..e];
        assert IsStopColorMatch(s, i, c);
        forall c' | IsStopColorMatch(s, i, c') ensures |c'| <= |c| {
          assert forall k :: j <= k < j + |c'| ==> s[k] == c'[k - j];
        }
      } else {
        LastDollarSpec(s, j, e);
        match LastDollar(s, j, e)
        case Some(k) =>
          var c := s[j..k];
          assert IsStopColorMatch(s, i, c);
          forall c' | IsStopColorMatch(s, i, c') ensures |c'| <= |c| {
            assert j + |c'| < e;
          }
        case None =>
          forall c | IsStopColorMatch(s, i, c) ensures false {
          }
      }
    }
  }

  /** The leftmost match at or after i, with its longest capture. */
  function StopColorFrom(s: string, i: nat): Option<string>
    decreases |s| - i
  {
    if i > |s| then None
    else match StopColorAt(s, i)
      case Some(c) => Some(c)
      case None => StopColorFrom(s, i + 1)
  }

  /** When StopColorFrom finds nothing, nothing matches at or after i. */
  lemma {:induction false} StopColorFromNone(s: string, i: nat)
    requires StopColorFrom(s, i).None?
    ensures forall i': nat :: i <= i' ==> NoStopColorAt(s, i')
    decreases |s| - i
  {
    if i <= |s| {
      StopColorAtSpec(s, i);
      StopColorFromNone(s, i + 1);
    } else {
      forall i': nat | i <= i' ensures NoStopColorAt(s, i') {
      }
    }
  }

  /** When StopColorFrom finds a capture, it is the longest one of the
      leftmost match at or after i, which starts at the returned position. */
  lemma {:induction false} StopColorFromFirst(s: string, i: nat) returns (at: nat)
    requires StopColorFrom(s, i).Some?
    ensures i <= at && LongestStopColorAt(s, at, StopColorFrom(s, i).value)
    ensures forall i'': nat :: i <= i'' < at ==> NoStopColorAt(s, i'')
    decreases |s| - i
  {
    StopColorAtSpec(s, i);
    if StopColorAt(s, i).Some? {
      at := i;
      assert StopColorFrom(s, i) == StopColorAt(s, i);
    } else {
      assert StopColorFrom(s, i) == StopColorFrom(s, i + 1);
      at := StopColorFromFirst(s, i + 1);
      forall i'': nat | i <= i'' < at ensures NoStopColorAt(s, i'') {
        if i'' > i {
          assert i + 1 <= i'' < at;
        }
      }
    }
  }

  /** `rxStopColor.FindStringSubmatch(style)[1]`, or None where Go's `match`
      is nil. */
  function StopColor(s: string): Option<string> {
    StopColorFrom(s, 0)
  }

  /** StopColor is the longest capture of the leftmost match, and None
      when nothing matches anywhere; the capture never holds a ';'. */
  lemma StopColorSpec(s: string)
    ensures StopColor(s).None? ==> forall i: nat :: NoStopColorAt(s, i)
    ensures StopColor(s).Some? ==> exists i: nat ::
      LongestStopColorAt(s, i, StopColor(s).value) && forall i': nat :: i' < i ==> NoStopColorAt(s, i')
    ensures StopColor(s).Some? ==> forall k :: 0 <= k < |StopColor(s).value| ==> StopColor(s).value[k] != ';'
  {
    if StopColor(s).None? {
      StopColorFromNone(s, 0);
    } else {
      var at := StopColorFromFirst(s, 0);
    }
  }
}
