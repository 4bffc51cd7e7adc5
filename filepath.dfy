/** The lexical path helpers of Go's `path/filepath` and `strings` that the
    tools rely on, for slash-separated paths. */
module FilePath {

  const Separator: char := '/'

  predicate HasPrefix(s: string, prefix: string) {
    |prefix| <= |s| && s[..|prefix|] == prefix
  }

  predicate HasSuffix(s: string, suffix: string) {
    |suffix| <= |s| && s[|s| - |suffix|..] == suffix
  }

  /** sub occurs in s starting at position i. */
  predicate OccursAt(s: string, sub: string, i: int) {
    0 <= i <= |s| - |sub| && s[i..i + |sub|] == sub
  }

  /** `strings.Contains(s, sub)`, computed by trying each start position. */
  function Contains(s: string, sub: string): (r: bool)
    ensures r <==> exists i :: OccursAt(s, sub, i)
  {
    ContainsFrom(s, sub, 0)
  }

  function ContainsFrom(s: string, sub: string, i: nat): (r: bool)
    requires i <= |s| + 1
    ensures r <==> exists j :: i <= j && OccursAt(s, sub, j)
    decreases |s| + 1 - i
  {
    if i + |sub| > |s| then false
    else if s[i..i + |sub|] == sub then assert OccursAt(s, sub, i); true
    else ContainsFrom(s, sub, i + 1)
  }

  /** `filepath.Ext(p)`: the suffix of p that begins at the last '.' of its
      final slash-separated element, or "" when that element has no '.'. */
  function Ext(p: string): (e: string)
    ensures |e| <= |p|
  {
    ExtBefore(p, |p|)
  }

  /** The extension of `p[..i]`, scanning backwards from position i. */
  function ExtBefore(p: string, i: nat): (e: string)
    requires i <= |p|
    ensures |e| <= |p|
  {
    if i == 0 || p[i - 1] == Separator then ""
    else if p[i - 1] == '.' then p[i - 1..i]  + p[i..]
    else ExtBefore(p, i - 1)
  }

  /** An extension as `Ext` can return it: a '.' followed by characters that
      are neither '.' nor a separator. */
  predicate IsExt(e: string) {
    |e| > 0 && e[0] == '.' && forall k :: 0 < k < |e| ==> e[k] != '.' && e[k] != Separator
  }

  /** What `Ext` returns, stated without the scan: either an extension that
      is a suffix of p, or "" when the final element of p has no '.'. */
  lemma {:induction false} ExtSpec(p: string)
    ensures HasSuffix(p, Ext(p))
    ensures Ext(p) == "" || IsExt(Ext(p))
    ensures Ext(p) == "" <==>
      forall k :: 0 <= k < |p| && (forall m :: k < m < |p| ==> p[m] != Separator) ==> p[k] != '.'
  {
    ExtBeforeSpec(p, |p|);
  }

  lemma {:induction false} ExtBeforeSpec(p: string, i: nat)
    requires i <= |p|
    requires forall m :: i <= m < |p| ==> p[m] != '.' && p[m] != Separator
    ensures HasSuffix(p, ExtBefore(p, i))
    ensures ExtBefore(p, i) == "" || IsExt(ExtBefore(p, i))
    ensures ExtBefore(p, i) == "" <==>
      forall k :: 0 <= k < |p| && (forall m :: k < m < |p| ==> p[m] != Separator) ==> p[k] != '.'
    decreases i
  {
    if i == 0 || p[i - 1] == Separator {
    } else if p[i - 1] == '.' {
      var e := ExtBefore(p, i);
      assert e == p[i - 1..];
      assert forall k :: 0 < k < |e| ==> e[k] == p[i - 1 + k];
    } else {
      ExtBeforeSpec(p, i - 1);
    }
  }

  /** `ReplaceExt(path, ext)` of update.go: drop `Ext(path)` and append ext. */
  function ReplaceExt(path: string, ext: string): string {
    path[..|path| - |Ext(path)|] + ext
  }

  /** Without an extension ReplaceExt only appends. */
  lemma ReplaceExtAppends(path: string, ext: string)
    requires Ext(path) == ""
    ensures ReplaceExt(path, ext) == path + ext
  {
  }

  /** Replacing the extension with a proper extension e leaves a path whose
      extension is e, and doing it again changes nothing. */
  lemma {:induction false} ReplaceExtRoundTrip(path: string, e: string)
    requires IsExt(e)
    ensures Ext(ReplaceExt(path, e)) == e
    ensures ReplaceExt(ReplaceExt(path, e), e) == ReplaceExt(path, e)
  {
    var r := ReplaceExt(path, e);
    var base := path[..|path| - |Ext(path)|];
    assert r == base + e;
    ExtOfExtSuffix(base, e);
  }

  /** Ext of a path that ends in a proper extension is that extension. */
  lemma {:induction false} ExtOfExtSuffix(base: string, e: string)
    requires IsExt(e)
    ensures Ext(base + e) == e
  {
    var p := base + e;
    var n := |p|;
    var i := n;
    while i > |base| + 1
      invariant |base| + 1 <= i <= n
      invariant ExtBefore(p, i) == ExtBefore(p, n)
      decreases i
    {
      assert p[i - 1] == e[i - 1 - |base|];
      i := i - 1;
    }
    assert p[|base|] == '.';
    assert p[|base|..] == e;
  }

  /** `filepath.Join(dir, name)` for two elements: empty elements are
      dropped and the rest are joined with one separator. */
  function Join(dir: string, name: string): (r: string)
    ensures dir != "" && name != "" ==> r == dir + [Separator] + name
    ensures dir == "" ==> r == name
    ensures name == "" ==> r == dir
  {
    if dir == "" then name else if name == "" then dir else dir + [Separator] + name
  }
}
