/**
 * The string operations the router relies on, with JavaScript's semantics
 * (`indexOf`, `split(c).length`, `split(c)[0]`, `replace` with a string
 * pattern, `endsWith`), a literal prefix test, and the dot-separated frame-path
 * hierarchy built on them.
 */
module Paths {

  /** Whether `pat` occurs in `s` starting at index `i`. */
  predicate OccursAt(s: string, pat: string, i: int)
  {
    0 <= i && i + |pat| <= |s| && s[i..i + |pat|] == pat
  }

  /** `s.indexOf(pat)`: the first index at which `pat` occurs in `s`, or -1. */
  function IndexOf(s: string, pat: string): (i: int)
    ensures i == -1 || OccursAt(s, pat, i)
    ensures forall j :: 0 <= j && (i == -1 || j < i) ==> !OccursAt(s, pat, j)
  {
    IndexFrom(s, pat, 0)
  }

  function IndexFrom(s: string, pat: string, k: nat): (i: int)
    requires k <= |s|
    ensures i == -1 || (k <= i && OccursAt(s, pat, i))
    ensures forall j :: k <= j && (i == -1 || j < i) ==> !OccursAt(s, pat, j)
    decreases |s| - k
  {
    if k + |pat| > |s| then -1
    else if s[k..k + |pat|] == pat then k
    else IndexFrom(s, pat, k + 1)
  }

  /**
   * Whether `s` begins with `prefix`: the match of `new RegExp('^' + prefix)`
   * when `prefix` holds no regular-expression metacharacters.
   */
  predicate StartsWith(s: string, prefix: string)
  {
    |prefix| <= |s| && s[..|prefix|] == prefix
  }

  /** `s.endsWith(suffix)`. */
  predicate EndsWith(s: string, suffix: string)
  {
    |suffix| <= |s| && s[|s| - |suffix|..] == suffix
  }

  /** Number of occurrences of the character `c` in `s`. */
  function Occurrences(s: string, c: char): nat
  {
    if |s| == 0 then 0 else (if s[0] == c then 1 else 0) + Occurrences(s[1..], c)
  }

  lemma {:induction false} OccurrencesAppend(a: string, b: string, c: char)
    ensures Occurrences(a + b, c) == Occurrences(a, c) + Occurrences(b, c)
  {
    if |a| == 0 {
      assert a + b == b;
    } else {
      assert (a + b)[1..] == a[1..] + b;
      OccurrencesAppend(a[1..], b, c);
    }
  }

  lemma {:induction false} NoOccurrences(s: string, c: char)
    ensures Occurrences(s, c) == 0 <==> c !in s
  {
    if |s| > 0 {
      NoOccurrences(s[1..], c);
      assert s == [s[0]] + s[1..];
    }
  }

  /**
   * `s.split(c).length` for a one-character separator `c`: one piece more
   * than there are separators.
   */
  function SplitLength(s: string, c: char): (n: nat)
    ensures n > 1 <==> c in s
  {
    NoOccurrences(s, c);
    Occurrences(s, c) + 1
  }

  /** The part of `s` before its first `c`: `s.split(c)[0]`. */
  function BeforeFirst(s: string, c: char): (r: string)
    ensures c !in r
    ensures |r| <= |s| && s[..|r|] == r
    ensures |r| < |s| ==> s[|r|] == c
  {
    if |s| == 0 || s[0] == c then [] else [s[0]] + BeforeFirst(s[1..], c)
  }

  /**
   * `s.replace(pat, rep)` with a string pattern: only the first occurrence
   * of `pat` is replaced; when there is none, `s` is returned unchanged.
   */
  function ReplaceFirst(s: string, pat: string, rep: string): (r: string)
  {
    var i := IndexOf(s, pat);
    if i == -1 then s else s[..i] + rep + s[i + |pat|..]
  }

  lemma ReplaceFirstAtStart(s: string, pat: string)
    requires StartsWith(s, pat)
    ensures ReplaceFirst(s, pat, "") == s[|pat|..]
  {
  }

  /** Number of dots in a frame path: its depth below the top-level frame. */
  function DotCount(p: string): nat
  {
    Occurrences(p, '.')
  }

  /** The index of the last dot in `p`. */
  function LastDot(p: string): (i: nat)
    requires '.' in p
    ensures i < |p| && p[i] == '.'
    ensures '.' !in p[i + 1..]
  {
    if p[|p| - 1] == '.' then |p| - 1
    else
      assert '.' in p[..|p| - 1] by {
        var k :| 0 <= k < |p| && p[k] == '.';
        assert p[..|p| - 1][k] == '.';
      }
      var i := LastDot(p[..|p| - 1]);
      assert p[i + 1..] == p[..|p| - 1][i + 1..] + [p[|p| - 1]];
      i
  }

  /** `a` is a strict ancestor of `p` in the dot-separated frame hierarchy. */
  predicate IsAncestor(a: string, p: string)
  {
    |a| < |p| && p[..|a|] == a && p[|a|] == '.'
  }

  /** `c` is a direct child of `p`: `c == p + "." + s` for one segment `s` without dots. */
  predicate IsChildOf(c: string, p: string)
  {
    IsAncestor(p, c) && '.' !in c[|p| + 1..]
  }

  /**
   * `p.replace(/\.[^\.]*$/, "")`: drop the last dot and the segment after it.
   * A path without a dot does not match the pattern and is returned unchanged.
   */
  function StripLastSegment(p: string): (q: string)
    ensures '.' !in p ==> q == p
    ensures '.' in p ==> IsChildOf(p, q) && DotCount(q) + 1 == DotCount(p)
  {
    if '.' in p then
      var i := LastDot(p);
      assert p == p[..i] + p[i..];
      assert p[i..] == "." + p[i + 1..];
      OccurrencesAppend(p[..i], p[i..], '.');
      OccurrencesAppend(".", p[i + 1..], '.');
      NoOccurrences(p[i + 1..], '.');
      p[..i]
    else p
  }

  /** Every ancestor of `p` is its parent or an ancestor of its parent. */
  lemma AncestorOfParent(a: string, p: string)
    requires IsAncestor(a, p)
    ensures '.' in p
    ensures a == StripLastSegment(p) || IsAncestor(a, StripLastSegment(p))
  {
  }

  lemma AncestorTransitive(a: string, b: string, c: string)
    requires IsAncestor(a, b) && IsAncestor(b, c)
    ensures IsAncestor(a, c)
  {
  }

  /** `p.indexOf('.') > 0`: `p` has a dot and does not start with one. */
  lemma InnerDot(p: string)
    requires IndexOf(p, ".") > 0
    ensures '.' in p && p[0] != '.'
  {
  }

  /** Two ancestors of the same path are equal or one is an ancestor of the other. */
  lemma AncestorsComparable(a: string, b: string, p: string)
    requires IsAncestor(a, p) && IsAncestor(b, p)
    ensures a == b || IsAncestor(a, b) || IsAncestor(b, a)
  {
  }

  /** A path with a dot that does not start with one has `indexOf('.') > 0`. */
  lemma InnerDotConverse(p: string)
    requires '.' in p && p[0] != '.'
    ensures IndexOf(p, ".") > 0
  {
    var k :| 0 <= k < |p| && p[k] == '.';
    assert p[k..k + 1] == ".";
    assert OccursAt(p, ".", k);
    assert !OccursAt(p, ".", 0);
  }

  /** `p.indexOf('.')` is the index of the first dot. */
  lemma FirstDotAt(p: string, i: nat)
    requires i < |p| && p[i] == '.' && '.' !in p[..i]
    ensures IndexOf(p, ".") == i
  {
    assert p[i..i + 1] == ".";
    assert OccursAt(p, ".", i);
    forall j | 0 <= j < i
      ensures !OccursAt(p, ".", j)
    {
      assert p[..i][j] == p[j];
      assert p[j] != '.';
      assert p[j..j + 1][0] == p[j];
    }
    var k := IndexOf(p, ".");
    assert k != -1 && !(k < i) && !(k > i);
  }

  /** In `p + "." + s` with a dot-free `p`, the first dot is the one after `p`. */
  lemma FirstDotOfChild(p: string, s: string)
    requires '.' !in p
    ensures IndexOf(p + "." + s, ".") == |p|
  {
    assert (p + "." + s)[..|p|] == p;
    FirstDotAt(p + "." + s, |p|);
  }

  /** The parent of `p + "." + s`, for a dot-free segment `s`, is `p`. */
  lemma ParentOfChild(p: string, s: string)
    requires '.' !in s
    ensures StripLastSegment(p + "." + s) == p
  {
    var c := p + "." + s;
    assert c[|p|] == '.';
    assert c[|p| + 1..] == s;
    assert c[..|p|] == p;
  }
}
