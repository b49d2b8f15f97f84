/** The JavaScript string operations the helpers rely on: the relational
    operator `<` on strings (lexicographic by character) and `slice`. */
module JsStrings {

  /** `a < b` on strings: the first differing character decides, and a
      proper prefix is smaller. */
  function LexLess(a: seq<char>, b: seq<char>): (lt: bool)
    ensures lt ==> a != b
    ensures |a| < |b| && a == b[..|a|] ==> lt
  {
    if a == [] then b != []
    else if b == [] then false
    else if a[0] != b[0] then a[0] < b[0]
    else
      assert |a| < |b| && a == b[..|a|] ==> a[1..] == b[1..][..|a| - 1];
      LexLess(a[1..], b[1..])
  }

  lemma {:induction false} LexLessIrreflexive(a: seq<char>)
    ensures !LexLess(a, a)
  {
    if a != [] {
      LexLessIrreflexive(a[1..]);
    }
  }

  lemma {:induction false} LexLessAsymmetric(a: seq<char>, b: seq<char>)
    requires LexLess(a, b)
    ensures !LexLess(b, a)
  {
    if a != [] && b != [] && a[0] == b[0] {
      LexLessAsymmetric(a[1..], b[1..]);
    }
  }

  /** Two different strings are always ordered one way or the other. */
  lemma {:induction false} LexLessTotal(a: seq<char>, b: seq<char>)
    requires a != b
    ensures LexLess(a, b) || LexLess(b, a)
  {
    if a != [] && b != [] && a[0] == b[0] {
      assert a == [a[0]] + a[1..] && b == [b[0]] + b[1..];
      LexLessTotal(a[1..], b[1..]);
    }
  }

  lemma {:induction false} LexLessTransitive(a: seq<char>, b: seq<char>, c: seq<char>)
    requires LexLess(a, b) && LexLess(b, c)
    ensures LexLess(a, c)
  {
    if a != [] && a[0] == b[0] && b[0] == c[0] {
      LexLessTransitive(a[1..], b[1..], c[1..]);
    }
  }

  /** `s.slice(n)` for a non-negative n: everything from index n on, or the
      empty string when s is shorter. */
  function SliceFrom(s: seq<char>, n: nat): (r: seq<char>)
    ensures |s| >= n ==> |r| == |s| - n && r == s[n..]
    ensures |s| < n ==> r == []
  {
    if |s| >= n then s[n..] else []
  }

  /** `s.slice(-n)` for a positive n: the last n characters, or all of s
      when it is shorter. */
  function SliceLast(s: seq<char>, n: nat): (r: seq<char>)
    requires n > 0
    ensures |r| == if |s| >= n then n else |s|
    ensures r == s[|s| - |r|..]
  {
    if |s| >= n then s[|s| - n..] else s
  }
}
