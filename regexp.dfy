/**
 * The fragment of Go's RE2 syntax the event filters use: alternations of
 * fixed-length branches anchored by `$` at the end of the text, searched
 * anywhere (unanchored) as `MatchString` and `Match` do. Without the `m` and
 * `s` flags, `$` matches only at the end of the text and `.` matches any
 * character except a newline.
 */
module Regexp {
  import Ascii

  datatype Atom =
    | Lit(c: char)       // a literal or escaped character
    | AnyButNewline      // an unescaped `.`
    | FoldLit(c: char)   // a literal under the `(?i)` flag

  predicate AtomMatches(a: Atom, c: char) {
    match a
    case Lit(l) => c == l
    case AnyButNewline => c != '\n'
    case FoldLit(l) => Ascii.Lower(c) == Ascii.Lower(l)
  }

  /** The branch `p` matches exactly the text `s`. */
  predicate MatchesExactly(p: seq<Atom>, s: string) {
    |p| == |s| && forall k :: 0 <= k < |s| ==> AtomMatches(p[k], s[k])
  }

  /**
   * What the search for `(alts[0]|alts[1]|...)$` answers: some branch matches
   * some part of `s` that runs to the end of `s`.
   */
  ghost predicate MatchesAtEnd(alts: seq<seq<Atom>>, s: string) {
    exists i, j :: 0 <= i <= |s| && 0 <= j < |alts| && MatchesExactly(alts[j], s[i..])
  }

  /** The executable test: `s` ends with text that the branch `p` matches. */
  predicate EndsWith(s: string, p: seq<Atom>) {
    |p| <= |s| && MatchesExactly(p, s[|s| - |p|..])
  }

  /** A search anchored at the end is a suffix test on each branch. */
  lemma MatchesAtEndIff(alts: seq<seq<Atom>>, s: string)
    ensures MatchesAtEnd(alts, s) <==> exists j :: 0 <= j < |alts| && EndsWith(s, alts[j])
  {
    if MatchesAtEnd(alts, s) {
      var i, j :| 0 <= i <= |s| && 0 <= j < |alts| && MatchesExactly(alts[j], s[i..]);
      assert i == |s| - |alts[j]|;
      assert EndsWith(s, alts[j]);
    }
    if j :| 0 <= j < |alts| && EndsWith(s, alts[j]) {
      var i := |s| - |alts[j]|;
      assert MatchesExactly(alts[j], s[i..]);
    }
  }

  /** Ending with a branch means ending with every tail of that branch. */
  lemma EndsWithTail(s: string, p: seq<Atom>, q: seq<Atom>)
    requires EndsWith(s, p + q)
    ensures EndsWith(s, q)
  {
    var n := |p + q|;
    forall k | 0 <= k < |q|
      ensures AtomMatches(q[k], s[|s| - |q|..][k])
    {
      assert (p + q)[|p| + k] == q[k];
      assert s[|s| - n..][|p| + k] == s[|s| - |q|..][k];
    }
  }

  /** A text that ends with a branch ends with a character its last atom matches. */
  lemma EndsWithLast(s: string, p: seq<Atom>)
    requires EndsWith(s, p) && |p| > 0
    ensures AtomMatches(p[|p| - 1], s[|s| - 1])
  {
    assert s[|s| - |p|..][|p| - 1] == s[|s| - 1];
  }
}
