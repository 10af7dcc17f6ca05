/**
  The generator's two regular expressions, each written out as the
  replacement it performs:
  - `docsPat`, `^\s*(//|#)\s`, removed from the front of a documentation line;
  - `dashPat`, `-+`, every run of dashes replaced by a single dash.
 */
module Patterns {

  /** Go's `\s` class: `[\t\n\f\r ]`. */
  predicate IsSpace(c: char) {
    c == '\t' || c == '\n' || c == '\U{C}' || c == '\r' || c == ' '
  }

  predicate AllSpace(s: string) {
    forall k :: 0 <= k < |s| ==> IsSpace(s[k])
  }

  /** Length of the longest all-whitespace prefix of `s` (what the greedy `\s*` takes). */
  function SpaceRun(s: string): (n: nat)
    ensures n <= |s|
    ensures AllSpace(s[..n])
    ensures n < |s| ==> !IsSpace(s[n])
    decreases |s|
  {
    if s != [] && IsSpace(s[0]) then 1 + SpaceRun(s[1..]) else 0
  }

  /**
    `s[..n]` is a word of `\s*(//|#)\s`: whitespace, a comment marker, and
    exactly one whitespace character.
   */
  predicate DocsMatch(s: string, n: nat) {
    && 2 <= n <= |s|
    && IsSpace(s[n - 1])
    && ((3 <= n && s[n - 3] == '/' && s[n - 2] == '/' && AllSpace(s[..n - 3]))
        || (s[n - 2] == '#' && AllSpace(s[..n - 2])))
  }

  /**
    Length of the text that `docsPat` matches at the start of `s`, or 0 when
    it does not match. The greedy `\s*` can only be followed by the marker
    where the leading whitespace ends, so at most one length can match.
   */
  function DocsPrefixLen(s: string): nat {
    var w := SpaceRun(s);
    if w + 2 < |s| && s[w] == '/' && s[w + 1] == '/' && IsSpace(s[w + 2]) then w + 3
    else if w + 1 < |s| && s[w] == '#' && IsSpace(s[w + 1]) then w + 2
    else 0
  }

  /** `docsPat.ReplaceAllString(line, "")`: the anchored pattern matches at most once, at the front. */
  function StripDocs(line: string): string {
    line[DocsPrefixLen(line)..]
  }

  /** A whitespace prefix followed by a non-space character is exactly the greedy run. */
  lemma SpaceRunIs(s: string, m: nat)
    requires m < |s| && AllSpace(s[..m]) && !IsSpace(s[m])
    ensures SpaceRun(s) == m
  {
  }

  /**
    `StripDocs` removes exactly the one prefix of `line` that `docsPat`
    matches, when there is one, and otherwise leaves `line` unchanged:
    a nonzero `DocsPrefixLen` is a match, and every match has that length.
   */
  lemma StripDocsRemovesMatch(line: string)
    ensures DocsPrefixLen(line) != 0 ==> DocsMatch(line, DocsPrefixLen(line))
    ensures forall n :: DocsMatch(line, n) ==> n == DocsPrefixLen(line)
    ensures StripDocs(line) == line <==> DocsPrefixLen(line) == 0
  {
    var w := SpaceRun(line);
    var n := DocsPrefixLen(line);
    if n == w + 3 {
      assert line[..n][..n - 3] == line[..w];
    } else if n == w + 2 {
      assert line[..n][..n - 2] == line[..w];
    }
    forall m: nat | DocsMatch(line, m)
      ensures m == n
    {
      if 3 <= m && line[m - 3] == '/' && line[m - 2] == '/' && AllSpace(line[..m - 3]) {
        SpaceRunIs(line, m - 3);
      } else {
        SpaceRunIs(line, m - 2);
      }
    }
    if n != 0 {
      assert |StripDocs(line)| < |line|;
    }
  }

  /** Worked case: one whitespace character after the marker is removed with it. */
  lemma StripDocsLineComment()
    ensures StripDocs("// hello") == "hello"
  {
    var s := "// hello";
    assert s[0] == '/' && s[1] == '/' && s[2] == ' ';
    assert SpaceRun(s) == 0;
    assert s[3..] == "hello";
  }

  /** Worked case: leading whitespace before a hash marker goes too. */
  lemma StripDocsIndentedHash()
    ensures StripDocs("  # heading") == "heading"
  {
    var s := "  # heading";
    assert s[0] == ' ' && s[1] == ' ' && s[2] == '#' && s[3] == ' ';
    assert s[1..][1..] == s[2..];
    assert SpaceRun(s[2..]) == 0;
    assert SpaceRun(s[1..]) == 1;
    assert s[4..] == "heading";
  }

  /** Worked case: a marker not followed by whitespace is not a match. */
  lemma StripDocsNeedsSpace()
    ensures StripDocs("//x") == "//x"
    ensures StripDocs("#") == "#"
  {
    var s := "//x";
    assert s[0] == '/' && s[1] == '/' && s[2] == 'x';
    assert SpaceRun(s) == 0;
    assert "#"[0] == '#';
    assert SpaceRun("#") == 0;
  }

  /** `s` has no two consecutive dashes. */
  predicate NoDoubleDash(s: string) {
    forall k :: 0 <= k < |s| - 1 ==> !(s[k] == '-' && s[k + 1] == '-')
  }

  /**
    `dashPat.ReplaceAllString(s, "-")`: each maximal run of dashes becomes a
    single dash (a dash followed by another dash is dropped).
   */
  function CollapseDashes(s: string): string
    decreases |s|
  {
    if |s| <= 1 then s
    else if s[0] == '-' && s[1] == '-' then CollapseDashes(s[1..])
    else [s[0]] + CollapseDashes(s[1..])
  }

  /**
    After collapsing no two dashes are adjacent, text without adjacent
    dashes is unchanged, the same characters occur, and the first
    character is kept.
   */
  lemma {:induction false} CollapseDashesSpec(s: string)
    ensures NoDoubleDash(CollapseDashes(s))
    ensures NoDoubleDash(s) ==> CollapseDashes(s) == s
    ensures forall x :: x in CollapseDashes(s) <==> x in s
    ensures s != [] ==> CollapseDashes(s) != [] && CollapseDashes(s)[0] == s[0]
    decreases |s|
  {
    if |s| > 1 {
      var tail := s[1..];
      CollapseDashesSpec(tail);
      var rest := CollapseDashes(tail);
      assert forall x :: x in s <==> x == s[0] || x in tail;
      assert rest[0] == s[1];
      if !(s[0] == '-' && s[1] == '-') {
        var r := [s[0]] + rest;
        assert forall k :: 1 <= k < |r| ==> r[k] == rest[k - 1];
        if NoDoubleDash(s) {
          assert NoDoubleDash(tail) by {
            forall k | 0 <= k < |tail| - 1 ensures !(tail[k] == '-' && tail[k + 1] == '-') {
              assert tail[k] == s[k + 1] && tail[k + 1] == s[k + 2];
            }
          }
          assert [s[0]] + tail == s;
        }
      } else {
        assert !NoDoubleDash(s) by { assert s[0] == '-' && s[1] == '-'; }
      }
    }
  }

  /**
    Collapsing works piece by piece around any character other than a
    dash: the text before it and the text after it collapse on their own,
    and the character stays where it is.
   */
  lemma {:induction false} CollapseDashesAround(a: string, c: char, b: string)
    requires c != '-'
    ensures CollapseDashes(a + [c] + b) == CollapseDashes(a) + [c] + CollapseDashes(b)
    decreases |a|
  {
    var s := a + [c] + b;
    if |a| == 0 {
      assert s == [c] + b;
      if |b| > 0 {
        assert s[1..] == b;
      }
    } else {
      assert s[1..] == a[1..] + [c] + b;
      CollapseDashesAround(a[1..], c, b);
      var rest := CollapseDashes(a[1..]);
      if a[0] == '-' && s[1] == '-' {
        assert |a| >= 2 && a[1] == '-';
      } else if |a| == 1 {
        assert a[1..] == [];
        assert [a[0]] + ([] + [c] + CollapseDashes(b)) == a + [c] + CollapseDashes(b);
      } else {
        assert [a[0]] + (rest + [c] + CollapseDashes(b)) == ([a[0]] + rest) + [c] + CollapseDashes(b);
      }
    }
  }

  /** A non-empty run made only of dashes collapses to a single dash. */
  lemma {:induction false} CollapseDashRun(s: string)
    requires |s| > 0
    requires forall k :: 0 <= k < |s| ==> s[k] == '-'
    ensures CollapseDashes(s) == "-"
    decreases |s|
  {
    if |s| > 1 {
      CollapseDashRun(s[1..]);
    } else {
      assert s == "-";
    }
  }

  /** Worked case: runs of dashes of any length shrink to one dash. */
  lemma CollapseDashesExample()
    ensures CollapseDashes("a---b") == "a-b"
  {
    var s := "a---b";
    assert s[1..] == "---b" && s[2..] == "--b" && s[3..] == "-b";
    assert CollapseDashes("-b") == "-b";
    assert CollapseDashes("--b") == "-b";
    assert CollapseDashes("---b") == "-b";
  }
}
