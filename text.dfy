/**
  The few operations of Go's `strings` package that the site generator relies
  on, over `string` (a `seq<char>`). Each is written to behave as the Go
  function does on the inputs the generator gives it.
 */
module Text {

  /** `strings.HasPrefix(s, prefix)` */
  predicate HasPrefix(s: string, prefix: string) {
    |prefix| <= |s| && s[..|prefix|] == prefix
  }

  /** `strings.HasSuffix(s, suffix)` */
  predicate HasSuffix(s: string, suffix: string) {
    |suffix| <= |s| && s[|s| - |suffix|..] == suffix
  }

  /** `sub` occurs in `s` starting at position `i`. */
  predicate OccursAt(s: string, sub: string, i: nat) {
    i + |sub| <= |s| && s[i..i + |sub|] == sub
  }

  /** `strings.Contains(s, sub)`, scanning `s` from the left. */
  function Contains(s: string, sub: string): bool
    decreases |s|
  {
    HasPrefix(s, sub) || (s != [] && Contains(s[1..], sub))
  }

  /** `Contains` holds exactly when `sub` occurs somewhere in `s`. */
  lemma {:induction false} ContainsIffOccurs(s: string, sub: string)
    ensures Contains(s, sub) <==> exists i: nat :: OccursAt(s, sub, i)
    decreases |s|
  {
    if s != [] {
      ContainsIffOccurs(s[1..], sub);
      if i: nat :| OccursAt(s[1..], sub, i) {
        assert s[1..][i..i + |sub|] == s[i + 1..i + 1 + |sub|];
        assert OccursAt(s, sub, i + 1);
      }
      if i: nat :| OccursAt(s, sub, i) {
        if i > 0 {
          assert s[1..][i - 1..i - 1 + |sub|] == s[i..i + |sub|];
          assert OccursAt(s[1..], sub, i - 1);
        } else {
          assert s[..|sub|] == s[0..|sub|];
        }
      }
    } else {
      if i: nat :| OccursAt(s, sub, i) {
        assert sub == [];
      }
    }
    if HasPrefix(s, sub) {
      assert OccursAt(s, sub, 0);
    }
  }

  /**
    `strings.Split(s, sep)` for a one-character separator: the pieces of `s`
    between separators. There is always at least one piece (the empty text
    gives `[""]`) and no piece holds the separator.
   */
  function Split(s: string, sep: char): (parts: seq<string>)
    ensures |parts| >= 1
    ensures forall k :: 0 <= k < |parts| ==> sep !in parts[k]
    decreases |s|
  {
    if s == [] then [""]
    else
      var rest := Split(s[1..], sep);
      if s[0] == sep then [""] + rest
      else [[s[0]] + rest[0]] + rest[1..]
  }

  /** `strings.Join(parts, sep)` */
  function Join(parts: seq<string>, sep: string): string
    decreases |parts|
  {
    if parts == [] then ""
    else if |parts| == 1 then parts[0]
    else parts[0] + sep + Join(parts[1..], sep)
  }

  /** Joining the pieces of a split with the same separator gives back the text. */
  lemma {:induction false} JoinSplit(s: string, sep: char)
    ensures Join(Split(s, sep), [sep]) == s
    decreases |s|
  {
    if s != [] {
      var rest := Split(s[1..], sep);
      JoinSplit(s[1..], sep);
      if s[0] == sep {
        assert Join([""] + rest, [sep]) == "" + [sep] + Join(rest, [sep]);
      } else {
        var parts := [[s[0]] + rest[0]] + rest[1..];
        if |rest| == 1 {
          assert Join(parts, [sep]) == [s[0]] + rest[0];
        } else {
          assert parts[1..] == rest[1..];
          assert Join(rest, [sep]) == rest[0] + [sep] + Join(rest[1..], [sep]);
        }
      }
    }
  }

  /** A text without the separator splits into itself alone. */
  lemma {:induction false} SplitWithoutSep(x: string, sep: char)
    requires sep !in x
    ensures Split(x, sep) == [x]
    decreases |x|
  {
    if x != [] {
      SplitWithoutSep(x[1..], sep);
      assert [x[0]] + x[1..] == x;
    }
  }

  /** The first separator of `x + [sep] + y` ends the first piece. */
  lemma {:induction false} SplitAtFirstSep(x: string, sep: char, y: string)
    requires sep !in x
    ensures Split(x + [sep] + y, sep) == [x] + Split(y, sep)
    decreases |x|
  {
    var s := x + [sep] + y;
    if x == [] {
      assert s[1..] == y;
    } else {
      assert s[1..] == x[1..] + [sep] + y;
      SplitAtFirstSep(x[1..], sep, y);
      assert [x[0]] + x[1..] == x;
    }
  }

  /** Splitting the join of separator-free pieces gives back the pieces. */
  lemma {:induction false} SplitJoin(parts: seq<string>, sep: char)
    requires |parts| >= 1
    requires forall k :: 0 <= k < |parts| ==> sep !in parts[k]
    ensures Split(Join(parts, [sep]), sep) == parts
    decreases |parts|
  {
    if |parts| == 1 {
      SplitWithoutSep(parts[0], sep);
    } else {
      SplitJoin(parts[1..], sep);
      SplitAtFirstSep(parts[0], sep, Join(parts[1..], [sep]));
      assert [parts[0]] + parts[1..] == parts;
    }
  }

  /** Appending one more piece adds one separator and the piece. */
  lemma {:induction false} JoinSnoc(parts: seq<string>, x: string, sep: string)
    requires parts != []
    ensures Join(parts + [x], sep) == Join(parts, sep) + sep + x
    decreases |parts|
  {
    if |parts| > 1 {
      assert (parts + [x])[1..] == parts[1..] + [x];
      JoinSnoc(parts[1..], x, sep);
    }
  }

  /**
    `strings.Replace(s, string(c), repl, -1)`: every occurrence of the
    character `c` replaced by `repl`, left to right.
   */
  function ReplaceChar(s: string, c: char, repl: string): string
    decreases |s|
  {
    if s == [] then []
    else (if s[0] == c then repl else [s[0]]) + ReplaceChar(s[1..], c, repl)
  }

  /**
    What `ReplaceChar` leaves: no `c` unless `repl` brings one, text
    without `c` untouched, only characters of `s` other than `c` or of
    `repl`, and (for a non-empty `repl`) empty output only for empty input.
   */
  lemma {:induction false} ReplaceCharSpec(s: string, c: char, repl: string)
    ensures c !in repl ==> c !in ReplaceChar(s, c, repl)
    ensures c !in s ==> ReplaceChar(s, c, repl) == s
    ensures forall x :: x in ReplaceChar(s, c, repl) ==> (x in s && x != c) || x in repl
    ensures repl != [] ==> (ReplaceChar(s, c, repl) == [] <==> s == [])
    decreases |s|
  {
    if s != [] {
      ReplaceCharSpec(s[1..], c, repl);
      var head := if s[0] == c then repl else [s[0]];
      var rest := ReplaceChar(s[1..], c, repl);
      assert ReplaceChar(s, c, repl) == head + rest;
      assert forall x :: x in s[1..] ==> x in s;
      assert forall x :: x in head + rest <==> x in head || x in rest;
      if c !in s {
        assert c !in s[1..];
        assert [s[0]] + s[1..] == s;
      }
    }
  }

  /** Replacing works piece by piece: the replacement of a concatenation is the concatenation of the replacements. */
  lemma {:induction false} ReplaceCharAppend(a: string, b: string, c: char, repl: string)
    ensures ReplaceChar(a + b, c, repl) == ReplaceChar(a, c, repl) + ReplaceChar(b, c, repl)
    decreases |a|
  {
    if a == [] {
      assert a + b == b;
    } else {
      assert (a + b)[1..] == a[1..] + b;
      ReplaceCharAppend(a[1..], b, c, repl);
    }
  }
}
