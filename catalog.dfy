/**
  The catalog builder of `tools/generate.go`: the manifest names the
  examples in order; each becomes an `Example` with a URL slug, the
  rendered segments of every file in its directory, the last non-empty
  file as its Go code, and links to its neighbours in the manifest.
  Globbing, reading files and rendering markdown are parameters.
 */
module Catalog {
  import opened Text
  import opened Patterns
  import opened Segmenter

  datatype Option<T> = None | Some(value: T)

  /**
    `Example`: the links to the previous and next example are their
    positions in the catalog. The two hash fields are never set by the
    generator and stay empty.
   */
  datatype Example = Example(
    id: string, name: string,
    goCode: string, goCodeHash: string, urlHash: string,
    segs: seq<seq<Seg>>,
    prevExample: Option<nat>, nextExample: Option<nat>)

  // ---------------------------------------------------------------------
  // The manifest

  /** A manifest line that names an example: not empty, not a `#` comment. */
  predicate IsDeclaration(line: string) {
    line != "" && !HasPrefix(line, "#")
  }

  /**
    The example names of the manifest's lines: the declarations, in order.
    A name is kept exactly when it is a declaring line of the manifest.
   */
  function ExampleNames(lines: seq<string>): (names: seq<string>)
    ensures |names| <= |lines|
    ensures forall x :: x in names <==> x in lines && IsDeclaration(x)
    decreases |lines|
  {
    if |lines| == 0 then []
    else
      var prefix := lines[..|lines| - 1];
      var line := lines[|lines| - 1];
      assert forall x :: x in lines <==> x in prefix || x == line;
      ExampleNames(prefix) + (if IsDeclaration(line) then [line] else [])
  }

  /** Filtering keeps order: the names of two stretches of manifest are the names of each, in turn. */
  lemma {:induction false} ExampleNamesAppend(a: seq<string>, b: seq<string>)
    ensures ExampleNames(a + b) == ExampleNames(a) + ExampleNames(b)
    decreases |b|
  {
    if |b| > 0 {
      var b' := b[..|b| - 1];
      assert (a + b)[..|a + b| - 1] == a + b';
      ExampleNamesAppend(a, b');
    } else {
      assert a + b == a;
    }
  }

  /** The names in the manifest file. */
  function ManifestNames(manifest: string): seq<string> {
    ExampleNames(Split(manifest, '\n'))
  }

  /** The first loop of `parseExamples`: the manifest's declaring lines, in order. */
  method FilterManifest(lines: seq<string>) returns (names: seq<string>)
    ensures names == ExampleNames(lines)
  {
    names := [];
    for i := 0 to |lines|
      invariant names == ExampleNames(lines[..i])
    {
      var line := lines[i];
      assert lines[..i + 1][..i] == lines[..i];
      if line != "" && !HasPrefix(line, "#") {
        names := names + [line];
      }
    }
    assert lines[..|lines|] == lines;
  }

  // ---------------------------------------------------------------------
  // Slugs

  predicate IsUpperAscii(c: char) {
    'A' <= c <= 'Z'
  }

  /** The lower-case letter of an upper-case ASCII letter; any other character as it is. */
  function LowerAscii(c: char): (r: char)
    ensures !IsUpperAscii(r)
    ensures !IsUpperAscii(c) ==> r == c
  {
    if IsUpperAscii(c) then (c as int + 32) as char else c
  }

  /** `strings.ToLower` on ASCII text: each character lower-cased on its own. */
  function ToLower(s: string): (r: string)
    ensures |r| == |s|
    decreases |s|
  {
    if |s| == 0 then [] else [LowerAscii(s[0])] + ToLower(s[1..])
  }

  /**
    No upper-case letter is left after `ToLower`, and text without
    upper-case letters is unchanged.
   */
  lemma {:induction false} ToLowerSpec(s: string)
    ensures forall c :: c in ToLower(s) ==> !IsUpperAscii(c)
    ensures (forall c :: c in s ==> !IsUpperAscii(c)) ==> ToLower(s) == s
    decreases |s|
  {
    if |s| > 0 {
      ToLowerSpec(s[1..]);
      assert forall c :: c in s[1..] ==> c in s;
      assert forall c :: c in ToLower(s) <==> c == LowerAscii(s[0]) || c in ToLower(s[1..]);
      assert [s[0]] + s[1..] == s;
    }
  }

  /**
    A slug is safe in a URL path: no upper-case ASCII letter, no space, no
    slash, no apostrophe, and no two dashes in a row.
   */
  predicate IsSlug(s: string) {
    && (forall c :: c in s ==> !IsUpperAscii(c) && c != ' ' && c != '/' && c != '\'')
    && NoDoubleDash(s)
  }

  /**
    The example ID made from its name: lower-cased, spaces and slashes
    turned into dashes, apostrophes dropped, runs of dashes collapsed.
   */
  function Slug(name: string): string {
    var lower := ToLower(name);
    var spaced := ReplaceChar(lower, ' ', "-");
    var slashed := ReplaceChar(spaced, '/', "-");
    var quoted := ReplaceChar(slashed, '\'', "");
    CollapseDashes(quoted)
  }

  /** Every ID is a slug. */
  lemma SlugIsUrlSafe(name: string)
    ensures IsSlug(Slug(name))
  {
    var lower := ToLower(name);
    var spaced := ReplaceChar(lower, ' ', "-");
    var slashed := ReplaceChar(spaced, '/', "-");
    var quoted := ReplaceChar(slashed, '\'', "");
    ToLowerSpec(name);
    ReplaceCharSpec(lower, ' ', "-");
    ReplaceCharSpec(spaced, '/', "-");
    ReplaceCharSpec(slashed, '\'', "");
    CollapseDashesSpec(quoted);
  }

  /** A slug is its own slug. */
  lemma SlugOfSlug(s: string)
    requires IsSlug(s)
    ensures Slug(s) == s
  {
    ToLowerSpec(s);
    ReplaceCharSpec(s, ' ', "-");
    ReplaceCharSpec(s, '/', "-");
    ReplaceCharSpec(s, '\'', "");
    CollapseDashesSpec(s);
  }

  /** Making a slug twice changes nothing. */
  lemma SlugIdempotent(name: string)
    ensures Slug(Slug(name)) == Slug(name)
  {
    SlugIsUrlSafe(name);
    SlugOfSlug(Slug(name));
  }

  /** Lower-casing works piece by piece. */
  lemma {:induction false} ToLowerAppend(a: string, b: string)
    ensures ToLower(a + b) == ToLower(a) + ToLower(b)
    decreases |a|
  {
    if a == [] {
      assert a + b == b;
    } else {
      assert (a + b)[1..] == a[1..] + b;
      ToLowerAppend(a[1..], b);
    }
  }

  /** `s` is made of ASCII letters only. */
  predicate IsWord(s: string) {
    forall k :: 0 <= k < |s| ==> 'a' <= s[k] <= 'z' || 'A' <= s[k] <= 'Z'
  }

  /** A word lower-cases to a word without capitals. */
  lemma {:induction false} ToLowerWord(s: string)
    requires IsWord(s)
    ensures IsWord(ToLower(s))
    ensures forall k :: 0 <= k < |s| ==> 'a' <= ToLower(s)[k] <= 'z'
    decreases |s|
  {
    if |s| > 0 {
      ToLowerWord(s[1..]);
      var r := ToLower(s);
      assert forall k :: 1 <= k < |s| ==> r[k] == ToLower(s[1..])[k - 1];
    }
  }

  /** A word has no dash, space, slash or apostrophe. */
  lemma WordPunctuation(s: string)
    requires forall k :: 0 <= k < |s| ==> 'a' <= s[k] <= 'z'
    ensures '-' !in s && ' ' !in s && '/' !in s && '\'' !in s
  {
  }

  /** Lower-case letters around a single dash: no two dashes are adjacent. */
  lemma OneDash(a: string, b: string, c: string)
    requires forall k :: 0 <= k < |a| ==> 'a' <= a[k] <= 'z'
    requires forall k :: 0 <= k < |b| ==> 'a' <= b[k] <= 'z'
    requires forall k :: 0 <= k < |c| ==> 'a' <= c[k] <= 'z'
    ensures NoDoubleDash(a + b + "-" + c)
  {
    var s := a + b + "-" + c;
    forall k | 0 <= k < |s| - 1
      ensures !(s[k] == '-' && s[k + 1] == '-')
    {
      if k < |a| {
        assert s[k] == a[k];
      } else if k < |a| + |b| {
        assert s[k] == b[k - |a|];
      } else {
        assert s[k + 1] == c[k - |a| - |b|];
      }
    }
  }

  /** Lower-casing leaves an apostrophe and a space alone. */
  lemma LowerPunctuation()
    ensures ToLower("'") == "'" && ToLower(" ") == " "
  {
  }

  /** Lower-casing `x'y z` lower-cases the three words. */
  lemma LowerContraction(x: string, y: string, z: string)
    ensures ToLower(x + "'" + y + " " + z) == ToLower(x) + "'" + ToLower(y) + " " + ToLower(z)
  {
    ToLowerAppend(x + "'" + y + " ", z);
    ToLowerAppend(x + "'" + y, " ");
    ToLowerAppend(x + "'", y);
    ToLowerAppend(x, "'");
    LowerPunctuation();
  }

  /** The one space between two space-free texts becomes a dash. */
  lemma SpaceToDash(a: string, b: string)
    requires ' ' !in a && ' ' !in b
    ensures ReplaceChar(a + " " + b, ' ', "-") == a + "-" + b
  {
    ReplaceCharAppend(a + " ", b, ' ', "-");
    ReplaceCharAppend(a, " ", ' ', "-");
    ReplaceCharSpec(a, ' ', "-");
    ReplaceCharSpec(b, ' ', "-");
    assert ReplaceChar(" ", ' ', "-") == "-";
  }

  /** An apostrophe between two apostrophe-free texts vanishes. */
  lemma DropQuote(a: string, b: string, c: string)
    requires '\'' !in a && '\'' !in b && '\'' !in c
    ensures ReplaceChar(a + "'" + b + "-" + c, '\'', "") == a + b + "-" + c
  {
    ReplaceCharAppend(a + "'" + b + "-", c, '\'', "");
    ReplaceCharAppend(a + "'" + b, "-", '\'', "");
    ReplaceCharAppend(a + "'", b, '\'', "");
    ReplaceCharAppend(a, "'", '\'', "");
    ReplaceCharSpec(a, '\'', "");
    ReplaceCharSpec(b, '\'', "");
    ReplaceCharSpec(c, '\'', "");
    assert ReplaceChar("-", '\'', "") == "-";
    assert ReplaceChar("'", '\'', "") == "";
    assert a + "" == a;
  }

  /**
    Worked case, for any words: in a name of the form `x'y z` the
    apostrophe vanishes, the space becomes a dash and the letters are
    lower-cased; "Don't Panic" becomes "dont-panic".
   */
  lemma SlugOfContraction(x: string, y: string, z: string)
    requires IsWord(x) && IsWord(y) && IsWord(z)
    ensures Slug(x + "'" + y + " " + z) == ToLower(x) + ToLower(y) + "-" + ToLower(z)
  {
    var lx, ly, lz := ToLower(x), ToLower(y), ToLower(z);
    ToLowerWord(x);
    ToLowerWord(y);
    ToLowerWord(z);
    WordPunctuation(lx);
    WordPunctuation(ly);
    WordPunctuation(lz);
    LowerContraction(x, y, z);
    SpaceToDash(lx + "'" + ly, lz);
    ReplaceCharSpec(lx + "'" + ly + "-" + lz, '/', "-");
    DropQuote(lx, ly, lz);
    OneDash(lx, ly, lz);
    CollapseDashesSpec(lx + ly + "-" + lz);
  }

  /** The name "Don't Panic" gets the ID "dont-panic". */
  lemma DontPanic(name: string)
    requires name == "Don't Panic"
    ensures Slug(name) == "dont-panic"
  {
    var x, y, z := "Don", "t", "Panic";
    assert name == x + "'" + y + " " + z;
    SlugOfContraction(x, y, z);
    DontPanicWords();
  }

  /** The three words of "Don't Panic", lower-cased. */
  lemma DontPanicWords()
    ensures ToLower("Don") == "don" && ToLower("t") == "t" && ToLower("Panic") == "panic"
  {
    assert ToLower("Panic") == "panic";
  }

  // ---------------------------------------------------------------------
  // One example

  /** The glob that lists an example's files. */
  function SourcePattern(id: string): string {
    "examples/" + id + "/*"
  }

  /** The text of each file, in order. */
  function FileContents(paths: seq<string>, read: string -> string): (contents: seq<string>)
    ensures |contents| == |paths|
    decreases |paths|
  {
    if |paths| == 0 then []
    else FileContents(paths[..|paths| - 1], read) + [read(paths[|paths| - 1])]
  }

  /** Text `k` is the content of file `k`. */
  lemma {:induction false} FileContentsAt(paths: seq<string>, read: string -> string, k: nat)
    requires k < |paths|
    ensures FileContents(paths, read)[k] == read(paths[k])
    decreases |paths|
  {
    if k < |paths| - 1 {
      FileContentsAt(paths[..|paths| - 1], read, k);
    }
  }

  /** The rendered segments of each file, in order. */
  function FileSegs(paths: seq<string>, read: string -> string, markdown: string -> string): (segs: seq<seq<Seg>>)
    ensures |segs| == |paths|
    decreases |paths|
  {
    if |paths| == 0 then []
    else FileSegs(paths[..|paths| - 1], read, markdown) + [RenderedSegs(read(paths[|paths| - 1]), markdown)]
  }

  /** Entry `k` is the rendered segments of file `k`. */
  lemma {:induction false} FileSegsAt(paths: seq<string>, read: string -> string, markdown: string -> string, k: nat)
    requires k < |paths|
    ensures FileSegs(paths, read, markdown)[k] == RenderedSegs(read(paths[k]), markdown)
    decreases |paths|
  {
    if k < |paths| - 1 {
      FileSegsAt(paths[..|paths| - 1], read, markdown, k);
    }
  }

  /** The last non-empty text, or the empty text when there is none. */
  function LastNonEmpty(contents: seq<string>): string
    decreases |contents|
  {
    if |contents| == 0 then ""
    else if contents[|contents| - 1] != "" then contents[|contents| - 1]
    else LastNonEmpty(contents[..|contents| - 1])
  }

  /**
    `LastNonEmpty` is empty exactly when every text is, and otherwise it is
    some text after which every text is empty.
   */
  lemma {:induction false} LastNonEmptyIsLast(contents: seq<string>)
    ensures LastNonEmpty(contents) == "" <==> forall k :: 0 <= k < |contents| ==> contents[k] == ""
    ensures LastNonEmpty(contents) != "" ==>
      exists i :: 0 <= i < |contents| && contents[i] == LastNonEmpty(contents) &&
        forall j :: i < j < |contents| ==> contents[j] == ""
    decreases |contents|
  {
    if |contents| > 0 {
      var prefix := contents[..|contents| - 1];
      LastNonEmptyIsLast(prefix);
      if contents[|contents| - 1] == "" {
        assert forall k :: 0 <= k < |prefix| ==> contents[k] == prefix[k];
        if LastNonEmpty(prefix) != "" {
          var i :| 0 <= i < |prefix| && prefix[i] == LastNonEmpty(prefix) &&
            forall j :: i < j < |prefix| ==> prefix[j] == "";
          assert contents[i] == LastNonEmpty(contents);
        }
      } else {
        assert contents[|contents| - 1] == LastNonEmpty(contents);
      }
    }
  }

  /**
    The example `parseExamples` builds for a name, before it is linked:
    its ID is the name's slug, its Go code is the last non-empty file in
    its directory, and it holds one list of rendered segments per file, in
    the order the glob lists them.
   */
  function BuiltExample(name: string, glob: string -> seq<string>, read: string -> string,
                        markdown: string -> string): Example
  {
    var id := Slug(name);
    var paths := glob(SourcePattern(id));
    Example(id, name, LastNonEmpty(FileContents(paths, read)), "", "", FileSegs(paths, read, markdown), None, None)
  }

  /** A freshly built example has no links. */
  lemma BuiltExampleUnlinked(name: string, glob: string -> seq<string>, read: string -> string,
                             markdown: string -> string)
    ensures var e := BuiltExample(name, glob, read, markdown);
      e.(prevExample := None, nextExample := None) == e
  {
  }

  /**
    The body of the loop over names in `parseExamples`: the ID is made
    step by step from the name, then every file of the example's directory
    is parsed and rendered; a non-empty file replaces the Go code, and its
    segments are appended.
   */
  method BuildExample(name: string, glob: string -> seq<string>, read: string -> string,
                      markdown: string -> string) returns (example: Example)
    ensures example == BuiltExample(name, glob, read, markdown)
  {
    var id := ToLower(name);
    id := ReplaceChar(id, ' ', "-");
    id := ReplaceChar(id, '/', "-");
    id := ReplaceChar(id, '\'', "");
    id := CollapseDashes(id);
    example := Example(id, name, "", "", "", [], None, None);
    var paths := glob(SourcePattern(id));
    for j := 0 to |paths|
      invariant example == Example(id, name, LastNonEmpty(FileContents(paths[..j], read)), "", "",
                                   FileSegs(paths[..j], read, markdown), None, None)
    {
      assert paths[..j + 1][..j] == paths[..j];
      var sourceSegs, filecontents := ParseAndRenderSegs(paths[j], read(paths[j]), markdown);
      if filecontents != "" {
        example := example.(goCode := filecontents);
      }
      example := example.(segs := example.segs + [sourceSegs]);
    }
    assert paths[..|paths|] == paths;
  }

  // ---------------------------------------------------------------------
  // The catalog

  /** The examples built for the names, in order, before they are linked. */
  function BuiltAll(names: seq<string>, glob: string -> seq<string>, read: string -> string,
                    markdown: string -> string): (built: seq<Example>)
    ensures |built| == |names|
    decreases |names|
  {
    if |names| == 0 then []
    else BuiltAll(names[..|names| - 1], glob, read, markdown) + [BuiltExample(names[|names| - 1], glob, read, markdown)]
  }

  lemma {:induction false} BuiltAllAt(names: seq<string>, k: nat, glob: string -> seq<string>,
                                      read: string -> string, markdown: string -> string)
    requires k < |names|
    ensures BuiltAll(names, glob, read, markdown)[k] == BuiltExample(names[k], glob, read, markdown)
    decreases |names|
  {
    if k < |names| - 1 {
      BuiltAllAt(names[..|names| - 1], k, glob, read, markdown);
    }
  }

  /** An example with its links set for position `i` of `n`. */
  function WithLinks(e: Example, i: nat, n: nat): Example {
    e.(prevExample := if i > 0 then Some(i - 1) else None,
       nextExample := if i + 1 < n then Some(i + 1) else None)
  }

  /** Every example links back to the one before it and on to the one after it, and the ends have no link outward. */
  predicate Linked(examples: seq<Example>) {
    forall i :: 0 <= i < |examples| ==>
      && examples[i].prevExample == (if i > 0 then Some(i - 1) else None)
      && examples[i].nextExample == (if i + 1 < |examples| then Some(i + 1) else None)
  }

  /** The last loop of `parseExamples`: each example gets links to its neighbours. */
  method LinkExamples(unlinked: seq<Example>) returns (examples: seq<Example>)
    requires forall i :: 0 <= i < |unlinked| ==> unlinked[i].prevExample == None && unlinked[i].nextExample == None
    ensures |examples| == |unlinked|
    ensures Linked(examples)
    ensures forall i :: 0 <= i < |examples| ==>
      examples[i].(prevExample := None, nextExample := None) == unlinked[i].(prevExample := None, nextExample := None)
  {
    examples := unlinked;
    for i := 0 to |examples|
      invariant |examples| == |unlinked|
      invariant forall m :: 0 <= m < i ==> examples[m] == WithLinks(unlinked[m], m, |unlinked|)
      invariant forall m :: i <= m < |examples| ==> examples[m] == unlinked[m]
    {
      var example := examples[i];
      if i > 0 {
        example := example.(prevExample := Some(i - 1));
      }
      if i < |examples| - 1 {
        example := example.(nextExample := Some(i + 1));
      }
      examples := examples[i := example];
    }
  }

  /** The second loop of `parseExamples`: one example built per name, in order. */
  method BuildExamples(names: seq<string>, glob: string -> seq<string>, read: string -> string,
                       markdown: string -> string) returns (built: seq<Example>)
    ensures built == BuiltAll(names, glob, read, markdown)
  {
    built := [];
    for i := 0 to |names|
      invariant built == BuiltAll(names[..i], glob, read, markdown)
    {
      var example := BuildExample(names[i], glob, read, markdown);
      assert names[..i + 1][..i] == names[..i];
      built := built + [example];
    }
    assert names[..|names|] == names;
  }

  /**
    `parseExamples`: one example per name in the manifest, in manifest
    order, each built as `BuiltExample` describes and linked to its
    neighbours.
   */
  method ParseExamples(manifest: string, glob: string -> seq<string>, read: string -> string,
                       markdown: string -> string) returns (examples: seq<Example>)
    ensures |examples| == |ManifestNames(manifest)|
    ensures forall i :: 0 <= i < |examples| ==>
      examples[i].(prevExample := None, nextExample := None) == BuiltExample(ManifestNames(manifest)[i], glob, read, markdown)
    ensures Linked(examples)
  {
    var names := FilterManifest(Split(manifest, '\n'));
    var built := BuildExamples(names, glob, read, markdown);
    forall i | 0 <= i < |built|
      ensures built[i].prevExample == None && built[i].nextExample == None
    {
      BuiltAllAt(names, i, glob, read, markdown);
    }
    examples := LinkExamples(built);
    forall i | 0 <= i < |examples|
      ensures examples[i].(prevExample := None, nextExample := None) == BuiltExample(names[i], glob, read, markdown)
    {
      BuiltAllAt(names, i, glob, read, markdown);
      BuiltExampleUnlinked(names[i], glob, read, markdown);
    }
  }

  // ---------------------------------------------------------------------
  // Walking the links

  /** The positions visited by following next-links from position `i`. */
  function FollowNext(examples: seq<Example>, i: nat): seq<nat>
    decreases |examples| - i
  {
    if i >= |examples| then []
    else match examples[i].nextExample
      case Some(j) => if i < j then [i] + FollowNext(examples, j) else [i]
      case None => [i]
  }

  /** The positions visited by following previous-links from position `i`. */
  function FollowPrev(examples: seq<Example>, i: nat): seq<nat>
    decreases i
  {
    if i >= |examples| then []
    else match examples[i].prevExample
      case Some(j) => if j < i then [i] + FollowPrev(examples, j) else [i]
      case None => [i]
  }

  /** Following next-links from `i` visits every later example once, in manifest order. */
  lemma {:induction false} ForwardWalk(examples: seq<Example>, i: nat)
    requires Linked(examples)
    requires i <= |examples|
    ensures |FollowNext(examples, i)| == |examples| - i
    ensures forall k :: 0 <= k < |examples| - i ==> FollowNext(examples, i)[k] == i + k
    decreases |examples| - i
  {
    if i < |examples| {
      ForwardWalk(examples, i + 1);
      var rest := FollowNext(examples, i + 1);
      if i + 1 < |examples| {
        assert examples[i].nextExample == Some(i + 1);
        assert FollowNext(examples, i) == [i] + rest;
      } else {
        assert examples[i].nextExample == None;
        assert FollowNext(examples, i) == [i];
      }
    }
  }

  /** Following previous-links from `i` visits every earlier example once, in reverse manifest order. */
  lemma {:induction false} BackwardWalk(examples: seq<Example>, i: nat)
    requires Linked(examples)
    requires i < |examples|
    ensures |FollowPrev(examples, i)| == i + 1
    ensures forall k :: 0 <= k <= i ==> FollowPrev(examples, i)[k] == i - k
    decreases i
  {
    if i > 0 {
      BackwardWalk(examples, i - 1);
      assert examples[i].prevExample == Some(i - 1);
      assert FollowPrev(examples, i) == [i] + FollowPrev(examples, i - 1);
    } else {
      assert examples[i].prevExample == None;
    }
  }
}
