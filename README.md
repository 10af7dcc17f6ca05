# Go by Example site generator: segmenter and catalog

This project models the core of the site generator `tools/generate.go` in
Dafny and proves properties of it. It covers two parts.

The segmenter, `parseSegs` with `parseAndRenderSegs`, takes an example file:
- It splits the file into lines and expands tabs.
- It groups the lines into segments at each empty line.
- It strips the comment marker from each documentation line. The marker is
  `docsPat`, whitespace then `//` or `#` then one whitespace character.
- It sets each segment's flags.
- It renders the non-empty documentation with a markdown engine.

The catalog builder, `parseExamples`, handles the manifest:
- It reads the example names from the manifest.
- It turns each name into a URL slug.
- It parses every file in the example's directory.
- It keeps the last non-empty file as the example's Go code.
- It links each example to its neighbours.

Modules:

- `Text` (`text.dfy`): the Go `strings` functions the generator uses.
  These are `Split` and `Join` on one separator, `Replace` of one
  character, `HasPrefix`, `HasSuffix` and `Contains`. The lemmas prove the
  split/join round trip and the facts about replacement.
- `Patterns` (`patterns.dfy`): the two regular expressions, each written
  out as the replacement it performs. `docsPat` is anchored, so it removes
  at most one prefix. `dashPat` is `-+` replaced by `-`. Go's `\s` is the
  class `[\t\n\f\r ]`.
- `Segmenter` (`segmenter.dfy`): `Seg`, `parseSegs`, `whichLexer` and
  `parseAndRenderSegs`.
  - The loops are methods, each proved against a function:
    - `ReadLines` against `ExpandedLines`;
    - `GroupLines` against `SegsOfRuns` of the maximal runs;
    - `SetFlags` against `Flagged`;
    - the render loop of `ParseAndRenderSegs` against `RenderedSegs`.
  - `ParseSegs` composes the first three. Its result is
    `SegmentsOf(MaximalRuns(ExpandedLines(src)))`: one segment per maximal
    run of non-empty lines.
  - `MaximalRuns` is defined independently of the loop. The lemmas connect
    the two and prove what the runs are.
- `Catalog` (`catalog.dfy`): `Example`, the manifest filter, the slug,
  building one example, and `parseExamples` with its linking loop.

In this version of the generator, `matchDocs` is the constant `true` and
`matchCode` is `!matchDocs`. Every non-empty line is therefore
documentation. The model keeps the code branch as written, and that branch
never runs. `lastSeen` only ever holds `""` or `"docs"`, so a new segment
opens exactly after an empty line. As a result:
- `Code` is always empty;
- `CodeEmpty` is always true;
- `CodeRun` is always false;
- `CodeLeading` is true for every segment but the last.

The manifest line is used whole as the example's name, as the code does.
The code splits no `name|display` pair out of the manifest line.

Pointers become values and indices:
- Each `*Seg` is reachable only from its own slice. Each `*Example` is
  reachable from the catalog slice and from its neighbours' `PrevExample`
  and `NextExample`.
- No update goes through those links. Every in-place update goes through
  the slice, so the updates become updates of a `seq`.
- The previous and next links become positions in the catalog
  (`Option<nat>`).

The file system and libraries become parameters:
- Reading a file becomes a parameter `read: string -> string`.
- Globbing becomes `glob: string -> seq<string>`.
- The blackfriday renderer becomes `markdown: string -> string`.
- The manifest `examples.txt` is passed as its text.

Each of the three Go loops in `parseSegs` is its own method:
`ReadLines`, `GroupLines` and `SetFlags`. `ParseSegs` calls them in order.
The three loops of `parseExamples` are `FilterManifest`, `BuildExamples`
and `LinkExamples`. The body of its loop over names is `BuildExample`.

## Model

| member | source | states |
|---|---|---|
| Text.Split | tools/generate.go:52-55 | `strings.Split` on one character: at least one piece, and no piece holds the separator |
| Text.JoinSplit | tools/generate.go:106-111 | joining the split lines with the same separator gives back the text, so `filecontent` is the file's text |
| Text.SplitJoin | tools/generate.go:52-55 | splitting the join of separator-free pieces gives back the pieces |
| Text.JoinSnoc | tools/generate.go:135 | appending a line to a joined text adds one separator and the line |
| Text.ContainsIffOccurs | tools/generate.go:153 | `Contains(s, sub)` holds exactly when `sub` occurs at some position of `s` |
| Text.ReplaceCharSpec | tools/generate.go:107 | replacing a character leaves none of it (unless the replacement has it), leaves text without it unchanged, introduces only characters of the text or of the replacement, and empties only the empty text |
| Text.ReplaceCharAppend | tools/generate.go:188-190 | replacement distributes over concatenation |
| Patterns.SpaceRun | tools/generate.go:81 | the greedy `\s*`: an all-whitespace prefix followed by a non-space or the end |
| Patterns.StripDocsRemovesMatch | tools/generate.go:80-81 | the strip removes exactly the one prefix `docsPat` matches: a removed prefix is a match, every match has that length, and the line is unchanged exactly when nothing matches |
| Patterns.StripDocsLineComment | tools/generate.go:130 | `"// hello"` becomes `"hello"` |
| Patterns.StripDocsIndentedHash | tools/generate.go:130 | `"  # heading"` becomes `"heading"` |
| Patterns.StripDocsNeedsSpace | tools/generate.go:130 | `"//x"` and a bare `"#"` are left unchanged |
| Patterns.CollapseDashesSpec | tools/generate.go:191 | after collapsing no two dashes are adjacent; text without adjacent dashes is unchanged; the same characters occur; the first character is kept |
| Patterns.CollapseDashesAround | tools/generate.go:191 | around any character other than a dash, the text on either side collapses on its own and the character keeps its place; with `CollapseDashRun` this fixes the result on every input |
| Patterns.CollapseDashRun | tools/generate.go:191 | a non-empty run of dashes collapses to one dash |
| Patterns.CollapseDashesExample | tools/generate.go:191 | `"a---b"` becomes `"a-b"` |
| Segmenter.ExpandTabs | tools/generate.go:107 | no tab remains, no newline is introduced, and a line expands to empty exactly when it was empty |
| Segmenter.ExpandAllAt | tools/generate.go:106-109 | expanded line `k` is line `k` of the file with its tabs expanded |
| Segmenter.BlockLenSpec | tools/generate.go:114-119 | the leading run of non-empty lines stops at the first empty line: every line before it is non-empty and the line it stops at is empty |
| Segmenter.MaximalRuns | tools/generate.go:113-148 | the reference grouping into maximal runs; a non-empty last line means at least one run |
| Segmenter.RunsWellFormed | tools/generate.go:114-136 | every run is non-empty, every line in a run is non-empty, and there are no runs exactly when every line is empty |
| Segmenter.LastRunNonEmpty | tools/generate.go:135 | the last run, which a continuing line extends, is never empty |
| Segmenter.MaximalRunsSnoc | tools/generate.go:114-148 | the runs grow line by line as the loop's `lastSeen` state machine grows segments: an empty line adds nothing, a line after an empty line opens a run, any other line extends the last run |
| Segmenter.ScanRuns | tools/generate.go:113-148 | the runs the segmenting loop builds; a non-empty last line means a last run exists and is non-empty |
| Segmenter.ScanRunsAreMaximal | tools/generate.go:113-148 | the loop's runs are exactly the maximal runs of non-empty lines |
| Segmenter.BlankLineSeparates | tools/generate.go:115-118 | an empty line always separates: the runs of `before + [""] + after` are the runs of `before` followed by the runs of `after` |
| Segmenter.NoBlankLineOneRun | tools/generate.go:124-136 | lines with no empty line form one run |
| Segmenter.RunsCoverNonBlankLines | tools/generate.go:114-148 | concatenating the runs gives every non-empty line once, in source order, and nothing else |
| Segmenter.OpenSegStep | tools/generate.go:131-133 | opening a segment for a line that starts a run keeps the segments equal to the runs |
| Segmenter.ExtendSegStep | tools/generate.go:134-136 | appending a line to the last segment's docs keeps the segments equal to the runs |
| Segmenter.RunDocsSnoc | tools/generate.go:135 | extending a run by a line extends its docs by a newline and the stripped line |
| Segmenter.ReadLines | tools/generate.go:101-111 | the lines are the split, tab-expanded text, and `filecontent` is the text itself |
| Segmenter.GroupLines | tools/generate.go:112-149 | the segmenting loop yields one unflagged segment per maximal run, in order |
| Segmenter.FlaggedWithoutCode | tools/generate.go:151-153 | a segment without code gets `CodeEmpty` true and `CodeRun` false |
| Segmenter.SetFlags | tools/generate.go:150-154 | every segment is flagged, and only the last one is not leading |
| Segmenter.ParseSegs | tools/generate.go:100-156 | `parseSegs` returns exactly one segment per maximal run of non-empty lines, in order. Each segment's docs are its run's stripped lines joined by newlines; code is empty; `CodeEmpty` is true; `CodeRun` is false; `CodeLeading` is true for all but the last. `filecontent` equals the text |
| Segmenter.SuffixesExclusive | tools/generate.go:64-67 | no path ends in both `.go` and `.sh` |
| Segmenter.WhichLexer | tools/generate.go:63-72 | `go` exactly for `.go` files, `console` exactly for `.sh` files, `hash` exactly otherwise; the panic is unreachable |
| Segmenter.RenderedSegs | tools/generate.go:165-169 | `DocsRendered` is the markdown of the docs when they are non-empty and stays empty otherwise; every other field is as parsed |
| Segmenter.ParseAndRenderSegs | tools/generate.go:158-172 | the rendering loop yields the rendered segments, and `filecontent` is the text |
| Segmenter.SplitAllEmpty | tools/generate.go:54 | every piece of a split is empty exactly when the text holds only separators |
| Segmenter.ExpandedBlank | tools/generate.go:107-115 | a line is empty after tab expansion exactly when it was empty before |
| Segmenter.NoSegmentsIffOnlyNewlines | tools/generate.go:114-119 | a file yields no segment exactly when it consists only of newlines (or is empty) |
| Segmenter.NoEmptyLineOneSegment | tools/generate.go:114-154 | a file with no empty line yields exactly one segment, holding every line, and it is not leading |
| Segmenter.RunLinesAreLines | tools/generate.go:114-136 | every line of a run is a line of the file |
| Segmenter.ExpandedHasNoNewline | tools/generate.go:106-107 | no expanded line holds a newline |
| Segmenter.DocsSplitBack | tools/generate.go:130-135 | a segment's docs split on newlines give back its run's stripped lines |
| Catalog.ExampleNames | tools/generate.go:176-180 | a manifest line is kept exactly when it is non-empty and does not start with `#` |
| Catalog.ExampleNamesAppend | tools/generate.go:176-180 | the filter keeps order: the names of two stretches of manifest are the names of each, in turn |
| Catalog.FilterManifest | tools/generate.go:175-180 | the filtering loop yields exactly the filtered manifest lines |
| Catalog.LowerAscii | tools/generate.go:187 | no lower-cased character is an upper-case ASCII letter, and other characters are unchanged |
| Catalog.ToLowerSpec | tools/generate.go:187 | no upper-case ASCII letter is left, and text without one is unchanged |
| Catalog.ToLowerAppend | tools/generate.go:187 | lower-casing distributes over concatenation |
| Catalog.ToLowerWord | tools/generate.go:187 | a word of ASCII letters lower-cases to lower-case letters |
| Catalog.SlugIsUrlSafe | tools/generate.go:187-191 | every ID has no upper-case ASCII letter, space, slash or apostrophe, and no two consecutive dashes |
| Catalog.SlugOfSlug | tools/generate.go:187-191 | a slug is its own ID |
| Catalog.SlugIdempotent | tools/generate.go:187-191 | making an ID twice changes nothing |
| Catalog.LowerContraction | tools/generate.go:187 | lower-casing `x'y z` lower-cases each word and keeps the apostrophe and the space |
| Catalog.SpaceToDash | tools/generate.go:188 | a single space between space-free texts becomes a dash |
| Catalog.DropQuote | tools/generate.go:190 | a single apostrophe between apostrophe-free texts vanishes |
| Catalog.OneDash | tools/generate.go:191 | a single dash between lower-case words leaves no double dash |
| Catalog.SlugOfContraction | tools/generate.go:187-191 | for words `x`, `y`, `z`, the ID of `x'y z` is `lower(x) + lower(y) + "-" + lower(z)`; "Don't Panic" is one instance |
| Catalog.DontPanic | tools/generate.go:187-191 | the name "Don't Panic" gets the ID "dont-panic" |
| Catalog.FileContents | tools/generate.go:195-199 | one text per matched file |
| Catalog.FileContentsAt | tools/generate.go:195-199 | text `k` is the content of matched file `k` |
| Catalog.FileSegs | tools/generate.go:195-201 | one list of rendered segments per matched file |
| Catalog.FileSegsAt | tools/generate.go:195-201 | entry `k` is the rendered segments of matched file `k`, so the lists follow glob order |
| Catalog.LastNonEmptyIsLast | tools/generate.go:197-199 | `GoCode` is empty exactly when every file is empty; otherwise it is the content of a file after which every file is empty |
| Catalog.BuiltExampleUnlinked | tools/generate.go:186 | a newly built example has no links |
| Catalog.BuildExample | tools/generate.go:186-201 | the example's ID is the name's slug. Its Go code is the last non-empty file, and it holds one list of rendered segments per file, in glob order |
| Catalog.BuiltAll | tools/generate.go:182-204 | one example per name |
| Catalog.BuiltAllAt | tools/generate.go:182-204 | example `k` is the one built for name `k` |
| Catalog.BuildExamples | tools/generate.go:182-204 | the loop over names builds one example per name, in manifest order |
| Catalog.LinkExamples | tools/generate.go:207-214 | entry `i` gets previous `i-1` exactly when `i > 0` and next `i+1` exactly when `i < n-1`; nothing else changes |
| Catalog.ParseExamples | tools/generate.go:174-216 | one example per manifest name, in manifest order; each is built as `BuildExample` states and is linked to its neighbours |
| Catalog.ForwardWalk | tools/generate.go:207-214 | following next-links from entry `i` visits `i`, `i+1`, …, `n-1`, each once, in order |
| Catalog.BackwardWalk | tools/generate.go:207-214 | following previous-links from entry `i` visits `i`, `i-1`, …, `0`, each once |

## Left out

- File and OS access is not modelled: `mustReadFile`, the file read in `readLines`, `copyFile`, `ensureDir` and `mustGlob` (tools/generate.go:30-61). Files become the `read` and `glob` parameters and the manifest text, and reads are taken to succeed. The `check` panic on error is not modelled.
- Template rendering, `renderIndex`, `renderExamples`, `main` and `siteDir` are not modelled (tools/generate.go:18, 218-264). They only feed templates and the file system.
- The blackfriday markdown engine (tools/generate.go:48-50) is the uninterpreted parameter `markdown`.
- The chroma `SimpleShellOutputLexer` rules (tools/generate.go:266-299) are configuration for an external lexer. `whichLexer`'s result is computed and discarded, as in the source.
- `verbose` and `debug` logging (tools/generate.go:20-22, 74-78, 127, 137, 146, 183-185) has no effect on results and is left out.
- Catalog.ToLower: lower-cases ASCII letters only. Go's `strings.ToLower` also maps non-ASCII letters; full Unicode case mapping is not modelled.
- The segment fields `CodeRendered` and `CodeForJs`, and the example's `GoCodeHash` and `URLHash` are never set by this code. They stay empty in the model.
- The link walks `FollowNext` and `FollowPrev` stop at a link that does not move forward (or backward). That guard never triggers on a linked catalog, which `ForwardWalk` and `BackwardWalk` cover.
