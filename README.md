# README table-of-contents generator, modelled in Dafny

`scripts/update-readme.js` rebuilds the table of contents and the body of a
question collection's README. It works in four steps:

- It walks the `collection` folder and collects every `.md` file.
- It groups the files into sections. A file directly in the folder is a
  section of its own. A file deeper down joins the section of its
  capitalised top-level folder.
- It renders the sections named in a fixed order. Each rendered section
  gets a table-of-contents line and a body. The body lists links to the
  `## ` headings of its files.
- It cuts the README at the first `## Table of Contents` and appends the
  new table, the bodies, and fixed "Contributing" and "License" blocks.

The model follows the script's structure, one Dafny module per concern:

| module | file | models |
|---|---|---|
| `Text` | `text.dfy` | JavaScript's ASCII `toLowerCase`/`toUpperCase`, `split` on one character, `join`, `indexOf` |
| `Anchor` | `anchor.dfy` | the five-step anchor chain of lines 63-69 |
| `AnchorLaws` | `anchor_laws.dfy` | what each step of that chain keeps, and how it acts on a text cut in two |
| `Headings` | `headings.dfy` | `generateSectionLinks`: the `^##\s+(.*)` match, one link per heading, the join |
| `Collector` | `collector.dfy` | `getMarkdownFiles`, over a tree of entries instead of the disk |
| `Sections` | `sections.dfy` | `capitalizeFirstLetter`, `path.basename(file, '.md')`, the grouping loop |
| `Readme` | `readme.dfy` | the fixed constants, the rendering loop and the splice |

Every loop of the script is a Dafny `method` with a `while` loop. Each
such method is proved equal to a recursive specification function:

- `GetMarkdownFiles` is proved equal to `FilesIn`.
- `GenerateSectionLinks` is proved equal to `SectionLinks`.
- `GroupSections` is proved equal to `Group`.
- `RenderSections` and `RenderFolder` are proved equal to `TocOf`, `BodyOf` and `SectionBlock`.
- `UpdateReadme` is proved equal to `Update`.

The lemmas then state what those functions mean. For example:

- the anchor of a plain heading is its lower-cased words joined by hyphens;
- the grouping fails exactly at a clash;
- the splice keeps the text before the marker;
- a second run changes nothing.

The script's filesystem reads and its console output are parameters or
results here. The README text and the collection tree are inputs, and the
new README text is the output.

Files whose section keys coincide overwrite one another, or share a
folder's section, in three cases:

- a top-level file comes after a folder with the same key, and replaces it;
- a top-level file comes after another top-level file with the same key,
  and replaces it;
- a deeper file comes after another deeper file with the same key, and
  joins that folder's section.

In the fourth case, a deeper file that comes after a top-level file with
the same key, the script throws a `TypeError`. `sections[folderName]` then
holds a `type: 'file'` object, so `.files.push` fails, and the README is
not written. The model returns `Crashed(key)` from `Group` and
`GroupingFailed(key)` from `Update` there. `Sections.GroupSpec` proves
exactly when this happens.

## Model

| member | source | states |
|---|---|---|
| Text.LowerChar | scripts/update-readme.js:64 | an ASCII capital becomes its lower-case letter (32 code points on); every other character is unchanged |
| Text.UpperChar | scripts/update-readme.js:78 | an ASCII lower-case letter becomes its capital; every other character is unchanged |
| Text.ToLower | scripts/update-readme.js:64 | lower-casing keeps the length and maps each character on its own |
| Text.ToLowerAppend | scripts/update-readme.js:64 | lower-casing a concatenation lower-cases each part |
| Text.Join | scripts/update-readme.js:74 | `links.join('\n')`: the parts with the separator between each two; its meaning is stated by `Text.JoinSplit` and `Text.SplitJoin` |
| Text.Split | scripts/update-readme.js:55 | `split('\n')` always gives at least one piece, and no piece contains the separator |
| Text.JoinSplit | scripts/update-readme.js:55 | joining the pieces of a split with the separator gives back the text |
| Text.SplitJoin | scripts/update-readme.js:74 | splitting a join of separator-free pieces gives back the pieces |
| Text.IndexFrom | scripts/update-readme.js:83 | the search returns the first occurrence at or after the start index, and none when there is none |
| Text.IndexOf | scripts/update-readme.js:83 | `indexOf` gives the first occurrence of the marker, and -1 (`None`) exactly when it does not occur |
| Text.IndexOfIs | scripts/update-readme.js:83 | an occurrence with none before it is what `indexOf` returns |
| Text.OccursAtSamePrefix | scripts/update-readme.js:83 | whether the marker occurs at an index depends only on the text up to the marker's end |
| Anchor.SkipOthers | scripts/update-readme.js:65 | the run `[^a-z0-9&]+` that is matched greedily is dropped, and what is left starts with a kept character |
| Anchor.SkipOthersIsSuffix | scripts/update-readme.js:65 | what the greedy run leaves is a suffix of the text |
| Anchor.ReplaceOthers | scripts/update-readme.js:65 | after the first replacement only `[a-z0-9&]` and `_` remain, a text starting with a kept character starts with it still, one starting with another character starts with `_`; with `AnchorLaws.ReplaceOthersAppend` (cut after a kept character), `AnchorLaws.ReplaceOthersRunThen` (a maximal run of others before a kept character or the end becomes one `_`) and `AnchorLaws.ReplaceOthersOfKept` (kept text stays) this fixes the result on every input, run by run |
| Anchor.ExpandAmpersands | scripts/update-readme.js:66 | no `&` survives the second replacement, and a leading `&` becomes a hyphen; `AnchorLaws.ExpandAmpersandsAppend` and `AnchorLaws.ExpandAmpersandsOne` state that each `&` becomes `--` and every other character stays |
| Anchor.SkipUnderscores | scripts/update-readme.js:67 | the greedy `_+` leaves a text not starting with `_`, and leaves a text that does not start with `_` as it is; `AnchorLaws.SkipUnderscoresIsSuffix` states that only the leading run of `_` is dropped |
| Anchor.CollapseUnderscores | scripts/update-readme.js:67 | no underscore survives the third replacement; `AnchorLaws.CollapseUnderscoresAppend` (cut after a non-`_`), `AnchorLaws.CollapseUnderscoresRunThen` (a maximal run of `_` before another character or the end becomes one `-`) and `AnchorLaws.CollapseUnderscoresWithout` fix the result on every input, run by run |
| Anchor.TrimHyphens | scripts/update-readme.js:68 | the trimmed text keeps slug text slug text, and a text free of double hyphens then neither starts nor ends with one; `Anchor.TrimAround` states that at most one hyphen goes at each end (`--c` gives `-c`) |
| Anchor.CollapseQuadHyphens | scripts/update-readme.js:69 | the last replacement keeps slug text slug text; `AnchorLaws.CollapseQuadHyphensFour`, `AnchorLaws.CollapseQuadHyphensAppend` and `AnchorLaws.CollapseQuadHyphensWithoutQuad` state the `----` to `--` collapse and that nothing else changes |
| Anchor.Dashify | scripts/update-readme.js:65-67 | the one-pass reference definition yields only slug characters, is empty only for empty input, and begins as the input's first character dictates; `AnchorLaws.DashifyFilter` states that its letters and digits are the input's, in order |
| Anchor.Anchor | scripts/update-readme.js:63-69 | every anchor consists of `a`-`z`, `0`-`9` and `-` only |
| Anchor.MiddleStepsAreDashify | scripts/update-readme.js:65-67 | the three middle replacements, applied in the script's order, equal the one-pass reference `Dashify` on every input |
| Anchor.AnchorViaDashify | scripts/update-readme.js:63-69 | the anchor is the trim and the quad-hyphen collapse applied to `Dashify` of the lower-cased heading |
| Anchor.TakeWord | scripts/update-readme.js:65 | the leading word contains no space, and is followed by a space or the end |
| Anchor.Words | scripts/update-readme.js:65 | a text's words are non-empty and contain no space |
| Anchor.DashifyWords | scripts/update-readme.js:65-67 | on lower-case letters, digits and spaces, the middle steps give the words joined by single hyphens, plus a hyphen when the text ends in spaces |
| Anchor.PlainSlug | scripts/update-readme.js:65-69 | on lower-case plain text, the last four steps give exactly the words joined by single hyphens |
| Anchor.AnchorOfPlainHeading | scripts/update-readme.js:63-69 | a heading of ASCII letters, digits and spaces gets its lower-cased words joined by single hyphens |
| Anchor.JoinWordsShape | scripts/update-readme.js:67-68 | words joined by single hyphens have no double hyphen and no hyphen at either end |
| Anchor.WordsAreAlnum | scripts/update-readme.js:65 | the words of lower-case plain text contain no hyphen |
| Anchor.CollapseQuadHyphensKeepsSingles | scripts/update-readme.js:69 | a text without double hyphens is left alone by the `----` replacement |
| Anchor.TrimAround | scripts/update-readme.js:68 | trimming removes exactly one optional hyphen at each end and no more: a text may keep a hyphen at an end when one was in front of it or after it |
| Anchor.DashifyWithoutAmpersand | scripts/update-readme.js:65-67 | without `&`, the middle steps never produce two hyphens side by side |
| Anchor.AnchorWithoutAmpersandIsNormal | scripts/update-readme.js:63-69 | a heading without `&` gets a normal slug: no double hyphen, none at either end |
| Anchor.DashifyKeepsSlug | scripts/update-readme.js:65-67 | the middle steps leave slug text with single inner hyphens unchanged |
| Anchor.AnchorOfNormalSlug | scripts/update-readme.js:63-69 | a normal slug is its own anchor |
| Anchor.AnchorIdempotentWithoutAmpersand | scripts/update-readme.js:63-69 | for a heading without `&`, taking the anchor of the anchor changes nothing |
| Anchor.LowerAlnumWord | scripts/update-readme.js:64 | lower-casing an ASCII alphanumeric word gives a lower-case alphanumeric word |
| Anchor.AnchorOfAmpersand | scripts/update-readme.js:63-69 | `a&b` and `a & b` both get the anchor `a--b` (lower-cased): the `----` collapse turns the spaced form into the tight one |
| Anchor.AnchorOfAmpersandAnchor | scripts/update-readme.js:63-69 | the anchor is not idempotent once `&` is involved: the anchor of `a--b` is `a-b` |
| Anchor.DoubleHyphenSteps | scripts/update-readme.js:65-69 | a double hyphen between two words collapses to one |
| AnchorLaws.ReplaceOthersFilter | scripts/update-readme.js:65 | every character of `[a-z0-9&]` (or of any part of that class) survives the first replacement, in order |
| AnchorLaws.ReplaceOthersAppend | scripts/update-readme.js:65 | a text cut after a kept character is replaced part by part: no run of other characters reaches across a kept one |
| AnchorLaws.ReplaceOthersRun | scripts/update-readme.js:65 | a whole run of characters outside `[a-z0-9&]` becomes exactly one `_` |
| AnchorLaws.ReplaceOthersRunThen | scripts/update-readme.js:65 | a maximal run outside `[a-z0-9&]` followed by a kept character (or by nothing) becomes one `_` in front of the replaced rest |
| AnchorLaws.ReplaceOthersOfKept | scripts/update-readme.js:65 | a text of `[a-z0-9&]` characters only is left as it is |
| AnchorLaws.ExpandAmpersandsAppend | scripts/update-readme.js:66 | the second replacement works part by part on any cut of the text |
| AnchorLaws.ExpandAmpersandsOne | scripts/update-readme.js:66 | one `&` becomes `--`, any other character stays itself |
| AnchorLaws.ExpandAmpersandsLength | scripts/update-readme.js:66 | the text grows by exactly one character per `&` |
| AnchorLaws.ExpandAmpersandsFilter | scripts/update-readme.js:66 | every character other than `&` and `-` survives, in order |
| AnchorLaws.ExpandAmpersandsWithout | scripts/update-readme.js:66 | a text without `&` is left as it is |
| AnchorLaws.SkipUnderscoresIsSuffix | scripts/update-readme.js:67 | what the greedy `_+` leaves is a suffix, and everything dropped is `_` |
| AnchorLaws.CollapseUnderscoresAppend | scripts/update-readme.js:67 | a text cut after a character other than `_` is collapsed part by part |
| AnchorLaws.CollapseUnderscoresRun | scripts/update-readme.js:67 | a whole run of `_` becomes exactly one `-` |
| AnchorLaws.CollapseUnderscoresRunThen | scripts/update-readme.js:67 | a maximal run of `_` followed by a character other than `_` (or by nothing) becomes one `-` in front of the collapsed rest |
| AnchorLaws.CollapseUnderscoresWithout | scripts/update-readme.js:67 | a text without `_` is left as it is |
| AnchorLaws.CollapseUnderscoresFilter | scripts/update-readme.js:67 | every character other than `_` and `-` survives, in order |
| AnchorLaws.TrimHyphensFilter | scripts/update-readme.js:68 | trimming removes hyphens only: every other character survives, in order |
| AnchorLaws.CollapseQuadHyphensFour | scripts/update-readme.js:69 | four hyphens at the front become two, and the scan goes on after them |
| AnchorLaws.CollapseQuadHyphensAppend | scripts/update-readme.js:69 | a text cut after a character other than `-` is collapsed part by part |
| AnchorLaws.CollapseQuadHyphensWithoutQuad | scripts/update-readme.js:69 | a text in which `----` does not occur is left as it is |
| AnchorLaws.CollapseQuadHyphensFilter | scripts/update-readme.js:69 | every character other than `-` survives, in order |
| AnchorLaws.DashifyFilter | scripts/update-readme.js:65-67 | the three middle replacements keep exactly the letters and digits, in order |
| AnchorLaws.AnchorFilter | scripts/update-readme.js:63-69 | an anchor holds exactly the letters and digits of the lower-cased heading, in order; only hyphens are added or removed |
| AnchorLaws.DashifyAppend | scripts/update-readme.js:65-67 | a text cut after a character of `[a-z0-9&]` goes through the middle steps part by part |
| AnchorLaws.DashifySpacedCons | scripts/update-readme.js:65-67 | ` & ` before a character of `[a-z0-9&]` becomes four hyphens |
| AnchorLaws.AnchorAroundAmpersand | scripts/update-readme.js:63-69 | between two headings of letters, digits and spaces that meet it with a letter or digit, `&` and ` & ` both join the two anchors with `--` |
| AnchorLaws.AnchorOfLeadingAmpersand | scripts/update-readme.js:63-69 | a heading that opens with `&` before a plain word keeps one of the two hyphens: its anchor is `-` followed by the word's anchor (`&A` gives `-a`) |
| Headings.SkipSpaces | scripts/update-readme.js:60 | the greedy `\s+` leaves a text that is empty or starts with a non-space |
| Headings.SkipSpacesSuffix | scripts/update-readme.js:60 | `\s+` drops a prefix made only of whitespace |
| Headings.UpToTerminator | scripts/update-readme.js:60 | the greedy `.*` takes no line terminator |
| Headings.UpToTerminatorPrefix | scripts/update-readme.js:60 | `.*` takes a prefix and stops only at the end or at a line terminator |
| Headings.MatchHeading | scripts/update-readme.js:60-61 | a line matches `^##\s+(.*)` exactly when it starts with `##` and a whitespace character |
| Headings.MatchHeadingCaptures | scripts/update-readme.js:60-62 | the capture is the text after the longest whitespace run following `##`, up to the first line terminator |
| Headings.CaptureIsUnique | scripts/update-readme.js:60-62 | that description pins down where the capture starts and what it is |
| Headings.CaptureHasNoNewline | scripts/update-readme.js:62 | a heading's captured text holds no newline |
| Headings.LinksOf | scripts/update-readme.js:59-72 | there are never more links than lines |
| Headings.LinkLine | scripts/update-readme.js:70 | the link `- [section](fileName#anchor)` of one heading; its properties are stated by `Headings.LinkLinesAreLines` and `Headings.LinkLineHasNoNewline` |
| Headings.SectionLinks | scripts/update-readme.js:53-75 | the link lines of a file's headings joined by newlines; its meaning is stated by `Headings.SectionLinksEmpty` and `Headings.SectionLinksLines` |
| Headings.GenerateSectionLinks | scripts/update-readme.js:53-75 | the loop over the lines returns the specified link text |
| Headings.LinksOfAppend | scripts/update-readme.js:59-72 | the links of consecutive lines are the links of each part, in order |
| Headings.LinksOfLine | scripts/update-readme.js:60-71 | one line gives one link `- [text](file#anchor)` exactly when it is a heading, and none otherwise |
| Headings.LinksOfEmpty | scripts/update-readme.js:59-72 | there are no links exactly when no line is a heading |
| Headings.SectionLinksEmpty | scripts/update-readme.js:53-75 | a file's link text is empty exactly when it has no heading |
| Headings.LinkLinesAreLines | scripts/update-readme.js:70 | no link line is empty, and none holds a newline when the file name holds none |
| Headings.SectionLinksLines | scripts/update-readme.js:70-74 | splitting the output at newlines gives back the link lines, one per heading, in document order |
| Collector.GetMarkdownFiles | scripts/update-readme.js:33-49 | the recursive walk returns the specified files in listing order, a folder's files in place of the folder |
| Collector.IsMarkdownName | scripts/update-readme.js:43 | `file.endsWith('.md')`; used by `Collector.FilesInAreTheMarkdownFiles` |
| Collector.FilesIn | scripts/update-readme.js:33-49 | the recursive walk as a function; its meaning is stated by `Collector.FilesInAreTheMarkdownFiles` |
| Collector.FilesInAppend | scripts/update-readme.js:37-46 | the walk of two listings one after the other is the walk of each, in order |
| Collector.FilesInAreTheMarkdownFiles | scripts/update-readme.js:33-49 | a file is reported at a path exactly when it sits at that path in the tree and its name ends in `.md` |
| Collector.FilesUnder | scripts/update-readme.js:41-42 | every file found under a folder lies in a path that extends that folder's path |
| Sections.CapitalizeFirstLetter | scripts/update-readme.js:77-79 | capitalising keeps the length and every character after the first, and upper-cases the first, which is then no longer a lower-case letter |
| Sections.CapitalizeIdempotent | scripts/update-readme.js:77-79 | capitalising twice is capitalising once |
| Sections.LowerOfCapitalized | scripts/update-readme.js:77-79 | capitalising does not change what a name lower-cases to |
| Sections.StripMd | scripts/update-readme.js:104-106 | `basename(name, '.md')` drops the `.md` unless the name is nothing but `.md`, and keeps every other name |
| Sections.SectionKey | scripts/update-readme.js:100-114 | a file's key: its capitalised name without `.md` at the top level, else its capitalised top-level folder; used by `Sections.GroupSpec` |
| Sections.Step | scripts/update-readme.js:99-127 | one turn of the loop; its meaning is stated by `Sections.StepSpec` and `Sections.StepShape` |
| Sections.Group | scripts/update-readme.js:97-128 | the loop as a function; its meaning is stated by `Sections.GroupSpec` |
| Sections.GroupSections | scripts/update-readme.js:97-128 | the grouping loop gives the specified sections, or stops at the first push onto a single-file section |
| Sections.GroupCrashSticky | scripts/update-readme.js:99-128 | once the loop has thrown, later files change nothing |
| Sections.LastTopLevel | scripts/update-readme.js:103-111 | the file found is a top-level file with the key; `Sections.LastTopLevelIsLast` states that it is the last one |
| Sections.LastTopLevelIsLast | scripts/update-readme.js:103-111 | the file found is the last top-level file with the key: it sits at an index after which no file is one |
| Sections.LastTopLevelNone | scripts/update-readme.js:103-111 | there is no last top-level file with a key exactly when there is none at all |
| Sections.GroupSpec | scripts/update-readme.js:97-128 | the loop fails exactly when a top-level file precedes a deeper file with the same key; otherwise it holds one section per key, namely the last top-level file with that key or else the folder of all deeper files with it, in the order found |
| Sections.ClashExtend | scripts/update-readme.js:116-127 | a clash among the files with one more is an earlier clash, or one whose deeper file is the new file |
| Sections.StepSpec | scripts/update-readme.js:99-127 | one turn of the loop maps the sections described for a prefix to those described for the prefix plus the file, or fails exactly at a clash |
| Sections.StepShape | scripts/update-readme.js:107-126 | a turn that does not fail adds the file's key and touches no other key |
| Sections.KeysSnoc | scripts/update-readme.js:99-127 | the keys of the files with one more are the earlier keys plus that file's key |
| Sections.EntriesForAbsent | scripts/update-readme.js:116-121 | a key that no file has gathers no entry and no top-level file |
| Readme.RenderSections | scripts/update-readme.js:130-149 | the rendering loop produces the specified table lines and bodies, reading each file's links as it goes |
| Readme.TocLine | scripts/update-readme.js:133 | one table line `- [name](#name lower-cased)`; see `Readme.TocLineOfKey` |
| Readme.FileBlock | scripts/update-readme.js:142-144 | one file's block `### name` and its links; see `Readme.FolderBodyOfEntries` |
| Readme.FolderBody | scripts/update-readme.js:140-146 | a folder's file blocks in push order; see `Readme.FolderBodyAppend` and `Readme.FolderBodyOfEntries` |
| Readme.SectionBlock | scripts/update-readme.js:134-146 | one section's body; see `Readme.FolderSection` and `Readme.FlatSection` |
| Readme.TocOf | scripts/update-readme.js:130-138 | the table lines in section order; see `Readme.RenderAppend`, `Readme.RenderOne`, `Readme.TocFollowsSectionOrder` |
| Readme.BodyOf | scripts/update-readme.js:130-149 | the section bodies in section order; see `Readme.RenderAppend` and `Readme.RenderOne` |
| Readme.Update | scripts/update-readme.js:81-156 | the update as a function; its meaning is stated by the `Readme.Update*` lemmas below |
| Readme.Run | scripts/update-readme.js:51-162 | the whole tool: the walk of the collection, then the update; see `Readme.RunOutcome` |
| Readme.RenderFolder | scripts/update-readme.js:137-146 | a folder's body is its `## ` heading followed by one `### ` block per file, in push order |
| Readme.UpdateReadme | scripts/update-readme.js:81-156 | the whole update returns the specified outcome: the written text, a missing marker, or the grouping failure |
| Readme.RenderAppend | scripts/update-readme.js:130-149 | the output for consecutive parts of the order is the output of each part, in order |
| Readme.RenderOne | scripts/update-readme.js:131-148 | a key gives one table line and its body when it has a section, and nothing otherwise |
| Readme.RenderOnlyListed | scripts/update-readme.js:25-31 | only the keys in the section order are rendered: two groupings that agree on those keys render alike |
| Readme.FolderBodyAppend | scripts/update-readme.js:140-146 | a folder's files appear in the order they were pushed |
| Readme.FolderBodyOfEntries | scripts/update-readme.js:113-146 | a folder's body holds, for each deeper file of its key in the order found, a block headed by the file's capitalised name without `.md`, followed by its links |
| Readme.FolderSection | scripts/update-readme.js:137-146 | the section of a key that no top-level file has is `## key` followed by those blocks |
| Readme.FlatSection | scripts/update-readme.js:132-136 | the section of a key that a top-level file has is `## key` followed by the links of the last such file |
| Readme.TocOnlyKeys | scripts/update-readme.js:131-138 | the table of contents depends only on which keys have a section |
| Readme.TocOrderIndependent | scripts/update-readme.js:99-138 | two sets of files with the same keys, whatever their order and nesting, get the same table of contents |
| Readme.TocFollowsSectionOrder | scripts/update-readme.js:25-31 | the table lists Javascript, Typescript, WebFundamental, Graphql and Mongodb in this order, each when it has a section, and nothing else |
| Readme.TocLineOfKey | scripts/update-readme.js:133 | a section's table link points at its key lower-cased, which is the lower-cased name before capitalising |
| Readme.UpdateMarkerMissing | scripts/update-readme.js:83-92 | nothing is written exactly when the README has no `## Table of Contents` anywhere |
| Readme.UpdateFails | scripts/update-readme.js:97-128 | with the marker present, the run fails exactly at a grouping clash |
| Readme.RunOutcome | scripts/update-readme.js:51-162 | the tool writes nothing exactly when the README has no marker, and with the marker fails exactly when the files found in the collection clash |
| Readme.UpdateIsSplice | scripts/update-readme.js:94-156 | a written README is the text before the marker, then the marker and a blank line, the table, the bodies, the contributing block and the license block |
| Readme.UpdateKeepsPrefix | scripts/update-readme.js:151-152 | a written README keeps the old text before the first marker verbatim, and the marker stays at the same index |
| Readme.UpdateEndsWithTrailer | scripts/update-readme.js:156 | a written README ends with the contributing block followed by the license block |
| Readme.UpdateIgnoresRest | scripts/update-readme.js:151-156 | the new README depends on the old one only up to the end of its first marker |
| Readme.UpdateIdempotent | scripts/update-readme.js:81-156 | running the update on its own output, with the same files, gives the same README |

## Left out

- The disk is not modelled. The calls `fs.readdirSync`, `fs.statSync`, `fs.readFileSync` and `fs.writeFileSync` are replaced by parameters: the README text, the collection tree with each file's text, and the result text. The order of `readdirSync` is the order of the tree's entries.
- Symbolic links, unreadable files and other I/O errors are left out, because the tree is given as data.
- `console.error` and `console.log` are left out. Their two outcomes are the `MarkerMissing` and `Written` results.
- `path.join`, `path.relative` and `path.sep` are left out: a file's location is the sequence of folder names leading to it. `path.basename(filePath)` is the file's own name.
- `tableOfContentsEnd` (lines 84-87) is left out: the script computes it but never uses it.
- Text.LowerChar, Text.UpperChar: only ASCII letters change case. JavaScript's full Unicode case mapping is left out, for example `'ß'.toUpperCase()` giving two characters, or the Kelvin sign lowering to `k`.
- Strings are sequences of characters. The UTF-16 code units that `charAt(0)` and `slice(1)` work on are left out, so a surrogate pair is not split.
- Sections.Step: the `sections` object is a map. JavaScript object keys with special meaning are left out. Keys are capitalised first, so only names that start with a character other than a letter matter, such as `__proto__` or `__defineGetter__`. They would change which keys count as present.
- The write of the README and the error thrown when grouping fails are results of `Update`, not effects. A partial write cannot happen in the script either, since it writes once at the end.
