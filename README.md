# repo-mapper core, modelled in Dafny

repo-mapper keeps a "repo map" up to date inside a repository's `README.md`.
A repo map is a tree drawing of the repository's files between a
`# Repo map` / ```` ``` ```` header and a `::` / ```` ``` ```` footer. One run of
`main` does the following:

1. It reads the README and the `.gitignore` through a file-system adapter.
   Each file name is checked first.
2. It turns every pattern line of the `.gitignore` into a regular expression.
3. It filters the listed paths: hidden names, allowed extensions, ignored
   directories, strip of the repository root, gitignore patterns. With
   `dirs_only` it keeps only the sorted, deduplicated parent directories.
4. It builds a nested file tree from the kept paths.
5. It draws the tree with `├──`, `└──` and `│` connectors. Within each
   level, nodes that have children come before leaves (an empty directory
   is a leaf too), and each group is in byte order of names.
6. It replaces the first sentinel block of the README with the drawing.
   If there is no block, it appends the drawing.
7. It writes the README back only when the text changed.

The Dafny modules follow the source files:

| module | file | models |
|---|---|---|
| `RetCodes` | `retcode.dfy` | the `RetCode` enum |
| `Paths` | `paths.dfy` | paths as sequences of components: `file_name`, `parent`, `extension`, `strip_prefix`, display, the component-wise path order |
| `GitIgnore` | `gitignore.dfy` | `str::lines`, `str::trim`, and `GitIgnore::parse_lines`: the glob-to-regex translation of each line |
| `Filter` | `filter.dfy` | `filter_paths` with its four helper predicates, and `filter_dirnames` |
| `FileTrees` | `tree.dfy` | `FileTree`, `new`, `insert`, `create_map` |
| `Rendering` | `render.dfy` | `render` and its recursive `_walk` |
| `Readme` | `readme.dfy` | `ReadMe::update_readme` with its fixed sentinel pattern |
| `Adapters` | `adapters.dfy` | the `FakeFileSystem` adapter: a file table and an operation log |
| `FileText` | `file_text.dfy` | `FileText::parse` and the expected file names |
| `Core` | `core.dfy` | `main` |
| `TreeFixture` | `fixture.dfy` | the `test_file_tree` unit test, as a theorem |
| `Orders`, `Text`, `Wrappers` | | sorting, dedup and lexicographic orders; strings; `Option`/`Result` |

Each step of `main` is modelled in the form of the code it comes from:

- **Imperative code becomes methods.** This covers the `.gitignore` pattern
  builder, `create_map`, the collect-sort-push loop of `_walk`, the adapter
  and `main`. Each method is proved against a specification function:
  - `ParseLines` is proved against `PatternsOf`.
  - `CreateMap` is proved against `InsertAll`.
  - `Walk` is proved against `Lines`, and its loop `WalkLevel` against `Blocks`.
  - `Render` is proved against `RenderText`.
  - `CoreMain` is proved against `Run`.
- **The fake file system is a class.** Its file table and log are fields
  that its methods update.
- **The other steps are functions.** The filters, the splice and the path
  operations are functions over values.

The regular-expression engine and the directory walk are not modelled:
- compiling a generated pattern is the parameter `compiles`;
- matching a pattern against a path is the parameter `isMatch`;
- the directory walk's output is the parameter `listing`.

## Model

| member | source | states |
|---|---|---|
| `Adapters.FakeFileSystem.constructor` | src/core/adapters.rs:29-34 | a new fake file system holds no files and has logged nothing |
| `Adapters.FakeFileSystem.ReadToString` | src/core/adapters.rs:44-51 | logs ``read: `path` ``, changes no file, returns the stored text when the path is present and `NotFound` when it is not |
| `Adapters.FakeFileSystem.Write` | src/core/adapters.rs:52-58 | logs ``write: `path` ``, stores the text under the path (replacing any old text), always succeeds |
| `Adapters.WriteThenRead` | src/core/adapters.rs:44-58 | a read after a write returns exactly what was written; the log holds the write entry, then the read entry |
| `FileText.BasenameMatches` | src/core/parsing.rs:53-60 | for `.gitignore` and `README.md` the basename check passes exactly when the path's last component is that name (the `"Invalid basename"` fallback never passes) |
| `FileText.Parse` | src/core/parsing.rs:53-87 | wrong basename: `InvalidFilename` and nothing read or logged; otherwise exactly one read is logged and the result is the file's text or `FailedParsingFile`; the file table is unchanged |
| `Paths.FileName` | src/core/domain.rs:88-93 | `file_name` is present exactly for a non-empty path whose last component is a normal name, and is that name |
| `Paths.Parent` | src/core/domain.rs:142 | `parent` is present exactly for a non-empty path; the parent plus the last component gives back the path |
| `Paths.NameExtensionIsAfterLastInnerDot` | src/core/domain.rs:100-103 | a file name's extension is the text after its last dot, provided that dot is not the first character, in both directions |
| `Paths.IsHidden` | src/core/domain.rs:88-93 | a path is hidden when its last component starts with `.`; `Filter.HiddenLooksAtFinalNameOnly` states that only that component counts |
| `Paths.Extension` | src/core/domain.rs:100 | the extension of the last component; `Paths.NameExtensionIsAfterLastInnerDot` states what it is |
| `Paths.StripPrefix` | src/core/domain.rs:111 | stripping succeeds exactly when the root is a component prefix of the path, and root plus result is the path |
| `Paths.PathLessIsStrictTotal` | src/core/domain.rs:143 | the component-wise order used by `sorted()` is a strict total order |
| `Text.StrLessIsStrictTotal` | src/core/domain.rs:53 | byte-wise string order is a strict total order |
| `GitIgnore.Lines` | src/core/parsing.rs:107-108 | no line of the split text contains a line feed |
| `GitIgnore.LinesOfJoin` | src/core/parsing.rs:107-108 | splitting the `\n`-join of lines that hold no `\n`, end in no `\r` and do not end with an empty line gives back those lines |
| `GitIgnore.JoinOfLines` | src/core/parsing.rs:107-108 | the other direction: for a text without `\r`, joining its lines with `\n` gives back the text, less a final `\n` |
| `GitIgnore.TrimEmptyIffBlank` | src/core/parsing.rs:109 | a line trims to nothing exactly when every character is Unicode whitespace |
| `GitIgnore.PatternLines` | src/core/parsing.rs:109 | every line that survives the filter is non-blank and does not start with `#` |
| `GitIgnore.PatternLineExamples` | src/core/parsing.rs:109 | an indented `#` line is a pattern line; a comment line and a whitespace-only line are not; `target/` is one |
| `GitIgnore.TranslitChar` | src/core/parsing.rs:116-121 | `*` becomes `[^/]*`, `?` becomes `.`, `.` becomes `\.`, any other character is copied |
| `GitIgnore.TranslitAppend` | src/core/parsing.rs:115-122 | the translation works character by character: it distributes over concatenation |
| `GitIgnore.TranslitCopiesLiterals` | src/core/parsing.rs:115-122 | a line without `*`, `?` or `.` is copied unchanged |
| `GitIgnore.PatternShape` | src/core/parsing.rs:113-128 | every pattern starts with `(^|/)` and ends with `$`; a line ending in `/` gives the `(.*)?$` suffix, any other line the bare `$` |
| `GitIgnore.ExtensionGlobPattern` | src/core/parsing.rs:113-128 | `*.ext` becomes `(^|/)[^/]*\.ext$` |
| `GitIgnore.HiddenDirPattern` | src/core/parsing.rs:113-128 | `.name/` becomes `(^|/)\.name/(.*)?$` |
| `GitIgnore.LogPatternExample` | src/core/parsing.rs:113-128 | `*.log` becomes `(^|/)[^/]*\.log$` |
| `GitIgnore.PytestCachePatternExample` | src/core/domain.rs:162-163 | `.pytest_cache/` becomes `(^|/)\.pytest_cache/(.*)?$`, the pattern the unit tests use |
| `GitIgnore.TargetPatternExample` | src/core/domain.rs:162-163 | `target/` becomes `(^|/)target/(.*)?$`, the pattern the unit tests use |
| `GitIgnore.PatternOf` | src/core/parsing.rs:113-128 | the pattern text of one line; its shape and examples are stated by `GitIgnore.PatternShape`, `GitIgnore.ExtensionGlobPattern` and `GitIgnore.HiddenDirPattern`, and `GitIgnore.BuildPattern` is proved equal to it |
| `GitIgnore.BuildPattern` | src/core/parsing.rs:111-128 | the push loop builds exactly the pattern string of the line |
| `GitIgnore.PatternsOf` | src/core/parsing.rs:106-133 | the compiled patterns of a sequence of lines; `GitIgnore.PatternsOfAppend`, `GitIgnore.PatternsOfMembers` and `GitIgnore.PatternsOfCount` state its order, members and number |
| `GitIgnore.PatternsOfAppend` | src/core/parsing.rs:106-133 | patterns come out in line order: the patterns of `a + b` are those of `a` followed by those of `b` |
| `GitIgnore.PatternsOfMembers` | src/core/parsing.rs:106-133 | a regex is produced exactly when some pattern line's translation compiles to it |
| `GitIgnore.PatternsOfCount` | src/core/parsing.rs:130-132 | there are at most as many patterns as pattern lines, and exactly as many when every translation compiles |
| `GitIgnore.ParseLines` | src/core/parsing.rs:106-133 | the method returns the compiled patterns of the text's pattern lines, in order |
| `Filter.IsAllowedExt` | src/core/domain.rs:96-104 | an empty set allows every path; otherwise the path needs an extension that is in the set |
| `Filter.AncestorNamed` | src/core/domain.rs:112-117 | some ancestor of the relative path has a file name in the set; `Filter.AncestorNamedIffComponent` states it component-wise |
| `Filter.IsIgnoredDir` | src/core/domain.rs:107-120 | the ignored-directory test; `Filter.IgnoredDirIff` states it |
| `Filter.IsGitignored` | src/core/domain.rs:123-126 | some pattern matches the relative path's display text |
| `Filter.Admit` | src/core/domain.rs:130-134 | the chain of filters for one path, giving its relative form if it stays; `Filter.FilterPathsExactly` states it |
| `Filter.FilterPaths` | src/core/domain.rs:128-135 | `filter_paths`; `Filter.FilterPathsExactly` and `Filter.FilterPathsAppend` state its members and order |
| `Filter.AncestorNamedIffComponent` | src/core/domain.rs:112-117 | some ancestor's file name is in the set exactly when some normal component of the relative path is |
| `Filter.IgnoredDirIff` | src/core/domain.rs:107-120 | a path is an ignored directory exactly when the set is non-empty and either the root cannot be stripped or a component below the root is in the set |
| `Filter.HiddenLooksAtFinalNameOnly` | src/core/domain.rs:88-93 | hidden directories above a file whose own name does not start with `.` do not make it hidden |
| `Filter.FilterPathsAppend` | src/core/domain.rs:128-135 | filtering keeps the listing's order: it distributes over concatenation |
| `Filter.FilterPathsExactly` | src/core/domain.rs:128-135 | a relative path is in the result exactly when root plus it is a listed path that passes the hidden, extension and ignored-directory checks and matches no gitignore pattern |
| `Filter.FilterPathsKeepsNames` | src/core/domain.rs:128-135 | filtering introduces no name holding a character that no listed name holds |
| `Filter.Parents` | src/core/domain.rs:142 | a directory is collected exactly when it is the parent of a listed path |
| `Filter.FilterDirnames` | src/core/domain.rs:139-146 | the result is strictly sorted, so free of duplicates, and holds exactly the parents of the listed paths |
| `Filter.TopLevelFileHasEmptyParent` | src/core/domain.rs:142 | a top-level file contributes the empty path (the root) |
| `Filter.FilterDirnamesKeepsNames` | src/core/domain.rs:139-146 | the parent directories introduce no name holding a character that no listed name holds |
| `Orders.InsertionSortSorted` | src/core/domain.rs:53 | sorting yields a sorted permutation of its input |
| `Orders.DedupStrictlySorted` | src/core/domain.rs:143-144 | `dedup` after `sorted` leaves a strictly sorted sequence with the same members |
| `Orders.Dedup` | src/core/domain.rs:144 | every element of the result is in the input and every input element is in the result |
| `FileTrees.New` | src/core/domain.rs:25-29 | the new tree holds no chain but the empty one |
| `FileTrees.Insert` | src/core/domain.rs:31-40 | `insert` on tree values; `FileTrees.InsertHasPath`, `FileTrees.InsertExisting` and `FileTrees.InsertCommutes` state its effect |
| `FileTrees.InsertAll` | src/core/domain.rs:42-47 | the paths inserted in listing order; `FileTrees.CreateMap` is proved equal to it and `FileTrees.InsertAllHasPath` states its chains |
| `FileTrees.InsertHasPath` | src/core/domain.rs:31-40 | after inserting `p`, the chains of names are the old ones plus every prefix of `p` |
| `FileTrees.InsertEmptyPath` | src/core/domain.rs:36-39 | inserting the empty path changes nothing |
| `FileTrees.InsertExisting` | src/core/domain.rs:38 | `or_default` keeps existing nodes: re-inserting a present chain changes nothing |
| `FileTrees.SameChainsSameTree` | src/core/domain.rs:19-22 | two trees with the same chains are equal |
| `FileTrees.InsertCommutes` | src/core/domain.rs:31-40 | inserting two paths in either order gives the same tree |
| `FileTrees.CreateMap` | src/core/domain.rs:42-47 | the loop inserts every path in turn |
| `FileTrees.InsertAllHasPath` | src/core/domain.rs:42-47 | the chains of the built tree are the old ones plus every prefix of every inserted path |
| `FileTrees.CreateMapIgnoresOrder` | src/core/domain.rs:42-47 | two listings with the same members build the same tree, whatever their order or repetitions |
| `FileTrees.ReinsertUnchanged` | src/core/domain.rs:31-47 | inserting an already listed path again changes nothing |
| `FileTrees.InsertKeepsNamesAvoid` | src/core/domain.rs:31-40 | inserting a path none of whose names holds a given character keeps every name in the tree free of it |
| `FileTrees.InsertAllKeepsNamesAvoid` | src/core/domain.rs:42-47 | the same for a whole listing |
| `Rendering.KeyLessIsStrictTotal` | src/core/domain.rs:53 | the sort key (leaf flag, then name) is a strict total order |
| `Rendering.Level` | src/core/domain.rs:51-53 | the order of one level is strictly sorted by that key and lists each child exactly once |
| `Rendering.Collect` | src/core/domain.rs:51 | collecting the map yields every child exactly once, in some order |
| `Rendering.SortedItemsAreLevel` | src/core/domain.rs:51-53 | sorting any duplicate-free collection of the children gives the level order |
| `Rendering.SortedItems` | src/core/domain.rs:51-53 | collect then sort yields the level order, whatever order the map iterates in |
| `Rendering.Lines` | src/core/domain.rs:50-65 | the lines `_walk` pushes for a subtree; `Rendering.Walk` is proved against it, and `Rendering.LinesShape`, `Rendering.LinesNameChains` and `Rendering.OneLinePerNode` state their shape and names |
| `Rendering.Blocks` | src/core/domain.rs:55-64 | the lines of the first `n` children of a level; `Rendering.WalkLevel` is proved against it |
| `Rendering.Block` | src/core/domain.rs:56-63 | one child's line, then its subtree's lines under the extended prefix |
| `Rendering.RenderText` | src/core/domain.rs:67-69 | the text `render` returns; `Rendering.Render` is proved equal to it, and `Readme.RenderWellFormed` states that it is one well-formed block |
| `Rendering.Walk` | src/core/domain.rs:50-65 | `_walk` appends exactly the lines of the subtree below `prefix` to `out` |
| `Rendering.WalkLevel` | src/core/domain.rs:55-63 | the loop over the sorted children appends, child after child, the child's line with `└── ` for the last and `├── ` for the others, then its subtree under the extended prefix |
| `Rendering.Render` | src/core/domain.rs:49-70 | the result is the header, the lines joined by `\n`, and the footer |
| `Rendering.LinesShape` | src/core/domain.rs:55-63 | every line below a prefix is that prefix, then any number of guide units `│   ` or four blanks, then `├── ` or `└── `, then the rest of the line |
| `Rendering.LinesAvoid` | src/core/domain.rs:55-63 | a character that is in neither the prefix nor any name, and is not one the drawing uses, appears on no line |
| `Rendering.RenderAvoids` | src/core/domain.rs:67-69 | the same for the whole rendered map, if the character is also no line feed and in neither sentinel |
| `Rendering.LinesNameChains` | src/core/domain.rs:55-63 | the k-th line ends in the last name of the k-th node chain (pre-order) |
| `Rendering.ChainsAreNodes` | src/core/domain.rs:50-65 | the chains visited are exactly the non-empty chains of the tree |
| `Rendering.ChainsDistinct` | src/core/domain.rs:50-65 | no node is visited twice |
| `Rendering.OneLinePerNode` | src/core/domain.rs:50-65 | the drawing has exactly one line per node, naming that node |
| `Rendering.RenderEmpty` | src/core/domain.rs:67-69 | the empty tree renders as header, an empty line, and footer |
| `Rendering.LevelOfSingle` | src/core/domain.rs:53 | a level with one child lists just that child |
| `Rendering.LinesOfLeaf` | src/core/domain.rs:50-65 | a leaf draws no lines |
| `Rendering.LinesOfSingle` | src/core/domain.rs:55-63 | a lone child is drawn with `└── `, and its subtree is padded with four spaces |
| `Rendering.RenderSingleFile` | src/core/domain.rs:49-70 | one file renders as header, `└── name`, footer |
| `Readme.UpdateReadme` | src/core/parsing.rs:164-173 | the splice with the map inserted literally (the corrected half of the finding below); `Readme.UpdateReplacesFirstBlock`, `Readme.UpdateAppendsWithoutBlock` and `Readme.UpdateIdempotent` state what it does |
| `Readme.FindLine` | src/core/parsing.rs:165 | a position found is at or after `from`, starts a line (`(?m)^`) and begins with the literal |
| `Readme.FindLineFirst` | src/core/parsing.rs:165 | no qualifying line start is passed over: when one exists at or after `from`, a position is found and it is no later than that one |
| `Readme.FindBlock` | src/core/parsing.rs:165-167 | a found span covers at least the header and the footer and lies inside the text |
| `Readme.FindBlockIsLeftmostShortest` | src/core/parsing.rs:165-168 | there is a match exactly when some header is followed by a footer; the match starts at the leftmost header and ends at the first footer after it (lazy `.*?`) |
| `Readme.UpdateReplacesFirstBlock` | src/core/parsing.rs:167-168 | when a block is present, the first one (leftmost and shortest) is replaced by the map and the text around it is kept |
| `Readme.UpdateAppendsWithoutBlock` | src/core/parsing.rs:169-170 | with no block, the result is the README, a blank line, then the map; the old text is its prefix |
| `Readme.HeaderFacts` | src/core/parsing.rs:165 | the sentinels are 14 and 6 characters long; only the header's 11th character is a line feed; no header character is a colon; the footer starts with one |
| `Readme.RenderWellFormed` | src/core/domain.rs:67-69 | a rendered map whose names hold no line break is one well-formed block: header first, footer last, and no footer line in between |
| `Readme.UpdateKeepsFoundBlock` | src/core/parsing.rs:165-168 | a README whose first block is already the map is returned unchanged |
| `Readme.ReplacedBlockFound` | src/core/parsing.rs:165-168 | after a replacement, the first header line and the nearest footer line after it are those of the new map |
| `Readme.IdempotentAfterReplace` | src/core/parsing.rs:167-168 | when the README held a block, splicing the same map again changes nothing |
| `Readme.IdempotentAfterAppend` | src/core/parsing.rs:169-170 | when the README held no header line, splicing the same map again changes nothing |
| `Readme.UpdateIdempotent` | src/core/parsing.rs:164-173 | splicing the same well-formed map twice equals splicing it once, if the README held a complete block or no header at all |
| `Readme.UnterminatedHeaderNotIdempotent` | src/core/parsing.rs:164-173 | a README that is only a header with no footer shows that the condition is needed: the first run appends the map; the second run's match runs from the old header to the new footer, so the README shrinks to the map alone and differs from the first result |
| `Readme.Expand` | src/core/parsing.rs:168 | the expansion `Regex::replace` applies to its replacement string; `Readme.ExpandPlain` and `Readme.DollarNameVanishes` state what it does |
| `Readme.UpdateReadmeAsWritten` | src/core/parsing.rs:164-173 | `update_readme` as written (the as-written half of the finding below); `Readme.DollarInFileNameIsLost` and `Readme.AsWrittenAgreesWithoutDollar` relate it to `Readme.UpdateReadme` |
| `Readme.ExpandPlain` | src/core/parsing.rs:168 | replacement-string expansion copies text without `$` |
| `Readme.DollarNameVanishes` | src/core/parsing.rs:168 | `$name` in the map, where `name` is anything but a run of zeros (group 0), expands to the empty text, since the pattern has no such group |
| `Readme.ExpandDropsSlug` | src/core/parsing.rs:168 | the map of `posts.$slug.tsx` expands to that of `posts..tsx` |
| `Readme.DollarInFileNameIsLost` | src/core/parsing.rs:164-173 | as written, the README shows `posts..tsx` for a file `posts.$slug.tsx`; the literal splice shows the file; the two differ |
| `Readme.AsWrittenAgreesWithoutDollar` | src/core/parsing.rs:164-173 | for a map without `$`, the code as written and the literal splice agree |
| `Core.Run` | src/core/mod.rs:12-64 | `main` step by step, with the literal splice `Readme.UpdateReadme`; `Core.WriteOnlyWhenChanged`, `Core.ReadmeFailureStopsEarly` and `Core.GitignoreFailureStopsEarly` state its branches |
| `Core.CoreMain` | src/core/mod.rs:12-64 | the return code, file table and log after the method are exactly those of `Run`; the method splices literally, and `Core.RunAsWrittenAgrees` ties it to `main` as written |
| `Core.RunAsWritten` | src/core/mod.rs:12-64 | `main` as written: the same steps, with the expanding splice `Readme.UpdateReadmeAsWritten` |
| `Core.RunAsWrittenAgrees` | src/core/mod.rs:51-52 | when no listed name holds a `$`, `main` as written gives the same result, file table and log as `Run` |
| `Core.TreeNamesFromListing` | src/core/mod.rs:34-51 | a character that no listed name holds is in no name of the tree drawn |
| `Core.MapWithoutDollar` | src/core/mod.rs:51 | when no listed name holds a `$`, the map holds none either |
| `Core.ReadmeFailureStopsEarly` | src/core/mod.rs:32 | a README with a wrong name fails with `InvalidFilename` and logs nothing; a missing one fails with `FailedParsingFile` after one read; nothing is written |
| `Core.GitignoreFailureStopsEarly` | src/core/mod.rs:33 | a `.gitignore` with a wrong name or a missing one fails the same way after the README read; nothing is written |
| `Core.WriteOnlyWhenChanged` | src/core/mod.rs:54-63 | an unchanged README gives `NoModification` with no write; a changed one gives `ModifiedReadme` after exactly one write of the new text |
| `Core.NeverFailedWrite` | src/core/mod.rs:55-58 | with the in-memory adapter a run never reports `FailedToWriteReadme` |
| `Core.TreeChains` | src/core/mod.rs:34-51 | the tree drawn holds exactly the prefixes of the filtered paths, or with `dirs_only` of their parent directories |
| `Core.MapWellFormed` | src/core/mod.rs:51-52 | the map `main` splices is a well-formed block when no listed name holds a line break |
| `Core.SecondRunNoModification` | src/core/mod.rs:12-64 | with the literal splice, a second run on what a successful first run left gives `NoModification` and writes nothing, given single-line names and a README with a complete block or no header |
| `Core.SecondRunNoModificationAsWritten` | src/core/mod.rs:12-64 | the same for `main` as written, when in addition no listed name holds a `$` |
| `TreeFixture.CoreLevel` | src/core/domain.rs:219-255 | `some_file.rs` sorts before `some_file2.rs` (`.` before `2`) |
| `TreeFixture.RootLevel` | src/core/domain.rs:219-255 | the root level of the test tree is `.github`, `python`, `src`, `Cargo.toml`, `README.md`: directories first, each group in byte order |
| `TreeFixture.FixtureCreateMap` | src/core/domain.rs:219-255 | `create_map` on the test's six paths builds the test tree |
| `TreeFixture.FixtureLines` | src/core/domain.rs:219-255 | the test tree draws as the test's twelve expected lines |
| `TreeFixture.TestFileTree` | src/core/domain.rs:219-255 | `FileTree::new().create_map(paths).render()` equals the expected text of `test_file_tree` |

## Left out

- `FileTrees.Insert` is modelled on tree values. `insert` walks a mutable reference down the nested `HashMap`s; there is no aliasing to capture, so the value model builds the same tree.
- `Filter.FilterPaths` is a sequential, order-preserving filter. The source runs on rayon's parallel iterator, whose `collect` into a `Vec` also keeps the listing's order. The threads themselves are not modelled.
- Regular expressions: compiling the generated patterns (`Regex::new(..).ok()`) and matching them are the parameters `compiles` and `isMatch`. The regex crate is not part of this model. The README sentinel pattern is fixed, so it is specified directly by `FindLine` and `FindBlock`.
- `list_files` (the `WalkDir` listing, src/core/parsing.rs:184-190) is the input `listing` of `CoreMain`. `RealFileSystem` and the file system itself are not modelled; `main` runs against `FakeFileSystem`.
- `Adapters.FakeFileSystem.ReadToString`: the `io::Error` carries only the `NotFound` kind; its message text is not modelled.
- Coloured console output (`eprintln!`, `println!`) is not modelled.
- Paths are sequences of normal components. Root directories, Windows prefixes and `.`/`..` normalisation are not modelled. Neither is the lossy conversion of non-UTF-8 names (`to_string_lossy`, `to_str` returning `None`): every name is a Dafny string.
- `Core.CoreMain`: in the source, `Args::new` takes `dirs_only`, and `FileText::parse` takes the file system, in the shape `mod.rs` calls them (src/core/mod.rs:22-33); parsing.rs declares both without those parameters (src/core/parsing.rs:22-29, 53). The model follows the caller: `dirs_only` is an argument, and both files are read through the adapter.
- `Core.CoreMain` and `Core.Run` splice the map literally, with `Readme.UpdateReadme`, the corrected half of the finding below; `main` as written expands `$` references (src/core/parsing.rs:168). `Core.RunAsWritten` is that program, and `Core.RunAsWrittenAgrees` proves the two equal only when no listed name holds a `$`.
- `Core.SecondRunNoModification` is proved for the literal splice. For `main` as written it holds only when no listed name holds a `$` (`Core.SecondRunNoModificationAsWritten`): a file named `$0.txt`, for example, re-inserts the old block into the new map, so a README that already holds a block keeps changing from run to run.
- `Core.NeverFailedWrite`: the `FailedToWriteReadme` branch (src/core/mod.rs:55-58) is modelled but cannot be taken, because the in-memory write always succeeds.
- `.gitignore` translation: the code keeps the trailing `/` of a directory pattern before `(.*)?$` (`.pytest_cache/` becomes `(^|/)\.pytest_cache/(.*)?$`). The model follows the code and its unit tests (src/core/domain.rs:163, 194).
- src/lib.rs, src/api.rs and python/repo_mapper/__main__.py (the Python bindings and command line) are not part of this model. Nor are src/core/converters.rs and src/core/test_utils.rs (test helpers) or tests/integration_tests.rs.
- The `filter_paths` unit tests (src/core/domain.rs:156-216) depend on the mock listing and on real regex matching, both outside this model. The filter is characterised in general by `Filter.FilterPathsExactly` instead.

## Findings

| source | as written | input that shows it | evidently intended | confidence | as-written member | corrected member |
|---|---|---|---|---|---|---|
| src/core/parsing.rs:168 | `pattern.replace(&self.0, repo_map)` treats the rendered map as a replacement template, so `$name`, `${name}` and `$$` in file names are expanded | a README that already holds a block, and a repository with a file `posts.$slug.tsx`: the README shows `└── posts..tsx` | the map inserted literally (`NoExpand`), as the append branch at line 170 already does | not executed | `Readme.UpdateReadmeAsWritten`, `Readme.DollarInFileNameIsLost`, `Core.RunAsWritten` | `Readme.UpdateReadme`, with `Readme.UpdateIdempotent` and `Readme.AsWrittenAgreesWithoutDollar`; `Core.Run` uses it, and `Core.RunAsWrittenAgrees` bridges the two runs |
