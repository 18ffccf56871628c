/** `main`: read and check the README and the `.gitignore`, filter the
    listed paths, build and render the file tree, splice the map into the
    README, and write it back only when the text changed. The listing of the
    repository (`list_files`) and the regular-expression engine are inputs. */
module Core {
  import opened Wrappers
  import opened Paths
  import opened GitIgnore
  import opened Filter
  import opened FileTrees
  import opened Rendering
  import opened Readme
  import opened RetCodes
  import opened Adapters
  import opened FileText

  /** The arguments of `main`. */
  datatype Args = Args(
    repoRoot: Path,
    readmePath: Path,
    gitignorePath: Path,
    allowedExts: set<string>,
    ignoreDirs: set<string>,
    ignoreHidden: bool,
    dirsOnly: bool)

  function Config(args: Args, patterns: seq<Regex>): FilterConfig {
    FilterConfig(args.repoRoot, args.allowedExts, args.ignoreDirs, patterns, args.ignoreHidden)
  }

  /** The paths the tree is built from: the filtered listing, or with
      `dirs_only` the directories that hold the filtered paths. */
  function TreePaths(args: Args, listing: seq<Path>, gitignore: string,
                     compiles: string -> bool, isMatch: (Regex, string) -> bool): seq<Path>
  {
    var kept := FilterPaths(listing, Config(args, PatternsOf(GitIgnore.Lines(gitignore), compiles)), isMatch);
    if args.dirsOnly then FilterDirnames(kept) else kept
  }

  /** The rendered map for the given `.gitignore` text. */
  ghost function MapText(args: Args, listing: seq<Path>, gitignore: string,
                         compiles: string -> bool, isMatch: (Regex, string) -> bool): string
  {
    RenderText(InsertAll(New(), TreePaths(args, listing, gitignore, compiles, isMatch)))
  }

  /** The result of a run together with the file table and log after it. */
  datatype Outcome = Outcome(result: Result<RetCode, RetCode>, files: map<Path, string>, operations: seq<string>)

  /** What `main` does, step by step, as a function of the state before. */
  ghost function Run(files: map<Path, string>, operations: seq<string>, args: Args, listing: seq<Path>,
                     compiles: string -> bool, isMatch: (Regex, string) -> bool): Outcome
  {
    if Basename(args.readmePath) != ReadmeName then
      Outcome(Err(InvalidFilename), files, operations)
    else if args.readmePath !in files then
      Outcome(Err(FailedParsingFile), files, operations + [ReadEntry(args.readmePath)])
    else if Basename(args.gitignorePath) != GitignoreName then
      Outcome(Err(InvalidFilename), files, operations + [ReadEntry(args.readmePath)])
    else if args.gitignorePath !in files then
      Outcome(Err(FailedParsingFile), files,
              operations + [ReadEntry(args.readmePath)] + [ReadEntry(args.gitignorePath)])
    else
      var readme := files[args.readmePath];
      var updated := UpdateReadme(readme, MapText(args, listing, files[args.gitignorePath], compiles, isMatch));
      var logged := operations + [ReadEntry(args.readmePath)] + [ReadEntry(args.gitignorePath)];
      Finish(files, logged, args.readmePath, readme, updated)
  }

  /** The last step of a run: the README is written back only when the
      spliced text differs from it. */
  function Finish(files: map<Path, string>, logged: seq<string>, path: Path, readme: string, updated: string): Outcome {
    if updated == readme then
      Outcome(Ok(NoModification), files, logged)
    else
      Outcome(Ok(ModifiedReadme), files[path := updated], logged + [WriteEntry(path)])
  }

  /** Whether a run gets past reading both files. */
  predicate BothParsed(files: map<Path, string>, args: Args) {
    Basename(args.readmePath) == ReadmeName && args.readmePath in files &&
    Basename(args.gitignorePath) == GitignoreName && args.gitignorePath in files
  }

  /** `main` as written: the same run, but the map is spliced in by
      `UpdateReadmeAsWritten`, which expands `$` references in the map. */
  ghost function RunAsWritten(files: map<Path, string>, operations: seq<string>, args: Args, listing: seq<Path>,
                              compiles: string -> bool, isMatch: (Regex, string) -> bool): Outcome
  {
    if !BothParsed(files, args) then
      Run(files, operations, args, listing, compiles, isMatch)
    else
      var readme := files[args.readmePath];
      var updated := UpdateReadmeAsWritten(readme, MapText(args, listing, files[args.gitignorePath], compiles, isMatch));
      var logged := operations + [ReadEntry(args.readmePath)] + [ReadEntry(args.gitignorePath)];
      Finish(files, logged, args.readmePath, readme, updated)
  }

  /** `core::main` */
  method CoreMain(fs: FakeFileSystem, args: Args, listing: seq<Path>,
                  compiles: string -> bool, isMatch: (Regex, string) -> bool)
    returns (r: Result<RetCode, RetCode>)
    modifies fs
    ensures Outcome(r, fs.files, fs.operations)
         == Run(old(fs.files), old(fs.operations), args, listing, compiles, isMatch)
  {
    var readme :- Parse(fs, args.readmePath, ReadmeName);
    var gitignore :- Parse(fs, args.gitignorePath, GitignoreName);
    WriteOnlyWhenChanged(old(fs.files), old(fs.operations), args, listing, compiles, isMatch);
    var paths := listing;
    var patterns := ParseLines(gitignore, compiles);
    paths := FilterPaths(paths, Config(args, patterns), isMatch);
    paths := if args.dirsOnly then FilterDirnames(paths) else paths;
    assert paths == TreePaths(args, listing, gitignore, compiles, isMatch);
    var tree := CreateMap(New(), paths);
    var repoMap := Render(tree);
    assert repoMap == MapText(args, listing, gitignore, compiles, isMatch);
    var modified := UpdateReadme(readme, repoMap);
    if modified != readme {
      var written := fs.Write(args.readmePath, modified);
      r := if written.Ok? then Ok(ModifiedReadme) else Err(FailedToWriteReadme);
    } else {
      r := Ok(NoModification);
    }
  }

  // ---------------------------------------------------------------------------
  // Properties of a run

  /** A README that cannot be parsed stops the run before the `.gitignore`
      is read and before anything is written. */
  lemma ReadmeFailureStopsEarly(files: map<Path, string>, operations: seq<string>, args: Args,
                                listing: seq<Path>, compiles: string -> bool, isMatch: (Regex, string) -> bool)
    requires Basename(args.readmePath) != ReadmeName || args.readmePath !in files
    ensures var o := Run(files, operations, args, listing, compiles, isMatch);
      o.files == files &&
      (Basename(args.readmePath) != ReadmeName ==>
        o.result == Err(InvalidFilename) && o.operations == operations) &&
      (Basename(args.readmePath) == ReadmeName ==>
        o.result == Err(FailedParsingFile) && o.operations == operations + [ReadEntry(args.readmePath)])
  {
  }

  /** A `.gitignore` that cannot be parsed stops the run after the README
      read and before anything is written. */
  lemma GitignoreFailureStopsEarly(files: map<Path, string>, operations: seq<string>, args: Args,
                                   listing: seq<Path>, compiles: string -> bool, isMatch: (Regex, string) -> bool)
    requires Basename(args.readmePath) == ReadmeName && args.readmePath in files
    requires Basename(args.gitignorePath) != GitignoreName || args.gitignorePath !in files
    ensures var o := Run(files, operations, args, listing, compiles, isMatch);
      o.files == files &&
      (Basename(args.gitignorePath) != GitignoreName ==>
        o.result == Err(InvalidFilename) && o.operations == operations + [ReadEntry(args.readmePath)]) &&
      (Basename(args.gitignorePath) == GitignoreName ==>
        o.result == Err(FailedParsingFile) &&
        o.operations == operations + [ReadEntry(args.readmePath)] + [ReadEntry(args.gitignorePath)])
  {
  }

  /** When the spliced text equals the README, nothing is written and the
      run reports `NoModification`; otherwise exactly one write stores the
      new text and the run reports `ModifiedReadme`. A run never reports a
      failed write, since the in-memory write cannot fail. */
  lemma WriteOnlyWhenChanged(files: map<Path, string>, operations: seq<string>, args: Args,
                             listing: seq<Path>, compiles: string -> bool, isMatch: (Regex, string) -> bool)
    requires Basename(args.readmePath) == ReadmeName && args.readmePath in files
    requires Basename(args.gitignorePath) == GitignoreName && args.gitignorePath in files
    ensures var o := Run(files, operations, args, listing, compiles, isMatch);
      var readme := files[args.readmePath];
      var updated := UpdateReadme(readme, MapText(args, listing, files[args.gitignorePath], compiles, isMatch));
      var logged := operations + [ReadEntry(args.readmePath)] + [ReadEntry(args.gitignorePath)];
      (updated == readme ==> o == Outcome(Ok(NoModification), files, logged)) &&
      (updated != readme ==>
        o == Outcome(Ok(ModifiedReadme), files[args.readmePath := updated], logged + [WriteEntry(args.readmePath)]))
  {
  }

  lemma NeverFailedWrite(files: map<Path, string>, operations: seq<string>, args: Args,
                         listing: seq<Path>, compiles: string -> bool, isMatch: (Regex, string) -> bool)
    ensures Run(files, operations, args, listing, compiles, isMatch).result != Err(FailedToWriteReadme)
  {
  }

  /** The map drawn is the tree of the filtered paths, or of their parent
      directories with `dirs_only`. */
  lemma TreeChains(args: Args, listing: seq<Path>, gitignore: string,
                   compiles: string -> bool, isMatch: (Regex, string) -> bool, q: Path)
    ensures var kept := FilterPaths(listing, Config(args, PatternsOf(GitIgnore.Lines(gitignore), compiles)), isMatch);
      HasPath(InsertAll(New(), TreePaths(args, listing, gitignore, compiles, isMatch)), q) <==>
      q == [] ||
      (!args.dirsOnly && exists p :: p in kept && IsPrefix(q, p)) ||
      (args.dirsOnly && exists p, d :: p in kept && Parent(p) == Some(d) && IsPrefix(q, d))
  {
    var kept := FilterPaths(listing, Config(args, PatternsOf(GitIgnore.Lines(gitignore), compiles)), isMatch);
    var ps := TreePaths(args, listing, gitignore, compiles, isMatch);
    InsertAllHasPath(New(), ps, q);
    if args.dirsOnly {
      if exists d :: d in ps && IsPrefix(q, d) {
        var d :| d in ps && IsPrefix(q, d);
        var p :| p in kept && Parent(p) == Some(d);
      }
      if exists p, d :: p in kept && Parent(p) == Some(d) && IsPrefix(q, d) {
        var p, d :| p in kept && Parent(p) == Some(d) && IsPrefix(q, d);
        assert d in ps;
      }
    }
  }

  /** A character that no listed name holds is in no name of the tree drawn. */
  lemma TreeNamesFromListing(args: Args, listing: seq<Path>, gitignore: string,
                             compiles: string -> bool, isMatch: (Regex, string) -> bool, ch: char)
    requires NamesAvoid(listing, ch)
    ensures TreeNamesAvoid(InsertAll(New(), TreePaths(args, listing, gitignore, compiles, isMatch)), ch)
  {
    var cfg := Config(args, PatternsOf(GitIgnore.Lines(gitignore), compiles));
    FilterPathsKeepsNames(listing, cfg, isMatch, ch);
    var kept := FilterPaths(listing, cfg, isMatch);
    if args.dirsOnly {
      FilterDirnamesKeepsNames(kept, ch);
    }
    InsertAllKeepsNamesAvoid(New(), TreePaths(args, listing, gitignore, compiles, isMatch), ch);
  }

  /** The rendered map of single-line names is a well-formed block. */
  lemma MapWellFormed(args: Args, listing: seq<Path>, gitignore: string,
                      compiles: string -> bool, isMatch: (Regex, string) -> bool)
    requires NamesAvoid(listing, '\n')
    ensures WellFormedBlock(MapText(args, listing, gitignore, compiles, isMatch))
  {
    TreeNamesFromListing(args, listing, gitignore, compiles, isMatch, '\n');
    RenderWellFormed(InsertAll(New(), TreePaths(args, listing, gitignore, compiles, isMatch)));
  }

  /** No listed name holds a `$`, so neither does the map. */
  lemma MapWithoutDollar(args: Args, listing: seq<Path>, gitignore: string,
                         compiles: string -> bool, isMatch: (Regex, string) -> bool)
    requires NamesAvoid(listing, '$')
    ensures '$' !in MapText(args, listing, gitignore, compiles, isMatch)
  {
    TreeNamesFromListing(args, listing, gitignore, compiles, isMatch, '$');
    RenderAvoids(InsertAll(New(), TreePaths(args, listing, gitignore, compiles, isMatch)), '$');
  }

  /** A second run on the file system the first run left, with the same
      arguments and listing, changes nothing and reports `NoModification`,
      provided no name contains a line break and the README held no
      unterminated header. */
  lemma SecondRunNoModification(files: map<Path, string>, operations: seq<string>, args: Args,
                                listing: seq<Path>, compiles: string -> bool, isMatch: (Regex, string) -> bool)
    requires NamesAvoid(listing, '\n')
    requires Run(files, operations, args, listing, compiles, isMatch).result.Ok?
    requires var readme := files[args.readmePath];
      (exists i, j :: BlockAt(readme, i, j)) || (forall i :: !LineAt(readme, i, Header))
    ensures var first := Run(files, operations, args, listing, compiles, isMatch);
      var second := Run(first.files, first.operations, args, listing, compiles, isMatch);
      second.result == Ok(NoModification) && second.files == first.files
  {
    var first := Run(files, operations, args, listing, compiles, isMatch);
    assert args.readmePath != args.gitignorePath;
    var gitignore := files[args.gitignorePath];
    assert first.files[args.gitignorePath] == gitignore;
    var b := MapText(args, listing, gitignore, compiles, isMatch);
    MapWellFormed(args, listing, gitignore, compiles, isMatch);
    UpdateIdempotent(files[args.readmePath], b);
  }

  /** Where no listed name holds a `$`, `main` as written runs exactly as the
      model: same result, same file table, same log. */
  lemma RunAsWrittenAgrees(files: map<Path, string>, operations: seq<string>, args: Args,
                           listing: seq<Path>, compiles: string -> bool, isMatch: (Regex, string) -> bool)
    requires NamesAvoid(listing, '$')
    ensures RunAsWritten(files, operations, args, listing, compiles, isMatch)
         == Run(files, operations, args, listing, compiles, isMatch)
  {
    if BothParsed(files, args) {
      var gitignore := files[args.gitignorePath];
      MapWithoutDollar(args, listing, gitignore, compiles, isMatch);
      Readme.AsWrittenAgreesWithoutDollar(files[args.readmePath], MapText(args, listing, gitignore, compiles, isMatch));
    }
  }

  /** `main` as written reaches `NoModification` on its second run as well,
      when in addition no listed name holds a `$`. */
  lemma SecondRunNoModificationAsWritten(files: map<Path, string>, operations: seq<string>, args: Args,
                                         listing: seq<Path>, compiles: string -> bool, isMatch: (Regex, string) -> bool)
    requires NamesAvoid(listing, '\n') && NamesAvoid(listing, '$')
    requires RunAsWritten(files, operations, args, listing, compiles, isMatch).result.Ok?
    requires var readme := files[args.readmePath];
      (exists i, j :: BlockAt(readme, i, j)) || (forall i :: !LineAt(readme, i, Header))
    ensures var first := RunAsWritten(files, operations, args, listing, compiles, isMatch);
      var second := RunAsWritten(first.files, first.operations, args, listing, compiles, isMatch);
      second.result == Ok(NoModification) && second.files == first.files
  {
    RunAsWrittenAgrees(files, operations, args, listing, compiles, isMatch);
    var first := Run(files, operations, args, listing, compiles, isMatch);
    RunAsWrittenAgrees(first.files, first.operations, args, listing, compiles, isMatch);
    SecondRunNoModification(files, operations, args, listing, compiles, isMatch);
  }
}
