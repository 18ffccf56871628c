/** `filter_paths` and `filter_dirnames`: which listed entries are in scope,
    rewritten relative to the repository root. Matching a gitignore regular
    expression is outside the model: it is the parameter `isMatch`. */
module Filter {
  import opened Wrappers
  import opened Orders
  import opened Text
  import opened Paths
  import opened GitIgnore

  /** The inputs of `filter_paths` besides the paths themselves. */
  datatype FilterConfig = FilterConfig(
    root: Path,
    allowedExts: set<string>,
    ignoreDirs: set<string>,
    patterns: seq<Regex>,
    ignoreHidden: bool)

  /** `_is_allowed_ext`: an empty allow-list admits everything; otherwise the
      extension must be listed, and a path without one is refused. */
  predicate IsAllowedExt(p: Path, allowedExts: set<string>) {
    allowedExts == {} || (Extension(p).Some? && Extension(p).value in allowedExts)
  }

  /** `ancestors().any(...)`: the file name of the path or of one of its
      ancestors is an ignored name. */
  predicate AncestorNamed(s: Path, names: set<string>)
    decreases |s|
  {
    |s| > 0 && ((FileName(s).Some? && FileName(s).value in names) || AncestorNamed(s[..|s| - 1], names))
  }

  /** `_is_ignored_dir`: with an empty set nothing is ignored; otherwise a path
      outside the root is ignored, and so is one with an ignored name on its
      root-relative chain. */
  predicate IsIgnoredDir(p: Path, root: Path, ignoreDirs: set<string>) {
    if ignoreDirs == {} then false
    else match StripPrefix(p, root)
      case None => true
      case Some(rel) => AncestorNamed(rel, ignoreDirs)
  }

  /** `_is_gitignored`: some pattern matches the relative path's text. */
  predicate IsGitignored(rel: Path, patterns: seq<Regex>, isMatch: (Regex, string) -> bool) {
    exists i :: 0 <= i < |patterns| && isMatch(patterns[i], Display(rel))
  }

  /** One path through the chain of filters: its root-relative form if it stays. */
  function Admit(p: Path, cfg: FilterConfig, isMatch: (Regex, string) -> bool): Option<Path> {
    if cfg.ignoreHidden && IsHidden(p) then None
    else if !IsAllowedExt(p, cfg.allowedExts) then None
    else if IsIgnoredDir(p, cfg.root, cfg.ignoreDirs) then None
    else match StripPrefix(p, cfg.root)
      case None => None
      case Some(rel) => if IsGitignored(rel, cfg.patterns, isMatch) then None else Some(rel)
  }

  /** `filter_paths`, as an order-preserving sequential filter. */
  function FilterPaths(paths: seq<Path>, cfg: FilterConfig, isMatch: (Regex, string) -> bool): seq<Path>
  {
    if paths == [] then []
    else
      (match Admit(paths[0], cfg, isMatch) case Some(rel) => [rel] case None => [])
      + FilterPaths(paths[1..], cfg, isMatch)
  }

  /** The filter keeps input order: filtering a concatenation concatenates the results. */
  lemma {:induction false} FilterPathsAppend(a: seq<Path>, b: seq<Path>, cfg: FilterConfig,
                                             isMatch: (Regex, string) -> bool)
    ensures FilterPaths(a + b, cfg, isMatch) == FilterPaths(a, cfg, isMatch) + FilterPaths(b, cfg, isMatch)
  {
    if a == [] {
      assert a + b == b;
    } else {
      assert (a + b)[0] == a[0] && (a + b)[1..] == a[1..] + b;
      FilterPathsAppend(a[1..], b, cfg, isMatch);
    }
  }

  /** The result is exactly the root-relative forms of the inputs that pass
      every check and match no gitignore pattern. */
  lemma {:induction false} FilterPathsExactly(paths: seq<Path>, cfg: FilterConfig,
                                              isMatch: (Regex, string) -> bool, rel: Path)
    ensures rel in FilterPaths(paths, cfg, isMatch) <==>
      exists p :: p in paths && cfg.root + rel == p
        && (!cfg.ignoreHidden || !IsHidden(p))
        && IsAllowedExt(p, cfg.allowedExts)
        && !IsIgnoredDir(p, cfg.root, cfg.ignoreDirs)
        && !IsGitignored(rel, cfg.patterns, isMatch)
  {
    if paths != [] {
      FilterPathsExactly(paths[1..], cfg, isMatch, rel);
      var p := paths[0];
      assert forall q :: q in paths <==> q == p || q in paths[1..];
      if cfg.root + rel == p {
        assert StripPrefix(p, cfg.root) == Some(rel) by {
          assert p[..|cfg.root|] == cfg.root;
          assert p[|cfg.root|..] == rel;
        }
      }
    }
  }

  /** The name check sees every normal component of the relative path,
      the final name included. */
  lemma {:induction false} AncestorNamedIffComponent(s: Path, names: set<string>)
    ensures AncestorNamed(s, names) <==> exists i :: 0 <= i < |s| && IsNormal(s[i]) && s[i] in names
    decreases |s|
  {
    if |s| > 0 {
      AncestorNamedIffComponent(s[..|s| - 1], names);
      assert forall i :: 0 <= i < |s| - 1 ==> s[..|s| - 1][i] == s[i];
    }
  }

  /** An empty ignore set rejects nothing; otherwise a path is rejected when it
      is not under the root or one of its relative components is ignored. */
  lemma IgnoredDirIff(p: Path, root: Path, ignoreDirs: set<string>)
    ensures IsIgnoredDir(p, root, ignoreDirs) <==>
      ignoreDirs != {} &&
      (StripPrefix(p, root).None? ||
       exists i :: |root| <= i < |p| && IsNormal(p[i]) && p[i] in ignoreDirs)
  {
    if ignoreDirs != {} && StripPrefix(p, root).Some? {
      var rel := p[|root|..];
      AncestorNamedIffComponent(rel, ignoreDirs);
      assert forall i :: |root| <= i < |p| ==> p[i] == rel[i - |root|];
      if exists i :: |root| <= i < |p| && IsNormal(p[i]) && p[i] in ignoreDirs {
        var i :| |root| <= i < |p| && IsNormal(p[i]) && p[i] in ignoreDirs;
        assert rel[i - |root|] == p[i];
      }
    }
  }

  /** The hidden check looks at the final name only: a visible file inside a
      hidden directory is not hidden. */
  lemma HiddenLooksAtFinalNameOnly(dirs: Path, name: string)
    requires IsNormal(name) && !StartsWith(name, ".")
    ensures !IsHidden(dirs + [name])
  {
  }

  /** Every component of a kept path is a component of a listed path. */
  lemma FilterPathsKeepsNames(paths: seq<Path>, cfg: FilterConfig, isMatch: (Regex, string) -> bool, ch: char)
    requires NamesAvoid(paths, ch)
    ensures NamesAvoid(FilterPaths(paths, cfg, isMatch), ch)
  {
    forall rel, c | rel in FilterPaths(paths, cfg, isMatch) && c in rel ensures ch !in c {
      FilterPathsExactly(paths, cfg, isMatch, rel);
      var p :| p in paths && cfg.root + rel == p;
      assert c in p;
    }
  }

  // ---------------------------------------------------------------------------
  // filter_dirnames

  /** `filter_map(|p| p.parent())` */
  function Parents(paths: seq<Path>): (r: seq<Path>)
    ensures forall d :: d in r <==> exists p :: p in paths && Parent(p) == Some(d)
  {
    if paths == [] then []
    else
      assert forall q :: q in paths <==> q == paths[0] || q in paths[1..];
      (match Parent(paths[0]) case Some(d) => [d] case None => []) + Parents(paths[1..])
  }

  /** `filter_dirnames`: the parents of the paths, sorted, each once. */
  function FilterDirnames(paths: seq<Path>): (r: seq<Path>)
    ensures StrictlySorted(r, PathLess)
    ensures forall d :: d in r <==> exists p :: p in paths && Parent(p) == Some(d)
  {
    var parents := Parents(paths);
    PathLessIsStrictTotal();
    InsertionSortSorted(parents, PathLess);
    var sorted := InsertionSort(parents, PathLess);
    DedupStrictlySorted(sorted, PathLess);
    assert forall d :: d in sorted <==> d in parents by {
      forall d ensures d in sorted <==> d in parents {
        assert d in sorted <==> d in multiset(sorted);
        assert d in parents <==> d in multiset(parents);
      }
    }
    Dedup(sorted)
  }

  /** The parent of a one-component path is the empty path, and it is kept. */
  lemma TopLevelFileHasEmptyParent(name: string)
    ensures [] in FilterDirnames([[name]])
  {
    assert Parent([name]) == Some([]);
  }

  /** Every component of a parent is a component of a listed path. */
  lemma FilterDirnamesKeepsNames(paths: seq<Path>, ch: char)
    requires NamesAvoid(paths, ch)
    ensures NamesAvoid(FilterDirnames(paths), ch)
  {
    forall d, c | d in FilterDirnames(paths) && c in d ensures ch !in c {
      var p :| p in paths && Parent(p) == Some(d);
      assert d + [p[|p| - 1]] == p;
      assert c in p;
    }
  }
}
