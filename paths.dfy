/** Rust's `Path` as the sequence of components that `Path::components`
    yields. Only relative, `/`-separated paths are modelled; a component "."
    or ".." stands for `CurDir` or `ParentDir`. */
module Paths {
  import opened Wrappers
  import opened Orders
  import opened Text

  type Path = seq<string>

  /** A `Normal` component, as opposed to `CurDir` or `ParentDir`. */
  predicate IsNormal(c: string) {
    c != "." && c != ".."
  }

  /** `Path::file_name`: the final component if it is a normal one. */
  function FileName(p: Path): (r: Option<string>)
    ensures r.Some? <==> |p| > 0 && IsNormal(p[|p| - 1])
    ensures r.Some? ==> r.value == p[|p| - 1]
  {
    if |p| > 0 && IsNormal(p[|p| - 1]) then Some(p[|p| - 1]) else None
  }

  /** `Path::parent`: drops the final component; the empty path has none. */
  function Parent(p: Path): (r: Option<Path>)
    ensures r.Some? <==> |p| > 0
    ensures r.Some? ==> r.value + [p[|p| - 1]] == p
  {
    if |p| > 0 then Some(p[..|p| - 1]) else None
  }

  function LastIndexOf(s: string, c: char): (r: Option<nat>)
    ensures r.Some? ==> r.value < |s| && s[r.value] == c
    ensures r.Some? ==> forall k :: r.value < k < |s| ==> s[k] != c
    ensures r.None? ==> c !in s
  {
    if s == [] then None
    else if s[|s| - 1] == c then Some(|s| - 1)
    else LastIndexOf(s[..|s| - 1], c)
  }

  /** `Path::extension`: the text after the last `.` of the file name; none if
      the name has no `.` or its only `.` is the leading one. */
  function Extension(p: Path): Option<string>
  {
    match FileName(p)
    case None => None
    case Some(name) => NameExtension(name)
  }

  function NameExtension(name: string): Option<string>
  {
    match LastIndexOf(name, '.')
    case None => None
    case Some(i) => if i == 0 then None else Some(name[i + 1..])
  }

  /** The extension is the text after a `.` that is not the name's first
      character and has no `.` after it. */
  lemma NameExtensionIsAfterLastInnerDot(name: string, e: string)
    ensures NameExtension(name) == Some(e) <==>
      exists i :: 0 < i < |name| && name[i] == '.' && '.' !in name[i + 1..] && e == name[i + 1..]
  {
    var li := LastIndexOf(name, '.');
    if exists i :: 0 < i < |name| && name[i] == '.' && '.' !in name[i + 1..] && e == name[i + 1..] {
      var i :| 0 < i < |name| && name[i] == '.' && '.' !in name[i + 1..] && e == name[i + 1..];
      assert li.Some?;
      assert li.value == i;
    } else if li.Some? && li.value != 0 {
      assert '.' !in name[li.value + 1..];
    }
  }

  /** A hidden entry: its file name starts with `.`. */
  predicate IsHidden(p: Path) {
    FileName(p).Some? && StartsWith(FileName(p).value, ".")
  }

  /** `Path::strip_prefix`: succeeds when `base`'s components begin `p`. */
  function StripPrefix(p: Path, base: Path): (r: Option<Path>)
    ensures r.Some? <==> |base| <= |p| && p[..|base|] == base
    ensures r.Some? ==> base + r.value == p
  {
    if |base| <= |p| && p[..|base|] == base then Some(p[|base|..]) else None
  }

  /** The `/`-separated text of a relative path (`to_string_lossy`, `display`). */
  function Display(p: Path): string {
    Join(p, "/")
  }

  /** Rust's `Ord` for `Path`: component by component. */
  predicate PathLess(p: Path, q: Path) {
    LexLess(p, q, StrLess)
  }

  lemma PathLessIsStrictTotal()
    ensures StrictTotalOrder(PathLess)
  {
    StrLessIsStrictTotal();
    LexOrderIsStrictTotal(StrLess, PathLess);
  }

  /** No component of any of the paths contains the character `ch` (a line
      break, say, or a dollar sign). */
  predicate NamesAvoid(paths: seq<Path>, ch: char) {
    forall p, c :: p in paths && c in p ==> ch !in c
  }
}
