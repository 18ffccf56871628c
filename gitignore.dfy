/** `GitIgnore::parse_lines`: every line of a `.gitignore` that is not blank
    and not a comment becomes an anchored regular expression. Compiling a
    regular expression is outside the model: it is the parameter `compiles`. */
module GitIgnore {
  import opened Wrappers
  import opened Text

  /** A compiled regular expression, known by its source text. */
  datatype Regex = Regex(source: string)

  // ---------------------------------------------------------------------------
  // str::lines and str::trim

  function IndexOf(s: string, c: char): (r: Option<nat>)
    ensures r.Some? ==> r.value < |s| && s[r.value] == c && c !in s[..r.value]
    ensures r.None? ==> c !in s
  {
    if s == [] then None
    else if s[0] == c then Some(0)
    else match IndexOf(s[1..], c)
      case None => None
      case Some(i) => Some(i + 1)
  }

  /** Drops one `\r` left at the end of a line that ended in `\r\n`. */
  function StripCr(line: string): string {
    if EndsWith(line, "\r") then line[..|line| - 1] else line
  }

  /** `str::lines`: split at `\n`, strip a `\r` before it, and yield no empty
      last line for a text that ends in `\n`. */
  function Lines(s: string): (r: seq<string>)
    ensures forall i :: 0 <= i < |r| ==> '\n' !in r[i]
    decreases |s|
  {
    if s == [] then []
    else match IndexOf(s, '\n')
      case None => [s]
      case Some(i) => [StripCr(s[..i])] + Lines(s[i + 1..])
  }

  /** Joining lines with `\n` and splitting them again gives them back, as long
      as no line holds a `\n`, none ends in `\r` and the last is not empty. */
  lemma {:induction false} LinesOfJoin(ls: seq<string>)
    requires forall i :: 0 <= i < |ls| ==> '\n' !in ls[i] && !EndsWith(ls[i], "\r")
    requires ls != [] ==> ls[|ls| - 1] != ""
    ensures Lines(Join(ls, "\n")) == ls
  {
    if |ls| == 1 {
      assert IndexOf(ls[0], '\n').None?;
    } else if |ls| > 1 {
      var s := Join(ls, "\n");
      assert s == ls[0] + "\n" + Join(ls[1..], "\n");
      var k := IndexOf(s, '\n');
      assert s[|ls[0]|] == '\n';
      assert s[..|ls[0]|] == ls[0];
      assert k.Some? && k.value == |ls[0]|;
      assert s[|ls[0]| + 1..] == Join(ls[1..], "\n");
      LinesOfJoin(ls[1..]);
      assert ls == [ls[0]] + ls[1..];
    }
  }

  lemma EndsWithLast(s: string, c: char)
    requires s != []
    ensures EndsWith(s, [c]) <==> s[|s| - 1] == c
  {
    assert s[|s| - 1..] == [s[|s| - 1]];
  }

  /** The other way round: joining the lines of a text without `\r` with
      `\n` gives back the text, less the final `\n` that `lines` drops. */
  lemma {:induction false} JoinOfLines(s: string)
    requires '\r' !in s
    ensures Join(Lines(s), "\n") + FinalBreak(s) == s
    decreases |s|
  {
    if s != [] {
      match IndexOf(s, '\n')
      case None =>
        EndsWithLast(s, '\n');
        assert s[|s| - 1] in s;
      case Some(i) =>
        var line, rest := s[..i], s[i + 1..];
        SplitAtBreak(s, i);
        JoinOfLines(rest);
        assert Lines(s) == [line] + Lines(rest);
        JoinOfLinesStep(line, rest);
    }
  }

  /** The `\n` that ends a text, if any. */
  function FinalBreak(s: string): string {
    if EndsWith(s, "\n") then "\n" else ""
  }

  lemma SplitAtBreak(s: string, i: nat)
    requires '\r' !in s && i < |s| && s[i] == '\n'
    ensures s == s[..i] + "\n" + s[i + 1..]
    ensures StripCr(s[..i]) == s[..i] && '\r' !in s[i + 1..]
  {
    var line, rest := s[..i], s[i + 1..];
    if line != [] {
      EndsWithLast(line, '\r');
      assert line[|line| - 1] == s[i - 1] && s[i - 1] in s;
    }
    forall k | 0 <= k < |rest| ensures rest[k] != '\r' {
      assert rest[k] == s[i + 1 + k];
    }
  }

  lemma JoinOfLinesStep(line: string, rest: string)
    requires Join(Lines(rest), "\n") + FinalBreak(rest) == rest
    ensures Join([line] + Lines(rest), "\n") + FinalBreak(line + "\n" + rest) == line + "\n" + rest
  {
    var s := line + "\n" + rest;
    if rest == [] {
      assert s[|s| - 1] == '\n';
      EndsWithLast(s, '\n');
    } else {
      var ls := Lines(rest);
      assert ls != [];
      assert ([line] + ls)[1..] == ls;
      assert s[|s| - 1] == rest[|rest| - 1];
      EndsWithLast(s, '\n');
      EndsWithLast(rest, '\n');
      AppendAssoc(line + "\n", Join(ls, "\n"), FinalBreak(rest));
    }
  }

  /** `char::is_whitespace`: the Unicode White_Space characters. */
  predicate IsWhitespace(c: char) {
    ('\t' <= c <= '\r') || c == ' ' || c == '\U{85}' || c == '\U{A0}' || c == '\U{1680}'
    || ('\U{2000}' <= c <= '\U{200A}') || c == '\U{2028}' || c == '\U{2029}'
    || c == '\U{202F}' || c == '\U{205F}' || c == '\U{3000}'
  }

  function TrimStart(s: string): string {
    if s != [] && IsWhitespace(s[0]) then TrimStart(s[1..]) else s
  }

  function TrimEnd(s: string): string {
    if s != [] && IsWhitespace(s[|s| - 1]) then TrimEnd(s[..|s| - 1]) else s
  }

  /** `str::trim` */
  function Trim(s: string): string {
    TrimEnd(TrimStart(s))
  }

  /** A line trims to nothing exactly when all its characters are whitespace. */
  lemma {:induction false} TrimEmptyIffBlank(s: string)
    ensures Trim(s) == "" <==> forall i :: 0 <= i < |s| ==> IsWhitespace(s[i])
    decreases |s|
  {
    if s != [] && IsWhitespace(s[0]) {
      TrimEmptyIffBlank(s[1..]);
      assert forall i :: 1 <= i < |s| ==> s[i] == s[1..][i - 1];
    } else if s != [] {
      TrimEndKeepsFirst(s);
    }
  }

  lemma {:induction false} TrimEndKeepsFirst(s: string)
    requires s != [] && !IsWhitespace(s[0])
    ensures TrimEnd(s) != ""
    decreases |s|
  {
    if IsWhitespace(s[|s| - 1]) {
      TrimEndKeepsFirst(s[..|s| - 1]);
    }
  }

  // ---------------------------------------------------------------------------
  // Translation of one line

  /** A line is translated unless it is blank or its untrimmed text starts with `#`. */
  predicate IsPatternLine(line: string) {
    Trim(line) != "" && !StartsWith(line, "#")
  }

  const Anchor: string := "(^|/)"
  const DirSuffix: string := "(.*)?$"
  const EndSuffix: string := "$"

  /** What one character of a pattern line becomes. */
  function CharPattern(c: char): string {
    match c
    case '*' => "[^/]*"
    case '?' => "."
    case '.' => "\\."
    case _ => [c]
  }

  function Translit(s: string): string
  {
    if s == [] then "" else CharPattern(s[0]) + Translit(s[1..])
  }

  /** The regular expression a pattern line becomes. */
  function PatternOf(line: string): string {
    Anchor + Translit(line) + (if EndsWith(line, "/") then DirSuffix else EndSuffix)
  }

  /** Translation works character by character. */
  lemma {:induction false} TranslitAppend(a: string, b: string)
    ensures Translit(a + b) == Translit(a) + Translit(b)
    decreases |a|
  {
    if a == [] {
      assert a + b == b;
    } else {
      assert (a + b)[0] == a[0];
      assert (a + b)[1..] == a[1..] + b;
      TranslitAppend(a[1..], b);
      var tc, tr, tb := CharPattern(a[0]), Translit(a[1..]), Translit(b);
      assert tc + (tr + tb) == tc + tr + tb;
    }
  }

  /** Characters other than `*`, `?` and `.` are copied unchanged, `/` included. */
  lemma {:induction false} TranslitCopiesLiterals(s: string)
    requires forall i :: 0 <= i < |s| ==> s[i] != '*' && s[i] != '?' && s[i] != '.'
    ensures Translit(s) == s
    decreases |s|
  {
    if s != [] {
      TranslitCopiesLiterals(s[1..]);
      assert [s[0]] + s[1..] == s;
    }
  }

  /** Every pattern is anchored at the start or after a `/` and at the end; a
      line ending in `/` keeps that `/` and also matches anything beneath it. */
  lemma PatternShape(line: string)
    ensures StartsWith(PatternOf(line), "(^|/)")
    ensures EndsWith(PatternOf(line), "$")
    ensures EndsWith(line, "/") ==> EndsWith(PatternOf(line), "/(.*)?$")
    ensures !EndsWith(line, "/") ==> PatternOf(line) == "(^|/)" + Translit(line) + "$"
  {
    if EndsWith(line, "/") {
      DirPatternShape(line[..|line| - 1]);
      assert line[..|line| - 1] + "/" == line;
    } else {
      ConcatStartsEnds(Anchor, Translit(line), EndSuffix);
    }
  }

  lemma DirPatternShape(init: string)
    ensures var p := PatternOf(init + "/");
      StartsWith(p, Anchor) && EndsWith(p, "/" + DirSuffix) && EndsWith(p, "$")
  {
    var line := init + "/";
    assert EndsWith(line, "/");
    TranslitAppend(init, "/");
    TranslitChar('/');
    var z := "/" + DirSuffix;
    assert PatternOf(line) == Anchor + Translit(init) + z;
    ConcatStartsEnds(Anchor, Translit(init), z);
    ConcatStartsEnds("/(.*)?", "", "$");
    assert "/(.*)?" + "" + "$" == z;
    EndsWithTrans(PatternOf(line), z, "$");
  }

  lemma TranslitChar(c: char)
    ensures Translit([c]) == CharPattern(c)
  {
    assert [c][1..] == [];
  }

  predicate IsLiteral(s: string) {
    forall i :: 0 <= i < |s| ==> s[i] != '*' && s[i] != '?' && s[i] != '.' && s[i] != '/'
  }

  /** `*.ext` matches any file name ending in `.ext`. */
  lemma ExtensionGlobPattern(ext: string)
    requires IsLiteral(ext)
    ensures PatternOf("*." + ext) == "(^|/)[^/]*\\." + ext + "$"
  {
    var star, dot := ['*'], ['.'];
    assert Translit(star + dot) == "[^/]*\\." by {
      TranslitChar('*');
      TranslitChar('.');
      TranslitAppend(star, dot);
    }
    var line := "*." + ext;
    assert line == star + dot + ext;
    assert Translit(line) == "[^/]*\\." + ext by {
      TranslitAppend(star + dot, ext);
      TranslitCopiesLiterals(ext);
    }
    assert line[|line| - 1] != '/' by {
      if ext != [] { assert line[|line| - 1] == ext[|ext| - 1]; }
    }
    assert !EndsWith(line, "/");
    assert "(^|/)[^/]*\\." == Anchor + "[^/]*\\.";
    calc {
      PatternOf(line);
      Anchor + Translit(line) + EndSuffix;
      Anchor + ("[^/]*\\." + ext) + "$";
      (Anchor + "[^/]*\\.") + ext + "$";
    }
  }

  /** `.name/` keeps its escaped dot and its slash, then matches anything beneath. */
  lemma HiddenDirPattern(name: string)
    requires IsLiteral(name)
    ensures PatternOf("." + name + "/") == "(^|/)\\." + name + "/(.*)?$"
  {
    var line := "." + name + "/";
    HiddenDirTranslit(name);
    assert EndsWith(line, "/");
    var esc := "\\.";
    assert "(^|/)\\." == Anchor + esc;
    assert "/(.*)?$" == "/" + DirSuffix;
    assert Anchor + (esc + name + "/") + DirSuffix == (Anchor + esc) + name + ("/" + DirSuffix);
  }

  lemma HiddenDirTranslit(name: string)
    requires IsLiteral(name)
    ensures Translit("." + name + "/") == "\\." + name + "/"
  {
    var dot, slash := ['.'], ['/'];
    assert "." + name + "/" == dot + name + slash;
    TranslitChar('.');
    TranslitChar('/');
    TranslitAppend(dot, name);
    TranslitAppend(dot + name, slash);
    TranslitCopiesLiterals(name);
  }

  lemma LogPatternExample(line: string)
    requires line == "*.log"
    ensures PatternOf(line) == "(^|/)[^/]*\\.log$"
  {
    var ext := line[2..];
    assert line == "*." + ext;
    ExtensionGlobPattern(ext);
  }

  lemma PytestCachePatternExample(line: string)
    requires line == ".pytest_cache/"
    ensures PatternOf(line) == "(^|/)\\.pytest_cache/(.*)?$"
  {
    var name := line[1..|line| - 1];
    PytestCacheSplit(line);
    PytestCacheName(name);
    HiddenDirPattern(name);
  }

  /** The line is a dot, the name and a slash. */
  lemma PytestCacheSplit(line: string)
    requires line == ".pytest_cache/"
    ensures line == "." + line[1..|line| - 1] + "/"
    ensures line[1..|line| - 1] == "pytest_cache"
  {
    assert line == line[..1] + line[1..|line| - 1] + line[|line| - 1..];
    assert line[..1] == ".";
    assert line[|line| - 1..] == "/";
    assert line[1..|line| - 1] == line[1..13];
  }

  lemma PytestCacheName(name: string)
    requires name == "pytest_cache"
    ensures IsLiteral(name)
    ensures "(^|/)\\." + name + "/(.*)?$" == "(^|/)\\.pytest_cache/(.*)?$"
  {
  }

  lemma TargetPatternExample(line: string)
    requires line == "target/"
    ensures PatternOf(line) == "(^|/)target/(.*)?$"
  {
    TargetLine(line);
    TranslitCopiesLiterals(line);
  }

  lemma TargetLine(line: string)
    requires line == "target/"
    ensures forall i :: 0 <= i < |line| ==> line[i] != '*' && line[i] != '?' && line[i] != '.'
    ensures EndsWith(line, "/")
    ensures Anchor + line + DirSuffix == "(^|/)target/(.*)?$"
  {
  }

  /** The inner loop of `parse_lines`: builds the pattern text one push at a time. */
  method BuildPattern(line: string) returns (regexStr: string)
    ensures regexStr == PatternOf(line)
  {
    regexStr := "(^|/)";
    for i := 0 to |line|
      invariant regexStr == Anchor + Translit(line[..i])
    {
      var c := line[i];
      assert line[..i + 1] == line[..i] + [c];
      TranslitAppend(line[..i], [c]);
      TranslitChar(c);
      match c {
        case '*' => regexStr := regexStr + "[^/]*";
        case '?' => regexStr := regexStr + ".";
        case '.' => regexStr := regexStr + "\\.";
        case _ => regexStr := regexStr + [c];
      }
    }
    assert line[..|line|] == line;
    if |line| > 0 && line[|line| - 1] == '/' {
      regexStr := regexStr + "(.*)?$";
    } else {
      regexStr := regexStr + "$";
    }
  }

  // ---------------------------------------------------------------------------
  // The whole file

  /** The pattern lines, in order. */
  function PatternLines(lines: seq<string>): (r: seq<string>)
    ensures forall i :: 0 <= i < |r| ==> IsPatternLine(r[i])
  {
    if lines == [] then []
    else (if IsPatternLine(lines[0]) then [lines[0]] else []) + PatternLines(lines[1..])
  }

  /** The compiled patterns of the lines, in order; a line whose regular
      expression does not compile is dropped. */
  function PatternsOf(lines: seq<string>, compiles: string -> bool): seq<Regex>
  {
    if lines == [] then []
    else LinePatterns(lines[0], compiles) + PatternsOf(lines[1..], compiles)
  }

  /** What one line contributes: its pattern, or nothing. */
  function LinePatterns(line: string, compiles: string -> bool): seq<Regex> {
    if IsPatternLine(line) && compiles(PatternOf(line)) then [Regex(PatternOf(line))] else []
  }

  /** Patterns come out in line order. */
  lemma {:induction false} PatternsOfAppend(a: seq<string>, b: seq<string>, compiles: string -> bool)
    ensures PatternsOf(a + b, compiles) == PatternsOf(a, compiles) + PatternsOf(b, compiles)
    decreases |a|
  {
    if a == [] {
      assert a + b == b;
    } else {
      assert (a + b)[0] == a[0];
      assert (a + b)[1..] == a[1..] + b;
      PatternsOfAppend(a[1..], b, compiles);
      var first, rest, pb := LinePatterns(a[0], compiles), PatternsOf(a[1..], compiles), PatternsOf(b, compiles);
      assert first + (rest + pb) == first + rest + pb;
    }
  }

  /** One more line of the file adds that line's pattern, if any, at the end. */
  lemma PatternsOfPrefix(lines: seq<string>, i: nat, compiles: string -> bool)
    requires i < |lines|
    ensures PatternsOf(lines[..i + 1], compiles) == PatternsOf(lines[..i], compiles) + LinePatterns(lines[i], compiles)
  {
    assert lines[..i + 1] == lines[..i] + [lines[i]];
    PatternsOfAppend(lines[..i], [lines[i]], compiles);
    assert [lines[i]][1..] == [];
  }

  /** Each pattern is the translation of a pattern line that compiles, and
      each pattern line that compiles yields its pattern. */
  lemma {:induction false} PatternsOfMembers(lines: seq<string>, compiles: string -> bool, re: Regex)
    ensures re in PatternsOf(lines, compiles) <==>
      exists line :: line in lines && IsPatternLine(line) && compiles(PatternOf(line)) && re == Regex(PatternOf(line))
    decreases |lines|
  {
    if lines != [] {
      var rest := lines[1..];
      PatternsOfMembers(rest, compiles, re);
      assert lines == [lines[0]] + rest;
      assert forall l :: l in lines <==> l == lines[0] || l in rest;
    }
  }

  /** At most one pattern per pattern line, exactly one when every translation compiles. */
  lemma {:induction false} PatternsOfCount(lines: seq<string>, compiles: string -> bool)
    ensures |PatternsOf(lines, compiles)| <= |PatternLines(lines)|
    ensures (forall l :: l in lines ==> compiles(PatternOf(l))) ==>
      |PatternsOf(lines, compiles)| == |PatternLines(lines)|
    decreases |lines|
  {
    if lines != [] {
      PatternsOfCount(lines[1..], compiles);
    }
  }

  lemma PatternLineExamples()
    ensures IsPatternLine("  #x")
    ensures !IsPatternLine("# comment")
    ensures !IsPatternLine(" \t ")
    ensures IsPatternLine("target/")
  {
    assert !IsWhitespace('#');
    assert !IsWhitespace('t');
    assert Trim(" \t ") == "";
  }

  /** `GitIgnore::parse_lines` */
  method ParseLines(text: string, compiles: string -> bool) returns (patterns: seq<Regex>)
    ensures patterns == PatternsOf(Lines(text), compiles)
  {
    var lines := Lines(text);
    patterns := [];
    for i := 0 to |lines|
      invariant patterns == PatternsOf(lines[..i], compiles)
    {
      var line := lines[i];
      PatternsOfPrefix(lines, i, compiles);
      if Trim(line) != "" && !StartsWith(line, "#") {
        var regexStr := BuildPattern(line);
        if compiles(regexStr) {
          patterns := patterns + [Regex(regexStr)];
        }
      }
    }
    assert lines[..|lines|] == lines;
  }
}
