/** The expected map of the `test_file_tree` fixture: six paths, drawn with
    the directories first and the names of each group in byte order. */
module TreeFixture {
  import opened Orders
  import opened Text
  import opened Paths
  import opened FileTrees
  import opened Rendering

  function Leaf(): FileTree {
    FileTree(map[])
  }

  function Chain(k: string, v: FileTree): FileTree {
    FileTree(map[k := v])
  }

  /** A level is the strictly sorted listing of its keys. */
  lemma LevelIs(t: FileTree, es: seq<Entry>)
    requires StrictlySorted(es, KeyLess)
    requires forall e :: e in es <==> e in Entries(t)
    ensures Level(t) == es
  {
    KeyLessIsStrictTotal();
    StrictlySortedUnique(Level(t), es, KeyLess);
  }

  /** Strings that share a prefix compare as their remainders do. */
  lemma {:induction false} StrLessCommonPrefix(p: string, a: string, b: string)
    ensures StrLess(p + a, p + b) <==> StrLess(a, b)
  {
    if p != [] {
      assert (p + a)[1..] == p[1..] + a && (p + b)[1..] == p[1..] + b;
      StrLessCommonPrefix(p[1..], a, b);
    } else {
      assert p + a == a && p + b == b;
    }
  }

  lemma CoreLevel(f1: string, f2: string)
    requires f1 == "some_file.rs" && f2 == "some_file2.rs"
    ensures Level(FileTree(map[f1 := Leaf(), f2 := Leaf()])) == [Entry(true, f1), Entry(true, f2)]
  {
    var t := FileTree(map[f1 := Leaf(), f2 := Leaf()]);
    assert f1 == "some_file" + ".rs" && f2 == "some_file" + "2.rs";
    StrLessCommonPrefix("some_file", ".rs", "2.rs");
    var es := [Entry(true, f1), Entry(true, f2)];
    assert KeyLess(es[0], es[1]);
    forall e ensures e in es <==> e in Entries(t) {
      if e in Entries(t) {
        var k :| k in t.nodes && e == EntryOf(t, k);
      }
      if e in es {
        assert e == EntryOf(t, e.name);
      }
    }
    LevelIs(t, es);
  }

  lemma CoreLines(f1: string, f2: string, prefix: string)
    requires Level(FileTree(map[f1 := Leaf(), f2 := Leaf()])) == [Entry(true, f1), Entry(true, f2)]
    ensures Lines(FileTree(map[f1 := Leaf(), f2 := Leaf()]), prefix)
         == [prefix + Tee + f1, prefix + Elbow + f2]
  {
    var t := FileTree(map[f1 := Leaf(), f2 := Leaf()]);
    var es := Level(t);
    LinesOfLeaf(prefix + Bar);
    LinesOfLeaf(prefix + Blank);
    assert Block(t, es, 0, prefix) == [prefix + Tee + f1];
    assert Block(t, es, 1, prefix) == [prefix + Elbow + f2];
    assert Blocks(t, es, 1, prefix) == Block(t, es, 0, prefix);
    assert Lines(t, prefix) == Blocks(t, es, 1, prefix) + Block(t, es, 1, prefix);
  }

  /** A chain of single children draws as a staircase of elbows. */
  lemma ChainLines(a: string, b: string, prefix: string)
    ensures Lines(Chain(a, Chain(b, Leaf())), prefix)
         == [prefix + Elbow + a, prefix + Blank + Elbow + b]
  {
    LinesOfSingle(a, Chain(b, Leaf()), prefix);
    LinesOfSingle(b, Leaf(), prefix + Blank);
    LinesOfLeaf(prefix + Blank + Blank);
  }

  function Fixture(gh: string, wf: string, ci: string, src: string, core: string, f1: string, f2: string,
                   py: string, cli: string, init: string, readme: string, cargo: string): FileTree
  {
    FileTree(map[
      gh := Chain(wf, Chain(ci, Leaf())),
      src := Chain(core, FileTree(map[f1 := Leaf(), f2 := Leaf()])),
      py := Chain(cli, Chain(init, Leaf())),
      readme := Leaf(),
      cargo := Leaf()])
  }

  predicate FixtureNames(gh: string, wf: string, ci: string, src: string, core: string, f1: string, f2: string,
                         py: string, cli: string, init: string, readme: string, cargo: string)
  {
    gh == ".github" && wf == "workflows" && ci == "ci.yaml" && src == "src" && core == "core"
    && f1 == "some_file.rs" && f2 == "some_file2.rs" && py == "python" && cli == "cli"
    && init == "__init__.py" && readme == "README.md" && cargo == "Cargo.toml"
  }

  lemma RootLevel(gh: string, wf: string, ci: string, src: string, core: string, f1: string, f2: string,
                  py: string, cli: string, init: string, readme: string, cargo: string)
    requires FixtureNames(gh, wf, ci, src, core, f1, f2, py, cli, init, readme, cargo)
    ensures Level(Fixture(gh, wf, ci, src, core, f1, f2, py, cli, init, readme, cargo))
         == [Entry(false, gh), Entry(false, py), Entry(false, src), Entry(true, cargo), Entry(true, readme)]
  {
    var t := Fixture(gh, wf, ci, src, core, f1, f2, py, cli, init, readme, cargo);
    var es := [Entry(false, gh), Entry(false, py), Entry(false, src), Entry(true, cargo), Entry(true, readme)];
    StrLessIsStrictTotal();
    assert StrLess(gh, py) && StrLess(py, src) && StrLess(cargo, readme);
    assert StrictlySorted(es, KeyLess);
    assert |gh| == 7 && |py| == 6 && |src| == 3 && |cargo| == 10 && |readme| == 9;
    assert wf in t.nodes[gh].nodes && cli in t.nodes[py].nodes && core in t.nodes[src].nodes;
    assert EntryOf(t, gh) == es[0] && EntryOf(t, py) == es[1] && EntryOf(t, src) == es[2];
    assert EntryOf(t, cargo) == es[3] && EntryOf(t, readme) == es[4];
    forall e ensures e in es <==> e in Entries(t) {
      if e in Entries(t) {
        var k :| k in t.nodes && e == EntryOf(t, k);
      }
    }
    LevelIs(t, es);
  }

  /** Child `i` of a level draws as its own line above its subtree. */
  lemma BlockIs(t: FileTree, es: seq<Entry>, i: nat, k: string, v: FileTree)
    requires i < |es| && es[i].name == k && k in t.nodes && t.nodes[k] == v
    ensures Block(t, es, i, "") == [Connector(i == |es| - 1) + k] + Lines(v, Pad(i == |es| - 1))
  {
    assert "" + Connector(i == |es| - 1) == Connector(i == |es| - 1);
    assert "" + Pad(i == |es| - 1) == Pad(i == |es| - 1);
  }

  /** A level of five children draws as their five blocks in order. */
  lemma LinesOfFive(t: FileTree)
    requires |Level(t)| == 5
    ensures Lines(t, "") == Block(t, Level(t), 0, "") + Block(t, Level(t), 1, "") + Block(t, Level(t), 2, "")
                          + Block(t, Level(t), 3, "") + Block(t, Level(t), 4, "")
  {
    var es := Level(t);
    assert Blocks(t, es, 1, "") == Block(t, es, 0, "");
    assert Blocks(t, es, 2, "") == Blocks(t, es, 1, "") + Block(t, es, 1, "");
    assert Blocks(t, es, 3, "") == Blocks(t, es, 2, "") + Block(t, es, 2, "");
    assert Blocks(t, es, 4, "") == Blocks(t, es, 3, "") + Block(t, es, 3, "");
    assert Lines(t, "") == Blocks(t, es, 4, "") + Block(t, es, 4, "");
  }

  /** The fixture's lines, built from its names and the four connectors. */
  lemma FixtureShape(gh: string, wf: string, ci: string, src: string, core: string, f1: string, f2: string,
                     py: string, cli: string, init: string, readme: string, cargo: string)
    requires Level(Fixture(gh, wf, ci, src, core, f1, f2, py, cli, init, readme, cargo))
          == [Entry(false, gh), Entry(false, py), Entry(false, src), Entry(true, cargo), Entry(true, readme)]
    requires Level(FileTree(map[f1 := Leaf(), f2 := Leaf()])) == [Entry(true, f1), Entry(true, f2)]
    requires |gh| == 7 && |py| == 6 && |src| == 3 && |cargo| == 10 && |readme| == 9
    ensures Lines(Fixture(gh, wf, ci, src, core, f1, f2, py, cli, init, readme, cargo), "") == [
      Tee + gh, Bar + Elbow + wf, Bar + Blank + Elbow + ci,
      Tee + py, Bar + Elbow + cli, Bar + Blank + Elbow + init,
      Tee + src, Bar + Elbow + core, Bar + Blank + Tee + f1, Bar + Blank + Elbow + f2,
      Tee + cargo,
      Elbow + readme]
  {
    var t := Fixture(gh, wf, ci, src, core, f1, f2, py, cli, init, readme, cargo);
    LinesOfFive(t);
    FixtureNodes(gh, wf, ci, src, core, f1, f2, py, cli, init, readme, cargo);
    DirBlocks(t, gh, wf, ci, py, cli, init);
    RestBlocks(t, src, core, f1, f2, cargo, readme);
    var es := Level(t);
    AppendBlocks(Block(t, es, 0, ""), Block(t, es, 1, ""), Block(t, es, 2, ""), Block(t, es, 3, ""), Block(t, es, 4, ""));
  }

  /** Five blocks of three, three, four, one and one lines, laid end to end. */
  lemma AppendBlocks<T>(a: seq<T>, b: seq<T>, c: seq<T>, d: seq<T>, e: seq<T>)
    requires |a| == 3 && |b| == 3 && |c| == 4 && |d| == 1 && |e| == 1
    ensures a + b + c + d + e == [a[0], a[1], a[2], b[0], b[1], b[2], c[0], c[1], c[2], c[3], d[0], e[0]]
  {
  }

  /** The five children of the fixture's root, looked up by name. */
  lemma FixtureNodes(gh: string, wf: string, ci: string, src: string, core: string, f1: string, f2: string,
                     py: string, cli: string, init: string, readme: string, cargo: string)
    requires |gh| == 7 && |py| == 6 && |src| == 3 && |cargo| == 10 && |readme| == 9
    ensures var t := Fixture(gh, wf, ci, src, core, f1, f2, py, cli, init, readme, cargo);
      gh in t.nodes && t.nodes[gh] == Chain(wf, Chain(ci, Leaf())) &&
      py in t.nodes && t.nodes[py] == Chain(cli, Chain(init, Leaf())) &&
      src in t.nodes && t.nodes[src] == Chain(core, FileTree(map[f1 := Leaf(), f2 := Leaf()])) &&
      cargo in t.nodes && t.nodes[cargo] == Leaf() &&
      readme in t.nodes && t.nodes[readme] == Leaf()
  {
  }

  /** The first two blocks of the fixture: two staircases of directories. */
  lemma DirBlocks(t: FileTree, gh: string, wf: string, ci: string, py: string, cli: string, init: string)
    requires |Level(t)| == 5 && Level(t)[0].name == gh && Level(t)[1].name == py
    requires gh in t.nodes && t.nodes[gh] == Chain(wf, Chain(ci, Leaf()))
    requires py in t.nodes && t.nodes[py] == Chain(cli, Chain(init, Leaf()))
    ensures Block(t, Level(t), 0, "") == [Tee + gh, Bar + Elbow + wf, Bar + Blank + Elbow + ci]
    ensures Block(t, Level(t), 1, "") == [Tee + py, Bar + Elbow + cli, Bar + Blank + Elbow + init]
  {
    var es := Level(t);
    BlockIs(t, es, 0, gh, Chain(wf, Chain(ci, Leaf())));
    ChainLines(wf, ci, Bar);
    BlockIs(t, es, 1, py, Chain(cli, Chain(init, Leaf())));
    ChainLines(cli, init, Bar);
  }

  /** The last three blocks of the fixture: `src` with its two files, then two plain files. */
  lemma RestBlocks(t: FileTree, src: string, core: string, f1: string, f2: string, cargo: string, readme: string)
    requires |Level(t)| == 5 && Level(t)[2].name == src && Level(t)[3].name == cargo && Level(t)[4].name == readme
    requires Level(FileTree(map[f1 := Leaf(), f2 := Leaf()])) == [Entry(true, f1), Entry(true, f2)]
    requires src in t.nodes && t.nodes[src] == Chain(core, FileTree(map[f1 := Leaf(), f2 := Leaf()]))
    requires cargo in t.nodes && t.nodes[cargo] == Leaf()
    requires readme in t.nodes && t.nodes[readme] == Leaf()
    ensures Block(t, Level(t), 2, "") == [Tee + src, Bar + Elbow + core, Bar + Blank + Tee + f1, Bar + Blank + Elbow + f2]
    ensures Block(t, Level(t), 3, "") == [Tee + cargo]
    ensures Block(t, Level(t), 4, "") == [Elbow + readme]
  {
    var es := Level(t);
    BlockIs(t, es, 2, src, Chain(core, FileTree(map[f1 := Leaf(), f2 := Leaf()])));
    LinesOfSingle(core, FileTree(map[f1 := Leaf(), f2 := Leaf()]), Bar);
    CoreLines(f1, f2, Bar + Blank);
    BlockIs(t, es, 3, cargo, Leaf());
    LinesOfLeaf(Bar);
    BlockIs(t, es, 4, readme, Leaf());
    LinesOfLeaf(Blank);
  }

  lemma SpelledDirs(gh: string, wf: string, ci: string, py: string, cli: string, init: string)
    requires gh == ".github" && wf == "workflows" && ci == "ci.yaml"
    requires py == "python" && cli == "cli" && init == "__init__.py"
    ensures [Tee + gh, Bar + Elbow + wf, Bar + Blank + Elbow + ci,
             Tee + py, Bar + Elbow + cli, Bar + Blank + Elbow + init] == [
      "├── .github",
      "│   └── workflows",
      "│       └── ci.yaml",
      "├── python",
      "│   └── cli",
      "│       └── __init__.py"]
  {
    assert Tee + gh == "├── .github";
    assert Bar + Elbow + wf == "│   └── workflows";
    assert Bar + Blank + Elbow + ci == "│       └── ci.yaml";
    assert Tee + py == "├── python";
    assert Bar + Elbow + cli == "│   └── cli";
    assert Bar + Blank + Elbow + init == "│       └── __init__.py";
  }

  lemma SpelledRest(src: string, core: string, f1: string, f2: string, readme: string, cargo: string)
    requires src == "src" && core == "core" && f1 == "some_file.rs" && f2 == "some_file2.rs"
    requires readme == "README.md" && cargo == "Cargo.toml"
    ensures [Tee + src, Bar + Elbow + core, Bar + Blank + Tee + f1, Bar + Blank + Elbow + f2,
             Tee + cargo, Elbow + readme] == [
      "├── src",
      "│   └── core",
      "│       ├── some_file.rs",
      "│       └── some_file2.rs",
      "├── Cargo.toml",
      "└── README.md"]
  {
    assert Tee + src == "├── src";
    assert Bar + Elbow + core == "│   └── core";
    assert Bar + Blank + Tee + f1 == "│       ├── some_file.rs";
    assert Bar + Blank + Elbow + f2 == "│       └── some_file2.rs";
    assert Tee + cargo == "├── Cargo.toml";
    assert Elbow + readme == "└── README.md";
  }

  /** The lines of `test_file_tree`'s expected output between the sentinels. */
  lemma FixtureLines(gh: string, wf: string, ci: string, src: string, core: string, f1: string, f2: string,
                     py: string, cli: string, init: string, readme: string, cargo: string)
    requires FixtureNames(gh, wf, ci, src, core, f1, f2, py, cli, init, readme, cargo)
    ensures Lines(Fixture(gh, wf, ci, src, core, f1, f2, py, cli, init, readme, cargo), "") == [
      "├── .github",
      "│   └── workflows",
      "│       └── ci.yaml",
      "├── python",
      "│   └── cli",
      "│       └── __init__.py",
      "├── src",
      "│   └── core",
      "│       ├── some_file.rs",
      "│       └── some_file2.rs",
      "├── Cargo.toml",
      "└── README.md"]
  {
    RootLevel(gh, wf, ci, src, core, f1, f2, py, cli, init, readme, cargo);
    CoreLevel(f1, f2);
    FixtureShape(gh, wf, ci, src, core, f1, f2, py, cli, init, readme, cargo);
    SpelledDirs(gh, wf, ci, py, cli, init);
    SpelledRest(src, core, f1, f2, readme, cargo);
  }

  /** One step of `insert`: the head component's node, old or new, takes the rest. */
  lemma InsertStep(t: FileTree, k: string, rest: Path)
    ensures FileTrees.Insert(t, [k] + rest)
         == FileTree(t.nodes[k := FileTrees.Insert(if k in t.nodes then t.nodes[k] else Leaf(), rest)])
  {
    assert ([k] + rest)[0] == k && ([k] + rest)[1..] == rest;
  }

  lemma InsertAllStep(t: FileTree, ps: seq<Path>, k: nat)
    requires k < |ps|
    ensures InsertAll(t, ps[..k + 1]) == FileTrees.Insert(InsertAll(t, ps[..k]), ps[k])
  {
    assert ps[..k + 1][..k] == ps[..k];
  }

  /** Inserting a new three-component path adds a fresh chain. */
  lemma InsertNewChain(t: FileTree, k: string, a: string, b: string)
    requires k !in t.nodes
    ensures FileTrees.Insert(t, [k, a, b]) == FileTree(t.nodes[k := Chain(a, Chain(b, Leaf()))])
  {
    var e: Path := [];
    InsertStep(Leaf(), b, e);
    InsertStep(Leaf(), a, [b]);
    InsertStep(t, k, [a, b]);
    assert [b] + e == [b] && [a] + [b] == [a, b] && [k] + [a, b] == [k, a, b];
  }

  /** Inserting a new top-level file adds a leaf. */
  lemma InsertNewLeaf(t: FileTree, k: string)
    requires k !in t.nodes
    ensures FileTrees.Insert(t, [k]) == FileTree(t.nodes[k := Leaf()])
  {
    var e: Path := [];
    InsertStep(t, k, e);
    assert [k] + e == [k];
  }

  /** A second file in an existing two-level chain joins its sibling. */
  lemma InsertSibling(t: FileTree, k: string, a: string, b: string, c: string)
    requires k in t.nodes && t.nodes[k] == Chain(a, Chain(b, Leaf())) && b != c
    ensures FileTrees.Insert(t, [k, a, c]) == FileTree(t.nodes[k := Chain(a, FileTree(map[b := Leaf(), c := Leaf()]))])
  {
    var e: Path := [];
    InsertStep(Chain(b, Leaf()), c, e);
    InsertStep(Chain(a, Chain(b, Leaf())), a, [c]);
    InsertStep(t, k, [a, c]);
    assert [c] + e == [c] && [a] + [c] == [a, c] && [k] + [a, c] == [k, a, c];
    assert FileTrees.Insert(Leaf(), e) == Leaf();
    var level := FileTree(map[b := Leaf(), c := Leaf()]);
    assert FileTrees.Insert(Chain(b, Leaf()), [c]) == level;
    assert map[a := Chain(b, Leaf())][a := level] == map[a := level];
  }

  /** The paths `test_file_tree` hands to `create_map`, in its order. */
  function FixturePaths(gh: string, wf: string, ci: string, src: string, core: string, f1: string, f2: string,
                        py: string, cli: string, init: string, readme: string, cargo: string): seq<Path>
  {
    [[gh, wf, ci], [src, core, f1], [src, core, f2], [py, cli, init], [readme], [cargo]]
  }

  /** `FileTree::new().create_map(paths)` on the fixture builds the tree drawn above. */
  lemma FixtureCreateMap(gh: string, wf: string, ci: string, src: string, core: string, f1: string, f2: string,
                         py: string, cli: string, init: string, readme: string, cargo: string)
    requires FixtureNames(gh, wf, ci, src, core, f1, f2, py, cli, init, readme, cargo)
    ensures InsertAll(New(), FixturePaths(gh, wf, ci, src, core, f1, f2, py, cli, init, readme, cargo))
         == Fixture(gh, wf, ci, src, core, f1, f2, py, cli, init, readme, cargo)
  {
    assert |gh| == 7 && |py| == 6 && |src| == 3 && |cargo| == 10 && |readme| == 9;
    assert |f1| == 12 && |f2| == 13;
    CreateMapSteps(gh, wf, ci, src, core, f1, f2, py, cli, init, readme, cargo);
  }

  lemma CreateMapSteps(gh: string, wf: string, ci: string, src: string, core: string, f1: string, f2: string,
                       py: string, cli: string, init: string, readme: string, cargo: string)
    requires gh != src && gh != py && gh != readme && gh != cargo && src != py && src != readme
    requires src != cargo && py != readme && py != cargo && readme != cargo && f1 != f2
    ensures InsertAll(New(), FixturePaths(gh, wf, ci, src, core, f1, f2, py, cli, init, readme, cargo))
         == Fixture(gh, wf, ci, src, core, f1, f2, py, cli, init, readme, cargo)
  {
    var ps := FixturePaths(gh, wf, ci, src, core, f1, f2, py, cli, init, readme, cargo);
    var t0 := New();
    assert InsertAll(t0, ps[..0]) == t0;
    InsertAllStep(t0, ps, 0);
    InsertNewChain(t0, gh, wf, ci);
    var t1 := FileTree(map[gh := Chain(wf, Chain(ci, Leaf()))]);
    InsertAllStep(t0, ps, 1);
    InsertNewChain(t1, src, core, f1);
    var t2 := FileTree(t1.nodes[src := Chain(core, Chain(f1, Leaf()))]);
    InsertAllStep(t0, ps, 2);
    InsertSibling(t2, src, core, f1, f2);
    var t3 := FileTree(t1.nodes[src := Chain(core, FileTree(map[f1 := Leaf(), f2 := Leaf()]))]);
    assert t2.nodes[src := Chain(core, FileTree(map[f1 := Leaf(), f2 := Leaf()]))] == t3.nodes;
    InsertAllStep(t0, ps, 3);
    InsertNewChain(t3, py, cli, init);
    var t4 := FileTree(t3.nodes[py := Chain(cli, Chain(init, Leaf()))]);
    InsertAllStep(t0, ps, 4);
    InsertNewLeaf(t4, readme);
    var t5 := FileTree(t4.nodes[readme := Leaf()]);
    InsertAllStep(t0, ps, 5);
    InsertNewLeaf(t5, cargo);
    assert ps[..6] == ps;
  }

  /** `test_file_tree`: the six paths render as the expected map. */
  lemma TestFileTree(gh: string, wf: string, ci: string, src: string, core: string, f1: string, f2: string,
                     py: string, cli: string, init: string, readme: string, cargo: string, expected: seq<string>)
    requires FixtureNames(gh, wf, ci, src, core, f1, f2, py, cli, init, readme, cargo)
    requires expected == [
      "├── .github",
      "│   └── workflows",
      "│       └── ci.yaml",
      "├── python",
      "│   └── cli",
      "│       └── __init__.py",
      "├── src",
      "│   └── core",
      "│       ├── some_file.rs",
      "│       └── some_file2.rs",
      "├── Cargo.toml",
      "└── README.md"]
    ensures RenderText(InsertAll(New(), FixturePaths(gh, wf, ci, src, core, f1, f2, py, cli, init, readme, cargo)))
         == "# Repo map\n```\n" + Join(expected, "\n") + "\n::\n```"
  {
    FixtureCreateMap(gh, wf, ci, src, core, f1, f2, py, cli, init, readme, cargo);
    FixtureLines(gh, wf, ci, src, core, f1, f2, py, cli, init, readme, cargo);
  }
}
