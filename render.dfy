/** `FileTree::render`: each level sorted by `(is_leaf, name)`, one line per
    node drawn as `prefix + connector + name`, wrapped in the sentinel block
    that marks the repository map inside the README. */
module Rendering {
  import opened Orders
  import opened Text
  import opened Paths
  import opened FileTrees

  /** The sort key of one child: `(node.nodes.is_empty(), name)`. */
  datatype Entry = Entry(leaf: bool, name: string)

  /** Tuple order on the key: `false < true` first, then names byte-wise. */
  predicate KeyLess(a: Entry, b: Entry) {
    (!a.leaf && b.leaf) || (a.leaf == b.leaf && StrLess(a.name, b.name))
  }

  lemma KeyLessIsStrictTotal()
    ensures StrictTotalOrder(KeyLess)
  {
    StrLessIsStrictTotal();
    forall a: Entry, b: Entry | a != b ensures KeyLess(a, b) || KeyLess(b, a) {
      if a.leaf == b.leaf {
        assert a.name != b.name;
      }
    }
  }

  /** The key of the child named `k`. */
  function EntryOf(t: FileTree, k: string): Entry
    requires k in t.nodes
  {
    Entry(t.nodes[k].nodes == map[], k)
  }

  /** The keys of one level. */
  function Entries(t: FileTree): set<Entry> {
    set k | k in t.nodes :: EntryOf(t, k)
  }

  /** The children of one level in the order `render` lists them: every
      child once, the ones with children of their own first, then the leaves,
      each group in byte-wise name order. */
  ghost function Level(t: FileTree): (es: seq<Entry>)
    ensures StrictlySorted(es, KeyLess)
    ensures forall e :: e in es <==> e in Entries(t)
  {
    KeyLessIsStrictTotal();
    Enumerate(Entries(t), KeyLess)
  }

  const Tee := "├── "
  const Elbow := "└── "
  const Bar := "│   "
  const Blank := "    "

  /** Only the last child of a level is drawn with an elbow. */
  function Connector(isLast: bool): string {
    if isLast then Elbow else Tee
  }

  /** Below the last child the guide line stops. */
  function Pad(isLast: bool): string {
    if isLast then Blank else Bar
  }

  /** The lines `_walk(tree, prefix, out)` pushes. */
  ghost function Lines(t: FileTree, prefix: string): seq<string>
    decreases t, 2
  {
    Blocks(t, Level(t), |Level(t)|, prefix)
  }

  /** The lines of the first `n` children in `es`. */
  ghost function Blocks(t: FileTree, es: seq<Entry>, n: nat, prefix: string): seq<string>
    requires n <= |es|
    decreases t, 1, n
  {
    if n == 0 then [] else Blocks(t, es, n - 1, prefix) + Block(t, es, n - 1, prefix)
  }

  /** The line of child `i`, then the lines of its subtree one level deeper. */
  ghost function Block(t: FileTree, es: seq<Entry>, i: nat, prefix: string): seq<string>
    requires i < |es|
    decreases t, 0
  {
    var isLast := i == |es| - 1;
    [prefix + Connector(isLast) + es[i].name]
    + (if es[i].name in t.nodes then Lines(t.nodes[es[i].name], prefix + Pad(isLast)) else [])
  }

  /** `tree.iter().collect()`: every child once, in the map's own order. */
  method Collect(t: FileTree) returns (items: seq<Entry>)
    ensures Distinct(items)
    ensures forall e :: e in items <==> e in Entries(t)
  {
    items := [];
    var rest := t.nodes.Keys;
    while rest != {}
      invariant rest <= t.nodes.Keys
      invariant forall e :: e in items <==> e in Entries(t) && e.name !in rest
      invariant Distinct(items)
      decreases rest
    {
      var k :| k in rest;
      items := items + [EntryOf(t, k)];
      rest := rest - {k};
    }
  }

  /** Sorting the collected children by their keys yields the level order. */
  lemma SortedItemsAreLevel(t: FileTree, items: seq<Entry>)
    requires Distinct(items)
    requires forall e :: e in items <==> e in Entries(t)
    ensures InsertionSort(items, KeyLess) == Level(t)
  {
    var sorted := InsertionSort(items, KeyLess);
    KeyLessIsStrictTotal();
    InsertionSortSorted(items, KeyLess);
    PermutationKeepsDistinct(items, sorted);
    SortedDistinctIsStrict(sorted, KeyLess);
    assert forall e :: e in sorted <==> e in items by {
      forall e ensures e in sorted <==> e in items {
        assert e in sorted <==> e in multiset(sorted);
        assert e in items <==> e in multiset(items);
      }
    }
    StrictlySortedUnique(sorted, Level(t), KeyLess);
  }

  /** The children of one level, collected and then sorted by
      `sort_by_key(|(name, node)| (node.nodes.is_empty(), name))`. */
  method SortedItems(t: FileTree) returns (sorted: seq<Entry>)
    ensures sorted == Level(t)
  {
    var items := Collect(t);
    sorted := InsertionSort(items, KeyLess);
    SortedItemsAreLevel(t, items);
  }

  /** `_walk`: appends the lines of `t` to `out`. */
  method Walk(t: FileTree, prefix: string, out: seq<string>) returns (out': seq<string>)
    ensures out' == out + Lines(t, prefix)
    decreases t, 1
  {
    var sorted := SortedItems(t);
    out' := WalkLevel(t, sorted, prefix, out);
  }

  /** The loop of `_walk` over the sorted children `es`: each child's line,
      then its subtree one level deeper. */
  method WalkLevel(t: FileTree, es: seq<Entry>, prefix: string, out: seq<string>) returns (out': seq<string>)
    ensures out' == out + Blocks(t, es, |es|, prefix)
    decreases t, 0
  {
    out' := out;
    for i: nat := 0 to |es|
      invariant out' == out + Blocks(t, es, i, prefix)
    {
      ghost var before := out';
      var name, isLast := es[i].name, i == |es| - 1;
      var head := prefix + Connector(isLast) + name;
      out' := out' + [head];
      if name in t.nodes {
        out' := Walk(t.nodes[name], prefix + Pad(isLast), out');
        AppendAssoc(before, [head], Lines(t.nodes[name], prefix + Pad(isLast)));
      }
      AppendAssoc(out, Blocks(t, es, i, prefix), Block(t, es, i, prefix));
    }
  }

  const Header := "# Repo map\n```"
  const Footer := "::\n```"

  /** The text `render` returns. */
  ghost function RenderText(t: FileTree): string {
    Header + "\n" + Join(Lines(t, ""), "\n") + "\n" + Footer
  }

  /** `FileTree::render` */
  method Render(t: FileTree) returns (s: string)
    ensures s == RenderText(t)
  {
    var out := Walk(t, "", []);
    assert out == Lines(t, "");
    s := Header + "\n" + Join(out, "\n") + "\n" + Footer;
  }

  // ---------------------------------------------------------------------------
  // Properties of the rendered lines

  /** What follows a level's prefix on a line: a guide unit (`│   ` or four
      blanks) for every deeper level, then the connector `├── ` or `└── `,
      then the name. */
  predicate Shaped(s: string)
    decreases |s|
  {
    |s| >= 4 &&
    (s[..4] == Tee || s[..4] == Elbow || ((s[..4] == Bar || s[..4] == Blank) && Shaped(s[4..])))
  }

  /** A line drawn below `prefix`: the prefix, then guides, a connector and a name. */
  predicate ShapedBelow(l: string, prefix: string) {
    StartsWith(l, prefix) && Shaped(l[|prefix|..])
  }

  lemma {:induction false} LinesShape(t: FileTree, prefix: string)
    ensures forall l :: l in Lines(t, prefix) ==> ShapedBelow(l, prefix)
    decreases t, 2
  {
    BlocksShape(t, Level(t), |Level(t)|, prefix);
  }

  lemma {:induction false} BlocksShape(t: FileTree, es: seq<Entry>, n: nat, prefix: string)
    requires n <= |es|
    requires forall e :: e in es ==> e.name in t.nodes
    ensures forall l :: l in Blocks(t, es, n, prefix) ==> ShapedBelow(l, prefix)
    decreases t, 1, n
  {
    if n > 0 {
      BlocksShape(t, es, n - 1, prefix);
      var i := n - 1;
      var isLast := i == |es| - 1;
      var name := es[i].name;
      var head := prefix + Connector(isLast) + name;
      assert es[i] in es;
      assert ShapedBelow(head, prefix) by {
        assert head[..|prefix|] == prefix;
        assert head[|prefix|..][..4] == Connector(isLast);
      }
      var pad := Pad(isLast);
      LinesShape(t.nodes[name], prefix + pad);
      forall l | l in Lines(t.nodes[name], prefix + pad) ensures ShapedBelow(l, prefix) {
        assert ShapedBelow(l, prefix + pad);
        assert l[..|prefix|] == (prefix + pad)[..|prefix|] == prefix;
        assert l[|prefix|..][..4] == (prefix + pad)[|prefix|..] == pad;
        assert l[|prefix|..][4..] == l[|prefix + pad|..];
      }
    }
  }

  /** The characters the drawing itself adds: connectors, guides and blanks. */
  predicate IsDrawingChar(c: char) {
    c == '├' || c == '└' || c == '│' || c == '─' || c == ' '
  }

  /** A character that is neither in the prefix, nor in any name, nor part of
      the drawing appears on no line. */
  lemma {:induction false} LinesAvoid(t: FileTree, prefix: string, ch: char)
    requires ch !in prefix && !IsDrawingChar(ch) && TreeNamesAvoid(t, ch)
    ensures forall l :: l in Lines(t, prefix) ==> ch !in l
    decreases t, 2
  {
    BlocksAvoid(t, Level(t), |Level(t)|, prefix, ch);
  }

  lemma {:induction false} BlocksAvoid(t: FileTree, es: seq<Entry>, n: nat, prefix: string, ch: char)
    requires n <= |es|
    requires forall e :: e in es ==> e.name in t.nodes
    requires ch !in prefix && !IsDrawingChar(ch) && TreeNamesAvoid(t, ch)
    ensures forall l :: l in Blocks(t, es, n, prefix) ==> ch !in l
    decreases t, 1, n
  {
    if n > 0 {
      BlocksAvoid(t, es, n - 1, prefix, ch);
      var i := n - 1;
      var isLast := i == |es| - 1;
      var name := es[i].name;
      assert es[i] in es;
      var pad := Pad(isLast);
      assert ch !in name;
      assert ch !in Connector(isLast) && ch !in pad;
      assert ch !in prefix + Connector(isLast) + name;
      assert ch !in prefix + pad;
      LinesAvoid(t.nodes[name], prefix + pad, ch);
    }
  }

  /** The same for the whole rendered map, whose frame adds line breaks and
      the sentinels. */
  lemma RenderAvoids(t: FileTree, ch: char)
    requires ch != '\n' && ch !in Header && ch !in Footer && !IsDrawingChar(ch)
    requires TreeNamesAvoid(t, ch)
    ensures ch !in RenderText(t)
  {
    var ls := Lines(t, "");
    LinesAvoid(t, "", ch);
    assert forall i :: 0 <= i < |ls| ==> ch !in ls[i] by {
      forall i | 0 <= i < |ls| ensures ch !in ls[i] {
        assert ls[i] in ls;
      }
    }
    JoinAvoids(ls, "\n", ch);
  }

  /** An empty tree renders as the bare sentinel block with an empty middle. */
  lemma RenderEmpty()
    ensures RenderText(New()) == "# Repo map\n```\n\n::\n```"
  {
    assert Entries(New()) == {};
    assert Level(New()) == [];
  }

  // ---------------------------------------------------------------------------
  // One line per node

  /** The chain of names from the root to the node each line of `Lines` draws. */
  ghost function Chains(t: FileTree): seq<Path>
    decreases t, 2
  {
    ChainBlocks(t, Level(t), |Level(t)|)
  }

  ghost function ChainBlocks(t: FileTree, es: seq<Entry>, n: nat): seq<Path>
    requires n <= |es|
    decreases t, 1, n
  {
    if n == 0 then [] else ChainBlocks(t, es, n - 1) + ChainBlock(t, es, n - 1)
  }

  ghost function ChainBlock(t: FileTree, es: seq<Entry>, i: nat): seq<Path>
    requires i < |es|
    decreases t, 0
  {
    var name := es[i].name;
    [[name]] + (if name in t.nodes then Prepend(name, Chains(t.nodes[name])) else [])
  }

  function Prepend(k: string, qs: seq<Path>): (r: seq<Path>)
    ensures |r| == |qs| && forall j :: 0 <= j < |qs| ==> r[j] == [k] + qs[j]
  {
    seq(|qs|, j requires 0 <= j < |qs| => [k] + qs[j])
  }

  /** Each line ends with the name of the node at the end of its chain. */
  predicate Names(ls: seq<string>, qs: seq<Path>) {
    |ls| == |qs| && forall j :: 0 <= j < |qs| ==> |qs[j]| > 0 && EndsWith(ls[j], qs[j][|qs[j]| - 1])
  }

  lemma NamesAppend(a: seq<string>, b: seq<string>, c: seq<Path>, d: seq<Path>)
    requires Names(a, c) && Names(b, d)
    ensures Names(a + b, c + d)
  {
    forall j | 0 <= j < |c + d|
      ensures |(c + d)[j]| > 0 && EndsWith((a + b)[j], (c + d)[j][|(c + d)[j]| - 1])
    {
      if j >= |c| {
        assert (a + b)[j] == b[j - |c|] && (c + d)[j] == d[j - |c|];
      }
    }
  }

  lemma {:induction false} LinesNameChains(t: FileTree, prefix: string)
    ensures Names(Lines(t, prefix), Chains(t))
    decreases t, 2
  {
    BlocksNameChains(t, Level(t), |Level(t)|, prefix);
  }

  lemma {:induction false} BlocksNameChains(t: FileTree, es: seq<Entry>, n: nat, prefix: string)
    requires n <= |es|
    ensures Names(Blocks(t, es, n, prefix), ChainBlocks(t, es, n))
    decreases t, 1, n
  {
    if n > 0 {
      BlocksNameChains(t, es, n - 1, prefix);
      BlockNameChains(t, es, n - 1, prefix);
      NamesAppend(Blocks(t, es, n - 1, prefix), Block(t, es, n - 1, prefix),
                  ChainBlocks(t, es, n - 1), ChainBlock(t, es, n - 1));
    }
  }

  lemma {:induction false} BlockNameChains(t: FileTree, es: seq<Entry>, i: nat, prefix: string)
    requires i < |es|
    ensures Names(Block(t, es, i, prefix), ChainBlock(t, es, i))
    decreases t, 0
  {
    var isLast := i == |es| - 1;
    var name := es[i].name;
    var head := prefix + Connector(isLast) + name;
    assert Names([head], [[name]]) by {
      assert head[|head| - |name|..] == name;
    }
    if name in t.nodes {
      var child := t.nodes[name];
      LinesNameChains(child, prefix + Pad(isLast));
      PrependNames(Lines(child, prefix + Pad(isLast)), Chains(child), name);
      NamesAppend([head], Lines(child, prefix + Pad(isLast)), [[name]], Prepend(name, Chains(child)));
    } else {
      assert Names([head] + [], [[name]] + []);
    }
  }

  /** Putting a name in front of every chain keeps each chain's last name. */
  lemma PrependNames(ls: seq<string>, cs: seq<Path>, name: string)
    requires Names(ls, cs)
    ensures Names(ls, Prepend(name, cs))
  {
    var qs := Prepend(name, cs);
    forall j | 0 <= j < |qs| ensures |qs[j]| > 0 && EndsWith(ls[j], qs[j][|qs[j]| - 1]) {
      assert qs[j][|qs[j]| - 1] == cs[j][|cs[j]| - 1];
    }
  }

  /** The chains are exactly the non-empty paths of the tree. */
  lemma {:induction false} ChainsAreNodes(t: FileTree)
    ensures forall q :: q in Chains(t) <==> q != [] && HasPath(t, q)
    decreases t, 2
  {
    var es := Level(t);
    assert forall e :: e in es ==> e.name in t.nodes;
    ChainBlocksAreNodes(t, es, |es|);
    forall q | q != [] && HasPath(t, q) ensures exists i :: 0 <= i < |es| && es[i].name == q[0] {
      assert EntryOf(t, q[0]) in Entries(t);
      var i :| 0 <= i < |es| && es[i] == EntryOf(t, q[0]);
    }
  }

  lemma {:induction false} ChainBlocksAreNodes(t: FileTree, es: seq<Entry>, n: nat)
    requires n <= |es|
    requires forall e :: e in es ==> e.name in t.nodes
    ensures forall q :: q in ChainBlocks(t, es, n) <==>
      q != [] && HasPath(t, q) && exists i :: 0 <= i < n && es[i].name == q[0]
    decreases t, 1, n
  {
    if n > 0 {
      ChainBlocksAreNodes(t, es, n - 1);
      assert es[n - 1] in es;
      ChainBlockIsNodes(t, es, n - 1);
    }
  }

  /** The chains of child `i` are the non-empty paths that start with its name. */
  lemma {:induction false} ChainBlockIsNodes(t: FileTree, es: seq<Entry>, i: nat)
    requires i < |es| && es[i].name in t.nodes
    ensures forall q :: q in ChainBlock(t, es, i) <==> q != [] && HasPath(t, q) && q[0] == es[i].name
    decreases t, 0
  {
    var name := es[i].name;
    var child := t.nodes[name];
    ChainsAreNodes(child);
    PrependChains(name, Chains(child), child);
    forall q ensures q in ChainBlock(t, es, i) <==> q != [] && HasPath(t, q) && q[0] == name {
      if q == [name] {
        assert q[1..] == [];
      }
    }
  }

  lemma PrependChains(name: string, cs: seq<Path>, child: FileTree)
    requires forall q :: q in cs <==> q != [] && HasPath(child, q)
    ensures forall q :: q in Prepend(name, cs) <==> |q| > 1 && q[0] == name && HasPath(child, q[1..])
  {
    var qs := Prepend(name, cs);
    forall q ensures q in qs <==> |q| > 1 && q[0] == name && HasPath(child, q[1..]) {
      if q in qs {
        var j :| 0 <= j < |qs| && qs[j] == q;
        assert cs[j] in cs;
        assert q[1..] == cs[j];
      }
      if |q| > 1 && q[0] == name && HasPath(child, q[1..]) {
        var j :| 0 <= j < |cs| && cs[j] == q[1..];
        assert qs[j] == [name] + q[1..] == q;
      }
    }
  }

  /** No node is drawn twice. */
  lemma {:induction false} ChainsDistinct(t: FileTree)
    ensures Distinct(Chains(t))
    decreases t, 2
  {
    var es := Level(t);
    assert forall e :: e in es ==> e.name in t.nodes;
    KeyLessIsStrictTotal();
    forall i, j | 0 <= i < j < |es| ensures es[i].name != es[j].name {
      assert KeyLess(es[i], es[j]);
      assert es[i] in Entries(t) && es[j] in Entries(t);
      assert es[i] == EntryOf(t, es[i].name) && es[j] == EntryOf(t, es[j].name);
    }
    ChainBlocksDistinct(t, es, |es|);
  }

  lemma {:induction false} ChainBlocksDistinct(t: FileTree, es: seq<Entry>, n: nat)
    requires n <= |es|
    requires forall e :: e in es ==> e.name in t.nodes
    requires forall i, j :: 0 <= i < j < |es| ==> es[i].name != es[j].name
    ensures Distinct(ChainBlocks(t, es, n))
    decreases t, 1, n
  {
    if n > 0 {
      ChainBlocksDistinct(t, es, n - 1);
      ChainBlocksAreNodes(t, es, n - 1);
      var name := es[n - 1].name;
      assert es[n - 1] in es;
      var child := t.nodes[name];
      ChainsDistinct(child);
      ChainsAreNodes(child);
      var qs := Prepend(name, Chains(child));
      var block := ChainBlock(t, es, n - 1);
      assert Distinct(block) by {
        forall a, b | 0 <= a < b < |qs| ensures qs[a] != qs[b] {
          assert qs[a][1..] == Chains(child)[a] && qs[b][1..] == Chains(child)[b];
        }
        forall b | 0 <= b < |qs| ensures qs[b] != [name] {
          assert Chains(child)[b] in Chains(child);
        }
        assert block == [[name]] + qs;
      }
      var prev := ChainBlocks(t, es, n - 1);
      forall q | q in block ensures q !in prev {
        assert q != [] && q[0] == name by {
          if q != [name] {
            var b :| 0 <= b < |qs| && qs[b] == q;
          }
        }
      }
      DistinctAppend(prev, block);
    }
  }

  lemma DistinctAppend<T>(a: seq<T>, b: seq<T>)
    requires Distinct(a) && Distinct(b)
    requires forall x :: x in b ==> x !in a
    ensures Distinct(a + b)
  {
    forall i, j | 0 <= i < j < |a + b| ensures (a + b)[i] != (a + b)[j] {
      if i < |a| && j >= |a| {
        assert (a + b)[j] == b[j - |a|];
        assert (a + b)[j] in b;
      }
    }
  }

  /** Exactly one line per node: the lines and the nodes correspond one to
      one, and each line ends with its node's name. */
  lemma OneLinePerNode(t: FileTree, prefix: string)
    ensures |Lines(t, prefix)| == |Chains(t)|
    ensures forall q :: q in Chains(t) <==> q != [] && HasPath(t, q)
    ensures Distinct(Chains(t))
    ensures forall j :: 0 <= j < |Chains(t)| ==>
      |Chains(t)[j]| > 0 && EndsWith(Lines(t, prefix)[j], Chains(t)[j][|Chains(t)[j]| - 1])
  {
    LinesNameChains(t, prefix);
    ChainsAreNodes(t);
    ChainsDistinct(t);
  }

  // ---------------------------------------------------------------------------
  // Small trees

  /** A level with one child lists just that child. */
  lemma LevelOfSingle(k: string, v: FileTree)
    ensures Level(FileTree(map[k := v])) == [Entry(v.nodes == map[], k)]
  {
    var t := FileTree(map[k := v]);
    var e := Entry(v.nodes == map[], k);
    assert Entries(t) == {e} by {
      assert t.nodes.Keys == {k};
      assert EntryOf(t, k) == e;
      forall x | x in Entries(t) ensures x == e {
        var k' :| k' in t.nodes && x == EntryOf(t, k');
      }
    }
    KeyLessIsStrictTotal();
    StrictlySortedUnique(Level(t), [e], KeyLess);
  }

  lemma LinesOfLeaf(prefix: string)
    ensures Lines(FileTree(map[]), prefix) == []
  {
    assert Entries(FileTree(map[])) == {};
    assert Level(FileTree(map[])) == [];
  }

  /** A node with one child draws it with an elbow and indents its subtree with blanks. */
  lemma LinesOfSingle(k: string, v: FileTree, prefix: string)
    ensures Lines(FileTree(map[k := v]), prefix) == [prefix + Elbow + k] + Lines(v, prefix + Blank)
  {
    var t := FileTree(map[k := v]);
    LevelOfSingle(k, v);
    assert Blocks(t, Level(t), 1, prefix) == Block(t, Level(t), 0, prefix);
  }

  /** A tree holding one file renders as that file's line between the sentinels. */
  lemma RenderSingleFile(name: string)
    ensures RenderText(FileTree(map[name := FileTree(map[])])) == Header + "\n" + Elbow + name + "\n" + Footer
  {
    LinesOfSingle(name, FileTree(map[]), "");
    LinesOfLeaf(Blank);
  }
}
