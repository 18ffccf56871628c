/** `FileTree`: a map from a component name to the subtree below it. `insert`
    adds one path as a chain of nested nodes, reusing the nodes that exist;
    `create_map` inserts a whole list of paths. */
module FileTrees {
  import opened Paths

  datatype FileTree = FileTree(nodes: map<string, FileTree>)

  /** `FileTree::new()` */
  function New(): (t: FileTree)
    ensures forall q :: HasPath(t, q) <==> q == []
  {
    FileTree(map[])
  }

  /** `q` is a chain of names from the root down to some node. */
  predicate HasPath(t: FileTree, q: Path)
    decreases |q|
  {
    q == [] || (q[0] in t.nodes && HasPath(t.nodes[q[0]], q[1..]))
  }

  predicate IsPrefix(q: Path, p: Path) {
    |q| <= |p| && p[..|q|] == q
  }

  /** `FileTree::insert`: walk the components, creating each missing node
      (`entry(part).or_default()`). */
  function Insert(t: FileTree, p: Path): FileTree
    decreases |p|
  {
    if p == [] then t
    else
      var child := if p[0] in t.nodes then t.nodes[p[0]] else FileTree(map[]);
      FileTree(t.nodes[p[0] := Insert(child, p[1..])])
  }

  /** After inserting `p`, the chains are the old ones plus the prefixes of `p`. */
  lemma {:induction false} InsertHasPath(t: FileTree, p: Path, q: Path)
    ensures HasPath(Insert(t, p), q) <==> HasPath(t, q) || IsPrefix(q, p)
    decreases |p|
  {
    if p != [] && q != [] {
      var child := if p[0] in t.nodes then t.nodes[p[0]] else FileTree(map[]);
      if q[0] == p[0] {
        InsertHasPath(child, p[1..], q[1..]);
        assert IsPrefix(q, p) <==> IsPrefix(q[1..], p[1..]) by {
          if IsPrefix(q[1..], p[1..]) {
            assert p[..|q|] == [p[0]] + p[1..][..|q| - 1];
            assert q == [q[0]] + q[1..];
          }
          if IsPrefix(q, p) {
            assert p[1..][..|q| - 1] == p[..|q|][1..];
          }
        }
        if !(p[0] in t.nodes) {
          NothingBelowEmpty(q[1..]);
        }
      } else if |q| <= |p| {
        assert p[..|q|][0] == p[0];
      }
    }
  }

  lemma NothingBelowEmpty(q: Path)
    ensures HasPath(FileTree(map[]), q) <==> q == []
  {
  }

  /** Two trees with the same chains are the same tree. */
  lemma {:induction false} SameChainsSameTree(a: FileTree, b: FileTree)
    requires forall q :: HasPath(a, q) <==> HasPath(b, q)
    ensures a == b
    decreases a
  {
    forall k | k in a.nodes ensures k in b.nodes && a.nodes[k] == b.nodes[k] {
      assert HasPath(a, [k]);
      assert HasPath(b, [k]);
      forall q ensures HasPath(a.nodes[k], q) <==> HasPath(b.nodes[k], q) {
        assert ([k] + q)[1..] == q;
        assert HasPath(a, [k] + q) <==> HasPath(b, [k] + q);
      }
      SameChainsSameTree(a.nodes[k], b.nodes[k]);
    }
    forall k | k in b.nodes ensures k in a.nodes {
      assert HasPath(b, [k]);
      assert HasPath(a, [k]);
    }
    assert a.nodes.Keys == b.nodes.Keys;
  }

  /** Existing nodes are reused: inserting a chain that is already there changes nothing. */
  lemma {:induction false} InsertExisting(t: FileTree, p: Path)
    requires HasPath(t, p)
    ensures Insert(t, p) == t
    decreases |p|
  {
    if p != [] {
      InsertExisting(t.nodes[p[0]], p[1..]);
    }
  }

  /** The order in which two paths are inserted does not matter. */
  lemma InsertCommutes(t: FileTree, p: Path, q: Path)
    ensures Insert(Insert(t, p), q) == Insert(Insert(t, q), p)
  {
    forall r ensures HasPath(Insert(Insert(t, p), q), r) <==> HasPath(Insert(Insert(t, q), p), r) {
      InsertHasPath(Insert(t, p), q, r);
      InsertHasPath(t, p, r);
      InsertHasPath(Insert(t, q), p, r);
      InsertHasPath(t, q, r);
    }
    SameChainsSameTree(Insert(Insert(t, p), q), Insert(Insert(t, q), p));
  }

  /** `create_map` as a specification: the paths inserted one after another. */
  function InsertAll(t: FileTree, paths: seq<Path>): FileTree
  {
    if paths == [] then t
    else Insert(InsertAll(t, paths[..|paths| - 1]), paths[|paths| - 1])
  }

  /** `FileTree::create_map` */
  method CreateMap(t: FileTree, paths: seq<Path>) returns (r: FileTree)
    ensures r == InsertAll(t, paths)
  {
    r := t;
    for i := 0 to |paths|
      invariant r == InsertAll(t, paths[..i])
    {
      assert paths[..i + 1][..i] == paths[..i];
      r := Insert(r, paths[i]);
    }
    assert paths[..|paths|] == paths;
  }

  /** Every input path is a chain of the map, and every chain is a prefix of
      some input path. */
  lemma {:induction false} InsertAllHasPath(t: FileTree, paths: seq<Path>, q: Path)
    ensures HasPath(InsertAll(t, paths), q) <==>
      HasPath(t, q) || exists p :: p in paths && IsPrefix(q, p)
  {
    if paths != [] {
      var init := paths[..|paths| - 1];
      InsertAllHasPath(t, init, q);
      InsertHasPath(InsertAll(t, init), paths[|paths| - 1], q);
      assert paths == init + [paths[|paths| - 1]];
      assert forall p :: p in paths <==> p in init || p == paths[|paths| - 1];
    }
  }

  /** Permuting the input, or repeating a path in it, leaves the map unchanged. */
  lemma CreateMapIgnoresOrder(a: seq<Path>, b: seq<Path>)
    requires forall p :: p in a <==> p in b
    ensures InsertAll(New(), a) == InsertAll(New(), b)
  {
    forall q ensures HasPath(InsertAll(New(), a), q) <==> HasPath(InsertAll(New(), b), q) {
      InsertAllHasPath(New(), a, q);
      InsertAllHasPath(New(), b, q);
    }
    SameChainsSameTree(InsertAll(New(), a), InsertAll(New(), b));
  }

  /** Re-inserting a path that is already in the map leaves it unchanged. */
  lemma ReinsertUnchanged(paths: seq<Path>, p: Path)
    requires p in paths
    ensures Insert(InsertAll(New(), paths), p) == InsertAll(New(), paths)
  {
    InsertAllHasPath(New(), paths, p);
    assert IsPrefix(p, p);
    InsertExisting(InsertAll(New(), paths), p);
  }

  /** The empty path has no components and adds nothing. */
  lemma InsertEmptyPath(t: FileTree)
    ensures Insert(t, []) == t
  {
  }

  // ---------------------------------------------------------------------------
  // Names that avoid a character

  /** No name anywhere in the tree contains the character `ch`. */
  predicate TreeNamesAvoid(t: FileTree, ch: char)
    decreases t
  {
    forall k | k in t.nodes :: ch !in k && TreeNamesAvoid(t.nodes[k], ch)
  }

  lemma {:induction false} InsertKeepsNamesAvoid(t: FileTree, p: Path, ch: char)
    requires TreeNamesAvoid(t, ch)
    requires forall c :: c in p ==> ch !in c
    ensures TreeNamesAvoid(Insert(t, p), ch)
    decreases |p|
  {
    if p != [] {
      var child := if p[0] in t.nodes then t.nodes[p[0]] else FileTree(map[]);
      assert forall c :: c in p[1..] ==> c in p;
      InsertKeepsNamesAvoid(child, p[1..], ch);
    }
  }

  lemma {:induction false} InsertAllKeepsNamesAvoid(t: FileTree, paths: seq<Path>, ch: char)
    requires TreeNamesAvoid(t, ch)
    requires NamesAvoid(paths, ch)
    ensures TreeNamesAvoid(InsertAll(t, paths), ch)
  {
    if paths != [] {
      var init := paths[..|paths| - 1];
      assert forall p :: p in init ==> p in paths;
      InsertAllKeepsNamesAvoid(t, init, ch);
      InsertKeepsNamesAvoid(InsertAll(t, init), paths[|paths| - 1], ch);
    }
  }
}
