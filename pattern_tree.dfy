/**
 * The category tree `getText` builds for the damage-pattern menu. A node is
 * the pair `(leaves, categories)` of two ordered dictionaries: `leaves` maps a
 * pattern's short name to the pattern, `categories` maps a category name to
 * the child node. Each pattern, in sorted order, is filed by walking its
 * `hierarchy` from the root, creating missing categories with `setdefault`,
 * and assigning it under its `shortName` in the node reached.
 */
module PatternTree {
  import opened Options
  import opened OrderedDict
  import opened DamagePatterns

  datatype Node = Node(leaves: seq<(string, Pattern)>, cats: seq<(string, Node)>)

  /** `(OrderedDict(), OrderedDict())` */
  const Empty: Node := Node([], [])

  predicate IsPrefix(pre: seq<string>, h: seq<string>)
  {
    |pre| <= |h| && h[..|pre|] == pre
  }

  predicate IsStrictPrefix(pre: seq<string>, h: seq<string>)
  {
    |pre| < |h| && h[..|pre|] == pre
  }

  /**
   * Filing one pattern: the walk down `path` with `setdefault`, then
   * `container[0][name] = p`. The tree is a value here, so the child a step
   * returns is modified and then stored back under the same key, which
   * leaves that key where `setdefault` put it.
   */
  function Insert(n: Node, path: seq<string>, name: string, p: Pattern): Node
    decreases |path|
  {
    if path == [] then n.(leaves := Put(n.leaves, name, p))
    else
      var sd := SetDefault(n.cats, path[0], Empty);
      n.(cats := Put(sd.0, path[0], Insert(sd.1, path[1..], name, p)))
  }

  /** The tree after filing every pattern of `ps`, in order, into an empty tree. */
  function Build(ps: seq<Pattern>): Node
  {
    if ps == [] then Empty
    else
      var p := ps[|ps| - 1];
      Insert(Build(ps[..|ps| - 1]), p.hierarchy, p.shortName, p)
  }

  lemma BuildSnoc(ps: seq<Pattern>, p: Pattern)
    ensures Build(ps + [p]) == Insert(Build(ps), p.hierarchy, p.shortName, p)
  {
    assert (ps + [p])[..|ps|] == ps;
  }

  /** Filing the pattern at position `k` extends the tree of the first `k` patterns. */
  lemma BuildStep(ps: seq<Pattern>, k: nat)
    requires k < |ps|
    ensures Build(ps[..k + 1]) == Insert(Build(ps[..k]), ps[k].hierarchy, ps[k].shortName, ps[k])
  {
    assert ps[..k + 1] == ps[..k] + [ps[k]];
    BuildSnoc(ps[..k], ps[k]);
  }

  /** The node reached by following `path` through the category dictionaries, if any. */
  function FindNode(n: Node, path: seq<string>): Option<Node>
    decreases |path|
  {
    if path == [] then Some(n)
    else
      match Get(n.cats, path[0])
      case None => None
      case Some(c) => FindNode(c, path[1..])
  }

  /** The node at `path`, or an empty node when there is none. */
  function NodeAt(n: Node, path: seq<string>): Node
  {
    match FindNode(n, path)
    case None => Empty
    case Some(m) => m
  }

  /** The pattern filed at `path` under `name`, if any. */
  function LeafAt(n: Node, path: seq<string>, name: string): Option<Pattern>
  {
    Get(NodeAt(n, path).leaves, name)
  }

  /** The labels `getText` returns: leaf names, then category names, of the root. */
  function MenuText(n: Node): seq<string>
  {
    Keys(n.leaves) + Keys(n.cats)
  }

  /** Every dictionary of the tree has distinct keys. */
  predicate Valid(n: Node)
    decreases n
  {
    Distinct(Keys(n.leaves)) && Distinct(Keys(n.cats)) &&
    forall e :: e in n.cats ==> Valid(e.1)
  }

  /** `q` sits in the tree at `path` under `name`, found by looking at every entry rather than by lookup. */
  ghost predicate Stored(n: Node, path: seq<string>, name: string, q: Pattern)
    decreases n
  {
    if path == [] then (name, q) in n.leaves
    else exists e :: e in n.cats && e.0 == path[0] && Stored(e.1, path[1..], name, q)
  }

  /** Short names of the patterns whose hierarchy is exactly `path`, in order. */
  function LeafNamesAt(ps: seq<Pattern>, path: seq<string>): seq<string>
  {
    if ps == [] then []
    else
      var p := ps[|ps| - 1];
      LeafNamesAt(ps[..|ps| - 1], path) + if p.hierarchy == path then [p.shortName] else []
  }

  /** The category names directly below `path` in the hierarchies of `ps`, in order. */
  function ChildNamesAt(ps: seq<Pattern>, path: seq<string>): seq<string>
  {
    if ps == [] then []
    else
      var p := ps[|ps| - 1];
      ChildNamesAt(ps[..|ps| - 1], path) + if IsStrictPrefix(path, p.hierarchy) then [p.hierarchy[|path|]] else []
  }

  lemma EmptyNodeAt(path: seq<string>)
    ensures NodeAt(Empty, path) == Empty
    ensures FindNode(Empty, path).Some? <==> path == []
  {
  }

  lemma SplitPath(path: seq<string>, h: seq<string>)
    requires path != [] && h != [] && path[0] == h[0]
    ensures path == h <==> path[1..] == h[1..]
    ensures IsPrefix(path, h) <==> IsPrefix(path[1..], h[1..])
    ensures IsStrictPrefix(path, h) <==> IsStrictPrefix(path[1..], h[1..])
    ensures IsStrictPrefix(path, h) ==> h[|path|] == h[1..][|path[1..]|]
  {
    assert path == [path[0]] + path[1..];
    assert h == [h[0]] + h[1..];
    if |path| <= |h| {
      assert h[..|path|] == [h[0]] + h[1..][..|path| - 1];
    }
  }

  /** Filing `p` at (`h`, `nm`) makes it the pattern found there and changes no other lookup. */
  lemma {:induction false} InsertLeafAt(n: Node, h: seq<string>, nm: string, p: Pattern, path: seq<string>, name: string)
    ensures LeafAt(Insert(n, h, nm, p), path, name) == if path == h && name == nm then Some(p) else LeafAt(n, path, name)
    decreases |h|
  {
    if h == [] {
      if path == [] {
        PutGet(n.leaves, nm, p, name);
      } else {
        NodeAtCons(n, path);
        NodeAtCons(Insert(n, h, nm, p), path);
      }
    } else if path == [] {
      InsertCons(n, h, nm, p, "");
    } else {
      NodeAtCons(n, path);
      NodeAtCons(Insert(n, h, nm, p), path);
      InsertCons(n, h, nm, p, path[0]);
      if path[0] == h[0] {
        SplitPath(path, h);
        InsertLeafAt(Child(n, h[0]), h[1..], nm, p, path[1..], name);
      }
    }
  }

  /** Filing a pattern creates exactly the categories along its hierarchy that were missing. */
  lemma {:induction false} InsertFindNode(n: Node, h: seq<string>, nm: string, p: Pattern, path: seq<string>)
    ensures FindNode(Insert(n, h, nm, p), path).Some? <==> FindNode(n, path).Some? || IsPrefix(path, h)
    decreases |h|
  {
    if path != [] && h != [] {
      var sd := SetDefault(n.cats, h[0], Empty);
      PutGet(sd.0, h[0], Insert(sd.1, h[1..], nm, p), path[0]);
      if path[0] == h[0] {
        SplitPath(path, h);
        InsertFindNode(sd.1, h[1..], nm, p, path[1..]);
        EmptyNodeAt(path[1..]);
      }
    }
  }

  /** The child category `c` of `n`, or an empty node when there is none. */
  function Child(n: Node, c: string): Node
  {
    match Get(n.cats, c)
    case None => Empty
    case Some(m) => m
  }

  /** Looking a path up is looking its tail up in the child named by its head. */
  lemma NodeAtCons(n: Node, path: seq<string>)
    requires path != []
    ensures NodeAt(n, path) == NodeAt(Child(n, path[0]), path[1..])
  {
    EmptyNodeAt(path[1..]);
  }

  /**
   * One step of the walk: filing below category `h[0]` leaves the root's
   * leaves alone, adds `h[0]` to its category keys if missing, and files the
   * pattern into that child only.
   */
  lemma InsertCons(n: Node, h: seq<string>, nm: string, p: Pattern, c: string)
    requires h != []
    ensures Insert(n, h, nm, p).leaves == n.leaves
    ensures Keys(Insert(n, h, nm, p).cats) == AppendNew(Keys(n.cats), h[0])
    ensures Child(Insert(n, h, nm, p), c) == if c == h[0] then Insert(Child(n, h[0]), h[1..], nm, p) else Child(n, c)
  {
    var sd := SetDefault(n.cats, h[0], Empty);
    assert sd.1 == Child(n, h[0]);
    PutGet(sd.0, h[0], Insert(sd.1, h[1..], nm, p), c);
  }

  /**
   * Key order after filing a pattern: the leaf keys of the node at `h` gain
   * `nm` at the end unless it is already there, and no other leaf key
   * sequence changes.
   */
  lemma {:induction false} InsertLeafKeys(n: Node, h: seq<string>, nm: string, p: Pattern, path: seq<string>)
    ensures Keys(NodeAt(Insert(n, h, nm, p), path).leaves) ==
      if path == h then AppendNew(Keys(NodeAt(n, path).leaves), nm) else Keys(NodeAt(n, path).leaves)
    decreases |h|
  {
    if h == [] {
      if path != [] {
        NodeAtCons(n, path);
        NodeAtCons(Insert(n, h, nm, p), path);
      }
    } else if path == [] {
      InsertCons(n, h, nm, p, "");
    } else {
      NodeAtCons(n, path);
      NodeAtCons(Insert(n, h, nm, p), path);
      InsertCons(n, h, nm, p, path[0]);
      if path[0] == h[0] {
        SplitPath(path, h);
        InsertLeafKeys(Child(n, h[0]), h[1..], nm, p, path[1..]);
      }
    }
  }

  /**
   * The category keys of every node strictly above the filed pattern gain
   * the next name of its hierarchy at the end unless it is already there,
   * and no other category key sequence changes.
   */
  lemma {:induction false} InsertCatKeys(n: Node, h: seq<string>, nm: string, p: Pattern, path: seq<string>)
    ensures Keys(NodeAt(Insert(n, h, nm, p), path).cats) ==
      if IsStrictPrefix(path, h) then AppendNew(Keys(NodeAt(n, path).cats), h[|path|]) else Keys(NodeAt(n, path).cats)
    decreases |h|
  {
    if h == [] {
      if path != [] {
        NodeAtCons(n, path);
        NodeAtCons(Insert(n, h, nm, p), path);
      }
    } else if path == [] {
      InsertCons(n, h, nm, p, "");
    } else {
      NodeAtCons(n, path);
      NodeAtCons(Insert(n, h, nm, p), path);
      InsertCons(n, h, nm, p, path[0]);
      if path[0] == h[0] {
        SplitPath(path, h);
        InsertCatKeys(Child(n, h[0]), h[1..], nm, p, path[1..]);
      }
    }
  }

  /** Filing a pattern keeps every dictionary's keys distinct. */
  lemma {:induction false} InsertValid(n: Node, h: seq<string>, nm: string, p: Pattern)
    requires Valid(n)
    ensures Valid(Insert(n, h, nm, p))
    decreases |h|
  {
    if h == [] {
      AppendNewDistinct(Keys(n.leaves), nm);
    } else {
      var sd := SetDefault(n.cats, h[0], Empty);
      AppendNewDistinct(Keys(n.cats), h[0]);
      assert forall e :: e in sd.0 ==> Valid(e.1);
      assert Valid(sd.1) by {
        assert (h[0], sd.1) in sd.0;
      }
      InsertValid(sd.1, h[1..], nm, p);
      PutEntries(sd.0, h[0], Insert(sd.1, h[1..], nm, p));
    }
  }

  lemma {:induction false} BuildValid(ps: seq<Pattern>)
    ensures Valid(Build(ps))
  {
    if ps != [] {
      var p := ps[|ps| - 1];
      BuildValid(ps[..|ps| - 1]);
      InsertValid(Build(ps[..|ps| - 1]), p.hierarchy, p.shortName, p);
    }
  }

  /**
   * After the build, the pattern found at (`path`, `name`) is the last
   * pattern of `ps` filed there; nothing is found where no pattern is filed.
   */
  lemma {:induction false} BuildLeafAt(ps: seq<Pattern>, path: seq<string>, name: string)
    ensures LeafAt(Build(ps), path, name) == LastWith(ps, path, name)
  {
    if ps == [] {
      EmptyNodeAt(path);
    } else {
      var ps', p := ps[..|ps| - 1], ps[|ps| - 1];
      assert ps == ps' + [p];
      BuildLeafAt(ps', path, name);
      InsertLeafAt(Build(ps'), p.hierarchy, p.shortName, p, path, name);
      LastWithSnoc(ps', p, path, name);
    }
  }

  /** Walking any input pattern's hierarchy reaches a node whose leaves hold its short name. */
  lemma EveryPatternFiled(ps: seq<Pattern>, i: nat)
    requires i < |ps|
    ensures FindNode(Build(ps), ps[i].hierarchy).Some?
    ensures LeafAt(Build(ps), ps[i].hierarchy, ps[i].shortName).Some?
  {
    var p := ps[i];
    BuildLeafAt(ps, p.hierarchy, p.shortName);
    LastWithSome(ps, i, p.hierarchy, p.shortName);
    BuildFindNodeAny(ps, p.hierarchy);
    AnyPrefixedAt(ps, i, p.hierarchy);
  }

  /** A witness pattern makes `AnyPrefixed` hold. */
  lemma {:induction false} AnyPrefixedAt(ps: seq<Pattern>, i: nat, path: seq<string>)
    requires i < |ps| && IsPrefix(path, ps[i].hierarchy)
    ensures AnyPrefixed(ps, path)
  {
    if i < |ps| - 1 {
      AnyPrefixedAt(ps[..|ps| - 1], i, path);
    }
  }

  /** Some pattern of `ps` has `path` as a prefix of its hierarchy. */
  predicate AnyPrefixed(ps: seq<Pattern>, path: seq<string>)
  {
    ps != [] && (AnyPrefixed(ps[..|ps| - 1], path) || IsPrefix(path, ps[|ps| - 1].hierarchy))
  }

  lemma {:induction false} AnyPrefixedIff(ps: seq<Pattern>, path: seq<string>)
    ensures AnyPrefixed(ps, path) <==> exists i :: 0 <= i < |ps| && IsPrefix(path, ps[i].hierarchy)
  {
    if ps != [] {
      var ps' := ps[..|ps| - 1];
      AnyPrefixedIff(ps', path);
      if exists i :: 0 <= i < |ps'| && IsPrefix(path, ps'[i].hierarchy) {
        var i :| 0 <= i < |ps'| && IsPrefix(path, ps'[i].hierarchy);
        assert ps[i] == ps'[i];
      }
      if exists i :: 0 <= i < |ps| && IsPrefix(path, ps[i].hierarchy) {
        var i :| 0 <= i < |ps| && IsPrefix(path, ps[i].hierarchy);
        if i < |ps'| {
          assert ps'[i] == ps[i];
        }
      }
    }
  }

  lemma {:induction false} BuildFindNodeAny(ps: seq<Pattern>, path: seq<string>)
    ensures FindNode(Build(ps), path).Some? <==> path == [] || AnyPrefixed(ps, path)
  {
    if ps == [] {
      EmptyNodeAt(path);
    } else {
      var p := ps[|ps| - 1];
      BuildFindNodeAny(ps[..|ps| - 1], path);
      InsertFindNode(Build(ps[..|ps| - 1]), p.hierarchy, p.shortName, p, path);
    }
  }

  /**
   * The category nodes of the built tree sit exactly at the hierarchy
   * prefixes of the input patterns (the root at the empty prefix).
   */
  lemma BuildFindNode(ps: seq<Pattern>, path: seq<string>)
    ensures FindNode(Build(ps), path).Some? <==>
      path == [] || exists i :: 0 <= i < |ps| && IsPrefix(path, ps[i].hierarchy)
  {
    BuildFindNodeAny(ps, path);
    AnyPrefixedIff(ps, path);
  }

  /**
   * Key order of every node: leaf names and category names each appear once,
   * in the order of the first pattern that brought them in.
   */
  lemma {:induction false} BuildKeys(ps: seq<Pattern>, path: seq<string>)
    ensures Keys(NodeAt(Build(ps), path).leaves) == Dedup(LeafNamesAt(ps, path))
    ensures Keys(NodeAt(Build(ps), path).cats) == Dedup(ChildNamesAt(ps, path))
  {
    if ps == [] {
      EmptyNodeAt(path);
    } else {
      var ps', p := ps[..|ps| - 1], ps[|ps| - 1];
      BuildKeys(ps', path);
      InsertLeafKeys(Build(ps'), p.hierarchy, p.shortName, p, path);
      InsertCatKeys(Build(ps'), p.hierarchy, p.shortName, p, path);
      var ln := LeafNamesAt(ps', path);
      if p.hierarchy == path {
        DedupSnoc(ln, p.shortName);
      } else {
        assert LeafNamesAt(ps, path) == ln;
      }
      var cn := ChildNamesAt(ps', path);
      if IsStrictPrefix(path, p.hierarchy) {
        DedupSnoc(cn, p.hierarchy[|path|]);
      } else {
        assert ChildNamesAt(ps, path) == cn;
      }
    }
  }

  /** What `getText` returns, in terms of its input patterns. */
  lemma MenuTextOfBuild(ps: seq<Pattern>)
    ensures MenuText(Build(ps)) == Dedup(LeafNamesAt(ps, [])) + Dedup(ChildNamesAt(ps, []))
  {
    BuildKeys(ps, []);
  }

  /** In a tree whose dictionaries have distinct keys, lookup finds exactly the stored entries. */
  lemma StoredIffLeafAt(n: Node, path: seq<string>, name: string, q: Pattern)
    requires Valid(n)
    ensures Stored(n, path, name, q) <==> LeafAt(n, path, name) == Some(q)
  {
    if Stored(n, path, name, q) {
      StoredFound(n, path, name, q);
    }
    if LeafAt(n, path, name) == Some(q) {
      FoundStored(n, path, name, q);
    }
  }

  /** A stored pattern is what lookup finds. */
  lemma {:induction false} StoredFound(n: Node, path: seq<string>, name: string, q: Pattern)
    requires Valid(n) && Stored(n, path, name, q)
    ensures LeafAt(n, path, name) == Some(q)
    decreases |path|
  {
    if path == [] {
      var i :| 0 <= i < |n.leaves| && n.leaves[i] == (name, q);
      GetEntry(n.leaves, i);
    } else {
      NodeAtCons(n, path);
      var e :| e in n.cats && e.0 == path[0] && Stored(e.1, path[1..], name, q);
      var i :| 0 <= i < |n.cats| && n.cats[i] == e;
      GetEntry(n.cats, i);
      StoredFound(e.1, path[1..], name, q);
    }
  }

  /** What lookup finds is stored. */
  lemma {:induction false} FoundStored(n: Node, path: seq<string>, name: string, q: Pattern)
    requires LeafAt(n, path, name) == Some(q)
    ensures Stored(n, path, name, q)
    decreases |path|
  {
    if path != [] {
      NodeAtCons(n, path);
      EmptyNodeAt(path[1..]);
      var c := Get(n.cats, path[0]).value;
      assert (path[0], c) in n.cats;
      FoundStored(c, path[1..], name, q);
    }
  }

  /**
   * Every pattern stored anywhere in the built tree is an input pattern,
   * stored at its own hierarchy and short name, and is the last input pattern
   * filed there.
   */
  lemma BuildStored(ps: seq<Pattern>, path: seq<string>, name: string, q: Pattern)
    ensures Stored(Build(ps), path, name, q) <==> LastWith(ps, path, name) == Some(q)
    ensures Stored(Build(ps), path, name, q) ==> q in ps && At(q, path, name)
  {
    BuildValid(ps);
    StoredIffLeafAt(Build(ps), path, name, q);
    BuildLeafAt(ps, path, name);
    LastWithIsLast(ps, path, name);
  }
}
