/**
  The nested description the tree is built from, and what it means for a
  tree of nodes to have been built from one: its shape, attributes and
  parent links.
 */
module Shape {
  import opened Strings
  import opened Wrappers
  import opened Dicts
  import opened Tree

  /** One object of the parsed description: a directory is an object with
      `contents`, a file one without. */
  datatype Description =
    | File(name: string, size: int, timeModified: int, permissions: string)
    | Directory(name: string, size: int, timeModified: int, permissions: string,
                contents: seq<Description>)

  // -----------------------------------------------------------------------
  // Building the tree

  /** The child names of a directory built from `items`: each name once, at
      the place where it first occurs. */
  function NameOrder(items: seq<Description>): (names: seq<string>)
    ensures forall i, j :: 0 <= i < j < |names| ==> names[i] != names[j]
    ensures forall i :: 0 <= i < |items| ==> items[i].name in names
    ensures forall k :: k in names ==> exists i :: 0 <= i < |items| && items[i].name == k
  {
    if items == [] then []
    else
      var init := NameOrder(items[..|items| - 1]);
      var k := items[|items| - 1].name;
      assert forall i :: 0 <= i < |items| - 1 ==> items[..|items| - 1][i] == items[i];
      if k in init then init else init + [k]
  }

  /** No later item carries the same name as item `i`. */
  predicate LastOfName(items: seq<Description>, i: int)
    requires 0 <= i < |items|
  {
    forall j :: i < j < |items| ==> items[j].name != items[i].name
  }

  /** Every node of `repr` keeps its invariant and its children lie in
      `repr`, each pointing back to it as its parent. */
  ghost predicate ParentsLinked(repr: set<Node>)
    reads repr
  {
    forall x {:trigger ChildrenIn(x, repr)} :: x in repr ==> x.Valid() && ChildrenIn(x, repr)
  }

  /** The children of `x` lie in `repr` and have `x` as their parent. */
  ghost predicate ChildrenIn(x: Node, repr: set<Node>)
    reads x
  {
    x.children.Some? ==>
      && x.children.value.entries.Values <= repr
      && forall c :: c in x.children.value.entries.Values ==> c.parent == x
  }

  /** `n` was built from `d` below `parent`: same attributes, a directory
      exactly when `d` has contents, children named in first-occurrence
      order, and under each name the node built from the last item of that
      name. */
  ghost predicate Describes(n: Node, d: Description, parent: Node?, repr: set<Node>)
    reads repr
    decreases d
  {
    && n in repr
    && n.Valid()
    && n.name == d.name && n.size == d.size && n.timeModifiedInt == d.timeModified
    && n.permissions == d.permissions && n.parent == parent
    && n.isDirectory == d.Directory?
    && match d
       case File(_, _, _, _) => true
       case Directory(_, _, _, _, items) =>
         && n.children.Some?
         && n.children.value.keys == NameOrder(items)
         && forall i :: 0 <= i < |items| && LastOfName(items, i) ==>
              && items[i].name in n.children.value.entries
              && Describes(n.children.value.entries[items[i].name], items[i], n, repr)
  }

  lemma {:induction false} DescribesGrows(n: Node, d: Description, parent: Node?, repr: set<Node>, more: set<Node>)
    requires Describes(n, d, parent, repr) && repr <= more
    ensures Describes(n, d, parent, more)
    decreases d
  {
    match d {
      case File(_, _, _, _) =>
      case Directory(_, _, _, _, items) =>
        forall i | 0 <= i < |items| && LastOfName(items, i)
          ensures Describes(n.children.value.entries[items[i].name], items[i], n, more)
        {
          DescribesGrows(n.children.value.entries[items[i].name], items[i], n, repr, more);
        }
    }
  }

  /** A tree built from `data` below `parent`: its nodes are linked and the
      root describes `data`. */
  ghost predicate Built(node: Node, data: Description, parent: Node?, repr: set<Node>)
    reads repr
  {
    ParentsLinked(repr) && Describes(node, data, parent, repr)
  }

  /** Each of `kids` was built, below `node`, from the item of `items` at
      its index: the nodes `__build_tree` has added so far. */
  ghost predicate BuiltFrom(kids: seq<Node>, items: seq<Description>, node: Node, repr: set<Node>)
    reads repr
  {
    |kids| <= |items| && forall i :: 0 <= i < |kids| ==> Describes(kids[i], items[i], node, repr)
  }

  lemma ParentsLinkedUnion(a: set<Node>, b: set<Node>)
    requires ParentsLinked(a) && ParentsLinked(b)
    ensures ParentsLinked(a + b)
  {
    forall x | x in a + b
      ensures x.Valid() && ChildrenIn(x, a + b)
    {
      if x in a {
        assert ChildrenIn(x, a);
      } else {
        assert ChildrenIn(x, b);
      }
    }
  }

  /** The dictionary left by `d[c.name] = c` for each `c` of `kids` in turn. */
  function PutAll(d: Dict<Node>, kids: seq<Node>): (r: Dict<Node>)
    requires d.Valid()
    ensures r.Valid()
    decreases |kids|
  {
    if kids == [] then d
    else
      var last := kids[|kids| - 1];
      PutAll(d, kids[..|kids| - 1]).Put(last.name, last)
  }

  /** Filing the nodes built from `items` under their names, in order,
      names the children in first-occurrence order. */
  lemma {:induction false} PutAllKeys(kids: seq<Node>, items: seq<Description>)
    requires |kids| == |items|
    requires forall i :: 0 <= i < |items| ==> kids[i].name == items[i].name
    ensures PutAll(EmptyDict(), kids).keys == NameOrder(items)
    decreases |kids|
  {
    if kids != [] {
      var n := |kids|;
      PutAllKeys(kids[..n - 1], items[..n - 1]);
    }
  }

  /** ... and files under each name the node of the last item of that name. */
  lemma {:induction false} PutAllLast(kids: seq<Node>, items: seq<Description>)
    requires |kids| == |items|
    requires forall i :: 0 <= i < |items| ==> kids[i].name == items[i].name
    ensures forall i :: 0 <= i < |items| && LastOfName(items, i) ==>
              PutAll(EmptyDict(), kids).Get(items[i].name) == Some(kids[i])
    decreases |kids|
  {
    if kids != [] {
      var n := |kids|;
      var kinit, init := kids[..n - 1], items[..n - 1];
      PutAllLast(kinit, init);
      forall i | 0 <= i < n - 1 && LastOfName(items, i)
        ensures PutAll(EmptyDict(), kinit).Get(items[i].name) == Some(kids[i])
      {
        assert init[i] == items[i];
        assert LastOfName(init, i);
      }
    }
  }

  /** ... and holds no node but those. */
  lemma {:induction false} PutAllValues(kids: seq<Node>)
    ensures forall c :: c in PutAll(EmptyDict(), kids).entries.Values ==> c in kids
    decreases |kids|
  {
    if kids != [] {
      var n := |kids|;
      var kinit := kids[..n - 1];
      PutAllValues(kinit);
      var before, after := PutAll(EmptyDict(), kinit), PutAll(EmptyDict(), kids);
      forall v | v in after.entries.Values
        ensures v in kids
      {
        var key :| key in after.entries && after.entries[key] == v;
        if key != kids[n - 1].name {
          assert before.Get(key) == after.Get(key);
          assert v in before.entries.Values;
          assert v in kinit;
        }
      }
    }
  }

  /** The node built from the next item joins those built before. */
  lemma BuiltFromStep(kids: seq<Node>, items: seq<Description>, node: Node, built: set<Node>,
                      child: Node, childRepr: set<Node>)
    requires |kids| < |items| && BuiltFrom(kids, items, node, built)
    requires Describes(child, items[|kids|], node, childRepr)
    ensures BuiltFrom(kids + [child], items, node, built + childRepr)
  {
    var more, all := built + childRepr, kids + [child];
    forall i | 0 <= i < |all|
      ensures Describes(all[i], items[i], node, more)
    {
      if i < |kids| {
        DescribesGrows(kids[i], items[i], node, built, more);
      } else {
        DescribesGrows(child, items[i], node, childRepr, more);
      }
    }
  }

  /** A directory holding the nodes built from all of `data`'s contents,
      filed in order, describes `data`. */
  lemma AssembleDescribes(node: Node, data: Description, parent: Node?, built: set<Node>, kids: seq<Node>)
    requires data.Directory? && node !in built
    requires node.Valid() && node.isDirectory && node.children == Some(PutAll(EmptyDict(), kids))
    requires node.name == data.name && node.size == data.size && node.timeModifiedInt == data.timeModified
    requires node.permissions == data.permissions && node.parent == parent
    requires |kids| == |data.contents| && BuiltFrom(kids, data.contents, node, built)
    ensures Describes(node, data, parent, {node} + built)
  {
    var repr := {node} + built;
    PutAllKeys(kids, data.contents);
    PutAllLast(kids, data.contents);
    forall i | 0 <= i < |kids|
      ensures Describes(kids[i], data.contents[i], node, repr)
    {
      DescribesGrows(kids[i], data.contents[i], node, built, repr);
    }
  }

  /** Adding such a directory to the nodes built for its contents keeps
      every parent linked to its children. */
  lemma AssembleLinked(node: Node, items: seq<Description>, built: set<Node>, kids: seq<Node>)
    requires node !in built
    requires node.Valid() && node.children == Some(PutAll(EmptyDict(), kids))
    requires ParentsLinked(built)
    requires |kids| == |items| && BuiltFrom(kids, items, node, built)
    ensures ParentsLinked({node} + built)
  {
    var repr := {node} + built;
    PutAllValues(kids);
    forall c | c in node.children.value.entries.Values
      ensures c in built && c.parent == node
    {
      var i :| 0 <= i < |kids| && kids[i] == c;
      assert Describes(kids[i], items[i], node, built);
    }
    forall x | x in repr
      ensures x.Valid() && ChildrenIn(x, repr)
    {
      if x != node {
        assert ChildrenIn(x, built);
      }
    }
  }

  /** With distinct item names the children are named in item order. */
  lemma {:induction false} NameOrderDistinct(items: seq<Description>)
    requires forall i, j :: 0 <= i < j < |items| ==> items[i].name != items[j].name
    ensures |NameOrder(items)| == |items|
    ensures forall i :: 0 <= i < |items| ==> NameOrder(items)[i] == items[i].name
    decreases |items|
  {
    if items != [] {
      var init := items[..|items| - 1];
      NameOrderDistinct(init);
      var k := items[|items| - 1].name;
      forall i | 0 <= i < |init|
        ensures init[i].name != k
      {
        assert init[i] == items[i];
      }
      assert k !in NameOrder(init);
    }
  }

  /** The path prefix a child's relative path starts with: `.` below the
      root, the node's own relative path further down. */
  function PathPrefix(n: Node): string {
    if n.depth > 0 then n.relativePath else "."
  }

  /** Descending by names from a node of a linked tree stays in the tree,
      one level per name, and each name extends the relative path. */
  lemma {:induction false} DescendLinked(n: Node, p: seq<string>, repr: set<Node>)
    requires ParentsLinked(repr) && n in repr
    requires |p| >= 1 && Descend(n, p) != null
    ensures Descend(n, p) in repr
    ensures Descend(n, p).depth == n.depth + |p|
    ensures Descend(n, p).relativePath == PathPrefix(n) + "/" + Join("/", p)
    decreases |p|
  {
    assert n.Valid() && ChildrenIn(n, repr);
    var c := Lookup(n, p[0]);
    assert c in n.children.value.entries.Values;
    assert c in repr && c.parent == n && c.name == p[0];
    assert ChildrenIn(c, repr);
    if |p| > 1 {
      DescendLinked(c, p[1..], repr);
      assert PathPrefix(c) == PathPrefix(n) + "/" + p[0];
      assert Join("/", p) == p[0] + "/" + Join("/", p[1..]);
    }
  }

  /** From the root of a built tree a descent by `p` reaches the node at
      depth `|p|` whose relative path is `./` followed by the names of `p`
      joined by `/`. */
  lemma DescendFromRoot(root: Node, data: Description, repr: set<Node>, p: seq<string>)
    requires Built(root, data, null, repr)
    requires |p| >= 1 && Descend(root, p) != null
    ensures Descend(root, p) in repr && Descend(root, p).depth == |p|
    ensures Descend(root, p).relativePath == "./" + Join("/", p)
  {
    assert root.Valid();
    DescendLinked(root, p, repr);
  }
}
