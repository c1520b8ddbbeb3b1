/**
  The listing engine: the tree built from a nested description of files and
  directories, and `ls`, which resolves a name or path, selects, orders and
  filters the entries to show, and renders them in the short or the long
  format.
 */
module FileSystems {
  import opened Wrappers
  import opened Strings
  import opened Seqs
  import opened Dicts
  import opened Tree
  import opened Ordering
  import opened Shape
  import Clock

  /** The keyword arguments of `ls`; an absent flag (`None`) reads as false. */
  datatype Options = Options(
    includeAllDetails: bool,
    showHiddenFiles: bool,
    sortInReverse: bool,
    sortByLastModifiedTime: bool,
    humanReadable: bool,
    filterByType: Option<string>,
    nameOrPath: Option<string>)

  /** `__build_tree`: the node for `data` below `parent`, with the nodes of
      its contents added as children in order. `repr` is the set of nodes
      built. */
  method BuildTree(data: Description, parent: Node?) returns (node: Node, ghost repr: set<Node>)
    ensures fresh(repr)
    ensures Built(node, data, parent, repr)
    decreases data, 2
  {
    node := new Node(data.name, data.size, data.timeModified, data.permissions, data.Directory?, parent);
    if data.File? {
      repr := {node};
      assert ChildrenIn(node, repr);
      return;
    }
    ghost var built, kids := AddChildren(node, data);
    assert fresh({node} + built);
    AssembleDescribes(node, data, parent, built, kids);
    AssembleLinked(node, data.contents, built, kids);
    repr := {node} + built;
  }

  /** The loop of `__build_tree`: builds the node of each item of the
      contents below `node` and adds it as a child. `kids` are the nodes
      built, in order. */
  method AddChildren(node: Node, data: Description) returns (ghost built: set<Node>, ghost kids: seq<Node>)
    requires data.Directory?
    requires node.Valid() && node.isDirectory && node.children == Some(EmptyDict())
    modifies node
    ensures fresh(built) && node !in built && ParentsLinked(built)
    ensures node.Valid() && node.children == Some(PutAll(EmptyDict(), kids))
    ensures |kids| == |data.contents| && BuiltFrom(kids, data.contents, node, built)
    decreases data, 1
  {
    built, kids := {}, [];
    for j := 0 to |data.contents|
      invariant fresh(built) && node !in built && ParentsLinked(built)
      invariant node.Valid() && node.children == Some(PutAll(EmptyDict(), kids))
      invariant |kids| == j && BuiltFrom(kids, data.contents, node, built)
    {
      var outcome;
      outcome, built, kids := AddNext(node, data, j, built, kids);
    }
  }

  /** One pass of that loop: the node of the next item, added as a child,
      which `add_child` accepts since `node` is a directory. */
  method AddNext(node: Node, data: Description, j: nat, ghost built: set<Node>, ghost kids: seq<Node>)
    returns (outcome: Outcome, ghost built': set<Node>, ghost kids': seq<Node>)
    requires data.Directory? && j == |kids| < |data.contents|
    requires node !in built && ParentsLinked(built)
    requires node.Valid() && node.children == Some(PutAll(EmptyDict(), kids))
    requires BuiltFrom(kids, data.contents, node, built)
    modifies node
    ensures fresh(built' - built) && node !in built' && ParentsLinked(built')
    ensures node.Valid() && node.children == Some(PutAll(EmptyDict(), kids'))
    ensures |kids'| == |kids| + 1 && BuiltFrom(kids', data.contents, node, built')
    ensures outcome == Pass
    decreases data, 0
  {
    var child;
    ghost var childRepr;
    child, childRepr := BuildTree(data.contents[j], node);
    ParentsLinkedUnion(built, childRepr);
    BuiltFromStep(kids, data.contents, node, built, child, childRepr);
    outcome := node.AddChild(child);
    built', kids' := built + childRepr, kids + [child];
  }

  // -----------------------------------------------------------------------
  // The stages of `ls`

  /** `get_child_nodes`: the children in insertion order, none for a file. */
  function GetChildNodes(n: Node): (r: seq<Node>)
    reads n
    ensures n.Valid() && n.isDirectory ==>
              && |r| == |n.children.value.keys|
              && forall i :: 0 <= i < |r| ==> r[i] == n.children.value.entries[n.children.value.keys[i]]
    ensures n.Valid() && !n.isDirectory ==> r == []
  {
    if n.children.Some? then n.children.value.Values() else []
  }

  function IsDir(): Node -> bool {
    (x: Node) => x.isDirectory
  }

  function IsFile(): Node -> bool {
    (x: Node) => !x.isDirectory
  }

  function NotHidden(): Node -> bool {
    (x: Node) => !x.isHidden
  }

  /** `filter_nodes`: `"dir"` keeps the directories, `"file"` the files,
      and any other value keeps everything. */
  function FilterNodes(nodes: seq<Node>, filterBy: string): seq<Node> {
    if filterBy == "dir" then Filter(nodes, IsDir())
    else if filterBy == "file" then Filter(nodes, IsFile())
    else nodes
  }

  /** The selection `filter_nodes` makes, as a predicate; no filter keeps
      everything. */
  function TypeRule(filterBy: Option<string>): Node -> bool {
    if filterBy == Some("dir") then IsDir()
    else if filterBy == Some("file") then IsFile()
    else KeepAll<Node>()
  }

  /** The selection the hidden-file stage makes. */
  function HiddenRule(showHiddenFiles: bool): Node -> bool {
    if showHiddenFiles then KeepAll<Node>() else NotHidden()
  }

  /** The children of a directory target that `ls` lists. */
  function Keeps(opts: Options): Node -> bool {
    Both<Node>(HiddenRule(opts.showHiddenFiles), TypeRule(opts.filterByType))
  }

  /** `filter_nodes` keeps, in order, exactly the nodes of the requested
      type, and with any other value returns its input. */
  lemma FilterNodesSelects(nodes: seq<Node>, filterBy: string)
    ensures FilterNodes(nodes, filterBy) == Filter(nodes, TypeRule(Some(filterBy)))
    ensures IsSubsequence(FilterNodes(nodes, filterBy), nodes)
    ensures forall x :: x in FilterNodes(nodes, filterBy) <==>
              && x in nodes
              && (filterBy == "dir" ==> x.isDirectory)
              && (filterBy == "file" ==> !x.isDirectory)
    ensures filterBy != "dir" && filterBy != "file" ==> FilterNodes(nodes, filterBy) == nodes
  {
    FilterAll(nodes);
    var p := TypeRule(Some(filterBy));
    FilterSelects(nodes, p);
    SubsequenceMembers(Filter(nodes, p), nodes);
    forall x | x in nodes && p(x)
      ensures x in Filter(nodes, p)
    {
      assert multiset(Filter(nodes, p))[x] == multiset(nodes)[x] > 0;
    }
  }

  /** The text `ls` returns for a name or path that resolves to nothing:
      the message, then the indentation that the line continuation inside
      the literal carries into it, then the reason. */
  function NotFoundMessage(nameOrPath: string): string {
    "error: cannot access " + nameOrPath + ": " + "                " + "No such file or directory"
  }

  /** How an absent path prints inside a message. */
  function Shown(nameOrPath: Option<string>): string {
    if nameOrPath.Some? then nameOrPath.value else "None"
  }

  /** The name a node is listed under: its relative path when it is the
      only node listed, otherwise its name. */
  function DisplayName(n: Node, count: nat): string {
    if count == 1 then n.relativePath else n.name
  }

  /** The size column of the long format. */
  function SizeField(n: Node, humanReadable: bool): string {
    if humanReadable then HumanSize(n.size) else IntToString(n.size)
  }

  /** One line of the long format. */
  function DetailLine(n: Node, count: nat, humanReadable: bool): string {
    Join("\t", [n.permissions, SizeField(n, humanReadable), n.TimeModified(), DisplayName(n, count)])
  }

  function DisplayNames(nodes: seq<Node>): (names: seq<string>)
    ensures |names| == |nodes|
  {
    seq(|nodes|, i requires 0 <= i < |nodes| => DisplayName(nodes[i], |nodes|))
  }

  function DetailLines(nodes: seq<Node>, humanReadable: bool): (lines: seq<string>)
    ensures |lines| == |nodes|
  {
    seq(|nodes|, i requires 0 <= i < |nodes| => DetailLine(nodes[i], |nodes|, humanReadable))
  }

  /** `build_output`: the long format puts one line per node, the short
      format the display names separated by tabs. */
  function BuildOutput(nodes: seq<Node>, includeAllDetails: bool, humanReadable: bool): string {
    if includeAllDetails then Join("\n", DetailLines(nodes, humanReadable))
    else Join("\t", DisplayNames(nodes))
  }

  // -----------------------------------------------------------------------
  // ls

  /** What `fetch_node` returns: the root for `"."` or no path, else what
      `get_child` resolves from the root. */
  ghost function Fetch(root: Node, nameOrPath: Option<string>): Node?
    reads *
  {
    if nameOrPath == None || nameOrPath == Some(".") then root else Resolve(root, nameOrPath.value)
  }

  /** The nodes `ls` lists for a target: the children of a directory that
      the hidden-file and type rules keep, in sorted order; a file on its
      own when the type rule keeps it. */
  function Selected(target: Node, opts: Options): seq<Node>
    reads target
  {
    if target.isDirectory then
      SortNodes(Filter(GetChildNodes(target), Keeps(opts)), GetSortKey(opts.sortByLastModifiedTime), opts.sortInReverse)
    else Filter([target], TypeRule(opts.filterByType))
  }

  /** What `ls` returns. */
  ghost function Listing(root: Node, opts: Options): string
    reads *
  {
    var target := Fetch(root, opts.nameOrPath);
    if target == null then NotFoundMessage(Shown(opts.nameOrPath))
    else BuildOutput(Selected(target, opts), opts.includeAllDetails, opts.humanReadable)
  }

  /** Sorting, then hiding, then filtering by type selects the same nodes,
      in the same order, as selecting first and sorting what remains. */
  lemma StagesSelect(children: seq<Node>, opts: Options)
    ensures Filter(Filter(SortNodes(children, GetSortKey(opts.sortByLastModifiedTime), opts.sortInReverse),
                          HiddenRule(opts.showHiddenFiles)),
                   TypeRule(opts.filterByType))
            == SortNodes(Filter(children, Keeps(opts)), GetSortKey(opts.sortByLastModifiedTime), opts.sortInReverse)
  {
    var key, reverse := GetSortKey(opts.sortByLastModifiedTime), opts.sortInReverse;
    var hidden, byType := HiddenRule(opts.showHiddenFiles), TypeRule(opts.filterByType);
    FilterFilter(SortNodes(children, key, reverse), hidden, byType);
    SortCommutesWithFilter(children, Keeps(opts), key, reverse);
  }

  /** The type-filter stage of `ls` selects by the type rule. */
  lemma TypeStage(nodes: seq<Node>, filterBy: Option<string>)
    ensures (if filterBy.Some? then FilterNodes(nodes, filterBy.value) else nodes) == Filter(nodes, TypeRule(filterBy))
  {
    if filterBy.Some? {
      FilterNodesSelects(nodes, filterBy.value);
    } else {
      FilterAll(nodes);
    }
  }

  /** The children the hidden-file and type rules keep: those that are not
      hidden unless hidden files are shown, and of the requested type. */
  lemma KeptChildren(children: seq<Node>, opts: Options)
    ensures forall x :: x in Filter(children, Keeps(opts)) <==>
              && x in children
              && (opts.showHiddenFiles || !x.isHidden)
              && (opts.filterByType == Some("dir") ==> x.isDirectory)
              && (opts.filterByType == Some("file") ==> !x.isDirectory)
  {
    var p := Keeps(opts);
    FilterSelects(children, p);
    SubsequenceMembers(Filter(children, p), children);
    forall x | x in children && p(x)
      ensures x in Filter(children, p)
    {
      assert multiset(Filter(children, p))[x] == multiset(children)[x] > 0;
    }
  }

  /** For a directory target `ls` lists exactly the children that the
      hidden-file and type rules keep, each as often as it is a child,
      ordered by the sort key (descending under reverse), and children with
      equal keys in the order they were added. */
  lemma SelectedFromDirectory(target: Node, opts: Options)
    requires target.isDirectory
    ensures multiset(Selected(target, opts)) == multiset(Filter(GetChildNodes(target), Keeps(opts)))
    ensures forall x :: x in Selected(target, opts) <==>
              && x in GetChildNodes(target)
              && (opts.showHiddenFiles || !x.isHidden)
              && (opts.filterByType == Some("dir") ==> x.isDirectory)
              && (opts.filterByType == Some("file") ==> !x.isDirectory)
    ensures IsSortedBy(Selected(target, opts), GetSortKey(opts.sortByLastModifiedTime), opts.sortInReverse)
    ensures forall m :: Ties(Selected(target, opts), m, GetSortKey(opts.sortByLastModifiedTime)) ==
                        Ties(Filter(GetChildNodes(target), Keeps(opts)), m, GetSortKey(opts.sortByLastModifiedTime))
  {
    var key, reverse := GetSortKey(opts.sortByLastModifiedTime), opts.sortInReverse;
    var kept := Filter(GetChildNodes(target), Keeps(opts));
    var sel := SortNodes(kept, key, reverse);
    assert Selected(target, opts) == sel;
    KeptChildren(GetChildNodes(target), opts);
    assert forall x :: x in sel <==> x in multiset(sel);
    assert forall x :: x in kept <==> x in multiset(kept);
    forall m
      ensures Ties(sel, m, key) == Ties(kept, m, key)
    {
      SortNodesStable(kept, m, key, reverse);
    }
  }

  /** For a file target `ls` lists the file itself, whatever its name and
      the sort options, unless only directories are asked for. */
  lemma SelectedFromFile(target: Node, opts: Options)
    requires !target.isDirectory
    ensures Selected(target, opts) == if opts.filterByType == Some("dir") then [] else [target]
  {
    var rest: seq<Node> := [];
    assert [target][1..] == rest;
  }

  /** Nothing to list renders as the empty text. */
  lemma BuildOutputEmpty(includeAllDetails: bool, humanReadable: bool)
    ensures BuildOutput([], includeAllDetails, humanReadable) == ""
  {
  }

  /** A single node is shown by its relative path alone in the short
      format... */
  lemma ShortOutputOfOne(n: Node, humanReadable: bool)
    ensures BuildOutput([n], false, humanReadable) == n.relativePath
  {
    assert DisplayNames([n]) == [n.relativePath];
  }

  /** ... and after its permissions, size and time in the long one. */
  lemma LongOutputOfOne(n: Node, humanReadable: bool)
    ensures BuildOutput([n], true, humanReadable) ==
              n.permissions + "\t" + SizeField(n, humanReadable) + "\t" + n.TimeModified() + "\t" + n.relativePath
  {
    var fields := [n.permissions, SizeField(n, humanReadable), n.TimeModified(), n.relativePath];
    assert DetailLines([n], humanReadable) == [Join("\t", fields)];
    JoinFour("\t", n.permissions, SizeField(n, humanReadable), n.TimeModified(), n.relativePath);
  }

  /** Neither a tab nor a newline. */
  predicate Plain(s: string) {
    '\t' !in s && '\n' !in s
  }

  lemma SizeFieldPlain(n: Node, humanReadable: bool)
    ensures Plain(SizeField(n, humanReadable))
  {
    var s := SizeField(n, humanReadable);
    if humanReadable {
      HumanSizeChars(n.size);
      assert s == HumanSize(n.size);
    } else {
      IntToStringChars(n.size);
    }
    assert '\t' !in Units && '\n' !in Units;
  }

  lemma TimePlain(t: int)
    ensures Plain(Clock.FormatTime(t))
  {
    var s := Clock.FormatTime(t);
    assert forall m :: m in Clock.MonthAbbreviations ==> Plain(m);
    forall j | 0 <= j < |s|
      ensures s[j] != '\t' && s[j] != '\n'
    {
      if j < 3 {
        assert s[j] == s[..3][j];
      } else if 4 <= j < 6 {
        assert s[j] == s[4..6][j - 4];
      } else if 7 <= j < 9 {
        assert s[j] == s[7..9][j - 7];
      } else if 10 <= j {
        assert s[j] == s[10..12][j - 10];
      }
    }
  }

  /** The short format splits at its tabs back into the display names,
      provided no name holds a tab. */
  lemma ShortOutputNames(nodes: seq<Node>, humanReadable: bool)
    requires |nodes| >= 1
    requires forall i :: 0 <= i < |nodes| ==> '\t' !in DisplayName(nodes[i], |nodes|)
    ensures Split(BuildOutput(nodes, false, humanReadable), '\t') == DisplayNames(nodes)
    ensures |nodes| == 1 ==> Split(BuildOutput(nodes, false, humanReadable), '\t') == [nodes[0].relativePath]
    ensures |nodes| > 1 ==> forall i :: 0 <= i < |nodes| ==>
              Split(BuildOutput(nodes, false, humanReadable), '\t')[i] == nodes[i].name
  {
    SplitJoin(DisplayNames(nodes), '\t');
  }

  /** The long format splits at its newlines into one line per node, and
      each line at its tabs into the permissions, the size, the time and the
      display name, provided permissions and names hold neither. */
  lemma LongOutputLines(nodes: seq<Node>, humanReadable: bool)
    requires |nodes| >= 1
    requires forall i :: 0 <= i < |nodes| ==> Plain(nodes[i].permissions) && Plain(DisplayName(nodes[i], |nodes|))
    ensures Split(BuildOutput(nodes, true, humanReadable), '\n') == DetailLines(nodes, humanReadable)
    ensures forall i :: 0 <= i < |nodes| ==>
              Split(DetailLines(nodes, humanReadable)[i], '\t') ==
              [nodes[i].permissions, SizeField(nodes[i], humanReadable), nodes[i].TimeModified(),
               DisplayName(nodes[i], |nodes|)]
  {
    var lines := DetailLines(nodes, humanReadable);
    forall i | 0 <= i < |nodes|
      ensures '\n' !in lines[i]
      ensures Split(lines[i], '\t') ==
              [nodes[i].permissions, SizeField(nodes[i], humanReadable), nodes[i].TimeModified(),
               DisplayName(nodes[i], |nodes|)]
    {
      var n := nodes[i];
      var fields := [n.permissions, SizeField(n, humanReadable), n.TimeModified(), DisplayName(n, |nodes|)];
      SizeFieldPlain(n, humanReadable);
      TimePlain(n.timeModifiedInt);
      assert forall j :: 0 <= j < 4 ==> Plain(fields[j]);
      JoinAvoids("\t", fields, '\n');
      SplitJoin(fields, '\t');
    }
    SplitJoin(lines, '\n');
  }

  /** In a built directory the children are listed in the order their
      names first occur in the contents, each in the tree with the directory
      as its parent; with distinct names the i-th child is the node built
      from the i-th item. */
  lemma BuiltChildren(n: Node, data: Description, parent: Node?, repr: set<Node>)
    requires Built(n, data, parent, repr) && data.Directory?
    ensures |GetChildNodes(n)| == |NameOrder(data.contents)|
    ensures forall i :: 0 <= i < |GetChildNodes(n)| ==>
              && GetChildNodes(n)[i].name == NameOrder(data.contents)[i]
              && GetChildNodes(n)[i].parent == n
              && GetChildNodes(n)[i] in repr
    ensures (forall i, j :: 0 <= i < j < |data.contents| ==> data.contents[i].name != data.contents[j].name) ==>
              && |GetChildNodes(n)| == |data.contents|
              && forall i :: 0 <= i < |data.contents| ==> Describes(GetChildNodes(n)[i], data.contents[i], n, repr)
  {
    assert n in repr && n.Valid() && ChildrenIn(n, repr);
    var d := n.children.value;
    var r := GetChildNodes(n);
    forall i | 0 <= i < |r|
      ensures r[i].name == d.keys[i] && r[i].parent == n && r[i] in repr
    {
      assert d.keys[i] in d.entries;
      assert r[i] in d.entries.Values;
    }
    var items := data.contents;
    if forall i, j :: 0 <= i < j < |items| ==> items[i].name != items[j].name {
      NameOrderDistinct(items);
      forall i | 0 <= i < |items|
        ensures Describes(r[i], items[i], n, repr)
      {
        assert LastOfName(items, i);
      }
    }
  }

  /** `ls` of a `/`-separated path to a file, in the short format, prints
      `./` followed by the path, unless only directories are asked for, in
      which case it prints nothing. */
  lemma ListingOfFilePath(root: Node, data: Description, repr: set<Node>, p: seq<string>, opts: Options)
    requires Built(root, data, null, repr)
    requires |p| >= 1 && forall i :: 0 <= i < |p| ==> '/' !in p[i]
    requires p != ["."]
    requires Descend(root, p) != null && !Descend(root, p).isDirectory
    requires opts.nameOrPath == Some(Join("/", p)) && !opts.includeAllDetails
    ensures opts.filterByType != Some("dir") ==> Listing(root, opts) == "./" + Join("/", p)
    ensures opts.filterByType == Some("dir") ==> Listing(root, opts) == ""
  {
    var path := Join("/", p);
    if |p| > 1 {
      assert path == p[0] + "/" + Join("/", p[1..]);
      assert path[|p[0]|] == '/';
    } else {
      assert path == p[0];
    }
    assert path != ".";
    ResolveIsDescend(root, p);
    var target := Descend(root, p);
    assert Fetch(root, opts.nameOrPath) == target;
    DescendFromRoot(root, data, repr, p);
    SelectedFromFile(target, opts);
    if opts.filterByType != Some("dir") {
      ShortOutputOfOne(target, opts.humanReadable);
    }
  }

  /** `FileSystem`: the tree built from a description, listed by `ls`. */
  class FileSystem {
    const root: Node
    /** The nodes of the tree. */
    ghost const repr: set<Node>
    /** The description the tree was built from. */
    ghost const description: Description

    ghost predicate Valid()
      reads repr
    {
      Built(root, description, null, repr)
    }

    /** Builds the tree from the description, with no parent above its root. */
    constructor (data: Description)
      ensures Valid() && description == data && fresh(repr)
    {
      var node, nodes := BuildTree(data, null);
      root := node;
      repr := nodes;
      description := data;
    }

    /** `fetch_node`. */
    method FetchNode(nameOrPath: Option<string>) returns (n: Node?)
      ensures nameOrPath == None || nameOrPath == Some(".") ==> n == root
      ensures n == Fetch(root, nameOrPath)
    {
      if nameOrPath == None || nameOrPath == Some(".") {
        return root;
      }
      n := root.GetChild(nameOrPath.value);
    }

    /** `ls`: resolve the target, then sort, hide and filter by type the
        working list, and render it. */
    method Ls(opts: Options) returns (out: string)
      ensures Fetch(root, opts.nameOrPath) == null ==> out == NotFoundMessage(Shown(opts.nameOrPath))
      ensures out == Listing(root, opts)
    {
      var target := FetchNode(opts.nameOrPath);
      if target == null {
        return NotFoundMessage(Shown(opts.nameOrPath));
      }
      var nodes: seq<Node>;
      if target.isDirectory {
        var childNodes := GetChildNodes(target);
        var sortKey := GetSortKey(opts.sortByLastModifiedTime);
        nodes := SortNodes(childNodes, sortKey, opts.sortInReverse);
        if !opts.showHiddenFiles {
          nodes := Filter(nodes, NotHidden());
        } else {
          FilterAll(nodes);
        }
        StagesSelect(childNodes, opts);
      } else {
        nodes := [target];
      }
      TypeStage(nodes, opts.filterByType);
      if opts.filterByType.Some? {
        nodes := FilterNodes(nodes, opts.filterByType.value);
      }
      out := BuildOutput(nodes, opts.includeAllDetails, opts.humanReadable);
    }
  }
}
