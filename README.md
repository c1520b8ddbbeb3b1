# pyls core in Dafny

A model of the core of `pyls`, a static clone of `ls` that lists a file tree
described by nested JSON objects. It models two parts:

- **The tree node** (`src/core/node.py`). A `Node` class fixes its attributes
  at construction: depth, hidden flag, relative path, and children that are
  present exactly for a directory. Its methods are `add_child`, which files a
  node under its name in an insertion-ordered dictionary, and `get_child`,
  which resolves a name or walks a `/`-separated path. The property
  `human_readable_size` renders a size with a binary unit.
- **The listing engine** (`FileSystem` in `src/core/file_system.py`).
  `__build_tree` builds the tree recursively from the description. `ls`
  resolves the target (`fetch_node`) and takes the children of a directory
  (`get_child_nodes`). It sorts them stably by name or by modification time,
  optionally in reverse (`get_sort_key`, `sort_nodes`), and drops hidden
  entries. It then filters by type (`filter_nodes`) and renders the short or
  long format (`build_output`).

Modules:

- `Wrappers`: `Option`, and `Outcome` for a raised `ValueError`.
- `Seqs`: order-preserving selection, as list comprehensions perform it.
- `Dicts`: the insertion-ordered `dict[str, Node]`.
- `Strings`: `str(int)`, code-point order on `str`, `split` and `join`.
- `Clock`: the `"%b %d %H:%M"` rendering of a UTC timestamp.
- `Tree`: the `Node` class, path resolution and human-readable sizes.
- `Ordering`: stable sorting with its two keys.
- `Shape`: the description datatype, and what it means for a tree to have
  been built from one.
- `FileSystems`: `__build_tree`, the stages of `ls`, the rendering, and the
  `FileSystem` class.

The imperative code stays imperative:

- `add_child` assigns the `children` field of a `Node` in place.
- `get_child` and `human_readable_size` are loops, proved against the
  specification functions `Resolve` and `HumanSize`.
- `__build_tree` is a recursive method whose loop builds each child, adds it
  with `AddChild` and keeps a ghost set of the nodes built so far. One pass of
  that loop is the method `AddNext`.
- `ls` rebinds its working list through the stages. It is proved equal to a
  specification function `Listing`, about which the lemmas state what is
  listed and how.

The model follows the code where the code and its comments disagree:

- The docstring of `get_child` says a miss returns the current node. The code
  returns `None` (`src/core/node.py:116-136`).
- The help text of the command line says "newest first" for `-t`. The code
  sorts by `time_modified_int` ascending (`src/core/file_system.py:247-248`).

## Model

| member | source | states |
|---|---|---|
| `Tree.Node.constructor` | src/core/node.py:33-61 | The attributes are as given. Depth is 0 without a parent, else the parent's plus one. The node is hidden iff its name starts with `.`. The relative path is `./name` when there is no parent or the parent has depth 0, else the parent's path, `/` and the name. Children are an empty dict for a directory and absent for a file. |
| `Tree.Node.AddChild` | src/core/node.py:71-94 | On a directory the child is filed under its name, replacing a same-named entry in its place, and the invariant holds. On a file the result is the `ValueError` message and children stay absent. |
| `Dicts.Dict.Put` | src/core/node.py:91 | After `d[k] = v`, `k` maps to `v` and every other key maps as before. A new key goes last, an existing key keeps its position, and keys stay distinct. |
| `Dicts.Dict.Get` | src/core/node.py:118 | `d.get(k, None)`, also used at node.py line 129. It has no ensures of its own: `Put` states how an assignment changes it, `EmptyDict` that `{}` maps nothing, and `Tree.Lookup` what it returns from a directory. |
| `Dicts.Dict.Values` | src/core/file_system.py:200 | `list(d.values())`: one value per key, in key order. |
| `Dicts.Dict.ValuesOf` | src/core/file_system.py:200 | The values filed under a sequence of present keys, in that order. |
| `Dicts.EmptyDict` | src/core/node.py:59 | The new dict has no keys and maps nothing. |
| `Tree.Lookup` | src/core/node.py:116-119 | The result exists iff the node is a directory with a child of that name. It is the very node filed under that name, and it carries the name. |
| `Tree.Node.GetChild` | src/core/node.py:96-136 | The loop over the path segments returns what the walk `Resolve` defines: the named child for a bare name, otherwise the walk over the split path. |
| `Tree.Node.TimeModified` | src/core/node.py:47-53 | The `time_modified` text. `Clock.FormatTime` states its layout, `FileSystems.TimePlain` that it holds no tab or newline, and `Clock.FormatTimeExample` the tested value. |
| `Tree.Walk` | src/core/node.py:121-136 | Reference definition of the segment-by-segment walk. `WalkAfterDescend` and `WalkStopsAtFile` state its behaviour. |
| `Tree.Resolve` | src/core/node.py:96-136 | Reference definition of what `get_child` returns. `ResolveIsDescend` and `ResolveTwoSegments` state it, and `Node.GetChild` is proved to return it. |
| `Tree.WalkAfterDescend` | src/core/node.py:121-136 | Once the first segments resolve one by one, the walk of the whole path goes on from the node reached. |
| `Tree.ResolveIsDescend` | src/core/node.py:121-136 | A path of `/`-free names that resolve one at a time resolves, as a whole, to the same node as repeated `get_child(name)`. |
| `Tree.WalkStopsAtFile` | src/core/node.py:124-127 | A file reached mid-walk is the result iff its name equals the next segment, whatever segments follow. Otherwise there is no result. |
| `Tree.ResolveTwoSegments` | src/core/node.py:116-136 | `"a/b"` from a directory gives the child `b` of the directory `a`. If `a` is a file named `b`, it gives `a` itself. Otherwise it gives nothing. |
| `Tree.Node.HumanReadableSize` | src/core/node.py:138-158 | The loop, each pass multiplying the scale by 1024 (the integer form of dividing the value by 1024), returns `HumanSize(size)`. |
| `Tree.UnitIndex` | src/core/node.py:154-156 | The unit reached is the least `k` in 1..7 with `size < 1024^(k+1)`, and `1024^k <= size`. |
| `Tree.RoundHalfEven` | src/core/node.py:157 | The integer nearest `n/d`, with a tie going to the even one. |
| `Tree.OneDecimal` | src/core/node.py:157 | A canonical numeral (no leading zero), a point and one digit. Its value in tenths is within half a tenth of `size/scale`, and on an exact half it is the even one, as Python's `round` gives. |
| `Tree.HumanSizeUnit` | src/core/node.py:150-158 | The `k`-th unit is shown exactly when `1024^k <= size < 1024^(k+1)`. |
| `Tree.HumanSizeOfPower` | src/core/node.py:153-157 | `1024^k` shows as `1.0` followed by the `k`-th unit. |
| `Tree.HumanSizeInKilo` | src/core/node.py:153-157 | A size in `[1024, 1024^2)` shows its rounded tenths followed by `K`. |
| `Tree.HumanSizeChars` | src/core/node.py:150-158 | The rendering holds only digits, `-`, `.`, a unit letter and `B`. |
| `Tree.HumanSizeBoundaryExamples` | src/core/node.py:150-151 | `0` gives `"0"` and `1023` gives `"1023"`. |
| `Tree.HumanSizePowerExamples` | src/core/node.py:153-157 | `1024` gives `"1.0K"` and `1024^7` gives `"1.0Z"`. |
| `Tree.HumanSizeFixtureExamples` | src/core/node.py:153-157 | The fixture sizes 8911, 1071, 1342 and 1622 give `8.7K`, `1.0K`, `1.3K` and `1.6K`. |
| `Tree.HumanSizeTieExample` | src/core/node.py:157 | 1280 bytes, exactly 1.25K, show as `1.2K`: the half goes to the even tenth. |
| `Tree.HumanSize` | src/core/node.py:138-158 | Reference definition of `human_readable_size`. It has no ensures of its own: `HumanSizeUnit` states the unit for each range, `HumanSizeOfPower` the exact powers, `HumanSizeChars` the characters, and the example lemmas the tested values. |
| `Clock.MonthAndDay` | src/core/node.py:47-50 | The civil month is in 1..12 and the day is a day of the month in 1..31, at most 30 in April, June, September and November and at most 29 in February. |
| `Clock.TwoDigits` | src/core/node.py:51-53 | A zero-padded two-digit numeral of the value. |
| `Clock.FormatTime` | src/core/node.py:47-53 | `time_modified` is twelve characters: a month abbreviation, the day, the hour and the minute. The hour is below 24 and the minute below 60, and together they give back the minute of the UTC day. |
| `Clock.FormatTimeExample` | src/core/node.py:47-53 | The fixtures' timestamp 1699941437 renders as `Nov 14 05:57`. |
| `Clock.EpochIsFirstOfJanuary` | src/core/node.py:47-50 | Day 0 after the epoch is January 1. |
| `Clock.FormatTimeEpochExample` | src/core/node.py:47-53 | 3900 seconds after the epoch renders as `Jan 01 01:05`. |
| `Strings.DigitChar` | src/core/node.py:151 | The digit character of a value below ten. |
| `Strings.NatToString` | src/core/node.py:151 | `str(n)`: a non-empty digit string worth `n`, with a leading zero only for 0. |
| `Strings.IntToString` | src/core/file_system.py:314 | `str(i)`: a minus sign exactly for a negative `i`, then the canonical digits of `abs(i)` with no leading zero. |
| `Strings.NatToStringRoundTrip` | src/core/node.py:151 | `str(int(s)) == s` for a canonical numeral `s`. |
| `Strings.CanonicalNumeralUnique` | src/core/node.py:151 | Two canonical numerals with the same value are equal. |
| `Strings.IntToStringChars` | src/core/file_system.py:314 | `str(i)` holds only digits and `-`. |
| `Strings.StrLessIrreflexive` | src/core/file_system.py:250-251 | No name sorts before itself. |
| `Strings.StrLessTransitive` | src/core/file_system.py:250-251 | The name order is transitive. |
| `Strings.StrLessTotal` | src/core/file_system.py:250-251 | Of two different names one sorts before the other. |
| `Strings.StrLessAsymmetric` | src/core/file_system.py:250-251 | Two names never sort before each other. |
| `Strings.StrLess` | src/core/file_system.py:250-251 | Python's `<` on `str`, the order the name key sorts by. `StrLessIrreflexive`, `StrLessTransitive`, `StrLessTotal` and `StrLessAsymmetric` state that it is a strict total order. |
| `Strings.IndexOf` | src/core/node.py:121 | The first occurrence of the separator. |
| `Strings.Split` | src/core/node.py:121 | At least one piece, none of them holding the separator. |
| `Strings.JoinSplit` | src/core/node.py:121 | Joining the pieces of a split gives back the string. |
| `Strings.Join` | src/core/file_system.py:307-327 | Python's `sep.join(parts)`. `JoinSplit`, `SplitJoin`, `JoinAppend`, `JoinAvoids` and `JoinFour` state it. |
| `Strings.SplitJoin` | src/core/file_system.py:305-327 | Splitting a join of separator-free pieces gives back the pieces. |
| `Strings.JoinAvoids` | src/core/file_system.py:305-327 | A character in neither the separator nor any piece is not in the join. |
| `Strings.JoinAppend` | src/core/file_system.py:305-327 | Joining one more piece appends the separator and the piece. |
| `Strings.JoinFour` | src/core/file_system.py:309-318 | Four joined fields are the fields with the separator between each two. |
| `Seqs.Filter` | src/core/file_system.py:148 | A comprehension with a condition is never longer than its input. |
| `Seqs.FilterSelects` | src/core/file_system.py:148 | The selection is a subsequence. It holds only elements meeting the condition, each as often as the input holds it. |
| `Seqs.SubsequenceMembers` | src/core/file_system.py:148 | Elements of a subsequence are elements of the input. |
| `Seqs.FilterAppend` | src/core/file_system.py:148 | Selection distributes over concatenation. |
| `Seqs.FilterCommute` | src/core/file_system.py:147-156 | The hidden-file and type selections can be made in either order. |
| `Seqs.FilterFilter` | src/core/file_system.py:147-156 | Two selections in a row select with the conjunction. |
| `Seqs.FilterAll` | src/core/file_system.py:147-148 | Skipping the hidden-file stage is selecting with the always-true condition. |
| `Ordering.PrecedesTrichotomy` | src/core/file_system.py:247-253 | Of two entries exactly one precedes the other or their keys are equal. |
| `Ordering.PrecedesTransitive` | src/core/file_system.py:247-253 | Precedence is transitive for both keys and both directions. |
| `Ordering.Insert` | src/core/file_system.py:226 | Inserting adds exactly the entry. |
| `Ordering.SortNodes` | src/core/file_system.py:202-226 | `sorted(...)` is a permutation of its input, ascending by key, or descending with `reverse`. |
| `Ordering.GetSortKey` | src/core/file_system.py:228-253 | Chooses the time key when asked to sort by time, otherwise the name key. `SortNodes` and `ReverseKeepsTieOrder` state the order each key gives. |
| `Ordering.InsertSorted` | src/core/file_system.py:226 | Inserting into a sorted list keeps it sorted. |
| `Ordering.InsertTies` | src/core/file_system.py:226 | The inserted entry goes after the entries with its key. Every group of equal keys keeps its order. |
| `Ordering.SortNodesStable` | src/core/file_system.py:226 | Within each group of equal keys the output keeps the input order, also in reverse. |
| `Ordering.SortedTiesDetermine` | src/core/file_system.py:226 | Two sorted lists with the same groups of equal keys are equal, so the stable sort has one result. |
| `Ordering.SortedSubsequence` | src/core/file_system.py:147-156 | Dropping entries from a sorted list keeps it sorted. |
| `Ordering.SortCommutesWithFilter` | src/core/file_system.py:137-156 | Sorting then selecting equals selecting then sorting. |
| `Ordering.ReverseKeepsTieOrder` | src/core/file_system.py:226 | Two entries with equal keys come out in input order in both directions, unlike the ascending order read backwards. |
| `Shape.NameOrder` | src/core/file_system.py:88-90 | The children's names: each item's name once, nothing else. |
| `Shape.NameOrderDistinct` | src/core/file_system.py:88-90 | With distinct item names the children are named in item order. |
| `Shape.PutAll` | src/core/file_system.py:88-90 | Filing the built nodes one by one keeps the dictionary valid. |
| `Shape.PutAllKeys` | src/core/file_system.py:88-90 | Filing the built nodes orders the names by first occurrence. |
| `Shape.PutAllLast` | src/core/file_system.py:88-90 | Under each name lies the node built from the last item of that name. |
| `Shape.PutAllValues` | src/core/file_system.py:88-90 | The dictionary holds no node but the ones built. |
| `Shape.DescribesGrows` | src/core/file_system.py:64-91 | A built subtree stays described when more nodes are built. |
| `Shape.ParentsLinkedUnion` | src/core/file_system.py:88-90 | Two linked sets of nodes form a linked set together. |
| `Shape.BuiltFromStep` | src/core/file_system.py:89-90 | The node built from the next item joins those built before. |
| `Shape.AssembleDescribes` | src/core/file_system.py:80-91 | A directory holding the nodes of all its contents describes its item: same attributes, children in name order, each built from the last item of its name. |
| `Shape.AssembleLinked` | src/core/file_system.py:80-91 | Every node of the new subtree keeps its invariant, and its children point back to it. |
| `Shape.DescendLinked` | src/core/node.py:56-61 | Descending by names gains one level of depth per name, and each name extends the relative path by `/name`. |
| `Shape.DescendFromRoot` | src/core/node.py:56-61 | From the root a path of names reaches depth `|p|` with relative path `./` followed by the names joined by `/`. |
| `FileSystems.BuildTree` | src/core/file_system.py:64-91 | The node built is linked to fresh nodes. It is a directory iff the item has contents, and each item of the contents became a child whose parent is the node. |
| `FileSystems.AddChildren` | src/core/file_system.py:88-90 | After the loop every item of the contents is built below the node and filed under its name. |
| `FileSystems.AddNext` | src/core/file_system.py:89-90 | One pass builds the next item below the node and files it. `add_child` never fails there. |
| `FileSystems.GetChildNodes` | src/core/file_system.py:186-200 | A directory gives its children in insertion order and a file gives none. |
| `FileSystems.FilterNodesSelects` | src/core/file_system.py:255-279 | `"dir"` keeps exactly the directories and `"file"` exactly the files, each as an order-preserving subsequence. Any other value returns the list unchanged. |
| `FileSystems.FilterNodes` | src/core/file_system.py:255-279 | Reference definition of `filter_nodes`. `FilterNodesSelects` states it. |
| `FileSystems.BuildOutput` | src/core/file_system.py:281-327 | Reference definition of `build_output`. `BuildOutputEmpty`, `ShortOutputOfOne`, `LongOutputOfOne`, `ShortOutputNames` and `LongOutputLines` state it. |
| `FileSystems.DisplayName` | src/core/file_system.py:316-324 | The relative path when one node is listed, otherwise the name. `ShortOutputOfOne`, `LongOutputOfOne` and `ShortOutputNames` state it. |
| `FileSystems.SizeField` | src/core/file_system.py:312-314 | The size column: `human_readable_size` with `-h`, otherwise `str(size)`. `LongOutputOfOne` and `SizeFieldPlain` state it. |
| `FileSystems.Selected` | src/core/file_system.py:137-156 | The nodes `ls` lists for a target. `SelectedFromDirectory` states them for a directory (the sorted kept children, ties in insertion order), `SelectedFromFile` for a file, and `StagesSelect` that the source's stage order gives the same list. |
| `FileSystems.TypeStage` | src/core/file_system.py:152-156 | The type stage, skipped for no filter, selects by the type rule. |
| `FileSystems.StagesSelect` | src/core/file_system.py:137-156 | Sorting, hiding and type filtering select the kept children in sorted order. |
| `FileSystems.KeptChildren` | src/core/file_system.py:147-156 | The kept children are those not hidden, unless hidden files are shown, and of the requested type. |
| `FileSystems.SelectedFromDirectory` | src/core/file_system.py:137-156 | For a directory, `ls` lists exactly the kept children, each as often as it is a child. The list is sorted and ties keep insertion order. |
| `FileSystems.SelectedFromFile` | src/core/file_system.py:149-156 | A file target lists itself unless only directories are asked for. Hiding and sorting do not apply to it. |
| `FileSystems.BuildOutputEmpty` | src/core/file_system.py:305-327 | An empty list renders as `""` in both formats. |
| `FileSystems.ShortOutputOfOne` | src/core/file_system.py:322-327 | A single node renders as its relative path. |
| `FileSystems.LongOutputOfOne` | src/core/file_system.py:306-321 | A single node's long line is permissions, size, time and relative path, separated by tabs. |
| `FileSystems.SizeFieldPlain` | src/core/file_system.py:311-315 | The size field holds no tab or newline. |
| `FileSystems.TimePlain` | src/core/node.py:51-53 | The time field holds no tab or newline. |
| `FileSystems.ShortOutputNames` | src/core/file_system.py:322-327 | The short format splits at tabs into the display names. That is the relative path for a single node and the bare names otherwise. |
| `FileSystems.LongOutputLines` | src/core/file_system.py:305-321 | The long format splits at newlines into one line per node. Each line splits at tabs into permissions, size, time and display name. |
| `FileSystems.BuiltChildren` | src/core/file_system.py:88-90 | A built directory lists its children in first-occurrence name order, each in the tree with the directory as parent. With distinct names the i-th child is built from the i-th item. |
| `FileSystems.ListingOfFilePath` | src/core/file_system.py:131-164 | `ls` of a path to a file prints `./` and the path, or nothing when only directories are asked for. |
| `FileSystems.FileSystem.constructor` | src/core/file_system.py:46-50 | The root is the tree built from the description, without a parent. |
| `FileSystems.FileSystem.FetchNode` | src/core/file_system.py:166-184 | No path or `"."` gives the root. Any other string, the empty one included, gives `root.get_child(path)`. |
| `FileSystems.Fetch` | src/core/file_system.py:166-184 | Reference definition of `fetch_node`. `FileSystem.FetchNode` is proved to return it. |
| `FileSystems.NotFoundMessage` | src/core/file_system.py:133-135 | The not-found text, with the 16 spaces the line continuation carries into it. `FileSystem.Ls` returns it for a target that does not resolve. |
| `FileSystems.Listing` | src/core/file_system.py:93-164 | Reference definition of what `ls` returns. `FileSystem.Ls` is proved to return it. `StagesSelect`, `SelectedFromDirectory`, `SelectedFromFile` and `ListingOfFilePath` state its content. |
| `FileSystems.FileSystem.Ls` | src/core/file_system.py:93-164 | A target that does not resolve gives the not-found text, with the indentation the line continuation carries into it. Otherwise the output is the rendering of the selection `Listing` defines. |

## Left out

- Reading the JSON file (`__load_json`, `Path`, `json.load`) is file I/O. The model builds from a `Description` value, and a malformed object (a missing key, a wrong type) is not representable.
- The command line (`src/cli/main.py`) is argument parsing, help text and printing, and is not part of this model.
- FileSystems.FileSystem.Ls: the flags typed `bool | None` are taken as `bool`. `None` behaves as `False` at every use in the source.
- Tree.HumanSize: the float division and `round(x, 1)` are modelled by exact integer arithmetic with round-half-even. It is guaranteed to agree with Python for sizes below 2^53, where each division by 1024 is exact.
- Tree.Node.HumanReadableSize: same float abstraction as `Tree.HumanSize`.
- Clock.MonthAndDay: the contract bounds the month and the day (with the shorter months' limits) but does not tie them to the day count `z`. Only the body, which is the era-based civil-from-days computation, and the example lemmas `EpochIsFirstOfJanuary`, `FormatTimeExample` and `FormatTimeEpochExample` fix them. No days-from-civil inverse is proved.
- Clock.FormatTime: the month abbreviation and the day are bounded but not tied to `t` by the contract, for the reason given for `Clock.MonthAndDay`. Hour and minute are tied to `t`.
- Clock.FormatTime: `datetime.fromtimestamp` raises for timestamps outside years 1 to 9999. The model formats every integer in the proleptic Gregorian calendar.
- Tree.Node.constructor: `time_modified_datetime` is not kept as a field. `time_modified` is the function `TimeModified` of `time_modified_int`.
- `__repr__` and `__str__` are debugging aids excluded from the source's own coverage.
- The closures `get_sort_key` returns are the two values of `SortKey`.
- The parent back-reference is used only for depth and relative path, as in the source.
- Python's recursion limit for very deep trees is not modelled.
- Aliasing beyond the tree (a node added under two parents) is not modelled, because `__build_tree` creates a fresh node for every item.
