/**
  One entry of the listed tree: a file or a directory, its attributes fixed
  when it is created, and the children a directory gains afterwards.
 */
module Tree {
  import opened Wrappers
  import opened Strings
  import opened Dicts
  import Clock

  /** The factor between two size units. */
  const ByteLength := 1024

  /** The size units after bytes, in increasing order. */
  const Units: seq<char> := ['K', 'M', 'G', 'T', 'P', 'E', 'Z']

  /** The message of the `ValueError` raised by adding a child to a file. */
  const AddChildError := "Cannot add child to a non-directory node."

  class Node {
    const name: string
    const size: int
    const timeModifiedInt: int
    const permissions: string
    const isDirectory: bool
    const parent: Node?
    const depth: nat
    const isHidden: bool
    const relativePath: string
    /** `None` for a file; for a directory, the children by name in insertion order. */
    var children: Option<Dict<Node>>

    /** `time_modified`: the modification time as the long format shows it,
        derived from the epoch seconds the node was created with. */
    function TimeModified(): string {
      Clock.FormatTime(timeModifiedInt)
    }

    /** What construction fixes once and for all: the attributes derived
        from the name and the parent. */
    ghost predicate Linked() {
      && depth == (if parent == null then 0 else parent.depth + 1)
      && isHidden == (|name| > 0 && name[0] == '.')
      && relativePath == (if parent != null && parent.depth > 0 then parent.relativePath else ".") + "/" + name
    }

    /** The object invariant: the derived attributes, children present
        exactly for a directory, and every child filed under its own name. */
    ghost predicate Valid()
      reads this
    {
      && Linked()
      && (children.Some? <==> isDirectory)
      && (children.Some? ==>
            && children.value.Valid()
            && forall k :: k in children.value.entries ==> children.value.entries[k].name == k)
    }

    constructor (name: string, size: int, timeModifiedInt: int, permissions: string,
                 isDirectory: bool, parent: Node?)
      ensures Valid()
      ensures this.name == name && this.size == size && this.timeModifiedInt == timeModifiedInt
      ensures this.permissions == permissions && this.isDirectory == isDirectory && this.parent == parent
      ensures children == if isDirectory then Some(EmptyDict()) else None
    {
      this.name := name;
      this.size := size;
      this.timeModifiedInt := timeModifiedInt;
      this.permissions := permissions;
      this.isDirectory := isDirectory;
      this.parent := parent;
      this.depth := if parent == null then 0 else parent.depth + 1;
      this.isHidden := |name| > 0 && name[0] == '.';
      this.relativePath := (if parent != null && parent.depth > 0 then parent.relativePath else ".") + "/" + name;
      this.children := if isDirectory then Some(EmptyDict()) else None;
    }

    /** Files `node` under its name, replacing any child of that name in
        its place; a file refuses with the `ValueError` message and keeps
        no children. */
    method AddChild(node: Node) returns (outcome: Outcome)
      requires Valid()
      modifies this
      ensures Valid()
      ensures outcome == if isDirectory then Pass else Fail(AddChildError)
      ensures isDirectory ==> children == Some(old(children).value.Put(node.name, node))
      ensures !isDirectory ==> children == None
    {
      if isDirectory && children.Some? {
        children := Some(children.value.Put(node.name, node));
        outcome := Pass;
      } else {
        outcome := Fail(AddChildError);
      }
    }

    /** Resolves a child name or a `/`-separated path from this node. */
    method GetChild(nameOrPath: string) returns (r: Node?)
      ensures r == Resolve(this, nameOrPath)
    {
      if '/' !in nameOrPath {
        if isDirectory && children.Some? {
          r := OrNull(children.value.Get(nameOrPath));
        } else {
          r := null;
        }
        return;
      }
      var parts := Split(nameOrPath, '/');
      var current: Node := this;
      for i := 0 to |parts|
        invariant Walk(this, parts) == Walk(current, parts[i..])
      {
        var part := parts[i];
        assert parts[i..][1..] == parts[i + 1..];
        if !current.isDirectory {
          if current.name == part {
            return current;
          }
          return null;
        }
        var child := if current.children.Some? then OrNull(current.children.value.Get(part)) else null;
        if child == null {
          return null;
        }
        current := child;
      }
      return current;
    }

    /** The size with a binary unit: each pass multiplies the scale by 1024
        and moves to the next unit until the size falls below 1024 times the
        scale, the integer form of dividing the value by 1024 each pass. */
    method HumanReadableSize() returns (r: string)
      ensures r == HumanSize(size)
    {
      if size < ByteLength {
        return IntToString(size);
      }
      var scale := ByteLength;
      for k := 1 to |Units| + 1
        invariant scale == Pow1024(k) && size >= scale
      {
        if size < scale * ByteLength {
          HumanSizeUnit(size, k);
          return OneDecimal(size, scale) + [Units[k - 1]];
        }
        scale := scale * ByteLength;
      }
      return IntToString(size) + "B";
    }
  }

  // -----------------------------------------------------------------------
  // Name and path resolution

  function OrNull(o: Option<Node>): Node? {
    if o.Some? then o.value else null
  }

  /** `get_child` for a name without `/`: the child of that name, or null
      when there is none or the node is a file. */
  function Lookup(n: Node, k: string): (r: Node?)
    reads n
    ensures n.Valid() ==> (r != null <==> n.isDirectory && k in n.children.value.entries)
    ensures n.Valid() && r != null ==> r.name == k && r == n.children.value.entries[k]
  {
    if n.isDirectory && n.children.Some? then OrNull(n.children.value.Get(k)) else null
  }

  /** The walk `get_child` performs over the segments of a path: a file
      reached with segments left ends the walk, yielding itself when its
      name is the next segment and null otherwise. */
  ghost function Walk(n: Node, parts: seq<string>): Node?
    reads *
    decreases |parts|
  {
    if parts == [] then n
    else if !n.isDirectory then (if n.name == parts[0] then n else null)
    else
      var child := Lookup(n, parts[0]);
      if child == null then null else Walk(child, parts[1..])
  }

  /** What `get_child(nameOrPath)` returns. */
  ghost function Resolve(n: Node, nameOrPath: string): Node?
    reads *
  {
    if '/' !in nameOrPath then Lookup(n, nameOrPath) else Walk(n, Split(nameOrPath, '/'))
  }

  /** One `get_child(name)` per segment, in sequence: what a caller gets by
      descending a segment at a time. */
  ghost function Descend(n: Node, parts: seq<string>): Node?
    reads *
    decreases |parts|
  {
    if parts == [] then n
    else
      var child := Lookup(n, parts[0]);
      if child == null then null else Descend(child, parts[1..])
  }

  /** Once a descent through `p` succeeds, walking `p + q` continues from
      where it arrived. */
  lemma {:induction false} WalkAfterDescend(n: Node, p: seq<string>, q: seq<string>)
    requires Descend(n, p) != null
    ensures Walk(n, p + q) == Walk(Descend(n, p), q)
    decreases |p|
  {
    if p != [] {
      assert (p + q)[0] == p[0] && (p + q)[1..] == p[1..] + q;
      WalkAfterDescend(Lookup(n, p[0]), p[1..], q);
    } else {
      assert p + q == q;
    }
  }

  /** A path whose segments resolve one by one resolves, as a whole, to the
      same node: `"a/b"` finds what `get_child("a").get_child("b")` finds. */
  lemma ResolveIsDescend(n: Node, p: seq<string>)
    requires |p| >= 1
    requires forall i :: 0 <= i < |p| ==> '/' !in p[i]
    requires Descend(n, p) != null
    ensures Resolve(n, Join("/", p)) == Descend(n, p)
  {
    if |p| == 1 {
      assert Join("/", p) == p[0];
    } else {
      assert Join("/", p) == p[0] + "/" + Join("/", p[1..]);
      assert Join("/", p)[|p[0]|] == '/';
      SplitJoin(p, '/');
      WalkAfterDescend(n, p, []);
      assert p + [] == p;
    }
  }

  /** The walk stops at the first file it reaches: that file is the result
      when its own name is the next segment, whatever segments follow, and
      otherwise there is no result. */
  lemma WalkStopsAtFile(n: Node, p: seq<string>, s: string, rest: seq<string>)
    requires Descend(n, p) != null && !Descend(n, p).isDirectory
    ensures Walk(n, p + [s] + rest) == if s == Descend(n, p).name then Descend(n, p) else null
  {
    WalkAfterDescend(n, p, [s] + rest);
    assert p + [s] + rest == p + ([s] + rest);
  }

  /** `"a/b"` from a directory: the child `a`'s child `b` when `a` is a
      directory, `a` itself when it is a file named `b`, else nothing. */
  lemma ResolveTwoSegments(n: Node, a: string, b: string)
    requires n.Valid() && n.isDirectory
    requires '/' !in a && '/' !in b
    ensures Resolve(n, a + "/" + b) ==
      var c := Lookup(n, a);
      if c == null then null
      else if c.isDirectory then Lookup(c, b)
      else if c.name == b then c
      else null
  {
    var s := a + "/" + b;
    assert s == Join("/", [a, b]);
    assert s[|a|] == '/';
    SplitJoin([a, b], '/');
    assert Split(s, '/') == [a, b];
    var c := Lookup(n, a);
    if c != null {
      assert [a, b][1..] == [b];
      assert Walk(n, [a, b]) == Walk(c, [b]);
      if c.isDirectory {
        assert [b][1..] == [];
        var d := Lookup(c, b);
        if d != null {
          assert Walk(d, []) == d;
        }
      }
    }
  }

  // -----------------------------------------------------------------------
  // Human-readable sizes

  function Pow1024(k: nat): (p: nat)
    ensures p >= 1
  {
    if k == 0 then 1 else ByteLength * Pow1024(k - 1)
  }

  lemma {:induction false} Pow1024Monotone(i: nat, j: nat)
    requires i <= j
    ensures Pow1024(i) <= Pow1024(j)
    decreases j
  {
    if i < j {
      Pow1024Monotone(i, j - 1);
    }
  }

  /** The unit a size at or above 1024 is shown in: the least `k` in 1..7
      with `size < 1024^(k+1)`, which also has `1024^k <= size`. */
  function UnitIndex(size: int, from: nat): (k: nat)
    requires 1 <= from <= 7 && Pow1024(from) <= size < Pow1024(8)
    ensures from <= k <= 7 && Pow1024(k) <= size < Pow1024(k + 1)
    decreases 7 - from
  {
    if size < Pow1024(from + 1) then from
    else
      if from == 7 then assert false; from
      else UnitIndex(size, from + 1)
  }

  /** `n / d` rounded to the nearest integer, halves to the even one: the
      rounding Python's `round` applies to the exact value. */
  function RoundHalfEven(n: nat, d: nat): (q: nat)
    requires d > 0
    ensures 2 * (n - q * d) <= d && 2 * (q * d - n) <= d
    ensures (2 * (n - q * d) == d || 2 * (q * d - n) == d) ==> q % 2 == 0
  {
    var q0, rem := n / d, n % d;
    assert n == q0 * d + rem;
    assert (q0 + 1) * d == q0 * d + d;
    if 2 * rem > d then q0 + 1
    else if 2 * rem < d then q0
    else if q0 % 2 == 0 then q0
    else q0 + 1
  }

  /** `str(round(size / scale, 1))`: the tenths nearest to `size / scale`,
      written with one decimal. */
  function OneDecimal(size: nat, scale: nat): (s: string)
    requires scale > 0
    ensures |s| >= 3 && s[|s| - 2] == '.'
    ensures IsDigits(s[..|s| - 2]) && IsDigit(s[|s| - 1])
    ensures s[0] == '0' ==> |s| == 3
    ensures var tenths := 10 * DigitsValue(s[..|s| - 2]) + (s[|s| - 1] as int - '0' as int);
            && 2 * (10 * size - tenths * scale) <= scale && 2 * (tenths * scale - 10 * size) <= scale
            && ((2 * (10 * size - tenths * scale) == scale || 2 * (tenths * scale - 10 * size) == scale) ==> tenths % 2 == 0)
  {
    var q := RoundHalfEven(10 * size, scale);
    var whole := NatToString(q / 10);
    var s := whole + "." + [DigitChar(q % 10)];
    assert s[..|s| - 2] == whole;
    assert 10 * (q / 10) + q % 10 == q;
    s
  }

  /** `human_readable_size`: a size below 1024 as its plain numeral; else
      the one-decimal value in the least unit K..Z that brings it below
      1024, followed by that unit; beyond Z, the numeral followed by `B`. */
  function HumanSize(size: int): string
  {
    if size < ByteLength then IntToString(size)
    else if size >= Pow1024(|Units| + 1) then IntToString(size) + "B"
    else
      var k := UnitIndex(size, 1);
      OneDecimal(size, Pow1024(k)) + [Units[k - 1]]
  }

  /** A human-readable size holds only digits, a minus sign, a decimal
      point, a unit letter and `B`. */
  lemma HumanSizeChars(size: int)
    ensures forall c :: c in HumanSize(size) ==> c == '-' || c == '.' || c == 'B' || IsDigit(c) || c in Units
  {
    IntToStringChars(size);
    if ByteLength <= size < Pow1024(|Units| + 1) {
      var k := UnitIndex(size, 1);
      var d := OneDecimal(size, Pow1024(k));
      forall c | c in d
        ensures c == '.' || IsDigit(c)
      {
        var j :| 0 <= j < |d| && d[j] == c;
        if j < |d| - 2 {
          assert d[..|d| - 2][j] == c;
        }
      }
      assert HumanSize(size) == d + [Units[k - 1]];
    }
  }

  /** The unit shown is the `k`-th exactly when `1024^k <= size < 1024^(k+1)`. */
  lemma HumanSizeUnit(size: int, k: nat)
    requires 1 <= k <= 7 && Pow1024(k) <= size < Pow1024(k + 1)
    ensures HumanSize(size) == OneDecimal(size, Pow1024(k)) + [Units[k - 1]]
  {
    Pow1024Monotone(k + 1, 8);
    Pow1024Monotone(1, k);
    assert ByteLength <= size < Pow1024(|Units| + 1);
    var j := UnitIndex(size, 1);
    if j < k {
      Pow1024Monotone(j + 1, k);
    } else if j > k {
      Pow1024Monotone(k + 1, j);
    }
    assert j == k;
  }

  /** A multiple of `d` divided by `d` rounds to itself. */
  lemma RoundHalfEvenExact(m: nat, d: nat)
    requires d > 0
    ensures RoundHalfEven(m * d, d) == m
  {
    var q := RoundHalfEven(m * d, d);
    if q < m {
      MulAtLeast(m, q, d);
    } else if q > m {
      MulAtLeast(q, m, d);
    }
  }

  lemma MulAtLeast(a: int, b: int, d: nat)
    requires a > b
    ensures a * d - b * d >= d
  {
    var x := a - b - 1;
    assert a * d - b * d == x * d + d;
  }

  /** An exact power `1024^k` shows as `1.0` in the `k`-th unit. */
  lemma HumanSizeOfPower(k: nat)
    requires 1 <= k <= 7
    ensures HumanSize(Pow1024(k)) == "1.0" + [Units[k - 1]]
  {
    var scale := Pow1024(k);
    HumanSizeUnit(scale, k);
    RoundHalfEvenExact(10, scale);
    OneDecimalOfTen(scale, scale);
  }

  /** Ten tenths render as `1.0`. */
  lemma OneDecimalOfTen(size: nat, scale: nat)
    requires scale > 0 && RoundHalfEven(10 * size, scale) == 10
    ensures OneDecimal(size, scale) == "1.0"
  {
    assert NatToString(1) == "1";
    var s := NatToString(1) + "." + [DigitChar(0)];
    assert s == "1.0";
  }

  /** A size in the kilobyte range shows its rounded tenths followed by `K`. */
  lemma HumanSizeInKilo(size: int, tenths: nat)
    requires ByteLength <= size < Pow1024(2)
    requires RoundHalfEven(10 * size, ByteLength) == tenths
    ensures HumanSize(size) == NatToString(tenths / 10) + "." + [DigitChar(tenths % 10)] + "K"
  {
    HumanSizeUnit(size, 1);
  }

  /** The values the repository's tests expect at the unit boundaries. */
  lemma HumanSizeBoundaryExamples()
    ensures HumanSize(0) == "0" && HumanSize(1023) == "1023"
  {
    assert NatToString(1023) == "1023";
  }

  /** ... and at the first and the last unit. */
  lemma HumanSizePowerExamples()
    ensures HumanSize(1024) == "1.0K"
    ensures HumanSize(1024 * 1024 * 1024 * 1024 * 1024 * 1024 * 1024) == "1.0Z"
  {
    assert Pow1024(1) == 1024;
    assert Pow1024(7) == 1024 * 1024 * 1024 * 1024 * 1024 * 1024 * 1024;
    HumanSizeOfPower(1);
    HumanSizeOfPower(7);
    assert "1.0" + [Units[0]] == "1.0K" && "1.0" + [Units[6]] == "1.0Z";
  }

  /** A value exactly halfway between two tenths rounds to the even one:
      1280 bytes are 1.25K and show as `1.2K`. */
  lemma HumanSizeTieExample()
    ensures HumanSize(1280) == "1.2K"
  {
    assert Pow1024(2) == 1024 * 1024;
    assert RoundHalfEven(12800, 1024) == 12;
    HumanSizeInKilo(1280, 12);
    assert NatToString(1) == "1";
  }

  /** The values the repository's tests expect of the sizes of its fixtures. */
  lemma HumanSizeFixtureExamples()
    ensures HumanSize(8911) == "8.7K" && HumanSize(1071) == "1.0K"
    ensures HumanSize(1342) == "1.3K" && HumanSize(1622) == "1.6K"
  {
    HumanSizeInKilo(8911, 87);
    HumanSizeInKilo(1071, 10);
    HumanSizeInKilo(1342, 13);
    HumanSizeInKilo(1622, 16);
  }
}
