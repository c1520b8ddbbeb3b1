/**
  The order `ls` lists entries in: Python's stable `sorted(nodes, key=...,
  reverse=...)` with the entry's name or its modification time as the key.
  With `reverse` the order is descending while entries with equal keys keep
  their input order; it is not the ascending order read backwards.
 */
module Ordering {
  import opened Strings
  import opened Seqs
  import opened Tree

  /** The two key functions `get_sort_key` chooses between. */
  datatype SortKey = ByName | ByTime

  /** `get_sort_key(sort_by_time=...)`. */
  function GetSortKey(sortByTime: bool): SortKey {
    if sortByTime then ByTime else ByName
  }

  /** `key(a) < key(b)`: code-point order on names, numeric order on times. */
  predicate KeyLess(a: Node, b: Node, key: SortKey) {
    match key
    case ByName => StrLess(a.name, b.name)
    case ByTime => a.timeModifiedInt < b.timeModifiedInt
  }

  /** `key(a) == key(b)`. */
  predicate SameKey(a: Node, b: Node, key: SortKey) {
    match key
    case ByName => a.name == b.name
    case ByTime => a.timeModifiedInt == b.timeModifiedInt
  }

  /** `a` must come before `b` in the sorted output. */
  predicate Precedes(a: Node, b: Node, key: SortKey, reverse: bool) {
    if reverse then KeyLess(b, a, key) else KeyLess(a, b, key)
  }

  /** Keys are totally ordered: of two entries, one precedes the other or
      their keys are equal, and exactly one of these holds. */
  lemma PrecedesTrichotomy(a: Node, b: Node, key: SortKey, reverse: bool)
    ensures Precedes(a, b, key, reverse) || Precedes(b, a, key, reverse) || SameKey(a, b, key)
    ensures SameKey(a, b, key) ==> !Precedes(a, b, key, reverse) && !Precedes(b, a, key, reverse)
    ensures !(Precedes(a, b, key, reverse) && Precedes(b, a, key, reverse))
  {
    if key == ByName {
      StrLessTotal(a.name, b.name);
      StrLessIrreflexive(a.name);
      if StrLess(a.name, b.name) {
        StrLessAsymmetric(a.name, b.name);
      }
    }
  }

  lemma PrecedesTransitive(a: Node, b: Node, c: Node, key: SortKey, reverse: bool)
    requires Precedes(a, b, key, reverse) && Precedes(b, c, key, reverse)
    ensures Precedes(a, c, key, reverse)
  {
    if key == ByName {
      if reverse {
        StrLessTransitive(c.name, b.name, a.name);
      } else {
        StrLessTransitive(a.name, b.name, c.name);
      }
    }
  }

  /** No entry ever comes after an entry it must precede. */
  ghost predicate IsSortedBy(s: seq<Node>, key: SortKey, reverse: bool) {
    forall i, j :: 0 <= i < j < |s| ==> !Precedes(s[j], s[i], key, reverse)
  }

  /** Whether an entry's key equals that of `m`. */
  function TiedWith(m: Node, key: SortKey): Node -> bool {
    (x: Node) => SameKey(x, m, key)
  }

  /** The entries of `s` whose key equals that of `m`, in their order in `s`. */
  function Ties(s: seq<Node>, m: Node, key: SortKey): seq<Node> {
    Filter(s, TiedWith(m, key))
  }

  /** Places `x` after every entry of `t` it need not precede. */
  function Insert(t: seq<Node>, x: Node, key: SortKey, reverse: bool): (r: seq<Node>)
    ensures multiset(r) == multiset(t) + multiset{x}
    ensures |r| == |t| + 1
  {
    if t == [] then [x]
    else if Precedes(x, t[0], key, reverse) then [x] + t
    else
      assert t == [t[0]] + t[1..];
      [t[0]] + Insert(t[1..], x, key, reverse)
  }

  /** `sorted(nodes, key=key, reverse=reverse)`: a sorted permutation of
      the input (insertion of each entry, first to last, after the equal
      keys already placed). */
  function SortNodes(nodes: seq<Node>, key: SortKey, reverse: bool): (r: seq<Node>)
    ensures multiset(r) == multiset(nodes)
    ensures IsSortedBy(r, key, reverse)
  {
    if nodes == [] then []
    else
      var init, last := nodes[..|nodes| - 1], nodes[|nodes| - 1];
      assert nodes == init + [last];
      var sortedInit := SortNodes(init, key, reverse);
      InsertSorted(sortedInit, last, key, reverse);
      Insert(sortedInit, last, key, reverse)
  }

  lemma {:induction false} InsertSorted(t: seq<Node>, x: Node, key: SortKey, reverse: bool)
    requires IsSortedBy(t, key, reverse)
    ensures IsSortedBy(Insert(t, x, key, reverse), key, reverse)
    decreases |t|
  {
    if t != [] {
      var r := Insert(t, x, key, reverse);
      if Precedes(x, t[0], key, reverse) {
        assert r == [x] + t;
        forall j | 0 <= j < |t|
          ensures !Precedes(t[j], x, key, reverse)
        {
          PrecedesTrichotomy(x, t[0], key, reverse);
          if Precedes(t[j], x, key, reverse) {
            PrecedesTransitive(t[j], x, t[0], key, reverse);
          }
        }
      } else {
        var rest := Insert(t[1..], x, key, reverse);
        InsertSorted(t[1..], x, key, reverse);
        assert r == [t[0]] + rest;
        forall j | 0 <= j < |rest|
          ensures !Precedes(rest[j], t[0], key, reverse)
        {
          assert rest[j] in multiset(t[1..]) + multiset{x};
          if rest[j] != x {
            var k :| 0 <= k < |t[1..]| && t[1..][k] == rest[j];
            assert t[k + 1] == rest[j];
          }
        }
      }
    }
  }

  /** The tie group of a sequence with one more entry in front. */
  lemma TiesCons(y: Node, s: seq<Node>, m: Node, key: SortKey)
    ensures Ties([y] + s, m, key) == (if SameKey(y, m, key) then [y] else []) + Ties(s, m, key)
  {
    assert ([y] + s)[0] == y && ([y] + s)[1..] == s;
  }

  /** Inserting `x` appends it to the entries with its key and leaves the
      order of every group of equal keys as it was. */
  lemma {:induction false} InsertTies(t: seq<Node>, x: Node, m: Node, key: SortKey, reverse: bool)
    requires IsSortedBy(t, key, reverse)
    ensures Ties(Insert(t, x, key, reverse), m, key) ==
            Ties(t, m, key) + (if SameKey(x, m, key) then [x] else [])
    decreases |t|
  {
    var own: seq<Node> := if SameKey(x, m, key) then [x] else [];
    if t == [] {
      TiesCons(x, [], m, key);
      assert Ties(t, m, key) + own == own;
    } else if Precedes(x, t[0], key, reverse) {
      assert Insert(t, x, key, reverse) == [x] + t;
      TiesCons(x, t, m, key);
      if SameKey(x, m, key) {
        TiesAfterFront(t, x, m, key, reverse);
        assert Ties(t, m, key) + own == own + Ties(t, m, key);
      } else {
        assert own + Ties(t, m, key) == Ties(t, m, key) + own;
      }
    } else {
      var rest := Insert(t[1..], x, key, reverse);
      assert Insert(t, x, key, reverse) == [t[0]] + rest;
      assert IsSortedBy(t[1..], key, reverse);
      InsertTies(t[1..], x, m, key, reverse);
      TiesBehindHead(t, rest, own, m, key);
    }
  }

  /** Putting the head of `t` back in front of a sequence whose tie group is
      that of the rest of `t` followed by `own` gives the tie group of `t`
      followed by `own`. */
  lemma TiesBehindHead(t: seq<Node>, rest: seq<Node>, own: seq<Node>, m: Node, key: SortKey)
    requires t != [] && Ties(rest, m, key) == Ties(t[1..], m, key) + own
    ensures Ties([t[0]] + rest, m, key) == Ties(t, m, key) + own
  {
    TiesCons(t[0], rest, m, key);
    var head: seq<Node> := if SameKey(t[0], m, key) then [t[0]] else [];
    assert Ties(t, m, key) == head + Ties(t[1..], m, key);
    assert head + (Ties(t[1..], m, key) + own) == (head + Ties(t[1..], m, key)) + own;
  }

  /** No entry of a sorted sequence shares the key of an entry that must
      precede its first. */
  lemma TiesAfterFront(t: seq<Node>, x: Node, m: Node, key: SortKey, reverse: bool)
    requires IsSortedBy(t, key, reverse) && t != []
    requires Precedes(x, t[0], key, reverse) && SameKey(x, m, key)
    ensures Ties(t, m, key) == []
  {
    forall j | 0 <= j < |t|
      ensures !SameKey(t[j], m, key)
    {
      PrecedesTrichotomy(x, t[0], key, reverse);
      PrecedesTrichotomy(x, t[j], key, reverse);
      if Precedes(t[j], x, key, reverse) {
        PrecedesTransitive(t[j], x, t[0], key, reverse);
      }
    }
    FilterNone(t, TiedWith(m, key));
  }

  /** Sorting is stable: within each group of equal keys the output keeps
      the input order. */
  lemma {:induction false} SortNodesStable(nodes: seq<Node>, m: Node, key: SortKey, reverse: bool)
    ensures Ties(SortNodes(nodes, key, reverse), m, key) == Ties(nodes, m, key)
    decreases |nodes|
  {
    if nodes != [] {
      var init, last := nodes[..|nodes| - 1], nodes[|nodes| - 1];
      assert nodes == init + [last];
      SortNodesStable(init, m, key, reverse);
      InsertTies(SortNodes(init, key, reverse), last, m, key, reverse);
      FilterAppend(init, [last], TiedWith(m, key));
      assert [last][1..] == [];
    }
  }

  /** An entry belongs to its own tie group. */
  lemma TiesOfHead(s: seq<Node>, key: SortKey)
    requires s != []
    ensures Ties(s, s[0], key) != []
  {
    TiesCons(s[0], s[1..], s[0], key);
    assert s == [s[0]] + s[1..];
  }

  /** Two sorted sequences with the same tie groups start with equal keys. */
  lemma SortedHeadsTie(r: seq<Node>, q: seq<Node>, key: SortKey, reverse: bool)
    requires r != [] && q != []
    requires IsSortedBy(r, key, reverse) && IsSortedBy(q, key, reverse)
    requires Ties(r, r[0], key) == Ties(q, r[0], key)
    requires Ties(r, q[0], key) == Ties(q, q[0], key)
    ensures SameKey(r[0], q[0], key)
  {
    var a, b := r[0], q[0];
    PrecedesTrichotomy(a, b, key, reverse);
    if Precedes(a, b, key, reverse) {
      TiesCons(a, r[1..], a, key);
      assert r == [a] + r[1..];
      assert a in Ties(q, a, key);
      FilterSelects(q, TiedWith(a, key));
      assert false;
    }
    if Precedes(b, a, key, reverse) {
      TiesCons(b, q[1..], b, key);
      assert q == [b] + q[1..];
      assert b in Ties(r, b, key);
      FilterSelects(r, TiedWith(b, key));
      assert false;
    }
  }

  /** A sorted sequence whose groups of equal keys are those of another
      sorted sequence is that sequence: the sorted order together with
      stability leaves exactly one result. */
  lemma {:induction false} SortedTiesDetermine(r: seq<Node>, q: seq<Node>, key: SortKey, reverse: bool)
    requires IsSortedBy(r, key, reverse) && IsSortedBy(q, key, reverse)
    requires forall m :: Ties(r, m, key) == Ties(q, m, key)
    ensures r == q
    decreases |r| + |q|
  {
    if r == [] || q == [] {
      var s := if r == [] then q else r;
      if s != [] {
        TiesOfHead(s, key);
      }
    } else {
      var a, b := r[0], q[0];
      assert Ties(r, a, key) == Ties(q, a, key);
      assert Ties(r, b, key) == Ties(q, b, key);
      SortedHeadsTie(r, q, key, reverse);
      assert r == [a] + r[1..] && q == [b] + q[1..];
      TiesCons(a, r[1..], a, key);
      TiesCons(b, q[1..], a, key);
      assert Ties(r, a, key)[0] == a && Ties(q, a, key)[0] == b;
      forall m
        ensures Ties(r[1..], m, key) == Ties(q[1..], m, key)
      {
        TiesCons(a, r[1..], m, key);
        TiesCons(b, q[1..], m, key);
        assert Ties(r, m, key) == Ties(q, m, key);
        if SameKey(a, m, key) {
          assert Ties(r, m, key)[1..] == Ties(r[1..], m, key);
          assert Ties(q, m, key)[1..] == Ties(q[1..], m, key);
        }
      }
      assert IsSortedBy(r[1..], key, reverse) && IsSortedBy(q[1..], key, reverse);
      SortedTiesDetermine(r[1..], q[1..], key, reverse);
    }
  }

  /** Leaving entries out of a sorted sequence keeps it sorted. */
  lemma {:induction false} SortedSubsequence(r: seq<Node>, s: seq<Node>, key: SortKey, reverse: bool)
    requires IsSubsequence(r, s) && IsSortedBy(s, key, reverse)
    ensures IsSortedBy(r, key, reverse)
    decreases |s|
  {
    if r != [] {
      assert IsSortedBy(s[1..], key, reverse);
      if r[0] == s[0] {
        SortedSubsequence(r[1..], s[1..], key, reverse);
        SubsequenceMembers(r[1..], s[1..]);
        forall j | 0 < j < |r|
          ensures !Precedes(r[j], r[0], key, reverse)
        {
          assert r[j] == r[1..][j - 1];
          assert r[j] in s[1..];
          var k :| 0 <= k < |s[1..]| && s[1..][k] == r[j];
          assert s[k + 1] == r[j];
        }
      } else {
        SortedSubsequence(r, s[1..], key, reverse);
      }
    }
  }

  /** Selecting entries and then sorting gives the same list as sorting
      and then selecting: a stable sort commutes with any selection. */
  lemma SortCommutesWithFilter(s: seq<Node>, p: Node -> bool, key: SortKey, reverse: bool)
    ensures SortNodes(Filter(s, p), key, reverse) == Filter(SortNodes(s, key, reverse), p)
  {
    var a, b := SortNodes(Filter(s, p), key, reverse), Filter(SortNodes(s, key, reverse), p);
    FilterSelects(SortNodes(s, key, reverse), p);
    SortedSubsequence(b, SortNodes(s, key, reverse), key, reverse);
    forall m
      ensures Ties(a, m, key) == Ties(b, m, key)
    {
      var q := TiedWith(m, key);
      SortNodesStable(Filter(s, p), m, key, reverse);
      SortNodesStable(s, m, key, reverse);
      FilterCommute(SortNodes(s, key, reverse), p, q);
      FilterCommute(s, p, q);
    }
    SortedTiesDetermine(a, b, key, reverse);
  }

  /** Descending order keeps equal keys in input order, so two entries
      with equal keys come out as they went in whichever the direction;
      reading the ascending result backwards would swap them. */
  lemma ReverseKeepsTieOrder(a: Node, b: Node, key: SortKey)
    requires SameKey(a, b, key)
    ensures SortNodes([a, b], key, true) == [a, b]
    ensures SortNodes([a, b], key, false) == [a, b]
  {
    PrecedesTrichotomy(b, a, key, true);
    PrecedesTrichotomy(b, a, key, false);
    assert [a, b][..1] == [a] && [a][..0] == [];
    assert SortNodes([a], key, true) == [a];
    assert SortNodes([a], key, false) == [a];
    assert Insert([a], b, key, true) == [a, b];
    assert Insert([a], b, key, false) == [a, b];
  }
}
