/** The order in which the tour search tries the next vertex: the unvisited
    successors of the current vertex, cheapest first
    (domain/service/IteratorSeq.java). */
module Iterators {
  import opened Domain
  import opened Graphs

  /** The members of `nonVus` that are successors of `cur`, in their order,
      duplicates kept. */
  function Successors(g: Graph, nonVus: seq<int>, cur: int): seq<int> {
    if nonVus == [] then []
    else
      Successors(g, nonVus[..|nonVus| - 1], cur) +
      (if g.EstArc(cur, nonVus[|nonVus| - 1]) then [nonVus[|nonVus| - 1]] else [])
  }

  /** The sort key of candidate `s`: the cost of the arc that reaches it. */
  function Key(g: Graph, cur: int, s: int): Ext
    requires g.Valid()
  {
    g.Cout(cur, s)
  }

  /** Inserts `x` after every element whose key is not greater than its own. */
  function InsertByCost(g: Graph, cur: int, sorted: seq<int>, x: int): seq<int>
    requires g.Valid()
  {
    if sorted == [] then [x]
    else if Key(g, cur, x).Below(Key(g, cur, sorted[0])) then [x] + sorted
    else [sorted[0]] + InsertByCost(g, cur, sorted[1..], x)
  }

  /** `List.sort` with `Comparator.comparingDouble(cost)`: a stable sort by
      ascending key. */
  function SortByCost(g: Graph, cur: int, s: seq<int>): seq<int>
    requires g.Valid()
  {
    if s == [] then []
    else InsertByCost(g, cur, SortByCost(g, cur, s[..|s| - 1]), s[|s| - 1])
  }

  predicate SortedByCost(g: Graph, cur: int, s: seq<int>)
    requires g.Valid()
  {
    forall i, j :: 0 <= i < j < |s| ==> Key(g, cur, s[i]).AtMost(Key(g, cur, s[j]))
  }

  /** The elements of `s` whose key is `k`, in their order. */
  function WithKey(g: Graph, cur: int, s: seq<int>, k: Ext): seq<int>
    requires g.Valid()
  {
    if s == [] then []
    else WithKey(g, cur, s[..|s| - 1], k) + (if Key(g, cur, s[|s| - 1]) == k then [s[|s| - 1]] else [])
  }

  lemma {:induction false} SuccessorsIff(g: Graph, nonVus: seq<int>, cur: int, x: int)
    ensures x in Successors(g, nonVus, cur) <==> x in nonVus && g.EstArc(cur, x)
  {
    if nonVus != [] {
      var init := nonVus[..|nonVus| - 1];
      assert nonVus == init + [nonVus[|nonVus| - 1]];
      SuccessorsIff(g, init, cur, x);
    }
  }

  /** The candidate list never offers the current vertex itself. */
  lemma SuccessorsExcludeCurrent(g: Graph, nonVus: seq<int>, cur: int)
    ensures cur !in Successors(g, nonVus, cur)
  {
    SuccessorsIff(g, nonVus, cur, cur);
  }

  lemma {:induction false} InsertByCostPermutes(g: Graph, cur: int, sorted: seq<int>, x: int)
    requires g.Valid()
    ensures multiset(InsertByCost(g, cur, sorted, x)) == multiset(sorted) + multiset{x}
  {
    if sorted != [] && !Key(g, cur, x).Below(Key(g, cur, sorted[0])) {
      assert sorted == [sorted[0]] + sorted[1..];
      InsertByCostPermutes(g, cur, sorted[1..], x);
    }
  }

  lemma {:induction false} InsertByCostSorted(g: Graph, cur: int, sorted: seq<int>, x: int)
    requires g.Valid() && SortedByCost(g, cur, sorted)
    ensures SortedByCost(g, cur, InsertByCost(g, cur, sorted, x))
  {
    if sorted != [] && !Key(g, cur, x).Below(Key(g, cur, sorted[0])) {
      var rest := InsertByCost(g, cur, sorted[1..], x);
      InsertByCostSorted(g, cur, sorted[1..], x);
      InsertByCostPermutes(g, cur, sorted[1..], x);
      var r := [sorted[0]] + rest;
      forall i, j | 0 <= i < j < |r|
        ensures Key(g, cur, r[i]).AtMost(Key(g, cur, r[j]))
      {
        if i == 0 {
          assert r[j] in multiset(rest);
          assert r[j] == x || r[j] in multiset(sorted[1..]);
        }
      }
    }
  }

  lemma {:induction false} InsertByCostWithKey(g: Graph, cur: int, sorted: seq<int>, x: int, k: Ext)
    requires g.Valid() && SortedByCost(g, cur, sorted)
    ensures WithKey(g, cur, InsertByCost(g, cur, sorted, x), k) ==
            WithKey(g, cur, sorted, k) + (if Key(g, cur, x) == k then [x] else [])
  {
    if sorted == [] {
      assert WithKey(g, cur, [x], k) == WithKey(g, cur, [], k) + (if Key(g, cur, x) == k then [x] else []);
    } else if Key(g, cur, x).Below(Key(g, cur, sorted[0])) {
      WithKeyCons(g, cur, x, sorted, k);
      if Key(g, cur, x) == k {
        WithKeyAbove(g, cur, sorted, k);
      }
    } else {
      var tl := sorted[1..];
      assert sorted == [sorted[0]] + tl;
      assert SortedByCost(g, cur, tl) by {
        forall i, j | 0 <= i < j < |tl| ensures Key(g, cur, tl[i]).AtMost(Key(g, cur, tl[j])) {
          assert tl[i] == sorted[i + 1] && tl[j] == sorted[j + 1];
        }
      }
      InsertByCostWithKey(g, cur, tl, x, k);
      WithKeyBehindHead(g, cur, sorted[0], tl, InsertByCost(g, cur, tl, x), if Key(g, cur, x) == k then [x] else [], k);
    }
  }

  /** What filtering by key adds behind a leading element survives putting
      that element back in front. */
  lemma WithKeyBehindHead(g: Graph, cur: int, y: int, s: seq<int>, t: seq<int>, extra: seq<int>, k: Ext)
    requires g.Valid() && WithKey(g, cur, t, k) == WithKey(g, cur, s, k) + extra
    ensures WithKey(g, cur, [y] + t, k) == WithKey(g, cur, [y] + s, k) + extra
  {
    var head := if Key(g, cur, y) == k then [y] else [];
    calc {
      WithKey(g, cur, [y] + t, k);
    == { WithKeyCons(g, cur, y, t, k); }
      head + WithKey(g, cur, t, k);
    ==
      head + (WithKey(g, cur, s, k) + extra);
    ==
      (head + WithKey(g, cur, s, k)) + extra;
    == { WithKeyCons(g, cur, y, s, k); }
      WithKey(g, cur, [y] + s, k) + extra;
    }
  }

  /** Filtering by key distributes over a leading element. */
  lemma {:induction false} WithKeyCons(g: Graph, cur: int, y: int, s: seq<int>, k: Ext)
    requires g.Valid()
    ensures WithKey(g, cur, [y] + s, k) == (if Key(g, cur, y) == k then [y] else []) + WithKey(g, cur, s, k)
  {
    if s == [] {
      assert [y] + s == [y];
      assert [y][..0] == [];
    } else {
      var init := s[..|s| - 1];
      assert ([y] + s)[..|[y] + s| - 1] == [y] + init;
      WithKeyCons(g, cur, y, init, k);
    }
  }

  /** In a sorted list whose first key is above `k`, no element has key `k`. */
  lemma {:induction false} WithKeyAbove(g: Graph, cur: int, s: seq<int>, k: Ext)
    requires g.Valid() && SortedByCost(g, cur, s) && |s| > 0 && k.Below(Key(g, cur, s[0]))
    ensures WithKey(g, cur, s, k) == []
  {
    var init := s[..|s| - 1];
    if |init| > 0 {
      assert init[0] == s[0];
      WithKeyAbove(g, cur, init, k);
    }
    assert Key(g, cur, s[0]).AtMost(Key(g, cur, s[|s| - 1]));
  }

  /** `SortByCost` is a sorted permutation of its input... */
  lemma {:induction false} SortByCostSortedPermutation(g: Graph, cur: int, s: seq<int>)
    requires g.Valid()
    ensures SortedByCost(g, cur, SortByCost(g, cur, s))
    ensures multiset(SortByCost(g, cur, s)) == multiset(s)
    ensures forall k :: WithKey(g, cur, SortByCost(g, cur, s), k) == WithKey(g, cur, s, k)
  {
    if s != [] {
      var init := s[..|s| - 1];
      SortByCostSortedPermutation(g, cur, init);
      InsertByCostSorted(g, cur, SortByCost(g, cur, init), s[|s| - 1]);
      InsertByCostPermutes(g, cur, SortByCost(g, cur, init), s[|s| - 1]);
      forall k
        ensures WithKey(g, cur, SortByCost(g, cur, s), k) == WithKey(g, cur, s, k)
      {
        InsertByCostWithKey(g, cur, SortByCost(g, cur, init), s[|s| - 1], k);
      }
      assert s == init + [s[|s| - 1]];
    }
  }

  /** ...and it is stable: the elements of equal cost keep their input order. */
  lemma SortByCostStable(g: Graph, cur: int, s: seq<int>, k: Ext)
    requires g.Valid()
    ensures WithKey(g, cur, SortByCost(g, cur, s), k) == WithKey(g, cur, s, k)
  {
    SortByCostSortedPermutation(g, cur, s);
  }

  /** The iterator offers exactly the unvisited successors of `cur`. */
  lemma CandidatesIff(g: Graph, nonVus: seq<int>, cur: int, x: int)
    requires g.Valid()
    ensures x in SortByCost(g, cur, Successors(g, nonVus, cur)) <==> x in nonVus && g.EstArc(cur, x)
  {
    var succ := Successors(g, nonVus, cur);
    SortByCostSortedPermutation(g, cur, succ);
    SuccessorsIff(g, nonVus, cur, x);
    assert x in SortByCost(g, cur, succ) <==> x in multiset(SortByCost(g, cur, succ));
    assert x in succ <==> x in multiset(succ);
  }

  class IteratorSeq {
    /** The candidates, fixed when the iterator is built. */
    const candidats: seq<int>
    /** How many candidates have been handed out. */
    var cursor: nat

    /** Keeps the successors of `sommetCrt` among `nonVus`, then sorts them
        by the cost of reaching them, cheapest first. */
    constructor (nonVus: seq<int>, sommetCrt: int, g: Graph)
      requires g.Valid()
      ensures candidats == SortByCost(g, sommetCrt, Successors(g, nonVus, sommetCrt))
      ensures cursor == 0
    {
      var found := [];
      var i := 0;
      while i < |nonVus|
        invariant 0 <= i <= |nonVus|
        invariant found == Successors(g, nonVus[..i], sommetCrt)
      {
        assert nonVus[..i + 1][..i] == nonVus[..i];
        if g.EstArc(sommetCrt, nonVus[i]) {
          found := found + [nonVus[i]];
        }
        i := i + 1;
      }
      assert nonVus[..i] == nonVus;
      candidats := SortByCost(g, sommetCrt, found);
      cursor := 0;
    }

    function HasNext(): (b: bool)
      reads this
      ensures b <==> cursor < |candidats|
    {
      cursor < |candidats|
    }

    method Next() returns (x: int)
      requires HasNext()
      modifies this
      ensures x == candidats[old(cursor)] && cursor == old(cursor) + 1
    {
      x := candidats[cursor];
      cursor := cursor + 1;
    }

    /** Removal is not supported and does nothing. */
    method Remove()
      modifies this
      ensures cursor == old(cursor)
    {
    }
  }
}
