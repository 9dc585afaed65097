/** The complete graph the tour solver works on: vertices 0..n-1 with a cost
    for every ordered pair (domain/model/GrapheComplet.java). */
module Graphs {
  import opened Domain

  /** The solver's read-only view of a graph: `n` vertices and the n-by-n
      cost matrix, `Inf` where no cost was set. */
  datatype Graph = Graph(n: nat, cost: seq<seq<Ext>>) {

    predicate Valid() {
      |cost| == n && forall i :: 0 <= i < n ==> |cost[i]| == n
    }

    /** `getCout`: the cost of going from `i` to `j`, and -1 when either
        vertex is out of range. */
    function Cout(i: int, j: int): Ext
      requires Valid()
    {
      if 0 <= i < n && 0 <= j < n then cost[i][j] else Fin(-1.0)
    }

    /** `estArc`: every ordered pair of distinct vertices is an arc. */
    predicate EstArc(i: int, j: int) {
      0 <= i < n && 0 <= j < n && i != j
    }
  }

  /** `Arrays.copyOf(s, n)`: the first `n` entries of `s`, padded with zeros. */
  function CopyOf(s: seq<int>, n: nat): (r: seq<int>)
    ensures |r| == n
    ensures forall i :: 0 <= i < n ==> r[i] == if i < |s| then s[i] else 0
  {
    seq(n, i requires 0 <= i < n => if i < |s| then s[i] else 0)
  }

  class GrapheComplet {
    /** The intersection ids of the vertices, by position; null when the
        graph was built from a vertex count alone. */
    var sommets: Option<seq<int>>
    const nbSommets: nat
    const cout: array2<Ext>

    ghost predicate Valid()
      reads this
    {
      cout.Length0 == nbSommets && cout.Length1 == nbSommets
    }

    /** Every cost starts as "none". */
    ghost predicate AllUnset()
      reads this, cout
    {
      forall i, j :: 0 <= i < cout.Length0 && 0 <= j < cout.Length1 ==> cout[i, j] == Inf
    }

    constructor (nbSommets: nat)
      ensures Valid() && fresh(cout)
      ensures this.nbSommets == nbSommets && sommets == None
      ensures AllUnset()
    {
      this.nbSommets := nbSommets;
      sommets := None;
      cout := new Ext[nbSommets, nbSommets];
      new;
      FillUnset();
    }

    /** Builds the graph over the given vertex ids, truncated or zero-padded
        to `nbSommets` entries. */
    constructor WithVertices(sommets: seq<int>, nbSommets: nat)
      ensures Valid() && fresh(cout)
      ensures this.nbSommets == nbSommets && this.sommets == Some(CopyOf(sommets, nbSommets))
      ensures AllUnset()
    {
      this.sommets := Some(CopyOf(sommets, nbSommets));
      this.nbSommets := nbSommets;
      cout := new Ext[nbSommets, nbSommets];
      new;
      FillUnset();
    }

    /** Fills every row of the matrix with the "no cost" value. */
    method FillUnset()
      requires Valid()
      modifies cout
      ensures AllUnset()
    {
      var i := 0;
      while i < nbSommets
        invariant 0 <= i <= nbSommets
        invariant forall r, c :: 0 <= r < i && 0 <= c < nbSommets ==> cout[r, c] == Inf
      {
        var j := 0;
        while j < nbSommets
          invariant 0 <= j <= nbSommets
          invariant forall r, c :: 0 <= r < i && 0 <= c < nbSommets ==> cout[r, c] == Inf
          invariant forall c :: 0 <= c < j ==> cout[i, c] == Inf
        {
          cout[i, j] := Inf;
          j := j + 1;
        }
        i := i + 1;
      }
    }

    function GetNbSommets(): (n: nat)
      reads this
      ensures Valid() ==> n == cout.Length0
    {
      nbSommets
    }

    /** The stored cost, or -1 when a vertex is out of range. */
    function GetCout(i: int, j: int): (c: Ext)
      requires Valid()
      reads this, cout
      ensures c == View().Cout(i, j)
      ensures !(0 <= i < nbSommets && 0 <= j < nbSommets) ==> c == Fin(-1.0)
    {
      if i < 0 || i >= nbSommets || j < 0 || j >= nbSommets then Fin(-1.0) else cout[i, j]
    }

    /** Overwrites one cost; the source does no bounds check, so the indices
        must be in range. */
    method SetCout(i: int, j: int, newVal: Ext)
      requires Valid()
      requires 0 <= i < nbSommets && 0 <= j < nbSommets
      modifies cout
      ensures GetCout(i, j) == newVal
      ensures forall r, c :: (r != i || c != j) ==> GetCout(r, c) == old(GetCout(r, c))
    {
      cout[i, j] := newVal;
    }

    /** An arc joins any two distinct vertices in range, whatever the costs. */
    predicate EstArc(i: int, j: int)
      reads this
    {
      !(i < 0 || i >= nbSommets || j < 0 || j >= nbSommets) && i != j
    }

    /** The graph's current content as a value. */
    function View(): (g: Graph)
      requires Valid()
      reads this, cout
      ensures g.Valid() && g.n == nbSommets
      ensures forall i, j :: 0 <= i < nbSommets && 0 <= j < nbSommets ==> g.cost[i][j] == cout[i, j]
      ensures forall i, j :: g.EstArc(i, j) <==> EstArc(i, j)
    {
      Graph(nbSommets, seq(nbSommets, i requires 0 <= i < nbSommets reads cout =>
                             seq(nbSommets, j requires 0 <= j < nbSommets reads cout => cout[i, j])))
    }
  }
}
