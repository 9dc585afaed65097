/** The bookkeeping objects of the shortest-path search: the per-vertex cell
    (domain/model/dijkstra/CellInfo.java), the priority-queue entry
    (domain/model/dijkstra/Node.java) and the two-level table of cells
    (domain/model/dijkstra/DijkstraTable.java). */
module Dijkstra {

  /** The best known duration to a vertex, the vertex it is reached from
      (-1 for none) and whether it is settled. */
  class CellInfo {
    var duration: real
    var predecessor: int
    var visited: bool

    constructor (duration: real, predecessor: int, visited: bool)
      ensures this.duration == duration && this.predecessor == predecessor && this.visited == visited
    {
      this.duration := duration;
      this.predecessor := predecessor;
      this.visited := visited;
    }

    method SetDuration(duration: real)
      modifies this
      ensures this.duration == duration
      ensures predecessor == old(predecessor) && visited == old(visited)
    {
      this.duration := duration;
    }

    method SetPredecessor(predecessor: int)
      modifies this
      ensures this.predecessor == predecessor
      ensures duration == old(duration) && visited == old(visited)
    {
      this.predecessor := predecessor;
    }

    method SetVisited(visited: bool)
      modifies this
      ensures this.visited == visited
      ensures duration == old(duration) && predecessor == old(predecessor)
    {
      this.visited := visited;
    }
  }

  /** `Double.compare` on durations: -1, 0 or 1. */
  function CompareDurations(a: real, b: real): (c: int)
    ensures c == -1 <==> a < b
    ensures c == 0 <==> a == b
    ensures c == 1 <==> a > b
  {
    if a < b then -1 else if a == b then 0 else 1
  }

  /** Swapping the operands flips the sign of the comparison, and the
      comparison is transitive: it is a total order on durations. */
  lemma CompareDurationsOrder(a: real, b: real, c: real)
    ensures CompareDurations(a, b) == -CompareDurations(b, a)
    ensures CompareDurations(a, b) <= 0 && CompareDurations(b, c) <= 0 ==> CompareDurations(a, c) <= 0
  {
  }

  /** A vertex with its tentative duration, ordered by that duration. */
  class Node {
    var vertex: int
    var duration: real

    constructor (v: int, d: real)
      ensures vertex == v && duration == d
    {
      vertex := v;
      duration := d;
    }

    method SetVertex(v: int)
      modifies this
      ensures vertex == v && duration == old(duration)
    {
      vertex := v;
    }

    method SetDuration(d: real)
      modifies this
      ensures duration == d && vertex == old(vertex)
    {
      duration := d;
    }

    /** Orders nodes by duration alone; the vertex plays no part. */
    function CompareTo(other: Node): (c: int)
      reads this, other
      ensures c == -1 <==> duration < other.duration
      ensures c == 0 <==> duration == other.duration
      ensures c == 1 <==> duration > other.duration
    {
      CompareDurations(duration, other.duration)
    }
  }

  /** The cell at (`row`, `col`), or null when there is none. */
  function At(table: map<int, map<int, CellInfo>>, row: int, col: int): CellInfo? {
    if row in table && col in table[row] then table[row][col] else null
  }

  class DijkstraTable {
    var table: map<int, map<int, CellInfo>>

    /** A row is dropped as soon as its last cell is removed. */
    ghost predicate Valid()
      reads this
    {
      forall row :: row in table ==> table[row] != map[]
    }

    constructor ()
      ensures table == map[] && Valid()
    {
      table := map[];
    }

    /** Stores a new cell built from the given values, replacing any cell
        already at (`row`, `col`). */
    method Put(row: int, col: int, duration: real, predecessor: int, visited: bool)
      requires Valid()
      modifies this
      ensures Valid()
      ensures At(table, row, col) != null && fresh(At(table, row, col))
      ensures At(table, row, col).duration == duration && At(table, row, col).predecessor == predecessor
      ensures At(table, row, col).visited == visited
      ensures forall r, c :: r != row || c != col ==> At(table, r, c) == At(old(table), r, c)
    {
      var cell := new CellInfo(duration, predecessor, visited);
      PutCell(row, col, cell);
    }

    /** Stores `cell` itself (not a copy) at (`row`, `col`), so later changes
        through `cell` are seen through the table. */
    method PutCell(row: int, col: int, cell: CellInfo)
      requires Valid()
      modifies this
      ensures Valid()
      ensures At(table, row, col) == cell
      ensures forall r, c :: r != row || c != col ==> At(table, r, c) == At(old(table), r, c)
    {
      var rowMap: map<int, CellInfo> := if row in table then table[row] else map[];
      assert col in rowMap[col := cell];
      table := table[row := rowMap[col := cell]];
    }

    /** The cell at (`row`, `col`), or null. */
    function Get(row: int, col: int): (cell: CellInfo?)
      reads this
      ensures cell != null <==> row in table && col in table[row]
      ensures cell != null ==> cell == table[row][col]
    {
      At(table, row, col)
    }

    /** Whether a cell is stored at (`row`, `col`). */
    function Contains(row: int, col: int): (b: bool)
      reads this
      ensures b <==> Get(row, col) != null
    {
      row in table && col in table[row]
    }

    /** Removes the cell at (`row`, `col`), dropping its row if it was the last one. */
    method Remove(row: int, col: int)
      requires Valid()
      modifies this
      ensures Valid()
      ensures At(table, row, col) == null
      ensures forall r, c :: r != row || c != col ==> At(table, r, c) == At(old(table), r, c)
      ensures row in old(table) && old(table)[row].Keys == {col} ==> row !in table
    {
      if row in table {
        var rowMap := table[row] - {col};
        assert forall c :: c in table[row] && c != col ==> c in rowMap;
        if rowMap == map[] {
          table := table - {row};
        } else {
          table := table[row := rowMap];
        }
      }
    }
  }
}
