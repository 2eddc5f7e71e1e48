/** The graph store: named nodes, indexed by insertion order, and a dense
    symmetric weight matrix in which 0 means "no edge". */
module GraphStore {
  import opened Paths
  import opened Dijkstra

  /** The position of the first node called name, or -1 when there is none. */
  function IndexOf(names: seq<string>, name: string): (r: int)
    ensures -1 <= r < |names|
    ensures r == -1 <==> name !in names
    ensures r != -1 ==> names[r] == name && forall k :: 0 <= k < r ==> names[k] != name
  {
    if names == [] then -1
    else if names[0] == name then 0
    else
      var rest := IndexOf(names[1..], name);
      assert name in names <==> name in names[1..];
      if rest == -1 then -1 else rest + 1
  }

  /** A row resized to n cells: cut short, or padded with zeros (no edge). */
  function Resized(row: seq<int>, n: nat): (r: seq<int>)
    ensures |r| == n
    ensures forall k :: 0 <= k < n ==> r[k] == if k < |row| then row[k] else 0
  {
    if n <= |row| then row[..n] else row + seq(n - |row|, _ => 0)
  }

  /** The matrix after one more node: one more row, and every row resized to the new count. */
  function WithNewNode(m: Matrix): (r: Matrix)
    ensures |r| == |m| + 1 && forall i :: 0 <= i < |r| ==> |r[i]| == |m| + 1
    ensures forall i: nat, j: nat :: i <= |m| && j <= |m| ==> r[i][j] == Cell(m, i, j)
  {
    var grown := seq(|m| + 1, i requires 0 <= i <= |m| => Resized(if i < |m| then m[i] else [], |m| + 1));
    assert forall i :: 0 <= i <= |m| ==> grown[i] == Resized(if i < |m| then m[i] else [], |m| + 1);
    grown
  }

  /** The matrix after writing weight w at (f, t) and at (t, f). */
  function WithEdge(m: Matrix, f: nat, t: nat, w: int): (r: Matrix)
    requires Square(m, |m|) && f < |m| && t < |m|
    ensures Square(r, |m|)
    ensures r[f][t] == w && r[t][f] == w
    ensures forall i, j :: 0 <= i < |m| && 0 <= j < |m| && !(i == f && j == t) && !(i == t && j == f) ==>
      r[i][j] == m[i][j]
  {
    var once := m[f := m[f][t := w]];
    once[t := once[t][f := w]]
  }

  /** Adding a node keeps every cell, makes the new row and column empty, and keeps
      the matrix square, symmetric and free of negative weights. */
  lemma NewNodeCells(m: Matrix, n: nat)
    requires Square(m, n)
    ensures Square(WithNewNode(m), n + 1)
    ensures forall i, j :: 0 <= i < n && 0 <= j < n ==> WithNewNode(m)[i][j] == m[i][j]
    ensures forall k :: 0 <= k <= n ==> WithNewNode(m)[n][k] == 0 && WithNewNode(m)[k][n] == 0
    ensures Symmetric(m) ==> Symmetric(WithNewNode(m))
    ensures NonNegative(m) ==> NonNegative(WithNewNode(m))
  {
  }

  /** Setting an edge writes exactly the two mirrored cells; the matrix stays
      square, symmetric, and free of negative weights when w is not negative. */
  lemma EdgeCells(m: Matrix, f: nat, t: nat, w: int)
    requires Square(m, |m|) && f < |m| && t < |m|
    ensures Square(WithEdge(m, f, t, w), |m|)
    ensures WithEdge(m, f, t, w)[f][t] == w && WithEdge(m, f, t, w)[t][f] == w
    ensures forall i, j :: 0 <= i < |m| && 0 <= j < |m| && !(i == f && j == t) && !(i == t && j == f) ==>
      WithEdge(m, f, t, w)[i][j] == m[i][j]
    ensures Symmetric(m) ==> Symmetric(WithEdge(m, f, t, w))
    ensures NonNegative(m) && w >= 0 ==> NonNegative(WithEdge(m, f, t, w))
  {
    var r := WithEdge(m, f, t, w);
    if Symmetric(m) {
      forall i: nat, j: nat | i < |m| && j < |m| ensures Cell(r, i, j) == Cell(r, j, i) {
        assert Cell(m, i, j) == Cell(m, j, i);
      }
    }
  }

  class Graph {
    var nodes: seq<string>
    var matrix: Matrix

    ghost predicate Valid()
      reads this
    {
      Square(matrix, |nodes|) && Symmetric(matrix) && NonNegative(matrix)
    }

    constructor ()
      ensures Valid() && nodes == [] && matrix == []
    {
      nodes, matrix := [], [];
    }

    /** Appends a node and grows the matrix by one empty row and column. */
    method AddNode(name: string)
      requires Valid()
      modifies this
      ensures Valid()
      ensures nodes == old(nodes) + [name]
      ensures matrix == WithNewNode(old(matrix))
    {
      NewNodeCells(matrix, |nodes|);
      ghost var before := matrix;
      nodes := nodes + [name];
      var n := |nodes|;
      matrix := matrix + [[]];
      for i := 0 to n
        invariant nodes == old(nodes) + [name] && |matrix| == n
        invariant forall k :: 0 <= k < i ==> matrix[k] == WithNewNode(before)[k]
        invariant forall k :: i <= k < n ==> matrix[k] == (before + [[]])[k]
      {
        matrix := matrix[i := Resized(matrix[i], n)];
      }
      assert matrix == WithNewNode(before);
    }

    /** Linear scan for the first node called name; -1 when there is none. */
    method GetNodeIndex(name: string) returns (index: int)
      ensures index == IndexOf(nodes, name)
    {
      for i := 0 to |nodes|
        invariant forall k :: 0 <= k < i ==> nodes[k] != name
      {
        if nodes[i] == name {
          return i;
        }
      }
      return -1;
    }

    /** Sets the weight of the undirected edge between two named nodes; reports
        false, changing nothing, when either name is unknown. */
    method AddEdge(from: string, to: string, weight: int) returns (found: bool)
      requires Valid() && weight >= 0
      modifies this
      ensures Valid() && nodes == old(nodes)
      ensures found <==> from in nodes && to in nodes
      ensures found ==> matrix == WithEdge(old(matrix), IndexOf(nodes, from), IndexOf(nodes, to), weight)
      ensures !found ==> matrix == old(matrix)
    {
      var fromIndex := GetNodeIndex(from);
      var toIndex := GetNodeIndex(to);
      if fromIndex == -1 || toIndex == -1 {
        return false;
      }
      EdgeCells(matrix, fromIndex, toIndex, weight);
      matrix := matrix[fromIndex := matrix[fromIndex][toIndex := weight]];
      matrix := matrix[toIndex := matrix[toIndex][fromIndex := weight]];
      return true;
    }

    /** A lightest path between two named nodes, "path not found" when there is
        none, "node not found" when either name is unknown. */
    method Find(from: string, to: string) returns (r: Outcome)
      requires Valid()
      ensures r.NodeNotFound? <==> from !in nodes || to !in nodes
      ensures from in nodes && to in nodes ==>
        var s, t := IndexOf(nodes, from), IndexOf(nodes, to);
        && (r.PathNotFound? <==> !Reachable(matrix, s, t))
        && (r.Found? ==> IsShortestPath(matrix, r.path, s, t) && Weight(matrix, r.path) == r.dist)
        && (s == t ==> r == Found([s], 0))
    {
      var fromIndex := GetNodeIndex(from);
      var toIndex := GetNodeIndex(to);
      if fromIndex == -1 || toIndex == -1 {
        return NodeNotFound;
      }
      r := Search(matrix, fromIndex, toIndex);
    }
  }
}
