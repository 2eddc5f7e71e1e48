/** Weight matrices, walks through them and the total weight of a walk.
    A matrix cell holds the weight of the undirected edge between two nodes,
    and the value 0 stands for "no edge". */
module Paths {

  type Matrix = seq<seq<int>>

  /** The weight stored in row i, column j; outside the matrix there is no edge. */
  function Cell(m: Matrix, i: nat, j: nat): int {
    if i < |m| && j < |m[i]| then m[i][j] else 0
  }

  /** m has n rows of n cells each. */
  ghost predicate Square(m: Matrix, n: nat) {
    |m| == n && forall i :: 0 <= i < n ==> |m[i]| == n
  }

  ghost predicate Symmetric(m: Matrix) {
    forall i: nat, j: nat :: i < |m| && j < |m| ==> Cell(m, i, j) == Cell(m, j, i)
  }

  ghost predicate NonNegative(m: Matrix) {
    forall i, j :: 0 <= i < |m| && 0 <= j < |m[i]| ==> m[i][j] >= 0
  }

  /** p is a non-empty sequence of nodes of m, each joined to the next by an edge. */
  ghost predicate IsWalk(m: Matrix, p: seq<nat>) {
    && |p| >= 1
    && (forall k :: 0 <= k < |p| ==> p[k] < |m|)
    && (forall k :: 0 <= k < |p| - 1 ==> Cell(m, p[k], p[k + 1]) != 0)
  }

  ghost predicate IsPathBetween(m: Matrix, p: seq<nat>, s: nat, t: nat) {
    IsWalk(m, p) && p[0] == s && p[|p| - 1] == t
  }

  ghost predicate Reachable(m: Matrix, s: nat, t: nat) {
    exists p :: IsPathBetween(m, p, s, t)
  }

  /** p runs from s to t and no walk from s to t weighs less. */
  ghost predicate IsShortestPath(m: Matrix, p: seq<nat>, s: nat, t: nat) {
    && IsPathBetween(m, p, s, t)
    && forall q :: IsPathBetween(m, q, s, t) ==> Weight(m, p) <= Weight(m, q)
  }

  /** The sum of the weights of the edges along p. */
  function Weight(m: Matrix, p: seq<nat>): int
    decreases |p|
  {
    if |p| < 2 then 0 else Cell(m, p[0], p[1]) + Weight(m, p[1..])
  }

  lemma {:induction false} WeightNonNegative(m: Matrix, p: seq<nat>)
    requires NonNegative(m)
    ensures Weight(m, p) >= 0
    decreases |p|
  {
    if |p| >= 2 {
      WeightNonNegative(m, p[1..]);
    }
  }

  /** Cutting a walk at position k: the part up to k and the part from k weigh the whole. */
  lemma {:induction false} WeightSplit(m: Matrix, p: seq<nat>, k: nat)
    requires k < |p|
    ensures Weight(m, p) == Weight(m, p[..k + 1]) + Weight(m, p[k..])
    decreases k
  {
    if k == 0 {
      assert p[0..] == p;
    } else {
      WeightSplit(m, p[1..], k - 1);
      assert p[1..][..k] == p[..k + 1][1..];
      assert p[1..][k - 1..] == p[k..];
    }
  }

  /** A walk extended at its front by one more edge. */
  lemma WalkPrepend(m: Matrix, x: nat, q: seq<nat>)
    requires IsWalk(m, q) && x < |m| && Cell(m, x, q[0]) != 0
    ensures IsWalk(m, [x] + q)
    ensures Weight(m, [x] + q) == Cell(m, x, q[0]) + Weight(m, q)
  {
  }

  /** The first k+1 nodes of a walk form a walk. */
  lemma WalkPrefix(m: Matrix, p: seq<nat>, k: nat)
    requires IsWalk(m, p) && k < |p|
    ensures IsPathBetween(m, p[..k + 1], p[0], p[k])
  {
  }

  /** A walk that starts inside a set of nodes and ends outside it crosses an edge
      from inside to outside somewhere. */
  lemma CrossingEdge(p: seq<nat>, inside: seq<bool>) returns (k: nat)
    requires |p| >= 1 && forall i :: 0 <= i < |p| ==> p[i] < |inside|
    requires inside[p[0]] && !inside[p[|p| - 1]]
    ensures 0 < k < |p| && inside[p[k - 1]] && !inside[p[k]]
  {
    k := 1;
    while inside[p[k]]
      invariant 1 <= k < |p| && inside[p[k - 1]]
      decreases |p| - k
    {
      k := k + 1;
    }
  }
}
