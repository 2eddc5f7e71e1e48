/** The shortest-path engine: Dijkstra's algorithm over a dense weight matrix,
    with a linear scan for the closest unvisited node in every round. */
module Dijkstra {
  import opened Paths

  /** A tentative distance; Inf stands for the program's INT32_MAX sentinel. */
  datatype Dist = Inf | Fin(value: nat)

  /** a is strictly smaller than b; nothing is smaller than Inf, Inf is smaller than nothing. */
  predicate Below(a: Dist, b: Dist) {
    a.Fin? && (b.Inf? || a.value < b.value)
  }

  /** What a path query reports. */
  datatype Outcome = NodeNotFound | PathNotFound | Found(path: seq<nat>, dist: nat)

  function Reversed(s: seq<nat>): (r: seq<nat>)
    ensures |r| == |s| && forall k :: 0 <= k < |s| ==> r[k] == s[|s| - 1 - k]
  {
    if s == [] then [] else [s[|s| - 1]] + Reversed(s[..|s| - 1])
  }

  /** The number of visited nodes. */
  function CountTrue(b: seq<bool>): (c: nat)
    ensures c <= |b|
  {
    if b == [] then 0 else (if b[0] then 1 else 0) + CountTrue(b[1..])
  }

  lemma {:induction false} CountMark(b: seq<bool>, u: nat)
    requires u < |b| && !b[u]
    ensures CountTrue(b[u := true]) == CountTrue(b) + 1
    decreases |b|
  {
    if u == 0 {
      assert b[u := true][1..] == b[1..];
    } else {
      CountMark(b[1..], u - 1);
      assert b[u := true][1..] == b[1..][u - 1 := true];
    }
  }

  lemma {:induction false} CountNone(b: seq<bool>)
    requires forall k :: 0 <= k < |b| ==> !b[k]
    ensures CountTrue(b) == 0
    decreases |b|
  {
    if b != [] {
      CountNone(b[1..]);
    }
  }

  lemma {:induction false} CountFull(b: seq<bool>)
    requires CountTrue(b) == |b|
    ensures forall k :: 0 <= k < |b| ==> b[k]
    decreases |b|
  {
    if b != [] {
      assert CountTrue(b[1..]) <= |b| - 1;
      CountFull(b[1..]);
      forall k | 0 <= k < |b| ensures b[k] {
        if k > 0 {
          assert b[k] == b[1..][k - 1];
        }
      }
    }
  }

  // ---------------------------------------------------------------------
  // The state of one run: distance, visited and prev, one entry per node.

  ghost predicate Shaped(m: Matrix, dist: seq<Dist>, visited: seq<bool>, prev: seq<int>) {
    Square(m, |m|) && |dist| == |m| && |visited| == |m| && |prev| == |m|
  }

  /** Every prev link goes one edge back to a node whose distance is smaller by
      exactly that edge's weight; the source and unreached nodes have no link. */
  ghost predicate Links(m: Matrix, s: nat, dist: seq<Dist>, prev: seq<int>)
    requires |dist| == |m| && |prev| == |m|
  {
    forall v :: 0 <= v < |m| ==>
      if dist[v].Inf? || v == s then prev[v] == -1
      else
        && 0 <= prev[v] < |m|
        && Cell(m, prev[v], v) != 0
        && dist[prev[v]].Fin?
        && dist[v].value == dist[prev[v]].value + Cell(m, prev[v], v)
  }

  /** prev only ever names visited nodes. */
  ghost predicate PrevVisited(visited: seq<bool>, prev: seq<int>)
    requires |prev| == |visited|
  {
    forall v :: 0 <= v < |prev| && prev[v] != -1 ==> 0 <= prev[v] < |visited| && visited[prev[v]]
  }

  ghost predicate VisitedFinite(dist: seq<Dist>, visited: seq<bool>)
    requires |dist| == |visited|
  {
    forall v :: 0 <= v < |dist| && visited[v] ==> dist[v].Fin?
  }

  /** The distance of a visited node is final: no walk from the source is lighter. */
  ghost predicate VisitedOptimal(m: Matrix, s: nat, dist: seq<Dist>, visited: seq<bool>)
    requires |dist| == |m| && |visited| == |m|
  {
    forall v, p :: 0 <= v < |m| && visited[v] && IsPathBetween(m, p, s, v) ==>
      dist[v].Fin? && dist[v].value <= Weight(m, p)
  }

  /** Every edge from a visited node to an unvisited one has been relaxed. */
  ghost predicate FrontierRelaxed(m: Matrix, dist: seq<Dist>, visited: seq<bool>)
    requires |dist| == |m| && |visited| == |m|
  {
    forall u, v :: 0 <= u < |m| && 0 <= v < |m| && visited[u] && !visited[v] && Cell(m, u, v) != 0 ==>
      dist[u].Fin? && dist[v].Fin? && dist[v].value <= dist[u].value + Cell(m, u, v)
  }

  /** Visited nodes are no farther than any unvisited node with a finite distance. */
  ghost predicate VisitedFirst(dist: seq<Dist>, visited: seq<bool>)
    requires |dist| == |visited|
  {
    forall u, v :: 0 <= u < |dist| && 0 <= v < |dist| && visited[u] && !visited[v] && dist[v].Fin? ==>
      dist[u].Fin? && dist[u].value <= dist[v].value
  }

  ghost predicate Inv(m: Matrix, s: nat, dist: seq<Dist>, visited: seq<bool>, prev: seq<int>) {
    && Shaped(m, dist, visited, prev)
    && s < |m| && dist[s] == Fin(0) && prev[s] == -1
    && Links(m, s, dist, prev)
    && PrevVisited(visited, prev)
    && VisitedFinite(dist, visited)
    && VisitedOptimal(m, s, dist, visited)
    && FrontierRelaxed(m, dist, visited)
    && VisitedFirst(dist, visited)
  }

  /** u is unvisited, has a finite distance, and no unvisited node is closer. */
  ghost predicate Selected(dist: seq<Dist>, visited: seq<bool>, u: nat)
    requires |dist| == |visited|
  {
    && u < |dist| && !visited[u] && dist[u].Fin?
    && forall v :: 0 <= v < |dist| && !visited[v] && dist[v].Fin? ==> dist[u].value <= dist[v].value
  }

  /** Going through u improves the distance of j. */
  ghost predicate Improves(m: Matrix, u: nat, dist: seq<Dist>, j: nat) {
    && u < |dist| && j < |dist| && dist[u].Fin? && Cell(m, u, j) != 0
    && (dist[j].Inf? || dist[u].value + Cell(m, u, j) < dist[j].value)
  }

  /** newDist and newPrev are dist and prev after relaxing every edge out of u. */
  ghost predicate Relaxed(m: Matrix, u: nat, dist: seq<Dist>, prev: seq<int>, newDist: seq<Dist>, newPrev: seq<int>)
    requires |dist| == |m| && |prev| == |m| && |newDist| == |m| && |newPrev| == |m|
    requires u < |m| && dist[u].Fin?
  {
    forall j :: 0 <= j < |m| ==>
      if Improves(m, u, dist, j) then
        newDist[j].Fin? && newDist[j].value == dist[u].value + Cell(m, u, j) && newPrev[j] == u
      else
        newDist[j] == dist[j] && newPrev[j] == prev[j]
  }

  // ---------------------------------------------------------------------
  // The three loops of the search.

  /** The linear scan for the closest unvisited node; -1 when every unvisited
      node is unreachable. Ties go to the lowest index. */
  method SelectMin(dist: seq<Dist>, visited: seq<bool>) returns (u: int)
    requires |dist| == |visited|
    ensures -1 <= u < |dist|
    ensures u == -1 <==> forall v :: 0 <= v < |dist| && !visited[v] ==> dist[v].Inf?
    ensures u != -1 ==> Selected(dist, visited, u)
    ensures u != -1 ==> forall v :: 0 <= v < u && !visited[v] && dist[v].Fin? ==> dist[u].value < dist[v].value
  {
    u := -1;
    var best := Inf;
    for j := 0 to |dist|
      invariant -1 <= u < j
      invariant u == -1 ==> best.Inf? && forall v :: 0 <= v < j && !visited[v] ==> dist[v].Inf?
      invariant u != -1 ==> !visited[u] && dist[u] == best && best.Fin?
      invariant u != -1 ==> forall v :: 0 <= v < j && !visited[v] && dist[v].Fin? ==> best.value <= dist[v].value
      invariant u != -1 ==> forall v :: 0 <= v < u && !visited[v] && dist[v].Fin? ==> best.value < dist[v].value
    {
      if !visited[j] && Below(dist[j], best) {
        u, best := j, dist[j];
      }
    }
  }

  /** Relaxes every edge out of u. No distance grows, and prev[j] becomes u
      exactly where the distance of j improves. */
  method Relax(m: Matrix, u: nat, dist: seq<Dist>, prev: seq<int>) returns (newDist: seq<Dist>, newPrev: seq<int>)
    requires Square(m, |m|) && NonNegative(m)
    requires |dist| == |m| && |prev| == |m| && u < |m| && dist[u].Fin?
    ensures |newDist| == |m| && |newPrev| == |m|
    ensures Relaxed(m, u, dist, prev, newDist, newPrev)
    ensures forall j :: 0 <= j < |m| ==> !Below(dist[j], newDist[j])
  {
    newDist, newPrev := dist, prev;
    for j := 0 to |m|
      invariant |newDist| == |m| && |newPrev| == |m|
      invariant newDist[u] == dist[u]
      invariant forall k :: 0 <= k < j ==>
        if Improves(m, u, dist, k) then
          newDist[k].Fin? && newDist[k].value == dist[u].value + Cell(m, u, k) && newPrev[k] == u
        else
          newDist[k] == dist[k] && newPrev[k] == prev[k]
      invariant forall k :: j <= k < |m| ==> newDist[k] == dist[k] && newPrev[k] == prev[k]
    {
      if m[u][j] != 0 {
        if newDist[j].Inf? || newDist[u].value + m[u][j] < newDist[j].value {
          newDist := newDist[j := Fin(newDist[u].value + m[u][j])];
          newPrev := newPrev[j := u];
        }
      }
    }
  }

  /** Walks prev back from t, collecting the nodes; the path is that trail reversed. */
  method TracePath(m: Matrix, s: nat, t: nat, dist: seq<Dist>, prev: seq<int>) returns (path: seq<nat>)
    requires NonNegative(m) && Square(m, |m|)
    requires |dist| == |m| && |prev| == |m| && s < |m| && t < |m|
    requires dist[s] == Fin(0) && prev[s] == -1 && Links(m, s, dist, prev)
    requires dist[t].Fin?
    ensures IsPathBetween(m, path, s, t) && Weight(m, path) == dist[t].value
    ensures t == s ==> path == [s]
  {
    var trail: seq<nat> := [];
    var index: int := t;
    while index != -1
      invariant -1 <= index < |m|
      invariant index != -1 ==> dist[index].Fin?
      invariant trail == [] ==> index == t
      invariant trail != [] ==>
        && IsPathBetween(m, Reversed(trail), trail[|trail| - 1], t)
        && dist[trail[|trail| - 1]].Fin?
        && Weight(m, Reversed(trail)) + dist[trail[|trail| - 1]].value == dist[t].value
        && index == prev[trail[|trail| - 1]]
      invariant t == s ==> trail == [] || (trail == [s] && index == -1)
      decreases if 0 <= index < |dist| && dist[index].Fin? then dist[index].value + 1 else 0
    {
      if trail != [] {
        var last := trail[|trail| - 1];
        assert Reversed(trail)[0] == last;
        WalkPrepend(m, index, Reversed(trail));
      }
      assert Reversed(trail + [index]) == [index] + Reversed(trail);
      trail := trail + [index];
      index := prev[index];
    }
    path := Reversed(trail);
  }

  // ---------------------------------------------------------------------
  // Why the invariant holds.

  /** The node picked by the scan already has its final distance. */
  lemma SelectedIsOptimal(m: Matrix, s: nat, dist: seq<Dist>, visited: seq<bool>, prev: seq<int>, u: nat)
    requires NonNegative(m) && Inv(m, s, dist, visited, prev)
    requires Selected(dist, visited, u)
    ensures forall p :: IsPathBetween(m, p, s, u) ==> dist[u].value <= Weight(m, p)
  {
    forall p | IsPathBetween(m, p, s, u) ensures dist[u].value <= Weight(m, p) {
      WeightNonNegative(m, p);
      if visited[s] {
        var k := CrossingEdge(p, visited);
        var x, y := p[k - 1], p[k];
        WeightSplit(m, p, k - 1);
        assert p[k - 1..][1..] == p[k..];
        WeightNonNegative(m, p[k..]);
        WalkPrefix(m, p, k - 1);
        assert dist[x].value <= Weight(m, p[..k]);
        assert dist[y].value <= dist[x].value + Cell(m, x, y);
      }
    }
  }

  /** One round (mark u visited, relax its edges) keeps the invariant. */
  lemma StepKeepsInv(m: Matrix, s: nat, dist: seq<Dist>, visited: seq<bool>, prev: seq<int>,
                     u: nat, newDist: seq<Dist>, newPrev: seq<int>)
    requires NonNegative(m) && Inv(m, s, dist, visited, prev)
    requires Selected(dist, visited, u)
    requires |newDist| == |m| && |newPrev| == |m|
    requires Relaxed(m, u, dist, prev, newDist, newPrev)
    requires forall j :: 0 <= j < |m| ==> !Below(dist[j], newDist[j])
    ensures Inv(m, s, newDist, visited[u := true], newPrev)
  {
    var marked := visited[u := true];
    SelectedIsOptimal(m, s, dist, visited, prev, u);
    forall x | 0 <= x < |m| && marked[x]
      ensures newDist[x] == dist[x] && newPrev[x] == prev[x]
    {
      assert !Improves(m, u, dist, x);
    }
    assert !Improves(m, u, dist, s);
    assert Links(m, s, newDist, newPrev) by {
      forall v | 0 <= v < |m|
        ensures if newDist[v].Inf? || v == s then newPrev[v] == -1
                else && 0 <= newPrev[v] < |m| && Cell(m, newPrev[v], v) != 0 && newDist[newPrev[v]].Fin?
                     && newDist[v].value == newDist[newPrev[v]].value + Cell(m, newPrev[v], v)
      {
        if !Improves(m, u, dist, v) && newDist[v].Fin? && v != s {
          assert marked[prev[v]];
        }
      }
    }
    assert FrontierRelaxed(m, newDist, marked) by {
      forall x, y | 0 <= x < |m| && 0 <= y < |m| && marked[x] && !marked[y] && Cell(m, x, y) != 0
        ensures newDist[x].Fin? && newDist[y].Fin? && newDist[y].value <= newDist[x].value + Cell(m, x, y)
      {
        assert !Below(dist[y], newDist[y]);
      }
    }
    assert VisitedFirst(newDist, marked) by {
      forall x, y | 0 <= x < |m| && 0 <= y < |m| && marked[x] && !marked[y] && newDist[y].Fin?
        ensures newDist[x].Fin? && newDist[x].value <= newDist[y].value
      {
        assert newDist[x].value <= dist[u].value;
      }
    }
  }

  /** At the end every reached node is visited, so every node on a walk from the source is. */
  lemma WalkStaysVisited(m: Matrix, s: nat, dist: seq<Dist>, visited: seq<bool>, prev: seq<int>, p: seq<nat>)
    requires Inv(m, s, dist, visited, prev)
    requires forall v :: 0 <= v < |m| && dist[v].Fin? ==> visited[v]
    requires IsWalk(m, p) && p[0] == s
    ensures forall k :: 0 <= k < |p| ==> visited[p[k]]
  {
    var k := 0;
    while k < |p| - 1
      invariant 0 <= k < |p|
      invariant forall i :: 0 <= i <= k ==> visited[p[i]]
    {
      assert Cell(m, p[k], p[k + 1]) != 0;
      assert visited[p[k + 1]];
      k := k + 1;
    }
  }

  // ---------------------------------------------------------------------
  // The search itself.

  /** Dijkstra's algorithm from s, reporting a lightest path to t or that t is unreachable. */
  method Search(m: Matrix, s: nat, t: nat) returns (r: Outcome)
    requires Square(m, |m|) && NonNegative(m) && s < |m| && t < |m|
    ensures !r.NodeNotFound?
    ensures r.PathNotFound? <==> !Reachable(m, s, t)
    ensures r.Found? ==> IsShortestPath(m, r.path, s, t) && Weight(m, r.path) == r.dist
    ensures s == t ==> r == Found([s], 0)
  {
    var n := |m|;
    var dist := seq(n, v => if v == s then Fin(0) else Inf);
    var visited := seq(n, _ => false);
    var prev := seq(n, _ => -1);
    CountNone(visited);
    var i := 0;
    while i < n
      invariant Inv(m, s, dist, visited, prev)
      invariant 0 <= i <= n && CountTrue(visited) == i
    {
      var u := SelectMin(dist, visited);
      if u == -1 {
        break;
      }
      var newDist, newPrev := Relax(m, u, dist, prev);
      StepKeepsInv(m, s, dist, visited, prev, u, newDist, newPrev);
      CountMark(visited, u);
      visited := visited[u := true];
      dist, prev := newDist, newPrev;
      i := i + 1;
    }
    if i == n {
      CountFull(visited);
    }
    assert allReached: forall v :: 0 <= v < n && dist[v].Fin? ==> visited[v];

    if dist[t].Inf? {
      forall p | IsWalk(m, p) && p[0] == s ensures visited[p[|p| - 1]] {
        WalkStaysVisited(m, s, dist, visited, prev, p);
      }
      return PathNotFound;
    }
    var path := TracePath(m, s, t, dist, prev);
    assert IsPathBetween(m, path, s, t);
    return Found(path, dist[t].value);
  }
}
