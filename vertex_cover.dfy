/**
 * The dominance graph of action sequences (src/agents/VertexCover.cpp).
 *
 * Vertices are encoded action sequences; an edge joins two sequences that led
 * to the same emulator state, and a marked vertex is one that must stay in
 * the cover. `MinimalActionSet` is the greedy maximal-matching cover: marked
 * vertices are in from the start, then every vertex that is still out picks
 * its lowest-numbered neighbour that is still out and both go in.
 */
module VertexCovers {
  import opened Base

  /** adj is a V-by-V matrix. */
  predicate IsGraph(V: nat, adj: seq<seq<bool>>)
  {
    |adj| == V && forall u :: 0 <= u < V ==> |adj[u]| == V
  }

  /** Every edge of adj has at least one end in the set. */
  predicate CoversEdges(adj: seq<seq<bool>>, inCover: seq<bool>)
    requires IsGraph(|inCover|, adj)
  {
    forall u, i :: 0 <= u < |inCover| && 0 <= i < |inCover| && adj[u][i] ==> inCover[u] || inCover[i]
  }

  /** The lowest i >= from with row[i] set and visited[i] clear, scanning as the inner loop does. */
  function FirstUnvisitedNeighbour(row: seq<bool>, visited: seq<bool>, from: nat): (r: Option<nat>)
    requires |row| == |visited|
    ensures r.Some? ==> from <= r.value < |row| && row[r.value] && !visited[r.value]
    ensures r.Some? ==> forall i :: from <= i < r.value ==> !row[i] || visited[i]
    ensures r.None? ==> forall i :: from <= i < |row| ==> !row[i] || visited[i]
    decreases |row| - from
  {
    if from >= |row| then None
    else if row[from] && !visited[from] then Some(from)
    else FirstUnvisitedNeighbour(row, visited, from + 1)
  }

  /** One turn of the outer loop of minimalActionSet, for vertex u. */
  function GreedyStep(adj: seq<seq<bool>>, visited: seq<bool>, u: nat): seq<bool>
    requires IsGraph(|visited|, adj) && u < |visited|
  {
    if visited[u] then visited
    else match FirstUnvisitedNeighbour(adj[u], visited, 0)
      case None => visited
      case Some(i) => visited[i := true][u := true]
  }

  /** The outer loop of minimalActionSet run for vertices 0 .. k-1, starting from `start`. */
  function Greedy(adj: seq<seq<bool>>, start: seq<bool>, k: nat): (r: seq<bool>)
    requires IsGraph(|start|, adj) && k <= |start|
    ensures |r| == |start|
  {
    if k == 0 then start else GreedyStep(adj, Greedy(adj, start, k - 1), k - 1)
  }

  /** The adjacency matrix after addEdge(v, w). */
  function WithEdge(adj: seq<seq<bool>>, v: nat, w: nat): seq<seq<bool>>
    requires IsGraph(|adj|, adj) && v < |adj| && w < |adj|
  {
    var a := adj[v := adj[v][w := true]];
    a[w := a[w][v := true]]
  }

  /** addEdge sets both directions of the edge and no other entry. */
  lemma WithEdgeEntries(adj: seq<seq<bool>>, v: nat, w: nat)
    requires IsGraph(|adj|, adj) && v < |adj| && w < |adj|
    ensures IsGraph(|adj|, WithEdge(adj, v, w))
    ensures WithEdge(adj, v, w)[v][w] && WithEdge(adj, v, w)[w][v]
    ensures forall a, b :: 0 <= a < |adj| && 0 <= b < |adj| && !(a == v && b == w) && !(a == w && b == v) ==>
              WithEdge(adj, v, w)[a][b] == adj[a][b]
  {
  }

  /** A greedy step only adds vertices: u, and the lowest unvisited neighbour it picks. */
  lemma GreedyStepPicksLowest(adj: seq<seq<bool>>, visited: seq<bool>, u: nat)
    requires IsGraph(|visited|, adj) && u < |visited|
    ensures var r := GreedyStep(adj, visited, u);
      |r| == |visited| &&
      (visited[u] ==> r == visited) &&
      (!visited[u] && (exists i :: 0 <= i < |visited| && adj[u][i] && !visited[i]) ==>
         exists i :: 0 <= i < |visited| && adj[u][i] && !visited[i] &&
           (forall k :: 0 <= k < i ==> !adj[u][k] || visited[k]) &&
           r == visited[i := true][u := true]) &&
      (!visited[u] && (forall i :: 0 <= i < |visited| ==> !adj[u][i] || visited[i]) ==> r == visited)
  {
    if !visited[u] && (exists i :: 0 <= i < |visited| && adj[u][i] && !visited[i]) {
      var i :| 0 <= i < |visited| && adj[u][i] && !visited[i];
      assert FirstUnvisitedNeighbour(adj[u], visited, 0).Some?;
    }
  }

  lemma GreedyStepGrows(adj: seq<seq<bool>>, visited: seq<bool>, u: nat)
    requires IsGraph(|visited|, adj) && u < |visited|
    ensures |GreedyStep(adj, visited, u)| == |visited|
    ensures forall k :: 0 <= k < |visited| && visited[k] ==> GreedyStep(adj, visited, u)[k]
  {
  }

  /** After the turn of vertex u, every edge out of u has an end in the set. */
  lemma GreedyStepCovers(adj: seq<seq<bool>>, visited: seq<bool>, u: nat)
    requires IsGraph(|visited|, adj) && u < |visited|
    ensures forall i :: 0 <= i < |visited| && adj[u][i] ==> GreedyStep(adj, visited, u)[u] || GreedyStep(adj, visited, u)[i]
  {
    var r := GreedyStep(adj, visited, u);
    forall i | 0 <= i < |visited| && adj[u][i]
      ensures r[u] || r[i]
    {
      if !visited[u] {
        match FirstUnvisitedNeighbour(adj[u], visited, 0)
        case None =>
          assert visited[i];
        case Some(j) =>
          assert r[u];
      }
    }
  }

  /** The greedy cover keeps every vertex that was in the starting set. */
  lemma {:induction false} GreedyGrows(adj: seq<seq<bool>>, start: seq<bool>, k: nat)
    requires IsGraph(|start|, adj) && k <= |start|
    ensures forall v :: 0 <= v < |start| && start[v] ==> Greedy(adj, start, k)[v]
  {
    if k > 0 {
      GreedyGrows(adj, start, k - 1);
      GreedyStepGrows(adj, Greedy(adj, start, k - 1), k - 1);
    }
  }

  /** After the turns of vertices 0 .. k-1, every edge out of those vertices is covered. */
  lemma {:induction false} GreedyCoversPrefix(adj: seq<seq<bool>>, start: seq<bool>, k: nat)
    requires IsGraph(|start|, adj) && k <= |start|
    ensures forall u, i :: 0 <= u < k && 0 <= i < |start| && adj[u][i] ==>
              Greedy(adj, start, k)[u] || Greedy(adj, start, k)[i]
  {
    if k > 0 {
      var prev := Greedy(adj, start, k - 1);
      GreedyCoversPrefix(adj, start, k - 1);
      GreedyStepGrows(adj, prev, k - 1);
      GreedyStepCovers(adj, prev, k - 1);
    }
  }

  /** The full greedy run is a vertex cover of the graph that contains the starting set. */
  lemma GreedyIsCover(adj: seq<seq<bool>>, start: seq<bool>)
    requires IsGraph(|start|, adj)
    ensures |Greedy(adj, start, |start|)| == |start|
    ensures PointwiseLe(start, Greedy(adj, start, |start|))
    ensures CoversEdges(adj, Greedy(adj, start, |start|))
  {
    GreedyGrows(adj, start, |start|);
    GreedyCoversPrefix(adj, start, |start|);
  }

  class VertexCover {
    var V: nat
    var adj: seq<seq<bool>>
    /** Vertices forced into the cover. */
    var marked: seq<bool>

    ghost predicate Valid()
      reads this
    {
      IsGraph(V, adj) && |marked| == V
    }

    /** VertexCover(V): V isolated, unmarked vertices. */
    constructor (V: nat)
      ensures Valid() && this.V == V
      ensures adj == Repeat(Repeat(false, V), V) && marked == Repeat(false, V)
    {
      this.V := V;
      adj := Repeat(Repeat(false, V), V);
      marked := Repeat(false, V);
    }

    /** addEdge(v, w): the undirected edge v–w. */
    method AddEdge(v: nat, w: nat)
      requires Valid() && v < V && w < V
      modifies this
      ensures Valid() && V == old(V) && marked == old(marked)
      ensures adj == WithEdge(old(adj), v, w)
    {
      adj := adj[v := adj[v][w := true]];
      adj := adj[w := adj[w][v := true]];
    }

    /** addNode(v): v is forced into the cover; the edges stay as they are. */
    method AddNode(v: nat)
      requires Valid() && v < V
      modifies this
      ensures Valid() && V == old(V) && adj == old(adj)
      ensures marked == old(marked)[v := true]
    {
      marked := marked[v := true];
    }

    /** uniqueActionSet(): exactly the marked vertices. */
    method UniqueActionSet() returns (r: seq<bool>)
      requires Valid()
      ensures |r| == V && forall v :: 0 <= v < V ==> (r[v] <==> marked[v])
    {
      r := marked;
    }

    /**
     * minimalActionSet(): the greedy cover. The result is a vertex cover of
     * length V that contains every marked vertex; the object is not changed.
     */
    method MinimalActionSet() returns (visited: seq<bool>)
      requires Valid()
      ensures visited == Greedy(adj, marked, V)
      ensures |visited| == V && PointwiseLe(marked, visited) && CoversEdges(adj, visited)
    {
      visited := marked;
      var u := 0;
      while u < V
        invariant 0 <= u <= V
        invariant visited == Greedy(adj, marked, u)
      {
        if !visited[u] {
          ghost var before := visited;
          var i := 0;
          while i < V
            invariant 0 <= i <= V && visited == before
            invariant FirstUnvisitedNeighbour(adj[u], before, 0) == FirstUnvisitedNeighbour(adj[u], before, i)
          {
            if adj[u][i] && !visited[i] {
              visited := visited[i := true][u := true];
              break;
            }
            i := i + 1;
          }
        }
        u := u + 1;
      }
      GreedyIsCover(adj, marked);
    }
  }
}
