/**
 BuildOperationAdjList: for every operation node, the set of operation nodes
 that produce one of its input variables. Despite its name the map holds
 PREDECESSORS.
 */
module OperationAdjacency {
  import opened GraphModel

  /** Operation node -> the operations producing its inputs. */
  type AdjList = map<nat, set<nat>>

  /** Every node named in a value of the map is itself a key, so that looking
      it up with `adj_list.at` never fails. */
  predicate Closed(adj: AdjList) {
    forall n, p :: n in adj && p in adj[n] ==> p in adj
  }

  /** The producers of the first j input variables of node n. */
  function ProducersUpTo(g: Graph, n: nat, j: nat): (r: set<nat>)
    requires WellFormed(g) && n < |g| && j <= |g[n].inputs|
    ensures forall p :: p in r ==> p < |g|
  {
    set jj, p | 0 <= jj < j && p in g[g[n].inputs[jj]].inputs :: p
  }

  /** The producers of all input variables of node n. */
  function Predecessors(g: Graph, n: nat): set<nat>
    requires WellFormed(g) && n < |g|
  {
    ProducersUpTo(g, n, |g[n].inputs|)
  }

  /** p writes a variable that n reads. */
  ghost predicate Feeds(g: Graph, p: nat, n: nat)
    requires WellFormed(g) && n < |g|
  {
    exists v :: v in g[n].inputs && p in g[v].inputs
  }

  /** Taking one more input variable adds exactly its producers. */
  lemma ProducersUpToStep(g: Graph, n: nat, j: nat)
    requires WellFormed(g) && n < |g| && j < |g[n].inputs|
    ensures ProducersUpTo(g, n, j + 1) == ProducersUpTo(g, n, j) + Elems(g[g[n].inputs[j]].inputs)
  {
    var v := g[n].inputs[j];
    forall p | p in ProducersUpTo(g, n, j + 1)
      ensures p in ProducersUpTo(g, n, j) + Elems(g[v].inputs)
    {
      var jj :| 0 <= jj < j + 1 && p in g[g[n].inputs[jj]].inputs;
      if jj < j {
        assert p in ProducersUpTo(g, n, j);
      }
    }
    forall p | p in Elems(g[v].inputs) ensures p in ProducersUpTo(g, n, j + 1) {
      assert 0 <= j < j + 1 && p in g[g[n].inputs[j]].inputs;
    }
  }

  /** The predecessor set of n is exactly the set of nodes that feed n,
      through any input variable and any producer of it. */
  lemma PredecessorsMeaning(g: Graph, n: nat, p: nat)
    requires WellFormed(g) && n < |g|
    ensures p in Predecessors(g, n) <==> Feeds(g, p, n)
  {
    if Feeds(g, p, n) {
      var v :| v in g[n].inputs && p in g[v].inputs;
      var jj :| 0 <= jj < |g[n].inputs| && g[n].inputs[jj] == v;
      assert p in g[g[n].inputs[jj]].inputs;
    }
  }

  /** What BuildOperationAdjList enforces: every producer of an input of an
      operation is an operation. */
  predicate ProducersAreOps(g: Graph)
    requires WellFormed(g)
  {
    forall n, p :: 0 <= n < |g| && IsOp(g, n) && p in Predecessors(g, n) ==> IsOp(g, p)
  }

  /** The map BuildOperationAdjList returns: one entry per operation node,
      empty when nothing produces its inputs. */
  function PredecessorMap(g: Graph): (adj: AdjList)
    requires WellFormed(g)
    ensures adj.Keys == OpNodes(g)
    ensures ProducersAreOps(g) ==> Closed(adj)
  {
    map n | n in OpNodes(g) :: Predecessors(g, n)
  }

  method BuildOperationAdjList(g: Graph) returns (r: Result<AdjList>)
    requires WellFormed(g)
    ensures r.Ok? <==> ProducersAreOps(g)
    ensures r.Ok? ==> r.value == PredecessorMap(g)
    ensures r.Err? ==> r.error == MalformedGraph
  {
    var adj: AdjList := map[];
    var i := 0;
    while i < |g|
      invariant i <= |g|
      invariant forall n: nat :: n in adj <==> n < i && IsOp(g, n)
      invariant forall n :: n in adj ==> adj[n] == Predecessors(g, n)
      invariant forall n, p :: 0 <= n < i && IsOp(g, n) && p in Predecessors(g, n) ==> IsOp(g, p)
    {
      if g[i].kind.Operation? {
        // adj_list[n] is created empty, then filled; it is built here in a
        // local set and stored once filled.
        var preds: set<nat> := {};
        var j := 0;
        while j < |g[i].inputs|
          invariant j <= |g[i].inputs|
          invariant preds == ProducersUpTo(g, i, j)
          invariant forall p :: p in preds ==> IsOp(g, p)
        {
          var v := g[i].inputs[j];
          var k := 0;
          while k < |g[v].inputs|
            invariant k <= |g[v].inputs|
            invariant preds == ProducersUpTo(g, i, j) + Elems(g[v].inputs[..k])
            invariant forall p :: p in preds ==> IsOp(g, p)
          {
            var p := g[v].inputs[k];
            if !g[p].kind.Operation? {
              assert p in g[g[i].inputs[j]].inputs;
              assert p in Predecessors(g, i) && IsOp(g, i) && !IsOp(g, p);
              return Err(MalformedGraph);
            }
            assert g[v].inputs[..k + 1] == g[v].inputs[..k] + [p];
            preds := preds + {p};
            k := k + 1;
          }
          assert g[v].inputs[..k] == g[v].inputs;
          ProducersUpToStep(g, i, j);
          j := j + 1;
        }
        adj := adj[i := preds];
      }
      i := i + 1;
    }
    assert adj.Keys == PredecessorMap(g).Keys;
    return Ok(adj);
  }
}
