/**
 TopologySortOperations: refuses a cyclic predecessor map, then lists the
 operation nodes in depth-first post-order, so that every node comes after
 all of its predecessors.
 */
module TopologicalSort {
  import opened GraphModel
  import opened OperationAdjacency
  import opened CycleDetection

  /** One frame of the sort: marks the node visited, sorts its unvisited
      predecessors first, then appends the node. The open frames (`stack`)
      are exactly the visited nodes not yet appended. */
  method SortHelper(adj: AdjList, node: nat, visited: set<nat>, ret: seq<nat>,
                    ghost stack: seq<nat>)
    returns (visited': set<nat>, ret': seq<nat>)
    requires Closed(adj) && !HasCycle(adj) && node in adj && node !in visited
    requires DfsState(adj, visited, Elems(stack), stack, ret)
    requires |stack| > 0 ==> node in adj[stack[|stack| - 1]]
    ensures DfsState(adj, visited', Elems(stack), stack, ret')
    ensures visited + {node} <= visited'
    ensures |ret| < |ret'| && ret'[..|ret|] == ret && ret'[|ret'| - 1] == node
    decreases adj.Keys - visited
  {
    OpenFrame(adj, visited, Elems(stack), stack, ret, node);
    visited' := visited + {node};
    ret' := ret;
    ghost var path := stack + [node];
    var rest := adj[node];
    while rest != {}
      invariant rest <= adj[node]
      invariant DfsState(adj, visited', Elems(stack) + {node}, path, ret')
      invariant visited + {node} <= visited'
      invariant adj[node] - rest <= Elems(ret')
      invariant |ret| <= |ret'| && ret'[..|ret|] == ret
      decreases rest
    {
      var x :| x in rest;
      rest := rest - {x};
      if x !in visited' {
        ghost var before := ret';
        visited', ret' := SortHelper(adj, x, visited', ret', path);
        assert ret'[..|ret|] == before[..|ret|];
        PrefixElems(before, ret');
        assert x in Elems(ret');
      } else {
        // x is finished: were its frame still open, x would close a cycle.
        ChainClosesCycle(adj, path, x);
        assert x in Elems(ret');
      }
    }
    assert node !in Elems(stack) by {
      assert path[|stack|] == node;
    }
    CloseFrame(adj, visited', Elems(stack), stack, ret', node);
    ret' := ret' + [node];
  }

  /** The nodes of `ret` are exactly the keys of the map, each once, and
      every node comes after all of its predecessors. */
  ghost predicate IsTopologicalOrder(adj: AdjList, ret: seq<nat>) {
    NoDup(ret) && Elems(ret) == adj.Keys && PostOrdered(adj, ret)
  }

  method TopologySortOperations(g: Graph) returns (r: Result<seq<nat>>)
    requires WellFormed(g)
    ensures r.Err? <==> !ProducersAreOps(g) || HasCycle(PredecessorMap(g))
    ensures r.Err? ==> r.error == (if ProducersAreOps(g) then CycleDetected else MalformedGraph)
    ensures r.Ok? ==> IsTopologicalOrder(PredecessorMap(g), r.value)
  {
    var built := BuildOperationAdjList(g);
    if built.Err? {
      return Err(built.error);
    }
    var adj := built.value;
    var cyclic := HasCircleInternal(adj);
    if cyclic {
      return Err(CycleDetected);
    }
    var visited: set<nat> := {};
    var ret: seq<nat> := [];
    var keys := adj.Keys;
    while keys != {}
      invariant keys <= adj.Keys
      invariant DfsState(adj, visited, {}, [], ret)
      invariant adj.Keys - keys <= visited
      decreases keys
    {
      var k :| k in keys;
      keys := keys - {k};
      if k !in visited {
        visited, ret := SortHelper(adj, k, visited, ret, []);
      }
    }
    return Ok(ret);
  }

  /** The order TopologySortOperations promises, read on the graph: whenever
      operation p writes a variable that operation c reads, p comes first. */
  lemma TopologicalOrderRespectsDataflow(g: Graph, ret: seq<nat>, p: nat, c: nat)
    requires WellFormed(g) && IsTopologicalOrder(PredecessorMap(g), ret)
    requires c < |g| && IsOp(g, c) && Feeds(g, p, c)
    ensures p in ret && c in ret && IndexOf(ret, p) < IndexOf(ret, c)
  {
    var adj := PredecessorMap(g);
    PredecessorsMeaning(g, c, p);
    assert c in Elems(ret);
    var ic := IndexOf(ret, c);
    assert p in adj[ret[ic]];
    assert p in Elems(ret[..ic]);
  }
}
