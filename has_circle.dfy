/**
 HasCircle: a depth-first search over the predecessor map with a `visited` set
 (nodes ever entered) and an `in_trace` set (nodes whose frame is still open).
 Reaching a predecessor that is in `in_trace` closes a cycle.
 */
module CycleDetection {
  import opened GraphModel
  import opened OperationAdjacency

  /** s follows the node -> predecessor relation: each element after the
      first is a predecessor of the one before it. */
  ghost predicate IsChain(adj: AdjList, s: seq<nat>) {
    (forall i :: 0 <= i < |s| ==> s[i] in adj) &&
    (forall i :: 0 <= i < |s| - 1 ==> s[i] in adj && s[i + 1] in adj[s[i]])
  }

  /** p is a cycle: a chain whose first node is a predecessor of its last
      one (a one-node cycle is a node that is its own predecessor). */
  ghost predicate IsCycle(adj: AdjList, p: seq<nat>) {
    |p| > 0 && IsChain(adj, p) && p[0] in adj[p[|p| - 1]]
  }

  ghost predicate HasCycle(adj: AdjList) {
    exists p :: IsCycle(adj, p)
  }

  /** Every node of `done` comes after all of its predecessors. */
  ghost predicate PostOrdered(adj: AdjList, done: seq<nat>) {
    forall i :: 0 <= i < |done| ==> done[i] in adj && adj[done[i]] <= Elems(done[..i])
  }

  /** The state shared by the two depth-first searches of graph_helper.cc:
      `stack` lists the open frames from the root down (its nodes are exactly
      `inTrace`), and `done` lists the finished nodes in the order their frames
      closed (its nodes are exactly the visited nodes that are not in trace). */
  ghost predicate DfsState(adj: AdjList, visited: set<nat>, inTrace: set<nat>,
                           stack: seq<nat>, done: seq<nat>)
  {
    && visited <= adj.Keys
    && IsChain(adj, stack) && NoDup(stack) && Elems(stack) == inTrace
    && inTrace <= visited
    && NoDup(done) && Elems(done) == visited - inTrace
    && PostOrdered(adj, done)
  }

  lemma PostOrderedAppend(adj: AdjList, done: seq<nat>, x: nat)
    requires PostOrdered(adj, done) && x in adj && adj[x] <= Elems(done)
    ensures PostOrdered(adj, done + [x])
  {
    var d := done + [x];
    forall i | 0 <= i < |d|
      ensures d[i] in adj && adj[d[i]] <= Elems(d[..i])
    {
      if i < |done| {
        assert d[..i] == done[..i];
      } else {
        assert d[..i] == done;
      }
    }
  }

  lemma ChainAppend(adj: AdjList, s: seq<nat>, x: nat)
    requires IsChain(adj, s) && x in adj
    requires |s| > 0 ==> x in adj[s[|s| - 1]]
    ensures IsChain(adj, s + [x])
  {
  }

  /** A predecessor of the last node of a chain that is already on the chain
      closes a cycle. */
  lemma ChainClosesCycle(adj: AdjList, s: seq<nat>, x: nat)
    requires IsChain(adj, s) && |s| > 0 && x in adj[s[|s| - 1]]
    ensures x in s ==> HasCycle(adj)
  {
    if x in s {
      var j :| 0 <= j < |s| && s[j] == x;
      var p := s[j..];
      assert IsChain(adj, p) by {
        forall i | 0 <= i < |p| - 1
          ensures p[i] in adj && p[i + 1] in adj[p[i]]
        {
          assert p[i] == s[j + i] && p[i + 1] == s[j + i + 1];
        }
      }
      assert IsCycle(adj, p);
    }
  }

  /** Along a chain, positions in a post-order strictly decrease. */
  lemma {:induction false} ChainDescends(adj: AdjList, done: seq<nat>, p: seq<nat>, k: nat)
    requires NoDup(done) && PostOrdered(adj, done)
    requires IsChain(adj, p) && k < |p|
    requires forall i :: 0 <= i < |p| ==> p[i] in done
    ensures IndexOf(done, p[k]) + k <= IndexOf(done, p[0])
  {
    if k > 0 {
      ChainDescends(adj, done, p, k - 1);
      EdgeDescends(adj, done, p[k - 1], p[k]);
    }
  }

  lemma EdgeDescends(adj: AdjList, done: seq<nat>, u: nat, v: nat)
    requires NoDup(done) && PostOrdered(adj, done)
    requires u in done && u in adj && v in adj[u] && v in done
    ensures IndexOf(done, v) < IndexOf(done, u)
  {
    var iu := IndexOf(done, u);
    assert v in Elems(done[..iu]);
    var jv :| 0 <= jv < iu && done[jv] == v;
  }

  /** A post-order covering every key rules out a cycle: positions would
      decrease all the way round it. */
  lemma PostOrderMeansAcyclic(adj: AdjList, done: seq<nat>)
    requires NoDup(done) && PostOrdered(adj, done) && adj.Keys <= Elems(done)
    ensures !HasCycle(adj)
  {
    if HasCycle(adj) {
      var p :| IsCycle(adj, p);
      // Going once round the cycle, back to p[0], would lower its position.
      var round := p + [p[0]];
      ChainAppend(adj, p, p[0]);
      assert forall i :: 0 <= i < |round| ==> round[i] in done by {
        forall i | 0 <= i < |round| ensures round[i] in done {
          assert round[i] in adj;
          assert round[i] in Elems(done);
        }
      }
      ChainDescends(adj, done, round, |p|);
    }
  }

  /** Entering a frame: the node becomes visited and joins the trace. */
  lemma OpenFrame(adj: AdjList, visited: set<nat>, inTrace: set<nat>, stack: seq<nat>,
                  done: seq<nat>, node: nat)
    requires DfsState(adj, visited, inTrace, stack, done)
    requires node in adj && node !in visited
    requires |stack| > 0 ==> node in adj[stack[|stack| - 1]]
    ensures DfsState(adj, visited + {node}, inTrace + {node}, stack + [node], done)
  {
    ChainAppend(adj, stack, node);
    NoDupAppend(stack, node);
    assert Elems(stack + [node]) == Elems(stack) + {node};
  }

  /** Leaving a frame whose predecessors are all finished: the node leaves
      the trace and is appended to the post-order. */
  lemma CloseFrame(adj: AdjList, visited: set<nat>, inTrace: set<nat>, stack: seq<nat>,
                   done: seq<nat>, node: nat)
    requires DfsState(adj, visited, inTrace + {node}, stack + [node], done)
    requires node !in inTrace && adj[node] <= Elems(done)
    ensures DfsState(adj, visited, inTrace, stack, done + [node])
  {
    var path := stack + [node];
    assert stack == path[..|stack|];
    assert Elems(path) == Elems(stack) + {node};
    assert node !in Elems(stack) by {
      assert path[|stack|] == node;
    }
    PostOrderedAppend(adj, done, node);
    NoDupAppend(done, node);
    assert Elems(done + [node]) == Elems(done) + {node};
  }

  /** One frame of the search. On a node not yet visited it marks the node
      visited and in trace, tries every predecessor, and reports a cycle as
      soon as a predecessor's search does or a predecessor is in trace; then
      it takes the node out of the trace again. */
  method HasCircleHelper(node: nat, adj: AdjList, visited: set<nat>, inTrace: set<nat>,
                         ghost stack: seq<nat>, ghost done: seq<nat>)
    returns (found: bool, visited': set<nat>, inTrace': set<nat>, ghost done': seq<nat>)
    requires Closed(adj) && node in adj && node !in inTrace
    requires DfsState(adj, visited, inTrace, stack, done)
    requires |stack| > 0 ==> node in adj[stack[|stack| - 1]]
    ensures inTrace' <= visited'
    ensures found ==> HasCycle(adj)
    ensures !found ==> && DfsState(adj, visited', inTrace', stack, done')
                       && inTrace' == inTrace
                       && node in visited' && node !in inTrace'
                       && visited <= visited'
    decreases adj.Keys - visited
  {
    visited', inTrace', done' := visited, inTrace, done;
    if node !in visited {
      OpenFrame(adj, visited, inTrace, stack, done, node);
      visited' := visited' + {node};
      inTrace' := inTrace' + {node};
      ghost var path := stack + [node];
      var rest := adj[node];
      while rest != {}
        invariant rest <= adj[node]
        invariant DfsState(adj, visited', inTrace', path, done')
        invariant inTrace' == inTrace + {node}
        invariant visited + {node} <= visited'
        invariant adj[node] - rest <= Elems(done')
        decreases rest
      {
        var x :| x in rest;
        rest := rest - {x};
        var deeper := false;
        ghost var before := Elems(done');
        if x !in visited' {
          deeper, visited', inTrace', done' := HasCircleHelper(x, adj, visited', inTrace', path, done');
        }
        if deeper {
          return true, visited', inTrace', done';
        } else if x in inTrace' {
          ChainClosesCycle(adj, path, x);
          return true, visited', inTrace', done';
        }
        assert before + {x} <= Elems(done');
      }
      CloseFrame(adj, visited', inTrace, stack, done', node);
      done' := done' + [node];
    }
    inTrace' := inTrace' - {node};
    found := false;
  }

  /** Starts the search from every key in turn, so that parts of the graph
      not reachable from one another are all covered. */
  method HasCircleInternal(adj: AdjList) returns (found: bool)
    requires Closed(adj)
    ensures found <==> HasCycle(adj)
  {
    var visited: set<nat> := {};
    var inTrace: set<nat> := {};
    ghost var done: seq<nat> := [];
    var keys := adj.Keys;
    while keys != {}
      invariant keys <= adj.Keys
      invariant DfsState(adj, visited, inTrace, [], done)
      invariant adj.Keys - keys <= visited
      decreases keys
    {
      var k :| k in keys;
      keys := keys - {k};
      found, visited, inTrace, done := HasCircleHelper(k, adj, visited, inTrace, [], done);
      if found {
        return;
      }
    }
    PostOrderMeansAcyclic(adj, done);
    found := false;
  }

  /** HasCircle(graph): builds the predecessor map (failing as
      BuildOperationAdjList does) and searches it for a cycle. */
  method HasCircle(g: Graph) returns (r: Result<bool>)
    requires WellFormed(g)
    ensures r.Ok? <==> ProducersAreOps(g)
    ensures r.Ok? ==> (r.value <==> HasCycle(PredecessorMap(g)))
    ensures r.Err? ==> r.error == MalformedGraph
  {
    var built := BuildOperationAdjList(g);
    if built.Err? {
      return Err(built.error);
    }
    var found := HasCircleInternal(built.value);
    return Ok(found);
  }
}
