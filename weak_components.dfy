/**
 GraphNum: splits the nodes of the graph into parts with a breadth-first
 search that steps from a node to every one of its inputs and outputs, starts
 a new part from some unvisited node whenever the queue runs dry, and returns
 how many parts it started. The parts themselves (`graph_nodes`) are returned
 too, since the properties of the count are properties of the parts.
 */
module WeakComponents {
  import opened GraphModel

  /** The search steps from a to b: b is an input or an output of a. */
  predicate Linked(g: Graph, a: nat, b: nat) {
    a < |g| && (b in g[a].inputs || b in g[a].outputs)
  }

  /** p is a walk along links whose nodes all lie in c. */
  ghost predicate IsPathIn(g: Graph, c: set<nat>, p: seq<nat>) {
    && |p| > 0
    && (forall i :: 0 <= i < |p| ==> p[i] in c)
    && (forall i :: 0 <= i < |p| - 1 ==> Linked(g, p[i], p[i + 1]))
  }

  ghost predicate ReachesWithin(g: Graph, c: set<nat>, a: nat, b: nat) {
    exists p :: IsPathIn(g, c, p) && p[0] == a && p[|p| - 1] == b
  }

  /** Some node of c reaches every node of c without leaving c. */
  ghost predicate Connected(g: Graph, c: set<nat>) {
    exists s :: s in c && forall x :: x in c ==> ReachesWithin(g, c, s, x)
  }

  /** Every edge is recorded at both of its ends, as the IR graph keeps it:
      b is an output of a exactly when a is an input of b. */
  ghost predicate MirroredEdges(g: Graph) {
    forall a: nat, b: nat :: a < |g| && b < |g| ==> (b in g[a].outputs <==> a in g[b].inputs)
  }

  ghost predicate ClosedUnderLinks(g: Graph, c: set<nat>) {
    forall a, b :: a in c && Linked(g, a, b) ==> b in c
  }

  ghost predicate AllClosed(g: Graph, comps: seq<set<nat>>) {
    forall k :: 0 <= k < |comps| ==> ClosedUnderLinks(g, comps[k])
  }

  ghost predicate Disjoint(comps: seq<set<nat>>) {
    forall i, j :: 0 <= i < j < |comps| ==> comps[i] !! comps[j]
  }

  function Union(comps: seq<set<nat>>): set<nat> {
    if comps == [] then {} else Union(comps[..|comps| - 1]) + comps[|comps| - 1]
  }

  lemma {:induction false} UnionMeaning(comps: seq<set<nat>>, x: nat)
    ensures x in Union(comps) <==> exists k :: 0 <= k < |comps| && x in comps[k]
  {
    if comps != [] {
      var init := comps[..|comps| - 1];
      UnionMeaning(init, x);
      if x in Union(comps) && x !in comps[|comps| - 1] {
        var k :| 0 <= k < |init| && x in init[k];
        assert comps[k] == init[k];
      }
      if exists k :: 0 <= k < |comps| && x in comps[k] {
        var k :| 0 <= k < |comps| && x in comps[k];
        if k < |init| {
          assert init[k] == comps[k];
        }
      }
    }
  }

  lemma NoDupConcat(a: seq<nat>, b: seq<nat>)
    requires NoDup(a) && NoDup(b) && Elems(a) !! Elems(b)
    ensures NoDup(a + b)
  {
    var c := a + b;
    forall i, j | 0 <= i < j < |c| ensures c[i] != c[j] {
      if i < |a| && |a| <= j {
        assert c[i] in Elems(a) && c[j] == b[j - |a|] && c[j] in Elems(b);
      }
    }
  }

  /** What traverse_nodes appends to the queue for the neighbour list ns when
      the nodes of `seen` are already visited or queued: every node of ns not
      in seen, once, in the order of its first occurrence. */
  function Unseen(ns: seq<nat>, seen: set<nat>): (r: seq<nat>)
    ensures NoDup(r) && Elems(r) == Elems(ns) - seen
  {
    if ns == [] then []
    else
      var u := Unseen(ns[..|ns| - 1], seen);
      var x := ns[|ns| - 1];
      assert Elems(ns) == Elems(ns[..|ns| - 1]) + {x} by {
        assert ns == ns[..|ns| - 1] + [x];
      }
      if x in seen || x in u then u
      else
        NoDupAppend(u, x);
        assert Elems(u + [x]) == Elems(u) + {x};
        u + [x]
  }

  /** The traverse_nodes lambda: queues every node of ns that is neither
      visited nor already queued. */
  method Traverse(ns: seq<nat>, visited: set<nat>, queue: seq<nat>, qSet: set<nat>)
    returns (queue': seq<nat>, qSet': set<nat>)
    requires qSet == Elems(queue)
    ensures queue' == queue + Unseen(ns, visited + qSet)
    ensures qSet' == Elems(queue') == qSet + (Elems(ns) - visited)
    ensures NoDup(queue) ==> NoDup(queue')
  {
    queue', qSet' := queue, qSet;
    for k := 0 to |ns|
      invariant queue' == queue + Unseen(ns[..k], visited + qSet)
      invariant qSet' == Elems(queue')
    {
      var n := ns[k];
      assert ns[..k + 1][..k] == ns[..k];
      assert Elems(queue') == qSet + Elems(Unseen(ns[..k], visited + qSet));
      if n !in visited && n !in qSet' {
        queue' := queue' + [n];
        qSet' := qSet' + {n};
      }
    }
    assert ns[..|ns|] == ns;
    var u := Unseen(ns, visited + qSet);
    assert Elems(queue') == qSet + Elems(u);
    if NoDup(queue) {
      NoDupConcat(queue, u);
    }
  }

  /** The search's seed loop: the first node, in the set's own order, that
      is not visited yet. GraphNum only runs it while some node is not. */
  method PickUnvisited(nodes: set<nat>, visited: set<nat>) returns (n: nat)
    requires visited <= nodes && |visited| != |nodes|
    ensures n in nodes && n !in visited
  {
    assert visited != nodes;
    var rest := nodes;
    while true
      invariant rest <= nodes
      invariant exists y :: y in rest && y !in visited
      decreases rest
    {
      var x :| x in rest;
      rest := rest - {x};
      if x !in visited {
        return x;
      }
    }
  }

  /** Every visited node has all its links visited or queued. */
  ghost predicate Frontier(g: Graph, visited: set<nat>, qSet: set<nat>) {
    forall a, b :: a in visited && Linked(g, a, b) ==> b in visited || b in qSet
  }

  /** Every node of the part being searched, visited or queued, has a walk
      from the part's seed that runs through visited nodes of the part. */
  ghost predicate Spanning(g: Graph, gNodes: set<nat>, qSet: set<nat>, seed: nat,
                           path: map<nat, seq<nat>>)
  {
    && seed in gNodes + qSet
    && forall x :: x in gNodes + qSet ==> WalkTo(g, gNodes, seed, path, x)
  }

  /** path records a walk from seed to x through c and x. */
  ghost predicate WalkTo(g: Graph, c: set<nat>, seed: nat, path: map<nat, seq<nat>>, x: nat) {
    && x in path && IsPathIn(g, c + {x}, path[x])
    && path[x][0] == seed && path[x][|path[x]| - 1] == x
  }

  /** The queue and its set `q_set` hold the same unvisited nodes, each once. */
  ghost predicate QueueOk(g: Graph, visited: set<nat>, queue: seq<nat>, qSet: set<nat>) {
    && qSet == Elems(queue) && NoDup(queue)
    && (forall i :: 0 <= i < |queue| ==> queue[i] < |g| && queue[i] !in visited)
  }

  ghost predicate AllConnected(g: Graph, comps: seq<set<nat>>) {
    forall k :: 0 <= k < |comps| ==> Connected(g, comps[k])
  }

  /** The finished parts and the part being searched split the visited
      nodes; each finished part is connected, and closed under links when
      edges are mirrored. */
  ghost predicate Parts(g: Graph, comps: seq<set<nat>>, gNodes: set<nat>, visited: set<nat>) {
    && Disjoint(comps)
    && (forall k :: 0 <= k < |comps| ==> comps[k] !! gNodes)
    && Union(comps) + gNodes == visited
    && AllConnected(g, comps)
    && (MirroredEdges(g) ==> AllClosed(g, comps))
  }

  /** The state of GraphNum between two steps: `comps` are the finished parts
      (`graph_nodes`), `gNodes` the part being searched (`g_nodes`), `count`
      the parts started. */
  ghost predicate Searching(g: Graph, visited: set<nat>, queue: seq<nat>, qSet: set<nat>,
                            gNodes: set<nat>, comps: seq<set<nat>>, count: nat,
                            seed: nat, path: map<nat, seq<nat>>)
  {
    && visited <= AllNodes(g)
    && QueueOk(g, visited, queue, qSet)
    && (count == 0 ==> comps == [] && gNodes == {} && visited == {} && queue == [])
    && (count > 0 ==> |comps| + 1 == count && Spanning(g, gNodes, qSet, seed, path))
    && Parts(g, comps, gNodes, visited)
    && Frontier(g, visited, qSet)
  }

  lemma LinkedSymmetric(g: Graph, a: nat, b: nat)
    requires WellFormed(g) && MirroredEdges(g) && Linked(g, a, b)
    ensures Linked(g, b, a)
  {
    if b in g[a].inputs {
      var j :| 0 <= j < |g[a].inputs| && g[a].inputs[j] == b;
      assert a in g[b].outputs;
    } else {
      var j :| 0 <= j < |g[a].outputs| && g[a].outputs[j] == b;
      assert a in g[b].inputs;
    }
  }

  /** A part whose search ended with an empty queue is closed under links
      when edges are mirrored: a link into an earlier part would have put
      this part's node into that earlier part. */
  lemma CloseGroup(g: Graph, comps: seq<set<nat>>, gNodes: set<nat>, visited: set<nat>)
    requires WellFormed(g) && MirroredEdges(g) && AllClosed(g, comps)
    requires forall k :: 0 <= k < |comps| ==> comps[k] !! gNodes
    requires Union(comps) + gNodes == visited && Frontier(g, visited, {})
    ensures ClosedUnderLinks(g, gNodes)
  {
    forall a, b | a in gNodes && Linked(g, a, b) ensures b in gNodes {
      assert b in visited;
      UnionMeaning(comps, b);
      LinkedSymmetric(g, a, b);
    }
  }

  /** With the queue empty, the walks recorded from the seed show the part
      connected. */
  lemma SpanningConnected(g: Graph, gNodes: set<nat>, seed: nat, path: map<nat, seq<nat>>)
    requires Spanning(g, gNodes, {}, seed, path)
    ensures Connected(g, gNodes)
  {
    assert gNodes + {} == gNodes;
    forall x | x in gNodes ensures ReachesWithin(g, gNodes, seed, x) {
      assert gNodes + {x} == gNodes;
      assert IsPathIn(g, gNodes, path[x]);
    }
  }

  lemma PartsAppend(g: Graph, comps: seq<set<nat>>, gNodes: set<nat>, visited: set<nat>)
    requires WellFormed(g) && Parts(g, comps, gNodes, visited)
    requires Connected(g, gNodes) && Frontier(g, visited, {})
    ensures Parts(g, comps + [gNodes], {}, visited)
  {
    var comps' := comps + [gNodes];
    assert comps'[..|comps|] == comps;
    assert Disjoint(comps') by {
      forall i, j | 0 <= i < j < |comps'| ensures comps'[i] !! comps'[j] {
        if j == |comps| {
          assert comps'[i] == comps[i];
        } else {
          assert comps'[i] == comps[i] && comps'[j] == comps[j];
        }
      }
    }
    assert AllConnected(g, comps') by {
      forall k | 0 <= k < |comps'| ensures Connected(g, comps'[k]) {
        if k < |comps| {
          assert comps'[k] == comps[k];
        }
      }
    }
    if MirroredEdges(g) {
      CloseGroup(g, comps, gNodes, visited);
      forall k | 0 <= k < |comps'| ensures ClosedUnderLinks(g, comps'[k]) {
        if k < |comps| {
          assert comps'[k] == comps[k];
        }
      }
    }
  }

  /** Ending the part being searched (queue empty): with it appended when
      non-empty, the parts number `count` and split the visited nodes. */
  lemma CloseCurrent(g: Graph, visited: set<nat>, queue: seq<nat>, gNodes: set<nat>,
                     comps: seq<set<nat>>, count: nat, seed: nat, path: map<nat, seq<nat>>)
    requires WellFormed(g) && Searching(g, visited, queue, {}, gNodes, comps, count, seed, path)
    ensures var comps' := if |gNodes| > 0 then comps + [gNodes] else comps;
      |comps'| == count && Parts(g, comps', {}, visited) && Union(comps') == visited
  {
    assert visited == Union(comps) + gNodes;
    if count > 0 {
      assert seed in gNodes;
      SpanningConnected(g, gNodes, seed, path);
      PartsAppend(g, comps, gNodes, visited);
    } else {
      assert Union(comps) + {} == Union(comps);
    }
  }

  /** The seed branch of the loop: the current part is closed and a new one
      is started from the unvisited node n. */
  lemma SeedStep(g: Graph, visited: set<nat>, gNodes: set<nat>, comps: seq<set<nat>>,
                 count: nat, seed: nat, path: map<nat, seq<nat>>, n: nat)
    requires WellFormed(g) && Searching(g, visited, [], {}, gNodes, comps, count, seed, path)
    requires n < |g| && n !in visited
    ensures Searching(g, visited, [n], {n}, {},
                      if |gNodes| > 0 then comps + [gNodes] else comps,
                      count + 1, n, path[n := [n]])
  {
    CloseCurrent(g, visited, [], gNodes, comps, count, seed, path);
    SeedQueued(g, visited, path, n);
  }

  /** A freshly queued seed: the queue holds just n, whose walk is itself. */
  lemma SeedQueued(g: Graph, visited: set<nat>, path: map<nat, seq<nat>>, n: nat)
    requires n < |g| && n !in visited
    ensures QueueOk(g, visited, [n], {n}) && Spanning(g, {}, {n}, n, path[n := [n]])
  {
    assert Elems([n]) == {n} by {
      assert [n][0] == n;
    }
    assert {} + {n} == {n} && {n} + {n} == {n};
    assert IsPathIn(g, {n}, [n]);
  }

  lemma PopFront(queue: seq<nat>, qSet: set<nat>)
    requires queue != [] && NoDup(queue) && qSet == Elems(queue)
    ensures NoDup(queue[1..]) && Elems(queue[1..]) == qSet - {queue[0]}
  {
    assert queue == [queue[0]] + queue[1..];
  }

  /** The queue set after visiting cur: cur leaves it, and every input and
      output of cur not yet visited joins it. */
  ghost function QueuedAfterVisit(g: Graph, visited: set<nat>, qSet: set<nat>, cur: nat): set<nat>
    requires cur < |g|
  {
    var v := visited + {cur};
    (qSet - {cur}) + (Elems(g[cur].inputs) - v) + (Elems(g[cur].outputs) - v)
  }

  lemma PopQueue(g: Graph, visited: set<nat>, queue: seq<nat>, qSet: set<nat>,
                 queue': seq<nat>, qSet': set<nat>)
    requires WellFormed(g) && QueueOk(g, visited, queue, qSet) && queue != []
    requires NoDup(queue') && qSet' == Elems(queue')
    requires qSet' == QueuedAfterVisit(g, visited, qSet, queue[0])
    ensures QueueOk(g, visited + {queue[0]}, queue', qSet')
  {
    var cur := queue[0];
    forall i | 0 <= i < |queue'| ensures queue'[i] < |g| && queue'[i] !in visited + {cur} {
      var x := queue'[i];
      assert x in qSet';
      if x in g[cur].inputs {
        var j :| 0 <= j < |g[cur].inputs| && g[cur].inputs[j] == x;
      } else if x in g[cur].outputs {
        var j :| 0 <= j < |g[cur].outputs| && g[cur].outputs[j] == x;
      } else {
        var j :| 0 <= j < |queue| && queue[j] == x;
      }
    }
  }

  lemma PopParts(g: Graph, comps: seq<set<nat>>, gNodes: set<nat>, visited: set<nat>, cur: nat)
    requires Parts(g, comps, gNodes, visited) && cur !in visited
    ensures Parts(g, comps, gNodes + {cur}, visited + {cur})
  {
    forall k | 0 <= k < |comps| ensures comps[k] !! gNodes + {cur} {
      UnionMeaning(comps, cur);
    }
  }

  lemma PopFrontier(g: Graph, visited: set<nat>, qSet: set<nat>, cur: nat)
    requires cur < |g| && Frontier(g, visited, qSet) && cur in qSet
    ensures Frontier(g, visited + {cur}, QueuedAfterVisit(g, visited, qSet, cur))
  {
  }

  /** Each node queued from cur gets the walk to cur extended by one link. */
  lemma PopSpanning(g: Graph, gNodes: set<nat>, visited: set<nat>, qSet: set<nat>,
                    seed: nat, path: map<nat, seq<nat>>, cur: nat)
    returns (path': map<nat, seq<nat>>)
    requires cur < |g| && cur in qSet && Spanning(g, gNodes, qSet, seed, path)
    ensures Spanning(g, gNodes + {cur}, QueuedAfterVisit(g, visited, qSet, cur), seed, path')
  {
    var qSet' := QueuedAfterVisit(g, visited, qSet, cur);
    var added := qSet' - qSet;
    path' := map x | x in path.Keys + added :: if x in added then path[cur] + [x] else path[x];
    forall x | x in gNodes + {cur} + qSet' ensures WalkTo(g, gNodes + {cur}, seed, path', x) {
      if x in added {
        ExtendWalk(g, gNodes, seed, path, cur, x, path');
      } else {
        KeepWalk(g, gNodes, seed, path, cur, x, path');
      }
    }
  }

  lemma ExtendWalk(g: Graph, c: set<nat>, seed: nat, path: map<nat, seq<nat>>, cur: nat,
                   x: nat, path': map<nat, seq<nat>>)
    requires WalkTo(g, c, seed, path, cur) && Linked(g, cur, x)
    requires x in path' && path'[x] == path[cur] + [x]
    ensures WalkTo(g, c + {cur}, seed, path', x)
  {
  }

  lemma KeepWalk(g: Graph, c: set<nat>, seed: nat, path: map<nat, seq<nat>>, cur: nat,
                 x: nat, path': map<nat, seq<nat>>)
    requires WalkTo(g, c, seed, path, x)
    requires x in path' && path'[x] == path[x]
    ensures WalkTo(g, c + {cur}, seed, path', x)
  {
  }


  /** The visiting branch of the loop: the front node joins the part and its
      unseen inputs and outputs are queued behind the rest. */
  lemma PopStep(g: Graph, visited: set<nat>, queue: seq<nat>, qSet: set<nat>,
                gNodes: set<nat>, comps: seq<set<nat>>, count: nat, seed: nat,
                path: map<nat, seq<nat>>, queue': seq<nat>, qSet': set<nat>)
    returns (path': map<nat, seq<nat>>)
    requires WellFormed(g) && Searching(g, visited, queue, qSet, gNodes, comps, count, seed, path)
    requires queue != [] && NoDup(queue') && qSet' == Elems(queue')
    requires qSet' == QueuedAfterVisit(g, visited, qSet, queue[0])
    ensures Searching(g, visited + {queue[0]}, queue', qSet', gNodes + {queue[0]}, comps,
                      count, seed, path')
  {
    var cur := queue[0];
    assert cur in qSet && cur < |g| && cur !in visited;
    PopQueue(g, visited, queue, qSet, queue', qSet');
    PopParts(g, comps, gNodes, visited, cur);
    PopFrontier(g, visited, qSet, cur);
    path' := PopSpanning(g, gNodes, visited, qSet, seed, path, cur);
  }

  /** Once every node is visited no node can be waiting in the queue. */
  lemma AllVisitedEmptiesQueue(g: Graph, visited: set<nat>, queue: seq<nat>, qSet: set<nat>)
    requires QueueOk(g, visited, queue, qSet)
    requires visited <= AllNodes(g) && |visited| == |AllNodes(g)|
    ensures visited == AllNodes(g) && qSet == {}
  {
    SubsetCard(visited, AllNodes(g));
    assert visited == AllNodes(g);
  }

  /** The first branch of the loop body: the front node leaves the queue,
      joins the visited nodes and the current part, and its inputs and then
      its outputs are traversed. */
  method VisitFront(g: Graph, visited: set<nat>, queue: seq<nat>, qSet: set<nat>,
                    gNodes: set<nat>, ghost comps: seq<set<nat>>, ghost count: nat,
                    ghost seed: nat, ghost path: map<nat, seq<nat>>)
    returns (visited': set<nat>, queue': seq<nat>, qSet': set<nat>, gNodes': set<nat>,
             ghost path': map<nat, seq<nat>>)
    requires WellFormed(g) && queue != []
    requires Searching(g, visited, queue, qSet, gNodes, comps, count, seed, path)
    ensures visited' == visited + {queue[0]} && |visited'| == |visited| + 1
    ensures gNodes' == gNodes + {queue[0]}
    ensures var first := Unseen(g[queue[0]].inputs, visited' + (qSet - {queue[0]}));
      queue' == queue[1..] + first + Unseen(g[queue[0]].outputs, visited' + Elems(queue[1..] + first))
    ensures Searching(g, visited', queue', qSet', gNodes', comps, count, seed, path')
  {
    PopFront(queue, qSet);
    var cur := queue[0];
    assert cur < |g| && cur !in visited;
    queue' := queue[1..];
    qSet' := qSet - {cur};
    visited' := visited + {cur};
    gNodes' := gNodes + {cur};
    queue', qSet' := Traverse(g[cur].inputs, visited', queue', qSet');
    queue', qSet' := Traverse(g[cur].outputs, visited', queue', qSet');
    path' := PopStep(g, visited, queue, qSet, gNodes, comps, count, seed, path, queue', qSet');
  }

  /** The second branch of the loop body, taken when the queue is empty:
      counts a new part, keeps the finished one if it has nodes, and queues
      an unvisited node to seed the new part. */
  method StartPart(g: Graph, nodes: set<nat>, visited: set<nat>, gNodes: set<nat>,
                   comps: seq<set<nat>>, count: nat, ghost seed: nat,
                   ghost path: map<nat, seq<nat>>)
    returns (comps': seq<set<nat>>, count': nat, gNodes': set<nat>, queue': seq<nat>,
             qSet': set<nat>, ghost seed': nat, ghost path': map<nat, seq<nat>>)
    requires WellFormed(g) && nodes == AllNodes(g) && |visited| != |nodes|
    requires Searching(g, visited, [], {}, gNodes, comps, count, seed, path)
    ensures count' == count + 1 && gNodes' == {}
    ensures comps' == if |gNodes| > 0 then comps + [gNodes] else comps
    ensures |queue'| == 1 && queue'[0] in nodes - visited
    ensures Searching(g, visited, queue', qSet', gNodes', comps', count', seed', path')
  {
    count' := count + 1;
    comps' := comps;
    if |gNodes| > 0 {
      comps' := comps' + [gNodes];
    }
    gNodes' := {};
    var n := PickUnvisited(nodes, visited);
    queue' := [n];
    qSet' := {n};
    SeedStep(g, visited, gNodes, comps, count, seed, path, n);
    seed', path' := n, path[n := [n]];
  }

  method GraphNum(g: Graph) returns (count: nat, comps: seq<set<nat>>)
    requires WellFormed(g)
    ensures |comps| == count
    ensures Disjoint(comps) && Union(comps) == AllNodes(g)
    ensures AllConnected(g, comps)
    ensures MirroredEdges(g) ==> AllClosed(g, comps)
    ensures count == 0 <==> |g| == 0
  {
    var nodes := AllNodes(g);
    var visited: set<nat> := {};
    var queue: seq<nat> := [];
    comps := [];
    var gNodes: set<nat> := {};
    var qSet: set<nat> := {};
    count := 0;
    ghost var seed: nat := 0;
    ghost var path: map<nat, seq<nat>> := map[];
    while |visited| != |nodes|
      invariant Searching(g, visited, queue, qSet, gNodes, comps, count, seed, path)
      invariant |visited| <= |nodes|
      decreases |nodes| - |visited|, if queue == [] then 1 else 0
    {
      if queue != [] {
        visited, queue, qSet, gNodes, path :=
          VisitFront(g, visited, queue, qSet, gNodes, comps, count, seed, path);
        SubsetCard(visited, nodes);
      } else {
        comps, count, gNodes, queue, qSet, seed, path :=
          StartPart(g, nodes, visited, gNodes, comps, count, seed, path);
      }
    }
    AllVisitedEmptiesQueue(g, visited, queue, qSet);
    CloseCurrent(g, visited, queue, gNodes, comps, count, seed, path);
    if |gNodes| > 0 {
      comps := comps + [gNodes];
    }
    NoPartsOnlyForEmptyGraph(g, comps);
  }

  lemma PathWiden(g: Graph, c: set<nat>, d: set<nat>, p: seq<nat>)
    requires IsPathIn(g, c, p) && c <= d
    ensures IsPathIn(g, d, p)
  {
  }

  /** With mirrored edges a walk can be taken backwards. */
  lemma ReversePath(g: Graph, c: set<nat>, p: seq<nat>) returns (q: seq<nat>)
    requires WellFormed(g) && MirroredEdges(g) && IsPathIn(g, c, p)
    ensures IsPathIn(g, c, q) && q[0] == p[|p| - 1] && q[|q| - 1] == p[0]
  {
    q := seq(|p|, i requires 0 <= i < |p| => p[|p| - 1 - i]);
    forall i | 0 <= i < |q| - 1 ensures Linked(g, q[i], q[i + 1]) {
      LinkedSymmetric(g, p[|p| - 2 - i], p[|p| - 1 - i]);
    }
  }

  /** A walk to x followed by a walk from x. */
  lemma JoinPaths(g: Graph, c: set<nat>, p: seq<nat>, q: seq<nat>) returns (r: seq<nat>)
    requires IsPathIn(g, c, p) && IsPathIn(g, c, q) && p[|p| - 1] == q[0]
    ensures IsPathIn(g, c, r) && r[0] == p[0] && r[|r| - 1] == q[|q| - 1]
  {
    r := p + q[1..];
    forall i | 0 <= i < |r| - 1 ensures Linked(g, r[i], r[i + 1]) {
      if i < |p| - 1 {
        assert r[i] == p[i] && r[i + 1] == p[i + 1];
      } else {
        assert r[i] == q[i - |p| + 1] && r[i + 1] == q[i - |p| + 2];
      }
    }
  }

  /** A walk that starts in a part closed under links never leaves it. */
  lemma {:induction false} WalkStaysInPart(g: Graph, c: set<nat>, d: set<nat>, p: seq<nat>, i: nat)
    requires ClosedUnderLinks(g, c) && IsPathIn(g, d, p) && p[0] in c && i < |p|
    ensures p[i] in c
  {
    if i > 0 {
      WalkStaysInPart(g, c, d, p, i - 1);
      assert Linked(g, p[i - 1], p[i]);
    }
  }

  /** When every edge is recorded at both ends, the parts GraphNum finds are
      the weakly connected components: a node shares a with its part exactly
      when some walk leads from a to it. */
  lemma PartsAreReachClasses(g: Graph, comps: seq<set<nat>>, k: nat, a: nat, b: nat)
    requires WellFormed(g) && MirroredEdges(g)
    requires Union(comps) == AllNodes(g) && AllConnected(g, comps) && AllClosed(g, comps)
    requires k < |comps| && a in comps[k]
    ensures b in comps[k] <==> ReachesWithin(g, AllNodes(g), a, b)
  {
    var c := comps[k];
    assert c <= AllNodes(g) by {
      forall x | x in c ensures x in AllNodes(g) {
        UnionMeaning(comps, x);
      }
    }
    if b in c {
      assert Connected(g, c);
      var s :| s in c && forall x :: x in c ==> ReachesWithin(g, c, s, x);
      assert ReachesWithin(g, c, s, a) && ReachesWithin(g, c, s, b);
      var pa :| IsPathIn(g, c, pa) && pa[0] == s && pa[|pa| - 1] == a;
      var pb :| IsPathIn(g, c, pb) && pb[0] == s && pb[|pb| - 1] == b;
      var back := ReversePath(g, c, pa);
      var r := JoinPaths(g, c, back, pb);
      PathWiden(g, c, AllNodes(g), r);
    }
    if ReachesWithin(g, AllNodes(g), a, b) {
      var p :| IsPathIn(g, AllNodes(g), p) && p[0] == a && p[|p| - 1] == b;
      WalkStaysInPart(g, c, AllNodes(g), p, |p| - 1);
    }
  }

  /** Connected parts are never empty, so there are none exactly when the
      graph has no node. */
  lemma NoPartsOnlyForEmptyGraph(g: Graph, comps: seq<set<nat>>)
    requires Union(comps) == AllNodes(g) && AllConnected(g, comps)
    ensures |comps| == 0 <==> |g| == 0
  {
    if |comps| > 0 {
      assert Connected(g, comps[0]);
      var s :| s in comps[0] && forall x :: x in comps[0] ==> ReachesWithin(g, comps[0], s, x);
      UnionMeaning(comps, s);
    }
    if |g| > 0 {
      assert 0 in AllNodes(g);
    }
  }
}
