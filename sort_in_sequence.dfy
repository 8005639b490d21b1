/**
 SortOperationsInSequence: replays an externally given list of operator
 descriptors (the graph's kAllOpDescs attribute) as concrete operation nodes.
 It keeps, for every operation, the number of its preceding operations not
 yet emitted (`op_deps`), the operations waiting on each operation
 (`pending_ops`) and the operations whose count is zero (`ready_ops`); each
 descriptor must match exactly one ready operation.
 */
module SequenceReconciler {
  import opened GraphModel
  import opened OperationAdjacency

  /** What the set-up loop enforces on an input of an operation: it is a
      variable with either no producer or exactly one, an operation. */
  predicate InputWellFormed(g: Graph, v: nat)
    requires WellFormed(g) && v < |g|
  {
    IsVar(g, v) && (|g[v].inputs| == 0 || (|g[v].inputs| == 1 && IsOp(g, g[v].inputs[0])))
  }

  /** Every input of node n passes that check. */
  predicate InputsChecked(g: Graph, n: nat)
    requires WellFormed(g) && n < |g|
  {
    forall j :: 0 <= j < |g[n].inputs| ==> InputWellFormed(g, g[n].inputs[j])
  }

  predicate SingleProducers(g: Graph)
    requires WellFormed(g)
  {
    forall n: nat :: n < |g| && IsOp(g, n) ==> InputsChecked(g, n)
  }

  /** The set-up check is stricter than the one BuildOperationAdjList makes. */
  lemma SingleProducersAreOps(g: Graph)
    requires WellFormed(g) && SingleProducers(g)
    ensures ProducersAreOps(g)
  {
    forall n: nat, p | n < |g| && IsOp(g, n) && p in Predecessors(g, n)
      ensures IsOp(g, p)
    {
      var jj :| 0 <= jj < |g[n].inputs| && p in g[g[n].inputs[jj]].inputs;
      assert InputsChecked(g, n);
      assert InputWellFormed(g, g[n].inputs[jj]);
    }
  }

  /** The operations that are not yet emitted and all of whose preceding
      operations are. */
  function Ready(g: Graph, done: set<nat>): (r: set<nat>)
    requires WellFormed(g)
    ensures r <= OpNodes(g)
  {
    set n | n in OpNodes(g) && n !in done && Predecessors(g, n) <= done
  }

  /** Node n is an operation whose descriptor matches d. */
  predicate NodeMatches(g: Graph, n: nat, d: OpDesc) {
    n < |g| && g[n].kind.Operation? && SameOpDesc(d, g[n].kind.op)
  }

  function Matching(g: Graph, candidates: set<nat>, d: OpDesc): (r: set<nat>)
    ensures forall n :: n in r <==> n in candidates && NodeMatches(g, n, d)
  {
    set n | n in candidates && NodeMatches(g, n, d)
  }

  lemma SingletonOfSizeOne(s: set<nat>, x: nat)
    requires x in s && |s| == 1
    ensures s == {x}
  {
    if s != {x} {
      SubsetCard({x}, s);
    }
  }

  /** One step of the replay: the one operation of `ready` that matches d,
      or the failure the step raises. */
  ghost function Pick(g: Graph, ready: set<nat>, d: OpDesc): (r: Result<nat>)
    ensures r.Ok? ==> r.value in ready && NodeMatches(g, r.value, d)
    ensures r.Ok? ==> forall m :: m in ready && NodeMatches(g, m, d) ==> m == r.value
    ensures r.Err? ==> r.error == NoMatchingOperation(d.opType) || r.error == AmbiguousMatch(d.opType)
    ensures r == Err(NoMatchingOperation(d.opType)) <==>
            forall m :: m in ready ==> !NodeMatches(g, m, d)
    ensures r.Ok? <==> |Matching(g, ready, d)| == 1
    ensures r == Err(AmbiguousMatch(d.opType)) <==> |Matching(g, ready, d)| > 1
  {
    var m := Matching(g, ready, d);
    if m == {} then Err(NoMatchingOperation(d.opType))
    else if |m| > 1 then Err(AmbiguousMatch(d.opType))
    else
      var n :| n in m;
      SingletonOfSizeOne(m, n);
      Ok(n)
  }

  /** The replay of `ops` after the operations in `done` were emitted. */
  ghost function ReplayFrom(g: Graph, ops: seq<OpDesc>, done: seq<nat>): Result<seq<nat>>
    requires WellFormed(g)
    decreases |ops|
  {
    if ops == [] then Ok(done)
    else match Pick(g, Ready(g, Elems(done)), ops[0])
      case Err(e) => Err(e)
      case Ok(n) => ReplayFrom(g, ops[1..], done + [n])
  }

  /** s lists distinct operations, each after all of its preceding ones. */
  ghost predicate DependencyOrdered(g: Graph, s: seq<nat>)
    requires WellFormed(g)
  {
    NoDup(s) &&
    forall i :: 0 <= i < |s| ==> s[i] in OpNodes(g) && Predecessors(g, s[i]) <= Elems(s[..i])
  }

  /** s continues `done` with one operation per descriptor of `ops`, each
      matching its descriptor, in an order the dependencies allow. */
  ghost predicate ExtendsSchedule(g: Graph, ops: seq<OpDesc>, done: seq<nat>, s: seq<nat>)
    requires WellFormed(g)
  {
    && |s| == |done| + |ops|
    && s[..|done|] == done
    && DependencyOrdered(g, s)
    && forall i :: |done| <= i < |s| ==> NodeMatches(g, s[i], ops[i - |done|])
  }

  ghost predicate IsSchedule(g: Graph, ops: seq<OpDesc>, s: seq<nat>)
    requires WellFormed(g)
  {
    ExtendsSchedule(g, ops, [], s)
  }

  lemma DependencyOrderedAppend(g: Graph, done: seq<nat>, n: nat)
    requires WellFormed(g) && DependencyOrdered(g, done) && n in Ready(g, Elems(done))
    ensures DependencyOrdered(g, done + [n])
  {
    var d := done + [n];
    forall i | 0 <= i < |d|
      ensures d[i] in OpNodes(g) && Predecessors(g, d[i]) <= Elems(d[..i])
    {
      if i < |done| {
        assert d[..i] == done[..i];
      } else {
        assert d[..i] == done;
      }
    }
  }

  /** What a successful replay returns is a schedule for `ops`. */
  lemma {:induction false} ReplaySound(g: Graph, ops: seq<OpDesc>, done: seq<nat>)
    requires WellFormed(g) && DependencyOrdered(g, done)
    requires ReplayFrom(g, ops, done).Ok?
    ensures ExtendsSchedule(g, ops, done, ReplayFrom(g, ops, done).value)
    decreases |ops|
  {
    if ops != [] {
      var n := Pick(g, Ready(g, Elems(done)), ops[0]).value;
      var done' := done + [n];
      DependencyOrderedAppend(g, done, n);
      assert ReplayFrom(g, ops, done) == ReplayFrom(g, ops[1..], done');
      ReplaySound(g, ops[1..], done');
      var s := ReplayFrom(g, ops, done).value;
      assert s[..|done'|] == done';
      assert s[..|done|] == done'[..|done|];
      assert ExtendsSchedule(g, ops[1..], done', s);
      forall i | |done| <= i < |s|
        ensures NodeMatches(g, s[i], ops[i - |done|])
      {
        if i > |done| {
          assert ops[i - |done|] == ops[1..][i - |done'|];
        } else {
          assert s[i] == s[..|done'|][|done|] == n;
        }
      }
    }
  }

  /** Conversely, if a schedule exists, the replay returns exactly it, unless
      two ready operations carry matching descriptors at some step: the
      schedule is then the only one, and a replay that finds no ready match
      proves that there is no schedule at all. */
  lemma {:induction false} ScheduleIsReplayed(g: Graph, ops: seq<OpDesc>, done: seq<nat>, s: seq<nat>)
    requires WellFormed(g) && ExtendsSchedule(g, ops, done, s)
    ensures ReplayFrom(g, ops, done) == Ok(s) ||
            (ReplayFrom(g, ops, done).Err? && ReplayFrom(g, ops, done).error.AmbiguousMatch?)
    decreases |ops|
  {
    if ops == [] {
      assert s == s[..|done|];
    } else {
      var k := |done|;
      var x := s[k];
      assert s[..k] == done;
      assert x !in done by {
        forall i | 0 <= i < k ensures done[i] != x {
          assert done[i] == s[i];
        }
      }
      assert Predecessors(g, x) <= Elems(done);
      assert x in Ready(g, Elems(done));
      assert NodeMatches(g, x, ops[0]);
      var r := Pick(g, Ready(g, Elems(done)), ops[0]);
      if r.Ok? {
        assert r.value == x;
        var done' := done + [x];
        assert s[..k + 1] == done';
        forall i | |done'| <= i < |s|
          ensures NodeMatches(g, s[i], ops[1..][i - |done'|])
        {
          assert ops[1..][i - |done'|] == ops[i - |done|];
        }
        ScheduleIsReplayed(g, ops[1..], done', s);
      }
    }
  }

  /** The operations recorded in `pending_ops` under p. */
  function PendingOf(pendingOps: map<nat, set<nat>>, p: nat): set<nat> {
    if p in pendingOps then pendingOps[p] else {}
  }

  /** `pending_ops` after the set-up loop reached node i and collected the
      preceding operations `partial` of node i: under every p, the operations
      p precedes. */
  ghost predicate Waiting(g: Graph, pendingOps: map<nat, set<nat>>, i: nat, partial: set<nat>)
    requires WellFormed(g) && i <= |g|
  {
    forall p: nat, n: nat {:trigger n in PendingOf(pendingOps, p)} :: n in PendingOf(pendingOps, p) <==>
      (n < i && IsOp(g, n) && p in Predecessors(g, n)) || (n == i && p in partial)
  }

  /** `op_deps` counts, for every operation below i, its preceding
      operations not in `done`. */
  ghost predicate Counts(g: Graph, opDeps: map<nat, nat>, i: nat, done: set<nat>)
    requires WellFormed(g) && i <= |g|
  {
    forall n: nat :: n < i && IsOp(g, n) ==> n in opDeps && opDeps[n] == |Predecessors(g, n) - done|
  }

  /** Every emitted operation's preceding operations were emitted too. */
  ghost predicate DownClosed(g: Graph, done: set<nat>)
    requires WellFormed(g)
  {
    && (forall x :: x in done ==> x in OpNodes(g))
    && (forall x {:trigger Predecessors(g, x)} :: x in done && x < |g| ==> Predecessors(g, x) <= done)
  }

  lemma WaitingAdd(g: Graph, pendingOps: map<nat, set<nat>>, i: nat, partial: set<nat>, p: nat)
    requires WellFormed(g) && i < |g| && Waiting(g, pendingOps, i, partial)
    ensures Waiting(g, pendingOps[p := PendingOf(pendingOps, p) + {i}], i, partial + {p})
  {
    var pm := pendingOps[p := PendingOf(pendingOps, p) + {i}];
    assert forall q: nat :: PendingOf(pm, q) == if q == p then PendingOf(pendingOps, p) + {i} else PendingOf(pendingOps, q);
    forall q: nat, n: nat
      ensures n in PendingOf(pm, q) <==>
              (n < i && IsOp(g, n) && q in Predecessors(g, n)) || (n == i && q in partial + {p})
    {
      assert n in PendingOf(pendingOps, q) <==>
             (n < i && IsOp(g, n) && q in Predecessors(g, n)) || (n == i && q in partial);
      if q == p {
        assert PendingOf(pm, q) == PendingOf(pendingOps, p) + {i};
      } else {
        assert PendingOf(pm, q) == PendingOf(pendingOps, q);
      }
    }
  }

  lemma WaitingNext(g: Graph, pendingOps: map<nat, set<nat>>, i: nat)
    requires WellFormed(g) && i < |g|
    requires Waiting(g, pendingOps, i, if IsOp(g, i) then Predecessors(g, i) else {})
    ensures Waiting(g, pendingOps, i + 1, {})
  {
  }

  /** The body of the set-up loop for one operation: checks each input
      variable, and records the producer of each under `pending_ops`. */
  method CollectPrecedingOps(g: Graph, node: nat, pendingOps: map<nat, set<nat>>)
    returns (ok: bool, precedingOps: set<nat>, pendingOps': map<nat, set<nat>>)
    requires WellFormed(g) && node < |g| && IsOp(g, node)
    requires Waiting(g, pendingOps, node, {})
    ensures ok <==> InputsChecked(g, node)
    ensures ok ==> precedingOps == Predecessors(g, node) && Waiting(g, pendingOps', node, precedingOps)
  {
    precedingOps, pendingOps' := {}, pendingOps;
    var j := 0;
    while j < |g[node].inputs|
      invariant j <= |g[node].inputs|
      invariant forall jj :: 0 <= jj < j ==> InputWellFormed(g, g[node].inputs[jj])
      invariant precedingOps == ProducersUpTo(g, node, j)
      invariant Waiting(g, pendingOps', node, precedingOps)
    {
      var v := g[node].inputs[j];
      if !g[v].kind.Variable? {
        assert !InputWellFormed(g, g[node].inputs[j]);
        return false, precedingOps, pendingOps';
      }
      if |g[v].inputs| != 0 {
        if !(|g[v].inputs| == 1 && g[g[v].inputs[0]].kind.Operation?) {
          assert !InputWellFormed(g, g[node].inputs[j]);
          return false, precedingOps, pendingOps';
        }
        var p := g[v].inputs[0];
        assert Elems(g[v].inputs) == {p};
        ProducersUpToStep(g, node, j);
        WaitingAdd(g, pendingOps', node, precedingOps, p);
        precedingOps := precedingOps + {p};
        pendingOps' := pendingOps'[p := PendingOf(pendingOps', p) + {node}];
      } else {
        assert Elems(g[v].inputs) == {};
        ProducersUpToStep(g, node, j);
      }
      j := j + 1;
    }
    ok := true;
  }

  /** The three maps of the set-up loop once it has handled the first i
      nodes. */
  ghost predicate SetUpTo(g: Graph, i: nat, opDeps: map<nat, nat>,
                          pendingOps: map<nat, set<nat>>, readyOps: set<nat>)
    requires WellFormed(g) && i <= |g|
  {
    && Counts(g, opDeps, i, {})
    && Waiting(g, pendingOps, i, {})
    && (forall n: nat :: n in readyOps <==> n < i && IsOp(g, n) && Predecessors(g, n) == {})
  }

  /** Handling operation i: its count is the number of its preceding
      operations, and it is ready when there are none. */
  lemma SetUpOperation(g: Graph, i: nat, opDeps: map<nat, nat>, pendingOps: map<nat, set<nat>>,
                       pendingOps': map<nat, set<nat>>, readyOps: set<nat>, precedingOps: set<nat>)
    requires WellFormed(g) && i < |g| && IsOp(g, i) && SetUpTo(g, i, opDeps, pendingOps, readyOps)
    requires precedingOps == Predecessors(g, i) && Waiting(g, pendingOps', i, precedingOps)
    ensures SetUpTo(g, i + 1, opDeps[i := |precedingOps|], pendingOps',
                    if precedingOps == {} then readyOps + {i} else readyOps)
  {
    assert precedingOps - {} == precedingOps;
    WaitingNext(g, pendingOps', i);
  }

  /** Variable nodes are skipped. */
  lemma SetUpVariable(g: Graph, i: nat, opDeps: map<nat, nat>, pendingOps: map<nat, set<nat>>,
                      readyOps: set<nat>)
    requires WellFormed(g) && i < |g| && !IsOp(g, i) && SetUpTo(g, i, opDeps, pendingOps, readyOps)
    ensures SetUpTo(g, i + 1, opDeps, pendingOps, readyOps)
  {
    WaitingNext(g, pendingOps, i);
  }

  /** The set-up loop: `op_deps`, `pending_ops` and `ready_ops` before any
      operation is emitted, or a failure when an input is not a variable
      with at most one producing operation. */
  method InitDependencies(g: Graph)
    returns (ok: bool, opDeps: map<nat, nat>, pendingOps: map<nat, set<nat>>, readyOps: set<nat>)
    requires WellFormed(g)
    ensures ok <==> SingleProducers(g)
    ensures ok ==> Counts(g, opDeps, |g|, {}) && Waiting(g, pendingOps, |g|, {})
    ensures ok ==> readyOps == Ready(g, {})
  {
    opDeps, pendingOps, readyOps := map[], map[], {};
    assert forall p: nat :: PendingOf(pendingOps, p) == {};
    var i := 0;
    while i < |g|
      invariant i <= |g|
      invariant forall n: nat :: n < i && IsOp(g, n) ==> InputsChecked(g, n)
      invariant SetUpTo(g, i, opDeps, pendingOps, readyOps)
    {
      if g[i].kind.Operation? {
        var precedingOps, pendingOps';
        ok, precedingOps, pendingOps' := CollectPrecedingOps(g, i, pendingOps);
        if !ok {
          return;
        }
        SetUpOperation(g, i, opDeps, pendingOps, pendingOps', readyOps, precedingOps);
        opDeps, pendingOps := opDeps[i := |precedingOps|], pendingOps';
        if precedingOps == {} {
          readyOps := readyOps + {i};
        }
      } else {
        SetUpVariable(g, i, opDeps, pendingOps, readyOps);
      }
      i := i + 1;
    }
    assert readyOps == Ready(g, {});
    ok := true;
  }

  /** The scan of `ready_ops` for the one node whose descriptor matches d. */
  method FindReadyMatch(g: Graph, readyOps: set<nat>, d: OpDesc) returns (r: Result<nat>)
    ensures r == Pick(g, readyOps, d)
  {
    var found: Option<nat> := None;
    var scan := readyOps;
    while scan != {}
      invariant scan <= readyOps
      invariant found.None? ==> Matching(g, readyOps - scan, d) == {}
      invariant found.Some? ==> Matching(g, readyOps - scan, d) == {found.value}
    {
      var n :| n in scan;
      scan := scan - {n};
      if NodeMatches(g, n, d) {
        if found.Some? {
          SubsetCard({found.value, n}, Matching(g, readyOps, d));
          return Err(AmbiguousMatch(d.opType));
        }
        found := Some(n);
      }
    }
    if found.None? {
      return Err(NoMatchingOperation(d.opType));
    }
    assert readyOps - scan == readyOps;
    return Ok(found.value);
  }

  /** The successors whose count drops to zero when their counts are each
      lowered by one. */
  function Released(opDeps: map<nat, nat>, successors: set<nat>): set<nat>
    requires successors <= opDeps.Keys
  {
    set s | s in successors && opDeps[s] == 1
  }

  /** The loop over `pending_ops[found_node]`: lowers the count of every
      successor by one and adds those that reach zero to `ready_ops`. */
  method ReleaseSuccessors(opDeps: map<nat, nat>, readyOps: set<nat>, successors: set<nat>)
    returns (opDeps': map<nat, nat>, readyOps': set<nat>)
    requires forall s :: s in successors ==> s in opDeps && opDeps[s] >= 1
    ensures opDeps'.Keys == opDeps.Keys
    ensures forall n :: n in opDeps ==> opDeps'[n] == if n in successors then opDeps[n] - 1 else opDeps[n]
    ensures readyOps' == readyOps + Released(opDeps, successors)
  {
    opDeps', readyOps' := opDeps, readyOps;
    var rest := successors;
    while rest != {}
      invariant rest <= successors
      invariant opDeps'.Keys == opDeps.Keys
      invariant forall n :: n in opDeps ==> opDeps'[n] == if n in successors - rest then opDeps[n] - 1 else opDeps[n]
      invariant readyOps' == readyOps + Released(opDeps, successors - rest)
    {
      var s :| s in rest;
      rest := rest - {s};
      opDeps' := opDeps'[s := opDeps'[s] - 1];
      if opDeps'[s] == 0 {
        readyOps' := readyOps' + {s};
      }
    }
  }

  lemma ElemsAppend(s: seq<nat>, x: nat)
    ensures Elems(s + [x]) == Elems(s) + {x}
  {
  }

  /** Emitting `node` lowers the count of exactly its successors by one. */
  lemma CountAfterEmit(preds: set<nat>, done: set<nat>, node: nat)
    requires node !in done
    ensures node in preds ==> |preds - done| == |preds - (done + {node})| + 1
    ensures node !in preds ==> preds - done == preds - (done + {node})
  {
    if node in preds {
      assert preds - done == (preds - (done + {node})) + {node};
    }
  }

  /** Every successor of a ready node still counts that node as pending. */
  lemma SuccessorsCounted(g: Graph, done: set<nat>, node: nat, successors: set<nat>,
                          opDeps: map<nat, nat>)
    requires WellFormed(g) && node in Ready(g, done)
    requires Counts(g, opDeps, |g|, done)
    requires forall n: nat :: n in successors <==> n < |g| && IsOp(g, n) && node in Predecessors(g, n)
    ensures forall s :: s in successors ==> s in opDeps && opDeps[s] >= 1
  {
    forall s | s in successors ensures s in opDeps && opDeps[s] >= 1 {
      assert node in Predecessors(g, s) - done;
    }
  }

  /** After a ready node is emitted, the counts lowered on its successors are
      again the counts of preceding operations not emitted. */
  lemma CountsAfterEmit(g: Graph, done: set<nat>, node: nat, successors: set<nat>,
                        opDeps: map<nat, nat>, opDeps': map<nat, nat>)
    requires WellFormed(g) && node in Ready(g, done)
    requires Counts(g, opDeps, |g|, done)
    requires forall n: nat :: n in successors <==> n < |g| && IsOp(g, n) && node in Predecessors(g, n)
    requires forall s :: s in successors ==> s in opDeps && opDeps[s] >= 1
    requires opDeps'.Keys == opDeps.Keys
    requires forall n :: n in opDeps ==> opDeps'[n] == if n in successors then opDeps[n] - 1 else opDeps[n]
    ensures Counts(g, opDeps', |g|, done + {node})
  {
    forall n: nat | n < |g| && IsOp(g, n)
      ensures n in opDeps' && opDeps'[n] == |Predecessors(g, n) - (done + {node})|
    {
      CountAfterEmit(Predecessors(g, n), done, node);
    }
  }

  /** After a ready node is emitted, the ready set loses it and gains exactly
      the successors whose count reached zero. */
  lemma ReadyAfterEmit(g: Graph, done: set<nat>, node: nat, successors: set<nat>,
                       opDeps: map<nat, nat>)
    requires WellFormed(g) && DownClosed(g, done) && node in Ready(g, done)
    requires Counts(g, opDeps, |g|, done)
    requires forall n: nat :: n in successors <==> n < |g| && IsOp(g, n) && node in Predecessors(g, n)
    requires successors <= opDeps.Keys
    ensures (Ready(g, done) + Released(opDeps, successors)) - {node} == Ready(g, done + {node})
  {
    var before := (Ready(g, done) + Released(opDeps, successors)) - {node};
    var after := Ready(g, done + {node});
    assert before <= after by {
      forall n | n in before ensures n in after {
        ReadyAfterEmitAt(g, done, node, successors, opDeps, n);
      }
    }
    assert after <= before by {
      forall n | n in after ensures n in before {
        ReadyAfterEmitAt(g, done, node, successors, opDeps, n);
      }
    }
  }

  lemma DownClosedAfterEmit(g: Graph, done: set<nat>, node: nat)
    requires WellFormed(g) && DownClosed(g, done) && node in Ready(g, done)
    ensures DownClosed(g, done + {node})
  {
  }

  lemma ReadyAfterEmitAt(g: Graph, done: set<nat>, node: nat, successors: set<nat>,
                         opDeps: map<nat, nat>, n: nat)
    requires WellFormed(g) && DownClosed(g, done) && node in Ready(g, done)
    requires Counts(g, opDeps, |g|, done)
    requires n in successors <==> n < |g| && IsOp(g, n) && node in Predecessors(g, n)
    requires successors <= opDeps.Keys
    ensures n in (Ready(g, done) + Released(opDeps, successors)) - {node} <==> n in Ready(g, done + {node})
  {
    if n < |g| && IsOp(g, n) && n != node {
      var preds := Predecessors(g, n);
      if node in preds {
        ReleasedIsReady(g, done, node, preds, n);
        if n in Released(opDeps, successors) {
          assert |preds - done| == 1;
        }
      }
    }
  }

  /** A node one of whose preceding operations is the emitted `node` becomes
      ready exactly when `node` was the last one it waited on. */
  lemma ReleasedIsReady(g: Graph, done: set<nat>, node: nat, preds: set<nat>, n: nat)
    requires WellFormed(g) && DownClosed(g, done) && node in Ready(g, done)
    requires n < |g| && IsOp(g, n) && n != node && preds == Predecessors(g, n) && node in preds
    ensures n !in done
    ensures |preds - done| == 1 <==> n in Ready(g, done + {node})
  {
    assert node in preds - done;
    if |preds - done| == 1 {
      SingletonOfSizeOne(preds - done, node);
    }
    if preds <= done + {node} {
      assert preds - done == {node};
    }
  }

  /** What the main loop keeps after emitting the operations `emitted`:
      they are closed under preceding operations, `op_deps` counts what each
      operation still waits on, `ready_ops` holds the operations that wait on
      nothing, and `pending_ops` lists the successors of every operation. */
  ghost predicate Tracking(g: Graph, emitted: set<nat>, opDeps: map<nat, nat>,
                           pendingOps: map<nat, set<nat>>, readyOps: set<nat>)
    requires WellFormed(g)
  {
    && DownClosed(g, emitted)
    && Counts(g, opDeps, |g|, emitted)
    && readyOps == Ready(g, emitted)
    && Waiting(g, pendingOps, |g|, {})
  }

  lemma SuccessorsPending(g: Graph, emitted: set<nat>, node: nat, opDeps: map<nat, nat>,
                          pendingOps: map<nat, set<nat>>, readyOps: set<nat>)
    requires WellFormed(g) && Tracking(g, emitted, opDeps, pendingOps, readyOps) && node in readyOps
    ensures forall s :: s in PendingOf(pendingOps, node) ==> s in opDeps && opDeps[s] >= 1
  {
    SuccessorsCounted(g, emitted, node, PendingOf(pendingOps, node), opDeps);
  }

  /** Emitting a ready operation and releasing its successors as
      ReleaseSuccessors does keeps the loop's bookkeeping exact. */
  lemma EmitStep(g: Graph, emitted: set<nat>, node: nat, opDeps: map<nat, nat>,
                 pendingOps: map<nat, set<nat>>, readyOps: set<nat>,
                 opDeps': map<nat, nat>, released: set<nat>)
    requires WellFormed(g) && Tracking(g, emitted, opDeps, pendingOps, readyOps) && node in readyOps
    requires forall s :: s in PendingOf(pendingOps, node) ==> s in opDeps && opDeps[s] >= 1
    requires opDeps'.Keys == opDeps.Keys
    requires forall n :: n in opDeps ==>
               opDeps'[n] == if n in PendingOf(pendingOps, node) then opDeps[n] - 1 else opDeps[n]
    requires released == readyOps + Released(opDeps, PendingOf(pendingOps, node))
    ensures Tracking(g, emitted + {node}, opDeps', pendingOps, released - {node})
  {
    var successors := PendingOf(pendingOps, node);
    CountsAfterEmit(g, emitted, node, successors, opDeps, opDeps');
    ReadyAfterEmit(g, emitted, node, successors, opDeps);
    DownClosedAfterEmit(g, emitted, node);
  }

  /** SortOperationsInSequence(graph): requires the kAllOpDescs attribute,
      runs the set-up loop, then for each descriptor in turn finds its one
      ready match, releases the successors of the match and appends it. */
  method SortOperationsInSequence(g: Graph, allOpDescs: Option<seq<OpDesc>>)
    returns (r: Result<seq<nat>>)
    requires WellFormed(g)
    ensures allOpDescs.None? ==> r == Err(MissingAttribute)
    ensures allOpDescs.Some? && !SingleProducers(g) ==> r == Err(MalformedGraph)
    ensures allOpDescs.Some? && SingleProducers(g) ==> r == ReplayFrom(g, allOpDescs.value, [])
  {
    if allOpDescs.None? {
      return Err(MissingAttribute);
    }
    var ops := allOpDescs.value;
    var ok, opDeps, pendingOps, readyOps := InitDependencies(g);
    if !ok {
      return Err(MalformedGraph);
    }
    var opNodeList: seq<nat> := [];
    var t := 0;
    while t < |ops|
      invariant t <= |ops|
      invariant ReplayFrom(g, ops, []) == ReplayFrom(g, ops[t..], opNodeList)
      invariant Tracking(g, Elems(opNodeList), opDeps, pendingOps, readyOps)
    {
      var d := ops[t];
      assert ops[t..][0] == d && ops[t..][1..] == ops[t + 1..];
      var picked := FindReadyMatch(g, readyOps, d);
      if picked.Err? {
        return Err(picked.error);
      }
      var node := picked.value;
      var successors := PendingOf(pendingOps, node);
      SuccessorsPending(g, Elems(opNodeList), node, opDeps, pendingOps, readyOps);
      var opDeps', released := ReleaseSuccessors(opDeps, readyOps, successors);
      EmitStep(g, Elems(opNodeList), node, opDeps, pendingOps, readyOps, opDeps', released);
      opDeps, readyOps := opDeps', released - {node};
      ElemsAppend(opNodeList, node);
      opNodeList := opNodeList + [node];
      t := t + 1;
    }
    assert ops[t..] == [];
    return Ok(opNodeList);
  }

  /** A successful SortOperationsInSequence returns the one schedule of the
      descriptor list: one distinct operation per descriptor, matching it,
      after all of its preceding operations; and no other sequence is one. */
  lemma SequenceResultIsTheSchedule(g: Graph, ops: seq<OpDesc>, s: seq<nat>)
    requires WellFormed(g) && ReplayFrom(g, ops, []).Ok?
    ensures IsSchedule(g, ops, ReplayFrom(g, ops, []).value)
    ensures IsSchedule(g, ops, s) ==> s == ReplayFrom(g, ops, []).value
  {
    ReplaySound(g, ops, []);
    if IsSchedule(g, ops, s) {
      ScheduleIsReplayed(g, ops, [], s);
    }
  }

  /** A failure to find a ready match means that no schedule exists. */
  lemma NoMatchMeansNoSchedule(g: Graph, ops: seq<OpDesc>, s: seq<nat>)
    requires WellFormed(g)
    requires ReplayFrom(g, ops, []).Err? && ReplayFrom(g, ops, []).error.NoMatchingOperation?
    ensures !IsSchedule(g, ops, s)
  {
    if IsSchedule(g, ops, s) {
      ScheduleIsReplayed(g, ops, [], s);
    }
  }
}
