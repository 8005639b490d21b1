/**
 The IR graph the helpers of graph_helper.cc walk: a bipartite directed graph of
 operation nodes and variable nodes. A node is identified by its index in the
 graph's node sequence (the C++ code uses the node's address); its `inputs` and
 `outputs` are the indices of its neighbours, in order.
 */
module GraphModel {

  /** An operator descriptor: the operator type, its named input and output
      argument lists, and the rest of its state (the attributes), which
      descriptor matching ignores. */
  datatype OpDesc = OpDesc(
    opType: string,
    inputs: map<string, seq<string>>,
    outputs: map<string, seq<string>>,
    attrs: map<string, string>)

  datatype NodeKind = Operation(op: OpDesc) | Variable

  datatype Node = Node(name: string, kind: NodeKind, inputs: seq<nat>, outputs: seq<nat>)

  type Graph = seq<Node>

  /** The failures the helpers raise with PADDLE_ENFORCE. */
  datatype Error =
    | MalformedGraph
    | CycleDetected
    | MissingAttribute
    | NoMatchingOperation(opType: string)
    | AmbiguousMatch(opType: string)

  datatype Result<T> = Ok(value: T) | Err(error: Error)

  datatype Option<T> = None | Some(value: T)

  /** Every neighbour a node names is a node of the graph. */
  predicate WellFormed(g: Graph) {
    forall n :: 0 <= n < |g| ==>
      (forall j :: 0 <= j < |g[n].inputs| ==> g[n].inputs[j] < |g|) &&
      (forall j :: 0 <= j < |g[n].outputs| ==> g[n].outputs[j] < |g|)
  }

  predicate IsOp(g: Graph, n: nat)
    requires n < |g|
  {
    g[n].kind.Operation?
  }

  predicate IsVar(g: Graph, n: nat)
    requires n < |g|
  {
    g[n].kind.Variable?
  }

  /** The indices of all nodes of g. */
  function AllNodes(g: Graph): (r: set<nat>)
    ensures forall n: nat :: n in r <==> n < |g|
  {
    if |g| == 0 then {} else AllNodes(g[..|g| - 1]) + {|g| - 1}
  }

  function OpNodes(g: Graph): set<nat> {
    set n: nat | n < |g| && IsOp(g, n)
  }

  /** The `is_same_op_desc` comparison: type, inputs and outputs agree. */
  predicate SameOpDesc(a: OpDesc, b: OpDesc) {
    a.opType == b.opType && a.inputs == b.inputs && a.outputs == b.outputs
  }

  /** Descriptor matching is an equivalence relation that is coarser than
      equality: attributes do not take part in it. */
  lemma SameOpDescIsEquivalence(a: OpDesc, b: OpDesc, c: OpDesc)
    ensures SameOpDesc(a, a)
    ensures SameOpDesc(a, b) ==> SameOpDesc(b, a)
    ensures SameOpDesc(a, b) && SameOpDesc(b, c) ==> SameOpDesc(a, c)
    ensures a == b ==> SameOpDesc(a, b)
    ensures SameOpDesc(a, b) && a.attrs == b.attrs ==> a == b
  {
  }

  function Elems(s: seq<nat>): set<nat> {
    set x | x in s
  }

  predicate NoDup(s: seq<nat>) {
    forall i, j :: 0 <= i < j < |s| ==> s[i] != s[j]
  }

  lemma NoDupAppend(s: seq<nat>, x: nat)
    requires NoDup(s) && x !in s
    ensures NoDup(s + [x])
  {
  }

  lemma PrefixElems(s: seq<nat>, t: seq<nat>)
    requires |s| <= |t| && t[..|s|] == s
    ensures Elems(s) <= Elems(t)
  {
    forall y | y in Elems(s) ensures y in Elems(t) {
      var k :| 0 <= k < |s| && s[k] == y;
      assert t[k] == y;
    }
  }

  /** The position of x in s. */
  function IndexOf(s: seq<nat>, x: nat): (i: nat)
    requires x in s
    ensures i < |s| && s[i] == x
    ensures NoDup(s) ==> forall j :: 0 <= j < |s| && s[j] == x ==> j == i
  {
    if s[0] == x then 0 else 1 + IndexOf(s[1..], x)
  }

  lemma {:induction false} SubsetCard(a: set<nat>, b: set<nat>)
    requires a <= b
    ensures |a| <= |b|
    ensures a != b ==> |a| < |b|
  {
    if a != {} {
      var x :| x in a;
      SubsetCard(a - {x}, b - {x});
    } else if a != b {
      var y :| y in b;
      assert |b| >= 1 by { assert y in b; }
    }
  }
}
