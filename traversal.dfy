/** `traverse` of src/utils.ts: the callback runs on a node, then on each child's whole
    subtree in `ts.forEachChild` order.

    `Traverse(n)` is the sequence of nodes the callback receives. Because two different
    positions may hold equal nodes, "each node once" is stated with positions: `Paths(n)`
    lists, in the same order, the path of child indices leading to each visited node. */
module Traversal {
  import opened Wrappers
  import opened Syntax

  /** The nodes `traverse(n, cb)` passes to `cb`, in order. */
  function Traverse(n: Node): seq<Node>
    decreases n, |n.children| + 1
  {
    [n] + TraverseChildren(n, 0)
  }

  /** The callbacks made for the children of `n` from the `i`-th on. */
  function TraverseChildren(n: Node, i: nat): seq<Node>
    requires i <= |n.children|
    decreases n, |n.children| - i
  {
    if i == |n.children| then []
    else Traverse(n.children[i]) + TraverseChildren(n, i + 1)
  }

  /** The node reached from `n` by following the child indices `p`. */
  function At(n: Node, p: seq<nat>): Option<Node>
    decreases |p|
  {
    if p == [] then Some(n)
    else if p[0] < |n.children| then At(n.children[p[0]], p[1..])
    else None
  }

  function Prepend(i: nat, ps: seq<seq<nat>>): (r: seq<seq<nat>>)
    ensures |r| == |ps| && forall k :: 0 <= k < |ps| ==> r[k] == [i] + ps[k]
  {
    seq(|ps|, k requires 0 <= k < |ps| => [i] + ps[k])
  }

  /** The positions of the visited nodes, in visiting order. */
  function Paths(n: Node): seq<seq<nat>>
    decreases n, |n.children| + 1
  {
    [[]] + PathsChildren(n, 0)
  }

  function PathsChildren(n: Node, i: nat): seq<seq<nat>>
    requires i <= |n.children|
    decreases n, |n.children| - i
  {
    if i == |n.children| then []
    else Prepend(i, Paths(n.children[i])) + PathsChildren(n, i + 1)
  }

  /* ---- The k-th callback receives the node at the k-th position ---- */

  lemma AtChild(n: Node, i: nat, p: seq<nat>)
    requires i < |n.children|
    ensures At(n, [i] + p) == At(n.children[i], p)
  {
    assert ([i] + p)[1..] == p;
  }

  lemma {:induction false} TraverseFollowsPaths(n: Node)
    ensures |Traverse(n)| == |Paths(n)|
    ensures forall k :: 0 <= k < |Paths(n)| ==> At(n, Paths(n)[k]) == Some(Traverse(n)[k])
    decreases n, |n.children| + 1
  {
    TraverseChildrenFollowsPaths(n, 0);
  }

  lemma {:induction false} TraverseChildrenFollowsPaths(n: Node, i: nat)
    requires i <= |n.children|
    ensures |TraverseChildren(n, i)| == |PathsChildren(n, i)|
    ensures forall k :: 0 <= k < |PathsChildren(n, i)| ==>
      At(n, PathsChildren(n, i)[k]) == Some(TraverseChildren(n, i)[k])
    decreases n, |n.children| - i
  {
    if i < |n.children| {
      var child := n.children[i];
      TraverseFollowsPaths(child);
      TraverseChildrenFollowsPaths(n, i + 1);
      var here, rest := Prepend(i, Paths(child)), PathsChildren(n, i + 1);
      forall k | 0 <= k < |here + rest|
        ensures At(n, (here + rest)[k]) == Some((Traverse(child) + TraverseChildren(n, i + 1))[k])
      {
        if k < |here| {
          AtChild(n, i, Paths(child)[k]);
        }
      }
    }
  }

  /* ---- Every position is visited ---- */

  lemma {:induction false} PathsChildrenContain(n: Node, j: nat, i: nat, q: seq<nat>)
    requires j <= i < |n.children|
    requires q in Paths(n.children[i])
    ensures [i] + q in PathsChildren(n, j)
    decreases i - j
  {
    if j < i {
      PathsChildrenContain(n, j + 1, i, q);
    } else {
      var k :| 0 <= k < |Paths(n.children[i])| && Paths(n.children[i])[k] == q;
      assert Prepend(i, Paths(n.children[i]))[k] == [i] + q;
    }
  }

  lemma {:induction false} MemberOfPathsChildren(n: Node, i: nat, p: seq<nat>)
    requires i <= |n.children|
    requires p in PathsChildren(n, i)
    ensures |p| > 0 && i <= p[0] < |n.children| && p[1..] in Paths(n.children[p[0]])
    decreases |n.children| - i
  {
    var here := Prepend(i, Paths(n.children[i]));
    if p in here {
      var k :| 0 <= k < |here| && here[k] == p;
      assert p[1..] == Paths(n.children[i])[k];
    } else {
      MemberOfPathsChildren(n, i + 1, p);
    }
  }

  lemma {:induction false} PathsComplete(n: Node, p: seq<nat>)
    ensures p in Paths(n) <==> At(n, p).Some?
    decreases |p|
  {
    if p != [] {
      if p in Paths(n) {
        MemberOfPathsChildren(n, 0, p);
        PathsComplete(n.children[p[0]], p[1..]);
      }
      if At(n, p).Some? {
        PathsComplete(n.children[p[0]], p[1..]);
        assert p == [p[0]] + p[1..];
        PathsChildrenContain(n, 0, p[0], p[1..]);
      }
    }
  }

  /* ---- Visiting order: positions come in strictly increasing preorder ---- */

  /** The preorder on positions: a proper prefix comes first, otherwise the first
      differing index decides. */
  predicate LexLess(p: seq<nat>, q: seq<nat>)
    decreases |p|
  {
    |q| > 0 && (|p| == 0 || p[0] < q[0] || (p[0] == q[0] && LexLess(p[1..], q[1..])))
  }

  predicate StrictlyOrdered(ps: seq<seq<nat>>) {
    forall j, k :: 0 <= j < k < |ps| ==> LexLess(ps[j], ps[k])
  }

  predicate IsProperPrefix(p: seq<nat>, q: seq<nat>) {
    |p| < |q| && q[..|p|] == p
  }

  lemma {:induction false} LexLessIrreflexive(p: seq<nat>)
    ensures !LexLess(p, p)
    decreases |p|
  {
    if |p| > 0 {
      LexLessIrreflexive(p[1..]);
    }
  }

  lemma {:induction false} LexLessAsymmetric(p: seq<nat>, q: seq<nat>)
    requires LexLess(p, q)
    ensures !LexLess(q, p)
    decreases |p|
  {
    if |p| > 0 && p[0] == q[0] {
      LexLessAsymmetric(p[1..], q[1..]);
    }
  }

  lemma {:induction false} PrefixIsLess(p: seq<nat>, q: seq<nat>)
    requires IsProperPrefix(p, q)
    ensures LexLess(p, q)
    decreases |p|
  {
    if |p| > 0 {
      assert q[0] == q[..|p|][0] == p[0];
      assert q[1..][..|p| - 1] == q[..|p|][1..];
      PrefixIsLess(p[1..], q[1..]);
    }
  }

  lemma PrependKeepsOrder(i: nat, p: seq<nat>, q: seq<nat>)
    requires LexLess(p, q)
    ensures LexLess([i] + p, [i] + q)
  {
    assert ([i] + p)[1..] == p && ([i] + q)[1..] == q;
  }

  lemma {:induction false} PathsOrdered(n: Node)
    ensures StrictlyOrdered(Paths(n))
    decreases n, |n.children| + 1
  {
    PathsChildrenOrdered(n, 0);
    var rest := PathsChildren(n, 0);
    forall j, k | 0 <= j < k < |[[]] + rest|
      ensures LexLess(([[]] + rest)[j], ([[]] + rest)[k])
    {
      if j > 0 {
        assert ([[]] + rest)[j] == rest[j - 1];
      }
      assert ([[]] + rest)[k] == rest[k - 1];
    }
  }

  lemma {:induction false} PathsChildrenOrdered(n: Node, i: nat)
    requires i <= |n.children|
    ensures StrictlyOrdered(PathsChildren(n, i))
    ensures forall p :: p in PathsChildren(n, i) ==> |p| > 0 && i <= p[0]
    decreases n, |n.children| - i
  {
    if i < |n.children| {
      var child := n.children[i];
      PathsOrdered(child);
      PathsChildrenOrdered(n, i + 1);
      var here, rest := Prepend(i, Paths(child)), PathsChildren(n, i + 1);
      forall j, k | 0 <= j < k < |here + rest|
        ensures LexLess((here + rest)[j], (here + rest)[k])
      {
        if k < |here| {
          PrependKeepsOrder(i, Paths(child)[j], Paths(child)[k]);
        } else if j < |here| {
          assert (here + rest)[k] in rest;
        } else {
          assert (here + rest)[j] == rest[j - |here|];
          assert (here + rest)[k] == rest[k - |here|];
        }
      }
      forall p | p in here + rest
        ensures |p| > 0 && i <= p[0]
      {
        if p in here {
          var k :| 0 <= k < |here| && here[k] == p;
        }
      }
    }
  }

  /** traverse runs the callback once per position of the tree, on the node at that
      position, and on every node before any of its descendants. */
  lemma TraverseVisitsEachNodeOnce(n: Node)
    ensures |Traverse(n)| == |Paths(n)|
    ensures forall k :: 0 <= k < |Paths(n)| ==> At(n, Paths(n)[k]) == Some(Traverse(n)[k])
    ensures forall p :: p in Paths(n) <==> At(n, p).Some?
    ensures forall j, k :: 0 <= j < k < |Paths(n)| ==> Paths(n)[j] != Paths(n)[k]
    ensures forall j, k ::
              0 <= j < |Paths(n)| && 0 <= k < |Paths(n)| && IsProperPrefix(Paths(n)[j], Paths(n)[k])
              ==> j < k
  {
    TraverseFollowsPaths(n);
    forall p {
      PathsComplete(n, p);
    }
    PathsOrdered(n);
    var ps := Paths(n);
    forall j, k | 0 <= j < k < |ps|
      ensures ps[j] != ps[k]
    {
      LexLessIrreflexive(ps[j]);
    }
    forall j, k | 0 <= j < |ps| && 0 <= k < |ps| && IsProperPrefix(ps[j], ps[k])
      ensures j < k
    {
      PrefixIsLess(ps[j], ps[k]);
      if k < j {
        LexLessAsymmetric(ps[j], ps[k]);
      }
    }
  }

  /** The callback's first call is on the node it was started from. */
  lemma TraverseStartsAtRoot(n: Node)
    ensures Traverse(n)[0] == n && Paths(n)[0] == []
  {
  }
}
