/**
  AstOptimizer::optimize of ast.h: a rewrite that builds a fresh tree in which
  every collapsible node with exactly one child is replaced by a copy of its
  (already rewritten) child that carries the wrapper's name as original name
  and the wrapper's position and length.  `rules` and `mode` decide which rule
  names are collapsible; fresh nodes are numbered from `next` on.
*/
module AstOptimizer {
  import opened Wrappers
  import opened Ast

  /** In inclusion mode (`mode` false) the listed rules collapse; in exclusion mode all others do. */
  predicate Collapsible(name: string, rules: seq<string>, mode: bool)
  {
    var found := name in rules;
    if mode then !found else found
  }

  /** The collapse decision by cases: listed names in inclusion mode, unlisted names in exclusion mode. */
  lemma CollapseDecision(name: string, rules: seq<string>, mode: bool)
    ensures Collapsible(name, rules, mode) <==> (!mode && name in rules) || (mode && name !in rules)
  {
  }

  /** A node the rewrite replaces by its child. */
  predicate IsWrapper(t: Ast, rules: seq<string>, mode: bool)
  {
    Collapsible(t.name, rules, mode) && |t.nodes| == 1
  }

  /** Points every node of `ns` at the parent with id `id`. */
  function Reparent(ns: seq<Ast>, id: nat): (r: seq<Ast>)
    ensures |r| == |ns|
    ensures forall j :: 0 <= j < |ns| ==> r[j] == ns[j].(parent := Some(id))
  {
    seq(|ns|, j requires 0 <= j < |ns| => ns[j].(parent := Some(id)))
  }

  /**
    optimize(original, parent): the rewritten tree and the next unused id.  A
    wrapper's child is rewritten first, then the replacement node is allocated;
    any other node is allocated first and its children are rewritten in order.
  */
  function Optimize(t: Ast, rules: seq<string>, mode: bool, parent: Option<nat>, next: nat): (r: (Ast, nat))
    ensures next < r.1
    decreases t, 1, 0
  {
    if IsWrapper(t, rules, mode) then
      var child := Optimize(t.nodes[0], rules, mode, parent, next);
      var id := child.1;
      var ast := CopyAs(id, child.0, t.name, t.position, t.length);
      (ast.(nodes := Reparent(ast.nodes, id)), id + 1)
    else
      var kids := OptimizeChildren(t, 0, rules, mode, next, next + 1);
      (t.(id := next, parent := parent, nodes := kids.0), kids.1)
  }

  /** The loop over `original->nodes` from index i on, under the parent with id `pid`. */
  function OptimizeChildren(t: Ast, i: nat, rules: seq<string>, mode: bool, pid: nat, next: nat)
    : (r: (seq<Ast>, nat))
    requires i <= |t.nodes|
    ensures |r.0| == |t.nodes| - i && next <= r.1
    decreases t, 0, |t.nodes| - i
  {
    if i == |t.nodes| then ([], next)
    else
      var c := Optimize(t.nodes[i], rules, mode, Some(pid), next);
      var cs := OptimizeChildren(t, i + 1, rules, mode, pid, c.1);
      ([c.0] + cs.0, cs.1)
  }

  // ---------------------------------------------------------------------------
  // Fresh allocation: the output consists of new, distinct nodes.

  ghost predicate AllFresh(ks: seq<Ast>, lo: nat, hi: nat)
  {
    forall j :: 0 <= j < |ks| ==> IdsIn(ks[j], lo, hi) && Unique(ks[j])
  }

  ghost predicate PairwiseDisjoint(ks: seq<Ast>)
  {
    forall j, k :: 0 <= j < k < |ks| ==> IdSet(ks[j]) !! IdSet(ks[k])
  }

  ghost predicate AllParented(ks: seq<Ast>, p: Option<nat>)
  {
    forall j :: 0 <= j < |ks| ==> WellParented(ks[j], p)
  }

  lemma IdSetReparented(x: Ast, id: nat)
    ensures IdSet(x.(parent := Some(id))) == IdSet(x)
    ensures Unique(x.(parent := Some(id))) == Unique(x)
  {
  }

  /**
    Every node of the output is freshly allocated with an id in [next, end),
    and no two output nodes share an id; in particular the output shares no
    node with an input whose ids are all below `next`.
  */
  lemma {:induction false} OptimizeFresh(t: Ast, rules: seq<string>, mode: bool, parent: Option<nat>, next: nat)
    ensures IdsIn(Optimize(t, rules, mode, parent, next).0, next, Optimize(t, rules, mode, parent, next).1)
    ensures Unique(Optimize(t, rules, mode, parent, next).0)
    decreases t, 1, 0
  {
    var r := Optimize(t, rules, mode, parent, next);
    if IsWrapper(t, rules, mode) {
      var child := Optimize(t.nodes[0], rules, mode, parent, next);
      OptimizeFresh(t.nodes[0], rules, mode, parent, next);
      var c := child.0;
      var id := child.1;
      forall j | 0 <= j < |c.nodes|
        ensures IdSet(r.0.nodes[j]) == IdSet(c.nodes[j])
        ensures Unique(r.0.nodes[j])
        ensures IdSet(c.nodes[j]) <= IdSet(c)
      {
        IdSetReparented(c.nodes[j], id);
      }
    } else {
      var kids := OptimizeChildren(t, 0, rules, mode, next, next + 1);
      OptimizeChildrenFresh(t, 0, rules, mode, next, next + 1);
      assert r.0.nodes == kids.0;
      forall i | 0 <= i < |kids.0|
        ensures next !in IdSet(kids.0[i])
      {
        assert IdsIn(kids.0[i], next + 1, kids.1);
      }
    }
  }

  /** An input whose ids all lie below `next` shares no node with the output. */
  lemma OptimizeDisjoint(t: Ast, rules: seq<string>, mode: bool, parent: Option<nat>, next: nat)
    requires IdsIn(t, 0, next)
    ensures IdSet(Optimize(t, rules, mode, parent, next).0) !! IdSet(t)
  {
    OptimizeFresh(t, rules, mode, parent, next);
  }

  lemma {:induction false} OptimizeChildrenFresh(t: Ast, i: nat, rules: seq<string>, mode: bool, pid: nat, next: nat)
    requires i <= |t.nodes|
    ensures AllFresh(OptimizeChildren(t, i, rules, mode, pid, next).0, next, OptimizeChildren(t, i, rules, mode, pid, next).1)
    ensures PairwiseDisjoint(OptimizeChildren(t, i, rules, mode, pid, next).0)
    decreases t, 0, |t.nodes| - i
  {
    if i < |t.nodes| {
      var c := Optimize(t.nodes[i], rules, mode, Some(pid), next);
      var cs := OptimizeChildren(t, i + 1, rules, mode, pid, c.1);
      OptimizeFresh(t.nodes[i], rules, mode, Some(pid), next);
      OptimizeChildrenFresh(t, i + 1, rules, mode, pid, c.1);
      var r := [c.0] + cs.0;
      assert OptimizeChildren(t, i, rules, mode, pid, next) == (r, cs.1);
      forall j | 0 <= j < |r|
        ensures IdsIn(r[j], next, cs.1) && Unique(r[j])
      {
        if j > 0 {
          assert r[j] == cs.0[j - 1];
          assert IdsIn(cs.0[j - 1], c.1, cs.1);
          assert Unique(cs.0[j - 1]);
        } else {
          assert IdsIn(c.0, next, c.1);
          assert Unique(c.0);
        }
      }
      forall j, k | 0 <= j < k < |r|
        ensures IdSet(r[j]) !! IdSet(r[k])
      {
        assert r[k] == cs.0[k - 1];
        if j == 0 {
          assert IdsIn(r[j], next, c.1) && IdsIn(r[k], c.1, cs.1);
        } else {
          assert r[j] == cs.0[j - 1];
        }
      }
    }
  }

  // ---------------------------------------------------------------------------
  // Parent links.

  /**
    In the output the root's parent is the `parent` argument (for a collapsed
    root, the wrapper's parent) and every other node's parent is the node whose
    child list holds it.
  */
  lemma {:induction false} OptimizeParents(t: Ast, rules: seq<string>, mode: bool, parent: Option<nat>, next: nat)
    ensures WellParented(Optimize(t, rules, mode, parent, next).0, parent)
    decreases t, 1, 0
  {
    if IsWrapper(t, rules, mode) {
      OptimizeParents(t.nodes[0], rules, mode, parent, next);
    } else {
      var kids := OptimizeChildren(t, 0, rules, mode, next, next + 1);
      OptimizeChildrenParents(t, 0, rules, mode, next, next + 1);
      assert Optimize(t, rules, mode, parent, next).0.nodes == kids.0;
    }
  }

  lemma {:induction false} OptimizeChildrenParents(t: Ast, i: nat, rules: seq<string>, mode: bool, pid: nat, next: nat)
    requires i <= |t.nodes|
    ensures AllParented(OptimizeChildren(t, i, rules, mode, pid, next).0, Some(pid))
    decreases t, 0, |t.nodes| - i
  {
    if i < |t.nodes| {
      var c := Optimize(t.nodes[i], rules, mode, Some(pid), next);
      var cs := OptimizeChildren(t, i + 1, rules, mode, pid, c.1);
      OptimizeParents(t.nodes[i], rules, mode, Some(pid), next);
      OptimizeChildrenParents(t, i + 1, rules, mode, pid, c.1);
      var r := [c.0] + cs.0;
      assert OptimizeChildren(t, i, rules, mode, pid, next).0 == r;
      forall j | 0 <= j < |r|
        ensures WellParented(r[j], Some(pid))
      {
        if j > 0 {
          assert r[j] == cs.0[j - 1];
        }
      }
    }
  }

  // ---------------------------------------------------------------------------
  // Normal form and idempotence.

  /** No node of the tree is a wrapper: nothing is left for the rewrite to collapse. */
  predicate Normal(t: Ast, rules: seq<string>, mode: bool)
    decreases t
  {
    !IsWrapper(t, rules, mode) && forall i :: 0 <= i < |t.nodes| ==> Normal(t.nodes[i], rules, mode)
  }

  predicate AllNormal(ks: seq<Ast>, rules: seq<string>, mode: bool)
  {
    forall j :: 0 <= j < |ks| ==> Normal(ks[j], rules, mode)
  }

  /** Pointwise equal shapes. */
  predicate SameShapes(a: seq<Ast>, b: seq<Ast>)
  {
    |a| == |b| && forall j :: 0 <= j < |a| ==> Erase(a[j]) == Erase(b[j])
  }

  lemma EraseReparented(x: Ast, id: nat, rules: seq<string>, mode: bool)
    ensures Erase(x.(parent := Some(id))) == Erase(x)
    ensures Normal(x.(parent := Some(id)), rules, mode) == Normal(x, rules, mode)
  {
  }

  /** Two trees with the same children shapes and the same scalar fields have the same shape. */
  lemma EraseFromParts(a: Ast, b: Ast)
    requires a.(id := b.id, parent := b.parent, nodes := b.nodes) == b
    requires SameShapes(a.nodes, b.nodes)
    ensures Erase(a) == Erase(b)
  {
    var sa := seq(|a.nodes|, i requires 0 <= i < |a.nodes| => Erase(a.nodes[i]));
    var sb := seq(|b.nodes|, i requires 0 <= i < |b.nodes| => Erase(b.nodes[i]));
    assert sa == sb;
  }

  /** The output contains no wrapper. */
  lemma {:induction false} OptimizeNormal(t: Ast, rules: seq<string>, mode: bool, parent: Option<nat>, next: nat)
    ensures Normal(Optimize(t, rules, mode, parent, next).0, rules, mode)
    decreases t, 1, 0
  {
    var r := Optimize(t, rules, mode, parent, next);
    if IsWrapper(t, rules, mode) {
      var child := Optimize(t.nodes[0], rules, mode, parent, next);
      OptimizeNormal(t.nodes[0], rules, mode, parent, next);
      forall j | 0 <= j < |child.0.nodes|
        ensures Normal(r.0.nodes[j], rules, mode)
      {
        EraseReparented(child.0.nodes[j], child.1, rules, mode);
      }
    } else {
      OptimizeChildrenNormal(t, 0, rules, mode, next, next + 1);
    }
  }

  lemma {:induction false} OptimizeChildrenNormal(t: Ast, i: nat, rules: seq<string>, mode: bool, pid: nat, next: nat)
    requires i <= |t.nodes|
    ensures AllNormal(OptimizeChildren(t, i, rules, mode, pid, next).0, rules, mode)
    decreases t, 0, |t.nodes| - i
  {
    if i < |t.nodes| {
      var c := Optimize(t.nodes[i], rules, mode, Some(pid), next);
      var cs := OptimizeChildren(t, i + 1, rules, mode, pid, c.1);
      OptimizeNormal(t.nodes[i], rules, mode, Some(pid), next);
      OptimizeChildrenNormal(t, i + 1, rules, mode, pid, c.1);
      var r := [c.0] + cs.0;
      forall j | 0 <= j < |r|
        ensures Normal(r[j], rules, mode)
      {
        if j > 0 {
          assert r[j] == cs.0[j - 1];
        }
      }
    }
  }

  /** On a tree in normal form the rewrite only renumbers and re-parents: its shape is unchanged. */
  lemma {:induction false} NormalFixpoint(t: Ast, rules: seq<string>, mode: bool, parent: Option<nat>, next: nat)
    requires Normal(t, rules, mode)
    ensures Erase(Optimize(t, rules, mode, parent, next).0) == Erase(t)
    decreases t, 1, 0
  {
    var r := Optimize(t, rules, mode, parent, next);
    NormalChildrenFixpoint(t, 0, rules, mode, next, next + 1);
    assert t.nodes[0..] == t.nodes;
    EraseFromParts(r.0, t);
  }

  lemma {:induction false} NormalChildrenFixpoint(t: Ast, i: nat, rules: seq<string>, mode: bool, pid: nat, next: nat)
    requires i <= |t.nodes|
    requires Normal(t, rules, mode)
    ensures SameShapes(OptimizeChildren(t, i, rules, mode, pid, next).0, t.nodes[i..])
    decreases t, 0, |t.nodes| - i
  {
    if i < |t.nodes| {
      var c := Optimize(t.nodes[i], rules, mode, Some(pid), next);
      var cs := OptimizeChildren(t, i + 1, rules, mode, pid, c.1);
      NormalFixpoint(t.nodes[i], rules, mode, Some(pid), next);
      NormalChildrenFixpoint(t, i + 1, rules, mode, pid, c.1);
      var r := [c.0] + cs.0;
      forall j | 0 <= j < |r|
        ensures Erase(r[j]) == Erase(t.nodes[i..][j])
      {
        if j > 0 {
          assert r[j] == cs.0[j - 1];
          assert t.nodes[i..][j] == t.nodes[i + 1..][j - 1];
        }
      }
    }
  }

  /**
    Idempotence: rewriting the output again, with the same rules and mode,
    changes no name, original name, position, length, other field or shape.
  */
  lemma OptimizeIdempotent(t: Ast, rules: seq<string>, mode: bool, parent: Option<nat>, next: nat,
                           parent2: Option<nat>, next2: nat)
    ensures var once := Optimize(t, rules, mode, parent, next).0;
      Erase(Optimize(once, rules, mode, parent2, next2).0) == Erase(once)
  {
    OptimizeNormal(t, rules, mode, parent, next);
    NormalFixpoint(Optimize(t, rules, mode, parent, next).0, rules, mode, parent2, next2);
  }

  // ---------------------------------------------------------------------------
  // The shape of the output, and the fields of its root.

  /** The output's shape does not depend on the parent it is attached to or on where numbering starts. */
  lemma {:induction false} OptimizeShapeIndependent(t: Ast, rules: seq<string>, mode: bool,
                                                    p1: Option<nat>, n1: nat, p2: Option<nat>, n2: nat)
    ensures Erase(Optimize(t, rules, mode, p1, n1).0) == Erase(Optimize(t, rules, mode, p2, n2).0)
    decreases t, 1, 0
  {
    var r1 := Optimize(t, rules, mode, p1, n1).0;
    var r2 := Optimize(t, rules, mode, p2, n2).0;
    if IsWrapper(t, rules, mode) {
      var c1 := Optimize(t.nodes[0], rules, mode, p1, n1);
      var c2 := Optimize(t.nodes[0], rules, mode, p2, n2);
      OptimizeShapeIndependent(t.nodes[0], rules, mode, p1, n1, p2, n2);
      assert |c1.0.nodes| == |Erase(c1.0).nodes| == |Erase(c2.0).nodes| == |c2.0.nodes|;
      forall j | 0 <= j < |r1.nodes|
        ensures Erase(r1.nodes[j]) == Erase(r2.nodes[j])
      {
        assert Erase(c1.0).nodes[j] == Erase(c2.0).nodes[j];
        EraseReparented(c1.0.nodes[j], c1.1, rules, mode);
        EraseReparented(c2.0.nodes[j], c2.1, rules, mode);
      }
      EraseFromParts(r1, r2);
    } else {
      ChildrenShapeIndependent(t, 0, rules, mode, n1, n1 + 1, n2, n2 + 1);
      EraseFromParts(r1, r2);
    }
  }

  lemma {:induction false} ChildrenShapeIndependent(t: Ast, i: nat, rules: seq<string>, mode: bool,
                                                    pid1: nat, n1: nat, pid2: nat, n2: nat)
    requires i <= |t.nodes|
    ensures SameShapes(OptimizeChildren(t, i, rules, mode, pid1, n1).0,
                       OptimizeChildren(t, i, rules, mode, pid2, n2).0)
    decreases t, 0, |t.nodes| - i
  {
    if i < |t.nodes| {
      var c1 := Optimize(t.nodes[i], rules, mode, Some(pid1), n1);
      var c2 := Optimize(t.nodes[i], rules, mode, Some(pid2), n2);
      var cs1 := OptimizeChildren(t, i + 1, rules, mode, pid1, c1.1);
      var cs2 := OptimizeChildren(t, i + 1, rules, mode, pid2, c2.1);
      OptimizeShapeIndependent(t.nodes[i], rules, mode, Some(pid1), n1, Some(pid2), n2);
      ChildrenShapeIndependent(t, i + 1, rules, mode, pid1, c1.1, pid2, c2.1);
      var r1 := [c1.0] + cs1.0;
      var r2 := [c2.0] + cs2.0;
      forall j | 0 <= j < |r1|
        ensures Erase(r1[j]) == Erase(r2[j])
      {
        if j > 0 {
          assert r1[j] == cs1.0[j - 1] && r2[j] == cs2.0[j - 1];
        }
      }
    }
  }

  /** The shape a subtree is rewritten to, wherever it is attached. */
  function OptShape(t: Ast, rules: seq<string>, mode: bool): Shape
  {
    Erase(Optimize(t, rules, mode, None, 0).0)
  }

  /** Each of `ks` has the rewritten shape of the matching node of `orig`. */
  predicate RewrittenFrom(ks: seq<Ast>, orig: seq<Ast>, rules: seq<string>, mode: bool)
  {
    |ks| == |orig| && forall j :: 0 <= j < |ks| ==> Erase(ks[j]) == OptShape(orig[j], rules, mode)
  }

  /** The node a chain of wrappers ends in. */
  function Innermost(t: Ast, rules: seq<string>, mode: bool): (inner: Ast)
    ensures !IsWrapper(inner, rules, mode)
    decreases t
  {
    if IsWrapper(t, rules, mode) then Innermost(t.nodes[0], rules, mode) else t
  }

  /**
    The root of the output.  A chain of wrappers becomes one node that has the
    innermost node's rule data and the outermost wrapper's name as original
    name, position and length, empty caches and the given parent; any other
    node is copied with a new id, the given parent and rewritten children.
    Either way the children are the rewritten children of the innermost node.
  */
  lemma {:induction false} OptimizeRoot(t: Ast, rules: seq<string>, mode: bool, parent: Option<nat>, next: nat)
    ensures var r := Optimize(t, rules, mode, parent, next).0;
      var inner := Innermost(t, rules, mode);
      && r.name == inner.name && r.line == inner.line && r.column == inner.column
      && r.view == inner.view && r.token == inner.token && r.parent == parent
      && RewrittenFrom(r.nodes, inner.nodes, rules, mode)
    ensures var r := Optimize(t, rules, mode, parent, next).0;
      IsWrapper(t, rules, mode) ==>
        && r.originalName == t.name && r.position == t.position && r.length == t.length
        && r.cachedNodes == [] && r.cachedMap == map[]
    ensures var r := Optimize(t, rules, mode, parent, next).0;
      !IsWrapper(t, rules, mode) ==> r.id == next && r == t.(id := next, parent := parent, nodes := r.nodes)
    decreases t, 1, 0
  {
    var r := Optimize(t, rules, mode, parent, next).0;
    if IsWrapper(t, rules, mode) {
      var c := Optimize(t.nodes[0], rules, mode, parent, next);
      OptimizeRoot(t.nodes[0], rules, mode, parent, next);
      var inner := Innermost(t, rules, mode);
      forall j | 0 <= j < |r.nodes|
        ensures Erase(r.nodes[j]) == OptShape(inner.nodes[j], rules, mode)
      {
        EraseReparented(c.0.nodes[j], c.1, rules, mode);
      }
    } else {
      ChildrenRewritten(t, 0, rules, mode, next, next + 1);
      assert t.nodes[0..] == t.nodes;
    }
  }

  lemma {:induction false} ChildrenRewritten(t: Ast, i: nat, rules: seq<string>, mode: bool, pid: nat, next: nat)
    requires i <= |t.nodes|
    ensures RewrittenFrom(OptimizeChildren(t, i, rules, mode, pid, next).0, t.nodes[i..], rules, mode)
    decreases |t.nodes| - i
  {
    if i < |t.nodes| {
      var c := Optimize(t.nodes[i], rules, mode, Some(pid), next);
      var cs := OptimizeChildren(t, i + 1, rules, mode, pid, c.1);
      OptimizeShapeIndependent(t.nodes[i], rules, mode, Some(pid), next, None, 0);
      ChildrenRewritten(t, i + 1, rules, mode, pid, c.1);
      var r := [c.0] + cs.0;
      forall j | 0 <= j < |r|
        ensures Erase(r[j]) == OptShape(t.nodes[i..][j], rules, mode)
      {
        if j > 0 {
          assert r[j] == cs.0[j - 1];
          assert t.nodes[i..][j] == t.nodes[i + 1..][j - 1];
        }
      }
    }
  }
}
