/**
  ast_flush of ast.h: a top-down pass that, for every node with children,
  sets the node's length to reach the end of its last child and appends the
  children to the node's two caches (all children in order, and the children
  grouped by rule name), then flushes each child.  The pass is modelled on
  values: `Flush` is the tree after the pass, `FlushTree` is the loop.
*/
module AstFlush {
  import opened Wrappers
  import opened Ast

  /** `size_t` subtraction and addition wrap modulo 2^64; Dafny's `%` never yields a negative. */
  function SizeAdd(a: Size, b: Size): (s: Size)
    ensures a + b < SIZE_MODULUS ==> s == a + b
    ensures a + b >= SIZE_MODULUS ==> s == a + b - SIZE_MODULUS
  {
    (a + b) % SIZE_MODULUS
  }

  function SizeSub(a: Size, b: Size): (s: Size)
    ensures b <= a ==> s == a - b
    ensures a < b ==> s == SIZE_MODULUS + a - b
  {
    (a - b) % SIZE_MODULUS
  }

  /** The ids of `ns`, in order. */
  function Ids(ns: seq<Ast>): (ids: seq<nat>)
    ensures |ids| == |ns| && forall j :: 0 <= j < |ns| ==> ids[j] == ns[j].id
  {
    seq(|ns|, j requires 0 <= j < |ns| => ns[j].id)
  }

  /** The group of `k` in a cache map; a missing key is an empty group. */
  function Group(m: map<string, seq<nat>>, k: string): seq<nat>
  {
    if k in m then m[k] else []
  }

  /** Adds every node of `ns`, in order, to the group of its name. */
  function AddGroups(m: map<string, seq<nat>>, ns: seq<Ast>): map<string, seq<nat>>
    decreases |ns|
  {
    if ns == [] then m
    else
      var prev := AddGroups(m, ns[..|ns| - 1]);
      var x := ns[|ns| - 1];
      prev[x.name := Group(prev, x.name) + [x.id]]
  }

  /** The ids of the nodes of `ns` named `k`, in order. */
  function Filter(ns: seq<Ast>, k: string): (ids: seq<nat>)
    ensures forall x :: x in ids ==> exists j :: 0 <= j < |ns| && ns[j].name == k && ns[j].id == x
    decreases |ns|
  {
    if ns == [] then []
    else
      var x := ns[|ns| - 1];
      Filter(ns[..|ns| - 1], k) + (if x.name == k then [x.id] else [])
  }

  predicate HasName(ns: seq<Ast>, k: string)
  {
    exists j :: 0 <= j < |ns| && ns[j].name == k
  }

  /** The tree after ast_flush. */
  function Flush(t: Ast): Ast
    decreases t
  {
    if t.nodes == [] then t
    else
      var last := t.nodes[|t.nodes| - 1];
      t.(length := SizeSub(SizeAdd(last.position, last.length), t.position),
         cachedNodes := t.cachedNodes + Ids(t.nodes),
         cachedMap := AddGroups(t.cachedMap, t.nodes),
         nodes := seq(|t.nodes|, i requires 0 <= i < |t.nodes| => Flush(t.nodes[i])))
  }

  /** The pass itself: the loop over the children, recursing into each. */
  method FlushTree(t: Ast) returns (r: Ast)
    ensures r == Flush(t)
    decreases t
  {
    if |t.nodes| == 0 {
      return t;
    }
    var last := t.nodes[|t.nodes| - 1];
    var lastEnd := SizeAdd(last.position, last.length);
    var length := SizeSub(lastEnd, t.position);
    var cachedNodes := t.cachedNodes;
    var cachedMap := t.cachedMap;
    var kids: seq<Ast> := [];
    var i := 0;
    while i < |t.nodes|
      invariant 0 <= i <= |t.nodes|
      invariant cachedNodes == t.cachedNodes + Ids(t.nodes[..i])
      invariant cachedMap == AddGroups(t.cachedMap, t.nodes[..i])
      invariant FlushedAll(kids, t.nodes[..i])
    {
      var sub := t.nodes[i];
      AddOneStep(t.cachedNodes, t.cachedMap, t.nodes, i);
      cachedNodes := cachedNodes + [sub.id];
      cachedMap := AddToGroup(cachedMap, sub.name, sub.id);
      var f := FlushTree(sub);
      FlushedStep(kids, t.nodes, i, f);
      kids := kids + [f];
      i := i + 1;
    }
    assert t.nodes[..i] == t.nodes;
    r := t.(length := length, cachedNodes := cachedNodes, cachedMap := cachedMap, nodes := kids);
    FlushFromParts(t, kids);
  }

  /** `kids` are the flushed `ns`, one by one. */
  predicate FlushedAll(kids: seq<Ast>, ns: seq<Ast>)
  {
    |kids| == |ns| && forall j :: 0 <= j < |ns| ==> kids[j] == Flush(ns[j])
  }

  lemma FlushedStep(kids: seq<Ast>, ns: seq<Ast>, i: nat, f: Ast)
    requires i < |ns| && FlushedAll(kids, ns[..i]) && f == Flush(ns[i])
    ensures FlushedAll(kids + [f], ns[..i + 1])
  {
  }

  /** A node with children, put together from its flushed children, is the flushed node. */
  lemma FlushFromParts(t: Ast, kids: seq<Ast>)
    requires t.nodes != []
    requires FlushedAll(kids, t.nodes)
    ensures var last := t.nodes[|t.nodes| - 1];
      Flush(t) == t.(length := SizeSub(SizeAdd(last.position, last.length), t.position),
                     cachedNodes := t.cachedNodes + Ids(t.nodes),
                     cachedMap := AddGroups(t.cachedMap, t.nodes),
                     nodes := kids)
  {
  }

  /** The cache-map update for one child: a new group, or the child appended to its group. */
  method AddToGroup(m: map<string, seq<nat>>, k: string, id: nat) returns (m': map<string, seq<nat>>)
    ensures m' == m[k := Group(m, k) + [id]]
  {
    if k in m {
      m' := m[k := m[k] + [id]];
    } else {
      assert Group(m, k) + [id] == [id];
      m' := m[k := [id]];
    }
  }

  /** One turn of the loop in FlushTree adds child i to both caches. */
  lemma AddOneStep(c: seq<nat>, m: map<string, seq<nat>>, ns: seq<Ast>, i: nat)
    requires i < |ns|
    ensures c + Ids(ns[..i + 1]) == c + Ids(ns[..i]) + [ns[i].id]
    ensures AddGroups(m, ns[..i + 1]) == AddGroups(m, ns[..i])[ns[i].name := Group(AddGroups(m, ns[..i]), ns[i].name) + [ns[i].id]]
  {
    assert ns[..i + 1][..i] == ns[..i];
    assert Ids(ns[..i + 1]) == Ids(ns[..i]) + [ns[i].id];
  }

  // ---------------------------------------------------------------------------
  // Properties of the pass.

  /**
    A leaf is left as it is.  A node with children reaches exactly to the end
    of its last child (as that child was before the pass), modulo 2^64: in
    all four cases of whether the end overflows and whether the (wrapped) end
    lies before the node's start.
  */
  lemma FlushLength(t: Ast)
    ensures t.nodes == [] ==> Flush(t) == t
    ensures t.nodes != [] ==>
      var last := t.nodes[|t.nodes| - 1];
      var end := last.position + last.length;
      && Flush(t).length == (end - t.position) % SIZE_MODULUS
      && (t.position <= end < SIZE_MODULUS ==> Flush(t).length == end - t.position)
      && (end < t.position ==> Flush(t).length == SIZE_MODULUS + end - t.position)
      && (SIZE_MODULUS <= end < SIZE_MODULUS + t.position ==> Flush(t).length == end - t.position)
      && (SIZE_MODULUS + t.position <= end ==> Flush(t).length == end - SIZE_MODULUS - t.position)
  {
  }

  /** Only lengths and caches change: identities, rule data, positions, parents and arity stay. */
  lemma FlushKeepsFields(t: Ast)
    ensures var r := Flush(t);
      && r.id == t.id && r.name == t.name && r.originalName == t.originalName
      && r.line == t.line && r.column == t.column && r.view == t.view && r.token == t.token
      && r.position == t.position && r.parent == t.parent && |r.nodes| == |t.nodes|
  {
  }

  /** The pass allocates nothing and keeps every node: the set of ids is unchanged. */
  lemma {:induction false} FlushIds(t: Ast)
    ensures IdSet(Flush(t)) == IdSet(t)
    decreases t
  {
    var r := Flush(t);
    forall i | 0 <= i < |t.nodes|
      ensures IdSet(r.nodes[i]) == IdSet(t.nodes[i])
    {
      FlushIds(t.nodes[i]);
    }
  }

  /** Distinct nodes stay distinct, and every parent pointer is kept. */
  lemma {:induction false} FlushKeepsStructure(t: Ast, p: Option<nat>)
    ensures Unique(t) ==> Unique(Flush(t))
    ensures WellParented(t, p) ==> WellParented(Flush(t), p)
    decreases t
  {
    var r := Flush(t);
    forall i | 0 <= i < |t.nodes|
      ensures IdSet(r.nodes[i]) == IdSet(t.nodes[i])
      ensures Unique(t.nodes[i]) ==> Unique(r.nodes[i])
      ensures WellParented(t.nodes[i], Some(t.id)) ==> WellParented(r.nodes[i], Some(t.id))
    {
      FlushIds(t.nodes[i]);
      FlushKeepsStructure(t.nodes[i], Some(t.id));
    }
  }

  /**
    The group of every name after adding `ns`: the old group followed by the
    ids of the nodes of `ns` with that name, in document order; a key is
    present exactly when it was already or some node has that name.
  */
  lemma {:induction false} AddGroupsContents(m: map<string, seq<nat>>, ns: seq<Ast>, k: string)
    ensures Group(AddGroups(m, ns), k) == Group(m, k) + Filter(ns, k)
    ensures k in AddGroups(m, ns) <==> k in m || HasName(ns, k)
    decreases |ns|
  {
    if ns != [] {
      var init := ns[..|ns| - 1];
      AddGroupsContents(m, init, k);
      var x := ns[|ns| - 1];
      if HasName(ns, k) && x.name != k {
        var j :| 0 <= j < |ns| && ns[j].name == k;
        assert init[j].name == k;
      }
      if HasName(init, k) {
        var j :| 0 <= j < |init| && init[j].name == k;
        assert ns[j].name == k;
      }
    }
  }

  /** An id is in the group of `k` exactly when some node of `ns` with name `k` has it. */
  lemma {:induction false} FilterMembers(ns: seq<Ast>, k: string, x: nat)
    ensures x in Filter(ns, k) <==> exists j :: 0 <= j < |ns| && ns[j].name == k && ns[j].id == x
    decreases |ns|
  {
    if ns != [] {
      var init := ns[..|ns| - 1];
      FilterMembers(init, k, x);
      if x in Filter(init, k) {
        var j :| 0 <= j < |init| && init[j].name == k && init[j].id == x;
        assert ns[j] == init[j];
      }
      if exists j :: 0 <= j < |ns| && ns[j].name == k && ns[j].id == x {
        var j :| 0 <= j < |ns| && ns[j].name == k && ns[j].id == x;
        if j < |init| {
          assert init[j] == ns[j];
        }
      }
    }
  }

  /** The caches of a flushed node: both caches gain exactly the children, in order. */
  lemma FlushCaches(t: Ast, k: string)
    requires t.nodes != []
    ensures Flush(t).cachedNodes == t.cachedNodes + Ids(t.nodes)
    ensures Group(Flush(t).cachedMap, k) == Group(t.cachedMap, k) + Filter(t.nodes, k)
    ensures k in Flush(t).cachedMap <==> k in t.cachedMap || HasName(t.nodes, k)
  {
    AddGroupsContents(t.cachedMap, t.nodes, k);
  }

  // ---------------------------------------------------------------------------
  // The groups partition the children.

  /** How many entries of `keys` equal `k`. */
  function Occurrences(keys: seq<string>, k: string): (n: nat)
    ensures n == 0 <==> k !in keys
    decreases |keys|
  {
    if keys == [] then 0 else (if keys[0] == k then 1 else 0) + Occurrences(keys[1..], k)
  }

  predicate Distinct(keys: seq<string>)
  {
    forall i, j :: 0 <= i < j < |keys| ==> keys[i] != keys[j]
  }

  /** The total size of the groups of `keys`. */
  function GroupSizes(keys: seq<string>, ns: seq<Ast>): nat
    decreases |keys|
  {
    if keys == [] then 0 else |Filter(ns, keys[0])| + GroupSizes(keys[1..], ns)
  }

  lemma {:induction false} OccursOnce(keys: seq<string>, k: string)
    requires Distinct(keys) && k in keys
    ensures Occurrences(keys, k) == 1
    decreases |keys|
  {
    if keys[0] != k {
      OccursOnce(keys[1..], k);
    } else {
      OccursNever(keys[1..], k);
    }
  }

  lemma {:induction false} OccursNever(keys: seq<string>, k: string)
    requires k !in keys
    ensures Occurrences(keys, k) == 0
    decreases |keys|
  {
    if keys != [] {
      OccursNever(keys[1..], k);
    }
  }

  /** Adding one node to `ns` grows the group sizes by the number of keys naming it. */
  lemma {:induction false} GroupSizesStep(keys: seq<string>, ns: seq<Ast>)
    requires ns != []
    ensures GroupSizes(keys, ns) == GroupSizes(keys, ns[..|ns| - 1]) + Occurrences(keys, ns[|ns| - 1].name)
    decreases |keys|
  {
    if keys != [] {
      GroupSizesStep(keys[1..], ns);
    }
  }

  /**
    Every child lands in exactly one group: over any duplicate-free list of
    keys that names every child, the group sizes of a cache that started
    empty add up to the number of children.
  */
  lemma {:induction false} GroupsPartition(keys: seq<string>, ns: seq<Ast>)
    requires Distinct(keys)
    requires forall j :: 0 <= j < |ns| ==> ns[j].name in keys
    ensures GroupSizes(keys, ns) == |ns|
    decreases |ns|
  {
    if ns == [] {
      GroupSizesEmpty(keys);
    } else {
      var init := ns[..|ns| - 1];
      forall j | 0 <= j < |init|
        ensures init[j].name in keys
      {
        assert init[j] == ns[j];
      }
      GroupsPartition(keys, init);
      GroupSizesStep(keys, ns);
      OccursOnce(keys, ns[|ns| - 1].name);
    }
  }

  lemma {:induction false} GroupSizesEmpty(keys: seq<string>)
    ensures GroupSizes(keys, []) == 0
    decreases |keys|
  {
    if keys != [] {
      GroupSizesEmpty(keys[1..]);
    }
  }

  /** The total size of the groups of `keys` in a cache map. */
  function CacheSizes(m: map<string, seq<nat>>, keys: seq<string>): nat
    decreases |keys|
  {
    if keys == [] then 0 else |Group(m, keys[0])| + CacheSizes(m, keys[1..])
  }

  lemma {:induction false} CacheSizesAsGroups(m: map<string, seq<nat>>, keys: seq<string>, ns: seq<Ast>)
    requires forall k :: Group(m, k) == Filter(ns, k)
    ensures CacheSizes(m, keys) == GroupSizes(keys, ns)
    decreases |keys|
  {
    if keys != [] {
      CacheSizesAsGroups(m, keys[1..], ns);
    }
  }

  /**
    The cache map a flush builds on a node whose map started empty: its keys
    are exactly the children's names, and over any duplicate-free list of
    keys naming every child its group sizes add up to the number of children.
  */
  lemma FlushCachePartition(t: Ast, keys: seq<string>)
    requires t.cachedMap == map[]
    requires Distinct(keys)
    requires forall j :: 0 <= j < |t.nodes| ==> t.nodes[j].name in keys
    ensures forall k :: k in Flush(t).cachedMap <==> HasName(t.nodes, k)
    ensures CacheSizes(Flush(t).cachedMap, keys) == |t.nodes|
  {
    var m := Flush(t).cachedMap;
    forall k
      ensures Group(m, k) == Filter(t.nodes, k)
      ensures k in m <==> HasName(t.nodes, k)
    {
      if t.nodes != [] {
        FlushCaches(t, k);
        assert Group(t.cachedMap, k) == [];
        assert [] + Filter(t.nodes, k) == Filter(t.nodes, k);
      }
    }
    CacheSizesAsGroups(m, keys, t.nodes);
    GroupsPartition(keys, t.nodes);
  }
}
