/**
  The syntax-tree node of ast.h (AstBase) as a value.  A node's identity, the
  address `shared_ptr`s refer to, is the allocation number `id`; the weak
  `parent` pointer and the two caches refer to nodes by that number.
*/
module Ast {
  import opened Wrappers

  /** `size_t` values. */
  const SIZE_MODULUS: nat := 0x1_0000_0000_0000_0000
  type Size = n: nat | n < SIZE_MODULUS

  datatype Ast = Ast(
    id: nat,
    line: Size,
    column: Size,
    name: string,
    position: Size,
    length: Size,
    originalName: string,
    /** where the node's text starts in the source buffer */
    view: nat,
    token: int,
    nodes: seq<Ast>,
    parent: Option<nat>,
    cachedNodes: seq<nat>,
    cachedMap: map<string, seq<nat>>)

  /**
    The first AstBase constructor: a node that is its own original name, with no
    children, no parent and empty caches.
  */
  function NewAst(id: nat, line: Size, column: Size, name: string, view: nat, token: int,
                  position: Size, length: Size): (a: Ast)
    ensures a.id == id && a.name == name && a.originalName == a.name
    ensures a.line == line && a.column == column && a.view == view && a.token == token
    ensures a.position == position && a.length == length
    ensures a.nodes == [] && a.parent == None && a.cachedNodes == [] && a.cachedMap == map[]
  {
    Ast(id, line, column, name, position, length, name, view, token, [], None, [], map[])
  }

  /**
    The second AstBase constructor: takes the rule data, the children and the
    parent of `ast`, a given original name, position and length, and starts
    with empty caches.
  */
  function CopyAs(id: nat, ast: Ast, originalName: string, position: Size, length: Size): (a: Ast)
    ensures a.id == id && a.name == ast.name && a.originalName == originalName
    ensures a.line == ast.line && a.column == ast.column && a.view == ast.view && a.token == ast.token
    ensures a.position == position && a.length == length
    ensures a.nodes == ast.nodes && a.parent == ast.parent
    ensures a.cachedNodes == [] && a.cachedMap == map[]
  {
    Ast(id, ast.line, ast.column, ast.name, position, length, originalName, ast.view, ast.token,
        ast.nodes, ast.parent, [], map[])
  }

  /** A tree without identities: what is left when ids and parent pointers are dropped. */
  datatype Shape = Shape(
    line: Size,
    column: Size,
    name: string,
    position: Size,
    length: Size,
    originalName: string,
    view: nat,
    token: int,
    nodes: seq<Shape>,
    cachedNodes: seq<nat>,
    cachedMap: map<string, seq<nat>>)

  function Erase(t: Ast): (s: Shape)
    decreases t
  {
    Shape(t.line, t.column, t.name, t.position, t.length, t.originalName, t.view, t.token,
          seq(|t.nodes|, i requires 0 <= i < |t.nodes| => Erase(t.nodes[i])),
          t.cachedNodes, t.cachedMap)
  }

  /** The ids of all nodes of a tree. */
  ghost function IdSet(t: Ast): set<nat>
    decreases t
  {
    {t.id} + (set i, x | 0 <= i < |t.nodes| && x in IdSet(t.nodes[i]) :: x)
  }

  /** No node of the tree shares its id with another: the tree holds distinct objects. */
  ghost predicate Unique(t: Ast)
    decreases t
  {
    && (forall i :: 0 <= i < |t.nodes| ==> t.id !in IdSet(t.nodes[i]))
    && (forall i, j :: 0 <= i < j < |t.nodes| ==> IdSet(t.nodes[i]) !! IdSet(t.nodes[j]))
    && (forall i :: 0 <= i < |t.nodes| ==> Unique(t.nodes[i]))
  }

  /** Every ID of the tree lies in [lo, hi). */
  ghost predicate IdsIn(t: Ast, lo: nat, hi: nat)
  {
    forall x :: x in IdSet(t) ==> lo <= x < hi
  }

  /** The root's parent is `p`, and every child's parent is the node whose `nodes` hold it. */
  ghost predicate WellParented(t: Ast, p: Option<nat>)
    decreases t
  {
    && t.parent == p
    && forall i :: 0 <= i < |t.nodes| ==> WellParented(t.nodes[i], Some(t.id))
  }
}
