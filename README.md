# vsharp parse session and syntax tree, modelled in Dafny

This project models the core of the vsharp front end. A parse session reads a
source buffer one byte at a time, for a generated parsing engine. While reading,
it keeps a table of line starts, so that any byte offset can be turned into a
line and a column. The session also builds source positions and reads their
text. The engine reports import declarations to the session as a series of
handler calls. The session collects them in a scratch record and sends one
import record per declaration to the host. On the syntax-tree side there are
the node constructors, the optimizer, and the flush pass. The optimizer
collapses single-child wrapper rules into their child. The flush pass fixes
node lengths and fills the per-node child caches.

Files:

- `wrappers.dfy`: `Option` and the `Byte` type (0..255).
- `lineindex.dfy`:
  - the line-start table, as a function of the bytes read so far;
  - offset lookup (`Resolve`);
  - the facts about both.
- `positions.dfy`:
  - `vsp_pos_t` as the `Position` datatype;
  - `vsp_pos` as `MakePos`;
  - `vsp_str` as `Str`.
- `imports.dfy`:
  - the import accumulator as values;
  - one handler call as an `ImportEvent`, with its effect given by `Apply`;
  - a series of calls as `Run`;
  - whole-declaration lemmas.
- `session.dfy`: the session object `vsparserex_t` as the class `Vsp.Session`.
  - Its fields are the buffer, `len`, the read pointer `rp`, the line table, the scratch record, and the records sent so far.
  - It has methods for the reader, the line handling and the import handlers.
  - Each method is tied to the functions above.
- `ast.dfy`:
  - the tree node `AstBase` as a datatype;
  - its two constructors;
  - the identity, parent and shape notions used to state properties.
- `optimizer.dfy`: `AstOptimizer::optimize` as a pure function that threads a counter for fresh node ids.
- `flush.dfy`: `ast_flush`.
  - `Flush` is the tree after the pass.
  - `FlushTree` is the loop that computes it.

Notes on the representation:

- A node's identity, which is the object the `shared_ptr`s point to, is its allocation number `id`.
  - The weak `parent` pointer is the parent's id, or `None` for null.
  - `cached_nodes` and `cached_map` hold child ids.
  - The optimizer takes ids from `next` onwards. It numbers a collapsed node's child before the node itself, and a non-collapsed node before its children, which is the order the source allocates them in.
- Import records sent through `on_import_declaration` are appended to `Session.emitted`.
  - A null symbol pointer with count 0 is the empty sequence.
  - `vsp_pos(nullptr, 0, 0)` is `NoPos`, with all four fields -1.
- `import_decl = {}` value-initialises the record. So after a reset every position field is 0 (`ZeroPos`), not the empty position -1. The model follows the code here.
- A lookup with no line start at or before the offset gives (-1, -1), also for an empty table.
- `\r\n` counts once, after the `\n`, so `"a\nb\r\nc"` gives the table [0, 2, 5] and offset 5 is line 2, column 0 (`LineIndex.MixedNewlinesExample`).
- A new session starts with the accumulator zeroed (`Cleared`). This follows the zero-initialised session of `main` (`vsparserex_t p = {0}`); `vsp_parse` declares its session without an initialiser, so there the accumulator's positions start undetermined.
- `vsp_getchar` reads through a signed `char`, so bytes from 0x80 up come back negative and a 0xFF byte reads as -1, the same value as end of input. The model states this with `Vsp.SignedChar`, which assumes `char` is signed.
- `size_t` arithmetic in `ast_flush` wraps modulo 2^64 (`AstFlush.SizeAdd`, `AstFlush.SizeSub`).

## Model

| member | source | states |
|---|---|---|
| LineIndex.LineTable | examples/vsharp/vsp.cpp:67-85 | the line table after k bytes starts with 0. Each byte that ends a line appends the offset just after it: `\n`, or `\r` that is last or not followed by `\n` |
| LineIndex.IsBoundary | examples/vsharp/vsp.cpp:71-83 | reading a byte ends a line exactly when it is `\n`, or `\r` that is the last byte of the input or is not followed by `\n` (stated by `LineIndex.LineTableStep`, which appends the new read pointer exactly when this holds) |
| LineIndex.LineTableShape | examples/vsharp/vsp.cpp:45-47 | the table has one entry per boundary plus the initial 0. It is strictly increasing, and every entry is at most the read pointer |
| LineIndex.LineTableStep | examples/vsharp/vsp.cpp:71-83 | reading one byte appends at most one entry, the new read pointer, and only after a boundary; the old table is a prefix of the new one |
| LineIndex.LineTablePrefix | examples/vsharp/vsp.cpp:45-47 | the table only grows: the table after m bytes is a prefix of the table after k >= m bytes |
| LineIndex.LineTableTail | examples/vsharp/vsp.cpp:45-47 | entries added after the first m bytes are all greater than m |
| LineIndex.Resolve | examples/vsharp/vsp.cpp:49-61 | the result is the index of the last line start at or before the offset, and the distance from it. It is (-1, -1) exactly when no line start is at or before the offset, which includes an empty table |
| LineIndex.ResolveReadOffset | examples/vsharp/vsp.cpp:49-61 | for an offset already read, the line is the number of boundaries strictly before it, and the column is its distance from the last line start recorded by then. Reading further does not change this |
| LineIndex.ResolveNeverFails | examples/vsharp/vsp.cpp:307 | a table that starts with 0 resolves every offset to a valid line and a column no larger than the offset |
| LineIndex.MixedNewlinesExample | examples/vsharp/vsp.cpp:71-83 | "a\nb\r\nc" gives the table [0, 2, 5], and offset 5 is line 2, column 0 |
| Positions.MakePos | examples/vsharp/vsp.cpp:87-101 | the result is the all -1 position exactly when there is no parser or start >= end. Otherwise start and end are copied and line and column are the lookup of start |
| Positions.Str | examples/vsharp/vsp.cpp:31-35 | the text is empty for a negative start. Otherwise it is the end - start bytes of the buffer from start on |
| Positions.StrOfMakePos | examples/vsharp/vsp.cpp:31-35 | round trip: the text of the position built for a non-empty range of the buffer is exactly that range; for an empty range or no parser it is empty |
| Positions.MakePosInSession | examples/vsharp/vsp.cpp:87-101 | with the session's own line table and a start that has already been read, a non-empty position never reports line -1: its line counts the boundaries before start, and its column is at least 0 |
| ImportDecls.Apply | examples/vsharp/vsp.cpp:135-199 | one handler call emits at most one record. It emits one exactly for an alias, or for an exit with a non-empty module name. After emitting, the scratch record is cleared. The other calls only append to the symbols (a symbol) or leave them alone |
| ImportDecls.RunAppend | examples/vsharp/vsp.cpp:135-199 | running two series of handler calls one after the other emits the records of the first, then those of the second, from the scratch record the first leaves behind |
| ImportDecls.SegmentsSpellName | examples/vsharp/vsp.cpp:168-177 | the module-name segments set the name to the dotted spelling "a.b.c" and the alias position to the last segment. They emit nothing and change nothing else |
| ImportDecls.SymbolsAppend | examples/vsharp/vsp.cpp:194-199 | symbol calls append their positions in order and emit nothing |
| ImportDecls.AliasDeclaration | examples/vsharp/vsp.cpp:179-192 | `import a.b as c` emits exactly one record: the dotted name, the as and alias positions, and no symbols. The following exit emits nothing |
| ImportDecls.SymbolDeclaration | examples/vsharp/vsp.cpp:144-162 | `import a.b {x, y}` emits exactly one record, at the exit. It has no as position, the last segment as alias position, and the symbols in the order seen, after any the scratch record already held. The accumulator is then cleared |
| ImportDecls.ExitWithoutName | examples/vsharp/vsp.cpp:144-146 | an exit with an empty module name emits nothing and resets nothing |
| Vsp.SignedChar | examples/vsharp/vsp.cpp:70 | a byte read through a signed char: it lies in -128..127, is congruent to the byte modulo 256, and is 0 only for the NUL byte |
| Vsp.Session.constructor | examples/vsharp/vsp.cpp:302-307 | a new session has read nothing, has the line table [0] and no records sent, and satisfies the session invariant; its accumulator is zeroed, as in the zero-initialised session of `main` (vsp.cpp:353) |
| Vsp.Session.NewLine | examples/vsharp/vsp.cpp:45-47 | appends the offset to the line table |
| Vsp.Session.ComputeLineAndColumn | examples/vsharp/vsp.cpp:49-61 | the backward scan returns the lookup `Resolve` of the offset in the current table |
| Vsp.Session.GetChar | examples/vsharp/vsp.cpp:67-85 | with no buffer or an exhausted input it returns -1 and changes nothing. Otherwise it advances by exactly one, returns the byte as a signed char (-1 for NUL), and appends the new read pointer to the table exactly after a boundary. It keeps the invariant that the table is the one the bytes read so far produce |
| Vsp.Session.Pos | examples/vsharp/vsp.cpp:87-101 | the position built on this session is `MakePos` over the session's line table |
| Vsp.Session.EnterImportDeclaration | examples/vsharp/vsp.cpp:135-142 | sets the import and module positions and nothing else, as `Apply` of the enter event |
| Vsp.Session.OnImportModuleName | examples/vsharp/vsp.cpp:168-177 | sets the alias position to the segment. With dot set it appends '.' and the segment text to the name; otherwise the text replaces the name. This is `Apply` of the segment event |
| Vsp.Session.OnImportAlias | examples/vsharp/vsp.cpp:179-192 | sends one record at once, with the name so far, the as and alias positions and no symbols, then clears the accumulator. This is `Apply` of the alias event |
| Vsp.Session.OnImportSymbol | examples/vsharp/vsp.cpp:194-199 | appends the symbol position to the symbols, as `Apply` of the symbol event |
| Vsp.Session.ExitImportDeclaration | examples/vsharp/vsp.cpp:144-166 | with a non-empty name it sends one record, with no as position, the alias position and the symbols, then clears the accumulator. With an empty name it does nothing. This is `Apply` of the exit event |
| Ast.NewAst | examples/vsharp/ast.h:11-15 | a new node is its own original name, has the given rule data, and has no children, no parent and empty caches |
| Ast.CopyAs | examples/vsharp/ast.h:17-20 | the copy has the rule data, children and parent of the given node, the given original name, position and length, and empty caches |
| AstOptimizer.Collapsible | examples/vsharp/ast.h:80-82 | the collapse test: `found` is membership of the name in the rules, and `opt` is `found` in inclusion mode and its negation in exclusion mode (stated case by case by `AstOptimizer.CollapseDecision`) |
| AstOptimizer.CollapseDecision | examples/vsharp/ast.h:80-82 | a name is collapsible exactly when it is listed in inclusion mode, or unlisted in exclusion mode |
| AstOptimizer.Optimize | examples/vsharp/ast.h:78-102 | the rewrite of one node: its contract says the id counter strictly advances, since every call allocates at least one node; what the output is, is stated by `AstOptimizer.OptimizeRoot`, `OptimizeFresh`, `OptimizeParents`, `OptimizeNormal` and `OptimizeIdempotent` |
| AstOptimizer.OptimizeChildren | examples/vsharp/ast.h:97-100 | the loop over `original->nodes` from index i: one rewritten child per remaining original child, in order, and the counter never goes back; each child is the rewrite of the matching original (`AstOptimizer.ChildrenRewritten`) |
| AstOptimizer.OptimizeFresh | examples/vsharp/ast.h:84-101 | every node of the output is newly allocated, with an id in the counter's range [next, end), and no two output nodes share an id |
| AstOptimizer.OptimizeDisjoint | examples/vsharp/ast.h:86-96 | when every id of the input lies below `next`, the output shares no node with the input, which is left untouched |
| AstOptimizer.OptimizeParents | examples/vsharp/ast.h:84-101 | the output root's parent is the given parent, also for a collapsed root. Every other node's parent is the node whose child list holds it |
| AstOptimizer.OptimizeRoot | examples/vsharp/ast.h:84-101 | a chain of wrappers becomes one node. It has the innermost node's name, line, column, view and token, and the outermost wrapper's name as original name. It also has that wrapper's position and length, empty caches and the given parent. Any other node is copied with a new id and the given parent. Either way, the children are the rewritten children of the innermost node, in order |
| AstOptimizer.OptimizeNormal | examples/vsharp/ast.h:84-92 | no node of the output is a collapsible node with exactly one child |
| AstOptimizer.NormalFixpoint | examples/vsharp/ast.h:94-101 | rewriting a tree that has no such node changes no field and no shape; only ids and parents are renewed |
| AstOptimizer.OptimizeIdempotent | examples/vsharp/ast.h:78-102 | rewriting the output a second time with the same rules and mode changes no name, original name, position, length, other field or shape |
| AstOptimizer.OptimizeShapeIndependent | examples/vsharp/ast.h:78-102 | the shape of the output does not depend on the parent it is attached to or on where the id counter starts |
| AstFlush.Flush | examples/vsharp/ast.h:114-133 | the tree after the pass; its length rule, its caches and what it keeps are stated by `AstFlush.FlushLength`, `FlushCaches`, `FlushKeepsFields`, `FlushIds` and `FlushKeepsStructure`, and `AstFlush.FlushTree` computes it with the source's loop |
| AstFlush.FlushTree | examples/vsharp/ast.h:114-133 | the loop over the children, with the cache updates, the length update and the recursive calls, computes the flushed tree `Flush` |
| AstFlush.AddToGroup | examples/vsharp/ast.h:123-129 | a child is added to the group of its name: as a new group when the name is absent, otherwise at the end of the existing group |
| AstFlush.FlushLength | examples/vsharp/ast.h:115-119 | a leaf is unchanged. A node with children gets length (last.position + last.length - position) mod 2^64, using the last child as it was before the pass; spelled out for each of the four cases of whether the end overflows and whether the wrapped end lies before the node's start |
| AstFlush.FlushKeepsFields | examples/vsharp/ast.h:114-133 | the pass keeps ids, names, original names, line, column, view, token, position, parent and child count |
| AstFlush.FlushIds | examples/vsharp/ast.h:114-133 | the pass allocates nothing and drops nothing: the set of node ids is unchanged |
| AstFlush.FlushKeepsStructure | examples/vsharp/ast.h:114-133 | distinct nodes stay distinct, and correct parent links stay correct |
| AstFlush.FlushCaches | examples/vsharp/ast.h:121-129 | the child cache gains exactly the children's ids, in order. The group of every name gains exactly the ids of the children with that name, in document order. A name is a key exactly when it was one already or some child has it |
| AstFlush.AddGroupsContents | examples/vsharp/ast.h:121-129 | adding a sequence of children to a cache map appends to each group the ids of the children with that name, in order |
| AstFlush.FilterMembers | examples/vsharp/ast.h:121-129 | an id is in the group of a name exactly when some child with that name has it |
| AstFlush.GroupsPartition | examples/vsharp/ast.h:121-129 | every child lands in exactly one group: the group sizes over the distinct child names add up to the number of children |
| AstFlush.FlushCachePartition | examples/vsharp/ast.h:121-129 | on a node whose cache map starts empty, the flushed map has exactly the children's names as keys, and its group sizes over the distinct names add up to the number of children |

## Left out

- examples/vsharp/vsp.c is not part of this model. Its reader has no line tracking, and its `vsp_pos` only copies start and end.
- The handlers that only log (module clause, struct, field, function and type handlers) and the `indent` counter are left out. They affect nothing but log output.
- `vsp_strv` is left out. Record names are sequences of bytes rather than pointer and length views.
- `vsp_init_listener`, the function-pointer wiring and the null checks of `L_INVOKE` are left out. A record is always appended, as if a host were listening.
- `vsp_parse`, `vsp_readfile` and `main` are left out: they are file input and the calls into the external parsing engine. The session constructor takes the buffer and its length as parameters.
- `ast_to_s` and `ast_to_s_core` are left out: they are debug text output.
- `get_ast_opt_rules` is left out because it calls an external function. The optimizer takes the rule list as a parameter.
- The type and function descriptor tables, the push/pop tree builder and the struct, field and function accumulators are left out, because only their declarations exist.
- `shared_ptr` reference counting and `weak_ptr` expiry are left out. Node identity is an allocation number, and the parent link is that number.
- The `size_t` to `int` casts in `vsp_pos` and in the line lookup are left out. Offsets, lines and columns are unbounded integers, so the model does not wrap offsets of 2^31 or more.
- AstFlush.FlushTree: modelled on values, returning the flushed tree. It does not capture that `ast_flush` overwrites `length` and appends to the caches of existing nodes in place. It also does not capture what happens when one node is reachable twice through shared pointers.
- AstOptimizer.Optimize: the in-place `parent` updates and `push_back`s on newly allocated nodes are modelled as building the new tree as a value.
- The optimizer does not keep every node's text: a collapsed node takes the innermost node's view but the wrapper's length, so no lemma claims the text is preserved.
