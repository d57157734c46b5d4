/**
  The import-declaration accumulator of vsp.cpp as values: the scratch record
  filled between enter_import_declaration and exit_import_declaration, the
  handler events that update it, and the import records it emits.
*/
module ImportDecls {
  import opened Wrappers
  import opened Positions

  const DOT: Byte := 46   // '.'

  /** The scratch record `import_decl`. */
  datatype ImportDecl = ImportDecl(
    importPos: Position,
    modPos: Position,
    asPos: Position,
    aliasPos: Position,
    modName: seq<Byte>,
    syms: seq<Position>)

  /** The record after `import_decl = {}`: zeroed positions, no name, no symbols. */
  const Cleared := ImportDecl(ZeroPos, ZeroPos, ZeroPos, ZeroPos, [], [])

  /** One `on_import_declaration` notification sent to the host. */
  datatype ImportRecord = ImportRecord(
    importPos: Position,
    modPos: Position,
    modName: seq<Byte>,
    asPos: Position,
    aliasPos: Position,
    syms: seq<Position>)

  /** The import handlers, one constructor each. */
  datatype ImportEvent =
    | Enter(importPos: Position, modPos: Position)
    | ModuleName(namePos: Position, dot: bool)
    | Alias(asPos: Position, aliasPos: Position)
    | Symbol(symbolPos: Position)
    | Exit

  /** A module-name segment must denote text of the buffer. */
  predicate EventOk(buf: seq<Byte>, ev: ImportEvent)
  {
    ev.ModuleName? ==> InBuffer(buf, ev.namePos)
  }

  /**
    The effect of one handler: the new scratch record and the records emitted
    by that call (none or one).
  */
  function Apply(buf: seq<Byte>, d: ImportDecl, ev: ImportEvent): (r: (ImportDecl, seq<ImportRecord>))
    requires EventOk(buf, ev)
    ensures |r.1| <= 1
    ensures |r.1| == 1 <==> ev.Alias? || (ev.Exit? && |d.modName| > 0)
    ensures |r.1| == 1 ==> r.0 == Cleared
    ensures !ev.Alias? && !ev.Exit? ==> r.0.syms == d.syms + (if ev.Symbol? then [ev.symbolPos] else [])
  {
    match ev
    case Enter(importPos, modPos) =>
      (d.(importPos := importPos, modPos := modPos), [])
    case ModuleName(namePos, dot) =>
      var name := if dot then d.modName + [DOT] + Str(buf, namePos) else Str(buf, namePos);
      (d.(aliasPos := namePos, modName := name), [])
    case Alias(asPos, aliasPos) =>
      (Cleared, [ImportRecord(d.importPos, d.modPos, d.modName, asPos, aliasPos, [])])
    case Symbol(symbolPos) =>
      (d.(syms := d.syms + [symbolPos]), [])
    case Exit =>
      if |d.modName| > 0 then
        (Cleared, [ImportRecord(d.importPos, d.modPos, d.modName, MakePos(None, 0, 0), d.aliasPos, d.syms)])
      else
        (d, [])
  }

  predicate AllOk(buf: seq<Byte>, evs: seq<ImportEvent>)
  {
    forall i :: 0 <= i < |evs| ==> EventOk(buf, evs[i])
  }

  /** A sequence of handler calls: the final scratch record and every record emitted, in order. */
  function Run(buf: seq<Byte>, d: ImportDecl, evs: seq<ImportEvent>): (ImportDecl, seq<ImportRecord>)
    requires AllOk(buf, evs)
    decreases |evs|
  {
    if evs == [] then (d, [])
    else
      var step := Apply(buf, d, evs[0]);
      var rest := Run(buf, step.0, evs[1..]);
      (rest.0, step.1 + rest.1)
  }

  /** The events for module-name segments: the first replaces the name, the rest append ".segment". */
  function Segments(segs: seq<Position>): (evs: seq<ImportEvent>)
    ensures |evs| == |segs|
  {
    seq(|segs|, i requires 0 <= i < |segs| => ModuleName(segs[i], i > 0))
  }

  function Symbols(ps: seq<Position>): (evs: seq<ImportEvent>)
    ensures |evs| == |ps|
  {
    seq(|ps|, i requires 0 <= i < |ps| => Symbol(ps[i]))
  }

  predicate AllInBuffer(buf: seq<Byte>, segs: seq<Position>)
  {
    forall i :: 0 <= i < |segs| ==> InBuffer(buf, segs[i])
  }

  /** The dotted module name spelled by the segments: "a", "a.b", "a.b.c", ... */
  function Dotted(buf: seq<Byte>, segs: seq<Position>): seq<Byte>
    requires |segs| >= 1 && AllInBuffer(buf, segs)
    decreases |segs|
  {
    if |segs| == 1 then Str(buf, segs[0])
    else Dotted(buf, segs[..|segs| - 1]) + [DOT] + Str(buf, segs[|segs| - 1])
  }

  /** Running a single event is applying it. */
  lemma RunOne(buf: seq<Byte>, d: ImportDecl, ev: ImportEvent)
    requires EventOk(buf, ev)
    ensures AllOk(buf, [ev])
    ensures Run(buf, d, [ev]) == Apply(buf, d, ev)
  {
    assert [ev][1..] == [];
    assert Apply(buf, d, ev).1 + [] == Apply(buf, d, ev).1;
  }

  /** Running two event sequences one after the other. */
  lemma AllOkAppend(buf: seq<Byte>, a: seq<ImportEvent>, b: seq<ImportEvent>)
    requires AllOk(buf, a) && AllOk(buf, b)
    ensures AllOk(buf, a + b)
  {
    forall i | 0 <= i < |a + b|
      ensures EventOk(buf, (a + b)[i])
    {
      if i >= |a| {
        assert (a + b)[i] == b[i - |a|];
      }
    }
  }

  lemma {:induction false} RunAppend(buf: seq<Byte>, d: ImportDecl, a: seq<ImportEvent>, b: seq<ImportEvent>)
    requires AllOk(buf, a) && AllOk(buf, b)
    ensures AllOk(buf, a + b)
    ensures Run(buf, d, a + b) ==
      (Run(buf, Run(buf, d, a).0, b).0, Run(buf, d, a).1 + Run(buf, Run(buf, d, a).0, b).1)
    decreases |a|
  {
    AllOkAppend(buf, a, b);
    if a == [] {
      assert a + b == b;
      assert [] + Run(buf, d, b).1 == Run(buf, d, b).1;
    } else {
      var ab := a + b;
      assert ab[0] == a[0] && ab[1..] == a[1..] + b;
      var step := Apply(buf, d, a[0]);
      RunAppend(buf, step.0, a[1..], b);
      RunCons(buf, d, a);
      RunCons(buf, d, ab);
      var mid := Run(buf, step.0, a[1..]);
      var last := Run(buf, mid.0, b);
      assert step.1 + (mid.1 + last.1) == (step.1 + mid.1) + last.1;
    }
  }

  /** Running a non-empty sequence: its first event, then the rest. */
  lemma RunCons(buf: seq<Byte>, d: ImportDecl, evs: seq<ImportEvent>)
    requires AllOk(buf, evs) && evs != []
    ensures var step := Apply(buf, d, evs[0]);
      Run(buf, d, evs) == (Run(buf, step.0, evs[1..]).0, step.1 + Run(buf, step.0, evs[1..]).1)
  {
  }

  /**
    Module-name building: the segment events set the name to the dotted
    spelling of the segments and the alias position to the last segment,
    emit nothing, and change nothing else.
  */
  lemma {:induction false} SegmentsSpellName(buf: seq<Byte>, d: ImportDecl, segs: seq<Position>)
    requires |segs| >= 1 && AllInBuffer(buf, segs)
    ensures AllOk(buf, Segments(segs))
    ensures Run(buf, d, Segments(segs)) ==
      (d.(aliasPos := segs[|segs| - 1], modName := Dotted(buf, segs)), [])
    decreases |segs|
  {
    var n := |segs|;
    if n == 1 {
      assert Segments(segs) == [ModuleName(segs[0], false)];
      RunOne(buf, d, ModuleName(segs[0], false));
    } else {
      var init := segs[..n - 1];
      assert Segments(segs) == Segments(init) + [ModuleName(segs[n - 1], true)];
      SegmentsSpellName(buf, d, init);
      RunAppend(buf, d, Segments(init), [ModuleName(segs[n - 1], true)]);
      RunOne(buf, Run(buf, d, Segments(init)).0, ModuleName(segs[n - 1], true));
    }
  }

  /** Symbol events append their positions, in order, and emit nothing. */
  lemma {:induction false} SymbolsAppend(buf: seq<Byte>, d: ImportDecl, ps: seq<Position>)
    ensures AllOk(buf, Symbols(ps))
    ensures Run(buf, d, Symbols(ps)) == (d.(syms := d.syms + ps), [])
    decreases |ps|
  {
    if ps == [] {
      assert d.syms + ps == d.syms;
    } else {
      var d1 := d.(syms := d.syms + [ps[0]]);
      assert Symbols(ps)[0] == Symbol(ps[0]);
      assert Symbols(ps)[1..] == Symbols(ps[1..]);
      assert Apply(buf, d, Symbol(ps[0])) == (d1, []);
      SymbolsAppend(buf, d1, ps[1..]);
      assert d.syms + [ps[0]] + ps[1..] == d.syms + ps;
      assert Run(buf, d, Symbols(ps)) == (Run(buf, d1, Symbols(ps[1..])).0, [] + []);
      assert Run(buf, d1, Symbols(ps[1..])).0 == d.(syms := d.syms + ps);
      var none: seq<ImportRecord> := [];
      assert none + none == none;
    }
  }

  /**
    `import a.b as c`: the alias clause emits the one record of the
    declaration (dotted name, the "as" and alias positions, no symbols) and
    clears the accumulator, so the closing exit emits nothing.
  */
  lemma AliasDeclaration(buf: seq<Byte>, d: ImportDecl, importPos: Position, modPos: Position,
                         segs: seq<Position>, asPos: Position, aliasPos: Position)
    requires |segs| >= 1 && AllInBuffer(buf, segs)
    ensures AllOk(buf, [Enter(importPos, modPos)] + Segments(segs) + [Alias(asPos, aliasPos), Exit])
    ensures Run(buf, d, [Enter(importPos, modPos)] + Segments(segs) + [Alias(asPos, aliasPos), Exit]) ==
      (Cleared, [ImportRecord(importPos, modPos, Dotted(buf, segs), asPos, aliasPos, [])])
  {
    var enter, tail := [Enter(importPos, modPos)], [Alias(asPos, aliasPos), Exit];
    var d1 := d.(importPos := importPos, modPos := modPos);
    var d2 := d1.(aliasPos := segs[|segs| - 1], modName := Dotted(buf, segs));
    var rec := ImportRecord(importPos, modPos, Dotted(buf, segs), asPos, aliasPos, []);
    var none: seq<ImportRecord> := [];
    RunOne(buf, d, Enter(importPos, modPos));
    SegmentsSpellName(buf, d1, segs);
    RunAppend(buf, d, enter, Segments(segs));
    assert Run(buf, d, enter + Segments(segs)) == (d2, none);
    assert tail[0] == Alias(asPos, aliasPos) && tail[1..] == [Exit];
    RunOne(buf, Cleared, Exit);
    assert Run(buf, d2, tail) == (Cleared, [rec] + none);
    assert [rec] + none == [rec];
    RunAppend(buf, d, enter + Segments(segs), tail);
    assert Run(buf, d, enter + Segments(segs) + tail) == (Cleared, none + [rec]);
    assert none + [rec] == [rec];
  }

  /**
    `import a.b {x, y}` (or a plain `import a.b`): the exit emits the one record
    of the declaration, with no "as" position, the last segment as alias
    position and the symbols in the order they were seen, after the symbols
    already in the accumulator (none, unless an earlier declaration left some
    behind), and clears the accumulator.
  */
  lemma SymbolDeclaration(buf: seq<Byte>, d: ImportDecl, importPos: Position, modPos: Position,
                          segs: seq<Position>, ps: seq<Position>)
    requires |segs| >= 1 && AllInBuffer(buf, segs) && |Dotted(buf, segs)| > 0
    ensures AllOk(buf, [Enter(importPos, modPos)] + Segments(segs) + Symbols(ps) + [Exit])
    ensures Run(buf, d, [Enter(importPos, modPos)] + Segments(segs) + Symbols(ps) + [Exit]) ==
      (Cleared, [ImportRecord(importPos, modPos, Dotted(buf, segs), NoPos, segs[|segs| - 1], d.syms + ps)])
  {
    var enter := [Enter(importPos, modPos)];
    var d1 := d.(importPos := importPos, modPos := modPos);
    var d2 := d1.(aliasPos := segs[|segs| - 1], modName := Dotted(buf, segs));
    var d3 := d2.(syms := d.syms + ps);
    var rec := ImportRecord(importPos, modPos, Dotted(buf, segs), NoPos, segs[|segs| - 1], d.syms + ps);
    var none: seq<ImportRecord> := [];
    RunOne(buf, d, Enter(importPos, modPos));
    SegmentsSpellName(buf, d1, segs);
    RunAppend(buf, d, enter, Segments(segs));
    assert Run(buf, d, enter + Segments(segs)) == (d2, none);
    SymbolsAppend(buf, d2, ps);
    RunAppend(buf, d, enter + Segments(segs), Symbols(ps));
    assert Run(buf, d, enter + Segments(segs) + Symbols(ps)) == (d3, none);
    RunOne(buf, d3, Exit);
    assert Run(buf, d3, [Exit]) == (Cleared, [rec]);
    RunAppend(buf, d, enter + Segments(segs) + Symbols(ps), [Exit]);
    assert Run(buf, d, enter + Segments(segs) + Symbols(ps) + [Exit]) == (Cleared, none + [rec]);
    assert none + [rec] == [rec];
  }

  /** An exit while the module name is empty emits nothing and resets nothing. */
  lemma ExitWithoutName(buf: seq<Byte>, d: ImportDecl)
    requires d.modName == []
    ensures Apply(buf, d, Exit) == (d, [])
  {
  }
}
