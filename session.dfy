/**
  The parse-session object of vsp.cpp (vsparserex_t): the immutable source
  buffer with its read pointer and line table, the byte reader the parsing
  engine calls, position construction, and the import-declaration handlers,
  whose `on_import_declaration` notifications are appended to `emitted`.
*/
module Vsp {
  import opened Wrappers
  import opened LineIndex
  import opened Positions
  import opened ImportDecls

  /** A byte read through a signed `char`: bytes from 0x80 on come out negative. */
  function SignedChar(b: Byte): (c: int)
    ensures -128 <= c < 128 && c % 256 == b
    ensures c == 0 <==> b == 0
  {
    if b < 128 then b else b - 256
  }

  class Session {
    /** The source buffer; None stands for a null `src`. */
    const src: Option<seq<Byte>>
    /** The number of bytes of the buffer the reader may return. */
    const len: nat
    /** The read pointer. */
    var rp: nat
    /** Offsets of line starts seen so far. */
    var lines: seq<nat>
    /** The import-declaration scratch record. */
    var importDecl: ImportDecl
    /** Every import record sent to the host, in order. */
    var emitted: seq<ImportRecord>

    /** The bytes the reader serves: the first `len` bytes, or none without a buffer. */
    function Input(): seq<Byte>
    {
      if src.Some? && len <= |src.value| then src.value[..len] else []
    }

    /** The reader stays inside the input and the line table is the one its bytes so far produce. */
    ghost predicate Valid()
      reads this`rp, this`lines
    {
      && (src.Some? ==> len <= |src.value|)
      && rp <= |Input()|
      && lines == LineTable(Input(), rp)
    }

    /**
      A fresh session as vsp_parse and vsp_readfile set up the reader: nothing
      read, line table [0]; the accumulator is zeroed as in the zero-initialised
      session of main.
    */
    constructor (src: Option<seq<Byte>>, len: nat)
      requires src.Some? ==> len <= |src.value|
      ensures this.src == src && this.len == len
      ensures Valid() && rp == 0 && lines == [0]
      ensures importDecl == Cleared && emitted == []
    {
      this.src := src;
      this.len := len;
      rp := 0;
      lines := [0];
      importDecl := Cleared;
      emitted := [];
    }

    /** vsp_newline: records a line start. */
    method NewLine(pos: nat)
      modifies this`lines
      ensures lines == old(lines) + [pos]
    {
      lines := lines + [pos];
    }

    /** vsp_compute_line_and_column: scans the line table backwards. */
    method ComputeLineAndColumn(pos: nat) returns (line: int, col: int)
      ensures (line, col) == Resolve(lines, pos)
    {
      var i := |lines|;
      while i >= 1
        invariant 0 <= i <= |lines|
        invariant forall j :: i <= j < |lines| ==> lines[j] > pos
      {
        var lineStart := lines[i - 1];
        if pos >= lineStart {
          line := i - 1;
          col := pos - lineStart;
          return;
        }
        i := i - 1;
      }
      line := -1;
      col := -1;
    }

    /**
      vsp_getchar: returns -1 without moving when there is no buffer or the
      input is used up; otherwise advances by one byte, records a line start
      after a boundary, and returns the byte as a signed char, or -1 for a NUL
      byte (so a 0xFF byte also reads as -1).
    */
    method GetChar() returns (ch: int)
      requires Valid()
      modifies this`rp, this`lines
      ensures Valid()
      ensures src.None? || old(rp) >= len ==> ch == -1 && rp == old(rp) && lines == old(lines)
      ensures src.Some? && old(rp) < len ==>
        && rp == old(rp) + 1
        && ch == (if src.value[old(rp)] == 0 then -1 else SignedChar(src.value[old(rp)]))
        && lines == old(lines) + (if IsBoundary(Input(), old(rp)) then [rp] else [])
      ensures |old(lines)| <= |lines| <= |old(lines)| + 1 && old(lines) <= lines
    {
      if src.None? || rp >= len {
        return -1;
      }
      var c := src.value[rp];
      rp := rp + 1;
      if c == CR {
        if rp < len {
          if src.value[rp] != LF {
            NewLine(rp);
          }
        } else {
          NewLine(rp);
        }
      } else if c == LF {
        NewLine(rp);
      }
      ch := if c == 0 then -1 else SignedChar(c);
    }

    /** vsp_pos on this session's parser. */
    method Pos(start: nat, end: nat) returns (pos: Position)
      ensures pos == MakePos(Some(lines), start, end)
    {
      if start >= end {
        pos := NoPos;
      } else {
        var line, col := ComputeLineAndColumn(start);
        pos := Position(start, end, line, col);
      }
    }

    method EnterImportDeclaration(importPos: Position, modPos: Position)
      modifies this`importDecl
      ensures importDecl == old(importDecl).(importPos := importPos, modPos := modPos)
      ensures importDecl == Apply(Input(), old(importDecl), Enter(importPos, modPos)).0
    {
      importDecl := importDecl.(importPos := importPos, modPos := modPos);
    }

    /** With `dot` set, appends '.' and the segment's text; otherwise the text replaces the name. */
    method OnImportModuleName(namePos: Position, dot: bool)
      requires InBuffer(Input(), namePos)
      modifies this`importDecl
      ensures importDecl.aliasPos == namePos
      ensures importDecl.modName ==
        (if dot then old(importDecl.modName) + [DOT] else []) + Str(Input(), namePos)
      ensures importDecl == Apply(Input(), old(importDecl), ModuleName(namePos, dot)).0
    {
      importDecl := importDecl.(aliasPos := namePos);
      if dot {
        importDecl := importDecl.(modName := importDecl.modName + [DOT]);
        importDecl := importDecl.(modName := importDecl.modName + Str(Input(), namePos));
      } else {
        importDecl := importDecl.(modName := Str(Input(), namePos));
      }
    }

    /** Emits the declaration's record at once, without symbols, and clears the accumulator. */
    method OnImportAlias(asPos: Position, aliasPos: Position)
      modifies this`importDecl, this`emitted
      ensures emitted == old(emitted) + [ImportRecord(old(importDecl.importPos), old(importDecl.modPos),
                                                      old(importDecl.modName), asPos, aliasPos, [])]
      ensures importDecl == Cleared
      ensures (importDecl, emitted[|old(emitted)|..]) == Apply(Input(), old(importDecl), Alias(asPos, aliasPos))
    {
      importDecl := importDecl.(asPos := asPos, aliasPos := aliasPos);
      emitted := emitted + [ImportRecord(importDecl.importPos, importDecl.modPos, importDecl.modName,
                                         importDecl.asPos, importDecl.aliasPos, [])];
      importDecl := Cleared;
    }

    method OnImportSymbol(symbolPos: Position)
      modifies this`importDecl
      ensures importDecl == old(importDecl).(syms := old(importDecl.syms) + [symbolPos])
      ensures importDecl == Apply(Input(), old(importDecl), Symbol(symbolPos)).0
    {
      importDecl := importDecl.(syms := importDecl.syms + [symbolPos]);
    }

    /**
      With a module name, emits the declaration's record (no "as" position, the
      collected symbols) and clears the accumulator; without one, does nothing.
    */
    method ExitImportDeclaration()
      modifies this`importDecl, this`emitted
      ensures |old(importDecl.modName)| > 0 ==>
        && emitted == old(emitted) + [ImportRecord(old(importDecl.importPos), old(importDecl.modPos),
                                                   old(importDecl.modName), NoPos, old(importDecl.aliasPos),
                                                   old(importDecl.syms))]
        && importDecl == Cleared
      ensures |old(importDecl.modName)| == 0 ==> emitted == old(emitted) && importDecl == old(importDecl)
      ensures (importDecl, emitted[|old(emitted)|..]) == Apply(Input(), old(importDecl), Exit)
    {
      if |importDecl.modName| > 0 {
        if |importDecl.syms| > 0 {
          emitted := emitted + [ImportRecord(importDecl.importPos, importDecl.modPos, importDecl.modName,
                                             MakePos(None, 0, 0), importDecl.aliasPos, importDecl.syms)];
        } else {
          emitted := emitted + [ImportRecord(importDecl.importPos, importDecl.modPos, importDecl.modName,
                                             MakePos(None, 0, 0), importDecl.aliasPos, [])];
        }
        importDecl := Cleared;
      } else {
        assert emitted[|emitted|..] == [];
      }
    }
  }
}
