/**
  Source positions (vsp_pos_t) and the two pure helpers of vsp.cpp that build
  them and read their text: vsp_pos and vsp_str.
*/
module Positions {
  import opened Wrappers
  import opened LineIndex

  /** A byte range [start, end) with the line and column of its start. */
  datatype Position = Position(start: int, end: int, line: int, col: int)

  /** The canonical empty position: every field is -1. */
  const NoPos := Position(-1, -1, -1, -1)

  /** A value-initialised position (`{}` in the source): every field is 0. */
  const ZeroPos := Position(0, 0, 0, 0)

  /**
    Builds the position of [start, end): the empty position when there is no
    parser (`table` is None) or the range is empty, otherwise the range with the
    line and column of `start` looked up in the parser's line table.
  */
  function MakePos(table: Option<seq<nat>>, start: nat, end: nat): (pos: Position)
    ensures pos == NoPos <==> table.None? || start >= end
    ensures pos != NoPos ==>
      pos.start == start && pos.end == end && (pos.line, pos.col) == Resolve(table.value, start)
  {
    if table.None? || start >= end then NoPos
    else
      var (line, col) := Resolve(table.value, start);
      Position(start, end, line, col)
  }

  /** The range of `pos` lies inside `buf`, or `pos` has a negative start. */
  predicate InBuffer(buf: seq<Byte>, pos: Position)
  {
    pos.start < 0 || pos.start <= pos.end <= |buf|
  }

  /** The text of a position: empty for a negative start, else buf[start..end). */
  function Str(buf: seq<Byte>, pos: Position): (text: seq<Byte>)
    requires InBuffer(buf, pos)
    ensures pos.start < 0 ==> text == []
    ensures pos.start >= 0 ==>
      |text| == pos.end - pos.start && forall i :: 0 <= i < |text| ==> text[i] == buf[pos.start + i]
  {
    if pos.start < 0 then [] else buf[pos.start..pos.end]
  }

  /**
    Round trip between the two helpers: the text of the position built for a
    non-empty range [start, end) of the buffer is exactly those bytes, and the
    text of the position built for an empty range is empty.
  */
  lemma StrOfMakePos(buf: seq<Byte>, table: Option<seq<nat>>, start: nat, end: nat)
    requires end <= |buf|
    ensures InBuffer(buf, MakePos(table, start, end))
    ensures Str(buf, MakePos(table, start, end)) ==
      if table.Some? && start < end then buf[start..end] else []
  {
  }

  /**
    In a session whose line table is the one built by reading the first k bytes,
    a non-empty position never reports line -1: its line is the number of line
    boundaries before `start` when `start` has been read, and its column is the
    distance from the start of that line.
  */
  lemma MakePosInSession(buf: seq<Byte>, k: nat, start: nat, end: nat)
    requires start <= k <= |buf| && start < end
    ensures MakePos(Some(LineTable(buf, k)), start, end).line == CountBoundaries(buf, start)
    ensures MakePos(Some(LineTable(buf, k)), start, end).col
      == start - LineTable(buf, start)[|LineTable(buf, start)| - 1]
    ensures MakePos(Some(LineTable(buf, k)), start, end).col >= 0
  {
    ResolveReadOffset(buf, k, start);
    LineTableShape(buf, start);
  }
}
