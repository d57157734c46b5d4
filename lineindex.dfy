/**
  The incremental line index of a parse session (vsp.cpp): while the parsing
  engine reads the source byte by byte, every line boundary appends the offset
  just after it to a table of line starts that begins as [0].  An offset is
  resolved to (line, column) by finding the last line start at or before it.
*/
module LineIndex {
  import opened Wrappers

  const LF: Byte := 10   // '\n'
  const CR: Byte := 13   // '\r'

  /**
    Reading the byte at index i of `buf` records a boundary: a '\n', or a '\r'
    that is the last byte or is not followed by '\n' (so "\r\n" counts once,
    at its '\n').
  */
  predicate IsBoundary(buf: seq<Byte>, i: nat)
    requires i < |buf|
  {
    buf[i] == LF || (buf[i] == CR && (i + 1 >= |buf| || buf[i + 1] != LF))
  }

  /** The line-start table after the first k bytes of `buf` have been read. */
  function LineTable(buf: seq<Byte>, k: nat): (lines: seq<nat>)
    requires k <= |buf|
    ensures |lines| >= 1 && lines[0] == 0
  {
    if k == 0 then [0]
    else LineTable(buf, k - 1) + (if IsBoundary(buf, k - 1) then [k] else [])
  }

  /** Number of line boundaries among the first n bytes of `buf`. */
  function CountBoundaries(buf: seq<Byte>, n: nat): nat
    requires n <= |buf|
  {
    if n == 0 then 0
    else CountBoundaries(buf, n - 1) + (if IsBoundary(buf, n - 1) then 1 else 0)
  }

  predicate StrictlyIncreasing(s: seq<nat>)
  {
    forall i, j :: 0 <= i < j < |s| ==> s[i] < s[j]
  }

  /**
    Offset lookup: the index of the last entry of `lines` that is <= pos and the
    distance from it, or (-1, -1) when no entry is <= pos (also for an empty
    table).  The search runs from the end of the table, as the source does.
  */
  function Resolve(lines: seq<nat>, pos: nat): (r: (int, int))
    ensures r.0 == -1 <==> forall i :: 0 <= i < |lines| ==> lines[i] > pos
    ensures r.0 == -1 ==> r.1 == -1
    ensures r.0 != -1 ==>
      && 0 <= r.0 < |lines| && lines[r.0] <= pos && r.1 == pos - lines[r.0]
      && forall j :: r.0 < j < |lines| ==> lines[j] > pos
    decreases |lines|
  {
    if |lines| == 0 then (-1, -1)
    else if lines[|lines| - 1] <= pos then (|lines| - 1, pos - lines[|lines| - 1])
    else Resolve(lines[..|lines| - 1], pos)
  }

  /**
    The line table of any prefix starts with 0, is strictly increasing, holds
    only offsets up to k, and has one entry per boundary plus the initial one.
  */
  lemma {:induction false} LineTableShape(buf: seq<Byte>, k: nat)
    requires k <= |buf|
    ensures |LineTable(buf, k)| == 1 + CountBoundaries(buf, k)
    ensures LineTable(buf, k)[0] == 0
    ensures StrictlyIncreasing(LineTable(buf, k))
    ensures forall i :: 0 <= i < |LineTable(buf, k)| ==> LineTable(buf, k)[i] <= k
  {
    if k > 0 {
      LineTableShape(buf, k - 1);
    }
  }

  /** Reading one more byte appends at most one entry, and only the new offset. */
  lemma LineTableStep(buf: seq<Byte>, k: nat)
    requires k < |buf|
    ensures LineTable(buf, k + 1) == LineTable(buf, k) + (if IsBoundary(buf, k) then [k + 1] else [])
    ensures |LineTable(buf, k + 1)| <= |LineTable(buf, k)| + 1
    ensures LineTable(buf, k) <= LineTable(buf, k + 1)
  {
  }

  /** The table after k bytes extends the table after any m <= k bytes. */
  lemma {:induction false} LineTablePrefix(buf: seq<Byte>, m: nat, k: nat)
    requires m <= k <= |buf|
    ensures LineTable(buf, m) <= LineTable(buf, k)
    decreases k - m
  {
    if m < k {
      LineTablePrefix(buf, m, k - 1);
    }
  }

  /** The entries added after the first m bytes are all greater than m. */
  lemma {:induction false} LineTableTail(buf: seq<Byte>, m: nat, k: nat)
    requires m <= k <= |buf|
    ensures forall i :: |LineTable(buf, m)| <= i < |LineTable(buf, k)| ==> LineTable(buf, k)[i] > m
    decreases k - m
  {
    if m < k {
      LineTableTail(buf, m, k - 1);
      LineTablePrefix(buf, m, k - 1);
    }
  }

  /**
    Resolving an offset already read: the line is the number of boundaries
    strictly before the offset, and the column is the distance from the start
    of that line, which is the last line start recorded by then.
  */
  lemma ResolveReadOffset(buf: seq<Byte>, k: nat, pos: nat)
    requires pos <= k <= |buf|
    ensures Resolve(LineTable(buf, k), pos).0 == CountBoundaries(buf, pos)
    ensures Resolve(LineTable(buf, k), pos).1 == pos - LineTable(buf, pos)[|LineTable(buf, pos)| - 1]
  {
    var t, p := LineTable(buf, k), LineTable(buf, pos);
    LineTableShape(buf, pos);
    LineTableShape(buf, k);
    LineTablePrefix(buf, pos, k);
    LineTableTail(buf, pos, k);
    var n := |p| - 1;
    assert t[n] == p[n] <= pos;
    assert Resolve(t, pos).0 == n;
  }

  /** A table that starts with 0 resolves every offset: lookup never fails. */
  lemma ResolveNeverFails(lines: seq<nat>, pos: nat)
    requires |lines| > 0 && lines[0] == 0
    ensures 0 <= Resolve(lines, pos).0 < |lines|
    ensures 0 <= Resolve(lines, pos).1 <= pos
  {
    assert lines[0] <= pos;
  }

  /**
    Worked example: "a\nb\r\nc" yields the table [0, 2, 5], and offset 5 (the
    'c') is line 2, column 0.
  */
  lemma MixedNewlinesExample()
    ensures LineTable([97, LF, 98, CR, LF, 99], 6) == [0, 2, 5]
    ensures Resolve([0, 2, 5], 5) == (2, 0)
    ensures CountBoundaries([97, LF, 98, CR, LF, 99], 5) == 2
  {
    var buf: seq<Byte> := [97, LF, 98, CR, LF, 99];
    assert !IsBoundary(buf, 3);
    assert LineTable(buf, 1) == [0];
    assert LineTable(buf, 2) == [0, 2];
    assert LineTable(buf, 4) == [0, 2];
    assert LineTable(buf, 5) == [0, 2, 5];
    assert CountBoundaries(buf, 1) == 0;
    assert CountBoundaries(buf, 2) == 1;
    assert CountBoundaries(buf, 4) == 1;
  }
}
