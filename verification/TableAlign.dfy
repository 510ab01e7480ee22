/**
 Aligning one pipe table: column widths, padding and delimiter cells, where the separators end up, and exactly when
 aligning the result again changes nothing.
 */
module TableAlign {
  import opened PythonText
  import opened PipeRows

  type Row = seq<string>

  // ---- delimiter cells ----

  predicate ColonFirst(c: string) { c != "" && c[0] == ':' }

  predicate ColonLast(c: string) { c != "" && c[|c| - 1] == ':' }

  /** A cell without the colons at its ends; a lone colon counts as both. */
  function Core(c: string): string {
    if ColonFirst(c) && ColonLast(c) then (if |c| == 1 then "" else c[1..|c| - 1])
    else if ColonFirst(c) then c[1..]
    else if ColonLast(c) then c[..|c| - 1]
    else c
  }

  predicate IsDelimiterCell(cell: string) {
    && cell != ""
    && var core := Strip(Core(Strip(cell)));
       |core| >= 3 && forall c :: c in core ==> c == '-'
  }

  predicate IsDelimiterRow(line: string) {
    && '|' in line
    && |Cells(line)| >= 2
    && forall c :: c in Cells(line) ==> IsDelimiterCell(c)
  }

  function Dashes(n: nat): (s: string)
    ensures |s| == n && forall c :: c in s ==> c == '-'
  {
    seq(n, i => '-')
  }

  /** Dashes over the width of a column, with the alignment colons of the original cell. */
  function DelimiterPart(cell: string, width: nat): (s: string)
    requires width >= 3
    ensures |s| == width
  {
    var core := Dashes(width);
    var left := if ColonFirst(Strip(cell)) then ":" + core[1..] else core;
    if ColonLast(Strip(cell)) then left[..width - 1] + ":" else left
  }

  function Colons(cell: string): nat {
    (if ColonFirst(Strip(cell)) then 1 else 0) + if ColonLast(Strip(cell)) then 1 else 0
  }

  // ---- columns ----

  function Columns(rows: seq<Row>): (n: nat)
    ensures forall r :: 0 <= r < |rows| ==> |rows[r]| <= n
    ensures (forall r :: 0 <= r < |rows| ==> |rows[r]| < n) ==> rows == [] && n == 0
  {
    if rows == [] then 0 else Max(Columns(rows[..|rows| - 1]), |rows[|rows| - 1]|)
  }

  function FilledRow(row: Row, n: nat): (r: Row)
    requires |row| <= n
    ensures |r| == n && r[..|row|] == row && forall i :: |row| <= i < n ==> r[i] == ""
  {
    row + seq(n - |row|, i => "")
  }

  predicate IsGrid(grid: seq<Row>, n: nat) {
    |grid| >= 2 && n > 0 && forall r :: 0 <= r < |grid| ==> |grid[r]| == n
  }

  predicate HasRows(rows: seq<Row>) {
    |rows| >= 2 && forall r :: 0 <= r < |rows| ==> rows[r] != []
  }

  function Filled(rows: seq<Row>): (grid: seq<Row>)
    ensures |grid| == |rows| && forall r :: 0 <= r < |rows| ==> grid[r] == FilledRow(rows[r], Columns(rows))
    ensures HasRows(rows) ==> IsGrid(grid, Columns(rows))
  {
    seq(|rows|, r requires 0 <= r < |rows| => FilledRow(rows[r], Columns(rows)))
  }

  function Max(a: nat, b: nat): nat { if a < b then b else a }

  /** Longest cell of a column among the first rows; the delimiter row, the second, does not count. */
  function Longest(grid: seq<Row>, upto: nat, c: nat): nat
    requires upto <= |grid| && forall r :: 0 <= r < |grid| ==> c < |grid[r]|
  {
    if upto == 0 then 0
    else if upto == 2 then Longest(grid, 1, c)
    else Max(Longest(grid, upto - 1, c), |grid[upto - 1][c]|)
  }

  function Width(grid: seq<Row>, c: nat): (w: nat)
    requires forall r :: 0 <= r < |grid| ==> c < |grid[r]|
    ensures w >= 3
  {
    Max(Longest(grid, |grid|, c), 3)
  }

  function Widths(grid: seq<Row>, n: nat): (widths: seq<nat>)
    requires IsGrid(grid, n)
    ensures |widths| == n && forall c :: 0 <= c < n ==> widths[c] == Width(grid, c)
  {
    seq(n, c requires 0 <= c < n => Width(grid, c))
  }

  function DelimiterParts(row: Row, widths: seq<nat>): (parts: Row)
    requires |row| == |widths| && forall c :: 0 <= c < |widths| ==> widths[c] >= 3
    ensures |parts| == |row| && forall c :: 0 <= c < |row| ==> parts[c] == DelimiterPart(row[c], widths[c])
  {
    seq(|row|, c requires 0 <= c < |row| => DelimiterPart(row[c], widths[c]))
  }

  /** The parts printed for row `r`. */
  function PartsOf(grid: seq<Row>, n: nat, r: nat): (parts: Row)
    requires IsGrid(grid, n) && r < |grid|
    ensures |parts| == n
  {
    if r == 1 then DelimiterParts(grid[1], Widths(grid, n)) else Laid(grid[r], Widths(grid, n))
  }

  function AlignedGrid(grid: seq<Row>, n: nat): (lines: seq<string>)
    requires IsGrid(grid, n)
    ensures |lines| == |grid|
    ensures forall r :: 0 <= r < |grid| ==> lines[r] == PrintRow(PartsOf(grid, n, r))
  {
    seq(|grid|, r requires 0 <= r < |grid| => PrintRow(PartsOf(grid, n, r)))
  }

  /** A table as `find_tables` makes it: at least a header and a delimiter row, each line split into cells. */
  ghost predicate IsTable(rows: seq<Row>) {
    |rows| >= 2 && forall r :: 0 <= r < |rows| ==> rows[r] != [] && IsRow(rows[r], |rows[r]| - 1)
  }

  function Aligned(rows: seq<Row>): (lines: seq<string>)
    requires HasRows(rows)
    ensures |lines| == |rows|
  {
    AlignedGrid(Filled(rows), Columns(rows))
  }

  function SplitAll(lines: seq<string>): (rows: seq<Row>)
    ensures |rows| == |lines| && forall r :: 0 <= r < |rows| ==> rows[r] == Cells(lines[r])
    ensures forall r :: 0 <= r < |rows| ==> rows[r] != []
  {
    seq(|lines|, r requires 0 <= r < |lines| => Cells(lines[r]))
  }

  lemma SplitLinesAreTable(lines: seq<string>)
    requires |lines| >= 2
    ensures IsTable(SplitAll(lines))
  {
    hide Cells;
    forall r | 0 <= r < |lines| ensures IsRow(Cells(lines[r]), |Cells(lines[r])| - 1) {
      CellsAreCells(lines[r]);
    }
  }

  // ---- widths ----

  lemma {:induction false} LongestBounds(grid: seq<Row>, n: nat, upto: nat, c: nat, r: nat)
    requires IsGrid(grid, n) && c < n && r < upto <= |grid| && r != 1
    ensures |grid[r][c]| <= Longest(grid, upto, c)
    decreases upto
  {
    if r < upto - 1 { LongestBounds(grid, n, upto - 1, c, r); }
  }

  lemma {:induction false} LongestAttained(grid: seq<Row>, n: nat, upto: nat, c: nat) returns (r: nat)
    requires IsGrid(grid, n) && c < n && upto <= |grid| && Longest(grid, upto, c) > 0
    ensures r < upto && r != 1 && |grid[r][c]| == Longest(grid, upto, c)
    decreases upto
  {
    if upto == 2 || Longest(grid, upto, c) > |grid[upto - 1][c]| {
      r := LongestAttained(grid, n, upto - 1, c);
    } else {
      r := upto - 1;
    }
  }

  /** The width of a column is 3 or the length of its longest cell, whichever is more. */
  lemma WidthExact(grid: seq<Row>, n: nat, c: nat)
    requires IsGrid(grid, n) && c < n
    ensures Width(grid, c) >= 3
    ensures forall r :: 0 <= r < |grid| && r != 1 ==> |grid[r][c]| <= Width(grid, c)
    ensures Width(grid, c) == 3 || exists r :: 0 <= r < |grid| && r != 1 && |grid[r][c]| == Width(grid, c)
  {
    forall r | 0 <= r < |grid| && r != 1 ensures |grid[r][c]| <= Width(grid, c) {
      LongestBounds(grid, n, |grid|, c, r);
    }
    if Width(grid, c) != 3 {
      var r := LongestAttained(grid, n, |grid|, c);
    }
  }

  lemma PartsFillWidths(grid: seq<Row>, n: nat, r: nat)
    requires IsGrid(grid, n) && r < |grid|
    ensures forall c :: 0 <= c < n ==> |PartsOf(grid, n, r)[c]| == Widths(grid, n)[c]
  {
    forall c | 0 <= c < n ensures |PartsOf(grid, n, r)[c]| == Widths(grid, n)[c] {
      WidthExact(grid, n, c);
    }
  }

  // ---- geometry ----

  /** Position of separator `k` in every line. */
  function Offset(widths: seq<nat>, k: nat): nat
    requires k <= |widths|
  {
    if k == 0 then 0 else Offset(widths, k - 1) + widths[k - 1] + 3
  }

  lemma {:induction false} OffsetTail(widths: seq<nat>, k: nat)
    requires 0 < k <= |widths|
    ensures Offset(widths, k) == widths[0] + 3 + Offset(widths[1..], k - 1)
  {
    if k > 1 { OffsetTail(widths, k - 1); }
  }

  lemma TailSlice(a: string, rest: string, o: nat, w: nat)
    requires o + 2 + w <= |rest|
    ensures (a + ("|" + rest))[|a|] == '|'
    ensures (a + ("|" + rest))[|a| + 1 + o] == rest[o] && (a + ("|" + rest))[|a| + 1 + o + 1 + w] == rest[o + 1 + w]
    ensures (a + ("|" + rest))[|a| + 1 + o + 1..|a| + 1 + o + 1 + w] == rest[o + 1..o + 1 + w]
    ensures o > 0 ==> (a + ("|" + rest))[|a| + 1 + o - 1] == rest[o - 1]
  {}

  lemma HeadSlice(p: string, more: string)
    ensures var s := " " + p + " " + more; s[0] == ' ' && s[1..1 + |p|] == p && s[1 + |p|] == ' '
  {}

  lemma {:induction false} InnerLength(parts: Row, widths: seq<nat>)
    requires |parts| == |widths| > 0 && forall c :: 0 <= c < |parts| ==> |parts[c]| == widths[c]
    ensures |Inner(parts)| + 1 == Offset(widths, |parts|)
    decreases |parts|
  {
    hide Offset, Inner;
    OffsetTail(widths, |parts|);
    OffsetZero(widths[1..]);
    InnerSplits(parts);
    if |parts| > 1 { InnerLength(parts[1..], widths[1..]); }
  }

  /** The inner text prints part `k` after the offset, behind a separator unless it is the first. */
  ghost predicate PrintsAt(inner: string, o: nat, part: string, separated: bool) {
    && o + 2 + |part| <= |inner| && inner[o] == ' ' && inner[o + 1 + |part|] == ' '
    && (separated ==> o > 0 && inner[o - 1] == '|')
    && inner[o + 1..o + 1 + |part|] == part
  }

  lemma PrintsFirst(p: string, more: string)
    ensures PrintsAt(" " + p + " " + more, 0, p, false)
  {
    HeadSlice(p, more);
  }

  lemma PrintsLater(p: string, rest: string, o: nat, part: string, separated: bool)
    requires PrintsAt(rest, o, part, separated) && (o == 0 || separated)
    ensures PrintsAt(" " + p + " " + ("|" + rest), |p| + 3 + o, part, true)
  {
    TailSlice(" " + p + " ", rest, o, |part|);
  }

  lemma {:induction false} InnerGeometry(parts: Row, widths: seq<nat>, k: nat)
    requires |parts| == |widths| > 0 && k < |parts| && forall c :: 0 <= c < |parts| ==> |parts[c]| == widths[c]
    ensures PrintsAt(Inner(parts), Offset(widths, k), parts[k], k > 0)
    ensures k == 0 ==> Offset(widths, k) == 0
    decreases |parts|
  {
    hide Offset, Inner, PrintsAt;
    OffsetZero(widths);
    InnerSplits(parts);
    if k > 0 {
      OffsetTail(widths, k);
      InnerGeometry(parts[1..], widths[1..], k - 1);
      PrintsLater(parts[0], Inner(parts[1..]), Offset(widths[1..], k - 1), parts[k], k - 1 > 0);
    } else if |parts| == 1 {
      PrintsFirst(parts[0], "");
      assert " " + parts[0] + " " + "" == " " + parts[0] + " ";
    } else {
      PrintsFirst(parts[0], "|" + Inner(parts[1..]));
    }
  }

  /** Where the line prints part `k`, between separators at the offsets of the widths. */
  ghost predicate Lies(line: string, parts: Row, widths: seq<nat>, k: nat)
    requires k < |parts| == |widths|
  {
    && |line| == Offset(widths, |parts|) + 1
    && Offset(widths, k) + 2 + widths[k] < Offset(widths, |parts|)
    && line[Offset(widths, k)] == '|' && line[Offset(widths, |parts|)] == '|'
    && line[Offset(widths, k) + 1] == ' ' && line[Offset(widths, k) + 2 + widths[k]] == ' '
    && line[Offset(widths, k) + 2..Offset(widths, k) + 2 + widths[k]] == parts[k]
  }

  lemma FramedSlice(inner: string, o: nat, w: nat)
    requires o + 2 + w <= |inner|
    ensures ("|" + inner + "|")[o + 2..o + 2 + w] == inner[o + 1..o + 1 + w]
    ensures ("|" + inner + "|")[o + 1] == inner[o] && ("|" + inner + "|")[o + 2 + w] == inner[o + 1 + w]
  {}

  /** A printed row has its separators at the offsets of the widths and its parts between them. */
  lemma RowGeometry(parts: Row, widths: seq<nat>, k: nat)
    requires |parts| == |widths| > 0 && k < |parts| && forall c :: 0 <= c < |parts| ==> |parts[c]| == widths[c]
    ensures Lies(PrintRow(parts), parts, widths, k)
  {
    hide Inner, Offset, Joined;
    InnerIsJoined(parts);
    InnerLength(parts, widths);
    InnerGeometry(parts, widths, k);
    assert PrintRow(parts) == "|" + Inner(parts) + "|";
    FramedSlice(Inner(parts), Offset(widths, k), widths[k]);
    if k == 0 { assert Offset(widths, 0) == 0 by { OffsetZero(widths); } }
  }

  lemma OffsetZero(widths: seq<nat>)
    ensures Offset(widths, 0) == 0
  {}

  /** All lines of an aligned table are equally long, with the separators in the same columns. */
  lemma LinesAlign(rows: seq<Row>, r: nat, k: nat)
    requires HasRows(rows) && r < |rows| && k < Columns(rows)
    ensures Lies(Aligned(rows)[r], PartsOf(Filled(rows), Columns(rows), r), Widths(Filled(rows), Columns(rows)), k)
  {
    hide PrintRow, Lies;
    var n := Columns(rows);
    PartsFillWidths(Filled(rows), n, r);
    RowGeometry(PartsOf(Filled(rows), n, r), Widths(Filled(rows), n), k);
  }

  // ---- the delimiter row ----

  lemma {:induction false} PlainCell(s: string, code: nat)
    requires forall c :: c in s ==> c == ':' || c == '-'
    ensures RawCells(s, code) == [s] && CodeAfter(s, code) == code
    decreases |s|
  {
    if s != "" {
      assert s[0] in s;
      forall c | c in s[1..] ensures c == ':' || c == '-' { assert c in s; }
      PlainCell(s[1..], code);
      assert s[..1] + s[1..] == s;
    }
  }

  lemma StripTrimmed(s: string)
    requires Trimmed(s)
    ensures Strip(s) == s
  {
    StripFinds("", s, "");
    assert "" + s + "" == s;
  }

  /** A printed delimiter cell: as wide as its column, the original colons at its ends and dashes between. */
  lemma DelimiterPartShape(cell: string, width: nat)
    requires width >= 3
    ensures var d := DelimiterPart(cell, width);
      && (forall c :: c in d ==> c == ':' || c == '-')
      && Trimmed(d) && Strip(d) == d
      && (ColonFirst(d) <==> ColonFirst(Strip(cell))) && (ColonLast(d) <==> ColonLast(Strip(cell)))
      && |Core(d)| == width - Colons(cell) && (forall c :: c in Core(d) ==> c == '-')
  {
    hide Strip;
    var d := DelimiterPart(cell, width);
    assert forall i :: 0 < i < width - 1 ==> d[i] == '-';
    StripTrimmed(d);
  }

  /** Printing a delimiter cell again over the same width gives the same cell. */
  lemma DelimiterPartAgain(cell: string, width: nat)
    requires width >= 3
    ensures DelimiterPart(DelimiterPart(cell, width), width) == DelimiterPart(cell, width)
  {
    hide Strip, Core;
    DelimiterPartShape(cell, width);
  }

  /** A printed delimiter cell is recognised exactly when its colons leave at least three dashes. */
  lemma DelimiterPartRecognised(cell: string, width: nat)
    requires width >= 3
    ensures IsDelimiterCell(DelimiterPart(cell, width)) <==> width - Colons(cell) >= 3
  {
    hide Strip, DelimiterPart, Core;
    DelimiterPartShape(cell, width);
    var core := Core(DelimiterPart(cell, width));
    assert Trimmed(core) by {
      if core != "" { assert core[0] in core && core[|core| - 1] in core; }
    }
    StripTrimmed(core);
  }

  /** Split again, the delimiter line gives back the printed delimiter cells. */
  lemma DelimiterLineSplits(grid: seq<Row>, n: nat)
    requires IsGrid(grid, n)
    ensures Cells(AlignedGrid(grid, n)[1]) == PartsOf(grid, n, 1)
  {
    hide Strip, RawCells, CodeAfter, PrintRow, DelimiterPart, Core;
    var parts, widths := PartsOf(grid, n, 1), Widths(grid, n);
    forall c | 0 <= c < n
      ensures Trimmed(parts[c]) && OneCell(parts[c]) && Closed(parts[c]) && PadRight(parts[c], widths[c]) == parts[c]
    {
      WidthExact(grid, n, c);
      DelimiterPartShape(grid[1][c], widths[c]);
      PlainCell(parts[c], 0);
    }
    assert IsRow(parts, n - 1);
    PrintedRowSplits(parts, widths, n - 1);
    assert Laid(parts, widths) == parts;
  }

  lemma PrintRowHasPipe(parts: Row)
    requires parts != []
    ensures '|' in PrintRow(parts)
  {
    assert PrintRow(parts)[0] == '|';
  }

  /**
    * The aligned delimiter line is a delimiter row again exactly when the table has two columns or more and every
    * column leaves three dashes between its colons; a centred column of width 3 does not.
    */
  lemma AlignedDelimiterRecognisedIff(rows: seq<Row>)
    requires HasRows(rows)
    ensures IsDelimiterRow(Aligned(rows)[1]) <==>
      && Columns(rows) >= 2
      && forall c :: 0 <= c < Columns(rows) ==> Width(Filled(rows), c) - Colons(Filled(rows)[1][c]) >= 3
  {
    hide PrintRow, DelimiterPart, IsDelimiterCell, Cells, Width;
    var grid, n := Filled(rows), Columns(rows);
    DelimiterLineSplits(grid, n);
    PrintRowHasPipe(PartsOf(grid, n, 1));
    var parts := PartsOf(grid, n, 1);
    forall c | 0 <= c < n
      ensures parts[c] == DelimiterPart(grid[1][c], Width(grid, c))
      ensures IsDelimiterCell(parts[c]) <==> Width(grid, c) - Colons(grid[1][c]) >= 3
    {
      WidthExact(grid, n, c);
      DelimiterPartRecognised(grid[1][c], Width(grid, c));
    }
    assert forall c :: 0 <= c < n ==> parts[c] in parts;
  }

  // ---- splitting an aligned table ----

  /** The row ends outside a code span, or already has a cell for every column. */
  predicate Settled(row: Row, n: nat)
    requires row != []
  {
    Closed(row[|row| - 1]) || |row| == n
  }

  lemma FilledIsRow(row: Row, n: nat)
    requires row != [] && |row| <= n && IsRow(row, |row| - 1)
    ensures IsRow(FilledRow(row, n), |row| - 1)
  {
    var filled := FilledRow(row, n);
    forall i | 0 <= i < n ensures Trimmed(filled[i]) && OneCell(filled[i]) {
      if i < |row| { assert filled[i] == filled[..|row|][i]; }
    }
    forall i | 0 <= i < |row| - 1 ensures Closed(filled[i]) {
      assert filled[i] == filled[..|row|][i];
    }
  }

  /** Splitting an aligned line other than the delimiter gives back the cells, padded, exactly for settled rows. */
  lemma AlignedLineSplitsIff(rows: seq<Row>, r: nat)
    requires IsTable(rows) && r < |rows| && r != 1
    ensures var n, cells := Columns(rows), Cells(Aligned(rows)[r]);
      var filled := FilledRow(rows[r], n);
      && (cells == filled <==> Settled(rows[r], n))
      && (!Settled(rows[r], n) ==> (
            |cells| == |rows[r]| && cells[..|rows[r]| - 1] == filled[..|rows[r]| - 1]
            && |cells[|rows[r]| - 1]| >= Width(Filled(rows), |rows[r]| - 1) + 2 && !Closed(cells[|rows[r]| - 1])))
  {
    hide PrintRow, Cells, Width, IsRow, Closed;
    var n, k := Columns(rows), |rows[r]| - 1;
    assert IsRow(rows[r], k);
    FilledIsRow(rows[r], n);
    PrintedRowSplits(FilledRow(rows[r], n), Widths(Filled(rows), n), k);
    assert FilledRow(rows[r], n)[k] == FilledRow(rows[r], n)[..|rows[r]|][k] == rows[r][k];
  }

  // ---- aligning again ----

  lemma AgainHasColumns(rows: seq<Row>)
    requires IsTable(rows)
    ensures var again := SplitAll(Aligned(rows)); HasRows(again) && Columns(again) == Columns(rows)
    ensures SplitAll(Aligned(rows))[1] == PartsOf(Filled(rows), Columns(rows), 1)
  {
    hide PrintRow, Cells, Width, IsRow;
    var n, again := Columns(rows), SplitAll(Aligned(rows));
    DelimiterLineSplits(Filled(rows), n);
    forall r | 0 <= r < |again| ensures |again[r]| <= n {
      if r != 1 { AlignedLineSplitsIff(rows, r); }
    }
    assert |again[1]| == n;
  }

  /** A cell of the table split again is the same as before, or it is wider than its column was. */
  ghost predicate WiderOrSame(rows: seq<Row>, r: nat, cells: Row)
    requires HasRows(rows) && r < |rows|
  {
    var n, row := Columns(rows), rows[r];
    && |cells| <= n
    && (Settled(row, n) ==> FilledRow(cells, n) == FilledRow(row, n))
    && (!Settled(row, n) ==>
          |FilledRow(cells, n)[|row| - 1]| >= Width(Filled(rows), |row| - 1) + 2
          && forall c :: 0 <= c < n && c != |row| - 1 ==> FilledRow(cells, n)[c] == FilledRow(row, n)[c])
  }

  lemma CellsAgain(rows: seq<Row>, r: nat)
    requires IsTable(rows) && r < |rows| && r != 1
    ensures WiderOrSame(rows, r, Cells(Aligned(rows)[r]))
  {
    hide PrintRow, Cells, Width, IsRow, Aligned, Closed, FilledRow;
    AlignedLineSplitsIff(rows, r);
    var n, cells := Columns(rows), Cells(Aligned(rows)[r]);
    CellsFit(cells, rows[r], n);
    forall c | 0 <= c < n
      ensures |cells| <= n
      ensures Settled(rows[r], n) ==> FilledRow(cells, n) == FilledRow(rows[r], n)
      ensures !Settled(rows[r], n) && c == |rows[r]| - 1 ==>
        |FilledRow(cells, n)[c]| >= Width(Filled(rows), |rows[r]| - 1) + 2
      ensures !Settled(rows[r], n) && c != |rows[r]| - 1 ==> FilledRow(cells, n)[c] == FilledRow(rows[r], n)[c]
    {
      CellCases(cells, rows[r], n, Width(Filled(rows), |rows[r]| - 1), c);
    }
  }

  lemma CellsFit(cells: Row, row: Row, n: nat)
    requires |row| <= n && (cells == FilledRow(row, n) || |cells| == |row|)
    ensures |cells| <= n
  {}

  lemma CellCases(cells: Row, row: Row, n: nat, w: nat, c: nat)
    requires |row| <= n && |cells| <= n && row != [] && c < n
    requires Settled(row, n) ==> cells == FilledRow(row, n)
    requires !Settled(row, n) ==>
      |cells| == |row| && cells[..|row| - 1] == FilledRow(row, n)[..|row| - 1] && |cells[|row| - 1]| >= w + 2
    ensures Settled(row, n) ==> FilledRow(cells, n) == FilledRow(row, n)
    ensures !Settled(row, n) && c == |row| - 1 ==> |FilledRow(cells, n)[c]| >= w + 2
    ensures !Settled(row, n) && c != |row| - 1 ==> FilledRow(cells, n)[c] == FilledRow(row, n)[c]
  {
    hide Closed;
    if !Settled(row, n) && c < |row| - 1 {
      assert cells[c] == cells[..|row| - 1][c] == FilledRow(row, n)[..|row| - 1][c];
    }
  }

  lemma CellNotShorter(rows: seq<Row>, again: seq<Row>, r: nat, c: nat)
    requires HasRows(rows) && HasRows(again) && |again| == |rows| && Columns(again) == Columns(rows) && c < Columns(rows)
    requires r < |rows| && r != 1 && WiderOrSame(rows, r, again[r])
    ensures |Filled(again)[r][c]| >= |Filled(rows)[r][c]|
    ensures !Settled(rows[r], Columns(rows)) && c == |rows[r]| - 1 ==> |Filled(again)[r][c]| > Width(Filled(rows), c)
  {
    hide Width, Settled, FilledRow, WiderOrSame;
    var n, k := Columns(rows), |rows[r]| - 1;
    WidthExact(Filled(rows), n, c);
    var before, after := FilledRow(rows[r], n), FilledRow(again[r], n);
    assert Filled(rows)[r] == before && Filled(again)[r] == after;
    WiderAt(rows, r, again[r], c);
  }

  lemma WiderAt(rows: seq<Row>, r: nat, cells: Row, c: nat)
    requires HasRows(rows) && r < |rows| && WiderOrSame(rows, r, cells) && c < Columns(rows)
    ensures |cells| <= Columns(rows)
    ensures !Settled(rows[r], Columns(rows)) && c == |rows[r]| - 1 ==>
      |FilledRow(cells, Columns(rows))[c]| >= Width(Filled(rows), c) + 2
    ensures Settled(rows[r], Columns(rows)) || c != |rows[r]| - 1 ==>
      FilledRow(cells, Columns(rows))[c] == FilledRow(rows[r], Columns(rows))[c]
  {
    hide Width, Settled, FilledRow;
  }

  lemma WidthNotLess(rows: seq<Row>, again: seq<Row>, c: nat)
    requires HasRows(rows) && HasRows(again) && |again| == |rows| && Columns(again) == Columns(rows) && c < Columns(rows)
    requires forall r :: 0 <= r < |rows| && r != 1 ==> WiderOrSame(rows, r, again[r])
    ensures Width(Filled(again), c) >= Width(Filled(rows), c)
  {
    hide Width, Settled, WiderOrSame;
    var n := Columns(rows);
    WidthExact(Filled(rows), n, c);
    WidthExact(Filled(again), n, c);
    if Width(Filled(rows), c) != 3 {
      var r :| 0 <= r < |Filled(rows)| && r != 1 && |Filled(rows)[r][c]| == Width(Filled(rows), c);
      CellNotShorter(rows, again, r, c);
    }
  }

  lemma WidthGrows(rows: seq<Row>, again: seq<Row>, r: nat)
    requires HasRows(rows) && HasRows(again) && |again| == |rows| && Columns(again) == Columns(rows)
    requires r < |rows| && r != 1 && WiderOrSame(rows, r, again[r]) && !Settled(rows[r], Columns(rows))
    ensures Width(Filled(again), |rows[r]| - 1) > Width(Filled(rows), |rows[r]| - 1)
  {
    hide Width, Settled, WiderOrSame;
    CellNotShorter(rows, again, r, |rows[r]| - 1);
    WidthExact(Filled(again), Columns(rows), |rows[r]| - 1);
  }

  lemma {:induction false} OffsetMonotone(a: seq<nat>, b: seq<nat>, k: nat)
    requires |a| == |b| && k <= |a| && forall c :: 0 <= c < |a| ==> a[c] <= b[c]
    ensures Offset(a, k) <= Offset(b, k)
    ensures (exists c :: 0 <= c < k && a[c] < b[c]) ==> Offset(a, k) < Offset(b, k)
  {
    if k > 0 { OffsetMonotone(a, b, k - 1); }
  }

  lemma LineLength(rows: seq<Row>)
    requires HasRows(rows)
    ensures |Aligned(rows)[0]| == Offset(Widths(Filled(rows), Columns(rows)), Columns(rows)) + 1
  {
    LinesAlign(rows, 0, 0);
  }

  lemma UnsettledChanges(rows: seq<Row>, again: seq<Row>, bad: nat)
    requires HasRows(rows) && HasRows(again) && |again| == |rows| && Columns(again) == Columns(rows)
    requires forall r :: 0 <= r < |rows| && r != 1 ==> WiderOrSame(rows, r, again[r])
    requires bad < |rows| && bad != 1 && !Settled(rows[bad], Columns(rows))
    ensures Aligned(again) != Aligned(rows)
  {
    hide Width, Aligned, Settled, WiderOrSame;
    var n := Columns(rows);
    var a, b := Widths(Filled(rows), n), Widths(Filled(again), n);
    forall c | 0 <= c < n ensures a[c] <= b[c] { WidthNotLess(rows, again, c); }
    WidthGrows(rows, again, bad);
    assert a[|rows[bad]| - 1] < b[|rows[bad]| - 1];
    OffsetMonotone(a, b, n);
    LineLength(rows);
    LineLength(again);
  }

  lemma SettledStays(rows: seq<Row>, again: seq<Row>)
    requires HasRows(rows) && HasRows(again) && |again| == |rows| && Columns(again) == Columns(rows)
    requires forall r :: 0 <= r < |rows| && r != 1 ==> WiderOrSame(rows, r, again[r]) && Settled(rows[r], Columns(rows))
    requires again[1] == PartsOf(Filled(rows), Columns(rows), 1)
    ensures Aligned(again) == Aligned(rows)
  {
    hide Width, Settled, AlignedGrid, PartsOf, FilledRow;
    var n := Columns(rows);
    forall r | 0 <= r < |rows| && r != 1 ensures Filled(again)[r] == Filled(rows)[r] {
      assert WiderOrSame(rows, r, again[r]);
    }
    FullRow(again[1]);
    GridAgain(Filled(rows), Filled(again), n);
  }

  lemma FullRow(row: Row)
    ensures FilledRow(row, |row|) == row
  {}

  lemma GridAgain(grid: seq<Row>, grid': seq<Row>, n: nat)
    requires IsGrid(grid, n) && IsGrid(grid', n) && |grid| == |grid'|
    requires forall r :: 0 <= r < |grid| && r != 1 ==> grid'[r] == grid[r]
    requires grid'[1] == PartsOf(grid, n, 1)
    ensures AlignedGrid(grid', n) == AlignedGrid(grid, n)
  {
    hide Width, PrintRow, DelimiterPart;
    forall c | 0 <= c < n ensures Width(grid', c) == Width(grid, c) {
      SameWidth(grid, grid', n, c);
    }
    assert Widths(grid', n) == Widths(grid, n);
    forall c | 0 <= c < n ensures PartsOf(grid', n, 1)[c] == PartsOf(grid, n, 1)[c] {
      DelimiterPartAgain(grid[1][c], Width(grid, c));
    }
    forall r | 0 <= r < |grid| ensures PartsOf(grid', n, r) == PartsOf(grid, n, r) {}
  }

  lemma SameWidth(grid: seq<Row>, grid': seq<Row>, n: nat, c: nat)
    requires IsGrid(grid, n) && IsGrid(grid', n) && c < n && |grid| == |grid'|
    requires forall r :: 0 <= r < |grid| && r != 1 ==> grid'[r] == grid[r]
    ensures Width(grid', c) == Width(grid, c)
  {
    SameLongest(grid, grid', n, |grid|, c);
  }

  lemma {:induction false} SameLongest(grid: seq<Row>, grid': seq<Row>, n: nat, upto: nat, c: nat)
    requires IsGrid(grid, n) && IsGrid(grid', n) && c < n && upto <= |grid| == |grid'|
    requires forall r :: 0 <= r < |grid| && r != 1 ==> grid'[r] == grid[r]
    ensures Longest(grid', upto, c) == Longest(grid, upto, c)
    decreases upto
  {
    if upto > 0 { SameLongest(grid, grid', n, upto - 1, c); }
  }

  /** Aligning the split lines of an aligned table changes nothing exactly when every row but the delimiter is settled. */
  lemma RealignIsNoOpIff(rows: seq<Row>)
    requires IsTable(rows)
    ensures HasRows(SplitAll(Aligned(rows)))
    ensures Aligned(SplitAll(Aligned(rows))) == Aligned(rows)
      <==> forall r :: 0 <= r < |rows| && r != 1 ==> Settled(rows[r], Columns(rows))
  {
    hide Aligned, Settled, WiderOrSame, Filled, IsRow, Cells;
    AgainHasColumns(rows);
    var again := SplitAll(Aligned(rows));
    forall r | 0 <= r < |rows| && r != 1 ensures WiderOrSame(rows, r, again[r]) {
      CellsAgain(rows, r);
    }
    if r: nat :| r < |rows| && r != 1 && !Settled(rows[r], Columns(rows)) {
      UnsettledChanges(rows, again, r);
    } else {
      SettledStays(rows, again);
    }
  }

  // ---- the printer ----

  /** Widths grow cell by cell; the delimiter row is skipped. */
  method ColumnWidths(grid: seq<Row>, n: nat) returns (widths: seq<nat>)
    requires IsGrid(grid, n)
    ensures widths == Widths(grid, n)
  {
    widths := seq(n, i => 0);
    for ridx := 0 to |grid|
      invariant |widths| == n && forall c :: 0 <= c < n ==> widths[c] == Longest(grid, ridx, c)
    {
      if ridx != 1 {
        for cidx := 0 to n
          invariant |widths| == n
          invariant forall c :: 0 <= c < cidx ==> widths[c] == Longest(grid, ridx + 1, c)
          invariant forall c :: cidx <= c < n ==> widths[c] == Longest(grid, ridx, c)
        {
          widths := widths[cidx := Max(widths[cidx], |grid[ridx][cidx]|)];
        }
      }
    }
    widths := seq(n, c requires 0 <= c < n => Max(widths[c], 3));
  }

  method DelimiterLine(row: Row, widths: seq<nat>) returns (parts: Row)
    requires |row| == |widths| && forall c :: 0 <= c < |widths| ==> widths[c] >= 3
    ensures parts == DelimiterParts(row, widths)
  {
    hide Strip;
    parts := [];
    for cidx := 0 to |row|
      invariant parts == DelimiterParts(row, widths)[..cidx]
    {
      var left, right := ColonFirst(Strip(row[cidx])), ColonLast(Strip(row[cidx]));
      var core := Dashes(widths[cidx]);
      if left { core := ":" + core[1..]; }
      if right { core := core[..|core| - 1] + ":"; }
      assert core == DelimiterPart(row[cidx], widths[cidx]);
      parts := parts + [core];
    }
  }

  lemma PartsAt(grid: seq<Row>, n: nat, r: nat)
    requires IsGrid(grid, n) && r < |grid|
    ensures PartsOf(grid, n, r)
      == if r == 1 then DelimiterParts(grid[1], Widths(grid, n)) else Laid(grid[r], Widths(grid, n))
  {}

  /** Print a table with its columns aligned. */
  method AlignTable(rows: seq<Row>) returns (out: seq<string>)
    requires HasRows(rows)
    ensures out == Aligned(rows)
  {
    hide PrintRow, DelimiterPart, Width, Longest, PartsOf;
    var ncols, grid := Columns(rows), Filled(rows);
    var widths := ColumnWidths(grid, ncols);
    out := [];
    for ridx := 0 to |grid|
      invariant out == AlignedGrid(grid, ncols)[..ridx]
    {
      var parts: Row;
      if ridx == 1 {
        parts := DelimiterLine(grid[ridx], widths);
      } else {
        parts := Laid(grid[ridx], widths);
      }
      PartsAt(grid, ncols, ridx);
      out := out + [PrintRow(parts)];
    }
  }

  const NarrowCentred: seq<Row> := [["a", "b"], [":---:", "---"]]

  /** A centred column of width 3 prints as a colon, a dash and a colon, which is no delimiter cell. */
  lemma CentredColumnIsLost()
    ensures HasRows(NarrowCentred) && IsDelimiterCell(":---:") && IsDelimiterCell("---")
    ensures !IsDelimiterRow(Aligned(NarrowCentred)[1])
  {
    hide Cells, Aligned, DelimiterPart, IsDelimiterRow, Strip;
    var rows, dashes, centred := NarrowCentred, "---", ":---:";
    StripTrimmed(dashes);
    StripTrimmed(centred);
    assert Core(dashes) == dashes && Core(centred) == dashes;
    AlignedDelimiterRecognisedIff(rows);
    assert Columns(rows) == 2 by {
      assert rows[..1] == [rows[0]] && rows[..1][..0] == [];
      assert Columns([rows[0]]) == 2;
    }
    var grid := Filled(rows);
    assert grid[0] == FilledRow(rows[0], 2) == rows[0] && grid[1] == FilledRow(rows[1], 2) == rows[1];
    assert Longest(grid, 1, 0) == 1;
    assert Width(grid, 0) == 3;
    assert Colons(centred) == 2;
  }
}
