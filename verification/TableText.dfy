/** An aligned table character by character, and what counts as a delimiter cell. */
module TableText {
  import opened PythonText
  import opened PipeRows
  import opened TableAlign

  // ---- delimiter cells ----

  /** An optional colon, dashes that may have white space around them, an optional colon. */
  ghost predicate Dashed(c: string) {
    exists left, before, n, after, right :: DashedAs(c, left, before, n, after, right)
  }

  ghost predicate DashedAs(c: string, left: string, before: string, n: nat, after: string, right: string) {
    && c == left + before + Dashes(n) + after + right && n >= 3 && AllSpace(before) && AllSpace(after)
    && (left == "" || left == ":") && (right == "" || right == ":")
  }

  lemma DelimiterCellExact(cell: string)
    ensures IsDelimiterCell(cell) <==> Dashed(Strip(cell))
  {
    hide IsDelimiterCell, Strip, DashedAs;
    if IsDelimiterCell(cell) { DelimiterIsDashed(cell); }
    if left, before, n, after, right :| DashedAs(Strip(cell), left, before, n, after, right) {
      DashedIsDelimiter(cell, left, before, n, after, right);
    }
  }

  lemma DelimiterIsDashed(cell: string)
    requires IsDelimiterCell(cell)
    ensures Dashed(Strip(cell))
  {
    hide Strip, Core;
    var c := Strip(cell);
    var before, after := StripParts(Core(c));
    AllDashes(Strip(Core(c)));
    if Core(c) == "" { StripTrimmed(""); }
    ColonsAround(c);
    Together(c, if ColonFirst(c) then ":" else "", before, |Strip(Core(c))|, after, if ColonLast(c) then ":" else "");
  }

  lemma AllDashes(core: string)
    requires forall c :: c in core ==> c == '-'
    ensures core == Dashes(|core|)
  {
    forall k | 0 <= k < |core| ensures core[k] == '-' { assert core[k] in core; }
  }

  lemma Together(c: string, left: string, before: string, n: nat, after: string, right: string)
    requires c == left + (before + Dashes(n) + after) + right && n >= 3 && AllSpace(before) && AllSpace(after)
    requires (left == "" || left == ":") && (right == "" || right == ":")
    ensures Dashed(c)
  {
    assert left + (before + Dashes(n) + after) + right == left + before + Dashes(n) + after + right;
    assert DashedAs(c, left, before, n, after, right);
  }

  lemma ColonsAround(c: string)
    requires Core(c) != ""
    ensures c == (if ColonFirst(c) then ":" else "") + Core(c) + if ColonLast(c) then ":" else ""
  {}

  lemma DashedIsDelimiter(cell: string, left: string, before: string, n: nat, after: string, right: string)
    requires DashedAs(Strip(cell), left, before, n, after, right)
    ensures IsDelimiterCell(cell)
  {
    TrimmedAfter(cell);
    if cell == "" { StripTrimmed(""); }
    hide Strip;
    DashedCore(Strip(cell), left, before, n, after, right);
  }

  lemma LeadingSpace(c: string, before: string, rest: string)
    requires c == before + rest && AllSpace(before)
    ensures before != "" ==> IsSpace(c[0])
  {
    if before != "" { assert before[0] in before; }
  }

  lemma TrailingSpace(c: string, rest: string, after: string)
    requires c == rest + after && AllSpace(after)
    ensures after != "" ==> IsSpace(c[|c| - 1])
  {
    if after != "" { assert after[|after| - 1] in after; }
  }

  lemma CoreBetween(left: string, m: string, right: string)
    requires (left == "" || left == ":") && (right == "" || right == ":") && m != ""
    requires left == "" ==> m[0] != ':'
    requires right == "" ==> m[|m| - 1] != ':'
    ensures Core(left + m + right) == m
  {
    var c := left + m + right;
    assert c[|left|..|left| + |m|] == m;
    assert left == "" ==> c[0] == m[0];
    assert right == "" ==> c[|c| - 1] == m[|m| - 1];
  }

  /** Without a colon in front of it the white space before the dashes would start a trimmed cell; so with the end. */
  lemma NoSpaceOutside(c: string, left: string, before: string, d: string, after: string, right: string)
    requires c == left + before + d + after + right && Trimmed(c) && d != "" && AllSpace(before) && AllSpace(after)
    ensures (left == "" ==> before == "") && (right == "" ==> after == "")
  {
    hide AllSpace, IsSpace;
    if left == "" {
      assert c == before + (d + after + right);
      LeadingSpace(c, before, d + after + right);
    }
    if right == "" {
      assert c == (left + before + d) + after;
      TrailingSpace(c, left + before + d, after);
    }
  }

  lemma DashedCore(c: string, left: string, before: string, n: nat, after: string, right: string)
    requires DashedAs(c, left, before, n, after, right) && Trimmed(c)
    ensures c != "" && Strip(Core(c)) == Dashes(n)
  {
    assert n >= 3 && c == left + before + Dashes(n) + after + right && AllSpace(before) && AllSpace(after);
    assert (left == "" || left == ":") && (right == "" || right == ":");
    var d := Dashes(n);
    NoSpaceOutside(c, left, before, d, after, right);
    DashEnds(n);
    hide *;
    Middle(left, before, d, after, right);
    CoreBetween(left, before + d + after, right);
    StripFinds(before, d, after);
  }

  lemma Middle(left: string, before: string, d: string, after: string, right: string)
    requires d != ""
    ensures var m := before + d + after;
      && m != "" && left + before + d + after + right == left + m + right
      && (before == "" ==> m[0] == d[0]) && (after == "" ==> m[|m| - 1] == d[|d| - 1])
  {
    assert left + before + d + after + right == left + (before + d + after) + right;
  }

  lemma DashEnds(n: nat)
    requires n > 0
    ensures var d := Dashes(n); d != "" && d[0] == '-' && d[n - 1] == '-' && Trimmed(d)
  {
    var d := Dashes(n);
    assert d[0] in d && d[n - 1] in d;
  }

  /** A printed delimiter cell: the colons of the original cell at its ends, dashes between. */
  lemma DelimiterPartExact(cell: string, width: nat)
    requires width >= 3
    ensures var part, c := DelimiterPart(cell, width), Strip(cell);
      && |part| == width
      && part[0] == (if c != "" && c[0] == ':' then ':' else '-')
      && part[width - 1] == (if c != "" && c[|c| - 1] == ':' then ':' else '-')
      && forall k :: 0 < k < width - 1 ==> part[k] == '-'
  {
    hide Strip;
    var core := Dashes(width);
    assert forall k :: 0 <= k < width ==> core[k] in core;
  }

  // ---- aligned lines ----

  /**
   Cell `k` of any row but the delimiter stands after a separator and a blank, as it was split, filled up with blanks to
   the width of its column and followed by one more; cells a row does not have are empty.
   */
  lemma CellStandsAt(rows: seq<Row>, r: nat, k: nat)
    requires HasRows(rows) && r < |rows| && r != 1 && k < Columns(rows)
    ensures var line, widths := Aligned(rows)[r], Widths(Filled(rows), Columns(rows));
      var o, cell := Offset(widths, k), if k < |rows[r]| then rows[r][k] else "";
      && |cell| <= widths[k] && o + 2 + widths[k] < |line| && line[o] == '|' && line[o + 1] == ' '
      && line[o + 2..o + 2 + |cell|] == cell
      && forall j :: o + 2 + |cell| <= j <= o + 2 + widths[k] ==> line[j] == ' '
  {
    hide Columns, Filled, Widths, Aligned, PartsOf, Offset, Lies;
    var n := Columns(rows);
    var grid := Filled(rows);
    LinesAlign(rows, r, k);
    WidthExact(grid, n, k);
    CellOf(rows, r, k);
    PartIsPadded(grid, n, r, k);
    LiesPadded(Aligned(rows)[r], PartsOf(grid, n, r), Widths(grid, n), k, grid[r][k]);
  }

  lemma LiesPadded(line: string, parts: Row, widths: seq<nat>, k: nat, cell: string)
    requires k < |parts| == |widths| && Lies(line, parts, widths, k) && |parts[k]| == widths[k] && |cell| <= widths[k]
    requires parts[k][..|cell|] == cell && forall j :: |cell| <= j < |parts[k]| ==> parts[k][j] == ' '
    ensures var o := Offset(widths, k);
      && o + 2 + widths[k] < |line| && line[o] == '|' && line[o + 1] == ' ' && line[o + 2..o + 2 + |cell|] == cell
      && forall j :: o + 2 + |cell| <= j <= o + 2 + widths[k] ==> line[j] == ' '
  {
    hide Offset;
    var o, w := Offset(widths, k), widths[k];
    SliceSays(line, o + 2, o + 2 + w, cell);
  }

  lemma SliceSays(line: string, a: nat, b: nat, cell: string)
    requires a + |cell| <= b < |line| && line[a..b][..|cell|] == cell && line[b] == ' '
    requires forall j :: |cell| <= j < b - a ==> line[a..b][j] == ' '
    ensures line[a..a + |cell|] == cell && forall j :: a + |cell| <= j <= b ==> line[j] == ' '
  {
    assert line[a..b][..|cell|] == line[a..a + |cell|];
    forall j | a + |cell| <= j < b ensures line[j] == ' ' { assert line[j] == line[a..b][j - a]; }
  }

  lemma CellOf(rows: seq<Row>, r: nat, k: nat)
    requires HasRows(rows) && r < |rows| && k < Columns(rows)
    ensures Filled(rows)[r][k] == if k < |rows[r]| then rows[r][k] else ""
  {
    var row := FilledRow(rows[r], Columns(rows));
    if k < |rows[r]| { assert row[..|rows[r]|][k] == rows[r][k]; }
  }

  lemma PartIsPadded(grid: seq<Row>, n: nat, r: nat, k: nat)
    requires IsGrid(grid, n) && r < |grid| && r != 1 && k < n && |grid[r][k]| <= Widths(grid, n)[k]
    ensures var part, cell := PartsOf(grid, n, r)[k], grid[r][k];
      && |part| == Widths(grid, n)[k] && part[..|cell|] == cell && forall j :: |cell| <= j < |part| ==> part[j] == ' '
  {
    var part, cell := PadRight(grid[r][k], Widths(grid, n)[k]), grid[r][k];
    forall j | |cell| <= j < |part| ensures part[j] == ' ' {
      assert part[j] == Blanks(|part| - |cell|)[j - |cell|];
      assert part[j] in Blanks(|part| - |cell|);
    }
  }
}
