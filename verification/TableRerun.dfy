/**
 Running the table aligner over a document it has already aligned.

 The second scan finds every table again as long as its delimiter line is still recognised, because the aligned lines
 are table lines, no other line changed, and no line that headed no table heads one now. Each table is then aligned
 again, which changes it exactly when it has an unsettled row.
 */
module TableRerun {
  import opened PythonText
  import opened PipeRows
  import opened TableAlign
  import opened TableScan

  /** The aligned delimiter line is still a delimiter row. */
  ghost predicate Recognised(t: Table) {
    t.rows != [] ==> HasRows(t.rows) && IsDelimiterRow(Aligned(t.rows)[1])
  }

  /** What the second scan finds in place of a table. */
  function Again(t: Table): Table
    requires t.rows != [] ==> HasRows(t.rows)
  {
    if t.rows == [] then t else t.(rows := SplitAll(Aligned(t.rows)))
  }

  ghost predicate FoundAgain(tables: seq<Table>, again: seq<Table>) {
    && |again| == |tables|
    && forall p :: 0 <= p < |tables| ==>
         (tables[p].rows != [] ==> HasRows(tables[p].rows)) && again[p] == Again(tables[p])
  }

  lemma StartsWithFirst(s: string, prefix: string)
    requires prefix != ""
    ensures Starts(s, prefix) ==> s != "" && s[0] == prefix[0]
  {
    if Starts(s, prefix) { assert s[0] == s[..|prefix|][0]; }
  }

  lemma AlignedLineIsTableLine(rows: seq<Row>, r: nat)
    requires HasRows(rows) && r < |rows|
    ensures TableLine(Aligned(rows)[r])
  {
    hide Strip, PartsOf, Joined;
    var line := Aligned(rows)[r];
    assert line[0] == '|';
    assert StripLeft(line) == line;
    assert '|' in line;
    if Strip(line) == "" { BlankHasNoPipe(line); }
    StartsWithFirst(line, "```");
    StartsWithFirst(line, "~~~");
  }

  lemma DelimiterCellCloses(cell: string)
    requires IsDelimiterCell(cell) && Trimmed(cell)
    ensures Closed(cell)
  {
    hide Strip, CodeAfter, IsSpace;
    StripTrimmed(cell);
    var core := Core(cell);
    var before, after := StripParts(core);
    forall c | c in core ensures c != '`' {
      assert c in before || c in Strip(core) || c in after;
      BacktickIsNoSpace();
    }
    forall c | c in cell ensures c != '`' {
      assert c == ':' || c in core by { CoreOrColon(cell, c); }
    }
    NoTicksCloses(cell, 0);
  }

  lemma BacktickIsNoSpace()
    ensures !IsSpace('`')
  {}

  lemma CoreOrColon(cell: string, c: char)
    requires c in cell
    ensures c == ':' || c in Core(cell)
  {
    var i :| 0 <= i < |cell| && cell[i] == c;
    if c != ':' {
      var j := if ColonFirst(cell) then i - 1 else i;
      assert Core(cell)[j] == c;
    }
  }

  /** A header that is no delimiter row is none after aligning. */
  lemma HeaderStays(rows: seq<Row>, line: string)
    requires IsTable(rows) && rows[0] == Cells(line) && '|' in line && !IsDelimiterRow(line)
    ensures !IsDelimiterRow(Aligned(rows)[0])
  {
    hide Cells, IsDelimiterCell, IsRow, Aligned, Closed, Width, FilledRow;
    AlignedLineSplitsIff(rows, 0);
    var n, cells := Columns(rows), Cells(Aligned(rows)[0]);
    if Settled(rows[0], n) {
      SameDelimiters(rows[0], n);
    } else {
      var last := cells[|rows[0]| - 1];
      CellsAreCells(Aligned(rows)[0]);
      if IsDelimiterCell(last) { DelimiterCellCloses(last); }
      assert last in cells;
    }
  }

  /** Padding adds no delimiter row: an empty cell is no delimiter cell. */
  lemma SameDelimiters(row: Row, n: nat)
    requires |row| <= n
    ensures (forall c :: c in FilledRow(row, n) ==> IsDelimiterCell(c)) ==>
      |row| == n && forall c :: c in row ==> IsDelimiterCell(c)
    ensures |row| == n ==> FilledRow(row, n) == row
  {
    var filled := FilledRow(row, n);
    if |row| < n {
      assert filled[|row|] == "" && filled[|row|] in filled;
    }
  }

  lemma InTableBeyond(tables: seq<Table>, l: int)
    requires tables != [] && tables[0].end < l
    ensures InTable(tables, l) ==> InTable(tables[1..], l)
  {
    if InTable(tables, l) {
      var u :| u in tables && u.rows != [] && u.start <= l <= u.end;
      assert u in tables[1..];
    }
  }

  lemma RewroteTail(lines: seq<string>, after: seq<string>, tables: seq<Table>, from: nat, next: nat)
    requires Rewrote(lines, after, tables, from) && from <= next && tables != []
    requires tables[0].end < next
    ensures Rewrote(lines, after, tables[1..], next)
  {
    hide Aligned, HasRows, Fits;
    var rest := tables[1..];
    forall l | next <= l < |lines| && !InTable(rest, l) ensures after[l] == lines[l] {
      InTableBeyond(tables, l);
    }
  }

  lemma OutsideTables(lines: seq<string>, after: seq<string>, tables: seq<Table>, from: nat, l: nat)
    requires Rewrote(lines, after, tables, from) && from <= l < |lines|
    requires (forall t :: t in tables ==> l < t.start) || (AllPlaced(lines, tables, from) && !TableLine(lines[l]))
    ensures after[l] == lines[l]
  {
    hide Aligned, HasRows, Fits, TableLine;
    forall t | t in tables && t.rows != [] ensures !(t.start <= l <= t.end) {
      var p :| 0 <= p < |tables| && tables[p] == t;
      assert AllPlaced(lines, tables, from) ==> Placed(lines, tables[p]);
    }
  }

  lemma {:induction false} BlockEndIs(lines: seq<string>, j: nat, k: nat)
    requires j <= k <= |lines| && (forall l :: j <= l < k ==> TableLine(lines[l]))
    requires k < |lines| ==> !TableLine(lines[k])
    ensures BlockEnd(lines, j) == k
    decreases k - j
  {
    if j < k { BlockEndIs(lines, j + 1, k); }
  }

  lemma FoundMore(t: Table, tables: seq<Table>, again: seq<Table>)
    requires (t.rows != [] ==> HasRows(t.rows)) && FoundAgain(tables, again)
    ensures FoundAgain([t] + tables, [Again(t)] + again)
  {
    hide HasRows, Again;
    var all, more := [t] + tables, [Again(t)] + again;
    forall p | 0 <= p < |all| ensures (all[p].rows != [] ==> HasRows(all[p].rows)) && more[p] == Again(all[p]) {
      if p > 0 { assert all[p] == tables[p - 1] && more[p] == again[p - 1]; }
    }
  }

  lemma RewroteLater(lines: seq<string>, after: seq<string>, tables: seq<Table>, from: nat, next: nat)
    requires Rewrote(lines, after, tables, from) && from <= next
    ensures Rewrote(lines, after, tables, next)
  {
    hide Aligned, HasRows, Fits, InTable;
  }

  /** A line that heads no table heads none after the rewrite. */
  lemma HeadStays(lines: seq<string>, after: seq<string>, tables: seq<Table>, i: nat)
    requires i < |lines| && !HeadsTable(lines, i)
    requires AllPlaced(lines, tables, i + 1) && Rewrote(lines, after, tables, i)
    ensures after[i] == lines[i] && !HeadsTable(after, i)
  {
    hide Aligned, Cells, IsDelimiterRow, TableLine, AllPlaced, InTable, Placed, Fits;
    PlacedFits(lines, tables, i + 1);
    OutsideTables(lines, after, tables, i, i);
    if i + 1 < |lines| && InTable(tables, i + 1) {
      var t := TableOf(tables, i + 1);
      HeadRowStays(lines, after, t);
    }
  }

  lemma HeadRowStays(lines: seq<string>, after: seq<string>, t: Table)
    requires Placed(lines, t) && Fits(lines, t) && t.rows != []
    requires |after| == |lines| && after[t.start..t.end + 1] == Aligned(t.rows)
    ensures !IsDelimiterRow(lines[t.start]) ==> !IsDelimiterRow(after[t.start])
  {
    hide Aligned, Cells, IsDelimiterRow, Fits;
    var block := lines[t.start..t.end + 1];
    SplitLinesAreTable(block);
    assert t.rows[0] == Cells(block[0]) && block[0] == lines[t.start];
    assert after[t.start] == after[t.start..t.end + 1][0];
    if !IsDelimiterRow(lines[t.start]) { HeaderStays(t.rows, lines[t.start]); }
  }

  /** After a trap the scan is inside a fence for the next two lines at least. */
  lemma TrapGoesOn(lines: seq<string>, i: nat, fence: Fence)
    requires i < |lines| && fence.Inside? && Toggled(fence, lines[i]).Outside? && HeadsTable(lines, i)
    ensures BlockEnd(lines, i) == i && !TableLine(lines[i]) && i + 1 < |lines|
    ensures TablesFrom(lines, i, fence) == [Table(i, i - 1, [])] + TablesFrom(lines, i, Outside)
    ensures AllPlaced(lines, TablesFrom(lines, i, Outside), i + 2)
  {
    hide Strip, FenceMark, IsDelimiterRow, AllPlaced;
    EmptyBlockClosesFence(lines, i, fence);
    assert lines[i..i] == [] && SplitAll([]) == [];
    DelimiterIsTableLine(lines[i + 1]);
    var inside := Inside(FenceMark(lines[i]));
    assert Toggled(Outside, lines[i]) == inside && Toggled(inside, lines[i + 1]) == inside;
    assert TablesFrom(lines, i, Outside) == TablesFrom(lines, i + 1, inside) == TablesFrom(lines, i + 2, inside);
    TablesPlaced(lines, i + 2, inside);
  }

  lemma TrapAgain(lines: seq<string>, after: seq<string>, i: nat, fence: Fence)
    requires i < |lines| && fence.Inside? && Toggled(fence, lines[i]).Outside? && HeadsTable(lines, i)
    requires Rewrote(lines, after, TablesFrom(lines, i, fence), i)
    ensures Rewrote(lines, after, TablesFrom(lines, i, Outside), i)
    ensures TablesFrom(lines, i, fence) == [Table(i, i - 1, [])] + TablesFrom(lines, i, Outside)
    ensures TablesFrom(after, i, fence) == [Table(i, i - 1, [])] + TablesFrom(after, i, Outside)
  {
    hide Toggled, IsDelimiterRow, TablesFrom, Aligned, Rewrote, TableLine, AllPlaced;
    TrapGoesOn(lines, i, fence);
    var rest := TablesFrom(lines, i, Outside);
    assert TablesFrom(lines, i, fence)[1..] == rest;
    RewroteTail(lines, after, TablesFrom(lines, i, fence), i, i);
    PlacedFits(lines, rest, i + 2);
    OutsideTables(lines, after, rest, i, i);
    OutsideTables(lines, after, rest, i, i + 1);
    assert |after| == |lines| by { RewroteLength(lines, after, rest, i); }
    TrapGoesOn(after, i, fence);
  }

  lemma RewroteLength(lines: seq<string>, after: seq<string>, tables: seq<Table>, from: nat)
    requires Rewrote(lines, after, tables, from)
    ensures |after| == |lines|
  {}

  lemma BlockLinesAgain(after: seq<string>, t: Table)
    requires t.rows != [] && Fits(after, t) && Recognised(t) && after[t.start..t.end + 1] == Aligned(t.rows)
    ensures HeadsTable(after, t.start) && forall l :: t.start <= l <= t.end ==> TableLine(after[l])
  {
    hide Aligned, IsDelimiterRow, TableLine, HasRows;
    var block := after[t.start..t.end + 1];
    forall l | t.start <= l <= t.end ensures TableLine(after[l]) {
      assert after[l] == block[l - t.start];
      AlignedLineIsTableLine(t.rows, l - t.start);
    }
    assert |t.rows| >= 2 by { AtLeastTwo(t.rows); }
    assert after[t.start + 1] == block[1];
    TableLineHasPipe(after[t.start]);
  }

  lemma AtLeastTwo(rows: seq<Row>)
    requires HasRows(rows)
    ensures |rows| >= 2
  {}

  lemma BlockAgain(lines: seq<string>, after: seq<string>, i: nat, t: Table, rest: seq<Table>)
    requires i < |lines| && Placed(lines, t) && t.start == i && t.rows != [] && Recognised(t)
    requires AllPlaced(lines, rest, t.end + 1) && Rewrote(lines, after, [t] + rest, i)
    ensures HeadsTable(after, i) && BlockEnd(after, i) == t.end + 1 && TableLine(after[i])
    ensures Table(i, t.end, SplitAll(after[i..t.end + 1])) == Again(t)
  {
    hide Aligned, Cells, HeadsTable, TableLine, AllPlaced, HasRows, Recognised;
    assert t in [t] + rest && Fits(lines, t) && Fits(after, t);
    BlockLinesAgain(after, t);
    if t.end + 1 < |lines| {
      assert ([t] + rest)[1..] == rest;
      RewroteTail(lines, after, [t] + rest, i, t.end + 1);
      OutsideTables(lines, after, rest, t.end + 1, t.end + 1);
    }
    BlockEndIs(after, i, t.end + 1);
  }

  lemma TableLineHasPipe(line: string)
    requires TableLine(line)
    ensures '|' in line
  {}

  /** The second scan finds the same tables again, as long as their delimiter lines are still recognised. */
  lemma {:induction false} ScanAgain(lines: seq<string>, after: seq<string>, i: nat, fence: Fence)
    requires i <= |lines| && Rewrote(lines, after, TablesFrom(lines, i, fence), i)
    requires forall t :: t in TablesFrom(lines, i, fence) ==> Recognised(t)
    ensures |after| == |lines| && FoundAgain(TablesFrom(lines, i, fence), TablesFrom(after, i, fence))
    decreases |lines| - i, if fence.Inside? then 1 else 0
  {
    hide Toggled, HeadsTable, Rewrote, Recognised, FoundAgain, AllPlaced, Placed, Again, TablesFrom, BlockEnd, TableLine;
    var tables := TablesFrom(lines, i, fence);
    RewroteLength(lines, after, tables, i);
    ScanStep(lines, i, fence);
    ScanStep(after, i, fence);
    if i < |lines| {
      var now := Toggled(fence, lines[i]);
      if now.Inside? || !HeadsTable(lines, i) {
        TablesPlaced(lines, i + 1, now);
        PassedAgain(lines, after, tables, i);
        ScanAgain(lines, after, i + 1, now);
      } else if fence.Inside? {
        TrapAgain(lines, after, i, fence);
        assert tables[1..] == TablesFrom(lines, i, Outside);
        ScanAgain(lines, after, i, Outside);
        EmptyAgain(i, TablesFrom(lines, i, Outside), TablesFrom(after, i, Outside));
      } else {
        EmptyBlockClosesFence(lines, i, fence);
        BlockPlaced(lines, i, fence);
        var k := BlockEnd(lines, i);
        var t := tables[0];
        assert tables[1..] == TablesFrom(lines, k, now) && tables == [t] + tables[1..];
        TablesPlaced(lines, k, now);
        BlockAgain(lines, after, i, t, tables[1..]);
        FenceKeptBy(fence, lines[i], after[i]);
        RewroteTail(lines, after, tables, i, k);
        ScanAgain(lines, after, k, now);
        RecognisedHasRows(t);
        FoundMore(t, tables[1..], TablesFrom(after, k, now));
      }
    } else {
      NothingFound();
    }
  }

  lemma NothingFound()
    ensures FoundAgain([], [])
  {}

  lemma RecognisedHasRows(t: Table)
    requires Recognised(t)
    ensures t.rows != [] ==> HasRows(t.rows)
  {}

  lemma EmptyAgain(i: nat, tables: seq<Table>, again: seq<Table>)
    requires FoundAgain(tables, again)
    ensures FoundAgain([Table(i, i - 1, [])] + tables, [Table(i, i - 1, [])] + again)
  {
    hide HasRows, FoundAgain;
    FoundMore(Table(i, i - 1, []), tables, again);
  }

  lemma PassedAgain(lines: seq<string>, after: seq<string>, tables: seq<Table>, i: nat)
    requires i < |lines| && AllPlaced(lines, tables, i + 1) && Rewrote(lines, after, tables, i)
    ensures |after| == |lines| && after[i] == lines[i] && (!HeadsTable(lines, i) ==> !HeadsTable(after, i))
    ensures Rewrote(lines, after, tables, i + 1)
  {
    hide HeadsTable, Rewrote, AllPlaced, Placed;
    RewroteLength(lines, after, tables, i);
    PlacedFits(lines, tables, i + 1);
    OutsideTables(lines, after, tables, i, i);
    if !HeadsTable(lines, i) { HeadStays(lines, after, tables, i); }
    RewroteLater(lines, after, tables, i, i + 1);
  }

  lemma FenceKeptBy(fence: Fence, line: string, after: string)
    requires TableLine(line) && TableLine(after)
    ensures Toggled(fence, line) == Toggled(fence, after) == fence
  {}

  /** Every row of the table but the delimiter ends outside a code span or fills all columns. */
  predicate AllSettled(t: Table)
    requires t.rows != [] ==> HasRows(t.rows)
  {
    t.rows != [] ==> forall r :: 0 <= r < |t.rows| && r != 1 ==> Settled(t.rows[r], Columns(t.rows))
  }

  lemma AgainAt(tables: seq<Table>, again: seq<Table>, t': Table) returns (t: Table)
    requires FoundAgain(tables, again) && t' in again
    ensures t in tables && (t.rows != [] ==> HasRows(t.rows)) && t' == Again(t)
  {
    hide HasRows, Again;
    var p :| 0 <= p < |again| && again[p] == t';
    t := tables[p];
  }

  lemma AgainFits(lines: seq<string>, once: seq<string>, t: Table)
    requires Fits(lines, t) && |once| == |lines|
    ensures t.rows != [] ==> HasRows(t.rows)
    ensures Fits(once, Again(t)) && Again(t).start == t.start && Again(t).end == t.end
  {
    hide Aligned, Cells;
  }

  /** The first run does what a run does, and the second finds each table again. */
  lemma SecondRun(lines: seq<string>)
    requires forall t :: t in TablesFrom(lines, 0, Outside) ==> Recognised(t)
    ensures var tables := TablesFrom(lines, 0, Outside);
      && InOrder(tables) && (forall t :: t in tables ==> Fits(lines, t) && Placed(lines, t))
      && var once := Replaced(lines, tables);
         var again := TablesFrom(once, 0, Outside);
         && FoundAgain(tables, again) && Rewrote(lines, once, tables, 0)
         && InOrder(again) && forall t :: t in again ==> Fits(once, t)
  {
    hide Replaced, Recognised, FoundAgain, AllPlaced, Placed, Aligned, Fits;
    var tables := TablesFrom(lines, 0, Outside);
    TablesPlaced(lines, 0, Outside);
    PlacedFits(lines, tables, 0);
    ReplacedExactly(lines, tables);
    var once := Replaced(lines, tables);
    ScanAgain(lines, once, 0, Outside);
    TablesPlaced(once, 0, Outside);
    PlacedFits(once, TablesFrom(once, 0, Outside), 0);
  }

  lemma TableStaysIff(lines: seq<string>, t: Table)
    requires Placed(lines, t) && Fits(lines, t) && t.rows != []
    ensures HasRows(t.rows) && HasRows(Again(t).rows)
    ensures Aligned(Again(t).rows) == Aligned(t.rows) <==> AllSettled(t)
  {
    hide Cells, Aligned, Settled, TableLine, HeadsTable;
    SplitLinesAreTable(lines[t.start..t.end + 1]);
    RealignIsNoOpIff(t.rows);
  }

  /** A second rewrite changes a table exactly when it has an unsettled row. */
  lemma SecondReplacement(lines: seq<string>, once: seq<string>, tables: seq<Table>, again: seq<Table>)
    requires FoundAgain(tables, again) && Rewrote(lines, once, tables, 0) && InOrder(again)
    requires forall t :: t in tables ==> Fits(lines, t) && Placed(lines, t)
    requires forall t :: t in again ==> Fits(once, t)
    ensures forall t :: t in tables ==> (t.rows != [] ==> HasRows(t.rows))
    ensures Replaced(once, again) == once <==> forall t :: t in tables ==> AllSettled(t)
  {
    hide Replaced, FoundAgain, Placed, Aligned, Fits, HasRows, Again, AllSettled, InOrder, InTable;
    ReplacedExactly(once, again);
    var twice := Replaced(once, again);
    forall t | t in tables ensures t.rows != [] ==> HasRows(t.rows) { AgainFits(lines, once, t); }
    if t :| t in tables && !AllSettled(t) {
      var t' := AgainFrom(tables, again, t);
      UnsettledHasRows(t);
      AgainFits(lines, once, t);
      TableStaysIff(lines, t);
      AgainRows(t);
      FitsBounds(lines, t);
      assert once[t.start..t.end + 1] == Aligned(t.rows) && twice[t.start..t.end + 1] == Aligned(t'.rows);
    } else {
      forall l | 0 <= l < |once| ensures twice[l] == once[l] {
        if InTable(again, l) {
          var t' := TableOf(again, l);
          var t := AgainAt(tables, again, t');
          AgainFits(lines, once, t);
          AgainRows(t);
          TableStaysIff(lines, t);
          FitsBounds(lines, t);
          assert once[t.start..t.end + 1] == Aligned(t.rows) == twice[t.start..t.end + 1];
          assert once[l] == once[t.start..t.end + 1][l - t.start] == twice[l];
        }
      }
    }
  }

  lemma FitsBounds(lines: seq<string>, t: Table)
    requires Fits(lines, t) && t.rows != []
    ensures t.start <= t.end < |lines|
  {}

  lemma TableOf(tables: seq<Table>, l: int) returns (t: Table)
    requires InTable(tables, l)
    ensures t in tables && t.rows != [] && t.start <= l <= t.end
  {
    t :| t in tables && t.rows != [] && t.start <= l <= t.end;
  }

  lemma AgainFrom(tables: seq<Table>, again: seq<Table>, t: Table) returns (t': Table)
    requires FoundAgain(tables, again) && t in tables
    ensures (t.rows != [] ==> HasRows(t.rows)) && t' in again && t' == Again(t)
  {
    hide HasRows, Again;
    var p :| 0 <= p < |tables| && tables[p] == t;
    t' := again[p];
  }

  lemma AgainRows(t: Table)
    requires t.rows != [] ==> HasRows(t.rows)
    ensures Again(t).rows == [] <==> t.rows == []
  {
    hide Aligned, Cells;
  }

  lemma UnsettledHasRows(t: Table)
    requires (t.rows != [] ==> HasRows(t.rows)) && !AllSettled(t)
    ensures t.rows != []
  {}

  /** A table whose aligned delimiter line is not recognised heads nothing any more: the second run misses it. */
  lemma UnrecognisedIsLost(lines: seq<string>, t: Table)
    requires t in TablesFrom(lines, 0, Outside) && t.rows != [] && !Recognised(t)
    ensures forall u :: u in TablesFrom(lines, 0, Outside) ==> Fits(lines, u)
    ensures t.start < |lines| && !HeadsTable(Replaced(lines, TablesFrom(lines, 0, Outside)), t.start)
  {
    var tables := TablesFrom(lines, 0, Outside);
    TablesPlaced(lines, 0, Outside);
    PlacedFits(lines, tables, 0);
    hide TablesFrom, AllPlaced, Placed, Aligned, IsDelimiterRow, Replaced, Rewrote, HasRows, InOrder;
    ReplacedExactly(lines, tables);
    RewroteDelimiter(lines, Replaced(lines, tables), tables, t);
  }

  lemma RewroteDelimiter(lines: seq<string>, once: seq<string>, tables: seq<Table>, t: Table)
    requires Rewrote(lines, once, tables, 0) && t in tables && t.rows != []
    ensures HasRows(t.rows) && t.start + 1 < |once| == |lines| && once[t.start + 1] == Aligned(t.rows)[1]
  {
    hide Aligned, InTable;
    assert Fits(lines, t) && once[t.start..t.end + 1] == Aligned(t.rows);
    assert once[t.start + 1] == once[t.start..t.end + 1][1];
  }

  /**
    * When every aligned delimiter line is still recognised, running over the rewritten document again changes nothing
    * exactly when every row of every table ends outside a code span or fills all columns.
    */
  lemma SecondRunIsNoOpIff(lines: seq<string>)
    requires forall t :: t in TablesFrom(lines, 0, Outside) ==> Recognised(t)
    ensures forall t :: t in TablesFrom(lines, 0, Outside) ==> Fits(lines, t) && (t.rows != [] ==> HasRows(t.rows))
    ensures var once := Replaced(lines, TablesFrom(lines, 0, Outside));
      forall t :: t in TablesFrom(once, 0, Outside) ==> Fits(once, t)
    ensures var once := Replaced(lines, TablesFrom(lines, 0, Outside));
      Replaced(once, TablesFrom(once, 0, Outside)) == once
      <==> forall t :: t in TablesFrom(lines, 0, Outside) ==> AllSettled(t)
  {
    hide Replaced, FoundAgain, Placed, Aligned, Fits, HasRows, AllSettled, InOrder, Rewrote, Recognised, TablesFrom;
    SecondRun(lines);
    var tables := TablesFrom(lines, 0, Outside);
    var once := Replaced(lines, tables);
    SecondReplacement(lines, once, tables, TablesFrom(once, 0, Outside));
  }
}
