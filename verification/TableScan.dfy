/**
 Finding the pipe tables of a document outside fenced code, and rewriting them in place from the bottom up.

 The scan is compared with a fence state that reads every line once.
 */
module TableScan {
  import opened PythonText
  import opened PipeRows
  import opened TableAlign

  // ---- fences ----

  datatype Fence = Outside | Inside(marker: string)

  /** The fence marker a line starts with after white space, or nothing. */
  function FenceMark(line: string): string {
    var s := StripLeft(line);
    if Starts(s, "```") then "```" else if Starts(s, "~~~") then "~~~" else ""
  }

  /** A marker opens a fence, or closes the one it opened. */
  function Toggled(fence: Fence, line: string): Fence {
    var mark := FenceMark(line);
    if mark == "" then fence
    else if fence.Outside? then Inside(mark)
    else if fence.marker == mark then Outside
    else fence
  }

  /** The fence state before line `n`, each earlier line read once. */
  function FenceAt(lines: seq<string>, n: nat): Fence
    requires n <= |lines|
  {
    if n == 0 then Outside else Toggled(FenceAt(lines, n - 1), lines[n - 1])
  }

  // ---- blocks of table lines ----

  predicate TableLine(line: string) {
    Strip(line) != "" && '|' in line && FenceMark(line) == ""
  }

  predicate HeadsTable(lines: seq<string>, i: nat)
    requires i < |lines|
  {
    '|' in lines[i] && i + 1 < |lines| && IsDelimiterRow(lines[i + 1])
  }

  /** The first line from `j` on that is not a table line. */
  function BlockEnd(lines: seq<string>, j: nat): (k: nat)
    requires j <= |lines|
    ensures j <= k <= |lines| && forall l :: j <= l < k ==> TableLine(lines[l])
    ensures k < |lines| ==> !TableLine(lines[k])
    decreases |lines| - j
  {
    if j < |lines| && TableLine(lines[j]) then BlockEnd(lines, j + 1) else j
  }

  /** A table's lines, `end` included, split into cells; without rows `end` is the line before `start`. */
  datatype Table = Table(start: nat, end: int, rows: seq<Row>)

  /** The scan from line `i` on: a table that takes no line is scanned over again, with the fence state it left. */
  function TablesFrom(lines: seq<string>, i: nat, fence: Fence): seq<Table>
    requires i <= |lines|
    decreases |lines| - i, if fence.Inside? then 1 else 0
  {
    if i == |lines| then []
    else
      var now := Toggled(fence, lines[i]);
      if now.Inside? || !HeadsTable(lines, i) then TablesFrom(lines, i + 1, now)
      else
        var k := BlockEnd(lines, i);
        EmptyBlockClosesFence(lines, i, fence);
        [Table(i, k - 1, SplitAll(lines[i..k]))] + TablesFrom(lines, k, now)
  }

  lemma {:induction false} BlankHasNoPipe(s: string)
    requires Strip(s) == ""
    ensures '|' !in s
  {
    var before, after := StripParts(s);
    assert s == before + after;
    forall c | c in s ensures IsSpace(c) {
      assert c in before || c in after;
    }
  }

  /** A header that is no table line is the closing line of a fence. */
  lemma EmptyBlockClosesFence(lines: seq<string>, i: nat, fence: Fence)
    requires i < |lines| && Toggled(fence, lines[i]).Outside? && HeadsTable(lines, i)
    ensures BlockEnd(lines, i) == i <==> fence.Inside?
    ensures fence.Outside? ==> BlockEnd(lines, i) >= i + 2
  {
    hide Strip, FenceMark, IsDelimiterRow;
    if Strip(lines[i]) == "" { BlankHasNoPipe(lines[i]); }
    DelimiterIsTableLine(lines[i + 1]);
  }

  /** One step of the scan. */
  lemma ScanStep(lines: seq<string>, i: nat, fence: Fence)
    requires i <= |lines|
    ensures i == |lines| ==> TablesFrom(lines, i, fence) == []
    ensures i < |lines| ==>
      var now := Toggled(fence, lines[i]);
      if now.Inside? || !HeadsTable(lines, i) then TablesFrom(lines, i, fence) == TablesFrom(lines, i + 1, now)
      else
        var k := BlockEnd(lines, i);
        && TablesFrom(lines, i, fence) == [Table(i, k - 1, SplitAll(lines[i..k]))] + TablesFrom(lines, k, now)
        && (k == i <==> fence.Inside?) && (k == i || k >= i + 2)
        && |SplitAll(lines[i..k])| == k - i
  {
    hide Toggled, HeadsTable, BlockEnd, Cells;
    if i < |lines| && Toggled(fence, lines[i]).Outside? && HeadsTable(lines, i) {
      EmptyBlockClosesFence(lines, i, fence);
    }
  }

  // ---- a delimiter row is a table line ----

  lemma FirstKept(s: string)
    ensures Strip(s) != "" ==> StripLeft(s) != "" && Strip(s)[0] == StripLeft(s)[0] && !IsSpace(Strip(s)[0])
  {
    var t := StripLeft(s);
    StripRightParts(t);
    StripLeftParts(s);
    if Strip(s) != "" { assert Strip(s)[0] == t[..|Strip(s)|][0]; }
  }

  /** A fence line's first cell starts with the fence character, which no delimiter cell does. */
  lemma FirstCellStarts(line: string, c: char)
    requires (c == '`' || c == '~') && StripLeft(line) != "" && StripLeft(line)[0] == c && |Cells(line)| >= 2
    ensures Cells(line)[0] != "" && Cells(line)[0][0] == c
  {
    hide Strip, StripLeft, RawCells;
    StripNotLost(line);
    FirstKept(line);
    var s := Strip(line);
    var body := Body(line);
    assert s[0] == c;
    assert body != "" && body[0] == c by {
      if |s| == 1 { assert body == s; }
    }
    FirstRawCell(body, c);
    var raw := RawCells(body, 0)[0];
    StripStartKept(raw);
  }

  lemma StripNotLost(line: string)
    requires StripLeft(line) != ""
    ensures Strip(line) != ""
  {
    StripLeftParts(line);
    StripRightParts(StripLeft(line));
    var t := StripLeft(line);
    forall k | |StripRight(t)| <= k < |t| ensures IsSpace(t[k]) {
      assert t[k] == t[|StripRight(t)|..][k - |StripRight(t)|];
    }
  }

  lemma StripStartKept(s: string)
    requires s != "" && !IsSpace(s[0])
    ensures Strip(s) != "" && Strip(s)[0] == s[0]
  {
    StripNotLost(s);
    FirstKept(s);
  }

  lemma FirstRawCell(s: string, c: char)
    requires s != "" && s[0] == c && (c == '`' || c == '~')
    ensures RawCells(s, 0)[0] != "" && RawCells(s, 0)[0][0] == c
  {
    var n := TokenLength(s);
    assert RawCells(s, 0)[0][..n] == s[..n];
  }

  lemma NoDelimiterCell(cell: string)
    requires cell != "" && (cell[0] == '`' || cell[0] == '~') && Trimmed(cell)
    ensures !IsDelimiterCell(cell)
  {
    hide Strip;
    StripTrimmed(cell);
    var core := Core(cell);
    assert core != "" && core[0] == cell[0];
    StripStartKept(core);
    assert Strip(core)[0] in Strip(core);
  }

  lemma DelimiterIsTableLine(line: string)
    requires IsDelimiterRow(line)
    ensures TableLine(line)
  {
    hide Strip, StripLeft, Cells, IsDelimiterCell;
    if Strip(line) == "" { BlankHasNoPipe(line); }
    if FenceMark(line) != "" {
      var s := StripLeft(line);
      assert s[0] == s[..3][0];
      FirstCellStarts(line, s[0]);
      CellsAreCells(line);
      assert Cells(line)[0] in Cells(line);
      NoDelimiterCell(Cells(line)[0]);
    }
  }

  // ---- what the scan finds ----

  /** A table stands on a maximal block of table lines below its header; an empty one on a closing fence line. */
  ghost predicate Placed(lines: seq<string>, t: Table) {
    && t.start < |lines| && HeadsTable(lines, t.start)
    && if t.rows == [] then t.end == t.start - 1 && FenceMark(lines[t.start]) != ""
       else
         && t.start + 1 <= t.end < |lines|
         && t.rows == SplitAll(lines[t.start..t.end + 1])
         && (forall l :: t.start <= l <= t.end ==> TableLine(lines[l]))
         && (t.end + 1 < |lines| ==> !TableLine(lines[t.end + 1]))
  }

  ghost predicate AllPlaced(lines: seq<string>, tables: seq<Table>, from: nat) {
    && (forall p :: 0 <= p < |tables| ==> Placed(lines, tables[p]) && from <= tables[p].start)
    && (forall p, q :: 0 <= p < q < |tables| ==> tables[p].end < tables[q].start)
  }

  lemma BlockPlaced(lines: seq<string>, i: nat, fence: Fence)
    requires i < |lines| && Toggled(fence, lines[i]).Outside? && HeadsTable(lines, i)
    ensures var k := BlockEnd(lines, i); Placed(lines, Table(i, k - 1, SplitAll(lines[i..k])))
  {
    hide HeadsTable, TableLine, FenceMark, Cells;
    EmptyBlockClosesFence(lines, i, fence);
    var k := BlockEnd(lines, i);
    if k == i {
      assert lines[i..i] == [] && SplitAll([]) == [];
    } else {
      assert |SplitAll(lines[i..k])| == k - i;
    }
  }

  lemma PlacedMore(lines: seq<string>, t: Table, tables: seq<Table>, from: nat, next: nat)
    requires Placed(lines, t) && AllPlaced(lines, tables, next) && from <= t.start && t.end < next && from <= next
    ensures AllPlaced(lines, [t] + tables, from)
  {
    hide Placed;
    var all := [t] + tables;
    forall p | 0 <= p < |all| ensures Placed(lines, all[p]) && from <= all[p].start {
      if p > 0 { assert all[p] == tables[p - 1]; }
    }
  }

  /** Tables are found in order, without overlap, each on a maximal block of table lines. */
  lemma {:induction false} TablesPlaced(lines: seq<string>, i: nat, fence: Fence)
    requires i <= |lines|
    ensures AllPlaced(lines, TablesFrom(lines, i, fence), i)
    decreases |lines| - i, if fence.Inside? then 1 else 0
  {
    hide HeadsTable, Toggled, Placed, TablesFrom, BlockEnd, AllPlaced;
    ScanStep(lines, i, fence);
    if i < |lines| {
      var now := Toggled(fence, lines[i]);
      if now.Inside? || !HeadsTable(lines, i) {
        TablesPlaced(lines, i + 1, now);
        PlacedEarlier(lines, TablesFrom(lines, i + 1, now), i, i + 1);
      } else {
        var k := BlockEnd(lines, i);
        TablesPlaced(lines, k, now);
        BlockPlaced(lines, i, fence);
        PlacedMore(lines, TablesFrom(lines, i, fence)[0], TablesFrom(lines, k, now), i, k);
      }
    } else {
      NonePlaced(lines, i);
    }
  }

  lemma PlacedEarlier(lines: seq<string>, tables: seq<Table>, from: nat, next: nat)
    requires AllPlaced(lines, tables, next) && from <= next
    ensures AllPlaced(lines, tables, from)
  {
    hide Placed;
  }

  lemma NonePlaced(lines: seq<string>, from: nat)
    ensures AllPlaced(lines, [], from)
  {}

  // ---- fences and tables ----

  /** A line that closes a fence, contains a pipe and stands above a delimiter row. */
  ghost predicate Trap(lines: seq<string>, i: nat) {
    i < |lines| && FenceAt(lines, i).Inside? && FenceAt(lines, i + 1).Outside? && HeadsTable(lines, i)
  }

  lemma {:induction false} FenceKept(lines: seq<string>, i: nat, k: nat)
    requires i <= k <= |lines| && forall l :: i <= l < k ==> TableLine(lines[l])
    ensures forall l :: i <= l <= k ==> FenceAt(lines, l) == FenceAt(lines, i)
    decreases k - i
  {
    if i < k { FenceKept(lines, i, k - 1); }
  }

  lemma TrapNotInBlock(lines: seq<string>, i: nat)
    requires i < |lines| && TableLine(lines[i])
    ensures !Trap(lines, i)
  {}

  /** A scan that reaches a trap reports a table without rows there. */
  lemma {:induction false} TrapIsEmptyTable(lines: seq<string>, i: nat, trap: nat)
    requires i <= trap && Trap(lines, trap)
    ensures exists t :: t in TablesFrom(lines, i, FenceAt(lines, i)) && t.rows == []
    decreases |lines| - i
  {
    hide HeadsTable, Toggled, TableLine, TablesFrom, BlockEnd, Trap;
    TrapInside(lines, trap);
    var fence, now := FenceAt(lines, i), FenceAt(lines, i + 1);
    ScanStep(lines, i, fence);
    assert now == Toggled(fence, lines[i]);
    if now.Inside? || !HeadsTable(lines, i) {
      TrapIsEmptyTable(lines, i + 1, trap);
    } else {
      var k := BlockEnd(lines, i);
      if k == i {
        assert TablesFrom(lines, i, fence)[0].rows == [];
      } else {
        BlockHasFence(lines, i, k);
        TrapNotInBlocks(lines, i, k);
        TrapIsEmptyTable(lines, k, trap);
      }
    }
  }

  lemma TrapInside(lines: seq<string>, i: nat)
    requires Trap(lines, i)
    ensures i < |lines| && HeadsTable(lines, i) && FenceAt(lines, i).Inside? && FenceAt(lines, i + 1).Outside?
  {}

  lemma TrapNotInBlocks(lines: seq<string>, i: nat, k: nat)
    requires k <= |lines| && forall l :: i <= l < k ==> TableLine(lines[l])
    ensures forall l: nat :: i <= l < k ==> !Trap(lines, l)
  {
    hide Trap, TableLine;
    forall l: nat | i <= l < k ensures !Trap(lines, l) { TrapNotInBlock(lines, l); }
  }

  lemma BlockHasFence(lines: seq<string>, i: nat, k: nat)
    requires i < k <= |lines| && forall l :: i <= l < k ==> TableLine(lines[l])
    ensures FenceAt(lines, k) == FenceAt(lines, i) == FenceAt(lines, i + 1)
  {
    FenceKept(lines, i, k);
  }

  /** The tables cover every header outside fences, and none of their lines is inside one. */
  ghost predicate Faithful(lines: seq<string>, tables: seq<Table>, from: nat) {
    && (forall t :: t in tables ==> t.rows != [] && t.start < |lines| && FenceAt(lines, t.start).Outside?)
    && (forall j: nat :: from <= j < |lines| && HeadsTable(lines, j) && FenceAt(lines, j + 1).Outside? ==>
          exists t :: t in tables && t.start <= j <= t.end)
  }

  lemma FaithfulMore(lines: seq<string>, t: Table, tables: seq<Table>, i: nat, k: nat)
    requires t.rows != [] && i == t.start < |lines| && FenceAt(lines, i).Outside? && t.end + 1 == k
    requires Faithful(lines, tables, k)
    ensures Faithful(lines, [t] + tables, i)
  {
    hide FenceAt, HeadsTable;
    var all := [t] + tables;
    forall j: nat | i <= j < |lines| && HeadsTable(lines, j) && FenceAt(lines, j + 1).Outside?
      ensures exists u :: u in all && u.start <= j <= u.end
    {
      if j < k {
        assert t in all;
      } else {
        var u :| u in tables && u.start <= j <= u.end;
        assert u in all;
      }
    }
  }

  lemma {:induction false} WithoutTraps(lines: seq<string>, i: nat)
    requires i <= |lines| && forall j: nat :: i <= j ==> !Trap(lines, j)
    ensures Faithful(lines, TablesFrom(lines, i, FenceAt(lines, i)), i)
    decreases |lines| - i
  {
    hide HeadsTable, Toggled, TableLine, TablesFrom, BlockEnd, Faithful, Trap, FenceAt;
    FenceStep(lines, i);
    ScanStep(lines, i, FenceAt(lines, i));
    if i < |lines| {
      var now := FenceAt(lines, i + 1);
      if now.Inside? || !HeadsTable(lines, i) {
        WithoutTraps(lines, i + 1);
        FaithfulSkip(lines, TablesFrom(lines, i + 1, now), i);
      } else {
        var k := BlockEnd(lines, i);
        NoTrapHere(lines, i);
        BlockHasFence(lines, i, k);
        WithoutTraps(lines, k);
        FaithfulMore(lines, TablesFrom(lines, i, FenceAt(lines, i))[0], TablesFrom(lines, k, now), i, k);
      }
    } else {
      NothingMissed(lines);
    }
  }

  lemma FenceStep(lines: seq<string>, i: nat)
    requires i <= |lines|
    ensures i < |lines| ==> FenceAt(lines, i + 1) == Toggled(FenceAt(lines, i), lines[i])
  {
    hide Toggled;
  }

  lemma NoTrapHere(lines: seq<string>, i: nat)
    requires i < |lines| && !Trap(lines, i) && FenceAt(lines, i + 1).Outside? && HeadsTable(lines, i)
    ensures FenceAt(lines, i).Outside?
  {
    hide FenceAt, HeadsTable;
  }

  lemma NothingMissed(lines: seq<string>)
    ensures Faithful(lines, [], |lines|)
  {}

  lemma FaithfulSkip(lines: seq<string>, tables: seq<Table>, i: nat)
    requires i < |lines| && Faithful(lines, tables, i + 1)
    requires FenceAt(lines, i + 1).Inside? || !HeadsTable(lines, i)
    ensures Faithful(lines, tables, i)
  {
    hide FenceAt, HeadsTable;
  }

  /**
    * Exactly without traps every found table has rows; then the tables are all outside fences and cover every header
    * outside fences. A trap reports a table without rows.
    */
  lemma FindsExactlyIff(lines: seq<string>)
    ensures (forall t :: t in TablesFrom(lines, 0, Outside) ==> t.rows != []) <==> forall j: nat :: !Trap(lines, j)
    ensures (forall j: nat :: !Trap(lines, j)) ==> Faithful(lines, TablesFrom(lines, 0, Outside), 0)
  {
    hide Trap;
    assert FenceAt(lines, 0) == Outside;
    if j: nat :| Trap(lines, j) {
      TrapIsEmptyTable(lines, 0, j);
    } else {
      WithoutTraps(lines, 0);
    }
  }

  /** After a trap the closing line is read again and opens a fence: the scan goes on as if inside code. */
  lemma TrapReopensFence(lines: seq<string>, i: nat)
    requires Trap(lines, i)
    ensures TablesFrom(lines, i, FenceAt(lines, i))
      == [Table(i, i - 1, [])] + TablesFrom(lines, i + 1, Inside(FenceMark(lines[i])))
    ensures FenceAt(lines, i + 1) == Outside
  {
    hide HeadsTable, TableLine, FenceMark;
    EmptyBlockClosesFence(lines, i, FenceAt(lines, i));
    assert lines[i..i] == [] && SplitAll([]) == [];
    assert Toggled(Outside, lines[i]) == Inside(FenceMark(lines[i]));
  }

  // ---- the scanning method ----

  method FindTables(lines: seq<string>) returns (tables: seq<Table>)
    ensures tables == TablesFrom(lines, 0, Outside)
  {
    hide Toggled, HeadsTable, TableLine, TablesFrom, Cells;
    tables := [];
    var i, fence := 0, Outside;
    while i < |lines|
      invariant i <= |lines|
      invariant TablesFrom(lines, 0, Outside) == tables + TablesFrom(lines, i, fence)
      decreases |lines| - i, if fence.Inside? then 1 else 0
    {
      ScanStep(lines, i, fence);
      fence := Toggled(fence, lines[i]);
      if fence.Inside? || !HeadsTable(lines, i) {
        i := i + 1;
      } else {
        var start, j := i, i;
        while j < |lines| && TableLine(lines[j])
          invariant i <= j <= |lines| && BlockEnd(lines, i) == BlockEnd(lines, j)
        {
          j := j + 1;
        }
        tables := tables + [Table(start, j - 1, SplitAll(lines[start..j]))];
        i := j;
      }
    }
    ScanStep(lines, i, fence);
  }

  // ---- rewriting from the bottom up ----

  ghost predicate Fits(lines: seq<string>, t: Table) {
    t.rows == [] || (HasRows(t.rows) && t.end == t.start + |t.rows| - 1 && t.end < |lines|)
  }

  /** The document with each table's lines replaced by the aligned ones, the last table first. */
  ghost function Replaced(lines: seq<string>, tables: seq<Table>): (after: seq<string>)
    requires forall t :: t in tables ==> Fits(lines, t)
    ensures |after| == |lines|
    decreases |tables|
  {
    if tables == [] then lines
    else
      var t, rest := tables[0], Replaced(lines, tables[1..]);
      assert Fits(lines, t);
      if t.rows == [] then rest else rest[..t.start] + Aligned(t.rows) + rest[t.end + 1..]
  }

  /** Line `l` belongs to a table with rows. */
  ghost predicate InTable(tables: seq<Table>, l: int) {
    exists t :: t in tables && t.rows != [] && t.start <= l <= t.end
  }

  lemma InTableTail(tables: seq<Table>, l: int)
    requires tables != []
    ensures InTable(tables[1..], l) ==> InTable(tables, l)
  {}

  ghost predicate InOrder(tables: seq<Table>) {
    forall p, q :: 0 <= p < q < |tables| ==> tables[p].end < tables[q].start
  }

  lemma InOrderTail(tables: seq<Table>)
    requires tables != [] && InOrder(tables)
    ensures InOrder(tables[1..]) && forall t :: t in tables[1..] ==> tables[0].end < t.start
  {}

  /** Replacing lines `i` to `k`, `k` excluded, by as many others. */
  lemma SpliceAt(rest: seq<string>, i: nat, k: nat, block: seq<string>)
    requires i <= k <= |rest| && |block| == k - i
    ensures var after := rest[..i] + block + rest[k..];
      && |after| == |rest| && after[i..k] == block
      && (forall l :: 0 <= l < |rest| && (l < i || k <= l) ==> after[l] == rest[l])
      && (forall a: nat, b: nat :: k <= a <= b <= |rest| ==> after[a..b] == rest[a..b])
  {
    var after := rest[..i] + block + rest[k..];
    forall a: nat, b: nat | k <= a <= b <= |rest| ensures after[a..b] == rest[a..b] {
      forall l | a <= l < b ensures after[l] == rest[l] {}
    }
  }

  /** From line `from` on, only the lines of tables changed, and each table's lines became its aligned lines. */
  ghost predicate Rewrote(lines: seq<string>, after: seq<string>, tables: seq<Table>, from: nat) {
    && |after| == |lines|
    && (forall l :: from <= l < |lines| && !InTable(tables, l) ==> after[l] == lines[l])
    && (forall t :: t in tables && t.rows != [] ==>
          Fits(lines, t) && after[t.start..t.end + 1] == Aligned(t.rows))
  }

  lemma RewroteMore(lines: seq<string>, rest: seq<string>, tables: seq<Table>)
    requires tables != [] && InOrder(tables) && Fits(lines, tables[0]) && Rewrote(lines, rest, tables[1..], 0)
    requires tables[0].rows != []
    ensures Rewrote(lines, rest[..tables[0].start] + Aligned(tables[0].rows) + rest[tables[0].end + 1..], tables, 0)
  {
    hide Aligned, HasRows, InTable;
    var t := tables[0];
    var after := rest[..t.start] + Aligned(t.rows) + rest[t.end + 1..];
    SpliceAt(rest, t.start, t.end + 1, Aligned(t.rows));
    InOrderTail(tables);
    forall l | 0 <= l < |lines| && !InTable(tables, l) ensures after[l] == lines[l] {
      InTableTail(tables, l);
      if t.start <= l <= t.end { FirstInTable(tables, l); }
    }
    forall u | u in tables && u.rows != []
      ensures Fits(lines, u) && after[u.start..u.end + 1] == Aligned(u.rows)
    {
      assert u == t || u in tables[1..];
    }
  }

  lemma FirstInTable(tables: seq<Table>, l: int)
    requires tables != [] && tables[0].rows != [] && tables[0].start <= l <= tables[0].end
    ensures InTable(tables, l)
  {
    assert tables[0] in tables;
  }

  lemma RewroteSkip(lines: seq<string>, rest: seq<string>, tables: seq<Table>)
    requires tables != [] && Rewrote(lines, rest, tables[1..], 0) && tables[0].rows == []
    ensures Rewrote(lines, rest, tables, 0)
  {
    hide Aligned, HasRows, InTable, Fits;
    forall l | 0 <= l < |lines| && !InTable(tables, l) ensures rest[l] == lines[l] {
      InTableTail(tables, l);
    }
    forall u | u in tables && u.rows != [] ensures u in tables[1..] {}
  }

  lemma {:induction false} ReplacedExactly(lines: seq<string>, tables: seq<Table>)
    requires InOrder(tables) && forall t :: t in tables ==> Fits(lines, t)
    ensures Rewrote(lines, Replaced(lines, tables), tables, 0)
    decreases |tables|
  {
    hide Aligned, Fits, Rewrote, InOrder;
    if tables != [] {
      InOrderTail(tables);
      ReplacedExactly(lines, tables[1..]);
      assert Fits(lines, tables[0]);
      if tables[0].rows == [] {
        RewroteSkip(lines, Replaced(lines, tables[1..]), tables);
      } else {
        RewroteMore(lines, Replaced(lines, tables[1..]), tables);
      }
    } else {
      RewroteNothing(lines);
    }
  }

  lemma RewroteNothing(lines: seq<string>)
    ensures Rewrote(lines, lines, [], 0)
  {}

  lemma {:induction false} PlacedFits(lines: seq<string>, tables: seq<Table>, from: nat)
    requires AllPlaced(lines, tables, from)
    ensures InOrder(tables) && forall t :: t in tables ==> Placed(lines, t) && Fits(lines, t) && from <= t.start
  {
    hide HeadsTable, TableLine, FenceMark, Cells;
  }

  /** Tables below leave a table's lines and everything above them alone. */
  lemma AboveUntouched(lines: seq<string>, tables: seq<Table>, k: nat)
    requires k < |tables| && InOrder(tables) && forall t :: t in tables ==> Fits(lines, t)
    ensures forall l :: 0 <= l <= tables[k].end && l < |lines| ==> Replaced(lines, tables[k + 1..])[l] == lines[l]
  {
    hide Fits;
    var below := tables[k + 1..];
    ReplacedExactly(lines, below);
    forall l | 0 <= l <= tables[k].end && l < |lines| ensures !InTable(below, l) {
      forall u | u in below ensures l < u.start {
        var p :| 0 <= p < |below| && below[p] == u;
        assert u == tables[k + 1 + p];
      }
    }
  }

  lemma DelimiterHasColumns(lines: seq<string>, t: Table)
    requires Placed(lines, t) && t.rows != []
    ensures |t.rows| >= 2 && Columns(t.rows) >= 2
  {
    hide TableLine, Cells;
    assert t.rows[1] == Cells(lines[t.start..t.end + 1][1]) == Cells(lines[t.start + 1]);
  }

  function Spliced(lines: seq<string>, t: Table): (after: seq<string>)
    requires Fits(lines, t) && t.rows != []
    ensures |after| == |lines|
  {
    lines[..t.start] + Aligned(t.rows) + lines[t.end + 1..]
  }

  /** Replacing the next table above: its guards hold, and a change there is a change of the document. */
  lemma ReplacedStep(lines: seq<string>, tables: seq<Table>, k: nat)
    requires k < |tables| && AllPlaced(lines, tables, 0)
    ensures forall t :: t in tables ==> Fits(lines, t)
    ensures var t, rest, now := tables[k], Replaced(lines, tables[k + 1..]), Replaced(lines, tables[k..]);
      && Fits(rest, t)
      && now == (if |t.rows| >= 2 && Columns(t.rows) >= 2 && IsDelimiterRow(rest[t.start + 1])
                 then Spliced(rest, t) else rest)
      && (now != lines <==> rest != lines || now != rest)
  {
    hide Aligned, IsDelimiterRow, Cells, Placed, AllPlaced, Columns, Replaced;
    PlacedFits(lines, tables, 0);
    var t := tables[k];
    assert t in tables && Fits(lines, t);
    ReplacedOne(lines, tables, k);
    AboveUntouched(lines, tables, k);
    if t.rows != [] {
      DelimiterHasColumns(lines, t);
      PlacedDelimiter(lines, t);
      SpliceChanges(Replaced(lines, tables[k + 1..]), lines, t.start, t.end + 1, Aligned(t.rows));
    }
  }

  lemma ReplacedOne(lines: seq<string>, tables: seq<Table>, k: nat)
    requires k < |tables| && forall t :: t in tables ==> Fits(lines, t)
    ensures var t, rest := tables[k], Replaced(lines, tables[k + 1..]);
      && Fits(lines, t)
      && Replaced(lines, tables[k..])
         == if t.rows == [] then rest else rest[..t.start] + Aligned(t.rows) + rest[t.end + 1..]
  {
    hide Aligned, HasRows;
    var part := tables[k..];
    assert part[0] == tables[k] && part[1..] == tables[k + 1..];
    assert Fits(lines, part[0]);
  }

  /** A table of at least two rows and columns above a delimiter row gets its aligned lines. */
  method RealignTable(lines: seq<string>, t: Table) returns (after: seq<string>, changed: bool)
    requires Fits(lines, t)
    ensures after == if |t.rows| >= 2 && Columns(t.rows) >= 2 && IsDelimiterRow(lines[t.start + 1])
                     then Spliced(lines, t) else lines
    ensures changed <==> after != lines
  {
    hide Aligned, IsDelimiterRow, Columns;
    after, changed := lines, false;
    if |t.rows| < 2 { return; }
    if Columns(t.rows) < 2 { return; }
    if !IsDelimiterRow(lines[t.start + 1]) { return; }
    var aligned := AlignTable(t.rows);
    SpliceChanges(lines, lines, t.start, t.end + 1, aligned);
    if lines[t.start..t.end + 1] != aligned {
      after := lines[..t.start] + aligned + lines[t.end + 1..];
      changed := true;
    }
  }

  /** Align every table of a document, the last one first, and say whether anything changed. */
  method ProcessFile(original: seq<string>) returns (lines: seq<string>, changed: bool)
    ensures AllPlaced(original, TablesFrom(original, 0, Outside), 0)
    ensures forall t :: t in TablesFrom(original, 0, Outside) ==> Fits(original, t)
    ensures lines == Replaced(original, TablesFrom(original, 0, Outside))
    ensures changed <==> lines != original
  {
    hide AllPlaced, Fits, Replaced, IsDelimiterRow, TablesFrom, Columns, Spliced;
    lines, changed := original, false;
    var tables := FindTables(lines);
    TablesPlaced(original, 0, Outside);
    PlacedFits(original, tables, 0);
    ReplacedNothing(original, tables);
    if tables == [] { return; }
    for k := |tables| downto 0
      invariant lines == Replaced(original, tables[k..])
      invariant changed <==> lines != original
    {
      ReplacedStep(original, tables, k);
      var after, one := RealignTable(lines, tables[k]);
      lines := after;
      changed := changed || one;
    }
    assert tables[0..] == tables;
  }

  lemma SpliceChanges(lines: seq<string>, original: seq<string>, i: nat, k: nat, aligned: seq<string>)
    requires i <= k <= |lines| == |original| && |aligned| == k - i && lines[i..k] == original[i..k]
    ensures lines[i..k] == aligned ==> lines[..i] + aligned + lines[k..] == lines
    ensures lines[i..k] != aligned ==> lines[..i] + aligned + lines[k..] != original
  {
    var after := lines[..i] + aligned + lines[k..];
    assert after[i..k] == aligned;
    assert lines == lines[..i] + lines[i..k] + lines[k..];
  }

  lemma ReplacedNothing(lines: seq<string>, tables: seq<Table>)
    ensures tables[|tables|..] == [] && Replaced(lines, tables[|tables|..]) == lines == Replaced(lines, [])
  {}

  lemma PlacedDelimiter(lines: seq<string>, t: Table)
    requires Placed(lines, t) && t.rows != []
    ensures IsDelimiterRow(lines[t.start + 1])
  {
    hide TableLine, Cells, IsDelimiterRow;
  }

  // ---- a lost table ----

  const Closing: seq<string> := ["```", "```|", "---|---", "x|y", "---|---"]

  lemma TwoDashCells()
    ensures IsDelimiterRow("---|---") && FenceMark("---|---") == ""
  {
    hide Strip, StripLeft, RawCells, CodeAfter, IsDelimiterCell;
    var line, dashes := "---|---", "---";
    StripTrimmed(line);
    StripTrimmed(dashes);
    PlainCell(dashes, 0);
    PlainCell(dashes, CodeAfter("|", 0));
    assert line == dashes + ("|" + dashes);
    ScanAppend(dashes, "|" + dashes, 0);
    assert ("|" + dashes)[1..] == dashes;
    assert RawCells("|" + dashes, 0) == [""] + RawCells(dashes, 0) by { SeparatorFirst(dashes); }
    assert dashes + "" == dashes;
    assert RawCells(line, 0) == [dashes, dashes];
    assert IsDelimiterCell(dashes) by { DashesAreDelimiter(); }
    DelimiterHasPipe(line);
  }

  lemma SeparatorFirst(rest: string)
    ensures RawCells("|" + rest, 0) == [""] + RawCells(rest, 0)
  {
    assert ("|" + rest)[1..] == rest;
  }

  lemma DashesAreDelimiter()
    ensures IsDelimiterCell("---")
  {
    hide Strip;
    StripTrimmed("---");
  }

  lemma DelimiterHasPipe(line: string)
    requires IsDelimiterRow(line)
    ensures FenceMark(line) == ""
  {
    hide Strip, FenceMark, IsDelimiterRow;
    DelimiterIsTableLine(line);
  }

  /** A header outside fences that the scan misses: the closing line above was read twice. */
  lemma ClosingLineLosesTable()
    ensures HeadsTable(Closing, 3) && FenceAt(Closing, 4).Outside?
    ensures TablesFrom(Closing, 0, Outside) == [Table(1, 0, [])]
  {
    hide Strip, IsDelimiterRow;
    TwoDashCells();
    var lines := Closing;
    assert FenceMark("```") == "```" && FenceMark("```|") == "```" && FenceMark("x|y") == "";
    assert FenceAt(lines, 1) == Inside("```");
    assert FenceAt(lines, 2) == Outside;
    assert FenceAt(lines, 3) == Outside;
    TrapReopensFence(lines, 1);
    var inside := Inside("```");
    assert TablesFrom(lines, 2, inside) == TablesFrom(lines, 3, inside) == TablesFrom(lines, 4, inside) == TablesFrom(lines, 5, inside);
  }
}
