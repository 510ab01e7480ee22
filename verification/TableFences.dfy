/** Fenced code: no table is found in it and no line of it changes. */
module TableFences {
  import opened PythonText
  import opened PipeRows
  import opened TableAlign
  import opened TableScan

  /** White space, then three times the same mark. */
  ghost predicate Marked(line: string, c: char) {
    exists k: nat :: ThreeAt(line, c, k)
  }

  predicate ThreeAt(line: string, c: char, k: nat) {
    k + 3 <= |line| && (forall l :: 0 <= l < k ==> IsSpace(line[l])) && line[k] == c && line[k + 1] == c && line[k + 2] == c
  }

  /** The fence opened by line `open`; `close` is its closing line, or the number of lines when nothing closes it. */
  datatype Block = Block(open: nat, close: nat, mark: char)

  /** A fence ends at the next line with the mark that opened it; the other mark does not close it. */
  ghost predicate IsBlock(lines: seq<string>, b: Block) {
    && b.open < b.close <= |lines| && (b.mark == '`' || b.mark == '~') && Marked(lines[b.open], b.mark)
    && (forall l :: b.open < l < b.close ==> !Marked(lines[l], b.mark))
    && (b.close < |lines| ==> Marked(lines[b.close], b.mark))
  }

  predicate Within(b: Block, l: int) {
    b.open <= l <= b.close
  }

  /** The fences of a document: in order, without overlap, and no line outside them is marked. */
  ghost predicate Fencing(lines: seq<string>, blocks: seq<Block>) {
    && (forall b :: b in blocks ==> IsBlock(lines, b))
    && (forall p, q :: 0 <= p < q < |blocks| ==> blocks[p].close < blocks[q].open)
    && (forall l :: 0 <= l < |lines| && !Fenced(blocks, l) ==> !Marked(lines[l], '`') && !Marked(lines[l], '~'))
  }

  predicate Fenced(blocks: seq<Block>, l: int) {
    exists b :: b in blocks && Within(b, l)
  }

  /** A closing line with a pipe above a delimiter row. */
  predicate Misleads(lines: seq<string>, b: Block) {
    Header(lines, b.close)
  }

  /** A line with a pipe above a delimiter row. */
  predicate Header(lines: seq<string>, j: nat) {
    j + 1 < |lines| && '|' in lines[j] && IsDelimiterRow(lines[j + 1])
  }

  // ---- marks ----

  lemma {:induction false} MarkedIs(line: string, c: char)
    requires !IsSpace(c)
    ensures Marked(line, c) <==> Starts(StripLeft(line), [c, c, c])
  {
    if line != "" && IsSpace(line[0]) {
      MarkedIs(line[1..], c);
      if k: nat :| ThreeAt(line[1..], c, k) { assert ThreeAt(line, c, k + 1); }
      if k: nat :| ThreeAt(line, c, k) {
        assert k > 0;
        assert ThreeAt(line[1..], c, k - 1);
      }
    } else {
      if k: nat :| ThreeAt(line, c, k) { assert line[..3] == [c, c, c]; }
      if Starts(line, [c, c, c]) {
        assert line[..3][0] == c && line[..3][1] == c && line[..3][2] == c;
        assert ThreeAt(line, c, 0);
      }
    }
  }

  lemma MarkIs(line: string)
    ensures FenceMark(line) == "```" <==> Marked(line, '`')
    ensures FenceMark(line) == "~~~" <==> Marked(line, '~')
    ensures FenceMark(line) == "" <==> !Marked(line, '`') && !Marked(line, '~')
  {
    MarkedIs(line, '`');
    MarkedIs(line, '~');
    assert ['`', '`', '`'] == "```" && ['~', '~', '~'] == "~~~";
    var s := StripLeft(line);
    if Starts(s, "```") { assert s[0] == s[..3][0] == '`'; }
    if Starts(s, "~~~") { assert s[0] == s[..3][0] == '~'; }
  }

  function ThreeOf(c: char): string {
    [c, c, c]
  }

  // ---- the scan's fence state ----

  ghost predicate StateIs(blocks: seq<Block>, n: nat, fence: Fence) {
    && (fence.Inside? <==> exists b :: b in blocks && b.open < n <= b.close)
    && forall b :: b in blocks && b.open < n <= b.close ==> fence == Inside(ThreeOf(b.mark))
  }

  /** Two fences do not meet in a line. */
  lemma OneBlock(lines: seq<string>, blocks: seq<Block>, a: Block, b: Block, l: nat)
    requires Fencing(lines, blocks) && a in blocks && b in blocks && Within(a, l) && Within(b, l)
    ensures a == b
  {
    var p :| 0 <= p < |blocks| && blocks[p] == a;
    var q :| 0 <= q < |blocks| && blocks[q] == b;
  }

  lemma StateStep(lines: seq<string>, blocks: seq<Block>, n: nat, fence: Fence)
    requires Fencing(lines, blocks) && n < |lines| && StateIs(blocks, n, fence)
    ensures StateIs(blocks, n + 1, Toggled(fence, lines[n]))
  {
    if Fenced(blocks, n) {
      var b :| b in blocks && Within(b, n);
      FencedStep(lines, blocks, n, fence, b);
    } else {
      MarkIs(lines[n]);
      hide Marked, FenceMark, IsBlock;
      forall b | b in blocks ensures !(b.open < n <= b.close) && !(b.open < n + 1 <= b.close) { assert !Within(b, n); }
    }
  }

  lemma FencedStep(lines: seq<string>, blocks: seq<Block>, n: nat, fence: Fence, b: Block)
    requires Fencing(lines, blocks) && n < |lines| && StateIs(blocks, n, fence) && b in blocks && Within(b, n)
    ensures StateIs(blocks, n + 1, Toggled(fence, lines[n]))
  {
    assert IsBlock(lines, b);
    hide Fencing, IsBlock, Toggled;
    forall a | a in blocks && (a.open < n <= a.close || a.open < n + 1 <= a.close) ensures a == b {
      assert Within(a, n);
      OneBlock(lines, blocks, a, b, n);
    }
    BlockStep(lines, b, n, fence);
  }

  lemma BlockStep(lines: seq<string>, b: Block, n: nat, fence: Fence)
    requires IsBlock(lines, b) && Within(b, n) && n < |lines|
    requires b.open < n ==> fence == Inside(ThreeOf(b.mark))
    requires b.open == n ==> fence == Outside
    ensures Toggled(fence, lines[n]) == if n < b.close then Inside(ThreeOf(b.mark)) else Outside
  {
    MarkIs(lines[n]);
    hide Marked, FenceMark;
    assert ThreeOf('`') == "```" && ThreeOf('~') == "~~~";
  }

  /** The scan is inside a fence exactly between the opening line and the closing one, with the mark that opened it. */
  lemma {:induction false} StateAt(lines: seq<string>, blocks: seq<Block>, n: nat)
    requires Fencing(lines, blocks) && n <= |lines|
    ensures StateIs(blocks, n, FenceAt(lines, n))
  {
    hide Fencing, Toggled;
    if n > 0 {
      StateAt(lines, blocks, n - 1);
      StateStep(lines, blocks, n - 1, FenceAt(lines, n - 1));
    } else {
      assert forall b: Block :: b in blocks ==> !(b.open < 0 <= b.close);
    }
  }

  // ---- every document has its fences ----

  lemma BlockLater(lines: seq<string>, b: Block, n: nat)
    requires n < |lines| && IsBlock(lines[..n], b)
    ensures b.close < n ==> IsBlock(lines[..n + 1], b)
    ensures b.close == n ==> IsBlock(lines[..n + 1], if Marked(lines[n], b.mark) then b else b.(close := n + 1))
  {
    hide Marked;
    assert forall l :: 0 <= l < n ==> lines[..n][l] == lines[..n + 1][l];
  }

  lemma FencingNext(lines: seq<string>, blocks: seq<Block>, n: nat) returns (next: seq<Block>)
    requires n < |lines| && Fencing(lines[..n], blocks)
    ensures Fencing(lines[..n + 1], next)
  {
    hide Marked;
    var last := |blocks| - 1;
    forall b | b in blocks { BlockLater(lines, b, n); }
    if last >= 0 && blocks[last].close == n {
      var b := blocks[last];
      next := blocks[..last] + [if Marked(lines[n], b.mark) then b else b.(close := n + 1)];
      ClosedLast(lines, blocks, n, next);
    } else {
      var opens := Marked(lines[n], '`') || Marked(lines[n], '~');
      next := blocks + if opens then [Block(n, n + 1, if Marked(lines[n], '`') then '`' else '~')] else [];
      OpenedLast(lines, blocks, n, next);
    }
  }

  lemma ClosedLast(lines: seq<string>, blocks: seq<Block>, n: nat, next: seq<Block>)
    requires n < |lines| && Fencing(lines[..n], blocks) && blocks != []
    requires var b := blocks[|blocks| - 1];
      b.close == n && next == blocks[..|blocks| - 1] + [if Marked(lines[n], b.mark) then b else b.(close := n + 1)]
    ensures Fencing(lines[..n + 1], next)
  {
    hide Marked, IsBlock;
    var last := |blocks| - 1;
    var b := blocks[last];
    forall a | a in blocks { BlockLater(lines, a, n); }
    assert b in blocks;
    forall a | a in next ensures IsBlock(lines[..n + 1], a) {
      if a in blocks[..last] {
        var p :| 0 <= p < last && blocks[p] == a;
        BlockClose(lines[..n], b);
      }
    }
    forall l | 0 <= l < n + 1 && !Fenced(next, l)
      ensures !Marked(lines[..n + 1][l], '`') && !Marked(lines[..n + 1][l], '~')
    {
      assert next[last] in next && !Within(next[last], l);
      BlockClose(lines[..n], b);
      forall a | a in blocks ensures !Within(a, l) {
        if a != b { assert a in blocks[..last] && a in next; }
      }
      assert lines[..n][l] == lines[..n + 1][l];
    }
  }

  lemma BlockClose(lines: seq<string>, b: Block)
    requires IsBlock(lines, b)
    ensures b.open < b.close <= |lines|
  {}

  lemma OpenedLast(lines: seq<string>, blocks: seq<Block>, n: nat, next: seq<Block>)
    requires n < |lines| && Fencing(lines[..n], blocks)
    requires blocks != [] ==> blocks[|blocks| - 1].close != n
    requires next == blocks + if Marked(lines[n], '`') || Marked(lines[n], '~')
                              then [Block(n, n + 1, if Marked(lines[n], '`') then '`' else '~')] else []
    ensures Fencing(lines[..n + 1], next)
  {
    hide Marked;
    forall p | 0 <= p < |blocks| ensures blocks[p].close < n && IsBlock(lines[..n + 1], blocks[p]) {
      assert blocks[p] in blocks;
      BlockClose(lines[..n], blocks[p]);
      if p < |blocks| - 1 {
        assert blocks[|blocks| - 1] in blocks;
        BlockClose(lines[..n], blocks[|blocks| - 1]);
      }
      BlockLater(lines, blocks[p], n);
    }
    if |next| > |blocks| { assert next[|blocks|] in next && Within(next[|blocks|], n); }
    forall l | 0 <= l < n + 1 && !Fenced(next, l)
      ensures !Marked(lines[..n + 1][l], '`') && !Marked(lines[..n + 1][l], '~')
    {
      if l < n {
        forall a | a in blocks ensures !Within(a, l) { assert a in next; }
        assert lines[..n][l] == lines[..n + 1][l];
      }
    }
  }

  lemma NoFences()
    ensures Fencing([], [])
  {}

  /** Every document has fences. */
  lemma {:induction false} FencingExists(lines: seq<string>, n: nat) returns (blocks: seq<Block>)
    requires n <= |lines|
    ensures Fencing(lines[..n], blocks)
  {
    hide Fencing;
    if n == 0 {
      blocks := [];
      NoFences();
      assert lines[..0] == [];
    } else {
      var before := FencingExists(lines, n - 1);
      blocks := FencingNext(lines, before, n - 1);
    }
  }

  // ---- fences and tables ----

  lemma ClosesThere(lines: seq<string>, blocks: seq<Block>, b: Block)
    requires Fencing(lines, blocks) && b in blocks && b.close < |lines|
    ensures FenceAt(lines, b.close).Inside? && FenceAt(lines, b.close + 1).Outside?
  {
    StateAt(lines, blocks, b.close);
    StateAt(lines, blocks, b.close + 1);
    assert IsBlock(lines, b);
    hide FenceAt, Fencing, IsBlock;
    if FenceAt(lines, b.close + 1).Inside? {
      var a :| a in blocks && a.open < b.close + 1 <= a.close;
      OneBlock(lines, blocks, a, b, b.close);
    }
  }

  lemma SomethingCloses(lines: seq<string>, blocks: seq<Block>, i: nat) returns (b: Block)
    requires Fencing(lines, blocks) && i < |lines| && FenceAt(lines, i).Inside? && FenceAt(lines, i + 1).Outside?
    ensures b in blocks && b.close == i
  {
    hide FenceAt, Fencing;
    StateAt(lines, blocks, i);
    StateAt(lines, blocks, i + 1);
    b :| b in blocks && b.open < i <= b.close;
    assert !(b.open < i + 1 <= b.close);
  }

  /** The traps of the scan are the misleading closing lines. */
  lemma TrapMisleads(lines: seq<string>, blocks: seq<Block>, i: nat)
    requires Fencing(lines, blocks)
    ensures Trap(lines, i) <==> exists b :: b in blocks && b.close == i && Misleads(lines, b)
  {
    hide Fencing, FenceAt, IsDelimiterRow;
    if Trap(lines, i) {
      var b := SomethingCloses(lines, blocks, i);
    }
    if b :| b in blocks && b.close == i && Misleads(lines, b) { ClosesThere(lines, blocks, b); }
  }

  lemma BlockUnfenced(lines: seq<string>, blocks: seq<Block>, t: Table, l: nat)
    requires Fencing(lines, blocks) && Placed(lines, t) && t.rows != [] && FenceAt(lines, t.start).Outside?
    requires t.start <= l <= t.end
    ensures !Fenced(blocks, l)
  {
    hide Fencing, Fenced, Marked, FenceMark, HeadsTable, Strip, Cells, FenceAt;
    FenceKept(lines, t.start, t.end + 1);
    MarkIs(lines[l]);
    assert TableLine(lines[l]);
    UnmarkedOutside(lines, blocks, l);
  }

  /** An unmarked line before which the scan is outside is in no fence. */
  lemma UnmarkedOutside(lines: seq<string>, blocks: seq<Block>, l: nat)
    requires Fencing(lines, blocks) && l < |lines| && FenceAt(lines, l).Outside?
    requires !Marked(lines[l], '`') && !Marked(lines[l], '~')
    ensures !Fenced(blocks, l)
  {
    hide FenceAt, Marked;
    StateAt(lines, blocks, l);
    forall b | b in blocks ensures !Within(b, l) {
      assert IsBlock(lines, b);
      assert !(b.open < l <= b.close);
    }
  }

  ghost predicate OutsideFences(blocks: seq<Block>, t: Table) {
    forall l :: t.start <= l <= t.end ==> !Fenced(blocks, l)
  }

  /** The lines of a table are unmarked lines with a pipe, and the line after them is not. */
  ghost predicate WholeBlock(lines: seq<string>, t: Table) {
    && t.start + 1 <= t.end < |lines| && Header(lines, t.start)
    && (forall l :: t.start <= l <= t.end ==> '|' in lines[l] && !Marked(lines[l], '`') && !Marked(lines[l], '~'))
    && (t.end + 1 < |lines| ==>
          '|' !in lines[t.end + 1] || Marked(lines[t.end + 1], '`') || Marked(lines[t.end + 1], '~'))
  }

  lemma TableLineIs(line: string)
    ensures TableLine(line) <==> '|' in line && !Marked(line, '`') && !Marked(line, '~')
  {
    MarkIs(line);
    hide Marked, FenceMark, Strip;
    if Strip(line) == "" { BlankHasNoPipe(line); }
  }

  /** Every table with rows is such a block, and its rows are the cells of its lines. */
  lemma TablesAreBlocks(lines: seq<string>, t: Table)
    requires t in TablesFrom(lines, 0, Outside) && t.rows != []
    ensures WholeBlock(lines, t) && |t.rows| == t.end - t.start + 1
    ensures forall r :: 0 <= r < |t.rows| ==> t.rows[r] == Cells(lines[t.start + r])
  {
    TablesPlaced(lines, 0, Outside);
    hide TablesFrom, Placed;
    PlacedIsBlock(lines, t);
  }

  lemma PlacedIsBlock(lines: seq<string>, t: Table)
    requires Placed(lines, t) && t.rows != []
    ensures WholeBlock(lines, t) && |t.rows| == t.end - t.start + 1
    ensures forall r :: 0 <= r < |t.rows| ==> t.rows[r] == Cells(lines[t.start + r])
  {
    hide Marked, IsDelimiterRow, Cells, FenceMark, TableLine;
    forall l | t.start <= l <= t.end ensures '|' in lines[l] && !Marked(lines[l], '`') && !Marked(lines[l], '~') {
      TableLineIs(lines[l]);
    }
    if t.end + 1 < |lines| { TableLineIs(lines[t.end + 1]); }
    BlockRows(lines, t.start, t.end + 1);
  }

  lemma BlockRows(lines: seq<string>, a: nat, b: nat)
    requires a <= b <= |lines|
    ensures |SplitAll(lines[a..b])| == b - a
    ensures forall r :: 0 <= r < b - a ==> SplitAll(lines[a..b])[r] == Cells(lines[a + r])
  {
    hide Cells;
    assert forall r :: 0 <= r < b - a ==> lines[a..b][r] == lines[a + r];
  }

  ghost predicate Covered(tables: seq<Table>, j: nat) {
    exists t :: t in tables && t.start <= j <= t.end
  }

  /**
   Exactly when no closing line misleads, every table has rows. Then no line of a table is fenced, and every line with a
   pipe above a delimiter row outside the fences belongs to a table.
   */
  lemma TablesOutsideFences(lines: seq<string>, blocks: seq<Block>)
    requires Fencing(lines, blocks)
    ensures (forall t :: t in TablesFrom(lines, 0, Outside) ==> t.rows != [])
      <==> forall b :: b in blocks ==> !Misleads(lines, b)
    ensures (forall b :: b in blocks ==> !Misleads(lines, b)) ==>
      && (forall t :: t in TablesFrom(lines, 0, Outside) ==> OutsideFences(blocks, t))
      && (forall j: nat :: Header(lines, j) && !Fenced(blocks, j) ==> Covered(TablesFrom(lines, 0, Outside), j))
  {
    var tables := TablesFrom(lines, 0, Outside);
    FindsExactlyIff(lines);
    NoTrapsIff(lines, blocks);
    TablesPlaced(lines, 0, Outside);
    if forall b :: b in blocks ==> !Misleads(lines, b) { FaithfulOutside(lines, blocks, tables); }
  }

  lemma NoTrapsIff(lines: seq<string>, blocks: seq<Block>)
    requires Fencing(lines, blocks)
    ensures (forall j: nat :: !Trap(lines, j)) <==> forall b :: b in blocks ==> !Misleads(lines, b)
  {
    hide Misleads, Trap, Fencing;
    forall i: nat | Trap(lines, i) ensures exists b :: b in blocks && b.close == i && Misleads(lines, b) {
      TrapMisleads(lines, blocks, i);
    }
    forall b | b in blocks && Misleads(lines, b) ensures Trap(lines, b.close) { TrapMisleads(lines, blocks, b.close); }
  }

  lemma FaithfulOutside(lines: seq<string>, blocks: seq<Block>, tables: seq<Table>)
    requires Fencing(lines, blocks) && Faithful(lines, tables, 0) && forall t :: t in tables ==> Placed(lines, t)
    ensures forall t :: t in tables ==> OutsideFences(blocks, t)
    ensures forall j: nat :: Header(lines, j) && !Fenced(blocks, j) ==> Covered(tables, j)
  {
    hide IsDelimiterRow, Fencing, Placed, Fenced, FenceAt;
    forall t | t in tables ensures OutsideFences(blocks, t) {
      forall l | t.start <= l <= t.end ensures !Fenced(blocks, l) { BlockUnfenced(lines, blocks, t, l); }
    }
    forall j: nat | Header(lines, j) && !Fenced(blocks, j) ensures Covered(tables, j) {
      UnfencedIsOutside(lines, blocks, j);
      assert HeadsTable(lines, j);
    }
  }

  lemma UnfencedIsOutside(lines: seq<string>, blocks: seq<Block>, j: nat)
    requires Fencing(lines, blocks) && j < |lines| && !Fenced(blocks, j)
    ensures FenceAt(lines, j).Outside? && FenceAt(lines, j + 1).Outside?
  {
    StateAt(lines, blocks, j);
    StateAt(lines, blocks, j + 1);
    hide FenceAt, IsBlock;
    forall b | b in blocks ensures !(b.open < j <= b.close) && !(b.open < j + 1 <= b.close) { assert !Within(b, j); }
  }

  /** Rewriting a document in which no closing line misleads changes no line of any fence. */
  lemma FencesStay(lines: seq<string>, blocks: seq<Block>)
    requires Fencing(lines, blocks) && forall b :: b in blocks ==> !Misleads(lines, b)
    ensures forall t :: t in TablesFrom(lines, 0, Outside) ==> Fits(lines, t)
    ensures forall l: nat :: l < |lines| && Fenced(blocks, l) ==>
      Replaced(lines, TablesFrom(lines, 0, Outside))[l] == lines[l]
  {
    var tables := TablesFrom(lines, 0, Outside);
    TablesOutsideFences(lines, blocks);
    TablesPlaced(lines, 0, Outside);
    PlacedFits(lines, tables, 0);
    ReplacedExactly(lines, tables);
    hide TablesFrom, Misleads, Fencing, Fenced, Replaced, Fits;
    forall l: nat | l < |lines| && Fenced(blocks, l) ensures Replaced(lines, tables)[l] == lines[l] {
      assert !InTable(tables, l);
    }
  }
}
