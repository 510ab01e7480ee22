/**
 Rows of a pipe table (section 4.10 of the GitHub Flavored Markdown Spec): splitting a line into cells and printing cells
 as a line.

 The scanner reads escaped pipes, runs of backticks and single characters, and splits at pipes outside code spans. A row
 comes back from its printed line exactly when it ends outside a code span or fills all columns.
 */
module PipeRows {
  import opened PythonText

  // ---- splitting ----

  /** Length of the run of backticks a text starts with. */
  function Ticks(s: string): (n: nat)
    ensures n <= |s| && (n < |s| ==> s[n] != '`') && forall k :: 0 <= k < n ==> s[k] == '`'
    ensures s != "" && s[0] == '`' ==> n > 0
  {
    if s != "" && s[0] == '`' then 1 + Ticks(s[1..]) else 0
  }

  /** A run opens a code span, or closes the span that a run of the same length opened; 0 means outside code. */
  function Toggle(code: nat, ticks: nat): nat {
    if code == 0 then ticks else if code == ticks then 0 else code
  }

  /** An escaped pipe, a run of backticks or a single character. */
  function TokenLength(s: string): (n: nat)
    requires s != ""
    ensures 0 < n <= |s|
  {
    if s[0] == '\\' && |s| > 1 && s[1] == '|' then 2 else if s[0] == '`' then Ticks(s) else 1
  }

  function CodeAfterToken(s: string, code: nat): nat
    requires s != ""
  {
    if s[0] == '`' then Toggle(code, Ticks(s)) else code
  }

  function CodeAfter(s: string, code: nat): nat
    decreases |s|
  {
    if s == "" then code else CodeAfter(s[TokenLength(s)..], CodeAfterToken(s, code))
  }

  predicate IsSeparator(s: string, code: nat) {
    s != "" && s[0] == '|' && code == 0
  }

  function Attach(t: string, cells: seq<string>): (r: seq<string>)
    requires cells != []
    ensures |r| == |cells|
  {
    [t + cells[0]] + cells[1..]
  }

  /** The texts between separators: pipes that are neither escaped nor inside a code span. */
  function RawCells(s: string, code: nat): (cells: seq<string>)
    ensures cells != []
    decreases |s|
  {
    if s == "" then [""]
    else if IsSeparator(s, code) then [""] + RawCells(s[1..], 0)
    else Attach(s[..TokenLength(s)], RawCells(s[TokenLength(s)..], CodeAfterToken(s, code)))
  }

  function Stripped(cells: seq<string>): (r: seq<string>)
    ensures |r| == |cells| && forall i :: 0 <= i < |r| ==> r[i] == Strip(cells[i])
  {
    seq(|cells|, i requires 0 <= i < |cells| => Strip(cells[i]))
  }

  /** A line without surrounding white space and without an outer pipe on either side. */
  function Body(line: string): string {
    var s := Strip(line);
    var t := if s != "" && s[0] == '|' then s[1..] else s;
    if t != "" && t[|t| - 1] == '|' then t[..|t| - 1] else t
  }

  function Cells(line: string): (cells: seq<string>)
    ensures cells != []
  {
    Stripped(RawCells(Body(line), 0))
  }

  // ---- what a cell is ----

  /** A text that scans as one cell. */
  predicate OneCell(c: string) {
    RawCells(c, 0) == [c]
  }

  predicate Closed(c: string) {
    CodeAfter(c, 0) == 0
  }

  lemma {:induction false} FirstIsPrefix(s: string, code: nat)
    ensures var c := RawCells(s, code)[0]; |c| <= |s| && s[..|c|] == c
    decreases |s|
  {
    if s != "" && !IsSeparator(s, code) {
      var n := TokenLength(s);
      FirstIsPrefix(s[n..], CodeAfterToken(s, code));
      var d := RawCells(s[n..], CodeAfterToken(s, code))[0];
      assert s[..n + |d|] == s[..n] + s[n..][..|d|];
    }
  }

  lemma {:induction false} TicksOfRun(s: string, n: nat)
    requires n <= |s| && (forall k :: 0 <= k < n ==> s[k] == '`') && (n < |s| ==> s[n] != '`')
    ensures Ticks(s) == n
    decreases n
  {
    if n > 0 { TicksOfRun(s[1..], n - 1); }
  }

  /** No token spans the place where the two texts meet. */
  predicate Apart(a: string, b: string) {
    a != "" && b != "" ==> !(a[|a| - 1] == '`' && b[0] == '`') && !(a[|a| - 1] == '\\' && b[0] == '|')
  }

  lemma TokenKept(a: string, b: string, code: nat)
    requires a != "" && Apart(a, b)
    ensures TokenLength(a + b) == TokenLength(a) && CodeAfterToken(a + b, code) == CodeAfterToken(a, code)
    ensures Apart(a[TokenLength(a)..], b)
    ensures (a + b)[..TokenLength(a)] == a[..TokenLength(a)]
    ensures (a + b)[TokenLength(a)..] == a[TokenLength(a)..] + b
  {
    if a[0] == '`' {
      var n := Ticks(a);
      assert n == |a| ==> a[n - 1] == '`';
      TicksOfRun(a + b, n);
    }
  }

  /** The last cell of the first part and the first cell of the second are one. */
  function Glue(x: seq<string>, y: seq<string>): seq<string>
    requires x != [] && y != []
  {
    x[..|x| - 1] + [x[|x| - 1] + y[0]] + y[1..]
  }

  lemma AttachGlue(t: string, x: seq<string>, y: seq<string>)
    requires x != [] && y != []
    ensures Attach(t, Glue(x, y)) == Glue(Attach(t, x), y)
  {
    if |x| == 1 {
      assert t + (x[0] + y[0]) == (t + x[0]) + y[0];
    }
  }

  /** Scanning one text after another. */
  lemma {:induction false} ScanAppend(a: string, b: string, code: nat)
    requires Apart(a, b)
    ensures RawCells(a + b, code) == Glue(RawCells(a, code), RawCells(b, CodeAfter(a, code)))
    ensures CodeAfter(a + b, code) == CodeAfter(b, CodeAfter(a, code))
    decreases |a|
  {
    hide TokenLength, CodeAfterToken, Glue, Attach, Apart;
    if a == "" {
      assert a + b == b;
      GlueNothing(RawCells(b, code));
    } else {
      TokenKept(a, b, code);
      var n := TokenLength(a);
      ScanAppend(a[n..], b, CodeAfterToken(a, code));
      if IsSeparator(a, code) {
        SeparatorToken(a, code);
        assert (a + b)[1..] == a[1..] + b && IsSeparator(a + b, code);
        GlueAfter(RawCells(a[1..], 0), RawCells(b, CodeAfter(a, code)));
      } else {
        AttachGlue(a[..n], RawCells(a[n..], CodeAfterToken(a, code)), RawCells(b, CodeAfter(a, code)));
      }
    }
  }

  lemma GlueNothing(y: seq<string>)
    requires y != []
    ensures Glue([""], y) == y
  {
    assert "" + y[0] == y[0];
  }

  lemma GlueAfter(x: seq<string>, y: seq<string>)
    requires x != [] && y != []
    ensures [""] + Glue(x, y) == Glue([""] + x, y)
  {
    assert ([""] + x)[..|x|] == [""] + x[..|x| - 1];
  }

  lemma SeparatorToken(s: string, code: nat)
    requires IsSeparator(s, code)
    ensures TokenLength(s) == 1 && CodeAfterToken(s, code) == 0
  {}

  /** Each cell scans by itself as it did in the line: one cell, and all but the last end outside code. */
  lemma {:induction false} CellAlone(s: string, code: nat, i: nat)
    requires i < |RawCells(s, code)|
    ensures var cells, start := RawCells(s, code), if i == 0 then code else 0;
      && RawCells(cells[i], start) == [cells[i]]
      && CodeAfter(cells[i], start) == if i < |cells| - 1 then 0 else CodeAfter(s, code)
    decreases |s|
  {
    hide TokenLength, CodeAfterToken;
    if s == "" {
    } else if IsSeparator(s, code) {
      SeparatorToken(s, code);
      if i > 0 { CellAlone(s[1..], 0, i - 1); }
    } else {
      var n, next := TokenLength(s), CodeAfterToken(s, code);
      CellAlone(s[n..], next, i);
      if i == 0 {
        FirstCellAlone(s, code);
      }
    }
  }

  lemma FirstCellAlone(s: string, code: nat)
    requires s != "" && !IsSeparator(s, code)
    requires var d, next := RawCells(s[TokenLength(s)..], CodeAfterToken(s, code))[0], CodeAfterToken(s, code);
      RawCells(d, next) == [d]
    ensures var n, next := TokenLength(s), CodeAfterToken(s, code);
      var d := RawCells(s[n..], next)[0];
      && RawCells(s[..n] + d, code) == [s[..n] + d]
      && CodeAfter(s[..n] + d, code) == CodeAfter(d, next)
  {
    var n, next := TokenLength(s), CodeAfterToken(s, code);
    var d := RawCells(s[n..], next)[0];
    var c := s[..n] + d;
    FirstIsPrefix(s[n..], next);
    assert d != "" ==> d[0] == s[n];
    TokenOf(s, c, code);
    assert c[n..] == d && c[..n] == s[..n];
  }

  lemma TokenOf(s: string, c: string, code: nat)
    requires s != "" && TokenLength(s) <= |c| && c[..TokenLength(s)] == s[..TokenLength(s)]
    requires |c| > TokenLength(s) ==> |s| > TokenLength(s) && c[TokenLength(s)] == s[TokenLength(s)]
    ensures TokenLength(c) == TokenLength(s) && CodeAfterToken(c, code) == CodeAfterToken(s, code)
    ensures IsSeparator(c, code) <==> IsSeparator(s, code)
  {
    var n := TokenLength(s);
    assert c[0] == c[..n][0] == s[..n][0] == s[0];
    if s[0] == '`' {
      forall k | 0 <= k < n ensures c[k] == '`' { assert c[k] == c[..n][k] == s[..n][k]; }
      TicksOfRun(c, n);
    } else if n == 2 {
      assert c[1] == c[..n][1] == s[..n][1] == s[1];
    }
  }

  // ---- white space does not matter to the scan ----

  lemma {:induction false} SpaceScans(space: string, code: nat)
    requires AllSpace(space)
    ensures RawCells(space, code) == [space] && CodeAfter(space, code) == code
    decreases |space|
  {
    if space != "" {
      assert space[0] in space;
      SpaceScans(space[1..], code);
      assert space[..1] + space[1..] == space;
    }
  }

  lemma SpaceApart(a: string, space: string)
    requires AllSpace(space)
    ensures Apart(a, space) && Apart(space, a)
  {
    if space != "" { assert space[0] in space && space[|space| - 1] in space; }
  }

  lemma SpaceAround(before: string, c: string, after: string, code: nat)
    requires AllSpace(before) && AllSpace(after)
    ensures |RawCells(before + c + after, code)| == |RawCells(c, code)|
    ensures RawCells(c, code) == [c] <==> RawCells(before + c + after, code) == [before + c + after]
    ensures CodeAfter(before + c + after, code) == CodeAfter(c, code)
  {
    hide RawCells, CodeAfter, Apart;
    assert before + c + after == before + (c + after);
    SpaceScans(before, code);
    SpaceScans(after, CodeAfter(c, code));
    SpaceApart(c, after);
    SpaceApart(c + after, before);
    ScanAppend(before, c + after, code);
    ScanAppend(c, after, code);
    OneGlued(before, RawCells(c, code), after, c);
  }

  lemma OneGlued(before: string, x: seq<string>, after: string, c: string)
    requires x != []
    ensures Glue([before], Glue(x, [after])) == [before + (c + after)] <==> x == [c]
    ensures |Glue([before], Glue(x, [after]))| == |x|
  {
    var g := Glue([before], Glue(x, [after]));
    if g == [before + (c + after)] {
      assert |x| == 1 && g[0] == before + (x[0] + after);
      assert g[0][|before|..] == x[0] + after && (before + (c + after))[|before|..] == c + after;
      assert (x[0] + after)[..|x[0]|] == x[0] && (c + after)[..|c|] == c;
    }
  }

  /** Every cell of a line is trimmed and scans as one cell; all but the last end outside code. */
  lemma CellsAreCells(line: string)
    ensures forall i :: 0 <= i < |Cells(line)| ==> Trimmed(Cells(line)[i]) && OneCell(Cells(line)[i])
    ensures forall i :: 0 <= i < |Cells(line)| - 1 ==> Closed(Cells(line)[i])
    ensures Closed(Cells(line)[|Cells(line)| - 1]) <==> Closed(Body(line))
  {
    var raw := RawCells(Body(line), 0);
    forall i | 0 <= i < |raw|
      ensures Trimmed(Strip(raw[i])) && OneCell(Strip(raw[i])) && CodeAfter(Strip(raw[i]), 0) == CodeAfter(raw[i], 0)
      ensures CodeAfter(raw[i], 0) == if i < |raw| - 1 then 0 else CodeAfter(Body(line), 0)
    {
      CellAlone(Body(line), 0, i);
      var before, after := StripParts(raw[i]);
      SpaceAround(before, Strip(raw[i]), after, 0);
    }
  }

  // ---- printing ----

  function Blanks(n: nat): (s: string)
    ensures |s| == n && AllSpace(s) && forall c :: c in s ==> c == ' '
  {
    seq(n, i => ' ')
  }

  /** `str.ljust`. */
  function PadRight(c: string, width: nat): (s: string)
    ensures |s| == if |c| < width then width else |c|
  {
    if |c| < width then c + Blanks(width - |c|) else c
  }

  function Laid(cells: seq<string>, widths: seq<nat>): (parts: seq<string>)
    requires |cells| == |widths|
    ensures |parts| == |cells| && forall i :: 0 <= i < |cells| ==> parts[i] == PadRight(cells[i], widths[i])
  {
    seq(|cells|, i requires 0 <= i < |cells| => PadRight(cells[i], widths[i]))
  }

  /** The line between its outer pipes. */
  function Inner(parts: seq<string>): string
    requires parts != []
  {
    " " + parts[0] + " " + if |parts| == 1 then "" else "|" + Inner(parts[1..])
  }

  function Joined(separator: string, parts: seq<string>): string
    requires parts != []
  {
    if |parts| == 1 then parts[0] else parts[0] + separator + Joined(separator, parts[1..])
  }

  function PrintRow(parts: seq<string>): string
    requires parts != []
  {
    "| " + Joined(" | ", parts) + " |"
  }

  lemma {:induction false} InnerIsJoined(parts: seq<string>)
    requires parts != []
    ensures Inner(parts) == " " + Joined(" | ", parts) + " "
    decreases |parts|
  {
    if |parts| > 1 {
      InnerIsJoined(parts[1..]);
      calc {
        Inner(parts);
        (" " + parts[0] + " ") + ("|" + (" " + Joined(" | ", parts[1..]) + " "));
        " " + (parts[0] + " | " + Joined(" | ", parts[1..])) + " ";
      }
    }
  }

  lemma BodyOfFramed(inner: string)
    ensures Body("|" + inner + "|") == inner
  {
    hide Strip;
    var line := "|" + inner + "|";
    StripFinds("", line, "");
    assert "" + line + "" == line && Strip(line) == line;
    assert line[1..] == inner + "|" && (inner + "|")[..|inner|] == inner;
  }

  lemma BodyOfPrinted(parts: seq<string>)
    requires parts != []
    ensures Body(PrintRow(parts)) == Inner(parts)
  {
    hide Body, Inner, Joined;
    InnerIsJoined(parts);
    BodyOfFramed(Inner(parts));
    assert PrintRow(parts) == "|" + Inner(parts) + "|";
  }

  // ---- printing, then splitting ----

  /** Trimmed cells of a row whose text ends with cell `k`, the rest being padding. */
  ghost predicate IsRow(cells: seq<string>, k: nat) {
    && k < |cells|
    && (forall i :: 0 <= i < |cells| ==> Trimmed(cells[i]) && OneCell(cells[i]))
    && (forall i :: 0 <= i < k ==> Closed(cells[i]))
    && (forall i :: k < i < |cells| ==> cells[i] == "")
  }

  lemma IsRowTail(cells: seq<string>, k: nat)
    requires IsRow(cells, k) && |cells| > 1
    ensures IsRow(cells[1..], if k == 0 then 0 else k - 1)
  {}

  lemma PaddedCell(c: string, width: nat)
    requires Trimmed(c) && OneCell(c)
    ensures var x := " " + PadRight(c, width) + " ";
      OneCell(x) && Strip(x) == c && CodeAfter(x, 0) == CodeAfter(c, 0) && (Closed(x) <==> Closed(c)) && x[|x| - 1] == ' '
  {
    var after := if |c| < width then Blanks(width - |c|) + " " else " ";
    assert " " + PadRight(c, width) + " " == " " + c + after;
    SpaceAround(" ", c, after, 0);
    StripFinds(" ", c, after);
  }

  lemma {:induction false} NoTicks(s: string, code: nat)
    requires code != 0 && forall c :: c in s ==> c != '`'
    ensures RawCells(s, code) == [s] && CodeAfter(s, code) == code
    decreases |s|
  {
    if s != "" {
      assert s[0] in s;
      var n := TokenLength(s);
      forall c | c in s[n..] ensures c != '`' { assert c in s; }
      NoTicks(s[n..], code);
      assert s[..n] + s[n..] == s;
    }
  }

  lemma {:induction false} NoTicksCloses(s: string, code: nat)
    requires forall c :: c in s ==> c != '`'
    ensures CodeAfter(s, code) == code
    decreases |s|
  {
    if s != "" {
      assert s[0] in s;
      forall c | c in s[TokenLength(s)..] ensures c != '`' { assert c in s; }
      NoTicksCloses(s[TokenLength(s)..], code);
    }
  }

  lemma BlankParts(cells: seq<string>, widths: seq<nat>)
    requires |cells| == |widths| > 0 && forall i :: 0 <= i < |cells| ==> cells[i] == ""
    ensures forall c :: c in Inner(Laid(cells, widths)) ==> c != '`'
  {
    InnerNoTicks(Laid(cells, widths));
  }

  lemma {:induction false} InnerNoTicks(parts: seq<string>)
    requires parts != [] && forall i, c :: 0 <= i < |parts| && c in parts[i] ==> c != '`'
    ensures forall c :: c in Inner(parts) ==> c != '`'
  {
    if |parts| > 1 {
      forall i, c | 0 <= i < |parts[1..]| && c in parts[1..][i] ensures c != '`' {
        assert c in parts[i + 1];
      }
      InnerNoTicks(parts[1..]);
    }
  }

  /** A code span left open swallows the separators and padding that follow it. */
  lemma OpenSwallows(c: string, width: nat, rest: string)
    requires Trimmed(c) && OneCell(c) && !Closed(c) && forall t :: t in rest ==> t != '`'
    ensures var x := RawCells(" " + PadRight(c, width) + " " + ("|" + rest), 0);
      |x| == 1 && |Strip(x[0])| >= width + 2 && !Closed(Strip(x[0]))
  {
    hide RawCells, CodeAfter, Strip, IsSpace;
    var a, b := " " + PadRight(c, width) + " ", "|" + rest;
    PaddedCell(c, width);
    assert RawCells(a, 0) == [a] by { OneCellScans(a); }
    ScanAppend(a, b, 0);
    OpenIsTicked(c);
    NoTicks(b, CodeAfter(c, 0));
    assert Glue([a], [b]) == [a + b];
    OpenIsLong(c, width, a, b);
    var before, after := StripParts(a + b);
    SpaceAround(before, Strip(a + b), after, 0);
    CodeSame(a + b, Strip(a + b), c);
  }

  lemma OpenIsTicked(c: string)
    requires !Closed(c)
    ensures CodeAfter(c, 0) != 0 && c != ""
  {}

  lemma CodeSame(whole: string, stripped: string, c: string)
    requires CodeAfter(whole, 0) == CodeAfter(stripped, 0) && CodeAfter(whole, 0) == CodeAfter(c, 0) && !Closed(c)
    ensures !Closed(stripped)
  {}

  lemma OpenIsLong(c: string, width: nat, a: string, b: string)
    requires c != "" && Trimmed(c) && a == " " + PadRight(c, width) + " " && b != "" && b[0] == '|'
    ensures |Strip(a + b)| >= width + 2
  {
    hide Strip;
    assert a[1] == c[0] && (a + b)[1] == c[0] && (a + b)[|a|] == '|';
    StripKeepsBetween(a + b, 1, |a|);
  }

  /** All cells again, or the first `k` and one wider, still open cell in place of the rest. */
  ghost predicate Splits(out: seq<string>, cells: seq<string>, widths: seq<nat>, k: nat)
    requires k < |cells| == |widths|
  {
    if Closed(cells[k]) || k == |cells| - 1 then out == cells
    else |out| == k + 1 && out[..k] == cells[..k] && |out[k]| >= widths[k] + 2 && !Closed(out[k])
  }

  lemma SplitsMore(out: seq<string>, cells: seq<string>, widths: seq<nat>, k: nat)
    requires IsRow(cells, k) && 1 < |cells| == |widths| && Closed(cells[0])
    requires Splits(out, cells[1..], widths[1..], if k == 0 then 0 else k - 1)
    ensures Splits([cells[0]] + out, cells, widths, k)
  {
    hide CodeAfter, OneCell, Trimmed;
    if k == 0 {
      assert cells[1] == "" && Closed("") by { EmptyCloses(); }
    } else {
      var all := [cells[0]] + out;
      if !(Closed(cells[k]) || k == |cells| - 1) {
        assert all[..k] == [cells[0]] + out[..k - 1] && cells[..k] == [cells[0]] + cells[1..][..k - 1];
      }
    }
  }

  /**
    * A printed row splits into its cells again exactly when its text ends outside a code span or fills all columns.
    * Otherwise the open cell swallows the padding columns.
    */
  lemma {:induction false} RowScan(cells: seq<string>, widths: seq<nat>, k: nat)
    requires |cells| == |widths| && IsRow(cells, k)
    ensures Splits(Stripped(RawCells(Inner(Laid(cells, widths)), 0)), cells, widths, k)
    decreases |cells|
  {
    hide RawCells, Closed, Strip, Trimmed, PadRight, Inner, OneCell, Splits;
    var parts := Laid(cells, widths);
    PaddedCell(cells[0], widths[0]);
    var a := " " + PadRight(cells[0], widths[0]) + " ";
    InnerSplits(parts);
    if |cells| == 1 {
      assert RawCells(a, 0) == [a] by { OneCellScans(a); }
      assert Stripped([a]) == [Strip(a)] == cells;
      OneColumn(cells, widths, k);
    } else {
      var rest := Inner(parts[1..]);
      assert parts[1..] == Laid(cells[1..], widths[1..]);
      if Closed(cells[0]) {
        IsRowTail(cells, k);
        RowScan(cells[1..], widths[1..], if k == 0 then 0 else k - 1);
        SeparatorSplits(a, rest);
        StrippedMore(a, RawCells(rest, 0));
        SplitsMore(Stripped(RawCells(rest, 0)), cells, widths, k);
      } else {
        BlankParts(cells[1..], widths[1..]);
        OpenSwallows(cells[0], widths[0], rest);
        OpenFirst(Stripped(RawCells(a + ("|" + rest), 0)), cells, widths);
      }
    }
  }

  lemma OneColumn(cells: seq<string>, widths: seq<nat>, k: nat)
    requires IsRow(cells, k) && |cells| == |widths| == 1
    ensures Splits(cells, cells, widths, k)
  {}

  lemma OpenFirst(out: seq<string>, cells: seq<string>, widths: seq<nat>)
    requires 1 < |cells| == |widths| && !Closed(cells[0])
    requires |out| == 1 && |out[0]| >= widths[0] + 2 && !Closed(out[0])
    ensures Splits(out, cells, widths, 0)
  {}

  lemma InnerSplits(parts: seq<string>)
    requires parts != []
    ensures var a := " " + parts[0] + " "; Inner(parts) == if |parts| == 1 then a else a + ("|" + Inner(parts[1..]))
  {
    var a := " " + parts[0] + " ";
    var more := if |parts| == 1 then "" else "|" + Inner(parts[1..]);
    assert Inner(parts) == a + more && a + "" == a;
  }

  lemma OneCellScans(c: string)
    requires OneCell(c)
    ensures RawCells(c, 0) == [c]
  {}

  lemma EmptyCloses()
    ensures Closed("")
  {}

  lemma SeparatorSplits(a: string, rest: string)
    requires a != "" && a[|a| - 1] == ' ' && OneCell(a) && Closed(a)
    ensures RawCells(a + ("|" + rest), 0) == [a] + RawCells(rest, 0)
  {
    ScanAppend(a, "|" + rest, 0);
    assert ("|" + rest)[1..] == rest;
    assert RawCells("|" + rest, 0) == [""] + RawCells(rest, 0);
    assert a + "" == a;
  }

  lemma StrippedMore(a: string, cells: seq<string>)
    ensures Stripped([a] + cells) == [Strip(a)] + Stripped(cells)
  {}

  /** Splitting undoes printing exactly for rows that end outside a code span or fill all columns. */
  lemma PrintedRowSplits(cells: seq<string>, widths: seq<nat>, k: nat)
    requires |cells| == |widths| && IsRow(cells, k)
    ensures Cells(PrintRow(Laid(cells, widths))) == cells <==> Closed(cells[k]) || k == |cells| - 1
    ensures !(Closed(cells[k]) || k == |cells| - 1) ==>
      var out := Cells(PrintRow(Laid(cells, widths)));
      |out| == k + 1 && out[..k] == cells[..k] && |out[k]| >= widths[k] + 2 && !Closed(out[k])
  {
    hide RawCells, PrintRow, Inner, Body, Closed;
    BodyOfPrinted(Laid(cells, widths));
    RowScan(cells, widths, k);
  }

  // ---- the scanner ----

  /** The cells read so far, the text of the current one and what is left make up the row. */
  ghost predicate Reading(s: string, i: nat, code: nat, buf: string, cells: seq<string>) {
    i <= |s| && Stripped(RawCells(s, 0)) == cells + Stripped(Attach(buf, RawCells(s[i..], code)))
  }

  /** Split a row into cells in one pass, tracking escapes and code spans. */
  method SplitRow(line: string) returns (cells: seq<string>)
    ensures cells == Cells(line)
  {
    hide Strip, CodeAfter, Reading, RawCells, Toggle;
    var s := Strip(line);
    if s != "" && s[0] == '|' { s := s[1..]; }
    if s != "" && s[|s| - 1] == '|' { s := s[..|s| - 1]; }
    assert s == Body(line);
    ghost var code := 0;
    var buf, inCode, ticks := "", false, 0;
    var i := 0;
    cells := [];
    ReadStart(s);
    while i < |s|
      invariant i <= |s|
      invariant code == (if inCode then ticks else 0) && (inCode ==> ticks > 0)
      invariant Reading(s, i, code, buf, cells)
    {
      var ch := s[i];
      if ch == '\\' && i + 1 < |s| && s[i + 1] == '|' {
        ReadToken(s, i, code, buf, cells, 2);
        buf := buf + "\\|";
        i := i + 2;
      } else if ch == '`' {
        var j := i;
        while j < |s| && s[j] == '`'
          invariant i <= j <= |s| && forall k :: i <= k < j ==> s[k] == '`'
        {
          j := j + 1;
        }
        ReadTicks(s, i, code, buf, cells, j);
        buf := buf + s[i..j];
        code := Toggle(code, j - i);
        ToggleCases(if inCode then ticks else 0, j - i);
        if !inCode {
          inCode, ticks := true, j - i;
        } else if ticks == j - i {
          inCode := false;
        }
        i := j;
      } else if ch == '|' && !inCode {
        ReadSeparator(s, i, buf, cells);
        cells := cells + [Strip(buf)];
        buf := "";
        i := i + 1;
      } else {
        ReadToken(s, i, code, buf, cells, 1);
        buf := buf + [ch];
        i := i + 1;
      }
    }
    ReadEnd(s, code, buf, cells);
    cells := cells + [Strip(buf)];
  }

  lemma ToggleCases(code: nat, n: nat)
    ensures Toggle(code, n) == if code == 0 then n else if code == n then 0 else code
  {}

  lemma ReadStart(s: string)
    ensures Reading(s, 0, 0, "", [])
  {
    hide Strip;
    assert s[0..] == s;
    AttachNothing(RawCells(s, 0));
  }

  lemma ReadToken(s: string, i: nat, code: nat, buf: string, cells: seq<string>, n: nat)
    requires Reading(s, i, code, buf, cells) && i < |s| && s[i] != '`' && !(s[i] == '|' && code == 0)
    requires n == if s[i] == '\\' && i + 1 < |s| && s[i + 1] == '|' then 2 else 1
    ensures Reading(s, i + n, code, buf + s[i..i + n], cells)
    ensures s[i..i + n] == if n == 2 then "\\|" else [s[i]]
  {
    hide Strip, RawCells;
    assert s[i..][0] == s[i];
    TokenRead(s, i, code, buf, n);
  }

  lemma ReadTicks(s: string, i: nat, code: nat, buf: string, cells: seq<string>, j: nat)
    requires Reading(s, i, code, buf, cells) && i < j <= |s| && forall k :: i <= k < j ==> s[k] == '`'
    requires j < |s| ==> s[j] != '`'
    ensures Reading(s, j, Toggle(code, j - i), buf + s[i..j], cells)
  {
    hide Strip, RawCells, Toggle;
    assert s[i..][0] == s[i];
    TicksOfRun(s[i..], j - i);
    TokenRead(s, i, code, buf, j - i);
  }

  lemma ReadSeparator(s: string, i: nat, buf: string, cells: seq<string>)
    requires Reading(s, i, 0, buf, cells) && i < |s| && s[i] == '|'
    ensures Reading(s, i + 1, 0, "", cells + [Strip(buf)])
  {
    hide Strip, RawCells;
    SeparatorRead(s, i, buf);
  }

  lemma ReadEnd(s: string, code: nat, buf: string, cells: seq<string>)
    requires Reading(s, |s|, code, buf, cells)
    ensures cells + [Strip(buf)] == Stripped(RawCells(s, 0))
  {
    assert s[|s|..] == "" && RawCells("", code) == [""];
    hide Strip, RawCells;
    assert buf + "" == buf && Attach(buf, [""]) == [buf];
    assert Stripped([buf]) == [Strip(buf)];
  }

  lemma AttachNothing(cells: seq<string>)
    requires cells != []
    ensures Attach("", cells) == cells
  {
    assert "" + cells[0] == cells[0];
  }

  lemma TokenRead(s: string, i: nat, code: nat, buf: string, n: nat)
    requires i < |s| && TokenLength(s[i..]) == n && !IsSeparator(s[i..], code)
    ensures i + n <= |s| && s[i..i + n] == s[i..][..n]
    ensures Attach(buf, RawCells(s[i..], code))
      == Attach(buf + s[i..i + n], RawCells(s[i + n..], CodeAfterToken(s[i..], code)))
  {
    assert s[i..][n..] == s[i + n..] && s[i..i + n] == s[i..][..n];
    TokenFirst(s[i..], code);
    hide RawCells, TokenLength, CodeAfterToken, IsSeparator;
    var later := RawCells(s[i + n..], CodeAfterToken(s[i..], code));
    AttachTwice(buf, s[i..i + n], later);
  }

  lemma TokenFirst(t: string, code: nat)
    requires t != "" && !IsSeparator(t, code)
    ensures RawCells(t, code)
      == Attach(t[..TokenLength(t)], RawCells(t[TokenLength(t)..], CodeAfterToken(t, code)))
  {
    hide TokenLength, CodeAfterToken;
  }

  lemma AttachTwice(a: string, b: string, cells: seq<string>)
    requires cells != []
    ensures Attach(a, Attach(b, cells)) == Attach(a + b, cells)
  {
    assert (a + b) + cells[0] == a + (b + cells[0]);
  }

  lemma SeparatorRead(s: string, i: nat, buf: string)
    requires i < |s| && s[i] == '|'
    ensures Stripped(Attach(buf, RawCells(s[i..], 0))) == [Strip(buf)] + Stripped(Attach("", RawCells(s[i + 1..], 0)))
  {
    hide Strip;
    assert s[i..][1..] == s[i + 1..];
    AttachNothing(RawCells(s[i + 1..], 0));
    assert buf + "" == buf;
    StrippedMore(buf, RawCells(s[i + 1..], 0));
    assert Attach(buf, RawCells(s[i..], 0)) == [buf] + RawCells(s[i + 1..], 0);
  }
}
