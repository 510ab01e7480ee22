/** What the spelling guard reports and writes, told from the line. */
module SpellingReports {
  import opened Orders
  import opened PythonText
  import opened SpellingWords
  import opened Respelling
  import opened SpellingScan
  import opened SpellingAllow

  // ---- the replacement of one word ----

  /** A lowercase letter, and none that is uppercase or titlecase. */
  predicate Lowercase(A: Alphabet, w: string) {
    (exists i :: 0 <= i < |w| && A.lower(w[i])) && forall i :: 0 <= i < |w| ==> !A.upper(w[i]) && !A.title(w[i])
  }

  predicate Uppercase(A: Alphabet, w: string) {
    (exists i :: 0 <= i < |w| && A.upper(w[i])) && forall i :: 0 <= i < |w| ==> !A.lower(w[i]) && !A.title(w[i])
  }

  predicate Initial(A: Alphabet, w: string) {
    w != "" && A.upper(w[0]) && Lowercase(A, w[1..])
  }

  lemma CasesAre(A: Alphabet, w: string)
    ensures IsLower(A, w) <==> Lowercase(A, w)
    ensures IsUpper(A, w) <==> Uppercase(A, w)
  {
    assert forall c :: c in w <==> exists i :: 0 <= i < |w| && w[i] == c;
  }

  /** The table has the word, it has two letters or more, and it is in one of the three case patterns. */
  predicate Respellable(A: Alphabet, table: Table, w: string) {
    A.lowered(w) in table && |w| >= 2 && (Lowercase(A, w) || Uppercase(A, w) || Initial(A, w))
  }

  /** The lowercase replacement `us` brought into the case pattern of `w`, letter by letter. */
  predicate InCaseOf(A: Alphabet, w: string, us: string, r: string) {
    && |r| == |us|
    && (Lowercase(A, w) ==> r == us && Lowercase(A, r))
    && (Uppercase(A, w) ==> (forall i :: 0 <= i < |r| ==> r[i] as int == us[i] as int - 32) && Uppercase(A, r))
    && (!Lowercase(A, w) && !Uppercase(A, w) ==>
          r != "" && r[0] as int == us[0] as int - 32 && r[1..] == us[1..] && Initial(A, r))
  }

  lemma RaisedBy32(s: string)
    requires SmallWord(s)
    ensures forall i :: 0 <= i < |s| ==> Raised(s)[i] as int == s[i] as int - 32
    ensures s != "" ==> Capitalized(s)[0] as int == s[0] as int - 32 && Capitalized(s)[1..] == s[1..]
  {
    forall i | 0 <= i < |s| ensures Raised(s)[i] as int == s[i] as int - 32 { assert s[i] in s; }
    if s != "" { assert s[0] in s; }
  }

  /** The replacement of `w`: the table's, in the case pattern of `w`. */
  predicate Replaces(A: Alphabet, table: Table, w: string, r: string) {
    Respellable(A, table, w) && InCaseOf(A, w, table[A.lowered(w)], r)
  }

  /** A case pattern leaves one replacement. */
  lemma InCaseOfUnique(A: Alphabet, w: string, us: string, r: string, q: string)
    requires InCaseOf(A, w, us, r) && InCaseOf(A, w, us, q)
    ensures r == q
  {
    hide Lowercase, Uppercase;
    if Uppercase(A, w) {
      forall i | 0 <= i < |r| ensures r[i] == q[i] { assert r[i] as int == q[i] as int; }
    } else if !Lowercase(A, w) {
      assert r[0] as int == q[0] as int;
      assert r == [r[0]] + r[1..] && q == [q[0]] + q[1..];
    }
  }

  /** There is a replacement exactly for a respellable word, and it is the table's in the case pattern of the word. */
  lemma RespellExact(A: Alphabet, table: Table, w: string, r: string)
    requires Standard(A)
    ensures Respell(A, table, w) == Some(r) <==> Replaces(A, table, w, r)
  {
    if Respell(A, table, w).Some? { RespelledInCase(A, table, w); }
    RespelledIff(A, table, w);
    hide Respell, Respellable, InCaseOf;
    if Replaces(A, table, w, r) {
      InCaseOfUnique(A, w, table[A.lowered(w)], r, Respell(A, table, w).value);
    }
  }

  lemma RespelledIff(A: Alphabet, table: Table, w: string)
    ensures Respell(A, table, w).Some? <==> Respellable(A, table, w)
  {
    CasesAre(A, w);
    if w != "" { CasesAre(A, w[1..]); }
    hide IsLower, IsUpper, Lowercase, Uppercase;
  }

  lemma NotBoth(A: Alphabet, w: string)
    requires w != ""
    ensures !(Lowercase(A, w) && Uppercase(A, w))
  {}

  lemma RespelledInCase(A: Alphabet, table: Table, w: string)
    requires Standard(A) && Respell(A, table, w).Some?
    ensures InCaseOf(A, w, table[A.lowered(w)], Respell(A, table, w).value)
  {
    var us := table[A.lowered(w)];
    var r := Respell(A, table, w).value;
    RaisedBy32(us);
    SmallIsLower(A, us);
    RaisedIsUpper(A, us);
    CapitalizedIsCapital(A, us);
    NotBoth(A, w);
    CasesAre(A, w);
    CasesAre(A, r);
    CasesAre(A, r[1..]);
    hide IsLower, IsUpper, Lowercase, Uppercase, Raised, Capitalized, Standard, IsWord;
  }

  // ---- the hits of one line ----

  lemma {:induction false} JoinConcat(a: seq<Segment>, b: seq<Segment>)
    ensures Join(a + b) == Join(a) + Join(b)
  {
    if a == [] {
      assert a + b == b;
    } else {
      assert (a + b)[1..] == a[1..] + b;
      JoinConcat(a[1..], b);
    }
  }

  lemma {:induction false} WordsAtConcat(a: seq<Segment>, b: seq<Segment>, at: nat)
    ensures WordsAt(a + b, at) == WordsAt(a, at) + WordsAt(b, at + |Join(a)|)
    decreases |a|
  {
    hide WordsAt;
    if a == [] {
      assert a + b == b;
      WordsAtFirst(a, at);
    } else {
      assert (a + b)[1..] == a[1..] + b;
      WordsAtFirst(a, at);
      WordsAtFirst(a + b, at);
      WordsAtConcat(a[1..], b, at + |Text(a[0])|);
    }
  }

  lemma WordsAtFirst(segs: seq<Segment>, at: nat)
    ensures segs == [] ==> WordsAt(segs, at) == []
    ensures segs != [] ==>
      WordsAt(segs, at)
      == (if segs[0].Word? then [(at, segs[0].text)] else []) + WordsAt(segs[1..], at + |Text(segs[0])|)
  {}

  lemma {:induction false} LastText(A: Alphabet, segs: seq<Segment>)
    requires Canonical(A, segs) && segs != []
    ensures var line, s := Join(segs), segs[|segs| - 1];
      line != "" && Text(s) != "" && line[|line| - 1] == Text(s)[|Text(s)| - 1]
  {
    var n := |segs| - 1;
    assert Fits(A, segs[n]);
    JoinConcat(segs[..n], segs[n..]);
    assert segs == segs[..n] + segs[n..] && segs[n..] == [segs[n]] && segs[n..][1..] == [];
    assert Join(segs[n..]) == Text(segs[n]) + Join([]) == Text(segs[n]);
  }

  lemma ThreeParts(line: string, start: nat, end: nat)
    requires start <= end <= |line|
    ensures line[..start] + (line[start..end] + line[end..]) == line
  {}

  /** A word of the line between canonical divisions of what stands before and after it. */
  lemma PieceDivides(A: Alphabet, line: string, start: nat, end: nat)
    requires PieceAt(A, line, start, end)
    ensures var segs := Segments(A, line[..start]) + ([Word(line[start..end])] + Segments(A, line[end..]));
      Canonical(A, segs) && Join(segs) == line
  {
    PieceHasLength(A, line, start, end);
    PieceThenRest(A, line, start, end);
    SegmentsCanonical(A, line[..start]);
    var before, tail := Segments(A, line[..start]), [Word(line[start..end])] + Segments(A, line[end..]);
    if before != [] { RestThenPiece(A, line, start, end, before); }
    hide *;
    CanonicalJoin(A, before, tail);
    JoinConcat(before, tail);
    ThreeParts(line, start, end);
  }

  lemma PieceThenRest(A: Alphabet, line: string, start: nat, end: nat)
    requires PieceAt(A, line, start, end)
    ensures var w, after := Word(line[start..end]), Segments(A, line[end..]);
      Canonical(A, [w] + after) && Join([w] + after) == line[start..end] + line[end..]
  {
    var w, after := Word(line[start..end]), Segments(A, line[end..]);
    SegmentsCanonical(A, line[end..]);
    SegmentsStart(A, line[end..]);
    hide Segments, IsWord;
    if after != [] && after[0].Word? { assert Fits(A, after[0]); }
    WordFirst(A, w, after);
  }

  lemma RestThenPiece(A: Alphabet, line: string, start: nat, end: nat, before: seq<Segment>)
    requires PieceAt(A, line, start, end) && Canonical(A, before) && before != [] && Join(before) == line[..start]
    ensures Divided(A, before[|before| - 1], Word(line[start..end]))
  {
    LastText(A, before);
    assert Fits(A, before[|before| - 1]);
    hide Canonical, Join, IsWord;
    var s := before[|before| - 1];
    if s.Word? { LastLetter(A, s); JoinsBefore(A, line, start, end, s); }
  }

  lemma LastLetter(A: Alphabet, s: Segment)
    requires Fits(A, s) && s.Word?
    ensures s.text != "" && A.letter(s.text[|s.text| - 1])
  {
    assert s.text[|s.text| - 1] in s.text;
  }

  lemma PieceHasLength(A: Alphabet, line: string, start: nat, end: nat)
    requires PieceAt(A, line, start, end)
    ensures start < end <= |line|
  {}

  lemma WordFirst(A: Alphabet, w: Segment, after: seq<Segment>)
    requires Canonical(A, after) && w.Word? && IsWord(A, w.text)
    requires after != [] && after[0].Word? ==> Divided(A, w, after[0])
    ensures Canonical(A, [w] + after) && Join([w] + after) == w.text + Join(after)
  {
    hide IsWord;
    var segs := [w] + after;
    assert segs[1..] == after;
    forall i | 0 < i < |segs| ensures Divided(A, segs[i - 1], segs[i]) {
      if i > 1 { assert Divided(A, after[i - 1 - 1], after[i - 1]); }
    }
  }

  lemma JoinsBefore(A: Alphabet, line: string, start: nat, end: nat, s: Segment)
    requires PieceAt(A, line, start, end) && start > 0
    requires s.Word? && s.text != "" && A.letter(s.text[|s.text| - 1]) && line[..start][start - 1] == s.text[|s.text| - 1]
    ensures Divided(A, s, Word(line[start..end]))
  {
    hide IsWord;
    assert line[start - 1] == s.text[|s.text| - 1] && line[start..end][0] == line[start];
  }

  lemma CanonicalJoin(A: Alphabet, a: seq<Segment>, b: seq<Segment>)
    requires Canonical(A, a) && Canonical(A, b)
    requires a != [] && b != [] ==> Divided(A, a[|a| - 1], b[0])
    ensures Canonical(A, a + b)
  {
    hide Fits, Divided;
    var segs := a + b;
    forall i | 0 < i < |segs| ensures Divided(A, segs[i - 1], segs[i]) {
      if i < |a| { assert Divided(A, a[i - 1], a[i]); }
      if i > |a| { assert Divided(A, b[i - |a| - 1], b[i - |a|]); }
    }
  }

  /** The words of a line are exactly its maximal pieces. */
  lemma PieceIsListed(A: Alphabet, line: string, start: nat, end: nat)
    requires PieceAt(A, line, start, end)
    ensures (start, line[start..end]) in WordsAt(Segments(A, line), 0)
  {
    PieceHasLength(A, line, start, end);
    var before, text, after := Segments(A, line[..start]), line[start..end], Segments(A, line[end..]);
    PieceDivides(A, line, start, end);
    CanonicalUnique(A, before + ([Word(text)] + after));
    SegmentsCanonical(A, line[..start]);
    WordBetween(before, text, after, start);
  }

  lemma WordBetween(before: seq<Segment>, text: string, after: seq<Segment>, start: nat)
    requires |Join(before)| == start
    ensures (start, text) in WordsAt(before + ([Word(text)] + after), 0)
  {
    hide *;
    WordsAtConcat(before, [Word(text)] + after, 0);
    WordsAtWord(text, after, start);
    assert (start, text) in [(start, text)] + WordsAt(after, start + |text|);
  }

  lemma {:induction false} HitOfWord(A: Alphabet, table: Table, found: seq<(nat, string)>, h: Hit)
    ensures h in HitsOfWords(A, table, found)
      <==> exists w :: w in found && h in HitsIn(A, table, w.0, w.1)
  {
    hide HitsIn;
    if found != [] {
      HitOfWord(A, table, found[1..], h);
      assert found == [found[0]] + found[1..];
    }
  }

  /** The hits of a line are exactly its respellable words, each with the replacement in its case pattern. */
  lemma HitsExact(A: Alphabet, table: Table, line: string, h: Hit)
    requires Standard(A)
    ensures h in LineHits(A, table, line) <==>
      && PieceAt(A, line, h.start, h.end) && h.word == line[h.start..h.end]
      && Replaces(A, table, h.word, h.replacement)
  {
    LineHitsArePieces(A, table, line);
    HitsOfWordsAt(A, table, Segments(A, line), 0);
    HitOfWord(A, table, WordsAt(Segments(A, line), 0), h);
    RespellExact(A, table, h.word, h.replacement);
    if h in LineHits(A, table, line) {
      var w :| w in WordsAt(Segments(A, line), 0) && h in HitsIn(A, table, w.0, w.1);
      HitSays(A, table, w.0, w.1, h);
    }
    hide LineHits, Respell, Replaces, PieceAt, WordsAt, Segments, HitsOfWords, HitsIn;
    if PieceAt(A, line, h.start, h.end) && h.word == line[h.start..h.end]
      && Respell(A, table, h.word) == Some(h.replacement)
    {
      PieceIsListed(A, line, h.start, h.end);
      PieceHasLength(A, line, h.start, h.end);
      HitSays(A, table, h.start, h.word, h);
    }
  }

  lemma HitSays(A: Alphabet, table: Table, at: nat, w: string, h: Hit)
    ensures h in HitsIn(A, table, at, w)
      <==> h.start == at && h.end == at + |w| && h.word == w && Respell(A, table, w) == Some(h.replacement)
  {
    hide Respell;
  }

  // ---- what is reported ----

  lemma {:induction false} KeptExact(found: seq<Hit>, excused: Excuses, h: Hit)
    ensures h in Kept(found, excused) <==> h in found && !excused(h.start, h.end)
  {
    if found != [] {
      KeptExact(found[1..], excused, h);
      assert found == [found[0]] + found[1..];
    }
  }

  /** Reported are exactly the respellable words of the line that no rule excuses. */
  lemma ReportedExact(A: Alphabet, table: Table, rules: seq<Rule>, path: string, line: string, h: Hit)
    requires Standard(A)
    ensures h in Reported(A, table, rules, path, line) <==>
      && PieceAt(A, line, h.start, h.end) && h.word == line[h.start..h.end]
      && Replaces(A, table, h.word, h.replacement)
      && !Excused(A, rules, path, line, h.start, h.end)
  {
    HitsExact(A, table, line, h);
    KeptExact(LineHits(A, table, line), ExcusesOf(A, rules, path, line), h);
    ExcusesAt(A, rules, path, line, h);
    hide LineHits, Kept, ExcusesOf, PieceAt, Replaces, Excused;
  }

  /** The finding is a reported hit of the line at `i`, when the first line has number `at + 1`. */
  ghost predicate Places(A: Alphabet, table: Table, rules: seq<Rule>, path: string, lines: seq<string>, at: nat, f: Finding,
                         i: nat, h: Hit)
    requires i < |lines|
  {
    h in Reported(A, table, rules, path, lines[i]) && f == Finding(at + i + 1, h.word, h.replacement)
  }

  lemma {:induction false} FindingsListed(
      A: Alphabet, table: Table, rules: seq<Rule>, path: string, lines: seq<string>, at: nat, f: Finding)
    ensures f in Findings(A, table, rules, path, lines, at) <==>
      exists i, h :: 0 <= i < |lines| && Places(A, table, rules, path, lines, at, f, i, h)
    decreases |lines|
  {
    hide Reported, FindingsOf;
    if lines != [] {
      FindingsListed(A, table, rules, path, lines[1..], at + 1, f);
      FindingListed(at + 1, Reported(A, table, rules, path, lines[0]), f);
      if h :| h in Reported(A, table, rules, path, lines[0]) && f == Finding(at + 1, h.word, h.replacement) {
        assert Places(A, table, rules, path, lines, at, f, 0, h);
      }
      var rest, next := lines[1..], at + 1;
      if i, h :| 0 <= i < |rest| && Places(A, table, rules, path, rest, next, f, i, h) {
        assert Places(A, table, rules, path, lines, at, f, i + 1, h);
      }
      if i, h :| 0 <= i < |lines| && Places(A, table, rules, path, lines, at, f, i, h) {
        if i > 0 { assert Places(A, table, rules, path, lines[1..], at + 1, f, i - 1, h); }
      }
    }
  }

  lemma FindingListed(number: nat, found: seq<Hit>, f: Finding)
    ensures f in FindingsOf(number, found) <==> exists h :: h in found && f == Finding(number, h.word, h.replacement)
  {
    if h :| h in found && f == Finding(number, h.word, h.replacement) {
      var k :| 0 <= k < |found| && found[k] == h;
      assert FindingsOf(number, found)[k] == f;
    }
  }

  ghost predicate Numbered(findings: seq<Finding>, low: nat, high: nat) {
    && (forall f :: f in findings ==> low <= f.number <= high)
    && forall i, j :: 0 <= i < j < |findings| ==> findings[i].number <= findings[j].number
  }

  lemma NumberedConcat(a: seq<Finding>, b: seq<Finding>, low: nat, high: nat)
    requires low <= high && Numbered(a, low, low) && Numbered(b, low, high)
    ensures Numbered(a + b, low, high)
  {
    var s := a + b;
    forall i, j | 0 <= i < j < |s| ensures s[i].number <= s[j].number {
      assert s[i] in s && s[j] in s;
      if i < |a| { assert s[i] in a; } else { assert s[j] == b[j - |a|] && s[i] == b[i - |a|]; }
    }
  }

  /** Findings come line by line. */
  lemma {:induction false} FindingsAscend(
      A: Alphabet, table: Table, rules: seq<Rule>, path: string, lines: seq<string>, at: nat)
    ensures Numbered(Findings(A, table, rules, path, lines, at), at + 1, at + 1 + |lines|)
    decreases |lines|
  {
    hide Reported;
    if lines != [] {
      FindingsAscend(A, table, rules, path, lines[1..], at + 1);
      var here := FindingsOf(at + 1, Reported(A, table, rules, path, lines[0]));
      var later := Findings(A, table, rules, path, lines[1..], at + 1);
      NumberedConcat(here, later, at + 1, at + 1 + |lines|);
    }
  }

  /** The word stands in the line as one of its words, and no rule excuses it there. */
  ghost predicate Unexcused(A: Alphabet, rules: seq<Rule>, path: string, line: string, w: string, start: nat, end: nat) {
    PieceAt(A, line, start, end) && w == line[start..end] && !Excused(A, rules, path, line, start, end)
  }

  ghost predicate HasUnexcused(A: Alphabet, rules: seq<Rule>, path: string, line: string, w: string) {
    exists start, end :: Unexcused(A, rules, path, line, w, start, end)
  }

  /** The finding is the one-based number of a line, one of its unexcused words, and the replacement of that word. */
  ghost predicate Explained(A: Alphabet, table: Table, rules: seq<Rule>, path: string, lines: seq<string>, f: Finding) {
    && 1 <= f.number <= |lines| && Replaces(A, table, f.word, f.replacement)
    && HasUnexcused(A, rules, path, lines[f.number - 1], f.word)
  }

  lemma PlacedIsExplained(A: Alphabet, table: Table, rules: seq<Rule>, path: string, lines: seq<string>, f: Finding, i: nat,
                          h: Hit)
    requires Standard(A) && i < |lines| && Places(A, table, rules, path, lines, 0, f, i, h)
    ensures Explained(A, table, rules, path, lines, f)
  {
    ReportedExact(A, table, rules, path, lines[i], h);
    hide Reported, Replaces, PieceAt, Excused, Standard;
    assert Unexcused(A, rules, path, lines[i], f.word, h.start, h.end);
  }

  lemma ExplainedIsPlaced(A: Alphabet, table: Table, rules: seq<Rule>, path: string, lines: seq<string>, f: Finding)
      returns (h: Hit)
    requires Standard(A) && Explained(A, table, rules, path, lines, f)
    ensures 1 <= f.number <= |lines| && Places(A, table, rules, path, lines, 0, f, f.number - 1, h)
  {
    hide Reported, Replaces, PieceAt, Excused, Standard;
    var line := lines[f.number - 1];
    var start, end :| Unexcused(A, rules, path, line, f.word, start, end);
    h := Hit(start, end, f.word, f.replacement);
    ReportedExact(A, table, rules, path, line, h);
  }

  /** The findings are exactly the explained ones. */
  lemma FindingsExact(A: Alphabet, table: Table, rules: seq<Rule>, path: string, lines: seq<string>, f: Finding)
    requires Standard(A)
    ensures f in Findings(A, table, rules, path, lines, 0) <==> Explained(A, table, rules, path, lines, f)
  {
    FindingsListed(A, table, rules, path, lines, 0, f);
    hide *;
    if f in Findings(A, table, rules, path, lines, 0) {
      var i, h :| 0 <= i < |lines| && Places(A, table, rules, path, lines, 0, f, i, h);
      PlacedIsExplained(A, table, rules, path, lines, f, i, h);
    }
    if Explained(A, table, rules, path, lines, f) {
      var h := ExplainedIsPlaced(A, table, rules, path, lines, f);
    }
  }

  // ---- what is written ----

  /** The gaps with a text between each two of them. */
  function Woven(gaps: seq<string>, texts: seq<string>): string
    requires |gaps| == |texts| + 1
  {
    if texts == [] then gaps[0] else gaps[0] + texts[0] + Woven(gaps[1..], texts[1..])
  }

  function WordsOf(found: seq<Hit>): (r: seq<string>)
    ensures |r| == |found| && forall k :: 0 <= k < |r| ==> r[k] == found[k].word
  {
    seq(|found|, k requires 0 <= k < |found| => found[k].word)
  }

  function ReplacementsOf(found: seq<Hit>): (r: seq<string>)
    ensures |r| == |found| && forall k :: 0 <= k < |r| ==> r[k] == found[k].replacement
  {
    seq(|found|, k requires 0 <= k < |found| => found[k].replacement)
  }

  lemma TextsRest(found: seq<Hit>)
    requires found != []
    ensures WordsOf(found)[1..] == WordsOf(found[1..]) && ReplacementsOf(found)[1..] == ReplacementsOf(found[1..])
  {}

  lemma {:induction false} SpliceWeaves(line: string, found: seq<Hit>, cursor: nat) returns (gaps: seq<string>)
    requires InOrder(found, cursor, |line|)
    requires forall h :: h in found && h.start <= h.end <= |line| ==> h.word == line[h.start..h.end]
    ensures |gaps| == |found| + 1
    ensures line[cursor..] == Woven(gaps, WordsOf(found))
    ensures Splice(line, found, cursor) == Woven(gaps, ReplacementsOf(found))
  {
    if found == [] {
      gaps := [line[cursor..]];
    } else {
      var h := found[0];
      var rest := SpliceWeaves(line, found[1..], h.end);
      gaps := [line[cursor..h.start]] + rest;
      assert gaps[1..] == rest;
      TextsRest(found);
      SliceSplit(line, cursor, h.start, |line|);
      SliceSplit(line, h.start, h.end, |line|);
      assert line[cursor..] == line[cursor..h.start] + (line[h.start..h.end] + line[h.end..]);
    }
  }

  /** A fixed line is the line with every reported word replaced and the text between them as it was. */
  lemma FixedExact(A: Alphabet, table: Table, rules: seq<Rule>, path: string, line: string) returns (gaps: seq<string>)
    ensures var found := Reported(A, table, rules, path, line);
      && |gaps| == |found| + 1
      && line == Woven(gaps, WordsOf(found)) && Fixed(A, table, rules, path, line) == Woven(gaps, ReplacementsOf(found))
  {
    var found := Reported(A, table, rules, path, line);
    FixedIsSpliced(A, table, rules, path, line);
    LineHitsArePieces(A, table, line);
    forall h | h in found ensures h in LineHits(A, table, line) {
      KeptExact(LineHits(A, table, line), ExcusesOf(A, rules, path, line), h);
    }
    hide Reported, LineHits, Fixed, PieceAt;
    gaps := SpliceWeaves(line, found, 0);
    assert line[0..] == line;
  }

  // ---- the paths a rule covers ----

  /** A subtree rule covers the paths below its directory, not a sibling that merely begins alike. */
  lemma SubtreeCovers(directory: string, token: string, path: string)
    ensures Covers(Rule(directory + "/**", token), path)
      <==> path == directory + "/**" || exists rest :: path == directory + "/" + rest
  {
    var pattern := directory + "/**";
    assert pattern[|pattern| - 3..] == "/**" && pattern[..|pattern| - 2] == directory + "/";
    assert |pattern| >= 3 && pattern != "*";
    if Starts(path, directory + "/") {
      assert path == directory + "/" + path[|directory| + 1..];
    }
    if rest :| path == directory + "/" + rest {
      assert path[..|directory| + 1] == directory + "/";
    }
  }

  /** Any other rule covers its own path, or all of them. */
  lemma PathCovers(rule: Rule, path: string)
    requires forall directory :: rule.path != directory + "/**"
    ensures Covers(rule, path) <==> rule.path == "*" || rule.path == path
  {
    var n := |rule.path| - 3;
    if n >= 0 { assert rule.path == rule.path[..n] + rule.path[n..]; }
  }
}
