/** The spelling guard over a file: scanning for words, allow rules, and the in-place rewrite. */
module SpellingScan {
  import opened Orders
  import opened PythonText
  import opened SpellingWords
  import opened Respelling

  // ---- scanning ----

  lemma SegmentsStep(A: Alphabet, line: string, at: nat)
    requires at < |line| && !A.letter(line[at])
    ensures WordsAt(Segments(A, line[at..]), at) == WordsAt(Segments(A, line[at + 1..]), at + 1)
  {
    var rest := line[at..];
    assert rest[0] == line[at] && rest[1..] == line[at + 1..];
    assert Segments(A, rest)[0] == Gap(rest[0]) && Segments(A, rest)[1..] == Segments(A, rest[1..]);
  }

  lemma WordsStep(A: Alphabet, line: string, at: nat, end: nat)
    requires at < end <= |line| && IsWord(A, line[at..end])
    requires end < |line| && A.letter(line[end]) ==> Step(A, line[end - 1], line[end])
    ensures WordsAt(Segments(A, line[at..]), at) == [(at, line[at..end])] + WordsAt(Segments(A, line[end..]), end)
  {
    var rest, n := line[at..], end - at;
    hide IsWord, Step, Segments, WordsAt;
    assert rest[..n] == line[at..end] && rest[n..] == line[end..];
    WordComesFirst(A, rest, n);
    WordsAtWord(line[at..end], Segments(A, line[end..]), at);
  }

  lemma WordsAtWord(text: string, rest: seq<Segment>, at: nat)
    ensures WordsAt([Word(text)] + rest, at) == [(at, text)] + WordsAt(rest, at + |text|)
  {
    assert ([Word(text)] + rest)[1..] == rest;
  }

  /** No step lies strictly between two positions of the run. */
  ghost predicate Unbroken(A: Alphabet, text: string, piece: nat, index: nat) {
    index <= |text| && forall k :: piece < k < index ==> !Step(A, text[k - 1], text[k])
  }

  lemma UnbrokenMore(A: Alphabet, text: string, piece: nat, index: nat)
    requires index < |text| && piece < index && Unbroken(A, text, piece, index)
    ensures Step(A, text[index - 1], text[index]) || Unbroken(A, text, piece, index + 1)
    ensures Unbroken(A, text, index, index + 1)
  {
    hide Step;
  }

  /** One maximal run of letters, split at its lower-to-upper steps. */
  method SplitRun(A: Alphabet, line: string, start: nat, stop: nat) returns (found: seq<(nat, string)>)
    requires start < stop <= |line| && forall k :: start <= k < stop ==> A.letter(line[k])
    requires stop < |line| ==> !A.letter(line[stop])
    ensures WordsAt(Segments(A, line[start..]), start) == found + WordsAt(Segments(A, line[stop..]), stop)
  {
    hide IsWord, Segments, WordsAt, Unbroken;
    var text := line[start..stop];
    var piece := 0;
    found := [];
    assert Unbroken(A, text, 0, 1) by { UnbrokenOne(A, text); }
    for index := 1 to |text|
      invariant 0 <= piece < index && Unbroken(A, text, piece, index)
      invariant WordsAt(Segments(A, line[start..]), start)
        == found + WordsAt(Segments(A, line[start + piece..]), start + piece)
    {
      UnbrokenMore(A, text, piece, index);
      if A.lower(text[index - 1]) && A.upper(text[index]) {
        PieceIsWord(A, line, start, stop, piece, index);
        WordsStep(A, line, start + piece, start + index);
        found := found + [(start + piece, text[piece..index])];
        piece := index;
      }
    }
    PieceIsWord(A, line, start, stop, piece, |text|);
    WordsStep(A, line, start + piece, stop);
    found := found + [(start + piece, text[piece..])];
  }

  lemma UnbrokenOne(A: Alphabet, text: string)
    requires text != ""
    ensures Unbroken(A, text, 0, 1)
  {}

  /** The words of a line with their positions. */
  method Words(A: Alphabet, line: string) returns (found: seq<(nat, string)>)
    ensures found == WordsAt(Segments(A, line), 0)
  {
    hide IsWord, Segments, WordsAt;
    found := [];
    var at := 0;
    assert line[0..] == line;
    while at < |line|
      invariant at <= |line|
      invariant WordsAt(Segments(A, line), 0) == found + WordsAt(Segments(A, line[at..]), at)
    {
      if !A.letter(line[at]) {
        SegmentsStep(A, line, at);
        at := at + 1;
      } else {
        var stop := at + 1;
        while stop < |line| && A.letter(line[stop])
          invariant at < stop <= |line|
          invariant forall k :: at <= k < stop ==> A.letter(line[k])
        {
          stop := stop + 1;
        }
        var pieces := SplitRun(A, line, at, stop);
        found := found + pieces;
        at := stop;
      }
    }
    assert line[at..] == "";
    NoWords(A);
  }

  lemma NoWords(A: Alphabet)
    ensures forall at :: WordsAt(Segments(A, ""), at) == []
  {}

  lemma SliceOfSlice(line: string, at: nat, stop: nat, i: nat, j: nat)
    requires at <= stop <= |line| && i <= j <= stop - at
    ensures line[at..stop][i..j] == line[at + i..at + j]
  {
    var a, b := line[at..stop][i..j], line[at + i..at + j];
    forall k | 0 <= k < j - i ensures a[k] == b[k] {
      assert a[k] == line[at..stop][i + k] == line[at + (i + k)];
    }
  }

  lemma PieceIsWord(A: Alphabet, line: string, at: nat, stop: nat, piece: nat, index: nat)
    requires at <= stop <= |line| && piece < index <= stop - at
    requires forall k :: at <= k < stop ==> A.letter(line[k])
    requires Unbroken(A, line[at..stop], piece, index)
    ensures IsWord(A, line[at + piece..at + index])
    ensures line[at + piece..at + index] == line[at..stop][piece..index]
  {
    var w := line[at + piece..at + index];
    SliceOfSlice(line, at, stop, piece, index);
    forall i | 0 < i < |w| ensures !Step(A, w[i - 1], w[i]) {
      assert !Step(A, line[at..stop][piece + i - 1], line[at..stop][piece + i]);
    }
  }

  function HitsOfWords(A: Alphabet, table: Table, found: seq<(nat, string)>): seq<Hit>
  {
    if found == [] then [] else HitsIn(A, table, found[0].0, found[0].1) + HitsOfWords(A, table, found[1..])
  }

  lemma HitsOfFirst(A: Alphabet, table: Table, w: (nat, string), rest: seq<(nat, string)>)
    ensures HitsOfWords(A, table, [w] + rest) == HitsIn(A, table, w.0, w.1) + HitsOfWords(A, table, rest)
  {
    hide HitsIn;
    assert ([w] + rest)[1..] == rest;
  }

  lemma {:induction false} HitsOfWordsAt(A: Alphabet, table: Table, segs: seq<Segment>, at: nat)
    ensures HitsOfWords(A, table, WordsAt(segs, at)) == HitsAt(A, table, segs, at)
    decreases |segs|
  {
    hide HitsOfWords, HitsIn;
    NoHits(A, table);
    if segs != [] {
      var s, next := segs[0], at + |Text(segs[0])|;
      var later := WordsAt(segs[1..], next);
      HitsOfWordsAt(A, table, segs[1..], next);
      if s.Word? {
        HitsOfFirst(A, table, (at, s.text), later);
      } else {
        assert WordsAt(segs, at) == [] + later == later;
      }
    }
  }

  lemma {:induction false} HitsOfWordsAppend(A: Alphabet, table: Table, a: seq<(nat, string)>, w: (nat, string))
    ensures HitsOfWords(A, table, a + [w]) == HitsOfWords(A, table, a) + HitsIn(A, table, w.0, w.1)
    decreases |a|
  {
    hide HitsOfWords, HitsIn;
    NoHits(A, table);
    if a == [] {
      assert a + [w] == [w] + [];
      HitsOfFirst(A, table, w, []);
    } else {
      assert a + [w] == [a[0]] + (a[1..] + [w]) && a == [a[0]] + a[1..];
      HitsOfWordsAppend(A, table, a[1..], w);
      HitsOfFirst(A, table, a[0], a[1..] + [w]);
      HitsOfFirst(A, table, a[0], a[1..]);
    }
  }

  lemma NoHits(A: Alphabet, table: Table)
    ensures HitsOfWords(A, table, []) == []
  {}

  method Hits(A: Alphabet, table: Table, line: string) returns (found: seq<Hit>)
    ensures found == LineHits(A, table, line)
  {
    hide Respell, WordsAt, Segments, HitsOfWords, HitsAt;
    found := [];
    var all := Words(A, line);
    assert all[..0] == [] && HitsOfWords(A, table, []) == [] by { NoHits(A, table); }
    for k := 0 to |all|
      invariant found == HitsOfWords(A, table, all[..k])
    {
      var start, word := all[k].0, all[k].1;
      var replacement := Respell(A, table, word);
      if replacement.Some? {
        found := found + [Hit(start, start + |word|, word, replacement.value)];
      }
      HitsOfWordsAppend(A, table, all[..k], all[k]);
      assert all[..k + 1] == all[..k] + [all[k]];
    }
    assert all[..|all|] == all;
    HitsOfWordsAt(A, table, Segments(A, line), 0);
  }

  // ---- allow rules ----

  /** A documented exception. */
  datatype Rule = Rule(path: string, token: string)

  predicate Covers(rule: Rule, path: string) {
    || rule.path == "*" || rule.path == path
    || (|rule.path| >= 3 && rule.path[|rule.path| - 3..] == "/**" && Starts(path, rule.path[..|rule.path| - 2]))
  }

  predicate Occurs(token: string, line: string, p: nat) {
    p + |token| <= |line| && line[p..p + |token|] == token
  }

  ghost predicate Excused(A: Alphabet, rules: seq<Rule>, path: string, line: string, start: nat, end: nat) {
    exists r :: r in rules && Matches(A, r, path, line, start, end)
  }

  /** The rule names the hit itself in any case, or a phrase of the line that encloses it. */
  ghost predicate Matches(A: Alphabet, rule: Rule, path: string, line: string, start: nat, end: nat) {
    && Covers(rule, path) && start <= end <= |line|
    && (|| rule.token == "*" || A.lowered(rule.token) == A.lowered(line[start..end])
        || exists p :: Encloses(rule.token, line, p, start, end))
  }

  predicate Encloses(token: string, line: string, p: nat, start: nat, end: nat) {
    Occurs(token, line, p) && p <= start && end <= p + |token|
  }

  /** The first occurrence from a position on. */
  method Find(line: string, token: string, from: nat) returns (p: Option<nat>)
    ensures p.None? ==> forall q: nat :: from <= q ==> !Occurs(token, line, q)
    ensures p.Some? ==> from <= p.value && Occurs(token, line, p.value)
    ensures p.Some? ==> forall q: nat :: from <= q < p.value ==> !Occurs(token, line, q)
  {
    var q := from;
    while q + |token| <= |line|
      invariant from <= q && forall k: nat :: from <= k < q ==> !Occurs(token, line, k)
    {
      if line[q..q + |token|] == token { return Some(q); }
      q := q + 1;
    }
    p := None;
  }

  method RuleMatches(A: Alphabet, rule: Rule, path: string, line: string, start: nat, end: nat) returns (yes: bool)
    requires start <= end <= |line|
    ensures yes <==> Matches(A, rule, path, line, start, end)
  {
    if !Covers(rule, path) { return false; }
    if rule.token == "*" || A.lowered(rule.token) == A.lowered(line[start..end]) { return true; }
    var position := Find(line, rule.token, 0);
    while position.Some?
      invariant position.Some? ==> Occurs(rule.token, line, position.value)
      invariant forall q: nat :: (position.Some? ==> q < position.value) ==> !Encloses(rule.token, line, q, start, end)
      decreases if position.Some? then |line| + 1 - position.value else 0
    {
      if position.value <= start && end <= position.value + |rule.token| {
        assert Encloses(rule.token, line, position.value, start, end);
        return true;
      }
      position := Find(line, rule.token, position.value + 1);
    }
    yes := false;
  }

  ghost function ExcusesOf(A: Alphabet, rules: seq<Rule>, path: string, line: string): Excuses {
    (start: nat, end: nat) => Excused(A, rules, path, line, start, end)
  }

  /** The hits of a line that no rule excuses. */
  ghost function Reported(A: Alphabet, table: Table, rules: seq<Rule>, path: string, line: string): seq<Hit>
  {
    Kept(LineHits(A, table, line), ExcusesOf(A, rules, path, line))
  }

  method AnyMatches(A: Alphabet, rules: seq<Rule>, path: string, line: string, start: nat, end: nat) returns (yes: bool)
    requires start <= end <= |line|
    ensures yes <==> Excused(A, rules, path, line, start, end)
  {
    hide Matches;
    for k := 0 to |rules|
      invariant forall i :: 0 <= i < k ==> !Matches(A, rules[i], path, line, start, end)
    {
      var one := RuleMatches(A, rules[k], path, line, start, end);
      if one { return true; }
    }
    yes := false;
  }

  method ReportedHits(A: Alphabet, table: Table, rules: seq<Rule>, path: string, line: string)
    returns (found: seq<Hit>)
    ensures found == Reported(A, table, rules, path, line)
  {
    hide Excused, Kept, LineHits, ExcusesOf;
    var all := Hits(A, table, line);
    ghost var excused := ExcusesOf(A, rules, path, line);
    HitsInside(A, table, line);
    found := [];
    KeptPrefix(all, 0, excused);
    for k := 0 to |all|
      invariant found == Kept(all[..k], excused)
    {
      KeptPrefix(all, k, excused);
      ExcusesAt(A, rules, path, line, all[k]);
      assert all[k] in all;
      var skip := AnyMatches(A, rules, path, line, all[k].start, all[k].end);
      if !skip { found := found + [all[k]]; }
    }
    assert all[..|all|] == all;
  }

  lemma ExcusesAt(A: Alphabet, rules: seq<Rule>, path: string, line: string, h: Hit)
    ensures ExcusesOf(A, rules, path, line)(h.start, h.end) <==> Excused(A, rules, path, line, h.start, h.end)
  {
    hide Excused;
  }

  lemma KeptPrefix(all: seq<Hit>, k: nat, excused: Excuses)
    requires k <= |all|
    ensures Kept(all[..0], excused) == []
    ensures var more := if k == |all| || excused(all[k].start, all[k].end) then [] else [all[k]];
      k < |all| ==> Kept(all[..k + 1], excused) == Kept(all[..k], excused) + more
  {
    if k < |all| {
      KeptAppend(all[..k], [all[k]], excused);
      assert all[..k + 1] == all[..k] + [all[k]];
    }
  }

  lemma HitsInside(A: Alphabet, table: Table, line: string)
    ensures forall h :: h in LineHits(A, table, line) ==> h.start <= h.end <= |line|
  {
    SegmentsCanonical(A, line);
    HitsInsideAt(A, table, Segments(A, line), 0);
  }

  lemma {:induction false} HitsInsideAt(A: Alphabet, table: Table, segs: seq<Segment>, at: nat)
    ensures forall h :: h in HitsAt(A, table, segs, at) ==> h.start <= h.end <= at + |Join(segs)|
    decreases |segs|
  {
    hide Respell;
    if segs != [] {
      HitsInsideAt(A, table, segs[1..], at + |Text(segs[0])|);
    }
  }

  // ---- rewriting a file ----

  /** Copy the text between hits and append each replacement. */
  method FixLine(line: string, found: seq<Hit>) returns (fixed: string)
    requires InOrder(found, 0, |line|)
    ensures fixed == Splice(line, found, 0)
  {
    var pieces: string, cursor: nat := "", 0;
    for k := 0 to |found|
      invariant InOrder(found[k..], cursor, |line|)
      invariant pieces + Splice(line, found[k..], cursor) == Splice(line, found, 0)
    {
      assert found[k..][0] == found[k] && found[k..][1..] == found[k + 1..];
      pieces := pieces + line[cursor..found[k].start] + found[k].replacement;
      cursor := found[k].end;
    }
    fixed := pieces + line[cursor..];
  }

  datatype Finding = Finding(number: nat, word: string, replacement: string)

  function FindingsOf(number: nat, found: seq<Hit>): (findings: seq<Finding>)
    ensures |findings| == |found|
  {
    seq(|found|, k requires 0 <= k < |found| => Finding(number, found[k].word, found[k].replacement))
  }

  /** The findings of the lines, the first of which has number `at + 1`. */
  ghost function Findings(A: Alphabet, table: Table, rules: seq<Rule>, path: string, lines: seq<string>, at: nat)
    : seq<Finding>
  {
    if lines == [] then []
    else FindingsOf(at + 1, Reported(A, table, rules, path, lines[0]))
         + Findings(A, table, rules, path, lines[1..], at + 1)
  }

  ghost function Fixed(A: Alphabet, table: Table, rules: seq<Rule>, path: string, line: string): string
  {
    FixedLine(A, table, line, ExcusesOf(A, rules, path, line))
  }

  ghost function FixedLines(A: Alphabet, table: Table, rules: seq<Rule>, path: string, lines: seq<string>)
    : (fixed: seq<string>)
    ensures |fixed| == |lines| && forall i :: 0 <= i < |lines| ==> fixed[i] == Fixed(A, table, rules, path, lines[i])
  {
    seq(|lines|, i requires 0 <= i < |lines| => Fixed(A, table, rules, path, lines[i]))
  }

  lemma FixedIsSpliced(A: Alphabet, table: Table, rules: seq<Rule>, path: string, line: string)
    ensures InOrder(Reported(A, table, rules, path, line), 0, |line|)
    ensures Splice(line, Reported(A, table, rules, path, line), 0) == Fixed(A, table, rules, path, line)
    ensures Reported(A, table, rules, path, line) == [] ==> Fixed(A, table, rules, path, line) == line
  {
    FixedLineIsSpliced(A, table, line, ExcusesOf(A, rules, path, line));
  }

  lemma {:induction false} FindingsAppend(
      A: Alphabet, table: Table, rules: seq<Rule>, path: string, lines: seq<string>, line: string, at: nat)
    ensures Findings(A, table, rules, path, lines + [line], at)
      == Findings(A, table, rules, path, lines, at)
         + FindingsOf(at + |lines| + 1, Reported(A, table, rules, path, line))
    decreases |lines|
  {
    hide Reported, FindingsOf;
    if lines == [] {
      assert lines + [line] == [line];
    } else {
      assert (lines + [line])[1..] == lines[1..] + [line];
      FindingsAppend(A, table, rules, path, lines[1..], line, at + 1);
    }
  }

  /** A rule with the token `*` takes its files out of the scan altogether. */
  predicate SkipsFile(rules: seq<Rule>, path: string) {
    exists r :: r in rules && Covers(r, path) && r.token == "*"
  }

  /** Report the spellings no rule excuses and, when fixing, replace exactly those in place. */
  method ScanFile(A: Alphabet, table: Table, rules: seq<Rule>, path: string, lines: array<string>, fix: bool)
    returns (findings: seq<Finding>, changed: nat)
    modifies lines
    ensures findings == if SkipsFile(rules, path) then [] else Findings(A, table, rules, path, old(lines[..]), 0)
    ensures lines[..] == if fix && !SkipsFile(rules, path)
                         then FixedLines(A, table, rules, path, old(lines[..])) else old(lines[..])
    ensures changed == if fix then |findings| else 0
  {
    hide Reported, Fixed, FixedLines, SkipsFile, InOrder, Splice, Findings, FindingsOf, Halfway;
    findings, changed := [], 0;
    ghost var was := lines[..];
    var skip := Skip(rules, path);
    if skip { return; }
    NothingScanned(A, table, rules, path, was, fix);
    for index := 0 to lines.Length
      invariant findings == Findings(A, table, rules, path, was[..index], 0)
      invariant changed == if fix then |findings| else 0
      invariant lines[..] == Halfway(A, table, rules, path, was, index, fix)
    {
      HalfwayStep(A, table, rules, path, was, index, fix);
      var line := lines[index];
      assert line == lines[..][index];
      var found := ReportedHits(A, table, rules, path, line);
      findings := findings + FindingsOf(index + 1, found);
      if found != [] && fix {
        lines[index] := FixLine(line, found);
        changed := changed + |found|;
      }
    }
    HalfwayDone(A, table, rules, path, was, fix);
  }

  /** The lines when the first `n` are scanned. */
  ghost function Halfway(
      A: Alphabet, table: Table, rules: seq<Rule>, path: string, was: seq<string>, n: nat, fix: bool)
    : (now: seq<string>)
    requires n <= |was|
    ensures |now| == |was|
  {
    if fix then FixedLines(A, table, rules, path, was)[..n] + was[n..] else was
  }

  lemma HalfwayStep(A: Alphabet, table: Table, rules: seq<Rule>, path: string, was: seq<string>, n: nat, fix: bool)
    requires n < |was|
    ensures Halfway(A, table, rules, path, was, n, fix)[n] == was[n]
    ensures Halfway(A, table, rules, path, was, n + 1, fix)
      == if fix then Halfway(A, table, rules, path, was, n, fix)[n := Fixed(A, table, rules, path, was[n])] else was
    ensures !fix ==> Halfway(A, table, rules, path, was, n, fix) == was
    ensures Reported(A, table, rules, path, was[n]) == [] ==> Fixed(A, table, rules, path, was[n]) == was[n]
    ensures InOrder(Reported(A, table, rules, path, was[n]), 0, |was[n]|)
    ensures Splice(was[n], Reported(A, table, rules, path, was[n]), 0) == Fixed(A, table, rules, path, was[n])
    ensures Findings(A, table, rules, path, was[..n + 1], 0)
      == Findings(A, table, rules, path, was[..n], 0) + FindingsOf(n + 1, Reported(A, table, rules, path, was[n]))
  {
    hide Reported, Fixed, InOrder, Splice, Findings, FindingsOf;
    FixedIsSpliced(A, table, rules, path, was[n]);
    FindingsAppend(A, table, rules, path, was[..n], was[n], 0);
    assert was[..n + 1] == was[..n] + [was[n]];
    if fix {
      var fixed := FixedLines(A, table, rules, path, was);
      assert fixed[..n + 1] + was[n + 1..] == (fixed[..n] + was[n..])[n := fixed[n]];
    }
  }

  lemma HalfwayDone(A: Alphabet, table: Table, rules: seq<Rule>, path: string, was: seq<string>, fix: bool)
    ensures Halfway(A, table, rules, path, was, |was|, fix) == if fix then FixedLines(A, table, rules, path, was) else was
    ensures was[..|was|] == was
  {
    hide Fixed;
  }

  lemma NothingScanned(A: Alphabet, table: Table, rules: seq<Rule>, path: string, was: seq<string>, fix: bool)
    ensures Findings(A, table, rules, path, was[..0], 0) == [] && Halfway(A, table, rules, path, was, 0, fix) == was
  {
    hide Fixed;
  }

  method Skip(rules: seq<Rule>, path: string) returns (yes: bool)
    ensures yes <==> SkipsFile(rules, path)
  {
    for k := 0 to |rules|
      invariant forall i :: 0 <= i < k ==> !(Covers(rules[i], path) && rules[i].token == "*")
    {
      if Covers(rules[k], path) && rules[k].token == "*" { return true; }
    }
    yes := false;
  }

  lemma {:induction false} NoFindingsIff(
      A: Alphabet, table: Table, rules: seq<Rule>, path: string, lines: seq<string>, at: nat)
    ensures Findings(A, table, rules, path, lines, at) == []
      <==> forall i :: 0 <= i < |lines| ==> Reported(A, table, rules, path, lines[i]) == []
    decreases |lines|
  {
    hide Reported;
    if lines != [] {
      NoFindingsIff(A, table, rules, path, lines[1..], at + 1);
      assert forall i :: 0 < i < |lines| ==> lines[i] == lines[1..][i - 1];
      assert lines[0] == lines[0];
    }
  }

  lemma WithoutRules(A: Alphabet, table: Table, path: string, line: string)
    ensures Reported(A, table, [], path, line) == LineHits(A, table, line)
  {
    KeptAll(LineHits(A, table, line), ExcusesOf(A, [], path, line));
  }

  lemma {:induction false} KeptAll(found: seq<Hit>, excused: Excuses)
    requires forall s, e :: !excused(s, e)
    ensures Kept(found, excused) == found
  {
    if found != [] { KeptAll(found[1..], excused); }
  }

  /**
    * Without allow rules, the audit of a rewritten file passes exactly when no replacement used in it is a key of the
    * table, and then rewriting it again changes nothing.
    */
  lemma AuditAfterFixIff(A: Alphabet, table: Table, path: string, lines: seq<string>)
    requires Standard(A)
    ensures var fixed := FixedLines(A, table, [], path, lines);
      Findings(A, table, [], path, fixed, 0) == []
      <==> forall i, h :: 0 <= i < |lines| && h in LineHits(A, table, lines[i]) ==> A.lowered(h.replacement) !in table
    ensures var fixed := FixedLines(A, table, [], path, lines);
      Findings(A, table, [], path, fixed, 0) == [] ==> FixedLines(A, table, [], path, fixed) == fixed
  {
    hide Standard, Reported, LineHits, Fixed;
    var fixed := FixedLines(A, table, [], path, lines);
    NoFindingsIff(A, table, [], path, fixed, 0);
    forall i | 0 <= i < |lines|
      ensures Reported(A, table, [], path, fixed[i]) == []
        <==> forall h :: h in LineHits(A, table, lines[i]) ==> A.lowered(h.replacement) !in table
      ensures Reported(A, table, [], path, fixed[i]) == [] ==> Fixed(A, table, [], path, fixed[i]) == fixed[i]
    {
      LineAfterFix(A, table, path, lines[i]);
      WithoutRules(A, table, path, fixed[i]);
      FixedIsSpliced(A, table, [], path, fixed[i]);
    }
  }

  lemma LineAfterFix(A: Alphabet, table: Table, path: string, line: string)
    requires Standard(A)
    ensures LineHits(A, table, Fixed(A, table, [], path, line)) == []
      <==> forall h :: h in LineHits(A, table, line) ==> A.lowered(h.replacement) !in table
  {
    hide Standard, LineHits;
    NoHitsLeftIff(A, table, line, ExcusesOf(A, [], path, line));
    assert forall h :: h in LineHits(A, table, line) ==>
      (Settled(A, table, h, ExcusesOf(A, [], path, line)) <==> A.lowered(h.replacement) !in table);
  }
}
