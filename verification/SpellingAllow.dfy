/**
 The audit of a rewritten file under allow rules that name whole words, so that no rule can straddle a replaced word.
 */
module SpellingAllow {
  import opened Orders
  import opened PythonText
  import opened SpellingWords
  import opened Respelling
  import opened SpellingScan

  /** Every rule that covers the path is `*` or names one word, so that no phrase can straddle a replaced word. */
  ghost predicate WordRules(A: Alphabet, rules: seq<Rule>, path: string) {
    forall r :: r in rules && Covers(r, path) ==> r.token == "*" || IsWord(A, r.token)
  }

  /** A rule that covers the path names the word in any case. */
  predicate Allowed(A: Alphabet, rules: seq<Rule>, path: string, w: string) {
    exists r :: r in rules && Covers(r, path) && (r.token == "*" || A.lowered(r.token) == A.lowered(w))
  }

  // ---- a word rule sees nothing but the word ----

  /** The slice is one word of the line, divided from its neighbours. */
  ghost predicate PieceAt(A: Alphabet, line: string, start: nat, end: nat) {
    && start < end <= |line| && IsWord(A, line[start..end])
    && (start > 0 && A.letter(line[start - 1]) ==> Step(A, line[start - 1], line[start]))
    && (end < |line| && A.letter(line[end]) ==> Step(A, line[end - 1], line[end]))
  }

  /** Two letters of a word that stand next to each other are no step. */
  lemma InsideWord(A: Alphabet, line: string, p: nat, n: nat, k: nat)
    requires p + n <= |line| && IsWord(A, line[p..p + n]) && p < k < p + n
    ensures A.letter(line[k - 1]) && A.letter(line[k]) && !Step(A, line[k - 1], line[k])
  {
    var w := line[p..p + n];
    assert w[k - p - 1] == line[k - 1] && w[k - p] == line[k];
    assert w[k - p - 1] in w && w[k - p] in w && !Step(A, w[k - p - 1], w[k - p]);
  }

  /** A word that occurs around a word of the line is that word. */
  lemma EnclosingWordIsWhole(A: Alphabet, line: string, start: nat, end: nat, token: string, p: nat)
    requires PieceAt(A, line, start, end) && IsWord(A, token) && Encloses(token, line, p, start, end)
    ensures token == line[start..end]
  {
    hide IsWord, Step;
    if p < start { InsideWord(A, line, p, |token|, start); }
    if end < p + |token| { InsideWord(A, line, p, |token|, end); }
  }

  lemma WordRuleMatches(A: Alphabet, rule: Rule, path: string, line: string, start: nat, end: nat)
    requires PieceAt(A, line, start, end) && (Covers(rule, path) ==> rule.token == "*" || IsWord(A, rule.token))
    ensures Matches(A, rule, path, line, start, end)
      <==> Covers(rule, path) && (rule.token == "*" || A.lowered(rule.token) == A.lowered(line[start..end]))
  {
    hide IsWord, Step, Covers;
    forall p | Covers(rule, path) && rule.token != "*" && Encloses(rule.token, line, p, start, end)
      ensures rule.token == line[start..end]
    {
      EnclosingWordIsWhole(A, line, start, end, rule.token, p);
    }
  }

  lemma ExcusedIsAllowed(A: Alphabet, rules: seq<Rule>, path: string, line: string, start: nat, end: nat)
    requires WordRules(A, rules, path) && PieceAt(A, line, start, end)
    ensures Excused(A, rules, path, line, start, end) <==> Allowed(A, rules, path, line[start..end])
  {
    hide IsWord, Step, Covers, Matches;
    forall r | r in rules
      ensures Matches(A, r, path, line, start, end)
        <==> Covers(r, path) && (r.token == "*" || A.lowered(r.token) == A.lowered(line[start..end]))
    {
      WordRuleMatches(A, r, path, line, start, end);
    }
  }

  // ---- hits are words of the line ----

  lemma {:induction false} HitsArePieces(A: Alphabet, table: Table, line: string, segs: seq<Segment>, at: nat)
    requires Canonical(A, segs) && at <= |line| && line[at..] == Join(segs)
    requires at > 0 && segs != [] && segs[0].Word? && A.letter(line[at - 1]) ==> Step(A, line[at - 1], line[at])
    ensures forall h :: h in HitsAt(A, table, segs, at) ==>
      PieceAt(A, line, h.start, h.end) && line[h.start..h.end] == h.word
    decreases |segs|
  {
    hide IsWord, Step, PieceAt, HitOf, Canonical;
    if segs != [] {
      JoinDrop(line, segs, at);
      var next := at + |Text(segs[0])|;
      CanonicalTail(A, segs);
      SegmentEnds(A, line, segs, at);
      HitsArePieces(A, table, line, segs[1..], next);
      OneHitIsPiece(A, table, line, segs[0], at);
    }
  }

  lemma OneHitIsPiece(A: Alphabet, table: Table, line: string, s: Segment, at: nat)
    requires at + |Text(s)| <= |line| && line[at..at + |Text(s)|] == Text(s)
    requires s.Word? ==> PieceAt(A, line, at, at + |Text(s)|)
    ensures forall h :: h in HitOf(A, table, s, at) ==>
      PieceAt(A, line, h.start, h.end) && line[h.start..h.end] == h.word
  {
    hide Respell, PieceAt;
  }

  lemma CanonicalTail(A: Alphabet, segs: seq<Segment>)
    requires segs != [] && Canonical(A, segs)
    ensures Canonical(A, segs[1..])
  {
    hide Fits, Divided;
    forall i | 0 < i < |segs[1..]| ensures Divided(A, segs[1..][i - 1], segs[1..][i]) {
      assert Divided(A, segs[i + 1 - 1], segs[i + 1]);
    }
  }

  /** The first segment, when a word, is a word of the line, and the next segment is divided from it. */
  lemma SegmentEnds(A: Alphabet, line: string, segs: seq<Segment>, at: nat)
    requires Canonical(A, segs) && segs != [] && at <= |line| && line[at..] == Join(segs)
    requires at > 0 && segs[0].Word? && A.letter(line[at - 1]) ==> Step(A, line[at - 1], line[at])
    ensures var next := at + |Text(segs[0])|;
      && next <= |line| && line[at..next] == Text(segs[0])
      && (segs[0].Word? ==> PieceAt(A, line, at, next))
      && (|segs| > 1 && segs[1].Word? && next > 0 && A.letter(line[next - 1]) ==>
            next < |line| && Step(A, line[next - 1], line[next]))
  {
    JoinDrop(line, segs, at);
    var next := at + |Text(segs[0])|;
    assert Fits(A, segs[0]);
    if |segs| > 1 {
      assert Fits(A, segs[1]) && Divided(A, segs[1 - 1], segs[1]);
      NextStarts(line, segs[1..], next);
    } else {
      assert line[next..] == "";
    }
    if segs[0].Word? { assert line[next - 1] == segs[0].text[|segs[0].text| - 1]; }
  }

  lemma NextStarts(line: string, segs: seq<Segment>, at: nat)
    requires segs != [] && at <= |line| && line[at..] == Join(segs)
    ensures Text(segs[0]) != "" ==> at < |line| && line[at] == Text(segs[0])[0]
  {
    JoinDrop(line, segs, at);
    if Text(segs[0]) != "" { assert line[at] == line[at..at + |Text(segs[0])|][0]; }
  }

  lemma LineHitsArePieces(A: Alphabet, table: Table, line: string)
    ensures forall h :: h in LineHits(A, table, line) ==>
      PieceAt(A, line, h.start, h.end) && line[h.start..h.end] == h.word
  {
    SegmentsCanonical(A, line);
    assert line[0..] == line;
    HitsArePieces(A, table, line, Segments(A, line), 0);
  }

  /** Under word rules a hit is excused exactly when its word is allowed. */
  lemma HitExcusedIff(A: Alphabet, table: Table, rules: seq<Rule>, path: string, line: string)
    requires WordRules(A, rules, path)
    ensures forall h :: h in LineHits(A, table, line) ==>
      (ExcusesOf(A, rules, path, line)(h.start, h.end) <==> Allowed(A, rules, path, h.word))
  {
    hide Excused, Allowed, WordRules, PieceAt, LineHits;
    LineHitsArePieces(A, table, line);
    forall h | h in LineHits(A, table, line)
      ensures ExcusesOf(A, rules, path, line)(h.start, h.end) <==> Allowed(A, rules, path, h.word)
    {
      ExcusedIsAllowed(A, rules, path, line, h.start, h.end);
      ExcusesAt(A, rules, path, line, h);
    }
  }

  // ---- what is left to report ----

  /** The word is allowed, or its replacement is no key of the table, or the replacement is allowed. */
  predicate Resolved(A: Alphabet, table: Table, h: Hit, allowed: string -> bool) {
    allowed(h.word) || A.lowered(h.replacement) !in table || allowed(h.replacement)
  }

  ghost predicate AllResolved(A: Alphabet, table: Table, found: seq<Hit>, allowed: string -> bool) {
    forall h :: h in found ==> Resolved(A, table, h, allowed)
  }

  /** The excuses go by the word alone. */
  ghost predicate ByWord(found: seq<Hit>, excused: Excuses, allowed: string -> bool) {
    forall h :: h in found ==> (excused(h.start, h.end) <==> allowed(h.word))
  }

  lemma ResolvedAppend(A: Alphabet, table: Table, a: seq<Hit>, b: seq<Hit>, allowed: string -> bool)
    ensures AllResolved(A, table, a + b, allowed) <==> AllResolved(A, table, a, allowed) && AllResolved(A, table, b, allowed)
  {
    hide Resolved;
    assert forall h :: h in a || h in b <==> h in a + b;
  }

  lemma ByWordAppend(a: seq<Hit>, b: seq<Hit>, excused: Excuses, allowed: string -> bool)
    requires ByWord(a + b, excused, allowed)
    ensures ByWord(a, excused, allowed) && ByWord(b, excused, allowed)
  {
    assert forall h :: h in a || h in b <==> h in a + b;
  }

  lemma {:induction false} KeptLeft(A: Alphabet, table: Table, segs: seq<Segment>, at: nat, to: nat, excused: Excuses,
                                    later: Excuses, allowed: string -> bool)
    requires Standard(A) && ByWord(HitsAt(A, table, segs, at), excused, allowed)
    requires ByWord(HitsAt(A, table, Rewritten(A, table, segs, at, excused), to), later, allowed)
    ensures Kept(HitsAt(A, table, Rewritten(A, table, segs, at, excused), to), later) == []
      <==> AllResolved(A, table, HitsAt(A, table, segs, at), allowed)
    decreases |segs|
  {
    hide Standard, ByWord, AllResolved, HitOf, NewSegment, HitsAt, Rewritten, Kept;
    HitsStep(A, table, segs, at, to, excused);
    if segs == [] {
      NothingKept(A, table, later, allowed);
    } else {
      var s, rest, t := segs[0], segs[1..], NewSegment(A, table, segs[0], at, excused);
      var next, toNext := at + |Text(s)|, to + |Text(t)|;
      var news := HitsAt(A, table, Rewritten(A, table, rest, next, excused), toNext);
      ByWordAppend(HitOf(A, table, s, at), HitsAt(A, table, rest, next), excused, allowed);
      ByWordAppend(HitOf(A, table, t, to), news, later, allowed);
      KeptLeft(A, table, rest, next, toNext, excused, later, allowed);
      OneKept(A, table, s, at, to, excused, later, allowed);
      KeptAppend(HitOf(A, table, t, to), news, later);
      ResolvedAppend(A, table, HitOf(A, table, s, at), HitsAt(A, table, rest, next), allowed);
    }
  }

  lemma NothingKept(A: Alphabet, table: Table, excused: Excuses, allowed: string -> bool)
    ensures Kept([], excused) == [] && AllResolved(A, table, [], allowed)
  {}

  lemma OneKept(A: Alphabet, table: Table, s: Segment, at: nat, to: nat, excused: Excuses, later: Excuses,
                allowed: string -> bool)
    requires Standard(A) && ByWord(HitOf(A, table, s, at), excused, allowed)
    requires ByWord(HitOf(A, table, NewSegment(A, table, s, at, excused), to), later, allowed)
    ensures Kept(HitOf(A, table, NewSegment(A, table, s, at, excused), to), later) == []
      <==> AllResolved(A, table, HitOf(A, table, s, at), allowed)
  {
    hide Standard;
    if s.Word? && Respell(A, table, s.text).Some? {
      RespellingIsAWord(A, table, s.text);
      var r := Respell(A, table, s.text).value;
      var h := Hit(at, at + |s.text|, s.text, r);
      assert HitOf(A, table, s, at) == [h] && h in [h];
      if excused(at, at + |s.text|) {
        var g := Hit(to, to + |s.text|, s.text, r);
        assert HitOf(A, table, s, to) == [g] && g in [g];
      } else if A.lowered(r) in table {
        var g := Hit(to, to + |r|, r, Respell(A, table, r).value);
        assert HitOf(A, table, Word(r), to) == [g] && g in [g];
      }
    }
  }

  lemma LineLeft(A: Alphabet, table: Table, rules: seq<Rule>, path: string, line: string)
    requires Standard(A) && WordRules(A, rules, path)
    ensures Reported(A, table, rules, path, Fixed(A, table, rules, path, line)) == []
      <==> AllResolved(A, table, LineHits(A, table, line), w => Allowed(A, rules, path, w))
  {
    hide Standard, WordRules, Kept, Allowed, ExcusesOf, AllResolved;
    var allowed, excused := w => Allowed(A, rules, path, w), ExcusesOf(A, rules, path, line);
    var fixed := Fixed(A, table, rules, path, line);
    HitExcusedIff(A, table, rules, path, line);
    HitExcusedIff(A, table, rules, path, fixed);
    RewriteKeepsBoundaries(A, table, line, excused);
    KeptLeft(A, table, Segments(A, line), 0, 0, excused, ExcusesOf(A, rules, path, fixed), allowed);
  }

  /**
    * Under word rules the audit of a rewritten file passes exactly when every spelling in the original is allowed, or has
    * a replacement that is no key of the table, or one that is allowed; and then rewriting again changes nothing.
    */
  lemma AuditUnderWordRulesIff(A: Alphabet, table: Table, rules: seq<Rule>, path: string, lines: seq<string>)
    requires Standard(A) && WordRules(A, rules, path)
    ensures var fixed := FixedLines(A, table, rules, path, lines);
      Findings(A, table, rules, path, fixed, 0) == []
      <==> forall i :: 0 <= i < |lines| ==>
             AllResolved(A, table, LineHits(A, table, lines[i]), w => Allowed(A, rules, path, w))
    ensures var fixed := FixedLines(A, table, rules, path, lines);
      Findings(A, table, rules, path, fixed, 0) == [] ==> FixedLines(A, table, rules, path, fixed) == fixed
  {
    hide Standard, WordRules, Reported, LineHits, Fixed, AllResolved, Allowed;
    var fixed := FixedLines(A, table, rules, path, lines);
    NoFindingsIff(A, table, rules, path, fixed, 0);
    forall i | 0 <= i < |lines|
      ensures Reported(A, table, rules, path, fixed[i]) == []
        <==> AllResolved(A, table, LineHits(A, table, lines[i]), w => Allowed(A, rules, path, w))
      ensures Reported(A, table, rules, path, fixed[i]) == [] ==> Fixed(A, table, rules, path, fixed[i]) == fixed[i]
    {
      LineLeft(A, table, rules, path, lines[i]);
      FixedIsSpliced(A, table, rules, path, fixed[i]);
    }
  }
}
