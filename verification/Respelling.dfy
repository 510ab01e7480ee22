/**
 The hits of a line and the rewritten line: the boundaries it keeps, the hits that remain in it, and splicing by position.
 */
module Respelling {
  import opened Orders
  import opened SpellingWords

  // ---- words and hits ----

  function WordsAt(segs: seq<Segment>, at: nat): seq<(nat, string)> {
    if segs == [] then []
    else (if segs[0].Word? then [(at, segs[0].text)] else []) + WordsAt(segs[1..], at + |Text(segs[0])|)
  }

  datatype Hit = Hit(start: nat, end: nat, word: string, replacement: string)

  function HitOf(A: Alphabet, table: Table, s: Segment, at: nat): seq<Hit>
  {
    if s.Word? then HitsIn(A, table, at, s.text) else []
  }

  function HitsIn(A: Alphabet, table: Table, at: nat, w: string): seq<Hit>
  {
    match Respell(A, table, w)
    case None => []
    case Some(r) => [Hit(at, at + |w|, w, r)]
  }

  function HitsAt(A: Alphabet, table: Table, segs: seq<Segment>, at: nat): seq<Hit>
  {
    if segs == [] then []
    else HitOf(A, table, segs[0], at) + HitsAt(A, table, segs[1..], at + |Text(segs[0])|)
  }

  function LineHits(A: Alphabet, table: Table, line: string): seq<Hit>
  {
    HitsAt(A, table, Segments(A, line), 0)
  }

  /** Whether an allow rule excuses the hit between two positions of the line. */
  type Excuses = (nat, nat) -> bool

  function Kept(found: seq<Hit>, excused: Excuses): seq<Hit> {
    if found == [] then []
    else (if excused(found[0].start, found[0].end) then [] else [found[0]]) + Kept(found[1..], excused)
  }

  // ---- the rewritten line ----

  function NewSegment(A: Alphabet, table: Table, s: Segment, at: nat, excused: Excuses): Segment
  {
    if s.Gap? then s
    else match Respell(A, table, s.text)
      case None => s
      case Some(r) => if excused(at, at + |s.text|) then s else Word(r)
  }

  /** Each word that is a hit and not excused is replaced, everything else stays. */
  function Rewritten(A: Alphabet, table: Table, segs: seq<Segment>, at: nat, excused: Excuses): (r: seq<Segment>)
    ensures |r| == |segs|
  {
    if segs == [] then []
    else [NewSegment(A, table, segs[0], at, excused)]
         + Rewritten(A, table, segs[1..], at + |Text(segs[0])|, excused)
  }

  function FixedLine(A: Alphabet, table: Table, line: string, excused: Excuses): string
  {
    Join(Rewritten(A, table, Segments(A, line), 0, excused))
  }

  /** The same segment, or a word for a word with the same joins. */
  ghost predicate Alike(A: Alphabet, s: Segment, t: Segment) {
    s == t || (s.Word? && t.Word? && s.text != "" && IsWord(A, t.text) && SameEnds(A, s.text, t.text))
  }

  lemma {:induction false} RewrittenAlike(A: Alphabet, table: Table, segs: seq<Segment>, at: nat, excused: Excuses)
    requires Standard(A)
    ensures forall i :: 0 <= i < |segs| ==> Alike(A, segs[i], Rewritten(A, table, segs, at, excused)[i])
    decreases |segs|
  {
    hide Standard, IsWord, SameEnds;
    if segs != [] {
      RewrittenAlike(A, table, segs[1..], at + |Text(segs[0])|, excused);
      if segs[0].Word? && Respell(A, table, segs[0].text).Some? { RespellingIsAWord(A, table, segs[0].text); }
      forall i | 0 <= i < |segs| ensures Alike(A, segs[i], Rewritten(A, table, segs, at, excused)[i]) {
        if i > 0 { assert segs[i] == segs[1..][i - 1]; }
      }
    }
  }

  lemma AlikeCanonical(A: Alphabet, segs: seq<Segment>, news: seq<Segment>)
    requires Canonical(A, segs) && |news| == |segs|
    requires forall i :: 0 <= i < |segs| ==> Alike(A, segs[i], news[i])
    ensures Canonical(A, news)
  {
    forall i | 0 <= i < |news| ensures Fits(A, news[i]) {
      assert Alike(A, segs[i], news[i]) && Fits(A, segs[i]);
    }
    forall i | 0 < i < |news| ensures Divided(A, news[i - 1], news[i]) {
      assert Divided(A, segs[i - 1], segs[i]);
      assert Alike(A, segs[i - 1], news[i - 1]) && Alike(A, segs[i], news[i]);
      assert Fits(A, news[i - 1]) && Fits(A, news[i]);
    }
  }

  /** The rewritten line divides at the same boundaries: segment by segment it is the old one or its replacement. */
  lemma RewriteKeepsBoundaries(A: Alphabet, table: Table, line: string, excused: Excuses)
    requires Standard(A)
    ensures Segments(A, FixedLine(A, table, line, excused)) == Rewritten(A, table, Segments(A, line), 0, excused)
    ensures |Segments(A, FixedLine(A, table, line, excused))| == |Segments(A, line)|
  {
    var segs := Segments(A, line);
    SegmentsCanonical(A, line);
    RewrittenAlike(A, table, segs, 0, excused);
    AlikeCanonical(A, segs, Rewritten(A, table, segs, 0, excused));
    CanonicalUnique(A, Rewritten(A, table, segs, 0, excused));
  }

  /** A hit that is gone from the rewritten line: it was replaced, and its replacement is no key of the table. */
  predicate Settled(A: Alphabet, table: Table, h: Hit, excused: Excuses) {
    !excused(h.start, h.end) && A.lowered(h.replacement) !in table
  }

  ghost predicate AllSettled(A: Alphabet, table: Table, found: seq<Hit>, excused: Excuses) {
    forall h :: h in found ==> Settled(A, table, h, excused)
  }

  lemma AllSettledAppend(A: Alphabet, table: Table, a: seq<Hit>, b: seq<Hit>, excused: Excuses)
    ensures AllSettled(A, table, a + b, excused) <==> AllSettled(A, table, a, excused) && AllSettled(A, table, b, excused)
    ensures AllSettled(A, table, [], excused)
  {
    hide Settled;
    assert forall h :: h in a || h in b <==> h in a + b;
  }

  lemma {:induction false} HitsLeft(A: Alphabet, table: Table, segs: seq<Segment>, at: nat, to: nat, excused: Excuses)
    requires Standard(A)
    ensures HitsAt(A, table, Rewritten(A, table, segs, at, excused), to) == []
      <==> AllSettled(A, table, HitsAt(A, table, segs, at), excused)
    decreases |segs|
  {
    hide Standard, AllSettled, HitOf, NewSegment, HitsAt, Rewritten;
    AllSettledAppend(A, table, [], [], excused);
    HitsStep(A, table, segs, at, to, excused);
    if segs != [] {
      var s, rest := segs[0], segs[1..];
      var next, later := at + |Text(s)|, to + |Text(NewSegment(A, table, s, at, excused))|;
      HitsLeft(A, table, rest, next, later, excused);
      OneHitLeft(A, table, s, at, to, excused);
      AllSettledAppend(A, table, HitOf(A, table, s, at), HitsAt(A, table, rest, next), excused);
    }
  }

  lemma HitsStep(A: Alphabet, table: Table, segs: seq<Segment>, at: nat, to: nat, excused: Excuses)
    ensures segs == [] ==> HitsAt(A, table, segs, at) == [] == HitsAt(A, table, Rewritten(A, table, segs, at, excused), to)
    ensures segs != [] ==>
      var s, rest, t := segs[0], segs[1..], NewSegment(A, table, segs[0], at, excused);
      && HitsAt(A, table, segs, at) == HitOf(A, table, s, at) + HitsAt(A, table, rest, at + |Text(s)|)
      && HitsAt(A, table, Rewritten(A, table, segs, at, excused), to)
         == HitOf(A, table, t, to) + HitsAt(A, table, Rewritten(A, table, rest, at + |Text(s)|, excused), to + |Text(t)|)
  {
    hide HitOf, NewSegment;
    if segs != [] {
      assert Rewritten(A, table, segs, at, excused)[1..]
        == Rewritten(A, table, segs[1..], at + |Text(segs[0])|, excused);
    }
  }

  lemma OneHitLeft(A: Alphabet, table: Table, s: Segment, at: nat, to: nat, excused: Excuses)
    requires Standard(A)
    ensures HitOf(A, table, NewSegment(A, table, s, at, excused), to) == []
      <==> AllSettled(A, table, HitOf(A, table, s, at), excused)
  {
    hide Standard;
    if s.Word? && Respell(A, table, s.text).Some? {
      RespellingIsAWord(A, table, s.text);
      var h := Hit(at, at + |s.text|, s.text, Respell(A, table, s.text).value);
      assert HitOf(A, table, s, at) == [h];
      assert h in HitOf(A, table, s, at);
      assert (forall g :: g in [h] ==> Settled(A, table, g, excused)) <==> Settled(A, table, h, excused);
    }
  }

  /** A rewritten line has no hits exactly when none was excused and no replacement used is itself a key. */
  lemma NoHitsLeftIff(A: Alphabet, table: Table, line: string, excused: Excuses)
    requires Standard(A)
    ensures LineHits(A, table, FixedLine(A, table, line, excused)) == []
      <==> forall h :: h in LineHits(A, table, line) ==> Settled(A, table, h, excused)
  {
    RewriteKeepsBoundaries(A, table, line, excused);
    HitsLeft(A, table, Segments(A, line), 0, 0, excused);
  }

  // ---- splicing by position ----

  /** The hits lie in the line, in order and without overlap. */
  predicate InOrder(found: seq<Hit>, cursor: nat, n: nat) {
    && cursor <= n
    && (found != [] ==> cursor <= found[0].start <= found[0].end <= n && InOrder(found[1..], found[0].end, n))
  }

  /** The text from `cursor` on, with every hit's span replaced and everything between copied. */
  function Splice(line: string, found: seq<Hit>, cursor: nat): string
    requires InOrder(found, cursor, |line|)
  {
    if found == [] then line[cursor..]
    else line[cursor..found[0].start] + found[0].replacement + Splice(line, found[1..], found[0].end)
  }

  lemma SliceSplit(line: string, a: nat, b: nat, c: nat)
    requires a <= b <= c <= |line|
    ensures line[a..c] == line[a..b] + line[b..c]
  {}

  lemma Regroup(a: string, b: string, c: string, d: string)
    ensures a + b + c + d == a + (b + c + d)
  {}

  lemma {:induction false} SpliceEarlier(line: string, found: seq<Hit>, cursor: nat, earlier: nat)
    requires InOrder(found, cursor, |line|) && earlier <= cursor
    ensures InOrder(found, earlier, |line|)
    ensures Splice(line, found, earlier) == line[earlier..cursor] + Splice(line, found, cursor)
  {
    if found == [] {
      SliceSplit(line, earlier, cursor, |line|);
      assert line[earlier..] == line[earlier..|line|] && line[cursor..] == line[cursor..|line|];
    } else {
      var h := found[0];
      SliceSplit(line, earlier, cursor, h.start);
      Regroup(line[earlier..cursor], line[cursor..h.start], h.replacement, Splice(line, found[1..], h.end));
    }
  }

  /** One segment: its text is copied, or its one hit is replaced. */
  lemma SpliceStep(line: string, first: seq<Hit>, later: seq<Hit>, at: nat, next: nat, text: string)
    requires at <= next && InOrder(later, next, |line|) && |first| <= 1
    requires first == [] ==> text == line[at..next]
    requires first != [] ==> first[0].start == at && first[0].end == next && first[0].replacement == text
    ensures InOrder(first + later, at, |line|)
    ensures Splice(line, first + later, at) == text + Splice(line, later, next)
  {
    if first == [] {
      assert first + later == later;
      SpliceEarlier(line, later, next, at);
    } else {
      assert (first + later)[1..] == later && line[at..at] == "";
    }
  }

  /** Splicing the kept hits by position is rewriting the segments: text outside hits is copied as it was. */
  lemma {:induction false} SpliceIsRewritten(
      A: Alphabet, table: Table, line: string, segs: seq<Segment>, at: nat, excused: Excuses)
    requires at <= |line| && line[at..] == Join(segs)
    ensures InOrder(Kept(HitsAt(A, table, segs, at), excused), at, |line|)
    ensures Splice(line, Kept(HitsAt(A, table, segs, at), excused), at) == Join(Rewritten(A, table, segs, at, excused))
    decreases |segs|
  {
    hide HitOf, NewSegment, Kept, InOrder, Splice;
    if segs != [] {
      var next := at + |Text(segs[0])|;
      JoinDrop(line, segs, at);
      SpliceIsRewritten(A, table, line, segs[1..], next, excused);
      KeptAppend(HitOf(A, table, segs[0], at), HitsAt(A, table, segs[1..], next), excused);
      KeptOne(A, table, segs[0], at, excused);
      SpliceStep(line, Kept(HitOf(A, table, segs[0], at), excused), Kept(HitsAt(A, table, segs[1..], next), excused),
        at, next, Text(NewSegment(A, table, segs[0], at, excused)));
    } else {
      NothingSpliced(line, at, excused);
    }
  }

  lemma NothingSpliced(line: string, at: nat, excused: Excuses)
    requires at <= |line|
    ensures Kept([], excused) == [] && InOrder([], at, |line|) && Splice(line, [], at) == line[at..]
  {}

  lemma JoinDrop(line: string, segs: seq<Segment>, at: nat)
    requires segs != [] && at <= |line| && line[at..] == Join(segs)
    ensures at + |Text(segs[0])| <= |line|
    ensures line[at..at + |Text(segs[0])|] == Text(segs[0]) && line[at + |Text(segs[0])|..] == Join(segs[1..])
  {
    var n := |Text(segs[0])|;
    assert line[at..][..n] == Text(segs[0]) && line[at..][n..] == Join(segs[1..]);
  }

  lemma KeptOne(A: Alphabet, table: Table, s: Segment, at: nat, excused: Excuses)
    ensures var first, t := Kept(HitOf(A, table, s, at), excused), NewSegment(A, table, s, at, excused);
      if first == [] then t == s
      else |first| == 1 && first[0].start == at && first[0].end == at + |Text(s)| && first[0].replacement == Text(t)
  {
    hide Respell;
    if s.Word? && Respell(A, table, s.text).Some? {
      assert HitOf(A, table, s, at) == [Hit(at, at + |s.text|, s.text, Respell(A, table, s.text).value)];
    }
  }

  lemma {:induction false} KeptAppend(a: seq<Hit>, b: seq<Hit>, excused: Excuses)
    ensures Kept(a + b, excused) == Kept(a, excused) + Kept(b, excused)
  {
    if a == [] {
      assert a + b == b;
    } else {
      assert (a + b)[1..] == a[1..] + b;
      KeptAppend(a[1..], b, excused);
    }
  }

  /** What the rewrite of a line produces, from its hits alone. */
  lemma FixedLineIsSpliced(A: Alphabet, table: Table, line: string, excused: Excuses)
    ensures InOrder(Kept(LineHits(A, table, line), excused), 0, |line|)
    ensures Splice(line, Kept(LineHits(A, table, line), excused), 0) == FixedLine(A, table, line, excused)
  {
    SegmentsCanonical(A, line);
    assert line[0..] == line;
    SpliceIsRewritten(A, table, line, Segments(A, line), 0, excused);
  }
}
