/** Words of a line and their case-preserving respelling. */
module SpellingWords {
  import opened Orders

  /** The letter and case classes, and `str.lower`. */
  datatype Alphabet = Alphabet(
    letter: char -> bool, lower: char -> bool, upper: char -> bool, title: char -> bool, lowered: string -> string)

  predicate Small(c: char) { 'a' <= c <= 'z' }

  predicate SmallWord(s: string) {
    forall c :: c in s ==> Small(c)
  }

  function Raise(c: char): char
    requires Small(c)
  {
    'A' + (c - 'a')
  }

  function Raised(s: string): (r: string)
    requires SmallWord(s)
    ensures |r| == |s|
  {
    seq(|s|, i requires 0 <= i < |s| => assert s[i] in s; Raise(s[i]))
  }

  function Capitalized(s: string): (r: string)
    requires s != "" && SmallWord(s)
    ensures |r| == |s|
  {
    assert s[0] in s;
    [Raise(s[0])] + s[1..]
  }

  /** The classes are disjoint and as usual on the letters a to z. */
  ghost predicate Standard(A: Alphabet) {
    && (forall c :: Small(c) ==> A.letter(c) && A.lower(c) && !A.title(c))
    && (forall c :: Small(c) ==> A.letter(Raise(c)) && A.upper(Raise(c)) && !A.title(Raise(c)))
    && (forall c :: !(A.lower(c) && A.upper(c)))
    && (forall s :: SmallWord(s) ==> A.lowered(s) == s && A.lowered(Raised(s)) == s)
    && (forall s :: s != "" && SmallWord(s) ==> A.lowered(Capitalized(s)) == s)
  }

  /** Replacements by lowercase word; every replacement is a lowercase word of two letters or more. */
  type Table = table: map<string, string> | forall k :: k in table ==> Spelled(table[k])

  predicate Spelled(replacement: string) {
    |replacement| >= 2 && SmallWord(replacement)
  }

  // ---- respelling one word ----

  predicate IsLower(A: Alphabet, w: string) {
    (forall c :: c in w ==> !A.upper(c) && !A.title(c)) && exists c :: c in w && A.lower(c)
  }

  predicate IsUpper(A: Alphabet, w: string) {
    (forall c :: c in w ==> !A.lower(c) && !A.title(c)) && exists c :: c in w && A.upper(c)
  }

  function Respell(A: Alphabet, table: Table, w: string): Option<string>
  {
    var key := A.lowered(w);
    if key !in table || |w| < 2 then None
    else if IsLower(A, w) then Some(table[key])
    else if IsUpper(A, w) then Some(Raised(table[key]))
    else if A.upper(w[0]) && IsLower(A, w[1..]) then Some(Capitalized(table[key]))
    else None
  }

  predicate Step(A: Alphabet, a: char, b: char) {
    A.lower(a) && A.upper(b)
  }

  /** A non-empty run of letters without a lower-to-upper step. */
  ghost predicate IsWord(A: Alphabet, w: string) {
    && w != "" && (forall c :: c in w ==> A.letter(c))
    && forall i :: 0 < i < |w| ==> !Step(A, w[i - 1], w[i])
  }

  /** Whatever joined a word to its neighbours still joins its replacement. */
  ghost predicate SameEnds(A: Alphabet, w: string, r: string)
    requires w != "" && r != ""
  {
    && (A.upper(w[0]) ==> A.upper(r[0]))
    && (A.lower(w[|w| - 1]) ==> A.lower(r[|r| - 1]))
  }

  lemma RaisedIsUpper(A: Alphabet, s: string)
    requires Standard(A) && |s| >= 2 && SmallWord(s)
    ensures IsUpper(A, Raised(s)) && IsWord(A, Raised(s)) && A.upper(Raised(s)[0])
  {
    var r := Raised(s);
    forall c | c in r ensures A.letter(c) && A.upper(c) && !A.lower(c) && !A.title(c) {
      var i :| 0 <= i < |r| && r[i] == c;
      assert s[i] in s && c == Raise(s[i]);
    }
    assert r[0] in r;
  }

  lemma CapitalizedIsCapital(A: Alphabet, s: string)
    requires Standard(A) && |s| >= 2 && SmallWord(s)
    ensures A.upper(Capitalized(s)[0]) && IsLower(A, Capitalized(s)[1..]) && IsWord(A, Capitalized(s))
    ensures A.lower(Capitalized(s)[|s| - 1])
    ensures !IsLower(A, Capitalized(s)) && !IsUpper(A, Capitalized(s))
  {
    var r := Capitalized(s);
    assert s[0] in s && r[0] == Raise(s[0]) && r[0] in r;
    assert r[1..] == s[1..] && forall c :: c in s[1..] ==> Small(c);
    assert r[1] in s[1..] && r[1] in r && r[|s| - 1] in s[1..];
    forall c | c in r ensures A.letter(c) {
      if c != r[0] { assert c in s[1..]; }
    }
    forall i | 0 < i < |r| ensures !A.upper(r[i]) { assert r[i] in s[1..]; }
  }

  lemma SmallIsLower(A: Alphabet, s: string)
    requires Standard(A) && |s| >= 2 && SmallWord(s)
    ensures IsLower(A, s) && IsWord(A, s) && A.lower(s[|s| - 1])
  {
    assert s[0] in s && s[|s| - 1] in s;
    forall i | 0 <= i < |s| ensures !A.upper(s[i]) { assert s[i] in s; }
  }

  /**
    * The replacement is one word again, joins the same neighbours, and is itself a hit exactly when its lowercase
    * form is a key of the table.
    */
  lemma RespellingIsAWord(A: Alphabet, table: Table, w: string)
    requires Standard(A) && Respell(A, table, w).Some?
    ensures var r := Respell(A, table, w).value;
      && IsWord(A, r) && SameEnds(A, w, r)
      && A.lowered(r) == table[A.lowered(w)]
      && (Respell(A, table, r).Some? <==> A.lowered(r) in table)
  {
    var s := table[A.lowered(w)];
    assert w[0] in w && w[|w| - 1] in w;
    SmallIsLower(A, s);
    RaisedIsUpper(A, s);
    CapitalizedIsCapital(A, s);
    if !IsLower(A, w) && !IsUpper(A, w) { assert w[|w| - 1] in w[1..]; }
  }

  // ---- segments of a line ----

  datatype Segment = Word(text: string) | Gap(c: char)

  function Text(s: Segment): string {
    if s.Word? then s.text else [s.c]
  }

  function Join(segs: seq<Segment>): string {
    if segs == [] then "" else Text(segs[0]) + Join(segs[1..])
  }

  ghost predicate Fits(A: Alphabet, s: Segment) {
    if s.Word? then IsWord(A, s.text) else !A.letter(s.c)
  }

  /** Adjacent words only at a lower-to-upper step, so that letter runs and CamelCase parts are maximal. */
  ghost predicate Divided(A: Alphabet, s: Segment, t: Segment) {
    s.Word? && t.Word? ==> s.text != "" && t.text != "" && Step(A, s.text[|s.text| - 1], t.text[0])
  }

  ghost predicate Canonical(A: Alphabet, segs: seq<Segment>) {
    && (forall i :: 0 <= i < |segs| ==> Fits(A, segs[i]))
    && forall i :: 0 < i < |segs| ==> Divided(A, segs[i - 1], segs[i])
  }

  /** The segments of a line. */
  function Segments(A: Alphabet, line: string): (segs: seq<Segment>)
    ensures forall i :: 0 <= i < |segs| && segs[i].Word? ==> segs[i].text != ""
  {
    if line == "" then []
    else Prepend(A, line[0], Segments(A, line[1..]))
  }

  function Prepend(A: Alphabet, c: char, rest: seq<Segment>): (segs: seq<Segment>)
    requires forall i :: 0 <= i < |rest| && rest[i].Word? ==> rest[i].text != ""
    ensures forall i :: 0 <= i < |segs| && segs[i].Word? ==> segs[i].text != ""
  {
    if !A.letter(c) then [Gap(c)] + rest
    else if rest != [] && rest[0].Word? && !Step(A, c, rest[0].text[0]) then [Word([c] + rest[0].text)] + rest[1..]
    else [Word([c])] + rest
  }

  lemma PrependCanonical(A: Alphabet, c: char, rest: seq<Segment>)
    requires Canonical(A, rest)
    ensures Canonical(A, Prepend(A, c, rest)) && Join(Prepend(A, c, rest)) == [c] + Join(rest)
  {
    WordsNotEmpty(A, rest);
    hide IsWord;
    var segs := Prepend(A, c, rest);
    if A.letter(c) && rest != [] && rest[0].Word? && !Step(A, c, rest[0].text[0]) {
      var w := rest[0].text;
      assert Fits(A, rest[0]);
      LetterJoins(A, c, w);
      forall i | 0 < i < |segs| ensures Divided(A, segs[i - 1], segs[i]) {
        assert Divided(A, rest[i - 1], rest[i]);
      }
    } else {
      LetterAlone(A, c);
      assert segs[1..] == rest;
      forall i | 0 < i < |segs| ensures Divided(A, segs[i - 1], segs[i]) {
        if i > 1 { assert Divided(A, rest[i - 1 - 1], rest[i - 1]); }
        if i == 1 && segs[0].Word? && rest[0].Word? { assert Fits(A, rest[0]); }
      }
      forall i | 0 < i < |segs| ensures Fits(A, segs[i]) { assert Fits(A, rest[i - 1]); }
    }
  }

  lemma WordsNotEmpty(A: Alphabet, segs: seq<Segment>)
    requires Canonical(A, segs)
    ensures forall i :: 0 <= i < |segs| && segs[i].Word? ==> segs[i].text != ""
  {
    forall i | 0 <= i < |segs| && segs[i].Word? ensures segs[i].text != "" { assert Fits(A, segs[i]); }
  }

  lemma LetterAlone(A: Alphabet, c: char)
    ensures A.letter(c) ==> IsWord(A, [c])
  {}

  lemma LetterJoins(A: Alphabet, c: char, w: string)
    requires A.letter(c) && IsWord(A, w) && !Step(A, c, w[0])
    ensures IsWord(A, [c] + w)
  {
    forall i | 0 < i < |w| + 1 ensures !Step(A, ([c] + w)[i - 1], ([c] + w)[i]) {
      if i > 1 { assert !Step(A, w[i - 1 - 1], w[i - 1]); }
    }
  }

  /** The segments spell the line and divide it at every letter-run and CamelCase boundary. */
  lemma {:induction false} SegmentsCanonical(A: Alphabet, line: string)
    ensures Canonical(A, Segments(A, line)) && Join(Segments(A, line)) == line
  {
    if line != "" {
      SegmentsCanonical(A, line[1..]);
      PrependCanonical(A, line[0], Segments(A, line[1..]));
    }
  }

  lemma TailIsWord(A: Alphabet, w: string)
    requires IsWord(A, w) && |w| > 1
    ensures IsWord(A, w[1..])
  {
    var t := w[1..];
    forall i | 0 < i < |t| ensures !Step(A, t[i - 1], t[i]) {
      assert !Step(A, w[i + 1 - 1], w[i + 1]);
    }
  }

  /** A word up to the end of the line, a non-letter or a step is the first segment. */
  lemma {:induction false} WordComesFirst(A: Alphabet, line: string, n: nat)
    requires 0 < n <= |line| && IsWord(A, line[..n])
    requires n < |line| && A.letter(line[n]) ==> Step(A, line[n - 1], line[n])
    ensures Segments(A, line) == [Word(line[..n])] + Segments(A, line[n..])
    decreases n
  {
    hide IsWord, Segments, Prepend;
    FirstLetter(A, line, n);
    if n == 1 {
      assert line[..1] == [line[0]];
      SegmentsStart(A, line[1..]);
    } else {
      var rest := line[1..];
      assert rest[..n - 1] == line[..n][1..] && rest[n - 1..] == line[n..];
      TailIsWord(A, line[..n]);
      WordComesFirst(A, rest, n - 1);
      assert [line[0]] + rest[..n - 1] == line[..n];
    }
    PrependWord(A, line, n);
  }

  lemma FirstLetter(A: Alphabet, line: string, n: nat)
    requires 0 < n <= |line| && IsWord(A, line[..n])
    ensures A.letter(line[0]) && (n > 1 ==> !Step(A, line[0], line[1]))
  {
    assert line[..n][0] in line[..n];
    if n > 1 { assert !Step(A, line[..n][1 - 1], line[..n][1]); }
  }

  /** The first letter joins the word that follows, or stands alone. */
  lemma PrependWord(A: Alphabet, line: string, n: nat)
    requires 0 < n <= |line| && A.letter(line[0]) && (n > 1 ==> !Step(A, line[0], line[1]))
    requires n == 1 && n < |line| && A.letter(line[1]) ==> Step(A, line[0], line[1])
    requires n > 1 ==> Segments(A, line[1..]) == [Word(line[1..][..n - 1])] + Segments(A, line[1..][n - 1..])
    ensures Segments(A, line) == [Word(line[..n])] + Segments(A, line[n..])
  {
    SegmentsStart(A, line[1..]);
    if n == 1 {
      assert line[..1] == [line[0]];
    } else {
      assert line[1..][..n - 1][0] == line[1];
      assert [line[0]] + line[1..][..n - 1] == line[..n] && line[1..][n - 1..] == line[n..];
      assert ([Word(line[1..][..n - 1])] + Segments(A, line[n..]))[1..] == Segments(A, line[n..]);
    }
  }

  lemma SegmentsStart(A: Alphabet, line: string)
    ensures line == "" <==> Segments(A, line) == []
    ensures line != "" ==> Text(Segments(A, line)[0]) != "" && Text(Segments(A, line)[0])[0] == line[0]
    ensures line != "" ==> (Segments(A, line)[0].Word? <==> A.letter(line[0]))
  {}

  /** There is only one such division: any canonical sequence is the segments of what it spells. */
  lemma {:induction false} CanonicalUnique(A: Alphabet, segs: seq<Segment>)
    requires Canonical(A, segs)
    ensures Segments(A, Join(segs)) == segs
    decreases |segs|
  {
    hide IsWord, Segments;
    if segs != [] {
      var rest := segs[1..];
      CanonicalRest(A, segs);
      WordsNotEmpty(A, segs);
      CanonicalUnique(A, rest);
      assert Fits(A, segs[0]);
      if segs[0].Word? {
        var n, line := |segs[0].text|, Join(segs);
        assert line[..n] == segs[0].text && line[n..] == Join(rest);
        if rest != [] { NextIsDivided(A, segs); }
        WordComesFirst(A, line, n);
      } else {
        GapComesFirst(A, segs[0].c, Join(rest));
      }
    } else {
      SegmentsStart(A, "");
    }
  }

  lemma CanonicalRest(A: Alphabet, segs: seq<Segment>)
    requires Canonical(A, segs) && segs != []
    ensures Canonical(A, segs[1..])
  {
    hide Fits, Divided;
    var rest := segs[1..];
    forall i | 0 < i < |rest| ensures Divided(A, rest[i - 1], rest[i]) {
      assert Divided(A, segs[i + 1 - 1], segs[i + 1]);
    }
  }

  lemma GapComesFirst(A: Alphabet, c: char, line: string)
    requires !A.letter(c)
    ensures Segments(A, [c] + line) == [Gap(c)] + Segments(A, line)
  {
    assert ([c] + line)[1..] == line;
  }

  lemma NextIsDivided(A: Alphabet, segs: seq<Segment>)
    requires Canonical(A, segs) && |segs| > 1 && segs[0].Word?
    ensures var n, line := |segs[0].text|, Join(segs);
      0 < n < |line| && (A.letter(line[n]) ==> Step(A, line[n - 1], line[n]))
  {
    assert Fits(A, segs[0]) && Fits(A, segs[1]) && Divided(A, segs[1 - 1], segs[1]);
    var n, line := |segs[0].text|, Join(segs);
    assert line == segs[0].text + Join(segs[1..]) && Join(segs[1..])[0] == Text(segs[1])[0];
    assert line[n - 1] == segs[0].text[n - 1] && line[n] == Text(segs[1])[0];
  }

}
