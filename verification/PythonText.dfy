/**
 Python string operations the scripts rely on: prefixes, white space and stripping.

 White space is what `str.strip` removes without an argument, which is more than the ASCII blanks. The lemmas take a
 text apart into white space around a trimmed text, and find that trimmed text again in whatever white space.
 */
module PythonText {

  /** `str.startswith`. */
  predicate Starts(s: string, prefix: string) {
    |prefix| <= |s| && s[..|prefix|] == prefix
  }

  /** What `str.strip` removes. */
  predicate IsSpace(c: char) {
    || '\t' <= c <= '\r' || '\U{1c}' <= c <= ' ' || c == '\U{85}' || c == '\U{a0}' || c == '\U{1680}'
    || '\U{2000}' <= c <= '\U{200a}' || c == '\U{2028}' || c == '\U{2029}' || c == '\U{202f}' || c == '\U{205f}'
    || c == '\U{3000}'
  }

  const WHITE_SPACE := "\t\n\U{b}\U{c}\r\U{1c}\U{1d}\U{1e}\U{1f} \U{85}\U{a0}\U{1680}"
    + "\U{2000}\U{2001}\U{2002}\U{2003}\U{2004}\U{2005}\U{2006}\U{2007}\U{2008}\U{2009}\U{200a}"
    + "\U{2028}\U{2029}\U{202f}\U{205f}\U{3000}"

  lemma SpacesListed(c: char)
    ensures IsSpace(c) <==> c in WHITE_SPACE
  {
  }

  function StripLeft(s: string): string {
    if s != "" && IsSpace(s[0]) then StripLeft(s[1..]) else s
  }

  function StripRight(s: string): string {
    if s != "" && IsSpace(s[|s| - 1]) then StripRight(s[..|s| - 1]) else s
  }

  function Strip(s: string): string {
    StripRight(StripLeft(s))
  }

  predicate Trimmed(s: string) {
    s == "" || (!IsSpace(s[0]) && !IsSpace(s[|s| - 1]))
  }

  predicate AllSpace(s: string) {
    forall c :: c in s ==> IsSpace(c)
  }

  lemma {:induction false} StripLeftSkips(space: string, s: string)
    requires AllSpace(space)
    ensures StripLeft(space + s) == StripLeft(s)
    decreases |space|
  {
    if space == "" {
      assert space + s == s;
    } else {
      assert (space + s)[1..] == space[1..] + s && space[0] in space;
      StripLeftSkips(space[1..], s);
    }
  }

  lemma {:induction false} StripRightSkips(s: string, space: string)
    requires AllSpace(space)
    ensures StripRight(s + space) == StripRight(s)
    decreases |space|
  {
    if space == "" {
      assert s + space == s;
    } else {
      var n := |space| - 1;
      assert (s + space)[..|s| + n] == s + space[..n] && space[n] in space;
      StripRightSkips(s, space[..n]);
    }
  }

  /** Stripping finds a trimmed text between white space. */
  lemma StripFinds(before: string, s: string, after: string)
    requires AllSpace(before) && AllSpace(after) && Trimmed(s)
    ensures Strip(before + s + after) == s
  {
    assert before + s + after == before + (s + after);
    StripLeftSkips(before, s + after);
    if s == "" {
      assert s + after == after && after + "" == after;
      StripLeftSkips(after, "");
    } else {
      assert StripLeft(s + after) == s + after;
      StripRightSkips(s, after);
    }
  }

  lemma {:induction false} StripRightParts(s: string)
    ensures |StripRight(s)| <= |s| && s[..|StripRight(s)|] == StripRight(s) && AllSpace(s[|StripRight(s)|..])
    ensures StripRight(s) != "" ==> !IsSpace(StripRight(s)[|StripRight(s)| - 1])
    decreases |s|
  {
    if s != "" && IsSpace(s[|s| - 1]) {
      var n, r := |s| - 1, StripRight(s[..|s| - 1]);
      StripRightParts(s[..n]);
      assert s[..|r|] == s[..n][..|r|];
      SpaceAfter(s[..n][|r|..], s[n]);
      assert s[|r|..] == s[..n][|r|..] + [s[n]];
    } else {
      assert s[..|s|] == s;
    }
  }

  lemma SpaceAfter(space: string, c: char)
    requires AllSpace(space) && IsSpace(c)
    ensures AllSpace(space + [c]) && AllSpace([c] + space)
  {
    hide IsSpace;
  }

  lemma {:induction false} StripLeftParts(s: string)
    ensures |StripLeft(s)| <= |s| && s[|s| - |StripLeft(s)|..] == StripLeft(s)
    ensures AllSpace(s[..|s| - |StripLeft(s)|])
    ensures StripLeft(s) != "" ==> !IsSpace(StripLeft(s)[0])
    decreases |s|
  {
    if s != "" && IsSpace(s[0]) {
      var rest, r := s[1..], StripLeft(s[1..]);
      StripLeftParts(rest);
      assert s[|s| - |r|..] == rest[|rest| - |r|..];
      SpaceAfter(rest[..|rest| - |r|], s[0]);
      assert s[..|s| - |r|] == [s[0]] + rest[..|rest| - |r|];
    } else {
      assert s[0..] == s;
    }
  }

  lemma TrimmedAfter(s: string)
    ensures Trimmed(Strip(s))
  {
    var t := StripLeft(s);
    StripLeftParts(s);
    StripRightParts(t);
    var r := StripRight(t);
    if r != "" { assert r[0] == t[..|r|][0]; }
  }

  /** A text is white space, then its stripped form, then white space. */
  lemma StripParts(s: string) returns (before: string, after: string)
    ensures s == before + Strip(s) + after && AllSpace(before) && AllSpace(after) && Trimmed(Strip(s))
  {
    var t := StripLeft(s);
    StripLeftParts(s);
    StripRightParts(t);
    TrimmedAfter(s);
    hide StripLeft, StripRight, Trimmed;
    var r := Strip(s);
    before, after := s[..|s| - |t|], t[|r|..];
    assert t == r + after;
    assert s == before + t;
  }

  /** Stripping keeps everything between two characters that are not white space. */
  lemma StripKeepsBetween(s: string, i: nat, j: nat)
    requires i <= j < |s| && !IsSpace(s[i]) && !IsSpace(s[j])
    ensures |Strip(s)| > j - i
  {
    var before, after := StripParts(s);
    forall k | 0 <= k < |before| ensures IsSpace(s[k]) {
      assert before[k] in before;
    }
    forall k | |s| - |after| <= k < |s| ensures IsSpace(s[k]) {
      assert after[k - (|s| - |after|)] in after;
    }
  }
}
