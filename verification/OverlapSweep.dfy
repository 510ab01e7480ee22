/**
 Peak overlap of observed process intervals by an event sweep: the peak is the largest net count of starts and ends, and
 the true maximum overlap exactly when no interval runs backwards across it.
 */
module OverlapSweep {
  import opened Orders

  /** One trace record; only exited processes have an interval. */
  datatype Record = Record(status: string, name: string, start: int, end: int)

  datatype Event = Event(time: int, change: int)

  predicate EventLe(a: Event, b: Event) {
    a.time < b.time || (a.time == b.time && a.change <= b.change)
  }

  ghost predicate UnitChanges(events: seq<Event>) {
    forall i :: 0 <= i < |events| ==> events[i].change == 1 || events[i].change == -1
  }

  function Sum(events: seq<Event>): int {
    if events == [] then 0 else Sum(events[..|events| - 1]) + events[|events| - 1].change
  }

  /** Starts minus ends at or before `t`. */
  function Net(events: seq<Event>, t: int): int {
    if events == [] then 0 else (if events[0].time <= t then events[0].change else 0) + Net(events[1..], t)
  }

  /** `peak` is the largest net count over all times, or zero if none is positive. */
  ghost predicate IsPeak(events: seq<Event>, peak: int) {
    && 0 <= peak && (forall t :: Net(events, t) <= peak)
    && (peak == 0 || exists t :: Net(events, t) == peak)
  }

  // ---- the sweep ----

  lemma {:induction false} NetInsert(x: Event, s: seq<Event>, t: int)
    ensures Net(Insert(x, s, EventLe), t) == Net([x] + s, t)
  {
    assert ([x] + s)[1..] == s;
    if s != [] && !EventLe(x, s[0]) {
      NetInsert(x, s[1..], t);
      assert ([x] + s[1..])[1..] == s[1..];
      var r := [s[0]] + Insert(x, s[1..], EventLe);
      assert r[1..] == Insert(x, s[1..], EventLe);
    }
  }

  lemma {:induction false} NetSorted(s: seq<Event>, t: int)
    ensures Net(SortBy(s, EventLe), t) == Net(s, t)
  {
    if s != [] {
      NetSorted(s[1..], t);
      NetInsert(s[0], SortBy(s[1..], EventLe), t);
      assert ([s[0]] + SortBy(s[1..], EventLe))[1..] == SortBy(s[1..], EventLe);
    }
  }

  lemma {:induction false} NetAppend(a: seq<Event>, b: seq<Event>, t: int)
    ensures Net(a + b, t) == Net(a, t) + Net(b, t)
  {
    if a == [] {
      assert a + b == b;
    } else {
      NetAppend(a[1..], b, t);
      assert (a + b)[1..] == a[1..] + b;
    }
  }

  lemma {:induction false} NetAll(s: seq<Event>, t: int)
    requires forall i :: 0 <= i < |s| ==> s[i].time <= t
    ensures Net(s, t) == Sum(s)
  {
    if s != [] {
      var n := |s| - 1;
      NetAll(s[..n], t);
      NetAppend(s[..n], [s[n]], t);
      assert s == s[..n] + [s[n]];
    }
  }

  lemma {:induction false} NetNone(s: seq<Event>, t: int)
    requires forall i :: 0 <= i < |s| ==> s[i].time > t
    ensures Net(s, t) == 0
  {
    if s != [] {
      NetNone(s[1..], t);
    }
  }

  /** The events up to a time are a prefix of the sorted events. */
  lemma NetIsPrefix(s: seq<Event>, k: nat, t: int)
    requires k <= |s|
    requires (forall i :: 0 <= i < k ==> s[i].time <= t) && forall i :: k <= i < |s| ==> s[i].time > t
    ensures Net(s, t) == Sum(s[..k])
  {
    assert s == s[..k] + s[k..];
    NetAppend(s[..k], s[k..], t);
    NetAll(s[..k], t);
    NetNone(s[k..], t);
  }

  lemma {:induction false} CutAt(s: seq<Event>, t: int) returns (k: nat)
    requires SortedBy(s, EventLe)
    ensures k <= |s| && (forall i :: 0 <= i < k ==> s[i].time <= t) && forall i :: k <= i < |s| ==> s[i].time > t
  {
    if s == [] || s[0].time > t {
      k := 0;
      assert forall i :: 0 < i < |s| ==> EventLe(s[0], s[i]);
    } else {
      var j := CutAt(s[1..], t);
      k := j + 1;
      forall i | k <= i < |s| ensures s[i].time > t { assert s[i] == s[1..][i - 1]; }
      forall i | 0 < i < k ensures s[i].time <= t { assert s[i] == s[1..][i - 1]; }
    }
  }

  lemma SumStep(s: seq<Event>, k: nat)
    requires k < |s|
    ensures Sum(s[..k + 1]) == Sum(s[..k]) + s[k].change
  {
    assert s[..k + 1][..k] == s[..k];
  }

  /**
   A maximal positive prefix ends with a start, and no further start happens at the same instant, because ends sort
   before starts; so it is the net count at that instant.
   */
  lemma BestPrefixIsNet(s: seq<Event>, k: nat)
    requires SortedBy(s, EventLe) && UnitChanges(s) && 0 < k <= |s|
    requires Sum(s[..k - 1]) <= Sum(s[..k]) && (k < |s| ==> Sum(s[..k + 1]) <= Sum(s[..k]))
    ensures Net(s, s[k - 1].time) == Sum(s[..k])
  {
    SumStep(s, k - 1);
    if k < |s| { SumStep(s, k); }
    StartsComeLast(s, k);
    NetIsPrefix(s, k, s[k - 1].time);
  }

  lemma StartsComeLast(s: seq<Event>, k: nat)
    requires SortedBy(s, EventLe) && UnitChanges(s) && 0 < k <= |s|
    requires s[k - 1].change == 1 && (k < |s| ==> s[k].change == -1)
    ensures forall i :: 0 <= i < k ==> s[i].time <= s[k - 1].time
    ensures forall i :: k <= i < |s| ==> s[i].time > s[k - 1].time
  {
    forall i | k <= i < |s| ensures s[i].time > s[k - 1].time {
      assert EventLe(s[k - 1], s[k]);
      assert i == k || EventLe(s[k], s[i]);
    }
    forall i | 0 <= i < k ensures s[i].time <= s[k - 1].time { assert i == k - 1 || EventLe(s[i], s[k - 1]); }
  }

  method PeakOverlap(events: seq<Event>) returns (peak: nat)
    requires UnitChanges(events)
    ensures IsPeak(events, peak)
  {
    hide UnitChanges, SortedBy, IsPeak, EventLe, NoBetter, SortBy, Sum;
    NoBetterThanNothing(SortBy(events, EventLe));
    var sorted := SortBy(events, EventLe);
    SortedEvents(events);
    var active := 0;
    peak := 0;
    ghost var best: nat := 0;
    for i := 0 to |sorted|
      invariant active == Sum(sorted[..i])
      invariant best <= i && peak == Sum(sorted[..best]) && peak >= 0
      invariant NoBetter(sorted, i, peak)
    {
      SumStep(sorted, i);
      active := active + sorted[i].change;
      NoBetterStep(sorted, i, peak, if active > peak then active else peak);
      if active > peak {
        peak := active;
        best := i + 1;
      }
    }
    BestPrefixIsPeak(events, sorted, best);
  }

  ghost predicate NoBetter(s: seq<Event>, n: nat, peak: int)
    requires n <= |s|
  {
    forall j :: 0 <= j <= n ==> Sum(s[..j]) <= peak
  }

  lemma NoBetterThanNothing(s: seq<Event>)
    ensures NoBetter(s, 0, 0) && Sum(s[..0]) == 0
  {
  }

  lemma NoBetterStep(s: seq<Event>, n: nat, peak: int, next: int)
    requires n < |s| && NoBetter(s, n, peak) && peak <= next && Sum(s[..n + 1]) <= next
    ensures NoBetter(s, n + 1, next)
  {
  }

  lemma SortedEvents(events: seq<Event>)
    requires UnitChanges(events)
    ensures var sorted := SortBy(events, EventLe); SortedBy(sorted, EventLe) && UnitChanges(sorted)
  {
    SortBySorted(events, EventLe);
    SortByElements(events, EventLe);
    var sorted := SortBy(events, EventLe);
    assert forall i :: 0 <= i < |sorted| ==> sorted[i] in events;
  }

  lemma BestPrefixIsPeak(events: seq<Event>, sorted: seq<Event>, best: nat)
    requires sorted == SortBy(events, EventLe) && SortedBy(sorted, EventLe) && UnitChanges(sorted)
    requires best <= |sorted| && Sum(sorted[..best]) >= 0
    requires NoBetter(sorted, |sorted|, Sum(sorted[..best]))
    ensures IsPeak(events, Sum(sorted[..best]))
  {
    forall t ensures Net(events, t) <= Sum(sorted[..best]) {
      NetSorted(events, t);
      var k := CutAt(sorted, t);
      NetIsPrefix(sorted, k, t);
    }
    if Sum(sorted[..best]) > 0 {
      BestPrefixIsNet(sorted, best);
      NetSorted(events, sorted[best - 1].time);
    }
  }

  // ---- intervals ----

  function Exited(records: seq<Record>): seq<Record> {
    if records == [] then []
    else if records[|records| - 1].status == "exited" then Exited(records[..|records| - 1]) + [records[|records| - 1]]
    else Exited(records[..|records| - 1])
  }

  /** Exactly the exited records, as often as they occur. */
  lemma {:induction false} ExitedExact(records: seq<Record>, r: Record)
    ensures multiset(Exited(records))[r] == if r.status == "exited" then multiset(records)[r] else 0
  {
    if records != [] {
      var n := |records| - 1;
      ExitedExact(records[..n], r);
      assert records == records[..n] + [records[n]];
    }
  }

  function Events(records: seq<Record>): seq<Event> {
    if records == [] then []
    else
      var r := records[|records| - 1];
      Events(records[..|records| - 1]) + [Event(r.start, 1), Event(r.end, -1)]
  }

  predicate Contains(r: Record, t: int) {
    r.start <= t < r.end
  }

  /** How many of the half-open intervals contain `t`. */
  function Overlap(records: seq<Record>, t: int): nat {
    if records == [] then 0
    else Overlap(records[..|records| - 1], t) + if Contains(records[|records| - 1], t) then 1 else 0
  }

  /** How many intervals run backwards across `t`. */
  function Inverted(records: seq<Record>, t: int): nat {
    if records == [] then 0
    else
      var r := records[|records| - 1];
      Inverted(records[..|records| - 1], t) + if r.end <= t < r.start then 1 else 0
  }

  lemma {:induction false} NetCountsIntervals(records: seq<Record>, t: int)
    ensures Net(Events(records), t) == Overlap(records, t) - Inverted(records, t)
    ensures UnitChanges(Events(records))
  {
    if records != [] {
      var n := |records| - 1;
      var r := records[n];
      NetCountsIntervals(records[..n], t);
      var pair := [Event(r.start, 1), Event(r.end, -1)];
      NetAppend(Events(records[..n]), pair, t);
      assert pair[1..] == [Event(r.end, -1)] && pair[1..][1..] == [];
      assert Net(pair[1..], t) == if r.end <= t then -1 else 0;
      assert Net(pair, t) == (if r.start <= t then 1 else 0) + Net(pair[1..], t);
      assert Overlap(records, t) - Inverted(records, t)
        == Overlap(records[..n], t) - Inverted(records[..n], t) + Net(pair, t);
    }
  }

  ghost predicate Forward(records: seq<Record>) {
    forall i :: 0 <= i < |records| ==> records[i].start <= records[i].end
  }

  lemma {:induction false} InvertedNone(records: seq<Record>, t: int)
    requires Forward(records)
    ensures Inverted(records, t) == 0
  {
    if records != [] {
      InvertedNone(records[..|records| - 1], t);
    }
  }

  lemma {:induction false} InvertedSome(records: seq<Record>, i: nat)
    requires i < |records| && records[i].start > records[i].end
    ensures Inverted(records, records[i].end) > 0
  {
    if i < |records| - 1 {
      InvertedSome(records[..|records| - 1], i);
    }
  }

  /** The net count is the true overlap at every time exactly when no interval ends before it starts. */
  lemma NetIsOverlapIff(records: seq<Record>)
    ensures (forall t :: Net(Events(records), t) == Overlap(records, t)) <==> Forward(records)
  {
    if Forward(records) {
      forall t ensures Net(Events(records), t) == Overlap(records, t) {
        NetCountsIntervals(records, t);
        InvertedNone(records, t);
      }
    } else {
      var i :| 0 <= i < |records| && records[i].start > records[i].end;
      InvertedSome(records, i);
      NetCountsIntervals(records, records[i].end);
    }
  }

  /** `peak` is the largest number of intervals that contain one instant. */
  ghost predicate IsPeakOverlap(records: seq<Record>, peak: int) {
    && 0 <= peak && (forall t :: Overlap(records, t) <= peak)
    && (peak == 0 || exists t :: Overlap(records, t) == peak)
  }

  /** No instant lies in more of the intervals. */
  ghost predicate MostOverlapped(records: seq<Record>, t: int) {
    forall u :: Overlap(records, u) <= Overlap(records, t)
  }

  /**
   The peak the sweep returns is the true maximum overlap exactly when no interval runs backwards across some instant of
   greatest overlap.
   */
  lemma PeakIsOverlapIff(records: seq<Record>, peak: int)
    requires IsPeak(Events(records), peak)
    ensures IsPeakOverlap(records, peak) <==> exists t :: MostOverlapped(records, t) && Inverted(records, t) == 0
  {
    forall t ensures Net(Events(records), t) == Overlap(records, t) - Inverted(records, t) {
      NetCountsIntervals(records, t);
    }
    if IsPeakOverlap(records, peak) {
      if peak == 0 {
        var t := BeforeAll(records);
        assert MostOverlapped(records, t);
      } else {
        var t :| Net(Events(records), t) == peak;
        assert Overlap(records, t) == peak && MostOverlapped(records, t);
      }
    }
    if t :| MostOverlapped(records, t) && Inverted(records, t) == 0 {
      assert Net(Events(records), t) <= peak;
      if peak > 0 {
        var u :| Net(Events(records), u) == peak;
        assert Overlap(records, u) <= Overlap(records, t);
      }
    }
  }

  lemma {:induction false} BeforeAll(records: seq<Record>) returns (t: int)
    ensures Inverted(records, t) == 0 && forall u :: u <= t ==> Inverted(records, u) == 0
  {
    if records == [] {
      t := 0;
    } else {
      var r := records[|records| - 1];
      t := BeforeAll(records[..|records| - 1]);
      if r.end <= t { t := r.end - 1; }
    }
  }

  const Backwards: seq<Record> := [Record("exited", "a", 5, 3), Record("exited", "b", 3, 5)]

  /** An interval that runs backwards hides another one: the sweep returns 0 although one interval contains 3. */
  lemma BackwardsHides()
    ensures IsPeak(Events(Backwards), 0) && Overlap(Backwards, 3) == 1
  {
    var records := Backwards;
    assert records[..1] == [records[0]] && [records[0]][..0] == [];
    forall t ensures Net(Events(records), t) <= 0 {
      NetCountsIntervals(records, t);
      assert Overlap(records[..1], t) == 0;
      assert Inverted(records[..1], t) == if 3 <= t < 5 then 1 else 0;
    }
  }

  /** For clocks that never run backwards the sweep returns the true maximum overlap. */
  lemma SweepIsMaximumOverlap(records: seq<Record>, peak: int)
    requires Forward(records) && IsPeak(Events(records), peak)
    ensures IsPeakOverlap(records, peak)
  {
    NetIsOverlapIff(records);
    if peak > 0 {
      var t :| Net(Events(records), t) == peak;
      assert Overlap(records, t) == peak;
    }
    forall t ensures Overlap(records, t) <= peak { assert Net(Events(records), t) <= peak; }
  }

  // ---- per label ----

  function Labels(records: seq<Record>): set<string> {
    set i | 0 <= i < |records| :: records[i].name
  }

  /** The intervals of the labels in `labels`, in order. */
  function Within(records: seq<Record>, labels: set<string>): seq<Record> {
    if records == [] then []
    else
      var r := records[|records| - 1];
      Within(records[..|records| - 1], labels) + if r.name in labels then [r] else []
  }

  lemma {:induction false} WithinSplits(records: seq<Record>, l: string, rest: set<string>, t: int)
    requires l !in rest
    ensures Overlap(Within(records, {l} + rest), t) == Overlap(Within(records, {l}), t) + Overlap(Within(records, rest), t)
  {
    if records != [] {
      var n := |records| - 1;
      var r := records[n];
      hide Overlap;
      WithinSplits(records[..n], l, rest, t);
      OverlapOne(Within(records[..n], {l} + rest), r, t);
      OverlapOne(Within(records[..n], {l}), r, t);
      OverlapOne(Within(records[..n], rest), r, t);
    }
  }

  lemma OverlapOne(records: seq<Record>, r: Record, t: int)
    ensures Overlap(records + [r], t) == Overlap(records, t) + Overlap([r], t)
    ensures records + [] == records && Overlap([], t) == 0
  {
    assert [] + [r] == [r];
    OverlapAppend(records, r, t);
    OverlapAppend([], r, t);
  }

  lemma OverlapAppend(records: seq<Record>, r: Record, t: int)
    ensures Overlap(records + [r], t) == Overlap(records, t) + if Contains(r, t) then 1 else 0
  {
    assert (records + [r])[..|records|] == records;
  }

  lemma {:induction false} WithinAll(records: seq<Record>, labels: set<string>)
    requires Labels(records) <= labels
    ensures Within(records, labels) == records
  {
    if records != [] {
      var n := |records| - 1;
      forall i | 0 <= i <= n ensures records[i].name in labels {
        assert records[i].name in Labels(records);
      }
      assert Labels(records[..n]) <= labels;
      hide Labels;
      WithinAll(records[..n], labels);
      assert records == records[..n] + [records[n]];
    }
  }

  lemma {:induction false} WithinForward(records: seq<Record>, labels: set<string>)
    requires Forward(records)
    ensures Forward(Within(records, labels))
  {
    if records != [] {
      WithinForward(records[..|records| - 1], labels);
    }
  }

  ghost function SumPeaks(peaks: map<string, nat>, labels: set<string>): nat
    requires labels <= peaks.Keys
  {
    if labels == {} then 0
    else
      var l :| l in labels;
      peaks[l] + SumPeaks(peaks, labels - {l})
  }

  lemma {:induction false} OverlapAtMostSum(records: seq<Record>, peaks: map<string, nat>, labels: set<string>, t: int)
    requires labels <= peaks.Keys
    requires forall l :: l in labels ==> Overlap(Within(records, {l}), t) <= peaks[l]
    ensures Overlap(Within(records, labels), t) <= SumPeaks(peaks, labels)
    decreases labels
  {
    if labels == {} {
      WithinNone(records);
    } else {
      var l :| l in labels && SumPeaks(peaks, labels) == peaks[l] + SumPeaks(peaks, labels - {l});
      OverlapAtMostSum(records, peaks, labels - {l}, t);
      WithinSplits(records, l, labels - {l}, t);
      assert {l} + (labels - {l}) == labels;
    }
  }

  lemma {:induction false} WithinNone(records: seq<Record>)
    ensures Within(records, {}) == []
  {
    if records != [] {
      WithinNone(records[..|records| - 1]);
    }
  }

  lemma {:induction false} WithinAtMost(records: seq<Record>, labels: set<string>, t: int)
    ensures Overlap(Within(records, labels), t) <= Overlap(records, t)
  {
    if records != [] {
      var n := |records| - 1;
      WithinAtMost(records[..n], labels, t);
      OverlapAppend(Within(records[..n], labels), records[n], t);
      assert Within(records[..n], labels) + [] == Within(records[..n], labels);
    }
  }

  /** Each label's peak is at most the overall peak, which is at most the sum of the label peaks. */
  lemma PeaksBracket(records: seq<Record>, peak: nat, peaks: map<string, nat>)
    requires IsPeakOverlap(records, peak) && peaks.Keys == Labels(records)
    requires forall l :: l in peaks ==> IsPeakOverlap(Within(records, {l}), peaks[l])
    ensures forall l :: l in peaks ==> peaks[l] <= peak
    ensures peak <= SumPeaks(peaks, peaks.Keys)
  {
    forall l | l in peaks ensures peaks[l] <= peak {
      if peaks[l] > 0 {
        var t :| Overlap(Within(records, {l}), t) == peaks[l];
        WithinAtMost(records, {l}, t);
        assert Overlap(records, t) <= peak;
      }
    }
    if peak > 0 {
      var t :| Overlap(records, t) == peak;
      forall l | l in peaks.Keys ensures Overlap(Within(records, {l}), t) <= peaks[l] {
        assert IsPeakOverlap(Within(records, {l}), peaks[l]);
      }
      OverlapAtMostSum(records, peaks, peaks.Keys, t);
      WithinAll(records, peaks.Keys);
    }
  }

  // ---- the summary ----

  lemma ExitedAppend(records: seq<Record>, i: nat)
    requires i < |records|
    ensures records[i].status == "exited" ==> Exited(records[..i + 1]) == Exited(records[..i]) + [records[i]]
    ensures records[i].status != "exited" ==> Exited(records[..i + 1]) == Exited(records[..i])
  {
    assert records[..i + 1][..i] == records[..i];
  }

  lemma WithinAppend(records: seq<Record>, r: Record, labels: set<string>)
    ensures r.name in labels ==> Within(records + [r], labels) == Within(records, labels) + [r]
    ensures r.name !in labels ==> Within(records + [r], labels) == Within(records, labels)
    ensures Events(records + [r]) == Events(records) + [Event(r.start, 1), Event(r.end, -1)]
    ensures Labels(records + [r]) == Labels(records) + {r.name}
  {
    var all := records + [r];
    assert all[..|records|] == records;
    assert forall i :: 0 <= i < |records| ==> all[i] == records[i];
    assert all[|records|] == r;
  }

  ghost predicate Grouped(records: seq<Record>, byLabel: map<string, seq<Event>>) {
    && byLabel.Keys == Labels(records)
    && forall l :: l in byLabel ==> byLabel[l] == Events(Within(records, {l}))
  }

  lemma GroupedAppend(records: seq<Record>, byLabel: map<string, seq<Event>>, r: Record)
    requires Grouped(records, byLabel)
    ensures Grouped(records + [r], byLabel[r.name := (if r.name in byLabel then byLabel[r.name] else [])
                                                     + [Event(r.start, 1), Event(r.end, -1)]])
  {
    hide Within, Events;
    var after := byLabel[r.name := (if r.name in byLabel then byLabel[r.name] else [])
                                   + [Event(r.start, 1), Event(r.end, -1)]];
    WithinAppend(records, r, {});
    forall l | l in after ensures after[l] == Events(Within(records + [r], {l})) {
      WithinAppend(records, r, {l});
      if l == r.name {
        WithinAppend(Within(records, {l}), r, {});
        if l !in byLabel {
          WithinMissing(records, l);
          NoEvents();
        }
      }
    }
  }

  lemma NoEvents()
    ensures Events([]) == []
  {
  }

  /** Unfinished records are left out; events are collected overall and per label. */
  method CollectEvents(records: seq<Record>) returns (intervals: seq<Event>, byLabel: map<string, seq<Event>>)
    ensures intervals == Events(Exited(records)) && Grouped(Exited(records), byLabel)
  {
    intervals, byLabel := [], map[];
    for i := 0 to |records|
      invariant intervals == Events(Exited(records[..i])) && Grouped(Exited(records[..i]), byLabel)
    {
      var r := records[i];
      ExitedAppend(records, i);
      if r.status == "exited" {
        var pair := [Event(r.start, 1), Event(r.end, -1)];
        WithinAppend(Exited(records[..i]), r, {});
        GroupedAppend(Exited(records[..i]), byLabel, r);
        intervals := intervals + pair;
        byLabel := byLabel[r.name := (if r.name in byLabel then byLabel[r.name] else []) + pair];
      }
    }
    assert records[..|records|] == records;
  }

  method PeakPerLabel(byLabel: map<string, seq<Event>>) returns (peaks: map<string, nat>)
    requires forall l :: l in byLabel ==> UnitChanges(byLabel[l])
    ensures peaks.Keys == byLabel.Keys && forall l :: l in peaks ==> IsPeak(byLabel[l], peaks[l])
  {
    hide IsPeak, UnitChanges;
    peaks := map[];
    var left := byLabel.Keys;
    while left != {}
      invariant left <= byLabel.Keys && peaks.Keys == byLabel.Keys - left
      invariant forall l :: l in peaks ==> IsPeak(byLabel[l], peaks[l])
      decreases |left|
    {
      var l :| l in left;
      var p := PeakOverlap(byLabel[l]);
      peaks := peaks[l := p];
      left := left - {l};
    }
  }

  /**
   The overall peak and the peak of every label, over the exited records only. When no exited interval runs backwards
   these are true maximum overlaps, each label's at most the overall one and that at most their sum.
   */
  method Summarize(records: seq<Record>) returns (peak: nat, peaks: map<string, nat>)
    ensures IsPeak(Events(Exited(records)), peak) && peaks.Keys == Labels(Exited(records))
    ensures forall l :: l in peaks ==> IsPeak(Events(Within(Exited(records), {l})), peaks[l])
    ensures Forward(Exited(records)) ==> IsPeakOverlap(Exited(records), peak)
    ensures Forward(Exited(records)) ==> forall l :: l in peaks ==> peaks[l] <= peak
    ensures Forward(Exited(records)) ==> peak <= SumPeaks(peaks, peaks.Keys)
  {
    hide IsPeak, UnitChanges, IsPeakOverlap;
    var intervals, byLabel := CollectEvents(records);
    NetCountsIntervals(Exited(records), 0);
    peak := PeakOverlap(intervals);
    forall l | l in byLabel ensures UnitChanges(byLabel[l]) { NetCountsIntervals(Within(Exited(records), {l}), 0); }
    peaks := PeakPerLabel(byLabel);
    if Forward(Exited(records)) { ForwardBracket(Exited(records), peak, peaks); }
  }

  lemma ForwardBracket(records: seq<Record>, peak: nat, peaks: map<string, nat>)
    requires Forward(records) && IsPeak(Events(records), peak) && peaks.Keys == Labels(records)
    requires forall l :: l in peaks ==> IsPeak(Events(Within(records, {l})), peaks[l])
    ensures IsPeakOverlap(records, peak) && (forall l :: l in peaks ==> peaks[l] <= peak)
    ensures peak <= SumPeaks(peaks, peaks.Keys)
  {
    hide IsPeak, IsPeakOverlap, Forward;
    SweepIsMaximumOverlap(records, peak);
    forall l | l in peaks ensures IsPeakOverlap(Within(records, {l}), peaks[l]) {
      WithinForward(records, {l});
      SweepIsMaximumOverlap(Within(records, {l}), peaks[l]);
    }
    PeaksBracket(records, peak, peaks);
  }

  lemma {:induction false} WithinMissing(records: seq<Record>, l: string)
    requires l !in Labels(records)
    ensures Within(records, {l}) == []
  {
    if records != [] {
      var n := |records| - 1;
      assert forall i :: 0 <= i < n ==> records[..n][i] == records[i];
      assert records[n].name in Labels(records);
      assert l !in Labels(records[..n]);
      WithinMissing(records[..n], l);
    }
  }
}
