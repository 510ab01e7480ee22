/**
 The breadth-first flood fill from the image border, and the hole fill that follows it, in place.

 The marks are kept equal to the queued pixels, each queued once and each joined to the border; when the queue is empty
 every marked pixel is surrounded by marked ones, so that the marks are the exterior.
 */
module FloodFill {
  import opened Orders
  import opened Graphs
  import opened MatteFill

  /** The marks are exactly the queued pixels, each queued once, all transparent and exterior. */
  ghost predicate Marks(t: seq<bool>, w: nat, h: nat, exterior: seq<bool>, queued: seq<nat>) {
    && w > 0 && h > 0 && |t| == w * h && |exterior| == |t|
    && Distinct(queued)
    && (forall i: nat :: i in queued <==> i < |t| && exterior[i])
    && (forall i: nat :: i < |t| && exterior[i] ==> t[i] && Exterior(t, w, h, i))
  }

  /** Every transparent pixel next to `i` is marked. */
  ghost predicate Surrounded(t: seq<bool>, w: nat, exterior: seq<bool>, i: nat)
    requires w > 0 && |exterior| == |t|
  {
    forall j: nat :: j < |t| && t[j] && Adjacent(i, j, w) ==> exterior[j]
  }

  ghost predicate AllSurrounded(t: seq<bool>, w: nat, exterior: seq<bool>, popped: seq<nat>)
    requires w > 0 && |exterior| == |t|
  {
    forall i :: i in popped ==> Surrounded(t, w, exterior, i)
  }

  predicate Grows(before: seq<bool>, after: seq<bool>) {
    |before| == |after| && forall k :: 0 <= k < |before| && before[k] ==> after[k]
  }

  lemma DistinctAppend(s: seq<nat>, x: nat)
    requires Distinct(s) && x !in s
    ensures Distinct(s + [x])
  {}

  lemma NotTwice(s: seq<nat>, i: nat, j: nat)
    requires Distinct(s) && i < j < |s|
    ensures s[i] != s[j]
  {}

  lemma MarksGain(t: seq<bool>, w: nat, h: nat, exterior: seq<bool>, queued: seq<nat>, i: nat)
    requires Marks(t, w, h, exterior, queued) && i < |t| && t[i] && !exterior[i] && Exterior(t, w, h, i)
    ensures Marks(t, w, h, exterior[i := true], queued + [i])
  {
    hide Exterior;
    DistinctAppend(queued, i);
  }

  /** With the border marked and every marked pixel surrounded, the marks are the exterior. */
  lemma MarksAreExterior(t: seq<bool>, w: nat, h: nat, exterior: seq<bool>, queued: seq<nat>)
    requires Marks(t, w, h, exterior, queued) && AllSurrounded(t, w, exterior, queued)
    requires forall b: nat :: b < |t| && t[b] && OnBorder(b, w, h) ==> exterior[b]
    ensures forall i: nat :: i < |t| ==> (exterior[i] <==> t[i] && Exterior(t, w, h, i))
  {
    hide Exterior, OnBorder, Adjacent;
    var marked := set i: nat | i < |t| && exterior[i];
    forall a: nat, b: nat | a in marked && a < |t| && t[a] && b < |t| && t[b] && Adjacent(a, b, w) ensures b in marked {
      assert a in queued && Surrounded(t, w, exterior, a);
    }
    forall i: nat | i < |t| && t[i] && Exterior(t, w, h, i) ensures exterior[i] {
      ExteriorInside(t, w, h, marked, i);
    }
  }

  lemma SurroundedGrows(t: seq<bool>, w: nat, before: seq<bool>, after: seq<bool>, popped: seq<nat>)
    requires w > 0 && |before| == |t| && Grows(before, after) && AllSurrounded(t, w, before, popped)
    ensures AllSurrounded(t, w, after, popped)
  {
    forall i | i in popped ensures Surrounded(t, w, after, i) {
      assert Surrounded(t, w, before, i);
    }
  }

  /** Marked, or nothing to mark. */
  predicate Done(t: seq<bool>, exterior: seq<bool>, j: int) {
    0 <= j < |t| && j < |exterior| && t[j] ==> exterior[j]
  }

  lemma DoneGrows(t: seq<bool>, before: seq<bool>, after: seq<bool>)
    requires Grows(before, after)
    ensures forall j :: Done(t, before, j) ==> Done(t, after, j)
  {}

  lemma NeighborsSurround(t: seq<bool>, w: nat, h: nat, exterior: seq<bool>, i: nat, x: nat, y: nat)
    requires w > 0 && |t| == w * h == |exterior| && i < |t| && x == i % w && y == i / w
    requires x > 0 ==> Done(t, exterior, i - 1)
    requires x + 1 < w ==> Done(t, exterior, i + 1)
    requires y > 0 ==> Done(t, exterior, i - w)
    requires y + 1 < h ==> Done(t, exterior, i + w)
    ensures Surrounded(t, w, exterior, i)
  {
    hide Adjacent;
    forall j: nat | j < |t| && t[j] && Adjacent(i, j, w) ensures exterior[j] {
      NeighborsAreAdjacent(i, w, h, j);
    }
  }

  /** The transparent pixels of the first `n` places of the top and bottom rows are marked. */
  ghost predicate RowsSeeded(t: seq<bool>, w: nat, h: nat, exterior: seq<bool>, n: nat)
    requires w > 0 && |exterior| == |t|
  {
    forall b: nat :: b < |t| && t[b] && b % w < n && (b / w == 0 || b / w == h - 1) ==> exterior[b]
  }

  ghost predicate ColumnsSeeded(t: seq<bool>, w: nat, exterior: seq<bool>, n: nat)
    requires w > 0 && |exterior| == |t|
  {
    forall b: nat :: b < |t| && t[b] && b / w < n && (b % w == 0 || b % w == w - 1) ==> exterior[b]
  }

  lemma RowsStep(t: seq<bool>, w: nat, h: nat, before: seq<bool>, after: seq<bool>, n: nat)
    requires w > 0 && |before| == |t| && Grows(before, after) && RowsSeeded(t, w, h, before, n)
    requires n < |t| && (t[n] ==> after[n])
    requires 0 <= (h - 1) * w + n < |t| && (t[(h - 1) * w + n] ==> after[(h - 1) * w + n])
    ensures RowsSeeded(t, w, h, after, n + 1)
  {
    forall b: nat | b < |t| && t[b] && b % w < n + 1 && (b / w == 0 || b / w == h - 1) ensures after[b] {
      RowPlace(b, w, h);
      if b % w < n { assert before[b]; }
    }
  }

  lemma RowPlace(b: nat, w: nat, h: nat)
    requires w > 0
    ensures b / w == 0 ==> b == b % w
    ensures b / w == h - 1 ==> b == (h - 1) * w + b % w
  {
    assert b == (b / w) * w + b % w;
  }

  lemma NothingSeeded(t: seq<bool>, w: nat, h: nat, exterior: seq<bool>)
    requires w > 0 && |exterior| == |t|
    ensures RowsSeeded(t, w, h, exterior, 0) && ColumnsSeeded(t, w, exterior, 0)
  {}

  lemma RowsKept(t: seq<bool>, w: nat, h: nat, before: seq<bool>, after: seq<bool>, n: nat)
    requires w > 0 && |before| == |t| && Grows(before, after) && RowsSeeded(t, w, h, before, n)
    ensures RowsSeeded(t, w, h, after, n)
  {}

  lemma ColumnsStep(t: seq<bool>, w: nat, before: seq<bool>, after: seq<bool>, n: nat)
    requires w > 0 && |before| == |t| && Grows(before, after) && ColumnsSeeded(t, w, before, n)
    requires 0 <= n * w && n * w + w - 1 < |t|
    requires t[n * w] ==> after[n * w]
    requires t[n * w + w - 1] ==> after[n * w + w - 1]
    ensures ColumnsSeeded(t, w, after, n + 1)
  {
    forall b: nat | b < |t| && t[b] && b / w < n + 1 && (b % w == 0 || b % w == w - 1) ensures after[b] {
      assert b == (b / w) * w + b % w;
      if b / w < n { assert before[b]; }
    }
  }

  lemma BorderSeeded(t: seq<bool>, w: nat, h: nat, exterior: seq<bool>)
    requires w > 0 && |exterior| == |t| == w * h && RowsSeeded(t, w, h, exterior, w) && ColumnsSeeded(t, w, exterior, h)
    ensures forall b: nat :: b < |t| && t[b] && OnBorder(b, w, h) ==> exterior[b]
  {
    forall b: nat | b < |t| && t[b] && OnBorder(b, w, h) ensures exterior[b] {
      RowBounds(b, w, h);
    }
  }

  lemma GrowsTransitive(a: seq<bool>, b: seq<bool>, c: seq<bool>)
    requires Grows(a, b) && Grows(b, c)
    ensures Grows(a, c)
  {}

  lemma GrownAt(a: seq<bool>, b: seq<bool>, k: nat)
    requires Grows(a, b) && k < |a|
    ensures a[k] ==> b[k]
  {}

  class Flood {
    const width: nat
    const height: nat
    const transparent: seq<bool>
    const exterior: array<bool>
    var queue: seq<nat>
    ghost var popped: seq<nat>

    ghost predicate Valid()
      reads this, exterior
    {
      Marks(transparent, width, height, exterior[..], popped + queue)
    }

    constructor (transparent: seq<bool>, width: nat, height: nat)
      requires width > 0 && height > 0 && |transparent| == width * height
      ensures Valid() && popped == [] && fresh(exterior)
      ensures this.transparent == transparent && this.width == width && this.height == height
    {
      this.width, this.height, this.transparent := width, height, transparent;
      exterior := new bool[width * height](_ => false);
      queue, popped := [], [];
    }

    /** Mark and queue a transparent pixel that is not marked yet. */
    method Seed(index: int)
      requires Valid() && Shape() && Side(index)
      modifies this`queue, exterior
      ensures Valid()
      ensures exterior.Length == |transparent|
      ensures exterior[..] == if transparent[index] then old(exterior[..])[index := true] else old(exterior[..])
      ensures Grows(old(exterior[..]), exterior[..]) && (transparent[index] ==> exterior[..][index])
      ensures Done(transparent, exterior[..], index)
      ensures queue == old(queue) + if transparent[index] && !old(exterior[index]) then [index] else []
    {
      hide Marks, Exterior;
      assert exterior.Length == |transparent| by { MarksShape(); }
      if transparent[index] && !exterior[index] {
        MarksGain(transparent, width, height, exterior[..], popped + queue, index);
        assert popped + queue + [index] == popped + (queue + [index]);
        exterior[index] := true;
        queue := queue + [index];
        assert exterior[..] == old(exterior[..])[index := true];
      } else if transparent[index] {
        assert exterior[..] == old(exterior[..])[index := true];
      }
    }

    predicate Shape() {
      width > 0 && height > 0 && |transparent| == width * height == exterior.Length
    }

    lemma MarksShape()
      requires Valid()
      ensures Shape()
    {}

    lemma RowsReach(x: nat)
      requires Valid() && x < width
      ensures x < |transparent| && OnBorder(x, width, height)
      ensures 0 <= (height - 1) * width + x < |transparent| && OnBorder((height - 1) * width + x, width, height)
    {
      DivMod(0, x, width);
      DivMod(height - 1, x, width);
      RowBounds(x, width, height);
      assert (height - 1) * width >= 0;
      RowBounds((height - 1) * width + x, width, height);
    }

    lemma ColumnsReach(y: nat)
      requires Valid() && y < height
      ensures 0 <= y * width < |transparent| && OnBorder(y * width, width, height)
      ensures 0 <= y * width + width - 1 < |transparent| && OnBorder(y * width + width - 1, width, height)
    {
      DivMod(y, 0, width);
      DivMod(y, width - 1, width);
      assert y * width >= 0;
      RowBounds(y * width, width, height);
      RowBounds(y * width + width - 1, width, height);
    }

    lemma BorderSeeds(index: nat)
      requires Valid() && index < |transparent| && OnBorder(index, width, height)
      ensures Side(index)
    {
      if transparent[index] { BorderIsExterior(transparent, width, height, index); }
    }

    /** Seed the top and bottom rows, then the left and right columns. */
    method SeedBorder()
      requires Valid() && popped == []
      modifies this`queue, exterior
      ensures Valid()
      ensures forall b: nat :: b < |transparent| && transparent[b] && OnBorder(b, width, height) ==> exterior[b]
    {
      hide Marks, Exterior, OnBorder, RowsSeeded, ColumnsSeeded, Grows;
      MarksShape();
      NothingSeeded(transparent, width, height, exterior[..]);
      for x := 0 to width
        invariant Valid()
        invariant RowsSeeded(transparent, width, height, exterior[..], x)
      {
        ghost var before := exterior[..];
        RowsReach(x);
        BorderSeeds(x);
        Seed(x);
        ghost var middle := exterior[..];
        BorderSeeds((height - 1) * width + x);
        Seed((height - 1) * width + x);
        GrowsTransitive(before, middle, exterior[..]);
        GrownAt(middle, exterior[..], x);
        RowsStep(transparent, width, height, before, exterior[..], x);
      }
      NothingSeeded(transparent, width, height, exterior[..]);
      for y := 0 to height
        invariant Valid()
        invariant RowsSeeded(transparent, width, height, exterior[..], width)
        invariant ColumnsSeeded(transparent, width, exterior[..], y)
      {
        ghost var before := exterior[..];
        ColumnsReach(y);
        BorderSeeds(y * width);
        Seed(y * width);
        ghost var middle := exterior[..];
        BorderSeeds(y * width + width - 1);
        Seed(y * width + width - 1);
        GrowsTransitive(before, middle, exterior[..]);
        GrownAt(middle, exterior[..], y * width);
        ColumnsStep(transparent, width, before, exterior[..], y);
        RowsKept(transparent, width, height, before, exterior[..], width);
      }
      BorderSeeded(transparent, width, height, exterior[..]);
    }

    /** Spread the marks along a popped pixel's sides, in the order left, right, up, down. */
    method Visit(index: nat)
      requires Valid() && Shape() && index < |transparent| && exterior[index]
      modifies this`queue, exterior
      ensures Valid()
      ensures Grows(old(exterior[..]), exterior[..])
      ensures Surrounded(transparent, width, exterior[..], index)
    {
      hide Marks, Exterior, Surrounded, Adjacent, Side, Done, Grows;
      var x := index % width;
      var y := index / width;
      SidesInside(index, x, y);
      ghost var e0 := exterior[..];
      if x > 0 { Seed(index - 1); }
      ghost var e1 := exterior[..];
      if x + 1 < width { Seed(index + 1); }
      ghost var e2 := exterior[..];
      DoneGrows(transparent, e1, e2);
      if y > 0 { Seed(index - width); }
      ghost var e3 := exterior[..];
      DoneGrows(transparent, e2, e3);
      if y + 1 < height { Seed(index + width); }
      DoneGrows(transparent, e3, exterior[..]);
      GrowsTransitive(e0, e1, e2);
      GrowsTransitive(e0, e2, e3);
      GrowsTransitive(e0, e3, exterior[..]);
      NeighborsSurround(transparent, width, height, exterior[..], index, x, y);
    }

    /** The neighbours of an exterior pixel are pixels, and exterior when transparent. */
    lemma SidesInside(index: nat, x: nat, y: nat)
      requires Valid() && Shape() && index < |transparent| && exterior[index]
      requires x == index % width && y == index / width
      ensures x > 0 ==> Side(index - 1)
      ensures x + 1 < width ==> Side(index + 1)
      ensures y > 0 ==> Side(index - width)
      ensures y + 1 < height ==> Side(index + width)
    {
      hide Exterior, Adjacent;
      NeighborsInside(index, width, height);
      forall j | j in Neighbors(index, width, height) ensures Side(j) {
        NeighborsAreAdjacent(index, width, height, j);
        if transparent[j] { NextIsExterior(transparent, width, height, index, j); }
      }
    }

    /** A pixel that the fill may mark. */
    ghost predicate Side(j: int)
      requires Shape()
    {
      0 <= j < |transparent| && (transparent[j] ==> Exterior(transparent, width, height, j))
    }

    /** Pop until the queue is empty: the marks are the exterior, and every exterior pixel was queued exactly once. */
    method Spread()
      requires Valid() && popped == []
      requires forall b: nat :: b < |transparent| && transparent[b] && OnBorder(b, width, height) ==> exterior[b]
      modifies this, exterior
      ensures Valid() && queue == [] && Distinct(popped)
      ensures forall i: nat :: i in popped <==> i < |transparent| && exterior[i]
      ensures forall i: nat :: i < |transparent| ==>
        (exterior[i] <==> transparent[i] && Exterior(transparent, width, height, i))
    {
      hide Marks, Exterior, OnBorder, Surrounded;
      MarksShape();
      ghost var seeded := exterior[..];
      assert AllSurrounded(transparent, width, exterior[..], popped);
      while queue != []
        invariant Valid() && Grows(seeded, exterior[..])
        invariant AllSurrounded(transparent, width, exterior[..], popped)
        decreases Pixels(transparent) - Elements(popped)
      {
        var index := queue[0];
        PopFresh(index);
        ghost var before, done := exterior[..], popped;
        assert popped + queue == (popped + [index]) + queue[1..];
        queue := queue[1..];
        popped := popped + [index];
        Visit(index);
        SurroundedGrows(transparent, width, before, exterior[..], done);
        assert index !in Elements(done) && index in Pixels(transparent) && Elements(popped) == Elements(done) + {index};
      }
      assert popped + queue == popped;
      MarksAreExterior(transparent, width, height, exterior[..], popped);
      MarksListed();
    }

    lemma PopFresh(index: nat)
      requires Valid() && queue != [] && index == queue[0]
      ensures index < |transparent| && transparent[index] && exterior[index] && index !in popped
    {
      hide Exterior;
      assert (popped + queue)[|popped|] == index;
      assert index in popped + queue;
      forall k | 0 <= k < |popped| ensures popped[k] != index {
        NotTwice(popped + queue, k, |popped|);
      }
    }

    lemma MarksListed()
      requires Valid() && queue == []
      ensures Distinct(popped) && forall i: nat :: i in popped <==> i < |transparent| && exterior[i]
    {
      assert popped + queue == popped;
    }
  }

  ghost function Pixels(t: seq<bool>): set<nat> {
    set i: nat | i < |t| && t[i] :: i
  }

  lemma FilledSoFar(raw: seq<int>, w: nat, h: nat, now: seq<int>, next: seq<int>, exterior: seq<bool>, n: nat)
    requires w > 0 && |raw| == w * h == |now| == |exterior| && n < |raw|
    requires now == Filled(raw, w, h)[..n] + raw[n..]
    requires exterior[n] <==> raw[n] < OPAQUE_FROM && Exterior(Transparent(raw), w, h, n)
    requires next == if raw[n] < OPAQUE_FROM && !exterior[n] then now[n := OPAQUE] else now
    ensures next == Filled(raw, w, h)[..n + 1] + raw[n + 1..]
  {
    hide Exterior;
    assert next[n] == Filled(raw, w, h)[n];
  }

  lemma FilledNothing(raw: seq<int>, w: nat, h: nat)
    requires w > 0 && |raw| == w * h
    ensures Filled(raw, w, h)[..0] + raw[0..] == raw
  {}

  /** The hole pass: every transparent pixel the fill did not reach becomes opaque, everything else is left alone. */
  method FillHoles(raw: array<int>, width: nat, height: nat)
    requires width > 0 && height > 0 && raw.Length == width * height
    modifies raw
    ensures raw[..] == Filled(old(raw[..]), width, height)
  {
    hide Exterior, Filled, Marks, OnBorder;
    ghost var was := raw[..];
    var transparent := Transparent(raw[..]);
    var flood := new Flood(transparent, width, height);
    flood.SeedBorder();
    flood.Spread();
    flood.MarksShape();
    ghost var marks := flood.exterior[..];
    FilledNothing(was, width, height);
    for index := 0 to raw.Length
      invariant raw[..] == Filled(was, width, height)[..index] + was[index..]
      invariant flood.exterior[..] == marks
    {
      ghost var now := raw[..];
      assert flood.exterior[index] == marks[index];
      if transparent[index] && !flood.exterior[index] {
        raw[index] := OPAQUE;
      }
      FilledSoFar(was, width, height, now, raw[..], marks, index);
    }
  }
}
