/** Transparent pixels, the exterior, and the filled image. */
module MatteFill {
  import opened Orders
  import opened Graphs

  const OPAQUE_FROM := 34
  const OPAQUE := 255

  // ---- pixel coordinates: index = y * width + x ----

  lemma MulAtLeast(a: int, w: nat)
    requires a >= 1
    ensures a * w >= w
  {
    assert a * w == (a - 1) * w + w;
  }

  lemma QuotientUnique(q: int, r: int, p: int, s: int, w: nat)
    requires 0 <= r < w && 0 <= s < w && q * w + r == p * w + s
    ensures q == p && r == s
  {
    assert (q - p) * w == s - r;
    assert (p - q) * w == r - s;
    if q > p { MulAtLeast(q - p, w); }
    if p > q { MulAtLeast(p - q, w); }
  }

  lemma DivMod(q: int, r: int, w: nat)
    requires 0 <= r < w
    ensures (q * w + r) / w == q && (q * w + r) % w == r
  {
    var i := q * w + r;
    QuotientUnique(q, r, i / w, i % w, w);
  }

  lemma RowBounds(i: nat, w: nat, h: nat)
    requires w > 0
    ensures i < w * h <==> i / w < h
  {
    assert i == (i / w) * w + i % w;
    if i / w < h {
      assert (i / w + 1) * w <= h * w;
    } else {
      assert (i / w) * w >= h * w;
    }
  }

  /** Distance one horizontally or vertically, not both. */
  predicate Adjacent(i: nat, j: nat, w: nat)
    requires w > 0
  {
    || (i / w == j / w && (i % w == j % w + 1 || j % w == i % w + 1))
    || (i % w == j % w && (i / w == j / w + 1 || j / w == i / w + 1))
  }

  predicate OnBorder(i: nat, w: nat, h: nat)
    requires w > 0
  {
    i % w == 0 || i % w == w - 1 || i / w == 0 || i / w == h - 1
  }

  /** The neighbours by index arithmetic, as the fill visits them. */
  function Neighbors(i: nat, w: nat, h: nat): set<int>
    requires w > 0
  {
    (if i % w > 0 then {i - 1} else {}) + (if i % w + 1 < w then {i + 1} else {})
    + (if i / w > 0 then {i - w} else {}) + (if i / w + 1 < h then {i + w} else {})
  }

  lemma NeighborBeside(i: nat, w: nat, h: nat, j: int)
    requires w > 0 && i < w * h && 0 <= j
    ensures j / w == i / w && j % w == i % w + 1 <==> i % w + 1 < w && j == i + 1
    ensures j / w == i / w && i % w == j % w + 1 <==> i % w > 0 && j == i - 1
  {
    hide Neighbors;
    var x, y := i % w, i / w;
    assert i == y * w + x && j == (j / w) * w + j % w;
    if x > 0 { DivMod(y, x - 1, w); }
    if x + 1 < w { DivMod(y, x + 1, w); }
  }

  /** One row down is `w` further on. */
  lemma RowBelow(i: nat, w: nat, j: nat)
    requires w > 0
    ensures j % w == i % w && j / w == i / w + 1 <==> j == i + w
  {
    var x, y := i % w, i / w;
    assert i == y * w + x && j == (j / w) * w + j % w;
    OneMore(y, w);
    DivMod(y + 1, x, w);
  }

  lemma OneMore(y: int, w: nat)
    ensures (y + 1) * w == y * w + w
  {}

  lemma NeighborAbove(i: nat, w: nat, h: nat, j: int)
    requires w > 0 && i < w * h && 0 <= j
    ensures j % w == i % w && j / w == i / w + 1 <==> j == i + w
    ensures j % w == i % w && i / w == j / w + 1 <==> j == i - w
  {
    RowBelow(i, w, j);
    RowBelow(j, w, i);
  }

  /** Index arithmetic finds exactly the adjacent pixels of the image. */
  lemma NeighborsAreAdjacent(i: nat, w: nat, h: nat, j: int)
    requires w > 0 && i < w * h
    ensures j in Neighbors(i, w, h) <==> 0 <= j < w * h && Adjacent(i, j, w)
  {
    RowBounds(i, w, h);
    if j >= 0 {
      RowBounds(j, w, h);
      NeighborBeside(i, w, h, j);
      NeighborAbove(i, w, h, j);
    } else {
      NeighborsInside(i, w, h);
    }
  }

  lemma NeighborsInside(i: nat, w: nat, h: nat)
    requires w > 0 && i < w * h
    ensures forall j :: j in Neighbors(i, w, h) ==> 0 <= j < w * h
  {
    if i / w > 0 { AboveInside(i, w); }
    if i / w + 1 < h { BelowInside(i, w, h); }
    if i % w + 1 < w { RightInside(i, w, h); }
    SelfInside(i, w);
  }

  lemma SelfInside(i: nat, w: nat)
    requires w > 0
    ensures i % w > 0 ==> i > 0
  {}

  lemma BelowInside(i: nat, w: nat, h: nat)
    requires w > 0 && i < w * h && i / w + 1 < h
    ensures i + w < w * h
  {
    NeighborAbove(i, w, h, i + w);
    RowBounds(i + w, w, h);
  }

  lemma RightInside(i: nat, w: nat, h: nat)
    requires w > 0 && i < w * h && i % w + 1 < w
    ensures i + 1 < w * h
  {
    NeighborBeside(i, w, h, i + 1);
    RowBounds(i, w, h);
    RowBounds(i + 1, w, h);
  }

  lemma AboveInside(i: nat, w: nat)
    requires w > 0 && i / w > 0
    ensures i >= w
  {
    MulAtLeast(i / w, w);
    assert i == (i / w) * w + i % w;
  }

  // ---- the exterior ----

  function Transparent(raw: seq<int>): (t: seq<bool>)
    ensures |t| == |raw| && forall i :: 0 <= i < |t| ==> t[i] == (raw[i] < OPAQUE_FROM)
  {
    seq(|raw|, i requires 0 <= i < |raw| => raw[i] < OPAQUE_FROM)
  }

  /** Transparent pixels and their transparent neighbours. */
  ghost function PixelGraph(t: seq<bool>, w: nat, h: nat): Graph<nat>
    requires w > 0 && |t| == w * h
  {
    map i: nat | i < |t| && t[i] :: set j: nat | j < |t| && t[j] && Adjacent(i, j, w)
  }

  /** A path of transparent pixels, each next to the one before, joins `i` to a border pixel. */
  ghost predicate Exterior(t: seq<bool>, w: nat, h: nat, i: nat)
    requires w > 0 && |t| == w * h
  {
    exists b: nat :: b < |t| && t[b] && OnBorder(b, w, h) && Reaches(PixelGraph(t, w, h), b, i)
  }

  lemma BorderIsExterior(t: seq<bool>, w: nat, h: nat, i: nat)
    requires w > 0 && |t| == w * h && i < |t| && t[i] && OnBorder(i, w, h)
    ensures Exterior(t, w, h, i)
  {
    ReachesSelf(PixelGraph(t, w, h), i);
  }

  lemma NextIsExterior(t: seq<bool>, w: nat, h: nat, i: nat, j: nat)
    requires w > 0 && |t| == w * h && i < |t| && j < |t| && t[i] && t[j]
    requires Exterior(t, w, h, i) && Adjacent(i, j, w)
    ensures Exterior(t, w, h, j)
  {
    var g := PixelGraph(t, w, h);
    var b: nat :| b < |t| && t[b] && OnBorder(b, w, h) && Reaches(g, b, i);
    ReachesEdge(g, b, i, j);
  }

  /** A set of pixels that holds the transparent border and every next step holds the whole exterior. */
  lemma ExteriorInside(t: seq<bool>, w: nat, h: nat, marked: set<nat>, i: nat)
    requires w > 0 && |t| == w * h && Exterior(t, w, h, i)
    requires forall b: nat :: b < |t| && t[b] && OnBorder(b, w, h) ==> b in marked
    requires forall a: nat, b: nat :: a in marked && a < |t| && t[a] && b < |t| && t[b] && Adjacent(a, b, w) ==> b in marked
    ensures i in marked
  {
    var g := PixelGraph(t, w, h);
    var b: nat :| b < |t| && t[b] && OnBorder(b, w, h) && Reaches(g, b, i);
    ReachesStaysInside(g, marked, b, i);
  }

  /** Fill every transparent pixel that is not exterior. */
  ghost function Filled(raw: seq<int>, w: nat, h: nat): (r: seq<int>)
    requires w > 0 && |raw| == w * h
    ensures |r| == |raw|
  {
    seq(|raw|, i requires 0 <= i < |raw| =>
      if raw[i] < OPAQUE_FROM && !Exterior(Transparent(raw), w, h, i) then OPAQUE else raw[i])
  }

  /** Exterior pixels stay exterior when holes are filled: the joining path is exterior all along. */
  lemma {:induction false} ExteriorKept(raw: seq<int>, w: nat, h: nat, p: seq<nat>, b: nat, i: nat)
    requires w > 0 && |raw| == w * h
    requires b < |raw| && raw[b] < OPAQUE_FROM && OnBorder(b, w, h)
    requires IsPath(PixelGraph(Transparent(raw), w, h), p, b, i)
    ensures i < |raw| && raw[i] < OPAQUE_FROM && Exterior(Transparent(raw), w, h, i)
    ensures Exterior(Transparent(Filled(raw, w, h)), w, h, i)
    decreases |p|
  {
    var t, t' := Transparent(raw), Transparent(Filled(raw, w, h));
    if |p| == 1 {
      BorderIsExterior(t, w, h, b);
      BorderIsExterior(t', w, h, b);
    } else {
      var q := p[..|p| - 1];
      var last := q[|q| - 1];
      assert IsPath(PixelGraph(t, w, h), q, b, last) by {
        forall k | 0 <= k < |q| - 1 ensures Edge(PixelGraph(t, w, h), q[k], q[k + 1]) {
          assert Edge(PixelGraph(t, w, h), p[k], p[k + 1]);
        }
      }
      ExteriorKept(raw, w, h, q, b, last);
      assert Edge(PixelGraph(t, w, h), p[|p| - 2], p[|p| - 2 + 1]);
      NextIsExterior(t, w, h, last, i);
      NextIsExterior(t', w, h, last, i);
    }
  }

  /** After filling, every pixel still transparent is joined to the border, and filling again changes nothing. */
  lemma FillIsIdempotent(raw: seq<int>, w: nat, h: nat)
    requires w > 0 && |raw| == w * h
    ensures forall i: nat :: i < |raw| && Filled(raw, w, h)[i] < OPAQUE_FROM ==>
      Exterior(Transparent(Filled(raw, w, h)), w, h, i)
    ensures Filled(Filled(raw, w, h), w, h) == Filled(raw, w, h)
  {
    var once := Filled(raw, w, h);
    forall i: nat | i < |raw| && once[i] < OPAQUE_FROM ensures Exterior(Transparent(once), w, h, i) {
      assert Exterior(Transparent(raw), w, h, i);
      var b: nat :| b < |raw| && raw[b] < OPAQUE_FROM && OnBorder(b, w, h) && Reaches(PixelGraph(Transparent(raw), w, h), b, i);
      var p :| IsPath(PixelGraph(Transparent(raw), w, h), p, b, i);
      ExteriorKept(raw, w, h, p, b, i);
    }
    forall i | 0 <= i < |raw| ensures Filled(once, w, h)[i] == once[i] {}
  }

  // ---- the filled image, pixel by pixel ----

  function Distance(a: int, b: int): nat {
    if a < b then b - a else a - b
  }

  /** Dark pixels from the border to `i`, each one step right, left, down or up from the one before. */
  ghost predicate LeadsOut(raw: seq<int>, w: nat, h: nat, path: seq<nat>, i: nat)
    requires w > 0
  {
    && path != [] && path[|path| - 1] == i
    && (forall k :: 0 <= k < |path| ==> path[k] < |raw| && raw[path[k]] < 34)
    && (path[0] % w == 0 || path[0] % w == w - 1 || path[0] / w == 0 || path[0] / w == h - 1)
    && forall k :: 0 <= k < |path| - 1 ==>
         Distance(path[k] % w, path[k + 1] % w) + Distance(path[k] / w, path[k + 1] / w) == 1
  }

  lemma PathLeadsOut(raw: seq<int>, w: nat, h: nat, path: seq<nat>, i: nat)
    requires w > 0 && |raw| == w * h
    ensures LeadsOut(raw, w, h, path, i) <==>
      && path != [] && path[0] < |raw| && raw[path[0]] < OPAQUE_FROM && OnBorder(path[0], w, h)
      && IsPath(PixelGraph(Transparent(raw), w, h), path, path[0], i)
  {
    var g := PixelGraph(Transparent(raw), w, h);
    if LeadsOut(raw, w, h, path, i) {
      forall k | 0 <= k < |path| - 1 ensures Edge(g, path[k], path[k + 1]) {
        StepIsAdjacent(path[k], path[k + 1], w);
      }
    }
    if path != [] && path[0] < |raw| && raw[path[0]] < OPAQUE_FROM && OnBorder(path[0], w, h) && IsPath(g, path, path[0], i) {
      forall k | 0 <= k < |path| ensures path[k] < |raw| && raw[path[k]] < 34 {
        if k > 0 { assert Edge(g, path[k - 1], path[k - 1 + 1]); }
      }
      forall k | 0 <= k < |path| - 1
        ensures Distance(path[k] % w, path[k + 1] % w) + Distance(path[k] / w, path[k + 1] / w) == 1
      {
        assert Edge(g, path[k], path[k + 1]);
        StepIsAdjacent(path[k], path[k + 1], w);
      }
    }
  }

  lemma StepIsAdjacent(a: nat, b: nat, w: nat)
    requires w > 0
    ensures Distance(a % w, b % w) + Distance(a / w, b / w) == 1 <==> Adjacent(a, b, w)
  {}

  /** A pixel becomes fully opaque exactly when it is below 34 and no such path leads to it; all others stay. */
  lemma FilledExact(raw: seq<int>, w: nat, h: nat, i: nat)
    requires w > 0 && |raw| == w * h && i < |raw|
    ensures Filled(raw, w, h)[i]
      == if raw[i] < 34 && !(exists path :: LeadsOut(raw, w, h, path, i)) then 255 else raw[i]
  {
    var t := Transparent(raw);
    if Exterior(t, w, h, i) {
      var b: nat :| b < |t| && t[b] && OnBorder(b, w, h) && Reaches(PixelGraph(t, w, h), b, i);
      var path :| IsPath(PixelGraph(t, w, h), path, b, i);
      PathLeadsOut(raw, w, h, path, i);
    }
    if path :| LeadsOut(raw, w, h, path, i) {
      PathLeadsOut(raw, w, h, path, i);
      assert t[path[0]];
    }
  }
}
