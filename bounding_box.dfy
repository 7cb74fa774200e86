/** The marker detector that all three platform copies share: scan a raster, keep the
    axis-aligned bounding box of the pixels a colour predicate accepts, and turn the
    box into a normalised `DetectionResult`.

    A raster is a grid of decoded channel triples, row `y` first, column `x` second.
    The reference meaning of "the bounding box" is `IsBoundingBox`: every matching
    pixel lies inside the box and each of the four bounds is reached by a matching
    pixel. `BBox` computes it in the scan order of the source (rows top to bottom,
    columns left to right) and is proved to meet that characterisation. */
module BoundingBox {
  import opened Results

  /** Kotlin's `Int.MAX_VALUE` and `Int.MIN_VALUE`, the sentinels the scans start from. */
  const IntMax: int := 0x7fff_ffff
  const IntMin: int := -0x8000_0000

  /** One decoded pixel; alpha is read by no detector and is not kept. */
  datatype Rgb = Rgb(red: int, green: int, blue: int)

  type Grid = seq<seq<Rgb>>

  /** A marker's colour test on the three 8-bit channels. */
  type ColorPredicate = (int, int, int) -> bool

  /** `g` has `height` rows of `width` pixels each. */
  predicate IsRaster(g: Grid, width: int, height: int) {
    |g| == height && forall y :: 0 <= y < |g| ==> |g[y]| == width
  }

  predicate Hit(c: Rgb, pred: ColorPredicate) {
    pred(c.red, c.green, c.blue)
  }

  /** The coordinates `(x, y)` of the matching pixels of `row`, which is row `y`. */
  ghost function RowHits(row: seq<Rgb>, y: int, pred: ColorPredicate): set<(int, int)> {
    set x | 0 <= x < |row| && Hit(row[x], pred) :: (x, y)
  }

  /** The coordinates `(x, y)` of all matching pixels of `g`. */
  ghost function Hits(g: Grid, pred: ColorPredicate): set<(int, int)> {
    set y, x | 0 <= y < |g| && 0 <= x < |g[y]| && Hit(g[y][x], pred) :: (x, y)
  }

  datatype Box = Box(minX: int, minY: int, maxX: int, maxY: int)

  predicate Contains(b: Box, p: (int, int)) {
    b.minX <= p.0 <= b.maxX && b.minY <= p.1 <= b.maxY
  }

  /** `b` is the tightest axis-aligned box around the points `s`: absent exactly when
      `s` is empty, otherwise containing every point with each bound attained. */
  ghost predicate IsBoundingBox(b: Option<Box>, s: set<(int, int)>) {
    match b
    case None => s == {}
    case Some(box) =>
      && (forall p :: p in s ==> Contains(box, p))
      && (exists p :: p in s && p.0 == box.minX)
      && (exists p :: p in s && p.0 == box.maxX)
      && (exists p :: p in s && p.1 == box.minY)
      && (exists p :: p in s && p.1 == box.maxY)
  }

  /** Kotlin's `minOf` and `maxOf` on `Int`. */
  function Min(a: int, b: int): int { if a <= b then a else b }
  function Max(a: int, b: int): int { if a <= b then b else a }

  /** The smallest box around two (possibly absent) boxes. */
  function Hull(a: Option<Box>, b: Option<Box>): Option<Box> {
    match (a, b)
    case (None, _) => b
    case (_, None) => a
    case (Some(p), Some(q)) =>
      Some(Box(Min(p.minX, q.minX), Min(p.minY, q.minY), Max(p.maxX, q.maxX), Max(p.maxY, q.maxY)))
  }

  function PixelBox(x: int, y: int): Box {
    Box(x, y, x, y)
  }

  /** The box of the matching pixels of `row` (row number `y`), accumulated left to right. */
  function RowBox(row: seq<Rgb>, y: int, pred: ColorPredicate): (r: Option<Box>)
    ensures r.Some? ==> 0 <= r.value.minX <= r.value.maxX < |row|
    ensures r.Some? ==> r.value.minY == r.value.maxY == y
    decreases |row|
  {
    if row == [] then None
    else
      var x := |row| - 1;
      Hull(RowBox(row[..x], y, pred), if Hit(row[x], pred) then Some(PixelBox(x, y)) else None)
  }

  /** The box of the matching pixels of `g`, accumulated row by row from the top. */
  function BBox(g: Grid, pred: ColorPredicate): (r: Option<Box>)
    ensures r.Some? ==> r.value.minX <= r.value.maxX
    ensures r.Some? ==> 0 <= r.value.minY <= r.value.maxY < |g|
    decreases |g|
  {
    if g == [] then None
    else
      var y := |g| - 1;
      Hull(BBox(g[..y], pred), RowBox(g[y], y, pred))
  }

  /** What the five scan variables `found`, `minX`, `minY`, `maxX`, `maxY` stand for. */
  function Tracked(found: bool, minX: int, minY: int, maxX: int, maxY: int): Option<Box> {
    if found then Some(Box(minX, minY, maxX, maxY)) else None
  }

  /** Before the first match the scan variables still hold their sentinels. */
  predicate Untouched(found: bool, minX: int, minY: int, maxX: int, maxY: int) {
    !found ==> minX == IntMax && minY == IntMax && maxX == IntMin && maxY == IntMin
  }

  /** Centre and horizontal extent of `b` as fractions of the image size, computed as the
      source does with `/ 2f`, `/ width` and `/ height`, here in exact arithmetic. */
  function Normalize(b: Box, width: int, height: int): (r: DetectionResult)
    requires 0 <= b.minX <= b.maxX < width
    requires 0 <= b.minY <= b.maxY < height
    ensures 0.0 <= r.position.x < 1.0 && 0.0 <= r.position.y < 1.0
    ensures 0.0 <= r.size < 1.0
    ensures b.minX as real <= r.position.x * width as real <= b.maxX as real
    ensures b.minY as real <= r.position.y * height as real <= b.maxY as real
    ensures r.position.x * width as real == (b.minX + b.maxX) as real / 2.0
    ensures r.position.y * height as real == (b.minY + b.maxY) as real / 2.0
    ensures r.size * width as real == (b.maxX - b.minX) as real
  {
    var centerX := (b.minX + b.maxX) as real / 2.0;
    var centerY := (b.minY + b.maxY) as real / 2.0;
    var dotWidth := (b.maxX - b.minX) as real;
    Fraction(centerX, width as real);
    Fraction(centerY, height as real);
    Fraction(dotWidth, width as real);
    DetectionResult(Offset(centerX / width as real, centerY / height as real), dotWidth / width as real)
  }

  /** A non-negative quantity below a positive denominator is a fraction in [0, 1)
      that scales back to the quantity. */
  lemma Fraction(a: real, d: real)
    requires 0.0 <= a < d
    ensures 0.0 <= a / d < 1.0
    ensures a / d * d == a
  {
  }

  /** The whole detection on a decoded raster: absent when nothing matches, otherwise
      the normalised bounding box of the matches. */
  function Locate(g: Grid, width: int, height: int, pred: ColorPredicate): (r: Option<DetectionResult>)
    requires IsRaster(g, width, height)
    ensures r.None? <==> Hits(g, pred) == {}
    ensures r.Some? ==> 0.0 <= r.value.position.x < 1.0 && 0.0 <= r.value.position.y < 1.0
    ensures r.Some? ==> 0.0 <= r.value.size < 1.0
  {
    BBoxIsBoundingBox(g, pred);
    match BBox(g, pred)
    case None => None
    case Some(b) =>
      BoxWithinRaster(g, width, height, pred, b);
      Some(Normalize(b, width, height))
  }

  // ---------------------------------------------------------------------------
  // Lemmas

  /** The box of two point sets is the hull of their boxes. */
  lemma HullIsBoundingBox(a: Option<Box>, b: Option<Box>, s: set<(int, int)>, t: set<(int, int)>)
    requires IsBoundingBox(a, s) && IsBoundingBox(b, t)
    ensures IsBoundingBox(Hull(a, b), s + t)
  {
    if a.Some? && b.Some? {
      var h := Hull(a, b).value;
      assert forall w :: w in s + t ==> Contains(h, w);
      HullAttained(a.value, b.value, s, t);
    }
  }

  /** Each bound of the hull is a bound of one of the two boxes, so it is reached by a
      point of that box's set. */
  lemma HullAttained(p: Box, q: Box, s: set<(int, int)>, t: set<(int, int)>)
    requires IsBoundingBox(Some(p), s) && IsBoundingBox(Some(q), t)
    ensures var h := Hull(Some(p), Some(q)).value;
      && (exists w :: w in s + t && w.0 == h.minX)
      && (exists w :: w in s + t && w.0 == h.maxX)
      && (exists w :: w in s + t && w.1 == h.minY)
      && (exists w :: w in s + t && w.1 == h.maxY)
  {
    var p1 :| p1 in s && p1.0 == p.minX;
    var q1 :| q1 in t && q1.0 == q.minX;
    var p2 :| p2 in s && p2.0 == p.maxX;
    var q2 :| q2 in t && q2.0 == q.maxX;
    var p3 :| p3 in s && p3.1 == p.minY;
    var q3 :| q3 in t && q3.1 == q.minY;
    var p4 :| p4 in s && p4.1 == p.maxY;
    var q4 :| q4 in t && q4.1 == q.maxY;
    assert p1 in s + t && q1 in s + t && p2 in s + t && q2 in s + t;
    assert p3 in s + t && q3 in s + t && p4 in s + t && q4 in s + t;
  }

  /** The bounding box of a point set is unique, so any scan order that keeps a
      bounding box of the matches it has seen ends with the same box. */
  lemma BoundingBoxUnique(a: Option<Box>, b: Option<Box>, s: set<(int, int)>)
    requires IsBoundingBox(a, s) && IsBoundingBox(b, s)
    ensures a == b
  {
    if a.Some? && b.Some? {
      var p, q := a.value, b.value;
      var w1 :| w1 in s && w1.0 == q.minX;
      var w2 :| w2 in s && w2.0 == p.minX;
      assert Contains(p, w1) && Contains(q, w2);
      var w3 :| w3 in s && w3.0 == q.maxX;
      var w4 :| w4 in s && w4.0 == p.maxX;
      assert Contains(p, w3) && Contains(q, w4);
      var w5 :| w5 in s && w5.1 == q.minY;
      var w6 :| w6 in s && w6.1 == p.minY;
      assert Contains(p, w5) && Contains(q, w6);
      var w7 :| w7 in s && w7.1 == q.maxY;
      var w8 :| w8 in s && w8.1 == p.maxY;
      assert Contains(p, w7) && Contains(q, w8);
    }
  }

  lemma RowHitsSplit(row: seq<Rgb>, y: int, pred: ColorPredicate)
    requires row != []
    ensures RowHits(row, y, pred)
         == RowHits(row[..|row| - 1], y, pred)
          + (if Hit(row[|row| - 1], pred) then {(|row| - 1, y)} else {})
  {
    var x0 := |row| - 1;
    var front := row[..x0];
    var rhs := RowHits(front, y, pred) + (if Hit(row[x0], pred) then {(x0, y)} else {});
    forall p | p in RowHits(row, y, pred) ensures p in rhs {
      var x :| 0 <= x < |row| && Hit(row[x], pred) && p == (x, y);
      if x < x0 {
        assert front[x] == row[x];
      }
    }
    forall p | p in rhs ensures p in RowHits(row, y, pred) {
      if p in RowHits(front, y, pred) {
        var x :| 0 <= x < |front| && Hit(front[x], pred) && p == (x, y);
        assert front[x] == row[x];
      }
    }
  }

  lemma HitsSplit(g: Grid, pred: ColorPredicate)
    requires g != []
    ensures Hits(g, pred) == Hits(g[..|g| - 1], pred) + RowHits(g[|g| - 1], |g| - 1, pred)
  {
    var y0 := |g| - 1;
    var front := g[..y0];
    var rhs := Hits(front, pred) + RowHits(g[y0], y0, pred);
    forall p | p in Hits(g, pred) ensures p in rhs {
      var y, x :| 0 <= y < |g| && 0 <= x < |g[y]| && Hit(g[y][x], pred) && p == (x, y);
      if y < y0 {
        assert front[y] == g[y];
      }
    }
    forall p | p in rhs ensures p in Hits(g, pred) {
      if p in Hits(front, pred) {
        var y, x :| 0 <= y < |front| && 0 <= x < |front[y]| && Hit(front[y][x], pred) && p == (x, y);
        assert front[y] == g[y];
      } else {
        var x :| 0 <= x < |g[y0]| && Hit(g[y0][x], pred) && p == (x, y0);
      }
    }
  }

  /** `RowBox` is the bounding box of the row's matches. */
  lemma {:induction false} RowBoxIsBoundingBox(row: seq<Rgb>, y: int, pred: ColorPredicate)
    ensures IsBoundingBox(RowBox(row, y, pred), RowHits(row, y, pred))
    decreases |row|
  {
    if row != [] {
      var x := |row| - 1;
      RowBoxIsBoundingBox(row[..x], y, pred);
      RowHitsSplit(row, y, pred);
      var pixel := if Hit(row[x], pred) then Some(PixelBox(x, y)) else None;
      var pixelHits: set<(int, int)> := if Hit(row[x], pred) then {(x, y)} else {};
      assert IsBoundingBox(pixel, pixelHits);
      HullIsBoundingBox(RowBox(row[..x], y, pred), pixel, RowHits(row[..x], y, pred), pixelHits);
    }
  }

  /** The scan-order fold `BBox` computes the bounding box of all matching pixels; in
      particular it is absent exactly when no pixel matches. */
  lemma {:induction false} BBoxIsBoundingBox(g: Grid, pred: ColorPredicate)
    ensures IsBoundingBox(BBox(g, pred), Hits(g, pred))
    decreases |g|
  {
    if g == [] {
      assert Hits(g, pred) == {};
    } else {
      var y := |g| - 1;
      BBoxIsBoundingBox(g[..y], pred);
      RowBoxIsBoundingBox(g[y], y, pred);
      HitsSplit(g, pred);
      HullIsBoundingBox(BBox(g[..y], pred), RowBox(g[y], y, pred), Hits(g[..y], pred), RowHits(g[y], y, pred));
    }
  }

  /** The box of the matches of a `width` x `height` raster lies inside the raster. */
  lemma BoxWithinRaster(g: Grid, width: int, height: int, pred: ColorPredicate, b: Box)
    requires IsRaster(g, width, height)
    requires IsBoundingBox(Some(b), Hits(g, pred))
    ensures 0 <= b.minX <= b.maxX < width
    ensures 0 <= b.minY <= b.maxY < height
  {
    var s := Hits(g, pred);
    var p1 :| p1 in s && p1.0 == b.minX;
    var p2 :| p2 in s && p2.0 == b.maxX;
    var p3 :| p3 in s && p3.1 == b.minY;
    var p4 :| p4 in s && p4.1 == b.maxY;
    assert Contains(b, p1);
    forall p | p in s ensures 0 <= p.0 < width && 0 <= p.1 < height {
      var y, x :| 0 <= y < |g| && 0 <= x < |g[y]| && Hit(g[y][x], pred) && p == (x, y);
    }
  }

  /** Whatever procedure finds the bounding box of the matches, `Locate` reports exactly
      its normalisation: the result depends on the set of matches only, not on the order
      in which pixels are visited. */
  lemma LocateIsNormalizedBox(g: Grid, width: int, height: int, pred: ColorPredicate, b: Box)
    requires IsRaster(g, width, height)
    requires IsBoundingBox(Some(b), Hits(g, pred))
    ensures 0 <= b.minX <= b.maxX < width && 0 <= b.minY <= b.maxY < height
    ensures Locate(g, width, height, pred) == Some(Normalize(b, width, height))
  {
    BoxWithinRaster(g, width, height, pred, b);
    BBoxIsBoundingBox(g, pred);
    BoundingBoxUnique(BBox(g, pred), Some(b), Hits(g, pred));
  }

  /** Exactly one matching pixel `(x0, y0)`: zero size and the pixel itself as position. */
  lemma LocateSinglePixel(g: Grid, width: int, height: int, pred: ColorPredicate, x0: int, y0: int)
    requires IsRaster(g, width, height)
    requires Hits(g, pred) == {(x0, y0)}
    ensures 0 <= x0 < width && 0 <= y0 < height
    ensures Locate(g, width, height, pred)
         == Some(DetectionResult(Offset(x0 as real / width as real, y0 as real / height as real), 0.0))
  {
    var b := PixelBox(x0, y0);
    assert (x0, y0) in Hits(g, pred);
    LocateIsNormalizedBox(g, width, height, pred, b);
  }

  /** The two predicates decide the same pixels, so the detections agree. */
  lemma LocateSamePredicate(g: Grid, width: int, height: int, p: ColorPredicate, q: ColorPredicate)
    requires IsRaster(g, width, height)
    requires forall r, gr, b :: p(r, gr, b) == q(r, gr, b)
    ensures Locate(g, width, height, p) == Locate(g, width, height, q)
  {
    assert Hits(g, p) == Hits(g, q);
    BBoxIsBoundingBox(g, p);
    BBoxIsBoundingBox(g, q);
    BoundingBoxUnique(BBox(g, p), BBox(g, q), Hits(g, p));
  }

  /** Two predicates that never accept the same colour give disjoint sets of matches. */
  lemma HitsDisjoint(g: Grid, p: ColorPredicate, q: ColorPredicate)
    requires forall r, gr, b :: !(p(r, gr, b) && q(r, gr, b))
    ensures Hits(g, p) !! Hits(g, q)
  {
    forall w | w in Hits(g, p) ensures w !in Hits(g, q) {
      var y, x :| 0 <= y < |g| && 0 <= x < |g[y]| && Hit(g[y][x], p) && w == (x, y);
    }
  }

  /** One step of the inner scan loop on a matching pixel: taking `minOf`/`maxOf` with
      the pixel coordinates grows the tracked box by exactly that pixel. */
  lemma TrackHit(found: bool, minX: int, minY: int, maxX: int, maxY: int, x: int, y: int)
    requires Untouched(found, minX, minY, maxX, maxY)
    requires IntMin <= x <= IntMax && IntMin <= y <= IntMax
    ensures Tracked(true, Min(minX, x), Min(minY, y), Max(maxX, x), Max(maxY, y))
         == Hull(Tracked(found, minX, minY, maxX, maxY), Some(PixelBox(x, y)))
  {
  }

  /** `Hull` is associative, so growing the running box pixel by pixel equals growing
      it row by row. */
  lemma HullAssoc(a: Option<Box>, b: Option<Box>, c: Option<Box>)
    ensures Hull(a, Hull(b, c)) == Hull(Hull(a, b), c)
  {
  }

  /** The inner loop's step: visiting pixel `x` of row `y` adds that pixel, if it
      matches, to the box of everything visited before it. */
  lemma ColumnStep(above: Option<Box>, row: seq<Rgb>, x: int, y: int, pred: ColorPredicate)
    requires 0 <= x < |row|
    ensures Hull(above, RowBox(row[..x + 1], y, pred))
         == Hull(Hull(above, RowBox(row[..x], y, pred)), if Hit(row[x], pred) then Some(PixelBox(x, y)) else None)
  {
    assert row[..x + 1][..x] == row[..x];
    HullAssoc(above, RowBox(row[..x], y, pred), if Hit(row[x], pred) then Some(PixelBox(x, y)) else None);
  }

  /** The outer loop's step: finishing row `y` extends the box of rows `0 .. y - 1` to
      the box of rows `0 .. y`. */
  lemma RowStep(g: Grid, y: int, pred: ColorPredicate)
    requires 0 <= y < |g|
    ensures Hull(BBox(g[..y], pred), RowBox(g[y][..|g[y]|], y, pred)) == BBox(g[..y + 1], pred)
  {
    assert g[y][..|g[y]|] == g[y];
    assert g[..y + 1][..y] == g[..y];
  }
}
