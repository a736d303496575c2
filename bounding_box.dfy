/** The dirty bounding box: the smallest rectangle, in column-bytes (x / 2) and rows,
    that holds every byte changed since the box was last reset. */
module BoundingBox {
  import opened Wrappers
  import opened Framebuffer

  /** A (column-byte, row) position of the framebuffer. */
  type Point = (int, int)

  /** `([col_min, col_max], [row_min, row_max])`, both ranges inclusive. */
  datatype Box = Box(colMin: int, colMax: int, rowMin: int, rowMax: int)

  /** The shape every box of the driver has: ordered bounds inside the framebuffer. */
  predicate WellFormed(b: Box) {
    0 <= b.colMin <= b.colMax < BytesPerRow && 0 <= b.rowMin <= b.rowMax < Height
  }

  /** Each pair of bounds is in order. */
  predicate Ordered(b: Box) {
    b.colMin <= b.colMax && b.rowMin <= b.rowMax
  }

  /** No box, or a well-formed one. */
  predicate Bounded(box: Option<Box>) {
    box.Some? ==> WellFormed(box.value)
  }

  predicate Contains(b: Box, col: int, row: int) {
    b.colMin <= col <= b.colMax && b.rowMin <= row <= b.rowMax
  }

  function Min(a: int, b: int): int { if a <= b then a else b }

  function Max(a: int, b: int): int { if a <= b then b else a }

  /** The box after registering a change at (col, row): the one-point box when there was
      none, otherwise the old box widened just enough to hold the point. */
  function Touch(box: Option<Box>, col: int, row: int): (r: Box)
    ensures Contains(r, col, row)
    ensures box.Some? ==> r.colMin <= box.value.colMin && box.value.colMax <= r.colMax
    ensures box.Some? ==> r.rowMin <= box.value.rowMin && box.value.rowMax <= r.rowMax
    ensures r.colMin == col || (box.Some? && r.colMin == box.value.colMin)
    ensures r.colMax == col || (box.Some? && r.colMax == box.value.colMax)
    ensures r.rowMin == row || (box.Some? && r.rowMin == box.value.rowMin)
    ensures r.rowMax == row || (box.Some? && r.rowMax == box.value.rowMax)
  {
    match box
    case None => Box(col, col, row, row)
    case Some(b) => Box(Min(b.colMin, col), Max(b.colMax, col), Min(b.rowMin, row), Max(b.rowMax, row))
  }

  /** `box` is exactly the min/max rectangle of the points `s`: None for no points, and
      otherwise a rectangle holding every point whose four bounds are each reached by
      some point. */
  ghost predicate Tight(box: Option<Box>, s: set<Point>) {
    match box
    case None => s == {}
    case Some(b) =>
      && (forall p | p in s :: Contains(b, p.0, p.1))
      && (exists p | p in s :: p.0 == b.colMin)
      && (exists p | p in s :: p.0 == b.colMax)
      && (exists p | p in s :: p.1 == b.rowMin)
      && (exists p | p in s :: p.1 == b.rowMax)
  }

  /** Registering a change keeps the box exactly the min/max of the changed points. */
  lemma TouchKeepsTight(box: Option<Box>, s: set<Point>, col: int, row: int)
    requires Tight(box, s)
    ensures Tight(Some(Touch(box, col, row)), s + {(col, row)})
  {
    var r := Touch(box, col, row);
    var s' := s + {(col, row)};
    var q := (col, row);
    assert q in s';
    if box.Some? {
      var b := box.value;
      var p1 :| p1 in s && p1.0 == b.colMin;
      var p2 :| p2 in s && p2.0 == b.colMax;
      var p3 :| p3 in s && p3.1 == b.rowMin;
      var p4 :| p4 in s && p4.1 == b.rowMax;
      assert p1 in s' && p2 in s' && p3 in s' && p4 in s';
      assert exists p | p in s' :: p.0 == r.colMin by {
        if r.colMin == col { assert q.0 == r.colMin; } else { assert p1.0 == r.colMin; }
      }
      assert exists p | p in s' :: p.0 == r.colMax by {
        if r.colMax == col { assert q.0 == r.colMax; } else { assert p2.0 == r.colMax; }
      }
      assert exists p | p in s' :: p.1 == r.rowMin by {
        if r.rowMin == row { assert q.1 == r.rowMin; } else { assert p3.1 == r.rowMin; }
      }
      assert exists p | p in s' :: p.1 == r.rowMax by {
        if r.rowMax == row { assert q.1 == r.rowMax; } else { assert p4.1 == r.rowMax; }
      }
    }
  }

  /** The rectangle is determined by the set of changed points alone, so the order in
      which the changes were registered does not matter. */
  lemma TightUnique(box1: Option<Box>, box2: Option<Box>, s: set<Point>)
    requires Tight(box1, s) && Tight(box2, s)
    ensures box1 == box2
  {
    if box1.Some? && box2.Some? {
      var b1, b2 := box1.value, box2.value;
      var p1 :| p1 in s && p1.0 == b1.colMin;
      var p2 :| p2 in s && p2.0 == b2.colMin;
      var p3 :| p3 in s && p3.0 == b1.colMax;
      var p4 :| p4 in s && p4.0 == b2.colMax;
      var p5 :| p5 in s && p5.1 == b1.rowMin;
      var p6 :| p6 in s && p6.1 == b2.rowMin;
      var p7 :| p7 in s && p7.1 == b1.rowMax;
      var p8 :| p8 in s && p8.1 == b2.rowMax;
      assert Contains(b2, p1.0, p1.1) && Contains(b1, p2.0, p2.1);
      assert Contains(b2, p3.0, p3.1) && Contains(b1, p4.0, p4.1);
      assert Contains(b2, p5.0, p5.1) && Contains(b1, p6.0, p6.1);
      assert Contains(b2, p7.0, p7.1) && Contains(b1, p8.0, p8.1);
    }
  }

  /** A box that is tight for on-screen points is well-formed. */
  lemma TightIsBounded(box: Option<Box>, s: set<Point>)
    requires Tight(box, s)
    requires forall p | p in s :: 0 <= p.0 < BytesPerRow && 0 <= p.1 < Height
    ensures Bounded(box)
  {
    if box.Some? {
      var b := box.value;
      var p1 :| p1 in s && p1.0 == b.colMin;
      var p2 :| p2 in s && p2.0 == b.colMax;
      var p3 :| p3 in s && p3.1 == b.rowMin;
      var p4 :| p4 in s && p4.1 == b.rowMax;
      assert Contains(b, p1.0, p1.1) && Contains(b, p3.0, p3.1);
    }
  }
}
