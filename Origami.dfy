/** The transparent paper of puzzles/2021/src/day13.cpp: a set of dots
    and the paper's dimensions. A fold along y = c (or x = c) keeps the
    dots above (left of) the crease, mirrors the dots beyond it, and drops
    the dots on it. */
module Origami {
  import opened Wrappers

  /** (x, y) */
  type Point = (int, int)

  /** A fold instruction: the axis character and the crease. */
  datatype Fold = Fold(axis: char, crease: int)

  /** Where a dot off the crease lands after folding along y = c. */
  function MirrorY(p: Point, c: int): Point {
    if p.1 < c then p else (p.0, 2 * c - p.1)
  }

  /** Where a dot off the crease lands after folding along x = c. */
  function MirrorX(p: Point, c: int): Point {
    if p.0 < c then p else (2 * c - p.0, p.1)
  }

  function FoldedY(points: set<Point>, c: int): set<Point> {
    set p | p in points && p.1 != c :: MirrorY(p, c)
  }

  function FoldedX(points: set<Point>, c: int): set<Point> {
    set p | p in points && p.0 != c :: MirrorX(p, c)
  }

  /** A dot is on the paper folded along y = c exactly when it lies above
      the crease and it, or its mirror image, was on the paper before. */
  lemma FoldedYMembers(points: set<Point>, c: int, q: Point)
    ensures q in FoldedY(points, c) <==> q.1 < c && (q in points || (q.0, 2 * c - q.1) in points)
  {
    if q in FoldedY(points, c) {
      var p :| p in points && p.1 != c && q == MirrorY(p, c);
      if p.1 > c {
        assert (q.0, 2 * c - q.1) == p;
      }
    }
    if q.1 < c && q !in points && (q.0, 2 * c - q.1) in points {
      var p := (q.0, 2 * c - q.1);
      assert MirrorY(p, c) == q;
    }
  }

  /** The same for a fold along x = c. */
  lemma FoldedXMembers(points: set<Point>, c: int, q: Point)
    ensures q in FoldedX(points, c) <==> q.0 < c && (q in points || (2 * c - q.0, q.1) in points)
  {
    if q in FoldedX(points, c) {
      var p :| p in points && p.0 != c && q == MirrorX(p, c);
      if p.0 > c {
        assert (2 * c - q.0, q.1) == p;
      }
    }
    if q.0 < c && q !in points && (2 * c - q.0, q.1) in points {
      var p := (2 * c - q.0, q.1);
      assert MirrorX(p, c) == q;
    }
  }

  lemma SubsetCard<T>(a: set<T>, b: set<T>)
    requires a <= b
    ensures |a| <= |b|
  {
    assert b == a + (b - a);
  }

  /** An image of a set is no larger than the set. */
  lemma {:induction false} ImageNoLarger(s: set<Point>, f: Point -> Point)
    ensures |set p | p in s :: f(p)| <= |s|
    decreases |s|
  {
    var image := set p | p in s :: f(p);
    if s != {} {
      var x := MemberOf(s);
      var rest := s - {x};
      var restImage := set p | p in rest :: f(p);
      ImageNoLarger(rest, f);
      assert image <= restImage + {f(x)};
      SubsetCard(image, restImage + {f(x)});
    } else {
      assert image == {};
    }
  }

  /** A fold never adds dots. */
  lemma FoldNeverGrows(points: set<Point>, c: int)
    ensures |FoldedY(points, c)| <= |points|
    ensures |FoldedX(points, c)| <= |points|
  {
    var offY := set p | p in points && p.1 != c;
    var fy := p => MirrorY(p, c);
    var imageY := set p | p in offY :: fy(p);
    forall q | q in FoldedY(points, c)
      ensures q in imageY
    {
      var p :| p in points && p.1 != c && q == MirrorY(p, c);
      assert p in offY && fy(p) == q;
    }
    ImageNoLarger(offY, fy);
    SubsetCard(FoldedY(points, c), imageY);
    SubsetCard(offY, points);
    var offX := set p | p in points && p.0 != c;
    var fx := p => MirrorX(p, c);
    var imageX := set p | p in offX :: fx(p);
    forall q | q in FoldedX(points, c)
      ensures q in imageX
    {
      var p :| p in points && p.0 != c && q == MirrorX(p, c);
      assert p in offX && fx(p) == q;
    }
    ImageNoLarger(offX, fx);
    SubsetCard(FoldedX(points, c), imageX);
    SubsetCard(offX, points);
  }

  lemma FoldedYStep(done: set<Point>, p: Point, c: int)
    ensures FoldedY(done + {p}, c) ==
      FoldedY(done, c) + (if p.1 < c then {p} else if p.1 > c then {(p.0, 2 * c - p.1)} else {})
  {
    forall q
      ensures q in FoldedY(done + {p}, c) <==>
        q in FoldedY(done, c) + (if p.1 < c then {p} else if p.1 > c then {(p.0, 2 * c - p.1)} else {})
    {
      FoldedYMembers(done + {p}, c, q);
      FoldedYMembers(done, c, q);
    }
  }

  lemma FoldedXStep(done: set<Point>, p: Point, c: int)
    ensures FoldedX(done + {p}, c) ==
      FoldedX(done, c) + (if p.0 < c then {p} else if p.0 > c then {(2 * c - p.0, p.1)} else {})
  {
    forall q
      ensures q in FoldedX(done + {p}, c) <==>
        q in FoldedX(done, c) + (if p.0 < c then {p} else if p.0 > c then {(2 * c - p.0, p.1)} else {})
    {
      FoldedXMembers(done + {p}, c, q);
      FoldedXMembers(done, c, q);
    }
  }

  class Paper {
    var points: set<Point>
    /** (width, height) */
    var dimensions: Point

    /** A paper with the given dots and dimensions. */
    constructor(dots: set<Point>, dims: Point)
      ensures points == dots && dimensions == dims
    {
      points := dots;
      dimensions := dims;
    }

    /** foldY: builds the new set dot by dot, then replaces the old one and
        sets the height to the crease. */
    method FoldY(cress: int)
      modifies this
      ensures points == FoldedY(old(points), cress)
      ensures dimensions == (old(dimensions).0, cress)
    {
      var newSet: set<Point> := {};
      var todo := points;
      while todo != {}
        invariant points == old(points) && dimensions == old(dimensions)
        invariant todo <= points
        invariant newSet == FoldedY(points - todo, cress)
        decreases todo
      {
        ghost var some := MemberOf(todo);
        var p :| p in todo;
        FoldedYStep(points - todo, p, cress);
        if p.1 < cress {
          newSet := newSet + {p};
        }
        if p.1 > cress {
          newSet := newSet + {(p.0, 2 * cress - p.1)};
        }
        assert points - (todo - {p}) == (points - todo) + {p};
        todo := todo - {p};
      }
      assert points - todo == points;
      points := newSet;
      dimensions := (dimensions.0, cress);
    }

    /** foldX: the same along a vertical crease, setting the width. */
    method FoldX(cress: int)
      modifies this
      ensures points == FoldedX(old(points), cress)
      ensures dimensions == (cress, old(dimensions).1)
    {
      var newSet: set<Point> := {};
      var todo := points;
      while todo != {}
        invariant points == old(points) && dimensions == old(dimensions)
        invariant todo <= points
        invariant newSet == FoldedX(points - todo, cress)
        decreases todo
      {
        ghost var some := MemberOf(todo);
        var p :| p in todo;
        FoldedXStep(points - todo, p, cress);
        if p.0 < cress {
          newSet := newSet + {p};
        }
        if p.0 > cress {
          newSet := newSet + {(2 * cress - p.0, p.1)};
        }
        assert points - (todo - {p}) == (points - todo) + {p};
        todo := todo - {p};
      }
      assert points - todo == points;
      points := newSet;
      dimensions := (cress, dimensions.1);
    }

    /** fold: 'y' folds along a horizontal crease, anything else along a
        vertical one. Afterwards no dot lies on or beyond the crease, and
        there are no more dots than before. */
    method DoFold(f: Fold)
      modifies this
      ensures f.axis == 'y' ==> points == FoldedY(old(points), f.crease) && dimensions == (old(dimensions).0, f.crease)
      ensures f.axis != 'y' ==> points == FoldedX(old(points), f.crease) && dimensions == (f.crease, old(dimensions).1)
      ensures |points| <= |old(points)|
      ensures forall q :: q in points ==> (if f.axis == 'y' then q.1 else q.0) < f.crease
    {
      FoldNeverGrows(points, f.crease);
      ghost var before := points;
      if f.axis == 'y' {
        FoldY(f.crease);
        forall q | q in points
          ensures q.1 < f.crease
        {
          FoldedYMembers(before, f.crease, q);
        }
      } else {
        FoldX(f.crease);
        forall q | q in points
          ensures q.0 < f.crease
        {
          FoldedXMembers(before, f.crease, q);
        }
      }
    }

    /** point_count */
    function PointCount(): nat
      reads this
    {
      |points|
    }
  }
}
