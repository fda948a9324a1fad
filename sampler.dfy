/**
 * The rejection sampler of script.py: draw candidate points uniformly from
 * the bounding box of a polygon's vertices and keep those the ray-casting
 * test accepts, until more than `n` have been kept.
 *
 * The random generator is injected: `rand` is the sequence of values the
 * generator's unit draw returns, in call order, each in [0, 1]. Each candidate
 * consumes two of them, first for its latitude (`x`) and then for its
 * longitude (`y`). The source loops forever while no candidate is accepted;
 * here the loop also ends when the draws run out, and says so.
 */
module Sampler {
  import opened Polygon

  /** The axis-aligned bounding box of a vertex list. */
  datatype Box = Box(minLat: real, maxLat: real, minLong: real, maxLong: real)

  predicate InBox(b: Box, p: Point)
  {
    b.minLat <= p.x <= b.maxLat && b.minLong <= p.y <= b.maxLong
  }

  /** Python's `min` over a non-empty list. */
  function SeqMin(s: seq<real>): (m: real)
    requires |s| > 0
    ensures exists i :: 0 <= i < |s| && s[i] == m
    ensures forall i :: 0 <= i < |s| ==> m <= s[i]
  {
    if |s| == 1 then s[0] else Min(s[0], SeqMin(s[1..]))
  }

  /** Python's `max` over a non-empty list. */
  function SeqMax(s: seq<real>): (m: real)
    requires |s| > 0
    ensures exists i :: 0 <= i < |s| && s[i] == m
    ensures forall i :: 0 <= i < |s| ==> s[i] <= m
  {
    if |s| == 1 then s[0] else Max(s[0], SeqMax(s[1..]))
  }

  /** The first components (`lats`) of the vertices. */
  function Lats(coords: seq<Point>): seq<real>
  {
    seq(|coords|, i requires 0 <= i < |coords| => coords[i].x)
  }

  /** The second components (`longs`) of the vertices. */
  function Longs(coords: seq<Point>): seq<real>
  {
    seq(|coords|, i requires 0 <= i < |coords| => coords[i].y)
  }

  /**
   * The box spanned by `min`/`max` of the latitudes and longitudes; the list
   * must be non-empty, as `max` of an empty list raises. Every vertex lies in
   * it and each of its four sides touches a vertex.
   */
  function BoundingBox(coords: seq<Point>): (b: Box)
    requires |coords| > 0
    ensures forall i :: 0 <= i < |coords| ==> InBox(b, coords[i])
    ensures exists i :: 0 <= i < |coords| && coords[i].x == b.minLat
    ensures exists i :: 0 <= i < |coords| && coords[i].x == b.maxLat
    ensures exists i :: 0 <= i < |coords| && coords[i].y == b.minLong
    ensures exists i :: 0 <= i < |coords| && coords[i].y == b.maxLong
  {
    var lats, longs := Lats(coords), Longs(coords);
    assert forall i :: 0 <= i < |coords| ==> lats[i] == coords[i].x && longs[i] == coords[i].y;
    Box(SeqMin(lats), SeqMax(lats), SeqMin(longs), SeqMax(longs))
  }

  /** `random.uniform(lo, hi)` for the unit draw `u`: a value between the two bounds. */
  function Uniform(lo: real, hi: real, u: real): (r: real)
    requires lo <= hi
    requires 0.0 <= u <= 1.0
    ensures lo <= r <= hi
  {
    var w := hi - lo;
    assert 0.0 <= u * w <= w by {
      assert 0.0 <= (1.0 - u) * w;
    }
    lo + w * u
  }

  predicate UnitDraws(rand: seq<real>)
  {
    forall i :: 0 <= i < |rand| ==> 0.0 <= rand[i] <= 1.0
  }

  /** Candidate `j`: drawn from the bounding box with the draws `rand[2j]` and `rand[2j + 1]`. */
  function Candidate(coords: seq<Point>, rand: seq<real>, j: nat): Point
    requires |coords| > 0
    requires UnitDraws(rand)
    requires 2 * j + 1 < |rand|
  {
    var b := BoundingBox(coords);
    Point(Uniform(b.minLat, b.maxLat, rand[2 * j]), Uniform(b.minLong, b.maxLong, rand[2 * j + 1]))
  }

  /**
   * Every candidate the draws give, in drawing order. Each lies in the
   * vertices' bounding box.
   */
  function Candidates(coords: seq<Point>, rand: seq<real>): (cands: seq<Point>)
    requires |coords| > 0
    requires UnitDraws(rand)
    ensures |cands| == |rand| / 2
    ensures forall c :: c in cands ==> InBox(BoundingBox(coords), c)
  {
    seq(|rand| / 2, j requires 0 <= j < |rand| / 2 => Candidate(coords, rand, j))
  }

  /** The candidates the test accepts, in drawing order. */
  function Accepted(coords: seq<Point>, cands: seq<Point>): seq<Point>
    requires |coords| > 0
  {
    if cands == [] then []
    else
      var c := cands[|cands| - 1];
      Accepted(coords, cands[..|cands| - 1]) + (if Contains(c.x, c.y, coords) then [c] else [])
  }

  /** Every kept point is one of the candidates, and the test accepts it. */
  lemma {:induction false} AcceptedSound(coords: seq<Point>, cands: seq<Point>)
    requires |coords| > 0
    ensures forall p :: p in Accepted(coords, cands) ==> p in cands && Contains(p.x, p.y, coords)
  {
    if cands != [] {
      AcceptedSound(coords, cands[..|cands| - 1]);
    }
  }

  /** Every point kept from the draws passes the test and lies in the vertices' bounding box. */
  lemma KeptFromDrawsValid(coords: seq<Point>, rand: seq<real>)
    requires |coords| > 0
    requires UnitDraws(rand)
    ensures forall p :: p in Accepted(coords, Candidates(coords, rand)) ==>
              Contains(p.x, p.y, coords) && InBox(BoundingBox(coords), p)
  {
    AcceptedSound(coords, Candidates(coords, rand));
  }

  /** Every candidate the test accepts is kept. */
  lemma {:induction false} AcceptedComplete(coords: seq<Point>, cands: seq<Point>)
    requires |coords| > 0
    ensures forall c :: c in cands && Contains(c.x, c.y, coords) ==> c in Accepted(coords, cands)
  {
    if cands != [] {
      var init := cands[..|cands| - 1];
      AcceptedComplete(coords, init);
      assert cands == init + [cands[|cands| - 1]];
    }
  }

  /** What is kept from a prefix of the candidates is a prefix of what is kept from all of them. */
  lemma {:induction false} AcceptedPrefix(coords: seq<Point>, cands: seq<Point>, m: nat)
    requires |coords| > 0
    requires m <= |cands|
    ensures |Accepted(coords, cands[..m])| <= |Accepted(coords, cands)|
    ensures Accepted(coords, cands)[..|Accepted(coords, cands[..m])|] == Accepted(coords, cands[..m])
    decreases |cands| - m
  {
    if m < |cands| {
      AcceptedPrefix(coords, cands, m + 1);
      assert cands[..m + 1][..m] == cands[..m];
    } else {
      assert cands[..m] == cands;
    }
  }

  /**
   * The number of points after which the loop stops: it breaks right after an
   * append, once more than `n` are kept, so this is the least positive count
   * above `n`.
   */
  function Quota(n: int): (q: nat)
    ensures q > n && q >= 1
    ensures q == 1 || q - 1 <= n
  {
    if n < 0 then 1 else n + 1
  }

  /**
   * generate_sample_points. When the draws last, `finished` holds and the
   * result is the first Quota(n) accepted candidates (n + 1 of them for
   * n >= 0); when they run out first, the result is every accepted candidate.
   * Either way every point passes the test and lies in the vertices' bounding box.
   */
  method GenerateSamplePoints(coords: seq<Point>, n: int, rand: seq<real>) returns (ret: seq<Point>, finished: bool)
    requires |coords| > 0
    requires UnitDraws(rand)
    ensures forall i :: 0 <= i < |ret| ==> Contains(ret[i].x, ret[i].y, coords)
    ensures forall i :: 0 <= i < |ret| ==> InBox(BoundingBox(coords), ret[i])
    ensures finished <==> |Accepted(coords, Candidates(coords, rand))| >= Quota(n)
    ensures finished ==> |ret| > n && |ret| == Quota(n)
    ensures finished ==> ret == Accepted(coords, Candidates(coords, rand))[..Quota(n)]
    ensures !finished ==> ret == Accepted(coords, Candidates(coords, rand))
  {
    var lats, longs := Lats(coords), Longs(coords);
    var maxLat := SeqMax(lats);
    var minLat := SeqMin(lats);
    var maxLong := SeqMax(longs);
    var minLong := SeqMin(longs);
    ghost var box, cands := BoundingBox(coords), Candidates(coords, rand);
    assert box == Box(minLat, maxLat, minLong, maxLong);
    ret := [];
    finished := false;
    var j := 0;
    while j < |rand| / 2
      invariant 0 <= j <= |rand| / 2
      invariant ret == Accepted(coords, cands[..j])
      invariant |ret| < Quota(n)
    {
      var pLat := Uniform(minLat, maxLat, rand[2 * j]);
      var pLong := Uniform(minLong, maxLong, rand[2 * j + 1]);
      assert Point(pLat, pLong) == Candidate(coords, rand, j) == cands[j];
      assert cands[..j + 1][..j] == cands[..j];
      var inside := PointInsidePolygon(pLat, pLong, coords);
      j := j + 1;
      if inside {
        ret := ret + [Point(pLat, pLong)];
        if |ret| > n {
          finished := true;
          break;
        }
      }
    }
    assert ret == Accepted(coords, cands[..j]);
    if !finished {
      assert cands[..j] == cands;
    }
    ghost var all := Accepted(coords, cands);
    AcceptedPrefix(coords, cands, j);
    assert ret == all[..|ret|];
    KeptFromDrawsValid(coords, rand);
    forall i | 0 <= i < |ret|
      ensures Contains(ret[i].x, ret[i].y, coords) && InBox(box, ret[i])
    {
      assert ret[i] == all[i];
    }
  }

  /**
   * The bounding box loses nothing: every point the test accepts lies in the
   * box, strictly above its lower longitude side. Drawing candidates from the
   * box therefore reaches every point of the region the test defines.
   */
  lemma ContainedPointsLieInBox(coords: seq<Point>, p: Point)
    requires |coords| > 0
    requires Contains(p.x, p.y, coords)
    ensures InBox(BoundingBox(coords), p)
    ensures BoundingBox(coords).minLong < p.y
  {
    var b := BoundingBox(coords);
    forall v | v in coords
      ensures b.minLat <= v.x <= b.maxLat && b.minLong <= v.y <= b.maxLong
    {
      var i :| 0 <= i < |coords| && coords[i] == v;
      assert InBox(b, coords[i]);
    }
    if p.x < b.minLat {
      NotContainedLeft(p.x, p.y, coords);
    } else if p.x > b.maxLat {
      NotContainedRight(p.x, p.y, coords);
    } else if p.y <= b.minLong {
      NotContainedBelow(p.x, p.y, coords);
    } else if p.y > b.maxLong {
      NotContainedAbove(p.x, p.y, coords);
    }
  }

  /**
   * The loop has no iteration cap: when all vertices share one longitude the
   * test accepts no point at all, so no sequence of draws, however long, lets
   * the sampler finish.
   */
  lemma {:induction false} FlatPolygonAcceptsNothing(coords: seq<Point>, cands: seq<Point>)
    requires |coords| > 0
    requires forall i :: 0 <= i < |coords| ==> coords[i].y == coords[0].y
    ensures Accepted(coords, cands) == []
  {
    if cands != [] {
      FlatPolygonAcceptsNothing(coords, cands[..|cands| - 1]);
      var c := cands[|cands| - 1];
      if c.y <= coords[0].y {
        NotContainedBelow(c.x, c.y, coords);
      } else {
        NotContainedAbove(c.x, c.y, coords);
      }
    }
  }
}
