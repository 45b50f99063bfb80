/**
 * The point type of the k-d tree: a fixed-length tuple of integer
 * coordinates with per-axis access and a squared Euclidean distance.
 */
module Points {

  /** The template parameter `dimensions`, fixed to the two dimensions of the integer demo. */
  const D: nat := 2

  /** The backing `std::array<coordinate_type, dimensions>`: exactly D coordinates. */
  type Coords = c: seq<int> | |c| == D witness [0, 0]

  datatype Point = Point(coords: Coords) {
    /** The coordinate on one axis (zero based). */
    function Get(index: nat): int
      requires index < D
    {
      coords[index]
    }
  }

  function Min(a: int, b: int): int { if a <= b then a else b }

  /** Construction from a coordinate array: every axis reads back the array's entry. */
  function FromArray(c: Coords): (p: Point)
    ensures forall i :: 0 <= i < D ==> p.Get(i) == c[i]
  {
    Point(c)
  }

  /**
   * Construction from an initializer list: the first min(D, |list|) coordinates are
   * copied from the list in order and extra entries are ignored. The remaining
   * coordinates are never written, so they keep whatever the storage held; `unset`
   * stands for those indeterminate values.
   */
  function FromList(list: seq<int>, unset: Coords): (p: Point)
    ensures forall i :: 0 <= i < D && i < |list| ==> p.Get(i) == list[i]
    ensures forall i :: |list| <= i < D ==> p.Get(i) == unset[i]
  {
    var n := Min(D, |list|);
    Point(seq(D, i requires 0 <= i < D => if i < n then list[i] else unset[i]))
  }

  function Sq(x: int): (r: int)
    ensures r >= 0
  {
    x * x
  }

  /** Sum over the first k axes of the squared coordinate differences. */
  function SumSq(p: Point, q: Point, k: nat): (r: int)
    requires k <= D
    ensures r >= 0
  {
    if k == 0 then 0 else SumSq(p, q, k - 1) + Sq(p.Get(k - 1) - q.Get(k - 1))
  }

  /** The squared Euclidean distance; it is never negative. */
  function DistanceSquared(p: Point, q: Point): (r: int)
    ensures r >= 0
  {
    SumSq(p, q, D)
  }

  lemma {:induction false} SumSqBoundsAxis(p: Point, q: Point, k: nat, i: nat)
    requires i < k <= D
    ensures Sq(p.Get(i) - q.Get(i)) <= SumSq(p, q, k)
  {
    if i < k - 1 {
      SumSqBoundsAxis(p, q, k - 1, i);
    }
  }

  /**
   * The squared distance bounds from above the squared difference on every
   * single axis, which is what makes pruning by the splitting plane sound.
   */
  lemma DistanceBoundsAxis(p: Point, q: Point, i: nat)
    requires i < D
    ensures Sq(p.Get(i) - q.Get(i)) <= DistanceSquared(p, q)
  {
    SumSqBoundsAxis(p, q, D, i);
  }

  /** The accumulating loop of `getDistanceSquared`. */
  method GetDistanceSquared(p: Point, pt: Point) returns (dist: int)
    ensures dist == DistanceSquared(p, pt)
  {
    dist := 0;
    var i := 0;
    while i < D
      invariant i <= D
      invariant dist == SumSq(p, pt, i)
    {
      var d := p.Get(i) - pt.Get(i);
      dist := dist + d * d;
      i := i + 1;
    }
  }

  lemma {:induction false} SumSqSymmetric(p: Point, q: Point, k: nat)
    requires k <= D
    ensures SumSq(p, q, k) == SumSq(q, p, k)
  {
    if k > 0 {
      SumSqSymmetric(p, q, k - 1);
      assert Sq(p.Get(k - 1) - q.Get(k - 1)) == Sq(q.Get(k - 1) - p.Get(k - 1));
    }
  }

  /** The distance from p to q is the distance from q to p. */
  lemma DistanceSymmetric(p: Point, q: Point)
    ensures DistanceSquared(p, q) == DistanceSquared(q, p)
  {
    SumSqSymmetric(p, q, D);
  }

  lemma {:induction false} SumSqZero(p: Point, q: Point, k: nat)
    requires k <= D
    ensures SumSq(p, q, k) == 0 <==> forall i :: 0 <= i < k ==> p.Get(i) == q.Get(i)
  {
    if k > 0 {
      SumSqZero(p, q, k - 1);
      var d := p.Get(k - 1) - q.Get(k - 1);
      assert Sq(d) == 0 <==> d == 0 by {
        if d != 0 {
          assert d * d > 0 by { SquarePositive(d); }
        }
      }
    }
  }

  lemma SquarePositive(d: int)
    requires d != 0
    ensures d * d > 0
  {
    if d < 0 {
      assert (-d) * (-d) == d * d;
    }
  }

  /** With integer coordinates the squared distance is zero exactly for equal points. */
  lemma DistanceZeroIff(p: Point, q: Point)
    ensures DistanceSquared(p, q) == 0 <==> p == q
  {
    SumSqZero(p, q, D);
    if DistanceSquared(p, q) == 0 {
      assert forall i :: 0 <= i < D ==> p.coords[i] == q.coords[i] by {
        forall i | 0 <= i < D ensures p.coords[i] == q.coords[i] {
          assert p.Get(i) == q.Get(i);
        }
      }
      assert p.coords == q.coords;
    }
  }

  lemma SquareMonotone(x: int, y: int)
    requires 0 <= x <= y
    ensures x * x <= y * y
  {
    assert x * x <= x * y;
    assert x * y <= y * y;
  }

}
