/**
  Hexagonal cube coordinates and the grid operations the automaton relies on:
  difference, hex distance, the six neighbours and the ring at a given distance.
  A coordinate is stored as its two axial components (q, r); the third cube
  component is s = -q - r.
 */
module HexGrid {

  datatype Coord = Coord(q: int, r: int) {
    /** The third cube component. */
    function S(): int { -q - r }
  }

  const Origin: Coord := Coord(0, 0)

  function Abs(x: int): nat { if x < 0 then -x else x }

  function Max(a: int, b: int): int { if a < b then b else a }

  function Min(a: int, b: int): int { if a < b then a else b }

  /** Component-wise difference `a - b`. */
  function Sub(a: Coord, b: Coord): Coord
  {
    Coord(a.q - b.q, a.r - b.r)
  }

  /** Hex distance from the origin: the largest absolute cube component. */
  function Length(c: Coord): nat
  {
    Max(Abs(c.q), Max(Abs(c.r), Abs(c.S())))
  }

  /** The largest absolute cube component is half their sum, the other usual definition of hex distance. */
  lemma LengthHalfSum(c: Coord)
    ensures 2 * Length(c) == Abs(c.q) + Abs(c.r) + Abs(c.S())
  {
  }

  /** Hex distance between two coordinates (the hexgrid crate computes it as a half sum, see `DistHalfSum`). */
  function Dist(a: Coord, b: Coord): nat
  {
    Length(Sub(a, b))
  }

  /** Hex distance is half the sum of the absolute differences of q, r and s. */
  lemma DistHalfSum(a: Coord, b: Coord)
    ensures 2 * Dist(a, b) == Abs(a.q - b.q) + Abs(a.r - b.r) + Abs(a.S() - b.S())
  {
    LengthHalfSum(Sub(a, b));
  }

  lemma DistSymmetric(a: Coord, b: Coord)
    ensures Dist(a, b) == Dist(b, a)
  {
  }

  /** Each absolute cube component is bounded by the length, and one of them reaches it. */
  lemma LengthBounds(c: Coord)
    ensures Abs(c.q) <= Length(c) && Abs(c.r) <= Length(c) && Abs(c.S()) <= Length(c)
    ensures Length(c) == Abs(c.q) || Length(c) == Abs(c.r) || Length(c) == Abs(c.S())
  {
  }

  lemma DistTriangle(a: Coord, b: Coord, c: Coord)
    ensures Dist(a, c) <= Dist(a, b) + Dist(b, c)
  {
    var x, y, z := Sub(a, b), Sub(b, c), Sub(a, c);
    LengthBounds(x);
    LengthBounds(y);
    LengthBounds(z);
    AbsAdd(x.q, y.q);
    AbsAdd(x.r, y.r);
    AbsAdd(x.S(), y.S());
    assert z.q == x.q + y.q && z.r == x.r + y.r && z.S() == x.S() + y.S();
  }

  lemma AbsAdd(a: int, b: int)
    ensures Abs(a + b) <= Abs(a) + Abs(b)
  {
  }

  /** Membership in the disc of radius `radius` around the origin. */
  predicate InDisc(radius: int, c: Coord)
  {
    -radius <= c.q <= radius && -radius <= c.r <= radius && -radius <= c.q + c.r <= radius
  }

  lemma InDiscLength(radius: int, c: Coord)
    ensures InDisc(radius, c) <==> Length(c) <= radius
  {
    LengthBounds(c);
  }

  /** The six direct neighbours of `c`, one per cube direction. */
  function Neighbours(c: Coord): (ns: seq<Coord>)
    ensures |ns| == 6
    ensures forall k :: 0 <= k < 3 ==> Sub(ns[k], c) == Sub(c, ns[k + 3])
  {
    [Coord(c.q + 1, c.r - 1), Coord(c.q + 1, c.r), Coord(c.q, c.r + 1),
     Coord(c.q - 1, c.r + 1), Coord(c.q - 1, c.r), Coord(c.q, c.r - 1)]
  }

  /** The six neighbours are distinct and are exactly the coordinates at distance 1. */
  lemma NeighboursAreAdjacent(c: Coord)
    ensures forall k :: 0 <= k < 6 ==> Dist(Neighbours(c)[k], c) == 1
    ensures forall d :: Dist(d, c) == 1 ==> d in Neighbours(c)
    ensures forall j, k :: 0 <= j < k < 6 ==> Neighbours(c)[j] != Neighbours(c)[k]
  {
    var ns := Neighbours(c);
    forall d | Dist(d, c) == 1
      ensures d in ns
    {
      var x := Sub(d, c);
      LengthBounds(x);
      assert -1 <= x.q <= 1 && -1 <= x.r <= 1 && -1 <= x.q + x.r <= 1 && x != Origin;
      assert d == Coord(c.q + x.q, c.r + x.r);
      assert x in [Coord(1, -1), Coord(1, 0), Coord(0, 1), Coord(-1, 1), Coord(-1, 0), Coord(0, -1)];
    }
  }

  /** The ring of all coordinates at hex distance exactly `k` from the origin. */
  function Ring(k: nat): (ring: set<Coord>)
    ensures forall c {:trigger c in ring} :: c in ring <==> Length(c) == k
  {
    var bound: int := k;
    var ring := set q: int, r: int | -bound <= q <= bound && -bound <= r <= bound && Length(Coord(q, r)) == k :: Coord(q, r);
    assert forall c | Length(c) == k :: c in ring by {
      forall c | Length(c) == k ensures c in ring {
        assert -bound <= c.q <= bound && -bound <= c.r <= bound;
        assert c == Coord(c.q, c.r);
      }
    }
    ring
  }

  /** A step to a neighbour changes the distance from the origin by at most one. */
  lemma NeighbourLength(c: Coord, k: nat)
    requires k < 6
    ensures Length(Neighbours(c)[k]) <= Length(c) + 1
  {
    var n := Neighbours(c)[k];
    NeighboursAreAdjacent(c);
    DistTriangle(n, c, Origin);
    assert Sub(n, Origin) == n && Sub(c, Origin) == c;
  }

  /** Stepping in direction k and then in the opposite direction (k + 3) mod 6 returns to the start. */
  lemma NeighboursOpposite(c: Coord, k: nat)
    requires k < 6
    ensures Neighbours(Neighbours(c)[k])[(k + 3) % 6] == c
  {
  }

  /** Neighbours commute with translation: the neighbours of a - m are those of a, moved by -m. */
  lemma NeighboursShift(a: Coord, m: Coord, k: nat)
    requires k < 6
    ensures Neighbours(Sub(a, m))[k] == Sub(Neighbours(a)[k], m)
  {
  }
}
