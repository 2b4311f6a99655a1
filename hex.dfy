/**
  The hexagonal "Generations" automaton of `src/hex.rs`: a disc of cells of
  radius R whose outer edge wraps around to the opposite edge, a rule with
  survival and birth neighbour counts and a number of vitality states, and a
  synchronous step that moves every cell to its next state.
 */
module Hex {
  import opened HexGrid

  /** Rust's `u8`. */
  newtype u8 = x: int | 0 <= x < 256

  /** The state of one cell: alive with a vitality (age), or off. */
  datatype Type = On(age: u8) | Off

  /** Neighbour counts under which a live cell survives and an off cell is born, and the number of states. */
  datatype Rule = Rule(survival: seq<u8>, birth: seq<u8>, states: u8)

  /** The radius and rule that `World::new` hard-codes. */
  const DefaultRadius: int := 20

  function DefaultRule(): Rule { Rule([2, 1], [2], 3) }

  /** A live cell's vitality lies in [1, states - 1]. */
  predicate AgeOk(cell: Type, states: u8)
  {
    cell.On? ==> 1 <= cell.age as int <= states as int - 1
  }

  ghost predicate AgesOk(m: map<Coord, Type>, states: u8)
  {
    forall c :: c in m ==> AgeOk(m[c], states)
  }

  // ---------------------------------------------------------------------
  // Grid construction: the disc and the edge wraparound table
  // ---------------------------------------------------------------------

  /** The first and last r of row q in the disc, as the construction loop computes them. */
  function RowStart(radius: int, q: int): int { Max(-radius, -q - radius) }

  function RowEnd(radius: int, q: int): int { Min(radius, -q + radius) }

  /** Row q of the disc runs from RowStart to RowEnd. */
  lemma RowBounds(radius: int, c: Coord)
    ensures InDisc(radius, c) <==> -radius <= c.q <= radius && RowStart(radius, c.q) <= c.r <= RowEnd(radius, c.q)
  {
  }

  /** Number of cells in the rows -radius .. q - 1 of the disc, i.e. the draws taken before row q. */
  function Filled(radius: int, q: int): (n: nat)
    requires 0 <= radius && -radius <= q <= radius + 1
    decreases q + radius
  {
    if q == -radius then 0 else Filled(radius, q - 1) + (RowEnd(radius, q - 1) - RowStart(radius, q - 1) + 1)
  }

  /** The half of the disc with q <= 0 is a trapezoid of rows of length 2R+1+q. */
  lemma {:induction false} FilledLowerHalf(radius: int, q: int)
    requires 0 <= radius && -radius <= q <= 1
    ensures 2 * Filled(radius, q) == (q + radius) * (3 * radius + 1 + q)
    decreases q + radius
  {
    if q != -radius {
      FilledLowerHalf(radius, q - 1);
      assert (q + radius) * (3 * radius + 1 + q)
          == (q - 1 + radius) * (3 * radius + q) + 2 * (2 * radius + q);
    }
  }

  /** Rows q >= 1 have length 2R+1-q. */
  lemma {:induction false} FilledUpperHalf(radius: int, q: int)
    requires 0 <= radius && 1 <= q <= radius + 1
    ensures 2 * Filled(radius, q) == (radius + 1) * (3 * radius + 2) + (q - 1) * (4 * radius + 2 - q)
    decreases q
  {
    if q == 1 {
      FilledLowerHalf(radius, 1);
    } else {
      FilledUpperHalf(radius, q - 1);
      assert (q - 1) * (4 * radius + 2 - q) == (q - 2) * (4 * radius + 3 - q) + 2 * (2 * radius + 2 - q);
    }
  }

  /** The disc of radius R holds 3R^2 + 3R + 1 cells. */
  lemma DiscSize(radius: int)
    requires 0 <= radius
    ensures Filled(radius, radius + 1) == 3 * radius * radius + 3 * radius + 1
  {
    FilledUpperHalf(radius, radius + 1);
  }

  /** Position of disc cell c in the construction order (row by row in q, then by r): the index of its random draw. */
  function DiscIndex(radius: int, c: Coord): nat
    requires 0 <= radius && InDisc(radius, c)
  {
    Filled(radius, c.q) + (c.r - RowStart(radius, c.q))
  }

  /** Rows fill in order: the draws before row q1 are no more than those before a later row q2. */
  lemma {:induction false} FilledMono(radius: int, q1: int, q2: int)
    requires 0 <= radius && -radius <= q1 <= q2 <= radius + 1
    ensures Filled(radius, q1) <= Filled(radius, q2)
    decreases q2 - q1
  {
    if q1 < q2 {
      FilledMono(radius, q1, q2 - 1);
    }
  }

  /** Every disc cell's draw is one of the first 3R^2 + 3R + 1. */
  lemma DiscIndexBound(radius: int, c: Coord)
    requires 0 <= radius && InDisc(radius, c)
    ensures DiscIndex(radius, c) < 3 * radius * radius + 3 * radius + 1
  {
    RowBounds(radius, c);
    assert DiscIndex(radius, c) < Filled(radius, c.q + 1);
    FilledMono(radius, c.q + 1, radius + 1);
    DiscSize(radius);
  }

  /** Distinct disc cells take distinct draws: each cell is seeded from a coin of its own. */
  lemma DiscIndexInjective(radius: int, a: Coord, b: Coord)
    requires 0 <= radius && InDisc(radius, a) && InDisc(radius, b)
    requires DiscIndex(radius, a) == DiscIndex(radius, b)
    ensures a == b
  {
    RowBounds(radius, a);
    RowBounds(radius, b);
    if a.q < b.q {
      assert DiscIndex(radius, a) < Filled(radius, a.q + 1);
      FilledMono(radius, a.q + 1, b.q);
    } else if b.q < a.q {
      assert DiscIndex(radius, b) < Filled(radius, b.q + 1);
      FilledMono(radius, b.q + 1, a.q);
    }
  }

  /** The initial state drawn for a cell. */
  function Seed(states: u8, coin: bool): (cell: Type)
    requires states >= 1
    ensures cell == Off || cell == On(states - 1)
    ensures cell.On? <==> coin
  {
    if coin then On(states - 1) else Off
  }

  /**
    The centres of the six discs that surround the populated one in the
    periodic tiling of the plane by discs of radius R, in the order the
    construction tries them.
   */
  function Mirrors(radius: nat): (ms: seq<Coord>)
    ensures |ms| == 6
  {
    var R: int := radius;
    [Coord(-R, -R - 1), Coord(R + 1, -2 * R - 1), Coord(2 * R + 1, -R),
     Coord(R, R + 1), Coord(-R - 1, 2 * R + 1), Coord(-2 * R - 1, R)]
  }

  /** The first mirror, from index `from` on, whose disc of radius R contains c. */
  function FirstMirror(radius: nat, c: Coord, from: nat): (found: Option<nat>)
    requires from <= 6
    ensures found.Some? ==> from <= found.value < 6 && Dist(c, Mirrors(radius)[found.value]) <= radius
    ensures found.Some? ==> forall j :: from <= j < found.value ==> Dist(c, Mirrors(radius)[j]) > radius
    ensures found.None? ==> forall j :: from <= j < 6 ==> Dist(c, Mirrors(radius)[j]) > radius
    decreases 6 - from
  {
    if from == 6 then None
    else if Dist(c, Mirrors(radius)[from]) <= radius then Some(from)
    else FirstMirror(radius, c, from + 1)
  }

  datatype Option<T> = None | Some(value: T)

  /** Two different mirrors are at least 2R+1 apart. */
  lemma MirrorsApart(radius: nat, i: nat, j: nat)
    requires i < j < 6
    ensures Dist(Mirrors(radius)[i], Mirrors(radius)[j]) >= 2 * radius + 1
  {
    var R: int, ms := radius, Mirrors(radius);
    var d := Sub(ms[i], ms[j]);
    LengthBounds(d);
    // one cube component of every difference has absolute value at least 2R+1
    if i == 0 {
      assert ms[0] == Coord(-R, -R - 1);
      if j == 1 || j == 2 { assert d.q <= -2 * R - 1; }
      else if j == 3 { assert d.S() >= 2 * R + 1; }
      else { assert d.r <= -2 * R - 1; }
    } else if i == 1 {
      assert ms[1] == Coord(R + 1, -2 * R - 1);
      if j == 2 { assert d.S() >= 2 * R + 1; }
      else if j == 5 { assert d.q >= 2 * R + 1; }
      else { assert d.r <= -2 * R - 1; }
    } else if i == 2 {
      assert ms[2] == Coord(2 * R + 1, -R);
      if j == 3 { assert d.r <= -2 * R - 1; }
      else { assert d.q >= 2 * R + 1; }
    } else if i == 3 {
      assert ms[3] == Coord(R, R + 1);
      if j == 4 { assert d.q >= 2 * R + 1; }
      else { assert d.S() <= -2 * R - 1; }
    } else {
      assert ms[4] == Coord(-R - 1, 2 * R + 1) && ms[5] == Coord(-2 * R - 1, R);
      assert d.S() <= -2 * R - 1;
    }
  }

  /** No coordinate lies within distance R of two different mirrors: the mirror discs are disjoint. */
  lemma MirrorUnique(radius: nat, c: Coord, i: nat, j: nat)
    requires i < 6 && j < 6
    requires Dist(c, Mirrors(radius)[i]) <= radius && Dist(c, Mirrors(radius)[j]) <= radius
    ensures i == j
  {
    var ms := Mirrors(radius);
    if i < j {
      MirrorsApart(radius, i, j);
    } else if j < i {
      MirrorsApart(radius, j, i);
      DistSymmetric(ms[i], ms[j]);
    }
    DistSymmetric(c, ms[i]);
    DistTriangle(ms[i], c, ms[j]);
  }

  /**
    Each side of the ring of radius R+1 lies on the boundary of one mirror
    disc: the returned mirror is at distance exactly R from c.
   */
  lemma RingSideMirror(radius: nat, c: Coord) returns (i: nat)
    requires Length(c) == radius + 1
    ensures i < 6 && Length(Sub(c, Mirrors(radius)[i])) == radius
  {
    var R: int, ms := radius, Mirrors(radius);
    if c.S() == -R - 1 && 0 <= c.q <= R {
      i := 3;
      assert Sub(c, ms[3]).S() == R;
    } else if c.q == R + 1 && -R <= c.r <= 0 {
      i := 2;
      assert Sub(c, ms[2]).q == -R;
    } else if c.r == -R - 1 && 0 <= c.S() <= R {
      i := 1;
      assert Sub(c, ms[1]).r == R;
    } else if c.S() == R + 1 && -R <= c.q <= 0 {
      i := 0;
      assert Sub(c, ms[0]).S() == -R;
    } else if c.q == -R - 1 && 0 <= c.r <= R {
      i := 5;
      assert Sub(c, ms[5]).q == R;
    } else {
      assert c.r == R + 1 && -R - 1 <= c.q <= -1;
      i := 4;
      assert Sub(c, ms[4]).r == -R;
    }
  }

  /**
    Every coordinate just outside the disc lies in one of the mirror discs,
    and on that disc's boundary, so that subtracting the mirror lands on the
    boundary of the populated disc.
   */
  lemma RingHasMirror(radius: nat, c: Coord)
    requires Length(c) == radius + 1
    ensures FirstMirror(radius, c, 0).Some?
    ensures Length(Sub(c, Mirrors(radius)[FirstMirror(radius, c, 0).value])) == radius
  {
    var i := RingSideMirror(radius, c);
    MirrorUnique(radius, c, i, FirstMirror(radius, c, 0).value);
  }

  /**
    The wraparound table: each coordinate of the ring of radius R+1 maps to
    itself minus the first mirror whose disc contains it.
   */
  function EdgeTable(radius: nat): map<Coord, Coord>
  {
    map c | c in Ring(radius + 1) && FirstMirror(radius, c, 0).Some? :: Sub(c, Mirrors(radius)[FirstMirror(radius, c, 0).value])
  }

  /**
    Every coordinate of the ring of radius R+1 has an entry, which moves it
    by one of the mirror offsets onto the boundary of the populated disc.
   */
  lemma EdgeEntry(radius: nat, c: Coord)
    requires Length(c) == radius + 1
    ensures c in EdgeTable(radius)
    ensures Length(EdgeTable(radius)[c]) == radius
    ensures Sub(c, EdgeTable(radius)[c]) in Mirrors(radius)
  {
    RingHasMirror(radius, c);
    var m := Mirrors(radius)[FirstMirror(radius, c, 0).value];
    assert Sub(c, Sub(c, m)) == m;
  }

  /** Only the ring of radius R+1 has entries. */
  lemma EdgeKeys(radius: nat, c: Coord)
    ensures c in EdgeTable(radius) ==> Length(c) == radius + 1
  {
  }

  /**
    The wraparound table covers exactly the ring of radius R+1, and since the
    mirror discs are disjoint, any mirror whose disc holds a key gives that
    key's entry: the order in which mirrors are tried does not matter.
   */
  lemma EdgeTableShape(radius: nat)
    ensures forall c :: c in EdgeTable(radius) <==> Length(c) == radius + 1
    ensures forall c, i :: c in EdgeTable(radius) && 0 <= i < 6 && Dist(c, Mirrors(radius)[i]) <= radius ==>
              EdgeTable(radius)[c] == Sub(c, Mirrors(radius)[i])
  {
    var table, ms := EdgeTable(radius), Mirrors(radius);
    forall c | Length(c) == radius + 1
      ensures c in table
    {
      EdgeEntry(radius, c);
    }
    forall c, i | c in table && 0 <= i < 6 && Dist(c, ms[i]) <= radius
      ensures table[c] == Sub(c, ms[i])
    {
      MirrorUnique(radius, c, i, FirstMirror(radius, c, 0).value);
    }
  }

  // ---------------------------------------------------------------------
  // One generation: neighbour resolution, live count and the transition
  // ---------------------------------------------------------------------

  /** A neighbour coordinate, replaced by its wraparound target when it has one. */
  function Resolve(edge: map<Coord, Coord>, n: Coord): Coord
  {
    if n in edge then edge[n] else n
  }

  /** The six neighbours of c after wraparound. */
  function ResolvedNeighbours(edge: map<Coord, Coord>, c: Coord): (ns: seq<Coord>)
    ensures |ns| == 6
  {
    var raw := Neighbours(c);
    seq(6, k requires 0 <= k < 6 => Resolve(edge, raw[k]))
  }

  /** Every resolved neighbour of c is a cell of m: the lookups of a step cannot fail. */
  ghost predicate NeighboursIn(m: map<Coord, Type>, edge: map<Coord, Coord>, c: Coord)
  {
    forall k :: 0 <= k < 6 ==> ResolvedNeighbours(edge, c)[k] in m
  }

  ghost predicate Closed(m: map<Coord, Type>, edge: map<Coord, Coord>)
  {
    // triggered on NeighboursIn only: a trigger on `c in m` would let every
    // neighbour found in m start a new instantiation
    forall c {:trigger NeighboursIn(m, edge, c)} :: c in m ==> NeighboursIn(m, edge, c)
  }

  /**
    On the disc of radius R with the wraparound table, every resolved
    neighbour of every cell is a cell of the disc, and it is either the plain
    neighbour or that neighbour moved by one mirror offset.
   */
  lemma ResolvedNeighbourInDisc(radius: nat, c: Coord, k: nat)
    requires InDisc(radius, c) && k < 6
    ensures InDisc(radius, ResolvedNeighbours(EdgeTable(radius), c)[k])
    ensures var n := Neighbours(c)[k];
            var w := ResolvedNeighbours(EdgeTable(radius), c)[k];
            w == n || Sub(n, w) in Mirrors(radius)
  {
    var n, edge := Neighbours(c)[k], EdgeTable(radius);
    InDiscLength(radius, c);
    NeighbourLength(c, k);
    EdgeKeys(radius, n);
    if Length(n) <= radius {
      InDiscLength(radius, n);
    } else {
      EdgeEntry(radius, n);
      InDiscLength(radius, edge[n]);
    }
  }

  lemma DiscClosed(radius: nat, m: map<Coord, Type>)
    requires forall c :: c in m <==> InDisc(radius, c)
    ensures Closed(m, EdgeTable(radius))
  {
    forall c, k | c in m && 0 <= k < 6
      ensures ResolvedNeighbours(EdgeTable(radius), c)[k] in m
    {
      ResolvedNeighbourInDisc(radius, c, k);
    }
  }

  /** Opposite mirrors are negatives of each other. */
  lemma MirrorOpposite(radius: nat, i: nat)
    requires i < 6
    ensures Mirrors(radius)[(i + 3) % 6] == Sub(Origin, Mirrors(radius)[i])
  {
    var ms := Mirrors(radius);
    if i < 3 {
      assert (i + 3) % 6 == i + 3;
    } else {
      assert (i + 3) % 6 == i - 3;
    }
  }

  /** Every mirror centre is at hex distance 2R+1 from the origin. */
  lemma MirrorLength(radius: nat, i: nat)
    requires i < 6
    ensures Length(Mirrors(radius)[i]) == 2 * radius + 1
  {
    var R: int, m := radius, Mirrors(radius)[i];
    if i == 0 {
      assert m.S() == 2 * R + 1;
    } else if i == 1 {
      assert m.r == -2 * R - 1;
    } else if i == 2 {
      assert m.q == 2 * R + 1;
    } else if i == 3 {
      assert m.S() == -2 * R - 1;
    } else if i == 4 {
      assert m.r == 2 * R + 1;
    } else {
      assert m.q == -2 * R - 1;
    }
  }

  /** A disc cell is at least R+1 away from every mirror centre. */
  lemma FarFromMirror(radius: nat, c: Coord, i: nat)
    requires InDisc(radius, c) && i < 6
    ensures Length(Sub(c, Mirrors(radius)[i])) >= radius + 1
  {
    var m := Mirrors(radius)[i];
    InDiscLength(radius, c);
    MirrorLength(radius, i);
    DistTriangle(m, c, Origin);
    DistSymmetric(m, c);
    assert Sub(m, Origin) == m && Sub(c, Origin) == c;
  }

  /**
    A disc cell moved off by mirror i, when that lands on the ring of radius
    R+1, is wrapped straight back to the cell by the opposite mirror.
   */
  lemma WrapBack(radius: nat, c: Coord, i: nat)
    requires InDisc(radius, c) && i < 6
    requires Length(Sub(c, Mirrors(radius)[i])) == radius + 1
    ensures Sub(c, Mirrors(radius)[i]) in EdgeTable(radius)
    ensures EdgeTable(radius)[Sub(c, Mirrors(radius)[i])] == c
  {
    var j := (i + 3) % 6;
    var back := Sub(c, Mirrors(radius)[i]);
    MirrorOpposite(radius, i);
    assert Sub(back, Mirrors(radius)[j]) == c;
    InDiscLength(radius, c);
    EdgeBy(radius, back, j);
  }

  /** A ring coordinate within R of mirror i is wrapped by that mirror. */
  lemma EdgeBy(radius: nat, c: Coord, i: nat)
    requires Length(c) == radius + 1 && i < 6 && Dist(c, Mirrors(radius)[i]) <= radius
    ensures c in EdgeTable(radius) && EdgeTable(radius)[c] == Sub(c, Mirrors(radius)[i])
  {
    RingHasMirror(radius, c);
    MirrorUnique(radius, c, i, FirstMirror(radius, c, 0).value);
  }

  /**
    The wrapped adjacency is symmetric: stepping from a disc cell in direction
    k and then, from the resolved neighbour, in the opposite direction leads
    back to the cell, whether or not the first step wrapped around.
   */
  lemma WrapSymmetric(radius: nat, c: Coord, k: nat)
    requires InDisc(radius, c) && k < 6
    ensures ResolvedNeighbours(EdgeTable(radius), ResolvedNeighbours(EdgeTable(radius), c)[k])[(k + 3) % 6] == c
  {
    var edge, j := EdgeTable(radius), (k + 3) % 6;
    var n := Neighbours(c)[k];
    var w := ResolvedNeighbours(edge, c)[k];
    InDiscLength(radius, c);
    EdgeKeys(radius, c);
    NeighbourLength(c, k);
    EdgeKeys(radius, n);
    NeighboursOpposite(c, k);
    if Length(n) > radius {
      EdgeEntry(radius, n);
      var i :| 0 <= i < 6 && Mirrors(radius)[i] == Sub(n, w);
      var m := Mirrors(radius)[i];
      assert w == Sub(n, m);
      // stepping back from w is stepping back from n, moved by the mirror
      NeighboursShift(n, m, j);
      NeighbourLength(w, j);
      FarFromMirror(radius, c, i);
      WrapBack(radius, c, i);
    }
  }

  /** The fold of the step: how many of the coordinates ns hold a live cell in m, counted left to right. */
  function CountOn(m: map<Coord, Type>, ns: seq<Coord>): (n: nat)
    requires forall i :: 0 <= i < |ns| ==> ns[i] in m
    ensures n <= |ns|
  {
    if ns == [] then 0
    else CountOn(m, ns[..|ns| - 1]) + (if m[ns[|ns| - 1]].On? then 1 else 0)
  }

  /** The positions of ns that hold a live cell. */
  ghost function LivePositions(m: map<Coord, Type>, ns: seq<Coord>): set<nat>
    requires forall i :: 0 <= i < |ns| ==> ns[i] in m
  {
    set i: nat | i < |ns| && m[ns[i]].On?
  }

  /** The fold counts exactly the live positions. */
  lemma {:induction false} CountOnIsLivePositions(m: map<Coord, Type>, ns: seq<Coord>)
    requires forall i :: 0 <= i < |ns| ==> ns[i] in m
    ensures CountOn(m, ns) == |LivePositions(m, ns)|
    decreases |ns|
  {
    if ns != [] {
      var init := ns[..|ns| - 1];
      CountOnIsLivePositions(m, init);
      var last := |ns| - 1;
      assert LivePositions(m, ns) == LivePositions(m, init) + (if m[ns[last]].On? then {last} else {});
    }
  }

  /** The number of live neighbours of c, after wraparound: at most six. */
  function AliveCount(m: map<Coord, Type>, edge: map<Coord, Coord>, c: Coord): (n: u8)
    requires NeighboursIn(m, edge, c)
    ensures n <= 6
  {
    CountOn(m, ResolvedNeighbours(edge, c)) as u8
  }

  /** The live count is the number of directions whose resolved neighbour is live. */
  lemma AliveCountIsLiveNeighbours(m: map<Coord, Type>, edge: map<Coord, Coord>, c: Coord)
    requires NeighboursIn(m, edge, c)
    ensures AliveCount(m, edge, c) as int == |LivePositions(m, ResolvedNeighbours(edge, c))|
  {
    CountOnIsLivePositions(m, ResolvedNeighbours(edge, c));
  }

  /** The coordinates next to c whose resolved cell is live, as a set: no order of the six directions enters. */
  ghost function LiveAround(m: map<Coord, Type>, edge: map<Coord, Coord>, c: Coord): set<Coord>
  {
    set d | d in Neighbours(c) && Resolve(edge, d) in m && m[Resolve(edge, d)].On?
  }

  /** Indexing a sequence at pairwise distinct positions reaches as many elements as there are indices. */
  lemma {:induction false} DistinctImage(ks: set<nat>, ns: seq<Coord>)
    requires forall k :: k in ks ==> k < |ns|
    requires forall j, k :: j in ks && k in ks && j != k ==> ns[j] != ns[k]
    ensures |set k | k in ks :: ns[k]| == |ks|
    decreases |ks|
  {
    if ks != {} {
      var k :| k in ks;
      var rest := ks - {k};
      DistinctImage(rest, ns);
      assert (set j | j in ks :: ns[j]) == (set j | j in rest :: ns[j]) + {ns[k]};
      assert ns[k] !in (set j | j in rest :: ns[j]);
    }
  }

  /**
    The live count does not depend on the order the neighbours are listed in:
    it is the number of coordinates at hex distance 1 from c whose resolved
    cell is live.
   */
  lemma AliveCountOrderFree(m: map<Coord, Type>, edge: map<Coord, Coord>, c: Coord)
    requires NeighboursIn(m, edge, c)
    ensures forall d :: d in LiveAround(m, edge, c) <==>
              Dist(d, c) == 1 && Resolve(edge, d) in m && m[Resolve(edge, d)].On?
    ensures AliveCount(m, edge, c) as int == |LiveAround(m, edge, c)|
  {
    NeighboursAreAdjacent(c);
    AliveCountIsLiveNeighbours(m, edge, c);
    var ks := LivePositions(m, ResolvedNeighbours(edge, c));
    DistinctImage(ks, Neighbours(c));
    LiveAroundPositions(m, edge, c);
  }

  /** The live coordinates around c are the raw neighbours at the live positions. */
  lemma LiveAroundPositions(m: map<Coord, Type>, edge: map<Coord, Coord>, c: Coord)
    requires NeighboursIn(m, edge, c)
    ensures LiveAround(m, edge, c) == set k | k in LivePositions(m, ResolvedNeighbours(edge, c)) :: Neighbours(c)[k]
  {
    var raw, ks := Neighbours(c), LivePositions(m, ResolvedNeighbours(edge, c));
    forall d | d in LiveAround(m, edge, c)
      ensures d in set k | k in ks :: raw[k]
    {
      var k :| 0 <= k < 6 && raw[k] == d;
      assert k in ks;
    }
  }

  /**
    The transition of one cell with `alive` live neighbours. A live cell that
    survives gains vitality up to the cap states - 1; one that does not loses
    one and turns off at zero; an off cell is born with vitality 1.
   */
  function Next(rule: Rule, cell: Type, alive: u8): (r: Type)
    requires rule.states >= 1
    requires cell.On? ==> cell.age >= 1
    ensures rule.states >= 2 && AgeOk(cell, rule.states) ==> AgeOk(r, rule.states)
    ensures cell.On? && AgeOk(cell, rule.states) && alive in rule.survival ==>
              r == On(Min(cell.age as int + 1, rule.states as int - 1) as u8)
    ensures cell.On? && alive !in rule.survival ==>
              if cell.age == 1 then r == Off else r == On(cell.age - 1)
    ensures cell.Off? ==> (r.On? <==> alive in rule.birth) && (r.On? ==> r.age == 1)
  {
    match cell
    case On(s) =>
      if alive in rule.survival then
        On(if s < rule.states - 1 then s + 1 else s)
      else
        var decayed := s - 1;
        if decayed == 0 then Off else On(decayed)
    case Off =>
      if alive in rule.birth then On(1) else Off
  }

  /** Every cell's next state, computed from the one snapshot m. */
  function Step(rule: Rule, m: map<Coord, Type>, edge: map<Coord, Coord>): (r: map<Coord, Type>)
    requires rule.states >= 1
    requires Closed(m, edge)
    requires forall c :: c in m && m[c].On? ==> m[c].age >= 1
    ensures r.Keys == m.Keys
  {
    map c | c in m :: Next(rule, m[c], AliveCount(m, edge, c))
  }

  /** A step keeps every live cell's vitality within [1, states - 1]. */
  lemma StepKeepsAges(rule: Rule, m: map<Coord, Type>, edge: map<Coord, Coord>)
    requires rule.states >= 2 && Closed(m, edge) && AgesOk(m, rule.states)
    ensures AgesOk(Step(rule, m, edge), rule.states)
  {
    var r := Step(rule, m, edge);
    forall c | c in r
      ensures AgeOk(r[c], rule.states)
    {
      assert AgeOk(m[c], rule.states);
    }
  }

  /**
    next holds, for the cells of done, the next state of every cell that was
    on or comes on; a cell of done left out of next keeps its state in the step.
   */
  ghost predicate Merged(rule: Rule, m: map<Coord, Type>, edge: map<Coord, Coord>, next: map<Coord, Type>, done: set<Coord>)
    requires rule.states >= 1 && Closed(m, edge)
    requires forall c :: c in m && m[c].On? ==> m[c].age >= 1
  {
    && (forall c :: c in next ==> c in m && c in done)
    && (forall c :: c in m && c in done ==> (if c in next then next[c] else m[c]) == Next(rule, m[c], AliveCount(m, edge, c)))
  }

  /** Computing the next state of one more cell c, and inserting it unless the cell stays off, extends next. */
  lemma StepRecorded(rule: Rule, m: map<Coord, Type>, edge: map<Coord, Coord>, next: map<Coord, Type>, done: set<Coord>, c: Coord, next': map<Coord, Type>)
    requires rule.states >= 1 && Closed(m, edge)
    requires forall c :: c in m && m[c].On? ==> m[c].age >= 1
    requires Merged(rule, m, edge, next, done) && c in m
    requires m[c].On? || Next(rule, m[c], AliveCount(m, edge, c)).On? ==> next' == next[c := Next(rule, m[c], AliveCount(m, edge, c))]
    requires m[c].Off? && Next(rule, m[c], AliveCount(m, edge, c)).Off? ==> next' == next
    ensures Merged(rule, m, edge, next', done + {c})
  {
    assert NeighboursIn(m, edge, c);
  }

  /**
    Once every cell is done, merging next over m (entries of next win) gives
    the whole step.
   */
  lemma MergeIsStep(rule: Rule, m: map<Coord, Type>, edge: map<Coord, Coord>, next: map<Coord, Type>, done: set<Coord>)
    requires rule.states >= 1 && Closed(m, edge)
    requires forall c :: c in m && m[c].On? ==> m[c].age >= 1
    requires m.Keys <= done && Merged(rule, m, edge, next, done)
    ensures m + next == Step(rule, m, edge)
  {
    var merged, stepped := m + next, Step(rule, m, edge);
    assert merged.Keys == stepped.Keys;
    assert forall c :: c in m ==> merged[c] == stepped[c];
  }

  // ---------------------------------------------------------------------
  // The world: construction and the synchronous step
  // ---------------------------------------------------------------------

  /** Disc cell c comes before (q, r) in the visiting order: rows before q, then row q before r. */
  predicate VisitedBefore(radius: int, q: int, r: int, c: Coord)
  {
    InDisc(radius, c) && (c.q < q || (c.q == q && c.r < r))
  }

  /** m holds exactly the cells visited before (q, r), each seeded from its own draw. */
  ghost predicate FilledBefore(radius: int, states: u8, coins: nat -> bool, m: map<Coord, Type>, q: int, r: int)
    requires radius >= 0 && states >= 1
  {
    && (forall c :: c in m <==> VisitedBefore(radius, q, r, c))
    && (forall c :: c in m ==> m[c] == Seed(states, coins(DiscIndex(radius, c))))
  }

  /** Visiting cell (q, r), which draws coin number DiscIndex, extends the filled part by one cell. */
  lemma FillCell(radius: int, states: u8, coins: nat -> bool, m: map<Coord, Type>, q: int, r: int, k: nat)
    requires radius >= 0 && states >= 1 && -radius <= q <= radius
    requires RowStart(radius, q) <= r <= RowEnd(radius, q)
    requires k == Filled(radius, q) + (r - RowStart(radius, q))
    requires FilledBefore(radius, states, coins, m, q, r)
    ensures |m[Coord(q, r) := Seed(states, coins(k))]| == |m| + 1
    ensures FilledBefore(radius, states, coins, m[Coord(q, r) := Seed(states, coins(k))], q, r + 1)
  {
    var cell := Coord(q, r);
    RowBounds(radius, cell);
    assert cell !in m;
    var m' := m[cell := Seed(states, coins(DiscIndex(radius, cell)))];
    forall c
      ensures c in m' <==> VisitedBefore(radius, q, r + 1, c)
    {
      if c != cell {
        assert c in m' <==> c in m;
      }
    }
  }

  /** Having visited all of row q is having visited every row before q + 1. */
  lemma FillRowDone(radius: int, states: u8, coins: nat -> bool, m: map<Coord, Type>, q: int)
    requires radius >= 0 && states >= 1 && -radius <= q <= radius
    requires FilledBefore(radius, states, coins, m, q, RowEnd(radius, q) + 1)
    ensures FilledBefore(radius, states, coins, m, q + 1, RowStart(radius, q + 1))
  {
    var rowEnd, next, nextStart := RowEnd(radius, q) + 1, q + 1, RowStart(radius, q + 1);
    forall c
      ensures VisitedBefore(radius, q, rowEnd, c) <==> VisitedBefore(radius, next, nextStart, c)
    {
      RowBounds(radius, c);
    }
  }

  /**
    The cells of the disc of radius R, visited row by row (q ascending, then r
    ascending); the k-th cell visited takes the k-th coin, a live cell of full
    vitality when it comes up true and an off cell otherwise.
   */
  method FillDisc(radius: int, states: u8, coins: nat -> bool) returns (m: map<Coord, Type>)
    requires radius >= 0 && states >= 1
    ensures forall c :: c in m <==> InDisc(radius, c)
    ensures |m| == 3 * radius * radius + 3 * radius + 1
    ensures forall c :: c in m ==> m[c] == Seed(states, coins(DiscIndex(radius, c)))
  {
    m := map[];
    var k: nat := 0;
    var q := -radius;
    while q <= radius
      invariant -radius <= q <= radius + 1
      invariant k == Filled(radius, q) == |m|
      invariant FilledBefore(radius, states, coins, m, q, RowStart(radius, q))
    {
      m, k := FillRow(radius, states, coins, m, q, k);
      q := q + 1;
    }
    FillDone(radius, states, coins, m);
  }

  /** Row q of the disc, r ascending, continuing the count of coins drawn from k0. */
  method FillRow(radius: int, states: u8, coins: nat -> bool, m0: map<Coord, Type>, q: int, k0: nat) returns (m: map<Coord, Type>, k: nat)
    requires radius >= 0 && states >= 1 && -radius <= q <= radius
    requires k0 == Filled(radius, q) == |m0|
    requires FilledBefore(radius, states, coins, m0, q, RowStart(radius, q))
    ensures k == Filled(radius, q + 1) == |m|
    ensures FilledBefore(radius, states, coins, m, q + 1, RowStart(radius, q + 1))
  {
    m, k := m0, k0;
    var r1 := Max(-radius, -q - radius);
    var r2 := Min(radius, -q + radius);
    var r := r1;
    while r <= r2
      invariant r1 <= r <= r2 + 1
      invariant k == k0 + (r - r1) == |m|
      invariant FilledBefore(radius, states, coins, m, q, r)
    {
      FillCell(radius, states, coins, m, q, r, k);
      m := m[Coord(q, r) := Seed(states, coins(k))];
      k := k + 1;
      r := r + 1;
    }
    assert Filled(radius, q + 1) == k0 + (r2 - r1 + 1);
    FillRowDone(radius, states, coins, m, q);
  }

  /** After the last row the whole disc is filled, one cell per coin drawn. */
  lemma FillDone(radius: int, states: u8, coins: nat -> bool, m: map<Coord, Type>)
    requires radius >= 0 && states >= 1
    requires |m| == Filled(radius, radius + 1)
    requires FilledBefore(radius, states, coins, m, radius + 1, RowStart(radius, radius + 1))
    ensures forall c :: c in m <==> InDisc(radius, c)
    ensures |m| == 3 * radius * radius + 3 * radius + 1
    ensures forall c :: c in m ==> m[c] == Seed(states, coins(DiscIndex(radius, c)))
  {
    DiscSize(radius);
  }

  /** edge agrees with the wraparound table on exactly the coordinates of done. */
  ghost predicate EdgeBuilt(radius: nat, edge: map<Coord, Coord>, done: set<Coord>)
  {
    var table := EdgeTable(radius);
    && (forall c :: c in edge <==> c in done && c in table)
    && (forall c :: c in edge ==> c in table && edge[c] == table[c])
  }

  /** Trying the mirrors in order for one more ring coordinate c records its entry, if it has one. */
  lemma EdgeRecorded(radius: nat, before: map<Coord, Coord>, done: set<Coord>, c: Coord, edge: map<Coord, Coord>)
    requires c in Ring(radius + 1)
    requires EdgeBuilt(radius, before, done)
    requires FirstMirror(radius, c, 0).Some? ==> edge == before[c := Sub(c, Mirrors(radius)[FirstMirror(radius, c, 0).value])]
    requires FirstMirror(radius, c, 0).None? ==> edge == before
    ensures EdgeBuilt(radius, edge, done + {c})
  {
  }

  /** Once every ring coordinate is done, the table built is the wraparound table. */
  lemma EdgeBuiltAll(radius: nat, edge: map<Coord, Coord>, done: set<Coord>)
    requires Ring(radius + 1) <= done
    requires EdgeBuilt(radius, edge, done)
    ensures edge == EdgeTable(radius)
  {
    EdgeTableInRing(radius);
    assert edge.Keys == EdgeTable(radius).Keys;
  }

  lemma EdgeTableInRing(radius: nat)
    ensures forall c :: c in EdgeTable(radius) ==> c in Ring(radius + 1)
  {
  }

  /**
    The wraparound table: for each coordinate of the ring of radius R+1 (in
    any order), the mirrors are tried in order and the first whose disc
    contains the coordinate gives the entry.
   */
  method BuildEdgeLookup(radius: nat) returns (edge: map<Coord, Coord>)
    ensures edge == EdgeTable(radius)
  {
    edge := map[];
    var mirrors := Mirrors(radius);
    var ring := Ring(radius + 1);
    var todo := ring;
    ghost var done: set<Coord> := {};
    while todo != {}
      invariant todo <= ring
      invariant forall c :: c in ring ==> c in done || c in todo
      invariant EdgeBuilt(radius, edge, done)
      decreases |todo|
    {
      var ringC :| ringC in todo;
      ghost var before := edge;
      var i := 0;
      while i < 6
        invariant 0 <= i <= 6
        invariant FirstMirror(radius, ringC, 0) == FirstMirror(radius, ringC, i)
        invariant edge == before
      {
        if Dist(ringC, mirrors[i]) <= radius {
          edge := edge[ringC := Sub(ringC, mirrors[i])];
          break;
        }
        i := i + 1;
      }
      EdgeRecorded(radius, before, done, ringC, edge);
      done, todo := done + {ringC}, todo - {ringC};
    }
    EdgeBuiltAll(radius, edge, done);
  }

  class World {
    /** The state of every cell of the disc (the source calls this field `map`). */
    var cells: map<Coord, Type>
    /** The wraparound table, built once. */
    var edgeLookup: map<Coord, Coord>
    const radius: int
    const rule: Rule

    /**
      The cells cover exactly the disc, the table is the wraparound table,
      every resolved neighbour of a cell is a cell, and vitalities are in range.
     */
    ghost predicate Valid()
      reads this
    {
      && radius >= 1 && rule.states >= 2
      && (forall c :: c in cells <==> InDisc(radius, c))
      && edgeLookup == EdgeTable(radius)
      && Closed(cells, edgeLookup)
      && AgesOk(cells, rule.states)
    }

    /**
      Fills the disc row by row, drawing the k-th coin for the k-th cell, then
      builds the wraparound table from the ring of radius R+1.
     */
    constructor (radius: int, rule: Rule, coins: nat -> bool)
      requires radius >= 1 && rule.states >= 2
      ensures Valid()
      ensures this.radius == radius && this.rule == rule
      ensures |cells| == 3 * radius * radius + 3 * radius + 1
      ensures forall c :: c in cells ==> cells[c] == Seed(rule.states, coins(DiscIndex(radius, c)))
    {
      var m := FillDisc(radius, rule.states, coins);
      var edge := BuildEdgeLookup(radius);
      DiscClosed(radius, m);
      cells := m;
      edgeLookup := edge;
      this.radius := radius;
      this.rule := rule;
    }

    /** The world as the program builds it: radius 20 and the rule survival {2, 1}, birth {2}, three states. */
    static method Default(coins: nat -> bool) returns (w: World)
      ensures fresh(w)
      ensures w.Valid() && w.radius == DefaultRadius && w.rule == DefaultRule()
      ensures |w.cells| == 1261
      ensures forall c :: c in w.cells ==> w.cells[c] == Off || w.cells[c] == On(2)
    {
      w := new World(DefaultRadius, DefaultRule(), coins);
    }

    /**
      Advances one generation: every cell's next state is computed from the
      cells as they were before the step, collected in a fresh map (an off cell
      that is not born is not inserted) and merged back over the cells.
     */
    method Iterate()
      requires Valid()
      modifies this`cells
      ensures Valid()
      ensures cells == Step(rule, old(cells), edgeLookup)
      ensures cells.Keys == old(cells).Keys && edgeLookup == old(edgeLookup)
    {
      var snapshot, edge := cells, edgeLookup;
      var next: map<Coord, Type> := map[];
      var todo := snapshot.Keys;
      ghost var done: set<Coord> := {};
      while todo != {}
        invariant todo <= snapshot.Keys
        invariant forall c :: c in snapshot ==> c in done || c in todo
        invariant Merged(rule, snapshot, edge, next, done)
        decreases |todo|
      {
        var coord :| coord in todo;
        var aliveCount := AliveCount(snapshot, edge, coord);
        var state := Next(rule, snapshot[coord], aliveCount);
        ghost var before := next;
        if snapshot[coord].On? || state.On? {
          next := next[coord := state];
        }
        StepRecorded(rule, snapshot, edge, before, done, coord, next);
        done, todo := done + {coord}, todo - {coord};
      }
      MergeIsStep(rule, snapshot, edge, next, done);
      cells := snapshot + next;
      StepKeepsAges(rule, snapshot, edge);
      DiscClosed(radius, cells);
    }
  }
}
