/** The class `Punto3D<int>` exposed by the Boost.Python module
    `claseEjemplo`: a mutable point with three C `int` coordinates, property
    getters and setters, and a component-wise `operator+` that builds a new
    point. */
module ClaseEjemplo {

  /** The range of a C `int` (32 bits on the platforms Boost.Python
      targets). */
  const IntMin: int := -0x8000_0000
  const IntMax: int := 0x7fff_ffff

  predicate InInt32(v: int) {
    IntMin <= v <= IntMax
  }

  /** A C `int`. */
  newtype int32 = x: int | InInt32(x)

  /** The coordinates of a point, as a value. */
  datatype Coords = Coords(x: int32, y: int32, z: int32)

  /** Component-wise addition fits in a C `int`; outside it the C++ `+` on
      `int` is undefined behaviour. */
  predicate CanAdd(a: Coords, b: Coords) {
    InInt32(a.x as int + b.x as int) && InInt32(a.y as int + b.y as int) && InInt32(a.z as int + b.z as int)
  }

  /** The coordinates of `p1 + p2`. */
  function Sum(a: Coords, b: Coords): (c: Coords)
    requires CanAdd(a, b)
    ensures c.x as int == a.x as int + b.x as int
    ensures c.y as int == a.y as int + b.y as int
    ensures c.z as int == a.z as int + b.z as int
  {
    Coords(a.x + b.x, a.y + b.y, a.z + b.z)
  }

  const Origin := Coords(0, 0, 0)

  /** Addition is commutative, with the same overflow condition either way. */
  lemma SumCommutative(a: Coords, b: Coords)
    requires CanAdd(a, b)
    ensures CanAdd(b, a) && Sum(a, b) == Sum(b, a)
  {
  }

  /** Adding the origin, on either side, gives the point back. */
  lemma SumIdentity(a: Coords)
    ensures CanAdd(a, Origin) && CanAdd(Origin, a)
    ensures Sum(a, Origin) == a && Sum(Origin, a) == a
  {
  }

  /** Where the partial sums of both groupings fit, addition is associative. */
  lemma SumAssociative(a: Coords, b: Coords, c: Coords)
    requires CanAdd(a, b) && CanAdd(Sum(a, b), c) && CanAdd(b, c)
    ensures CanAdd(a, Sum(b, c))
    ensures Sum(Sum(a, b), c) == Sum(a, Sum(b, c))
  {
  }

  /** The grouping matters for overflow: (-1 + max) + 1 fits in a C `int`
      while max + 1 does not. */
  lemma GroupingDecidesOverflow()
    ensures var a, b, c := Coords(-1, 0, 0), Coords(0x7fff_ffff, 0, 0), Coords(1, 0, 0);
      CanAdd(a, b) && CanAdd(Sum(a, b), c) && !CanAdd(b, c)
  {
  }

  /** Addition can overflow: the largest `int` plus one has no C `int`
      result, so the no-overflow condition is a real restriction. */
  lemma SumCanOverflow()
    ensures !CanAdd(Coords(0x7fff_ffff, 0, 0), Coords(1, 0, 0))
  {
  }

  class Punto3D {
    var x: int32
    var y: int32
    var z: int32

    /** `Punto3D(x, y, z)`: a new point whose getters return x, y and z. */
    constructor (x: int32, y: int32, z: int32)
      ensures GetX() == x && GetY() == y && GetZ() == z
    {
      this.x := x;
      this.y := y;
      this.z := z;
    }

    function GetX(): int32
      reads this
    {
      x
    }

    function GetY(): int32
      reads this
    {
      y
    }

    function GetZ(): int32
      reads this
    {
      z
    }

    /** The point's coordinates, as read through the getters. */
    function Value(): (c: Coords)
      reads this
      ensures c.x == GetX() && c.y == GetY() && c.z == GetZ()
    {
      Coords(x, y, z)
    }

    /** `setX(newX)`: only the x coordinate changes. */
    method SetX(newX: int32)
      modifies this
      ensures Value() == old(Value()).(x := newX)
    {
      x := newX;
    }

    /** `setY(newY)`: only the y coordinate changes. */
    method SetY(newY: int32)
      modifies this
      ensures Value() == old(Value()).(y := newY)
    {
      y := newY;
    }

    /** `setZ(newZ)`: only the z coordinate changes. */
    method SetZ(newZ: int32)
      modifies this
      ensures Value() == old(Value()).(z := newZ)
    {
      z := newZ;
    }
  }

  /** `operator+(p1, p2)`: reads both operands through their getters, which
      changes neither of them, and returns a new point holding the
      component-wise sums. */
  method Plus(p1: Punto3D, p2: Punto3D) returns (newP: Punto3D)
    requires CanAdd(p1.Value(), p2.Value())
    ensures fresh(newP)
    ensures newP.Value() == Sum(p1.Value(), p2.Value())
  {
    var newX, newY, newZ := p1.GetX() + p2.GetX(), p1.GetY() + p2.GetY(), p1.GetZ() + p2.GetZ();
    newP := new Punto3D(newX, newY, newZ);
  }

  /** A setter acts on the object, not on a name: after `p3 = p1`, setting
      y through p3 is seen through p1, and the other point is untouched. */
  method SetThroughAlias(p1: Punto3D, p2: Punto3D, newY: int32)
    requires p1 != p2
    modifies p1
    ensures p1.Value() == old(p1.Value()).(y := newY)
    ensures p2.Value() == old(p2.Value())
  {
    var p3 := p1;
    p3.SetY(newY);
  }
}
