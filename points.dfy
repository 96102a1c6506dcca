/** The integer lattice points Point2 and Point3 of UtilPoint.cs. Both are C#
    value types compared field by field, so they are datatypes here; C#'s
    operators become named member functions, and the indexer setter, which
    assigns one field of a struct variable, returns the updated value. */
module Points {
  import opened Results
  import Mathi

  datatype Point2 = Point2(x: int, y: int)
  {
    /** The indexer getter: 0 is x, 1 is y, anything else throws. */
    function Item(index: int): (r: Result<int>)
      ensures r.Ok? <==> index == 0 || index == 1
      ensures index == 0 ==> r == Ok(x)
      ensures index == 1 ==> r == Ok(y)
    {
      match index
      case 0 => Ok(x)
      case 1 => Ok(y)
      case _ => IndexOutOfRange
    }

    /** The indexer setter: writes exactly one field, or throws and leaves
        the point as it was. */
    method SetItem(index: int, value: int) returns (r: Result<Point2>)
      ensures r.Ok? <==> Item(index).Ok?
      ensures r.Ok? ==> r.value.Item(index) == Ok(value)
      ensures r.Ok? ==> forall j :: j != index ==> r.value.Item(j) == Item(j)
    {
      var p := this;
      match index
      case 0 => p := p.(x := value); r := Ok(p);
      case 1 => p := p.(y := value); r := Ok(p);
      case _ => r := IndexOutOfRange;
    }

    /** Component-wise absolute value. */
    function Abs(): (r: Point2)
      ensures r.x >= 0 && (r.x == x || r.x == -x)
      ensures r.y >= 0 && (r.y == y || r.y == -y)
    {
      Point2(Mathi.Abs(x), Mathi.Abs(y))
    }

    /** The largest component. */
    function Max(): (r: int)
      ensures r >= x && r >= y
      ensures r == x || r == y
    {
      if x > y then x else y
    }

    /** Component-wise sign. */
    function Unit(): (r: Point2)
      ensures -1 <= r.x <= 1 && (r.x > 0 <==> x > 0) && (r.x < 0 <==> x < 0)
      ensures -1 <= r.y <= 1 && (r.y > 0 <==> y > 0) && (r.y < 0 <==> y < 0)
    {
      Point2(Mathi.Signum(x), Mathi.Signum(y))
    }

    /** `a + b`. */
    function Plus(b: Point2): (r: Point2)
      ensures b == Zero2 ==> r == this
      ensures this == Zero2 ==> r == b
    {
      Point2(x + b.x, y + b.y)
    }

    /** Unary `-a`. */
    function Negate(): (r: Point2)
      ensures Plus(r) == Zero2
    {
      Point2(-x, -y)
    }

    /** `a - b`. */
    function Minus(b: Point2): (r: Point2)
      ensures r.Plus(b) == this
      ensures r == Plus(b.Negate())
    {
      Point2(x - b.x, y - b.y)
    }

    /** `d * a`, the operator the other scalar product delegates to. */
    static function Scale(d: int, a: Point2): (r: Point2)
      ensures d == 0 ==> r == Zero2
      ensures d == 1 ==> r == a
      ensures d == -1 ==> r == a.Negate()
    {
      Point2(d * a.x, d * a.y)
    }

    /** `a * d`, defined in the source as `d * a`. */
    function Times(d: int): (r: Point2)
      ensures d != 0 ==> r.Over(d) == this
    {
      if d != 0 then
        Mathi.TruncDivExact(x, d); Mathi.TruncDivExact(y, d);
        Scale(d, this)
      else Scale(d, this)
    }

    /** `a / d`: C#'s truncating division on each component, so each
        component leaves C#'s remainder, which has the sign of the dividend. */
    function Over(d: int): (r: Point2)
      requires d != 0
      ensures r.x * d + Mathi.TruncRem(x, d) == x
      ensures r.y * d + Mathi.TruncRem(y, d) == y
    {
      Point2(Mathi.TruncDiv(x, d), Mathi.TruncDiv(y, d))
    }

    /** `==`: field-wise, which is structural equality. */
    function Equals(b: Point2): (r: bool)
      ensures r <==> this == b
    {
      x == b.x && y == b.y
    }

    /** `!=`: field-wise, the negation of `==`. */
    function NotEquals(b: Point2): (r: bool)
      ensures r <==> this != b
      ensures r == !Equals(b)
    {
      x != b.x || y != b.y
    }

    /** The dot product. */
    static function Dot(lhs: Point2, rhs: Point2): (r: int)
      ensures lhs == rhs ==> r >= 0
      ensures lhs == Zero2 || rhs == Zero2 ==> r == 0
    {
      lhs.x * rhs.x + lhs.y * rhs.y
    }

    /** The half-open box [xFrom, xTo) x [yFrom, yTo). */
    function InBoundsFrom(xFrom: int, yFrom: int, xTo: int, yTo: int): (r: bool)
      ensures r ==> xFrom < xTo && yFrom < yTo
    {
      x >= xFrom && x < xTo && y >= yFrom && y < yTo
    }

    /** The half-open box [0, xTo) x [0, yTo). */
    function InBounds(xTo: int, yTo: int): (r: bool)
      ensures r <==> 0 <= x < xTo && 0 <= y < yTo
    {
      InBoundsFrom(0, 0, xTo, yTo)
    }
  }

  /** Point2.zero and Point2.one. */
  const Zero2 := Point2(0, 0)
  const One2 := Point2(1, 1)

  datatype Point3 = Point3(x: int, y: int, z: int)
  {
    /** The indexer getter: 0 is x, 1 is y, 2 is z, anything else throws. */
    function Item(index: int): (r: Result<int>)
      ensures r.Ok? <==> 0 <= index <= 2
      ensures index == 0 ==> r == Ok(x)
      ensures index == 1 ==> r == Ok(y)
      ensures index == 2 ==> r == Ok(z)
    {
      match index
      case 0 => Ok(x)
      case 1 => Ok(y)
      case 2 => Ok(z)
      case _ => IndexOutOfRange
    }

    /** The indexer setter: writes exactly one field, or throws and leaves
        the point as it was. */
    method SetItem(index: int, value: int) returns (r: Result<Point3>)
      ensures r.Ok? <==> Item(index).Ok?
      ensures r.Ok? ==> r.value.Item(index) == Ok(value)
      ensures r.Ok? ==> forall j :: j != index ==> r.value.Item(j) == Item(j)
    {
      var p := this;
      match index
      case 0 => p := p.(x := value); r := Ok(p);
      case 1 => p := p.(y := value); r := Ok(p);
      case 2 => p := p.(z := value); r := Ok(p);
      case _ => r := IndexOutOfRange;
    }

    /** Component-wise absolute value. */
    function Abs(): (r: Point3)
      ensures r.x >= 0 && (r.x == x || r.x == -x)
      ensures r.y >= 0 && (r.y == y || r.y == -y)
      ensures r.z >= 0 && (r.z == z || r.z == -z)
    {
      Point3(Mathi.Abs(x), Mathi.Abs(y), Mathi.Abs(z))
    }

    /** The largest component. */
    function Max(): (r: int)
      ensures r >= x && r >= y && r >= z
      ensures r == x || r == y || r == z
    {
      if x > y then (if x > z then x else z) else (if y > z then y else z)
    }

    /** Component-wise sign. */
    function Unit(): (r: Point3)
      ensures -1 <= r.x <= 1 && (r.x > 0 <==> x > 0) && (r.x < 0 <==> x < 0)
      ensures -1 <= r.y <= 1 && (r.y > 0 <==> y > 0) && (r.y < 0 <==> y < 0)
      ensures -1 <= r.z <= 1 && (r.z > 0 <==> z > 0) && (r.z < 0 <==> z < 0)
    {
      Point3(Mathi.Signum(x), Mathi.Signum(y), Mathi.Signum(z))
    }

    /** `p1 + p2`. */
    function Plus(b: Point3): (r: Point3)
      ensures b == Zero3 ==> r == this
      ensures this == Zero3 ==> r == b
    {
      Point3(x + b.x, y + b.y, z + b.z)
    }

    /** Unary `-p`. */
    function Negate(): (r: Point3)
      ensures Plus(r) == Zero3
    {
      Point3(-x, -y, -z)
    }

    /** `p1 - p2`. */
    function Minus(b: Point3): (r: Point3)
      ensures r.Plus(b) == this
      ensures r == Plus(b.Negate())
    {
      Point3(x - b.x, y - b.y, z - b.z)
    }

    /** `d * p`, the operator the other scalar product delegates to. */
    static function Scale(d: int, a: Point3): (r: Point3)
      ensures d == 0 ==> r == Zero3
      ensures d == 1 ==> r == a
      ensures d == -1 ==> r == a.Negate()
    {
      Point3(d * a.x, d * a.y, d * a.z)
    }

    /** `p * d`, defined in the source as `d * p`. */
    function Times(d: int): (r: Point3)
      ensures d != 0 ==> r.Over(d) == this
    {
      if d != 0 then
        Mathi.TruncDivExact(x, d); Mathi.TruncDivExact(y, d); Mathi.TruncDivExact(z, d);
        Scale(d, this)
      else Scale(d, this)
    }

    /** `p / d`: C#'s truncating division on each component, so each
        component leaves C#'s remainder, which has the sign of the dividend. */
    function Over(d: int): (r: Point3)
      requires d != 0
      ensures r.x * d + Mathi.TruncRem(x, d) == x
      ensures r.y * d + Mathi.TruncRem(y, d) == y
      ensures r.z * d + Mathi.TruncRem(z, d) == z
    {
      Point3(Mathi.TruncDiv(x, d), Mathi.TruncDiv(y, d), Mathi.TruncDiv(z, d))
    }

    /** `==`: field-wise, which is structural equality. */
    function Equals(b: Point3): (r: bool)
      ensures r <==> this == b
    {
      x == b.x && y == b.y && z == b.z
    }

    /** `!=`: field-wise, the negation of `==`. */
    function NotEquals(b: Point3): (r: bool)
      ensures r <==> this != b
      ensures r == !Equals(b)
    {
      x != b.x || y != b.y || z != b.z
    }

    /** The dot product. */
    static function Dot(lhs: Point3, rhs: Point3): (r: int)
      ensures lhs == rhs ==> r >= 0
      ensures lhs == Zero3 || rhs == Zero3 ==> r == 0
    {
      lhs.x * rhs.x + lhs.y * rhs.y + lhs.z * rhs.z
    }

    /** The cross product. */
    static function Cross(lhs: Point3, rhs: Point3): (r: Point3)
      ensures lhs == rhs ==> r == Zero3
      ensures lhs == Zero3 || rhs == Zero3 ==> r == Zero3
    {
      Point3(lhs.y * rhs.z - lhs.z * rhs.y,
             lhs.z * rhs.x - lhs.x * rhs.z,
             lhs.x * rhs.y - lhs.y * rhs.x)
    }

    /** The half-open box [xFrom, xTo) x [yFrom, yTo) x [zFrom, zTo). */
    function InBoundsFrom(xFrom: int, yFrom: int, zFrom: int, xTo: int, yTo: int, zTo: int): (r: bool)
      ensures r ==> xFrom < xTo && yFrom < yTo && zFrom < zTo
    {
      x >= xFrom && x < xTo && y >= yFrom && y < yTo && z >= zFrom && z < zTo
    }

    /** The half-open box [0, xTo) x [0, yTo) x [0, zTo). */
    function InBounds(xTo: int, yTo: int, zTo: int): (r: bool)
      ensures r <==> 0 <= x < xTo && 0 <= y < yTo && 0 <= z < zTo
    {
      InBoundsFrom(0, 0, 0, xTo, yTo, zTo)
    }

    /** The explicit conversion `(Point2)p`: drops z and nothing else. */
    function ToPoint2(): (r: Point2)
      ensures Point3(r.x, r.y, z) == this
    {
      Point2(x, y)
    }

    /** The constructor `Point3(Point2 p)`: z is 0, and casting back gives
        p. */
    static function FromPoint2(p: Point2): (r: Point3)
      ensures r.z == 0
      ensures r.ToPoint2() == p
    {
      Point3(p.x, p.y, 0)
    }
  }

  /** Point3.zero and Point3.one. */
  const Zero3 := Point3(0, 0, 0)
  const One3 := Point3(1, 1, 1)

  /** The six axis steps of Point3. */
  const Back := Point3(0, 0, -1)
  const Forward := Point3(0, 0, 1)
  const Down := Point3(0, -1, 0)
  const Up := Point3(0, 1, 0)
  const Left := Point3(-1, 0, 0)
  const Right := Point3(1, 0, 0)

  // ---------------------------------------------------------------------
  // Properties of the arithmetic

  /** `a + b - b == a` and `a - b + b == a`. */
  lemma PlusMinusInverse2(a: Point2, b: Point2)
    ensures a.Plus(b).Minus(b) == a
    ensures a.Minus(b).Plus(b) == a
  {
  }

  /** `a + (-a) == zero`, and subtraction is adding the negation. */
  lemma NegateIsInverse2(a: Point2, b: Point2)
    ensures a.Plus(a.Negate()) == Zero2
    ensures a.Minus(b) == a.Plus(b.Negate())
    ensures a.Negate().Negate() == a
  {
  }

  /** `a * d == d * a`, and scaling distributes over `+`. */
  lemma ScaleCommutes2(a: Point2, b: Point2, d: int)
    ensures a.Times(d) == Point2.Scale(d, a)
    ensures Point2.Scale(d, a.Plus(b)) == Point2.Scale(d, a).Plus(Point2.Scale(d, b))
  {
    assert d * (a.x + b.x) == d * a.x + d * b.x;
    assert d * (a.y + b.y) == d * a.y + d * b.y;
  }

  lemma PlusMinusInverse3(a: Point3, b: Point3)
    ensures a.Plus(b).Minus(b) == a
    ensures a.Minus(b).Plus(b) == a
  {
  }

  lemma NegateIsInverse3(a: Point3, b: Point3)
    ensures a.Plus(a.Negate()) == Zero3
    ensures a.Minus(b) == a.Plus(b.Negate())
    ensures a.Negate().Negate() == a
  {
  }

  lemma ScaleCommutes3(a: Point3, b: Point3, d: int)
    ensures a.Times(d) == Point3.Scale(d, a)
    ensures Point3.Scale(d, a.Plus(b)) == Point3.Scale(d, a).Plus(Point3.Scale(d, b))
  {
    assert d * (a.x + b.x) == d * a.x + d * b.x;
    assert d * (a.y + b.y) == d * a.y + d * b.y;
    assert d * (a.z + b.z) == d * a.z + d * b.z;
  }

  /** The dot product is symmetric and a point's square is never negative. */
  lemma DotFacts2(a: Point2, b: Point2)
    ensures Point2.Dot(a, b) == Point2.Dot(b, a)
    ensures Point2.Dot(a, a) >= 0
    ensures Point2.Dot(a, a) == 0 <==> a == Zero2
  {
  }

  lemma DotFacts3(a: Point3, b: Point3)
    ensures Point3.Dot(a, b) == Point3.Dot(b, a)
    ensures Point3.Dot(a, a) >= 0
    ensures Point3.Dot(a, a) == 0 <==> a == Zero3
  {
  }

  /** `Cross(a, b) == -Cross(b, a)`, and the cross product is orthogonal to
      both of its arguments. */
  lemma CrossFacts(a: Point3, b: Point3)
    ensures Point3.Cross(a, b) == Point3.Cross(b, a).Negate()
    ensures Point3.Dot(a, Point3.Cross(a, b)) == 0
    ensures Point3.Dot(b, Point3.Cross(a, b)) == 0
    ensures Point3.Cross(a, a) == Zero3
  {
  }

  /** The axis steps come in opposite pairs. */
  lemma AxisOpposites()
    ensures Back == Forward.Negate() && Down == Up.Negate() && Left == Right.Negate()
  {
  }

  /** Each axis step is its own unit. */
  lemma AxisUnits()
    ensures Forward.Unit() == Forward && Up.Unit() == Up && Right.Unit() == Right
    ensures Back.Unit() == Back && Down.Unit() == Down && Left.Unit() == Left
  {
  }

  // ---------------------------------------------------------------------
  // Properties of unit

  /** unit of zero is zero, unit is zero only for zero, and unit is
      idempotent. */
  lemma UnitFacts2(a: Point2)
    ensures a.Unit() == Zero2 <==> a == Zero2
    ensures a.Unit().Unit() == a.Unit()
  {
  }

  lemma UnitFacts3(a: Point3)
    ensures a.Unit() == Zero3 <==> a == Zero3
    ensures a.Unit().Unit() == a.Unit()
  {
  }

  /** Scaling by a positive factor keeps the unit. */
  lemma UnitOfScale2(a: Point2, d: int)
    requires d > 0
    ensures Point2.Scale(d, a).Unit() == a.Unit()
  {
  }

  // ---------------------------------------------------------------------
  // Bounds, indexer and conversions

  /** The box test is translation invariant: it is the zero-based test on
      the point relative to the lower corner. */
  lemma InBoundsShift2(p: Point2, from: Point2, to: Point2)
    ensures p.InBoundsFrom(from.x, from.y, to.x, to.y)
        <==> p.Minus(from).InBounds(to.x - from.x, to.y - from.y)
  {
  }

  lemma InBoundsShift3(p: Point3, from: Point3, to: Point3)
    ensures p.InBoundsFrom(from.x, from.y, from.z, to.x, to.y, to.z)
        <==> p.Minus(from).InBounds(to.x - from.x, to.y - from.y, to.z - from.z)
  {
  }

  /** Two points are equal exactly when every index reads the same. */
  lemma ItemExtensional2(a: Point2, b: Point2)
    ensures a == b <==> forall i :: a.Item(i) == b.Item(i)
  {
    if forall i :: a.Item(i) == b.Item(i) {
      assert a.Item(0) == b.Item(0) && a.Item(1) == b.Item(1);
    }
  }

  lemma ItemExtensional3(a: Point3, b: Point3)
    ensures a == b <==> forall i :: a.Item(i) == b.Item(i)
  {
    if forall i :: a.Item(i) == b.Item(i) {
      assert a.Item(0) == b.Item(0) && a.Item(1) == b.Item(1) && a.Item(2) == b.Item(2);
    }
  }

  /** `new Point3(p).z == 0` and `(Point2)new Point3(p) == p`; going the
      other way only z is lost. */
  lemma ConversionRoundTrip(p: Point2, q: Point3)
    ensures Point3.FromPoint2(p).z == 0
    ensures Point3.FromPoint2(p).ToPoint2() == p
    ensures Point3.FromPoint2(q.ToPoint2()) == q.(z := 0)
  {
  }
}
