/** The eight-way compass of Point2 in UtilPoint.cs: the Direction enum, its
    two lookup tables, rotation, the lookups by unit point and by name, the
    Point2(Direction) constructor and the region test RegionInRect. */
module Compass {
  import opened Results
  import opened Points
  import Mathi

  /** A C# enum is an int underneath and the source casts freely between the
      two, so a Direction may hold any int, not only the named values. */
  newtype Direction = int

  const Invalid: Direction := -1
  const First: Direction := 0
  const North: Direction := 0
  const NorthEast: Direction := 1
  const East: Direction := 2
  const SouthEast: Direction := 3
  const South: Direction := 4
  const SouthWest: Direction := 5
  const West: Direction := 6
  const NorthWest: Direction := 7
  /** One past the last compass value: the number of directions. */
  const Length: Direction := 8

  /** The eight named directions, clockwise from North. */
  predicate IsCompass(d: Direction)
  {
    North <= d < Length
  }

  /** The unit step of each direction, indexed by Direction. */
  const PtCompass: seq<Point2> :=
    [Point2(0, 1), Point2(1, 1), Point2(1, 0), Point2(1, -1),
     Point2(0, -1), Point2(-1, -1), Point2(-1, 0), Point2(-1, 1)]

  /** The display name of each direction, indexed by Direction. */
  const StrCompass: seq<string> :=
    ["North", "NorthEast", "East", "SouthEast",
     "South", "SouthWest", "West", "NorthWest"]

  // ---------------------------------------------------------------------
  // Rotation

  /** The value DirectionRotate computes: delta is first brought into
      (0, 16] with C#'s `%`, then the sum is taken with C#'s `%` again. The
      result is always congruent to d + delta modulo 8; it is a compass value
      whenever d is at least Invalid, but a d further below can leave it
      negative. */
  function Rotated(d: Direction, delta: int): (r: Direction)
    ensures -Length < r < Length
    ensures (r as int) % 8 == (d as int + delta) % 8
    ensures d >= Invalid ==> IsCompass(r)
  {
    var delta' := Mathi.TruncRem(delta, Length as int) + Length as int;
    RotatedCongruent(d as int, delta);
    Mathi.TruncRem(d as int + delta', Length as int) as Direction
  }

  lemma RotatedCongruent(d: int, delta: int)
    ensures Mathi.TruncRem(d + Mathi.TruncRem(delta, 8) + 8, 8) % 8 == (d + delta) % 8
  {
    var dr := Mathi.TruncRem(delta, 8);
    Mathi.TruncRemCongruent(d + dr + 8, 8);
    Mathi.ModShift(d + dr, 1, 8);
    assert delta == Mathi.TruncDiv(delta, 8) * 8 + dr;
    Mathi.ModShift(d + dr, Mathi.TruncDiv(delta, 8), 8);
    assert d + dr + Mathi.TruncDiv(delta, 8) * 8 == d + delta;
  }

  /** DirectionRotate, which reassigns its delta parameter before the sum. */
  method DirectionRotate(d: Direction, delta: int) returns (r: Direction)
    ensures r == Rotated(d, delta)
    ensures d >= Invalid ==> IsCompass(r) && r as int == (d as int + delta) % 8
  {
    var delta' := delta;
    delta' := Mathi.TruncRem(delta', Length as int) + Length as int;
    r := Mathi.TruncRem(d as int + delta', Length as int) as Direction;
  }

  /** DirectionOpposite: four steps clockwise. */
  function DirectionOpposite(d: Direction): (r: Direction)
    ensures d >= Invalid ==> IsCompass(r) && r as int == (d as int + 4) % 8
  {
    Rotated(d, 4)
  }

  /** DirectionNormalize: a rotation by zero, which maps d into the compass
      when d is at least Invalid. */
  function DirectionNormalize(d: Direction): (r: Direction)
    ensures d >= Invalid ==> IsCompass(r) && r as int == d as int % 8
    ensures IsCompass(d) ==> r == d
  {
    Rotated(d, 0)
  }

  /** Two congruent values stay congruent after adding the same amount. */
  lemma {:induction false} CongruentPlus(a: int, b: int, c: int)
    requires a % 8 == b % 8
    ensures (a + c) % 8 == (b + c) % 8
  {
    Mathi.EuclidUnique(a, 8, a / 8, a % 8);
    Mathi.EuclidUnique(b, 8, b / 8, b % 8);
    Mathi.ModShift(a + c, b / 8 - a / 8, 8);
    assert a + c + (b / 8 - a / 8) * 8 == b + c;
  }

  /** From Invalid upward, a rotation is addition modulo 8. */
  lemma RotatedValue(d: Direction, delta: int)
    requires d >= Invalid
    ensures Rotated(d, delta) as int == (d as int + delta) % 8
  {
    var r := Rotated(d, delta) as int;
    assert 0 <= r < 8 && r % 8 == (d as int + delta) % 8;
  }

  /** Rotations compose by adding their steps. */
  lemma RotatedCompose(d: Direction, a: int, b: int)
    requires d >= Invalid
    ensures Rotated(Rotated(d, a), b) == Rotated(d, a + b)
  {
    var r1 := Rotated(d, a);
    RotatedValue(d, a);
    RotatedValue(r1, b);
    RotatedValue(d, a + b);
    CongruentPlus(r1 as int, d as int + a, b);
    assert d as int + a + b == d as int + (a + b);
  }

  /** The opposite of a compass direction differs from it, and taking the
      opposite twice gives the direction back. */
  lemma OppositeInvolutive(d: Direction)
    requires IsCompass(d)
    ensures DirectionOpposite(d) != d
    ensures DirectionOpposite(DirectionOpposite(d)) == d
  {
    RotatedCompose(d, 4, 4);
    assert Rotated(d, 8) as int == (d as int + 8) % 8;
    Mathi.ModShift(d as int, 1, 8);
  }

  /** The sentinels normalize into the compass: Invalid to NorthWest and
      Length to North. */
  lemma NormalizeSentinels()
    ensures DirectionNormalize(Invalid) == NorthWest
    ensures DirectionNormalize(Length) == North
  {
  }

  /** Worked values: North+4 is South, West-2 is South, and the opposite of
      NorthEast is SouthWest; a step count of any size wraps. */
  lemma RotateExamples()
    ensures Rotated(North, 4) == South
    ensures Rotated(West, -2) == South
    ensures DirectionOpposite(NorthEast) == SouthWest
    ensures Rotated(East, 17) == SouthEast
    ensures Rotated(North, -9) == NorthWest
  {
  }

  // ---------------------------------------------------------------------
  // Lookups

  /** The first index of x in s, or -1 (the value of Invalid) when x does
      not occur: the outcome of the search loops in both DirectionOf. */
  function IndexOf<T(==)>(s: seq<T>, x: T): (r: int)
    ensures -1 <= r < |s|
    ensures r == -1 <==> x !in s
    ensures r >= 0 ==> s[r] == x && x !in s[..r]
  {
    if s == [] then -1
    else if s[0] == x then 0
    else
      var k := IndexOf(s[1..], x);
      assert s[1..][..if k < 0 then 0 else k] == s[1..1 + if k < 0 then 0 else k];
      if k < 0 then -1 else k + 1
  }

  /** An index holding x with no earlier x is the one IndexOf finds. */
  lemma IndexOfFirst<T>(s: seq<T>, x: T, k: int)
    requires 0 <= k < |s| && s[k] == x && x !in s[..k]
    ensures IndexOf(s, x) == k
  {
  }

  /** In a table without repeats, the index found for an entry is that
      entry's own index. */
  lemma IndexOfDistinct<T>(s: seq<T>, k: int)
    requires 0 <= k < |s|
    requires forall i, j :: 0 <= i < j < |s| ==> s[i] != s[j]
    ensures IndexOf(s, s[k]) == k
  {
    assert forall i :: 0 <= i < k ==> s[..k][i] != s[k];
    IndexOfFirst(s, s[k], k);
  }

  /** Both tables list eight different entries, and every entry of
      PtCompass is its own unit. */
  lemma TablesDistinct()
    ensures |PtCompass| == |StrCompass| == Length as int
    ensures forall i, j :: 0 <= i < j < |PtCompass| ==> PtCompass[i] != PtCompass[j]
    ensures forall i, j :: 0 <= i < j < |StrCompass| ==> StrCompass[i] != StrCompass[j]
    ensures forall i :: 0 <= i < |PtCompass| ==> PtCompass[i].Unit() == PtCompass[i]
  {
    forall i, j | 0 <= i < j < |StrCompass|
      ensures StrCompass[i] != StrCompass[j]
    {
      var a, b := StrCompass[i], StrCompass[j];
      if |a| == |b| {
        assert a[0] != b[0] || (|a| == 9 && a[5] != b[5]);
      }
    }
  }

  /** The unit of a point is in PtCompass exactly when the point is not
      zero: every non-zero unit is one of the eight steps. */
  lemma UnitInCompass(p: Point2)
    ensures p.Unit() in PtCompass <==> p != Zero2
  {
    var u := p.Unit();
    UnitFacts2(p);
    if u != Zero2 {
      assert u == PtCompass[0] || u == PtCompass[1] || u == PtCompass[2] || u == PtCompass[3]
          || u == PtCompass[4] || u == PtCompass[5] || u == PtCompass[6] || u == PtCompass[7];
    } else {
      assert forall i :: 0 <= i < |PtCompass| ==> PtCompass[i] != Zero2;
    }
  }

  /** DirectionOf(Point2): scans PtCompass clockwise from North for the
      point's unit and stops at the first match. */
  method DirectionOf(p: Point2) returns (r: Direction)
    ensures r as int == IndexOf(PtCompass, p.Unit())
    ensures r == Invalid <==> p == Zero2
    ensures r != Invalid ==> IsCompass(r) && PtCompass[r] == p.Unit()
  {
    r := Invalid;
    var pUnit := p.Unit();
    var d := First;
    while d < Length && r == Invalid
      invariant First <= d <= Length
      invariant r == Invalid ==> pUnit !in PtCompass[..d]
      invariant r != Invalid ==> First <= r < d && PtCompass[r] == pUnit && pUnit !in PtCompass[..r]
    {
      if PtCompass[d] == pUnit {
        r := d;
      }
      d := d + 1;
    }
    UnitInCompass(p);
    if r != Invalid {
      IndexOfFirst(PtCompass, pUnit, r as int);
    }
  }

  /** DirectionOf(String): scans StrCompass clockwise from North for the
      name and stops at the first match. */
  method DirectionOfName(s: string) returns (r: Direction)
    ensures r as int == IndexOf(StrCompass, s)
    ensures r == Invalid <==> s !in StrCompass
    ensures r != Invalid ==> IsCompass(r) && StrCompass[r] == s
  {
    r := Invalid;
    var d := First;
    while d < Length && r == Invalid
      invariant First <= d <= Length
      invariant r == Invalid ==> s !in StrCompass[..d]
      invariant r != Invalid ==> First <= r < d && StrCompass[r] == s && s !in StrCompass[..r]
    {
      if StrCompass[d] == s {
        r := d;
      }
      d := d + 1;
    }
    if r != Invalid {
      IndexOfFirst(StrCompass, s, r as int);
    }
  }

  /** NameOf: the display name; anything but a compass value indexes
      StrCompass out of range and throws. */
  function NameOf(d: Direction): (r: Result<string>)
    ensures r.Ok? <==> IsCompass(d)
    ensures r.Ok? ==> r.value in StrCompass
  {
    if IsCompass(d) then Ok(StrCompass[d]) else IndexOutOfRange
  }

  /** Names and directions are inverse: the name of a compass direction
      looks up to that direction, and a name that looks up to a direction is
      that direction's name. */
  lemma NameRoundTrip(d: Direction, s: string)
    ensures IsCompass(d) ==> NameOf(d).Ok? && IndexOf(StrCompass, NameOf(d).value) == d as int
    ensures IndexOf(StrCompass, s) >= 0 ==> NameOf(IndexOf(StrCompass, s) as Direction) == Ok(s)
  {
    TablesDistinct();
    if IsCompass(d) {
      IndexOfDistinct(StrCompass, d as int);
    }
  }

  // ---------------------------------------------------------------------
  // Point2(Direction)

  /** The constructor Point2(Direction): the step of the normalized
      direction. Normalizing wraps rather than rejects, so Invalid gives
      the NorthWest step and Length the North step; only a value below -8
      that is not a multiple of 8 normalizes to a negative index and throws. */
  function FromDirection(d: Direction): (r: Result<Point2>)
    ensures r.IndexOutOfRange? <==> d < -8 && d as int % 8 != 0
    ensures r.Ok? ==> r.value == PtCompass[d as int % 8]
  {
    var i := DirectionNormalize(d);
    assert Rotated(d, 0) as int == Mathi.TruncRem(d as int + 8, 8);
    Mathi.ModShift(d as int, 1, 8);
    if i >= 0 then Ok(PtCompass[i]) else IndexOutOfRange
  }

  /** The step of each compass direction looks up to that direction again,
      and the sentinels land on NorthWest and North. */
  lemma FromDirectionRoundTrip(d: Direction)
    ensures IsCompass(d) ==>
      FromDirection(d).Ok? && IndexOf(PtCompass, FromDirection(d).value.Unit()) == d as int
    ensures FromDirection(Invalid) == Ok(PtCompass[NorthWest])
    ensures FromDirection(Length) == Ok(PtCompass[North])
    ensures FromDirection(-9).IndexOutOfRange?
  {
    TablesDistinct();
    if IsCompass(d) {
      IndexOfDistinct(PtCompass, d as int);
    }
  }

  // ---------------------------------------------------------------------
  // RegionInRect

  /** Point2.RegionInRect: which of the four triangles cut out of the box
      [0, Size] by its two diagonals holds the point. NW holds strictly
      above the main diagonal and NE strictly above the anti-diagonal, both
      read off the z of a cross product of the points lifted to Point3. */
  function RegionInRect(p: Point2, size: Point2): (r: Direction)
    ensures r == North || r == East || r == South || r == West
  {
    var nw := Point3.Cross(Point3.FromPoint2(p), Point3.FromPoint2(size)).z < 0;
    var ne := Point3.Cross(Point3.FromPoint2(Point2(p.x - size.x, p.y)),
                           Point3.FromPoint2(Point2(size.x * -1, size.y))).z > 0;
    if nw && ne then North
    else if !nw && ne then East
    else if !nw && !ne then South
    else West
  }

  /** Swaps East and West and keeps every other value. */
  function MirrorEastWest(d: Direction): (r: Direction)
  {
    if d == East then West else if d == West then East else d
  }

  /** Mirroring the point across the vertical middle of the box swaps East
      and West and keeps North and South, for every size. */
  lemma RegionMirror(p: Point2, size: Point2)
    ensures RegionInRect(Point2(size.x - p.x, p.y), size) == MirrorEastWest(RegionInRect(p, size))
  {
    var q := Point2(size.x - p.x, p.y);
    assert q.x * size.y - q.y * size.x == -((p.x - size.x) * size.y + p.y * size.x);
    assert (q.x - size.x) * size.y + q.y * size.x == -(p.x * size.y - p.y * size.x);
  }

  /** In a square of side s > 0 the four regions are the triangles between
      the diagonals y = x and y = s - x. A point on one diagonal goes South
      when it is on or below the other diagonal; above it, the main diagonal
      goes East and the anti-diagonal goes West. */
  lemma RegionInSquare(p: Point2, s: int)
    requires s > 0
    ensures RegionInRect(p, Point2(s, s)) == North <==> p.y > p.x && p.y > s - p.x
    ensures RegionInRect(p, Point2(s, s)) == East <==> p.y <= p.x && p.y > s - p.x
    ensures RegionInRect(p, Point2(s, s)) == South <==> p.y <= p.x && p.y <= s - p.x
    ensures RegionInRect(p, Point2(s, s)) == West <==> p.y > p.x && p.y <= s - p.x
  {
    var size := Point2(s, s);
    var nw := Point3.Cross(Point3.FromPoint2(p), Point3.FromPoint2(size)).z;
    var ne := Point3.Cross(Point3.FromPoint2(Point2(p.x - size.x, p.y)),
                           Point3.FromPoint2(Point2(size.x * -1, size.y))).z;
    assert nw == (p.x - p.y) * s;
    assert ne == (p.x + p.y - s) * s;
    SignOfProduct(p.x - p.y, s);
    SignOfProduct(p.x + p.y - s, s);
  }

  lemma SignOfProduct(a: int, s: int)
    requires s > 0
    ensures a * s < 0 <==> a < 0
    ensures a * s > 0 <==> a > 0
  {
    if a > 0 {
      Mathi.MulPositive(a, s);
    } else if a < 0 {
      Mathi.MulPositive(-a, s);
      assert a * s == -((-a) * s);
    }
  }

  /** The worked value (1, 1) in a 10 x 10 box: it lies on the main diagonal
      below the anti-diagonal, so both strict tests fail and it is South. */
  lemma RegionExample()
    ensures RegionInRect(Point2(1, 1), Point2(10, 10)) == South
  {
  }
}
