# UnityIntegerPoint in Dafny

A model of `UtilPoint.cs`, a small C# library of integer lattice points for
grid and tile logic in Unity. It has five parts:

- **`Mathi`**: integer helpers (`mathi.dfy`). These are max, min, abs, sign, clamp, and a `Mod`/`Div` pair meant to
  behave for negative dividends.
- **`Point2` and `Point3`** (`points.dfy`): value types with field-wise equality,
  arithmetic operators, `abs`, `max`, `unit`, `Dot`, `Cross`, half-open box
  tests, an indexer and the conversions between the two.
- **The compass** (`compass.dfy`): the eight-way `Direction` enum with its
  `Invalid` and `Length` sentinels, the step and name tables, rotation,
  lookups by unit point and by name, the `Point2(Direction)` constructor and
  `RegionInRect`.
- **`PointHelpers`** (`point_helpers.dfy`): reading, writing and measuring
  rectangular and jagged C# arrays with a point as the index.
- **`Results`** (`results.dfy`): the `IndexOutOfRangeException` the core
  throws, modelled as a `Result` value.

Notes on how the model reads the C#:

- C#'s `/` and `%` on `int` truncate toward zero; Dafny's are Euclidean.
  `Mathi.TruncDiv` and `Mathi.TruncRem` model the C# operators and are used
  wherever the source divides: in `Div`, `Mod`, `DirectionRotate` and the
  point `/` operators.
- A C# enum holds any `int`, and the source casts freely. So `Direction` is a
  newtype over `int` with named constants, not a closed datatype. This is
  what lets the model say what happens to out-of-range values.
- The struct indexer's setter assigns one field of a struct variable. Here it
  is a method that returns the updated point. A throw returns
  `IndexOutOfRange` and the point is unchanged.
- The two `DirectionOf` overloads are loops over the tables. They are methods
  proved equal to `IndexOf`, the first-match search, and to its meaning.
  Since Dafny has no overloading, the string overload is `DirectionOfName`.
  Other overloads get distinct names too: `InBoundsFrom`/`InBounds`,
  `GetValue2`/`GetValueJagged2`/`GetValue3`/`GetValueJagged3`, and so on.
- `DirectionRotate` reassigns its parameter. It is a method, checked against
  the function `Rotated`, which the other direction functions and the lemmas
  use.

Where the code and its comments or documentation disagree, the model follows the code:

- `Point2(Direction)` (UtilPoint.cs:353-356) is commented as returning zero
  for an out-of-range value. In fact it wraps through `DirectionNormalize`:
  - `Invalid` gives the NorthWest step.
  - `Length` gives the North step.
  - A value below -8 that is not a multiple of 8 makes a negative table index,
    and the constructor throws.

  `FromDirection` states this exactly.
- `RegionInRect((1,1), (10,10))` is `South`, not `West`. A point on the main
  diagonal at or below the centre is on or below the anti-diagonal too, so
  both strict tests fail (`RegionExample`). In general a point on one
  diagonal goes South when it is on or below the other diagonal; above it,
  the main diagonal goes East and the anti-diagonal goes West
  (`RegionInSquare`).
- `Div` and `Mod` are floor division and floor modulo only for a positive
  divisor. For example, `Div(-7,-2) == 2` and `Mod(-7,-2) == -1`, which do not
  satisfy `Div*n + Mod == m`. The floor properties are proved for `n > 0`
  (`DivModFloor`), and the negative case is shown by `NegativeDivisor`. The
  source's comments only promise correct behaviour for a negative dividend.

## Model

| member | source | states |
|---|---|---|
| `Mathi.Abs` | UtilPoint.cs:16-19 | the result is non-negative and is `i` or `-i` |
| `Mathi.Max` | UtilPoint.cs:6-9 | the result is at least both arguments and is one of them |
| `Mathi.Min` | UtilPoint.cs:11-14 | the result is at most both arguments and is one of them |
| `Mathi.Sign` | UtilPoint.cs:21-24 | `Math.Sign` agrees with `Signum` on every int |
| `Mathi.Clamp` | UtilPoint.cs:26-29 | with `min <= max` the result lies in `[min, max]`, equals `v` inside the range and the nearer bound outside it; with `min > max` the upper bound wins |
| `Mathi.ClampExclusive` | UtilPoint.cs:31-34 | with `min < max` the result lies in `[min, max)`, equals `v` inside it, `min` below it and `max - 1` at or above `max` |
| `Mathi.Signum` | UtilPoint.cs:61-64 | the result is -1, 0 or 1, zero exactly for 0, positive exactly for positive `i`, and `Signum(i) * i == |i|` |
| `Mathi.TruncDiv` | UtilPoint.cs:50 | C#'s `/`: it agrees with floor division for non-negative dividend and positive divisor |
| `Mathi.TruncRem` | UtilPoint.cs:44 | C#'s `%`: `a == (a / b) * b + r` with `|r| < |b|`, and `r` has the sign of the dividend |
| `Mathi.Mod` | UtilPoint.cs:42-45 | the result is smaller in size than `n`, and never negative when `n > 0`; `DivModFloor` proves it is floor modulo for `n > 0`, `NegativeDivisor` shows what it does for `n < 0` |
| `Mathi.Div` | UtilPoint.cs:47-54 | for `n > 0`, `r * n <= m < r * n + n`: floor division, negative `m` included; `NegativeDivisor` shows the `n < 0` case |
| `Mathi.DivModFloor` | UtilPoint.cs:42-54 | for `n > 0`, `Div` and `Mod` are floor division and floor modulo: `Div(m,n)*n + Mod(m,n) == m` and `0 <= Mod(m,n) < n`, for negative `m` too |
| `Mathi.NegativeDivisor` | UtilPoint.cs:42-54 | with a negative divisor the floor identity fails: `Div(-7,-2) == 2`, `Mod(-7,-2) == -1`, `Mod(1,-2) == 1` |
| `Points.Point2.Item` | UtilPoint.cs:71-85 | index 0 reads `x`, 1 reads `y`, every other index throws |
| `Points.Point2.SetItem` | UtilPoint.cs:86-99 | succeeds exactly for the indices the getter accepts; afterwards that index reads the new value and every other index reads as before |
| `Points.Point2.Abs` | UtilPoint.cs:191-197 | each component is non-negative and is the original or its negation |
| `Points.Point2.Max` | UtilPoint.cs:199-205 | the result is the largest component |
| `Points.Point2.Unit` | UtilPoint.cs:207-213 | each component is -1, 0 or 1 with the sign of the original component |
| `Points.Point2.Plus` | UtilPoint.cs:231-234 | `zero` is an identity on both sides; `PlusMinusInverse2` gives the inverse laws with `-` |
| `Points.Point2.Negate` | UtilPoint.cs:236-239 | `a + (-a) == zero`; `NegateIsInverse2` adds double negation |
| `Points.Point2.Minus` | UtilPoint.cs:241-244 | `(a - b) + b == a`, and `a - b == a + (-b)` |
| `Points.Point2.Scale` | UtilPoint.cs:246-249 | scaling by 0 gives `zero`, by 1 the point, by -1 its negation; `ScaleCommutes2` gives distribution over `+` |
| `Points.Point2.Times` | UtilPoint.cs:251-254 | for every non-zero `d`, `(a * d) / d == a` under C#'s truncating `/`; `ScaleCommutes2` gives `a * d == d * a` |
| `Points.Point2.Dot` | UtilPoint.cs:301-304 | a point's square is never negative, and the product with `zero` is 0; `DotFacts2` adds symmetry and that the square is 0 only for `zero` |
| `Points.Point2.Over` | UtilPoint.cs:256-259 | each component is C#'s truncating quotient: `r.x * d` plus C#'s remainder gives back `x` |
| `Points.Point2.Equals` | UtilPoint.cs:261-264 | field-wise `==` is structural equality |
| `Points.Point2.NotEquals` | UtilPoint.cs:266-269 | field-wise `!=` is the negation of `==` |
| `Points.Point2.InBoundsFrom` | UtilPoint.cs:311-314 | a point can only be inside a box that is non-empty on both axes |
| `Points.Point2.InBounds` | UtilPoint.cs:316-319 | the point is inside exactly when `0 <= x < xTo` and `0 <= y < yTo`: the half-open box from zero |
| `Points.Point3.Item` | UtilPoint.cs:363-379 | index 0, 1, 2 read `x`, `y`, `z`; every other index throws |
| `Points.Point3.SetItem` | UtilPoint.cs:380-396 | succeeds exactly for indices 0 to 2; afterwards that index reads the new value and the others read as before |
| `Points.Point3.Abs` | UtilPoint.cs:409-415 | each component is non-negative and is the original or its negation |
| `Points.Point3.Max` | UtilPoint.cs:417-423 | the result is the largest of the three components |
| `Points.Point3.Unit` | UtilPoint.cs:425-431 | each component is -1, 0 or 1 with the sign of the original component |
| `Points.Point3.Plus` | UtilPoint.cs:449-452 | `zero` is an identity on both sides; `PlusMinusInverse3` gives the inverse laws with `-` |
| `Points.Point3.Negate` | UtilPoint.cs:454-457 | `a + (-a) == zero`; `NegateIsInverse3` adds double negation |
| `Points.Point3.Minus` | UtilPoint.cs:459-462 | `(a - b) + b == a`, and `a - b == a + (-b)` |
| `Points.Point3.Scale` | UtilPoint.cs:464-467 | scaling by 0 gives `zero`, by 1 the point, by -1 its negation; `ScaleCommutes3` gives distribution over `+` |
| `Points.Point3.Times` | UtilPoint.cs:469-472 | for every non-zero `d`, `(a * d) / d == a` under C#'s truncating `/`; `ScaleCommutes3` gives `a * d == d * a` |
| `Points.Point3.Dot` | UtilPoint.cs:519-522 | a point's square is never negative, and the product with `zero` is 0; `DotFacts3` adds symmetry and that the square is 0 only for `zero` |
| `Points.Point3.Cross` | UtilPoint.cs:529-532 | the cross product of a point with itself, or with `zero`, is `zero`; `CrossFacts` adds anticommutativity and orthogonality to both arguments |
| `Points.Point3.Over` | UtilPoint.cs:474-477 | each component is C#'s truncating quotient by `d` |
| `Points.Point3.Equals` | UtilPoint.cs:479-482 | field-wise `==` is structural equality |
| `Points.Point3.NotEquals` | UtilPoint.cs:484-487 | field-wise `!=` is the negation of `==` |
| `Points.Point3.InBoundsFrom` | UtilPoint.cs:539-542 | a point can only be inside a box that is non-empty on all three axes |
| `Points.Point3.InBounds` | UtilPoint.cs:544-547 | the point is inside exactly when `0 <= x < xTo`, `0 <= y < yTo` and `0 <= z < zTo` |
| `Points.Point3.ToPoint2` | UtilPoint.cs:559-562 | the cast keeps `x` and `y` and loses only `z` |
| `Points.Point3.FromPoint2` | UtilPoint.cs:583-588 | the constructor sets `z` to 0, and casting the result back to `Point2` gives the original point |
| `Points.PlusMinusInverse2` | UtilPoint.cs:231-244 | `a + b - b == a` and `a - b + b == a` |
| `Points.NegateIsInverse2` | UtilPoint.cs:236-244 | `a + (-a) == zero`, `a - b == a + (-b)`, `-(-a) == a` |
| `Points.ScaleCommutes2` | UtilPoint.cs:246-254 | `a * d == d * a`, and `d * (a + b) == d*a + d*b` |
| `Points.PlusMinusInverse3` | UtilPoint.cs:449-462 | `a + b - b == a` and `a - b + b == a` |
| `Points.NegateIsInverse3` | UtilPoint.cs:454-462 | `a + (-a) == zero`, `a - b == a + (-b)`, `-(-a) == a` |
| `Points.ScaleCommutes3` | UtilPoint.cs:464-472 | `a * d == d * a`, and scaling distributes over `+` |
| `Points.DotFacts2` | UtilPoint.cs:301-304 | `Dot` is symmetric, `Dot(a, a) >= 0`, and it is 0 only for zero |
| `Points.DotFacts3` | UtilPoint.cs:519-522 | `Dot` is symmetric, `Dot(a, a) >= 0`, and it is 0 only for zero |
| `Points.CrossFacts` | UtilPoint.cs:519-532 | `Cross(a, b) == -Cross(b, a)`, `Cross(a, a) == zero`, and `Cross(a, b)` is orthogonal to both `a` and `b` |
| `Points.UnitFacts2` | UtilPoint.cs:207-213 | `unit` is zero exactly for zero, and `unit` is idempotent |
| `Points.UnitFacts3` | UtilPoint.cs:425-431 | `unit` is zero exactly for zero, and `unit` is idempotent |
| `Points.UnitOfScale2` | UtilPoint.cs:246-249 | scaling by a positive factor keeps `unit` |
| `Points.InBoundsShift2` | UtilPoint.cs:311-319 | the box test equals the zero-based test on the point relative to the lower corner |
| `Points.InBoundsShift3` | UtilPoint.cs:539-547 | the box test equals the zero-based test on the point relative to the lower corner |
| `Points.AxisOpposites` | UtilPoint.cs:399-404 | `back`, `down` and `left` are the negations of `forward`, `up` and `right` |
| `Points.AxisUnits` | UtilPoint.cs:399-404 | each of the six axis steps is its own `unit` |
| `Points.ItemExtensional2` | UtilPoint.cs:71-85 | two points are equal exactly when every index reads the same |
| `Points.ItemExtensional3` | UtilPoint.cs:363-379 | two points are equal exactly when every index reads the same |
| `Points.ConversionRoundTrip` | UtilPoint.cs:559-588 | `new Point3(p).z == 0`, `(Point2)new Point3(p) == p`, and `new Point3((Point2)q)` is `q` with `z` zeroed |
| `Compass.Rotated` | UtilPoint.cs:146-150 | the rotated value lies in (-8, 8) and is congruent to `d + delta` mod 8; it is a compass value whenever `d >= Invalid` |
| `Compass.DirectionRotate` | UtilPoint.cs:146-150 | the method computes `Rotated`; for `d >= Invalid` it is the compass value `(d + delta) mod 8`, for any `delta` |
| `Compass.DirectionOpposite` | UtilPoint.cs:152-155 | for `d >= Invalid` the result is the compass value `(d + 4) mod 8` |
| `Compass.DirectionNormalize` | UtilPoint.cs:157-160 | for `d >= Invalid` the result is the compass value `d mod 8`; a compass value is left as it is |
| `Compass.RotatedValue` | UtilPoint.cs:146-150 | from `Invalid` upward, rotating `d` by `delta` gives `(d + delta) mod 8` |
| `Compass.RotatedCompose` | UtilPoint.cs:146-150 | rotating by `a` then by `b` is rotating by `a + b` |
| `Compass.OppositeInvolutive` | UtilPoint.cs:152-155 | the opposite of a compass direction differs from it, and the opposite of the opposite is the direction |
| `Compass.NormalizeSentinels` | UtilPoint.cs:157-160 | `Invalid` normalizes to NorthWest and `Length` to North |
| `Compass.RotateExamples` | UtilPoint.cs:146-155 | North+4 is South, West-2 is South, the opposite of NorthEast is SouthWest, East+17 is SouthEast, North-9 is NorthWest |
| `Compass.IndexOf` | UtilPoint.cs:166-168 | the first index of `x` in the table, or -1 (`Invalid`) exactly when `x` is absent |
| `Compass.IndexOfFirst` | UtilPoint.cs:166-168 | an index that holds `x` with no earlier `x` is the one the search finds |
| `Compass.IndexOfDistinct` | UtilPoint.cs:126-127 | in a table without repeats, the search finds an entry at its own index |
| `Compass.TablesDistinct` | UtilPoint.cs:102-127 | the step table (the eight named compass points) and the name table each have `Length` entries, one per `Direction` value from `North` to `NorthWest`; the entries are distinct, and every step is its own unit |
| `Compass.UnitInCompass` | UtilPoint.cs:126 | a point's unit is in `PtCompass` exactly when the point is not zero |
| `Compass.DirectionOf` | UtilPoint.cs:162-171 | the loop returns the first table index of `p.unit`; `Invalid` exactly for the zero point; otherwise a compass value whose step is `p.unit` |
| `Compass.DirectionOfName` | UtilPoint.cs:173-181 | the loop returns the first table index of the name; `Invalid` exactly for a string not in `StrCompass` |
| `Compass.NameOf` | UtilPoint.cs:183-186 | succeeds exactly for the eight compass values, with a name from `StrCompass`; anything else throws |
| `Compass.NameRoundTrip` | UtilPoint.cs:173-186 | a compass direction's name looks up to the direction, and a name that looks up to a direction is that direction's name |
| `Compass.FromDirection` | UtilPoint.cs:353-356 | throws exactly for `d < -8` not a multiple of 8; otherwise gives the step of `d mod 8`, so `Invalid` gives NorthWest and `Length` gives North |
| `Compass.FromDirectionRoundTrip` | UtilPoint.cs:353-356 | `DirectionOf(new Point2(d)) == d` for each compass `d`; the sentinels give NorthWest and North; -9 throws |
| `Compass.RegionInRect` | UtilPoint.cs:129-144 | the result is always North, East, South or West, never a diagonal or `Invalid` |
| `Compass.RegionMirror` | UtilPoint.cs:129-144 | mirroring the point across the box's vertical middle swaps East and West and keeps North and South, for any size |
| `Compass.RegionInSquare` | UtilPoint.cs:129-144 | in an `s x s` box the four regions are the triangles between `y = x` and `y = s - x`, with the tie-breaks of the strict tests |
| `Compass.RegionExample` | UtilPoint.cs:129-144 | `(1,1)` in a `10 x 10` box is South |
| `PointHelpers.GetSize2` | UtilPoint.cs:613-616 | a point is within the reported size exactly when it indexes a cell of the `T[,]` |
| `PointHelpers.GetValue2` | UtilPoint.cs:603-606 | reading never throws for a point within `GetSize`, and always throws outside it |
| `PointHelpers.SetValue2` | UtilPoint.cs:608-611 | the write succeeds exactly within the size, after which `GetValue` at `p` returns the new value; no other cell changes, and a throw changes nothing |
| `PointHelpers.GetValueJagged2` | UtilPoint.cs:618-621 | reading succeeds exactly when `p.x` picks a row and `p.y` a cell of it |
| `PointHelpers.SetValueJagged2` | UtilPoint.cs:623-626 | the write succeeds exactly when the read would; only the cell `p.y` of the row object `a[p.x]` changes, seen through every alias of that row |
| `PointHelpers.GetSize3` | UtilPoint.cs:638-641 | a point is within the reported size exactly when it indexes a cell of the `T[,,]` |
| `PointHelpers.GetValue3` | UtilPoint.cs:628-631 | reading never throws for a point within `GetSize`, and always throws outside it |
| `PointHelpers.SetValue3` | UtilPoint.cs:633-636 | the write succeeds exactly within the size, after which `GetValue` at `p` returns the new value; no other cell changes |
| `PointHelpers.GetValueJagged3` | UtilPoint.cs:643-646 | reading succeeds exactly when each coordinate indexes its level |
| `PointHelpers.SetValueJagged3` | UtilPoint.cs:648-651 | the write succeeds exactly when the read would; only cell `p.z` of the inner array object `a[p.x][p.y]` changes |

## Left out

- Integers are unbounded, so 32-bit overflow is not modelled. In C# the
  intermediate `m - 2*m*n` of `Mod` (UtilPoint.cs:44) can overflow,
  `Math.Abs(int.MinValue)` throws, and large sums, products and dot products
  wrap.
- `Mathi.Abs`: does not model the `OverflowException` that `Math.Abs` throws
  for `int.MinValue`, because integers are unbounded here.
- Division by zero in `Div`, `Mod` and the point `/` operators throws
  `DivideByZeroException` in C#. Here it is a precondition (`d != 0`).
- Single-precision floats are left out:
  - `FloorToInt` and `Frac`.
  - `sqrMagnitude`, `magnitude` and `Distance` for both point types, which
    also use `Math.Sqrt`.
- The Unity `Vector2`/`Vector3` constructors and conversions are left out.
  They belong to a foreign engine type and truncate floats.
- `PointHelpers.Round` is left out. It relies on `Math.Round`, which rounds
  half to even.
- `VectorHelpers.RegionInRect` is left out. It is the same test on float
  vectors.
- `Compass.RegionInRect`: the C# code computes both cross products with
  Unity's float `Vector3.Cross`. The model uses exact integer cross products.
  The two agree only while every product stays below about 2^24.
- `GetHashCode` is left out. It returns a fixed constant, so equal points
  hash equal trivially.
- `ToString` and `Equals(object)` are left out. These are string formatting
  and a runtime type test on a boxed value. The typed `Equals(Point2)` and
  `Equals(Point3)` are `==`, which is modelled.
- The instance forms `Dot(rhs)`, `Cross(rhs)` and `Distance(p)` only forward
  to the static ones, so only the static ones are modelled.
- The named `Point2` compass constants (`north` through `northwest`) are not
  declared one by one: they appear only as the entries of `PtCompass`.
  `zero`, `one` and the `Point3` axis steps `back` through `right` are
  declared constants.
- `PointHelpers.SetValueJagged2` and `PointHelpers.SetValueJagged3`: a `null`
  row of a jagged array throws `NullReferenceException` in C#. Here arrays
  are non-null.
- The indexer setters, when they succeed, return the updated point instead of
  updating a struct variable in place.
