/** PointHelpers: reading, writing and measuring C# grids with a point as
    the index, over rectangular arrays (`T[,]`, `T[,,]`) and jagged ones
    (`T[][]`, `T[][][]`). An index outside the grid throws. */
module PointHelpers {
  import opened Results
  import opened Points

  /** GetSize of a `T[,]`: its two lengths. A point is inside that size
      exactly when it indexes a cell. */
  function GetSize2<T>(a: array2<T>): (r: Point2)
    ensures r.x >= 0 && r.y >= 0
    ensures forall p: Point2 :: p.InBounds(r.x, r.y) <==> 0 <= p.x < a.Length0 && 0 <= p.y < a.Length1
  {
    Point2(a.Length0, a.Length1)
  }

  /** GetValue on a `T[,]`: never throws for a point inside GetSize. */
  function GetValue2<T>(a: array2<T>, p: Point2): (r: Result<T>)
    reads a
    ensures r.Ok? <==> p.InBounds(GetSize2(a).x, GetSize2(a).y)
    ensures r.Ok? ==> r.value == a[p.x, p.y]
  {
    if 0 <= p.x < a.Length0 && 0 <= p.y < a.Length1 then Ok(a[p.x, p.y]) else IndexOutOfRange
  }

  /** SetValue on a `T[,]`: writes the one cell at p and nothing else, or
      throws and writes nothing. */
  method SetValue2<T>(a: array2<T>, newValue: T, p: Point2) returns (r: Result<()>)
    modifies a
    ensures r.Ok? <==> p.InBounds(a.Length0, a.Length1)
    ensures r.Ok? ==> GetValue2(a, p) == Ok(newValue)
    ensures forall i, j :: 0 <= i < a.Length0 && 0 <= j < a.Length1 && (i, j) != (p.x, p.y) ==>
      a[i, j] == old(a[i, j])
    ensures r.IndexOutOfRange? ==> unchanged(a)
  {
    if 0 <= p.x < a.Length0 && 0 <= p.y < a.Length1 {
      a[p.x, p.y] := newValue;
      r := Ok(());
    } else {
      r := IndexOutOfRange;
    }
  }

  /** GetValue on a `T[][]`: p.x picks the row, p.y the cell in it. */
  function GetValueJagged2<T>(a: array<array<T>>, p: Point2): (r: Result<T>)
    reads a, a[..]
    ensures r.Ok? <==> 0 <= p.x < a.Length && 0 <= p.y < a[p.x].Length
    ensures r.Ok? ==> r.value == a[p.x][p.y]
  {
    if 0 <= p.x < a.Length && 0 <= p.y < a[p.x].Length then Ok(a[p.x][p.y]) else IndexOutOfRange
  }

  /** SetValue on a `T[][]`: writes one cell of the row object a[p.x], and
      succeeds exactly when GetValue at p would. Rows may be shared, so every
      row that is the same object as a[p.x] sees the write at p.y; every
      other cell keeps its value. Rows are named as they were before the
      call: Dafny cannot tell from the types alone that no row is the outer
      array itself, which C#'s type system rules out. */
  method SetValueJagged2<T>(a: array<array<T>>, newValue: T, p: Point2) returns (r: Result<()>)
    modifies if 0 <= p.x < a.Length then {a[p.x]} else {}
    ensures r.Ok? <==> old(GetValueJagged2(a, p)).Ok?
    ensures r.Ok? ==> old(a[p.x])[p.y] == newValue
    ensures forall i, j :: 0 <= i < a.Length && 0 <= j < old(a[i]).Length ==>
      old(a[i])[j] == if r.Ok? && old(a[i] == a[p.x]) && j == p.y then newValue else old(a[i][j])
  {
    if 0 <= p.x < a.Length && 0 <= p.y < a[p.x].Length {
      a[p.x][p.y] := newValue;
      r := Ok(());
    } else {
      r := IndexOutOfRange;
    }
  }

  /** GetSize of a `T[,,]`: its three lengths. A point is inside that size
      exactly when it indexes a cell. */
  function GetSize3<T>(a: array3<T>): (r: Point3)
    ensures r.x >= 0 && r.y >= 0 && r.z >= 0
    ensures forall p: Point3 :: p.InBounds(r.x, r.y, r.z) <==>
      0 <= p.x < a.Length0 && 0 <= p.y < a.Length1 && 0 <= p.z < a.Length2
  {
    Point3(a.Length0, a.Length1, a.Length2)
  }

  /** GetValue on a `T[,,]`: never throws for a point inside GetSize. */
  function GetValue3<T>(a: array3<T>, p: Point3): (r: Result<T>)
    reads a
    ensures r.Ok? <==> p.InBounds(GetSize3(a).x, GetSize3(a).y, GetSize3(a).z)
    ensures r.Ok? ==> r.value == a[p.x, p.y, p.z]
  {
    if 0 <= p.x < a.Length0 && 0 <= p.y < a.Length1 && 0 <= p.z < a.Length2
    then Ok(a[p.x, p.y, p.z]) else IndexOutOfRange
  }

  /** SetValue on a `T[,,]`: writes the one cell at p and nothing else, or
      throws and writes nothing. */
  method SetValue3<T>(a: array3<T>, newValue: T, p: Point3) returns (r: Result<()>)
    modifies a
    ensures r.Ok? <==> p.InBounds(a.Length0, a.Length1, a.Length2)
    ensures r.Ok? ==> GetValue3(a, p) == Ok(newValue)
    ensures forall i, j, k ::
      (0 <= i < a.Length0 && 0 <= j < a.Length1 && 0 <= k < a.Length2 && (i, j, k) != (p.x, p.y, p.z)) ==>
      a[i, j, k] == old(a[i, j, k])
    ensures r.IndexOutOfRange? ==> unchanged(a)
  {
    if 0 <= p.x < a.Length0 && 0 <= p.y < a.Length1 && 0 <= p.z < a.Length2 {
      a[p.x, p.y, p.z] := newValue;
      r := Ok(());
    } else {
      r := IndexOutOfRange;
    }
  }

  /** Whether p indexes a cell of a `T[][][]`. */
  predicate InJagged3<T>(a: array<array<array<T>>>, p: Point3)
    reads a, a[..], if 0 <= p.x < a.Length then a[p.x][..] else []
  {
    0 <= p.x < a.Length && 0 <= p.y < a[p.x].Length && 0 <= p.z < a[p.x][p.y].Length
  }

  /** GetValue on a `T[][][]`: p.x, p.y and p.z index one level each. */
  function GetValueJagged3<T>(a: array<array<array<T>>>, p: Point3): (r: Result<T>)
    reads a, a[..], if 0 <= p.x < a.Length then a[p.x][..] else []
    reads if InJagged3(a, p) then {a[p.x][p.y]} else {}
    ensures r.Ok? <==> InJagged3(a, p)
    ensures r.Ok? ==> r.value == a[p.x][p.y][p.z]
  {
    if InJagged3(a, p) then Ok(a[p.x][p.y][p.z]) else IndexOutOfRange
  }

  /** SetValue on a `T[][][]`: writes one cell of the innermost array
      a[p.x][p.y], and succeeds exactly when GetValue at p would. Inner
      arrays may be shared, so the write shows through every alias of that
      object, and every other cell keeps its value. As for `T[][]`, the
      inner arrays are named as they were before the call. */
  method SetValueJagged3<T>(a: array<array<array<T>>>, newValue: T, p: Point3) returns (r: Result<()>)
    modifies if 0 <= p.x < a.Length && 0 <= p.y < a[p.x].Length then {a[p.x][p.y]} else {}
    ensures r.Ok? <==> old(InJagged3(a, p))
    ensures r.Ok? ==> old(a[p.x][p.y])[p.z] == newValue
    ensures forall i, j, k :: 0 <= i < a.Length && 0 <= j < old(a[i]).Length && 0 <= k < old(a[i][j]).Length ==>
      old(a[i][j])[k] == if r.Ok? && old(a[i][j] == a[p.x][p.y]) && k == p.z then newValue else old(a[i][j][k])
  {
    if InJagged3(a, p) {
      a[p.x][p.y][p.z] := newValue;
      r := Ok(());
    } else {
      r := IndexOutOfRange;
    }
  }
}
