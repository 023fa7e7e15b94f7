/** The mesh generators of TestProject/Renderer/GeometryGenerator.cs: a UV sphere as a grid
    of cells with two smooth-shaded triangles each, a square plane placed by a rotation, and
    a Cornell box of five such planes. The sine and cosine of the sphere's grid and the
    quaternion of a plane are not computed: the sphere takes the grid's positions as a
    function, and a rotation is given by the images of the three axes (over the reals, a
    quaternion's Vector3.Transform is exactly this linear map). */
module GeometryGenerator {
  import opened Wrappers
  import opened Vectors
  import opened Primitives
  import opened SceneFactory

  // ---------------------------------------------------------------------------------------
  // GenerateSphere

  /** The number of iterations of `for (k = 0; k < n; k++)`. */
  function Count(n: int): nat {
    if n > 0 then n else 0
  }

  /** Vertex [i, j] of the grid: the position the generator computes for longitude i and
      latitude j. */
  function GridVertex(surface: (int, int) -> Vec3, i: int, j: int): Vec3 {
    surface(i, j)
  }

  /** Normal [i, j] of the grid: the normalized vector from the center to vertex [i, j]. */
  function GridNormal(surface: (int, int) -> Vec3, center: Vec3, normalize: Vec3 -> Vec3, i: int, j: int): Vec3 {
    normalize(Sub(surface(i, j), center))
  }

  /** The first triangle of cell (i, j): vertices [i, j], [i, j + 1], [i + 1, j + 1]. */
  function FirstOfCell(surface: (int, int) -> Vec3, center: Vec3, normalize: Vec3 -> Vec3,
                       material: PbrMaterial, i: int, j: int): MeshTriangle {
    MeshTriangle(
      Tri(GridVertex(surface, i, j), GridVertex(surface, i, j + 1), GridVertex(surface, i + 1, j + 1)),
      GridNormal(surface, center, normalize, i, j),
      GridNormal(surface, center, normalize, i, j + 1),
      GridNormal(surface, center, normalize, i + 1, j + 1),
      material)
  }

  /** The second triangle of cell (i, j): vertices [i, j], [i + 1, j + 1], [i + 1, j]. */
  function SecondOfCell(surface: (int, int) -> Vec3, center: Vec3, normalize: Vec3 -> Vec3,
                        material: PbrMaterial, i: int, j: int): MeshTriangle {
    MeshTriangle(
      Tri(GridVertex(surface, i, j), GridVertex(surface, i + 1, j + 1), GridVertex(surface, i + 1, j)),
      GridNormal(surface, center, normalize, i, j),
      GridNormal(surface, center, normalize, i + 1, j + 1),
      GridNormal(surface, center, normalize, i + 1, j),
      material)
  }

  /** The two triangles of a cell share the diagonal from vertex [i, j] to vertex [i + 1, j + 1],
      and every vertex carries the normal of its own grid point. */
  lemma CellSharesDiagonal(surface: (int, int) -> Vec3, center: Vec3, normalize: Vec3 -> Vec3,
                           material: PbrMaterial, i: int, j: int)
    ensures var a := FirstOfCell(surface, center, normalize, material, i, j);
      var b := SecondOfCell(surface, center, normalize, material, i, j);
      && a.geometry.a == b.geometry.a == surface(i, j)
      && a.geometry.c == b.geometry.b == surface(i + 1, j + 1)
      && a.normalA == b.normalA && a.normalC == b.normalB
  {
  }

  /** Every vertex of a triangle carries the normal of the point it sits on. */
  predicate RadialNormals(t: MeshTriangle, center: Vec3, normalize: Vec3 -> Vec3) {
    && t.normalA == normalize(Sub(t.geometry.a, center))
    && t.normalB == normalize(Sub(t.geometry.b, center))
    && t.normalC == normalize(Sub(t.geometry.c, center))
  }

  /** Both triangles of a cell carry radial normals. */
  lemma CellIsRadial(surface: (int, int) -> Vec3, center: Vec3, normalize: Vec3 -> Vec3,
                     material: PbrMaterial, i: int, j: int)
    ensures RadialNormals(FirstOfCell(surface, center, normalize, material, i, j), center, normalize)
    ensures RadialNormals(SecondOfCell(surface, center, normalize, material, i, j), center, normalize)
  {
  }

  /** The position of cell (i, j) in row-major order, j the row. */
  function CellIndex(i: int, j: int, columns: int): int {
    j * columns + i
  }

  /** `ts` holds the cells of rows 0 .. rows - 1, `columns` to a row, two triangles to a cell
      at positions 2 * CellIndex and the one after. */
  predicate Layout(ts: seq<MeshTriangle>, rows: nat, columns: nat, surface: (int, int) -> Vec3, center: Vec3,
                   normalize: Vec3 -> Vec3, material: PbrMaterial)
  {
    && |ts| == 2 * (rows * columns)
    && (forall i, j :: 0 <= i < columns && 0 <= j < rows ==>
         && 0 <= 2 * CellIndex(i, j, columns) && 2 * CellIndex(i, j, columns) + 1 < |ts|
         && ts[2 * CellIndex(i, j, columns)] == FirstOfCell(surface, center, normalize, material, i, j)
         && ts[2 * CellIndex(i, j, columns) + 1] == SecondOfCell(surface, center, normalize, material, i, j))
  }

  /** The triangles of one row of cells, i ascending. */
  predicate IsRow(row: seq<MeshTriangle>, j: int, columns: nat, surface: (int, int) -> Vec3, center: Vec3,
                  normalize: Vec3 -> Vec3, material: PbrMaterial)
  {
    && |row| == 2 * columns
    && (forall i :: 0 <= i < columns ==>
         row[2 * i] == FirstOfCell(surface, center, normalize, material, i, j)
         && row[2 * i + 1] == SecondOfCell(surface, center, normalize, material, i, j))
  }

  /** Appending row `rows` to the first `rows` rows gives the first rows + 1. */
  lemma AppendRow(ts: seq<MeshTriangle>, row: seq<MeshTriangle>, rows: nat, columns: nat, surface: (int, int) -> Vec3,
                  center: Vec3, normalize: Vec3 -> Vec3, material: PbrMaterial)
    requires Layout(ts, rows, columns, surface, center, normalize, material)
    requires IsRow(row, rows, columns, surface, center, normalize, material)
    ensures Layout(ts + row, rows + 1, columns, surface, center, normalize, material)
  {
    assert (rows + 1) * columns == rows * columns + columns;
    var all := ts + row;
    forall i | 0 <= i < columns
      ensures 0 <= 2 * CellIndex(i, rows, columns) && 2 * CellIndex(i, rows, columns) + 1 < |all|
      ensures all[2 * CellIndex(i, rows, columns)] == FirstOfCell(surface, center, normalize, material, i, rows)
      ensures all[2 * CellIndex(i, rows, columns) + 1] == SecondOfCell(surface, center, normalize, material, i, rows)
    {
      assert 2 * CellIndex(i, rows, columns) == |ts| + 2 * i;
    }
  }

  /** One row of cells: the two triangles of every cell (i, j), i ascending. */
  method SphereRow(surface: (int, int) -> Vec3, center: Vec3, normalize: Vec3 -> Vec3,
                   material: PbrMaterial, j: int, columns: nat)
    returns (row: seq<MeshTriangle>)
    ensures IsRow(row, j, columns, surface, center, normalize, material)
    ensures forall k :: 0 <= k < |row| ==> RadialNormals(row[k], center, normalize)
  {
    row := [];
    var i := 0;
    while i < columns
      invariant 0 <= i <= columns && |row| == 2 * i
      invariant forall k :: 0 <= k < i ==>
        row[2 * k] == FirstOfCell(surface, center, normalize, material, k, j)
        && row[2 * k + 1] == SecondOfCell(surface, center, normalize, material, k, j)
      invariant forall k :: 0 <= k < |row| ==> RadialNormals(row[k], center, normalize)
    {
      CellIsRadial(surface, center, normalize, material, i, j);
      row := row + [FirstOfCell(surface, center, normalize, material, i, j),
                    SecondOfCell(surface, center, normalize, material, i, j)];
      i := i + 1;
    }
  }

  /** GenerateSphere: a grid size below -1 makes the allocation of the vertex grid throw
      OverflowException. Otherwise the result has exactly 2 * longSegments * latSegments
      triangles (none when either count is not positive), the two of cell (i, j) at
      positions 2 * (j * longSegments + i) and the one after, built from grid points
      [i, j], [i + 1, j], [i, j + 1], [i + 1, j + 1]; every vertex carries the normalized
      vector from the center to it. `surface` stands for the sine/cosine position formula of
      the grid and `normalize` for Vector3.Normalize. */
  method GenerateSphere(center: Vec3, radius: real, longSegments: int, latSegments: int, material: PbrMaterial,
                        surface: (int, int) -> Vec3, normalize: Vec3 -> Vec3)
    returns (r: Result<seq<MeshTriangle>>)
    ensures r.Failure? <==> longSegments < -1 || latSegments < -1
    ensures r.Failure? ==> r.error == OverflowException
    ensures r.Success? ==> Layout(r.value, Count(latSegments), Count(longSegments), surface, center, normalize, material)
    ensures r.Success? ==> forall k :: 0 <= k < |r.value| ==> RadialNormals(r.value[k], center, normalize)
  {
    if longSegments + 1 < 0 || latSegments + 1 < 0 {
      return Failure(OverflowException);
    }
    var columns := Count(longSegments);
    var triangles: seq<MeshTriangle> := [];
    var j := 0;
    while j < latSegments
      invariant 0 <= j <= Count(latSegments)
      invariant Layout(triangles, j, columns, surface, center, normalize, material)
      invariant forall k :: 0 <= k < |triangles| ==> RadialNormals(triangles[k], center, normalize)
    {
      var row := SphereRow(surface, center, normalize, material, j, columns);
      AppendRow(triangles, row, j, columns, surface, center, normalize, material);
      triangles := triangles + row;
      j := j + 1;
    }
    return Success(triangles);
  }

  // ---------------------------------------------------------------------------------------
  // GeneratePlane and GenerateCornellBox

  /** A rotation as the images of the three axes: Transform(p) = ex * p.x + ey * p.y + ez * p.z. */
  datatype Rotation = Rotation(ex: Vec3, ey: Vec3, ez: Vec3)

  function Transform(p: Vec3, q: Rotation): Vec3 {
    Add(Add(Scale(q.ex, p.x), Scale(q.ey, p.y)), Scale(q.ez, p.z))
  }

  const UnitZ := Vec3(0.0, 0.0, 1.0)

  /** Quaternion.Identity. */
  const Identity := Rotation(UnitX, UnitY, UnitZ)

  /** Quaternion.CreateFromAxisAngle(axis, angle) for the angle with cosine c and sine s,
      about each coordinate axis, with the columns the images of the unit axes under
      MathLibrary's rotation `q * v` (MathLibrary/Quaternion/Quaternion.Operators.cs:29-35). */
  function AboutX(c: real, s: real): Rotation {
    Rotation(UnitX, Vec3(0.0, c, s), Vec3(0.0, -s, c))
  }

  function AboutY(c: real, s: real): Rotation {
    Rotation(Vec3(c, 0.0, -s), UnitY, Vec3(s, 0.0, c))
  }

  function AboutZ(c: real, s: real): Rotation {
    Rotation(Vec3(c, s, 0.0), Vec3(-s, c, 0.0), UnitZ)
  }

  /** The rotated Y axis, Vector3.Transform(Vector3.UnitY, rotation), is the rotation's image
      of the Y axis. */
  lemma TransformUnitY(q: Rotation)
    ensures Transform(UnitY, q) == q.ey
  {
  }

  /** GeneratePlane: the square of side `size` in the local XZ plane, rotated and moved to the
      center, as the triangles (v1, v2, v4) and (v1, v4, v3), with the rotated Y axis
      (TransformUnitY) as the normal at all six vertex slots and the given material. */
  function GeneratePlane(center: Vec3, size: real, rotation: Rotation, material: PbrMaterial): (r: seq<MeshTriangle>)
    ensures |r| == 2
    ensures forall k :: 0 <= k < 2 ==>
      && r[k].normalA == r[k].normalB == r[k].normalC == rotation.ey
      && r[k].material == material
  {
    var v := PlaneCorners(center, size, rotation);
    var normal := rotation.ey;
    [MeshTriangle(Tri(v.p0, v.p1, v.p3), normal, normal, normal, material),
     MeshTriangle(Tri(v.p0, v.p3, v.p2), normal, normal, normal, material)]
  }

  /** The plane's corners v1 .. v4: the local corners (-/+ half, 0, -/+ half), X varying
      first, rotated and then moved to the center. */
  function PlaneCorners(center: Vec3, size: real, rotation: Rotation): Corners4 {
    var half := size / 2.0;
    Corners4(Add(Transform(Vec3(-half, 0.0, -half), rotation), center),
             Add(Transform(Vec3(half, 0.0, -half), rotation), center),
             Add(Transform(Vec3(-half, 0.0, half), rotation), center),
             Add(Transform(Vec3(half, 0.0, half), rotation), center))
  }

  /** The plane's two triangles share the diagonal v1-v4, and their vertices are symmetric
      about the center (v1 + v4 == v2 + v3 == 2 * center). */
  lemma PlaneSymmetric(center: Vec3, size: real, rotation: Rotation, material: PbrMaterial)
    ensures var r := GeneratePlane(center, size, rotation, material);
      && r[0].geometry.a == r[1].geometry.a && r[0].geometry.c == r[1].geometry.b
      && Add(r[0].geometry.a, r[0].geometry.c) == Scale(center, 2.0)
      && Add(r[0].geometry.b, r[1].geometry.c) == Scale(center, 2.0)
  {
  }

  /** All three vertices of the triangle have coordinate `axis` equal to `value`. */
  predicate OnFace(t: MeshTriangle, axis: Axis, value: real) {
    At(t.geometry.a, axis) == value && At(t.geometry.b, axis) == value && At(t.geometry.c, axis) == value
  }

  /** When the rotation maps the local X and Z axes into the plane `axis` = 0, the whole
      square lies in the plane through its center with that coordinate. */
  lemma PlaneOnFace(center: Vec3, size: real, rotation: Rotation, material: PbrMaterial, axis: Axis)
    requires At(rotation.ex, axis) == 0.0 && At(rotation.ez, axis) == 0.0
    ensures var r := GeneratePlane(center, size, rotation, material);
      OnFace(r[0], axis, At(center, axis)) && OnFace(r[1], axis, At(center, axis))
  {
  }

  /** The albedo of the red left wall and of the blue right wall. */
  const RedAlbedo := Vec3(0.8, 0.1, 0.1)
  const BlueAlbedo := Vec3(0.1, 0.2, 0.8)

  /** The Cornell box layout: five planes of side `size` around the origin, in the order
      floor (y = -half, unrotated), ceiling (y = +half, half a turn about X), back wall
      (z = -half, a quarter turn about X), left wall (x = -half, rotated by `left`, red) and
      right wall (x = +half, rotated by `right`, blue); the side walls copy the wall material
      with another albedo. */
  function CornellBoxWith(size: real, wallMaterial: PbrMaterial, left: Rotation, right: Rotation): (r: seq<MeshTriangle>)
    ensures |r| == 10
    ensures forall k :: 0 <= k < 6 ==> r[k].material == wallMaterial
    ensures forall k :: 6 <= k < 8 ==> r[k].material == wallMaterial.(albedo := RedAlbedo)
    ensures forall k :: 8 <= k < 10 ==> r[k].material == wallMaterial.(albedo := BlueAlbedo)
  {
    var half := size / 2.0;
    var floor := GeneratePlane(Vec3(0.0, -half, 0.0), size, Identity, wallMaterial);
    var ceiling := GeneratePlane(Vec3(0.0, half, 0.0), size, AboutX(-1.0, 0.0), wallMaterial);
    var back := GeneratePlane(Vec3(0.0, 0.0, -half), size, AboutX(0.0, 1.0), wallMaterial);
    var red := GeneratePlane(Vec3(-half, 0.0, 0.0), size, left, wallMaterial.(albedo := RedAlbedo));
    var blue := GeneratePlane(Vec3(half, 0.0, 0.0), size, right, wallMaterial.(albedo := BlueAlbedo));
    [floor[0], floor[1], ceiling[0], ceiling[1], back[0], back[1], red[0], red[1], blue[0], blue[1]]
  }

  /** GenerateCornellBox as written: the side walls are turned a quarter turn about the Y
      axis (by +pi/2 and -pi/2). */
  function CornellBoxAsWritten(size: real, wallMaterial: PbrMaterial): (r: seq<MeshTriangle>)
    ensures |r| == 10
  {
    CornellBoxWith(size, wallMaterial, AboutY(0.0, 1.0), AboutY(0.0, -1.0))
  }

  /** A turn about Y keeps the square in the horizontal plane: both "side walls" of the box as
      written lie flat at height 0, halfway between floor and ceiling, with an upward normal. */
  lemma SideWallsAreHorizontal(size: real, wallMaterial: PbrMaterial)
    ensures var r := CornellBoxAsWritten(size, wallMaterial);
      forall k :: 6 <= k < 10 ==> OnFace(r[k], 1, 0.0) && r[k].normalA == UnitY
  {
    var h := size / 2.0;
    PlaneOnFace(Vec3(-h, 0.0, 0.0), size, AboutY(0.0, 1.0), wallMaterial.(albedo := RedAlbedo), 1);
    PlaneOnFace(Vec3(h, 0.0, 0.0), size, AboutY(0.0, -1.0), wallMaterial.(albedo := BlueAlbedo), 1);
  }

  /** GenerateCornellBox with the side walls turned a quarter turn about the Z axis, so that
      they stand on the faces x = -half and x = +half with normals pointing into the box. */
  function CornellBox(size: real, wallMaterial: PbrMaterial): (r: seq<MeshTriangle>)
    ensures |r| == 10
  {
    CornellBoxWith(size, wallMaterial, AboutZ(0.0, -1.0), AboutZ(0.0, 1.0))
  }

  /** Every vertex of each of the five walls lies on its face of the cube [-half, half]^3, and
      each wall's normal points into the box. */
  lemma CornellBoxWallsOnFaces(size: real, wallMaterial: PbrMaterial)
    ensures var r := CornellBox(size, wallMaterial);
      var h := size / 2.0;
      && (forall k :: 0 <= k < 2 ==> OnFace(r[k], 1, -h) && r[k].normalA == UnitY)
      && (forall k :: 2 <= k < 4 ==> OnFace(r[k], 1, h) && r[k].normalA == Neg(UnitY))
      && (forall k :: 4 <= k < 6 ==> OnFace(r[k], 2, -h) && r[k].normalA == UnitZ)
      && (forall k :: 6 <= k < 8 ==> OnFace(r[k], 0, -h) && r[k].normalA == UnitX)
      && (forall k :: 8 <= k < 10 ==> OnFace(r[k], 0, h) && r[k].normalA == Neg(UnitX))
  {
    var h := size / 2.0;
    PlaneOnFace(Vec3(0.0, -h, 0.0), size, Identity, wallMaterial, 1);
    PlaneOnFace(Vec3(0.0, h, 0.0), size, AboutX(-1.0, 0.0), wallMaterial, 1);
    PlaneOnFace(Vec3(0.0, 0.0, -h), size, AboutX(0.0, 1.0), wallMaterial, 2);
    PlaneOnFace(Vec3(-h, 0.0, 0.0), size, AboutZ(0.0, -1.0), wallMaterial.(albedo := RedAlbedo), 0);
    PlaneOnFace(Vec3(h, 0.0, 0.0), size, AboutZ(0.0, 1.0), wallMaterial.(albedo := BlueAlbedo), 0);
  }
}
