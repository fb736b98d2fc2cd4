/**
 * Points, axis-aligned boxes and 4x4 matrices, and the AABB utilities both
 * scene-graph revisions share: `create`, `expandByAABB`, `expandByScalar` and
 * `calculateSphereAABB`. Coordinates are exact reals.
 */
module Geometry {
  /** A point or vector of gl-matrix's `vec3`. */
  datatype Vec3 = Vec3(x: real, y: real, z: real)

  /** An axis-aligned bounding box. */
  datatype Aabb = Aabb(min: Vec3, max: Vec3)

  /**
   * A gl-matrix `mat4`: 16 numbers in column-major order, so the translation
   * sits at indices 12, 13 and 14.
   */
  type Mat4 = m: seq<real> | |m| == 16
    witness [1.0, 0.0, 0.0, 0.0, 0.0, 1.0, 0.0, 0.0, 0.0, 0.0, 1.0, 0.0, 0.0, 0.0, 0.0, 1.0]

  /** `mat4.identity(mat4.create())`. */
  const Identity: Mat4 :=
    [1.0, 0.0, 0.0, 0.0, 0.0, 1.0, 0.0, 0.0, 0.0, 0.0, 1.0, 0.0, 0.0, 0.0, 0.0, 1.0]

  function Translation(m: Mat4): Vec3
  {
    Vec3(m[12], m[13], m[14])
  }

  function Origin(): Vec3
  {
    Vec3(0.0, 0.0, 0.0)
  }

  /** Componentwise `<=`. */
  predicate AtMost(a: Vec3, b: Vec3)
  {
    a.x <= b.x && a.y <= b.y && a.z <= b.z
  }

  /** Every point of `inner` lies in `outer`, per axis. */
  predicate Encloses(outer: Aabb, inner: Aabb)
  {
    AtMost(outer.min, inner.min) && AtMost(inner.max, outer.max)
  }

  predicate ContainsPoint(box: Aabb, p: Vec3)
  {
    AtMost(box.min, p) && AtMost(p, box.max)
  }

  lemma EnclosesTrans(a: Aabb, b: Aabb, c: Aabb)
    requires Encloses(a, b) && Encloses(b, c)
    ensures Encloses(a, c)
  {
  }

  lemma EnclosesOrigin(a: Aabb, b: Aabb)
    requires Encloses(a, b) && ContainsPoint(b, Origin())
    ensures ContainsPoint(a, Origin())
  {
  }

  function Center(box: Aabb): Vec3
  {
    Vec3((box.min.x + box.max.x) / 2.0, (box.min.y + box.max.y) / 2.0, (box.min.z + box.max.z) / 2.0)
  }

  /** The side lengths of a box. */
  function Extent(box: Aabb): Vec3
  {
    Vec3(box.max.x - box.min.x, box.max.y - box.min.y, box.max.z - box.min.z)
  }

  /** `AABB_UTILITIES.create`: the box that is the single point at the origin. */
  function Create(): Aabb
  {
    Aabb(Origin(), Origin())
  }

  function Min(a: real, b: real): real
  {
    if a <= b then a else b
  }

  function Max(a: real, b: real): real
  {
    if a <= b then b else a
  }

  /** `expandByAABB`: `vec3.min` on the minima and `vec3.max` on the maxima. */
  function ExpandByAabb(box: Aabb, other: Aabb): (r: Aabb)
    ensures Encloses(r, box) && Encloses(r, other)
    ensures forall b :: Encloses(b, box) && Encloses(b, other) ==> Encloses(b, r)
  {
    Aabb(Vec3(Min(box.min.x, other.min.x), Min(box.min.y, other.min.y), Min(box.min.z, other.min.z)),
         Vec3(Max(box.max.x, other.max.x), Max(box.max.y, other.max.y), Max(box.max.z, other.max.z)))
  }

  /** `expandByScalar`: subtracts `scalar` from every minimum and adds it to every maximum. */
  function ExpandByScalar(box: Aabb, scalar: real): (r: Aabb)
    ensures 0.0 <= scalar ==> Encloses(r, box)
  {
    Aabb(Vec3(box.min.x - scalar, box.min.y - scalar, box.min.z - scalar),
         Vec3(box.max.x + scalar, box.max.y + scalar, box.max.z + scalar))
  }

  /** Expanding by a scalar keeps the centre and lengthens every side by twice the scalar. */
  lemma ExpandByScalarShape(box: Aabb, scalar: real)
    ensures var r := ExpandByScalar(box, scalar);
      Center(r) == Center(box)
      && Extent(r) == Vec3(Extent(box).x + 2.0 * scalar, Extent(box).y + 2.0 * scalar, Extent(box).z + 2.0 * scalar)
  {
  }

  /** `calculateSphereAABB`: the box of a sphere centred on the matrix's translation. */
  function SphereAabb(transform: Mat4, radius: real): (r: Aabb)
    ensures 0.0 <= radius ==> ContainsPoint(r, Translation(transform))
  {
    var c := Translation(transform);
    Aabb(Vec3(c.x - radius, c.y - radius, c.z - radius), Vec3(c.x + radius, c.y + radius, c.z + radius))
  }

  /** The sphere's box is centred on the translation, with every side twice the radius. */
  lemma SphereAabbShape(transform: Mat4, radius: real)
    ensures var r := SphereAabb(transform, radius);
      Center(r) == Translation(transform) && Extent(r) == Vec3(2.0 * radius, 2.0 * radius, 2.0 * radius)
  {
  }

  /**
   * The box an operation node gets from its children's boxes: `create()`,
   * then `expandByAABB` with each box in turn. It is the least box enclosing
   * the origin and every given box.
   */
  function Hull(boxes: seq<Aabb>): (r: Aabb)
    ensures ContainsPoint(r, Origin())
    ensures forall i :: 0 <= i < |boxes| ==> Encloses(r, boxes[i])
    ensures forall b :: ContainsPoint(b, Origin()) && (forall i :: 0 <= i < |boxes| ==> Encloses(b, boxes[i])) ==> Encloses(b, r)
    decreases |boxes|
  {
    if |boxes| == 0 then Create()
    else ExpandByAabb(Hull(boxes[..|boxes| - 1]), boxes[|boxes| - 1])
  }
}
