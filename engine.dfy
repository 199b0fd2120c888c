/** The parts of the dotrix engine that the editor reads and writes: vectors,
    the mouse ray, terrain blocks, their density samplers, and the octree of
    voxel maps. Engine primitives whose bodies are not part of this model
    (the ray/box test, the density loader and sampler) are arrow-typed values
    that the callers pass in. */
module Engine {

  datatype Option<T> = None | Some(value: T)

  /** A world-space point or direction (f32 in the engine, real here). */
  datatype Vec3 = Vec3(x: real, y: real, z: real)

  /** An integer grid position or index. */
  datatype Vec3i = Vec3i(x: int, y: int, z: int)

  function Add(a: Vec3, b: Vec3): Vec3 { Vec3(a.x + b.x, a.y + b.y, a.z + b.z) }

  function Sub(a: Vec3, b: Vec3): Vec3 { Vec3(a.x - b.x, a.y - b.y, a.z - b.z) }

  function Scale(a: Vec3, k: real): Vec3 { Vec3(a.x * k, a.y * k, a.z * k) }

  function Uniform(k: real): Vec3 { Vec3(k, k, k) }

  /** `v.x as f32` and so on, per axis. */
  function ToReal(v: Vec3i): Vec3 { Vec3(v.x as real, v.y as real, v.z as real) }

  /** The mouse ray. Origin and direction stay unset until the cursor position
      is known; `intersectAlignedBox` is the engine's ray/box test for this
      ray, giving the entry and exit distances of a box [min, max]. */
  datatype Ray = Ray(
    origin: Option<Vec3>,
    direction: Option<Vec3>,
    intersectAlignedBox: ((Vec3, Vec3)) -> Option<(real, real)>)

  /** A terrain block as the world holds it: its grid position, its integer
      bounds and the edge length of its voxels. */
  datatype Block = Block(position: Vec3i, boundMin: Vec3i, boundMax: Vec3i, voxelSize: nat)

  /** `Density::value`: the trilinear sample at a point local to the block,
      for a voxel size; None when the point is outside the block. */
  type Density = (nat, Vec3) -> Option<real>

  /** `terrain.grid.load`: the density loaded for the block with a given
      lower corner. */
  type Grid = Vec3i -> Density

  /** The part of a wire frame's transform the cursor writes. */
  datatype Transform = Transform(translate: Vec3, scale: Vec3)

  /** An octree node: its edge length and, for a leaf, its voxel map's
      density samples. */
  datatype Node = Node(size: nat, payload: Option<array3<real>>)

  /** The terrain service: the octree of voxel maps keyed by block position,
      and the flag that asks the engine to rebuild meshes. */
  class Terrain {
    var octree: map<Vec3i, Node>
    var changed: bool

    /** Each voxel map is owned by exactly one octree node. */
    ghost predicate Valid()
      reads this
    {
      forall p, q :: p in octree && q in octree && p != q
        && octree[p].payload.Some? && octree[q].payload.Some?
        ==> octree[p].payload.value != octree[q].payload.value
    }
  }
}
