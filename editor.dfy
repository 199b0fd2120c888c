/** The editor's voxel picker: the eight corner densities of one cell of a
    block's voxel map, copied out by `VoxelPicker::new`, edited in the brush
    panel and written back in place by the panel's "Apply" button; and the
    editor state that the cursor and the brush share. */
module Editor {
  import opened Engine
  import Cursor

  /** Corner c of a cell, as its offset from the cell's lower corner, in the
      order the picker reads and the commit writes them: the four corners of
      the lower y layer going round in x and z, then the same four one layer up. */
  function CornerOffset(c: nat): (d: Vec3i)
    requires c < 8
    ensures 0 <= d.x <= 1 && 0 <= d.y <= 1 && 0 <= d.z <= 1
    ensures d.y == (if c < 4 then 0 else 1)
  {
    if c == 0 then Vec3i(0, 0, 0)
    else if c == 1 then Vec3i(1, 0, 0)
    else if c == 2 then Vec3i(1, 0, 1)
    else if c == 3 then Vec3i(0, 0, 1)
    else if c == 4 then Vec3i(0, 1, 0)
    else if c == 5 then Vec3i(1, 1, 0)
    else if c == 6 then Vec3i(1, 1, 1)
    else Vec3i(0, 1, 1)
  }

  /** The 0/1 offsets of a cell's corners. */
  predicate UnitOffset(d: Vec3i) { 0 <= d.x <= 1 && 0 <= d.y <= 1 && 0 <= d.z <= 1 }

  /** Which corner an offset is, if it is one: the inverse of CornerOffset. */
  function CornerOf(d: Vec3i): (r: Option<nat>)
    ensures r.Some? <==> UnitOffset(d)
    ensures r.Some? ==> r.value < 8 && CornerOffset(r.value) == d
  {
    if !UnitOffset(d) then None
    else if d.y == 0 then
      if d.x == 0 then (if d.z == 0 then Some(0) else Some(3))
      else (if d.z == 0 then Some(1) else Some(2))
    else
      if d.x == 0 then (if d.z == 0 then Some(4) else Some(7))
      else (if d.z == 0 then Some(5) else Some(6))
  }

  /** Every corner is found again from its offset, so the eight offsets are
      distinct and together they are the whole unit cube. */
  lemma CornerRoundTrip(c: nat)
    requires c < 8
    ensures CornerOf(CornerOffset(c)) == Some(c)
  {
    var r := CornerOf(CornerOffset(c));
    assert r.Some? && CornerOffset(r.value) == CornerOffset(c);
    if r.value != c {
      CornerOffsetInjective(r.value, c);
    }
  }

  lemma CornerOffsetInjective(a: nat, b: nat)
    requires a < 8 && b < 8 && CornerOffset(a) == CornerOffset(b)
    ensures a == b
  {
  }

  /** The grid position of corner c of the cell with lower corner `index`. */
  function CornerCell(index: Vec3i, c: nat): Vec3i
    requires c < 8
  {
    var d := CornerOffset(c);
    Vec3i(index.x + d.x, index.y + d.y, index.z + d.z)
  }

  function Delta(cell: Vec3i, index: Vec3i): Vec3i
  {
    Vec3i(cell.x - index.x, cell.y - index.y, cell.z - index.z)
  }

  /** A cell's eight corner densities, `[f32; 8]`. */
  type Values = s: seq<real> | |s| == 8 witness [0.0, 0.0, 0.0, 0.0, 0.0, 0.0, 0.0, 0.0]

  /** A staged voxel: the block holding it, the cell's lower corner in the
      block's voxel map, and the cell's corner densities. */
  datatype VoxelPicker = VoxelPicker(parent: Vec3i, index: Vec3i, values: Values)

  /** `r as usize` for an f32: negative values saturate to 0 and the
      fraction is truncated. */
  function ToUsize(r: real): (n: nat)
    ensures r >= 0.0 ==> n as real <= r < n as real + 1.0
    ensures r < 0.0 ==> n == 0
  {
    if r < 0.0 then 0 else r.Floor
  }

  /** The float index truncated per axis, as `VoxelPicker::new` stores it. */
  function Truncate(index: Vec3): (t: Vec3i)
    ensures t.x >= 0 && t.y >= 0 && t.z >= 0
    ensures index.x >= 0.0 ==> t.x as real <= index.x < t.x as real + 1.0
    ensures index.y >= 0.0 ==> t.y as real <= index.y < t.y as real + 1.0
    ensures index.z >= 0.0 ==> t.z as real <= index.z < t.z as real + 1.0
    ensures index.x < 0.0 ==> t.x == 0
    ensures index.y < 0.0 ==> t.y == 0
    ensures index.z < 0.0 ==> t.z == 0
  {
    Vec3i(ToUsize(index.x), ToUsize(index.y), ToUsize(index.z))
  }

  /** The cell with lower corner `index` lies wholly inside the map, so none
      of the eight reads or writes indexes out of range. */
  predicate Fits(m: array3<real>, index: Vec3i)
  {
    && 0 <= index.x && index.x + 1 < m.Length0
    && 0 <= index.y && index.y + 1 < m.Length1
    && 0 <= index.z && index.z + 1 < m.Length2
  }

  /** The cell p lies inside the map. */
  predicate InMap(m: array3<real>, p: Vec3i)
  {
    0 <= p.x < m.Length0 && 0 <= p.y < m.Length1 && 0 <= p.z < m.Length2
  }

  function At(m: array3<real>, p: Vec3i): real
    requires InMap(m, p)
    reads m
  {
    m[p.x, p.y, p.z]
  }

  /** Every corner of a fitting cell lies inside the map. */
  lemma FitsCorners(m: array3<real>, index: Vec3i, c: nat)
    requires Fits(m, index) && c < 8
    ensures InMap(m, CornerCell(index, c))
  {
  }

  /** Eight values that match the eight corners one by one match them all. */
  lemma EachCorner(m: array3<real>, index: Vec3i, values: Values)
    requires Fits(m, index)
    requires values[0] == At(m, CornerCell(index, 0)) && values[1] == At(m, CornerCell(index, 1))
    requires values[2] == At(m, CornerCell(index, 2)) && values[3] == At(m, CornerCell(index, 3))
    requires values[4] == At(m, CornerCell(index, 4)) && values[5] == At(m, CornerCell(index, 5))
    requires values[6] == At(m, CornerCell(index, 6)) && values[7] == At(m, CornerCell(index, 7))
    ensures forall c :: 0 <= c < 8 ==> InMap(m, CornerCell(index, c)) && values[c] == At(m, CornerCell(index, c))
  {
    forall c | 0 <= c < 8
      ensures InMap(m, CornerCell(index, c)) && values[c] == At(m, CornerCell(index, c))
    {
      FitsCorners(m, index, c);
      if c == 0 {} else if c == 1 {} else if c == 2 {} else if c == 3 {}
      else if c == 4 {} else if c == 5 {} else if c == 6 {} else {}
    }
  }

  /** `VoxelPicker::new`: truncate the index and read the cell's eight
      corner densities in corner order. */
  function NewPicker(parent: Vec3i, index: Vec3, m: array3<real>): (p: VoxelPicker)
    requires Fits(m, Truncate(index))
    reads m
    ensures p.parent == parent && p.index == Truncate(index)
    ensures forall c :: 0 <= c < 8 ==>
      InMap(m, CornerCell(p.index, c)) && p.values[c] == At(m, CornerCell(p.index, c))
  {
    ReadCell(parent, Truncate(index), m)
  }

  /** The eight reads of `VoxelPicker::new` at the truncated index (x, y, z). */
  function ReadCell(parent: Vec3i, index: Vec3i, m: array3<real>): (p: VoxelPicker)
    requires Fits(m, index)
    reads m
    ensures p.parent == parent && p.index == index
    ensures forall c :: 0 <= c < 8 ==>
      InMap(m, CornerCell(p.index, c)) && p.values[c] == At(m, CornerCell(p.index, c))
  {
    var x, y, z := index.x, index.y, index.z;
    var values := [
      m[x, y, z],
      m[x + 1, y, z],
      m[x + 1, y, z + 1],
      m[x, y, z + 1],
      m[x, y + 1, z],
      m[x + 1, y + 1, z],
      m[x + 1, y + 1, z + 1],
      m[x, y + 1, z + 1]
    ];
    assert values[0] == At(m, CornerCell(index, 0)) && values[1] == At(m, CornerCell(index, 1));
    assert values[2] == At(m, CornerCell(index, 2)) && values[3] == At(m, CornerCell(index, 3));
    assert values[4] == At(m, CornerCell(index, 4)) && values[5] == At(m, CornerCell(index, 5));
    assert values[6] == At(m, CornerCell(index, 6)) && values[7] == At(m, CornerCell(index, 7));
    EachCorner(m, index, values);
    VoxelPicker(parent, index, values)
  }

  /** The density of `cell` after committing `values` to the cell at
      `index`, when it held `before`: corner c's cell takes values[c], any
      other cell keeps its own. */
  function Committed(before: real, cell: Vec3i, index: Vec3i, values: Values): (r: real)
    ensures forall c :: 0 <= c < 8 && cell == CornerCell(index, c) ==> r == values[c]
    ensures (forall c :: 0 <= c < 8 ==> cell != CornerCell(index, c)) ==> r == before
  {
    CornerOfCell(cell, index);
    CornerCellOf(cell, index);
    match CornerOf(Delta(cell, index))
    case Some(c) => values[c]
    case None => before
  }

  /** A cell whose offset from `index` is a corner is that corner's cell. */
  lemma CornerOfCell(cell: Vec3i, index: Vec3i)
    ensures CornerOf(Delta(cell, index)).Some? ==> cell == CornerCell(index, CornerOf(Delta(cell, index)).value)
  {
  }

  /** Corner c's cell has offset c from `index`: the converse of CornerOfCell. */
  lemma CornerCellOf(cell: Vec3i, index: Vec3i)
    ensures forall c :: 0 <= c < 8 && cell == CornerCell(index, c) ==> CornerOf(Delta(cell, index)) == Some(c)
  {
    forall c | 0 <= c < 8 && cell == CornerCell(index, c)
      ensures CornerOf(Delta(cell, index)) == Some(c)
    {
      assert Delta(cell, index) == CornerOffset(c);
      CornerRoundTrip(c);
    }
  }

  /** Staging a cell and committing it unedited changes no density: the
      values `VoxelPicker::new` reads write back what was there. */
  lemma CommitUnedited(parent: Vec3i, m: array3<real>, index: Vec3i)
    requires Fits(m, index)
    ensures forall i, j, k :: 0 <= i < m.Length0 && 0 <= j < m.Length1 && 0 <= k < m.Length2 ==>
      Committed(m[i, j, k], Vec3i(i, j, k), index, ReadCell(parent, index, m).values) == m[i, j, k]
  {
    var values := ReadCell(parent, index, m).values;
    forall i, j, k | 0 <= i < m.Length0 && 0 <= j < m.Length1 && 0 <= k < m.Length2
      ensures Committed(m[i, j, k], Vec3i(i, j, k), index, values) == m[i, j, k]
    {
      CornerOfCell(Vec3i(i, j, k), index);
    }
  }

  /** Committing and then staging the same cell again reads back exactly
      the committed values: a map that holds the commit of `values` over
      any earlier contents `before` gives `values` to `VoxelPicker::new`. */
  lemma RestageAfterCommit(parent: Vec3i, m: array3<real>, before: Vec3i -> real, index: Vec3i, values: Values)
    requires Fits(m, index)
    requires forall i, j, k :: 0 <= i < m.Length0 && 0 <= j < m.Length1 && 0 <= k < m.Length2 ==>
      m[i, j, k] == Committed(before(Vec3i(i, j, k)), Vec3i(i, j, k), index, values)
    ensures ReadCell(parent, index, m).values == values
  {
    var read := ReadCell(parent, index, m).values;
    forall c | 0 <= c < 8
      ensures read[c] == values[c]
    {
      var cell := CornerCell(index, c);
      FitsCorners(m, index, c);
      assert m[cell.x, cell.y, cell.z] == Committed(before(cell), cell, index, values);
    }
  }

  /** The editor state that the cursor, the brush and the "Apply" button
      share. */
  class Editor {
    var cursor: Option<Cursor.State>
    var voxelSelect: bool
    var voxel: Option<VoxelPicker>

    /** `Editor::new`: no cursor, no staged voxel, voxel selection on. */
    constructor()
      ensures cursor == None && voxel == None && voxelSelect
    {
      cursor := None;
      voxelSelect := true;
      voxel := None;
    }

    /** A brush-panel field edits corner c of the staged voxel; without a
        staged voxel the panel shows no fields. */
    method EditValue(c: nat, v: real)
      requires c < 8
      modifies this`voxel
      ensures old(voxel).None? ==> voxel == old(voxel)
      ensures old(voxel).Some? ==> voxel == Some(old(voxel).value.(values := old(voxel).value.values[c := v]))
    {
      if voxel.Some? {
        var p := voxel.value;
        voxel := Some(p.(values := p.values[c := v]));
      }
    }

    /** The voxel map the staged voxel would be committed to, if the octree
        holds its block and the block is a leaf. */
    function Target(terrain: Terrain): Option<array3<real>>
      reads this, terrain
    {
      if voxel.Some? && voxel.value.parent in terrain.octree
        && terrain.octree[voxel.value.parent].payload.Some?
      then Some(terrain.octree[voxel.value.parent].payload.value)
      else None
    }

    /** The "Apply" button: write the staged values back to the eight corners
        they came from, in place, and flag the terrain as changed. The flag
        is raised even when the block is missing or is not a leaf; without a
        staged voxel there is no button. */
    method ApplyVoxel(terrain: Terrain)
      requires Target(terrain).Some? ==> Fits(Target(terrain).value, voxel.value.index)
      modifies terrain`changed
      modifies if Target(terrain).Some? then {Target(terrain).value} else {}
      ensures voxel.None? ==> terrain.changed == old(terrain.changed)
      ensures voxel.Some? ==> terrain.changed
      ensures terrain.octree == old(terrain.octree)
      ensures terrain.Valid() && voxel.Some? ==>
        forall q :: q in terrain.octree && q != voxel.value.parent && terrain.octree[q].payload.Some? ==>
          unchanged(terrain.octree[q].payload.value)
      ensures Target(terrain).Some? ==>
        var m := Target(terrain).value;
        forall i, j, k :: 0 <= i < m.Length0 && 0 <= j < m.Length1 && 0 <= k < m.Length2 ==>
          m[i, j, k] == Committed(old(m[i, j, k]), Vec3i(i, j, k), voxel.value.index, voxel.value.values)
    {
      if voxel.Some? {
        var p := voxel.value;
        if p.parent in terrain.octree && terrain.octree[p.parent].payload.Some? {
          WriteCell(terrain.octree[p.parent].payload.value, p.index, p.values);
        }
        terrain.changed := true;
      }
    }
  }

  /** The density of `cell` once the first n corners of the commit have
      been written. */
  function PartlyCommitted(before: real, cell: Vec3i, index: Vec3i, values: Values, n: nat): real
  {
    match CornerOf(Delta(cell, index))
    case Some(c) => if c < n then values[c] else before
    case None => before
  }

  /** Writing corner n takes the commit from n corners to n + 1: corner n's
      cell gets its value and every other cell is as it was. */
  lemma PartlyStep(before: real, cell: Vec3i, index: Vec3i, values: Values, n: nat)
    requires n < 8
    ensures PartlyCommitted(before, cell, index, values, n + 1)
      == if cell == CornerCell(index, n) then values[n] else PartlyCommitted(before, cell, index, values, n)
  {
    CornerOfCell(cell, index);
    if cell == CornerCell(index, n) {
      assert Delta(cell, index) == CornerOffset(n);
      CornerRoundTrip(n);
    }
  }

  /** With all eight corners written the commit is complete. */
  lemma StageComplete(m: array3<real>, orig: imap<Vec3i, real>, index: Vec3i, values: Values)
    requires Stage(m, orig, index, values, 8)
    ensures forall i, j, k :: 0 <= i < m.Length0 && 0 <= j < m.Length1 && 0 <= k < m.Length2 ==>
      Vec3i(i, j, k) in orig && m[i, j, k] == Committed(orig[Vec3i(i, j, k)], Vec3i(i, j, k), index, values)
  {
    forall i, j, k | 0 <= i < m.Length0 && 0 <= j < m.Length1 && 0 <= k < m.Length2
      ensures Vec3i(i, j, k) in orig && m[i, j, k] == Committed(orig[Vec3i(i, j, k)], Vec3i(i, j, k), index, values)
    {
      var cell := Vec3i(i, j, k);
      assert PartlyCommitted(orig[cell], cell, index, values, 8) == Committed(orig[cell], cell, index, values);
    }
  }

  /** The map holds the original densities `orig` with the first n corners
      of the commit written. */
  ghost predicate Stage(m: array3<real>, orig: imap<Vec3i, real>, index: Vec3i, values: Values, n: nat)
    reads m
  {
    forall i, j, k :: 0 <= i < m.Length0 && 0 <= j < m.Length1 && 0 <= k < m.Length2 ==>
      Vec3i(i, j, k) in orig && m[i, j, k] == PartlyCommitted(orig[Vec3i(i, j, k)], Vec3i(i, j, k), index, values, n)
  }

  /** The eight writes of the "Apply" button at voxel index (x, y, z), in
      corner order: (x, y, z), (x+1, y, z), (x+1, y, z+1), (x, y, z+1), then
      the same four at y+1. */
  method WriteCell(m: array3<real>, index: Vec3i, values: Values)
    requires Fits(m, index)
    modifies m
    ensures forall i, j, k :: 0 <= i < m.Length0 && 0 <= j < m.Length1 && 0 <= k < m.Length2 ==>
      m[i, j, k] == Committed(old(m[i, j, k]), Vec3i(i, j, k), index, values)
  {
    ghost var orig := imap p | InMap(m, p) :: At(m, p);
    assert Stage(m, orig, index, values, 0);
    WriteCorner(m, index, values, 0, orig);
    WriteCorner(m, index, values, 1, orig);
    WriteCorner(m, index, values, 2, orig);
    WriteCorner(m, index, values, 3, orig);
    WriteCorner(m, index, values, 4, orig);
    WriteCorner(m, index, values, 5, orig);
    WriteCorner(m, index, values, 6, orig);
    WriteCorner(m, index, values, 7, orig);
    StageComplete(m, orig, index, values);
  }

  /** One write of the commit: corner n of the cell gets values[n]. */
  method WriteCorner(m: array3<real>, index: Vec3i, values: Values, n: nat, ghost orig: imap<Vec3i, real>)
    requires Fits(m, index) && n < 8
    requires Stage(m, orig, index, values, n)
    modifies m
    ensures Stage(m, orig, index, values, n + 1)
  {
    var cell := CornerCell(index, n);
    FitsCorners(m, index, n);
    m[cell.x, cell.y, cell.z] := values[n];
    forall i, j, k | 0 <= i < m.Length0 && 0 <= j < m.Length1 && 0 <= k < m.Length2
      ensures Vec3i(i, j, k) in orig
      ensures m[i, j, k] == PartlyCommitted(orig[Vec3i(i, j, k)], Vec3i(i, j, k), index, values, n + 1)
    {
      PartlyStep(orig[Vec3i(i, j, k)], Vec3i(i, j, k), index, values, n);
    }
  }
}
