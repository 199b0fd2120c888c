/** The brush system: when the Brush action fires over a cursor with voxel
    selection on, it stages the voxel cell under the cursor into the editor
    for the brush panel to edit. */
module Brush {
  import opened Engine
  import opened Editor
  import Cursor

  /** Half a block's edge, `(node.size / 2) as f32`, with the integer
      division done first. */
  function HalfBlock(size: nat): (h: real)
    ensures h == h.Floor as real
    ensures 2.0 * h <= size as real < 2.0 * h + 2.0
  {
    (size / 2) as real
  }

  /** Half a voxel's edge: a block edge holds 16 voxels. */
  function HalfVoxel(size: nat): (vh: real)
    ensures 16.0 * vh == HalfBlock(size)
    ensures size >= 2 ==> vh > 0.0
  {
    HalfBlock(size) / 16.0
  }

  /** One axis of the voxel offset: the distance from the block's lower
      corner to the lower corner of the cursor's voxel, in voxel edges
      (`(voxel_base - block_base) / voxel_half_size / 2.0`). */
  function OffsetAxis(cursor: real, blockPos: int, size: nat): (o: real)
    requires size >= 2
    ensures Recentred(o, blockPos, size) == cursor
  {
    var h := HalfBlock(size);
    var vh := HalfVoxel(size);
    var d := (cursor - vh) - (blockPos as real - h);
    Halves(d, vh);
    d / vh / 2.0
  }

  /** The point an offset o stands for: the centre of cell o, counted in
      cells of edge twice the half voxel from the block's lower corner. */
  function Recentred(o: real, blockPos: int, size: nat): real
  {
    (blockPos as real - HalfBlock(size)) + (2.0 * o + 1.0) * HalfVoxel(size)
  }

  lemma Halves(d: real, vh: real)
    requires vh > 0.0
    ensures (2.0 * (d / vh / 2.0) + 1.0) * vh == d + vh
  {
    var q := d / vh;
    Cursor.DivMul(d, vh);
    assert 2.0 * (q / 2.0) == q;
  }

  function VoxelOffset(cursor: Vec3, blockPos: Vec3i, size: nat): (o: Vec3)
    requires size >= 2
    ensures Recentred(o.x, blockPos.x, size) == cursor.x
    ensures Recentred(o.y, blockPos.y, size) == cursor.y
    ensures Recentred(o.z, blockPos.z, size) == cursor.z
  {
    Vec3(OffsetAxis(cursor.x, blockPos.x, size), OffsetAxis(cursor.y, blockPos.y, size),
      OffsetAxis(cursor.z, blockPos.z, size))
  }

  /** All guards of `apply` pass: the action fired, there is a cursor, voxel
      selection is on and the octree holds the cursor's block. */
  predicate Stages(editor: Editor, activated: bool, terrain: Terrain)
    reads editor, terrain
  {
    activated && editor.cursor.Some? && editor.voxelSelect && editor.cursor.value.block in terrain.octree
  }

  /** What staging needs of the block found: a non-zero half voxel to
      divide by, a voxel map to `unwrap`, and a cell inside that map. */
  predicate CanStage(cursor: Cursor.State, node: Node)
  {
    node.size >= 2 && node.payload.Some?
    && Fits(node.payload.value, Truncate(VoxelOffset(cursor.position, cursor.block, node.size)))
  }

  /** `apply`: with every guard passing, stage the cell under the cursor
      from the block's voxel map; otherwise leave the staged voxel alone.
      The cursor is only read. */
  method Apply(editor: Editor, activated: bool, terrain: Terrain)
    requires Stages(editor, activated, terrain) ==>
      CanStage(editor.cursor.value, terrain.octree[editor.cursor.value.block])
    modifies editor`voxel
    ensures editor.cursor == old(editor.cursor)
    ensures !activated ==> editor.voxel == old(editor.voxel)
    ensures editor.cursor.None? ==> editor.voxel == old(editor.voxel)
    ensures !editor.voxelSelect ==> editor.voxel == old(editor.voxel)
    ensures editor.cursor.Some? && editor.cursor.value.block !in terrain.octree ==>
      editor.voxel == old(editor.voxel)
    ensures Stages(editor, activated, terrain) ==>
      var cursor := editor.cursor.value;
      var node := terrain.octree[cursor.block];
      editor.voxel == Some(NewPicker(cursor.block, VoxelOffset(cursor.position, cursor.block, node.size),
        node.payload.value))
    ensures Stages(editor, activated, terrain) ==> editor.voxel.value.parent == editor.cursor.value.block
  {
    if !activated {
      return;
    }
    if editor.cursor.None? {
      return;
    }
    var cursorPosition, blockPosition := editor.cursor.value.position, editor.cursor.value.block;
    if editor.voxelSelect {
      if blockPosition in terrain.octree {
        var node := terrain.octree[blockPosition];
        var halfBlockSize := HalfBlock(node.size);
        var blockBase := Vec3(blockPosition.x as real - halfBlockSize,
          blockPosition.y as real - halfBlockSize, blockPosition.z as real - halfBlockSize);
        var voxelHalfSize := halfBlockSize / 16.0;
        var voxelBase := Vec3(cursorPosition.x - voxelHalfSize,
          cursorPosition.y - voxelHalfSize, cursorPosition.z - voxelHalfSize);
        var d := Sub(voxelBase, blockBase);
        var voxelOffset := Vec3(d.x / voxelHalfSize / 2.0, d.y / voxelHalfSize / 2.0, d.z / voxelHalfSize / 2.0);
        assert voxelOffset == VoxelOffset(cursorPosition, blockPosition, node.size);
        editor.voxel := Some(NewPicker(blockPosition, voxelOffset, node.payload.value));
      }
    }
  }

  /** A cursor at the centre of cell k of the block (counted from the
      block's lower corner in cells of edge twice the half voxel) gives
      offset exactly k. */
  lemma CentreOffset(k: int, blockPos: int, size: nat)
    requires size >= 2
    ensures OffsetAxis(blockPos as real - HalfBlock(size) + (2 * k + 1) as real * HalfVoxel(size), blockPos, size)
      == k as real
  {
    var cursor := blockPos as real - HalfBlock(size) + (2 * k + 1) as real * HalfVoxel(size);
    var o := OffsetAxis(cursor, blockPos, size);
    assert Recentred(k as real, blockPos, size) == cursor;
    RecentredInjective(o, k as real, blockPos, size);
  }

  /** Distinct offsets stand for distinct points. */
  lemma RecentredInjective(o: real, k: real, blockPos: int, size: nat)
    requires size >= 2 && Recentred(o, blockPos, size) == Recentred(k, blockPos, size)
    ensures o == k
  {
    var vh := HalfVoxel(size);
    var a, b := 2.0 * o + 1.0, 2.0 * k + 1.0;
    assert Recentred(o, blockPos, size) == (blockPos as real - HalfBlock(size)) + a * vh;
    assert Recentred(k, blockPos, size) == (blockPos as real - HalfBlock(size)) + b * vh;
    assert a * vh == b * vh;
    if a < b {
      Cursor.MulStrict(vh, a, b);
    } else if b < a {
      Cursor.MulStrict(vh, b, a);
    }
  }

  lemma DivBy(a: int, vh: real)
    requires vh > 0.0
    ensures (a as real * vh) / vh / 2.0 == a as real / 2.0
  {
  }

  /** The cursor that `track` publishes for a hit at p, snapped to voxels of
      edge v, stages the cell of the block that contains p: for a block of
      16 voxels per edge whose lower corner is m voxels from the origin, the
      offset is the cell index floor(p / v) - m, and that cell spans p. */
  lemma SnappedOffset(p: real, voxelSize: nat, blockPos: int, size: nat, m: int)
    requires voxelSize > 0 && size == 16 * voxelSize
    requires blockPos == (m + 8) * voxelSize
    ensures var v := voxelSize as real;
      var k := (p / v).Floor - m;
      && OffsetAxis(Cursor.SnapAxis(p, v), blockPos, size) == k as real
      && (blockPos as real - HalfBlock(size)) + k as real * v <= p
      && p < (blockPos as real - HalfBlock(size)) + (k + 1) as real * v
  {
    var v := voxelSize as real;
    var f := (p / v).Floor;
    var k := f - m;
    Cursor.FloorCell(p, v, f);
    assert HalfBlock(size) == 8.0 * v;
    assert HalfVoxel(size) == v / 2.0;
    assert blockPos as real - HalfBlock(size) == m as real * v;
    var c := Cursor.SnapAxis(p, v);
    assert c == f as real * v + v / 2.0;
    assert (c - v / 2.0) - m as real * v == (2 * k) as real * (v / 2.0);
    DivBy(2 * k, v / 2.0);
  }

  /** The picker staged for such a cursor has the hit's cell as its index,
      on each axis where the hit lies at or above the block's lower corner;
      below it, the `as usize` cast saturates to cell 0. */
  lemma SnappedCellIndex(p: real, voxelSize: nat, blockPos: int, size: nat, m: int)
    requires voxelSize > 0 && size == 16 * voxelSize
    requires blockPos == (m + 8) * voxelSize
    ensures var v := voxelSize as real;
      var k := (p / v).Floor - m;
      ToUsize(OffsetAxis(Cursor.SnapAxis(p, v), blockPos, size)) == if k >= 0 then k else 0
  {
    SnappedOffset(p, voxelSize, blockPos, size, m);
  }
}
