# Terrain editor: surface picking, voxel staging and commit

This project models the core of a voxel terrain editor built on the dotrix
engine. It covers three parts:

- **Surface picking** (`src/cursor.rs`). Every frame, `track` scans the
  terrain blocks under the mouse ray and bisects the ray inside each block
  whose box the ray crosses (`binary_search`). It keeps the nearest hit,
  optionally snaps it to the centre of its voxel, and publishes it as
  `editor.cursor`. Then it moves the cursor wire frames onto it.
- **Voxel staging and commit** (`src/editor.rs`). `VoxelPicker::new` copies
  the eight corner densities of one cell of a block's voxel map. The brush
  panel edits those values. Its "Apply" button writes them back in place to
  the same eight cells and flags the terrain as changed. `Editor::new` gives
  the initial editor state.
- **Brush trigger** (`src/brush.rs`). `apply` is a chain of early-return
  guards. When every guard passes, it turns the cursor position into a cell
  offset inside the block and stages a `VoxelPicker` there.

Modules:

- `Engine` (engine.dfy) stands in for the engine types the core touches:
  vectors, the ray, blocks, densities, the octree and the terrain service.
  The engine's primitives are arrow-typed values passed in by the caller.
- `Cursor` (cursor.dfy) holds the pure half of `src/cursor.rs`: the
  recursive bisection and its bracket view, the snap, and the scan as a fold
  over per-block hits.
- `Tracking` (tracking.dfy) is the imperative `track` loop over the query.
  It writes `editor.cursor` and an array of wire-frame transforms.
- `Editor` (editor.dfy) holds the corner order, the picker, the
  commit-as-a-function `Committed`, and the `Editor` class with its
  constructor and the in-place "Apply" commit on the block's `array3`.
- `Brush` (brush.dfy) is the `apply` method and the offset arithmetic.

`binary_search` keeps the upper half after a negative sample, so it
converges only where the density rises along the ray
(`Cursor.RisingLinearFieldIsFound`). A falling field whose first midpoint
sample is at or below -0.001 is missed (`Cursor.FallingLinearFieldIsMissed`).

## Model

| member | source | states |
|---|---|---|
| Cursor.BinarySearch | src/cursor.rs:117-152 | A found distance lies between the initial bounds. The returned point is `direction * distance + origin`, its sample exists, and the sample is within 0.001 of zero. |
| Cursor.SearchStep | src/cursor.rs:145-151 | Below depth 200 and off the surface, the search recurses into the half that the midpoint sample selects: the upper half after a negative sample, otherwise the lower half. |
| Cursor.BracketWidth | src/cursor.rs:127 | After k steps the bracket is the initial interval halved k times. |
| Cursor.HalvedIsPow2 | src/cursor.rs:127 | Halving k times is dividing by 2^k. |
| Cursor.SearchFailsIffNoHit | src/cursor.rs:137-151 | The search entered at depth `count` gives up exactly when none of brackets 0 to 200 - count hits the surface. So it samples at most 201 times from depth 0. |
| Cursor.NoHitShift | src/cursor.rs:141-151 | Brackets 0..m miss exactly when the first bracket misses and brackets 0..m-1 of the next bracket miss. |
| Cursor.SearchReturnsFirstHit | src/cursor.rs:137-138 | A found distance is the midpoint of the first bracket whose midpoint sample is on the surface. |
| Cursor.BracketKeepsSignChange | src/cursor.rs:145-149 | While no midpoint hits, a bracket that is negative at its lower end and positive at its upper end stays so. |
| Cursor.NoHitWhereAllNegative | src/cursor.rs:141-151 | If every sample over the bracket is at or below -0.001, the search never succeeds. |
| Cursor.RisingLinearFieldIsFound | src/cursor.rs:117-152 | A density that rises linearly through a root inside the interval is found, once 200 halvings make the interval fine enough for the slope. |
| Cursor.RisingLinearFieldFoundFrom | src/cursor.rs:141-151 | The same statement for a search entered at any depth. |
| Cursor.RisingLinearFieldHitsBy | src/cursor.rs:137-151 | For such a field, if the first n midpoints miss, the n-th one hits. |
| Cursor.FallingLinearFieldIsMissed | src/cursor.rs:145-149 | A density that falls along the ray is never found once the first midpoint is at or below -0.001. |
| Cursor.SnapAxis | src/cursor.rs:89-91 | The snapped coordinate is half a cell above a multiple of the voxel edge, and the raw coordinate lies in the half-open cell around it. |
| Cursor.Snap | src/cursor.rs:88-92 | Each axis of the snapped point is the centre of the voxel cell that holds that axis of the raw point. |
| Cursor.SnapAxisIdempotent | src/cursor.rs:89-91 | Snapping a snapped coordinate gives it back. |
| Cursor.SnapAxisUnique | src/cursor.rs:89-91 | The snap is the only cell centre whose cell contains the raw coordinate. |
| Cursor.SnapExamples | src/cursor.rs:89-91 | With voxel edge 2, (1.3, 0.1, 5.9) snaps to (1, 1, 5), and negative coordinates round down: (-0.5, -2, -3.9) snaps to (-1, -1, -3). |
| Cursor.Present | src/cursor.rs:84-97 | With voxel selection on, the point is the snapped point, the cursor radius is half the voxel edge, and the raw point lies in the snapped voxel. With it off, the point is unchanged and the radius is 32. |
| Cursor.HitFor | src/cursor.rs:54-104 | A block yields a hit only if its model is enabled and the ray crosses its box. For such a block it yields a hit exactly when the bisection over the box's entry/exit interval succeeds. The hit's distance is the bisection's distance, its point and radius are the presented bisection point, and it carries the block's position. |
| Cursor.Next | src/cursor.rs:145-149 | One bisection step keeps a half of the bracket, inside the bracket and still sampleable. |
| Cursor.Bracket | src/cursor.rs:145-151 | The bracket after k steps lies inside the initial one and can be sampled everywhere. |
| Cursor.Accept | src/cursor.rs:79-98 | One step of the running hit: the result is the kept hit or the new one. It is empty only when both are. It is no farther than either, and a new hit at the same or a greater distance leaves the kept one in place. |
| Cursor.Pick | src/cursor.rs:79-98 | The hit kept after a run of accept steps is one of the offered hits and no farther than any of them. |
| Cursor.ScanIsNearest | src/cursor.rs:53-104 | The scan keeps the hit of one of the rows, and no row's hit is nearer. |
| Cursor.Candidates | src/cursor.rs:53-106 | The candidate list has one entry per query row, and entry j is row j's hit. |
| Cursor.PickNoneIff | src/cursor.rs:79-98 | The running accumulator stays empty exactly when no hit is offered. |
| Cursor.PickNearestFirst | src/cursor.rs:79-98 | A kept hit is strictly nearer than every earlier hit and no farther than every later one, so ties keep the first found. |
| Cursor.NearestFirstUnique | src/cursor.rs:79-83 | At most one hit is first among the nearest. |
| Cursor.PickSnoc | src/cursor.rs:79-98 | Offering one more hit is one more accept step. |
| Cursor.CandidatesSnoc | src/cursor.rs:53 | Scanning one more row appends its hit to the candidates. |
| Cursor.ScanEmptyIffNoHit | src/cursor.rs:48-106 | The scan keeps nothing exactly when no block yields a hit. |
| Cursor.ScanKeepsNearestFirst | src/cursor.rs:79-103 | A kept hit is the hit of the first row with the smallest distance. |
| Tracking.Track | src/cursor.rs:42-115 | `editor.cursor` ends as the scan's nearest-first hit, with the winning block's position, or None when nothing was hit. With no hit the wire frames are untouched. With a hit, every wire frame is moved onto the point and scaled uniformly to the cursor radius, and nothing else in it changes. |
| Tracking.PlaceFrames | src/cursor.rs:108-114 | Every wire frame gets `translate = point` and uniform `scale = cursor_size`. Its other fields are unchanged. |
| Tracking.Saved | src/cursor.rs:98-103 | The `intersection` accumulator is empty exactly when the cursor is, and otherwise holds the cursor's point and radius. |
| Tracking.ScanStep | src/cursor.rs:53-104 | Scanning row i extends the scan of rows 0..i-1 by one accept step. |
| Editor.CornerOffset | src/editor.rs:45-54 | Each corner offset is a 0/1 vector. The first four corners lie in the lower y layer and the last four in the upper one. |
| Editor.CornerOf | src/editor.rs:45-54 | An offset names a corner exactly when it is a 0/1 vector, and that corner's offset is that vector. |
| Editor.CornerRoundTrip | src/editor.rs:45-54 | Every corner is found again from its offset, so the eight offsets are distinct. |
| Editor.CornerOffsetInjective | src/editor.rs:45-54 | Distinct corners have distinct offsets. |
| Editor.ToUsize | src/editor.rs:41-43 | `as usize` truncates a non-negative value and saturates a negative one to 0. |
| Editor.Truncate | src/editor.rs:41-44 | Each axis of the stored index is non-negative. It is the integer part of a non-negative float index and 0 for a negative one. |
| Editor.NewPicker | src/editor.rs:40-60 | The picker keeps `parent`, stores the truncated index, and holds in value c the density at corner c of that cell. All eight corners lie inside the map. |
| Editor.ReadCell | src/editor.rs:45-54 | The eight reads at (x,y,z), (x+1,y,z), (x+1,y,z+1), (x,y,z+1), then the same four at y+1, give value c the density at corner c. |
| Editor.FitsCorners | src/editor.rs:46-53 | Every corner of a cell whose x+1, y+1 and z+1 are in range lies inside the map. |
| Editor.Committed | src/editor.rs:185-198 | After the commit, corner c's cell holds values[c], the same cell the picker read it from, and every cell that is not a corner keeps its density. |
| Editor.CornerCellOf | src/editor.rs:45-54 | Corner c's cell is recognised as corner c. |
| Editor.CommitUnedited | src/editor.rs:190-197 | Committing the values that the picker's reads return leaves every density of the map unchanged. |
| Editor.RestageAfterCommit | src/editor.rs:45-54 | In a map that holds a commit of some values, the picker's reads return exactly those values. |
| Editor.StageComplete | src/editor.rs:190-197 | Once all eight corners are written, every cell holds its committed value. |
| Editor.PartlyStep | src/editor.rs:190-197 | Writing corner n takes the commit from n written corners to n + 1. |
| Editor.Editor.constructor | src/editor.rs:112-114 | The editor starts with no cursor, no staged voxel and voxel selection on. |
| Editor.Editor.EditValue | src/editor.rs:170-182 | A brush-panel field changes only corner c of the staged voxel. Without a staged voxel nothing changes. |
| Editor.Editor.ApplyVoxel | src/editor.rs:183-201 | With a staged voxel, the terrain is flagged changed even when the block or its map is missing. The octree is unchanged, and in the target map every cell holds its committed value. When no two blocks share a voxel map (`Terrain.Valid`), every other block's map is untouched. |
| Editor.WriteCell | src/editor.rs:187-197 | After the eight in-place writes, every cell of the map holds its committed value. |
| Editor.WriteCorner | src/editor.rs:190-197 | One write moves the map from n written corners to n + 1. |
| Brush.Apply | src/brush.rs:15-48 | With no Brush action, no cursor, voxel selection off or no block at the cursor, the staged voxel is unchanged. The cursor is never changed. When every guard passes, the staged voxel is the picker of the cursor's block at the computed offset, and its parent is the cursor's block. |
| Brush.HalfBlock | src/brush.rs:28 | The half block is a whole number: `node.size / 2` is integer division, rounding down for an odd size. |
| Brush.HalfVoxel | src/brush.rs:34 | The half voxel is a sixteenth of the half block, and positive once the node size is at least 2. |
| Brush.OffsetAxis | src/brush.rs:28-40 | The offset o on one axis recovers the cursor: the cursor is the centre of cell o, counted in voxels from the block's lower corner. |
| Brush.VoxelOffset | src/brush.rs:28-40 | The same on all three axes. |
| Brush.RecentredInjective | src/brush.rs:40 | Distinct offsets stand for distinct cursor positions. |
| Brush.CentreOffset | src/brush.rs:28-40 | A cursor at the centre of cell k gives offset exactly k. |
| Brush.SnappedOffset | src/brush.rs:28-40 | For a cursor snapped by `track` in a block of 16 voxels per edge, the offset is the index of the cell that contains the raw hit. |
| Brush.SnappedCellIndex | src/brush.rs:40-43 | The staged index for such a cursor is that cell's index, or 0 where the hit lies below the block's lower corner. |

## Left out

- UI rendering is not modelled: egui panels, the toolbox and info windows, sliders and labels. Only the Apply commit and the brush-panel value fields are modelled.
- `camera_control`, `startup`, `Editor::noise` and terrain population are not modelled. They are camera numerics and calls into the noise crate and the engine.
- `cursor::spawn`, the `Cursor` component and `src/controls.rs` are not modelled. They spawn assets or bind input.
- The engine primitives have bodies that are not part of this model: `Ray::intersect_aligned_box`, `terrain.grid.load`, `Density::value` and the octree `load`/`load_mut`. They are arrow-typed values and a map. `GRID_BLOCK_SIZE`, a constant argument to `terrain.grid.load` and `Density::value`, is dropped.
- `is_action_activated` is not modelled; it becomes the boolean `activated` of `Brush.Apply`.
- The world query becomes a sequence of (disabled, block) rows for the scan and an array of transforms for the wire frames.
- IEEE f32 rounding is not modelled. All coordinates and densities are reals.
- Cursor.BinarySearch: the `.expect` on the sample and the `unwrap`s of the ray are preconditions (the sampler covers the interval) rather than panics.
- Cursor.Present: a voxel size of 0 would divide by zero in f32. With voxel selection on it is a precondition.
- Brush.Apply: a node size below 2 makes the half voxel 0, and that division is a precondition. So are the payload `unwrap` and the picker's index range.
- Editor.NewPicker: an out-of-range index panics in the source. Here it is a precondition that the whole cell fits in the map.
- Editor.Editor.ApplyVoxel: an out-of-range index in the eight writes panics in the source. Here it is a precondition that the whole cell fits in the target map.
- Editor.ToUsize: f32-to-usize casts saturate at the top as well; only the lower saturation is modelled. The `usize as i32` casts of the index are treated as identity.
- The editor's other fields are not modelled: noise settings, terrain size, brush position and radius, toolbox flags and LOD. The constructor fixes only `cursor`, `voxel_select` and `voxel`.
- The transform's other fields (rotation and so on) are not modelled. The wire frame's transform is `translate` and `scale` only.
- The `println!` at the end of `apply` is not modelled.
