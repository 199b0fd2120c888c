/** `track`, the per-frame cursor system: it scans the terrain blocks for
    the nearest surface hit under the mouse ray, publishes it as the
    editor's cursor, and moves the cursor wire frames onto it. */
module Tracking {
  import opened Engine
  import opened Cursor
  import Editor

  /** The running `intersection`: the point, ray distance and cursor radius
      of the hit kept so far. */
  function Saved(h: Option<Hit>): (s: Option<(Vec3, real, real)>)
    ensures s.None? <==> CursorOf(h).None?
    ensures s.Some? ==> CursorOf(h) == Some(State(s.value.0, h.value.block, s.value.2))
  {
    match h
    case None => None
    case Some(hit) => Some((hit.point, hit.distance, hit.cursorSize))
  }

  /** `track`: scan the query in order, skipping disabled models and missed
      boxes; keep a hit only when it is strictly nearer than the kept one,
      mirroring each kept hit into `editor.cursor`; then, if anything was hit,
      move every cursor wire frame onto it. `frames` holds the transforms of
      the wire frames that carry the Cursor component. */
  method Track(editor: Editor.Editor, ray: Ray, grid: Grid, query: seq<Entry>, frames: array<Transform>)
    requires AllPickable(query, ray, grid, editor.voxelSelect)
    modifies editor`cursor, frames
    ensures editor.cursor == CursorOf(Scan(query, ray, grid, editor.voxelSelect))
    ensures Scan(query, ray, grid, editor.voxelSelect).None? ==> frames[..] == old(frames[..])
    ensures Scan(query, ray, grid, editor.voxelSelect).Some? ==>
      var hit := Scan(query, ray, grid, editor.voxelSelect).value;
      forall j :: 0 <= j < frames.Length ==>
        frames[j] == old(frames[j]).(translate := hit.point, scale := Uniform(hit.cursorSize))
  {
    var intersection: Option<(Vec3, real, real)> := None;
    var voxelSelect := editor.voxelSelect;
    editor.cursor := None;
    ghost var kept: Option<Hit> := None;
    for i := 0 to |query|
      invariant AllPickable(query[..i], ray, grid, voxelSelect)
      invariant kept == Scan(query[..i], ray, grid, voxelSelect)
      invariant intersection == Saved(kept)
      invariant editor.cursor == CursorOf(kept)
      invariant frames[..] == old(frames[..])
    {
      var e := query[i];
      ScanStep(query, i, ray, grid, voxelSelect);
      kept := Scan(query[..i + 1], ray, grid, voxelSelect);
      if e.disabled { continue; }
      var bounds := Bounds(e.block);
      match ray.intersectAlignedBox(bounds) {
        case None =>
        case Some((distanceMin, distanceMax)) =>
          var density := grid(e.block.boundMin);
          var found := BinarySearch(distanceMin, distanceMax, Sampler(ray, e.block, density), 0);
          if found.Some? {
            var (point, distance) := found.value;
            if intersection.Some? && distance >= intersection.value.1 { continue; }
            var (p, cursorSize) := Present(point, e.block, voxelSelect);
            intersection := Some((p, distance, cursorSize));
            editor.cursor := Some(State(p, e.block.position, cursorSize));
          }
      }
    }
    assert query[..|query|] == query;

    if intersection.Some? {
      var (point, _, cursorSize) := intersection.value;
      PlaceFrames(frames, point, cursorSize);
    }
  }

  /** The second loop of `track`: every cursor wire frame is moved onto the
      hit and scaled to the cursor radius. */
  method PlaceFrames(frames: array<Transform>, point: Vec3, cursorSize: real)
    modifies frames
    ensures forall l :: 0 <= l < frames.Length ==>
      frames[l] == old(frames[l]).(translate := point, scale := Uniform(cursorSize))
  {
    for j := 0 to frames.Length
      invariant forall l :: 0 <= l < j ==>
        frames[l] == old(frames[l]).(translate := point, scale := Uniform(cursorSize))
      invariant forall l :: j <= l < frames.Length ==> frames[l] == old(frames[l])
    {
      frames[j] := frames[j].(translate := point);
      frames[j] := frames[j].(scale := Uniform(cursorSize));
    }
  }

  /** Scanning entry i extends the scan of the first i entries by one Accept. */
  lemma ScanStep(query: seq<Entry>, i: nat, ray: Ray, grid: Grid, voxelSelect: bool)
    requires i < |query| && AllPickable(query, ray, grid, voxelSelect)
    ensures AllPickable(query[..i], ray, grid, voxelSelect) && AllPickable(query[..i + 1], ray, grid, voxelSelect)
    ensures Scan(query[..i + 1], ray, grid, voxelSelect)
      == Accept(Scan(query[..i], ray, grid, voxelSelect), HitFor(query[i], ray, grid, voxelSelect))
  {
    assert query[..i + 1] == query[..i] + [query[i]];
    CandidatesSnoc(query[..i], query[i], ray, grid, voxelSelect);
    PickSnoc(Candidates(query[..i], ray, grid, voxelSelect), HitFor(query[i], ray, grid, voxelSelect));
  }
}
