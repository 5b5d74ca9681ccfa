// The geometry registry (engine/src/systems/geometry_system.c): slots
// addressed by id with a reference count and auto-release flag, and the
// plane generator's counts, indices and vertical extent.
//
// Renderer uploads become the `createOk` flag; vertex data is floating point
// and only the plane's vertical extent is modelled, over the reals.
module GeometrySystem {
  import opened Wrappers

  /** A registered_geometries entry: reference_count, auto_release and geometry.id. */
  datatype Entry = Entry(count: nat, autoRelease: bool, id: nat)

  /** An unused entry, as initialisation (over a zeroed block) and destruction leave it. */
  const UNUSED: Entry := Entry(0, false, INVALID_ID)

  const DEFAULT_GEOMETRY_NAME: string := "default"
  const DEFAULT_MATERIAL_NAME: string := "default"

  /** Slot i is unused or holds the geometry whose id is i. */
  predicate EntriesValid(entries: seq<Entry>) {
    |entries| <= INVALID_ID
    && forall i :: 0 <= i < |entries| ==> entries[i] == UNUSED || entries[i].id == i
  }

  /** The lowest unused slot, if any: the scan of acquire_from_config. */
  function FirstUnused(entries: seq<Entry>): (r: Option<nat>)
    ensures r.None? <==> forall j :: 0 <= j < |entries| ==> entries[j].id != INVALID_ID
    ensures r.Some? ==> r.value < |entries| && entries[r.value].id == INVALID_ID
    ensures r.Some? ==> forall j :: 0 <= j < r.value ==> entries[j].id != INVALID_ID
  {
    if entries == [] then None
    else if entries[0].id == INVALID_ID then Some(0)
    else match FirstUnused(entries[1..])
      case None => None
      case Some(k) => Some(k + 1)
  }

  /** An unused slot with none before it is the one FirstUnused finds. */
  lemma FirstUnusedUnique(entries: seq<Entry>, i: nat)
    requires i < |entries| && entries[i].id == INVALID_ID
    requires forall j :: 0 <= j < i ==> entries[j].id != INVALID_ID
    ensures FirstUnused(entries) == Some(i)
  {
    var r := FirstUnused(entries);
    assert r.Some?;
  }

  /** The entry after a release: one fewer reference, and unused at 0 with auto_release. */
  function ReleasedEntry(e: Entry): (r: Entry)
    ensures e.count > 1 || !e.autoRelease ==> r == e.(count := if e.count > 0 then e.count - 1 else 0)
    ensures e.count <= 1 && e.autoRelease ==> r == UNUSED
  {
    var count := if e.count > 0 then e.count - 1 else 0;
    if count < 1 && e.autoRelease then UNUSED else e.(count := count)
  }

  /** Acquiring by id and releasing gives back the entry, unless it was unreferenced and auto-release. */
  lemma ReleaseUndoesAcquireById(e: Entry)
    ensures e.count > 0 || !e.autoRelease ==> ReleasedEntry(e.(count := e.count + 1)) == e
    ensures e.count == 0 && e.autoRelease ==> ReleasedEntry(e.(count := e.count + 1)) == UNUSED
  {
  }

  // ------------------------------------------------------------ as written

  /**
   * The slot geometry_system_acquire_by_id reads as written: its guard only
   * refuses INVALID_ID before indexing registered_geometries, with no test
   * against max_geometry_count.
   */
  function AcquireByIdReadAsWritten(id: nat): Option<nat> {
    if id == INVALID_ID then None else Some(id)
  }

  /**
   * In a system of 4 geometries, id 4 passes the guard as written and is
   * read one past the end, where AcquireById refuses it.
   */
  lemma AcquireByIdReadsPastEnd(entries: seq<Entry>)
    requires |entries| == 4
    ensures AcquireByIdReadAsWritten(4) == Some(4) && 4 >= |entries|
  {
  }

  class System {
    /** Whether the state was set up by geometry_system_initialize. */
    var initialized: bool
    /** registered_geometries. */
    var entries: seq<Entry>

    ghost predicate Valid()
      reads this
    {
      EntriesValid(entries)
    }

    constructor ()
      ensures Valid() && !initialized && entries == []
    {
      initialized := false;
      entries := [];
    }

    /**
     * geometry_system_initialize: refuses a count of 0 and changes nothing.
     * Otherwise every slot is invalidated before the default geometries are
     * created, so a failure there returns false with the slots in place.
     */
    method Initialize(maxCount: nat, defaultsOk: bool) returns (ok: bool)
      requires Valid() && IsU32(maxCount)
      modifies this
      ensures Valid()
      ensures ok <==> maxCount > 0 && defaultsOk
      ensures maxCount == 0 ==> initialized == old(initialized) && entries == old(entries)
      ensures maxCount > 0 ==> initialized && entries == seq(maxCount, _ => UNUSED)
      ensures maxCount > 0 ==> FirstUnused(entries) == Some(0)
    {
      if maxCount == 0 {
        return false;
      }
      initialized := true;
      entries := seq(maxCount, _ => UNUSED);
      FirstUnusedUnique(entries, 0);
      return defaultsOk;
    }

    /**
     * geometry_system_acquire_by_id: None for INVALID_ID, for an id past the
     * last slot and for an unused slot; otherwise the same geometry with one
     * more reference.
     */
    method AcquireById(id: nat) returns (r: Option<nat>)
      requires Valid()
      modifies this
      ensures Valid() && initialized == old(initialized)
      ensures (id == INVALID_ID || id >= |old(entries)| || old(entries)[id].id == INVALID_ID) <==> r.None?
      ensures r.None? ==> entries == old(entries)
      ensures r.Some? ==> r.value == id && entries == old(entries)[id := old(entries)[id].(count := old(entries)[id].count + 1)]
    {
      if id == INVALID_ID || id >= |entries| || entries[id].id == INVALID_ID {
        return None;
      }
      entries := entries[id := entries[id].(count := entries[id].count + 1)];
      return Some(id);
    }

    /**
     * geometry_system_acquire_from_config: the lowest unused slot gets one
     * reference, the requested auto_release and id = slot; None when no slot
     * is unused. When the renderer cannot create the geometry the slot is
     * reset (id INVALID, count 0, auto_release false) and None returned.
     */
    method AcquireFromConfig(autoRelease: bool, createOk: bool) returns (r: Option<nat>)
      requires Valid()
      modifies this
      ensures Valid() && initialized == old(initialized)
      ensures FirstUnused(old(entries)).None? || !createOk ==> r.None? && entries == old(entries)
      ensures FirstUnused(old(entries)).Some? && createOk ==>
        r == FirstUnused(old(entries)) && entries == old(entries)[r.value := Entry(1, autoRelease, r.value)]
    {
      var slot := FindFirstUnused();
      if slot.None? {
        return None;
      }
      var i := slot.value;
      entries := entries[i := Entry(1, autoRelease, i)];
      if !createOk {
        // create_geometry's failure path
        entries := entries[i := UNUSED];
        assert entries == old(entries);
        return None;
      }
      return Some(i);
    }

    /** The free-slot loop of acquire_from_config. */
    method FindFirstUnused() returns (r: Option<nat>)
      ensures r == FirstUnused(entries)
    {
      var i := 0;
      while i < |entries|
        invariant i <= |entries|
        invariant forall j :: 0 <= j < i ==> entries[j].id != INVALID_ID
      {
        if entries[i].id == INVALID_ID {
          FirstUnusedUnique(entries, i);
          return Some(i);
        }
        i := i + 1;
      }
      return None;
    }

    /**
     * geometry_system_release of a geometry whose id is `id` (None for a
     * null pointer): nothing for null, INVALID_ID or an id whose slot holds
     * another id; otherwise ReleasedEntry on its slot.
     */
    method Release(id: Option<nat>)
      requires Valid()
      requires id.Some? && id.value != INVALID_ID ==> id.value < |entries|
      modifies this
      ensures Valid() && initialized == old(initialized)
      ensures id.None? || id.value == INVALID_ID || old(entries)[id.value].id != id.value ==> entries == old(entries)
      ensures id.Some? && id.value != INVALID_ID && old(entries)[id.value].id == id.value ==>
        entries == old(entries)[id.value := ReleasedEntry(old(entries)[id.value])]
    {
      if id.None? || id.value == INVALID_ID {
        return;
      }
      var i := id.value;
      if entries[i].id == i {
        entries := entries[i := ReleasedEntry(entries[i])];
      }
    }
  }

  // ------------------------------------------------------------ plane config

  /** A zero dimension defaults to one. */
  function NonZero(v: real): (r: real)
    ensures r != 0.0 && (v != 0.0 ==> r == v)
  {
    if v == 0.0 then 1.0 else v
  }

  /** A segment count below one defaults to one. */
  function AtLeastOne(n: nat): (r: nat)
    ensures r >= 1 && (n >= 1 ==> r == n)
  {
    if n < 1 then 1 else n
  }

  /** An absent or empty name falls back to the default. */
  function NameOr(name: Option<string>, fallback: string): (r: string)
    ensures name.Some? && name.value != [] ==> r == name.value
    ensures name.None? || name.value == [] ==> r == fallback
  {
    if name.Some? && |name.value| > 0 then name.value else fallback
  }

  /** The six indices of quad q: triangles (v0, v1, v2) and (v0, v3, v1). */
  function QuadIndices(q: nat): seq<nat> {
    [4 * q, 4 * q + 1, 4 * q + 2, 4 * q, 4 * q + 3, 4 * q + 1]
  }

  /** The index buffer of the first n quads. */
  function PlaneIndices(n: nat): (r: seq<nat>)
    ensures |r| == 6 * n
  {
    if n == 0 then [] else PlaneIndices(n - 1) + QuadIndices(n - 1)
  }

  /** Index 6q + j of the buffer is index j of quad q, so every index stays below 4n. */
  lemma {:induction false} PlaneIndicesShape(n: nat)
    ensures forall q, j :: 0 <= q < n && 0 <= j < 6 ==> PlaneIndices(n)[6 * q + j] == QuadIndices(q)[j]
    ensures forall k :: 0 <= k < |PlaneIndices(n)| ==> PlaneIndices(n)[k] < 4 * n
  {
    if n > 0 {
      PlaneIndicesShape(n - 1);
      var p := PlaneIndices(n - 1);
      assert PlaneIndices(n) == p + QuadIndices(n - 1);
      forall k | 0 <= k < |PlaneIndices(n)|
        ensures PlaneIndices(n)[k] < 4 * n
      {
        if k >= |p| {
          assert PlaneIndices(n)[k] == QuadIndices(n - 1)[k - |p|];
        }
      }
    }
  }

  datatype PlaneConfig = PlaneConfig(
    vertexCount: nat,
    indexCount: nat,
    indices: seq<nat>,
    name: string,
    materialName: string)

  /**
   * The counts and indices geometry_system_generate_plane_config gives for
   * the segment counts, each defaulted to one: vertex_count = 4xy and
   * index_count = 6xy as u32 products, and the index buffer holding the six
   * indices of every one of the xy quads, whatever the counts say.
   */
  ghost predicate PlaneShape(c: PlaneConfig, xSegments: nat, ySegments: nat) {
    var xs, ys := AtLeastOne(xSegments), AtLeastOne(ySegments);
    c.vertexCount == (xs * ys * 4) % U32_LIMIT && c.indexCount == (xs * ys * 6) % U32_LIMIT
    && c.indices == PlaneIndices(xs * ys)
  }

  /**
   * The integer part of geometry_system_generate_plane_config: counts
   * default to one, vertex_count = 4xy and index_count = 6xy in u32
   * arithmetic, quad q = y * x_count + x writes its six indices in order,
   * and empty names fall back to the defaults.
   */
  method GeneratePlaneConfig(xSegments: nat, ySegments: nat, name: Option<string>, materialName: Option<string>)
    returns (c: PlaneConfig)
    ensures PlaneShape(c, xSegments, ySegments)
    ensures c.name == NameOr(name, DEFAULT_GEOMETRY_NAME)
    ensures c.materialName == NameOr(materialName, DEFAULT_MATERIAL_NAME)
  {
    var xs, ys := AtLeastOne(xSegments), AtLeastOne(ySegments);
    var indices: seq<nat> := [];
    var y := 0;
    while y < ys
      invariant y <= ys
      invariant indices == PlaneIndices(y * xs)
    {
      indices := AppendRow(indices, y * xs, xs);
      RowStep(y, xs);
      y := y + 1;
    }
    assert ys * xs == xs * ys;
    c := PlaneConfig((xs * ys * 4) % U32_LIMIT, (xs * ys * 6) % U32_LIMIT, indices,
                     NameOr(name, DEFAULT_GEOMETRY_NAME), NameOr(materialName, DEFAULT_MATERIAL_NAME));
  }

  /** The inner loop of the plane generator: the quads first .. first + xs - 1 of one row. */
  method AppendRow(indices: seq<nat>, first: nat, xs: nat) returns (r: seq<nat>)
    requires indices == PlaneIndices(first)
    ensures r == PlaneIndices(first + xs)
  {
    r := indices;
    var x := 0;
    while x < xs
      invariant x <= xs
      invariant r == PlaneIndices(first + x)
    {
      var vOffset := (first + x) * 4;
      r := r + [vOffset, vOffset + 1, vOffset + 2, vOffset, vOffset + 3, vOffset + 1];
      x := x + 1;
    }
  }

  /** The quad after the last of row y is the first of row y + 1. */
  lemma RowStep(y: nat, xs: nat)
    ensures y * xs + xs == (y + 1) * xs
  {
  }

  /** Counts below 2^32 do not wrap. */
  lemma CountsFit(n: nat)
    requires n * 6 < U32_LIMIT
    ensures (n * 4) % U32_LIMIT == n * 4 && (n * 6) % U32_LIMIT == n * 6
  {
  }

  /** While 6xy fits in a u32 the buffer holds index_count indices, each naming one of the vertex_count vertices. */
  lemma PlaneIndicesInRange(c: PlaneConfig, xSegments: nat, ySegments: nat)
    requires PlaneShape(c, xSegments, ySegments)
    requires AtLeastOne(xSegments) * AtLeastOne(ySegments) * 6 < U32_LIMIT
    ensures |c.indices| == c.indexCount
    ensures forall k :: 0 <= k < |c.indices| ==> c.indices[k] < c.vertexCount
  {
    var n := AtLeastOne(xSegments) * AtLeastOne(ySegments);
    CountsFit(n);
    PlaneIndicesShape(n);
  }

  /**
   * As written, a plane of 2^15 by 2^15 segments gets vertex_count 0 and
   * index_count 2^31: its vertex buffer is allocated empty and its index
   * buffer at a third of what is written, while the loops still write the
   * vertices and indices of all 2^30 quads.
   */
  lemma PlaneCountsWrap(c: PlaneConfig)
    requires PlaneShape(c, 0x8000, 0x8000)
    ensures c.vertexCount == 0 && c.indexCount == 0x8000_0000
    ensures |c.indices| == 6 * 0x4000_0000 && |c.indices| > c.indexCount
  {
    assert 0x8000 * 0x8000 == 0x4000_0000;
  }

  /**
   * The intended counts: 4xy vertices and 6xy indices when 6xy fits in a
   * u32, and a refusal otherwise. Accepted counts match the index buffer,
   * and every index names one of the vertices.
   */
  function PlaneCountsChecked(xSegments: nat, ySegments: nat): (r: Option<(nat, nat)>)
    ensures var n := AtLeastOne(xSegments) * AtLeastOne(ySegments);
      r.Some? <==> n * 6 < U32_LIMIT
    ensures var n := AtLeastOne(xSegments) * AtLeastOne(ySegments);
      r.Some? ==> (r.value == (4 * n, 6 * n) && |PlaneIndices(n)| == r.value.1
        && forall k :: 0 <= k < |PlaneIndices(n)| ==> PlaneIndices(n)[k] < r.value.0)
  {
    var n := AtLeastOne(xSegments) * AtLeastOne(ySegments);
    if n * 6 < U32_LIMIT then
      PlaneIndicesShape(n);
      Some((4 * n, 6 * n))
    else None
  }

  /** The top edge of the plane: max_y of the last row, (ys - 1) * segHeight - height / 2 + segHeight. */
  function TopEdge(height: real, segHeight: real, ys: nat): real {
    (ys - 1) as real * segHeight - height / 2.0 + segHeight
  }

  /** The intended row height: height / y_segment_count. */
  function SegHeight(height: real, xs: nat, ys: nat): real
    requires xs >= 1 && ys >= 1
  {
    height / ys as real
  }

  /** The plane is centred: its top edge lies at height / 2 for every row count. */
  lemma TopEdgeCentred(height: real, xs: nat, ys: nat)
    requires xs >= 1 && ys >= 1
    ensures TopEdge(height, SegHeight(height, xs, ys), ys) == height / 2.0
  {
    var h := SegHeight(height, xs, ys);
    assert ys as real * h == height;
  }

  // ------------------------------------------------------------ as written

  /** The row height as written: seg_height = height / x_segment_count. */
  function SegHeightAsWritten(height: real, xs: nat, ys: nat): real
    requires xs >= 1 && ys >= 1
  {
    height / xs as real
  }

  /** A 1 x 2 plane of height 2 reaches up to 3 instead of 1. */
  lemma PlaneTooTall()
    ensures TopEdge(2.0, SegHeightAsWritten(2.0, 1, 2), 2) == 3.0
    ensures TopEdge(2.0, SegHeight(2.0, 1, 2), 2) == 1.0
  {
  }
}
