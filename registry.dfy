// The reference-counted name registry shared by the texture and material
// systems (engine/src/systems/texture_system.c, material_system.c).
//
// Each system keeps a fixed array of slots and a hashtable from name to a
// reference {reference_count, handle, auto_release}. The hashtable is filled
// with the invalid reference on initialisation, so it is modelled as a map
// whose missing keys read as INVALID_REF.
module Registry {
  import opened Wrappers

  datatype Ref = Ref(count: nat, handle: nat, autoRelease: bool)

  /** The reference every name maps to until it is first acquired. */
  const INVALID_REF: Ref := Ref(0, INVALID_ID, false)

  /** A slot of the texture or material array: only id and generation matter here. */
  datatype Slot = Slot(id: nat, generation: nat)

  /** An unused slot: id and generation both INVALID_ID. */
  const FREE: Slot := Slot(INVALID_ID, INVALID_ID)

  /** hashtable_get on a table filled with INVALID_REF. */
  function Lookup(table: map<string, Ref>, name: string): (r: Ref)
    ensures name !in table ==> r == INVALID_REF
  {
    if name in table then table[name] else INVALID_REF
  }

  /**
   * The reference after an acquire: auto_release is taken from the caller
   * only when nothing holds the name, and the count always grows by one.
   */
  function Acquired(r: Ref, autoRelease: bool): Ref {
    Ref(r.count + 1, r.handle, if r.count == 0 then autoRelease else r.autoRelease)
  }

  /** Whether a release drops the last reference of an auto-release entry. */
  predicate Destroys(r: Ref) {
    r.count == 1 && r.autoRelease
  }

  /**
   * The reference after a release of a held name: one fewer, and the
   * invalid reference when the last one of an auto-release entry goes.
   */
  function Released(r: Ref): Ref
    requires r.count > 0
  {
    if Destroys(r) then INVALID_REF else r.(count := r.count - 1)
  }

  /** Release undoes acquire: exactly, or back to the invalid reference for an auto-release entry. */
  lemma ReleaseUndoesAcquire(r: Ref, autoRelease: bool)
    ensures r.count > 0 ==> Released(Acquired(r, autoRelease)) == r
    ensures r.count == 0 && autoRelease ==> Released(Acquired(r, autoRelease)) == INVALID_REF
    ensures r.count == 0 && !autoRelease ==> Released(Acquired(r, autoRelease)) == r.(autoRelease := false)
  {
  }

  /** The generation a (re)load gives: INVALID becomes 0, anything else goes up by one. */
  function ReloadGeneration(g: nat): (r: nat)
    requires IsU32(g)
    ensures IsU32(r) && r != g
    ensures g == INVALID_ID <==> r == 0
  {
    if g == INVALID_ID then 0 else g + 1
  }

  /** The ids of the slots, the field the free-slot search reads. */
  function Ids(slots: seq<Slot>): (ids: seq<nat>)
    ensures |ids| == |slots| && forall i :: 0 <= i < |slots| ==> ids[i] == slots[i].id
  {
    seq(|slots|, i requires 0 <= i < |slots| => slots[i].id)
  }

  /** The lowest index whose id is INVALID_ID, if any. */
  function FirstInvalid(ids: seq<nat>): (r: Option<nat>)
    ensures r.None? <==> forall j :: 0 <= j < |ids| ==> ids[j] != INVALID_ID
    ensures r.Some? ==> r.value < |ids| && ids[r.value] == INVALID_ID
    ensures r.Some? ==> forall j :: 0 <= j < r.value ==> ids[j] != INVALID_ID
  {
    if ids == [] then None
    else if ids[0] == INVALID_ID then Some(0)
    else match FirstInvalid(ids[1..])
      case None => None
      case Some(k) => Some(k + 1)
  }

  /** The free-slot loop of acquire: scan upward, stop at the first INVALID id. */
  method FindFirstInvalid(ids: seq<nat>) returns (r: Option<nat>)
    ensures r == FirstInvalid(ids)
  {
    var i := 0;
    while i < |ids|
      invariant i <= |ids|
      invariant forall j :: 0 <= j < i ==> ids[j] != INVALID_ID
    {
      if ids[i] == INVALID_ID {
        FirstInvalidUnique(ids, i);
        return Some(i);
      }
      i := i + 1;
    }
    return None;
  }

  /** An INVALID id with none before it is the one FirstInvalid finds. */
  lemma FirstInvalidUnique(ids: seq<nat>, i: nat)
    requires i < |ids| && ids[i] == INVALID_ID
    requires forall j :: 0 <= j < i ==> ids[j] != INVALID_ID
    ensures FirstInvalid(ids) == Some(i)
  {
    var r := FirstInvalid(ids);
    assert r.Some?;
  }

  /** A slot is unused, or holds its own index as id with a u32 generation. */
  predicate SlotValid(s: Slot, i: nat) {
    s == FREE || (s.id == i && IsU32(s.generation))
  }

  /** A held reference has a handle, and a handle names a slot that is in use under that id. */
  predicate RefValid(r: Ref, slots: seq<Slot>) {
    (r.count > 0 ==> r.handle != INVALID_ID)
    && (r.handle != INVALID_ID ==> r.handle < |slots| && slots[r.handle].id == r.handle)
  }

  /** The registry invariant: valid slots and references, and no slot shared by two names. */
  ghost predicate Valid(slots: seq<Slot>, table: map<string, Ref>) {
    |slots| <= INVALID_ID
    && (forall i :: 0 <= i < |slots| ==> SlotValid(slots[i], i))
    && (forall n :: n in table ==> RefValid(table[n], slots))
    && (forall n, m :: (n in table && m in table && table[n].handle == table[m].handle
          && table[n].handle != INVALID_ID) ==> n == m)
  }

  /** A freshly initialised registry: every slot free and every name invalid. */
  lemma EmptyValid(count: nat)
    requires count <= INVALID_ID
    ensures Valid(seq(count, _ => FREE), map[])
    ensures FirstInvalid(Ids(seq(count, _ => FREE))) == if count == 0 then None else Some(0)
  {
    if count > 0 {
      FirstInvalidUnique(Ids(seq(count, _ => FREE)), 0);
    }
  }

  /** Acquiring a name that already has a slot keeps the invariant. */
  lemma AcquireExistingValid(slots: seq<Slot>, table: map<string, Ref>, name: string, autoRelease: bool)
    requires Valid(slots, table) && Lookup(table, name).handle != INVALID_ID
    ensures Valid(slots, table[name := Acquired(Lookup(table, name), autoRelease)])
  {
  }

  /**
   * Loading a name without a slot into the lowest free slot keeps the
   * invariant: that slot was free, so no other name points at it.
   */
  lemma AcquireFreshValid(slots: seq<Slot>, table: map<string, Ref>, name: string, autoRelease: bool, slot: nat)
    requires Valid(slots, table) && Lookup(table, name).handle == INVALID_ID
    requires FirstInvalid(Ids(slots)) == Some(slot)
    ensures slots[slot] == FREE
    ensures Valid(slots[slot := Slot(slot, 0)],
                  table[name := Acquired(Lookup(table, name), autoRelease).(handle := slot)])
  {
    assert Ids(slots)[slot] == INVALID_ID;
    forall n | n in table && n != name
      ensures table[n].handle != slot
    {
      assert RefValid(table[n], slots);
    }
  }

  /** Releasing a held name keeps the invariant, whether or not its slot is freed. */
  lemma ReleaseValid(slots: seq<Slot>, table: map<string, Ref>, name: string)
    requires Valid(slots, table) && Lookup(table, name).count > 0
    ensures var r := Lookup(table, name);
      Valid(if Destroys(r) then slots[r.handle := FREE] else slots, table[name := Released(r)])
  {
    var r := Lookup(table, name);
    assert name in table;
    if Destroys(r) {
      forall n | n in table && n != name
        ensures RefValid(table[n], slots[r.handle := FREE])
      {
      }
    }
  }
}
