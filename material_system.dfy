// The material registry (engine/src/systems/material_system.c): the same
// reference counting and slot assignment as the texture registry, plus a
// built-in default material that acquire hands out without counting.
//
// load_material resolves the shader, acquires the diffuse texture and asks
// the renderer for instance resources; its outcome is the `loadOk` flag.
module MaterialSystem {
  import opened Wrappers
  import opened Registry
  import KString

  const DEFAULT_MATERIAL_NAME: string := "default"

  /** What acquire hands out: the built-in default material or a registered slot. */
  datatype Handle = DefaultMaterial | Registered(slot: nat)

  /**
   * The fresh-load step of material_system_acquire_from_config, for id and
   * generation: a failed load leaves the slot as it was, a successful one
   * counts the generation on from the slot's own and sets id = handle.
   */
  function FreshLoad(s: Slot, handle: nat, loadOk: bool): (r: Slot)
    requires IsU32(s.generation)
    ensures !loadOk ==> r == s
    ensures loadOk ==> r.id == handle && r.generation != s.generation
    ensures loadOk && s == FREE ==> r.generation == 0
  {
    if loadOk then Slot(handle, ReloadGeneration(s.generation)) else s
  }

  // ------------------------------------------------------------ as written

  /**
   * The same step as written: load_material starts with kzero_memory on the
   * slot, so the generation test afterwards sees 0 instead of the slot's
   * generation, and a failed load returns with the slot zeroed.
   */
  function FreshLoadAsWritten(s: Slot, handle: nat, loadOk: bool): Slot {
    var zeroed := Slot(0, 0);
    if loadOk then Slot(handle, ReloadGeneration(zeroed.generation)) else zeroed
  }

  /** Every material loaded as written starts at generation 1, where the texture registry starts at 0. */
  lemma FreshGenerationIsOne(s: Slot, handle: nat)
    requires s == FREE
    ensures FreshLoadAsWritten(s, handle, true).generation == 1
    ensures FreshLoad(s, handle, true).generation == 0
  {
  }

  /**
   * In a registry of one slot, a failed load as written leaves the slot with
   * id 0: it is no longer free, nothing refers to it, and every later
   * acquire of a new name finds no slot.
   */
  lemma FailedLoadLeaksSlot()
    ensures FirstInvalid(Ids([FREE])) == Some(0)
    ensures FirstInvalid(Ids([FreshLoadAsWritten(FREE, 0, false)])) == None
    ensures FirstInvalid(Ids([FreshLoad(FREE, 0, false)])) == Some(0)
  {
    assert Ids([FREE]) == [INVALID_ID];
    assert Ids([FreshLoadAsWritten(FREE, 0, false)]) == [0];
  }

  class System {
    /** Whether state_ptr is set. */
    var initialized: bool
    /** registered_materials. */
    var materials: seq<Slot>
    /** registered_material_table, read through Lookup. */
    var table: map<string, Ref>

    ghost predicate Valid()
      reads this
    {
      Registry.Valid(materials, table)
    }

    /** The system before material_system_initialize. */
    constructor ()
      ensures Valid() && !initialized && materials == [] && table == map[]
    {
      initialized := false;
      materials := [];
      table := map[];
    }

    /**
     * material_system_initialize: refuses a count of 0 and changes nothing.
     * Otherwise the state is set up (every slot free, every name invalid)
     * before the default material is created, so a failure to create it
     * returns false with the state already in place.
     */
    method Initialize(maxCount: nat, defaultOk: bool) returns (ok: bool)
      requires Valid() && IsU32(maxCount)
      modifies this
      ensures Valid()
      ensures ok <==> maxCount > 0 && defaultOk
      ensures maxCount == 0 ==> initialized == old(initialized) && materials == old(materials) && table == old(table)
      ensures maxCount > 0 ==> initialized && materials == seq(maxCount, _ => FREE) && table == map[]
      ensures maxCount > 0 ==> forall n :: Lookup(table, n) == INVALID_REF
    {
      if maxCount == 0 {
        return false;
      }
      EmptyValid(maxCount);
      initialized := true;
      materials := seq(maxCount, _ => FREE);
      table := map[];
      return defaultOk;
    }

    /**
     * material_system_acquire_from_config, for the name and auto_release of
     * the config: None before initialisation; the default name gets the
     * default material and changes nothing. A name that already has a slot
     * gets it back with one more reference; a new name takes the lowest free
     * slot and loads into it. When no slot is free or the load fails nothing
     * is written.
     */
    method Acquire(name: string, autoRelease: bool, loadOk: bool) returns (r: Option<Handle>)
      requires Valid()
      modifies this
      ensures Valid() && initialized == old(initialized)
      ensures var ref := Lookup(old(table), name);
        if !old(initialized) then r == None && materials == old(materials) && table == old(table)
        else if KString.StringsEqualI(name, DEFAULT_MATERIAL_NAME) then
          r == Some(DefaultMaterial) && materials == old(materials) && table == old(table)
        else if ref.handle != INVALID_ID then
          r == Some(Registered(ref.handle)) && materials == old(materials)
          && table == old(table)[name := Acquired(ref, autoRelease)]
        else match FirstInvalid(Ids(old(materials)))
          case None => r == None && materials == old(materials) && table == old(table)
          case Some(slot) =>
            if !loadOk then r == None && materials == old(materials) && table == old(table)
            else (r == Some(Registered(slot)) && materials == old(materials)[slot := Slot(slot, 0)]
              && table == old(table)[name := Acquired(ref, autoRelease).(handle := slot)])
      ensures r.Some? && r.value.Registered? ==>
        r.value.slot < |materials| && materials[r.value.slot].id == r.value.slot
        && Lookup(table, name) == Acquired(Lookup(old(table), name), autoRelease).(handle := r.value.slot)
    {
      if !initialized {
        return None;
      }
      if KString.StringsEqualI(name, DEFAULT_MATERIAL_NAME) {
        return Some(DefaultMaterial);
      }
      var ref := Lookup(table, name);
      var updated := Acquired(ref, autoRelease);
      if ref.handle == INVALID_ID {
        var slot := FindFirstInvalid(Ids(materials));
        if slot.None? {
          return None;
        }
        AcquireFreshValid(materials, table, name, autoRelease, slot.value);
        var loaded := FreshLoad(materials[slot.value], slot.value, loadOk);
        if !loadOk {
          return None;
        }
        materials := materials[slot.value := loaded];
        updated := updated.(handle := slot.value);
      } else {
        AcquireExistingValid(materials, table, name, autoRelease);
      }
      table := table[name := updated];
      r := Some(Registered(updated.handle));
    }

    /**
     * material_system_release: nothing happens for the default name, before
     * initialisation or for a name nobody holds. Otherwise one reference
     * goes; the last one of an auto-release material destroys it (the slot
     * is free again) and resets the name's reference.
     */
    method Release(name: string)
      requires Valid()
      modifies this
      ensures Valid() && initialized == old(initialized)
      ensures var ref := Lookup(old(table), name);
        if KString.StringsEqualI(name, DEFAULT_MATERIAL_NAME) || !old(initialized) || ref.count == 0 then
          materials == old(materials) && table == old(table)
        else
          table == old(table)[name := Released(ref)]
          && materials == if Destroys(ref) then old(materials)[ref.handle := FREE] else old(materials)
    {
      if KString.StringsEqualI(name, DEFAULT_MATERIAL_NAME) || !initialized {
        return;
      }
      var ref := Lookup(table, name);
      if ref.count == 0 {
        return;
      }
      ReleaseValid(materials, table, name);
      if Destroys(ref) {
        materials := materials[ref.handle := FREE];
      }
      table := table[name := Released(ref)];
    }

    /** material_system_shutdown: the state is detached; later calls see an uninitialised system. */
    method Shutdown()
      modifies this
      ensures Valid() && !initialized && materials == [] && table == map[]
    {
      initialized := false;
      materials := [];
      table := map[];
    }
  }
}
