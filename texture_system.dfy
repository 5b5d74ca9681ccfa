// The texture registry (engine/src/systems/texture_system.c): reference
// counting by name, lowest-free-slot assignment and the generation counter.
//
// Loading a texture reads an image through the resource system and uploads
// it through the renderer; both become the `loadOk` flag of Acquire.
module TextureSystem {
  import opened Wrappers
  import opened Registry
  import KString

  /** The name of the built-in texture; its definition is not part of this model, "default" is assumed. */
  const DEFAULT_TEXTURE_NAME: string := "default"

  class System {
    /** Whether state_ptr is set. */
    var initialized: bool
    /** registered_textures. */
    var textures: seq<Slot>
    /** registered_texture_table, read through Lookup. */
    var table: map<string, Ref>

    ghost predicate Valid()
      reads this
    {
      Registry.Valid(textures, table)
    }

    /** The system before texture_system_initialize. */
    constructor ()
      ensures Valid() && !initialized && textures == [] && table == map[]
    {
      initialized := false;
      textures := [];
      table := map[];
    }

    /**
     * texture_system_initialize: refuses a count of 0; otherwise every slot
     * is free and every name reads as the invalid reference.
     */
    method Initialize(maxCount: nat) returns (ok: bool)
      requires Valid() && IsU32(maxCount)
      modifies this
      ensures Valid()
      ensures ok <==> maxCount > 0
      ensures !ok ==> initialized == old(initialized) && textures == old(textures) && table == old(table)
      ensures ok ==> initialized && textures == seq(maxCount, _ => FREE) && table == map[]
      ensures ok ==> forall n :: Lookup(table, n) == INVALID_REF
      ensures ok ==> FirstInvalid(Ids(textures)) == Some(0)
    {
      if maxCount == 0 {
        return false;
      }
      EmptyValid(maxCount);
      initialized := true;
      textures := seq(maxCount, _ => FREE);
      table := map[];
      return true;
    }

    /**
     * texture_system_acquire: None before initialisation. A name that
     * already has a slot gets that slot back and one more reference. A name
     * without one takes the lowest free slot, loads into it (generation 0,
     * id = slot) and records the slot; when no slot is free or the load
     * fails nothing is written. The default name only draws a warning.
     */
    method Acquire(name: string, autoRelease: bool, loadOk: bool) returns (r: Option<nat>)
      requires Valid()
      modifies this
      ensures Valid() && initialized == old(initialized)
      ensures var ref := Lookup(old(table), name);
        if !old(initialized) then r == None && textures == old(textures) && table == old(table)
        else if ref.handle != INVALID_ID then
          r == Some(ref.handle) && textures == old(textures)
          && table == old(table)[name := Acquired(ref, autoRelease)]
        else match FirstInvalid(Ids(old(textures)))
          case None => r == None && textures == old(textures) && table == old(table)
          case Some(slot) =>
            if !loadOk then r == None && textures == old(textures) && table == old(table)
            else (r == Some(slot) && textures == old(textures)[slot := Slot(slot, 0)]
              && table == old(table)[name := Acquired(ref, autoRelease).(handle := slot)])
      ensures r.Some? ==> r.value < |textures| && textures[r.value].id == r.value
      ensures r.Some? ==> Lookup(table, name).handle == r.value
      ensures r.Some? ==> Lookup(table, name).count == Lookup(old(table), name).count + 1
    {
      if !initialized {
        return None;
      }
      var ref := Lookup(table, name);
      var updated := Acquired(ref, autoRelease);
      if ref.handle == INVALID_ID {
        var slot := FindFirstInvalid(Ids(textures));
        if slot.None? || !loadOk {
          return None;
        }
        AcquireFreshValid(textures, table, name, autoRelease, slot.value);
        var generation := ReloadGeneration(textures[slot.value].generation);
        textures := textures[slot.value := Slot(slot.value, generation)];
        updated := updated.(handle := slot.value);
      } else {
        AcquireExistingValid(textures, table, name, autoRelease);
      }
      table := table[name := updated];
      r := Some(updated.handle);
    }

    /**
     * texture_system_release: nothing happens for the default name, before
     * initialisation or for a name nobody holds. Otherwise one reference
     * goes; when that was the last one of an auto-release texture the slot
     * is freed and the name reads as the invalid reference again.
     */
    method Release(name: string)
      requires Valid()
      modifies this
      ensures Valid() && initialized == old(initialized)
      ensures var ref := Lookup(old(table), name);
        if KString.StringsEqualI(name, DEFAULT_TEXTURE_NAME) || !old(initialized) || ref.count == 0 then
          textures == old(textures) && table == old(table)
        else
          table == old(table)[name := Released(ref)]
          && textures == if Destroys(ref) then old(textures)[ref.handle := FREE] else old(textures)
    {
      if KString.StringsEqualI(name, DEFAULT_TEXTURE_NAME) || !initialized {
        return;
      }
      var ref := Lookup(table, name);
      if ref.count == 0 {
        return;
      }
      ReleaseValid(textures, table, name);
      if Destroys(ref) {
        textures := textures[ref.handle := FREE];
      }
      table := table[name := Released(ref)];
    }

    /** texture_system_shutdown: the state is detached; later calls see an uninitialised system. */
    method Shutdown()
      modifies this
      ensures Valid() && !initialized && textures == [] && table == map[]
    {
      initialized := false;
      textures := [];
      table := map[];
    }
  }
}
