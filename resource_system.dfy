// The resource loader registry (engine/src/systems/resource_system.c): a
// fixed array of loader slots, registration that refuses a second loader
// for a type, and dispatch of a load to the loader of the requested type
// (or, for custom resources, of the requested custom type name).
//
// A loader's load and unload callbacks are outside this model: whether the
// callback is present is a flag of the loader, and what a load returns is
// the `loadOk` parameter.
module ResourceSystem {
  import opened Wrappers
  import Registry
  import KString

  /** RESOURCE_TYPE_CUSTOM; the enumeration is not part of this model, 5 is assumed (any value other than INVALID_ID will do). */
  const RESOURCE_TYPE_CUSTOM: nat := 5

  /**
   * A resource_loader: its slot id, its resource type, the custom type name
   * (None for a null pointer) and whether its load and unload callbacks are
   * set.
   */
  datatype Loader = Loader(id: nat, loaderType: nat, customType: Option<string>, hasLoad: bool, hasUnload: bool)

  /** A slot as resource_system_initialize leaves it: id and type INVALID_ID. */
  const FREE_LOADER: Loader := Loader(INVALID_ID, INVALID_ID, None, false, false)

  /** The slot ids, the field the free-slot search reads. */
  function LoaderIds(ls: seq<Loader>): (ids: seq<nat>)
    ensures |ids| == |ls| && forall i :: 0 <= i < |ls| ==> ids[i] == ls[i].id
  {
    seq(|ls|, i requires 0 <= i < |ls| => ls[i].id)
  }

  /**
   * The registry invariant: every slot is free or holds a loader of a real
   * type under its own index as id, and no two registered loaders share a
   * type.
   */
  ghost predicate LoadersValid(ls: seq<Loader>) {
    |ls| <= INVALID_ID
    && (forall i :: 0 <= i < |ls| ==> ls[i] == FREE_LOADER || (ls[i].id == i && ls[i].loaderType != INVALID_ID))
    && (forall i, j :: (0 <= i < j < |ls| && ls[i].id != INVALID_ID && ls[j].id != INVALID_ID)
          ==> ls[i].loaderType != ls[j].loaderType)
  }

  // ------------------------------------------------------------ register

  /**
   * Whether registering `loader` is refused because of slot l: the same
   * type, or a non-empty custom type equal to l's regardless of case.
   */
  predicate Clashes(loader: Loader, l: Loader) {
    loader.loaderType == l.loaderType
    || (loader.customType.Some? && |loader.customType.value| > 0
        && l.customType.Some? && KString.StringsEqualI(loader.customType.value, l.customType.value))
  }

  /**
   * resource_system_register_loader as intended: refused on a clash with
   * any slot; otherwise the loader goes to the lowest free slot with id =
   * that index, and a full array refuses it.
   */
  function RegisterResult(ls: seq<Loader>, loader: Loader): (bool, seq<Loader>) {
    if exists j :: 0 <= j < |ls| && Clashes(loader, ls[j]) then (false, ls)
    else match Registry.FirstInvalid(LoaderIds(ls))
      case None => (false, ls)
      case Some(i) => (true, ls[i := loader.(id := i)])
  }

  /**
   * Registering keeps the invariant. A refused loader changes nothing; an
   * accepted one had no clash, took a free slot with no free slot before
   * it, and changed that slot alone.
   */
  lemma RegisterKeepsValid(ls: seq<Loader>, loader: Loader)
    requires LoadersValid(ls)
    ensures var (ok, next) := RegisterResult(ls, loader);
      LoadersValid(next) && |next| == |ls|
      && (!ok ==> next == ls)
      && (ok <==> (forall j :: 0 <= j < |ls| ==> !Clashes(loader, ls[j])) && exists i :: 0 <= i < |ls| && ls[i] == FREE_LOADER)
      && (ok ==> exists i :: (0 <= i < |ls| && ls[i] == FREE_LOADER && next == ls[i := loader.(id := i)]
            && forall j :: 0 <= j < i ==> ls[j] != FREE_LOADER))
  {
    var ids := LoaderIds(ls);
    if forall j :: 0 <= j < |ls| ==> !Clashes(loader, ls[j]) {
      match Registry.FirstInvalid(ids)
      case None =>
        forall i | 0 <= i < |ls| ensures ls[i] != FREE_LOADER {
          assert ids[i] != INVALID_ID;
        }
      case Some(i) =>
        assert ids[i] == INVALID_ID;
        assert ls[i] == FREE_LOADER;
        assert !Clashes(loader, ls[i]);
        forall j | 0 <= j < i ensures ls[j] != FREE_LOADER {
          assert ids[j] != INVALID_ID;
        }
    }
  }

  /** Registering the built-in loaders one after the other, in order. */
  function RegisterAll(ls: seq<Loader>, loaders: seq<Loader>): seq<Loader> {
    if loaders == [] then ls
    else RegisterResult(RegisterAll(ls, loaders[..|loaders| - 1]), loaders[|loaders| - 1]).1
  }

  /** Registering a whole list keeps the invariant and the number of slots. */
  lemma {:induction false} RegisterAllKeepsValid(ls: seq<Loader>, loaders: seq<Loader>)
    requires LoadersValid(ls)
    ensures LoadersValid(RegisterAll(ls, loaders)) && |RegisterAll(ls, loaders)| == |ls|
  {
    if loaders != [] {
      RegisterAllKeepsValid(ls, loaders[..|loaders| - 1]);
      RegisterKeepsValid(RegisterAll(ls, loaders[..|loaders| - 1]), loaders[|loaders| - 1]);
    }
  }

  // ------------------------------------------------------------ as written

  /**
   * The result of resource_system_register_loader as written: after the
   * clash test it returns true whether or not the slot loop found a free
   * slot.
   */
  function RegisterOkAsWritten(ls: seq<Loader>, loader: Loader): bool {
    !exists j :: 0 <= j < |ls| && Clashes(loader, ls[j])
  }

  /**
   * With the only slot taken by the text loader (type 0), registering the
   * binary loader (type 1) reports success as written although it was not
   * stored; the intended result is false.
   */
  lemma RegisterFullReportsSuccess()
    ensures var ls := [Loader(0, 0, None, true, true)];
      var binary := Loader(INVALID_ID, 1, None, true, true);
      RegisterOkAsWritten(ls, binary) && RegisterResult(ls, binary) == (false, ls)
  {
    var ls := [Loader(0, 0, None, true, true)];
    var binary := Loader(INVALID_ID, 1, None, true, true);
    assert !Clashes(binary, ls[0]);
    assert LoaderIds(ls) == [0];
  }

  /**
   * The type test comes first and covers the custom type too: once one
   * custom loader is registered, a second one is refused whatever its
   * custom type name.
   */
  lemma OneCustomLoader(ls: seq<Loader>, i: nat, loader: Loader)
    requires i < |ls| && ls[i].loaderType == RESOURCE_TYPE_CUSTOM && loader.loaderType == RESOURCE_TYPE_CUSTOM
    ensures RegisterResult(ls, loader) == (false, ls)
  {
    assert Clashes(loader, ls[i]);
  }

  // ------------------------------------------------------------ load

  /** What a load looks for: a loader of a resource type, or a custom loader by name. */
  datatype Query = ByType(resourceType: nat) | ByCustom(name: string)

  /**
   * Whether slot l answers the query: a slot whose type is the requested
   * one (free slots, of type INVALID_ID, are skipped), or a custom slot
   * whose custom type equals the name regardless of case (a slot with a
   * null custom type does not match).
   */
  predicate Matches(l: Loader, q: Query) {
    match q
    case ByType(t) => l.loaderType != INVALID_ID && l.loaderType == t
    case ByCustom(name) =>
      l.loaderType == RESOURCE_TYPE_CUSTOM && l.customType.Some? && KString.StringsEqualI(name, l.customType.value)
  }

  /** The lowest slot answering the query, if any. */
  function FirstMatch(ls: seq<Loader>, q: Query): (r: Option<nat>)
    ensures r.None? <==> forall j :: 0 <= j < |ls| ==> !Matches(ls[j], q)
    ensures r.Some? ==> r.value < |ls| && Matches(ls[r.value], q)
    ensures r.Some? ==> forall j :: 0 <= j < r.value ==> !Matches(ls[j], q)
  {
    if ls == [] then None
    else if Matches(ls[0], q) then Some(0)
    else match FirstMatch(ls[1..], q)
      case None => None
      case Some(k) => Some(k + 1)
  }

  /** A matching slot with no match before it is the one FirstMatch finds. */
  lemma FirstMatchUnique(ls: seq<Loader>, q: Query, i: nat)
    requires i < |ls| && Matches(ls[i], q)
    requires forall j :: 0 <= j < i ==> !Matches(ls[j], q)
    ensures FirstMatch(ls, q) == Some(i)
  {
    var r := FirstMatch(ls, q);
    assert r.Some?;
  }

  /**
   * The outcome of a load for the caller: its result, and what was written
   * to out_resource->loader_id (None when nothing was written).
   */
  datatype Outcome = Outcome(ok: bool, loaderId: Option<nat>)

  /**
   * The search and the load helper: no matching slot, a null name or a
   * loader without a load callback write INVALID_ID and fail; otherwise the
   * loader's id is written and the callback's result returned.
   */
  function LoadOutcome(ls: seq<Loader>, q: Query, name: Option<string>, loadOk: bool): Outcome {
    match FirstMatch(ls, q)
    case None => Outcome(false, Some(INVALID_ID))
    case Some(i) =>
      if name.None? || !ls[i].hasLoad then Outcome(false, Some(INVALID_ID))
      else Outcome(loadOk, Some(ls[i].id))
  }

  /**
   * A load always writes the loader id. A written id other than INVALID_ID
   * is the index of a loader that answers the query and has a load
   * callback; for a resource type it is the only loader of that type. A
   * load succeeds only with a name, a matching loader and a successful
   * callback.
   */
  lemma LoadOutcomeSound(ls: seq<Loader>, q: Query, name: Option<string>, loadOk: bool)
    requires LoadersValid(ls)
    ensures var o := LoadOutcome(ls, q, name, loadOk);
      o.loaderId.Some?
      && (o.ok ==> loadOk && name.Some? && o.loaderId.value != INVALID_ID)
      && (o.loaderId.value != INVALID_ID ==>
            o.loaderId.value < |ls| && Matches(ls[o.loaderId.value], q) && ls[o.loaderId.value].hasLoad
            && FirstMatch(ls, q) == Some(o.loaderId.value))
      && (o.loaderId.value != INVALID_ID && q.ByType? ==>
            forall j :: 0 <= j < |ls| && Matches(ls[j], q) ==> j == o.loaderId.value)
  {
    match FirstMatch(ls, q)
    case None =>
    case Some(i) =>
      assert ls[i] != FREE_LOADER;
      assert ls[i].id == i;
      if q.ByType? {
        forall j | 0 <= j < |ls| && Matches(ls[j], q) ensures j == i {
          assert ls[j] != FREE_LOADER;
        }
      }
  }

  /** A registered loader is found by a load of its type. */
  lemma RegisteredIsFound(ls: seq<Loader>, loader: Loader)
    requires LoadersValid(ls) && RegisterResult(ls, loader).0
    ensures var next := RegisterResult(ls, loader).1;
      FirstMatch(next, ByType(loader.loaderType)).Some?
      && next[FirstMatch(next, ByType(loader.loaderType)).value] == loader.(id := FirstMatch(next, ByType(loader.loaderType)).value)
  {
    RegisterKeepsValid(ls, loader);
    var next := RegisterResult(ls, loader).1;
    var i :| 0 <= i < |ls| && ls[i] == FREE_LOADER && next == ls[i := loader.(id := i)];
    assert !Clashes(loader, ls[i]);
    forall j | 0 <= j < i ensures !Matches(next[j], ByType(loader.loaderType)) {
      assert !Clashes(loader, ls[j]);
    }
    FirstMatchUnique(next, ByType(loader.loaderType), i);
  }

  // ------------------------------------------------------------ unload

  /**
   * The slot whose unload callback resource_system_unload calls, given the
   * resource's loader_id (None for a null resource): none for INVALID_ID,
   * for a free slot or for a loader without an unload callback.
   */
  function UnloadTarget(ls: seq<Loader>, resource: Option<nat>): (r: Option<nat>)
    requires resource.Some? && resource.value != INVALID_ID ==> resource.value < |ls|
    ensures r.Some? ==> resource == Some(r.value) && r.value < |ls| && ls[r.value].hasUnload
    ensures resource.None? || resource == Some(INVALID_ID) ==> r.None?
  {
    if resource.None? || resource.value == INVALID_ID then None
    else if ls[resource.value].id == INVALID_ID || !ls[resource.value].hasUnload then None
    else Some(resource.value)
  }

  /** A resource loaded successfully is unloaded by the loader that loaded it, when that loader has an unload callback. */
  lemma LoadThenUnload(ls: seq<Loader>, q: Query, name: Option<string>, loadOk: bool)
    requires LoadersValid(ls)
    requires LoadOutcome(ls, q, name, loadOk).ok
    ensures var o := LoadOutcome(ls, q, name, loadOk);
      o.loaderId.value < |ls|
      && UnloadTarget(ls, o.loaderId) == (if ls[o.loaderId.value].hasUnload then FirstMatch(ls, q) else None)
  {
    LoadOutcomeSound(ls, q, name, loadOk);
  }

  // ------------------------------------------------------- null custom types

  /**
   * The clash test of one slot as written. strings_equali calls strcasecmp
   * on l's custom type even when that pointer is null; None stands for that
   * dereference. Everywhere else it agrees with Clashes.
   */
  function ClashesAsWritten(loader: Loader, l: Loader): (r: Option<bool>)
    ensures r.None? <==> (loader.loaderType != l.loaderType && loader.customType.Some?
      && |loader.customType.value| > 0 && l.customType.None?)
    ensures r.Some? ==> r.value == Clashes(loader, l)
  {
    if loader.loaderType == l.loaderType then Some(true)
    else if loader.customType.Some? && |loader.customType.value| > 0 then
      (if l.customType.None? then None else Some(KString.StringsEqualI(loader.customType.value, l.customType.value)))
    else Some(false)
  }

  /**
   * The clash loop of resource_system_register_loader as written: slots in
   * order, the first clash or null dereference decides. When it gets
   * through, it decides as the corrected test does.
   */
  function ClashScanAsWritten(ls: seq<Loader>, loader: Loader): (r: Option<bool>)
    ensures r.Some? ==> (r.value <==> exists j :: 0 <= j < |ls| && Clashes(loader, ls[j]))
    ensures r.None? ==> exists i :: 0 <= i < |ls| && ClashesAsWritten(loader, ls[i]).None?
  {
    if ls == [] then Some(false)
    else match ClashesAsWritten(loader, ls[0])
      case None => None
      case Some(true) => Some(true)
      case Some(false) =>
        var rest := ClashScanAsWritten(ls[1..], loader);
        assert forall j :: 1 <= j < |ls| ==> ls[j] == ls[1..][j - 1];
        rest
  }

  /**
   * The built-in loaders have a null custom type. With the first of them
   * registered in slot 0, registering a custom loader with a non-empty
   * name reaches strcasecmp on that null pointer in the clash loop; the
   * corrected registration accepts the loader when a second slot is free.
   */
  lemma RegisterCustomReadsNull(n: nat, builtin: Loader, custom: Loader)
    requires 0 < n <= INVALID_ID
    requires builtin.loaderType != INVALID_ID && builtin.loaderType != RESOURCE_TYPE_CUSTOM && builtin.customType.None?
    requires custom.loaderType == RESOURCE_TYPE_CUSTOM && custom.customType.Some? && |custom.customType.value| > 0
    ensures var ls := RegisterAll(seq(n, _ => FREE_LOADER), [builtin]);
      |ls| == n && ls[0] == builtin.(id := 0)
      && ClashScanAsWritten(ls, custom).None?
      && (n > 1 ==> RegisterResult(ls, custom).0)
  {
    var free := seq(n, _ => FREE_LOADER);
    assert [builtin][..0] == [];
    assert forall j :: 0 <= j < n ==> !Clashes(builtin, free[j]);
    assert LoaderIds(free)[0] == INVALID_ID;
    assert Registry.FirstInvalid(LoaderIds(free)) == Some(0);
    var ls := RegisterAll(free, [builtin]);
    assert RegisterAll(free, [builtin][..0]) == free;
    assert ls == free[0 := builtin.(id := 0)];
    assert ClashesAsWritten(custom, ls[0]).None?;
    if n > 1 {
      assert !Clashes(custom, ls[0]);
      assert forall j :: 1 <= j < n ==> ls[j] == FREE_LOADER;
      assert LoaderIds(ls)[1] == INVALID_ID;
    }
  }

  /**
   * The match test of load_custom as written: strings_equali runs on a
   * custom slot's type name even when it is null; None stands for that
   * dereference. Everywhere else it agrees with Matches.
   */
  function MatchesAsWritten(l: Loader, q: Query): (r: Option<bool>)
    ensures r.None? <==> (q.ByCustom? && l.loaderType == RESOURCE_TYPE_CUSTOM && l.customType.None?)
    ensures r.Some? ==> r.value == Matches(l, q)
  {
    match q
    case ByType(t) => Some(l.loaderType != INVALID_ID && l.loaderType == t)
    case ByCustom(name) =>
      if l.loaderType != RESOURCE_TYPE_CUSTOM then Some(false)
      else if l.customType.None? then None
      else Some(KString.StringsEqualI(name, l.customType.value))
  }

  /**
   * The search loop as written: the first match or null dereference
   * decides. When it gets through, it finds what FirstMatch finds.
   */
  function MatchScanAsWritten(ls: seq<Loader>, q: Query): (r: Option<Option<nat>>)
    ensures r.Some? ==> r.value == FirstMatch(ls, q)
    ensures r.None? ==> exists i :: 0 <= i < |ls| && MatchesAsWritten(ls[i], q).None?
  {
    if ls == [] then Some(None)
    else match MatchesAsWritten(ls[0], q)
      case None => None
      case Some(true) => Some(Some(0))
      case Some(false) =>
        match MatchScanAsWritten(ls[1..], q)
        case None => assert forall j :: 1 <= j < |ls| ==> ls[j] == ls[1..][j - 1]; None
        case Some(None) => Some(None)
        case Some(Some(k)) => Some(Some(k + 1))
  }

  /**
   * Registration accepts a custom loader whose custom type is null (the
   * name test needs a non-empty name). A later load_custom reaches
   * strcasecmp on that null pointer; the corrected search finds no loader.
   */
  lemma LoadCustomReadsNull(n: nat, custom: Loader, name: string)
    requires 0 < n <= INVALID_ID
    requires custom.loaderType == RESOURCE_TYPE_CUSTOM && custom.customType.None?
    ensures var ls := RegisterAll(seq(n, _ => FREE_LOADER), [custom]);
      |ls| == n && ls[0] == custom.(id := 0)
      && MatchScanAsWritten(ls, ByCustom(name)).None?
      && FirstMatch(ls, ByCustom(name)).None?
  {
    var free := seq(n, _ => FREE_LOADER);
    assert [custom][..0] == [];
    assert forall j :: 0 <= j < n ==> !Clashes(custom, free[j]);
    assert LoaderIds(free)[0] == INVALID_ID;
    assert Registry.FirstInvalid(LoaderIds(free)) == Some(0);
    var ls := RegisterAll(free, [custom]);
    assert RegisterAll(free, [custom][..0]) == free;
    assert ls == free[0 := custom.(id := 0)];
    assert forall j :: 0 <= j < n ==> !Matches(ls[j], ByCustom(name));
  }

  // ------------------------------------------------------------ the system

  class System {
    /** Whether state_ptr is set. */
    var initialized: bool
    /** registered_loaders. */
    var loaders: seq<Loader>

    ghost predicate Valid()
      reads this
    {
      LoadersValid(loaders)
    }

    /** The system before resource_system_initialize. */
    constructor ()
      ensures Valid() && !initialized && loaders == []
    {
      initialized := false;
      loaders := [];
    }

    /**
     * resource_system_initialize, given the state block: refuses a count of
     * 0 and changes nothing. Otherwise every slot is free and the built-in
     * loaders are registered in order; refused registrations are ignored.
     */
    method Initialize(maxLoaderCount: nat, builtins: seq<Loader>) returns (ok: bool)
      requires Valid() && IsU32(maxLoaderCount)
      modifies this
      ensures Valid()
      ensures ok <==> maxLoaderCount > 0
      ensures !ok ==> initialized == old(initialized) && loaders == old(loaders)
      ensures ok ==> initialized && loaders == RegisterAll(seq(maxLoaderCount, _ => FREE_LOADER), builtins)
    {
      if maxLoaderCount == 0 {
        return false;
      }
      initialized := true;
      loaders := seq(maxLoaderCount, _ => FREE_LOADER);
      ghost var empty := loaders;
      for k := 0 to |builtins|
        invariant Valid() && initialized
        invariant loaders == RegisterAll(empty, builtins[..k])
      {
        var _ := Register(builtins[k]);
        assert builtins[..k + 1][..k] == builtins[..k];
      }
      assert builtins[..|builtins|] == builtins;
      return true;
    }

    /** resource_system_shutdown: the state is detached. */
    method Shutdown()
      modifies this
      ensures Valid() && !initialized && loaders == []
    {
      initialized := false;
      loaders := [];
    }

    /**
     * resource_system_register_loader, with a full array refused: false
     * before initialisation, otherwise as RegisterResult (see
     * RegisterKeepsValid and, for the code as written, RegisterOkAsWritten).
     */
    method Register(loader: Loader) returns (ok: bool)
      requires Valid()
      modifies this
      ensures Valid() && initialized == old(initialized)
      ensures if old(initialized) then (ok, loaders) == RegisterResult(old(loaders), loader)
        else !ok && loaders == old(loaders)
    {
      if !initialized {
        return false;
      }
      RegisterKeepsValid(loaders, loader);
      var i := 0;
      while i < |loaders|
        invariant i <= |loaders|
        invariant forall j :: 0 <= j < i ==> !Clashes(loader, loaders[j])
      {
        if Clashes(loader, loaders[i]) {
          return false;
        }
        i := i + 1;
      }
      var slot := Registry.FindFirstInvalid(LoaderIds(loaders));
      if slot.None? {
        return false;
      }
      loaders := loaders[slot.value := loader.(id := slot.value)];
      return true;
    }

    /** The search loop of load and load_custom: scan upward, stop at the first slot that answers. */
    method FindLoader(q: Query) returns (r: Option<nat>)
      ensures r == FirstMatch(loaders, q)
    {
      var i := 0;
      while i < |loaders|
        invariant i <= |loaders|
        invariant forall j :: 0 <= j < i ==> !Matches(loaders[j], q)
      {
        if Matches(loaders[i], q) {
          FirstMatchUnique(loaders, q, i);
          return Some(i);
        }
        i := i + 1;
      }
      return None;
    }

    /** The load helper: writes the loader's id and calls its load callback, or writes INVALID_ID. */
    method Dispatch(i: nat, name: Option<string>, loadOk: bool) returns (o: Outcome)
      requires i < |loaders|
      ensures o == (if name.None? || !loaders[i].hasLoad then Outcome(false, Some(INVALID_ID))
        else Outcome(loadOk, Some(loaders[i].id)))
    {
      var l := loaders[i];
      if name.None? || !l.hasLoad {
        return Outcome(false, Some(INVALID_ID));
      }
      return Outcome(loadOk, Some(l.id));
    }

    /**
     * resource_system_load: fails without writing before initialisation and
     * for RESOURCE_TYPE_CUSTOM; otherwise dispatches to the loader of the
     * type (see LoadOutcomeSound).
     */
    method Load(name: Option<string>, resourceType: nat, loadOk: bool) returns (o: Outcome)
      ensures !initialized || resourceType == RESOURCE_TYPE_CUSTOM ==> o == Outcome(false, None)
      ensures initialized && resourceType != RESOURCE_TYPE_CUSTOM ==>
        o == LoadOutcome(loaders, ByType(resourceType), name, loadOk)
    {
      if !initialized || resourceType == RESOURCE_TYPE_CUSTOM {
        return Outcome(false, None);
      }
      var found := FindLoader(ByType(resourceType));
      if found.None? {
        return Outcome(false, Some(INVALID_ID));
      }
      o := Dispatch(found.value, name, loadOk);
    }

    /**
     * resource_system_load_custom: fails without writing before
     * initialisation and for a null custom type; otherwise dispatches to the
     * custom loader of that name.
     */
    method LoadCustom(name: Option<string>, customType: Option<string>, loadOk: bool) returns (o: Outcome)
      ensures !initialized || customType.None? ==> o == Outcome(false, None)
      ensures initialized && customType.Some? ==> o == LoadOutcome(loaders, ByCustom(customType.value), name, loadOk)
    {
      if !initialized || customType.None? {
        return Outcome(false, None);
      }
      var found := FindLoader(ByCustom(customType.value));
      if found.None? {
        return Outcome(false, Some(INVALID_ID));
      }
      o := Dispatch(found.value, name, loadOk);
    }

    /**
     * resource_system_unload: the slot whose unload callback is called;
     * nothing before initialisation, for a null resource or one whose
     * loader_id is INVALID_ID.
     */
    method Unload(resource: Option<nat>) returns (r: Option<nat>)
      requires resource.Some? && resource.value != INVALID_ID ==> resource.value < |loaders|
      ensures r == if initialized then UnloadTarget(loaders, resource) else None
    {
      if !initialized || resource.None? || resource.value == INVALID_ID {
        return None;
      }
      var l := loaders[resource.value];
      if l.id == INVALID_ID || !l.hasUnload {
        return None;
      }
      return Some(resource.value);
    }
  }
}
