// Shader bookkeeping (engine/src/systems/shader_system.c): the shader id
// table of the system, and each shader's attribute stride and uniform
// layout (uniform buffer offsets per scope, push-constant ranges, texture
// counts).
//
// Renderer calls (create, use, bind, initialise) become success flags.
module ShaderSystem {
  import opened Wrappers
  import Registry

  const INVALID_ID_U8: nat := 0xFF

  datatype ShaderState = NotCreated | Uninitialized | Initialized

  datatype Scope = Global | Instance | Local

  datatype AttributeType =
    | Float32 | Float32_2 | Float32_3 | Float32_4 | Matrix4
    | Int8 | Int8_2 | Int8_3 | Int8_4 | UInt8 | UInt8_2 | UInt8_3 | UInt8_4
    | Int16 | Int16_2 | Int16_3 | Int16_4 | UInt16 | UInt16_2 | UInt16_3 | UInt16_4
    | Int32 | Int32_2 | Int32_3 | Int32_4 | UInt32 | UInt32_2 | UInt32_3 | UInt32_4

  datatype UniformType =
    | UniformFloat32 | UniformFloat32_2 | UniformFloat32_3 | UniformFloat32_4
    | UniformInt8 | UniformUInt8 | UniformInt16 | UniformUInt16
    | UniformInt32 | UniformUInt32 | UniformMatrix4 | UniformSampler | UniformCustom

  /** The system's limits (shader_system_config). */
  datatype Limits = Limits(maxShaderCount: nat, maxUniformCount: nat, maxGlobalTextures: nat, maxInstanceTextures: nat)

  // ------------------------------------------------------------ attributes

  /**
   * The byte size add_attribute gives a type: the scalar 8-, 16- and 32-bit
   * types and the float vectors have their natural size; every other type
   * (the integer vectors and MATRIX4) takes the default of 4.
   */
  function AttributeSize(t: AttributeType): (size: nat)
    ensures size in {1, 2, 4, 8, 12, 16}
    ensures t.Int8? || t.UInt8? ==> size == 1
    ensures t.Int16? || t.UInt16? ==> size == 2
    ensures t.Float32? || t.Int32? || t.UInt32? || t.Matrix4? ==> size == 4
    ensures t.Float32_2? ==> size == 8
    ensures t.Float32_3? ==> size == 12
    ensures t.Float32_4? ==> size == 16
  {
    match t
    case Int8 | UInt8 => 1
    case Int16 | UInt16 => 2
    case Int32 | UInt32 | Float32 => 4
    case Float32_2 => 8
    case Float32_3 => 12
    case Float32_4 => 16
    case _ => 4
  }

  datatype Attribute = Attribute(name: string, attributeType: AttributeType, size: nat)

  /** The sum of the attributes' sizes. */
  function Stride(attributes: seq<Attribute>): nat {
    if attributes == [] then 0 else Stride(attributes[..|attributes| - 1]) + attributes[|attributes| - 1].size
  }

  /** Appending an attribute adds its size to the stride. */
  lemma StrideAppend(attributes: seq<Attribute>, a: Attribute)
    ensures Stride(attributes + [a]) == Stride(attributes) + a.size
  {
    assert (attributes + [a])[..|attributes|] == attributes;
  }

  // ------------------------------------------------------------ uniforms

  datatype Range = Range(offset: nat, size: nat)

  /** x rounded up to a multiple of 4. */
  function AlignUp4(x: nat): (r: nat)
    ensures r % 4 == 0 && x <= r < x + 4
  {
    (x + 3) / 4 * 4
  }

  /** get_aligned_range(offset, size, 4): both ends rounded up to a multiple of 4. */
  function AlignedRange(offset: nat, size: nat): Range {
    Range(AlignUp4(offset), AlignUp4(size))
  }

  datatype Uniform = Uniform(
    index: nat,
    location: nat,
    offset: nat,
    size: nat,
    setIndex: nat,
    scope: Scope,
    uniformType: UniformType,
    /** Whether uniform_add was called for a sampler. */
    sampler: bool)

  /** The bytes the uniforms take in the block of scope s (samplers take none). */
  function ScopeSize(us: seq<Uniform>, s: Scope): nat {
    if us == [] then 0
    else ScopeSize(us[..|us| - 1], s) + (if us[|us| - 1].scope == s && !us[|us| - 1].sampler then us[|us| - 1].size else 0)
  }

  /** The push-constant ranges of the local uniforms, in order. */
  function LocalRanges(us: seq<Uniform>): seq<Range> {
    if us == [] then []
    else
      var last := us[|us| - 1];
      LocalRanges(us[..|us| - 1]) + (if last.scope == Local then [Range(last.offset, last.size)] else [])
  }

  /**
   * Uniform i sits where uniform_add puts it: index i, and, unless it is a
   * sampler, at the end of the earlier uniforms of its scope. Locals are
   * never samplers and take a multiple of 4 bytes.
   */
  predicate Placed(us: seq<Uniform>, i: nat)
    requires i < |us|
  {
    us[i].index == i
    && us[i].offset == (if us[i].sampler then 0 else ScopeSize(us[..i], us[i].scope))
    && (us[i].scope == Local ==> !us[i].sampler && us[i].size % 4 == 0)
  }

  /** Every uniform is placed: the last one, and recursively the ones before it. */
  predicate Layout(us: seq<Uniform>) {
    us == [] || (Layout(us[..|us| - 1]) && Placed(us, |us| - 1))
  }

  /** A laid-out sequence has each of its uniforms placed. */
  lemma {:induction false} LayoutAt(us: seq<Uniform>, i: nat)
    requires Layout(us) && i < |us|
    ensures Placed(us, i)
  {
    if i < |us| - 1 {
      var init := us[..|us| - 1];
      LayoutAt(init, i);
      assert init[..i] == us[..i];
    }
  }

  /** The entry uniform_add appends to the uniforms us, given the push-constant size so far. */
  function NewUniform(us: seq<Uniform>, pushSize: nat, size: nat, t: UniformType, scope: Scope,
                      setLocation: nat, isSampler: bool): Uniform
  {
    var index := |us|;
    var location := if isSampler then setLocation else index;
    if scope != Local then
      Uniform(index, location, if isSampler then 0 else ScopeSize(us, scope), if isSampler then 0 else size,
              if scope == Global then 0 else 1, scope, t, isSampler)
    else
      var r := AlignedRange(pushSize, size);
      Uniform(index, location, r.offset, r.size, INVALID_ID_U8, scope, t, isSampler)
  }

  /** Appending a uniform adds its size to its own scope's block, unless it is a sampler. */
  lemma ScopeSizeAppend(us: seq<Uniform>, u: Uniform, s: Scope)
    ensures ScopeSize(us + [u], s) == ScopeSize(us, s) + (if u.scope == s && !u.sampler then u.size else 0)
  {
    assert (us + [u])[..|us|] == us;
  }

  /** Appending a uniform adds its range to the push constants exactly when it is local. */
  lemma LocalRangesAppend(us: seq<Uniform>, u: Uniform)
    ensures LocalRanges(us + [u]) == LocalRanges(us) + (if u.scope == Local then [Range(u.offset, u.size)] else [])
  {
    assert (us + [u])[..|us|] == us;
  }

  /** Appending a uniform placed after the others keeps the layout. */
  lemma LayoutAppend(us: seq<Uniform>, u: Uniform)
    requires Layout(us) && u.index == |us|
    requires u.offset == (if u.sampler then 0 else ScopeSize(us, u.scope))
    requires u.scope == Local ==> !u.sampler && u.size % 4 == 0
    ensures Layout(us + [u])
  {
    var vs := us + [u];
    assert vs[..|us|] == us;
    assert Placed(vs, |us|);
  }

  /**
   * What uniform_add appends is placed after the others: index the prior
   * count, offset the end of its scope's block (0 for samplers), and for a
   * local its size rounded up to 4, so a 4-aligned push-constant block
   * stays 4-aligned.
   */
  lemma NewUniformPlaced(us: seq<Uniform>, size: nat, t: UniformType, scope: Scope, setLocation: nat, isSampler: bool)
    requires ScopeSize(us, Local) % 4 == 0
    requires isSampler ==> scope != Local
    ensures var u := NewUniform(us, ScopeSize(us, Local), size, t, scope, setLocation, isSampler);
      u.index == |us| && u.scope == scope && u.sampler == isSampler
      && u.offset == (if isSampler then 0 else ScopeSize(us, scope))
      && u.size == (if scope == Local then AlignUp4(size) else if isSampler then 0 else size)
      && (scope == Local ==> u.size % 4 == 0)
  {
  }

  /**
   * Appending what uniform_add builds keeps the layout; the block of its
   * scope grows by its size and the other blocks stay as they were.
   */
  lemma AppendKeepsLayout(us: seq<Uniform>, size: nat, t: UniformType, scope: Scope, setLocation: nat, isSampler: bool)
    requires Layout(us) && ScopeSize(us, Local) % 4 == 0
    requires isSampler ==> scope != Local
    ensures var u := NewUniform(us, ScopeSize(us, Local), size, t, scope, setLocation, isSampler);
      Layout(us + [u])
      && ScopeSize(us + [u], Global) == ScopeSize(us, Global) + (if scope == Global && !isSampler then u.size else 0)
      && ScopeSize(us + [u], Instance) == ScopeSize(us, Instance) + (if scope == Instance && !isSampler then u.size else 0)
      && ScopeSize(us + [u], Local) == ScopeSize(us, Local) + (if scope == Local then u.size else 0)
      && u.size == (if scope == Local then AlignUp4(size) else if isSampler then 0 else size)
      && LocalRanges(us + [u]) == LocalRanges(us) + (if scope == Local then [Range(u.offset, u.size)] else [])
      && ScopeSize(us + [u], Local) % 4 == 0
  {
    var u := NewUniform(us, ScopeSize(us, Local), size, t, scope, setLocation, isSampler);
    NewUniformPlaced(us, size, t, scope, setLocation, isSampler);
    LayoutAppend(us, u);
    ScopeSizeAppend(us, u, Global);
    ScopeSizeAppend(us, u, Instance);
    ScopeSizeAppend(us, u, Local);
    LocalRangesAppend(us, u);
  }

  /**
   * The uniform bookkeeping of a shader: the uniforms in order, the name
   * lookup (uniform_lookup, name to index), the sizes of the global and
   * instance uniform blocks, the push-constant size and ranges.
   */
  datatype UniformTable = UniformTable(
    uniforms: seq<Uniform>,
    lookup: map<string, nat>,
    globalUboSize: nat,
    uboSize: nat,
    pushConstantSize: nat,
    pushConstantRanges: seq<Range>)

  /** The table of a freshly created shader. */
  const EMPTY_TABLE: UniformTable := UniformTable([], map[], 0, 0, 0, [])

  /**
   * The table agrees with its uniforms: they are laid out as uniform_add
   * places them, each running total is the size of its scope's block, the
   * push-constant ranges are those of the locals, and every name in the
   * lookup names an existing uniform.
   */
  ghost predicate TableValid(t: UniformTable) {
    Layout(t.uniforms)
    && t.globalUboSize == ScopeSize(t.uniforms, Global) && t.uboSize == ScopeSize(t.uniforms, Instance)
    && t.pushConstantSize == ScopeSize(t.uniforms, Local)
    && t.pushConstantRanges == LocalRanges(t.uniforms)
    && (forall n :: n in t.lookup ==> t.lookup[n] < |t.uniforms|)
  }

  /** The table after uniform_add has accepted a uniform: the entry appended, its name recorded, its block grown. */
  function WithUniform(t: UniformTable, name: string, size: nat, ut: UniformType, scope: Scope,
                       setLocation: nat, isSampler: bool): UniformTable
  {
    var e := NewUniform(t.uniforms, t.pushConstantSize, size, ut, scope, setLocation, isSampler);
    UniformTable(
      t.uniforms + [e],
      t.lookup[name := e.index],
      t.globalUboSize + (if scope == Global && !isSampler then e.size else 0),
      t.uboSize + (if scope == Instance && !isSampler then e.size else 0),
      t.pushConstantSize + (if scope == Local then e.size else 0),
      t.pushConstantRanges + (if scope == Local then [Range(e.offset, e.size)] else []))
  }

  /**
   * uniform_add keeps the table in agreement. The new uniform is the last
   * one, under its name, at the end of its scope's block (samplers at 0);
   * the block grows by the requested size, rounded up to 4 for locals, and
   * samplers grow no block.
   */
  lemma AddKeepsTotals(t: UniformTable, name: string, size: nat, ut: UniformType, scope: Scope,
                       setLocation: nat, isSampler: bool)
    requires TableValid(t) && (isSampler ==> scope != Local)
    ensures var r := WithUniform(t, name, size, ut, scope, setLocation, isSampler);
      TableValid(r)
      && |r.uniforms| == |t.uniforms| + 1 && r.uniforms[..|t.uniforms|] == t.uniforms
      && r.lookup[name] == |t.uniforms|
      && r.uniforms[|t.uniforms|].offset == (if isSampler then 0 else ScopeSize(t.uniforms, scope))
      && r.globalUboSize == t.globalUboSize + (if scope == Global && !isSampler then size else 0)
      && r.uboSize == t.uboSize + (if scope == Instance && !isSampler then size else 0)
      && r.pushConstantSize == t.pushConstantSize + (if scope == Local then AlignUp4(size) else 0)
  {
    LocalsAligned(t.uniforms);
    AppendKeepsLayout(t.uniforms, size, ut, scope, setLocation, isSampler);
    var e := NewUniform(t.uniforms, t.pushConstantSize, size, ut, scope, setLocation, isSampler);
    assert (t.uniforms + [e])[..|t.uniforms|] == t.uniforms;
  }

  /** Locals take multiples of 4 bytes, so the push-constant block ends on a multiple of 4. */
  lemma {:induction false} LocalsAligned(us: seq<Uniform>)
    requires Layout(us)
    ensures ScopeSize(us, Local) % 4 == 0
  {
    if us != [] {
      LocalsAligned(us[..|us| - 1]);
    }
  }

  /** The uniforms of a scope up to any prefix take no more than up to a longer one. */
  lemma {:induction false} ScopeSizeMonotone(us: seq<Uniform>, s: Scope, a: nat, b: nat)
    requires a <= b <= |us|
    ensures ScopeSize(us[..a], s) <= ScopeSize(us[..b], s)
    decreases b
  {
    if a < b {
      ScopeSizeMonotone(us, s, a, b - 1);
      assert us[..b][..b - 1] == us[..b - 1];
    }
  }

  /** Two sized uniforms of the same scope never overlap: the earlier ends where or before the later starts. */
  lemma NoOverlap(us: seq<Uniform>, i: nat, j: nat)
    requires Layout(us) && i < j < |us|
    requires us[i].scope == us[j].scope && !us[i].sampler && !us[j].sampler
    ensures us[i].offset + us[i].size <= us[j].offset
  {
    LayoutAt(us, i);
    LayoutAt(us, j);
    assert us[..i + 1][..i] == us[..i];
    ScopeSizeMonotone(us, us[i].scope, i + 1, j);
  }

  /** Every uniform lies inside the block of its scope. */
  lemma {:induction false} InsideBlock(us: seq<Uniform>, i: nat)
    requires Layout(us) && i < |us| && !us[i].sampler
    ensures us[i].offset + us[i].size <= ScopeSize(us, us[i].scope)
  {
    LayoutAt(us, i);
    assert us[..i + 1][..i] == us[..i];
    assert us[..|us|] == us;
    ScopeSizeMonotone(us, us[i].scope, i + 1, |us|);
  }

  /** uniform_name_valid as intended: a present, non-empty name not yet in the uniform lookup. */
  predicate NameValid(name: Option<string>, lookup: map<string, nat>) {
    name.Some? && |name.value| > 0 && name.value !in lookup
  }

  // ------------------------------------------------------------ as written

  /**
   * uniform_name_valid as written: the guard `!uniform_name ||
   * string_length(uniform_name)` refuses every non-empty name, so only the
   * empty name gets through.
   */
  predicate NameValidAsWritten(name: Option<string>, lookup: map<string, nat>) {
    !(name.None? || |name.value| > 0) && name.value !in lookup
  }

  /** As written no uniform or sampler with a real name can be added; as intended a fresh name is accepted. */
  lemma NameTestInverted(name: string, lookup: map<string, nat>)
    ensures NameValidAsWritten(Some(name), lookup) ==> name == []
    ensures |name| > 0 && name !in lookup ==> !NameValidAsWritten(Some(name), lookup) && NameValid(Some(name), lookup)
    ensures !NameValid(Some([]), lookup)
  {
  }

  /** INVALID_ID_U16, the location uniform_name_valid reads as "not taken". */
  const INVALID_ID_U16: nat := 0xFFFF

  /**
   * The location the uniform lookup returns for a name as written. The
   * table is filled from an uninitialised local, so an unset name reads as
   * that unknown `fill` (the low 16 bits of it), not as INVALID_ID_U16.
   */
  function LookupAsWritten(lookup: map<string, nat>, fill: nat, name: string): (r: nat)
    ensures name !in lookup ==> r == fill
    ensures name in lookup ==> r == lookup[name]
  {
    if name in lookup then lookup[name] else fill
  }

  /** The lookup part of uniform_name_valid as written: the name's location reads INVALID_ID_U16. */
  predicate LookupFreeAsWritten(lookup: map<string, nat>, fill: nat, name: string) {
    LookupAsWritten(lookup, fill, name) == INVALID_ID_U16
  }

  /**
   * A name not yet added passes the lookup test only when the unknown fill
   * happens to be 0xFFFF. With that fill, and no stored location equal to
   * it, the test is exactly the `name !in lookup` of NameValid.
   */
  lemma LookupFillDecides(lookup: map<string, nat>, fill: nat, name: string)
    ensures name !in lookup ==> (LookupFreeAsWritten(lookup, fill, name) <==> fill == INVALID_ID_U16)
    ensures fill == INVALID_ID_U16 && (forall n :: n in lookup ==> lookup[n] < INVALID_ID_U16) ==>
      (LookupFreeAsWritten(lookup, fill, name) <==> name !in lookup)
  {
  }

  // ------------------------------------------------------------ one shader

  class Shader {
    var state: ShaderState
    var useInstances: bool
    var useLocals: bool
    var attributeStride: nat
    var attributes: seq<Attribute>
    /** The uniforms, their lookup, block sizes and push-constant ranges. */
    var table: UniformTable
    /** The length of the global_textures darray. */
    var globalTextureCount: nat
    var instanceTextureCount: nat

    /** The running totals agree with the uniforms and attributes they sum. */
    ghost predicate Valid()
      reads this
    {
      attributeStride == Stride(attributes) && TableValid(table)
    }

    /**
     * The shader as shader_system_create leaves it once the renderer has
     * created it: nothing added yet, all totals 0, ready for additions.
     */
    constructor (useInstances: bool, useLocals: bool)
      ensures Valid() && state == Uninitialized
      ensures this.useInstances == useInstances && this.useLocals == useLocals
      ensures attributes == [] && attributeStride == 0 && table == EMPTY_TABLE
      ensures globalTextureCount == 0 && instanceTextureCount == 0
    {
      state := Uninitialized;
      this.useInstances := useInstances;
      this.useLocals := useLocals;
      attributeStride := 0;
      attributes := [];
      table := EMPTY_TABLE;
      globalTextureCount := 0;
      instanceTextureCount := 0;
    }

    /** add_attribute: always succeeds; the attribute is appended and its size added to the stride. */
    method AddAttribute(name: string, t: AttributeType) returns (ok: bool)
      requires Valid()
      modifies this
      ensures Valid() && ok
      ensures attributes == old(attributes) + [Attribute(name, t, AttributeSize(t))]
      ensures attributeStride == old(attributeStride) + AttributeSize(t)
      ensures table == old(table) && state == old(state)
      ensures globalTextureCount == old(globalTextureCount) && instanceTextureCount == old(instanceTextureCount)
    {
      var size := AttributeSize(t);
      var attribute := Attribute(name, t, size);
      StrideAppend(attributes, attribute);
      attributeStride, attributes := attributeStride + size, attributes + [attribute];
      return true;
    }

    /**
     * uniform_add: refuses a uniform beyond max_uniform_count and a local
     * one when the shader does not use locals, changing nothing. Otherwise
     * the new entry is appended, its name maps to its index and its scope's
     * block grows by it (see AddKeepsTotals).
     */
    method UniformAdd(name: string, size: nat, t: UniformType, scope: Scope, setLocation: nat,
                      isSampler: bool, maxUniformCount: nat) returns (ok: bool)
      requires Valid() && (isSampler ==> scope != Local)
      modifies this
      ensures Valid()
      ensures ok <==> |old(table).uniforms| + 1 <= maxUniformCount && (scope == Local ==> useLocals)
      ensures table == if ok then WithUniform(old(table), name, size, t, scope, setLocation, isSampler) else old(table)
      ensures state == old(state) && attributes == old(attributes) && attributeStride == old(attributeStride)
      ensures useInstances == old(useInstances) && useLocals == old(useLocals)
      ensures globalTextureCount == old(globalTextureCount) && instanceTextureCount == old(instanceTextureCount)
    {
      if |table.uniforms| + 1 > maxUniformCount || (scope == Local && !useLocals) {
        return false;
      }
      AddKeepsTotals(table, name, size, t, scope, setLocation, isSampler);
      table := WithUniform(table, name, size, t, scope, setLocation, isSampler);
      return true;
    }

    /**
     * add_uniform: refuses an invalid or taken name and a shader past the
     * UNINITIALIZED state; otherwise uniform_add with location 0.
     */
    method AddUniform(name: Option<string>, size: nat, t: UniformType, scope: Scope, limits: Limits)
      returns (ok: bool)
      requires Valid()
      modifies this
      ensures Valid()
      ensures ok <==> (NameValid(name, old(table).lookup) && old(state) == Uninitialized
        && |old(table).uniforms| < limits.maxUniformCount && (scope == Local ==> old(useLocals)))
      ensures !ok ==> table == old(table)
      ensures ok ==> table == WithUniform(old(table), name.value, size, t, scope, 0, false)
      ensures state == old(state) && attributes == old(attributes) && attributeStride == old(attributeStride)
      ensures useInstances == old(useInstances) && useLocals == old(useLocals)
      ensures globalTextureCount == old(globalTextureCount) && instanceTextureCount == old(instanceTextureCount)
    {
      if !NameValid(name, table.lookup) || state != Uninitialized {
        return false;
      }
      ok := UniformAdd(name.value, size, t, scope, 0, false, limits.maxUniformCount);
    }

    /**
     * The tests add_sampler makes before uniform_add: the scope is usable
     * for a sampler on this shader, the name is valid and free, the shader
     * is UNINITIALIZED and the scope's texture count is below its limit.
     */
    predicate SamplerChecks(name: Option<string>, scope: Scope, limits: Limits)
      reads this
    {
      !(scope == Instance && !useInstances) && scope != Local
      && NameValid(name, table.lookup) && state == Uninitialized
      && (scope == Global ==> globalTextureCount + 1 <= limits.maxGlobalTextures)
      && (scope == Instance ==> instanceTextureCount + 1 <= limits.maxInstanceTextures)
    }

    /**
     * add_sampler: refuses an instance sampler on a shader without
     * instances, any local sampler, an invalid or taken name and a shader
     * past UNINITIALIZED. A global sampler takes the next global texture
     * location and an instance one the next instance texture location, each
     * up to its limit; then uniform_add with size 0. The texture count stays
     * raised when uniform_add refuses.
     */
    method AddSampler(name: Option<string>, t: UniformType, scope: Scope, limits: Limits) returns (ok: bool)
      requires Valid()
      modifies this
      ensures Valid()
      ensures ok <==> old(SamplerChecks(name, scope, limits)) && |old(table).uniforms| + 1 <= limits.maxUniformCount
      ensures globalTextureCount == old(globalTextureCount)
        + (if old(SamplerChecks(name, scope, limits)) && scope == Global then 1 else 0)
      ensures instanceTextureCount == old(instanceTextureCount)
        + (if old(SamplerChecks(name, scope, limits)) && scope == Instance then 1 else 0)
      ensures !ok ==> table == old(table)
      ensures ok ==> table == WithUniform(old(table), name.value, 0, t, scope,
        if scope == Global then old(globalTextureCount) else old(instanceTextureCount), true)
      ensures state == old(state) && attributes == old(attributes) && attributeStride == old(attributeStride)
      ensures useInstances == old(useInstances) && useLocals == old(useLocals)
    {
      if scope == Instance && !useInstances {
        return false;
      }
      if scope == Local {
        return false;
      }
      if !NameValid(name, table.lookup) || state != Uninitialized {
        return false;
      }
      var location := 0;
      if scope == Global {
        if globalTextureCount + 1 > limits.maxGlobalTextures {
          return false;
        }
        location := globalTextureCount;
        globalTextureCount := globalTextureCount + 1;
      } else {
        if instanceTextureCount + 1 > limits.maxInstanceTextures {
          return false;
        }
        location := instanceTextureCount;
        instanceTextureCount := instanceTextureCount + 1;
      }
      ok := UniformAdd(name.value, 0, t, scope, location, true, limits.maxUniformCount);
    }
  }

  // ------------------------------------------------------------ the system

  /** new_shader_id: the lowest slot whose id is INVALID_ID, or INVALID_ID when every slot is taken. */
  function NewShaderId(ids: seq<nat>): (id: nat)
    requires |ids| < INVALID_ID
    ensures id == INVALID_ID || (id < |ids| && ids[id] == INVALID_ID)
    ensures id == INVALID_ID <==> forall j :: 0 <= j < |ids| ==> ids[j] != INVALID_ID
    ensures id != INVALID_ID ==> forall j :: 0 <= j < id ==> ids[j] != INVALID_ID
  {
    match Registry.FirstInvalid(ids)
    case None => INVALID_ID
    case Some(i) => i
  }

  /** The slot shader_system_create writes to as written: new_shader_id's result, before it is checked. */
  function CreateSlotAsWritten(ids: seq<nat>): nat
    requires |ids| < INVALID_ID
  {
    NewShaderId(ids)
  }

  /** With every slot of a one-shader system taken, create as written zeroes shaders[INVALID_ID], far past the array. */
  lemma CreateWritesPastEnd()
    ensures CreateSlotAsWritten([0]) == INVALID_ID && CreateSlotAsWritten([0]) >= |[0]|
  {
  }

  class System {
    var limits: Limits
    var currentShaderId: nat
    /** The id field of each shader slot. */
    var ids: seq<nat>
    /** The name lookup: name to shader id. */
    var names: map<string, nat>

    ghost predicate Valid()
      reads this
    {
      |ids| == limits.maxShaderCount && |ids| < 0x1_0000
      && (forall i :: 0 <= i < |ids| ==> ids[i] == INVALID_ID || ids[i] == i)
      && (forall n :: n in names ==> names[n] < |ids| && ids[names[n]] == names[n])
    }

    /** shader_system_initialize: no shader in use, every slot free, no names. */
    constructor (limits: Limits)
      requires limits.maxShaderCount < 0x1_0000
      ensures Valid() && this.limits == limits && currentShaderId == INVALID_ID
      ensures ids == seq(limits.maxShaderCount, _ => INVALID_ID) && names == map[]
    {
      this.limits := limits;
      currentShaderId := INVALID_ID;
      ids := seq(limits.maxShaderCount, _ => INVALID_ID);
      names := map[];
    }

    /** shader_system_get_by_id: None past max_shader_count or for a free slot. */
    function GetById(id: nat): (r: Option<nat>)
      reads this
      requires Valid()
      ensures r.None? <==> id >= |ids| || ids[id] == INVALID_ID
      ensures r.Some? ==> r.value == id && ids[id] == id
    {
      if id >= limits.maxShaderCount || ids[id] == INVALID_ID then None else Some(id)
    }

    /**
     * shader_system_use_by_id: true with no change when id is already the
     * current shader. Otherwise false and no change for a shader that does
     * not exist; for one that does, it becomes current, and the result is
     * whether the renderer could use it and bind its globals.
     */
    method UseById(id: nat, rendererOk: bool) returns (ok: bool)
      requires Valid()
      modifies this
      ensures Valid() && ids == old(ids) && names == old(names) && limits == old(limits)
      ensures id == old(currentShaderId) ==> ok && currentShaderId == old(currentShaderId)
      ensures id != old(currentShaderId) && GetById(id).None? ==> !ok && currentShaderId == old(currentShaderId)
      ensures id != old(currentShaderId) && GetById(id).Some? ==> currentShaderId == id && ok == rendererOk
    {
      if currentShaderId == id {
        return true;
      }
      var next := GetById(id);
      if next.None? {
        return false;
      }
      currentShaderId := id;
      return rendererOk;
    }

    /**
     * shader_system_create, for the id table: the lowest free slot is
     * claimed (a full table returns false without writing). The slot stays
     * claimed when the renderer then fails; only on success is the name
     * recorded.
     */
    method Create(name: string, rendererOk: bool) returns (ok: bool)
      requires Valid()
      modifies this
      ensures Valid() && limits == old(limits) && currentShaderId == old(currentShaderId)
      ensures var id := NewShaderId(old(ids));
        if id == INVALID_ID then !ok && ids == old(ids) && names == old(names)
        else (ids == old(ids)[id := id] && ok == rendererOk
          && names == (if rendererOk then old(names)[name := id] else old(names)))
    {
      var slot := Registry.FindFirstInvalid(ids);
      if slot.None? {
        return false;
      }
      var id := slot.value;
      ids := ids[id := id];
      if !rendererOk {
        return false;
      }
      names := names[name := id];
      return true;
    }
  }
}
