// The shader configuration reader (engine/src/resources/loaders/shader_loader.c):
// the lines of a .shadercfg file, one key=value pair each, build a
// shader_config — name, renderpass, stages, the use_instances and
// use_locals flags, and the attribute and uniform lists in file order.
//
// Opening and reading the file are outside this model; the loader is given
// the file's lines.
module ShaderLoader {
  import opened Wrappers
  import opened KString
  import opened ConfigLine
  import opened ShaderSystem

  datatype Stage = Vertex | Geometry | Fragment | Compute

  datatype AttributeConfig = AttributeConfig(name: String, attributeType: AttributeType, size: nat)

  datatype UniformConfig = UniformConfig(name: String, uniformType: UniformType, size: nat, scope: Scope)

  /**
   * shader_config. stage_count is a u8. attribute_count and uniform_count,
   * also u8, are incremented with each appended entry, so they are the
   * lengths of the lists modulo 256 (AttributeCount, UniformCount).
   */
  datatype ShaderConfig = ShaderConfig(
    name: Option<String>,
    renderpassName: Option<String>,
    stageCount: nat,
    stages: seq<Stage>,
    stageNames: seq<String>,
    stageFilenames: seq<String>,
    useInstances: bool,
    useLocals: bool,
    attributes: seq<AttributeConfig>,
    uniforms: seq<UniformConfig>)

  /** The u8 a count is stored in: the low 8 bits. */
  function ToU8(x: nat): (r: nat)
    ensures r < 256 && (x < 256 ==> r == x)
  {
    x % 256
  }

  /** attribute_count: one increment per appended attribute, in a u8. */
  function AttributeCount(cfg: ShaderConfig): nat {
    ToU8(|cfg.attributes|)
  }

  /** uniform_count: one increment per appended uniform, in a u8. */
  function UniformCount(cfg: ShaderConfig): nat {
    ToU8(|cfg.uniforms|)
  }

  /** The configuration before the first line: no names, no stages, no flags, nothing added. */
  const EMPTY_SHADER_CONFIG: ShaderConfig := ShaderConfig(None, None, 0, [], [], [], false, false, [], [])

  // ------------------------------------------------------------ stages

  /** A stage name, in any case: frag/fragment, vert/vertex, geom/geometry, comp/compute. */
  function ParseStage(name: String): Option<Stage> {
    if StringsEqualI(name, "frag") || StringsEqualI(name, "fragment") then Some(Fragment)
    else if StringsEqualI(name, "vert") || StringsEqualI(name, "vertex") then Some(Vertex)
    else if StringsEqualI(name, "geom") || StringsEqualI(name, "geometry") then Some(Geometry)
    else if StringsEqualI(name, "comp") || StringsEqualI(name, "compute") then Some(Compute)
    else None
  }

  /** The stages of a list of names, in order; unknown names add nothing. */
  function StagesOf(names: seq<String>): (r: seq<Stage>)
    ensures |r| <= |names|
  {
    if names == [] then []
    else
      var s := ParseStage(names[|names| - 1]);
      StagesOf(names[..|names| - 1]) + (if s.Some? then [s.value] else [])
  }

  /** Each stage comes from a name, and every recognised name gives one. */
  lemma {:induction false} StagesOfExact(names: seq<String>)
    ensures (forall i :: 0 <= i < |names| ==> ParseStage(names[i]).Some?) ==> |StagesOf(names)| == |names|
    ensures (forall i :: 0 <= i < |names| ==> ParseStage(names[i]).None?) ==> StagesOf(names) == []
  {
    if names != [] {
      StagesOfExact(names[..|names| - 1]);
    }
  }

  /**
   * The stage loop, bounded by the names there are: stage_count names are
   * parsed, or all of them when stage_count is larger.
   */
  method AppendStages(stages: seq<Stage>, names: seq<String>, stageCount: nat) returns (r: seq<Stage>)
    ensures r == stages + StagesOf(names[..Min(stageCount, |names|)])
  {
    r := stages;
    var n := if stageCount <= |names| then stageCount else |names|;
    for i := 0 to n
      invariant r == stages + StagesOf(names[..i])
    {
      var s := ParseStage(names[i]);
      if s.Some? {
        r := r + [s.value];
      }
      assert names[..i + 1][..i] == names[..i];
    }
  }

  // ------------------------------------------------------------ attributes

  /** The number of components of an attribute type. */
  function Components(t: AttributeType): nat {
    match t
    case Float32 | Int8 | UInt8 | Int16 | UInt16 | Int32 | UInt32 => 1
    case Float32_2 | Int8_2 | UInt8_2 | Int16_2 | UInt16_2 | Int32_2 | UInt32_2 => 2
    case Float32_3 | Int8_3 | UInt8_3 | Int16_3 | UInt16_3 | Int32_3 | UInt32_3 => 3
    case Float32_4 | Int8_4 | UInt8_4 | Int16_4 | UInt16_4 | Int32_4 | UInt32_4 => 4
    case Matrix4 => 16
  }

  /** The bytes of one component of an attribute type. */
  function ComponentBytes(t: AttributeType): nat {
    match t
    case Int8 | Int8_2 | Int8_3 | Int8_4 | UInt8 | UInt8_2 | UInt8_3 | UInt8_4 => 1
    case Int16 | Int16_2 | Int16_3 | Int16_4 | UInt16 | UInt16_2 | UInt16_3 | UInt16_4 => 2
    case _ => 4
  }

  /**
   * The attribute type table: f32, vecN, mat4, i8/u8/i16/u16 and their
   * vecN forms, i32/int, ivecN, u32/uint and uvecN, matched in any case; an
   * unknown name is f32.
   */
  function ParseAttributeType(s: String): AttributeType {
    if StringsEqualI(s, "f32") then Float32
    else if StringsEqualI(s, "vec2") then Float32_2
    else if StringsEqualI(s, "vec3") then Float32_3
    else if StringsEqualI(s, "vec4") then Float32_4
    else if StringsEqualI(s, "mat4") then Matrix4
    else if StringsEqualI(s, "i8") then Int8
    else if StringsEqualI(s, "i8vec2") then Int8_2
    else if StringsEqualI(s, "i8vec3") then Int8_3
    else if StringsEqualI(s, "i8vec4") then Int8_4
    else if StringsEqualI(s, "u8") then UInt8
    else if StringsEqualI(s, "u8vec2") then UInt8_2
    else if StringsEqualI(s, "u8vec3") then UInt8_3
    else if StringsEqualI(s, "u8vec4") then UInt8_4
    else if StringsEqualI(s, "i16") then Int16
    else if StringsEqualI(s, "i16vec2") then Int16_2
    else if StringsEqualI(s, "i16vec3") then Int16_3
    else if StringsEqualI(s, "i16vec4") then Int16_4
    else if StringsEqualI(s, "u16") then UInt16
    else if StringsEqualI(s, "u16vec2") then UInt16_2
    else if StringsEqualI(s, "u16vec3") then UInt16_3
    else if StringsEqualI(s, "u16vec4") then UInt16_4
    else if StringsEqualI(s, "i32") || StringsEqualI(s, "int") then Int32
    else if StringsEqualI(s, "ivec2") then Int32_2
    else if StringsEqualI(s, "ivec3") then Int32_3
    else if StringsEqualI(s, "ivec4") then Int32_4
    else if StringsEqualI(s, "u32") || StringsEqualI(s, "uint") then UInt32
    else if StringsEqualI(s, "uvec2") then UInt32_2
    else if StringsEqualI(s, "uvec3") then UInt32_3
    else if StringsEqualI(s, "uvec4") then UInt32_4
    else Float32
  }

  /** The size the loader gives each attribute type, branch by branch. */
  function LoaderAttributeSize(t: AttributeType): nat {
    match t
    case Float32 => 4
    case Float32_2 => 8
    case Float32_3 => 12
    case Float32_4 => 16
    case Matrix4 => 64
    case Int8 | UInt8 => 1
    case Int8_2 | UInt8_2 => 2
    case Int8_3 | UInt8_3 => 3
    case Int8_4 | UInt8_4 => 4
    case Int16 | UInt16 => 2
    case Int16_2 | UInt16_2 => 4
    case Int16_3 | UInt16_3 => 6
    case Int16_4 | UInt16_4 => 8
    case Int32 | UInt32 => 4
    case Int32_2 | UInt32_2 => 8
    case Int32_3 | UInt32_3 => 12
    case Int32_4 | UInt32_4 => 16
  }

  /** Every size in the loader's table is the type's component count times its component bytes. */
  lemma LoaderSizeIsBytes(t: AttributeType)
    ensures LoaderAttributeSize(t) == Components(t) * ComponentBytes(t)
  {
  }

  /**
   * The loader's sizes and the sizes add_attribute in the shader system
   * gives agree for the scalar types and the float vectors; for the integer
   * vectors and mat4 the shader system falls back to 4 bytes.
   */
  lemma LoaderSizeAgainstShaderSystem(t: AttributeType)
    ensures (t.Float32? || t.Float32_2? || t.Float32_3? || t.Float32_4? || t.Int8? || t.UInt8?
      || t.Int16? || t.UInt16? || t.Int32? || t.UInt32?) ==> LoaderAttributeSize(t) == AttributeSize(t)
    ensures t.Matrix4? ==> LoaderAttributeSize(t) == 64 && AttributeSize(t) == 4
  {
  }

  // ------------------------------------------------------------ uniforms

  /** The bytes of a uniform type; samplers have none. */
  function UniformBytes(t: UniformType): nat {
    match t
    case UniformFloat32 | UniformInt32 | UniformUInt32 => 4
    case UniformFloat32_2 => 8
    case UniformFloat32_3 => 12
    case UniformFloat32_4 => 16
    case UniformInt8 | UniformUInt8 => 1
    case UniformInt16 | UniformUInt16 => 2
    case UniformMatrix4 => 64
    case UniformSampler | UniformCustom => 0
  }

  /**
   * The uniform type table: f32, vecN, u8/u16/u32, i8/i16/i32, mat4 and
   * samp/sampler, matched in any case; an unknown name is f32. Its size is
   * UniformBytes of the type.
   */
  function ParseUniformType(s: String): UniformType {
    if StringsEqualI(s, "f32") then UniformFloat32
    else if StringsEqualI(s, "vec2") then UniformFloat32_2
    else if StringsEqualI(s, "vec3") then UniformFloat32_3
    else if StringsEqualI(s, "vec4") then UniformFloat32_4
    else if StringsEqualI(s, "u8") then UniformUInt8
    else if StringsEqualI(s, "u16") then UniformUInt16
    else if StringsEqualI(s, "u32") then UniformUInt32
    else if StringsEqualI(s, "i8") then UniformInt8
    else if StringsEqualI(s, "i16") then UniformInt16
    else if StringsEqualI(s, "i32") then UniformInt32
    else if StringsEqualI(s, "mat4") then UniformMatrix4
    else if StringsEqualI(s, "samp") || StringsEqualI(s, "sampler") then UniformSampler
    else UniformFloat32
  }

  /** The loader never yields a custom uniform, and only a sampler has no bytes. */
  lemma UniformSizes(s: String)
    ensures var t := ParseUniformType(s);
      !t.UniformCustom? && (UniformBytes(t) == 0 <==> t.UniformSampler?)
  {
  }

  /** The digit a scope is written as. */
  function ScopeDigit(s: Scope): String {
    match s
    case Global => "0"
    case Instance => "1"
    case Local => "2"
  }

  /** The scope field: exactly "0", "1" or "2"; anything else is global. */
  function ParseScope(s: String): Scope {
    if s == "0" then Global
    else if s == "1" then Instance
    else if s == "2" then Local
    else Global
  }

  /** Every scope reads back from its digit, and only the three digits name a scope other than global. */
  lemma ScopeRoundTrip(sc: Scope, s: String)
    ensures ParseScope(ScopeDigit(sc)) == sc
    ensures ParseScope(s) != Global ==> s == ScopeDigit(ParseScope(s))
  {
  }

  // ------------------------------------------------------------ one pair

  /** The fields of a list value: split on ',', trimmed, empty fields kept. */
  function Fields(value: String): seq<String> {
    Split(value, ',', true, true)
  }

  /** A stages line: the names replace stage_names, set stage_count if it is still 0, and add their stages. */
  function WithStages(cfg: ShaderConfig, value: String): ShaderConfig {
    var names := Fields(value);
    var count := if cfg.stageCount == 0 then ToU8(|names|) else cfg.stageCount;
    cfg.(stageNames := names, stageCount := count, stages := cfg.stages + StagesOf(names[..Min(count, |names|)]))
  }

  /** A stagefiles line: the file names replace stage_filenames and set stage_count if it is still 0. */
  function WithStageFiles(cfg: ShaderConfig, value: String): ShaderConfig {
    var files := Fields(value);
    cfg.(stageFilenames := files, stageCount := if cfg.stageCount == 0 then ToU8(|files|) else cfg.stageCount)
  }

  /** An attribute line: with exactly the 2 fields type and name it appends an attribute, otherwise nothing. */
  function WithAttribute(cfg: ShaderConfig, value: String): ShaderConfig {
    var fields := Fields(value);
    if |fields| != 2 then cfg
    else
      var t := ParseAttributeType(fields[0]);
      cfg.(attributes := cfg.attributes + [AttributeConfig(fields[1], t, LoaderAttributeSize(t))])
  }

  /** A uniform line: with exactly the 3 fields type, scope and name it appends a uniform, otherwise nothing. */
  function WithUniform(cfg: ShaderConfig, value: String): ShaderConfig {
    var fields := Fields(value);
    if |fields| != 3 then cfg
    else
      var t := ParseUniformType(fields[0]);
      cfg.(uniforms := cfg.uniforms + [UniformConfig(fields[2], t, UniformBytes(t), ParseScope(fields[1]))])
  }

  /** The keys a shader configuration knows. */
  datatype Key = Version | Name | Renderpass | Stages | StageFiles | UseInstances | UseLocals | AttributeKey | UniformKey | Unknown

  /** The key a variable name stands for, compared in any case, in the order the loader tests them. */
  function KeyOf(key: String): Key {
    if StringsEqualI(key, "version") then Version
    else if StringsEqualI(key, "name") then Name
    else if StringsEqualI(key, "renderpass") then Renderpass
    else if StringsEqualI(key, "stages") then Stages
    else if StringsEqualI(key, "stagefiles") then StageFiles
    else if StringsEqualI(key, "use_instances") then UseInstances
    else if StringsEqualI(key, "use_locals") then UseLocals
    else if StringsEqualI(key, "attribute") then AttributeKey
    else if StringsEqualI(key, "uniform") then UniformKey
    else Unknown
  }

  /** Keys are matched regardless of case: two names equal up to case stand for the same key. */
  lemma KeyCaseInsensitive(k1: String, k2: String)
    requires StringsEqualI(k1, k2)
    ensures KeyOf(k1) == KeyOf(k2)
  {
    SameMatchesI(k1, k2, "version");
    SameMatchesI(k1, k2, "name");
    SameMatchesI(k1, k2, "renderpass");
    SameMatchesI(k1, k2, "stages");
    SameMatchesI(k1, k2, "stagefiles");
    SameMatchesI(k1, k2, "use_instances");
    SameMatchesI(k1, k2, "use_locals");
    SameMatchesI(k1, k2, "attribute");
    SameMatchesI(k1, k2, "uniform");
  }

  /**
   * The effect of one key=value pair: version and unknown keys change
   * nothing; name and renderpass are set; use_instances and use_locals
   * parse a boolean; the list keys go to their own functions.
   */
  function ApplyPair(cfg: ShaderConfig, key: String, value: String): ShaderConfig {
    match KeyOf(key)
    case Version => cfg
    case Name => cfg.(name := Some(value))
    case Renderpass => cfg.(renderpassName := Some(value))
    case Stages => WithStages(cfg, value)
    case StageFiles => WithStageFiles(cfg, value)
    case UseInstances => cfg.(useInstances := ToBool(Some(value)).value)
    case UseLocals => cfg.(useLocals := ToBool(Some(value)).value)
    case AttributeKey => WithAttribute(cfg, value)
    case UniformKey => WithUniform(cfg, value)
    case Unknown => cfg
  }

  /**
   * One pair changes at most one list, and only by appending: attributes,
   * uniforms and stages keep what they had, attributes and uniforms grow by
   * at most one entry. stage_count, once set, never changes.
   */
  lemma ApplyPairAppends(cfg: ShaderConfig, key: String, value: String)
    ensures var next := ApplyPair(cfg, key, value);
      cfg.attributes <= next.attributes && |next.attributes| <= |cfg.attributes| + 1
      && cfg.uniforms <= next.uniforms && |next.uniforms| <= |cfg.uniforms| + 1
      && cfg.stages <= next.stages
      && (cfg.stageCount != 0 ==> next.stageCount == cfg.stageCount)
  {
    match KeyOf(key)
    case Stages =>
      var names := Fields(value);
      var next := WithStages(cfg, value);
      assert next.stages == cfg.stages + StagesOf(names[..Min(next.stageCount, |names|)]);
    case _ =>
  }

  /**
   * attribute_count++ and uniform_count++ in their u8 fields: one pair
   * raises each count by the entries it appended, modulo 256.
   */
  lemma CountsIncrementInU8(cfg: ShaderConfig, key: String, value: String)
    ensures var next := ApplyPair(cfg, key, value);
      AttributeCount(next) == (AttributeCount(cfg) + |next.attributes| - |cfg.attributes|) % 256
      && UniformCount(next) == (UniformCount(cfg) + |next.uniforms| - |cfg.uniforms|) % 256
  {
    var next := ApplyPair(cfg, key, value);
    U8Shift(|cfg.attributes|, |next.attributes| - |cfg.attributes|);
    U8Shift(|cfg.uniforms|, |next.uniforms| - |cfg.uniforms|);
  }

  /** Adding d to a count and then cutting it to 8 bits is the same as adding d to its low 8 bits. */
  lemma U8Shift(x: nat, d: int)
    ensures (ToU8(x) + d) % 256 == (x + d) % 256
  {
    var q := x / 256;
    assert x + d == (ToU8(x) + d) + 256 * q;
    ModMultiple(ToU8(x) + d, q);
  }

  lemma {:induction false} ModMultiple(y: int, q: nat)
    ensures (y + 256 * q) % 256 == y % 256
  {
    if q > 0 {
      ModMultiple(y, q - 1);
      assert y + 256 * q == (y + 256 * (q - 1)) + 256;
    }
  }

  /**
   * The counts agree with the lists exactly while those stay below 256; a
   * 256th entry wraps its count to 0.
   */
  lemma CountsFollowLists(cfg: ShaderConfig)
    ensures AttributeCount(cfg) == |cfg.attributes| <==> |cfg.attributes| < 256
    ensures UniformCount(cfg) == |cfg.uniforms| <==> |cfg.uniforms| < 256
    ensures |cfg.attributes| == 256 ==> AttributeCount(cfg) == 0
    ensures |cfg.uniforms| == 256 ==> UniformCount(cfg) == 0
  {
  }

  /**
   * The first of stages and stagefiles sets stage_count to the number of
   * its fields, truncated to the u8 field: 256 fields leave it 0.
   */
  lemma StageCountFromFirstList(cfg: ShaderConfig, key: String, value: String)
    requires cfg.stageCount == 0 && (StringsEqualI(key, "stages") || StringsEqualI(key, "stagefiles"))
    ensures ApplyPair(cfg, key, value).stageCount == ToU8(|Fields(value)|)
    ensures |Fields(value)| < 256 ==> ApplyPair(cfg, key, value).stageCount == |Fields(value)|
  {
    if |key| == 10 {
      assert ToLower(key[0]) == 's';
      assert ToLower("renderpass"[0]) == 'r';
    }
  }

  // ------------------------------------------------------------ as written

  /**
   * The stage loop as written: it reads stage_names[0 .. stage_count) even
   * when stage_count came from a longer stagefiles list; None stands for a
   * read past the end of the names.
   */
  function StagesAsWritten(stages: seq<Stage>, names: seq<String>, stageCount: nat): Option<seq<Stage>> {
    if stageCount > |names| then None else Some(stages + StagesOf(names[..stageCount]))
  }

  /**
   * After stagefiles has set stage_count to 3, a stages line with 2 names
   * makes the loop as written read a third name past the end; the bounded
   * loop parses the 2 names there are.
   */
  lemma StagesReadPastEnd(cfg: ShaderConfig, value: String)
    requires cfg.stageCount == 3 && |Fields(value)| == 2
    ensures StagesAsWritten(cfg.stages, Fields(value), 3) == None
    ensures ApplyPair(cfg, "stages", value).stages == cfg.stages + StagesOf(Fields(value))
  {
    assert KeyOf("stages") == Stages;
    assert Fields(value)[..2] == Fields(value);
  }

  // ------------------------------------------------------------ the loop

  /** The configuration after a sequence of lines, read in order. */
  function ApplyLines(cfg: ShaderConfig, lines: seq<String>): ShaderConfig {
    if lines == [] then cfg
    else
      var prior := ApplyLines(cfg, lines[..|lines| - 1]);
      match Parse(lines[|lines| - 1])
      case Skipped => prior
      case Pair(key, value) => ApplyPair(prior, key, value)
  }

  /** Reading lines only appends to the attribute, uniform and stage lists: file order is kept. */
  lemma {:induction false} ApplyLinesAppends(cfg: ShaderConfig, lines: seq<String>)
    ensures var r := ApplyLines(cfg, lines);
      cfg.attributes <= r.attributes && cfg.uniforms <= r.uniforms && cfg.stages <= r.stages
      && |r.attributes| <= |cfg.attributes| + |lines| && |r.uniforms| <= |cfg.uniforms| + |lines|
  {
    if lines != [] {
      var init := lines[..|lines| - 1];
      ApplyLinesAppends(cfg, init);
      var prior := ApplyLines(cfg, init);
      match Parse(lines[|lines| - 1])
      case Skipped =>
      case Pair(key, value) => ApplyPairAppends(prior, key, value);
    }
  }

  /**
   * The key dispatch of the line loop, with string_split and the stage
   * loop as they run.
   */
  method ProcessPair(cfg: ShaderConfig, key: String, value: String) returns (next: ShaderConfig)
    ensures next == ApplyPair(cfg, key, value)
  {
    next := cfg;
    match KeyOf(key)
    case Version =>
    case Name =>
      next := cfg.(name := Some(value));
    case Renderpass =>
      next := cfg.(renderpassName := Some(value));
    case Stages =>
      var count, names := StringSplit(Some(value), ',', [], true, true);
      var stageCount := if cfg.stageCount == 0 then ToU8(count) else cfg.stageCount;
      var stages := AppendStages(cfg.stages, names, stageCount);
      next := cfg.(stageNames := names, stageCount := stageCount, stages := stages);
      assert names == Fields(value);
    case StageFiles =>
      var count, files := StringSplit(Some(value), ',', [], true, true);
      next := cfg.(stageFilenames := files, stageCount := if cfg.stageCount == 0 then ToU8(count) else cfg.stageCount);
      assert files == Fields(value);
    case UseInstances =>
      next := cfg.(useInstances := ToBool(Some(value)).value);
    case UseLocals =>
      next := cfg.(useLocals := ToBool(Some(value)).value);
    case AttributeKey =>
      var count, fields := StringSplit(Some(value), ',', [], true, true);
      if count == 2 {
        var t := ParseAttributeType(fields[0]);
        next := cfg.(attributes := cfg.attributes + [AttributeConfig(fields[1], t, LoaderAttributeSize(t))]);
      }
      assert fields == Fields(value);
    case UniformKey =>
      var count, fields := StringSplit(Some(value), ',', [], true, true);
      if count == 3 {
        var t := ParseUniformType(fields[0]);
        next := cfg.(uniforms := cfg.uniforms + [UniformConfig(fields[2], t, UniformBytes(t), ParseScope(fields[1]))]);
      }
      assert fields == Fields(value);
    case Unknown =>
  }

  /**
   * shader_loader_load's line loop: every line is read, skipped lines
   * change nothing, and each pair is applied in file order.
   */
  method LoadShaderConfig(lines: seq<String>) returns (cfg: ShaderConfig)
    requires forall i :: 0 <= i < |lines| ==> |lines[i]| < 512
    ensures cfg == ApplyLines(EMPTY_SHADER_CONFIG, lines)
  {
    cfg := EMPTY_SHADER_CONFIG;
    for i := 0 to |lines|
      invariant cfg == ApplyLines(EMPTY_SHADER_CONFIG, lines[..i])
    {
      var line := ReadLine(lines[i]);
      if line.Pair? {
        cfg := ProcessPair(cfg, line.key, line.value);
      }
      assert lines[..i + 1][..i] == lines[..i];
    }
    assert lines[..|lines|] == lines;
  }
}
