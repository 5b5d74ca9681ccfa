// The material configuration reader (engine/src/resources/loaders/material_loader.c):
// a material_config starts from its defaults and each key=value line of
// the .kmt file overwrites one field, so every field ends up as the value
// of its last line, or its default when there is none.
//
// Opening and reading the file are outside this model; the loader is given
// the file's lines. The diffuse colour (four floats) is not modelled.
module MaterialLoader {
  import opened Wrappers
  import opened KString
  import opened ConfigLine

  const DEFAULT_SHADER_NAME: String := "Builtin.Material"
  /** The name buffers' sizes; their definitions are not part of this model, these are assumed values. */
  const MATERIAL_NAME_MAX_LENGTH: nat := 256
  const TEXTURE_NAME_MAX_LENGTH: nat := 512

  /** string_ncopy into a buffer of n characters: the buffer keeps at most the first n characters. */
  function NCopy(s: String, n: nat): String {
    if |s| <= n then s else s[..n]
  }

  /** material_config, without the diffuse colour. */
  datatype MaterialConfig = MaterialConfig(name: String, shaderName: String, autoRelease: bool, diffuseMapName: String)

  /** The defaults material_loader_load starts from: the requested name (cut to its buffer), the built-in shader, auto-release, no diffuse map. */
  function Defaults(name: String): (cfg: MaterialConfig)
    ensures |name| <= MATERIAL_NAME_MAX_LENGTH ==> cfg.name == name
    ensures |cfg.name| <= MATERIAL_NAME_MAX_LENGTH && cfg.name <= name
    ensures cfg.shaderName == DEFAULT_SHADER_NAME && cfg.autoRelease && cfg.diffuseMapName == []
  {
    MaterialConfig(NCopy(name, MATERIAL_NAME_MAX_LENGTH), DEFAULT_SHADER_NAME, true, [])
  }

  /** The keys a material file knows. */
  datatype Key = Version | Name | DiffuseMapName | DiffuseColour | Shader | Unknown

  /** The key a variable name stands for, compared in any case, in the order the loader tests them. */
  function KeyOf(key: String): Key {
    if StringsEqualI(key, "version") then Version
    else if StringsEqualI(key, "name") then Name
    else if StringsEqualI(key, "diffuse_map_name") then DiffuseMapName
    else if StringsEqualI(key, "diffuse_colour") then DiffuseColour
    else if StringsEqualI(key, "shader") then Shader
    else Unknown
  }

  /** Two names equal up to case stand for the same key. */
  lemma KeyCaseInsensitive(k1: String, k2: String)
    requires StringsEqualI(k1, k2)
    ensures KeyOf(k1) == KeyOf(k2)
  {
    SameMatchesI(k1, k2, "version");
    SameMatchesI(k1, k2, "name");
    SameMatchesI(k1, k2, "diffuse_map_name");
    SameMatchesI(k1, k2, "diffuse_colour");
    SameMatchesI(k1, k2, "shader");
  }

  /** What a field set by key k keeps of a value: name and diffuse_map_name are cut to their buffers, the shader name is duplicated whole. */
  function Stored(k: Key, value: String): String {
    match k
    case Name => NCopy(value, MATERIAL_NAME_MAX_LENGTH)
    case DiffuseMapName => NCopy(value, TEXTURE_NAME_MAX_LENGTH)
    case _ => value
  }

  /** A stored value is a prefix of the value, and the value itself when it fits its buffer. */
  lemma StoredIsPrefix(k: Key, value: String)
    ensures Stored(k, value) <= value
    ensures k == Name ==> (|value| <= MATERIAL_NAME_MAX_LENGTH <==> Stored(k, value) == value)
    ensures k == DiffuseMapName ==> (|value| <= TEXTURE_NAME_MAX_LENGTH <==> Stored(k, value) == value)
    ensures k == Shader ==> Stored(k, value) == value
  {
  }

  /** One pair: name, diffuse_map_name and shader overwrite their field; every other key changes nothing. */
  function ApplyPair(cfg: MaterialConfig, key: String, value: String): MaterialConfig {
    var k := KeyOf(key);
    match k
    case Name => cfg.(name := Stored(k, value))
    case DiffuseMapName => cfg.(diffuseMapName := Stored(k, value))
    case Shader => cfg.(shaderName := Stored(k, value))
    case _ => cfg
  }

  /** The configuration after a sequence of lines, read in order. */
  function ApplyLines(cfg: MaterialConfig, lines: seq<String>): MaterialConfig {
    if lines == [] then cfg
    else
      var prior := ApplyLines(cfg, lines[..|lines| - 1]);
      match Parse(lines[|lines| - 1])
      case Skipped => prior
      case Pair(key, value) => ApplyPair(prior, key, value)
  }

  /** The value of the last line that sets key k, if any. */
  function LastValue(lines: seq<String>, k: Key): Option<String> {
    if lines == [] then None
    else
      var l := Parse(lines[|lines| - 1]);
      if l.Pair? && KeyOf(l.key) == k then Some(l.value) else LastValue(lines[..|lines| - 1], k)
  }

  /** The field key k sets, for the three keys that set one. */
  function Field(cfg: MaterialConfig, k: Key): String
    requires k == Name || k == DiffuseMapName || k == Shader
  {
    match k
    case Name => cfg.name
    case DiffuseMapName => cfg.diffuseMapName
    case Shader => cfg.shaderName
  }

  /**
   * Last write wins: each of name, diffuse_map_name and shader ends as
   * what it stores of the value of its last line, or as it started when no
   * line sets it; no line changes auto_release.
   */
  lemma {:induction false} LastLineWins(cfg: MaterialConfig, lines: seq<String>, k: Key)
    requires k == Name || k == DiffuseMapName || k == Shader
    ensures Field(ApplyLines(cfg, lines), k) == (match LastValue(lines, k) case None => Field(cfg, k) case Some(v) => Stored(k, v))
    ensures ApplyLines(cfg, lines).autoRelease == cfg.autoRelease
  {
    if lines != [] {
      var prefix := lines[..|lines| - 1];
      LastLineWins(cfg, prefix, k);
      var l := Parse(lines[|lines| - 1]);
      if l.Pair? {
        PairSetsOneField(ApplyLines(cfg, prefix), l.key, l.value, k);
      }
    }
  }

  /** A pair whose key sets field k replaces it with the stored value; any other pair leaves it, and auto_release, alone. */
  lemma PairSetsOneField(cfg: MaterialConfig, key: String, value: String, k: Key)
    requires k == Name || k == DiffuseMapName || k == Shader
    ensures Field(ApplyPair(cfg, key, value), k) == (if KeyOf(key) == k then Stored(k, value) else Field(cfg, k))
    ensures ApplyPair(cfg, key, value).autoRelease == cfg.autoRelease
  {
  }

  /**
   * The writer's side: appending the line "name=v" (or "shader=v",
   * "diffuse_map_name=v") to a file makes v that field's value, whatever
   * came before, when v has no surrounding whitespace and fits the field.
   */
  lemma AppendedLineSets(cfg: MaterialConfig, lines: seq<String>, keyword: String, v: String)
    requires keyword in ["name", "diffuse_map_name", "shader"]
    requires Trimmed(v) == v && |v| <= MATERIAL_NAME_MAX_LENGTH
    ensures var k := KeyOf(keyword);
      k != Unknown && Field(ApplyLines(cfg, lines + [keyword + "=" + v]), k) == v
  {
    var all := lines + [keyword + "=" + v];
    assert all[..|all| - 1] == lines;
    TrimmedOfTrim(keyword);
    ParseRoundTrip(keyword, v);
    assert Parse(all[|all| - 1]) == Pair(keyword, v);
    PairSetsOneField(ApplyLines(cfg, lines), keyword, v, KeyOf(keyword));
  }

  /**
   * material_loader_load's line loop: the defaults for the requested name,
   * then every line read and each pair applied in file order.
   */
  method LoadMaterialConfig(name: String, lines: seq<String>) returns (cfg: MaterialConfig)
    requires forall i :: 0 <= i < |lines| ==> |lines[i]| < 512
    ensures cfg == ApplyLines(Defaults(name), lines)
  {
    cfg := Defaults(name);
    for i := 0 to |lines|
      invariant cfg == ApplyLines(Defaults(name), lines[..i])
    {
      var line := ReadLine(lines[i]);
      if line.Pair? {
        cfg := ApplyPair(cfg, line.key, line.value);
      }
      assert lines[..i + 1][..i] == lines[..i];
    }
    assert lines[..|lines|] == lines;
  }
}
