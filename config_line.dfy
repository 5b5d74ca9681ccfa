// The line reader shared by the shader and material loaders
// (engine/src/resources/loaders/shader_loader.c,
// engine/src/resources/loaders/material_loader.c): each line is trimmed;
// blank lines, comments and lines without '=' are skipped; otherwise the
// trimmed text before the first '=' is the key and the trimmed text after
// it the value.
module ConfigLine {
  import opened Wrappers
  import opened KString

  /** What one line of a configuration file gives. */
  datatype Line = Skipped | Pair(key: String, value: String)

  /** The reading of one line, as both loaders do it. */
  function Parse(line: String): Line {
    var t := Trimmed(line);
    if |t| < 1 || t[0] == '#' then Skipped
    else
      var eq := IndexOf(t, '=');
      if eq == -1 then Skipped
      else Pair(Trimmed(MidOf(t, 0, eq)), Trimmed(MidOf(t, eq + 1, -1)))
  }

  /**
   * A line is skipped exactly when it trims to nothing, starts with '#'
   * after trimming, or holds no '='. Otherwise neither key nor value has
   * whitespace at either end and the key holds no '='.
   */
  lemma ParseSkips(line: String)
    ensures var t := Trimmed(line);
      Parse(line).Skipped? <==> (t == [] || t[0] == '#' || '=' !in t)
    ensures Parse(line).Pair? ==> '=' !in Parse(line).key
    ensures Parse(line).Pair? ==> Trimmed(Parse(line).key) == Parse(line).key && Trimmed(Parse(line).value) == Parse(line).value
  {
    var t := Trimmed(line);
    if |t| >= 1 && t[0] != '#' {
      var eq := IndexOf(t, '=');
      if eq != -1 {
        var k := MidOf(t, 0, eq);
        assert forall c :: c in k ==> c != '=';
        TrimmedSubset(k);
        TrimmedIdempotent(k);
        TrimmedIdempotent(MidOf(t, eq + 1, -1));
      }
    }
  }

  /** Trimming only drops characters. */
  lemma TrimmedSubset(s: String)
    ensures forall c :: c in Trimmed(s) ==> c in s
  {
    var i, j := TrimmedSlice(s);
    forall c | c in Trimmed(s) ensures c in s {
      var k :| 0 <= k < |Trimmed(s)| && Trimmed(s)[k] == c;
      assert s[i + k] == c;
    }
  }

  /** A string that neither starts nor ends with whitespace trims to itself. */
  lemma TrimmedOfTrim(s: String)
    requires s != [] ==> !IsSpace(s[0]) && !IsSpace(s[|s| - 1])
    ensures Trimmed(s) == s
  {
    var i, j := TrimmedSlice(s);
    if s != [] {
      assert i == 0;
      assert j == |s|;
    }
  }

  /** Trimming twice is trimming once. */
  lemma TrimmedIdempotent(s: String)
    ensures Trimmed(Trimmed(s)) == Trimmed(s)
  {
    var i, j := TrimmedSlice(s);
    TrimmedOfTrim(Trimmed(s));
  }

  /**
   * The reader inverts the writer: a key and a value without surrounding
   * whitespace, the key holding no '=' and not starting with '#', read back
   * from "key=value".
   */
  lemma ParseRoundTrip(key: String, value: String)
    requires Trimmed(key) == key && Trimmed(value) == value
    requires '=' !in key && (key != [] ==> key[0] != '#')
    ensures Parse(key + "=" + value) == Pair(key, value)
  {
    var s := key + "=" + value;
    NoOuterSpace(key);
    NoOuterSpace(value);
    TrimmedOfTrim(s);
    assert s[|key|] == '=';
    assert forall k :: 0 <= k < |key| ==> s[k] == key[k];
    assert IndexOf(s, '=') == |key|;
    assert MidOf(s, 0, |key|) == key;
    assert MidOf(s, |key| + 1, -1) == value;
  }

  /** A string that trims to itself neither starts nor ends with whitespace. */
  lemma NoOuterSpace(s: String)
    requires Trimmed(s) == s
    ensures s != [] ==> !IsSpace(s[0]) && !IsSpace(s[|s| - 1])
  {
    var i, j := TrimmedSlice(s);
  }

  /**
   * The head of each loader's line loop: string_trim, the blank/comment
   * test, string_index_of_char for '=', and string_mid plus string_trim for
   * key and value. Lines are read at most 511 characters at a time.
   */
  method ReadLine(line: String) returns (r: Line)
    requires |line| < 512
    ensures r == Parse(line)
  {
    var trimmed := Trim(line);
    ghost var i, j := TrimmedSlice(line);
    if |trimmed| < 1 || trimmed[0] == '#' {
      return Skipped;
    }
    var eq := IndexOfChar(Some(trimmed), '=');
    if eq == -1 {
      return Skipped;
    }
    var rawKey := Mid(trimmed, 0, eq);
    var key := Trim(rawKey);
    var rawValue := Mid(trimmed, eq + 1, -1);
    var value := Trim(rawValue);
    return Pair(key, value);
  }
}
