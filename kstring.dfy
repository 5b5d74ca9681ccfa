// String helpers of the engine (engine/src/core/kstring.c). A C string is
// modelled as the sequence of its characters before the terminating NUL;
// a pointer that may be null is an Option.
module KString {
  import opened Wrappers

  type String = seq<char>

  /** The characters isspace accepts in the C locale. */
  predicate IsSpace(c: char) {
    c == ' ' || c == '\t' || c == '\n' || c == '\U{000B}' || c == '\U{000C}' || c == '\r'
  }

  // ---------------------------------------------------------------- trim

  /** s without its leading whitespace. */
  function TrimLeft(s: String): String {
    if s != [] && IsSpace(s[0]) then TrimLeft(s[1..]) else s
  }

  /** s without its trailing whitespace. */
  function TrimRight(s: String): String {
    if s != [] && IsSpace(s[|s| - 1]) then TrimRight(s[..|s| - 1]) else s
  }

  /** TrimLeft leaves a suffix of s that does not start with whitespace, and drops only whitespace. */
  lemma {:induction false} TrimLeftSuffix(s: String)
    ensures |TrimLeft(s)| <= |s| && TrimLeft(s) == s[|s| - |TrimLeft(s)|..]
    ensures TrimLeft(s) != [] ==> !IsSpace(TrimLeft(s)[0])
    ensures forall k :: 0 <= k < |s| - |TrimLeft(s)| ==> IsSpace(s[k])
  {
    if s != [] && IsSpace(s[0]) {
      TrimLeftSuffix(s[1..]);
      assert forall k :: 1 <= k < |s| ==> s[k] == s[1..][k - 1];
    }
  }

  /** TrimRight leaves a prefix of s that does not end with whitespace, and drops only whitespace. */
  lemma {:induction false} TrimRightPrefix(s: String)
    ensures |TrimRight(s)| <= |s| && TrimRight(s) == s[..|TrimRight(s)|]
    ensures TrimRight(s) != [] ==> !IsSpace(TrimRight(s)[|TrimRight(s)| - 1])
    ensures forall k :: |TrimRight(s)| <= k < |s| ==> IsSpace(s[k])
  {
    if s != [] && IsSpace(s[|s| - 1]) {
      TrimRightPrefix(s[..|s| - 1]);
    }
  }

  /** The value string_trim leaves behind. */
  function Trimmed(s: String): String {
    TrimRight(TrimLeft(s))
  }

  /**
   * Trimmed(s) is the contiguous slice s[i..j] such that everything before
   * i and from j on is whitespace and the slice neither starts nor ends with
   * whitespace; an all-whitespace string trims to empty.
   */
  lemma TrimmedSlice(s: String) returns (i: nat, j: nat)
    ensures i <= j <= |s| && Trimmed(s) == s[i..j]
    ensures forall k :: 0 <= k < i ==> IsSpace(s[k])
    ensures forall k :: j <= k < |s| ==> IsSpace(s[k])
    ensures i < j ==> !IsSpace(s[i]) && !IsSpace(s[j - 1])
    ensures i == j <==> forall k :: 0 <= k < |s| ==> IsSpace(s[k])
  {
    var l := TrimLeft(s);
    var t := TrimRight(l);
    TrimLeftSuffix(s);
    TrimRightPrefix(l);
    i := |s| - |l|;
    j := i + |t|;
    assert t == s[i..j] by {
      assert l == s[i..];
      assert t == l[..|t|];
    }
    assert forall k :: j <= k < |s| ==> IsSpace(s[k]) by {
      forall k | j <= k < |s| ensures IsSpace(s[k]) {
        assert s[k] == l[k - i];
      }
    }
    assert i < j ==> s[i] == t[0] && s[j - 1] == t[|t| - 1];
  }

  /** string_trim: skip leading whitespace, then cut trailing whitespace. */
  method Trim(s: String) returns (r: String)
    ensures r == Trimmed(s)
  {
    var i := 0;
    while i < |s| && IsSpace(s[i])
      invariant 0 <= i <= |s|
      invariant TrimLeft(s[i..]) == TrimLeft(s)
    {
      TrimLeftStep(s, i);
      i := i + 1;
    }
    if i == |s| {
      return [];
    }
    assert TrimLeft(s[i..]) == s[i..];
    var p := |s|;
    ghost var rest := s[i..];
    assert s[i..p] == rest;
    assert TrimRight(s[i..p]) == TrimRight(rest);
    while IsSpace(s[p - 1])
      invariant i < p <= |s|
      invariant TrimRight(s[i..p]) == TrimRight(rest)
      decreases p
    {
      TrimRightStep(s, i, p);
      p := p - 1;
    }
    assert TrimRight(s[i..p]) == s[i..p];
    r := s[i..p];
  }

  lemma TrimLeftStep(s: String, i: nat)
    requires i < |s| && IsSpace(s[i])
    ensures TrimLeft(s[i..]) == TrimLeft(s[i + 1..])
  {
    assert s[i..][1..] == s[i + 1..];
  }

  lemma TrimRightStep(s: String, i: nat, p: nat)
    requires i < p <= |s| && IsSpace(s[p - 1])
    ensures TrimRight(s[i..p]) == TrimRight(s[i..p - 1])
  {
    assert s[i..p][..p - 1 - i] == s[i..p - 1];
  }

  // ----------------------------------------------------------------- mid

  predicate IsI32(x: int) { -0x8000_0000 <= x < 0x8000_0000 }

  function Min(a: int, b: int): int { if a <= b then a else b }

  /**
   * What string_mid writes: empty when length is 0 or start is outside the
   * string (a negative start, converted to u64, is never below the length);
   * up to length characters from start for a positive length; the rest of
   * the string from start for a negative length.
   */
  function MidOf(s: String, start: int, length: int): String {
    if length == 0 || start < 0 || start >= |s| then []
    else if length > 0 then s[start..Min(start + length, |s|)]
    else s[start..]
  }

  /** string_mid: copy characters from start into a fresh buffer. */
  method Mid(s: String, start: int, length: int) returns (r: String)
    requires IsI32(start) && IsI32(length)
    ensures r == MidOf(s, start, length)
  {
    if length == 0 || start < 0 || start >= |s| {
      return [];
    }
    r := [];
    var i := start;
    if length > 0 {
      while |r| < length && i < |s|
        invariant start <= i <= |s| && i == start + |r| && |r| <= length
        invariant r == s[start..i]
        decreases |s| - i
      {
        r := r + [s[i]];
        i := i + 1;
      }
    } else {
      while i < |s|
        invariant start <= i <= |s|
        invariant r == s[start..i]
      {
        r := r + [s[i]];
        i := i + 1;
      }
    }
  }

  /** A mid of positive length followed by the rest of the string is the rest of the string. */
  lemma MidThenRest(s: String, start: nat, n: nat)
    requires start < |s| && n > 0
    ensures MidOf(s, start, n) + MidOf(s, start + n, -1) == MidOf(s, start, -1)
    ensures |MidOf(s, start, n)| == Min(n, |s| - start)
  {
    if start + n < |s| {
      assert s[start..start + n] + s[start + n..] == s[start..];
    }
  }

  // ------------------------------------------------------------ index of

  /** The first index of c in s, or -1 when c does not occur. */
  function IndexOf(s: String, c: char): (r: int)
    ensures -1 <= r < |s|
    ensures r >= 0 ==> s[r] == c && forall k :: 0 <= k < r ==> s[k] != c
    ensures r == -1 <==> forall k :: 0 <= k < |s| ==> s[k] != c
  {
    if s == [] then -1
    else if s[0] == c then 0
    else
      var t := IndexOf(s[1..], c);
      assert forall k :: 1 <= k < |s| ==> s[k] == s[1..][k - 1];
      if t < 0 then -1 else t + 1
  }

  /** string_index_of_char: -1 for a null or empty string, else a linear scan. */
  method IndexOfChar(s: Option<String>, c: char) returns (r: int)
    ensures s.None? ==> r == -1
    ensures s.Some? ==> r == IndexOf(s.value, c)
  {
    if s.None? {
      return -1;
    }
    var str := s.value;
    if |str| == 0 {
      return -1;
    }
    var i := 0;
    while i < |str|
      invariant 0 <= i <= |str|
      invariant forall k :: 0 <= k < i ==> str[k] != c
    {
      if str[i] == c {
        return i;
      }
      i := i + 1;
    }
    return -1;
  }

  // ------------------------------------------------------------ equality

  /** tolower in the C locale. */
  function ToLower(c: char): char {
    if 'A' <= c <= 'Z' then (c as int + 32) as char else c
  }

  function Lower(s: String): (r: String)
    ensures |r| == |s| && forall i :: 0 <= i < |s| ==> r[i] == ToLower(s[i])
  {
    seq(|s|, i requires 0 <= i < |s| => ToLower(s[i]))
  }

  /** strings_equal: strcmp returns 0 exactly for equal strings. */
  predicate StringsEqual(a: String, b: String) { a == b }

  /** strings_equali: strcasecmp compares the strings character by character after tolower. */
  predicate StringsEqualI(a: String, b: String) {
    |a| == |b| && forall i :: 0 <= i < |a| ==> ToLower(a[i]) == ToLower(b[i])
  }

  /** Case-insensitive equality is equality of the lower-cased strings, hence an equivalence. */
  lemma EqualIIsLowerEqual(a: String, b: String)
    ensures StringsEqualI(a, b) <==> Lower(a) == Lower(b)
  {
    if Lower(a) == Lower(b) {
      assert |a| == |b|;
      forall i | 0 <= i < |a| ensures ToLower(a[i]) == ToLower(b[i]) {
        assert Lower(a)[i] == Lower(b)[i];
      }
    }
  }

  lemma EqualIEquivalence(a: String, b: String, c: String)
    ensures StringsEqualI(a, a)
    ensures StringsEqualI(a, b) ==> StringsEqualI(b, a)
    ensures StringsEqualI(a, b) && StringsEqualI(b, c) ==> StringsEqualI(a, c)
  {
    EqualIIsLowerEqual(a, a);
    EqualIIsLowerEqual(a, b);
    EqualIIsLowerEqual(b, a);
    EqualIIsLowerEqual(b, c);
    EqualIIsLowerEqual(a, c);
  }

  /** Two strings equal up to case match the same strings up to case. */
  lemma SameMatchesI(a: String, b: String, w: String)
    requires StringsEqualI(a, b)
    ensures StringsEqualI(a, w) <==> StringsEqualI(b, w)
  {
    EqualIEquivalence(a, b, w);
    EqualIEquivalence(b, a, w);
  }

  // -------------------------------------------------------------- to b8

  /** string_to_b8: None for a null string, else whether it reads "1" or "true" in any case. */
  function ToBool(s: Option<String>): (r: Option<bool>)
    ensures r.Some? <==> s.Some?
  {
    if s.None? then None else Some(StringsEqual(s.value, "1") || StringsEqualI(s.value, "true"))
  }

  /** The strings that parse as true are "1" and the spellings of "true" in any mix of cases. */
  lemma ToBoolTrueExactly(w: String)
    ensures ToBool(Some(w)) == Some(true) <==> w == "1" || Lower(w) == "true"
    ensures ToBool(Some("TRUE")) == Some(true) && ToBool(Some("0")) == Some(false)
  {
    EqualIIsLowerEqual(w, "true");
    assert Lower("true") == "true";
    EqualIIsLowerEqual("TRUE", "true");
    assert Lower("TRUE") == "true";
    assert !StringsEqualI("0", "true");
  }

  // --------------------------------------------------------------- split

  /** The pieces of s[..n] between occurrences of d, from left to right; "" has one empty piece. */
  function PiecesUpTo(s: String, d: char, n: nat): (ps: seq<String>)
    requires n <= |s|
    ensures |ps| >= 1
  {
    if n == 0 then [""]
    else
      var p := PiecesUpTo(s, d, n - 1);
      if s[n - 1] == d then p + [""] else p[..|p| - 1] + [p[|p| - 1] + [s[n - 1]]]
  }

  /** The pieces of s between occurrences of d. */
  function Pieces(s: String, d: char): (ps: seq<String>)
    ensures |ps| >= 1
  {
    PiecesUpTo(s, d, |s|)
  }

  /** The pieces of a prefix depend on the prefix only. */
  lemma {:induction false} PiecesPrefix(s: String, t: String, d: char, n: nat)
    requires n <= |s| && n <= |t|
    requires forall k :: 0 <= k < n ==> s[k] == t[k]
    ensures PiecesUpTo(s, d, n) == PiecesUpTo(t, d, n)
  {
    if n > 0 {
      PiecesPrefix(s, t, d, n - 1);
      var p := PiecesUpTo(s, d, n - 1);
      var c := s[n - 1];
      assert c == t[n - 1];
      assert PiecesUpTo(t, d, n) == if c == d then p + [""] else p[..|p| - 1] + [p[|p| - 1] + [c]];
    }
  }

  /** No piece contains the delimiter. */
  lemma {:induction false} PiecesNoDelimiter(s: String, d: char, n: nat)
    requires n <= |s|
    ensures forall i :: 0 <= i < |PiecesUpTo(s, d, n)| ==> d !in PiecesUpTo(s, d, n)[i]
  {
    if n > 0 {
      PiecesNoDelimiter(s, d, n - 1);
      var p := PiecesUpTo(s, d, n - 1);
      var c := s[n - 1];
      if c != d {
        var last := p[|p| - 1] + [c];
        assert d !in last by {
          assert forall k :: 0 <= k < |p[|p| - 1]| ==> last[k] == p[|p| - 1][k];
        }
      }
    }
  }

  /** The pieces glued back together with the delimiter. */
  function Join(ps: seq<String>, d: char): String
    requires |ps| >= 1
  {
    if |ps| == 1 then ps[0] else Join(ps[..|ps| - 1], d) + [d] + ps[|ps| - 1]
  }

  lemma {:induction false} JoinAppendLast(ps: seq<String>, d: char, c: char)
    requires |ps| >= 1
    ensures Join(ps[..|ps| - 1] + [ps[|ps| - 1] + [c]], d) == Join(ps, d) + [c]
  {
    var qs := ps[..|ps| - 1] + [ps[|ps| - 1] + [c]];
    assert qs[..|qs| - 1] == ps[..|ps| - 1];
  }

  /** Joining the pieces of a prefix gives back the prefix. */
  lemma {:induction false} JoinPiecesUpTo(s: String, d: char, n: nat)
    requires n <= |s|
    ensures Join(PiecesUpTo(s, d, n), d) == s[..n]
  {
    if n > 0 {
      JoinPiecesUpTo(s, d, n - 1);
      var p := PiecesUpTo(s, d, n - 1);
      if s[n - 1] == d {
        assert (p + [""])[..|p|] == p;
      } else {
        JoinAppendLast(p, d, s[n - 1]);
      }
      SnocSlice(s, n);
    }
  }

  lemma SnocSlice(s: String, n: nat)
    requires 0 < n <= |s|
    ensures s[..n] == s[..n - 1] + [s[n - 1]]
  {
  }

  /** The characters of a + b + c, part by part. */
  lemma ThreeParts(a: String, b: String, c: String)
    ensures forall k :: 0 <= k < |a| ==> (a + b + c)[k] == a[k]
    ensures forall k :: 0 <= k < |b| ==> (a + b + c)[|a| + k] == b[k]
    ensures forall k :: 0 <= k < |c| ==> (a + b + c)[|a| + |b| + k] == c[k]
    ensures (a + b + c)[|a| + |b|..] == c
    ensures (a + b + c)[..|a| + |b|] == a + b
  {
  }

  /** Splitting and joining again gives back the input. */
  lemma JoinPieces(s: String, d: char)
    ensures Join(Pieces(s, d), d) == s
  {
    JoinPiecesUpTo(s, d, |s|);
    assert s[..|s|] == s;
  }

  /** Delimiter-free characters after position m extend the last piece. */
  lemma {:induction false} PiecesAppendPlain(y: String, d: char, m: nat, k: nat, a: seq<String>, last: String)
    requires m + k <= |y| && PiecesUpTo(y, d, m) == a + [last]
    requires forall j :: m <= j < m + k ==> y[j] != d
    ensures PiecesUpTo(y, d, m + k) == a + [last + y[m..m + k]]
  {
    if k == 0 {
      assert last + y[m..m] == last;
    } else {
      PiecesAppendPlain(y, d, m, k - 1, a, last);
      var q := a + [last + y[m..m + k - 1]];
      assert q[..|q| - 1] == a;
      assert (last + y[m..m + k - 1]) + [y[m + k - 1]] == last + y[m..m + k];
    }
  }

  /** Joining delimiter-free pieces and splitting again gives back the pieces. */
  lemma {:induction false} PiecesJoin(ps: seq<String>, d: char)
    requires |ps| >= 1
    requires forall i :: 0 <= i < |ps| ==> d !in ps[i]
    ensures Pieces(Join(ps, d), d) == ps
    decreases |ps|
  {
    var last := ps[|ps| - 1];
    if |ps| == 1 {
      PiecesOfPlain(last, d);
      assert [last] == ps;
    } else {
      var init := ps[..|ps| - 1];
      PiecesJoin(init, d);
      assert Join(ps, d) == Join(init, d) + [d] + last;
      PiecesJoinStep(init, last, d);
      assert init + [last] == ps;
    }
  }

  /** A string without the delimiter is one piece. */
  lemma PiecesOfPlain(s: String, d: char)
    requires d !in s
    ensures Pieces(s, d) == [s]
  {
    assert PiecesUpTo(s, d, 0) == [] + [""];
    PiecesAppendPlain(s, d, 0, |s|, [], "");
    assert "" + s[0..|s|] == s;
  }

  /** One more piece behind a delimiter becomes one more piece of the split. */
  lemma PiecesJoinStep(init: seq<String>, last: String, d: char)
    requires |init| >= 1 && Pieces(Join(init, d), d) == init
    requires d !in last
    ensures Pieces(Join(init, d) + [d] + last, d) == init + [last]
  {
    var j := Join(init, d);
    var y := j + [d] + last;
    DelimiterThenPlain(j, d, last);
    PiecesPrefix(y, j, d, |j|);
    assert PiecesUpTo(y, d, |j| + 1) == init + [""];
    PiecesAfterDelimiter(y, d, |j| + 1, init);
  }

  /** The characters of j + [d] + last when last holds no d. */
  lemma DelimiterThenPlain(j: String, d: char, last: String)
    requires d !in last
    ensures forall k :: 0 <= k < |j| ==> (j + [d] + last)[k] == j[k]
    ensures (j + [d] + last)[|j|] == d
    ensures forall i :: |j| + 1 <= i < |j + [d] + last| ==> (j + [d] + last)[i] != d
    ensures (j + [d] + last)[|j| + 1..] == last
  {
    var y := j + [d] + last;
    ThreeParts(j, [d], last);
    forall i | |j| + 1 <= i < |y| ensures y[i] != d {
      assert y[|j| + 1 + (i - |j| - 1)] == last[i - |j| - 1];
    }
  }

  /** After a delimiter at m - 1, a delimiter-free rest of y is the last piece. */
  lemma PiecesAfterDelimiter(y: String, d: char, m: nat, a: seq<String>)
    requires 0 < m <= |y| && PiecesUpTo(y, d, m) == a + [""]
    requires forall j :: m <= j < |y| ==> y[j] != d
    ensures Pieces(y, d) == a + [y[m..]]
  {
    PiecesAppendPlain(y, d, m, |y| - m, a, "");
    assert "" + y[m..m + (|y| - m)] == y[m..];
  }

  /** A piece as it is stored: trimmed when trimming is asked for. */
  function Entry(p: String, trim: bool): String {
    if trim then Trimmed(p) else p
  }

  /** The entries kept from the pieces: each piece's entry, unless it is empty and empty entries are not wanted. */
  function Keep(ps: seq<String>, trim: bool, includeEmpty: bool): seq<String> {
    if ps == [] then []
    else
      var e := Entry(ps[|ps| - 1], trim);
      Keep(ps[..|ps| - 1], trim, includeEmpty) + (if |e| > 0 || includeEmpty then [e] else [])
  }

  /** The entries string_split is meant to append, in order. */
  function Split(s: String, d: char, trim: bool, includeEmpty: bool): seq<String> {
    Keep(Pieces(s, d), trim, includeEmpty)
  }

  lemma {:induction false} KeepProperties(ps: seq<String>, d: char, trim: bool, includeEmpty: bool)
    requires forall i :: 0 <= i < |ps| ==> d !in ps[i]
    ensures |Keep(ps, trim, includeEmpty)| <= |ps|
    ensures forall i :: 0 <= i < |Keep(ps, trim, includeEmpty)| ==> d !in Keep(ps, trim, includeEmpty)[i]
    ensures !includeEmpty ==> forall i :: 0 <= i < |Keep(ps, trim, includeEmpty)| ==> Keep(ps, trim, includeEmpty)[i] != []
    ensures !trim && includeEmpty ==> Keep(ps, trim, includeEmpty) == ps
  {
    if ps != [] {
      var init := ps[..|ps| - 1];
      KeepProperties(init, d, trim, includeEmpty);
      var last := ps[|ps| - 1];
      if trim {
        var i, j := TrimmedSlice(last);
        assert forall k :: 0 <= k < |Trimmed(last)| ==> Trimmed(last)[k] == last[i + k];
      }
      assert init + [last] == ps;
    }
  }

  /**
   * What split promises about its entries: none contains the delimiter;
   * without include_empty none is empty; with include_empty and no trimming
   * they are exactly the pieces, so joining them gives back the input.
   */
  lemma SplitProperties(s: String, d: char, trim: bool, includeEmpty: bool)
    ensures forall i :: 0 <= i < |Split(s, d, trim, includeEmpty)| ==> d !in Split(s, d, trim, includeEmpty)[i]
    ensures !includeEmpty ==> forall i :: 0 <= i < |Split(s, d, trim, includeEmpty)| ==> Split(s, d, trim, includeEmpty)[i] != []
    ensures !trim && includeEmpty ==> |Split(s, d, trim, includeEmpty)| >= 1 && Join(Split(s, d, trim, includeEmpty), d) == s
  {
    PiecesNoDelimiter(s, d, |s|);
    KeepProperties(Pieces(s, d), d, trim, includeEmpty);
    JoinPieces(s, d);
  }

  /**
   * string_split with the entry appended (the intended behaviour): every
   * kept entry is pushed onto the caller's array and the count of kept
   * entries is returned; a null string gives 0 and appends nothing.
   */
  method StringSplit(s: Option<String>, d: char, acc: seq<String>, trim: bool, includeEmpty: bool)
    returns (count: nat, out: seq<String>)
    ensures s.None? ==> count == 0 && out == acc
    ensures s.Some? ==> out == acc + Split(s.value, d, trim, includeEmpty)
    ensures |out| == |acc| + count
  {
    if s.None? {
      return 0, acc;
    }
    var str := s.value;
    count, out := 0, acc;
    var cur: String := [];
    ghost var done: seq<String> := [];
    var i := 0;
    while i < |str|
      invariant 0 <= i <= |str|
      invariant PiecesUpTo(str, d, i) == done + [cur]
      invariant out == acc + Keep(done, trim, includeEmpty)
      invariant |out| == |acc| + count
    {
      done, cur, count, out := SplitChar(str, d, i, done, cur, count, out, acc, trim, includeEmpty);
      i := i + 1;
    }
    assert Pieces(str, d) == done + [cur];
    KeepSnoc(done, cur, trim, includeEmpty);
    count, out := PushEntry(count, out, cur, trim, includeEmpty);
    assert out == acc + Keep(done + [cur], trim, includeEmpty);
  }

  /** One character of string_split's loop: a delimiter closes the current piece, anything else extends it. */
  method SplitChar(str: String, d: char, i: nat, ghost done: seq<String>, cur: String, count: nat, out: seq<String>,
                   ghost acc: seq<String>, trim: bool, includeEmpty: bool)
    returns (ghost done2: seq<String>, cur2: String, count2: nat, out2: seq<String>)
    requires i < |str| && PiecesUpTo(str, d, i) == done + [cur]
    requires out == acc + Keep(done, trim, includeEmpty) && |out| == |acc| + count
    ensures PiecesUpTo(str, d, i + 1) == done2 + [cur2]
    ensures out2 == acc + Keep(done2, trim, includeEmpty) && |out2| == |acc| + count2
  {
    PiecesStep(str, d, i + 1, done, cur);
    if str[i] == d {
      KeepSnoc(done, cur, trim, includeEmpty);
      count2, out2 := PushEntry(count, out, cur, trim, includeEmpty);
      done2, cur2 := done + [cur], [];
      AppendAssoc(acc, Keep(done, trim, includeEmpty), out2[|out|..]);
    } else {
      done2, cur2, count2, out2 := done, cur + [str[i]], count, out;
    }
  }

  lemma AppendAssoc(a: seq<String>, b: seq<String>, c: seq<String>)
    ensures a + b + c == a + (b + c)
  {
  }

  /** The end of one piece: its entry (trimmed if asked) is pushed unless it is empty and empty entries are not wanted. */
  method PushEntry(count: nat, out: seq<String>, cur: String, trim: bool, includeEmpty: bool)
    returns (count2: nat, out2: seq<String>)
    ensures var kept := if |Entry(cur, trim)| > 0 || includeEmpty then [Entry(cur, trim)] else [];
      out2 == out + kept && count2 == count + |kept|
  {
    var e := cur;
    if trim && |cur| > 0 {
      e := Trim(cur);
    }
    count2, out2 := count, out;
    if |e| > 0 || includeEmpty {
      out2 := out + [e];
      count2 := count + 1;
    }
  }

  /** One more character: a delimiter starts a new piece, anything else extends the last one. */
  lemma PiecesStep(s: String, d: char, n: nat, done: seq<String>, cur: String)
    requires 0 < n <= |s| && PiecesUpTo(s, d, n - 1) == done + [cur]
    ensures PiecesUpTo(s, d, n) == if s[n - 1] == d then done + [cur] + [""] else done + [cur + [s[n - 1]]]
  {
    assert (done + [cur])[..|done|] == done;
  }

  lemma KeepSnoc(done: seq<String>, cur: String, trim: bool, includeEmpty: bool)
    ensures Keep(done + [cur], trim, includeEmpty)
      == Keep(done, trim, includeEmpty) + (if |Entry(cur, trim)| > 0 || includeEmpty then [Entry(cur, trim)] else [])
  {
    assert (done + [cur])[..|done|] == done;
  }

  // ---------------------------------------------- split as written (pop)

  /** darray_pop applied n times; popping an empty array is undefined (None). */
  function PopN(a: seq<String>, n: nat): Option<seq<String>> {
    if n == 0 then Some(a)
    else if a == [] then None
    else PopN(a[..|a| - 1], n - 1)
  }

  /**
   * string_split as written: every kept entry before the last delimiter is
   * passed to darray_pop instead of darray_push, and only the final entry
   * is pushed. None stands for a pop of an empty array.
   */
  function SplitAsWritten(s: String, d: char, acc: seq<String>, trim: bool, includeEmpty: bool): Option<seq<String>> {
    var ps := Pieces(s, d);
    var n := |Keep(ps[..|ps| - 1], trim, includeEmpty)|;
    match PopN(acc, n)
    case None => None
    case Some(a) => Some(a + Keep([ps[|ps| - 1]], trim, includeEmpty))
  }

  /**
   * "a,b" split on ',' counts two entries, but as written the first entry
   * pops the caller's fresh empty array, so the array the shader loader then
   * indexes never holds both entries; the corrected Split appends ["a", "b"].
   */
  lemma SplitAsWrittenLosesEntries()
    ensures SplitAsWritten("a,b", ',', [], false, false) == None
    ensures SplitAsWritten("a,b", ',', ["x"], false, false) == Some(["b"])
    ensures Split("a,b", ',', false, false) == ["a", "b"]
  {
    PiecesAB();
    var ps: seq<String> := ["a", "b"];
    assert ps[..|ps| - 1] == ["a"];
    KeepOne("a");
    KeepOne("b");
    assert Keep(ps, false, false) == ["a", "b"] by {
      assert ps[..1] == ["a"];
    }
    assert ["x"][..0] == [];
  }

  lemma PiecesAB()
    ensures Pieces("a,b", ',') == ["a", "b"]
  {
    var s := "a,b";
    assert s[0] == 'a' && s[1] == ',' && s[2] == 'b';
    var p0 := PiecesUpTo(s, ',', 0);
    assert p0 == [""];
    var p1 := PiecesUpTo(s, ',', 1);
    assert p1 == p0[..0] + [p0[0] + ['a']];
    assert p0[0] + ['a'] == ['a'];
    assert p1 == ["a"];
    var p2 := PiecesUpTo(s, ',', 2);
    assert p2 == p1 + [""];
    var p3 := PiecesUpTo(s, ',', 3);
    assert p3 == p2[..1] + [p2[1] + ['b']];
    assert p2[..1] == ["a"] && p2[1] + ['b'] == "b";
  }

  lemma KeepOne(e: String)
    requires |e| > 0
    ensures Keep([e], false, false) == [e]
  {
    assert [e][..0] == [];
  }

  // ------------------------------------------ split as written (last entry)

  /**
   * The last entry as written, when trimming is asked for and the final
   * piece is not empty: string_trim reads the 16384-byte buffer as a C
   * string, and the buffer holds the piece followed by `rest`. A delimiter
   * clears the buffer, so `rest` is zeros after one; before any delimiter
   * it is whatever the stack held.
   */
  function LastEntryAsWritten(cur: String, rest: seq<char>): String {
    Trimmed(CString(cur + rest))
  }

  /** After a delimiter the buffer behind the piece is cleared, and the last entry is the intended one. */
  lemma LastEntryClearedBuffer(cur: String, rest: seq<char>)
    requires '\0' !in cur && rest != [] && rest[0] == '\0'
    ensures LastEntryAsWritten(cur, rest) == Entry(cur, true)
  {
    var b := cur + rest;
    assert b[..|cur|] == cur;
    CStringAt(b, |cur|);
  }

  /**
   * "ab" split with trimming has no delimiter, so its buffer was never
   * cleared: a stray 'c' after the piece becomes part of the entry. The
   * intended entry is "ab".
   */
  lemma LastEntryReadsStack()
    ensures LastEntryAsWritten("ab", "c\0") == "abc"
    ensures Entry("ab", true) == "ab"
  {
    var b := "abc\0";
    assert b == "ab" + "c\0";
    assert b[..3] == "abc" && b[3] == '\0';
    CStringAt(b, 3);
    var s: String := "abc";
    assert !IsSpace(s[0]) && !IsSpace(s[2]);
    var t: String := "ab";
    assert !IsSpace(t[0]) && !IsSpace(t[1]);
  }

  // ------------------------------------------------- buffers: empty, duplicate

  /** The C string a NUL-terminated buffer holds: its characters before the first NUL. */
  function CString(b: seq<char>): (s: String)
    ensures '\0' !in s && |s| <= |b| && s == b[..|s|]
    ensures |s| < |b| ==> b[|s|] == '\0'
  {
    if b == [] || b[0] == '\0' then [] else [b[0]] + CString(b[1..])
  }

  /** A buffer whose first NUL is at n holds exactly its first n characters. */
  lemma {:induction false} CStringAt(b: seq<char>, n: nat)
    requires n < |b| && b[n] == '\0' && '\0' !in b[..n]
    ensures CString(b) == b[..n]
  {
    if n > 0 {
      assert b[1..][..n - 1] == b[1..n];
      assert '\0' !in b[1..][..n - 1];
      CStringAt(b[1..], n - 1);
      assert b[..n] == [b[0]] + b[1..n];
    }
  }

  /** string_length: the index of the terminating NUL. */
  method StringLength(str: array<char>) returns (n: nat)
    requires '\0' in str[..]
    ensures n < str.Length && str[n] == '\0' && n == |CString(str[..])|
  {
    n := 0;
    while str[n] != '\0'
      invariant n < str.Length && '\0' in str[n..]
      invariant '\0' !in str[..n]
      decreases str.Length - n
    {
      assert str[n..] == [str[n]] + str[n + 1..];
      assert str[..n + 1] == str[..n] + [str[n]];
      n := n + 1;
    }
    CStringAt(str[..], n);
  }

  /** string_empty: a non-null string becomes "" by a NUL in its first byte; the rest of the buffer is untouched. */
  method StringEmpty(str: array?<char>) returns (r: array?<char>)
    requires str != null ==> '\0' in str[..]
    modifies str
    ensures r == str
    ensures str != null ==> CString(str[..]) == [] && str[1..] == old(str[1..])
  {
    if str != null {
      str[0] := '\0';
    }
    return str;
  }

  /** string_duplicate: a new buffer of length + 1 characters holding the same string and its terminator. */
  method StringDuplicate(str: array<char>) returns (copy: array<char>)
    requires '\0' in str[..]
    ensures fresh(copy)
    ensures copy[..] == CString(str[..]) + ['\0']
    ensures CString(copy[..]) == CString(str[..])
  {
    var length := StringLength(str);
    copy := new char[length + 1];
    for i := 0 to length + 1
      invariant copy[..i] == str[..i]
    {
      copy[i] := str[i];
    }
    assert copy[..] == copy[..length + 1];
    assert copy[..length] == str[..length];
    CStringAt(copy[..], length);
  }
}
