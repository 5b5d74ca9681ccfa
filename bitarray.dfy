// Bits packed into u64 words (engine/src/containers/bitarray.c).
//
// Bit i of the array is bit i % 64 of word i / 64. A u64 word is modelled
// by its 64 bits, lowest first, so the shifts and masks of the C become the
// bit patterns they build: `((1 << width) - 1) << off` is the word whose bits
// off .. off + width - 1 are set, `~0 << off` the word whose bits from off
// upward are set, and `&`, `|`, `~` act bit by bit.
module BitArray {
  import opened Wrappers

  /** A u64 word as its 64 bits; w[j] is (w >> j) & 1. */
  type Word = w: seq<bool> | |w| == 64 witness seq(64, _ => false)

  const ZERO: Word := seq(64, _ => false)

  /** bit_flood(value & 1): every bit equal to value (0 or ~0). */
  function Flood(value: bool): Word
  {
    seq(64, _ => value)
  }

  /** The mask whose bits lo .. hi - 1 are set. */
  function RangeMask(lo: nat, hi: nat): Word
  {
    seq(64, j => lo <= j < hi)
  }

  /** (w & ~mask) | (flooded & mask), as SET and SET_BIT_RANGE write it. */
  function Merge(w: Word, flooded: Word, mask: Word): Word
  {
    seq(64, j requires 0 <= j < 64 => if mask[j] then flooded[j] else w[j])
  }

  function Not(w: Word): Word
  {
    seq(64, j requires 0 <= j < 64 => !w[j])
  }

  function And(w: Word, m: Word): Word
  {
    seq(64, j requires 0 <= j < 64 => w[j] && m[j])
  }

  /** Number of true bits. */
  function CountTrue(s: seq<bool>): (n: nat)
    ensures n <= |s|
  {
    if s == [] then 0 else (if s[0] then 1 else 0) + CountTrue(s[1..])
  }

  /** platform_popcount64. */
  function Popcount(w: Word): nat
  {
    CountTrue(w)
  }

  /** Index of the lowest true bit, or |s| when there is none (platform_ctz for s != 0). */
  function FirstTrue(s: seq<bool>): (r: nat)
    ensures r <= |s|
    ensures r < |s| ==> s[r]
    ensures forall i :: 0 <= i < r ==> !s[i]
  {
    if s == [] then 0 else if s[0] then 0 else 1 + FirstTrue(s[1..])
  }

  /** DIV_CEIL(length, 64): the number of words the bits occupy. */
  function Chunks(length: nat): (n: nat)
    ensures length <= 64 * n < length + 64
  {
    (length + 63) / 64
  }

  /** The bits of the words, word 0 first. */
  function Flatten(ws: seq<Word>): (r: seq<bool>)
    ensures |r| == 64 * |ws|
  {
    if ws == [] then [] else ws[0] + Flatten(ws[1..])
  }

  /** Bit i of the flattened words is bit i % 64 of word i / 64 (CHUNK and INDEX). */
  lemma {:induction false} FlattenIndex(ws: seq<Word>, i: nat)
    requires i < 64 * |ws|
    ensures Flatten(ws)[i] == ws[i / 64][i % 64]
  {
    if i >= 64 {
      FlattenIndex(ws[1..], i - 64);
      assert (i - 64) / 64 == i / 64 - 1;
    }
  }

  lemma {:induction false} FlattenSnoc(ws: seq<Word>, w: Word)
    ensures Flatten(ws + [w]) == Flatten(ws) + w
  {
    if ws != [] {
      assert (ws + [w])[1..] == ws[1..] + [w];
      FlattenSnoc(ws[1..], w);
    }
  }

  lemma {:induction false} CountAppend(a: seq<bool>, b: seq<bool>)
    ensures CountTrue(a + b) == CountTrue(a) + CountTrue(b)
  {
    if a != [] {
      assert (a + b)[0] == a[0];
      assert (a + b)[1..] == a[1..] + b;
      CountAppend(a[1..], b);
    } else {
      assert a + b == b;
    }
  }

  lemma {:induction false} CountFalse(n: nat)
    ensures CountTrue(seq(n, _ => false)) == 0
  {
    if n > 0 {
      assert seq(n, _ => false)[1..] == seq(n - 1, _ => false);
      CountFalse(n - 1);
    }
  }

  /** Masking a word to its low r bits keeps the count of those bits. */
  lemma LowBitsCount(w: Word, r: nat)
    requires r <= 64
    ensures Popcount(And(w, RangeMask(0, r))) == CountTrue(w[..r])
  {
    assert And(w, RangeMask(0, r)) == w[..r] + seq(64 - r, _ => false);
    CountAppend(w[..r], seq(64 - r, _ => false));
    CountFalse(64 - r);
  }

  /** The bits of the first k words are the first 64 * k flattened bits. */
  lemma FlattenPrefix(ws: seq<Word>, k: nat)
    requires k <= |ws|
    ensures Flatten(ws[..k]) == Flatten(ws)[..64 * k]
  {
    forall i | 0 <= i < 64 * k
      ensures Flatten(ws[..k])[i] == Flatten(ws)[i]
    {
      FlattenIndex(ws[..k], i);
      FlattenIndex(ws, i);
    }
  }

  /** bits with [lo, hi) set to value. */
  function FillBits(bits: seq<bool>, value: bool, lo: nat, hi: nat): (r: seq<bool>)
    ensures |r| == |bits|
  {
    seq(|bits|, i requires 0 <= i < |bits| => if lo <= i < hi then value else bits[i])
  }

  /** Filling a range twice is filling it once; the bits outside it are never touched. */
  lemma FillBitsIdempotent(bits: seq<bool>, value: bool, lo: nat, hi: nat)
    ensures FillBits(FillBits(bits, value, lo, hi), value, lo, hi) == FillBits(bits, value, lo, hi)
    ensures forall i :: 0 <= i < |bits| && !(lo <= i < hi) ==> FillBits(bits, value, lo, hi)[i] == bits[i]
  {
  }

  /**
   * The smallest i in [start, end) with bits[i] == val, or end when there is
   * none (and when start >= end).
   */
  function FirstMatch(bits: seq<bool>, start: nat, end: nat, val: bool): (r: nat)
    requires start < end ==> end <= |bits|
    ensures start >= end ==> r == end
    ensures start < end ==> start <= r <= end
    decreases end - start
  {
    if start >= end then end
    else if bits[start] == val then start
    else FirstMatch(bits, start + 1, end, val)
  }

  /** FirstMatch finds a bit equal to val, and none before it in the range. */
  lemma {:induction false} FirstMatchFinds(bits: seq<bool>, start: nat, end: nat, val: bool)
    requires start < end ==> end <= |bits|
    ensures var r := FirstMatch(bits, start, end, val);
      (start <= r < end ==> bits[r] == val)
      && forall i :: start <= i < r && i < end ==> bits[i] != val
    decreases end - start
  {
    if start < end && bits[start] != val {
      FirstMatchFinds(bits, start + 1, end, val);
    }
  }

  /** Any index with FirstMatch's properties is FirstMatch. */
  lemma FirstMatchUnique(bits: seq<bool>, start: nat, end: nat, val: bool, r: nat)
    requires start < end <= |bits|
    requires start <= r <= end
    requires r < end ==> bits[r] == val
    requires forall i :: start <= i < r ==> bits[i] != val
    ensures r == FirstMatch(bits, start, end, val)
  {
    FirstMatchFinds(bits, start, end, val);
  }

  /** Setting value anywhere in [start, end) makes it found no later than there. */
  lemma {:induction false} FirstMatchAfterSet(bits: seq<bool>, start: nat, end: nat, val: bool, k: nat)
    requires start <= k < end <= |bits|
    ensures FirstMatch(bits[k := val], start, end, val) <= k
    ensures bits[k] == val ==> FirstMatch(bits[k := val], start, end, val) == FirstMatch(bits, start, end, val)
    decreases end - start
  {
    if start < k && bits[start] != val {
      FirstMatchAfterSet(bits, start + 1, end, val, k);
    }
  }

  /** The bytes bitarray_create should ask for: whole u64 words. */
  function WordBytes(length: nat): (r: nat)
    ensures r % 8 == 0
    ensures forall i :: 0 <= i < length ==> 8 * (i / 64) + 8 <= r
  {
    8 * Chunks(length)
  }

  class BitArray {
    var length: nat
    var words: array<Word>

    ghost predicate Valid()
      reads this
    {
      words.Length == Chunks(length)
    }

    /** The bits below length. */
    ghost function Bits(): (r: seq<bool>)
      requires Valid()
      reads this, words
      ensures |r| == length
    {
      Flatten(words[..])[..length]
    }

    /**
     * bitarray_create with memory supplied: the words hold whatever the
     * memory held, and bitarray_fill(false) clears every bit below length.
     */
    constructor (length: nat, memory: seq<Word>)
      requires |memory| == Chunks(length)
      ensures Valid() && this.length == length && fresh(words)
      ensures Bits() == seq(length, _ => false)
    {
      this.length := length;
      words := new Word[|memory|](i requires 0 <= i < |memory| => memory[i]);
      new;
      Fill(false);
    }

    /** bitarray_destroy: no bits and no words. */
    method Destroy()
      modifies this
      ensures Valid() && length == 0 && words.Length == 0
    {
      length := 0;
      words := new Word[0];
    }

    /**
     * bitarray_set: false, with nothing changed, for an index at or past
     * length; otherwise only that bit becomes value.
     */
    method Set(value: bool, index: nat) returns (ok: bool)
      requires Valid()
      modifies words
      ensures ok <==> index < length
      ensures ok ==> Flatten(words[..]) == Flatten(old(words[..]))[index := value]
      ensures !ok ==> words[..] == old(words[..])
    {
      if index >= length {
        return false;
      }
      ghost var before := words[..];
      var chunk := index / 64;
      words[chunk] := Merge(words[chunk], Flood(value), RangeMask(index % 64, index % 64 + 1));
      forall i | 0 <= i < 64 * words.Length
        ensures Flatten(words[..])[i] == Flatten(before)[index := value][i]
      {
        FlattenIndex(words[..], i);
        FlattenIndex(before, i);
        FlattenIndex(before, index);
      }
      ok := true;
    }

    /** bitarray_test: the stored bit, or false out of range. */
    method Test(index: nat) returns (r: bool)
      requires Valid()
      ensures r == (index < length && Bits()[index])
    {
      if index >= length {
        return false;
      }
      r := words[index / 64][index % 64];
      FlattenIndex(words[..], index);
    }

    /** bitarray_fill: every bit below length becomes value. */
    method Fill(value: bool)
      requires Valid()
      modifies words
      ensures Flatten(words[..]) == FillBits(Flatten(old(words[..])), value, 0, length)
      ensures Bits() == seq(length, _ => value)
    {
      FillWords(value, 0, length);
      assert forall i :: 0 <= i < length ==> Bits()[i] == value;
    }

    /**
     * bitarray_fill_range: false, with nothing changed, when start + size
     * passes length; otherwise the bits in [start, start + size) become
     * value and every other bit keeps its value.
     */
    method FillRange(value: bool, start: nat, size: nat) returns (ok: bool)
      requires Valid()
      modifies words
      ensures ok <==> start + size <= length
      ensures ok ==> Flatten(words[..]) == FillBits(Flatten(old(words[..])), value, start, start + size)
      ensures !ok ==> words[..] == old(words[..])
    {
      if start + size > length {
        return false;
      }
      FillWords(value, start, start + size);
      ok := true;
    }

    /**
     * fill_range: the range's first word under a head mask, the whole words
     * after it set with kset_memory, and the last word under a tail mask; a
     * range inside one word takes one mask.
     */
    method FillWords(value: bool, start: nat, end: nat)
      requires Valid() && start <= end <= length
      modifies words
      ensures Flatten(words[..]) == FillBits(Flatten(old(words[..])), value, start, end)
    {
      ghost var before := words[..];
      if start / 64 == end / 64 {
        FillInWord(value, start, end);
      } else {
        FillAcross(value, start, end);
      }
      FilledWords(before, words[..], value, start, end);
    }

    /** A range inside one word: that word is merged under the range's mask. */
    method FillInWord(value: bool, start: nat, end: nat)
      requires Valid() && start <= end <= length && start / 64 == end / 64
      modifies words
      ensures WordsFilled(old(words[..]), words[..], value, start, end)
    {
      var chunk := start / 64;
      // An empty range ending on the word boundary at the array's end
      // names no word; the mask is empty and nothing changes.
      if chunk < words.Length {
        words[chunk] := Merge(words[chunk], Flood(value), RangeMask(start % 64, end % 64));
      }
    }

    /**
     * A range over several words: the tail of the first word from start,
     * every whole word between, and the head of the word holding end.
     */
    method FillAcross(value: bool, start: nat, end: nat)
      requires Valid() && start <= end <= length && start / 64 < end / 64
      modifies words
      ensures WordsFilled(old(words[..]), words[..], value, start, end)
    {
      var flooded := Flood(value);
      var endChunk := end / 64;
      var sc := start / 64;
      if start % 64 > 0 {
        words[sc] := Merge(words[sc], flooded, RangeMask(start % 64, 64));
        sc := sc + 1;
      }
      if endChunk > sc {
        forall k | sc <= k < endChunk {
          words[k] := flooded;
        }
      }
      if end % 64 > 0 {
        words[endChunk] := Merge(words[endChunk], flooded, RangeMask(0, end % 64));
      }
    }

    /**
     * bitarray_count_set as intended: the whole words below length, then the
     * low length % 64 bits of the partial last word. The count is the number
     * of true bits below length.
     */
    method CountSet() returns (count: nat)
      requires Valid()
      ensures count == CountTrue(Bits())
    {
      count := 0;
      var full := length / 64;
      for i := 0 to full
        invariant count == CountTrue(Flatten(words[..i]))
      {
        assert words[..i + 1] == words[..i] + [words[i]];
        FlattenSnoc(words[..i], words[i]);
        CountAppend(Flatten(words[..i]), words[i]);
        count := count + Popcount(words[i]);
      }
      FlattenPrefix(words[..], full);
      assert words[..full] == words[..][..full];
      var remaining := length % 64;
      if remaining > 0 {
        var last := And(words[full], RangeMask(0, remaining));
        LowBitsCount(words[full], remaining);
        FlattenPrefix(words[..], full + 1);
        assert words[..][..full + 1] == words[..full] + [words[full]];
        FlattenSnoc(words[..full], words[full]);
        assert Bits() == Flatten(words[..full]) + words[full][..remaining];
        CountAppend(Flatten(words[..full]), words[full][..remaining]);
        count := count + Popcount(last);
      } else {
        assert Bits() == Flatten(words[..full]);
      }
    }

    /**
     * bitarray_find_first: the smallest index in [start, end) whose bit is
     * val, else end. The first word is searched from start's offset up, then
     * whole words up to the one holding end - 1.
     */
    method FindFirst(start: nat, end: nat, val: bool) returns (r: nat)
      requires Valid() && (start < end ==> end <= 64 * words.Length)
      ensures r == FirstMatch(Flatten(words[..]), start, end, val)
    {
      if start >= end {
        return end;
      }
      ChunkOf(start);
      ChunkOf(end - 1);
      var chunk := start / 64;
      var offset := start % 64;
      var data := words[chunk];
      if !val {
        data := Not(data);
      }
      data := And(data, RangeMask(offset, 64));
      WordMatches(words[..], chunk, offset, val);
      r := FirstWordOrScan(start, end, val, chunk, data);
    }

    /**
     * bitarray_find_first after its first word: a set bit in the word view
     * gives the answer, capped at end; otherwise the scan goes on with the
     * next word.
     */
    method FirstWordOrScan(start: nat, end: nat, val: bool, chunk: nat, data: Word) returns (r: nat)
      requires Valid() && start < end <= 64 * words.Length
      requires 64 * chunk <= start < 64 * chunk + 64 && 64 * chunk <= end - 1
      requires forall j :: 0 <= j < 64 ==> data[j] == (start <= 64 * chunk + j && Flatten(words[..])[64 * chunk + j] == val)
      ensures r == FirstMatch(Flatten(words[..]), start, end, val)
    {
      ghost var bits := Flatten(words[..]);
      if data != ZERO {
        var found := FirstTrue(data);
        var index := chunk * 64 + found;
        r := if index < end then index else end;
        FoundInWord(bits, start, end, val, chunk, data);
      } else {
        NoneInWord(bits, start, val, chunk, data);
        ChunkOf(end - 1);
        r := ScanWords(start, end, val, chunk + 1);
      }
    }

    /**
     * The loop of bitarray_find_first: whole words from chunk up to the one
     * holding end - 1, with no match in [start, 64 * chunk) already known.
     */
    method ScanWords(start: nat, end: nat, val: bool, chunk: nat) returns (r: nat)
      requires Valid() && start < end <= 64 * words.Length
      requires start < 64 * chunk <= 64 * ((end - 1) / 64) + 64
      requires forall i :: start <= i < 64 * chunk ==> Flatten(words[..])[i] != val
      ensures r == FirstMatch(Flatten(words[..]), start, end, val)
    {
      ghost var bits := Flatten(words[..]);
      var current := chunk;
      var maxChunk := (end - 1) / 64;
      ChunkOf(end - 1);
      while current <= maxChunk
        invariant start < 64 * current <= 64 * maxChunk + 64
        invariant forall i :: start <= i < 64 * current ==> bits[i] != val
        decreases maxChunk + 1 - current
      {
        var data := words[current];
        if !val {
          data := Not(data);
        }
        WordMatches(words[..], current, 0, val);
        if data != ZERO {
          var found := FirstTrue(data);
          var index := current * 64 + found;
          r := if index < end then index else end;
          FoundInWord(bits, start, end, val, current, data);
          return;
        }
        NoneInWord(bits, start, val, current, data);
        current := current + 1;
      }
      FirstMatchUnique(bits, start, end, val, end);
      r := end;
    }
  }

  /** CHUNK and INDEX: i lies in word i / 64 at bit i % 64. */
  lemma ChunkOf(i: nat)
    ensures 64 * (i / 64) <= i < 64 * (i / 64) + 64 && i % 64 == i - 64 * (i / 64)
  {
  }

  /**
   * A word inverted when val is false, and masked from bit lo up, has bit j
   * set exactly when bit 64 * chunk + j of the array is val (and j >= lo).
   */
  lemma WordMatches(ws: seq<Word>, chunk: nat, lo: nat, val: bool)
    requires chunk < |ws|
    ensures var w := if val then ws[chunk] else Not(ws[chunk]);
      (forall j :: 0 <= j < 64 ==> And(w, RangeMask(lo, 64))[j] == (lo <= j && Flatten(ws)[64 * chunk + j] == val))
      && (forall j :: 0 <= j < 64 ==> w[j] == (Flatten(ws)[64 * chunk + j] == val))
  {
    var w := if val then ws[chunk] else Not(ws[chunk]);
    forall j | 0 <= j < 64
      ensures Flatten(ws)[64 * chunk + j] == ws[chunk][j]
      ensures w[j] == (ws[chunk][j] == val)
      ensures And(w, RangeMask(lo, 64))[j] == (lo <= j && w[j])
    {
      FlattenIndex(ws, 64 * chunk + j);
      assert (64 * chunk + j) / 64 == chunk;
      assert (64 * chunk + j) % 64 == j;
    }
  }

  /**
   * A non-zero word view of chunk, with no match in [start, 64 * chunk),
   * yields the first match through its lowest set bit, capped at end.
   */
  lemma FoundInWord(bits: seq<bool>, start: nat, end: nat, val: bool, chunk: nat, data: Word)
    requires start < end <= |bits| && 64 * chunk + 64 <= |bits|
    requires forall i :: start <= i < 64 * chunk ==> bits[i] != val
    requires forall j :: 0 <= j < 64 ==> data[j] == (start <= 64 * chunk + j && bits[64 * chunk + j] == val)
    requires data != ZERO
    ensures var index := 64 * chunk + FirstTrue(data);
      (if index < end then index else end) == FirstMatch(bits, start, end, val)
  {
    var f := FirstTrue(data);
    assert f == 64 ==> data == ZERO;
    var index := 64 * chunk + f;
    assert forall i :: start <= i < index ==> bits[i] != val by {
      forall i | start <= i < index
        ensures bits[i] != val
      {
        if i >= 64 * chunk {
          assert !data[i - 64 * chunk];
        }
      }
    }
    FirstMatchUnique(bits, start, end, val, if index < end then index else end);
  }

  /** A zero word view of chunk extends the no-match range past the chunk. */
  lemma NoneInWord(bits: seq<bool>, start: nat, val: bool, chunk: nat, data: Word)
    requires 64 * chunk + 64 <= |bits|
    requires forall i :: start <= i < 64 * chunk ==> bits[i] != val
    requires forall j :: 0 <= j < 64 ==> data[j] == (start <= 64 * chunk + j && bits[64 * chunk + j] == val)
    requires data == ZERO
    ensures forall i :: start <= i < 64 * chunk + 64 ==> bits[i] != val
  {
    forall i | start <= i < 64 * chunk + 64
      ensures bits[i] != val
    {
      if i >= 64 * chunk {
        assert !data[i - 64 * chunk];
      }
    }
  }

  /** Word-by-word fill facts give the flattened fill. */
  /** Word by word: bit j of word k is value inside [start, end) and as before outside it. */
  ghost predicate WordsFilled(before: seq<Word>, after: seq<Word>, value: bool, start: nat, end: nat) {
    |before| == |after|
    && forall k, j :: 0 <= k < |after| && 0 <= j < 64 ==>
      after[k][j] == if start <= 64 * k + j < end then value else before[k][j]
  }

  lemma FilledWords(before: seq<Word>, after: seq<Word>, value: bool, start: nat, end: nat)
    requires WordsFilled(before, after, value, start, end)
    ensures Flatten(after) == FillBits(Flatten(before), value, start, end)
  {
    forall i | 0 <= i < 64 * |after|
      ensures Flatten(after)[i] == FillBits(Flatten(before), value, start, end)[i]
    {
      FlattenIndex(after, i);
      FlattenIndex(before, i);
      assert i == 64 * (i / 64) + i % 64;
    }
  }

  // ------------------------------------------------------------ as written

  /**
   * bitarray_count_set as written: the loop counts every bit of all
   * DIV_CEIL(length, 64) words (the partial last one included), and then
   * the word after them, `beyond`, masked to length % 64 bits when that is
   * not 0, is counted as well.
   */
  function CountSetAsWritten(ws: seq<Word>, length: nat, beyond: Word): nat
  {
    var remaining := length % 64;
    CountTrue(Flatten(ws)) + Popcount(if remaining > 0 then And(beyond, RangeMask(0, remaining)) else beyond)
  }

  /**
   * When length fills its words exactly, the count as written exceeds the
   * true bits below length by the set bits of the word past the end, so a
   * set bit there is counted although it is no bit of the array.
   */
  lemma CountSetReadsPastEnd(ws: seq<Word>, beyond: Word, k: nat)
    requires k < 64 && beyond[k]
    ensures CountSetAsWritten(ws, 64 * |ws|, beyond) > CountTrue(Flatten(ws)[..64 * |ws|])
  {
    var length := 64 * |ws|;
    assert Flatten(ws)[..length] == Flatten(ws);
    WholeWords(|ws|);
    assert CountSetAsWritten(ws, length, beyond) == CountTrue(Flatten(ws)) + Popcount(beyond);
    CountPositive(beyond, k);
  }

  lemma WholeWords(n: nat)
    ensures (64 * n) % 64 == 0
  {
  }

  lemma {:induction false} CountPositive(s: seq<bool>, k: nat)
    requires k < |s| && s[k]
    ensures CountTrue(s) > 0
  {
    if k > 0 && !s[0] {
      CountPositive(s[1..], k - 1);
    }
  }

  /** The requirement bitarray_create reports: DIV_CEIL(length, 8) bytes. */
  function CreateRequirementAsWritten(length: nat): nat
  {
    (length + 7) / 8
  }

  /** Ten bits are reported as 2 bytes, yet the first u64 access touches 8. */
  lemma CreateRequirementTooSmall()
    ensures CreateRequirementAsWritten(10) == 2 && WordBytes(10) == 8
  {
  }

  /**
   * The bound test of bitarray_fill_range as written: `start_index + size`
   * is a u64 sum. The end index fill_range then receives, or None when the
   * call is refused.
   */
  function FillRangeGuardAsWritten(start: nat, size: nat, length: nat): Option<nat>
    requires IsU64(start) && IsU64(size)
  {
    var end := (start + size) % U64_LIMIT;
    if end > length then None else Some(end)
  }

  /**
   * While the sum fits in 64 bits the test as written is FillRange's: the
   * call is accepted exactly when start + size <= length, with that end.
   */
  lemma FillRangeGuardNoWrap(start: nat, size: nat, length: nat)
    requires IsU64(start) && IsU64(size) && start + size < U64_LIMIT
    ensures FillRangeGuardAsWritten(start, size, length).Some? <==> start + size <= length
    ensures FillRangeGuardAsWritten(start, size, length).Some? ==>
      FillRangeGuardAsWritten(start, size, length).value == start + size
  {
  }

  /**
   * On a 64-bit array, start 8 and size 2^64 - 4 wrap to end 4: the call
   * is accepted as written and fill_range gets an end below its start,
   * while FillRange refuses it.
   */
  lemma FillRangeBoundWraps()
    ensures FillRangeGuardAsWritten(8, U64_LIMIT - 4, 64) == Some(4)
    ensures 8 + (U64_LIMIT - 4) > 64
  {
    assert (8 + (U64_LIMIT - 4)) % U64_LIMIT == 4 by {
      assert 8 + (U64_LIMIT - 4) == U64_LIMIT + 4;
    }
  }
}
