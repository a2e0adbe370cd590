/** Bytes, little-endian words and reads from a file held as an immutable byte sequence. */
module Bytes {
  import opened Wrappers

  type byte = x: int | 0 <= x < 256

  /** One more than the largest unsigned 32-bit value. */
  const Word: nat := 0x1_0000_0000

  function Min(a: nat, b: nat): nat { if a <= b then a else b }

  /** The value `struct.unpack('<I', ...)` gives for the four bytes at `s[i..i + 4]`. */
  function U32(s: seq<byte>, i: nat): (v: nat)
    requires i + 4 <= |s|
    ensures v < Word
  {
    s[i] as int + 0x100 * (s[i + 1] as int) + 0x1_0000 * (s[i + 2] as int) + 0x100_0000 * (s[i + 3] as int)
  }

  /** The four bytes `struct.pack('<I', v)` writes. */
  function LE32(v: nat): (s: seq<byte>)
    requires v < Word
    ensures |s| == 4
  {
    var v1 := v / 0x100;
    var v2 := v1 / 0x100;
    [v % 0x100, v1 % 0x100, v2 % 0x100, v2 / 0x100]
  }

  lemma U32OfLE32(s: seq<byte>, i: nat, v: nat)
    requires v < Word && i + 4 <= |s| && s[i..i + 4] == LE32(v)
    ensures U32(s, i) == v
  {
    assert s[i] == LE32(v)[0] && s[i + 1] == LE32(v)[1];
    assert s[i + 2] == LE32(v)[2] && s[i + 3] == LE32(v)[3];
  }

  /** The word whose encoding sits at `pos` of `file` reads back. */
  lemma WordAt(file: seq<byte>, pos: nat, v: nat)
    requires v < Word && pos + 4 <= |file|
    requires forall k :: 0 <= k < 4 ==> file[pos + k] == LE32(v)[k]
    ensures U32(file, pos) == v
  {
    assert file[pos..pos + 4] == LE32(v);
    U32OfLE32(file, pos, v);
  }

  /** The word whose encoding sits between `pre` and `post` reads back. */
  lemma WordBetween(file: seq<byte>, pre: seq<byte>, v: nat, post: seq<byte>)
    requires v < Word && file == pre + LE32(v) + post
    ensures U32(file, |pre|) == v
  {
    assert file[|pre|..|pre| + 4] == LE32(v);
    U32OfLE32(file, |pre|, v);
  }

  /** The bytes of `mid` sit from `|pre|` on in `pre + mid + post`. */
  lemma Inside(file: seq<byte>, pre: seq<byte>, mid: seq<byte>, post: seq<byte>)
    requires file == pre + mid + post
    ensures forall k :: 0 <= k < |mid| ==> file[|pre| + k] == mid[k]
  {
  }

  lemma Assoc(a: seq<byte>, b: seq<byte>, c: seq<byte>)
    ensures a + b + c == a + (b + c)
  {
  }

  /** Python's `s[i]` on a list or tuple: a negative `i` counts from the end. */
  function PyIndex<T>(s: seq<T>, i: int): (r: Option<T>)
    ensures r.Some? <==> -|s| <= i < |s|
  {
    if 0 <= i < |s| then Some(s[i])
    else if -|s| <= i < 0 then Some(s[|s| + i])
    else None
  }

  /**
   * A seek to `pos` and a read of `n` bytes: at most `n` bytes, fewer only when the end
   * of the file is reached, none from a position at or past the end.
   */
  function ReadAt(data: seq<byte>, pos: nat, n: nat): (r: seq<byte>)
    ensures |r| == if pos >= |data| then 0 else Min(n, |data| - pos)
    ensures forall k :: 0 <= k < |r| ==> r[k] == data[pos + k]
  {
    if pos >= |data| then [] else data[pos..pos + Min(n, |data| - pos)]
  }

  lemma ReadAtWithin(data: seq<byte>, pos: nat, n: nat)
    requires pos + n <= |data|
    ensures ReadAt(data, pos, n) == data[pos..pos + n]
  {
  }

  /**
   * One fewer than `k`. A named function rather than `k - 1` keeps a count of records
   * still to read a plain term the solver matches directly.
   */
  function Less(k: nat): (j: nat)
    requires k > 0
    ensures j + 1 == k
  {
    k - 1
  }
}
