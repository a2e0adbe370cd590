/**
 * The LZP animation container (`Lzp.__init__` and the payload read of `Lzp.__getitem__`):
 * four little-endian header words, a 256-colour palette at 0x20, the frame payloads,
 * and a table of `nframes` frame offsets filling the last `4 * nframes` bytes. Each
 * frame offset points at a 4-byte payload length followed by the payload.
 */
module LzpContainer {
  import opened Wrappers
  import opened Bytes
  import LzpDecoder

  /** One palette entry, `struct.unpack('<BBB', ...)`. */
  datatype Rgb = Rgb(r: byte, g: byte, b: byte)

  /**
   * `struct.error` for a short read, the `OSError` of seeking before the start of the
   * file, the `LzpException('Frame table error.')` and Python's `IndexError`.
   */
  datatype LzpError = StructError | SeekError | FrameTableError | IndexError

  /**
   * An opened container. The getters `nframes`, `width`, `height` and `framerate` of the
   * source are these fields; `length` is where the frame table starts.
   */
  datatype Lzp = Lzp(
    file: seq<byte>,
    nframes: nat,
    width: nat,
    height: nat,
    framerate: nat,
    palette: seq<Rgb>,
    length: nat,
    frameOffsets: seq<nat>)

  const PaletteStart: nat := 0x20
  const PaletteSize: nat := 256

  /** The first byte past the palette. */
  const PaletteEnd: nat := PaletteStart + 3 * PaletteSize

  /** The palette entry `i`: three bytes from `0x20 + 3 * i`. */
  function PaletteAt(file: seq<byte>, i: nat): (c: Rgb)
    requires PaletteStart + 3 * i + 3 <= |file|
    ensures [c.r, c.g, c.b] == file[PaletteStart + 3 * i..PaletteStart + 3 * i + 3]
  {
    var k := PaletteStart + 3 * i;
    Rgb(file[k], file[k + 1], file[k + 2])
  }

  /** The `n` words of the frame table starting at `length`. */
  function Offsets(file: seq<byte>, length: nat, n: nat): (offs: seq<nat>)
    requires length + 4 * n <= |file|
    ensures |offs| == n
    ensures forall i :: 0 <= i < n ==> offs[i] < Word
  {
    seq(n, i requires 0 <= i < n => U32(file, length + 4 * i))
  }

  /** Some frame offset points past the start of the frame table. */
  predicate BadOffset(offs: seq<nat>, length: nat)
  {
    exists i :: 0 <= i < |offs| && offs[i] > length
  }

  /** The container the bytes `file` open to, or the error `Lzp(file)` raises. */
  function ParseLzp(file: seq<byte>): (r: Result<Lzp, LzpError>)
    ensures r == Err(StructError) <==> |file| < PaletteEnd
    ensures r == Err(SeekError) <==> PaletteEnd <= |file| && 4 * U32(file, 0) > |file|
    ensures r.Ok? ==> Valid(r.value) && r.value.file == file
  {
    if |file| < 16 then Err(StructError)
    else if |file| < PaletteEnd then Err(StructError)
    else
      var n := U32(file, 0);
      if 4 * n > |file| then Err(SeekError)
      else
        var length := |file| - 4 * n;
        var offs := Offsets(file, length, n);
        if BadOffset(offs, length) then Err(FrameTableError)
        else
          Ok(Lzp(file, n, U32(file, 4), U32(file, 8), U32(file, 12),
                 seq(PaletteSize, i requires 0 <= i < PaletteSize => PaletteAt(file, i)),
                 length, offs))
  }

  /**
   * What every opened container satisfies: the header words are the little-endian words
   * at bytes 0-15, the palette is the byte triples from 0x20, the frame table fills the
   * last `4 * nframes` bytes, and no frame offset points into the frame table.
   */
  predicate Valid(lzp: Lzp)
  {
    PaletteEnd <= |lzp.file| &&
    lzp.nframes == U32(lzp.file, 0) && lzp.width == U32(lzp.file, 4) &&
    lzp.height == U32(lzp.file, 8) && lzp.framerate == U32(lzp.file, 12) &&
    |lzp.palette| == PaletteSize &&
    (forall i :: 0 <= i < PaletteSize ==> lzp.palette[i] == PaletteAt(lzp.file, i)) &&
    lzp.length + 4 * lzp.nframes == |lzp.file| &&
    |lzp.frameOffsets| == lzp.nframes &&
    (forall i :: 0 <= i < lzp.nframes ==> lzp.frameOffsets[i] == U32(lzp.file, lzp.length + 4 * i)) &&
    forall i :: 0 <= i < |lzp.frameOffsets| ==> lzp.frameOffsets[i] <= lzp.length
  }

  /** `Lzp.__init__` (lines 12-23): the header, the palette loop and the frame table check. */
  method Open(file: seq<byte>) returns (r: Result<Lzp, LzpError>)
    ensures r == ParseLzp(file)
  {
    if |file| < 16 {
      return Err(StructError);
    }
    var nframes, width, height, framerate := U32(file, 0), U32(file, 4), U32(file, 8), U32(file, 12);
    var palette: seq<Rgb> := [];
    for i := 0 to PaletteSize
      invariant |palette| == i
      invariant i > 0 ==> PaletteStart + 3 * i <= |file|
      invariant forall k :: 0 <= k < i ==> PaletteStart + 3 * k + 3 <= |file| && palette[k] == PaletteAt(file, k)
    {
      var triple := ReadAt(file, PaletteStart + 3 * i, 3);
      if |triple| < 3 {
        return Err(StructError);
      }
      palette := palette + [Rgb(triple[0], triple[1], triple[2])];
    }
    if 4 * nframes > |file| {
      return Err(SeekError);
    }
    var length := |file| - 4 * nframes;
    var offsets: seq<nat> := [];
    for i := 0 to nframes
      invariant offsets == Offsets(file, length, i)
    {
      offsets := offsets + [U32(file, length + 4 * i)];
    }
    for i := 0 to nframes
      invariant forall k :: 0 <= k < i ==> offsets[k] <= length
    {
      if offsets[i] > length {
        return Err(FrameTableError);
      }
    }
    assert palette == seq(PaletteSize, i requires 0 <= i < PaletteSize => PaletteAt(file, i));
    r := Ok(Lzp(file, nframes, width, height, framerate, palette, length, offsets));
  }

  /**
   * The payload of frame `item` (lines 42-44): the frame's offset is looked up with
   * Python's indexing, a little-endian length word is read there, then that many bytes
   * after it. A length word cut short by the end of the file is the `struct.error`; the
   * read of the payload itself may come back short.
   */
  function Payload(lzp: Lzp, item: int): (r: Result<seq<byte>, LzpError>)
    ensures r == Err(IndexError) <==> !(-|lzp.frameOffsets| <= item < |lzp.frameOffsets|)
    ensures r.Ok? ==> |r.value| <= |lzp.file|
  {
    match PyIndex(lzp.frameOffsets, item)
    case None => Err(IndexError)
    case Some(offset) =>
      var prefix := ReadAt(lzp.file, offset, 4);
      if |prefix| < 4 then Err(StructError)
      else Ok(ReadAt(lzp.file, offset + 4, U32(prefix, 0)))
  }

  /**
   * `lzp[item]`: the pixels of frame `item`. An index out of range and a payload that does
   * not decode both raise IndexError; the only other failure is the short length word.
   */
  function Frame(lzp: Lzp, item: int): (r: Result<seq<byte>, LzpError>)
    ensures !(-|lzp.frameOffsets| <= item < |lzp.frameOffsets|) ==> r == Err(IndexError)
    ensures r.Ok? ==> -|lzp.frameOffsets| <= item < |lzp.frameOffsets|
    ensures r.Err? ==> r.error == IndexError || r.error == StructError
    ensures r.Ok? ==> Payload(lzp, item).Ok? && (r.value == [] <==> Payload(lzp, item).value == [])
  {
    match Payload(lzp, item)
    case Err(e) => Err(e)
    case Ok(f) =>
      match LzpDecoder.Decode(f)
      case None => Err(IndexError)
      case Some(pixels) => Ok(pixels)
  }

  /** `Lzp.__getitem__` (lines 41-81). */
  method GetItem(lzp: Lzp, item: int) returns (r: Result<seq<byte>, LzpError>)
    ensures r == Frame(lzp, item)
  {
    var offset;
    if 0 <= item < |lzp.frameOffsets| {
      offset := lzp.frameOffsets[item];
    } else if -|lzp.frameOffsets| <= item < 0 {
      offset := lzp.frameOffsets[|lzp.frameOffsets| + item];
    } else {
      return Err(IndexError);
    }
    var prefix := ReadAt(lzp.file, offset, 4);
    if |prefix| < 4 {
      return Err(StructError);
    }
    var length := U32(prefix, 0);
    var f := ReadAt(lzp.file, offset + 4, length);
    var pixels := LzpDecoder.Decompress(f);
    if pixels.None? {
      return Err(IndexError);
    }
    r := Ok(pixels.value);
  }

  // Properties of an opened container

  /**
   * Once the header, the palette and the seek have succeeded, opening fails with the
   * frame table error exactly when some offset lies past the start of the table.
   */
  lemma FrameTableErrorIff(file: seq<byte>)
    requires PaletteEnd <= |file| && 4 * U32(file, 0) <= |file|
    ensures var n := U32(file, 0);
      var length := |file| - 4 * n;
      ParseLzp(file) == Err(FrameTableError) <==>
        exists i :: 0 <= i < n && U32(file, length + 4 * i) > length
    ensures ParseLzp(file).Ok? || ParseLzp(file) == Err(FrameTableError)
  {
    var n := U32(file, 0);
    var length := |file| - 4 * n;
    BadOffsetIff(file, length, n);
  }

  /** Some word of the frame table exceeds `length` exactly when some offset does. */
  lemma BadOffsetIff(file: seq<byte>, length: nat, n: nat)
    requires length + 4 * n <= |file|
    ensures BadOffset(Offsets(file, length, n), length) <==>
      exists i :: 0 <= i < n && U32(file, length + 4 * i) > length
  {
    var offs := Offsets(file, length, n);
    if exists i :: 0 <= i < n && U32(file, length + 4 * i) > length {
      var i :| 0 <= i < n && U32(file, length + 4 * i) > length;
      assert offs[i] > length;
    }
  }

  /**
   * The properties `nframes`, `width`, `height` and `framerate` of an opened container
   * are the first four little-endian words of the file, and there is one offset per frame.
   */
  lemma HeaderFields(file: seq<byte>)
    requires ParseLzp(file).Ok?
    ensures var lzp := ParseLzp(file).value;
      |file| >= 16 && lzp.nframes == U32(file, 0) && lzp.width == U32(file, 4) &&
      lzp.height == U32(file, 8) && lzp.framerate == U32(file, 12) &&
      |lzp.frameOffsets| == lzp.nframes
  {
  }

  /** In a valid container the 4-byte length of every frame lies inside the file. */
  lemma LengthPrefixInFile(lzp: Lzp, item: int)
    requires Valid(lzp) && -(lzp.nframes as int) <= item < lzp.nframes
    ensures Payload(lzp, item).Ok?
  {
    var offset := PyIndex(lzp.frameOffsets, item).value;
    if 0 <= item {
      assert offset == lzp.frameOffsets[item];
    } else {
      assert offset == lzp.frameOffsets[lzp.nframes + item];
    }
  }

  /** `lzp[-1]` is the last frame, as Python indexing gives. */
  lemma NegativeIndex(lzp: Lzp, item: int)
    requires 0 < -item <= |lzp.frameOffsets|
    ensures Frame(lzp, item) == Frame(lzp, |lzp.frameOffsets| + item)
  {
  }

  /**
   * The payload of a frame is exactly the `length` bytes after the length word at the
   * frame's offset, when the file holds them; a payload cut short by the end of the file
   * is what is left of it.
   */
  lemma PayloadExact(lzp: Lzp, i: nat, x: seq<byte>)
    requires i < |lzp.frameOffsets| && |x| < Word
    requires var offset := lzp.frameOffsets[i];
      offset + 4 + |x| <= |lzp.file| && lzp.file[offset..offset + 4] == LE32(|x|) &&
      lzp.file[offset + 4..offset + 4 + |x|] == x
    ensures Payload(lzp, i) == Ok(x)
  {
    var offset := lzp.frameOffsets[i];
    var prefix := ReadAt(lzp.file, offset, 4);
    ReadAtWithin(lzp.file, offset, 4);
    assert prefix[0..4] == prefix;
    U32OfLE32(prefix, 0, |x|);
    ReadAtWithin(lzp.file, offset + 4, |x|);
  }

  lemma PayloadShort(lzp: Lzp, i: nat)
    requires i < |lzp.frameOffsets|
    requires var offset := lzp.frameOffsets[i];
      offset + 4 <= |lzp.file| && offset + 4 + U32(lzp.file, offset) > |lzp.file|
    ensures Payload(lzp, i) == Ok(lzp.file[lzp.frameOffsets[i] + 4..])
  {
    var offset := lzp.frameOffsets[i];
    var prefix := ReadAt(lzp.file, offset, 4);
    assert U32(prefix, 0) == U32(lzp.file, offset);
    var rest := ReadAt(lzp.file, offset + 4, U32(prefix, 0));
    assert rest == lzp.file[offset + 4..];
  }

  // Building a container

  /** The palette as it is stored: `r, g, b` for each entry. */
  function PaletteBytes(pal: seq<Rgb>): (b: seq<byte>)
    ensures |b| == 3 * |pal|
  {
    seq(3 * |pal|, j requires 0 <= j < 3 * |pal| =>
      var c := pal[j / 3];
      if j % 3 == 0 then c.r else if j % 3 == 1 then c.g else c.b)
  }

  predicate Words(offs: seq<nat>)
  {
    forall i :: 0 <= i < |offs| ==> offs[i] < Word
  }

  /** The frame table as it is stored: one little-endian word per offset. */
  function TableBytes(offs: seq<nat>): (b: seq<byte>)
    requires Words(offs)
    ensures |b| == 4 * |offs|
  {
    seq(4 * |offs|, j requires 0 <= j < 4 * |offs| => LE32(offs[j / 4])[j % 4])
  }

  /**
   * A container file: the header words, 16 reserved bytes, the palette, the frame data
   * `body` and the table of `offsets`.
   */
  function BuildLzp(width: nat, height: nat, framerate: nat, reserved: seq<byte>,
                    palette: seq<Rgb>, body: seq<byte>, offsets: seq<nat>): (file: seq<byte>)
    requires width < Word && height < Word && framerate < Word && |offsets| < Word
    requires |reserved| == 16 && Words(offsets)
    ensures |file| == PaletteStart + 3 * |palette| + |body| + 4 * |offsets|
  {
    Header(|offsets|, width, height, framerate, reserved) +
    PaletteBytes(palette) + body + TableBytes(offsets)
  }

  /** The 0x20 bytes before the palette: the four header words and 16 reserved bytes. */
  function Header(n: nat, width: nat, height: nat, framerate: nat, reserved: seq<byte>): (h: seq<byte>)
    requires n < Word && width < Word && height < Word && framerate < Word && |reserved| == 16
    ensures |h| == PaletteStart
  {
    LE32(n) + LE32(width) + LE32(height) + LE32(framerate) + reserved
  }

  /** A word inside a prefix of the file reads the same in the prefix and in the file. */
  lemma WordInPrefix(file: seq<byte>, h: seq<byte>, post: seq<byte>, k: nat)
    requires file == h + post && k + 4 <= |h|
    ensures U32(file, k) == U32(h, k)
  {
    assert file[k] == h[k] && file[k + 1] == h[k + 1] && file[k + 2] == h[k + 2] && file[k + 3] == h[k + 3];
  }

  /** The header words read back as the values they were built from. */
  lemma HeaderReadBack(file: seq<byte>, n: nat, width: nat, height: nat, framerate: nat,
                       reserved: seq<byte>, post: seq<byte>)
    requires n < Word && width < Word && height < Word && framerate < Word && |reserved| == 16
    requires file == Header(n, width, height, framerate, reserved) + post
    ensures U32(file, 0) == n && U32(file, 4) == width && U32(file, 8) == height && U32(file, 12) == framerate
  {
    var w0, w1, w2, w3 := LE32(n), LE32(width), LE32(height), LE32(framerate);
    var h := Header(n, width, height, framerate, reserved);
    WordInPrefix(file, h, post, 0);
    WordInPrefix(file, h, post, 4);
    WordInPrefix(file, h, post, 8);
    WordInPrefix(file, h, post, 12);
    assert h == [] + w0 + (w1 + w2 + w3 + reserved);
    WordBetween(h, [], n, w1 + w2 + w3 + reserved);
    assert h == w0 + w1 + (w2 + w3 + reserved);
    WordBetween(h, w0, width, w2 + w3 + reserved);
    assert h == w0 + w1 + w2 + (w3 + reserved);
    WordBetween(h, w0 + w1, height, w3 + reserved);
    WordBetween(h, w0 + w1 + w2, framerate, reserved);
  }

  lemma ThirdOf(i: nat, d: nat)
    requires d < 3
    ensures (3 * i + d) / 3 == i && (3 * i + d) % 3 == d
  {
  }

  /** Entry `i` of a stored palette sits at byte `k`, three bytes per entry from `|head|`. */
  lemma PaletteEntryAt(file: seq<byte>, head: seq<byte>, palette: seq<Rgb>, post: seq<byte>, i: nat, k: nat)
    requires file == head + PaletteBytes(palette) + post
    requires i < |palette| && k == |head| + 3 * i
    ensures file[k] == palette[i].r && file[k + 1] == palette[i].g && file[k + 2] == palette[i].b
  {
    var pb := PaletteBytes(palette);
    Inside(file, head, pb, post);
    ThirdOf(i, 0);
    ThirdOf(i, 1);
    ThirdOf(i, 2);
    assert file[k] == pb[3 * i];
    assert file[k + 1] == pb[3 * i + 1];
    assert file[k + 2] == pb[3 * i + 2];
  }

  /** The palette stored at 0x20 reads back as the palette. */
  lemma PaletteReadBack(file: seq<byte>, head: seq<byte>, palette: seq<Rgb>, post: seq<byte>)
    requires |head| == PaletteStart && |palette| == PaletteSize
    requires file == head + PaletteBytes(palette) + post
    ensures seq(PaletteSize, i requires 0 <= i < PaletteSize => PaletteAt(file, i)) == palette
  {
    forall i | 0 <= i < PaletteSize
      ensures PaletteAt(file, i) == palette[i]
    {
      PaletteEntryAt(file, head, palette, post, i, PaletteStart + 3 * i);
    }
  }

  lemma QuarterOf(i: nat, d: nat)
    requires d < 4
    ensures (4 * i + d) / 4 == i && (4 * i + d) % 4 == d
  {
  }

  /** The word `i` of the stored table is `LE32(offsets[i])`. */
  lemma TableWord(offsets: seq<nat>, i: nat, d: nat)
    requires Words(offsets) && i < |offsets| && d < 4
    ensures TableBytes(offsets)[4 * i + d] == LE32(offsets[i])[d]
  {
    QuarterOf(i, d);
  }

  /** The frame table stored at the end reads back as the offsets. */
  lemma TableReadBack(file: seq<byte>, pre: seq<byte>, offsets: seq<nat>)
    requires Words(offsets) && file == pre + TableBytes(offsets)
    ensures Offsets(file, |pre|, |offsets|) == offsets
  {
    var tb := TableBytes(offsets);
    var offs := Offsets(file, |pre|, |offsets|);
    Inside(file, pre, tb, []);
    forall i | 0 <= i < |offsets|
      ensures offs[i] == offsets[i]
    {
      var at := |pre| + 4 * i;
      var w := LE32(offsets[i]);
      forall d | 0 <= d < 4
        ensures file[at + d] == w[d]
      {
        TableWord(offsets, i, d);
      }
      assert file[at..at + 4] == w;
      U32OfLE32(file, at, offsets[i]);
    }
    assert offs == offsets;
  }

  lemma Assoc3(file: seq<byte>, a: seq<byte>, b: seq<byte>, c: seq<byte>, d: seq<byte>)
    requires file == a + b + c + d
    ensures file == a + (b + c + d) && file == a + b + (c + d)
  {
  }

  /** Opening a built container gives back what it was built from. */
  lemma BuildRoundTrip(width: nat, height: nat, framerate: nat, reserved: seq<byte>,
                       palette: seq<Rgb>, body: seq<byte>, offsets: seq<nat>)
    requires width < Word && height < Word && framerate < Word && |offsets| < Word
    requires |reserved| == 16 && Words(offsets) && |palette| == PaletteSize
    requires forall i :: 0 <= i < |offsets| ==> offsets[i] <= PaletteEnd + |body|
    ensures var file := BuildLzp(width, height, framerate, reserved, palette, body, offsets);
      ParseLzp(file) ==
        Ok(Lzp(file, |offsets|, width, height, framerate, palette, PaletteEnd + |body|, offsets))
  {
    var file := BuildLzp(width, height, framerate, reserved, palette, body, offsets);
    var n := |offsets|;
    var head := Header(n, width, height, framerate, reserved);
    var pb, tb := PaletteBytes(palette), TableBytes(offsets);
    Assoc3(file, head, pb, body, tb);
    HeaderReadBack(file, n, width, height, framerate, reserved, pb + body + tb);
    PaletteReadBack(file, head, palette, body + tb);
    TableReadBack(file, head + pb + body, offsets);
  }

  /** A built container whose table points past the frame data fails to open. */
  lemma BuildBadOffset(width: nat, height: nat, framerate: nat, reserved: seq<byte>,
                       palette: seq<Rgb>, body: seq<byte>, offsets: seq<nat>, i: nat)
    requires width < Word && height < Word && framerate < Word && |offsets| < Word
    requires |reserved| == 16 && Words(offsets) && |palette| == PaletteSize
    requires i < |offsets| && offsets[i] > PaletteEnd + |body|
    ensures ParseLzp(BuildLzp(width, height, framerate, reserved, palette, body, offsets)) ==
      Err(FrameTableError)
  {
    var file := BuildLzp(width, height, framerate, reserved, palette, body, offsets);
    var head := Header(|offsets|, width, height, framerate, reserved);
    var pb, tb := PaletteBytes(palette), TableBytes(offsets);
    Assoc3(file, head, pb, body, tb);
    HeaderReadBack(file, |offsets|, width, height, framerate, reserved, pb + body + tb);
    TableReadBack(file, head + pb + body, offsets);
    assert Offsets(file, PaletteEnd + |body|, |offsets|)[i] > PaletteEnd + |body|;
  }
}
