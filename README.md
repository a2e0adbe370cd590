# iteres file formats in Dafny

A model of the byte-level readers of `iteres`, a toolkit for the data files of an ITE
game: the LZP animation container and its frame decompressor (`iteres/lzp.py`), the
ITERES resource archive table (`iteres/res.py`), and the header and record checks of the
CGF `dump` command (`iteres/cgf.py`).

A file is an immutable `seq<byte>`. Each `read(n)` is `Bytes.ReadAt`, which comes back
short at the end of the file exactly as a Python read does. The failures Python raises
become `Err`/`None` values:

- a short `struct.unpack` is `StructError`;
- a negative `seek` is `SeekError`;
- `LzpException`, `ResException` and the `assert`s of `dump` each have their own error
  constructor;
- an `IndexError` is `IndexError` or `None`.

Python's negative indexing is modelled as written (`Bytes.PyIndex`). It covers
`_frame_offsets[item]` and `pixels[p]`.

The code works step by step, so each core operation is an imperative method with loops.
Each method is proved equal to a specification function:

- `LzpContainer.Open` against `ParseLzp`;
- `LzpDecoder.Decompress` against `Decode`;
- `ResArchive.Open` against `ParseRes`;
- `CgfDump.DumpCgf` against `DumpFile`.

The properties are then proved about those functions. The objects are never changed after
construction, and every read after construction seeks first (`iteres/lzp.py` line 42).
Within the constructors and the `dump` loop the reads run one after another, and the model
passes the read position along explicitly. The `Lzp` and `Res` objects are therefore
datatypes, and the four Lzp getters are fields of the `Lzp` record.

The decoder's specification has two stages:

- a tokenizer, `Tokens`, reads the masks and the literal and copy tokens;
- `Expand` applies the tokens to the output.

`Decode` is the composition of the two. The nested `while`/`for` loop of `__getitem__`
is `Decompress`, which is split into `DecodeGroup`, `DecodeToken` and `CopyBytes`. An
encoder (`EncodeTokens`) is the partner of the tokenizer, and `TokensRoundTrip` relates
the two.

The LZP and ITERES formats each have a builder that writes a file from its parts (`BuildLzp`,
`BuildRes`), and a round-trip lemma stating that opening the built file gives back those parts.

Three behaviours of the code are easy to miss:

- The container has no magic check, and `Lzp.__init__` does not seek before reading the
  header (line 14). Every caller passes a freshly opened file, so the header is the
  file's first 16 bytes.
- The block base is `len(pixels) & 0xfffff000`, a 32-bit mask, not `& ~0xfff`. See
  `LzpDecoder.WindowAt4GiB`.
- The file-table check of the resource archive compares `offset + length` with the file
  length, using the raw `offset` and not `headerend + offset`. See
  `ResArchive.EntryMayPassEnd`.

## Model

| member | source | states |
|---|---|---|
| Bytes.U32OfLE32 | iteres/lzp.py:14 | the four little-endian bytes of a 32-bit word read back as that word |
| Bytes.PyIndex | iteres/lzp.py:42 | a lookup succeeds exactly for indexes in Python's range `-len <= i < len` |
| Bytes.ReadAt | iteres/lzp.py:44 | a read gives the bytes at the position, as many as asked or as remain, and none from at or past the end |
| Bytes.U32 | iteres/lzp.py:43 | the little-endian value of four bytes, below 2^32; `Bytes.U32OfLE32` states that it inverts the writer |
| LzpDecoder.CopyLength | iteres/lzp.py:60 | the copy length `(cmd[1] & 0xf) + 3` lies in 3..18 |
| LzpDecoder.CopyAddress | iteres/lzp.py:61 | the window address lies below 0x1000 |
| LzpDecoder.BlockBase | iteres/lzp.py:62 | the block base is a multiple of 4096, at most the write position and below 2^32, and for positions below 2^32 the start of the block the position lies in |
| LzpDecoder.Source | iteres/lzp.py:62-65 | the copy source has the address as its low 12 bits and never lies past the write position; below 2^32 it lies within the 4096 bytes before it |
| LzpDecoder.CopyLengthIsBitwise | iteres/lzp.py:60 | the arithmetic form of the length equals the bitwise `(hi & 0xF) + 3` |
| LzpDecoder.CopyAddressIsBitwise | iteres/lzp.py:61 | the arithmetic form of the address equals the bitwise or of `(hi & 0xF0) << 4` with `lo`, plus 18, masked with `0xFFF` |
| LzpDecoder.BlockBaseIsBitwise | iteres/lzp.py:62 | `n & 0xFFFFF000` is `n mod 2^32` rounded down to a multiple of 4096 |
| LzpDecoder.PlacementIsBitwise | iteres/lzp.py:63 | the bitwise or of `a` and `c` is `a + c` when `a < 0x1000` and `c` is a multiple of 0x1000 |
| LzpDecoder.CommandRoundTrip | iteres/lzp.py:59-61 | every length 3..18 and 12-bit address has a command that decodes to exactly that length and address |
| LzpDecoder.CommandFromFields | iteres/lzp.py:59-61 | a command is the only encoding of its length and address |
| LzpDecoder.WindowBound | iteres/lzp.py:61-65 | below 2^32 output bytes the source lies in `len - 4096 < p <= len`, with `p mod 4096` equal to the address |
| LzpDecoder.WindowUnique | iteres/lzp.py:61-65 | the source is the only position in that window whose low 12 bits are the address |
| LzpDecoder.WindowAt4GiB | iteres/lzp.py:62-65 | at exactly 2^32 output bytes the 32-bit block mask gives block 0, so the source is the bare address |
| LzpDecoder.CopyRun | iteres/lzp.py:68-74 | a successful copy appends exactly `l` bytes and leaves the earlier output unchanged |
| LzpDecoder.CopyRunDefined | iteres/lzp.py:68-74 | a copy fails with IndexError exactly when `l > 0` and the first source is not a valid Python index (`p >= len` or `p < -len`) |
| LzpDecoder.CopyRunSelfReference | iteres/lzp.py:68-74 | from a source `0 <= p < len`, each appended byte equals the byte `len - p` before it, including bytes this same copy appended |
| LzpDecoder.CopyRunReads | iteres/lzp.py:68-74 | every byte a successful copy appends is the byte Python's index `p + j` names at that step: `p + j` itself once it is not negative, otherwise `p + j` counted back from the end of the output written so far |
| LzpDecoder.CopyRunRepeatsLast | iteres/lzp.py:68-74 | a copy from `len - 1` appends the last byte `l` more times |
| LzpDecoder.Apply | iteres/lzp.py:53-75 | applying one token appends one byte for a literal or `l` bytes for a copy, and never changes earlier bytes |
| LzpDecoder.Expand | iteres/lzp.py:48-78 | the output only grows: what is already written is a prefix of the result, and a strict one exactly when there are tokens |
| LzpDecoder.ExpandLength | iteres/lzp.py:53-75 | the output grows by 1 per literal and by its length per copy |
| LzpDecoder.ExpandLiterals | iteres/lzp.py:54-57 | literal tokens append exactly their bytes |
| LzpDecoder.Tokens | iteres/lzp.py:48-78 | a tokenization has at most one token per payload byte left, and is empty exactly when the payload is already used up |
| LzpDecoder.TokensUseEveryByte | iteres/lzp.py:48-78 | a successful tokenization consumes the entire payload: its masks plus token bytes add up to `len(f)` |
| LzpDecoder.TokensRoundTrip | iteres/lzp.py:48-78 | tokenizing the encoding of any token list gives back that list |
| LzpDecoder.Decode | iteres/lzp.py:46-81 | an empty payload gives no pixels, a lone mask byte fails, and a non-empty payload that decodes gives at least one pixel |
| LzpDecoder.DecodeEncoded | iteres/lzp.py:46-81 | decoding an encoded payload applies its tokens in order |
| LzpDecoder.LiteralsRoundTrip | iteres/lzp.py:46-81 | any bytes, sent as literals only, decode to themselves |
| LzpDecoder.EightLiterals | iteres/lzp.py:50-57 | `0xff` followed by eight bytes decodes to those eight bytes |
| LzpDecoder.TrailingMaskFails | iteres/lzp.py:48-57 | a payload that ends on a mask byte fails with IndexError |
| LzpDecoder.TrailingHalfCommandFails | iteres/lzp.py:53-60 | a payload that ends one byte into a copy command fails with IndexError, wherever in its group the copy falls: after whole groups, a mask, any `j < 8` tokens it selects and a copy selected by bit `j` |
| LzpDecoder.FirstTokenMustBeLiteral | iteres/lzp.py:68-74 | a copy before any pixel is written fails |
| LzpDecoder.OverlappingRun | iteres/lzp.py:59-74 | a literal `x` and a copy from the byte just written decode to `l + 1` copies of `x` |
| LzpDecoder.GroupTokensEnd | iteres/lzp.py:53-77 | the tokens of a group that ends the payload are all that is read, with decoding stopping mid-mask |
| LzpDecoder.EncodedTokensMore | iteres/lzp.py:48-78 | the tokens of whole groups are read before the tokens that follow them |
| LzpDecoder.CopyBytes | iteres/lzp.py:68-74 | the byte-at-a-time copy loop computes `CopyRun` |
| LzpDecoder.DecodeToken | iteres/lzp.py:53-75 | one pass of the bit loop moves `pos` by 1 for a literal or 2 for a copy, and either applies the token or raises IndexError |
| LzpDecoder.DecodeGroup | iteres/lzp.py:52-78 | the eight-bit loop for one mask either fails exactly as the specification does, or continues in the same state at the next mask |
| LzpDecoder.Decompress | iteres/lzp.py:46-81 | the decompression loop returns exactly `Decode(f)`: the same pixels, or IndexError in the same cases |
| LzpContainer.ParseLzp | iteres/lzp.py:12-23 | StructError exactly when the file is too short for the header and palette; SeekError exactly when `4 * nframes` exceeds the file length; a container that opens satisfies `Valid` |
| LzpContainer.HeaderFields | iteres/lzp.py:25-39 | `nframes`, `width`, `height` and `framerate` are the little-endian words at bytes 0, 4, 8 and 12 |
| LzpContainer.Open | iteres/lzp.py:12-23 | the constructor, with its palette loop and offset-check loop, returns `ParseLzp(file)` |
| LzpContainer.FrameTableErrorIff | iteres/lzp.py:18-23 | once the header, palette and seek succeed, opening fails with the frame table error exactly when some table word exceeds `len - 4 * nframes`, and succeeds otherwise |
| LzpContainer.BadOffsetIff | iteres/lzp.py:20-23 | some parsed offset exceeds the boundary exactly when some word of the table does |
| LzpContainer.Payload | iteres/lzp.py:42-44 | IndexError exactly when `item` is out of Python's index range; a payload read is at most the file's size |
| LzpContainer.LengthPrefixInFile | iteres/lzp.py:42-43 | in an opened container, every in-range frame index gets past the length read |
| LzpContainer.NegativeIndex | iteres/lzp.py:42 | `lzp[-k]` is frame `nframes - k` |
| LzpContainer.PayloadExact | iteres/lzp.py:42-44 | the payload is exactly the `length` bytes after the 4-byte little-endian `length` at the frame's offset |
| LzpContainer.PayloadShort | iteres/lzp.py:44 | a payload that runs past the end of the file is cut short at the end of the file |
| LzpContainer.Frame | iteres/lzp.py:41-81 | an index out of range is IndexError; the only errors are IndexError and StructError; a frame that decodes has an in-range index, and no pixels exactly when its payload is empty |
| LzpContainer.GetItem | iteres/lzp.py:41-81 | `lzp[item]` is the decoded payload of frame `item`; errors are the index, short-read and decoder errors |
| LzpContainer.PaletteAt | iteres/lzp.py:16 | palette entry `i` is the three bytes at `0x20 + 3 * i`; `PaletteReadBack` states that stored triples read back |
| LzpContainer.Offsets | iteres/lzp.py:20 | the frame table is `n` 32-bit words; `TableReadBack` states that stored words read back |
| LzpContainer.PaletteReadBack | iteres/lzp.py:15-16 | 256 byte triples stored at 0x20 read back as the palette |
| LzpContainer.TableReadBack | iteres/lzp.py:18-20 | a table of words at the end of the file reads back as the offsets |
| LzpContainer.BuildRoundTrip | iteres/lzp.py:12-23 | opening a built container gives back its header fields, palette, data boundary and offsets |
| LzpContainer.BuildBadOffset | iteres/lzp.py:21-23 | a built container with an offset past its frame data fails with the frame table error |
| ResArchive.ReadEntry | iteres/res.py:32-39 | StructError exactly when fewer than 12 bytes remain; FileTableError exactly when raw `offset + length` exceeds the file length; 'Invalid file name.' exactly when the checks before pass and the path bytes read, less the last, are not all ASCII; a read entry is `(headerend + offset, length, name)` within bounds, its name is the ASCII decoding of those bytes, and the next record starts right after the path bytes actually read |
| ResArchive.DropLast | iteres/res.py:36 | the name is the path bytes without their last byte, and empty for an empty read |
| ResArchive.AsciiDecode | iteres/res.py:36 | decoding ASCII bytes keeps every code |
| ResArchive.Entries | iteres/res.py:31-39 | a parsed table holds exactly `k` entries |
| ResArchive.EntriesBounded | iteres/res.py:33-39 | every parsed entry passed the bounds check and has an ASCII name |
| ResArchive.HeaderEnd | iteres/res.py:28 | the data area starts `headerblocks` whole blocks in, on a block boundary, and at 0 exactly when either factor is 0 |
| ResArchive.ParseRes | iteres/res.py:15-39 | 'Bad file magic.' exactly when the first 6 bytes are not `ITERES`; success means the table has `entries` items and the length is the file size |
| ResArchive.ReadRecord | iteres/res.py:32-39 | one pass of the file-table loop computes `ReadEntry` |
| ResArchive.Open | iteres/res.py:15-39 | the constructor's magic check, header read and table loop return `ParseRes(file)` |
| ResArchive.ReadRecords | iteres/res.py:30-39 | records stored one after another read back as their entries, in file order |
| ResArchive.HeaderReadBack | iteres/res.py:23-27 | a built header has the magic, and reads back `blocksize, headerblocks, entries` at bytes 6, 10 and 14 |
| ResArchive.TableStored | iteres/res.py:31-32 | a built table stores each record's 12 bytes followed directly by its path bytes |
| ResArchive.BuildRoundTrip | iteres/res.py:15-39 | opening a built archive gives back its records, placed at `blocksize * headerblocks + offset` |
| ResArchive.EntryMayPassEnd | iteres/res.py:28-37 | the check on the raw offset lets through an entry that starts past the end of the file |
| CgfDump.ParseHeader | iteres/cgf.py:16-27 | an accepted header is the six words at bytes 4..27; each failed assertion of the header exactly when its condition fails and the earlier ones hold: magic, short read, version, then for format 0 the file size `28 + headersize + datasize` and the header size `24 * entries`; any other format with the right version passes |
| CgfDump.Records | iteres/cgf.py:29-34 | the loop prints at most `entries` rows, and all of them exactly when it does not fail |
| CgfDump.DumpFile | iteres/cgf.py:16-34 | `dump` completes without failure exactly when the header passes and every record is printed |
| CgfDump.DumpCgf | iteres/cgf.py:16-34 | the imperative `dump` prints exactly the rows of `DumpFile` and stops with the same failure |
| CgfDump.RowsAt | iteres/cgf.py:30-32 | printed row `j` holds the six words at `28 + 24 * j` and a known flag |
| CgfDump.RowsChained | iteres/cgf.py:29-34 | each printed delta is the sixth word minus the previous record's sixth word, or minus 0 for the first |
| CgfDump.ChainedSum | iteres/cgf.py:29-34 | chained deltas add up to the last sixth word, less the starting offset |
| CgfDump.DumpDeltas | iteres/cgf.py:29-34 | the deltas printed by `dump` add up to the sixth word of the last printed record |
| CgfDump.StopsAtFirstBadRecord | iteres/cgf.py:30-32 | a dump that stops early stops at the record after the last printed row: StructError exactly when that record is cut short, 'Unknown flag' exactly when its flag is unknown |

## Left out

- The click commands, their option handling and the exception printing: I/O plumbing only.
- pygame playback and the PIL/GIF conversion: they depend on foreign libraries, UI and timing.
- `Lzp.list`, `Lzp.debug`, `Lzp.dump`, `Res.list` and `Res.extract`: formatting, printing and filesystem writes.
- The `print(p, len(pixels))` before the IndexError is re-raised: output only. The error itself is modelled.
- The `pathlib.PureWindowsPath` conversion of a name: a library call. The name is kept as its decoded ASCII characters.
- The tqdm progress bars and the real stream's seek/tell state: the file is an immutable sequence read at explicit positions.
- The CGF output is modelled as a row of word values, not the text of `print`. The hex formatting and the file name are left out.
- Slice arguments to `Lzp.__getitem__`: only integer `item`s are modelled.
- LzpContainer.ParseLzp: reads the header from the start of the file; a stream passed in at another position, which `Lzp.__init__` would read from where it stands, is not modelled.
- LzpDecoder.WindowBound: holds only for outputs shorter than 2^32 bytes, because the block base is masked to 32 bits (`LzpDecoder.WindowAt4GiB` states what happens at 2^32).
