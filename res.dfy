/**
 * The ITERES resource archive (`Res.__init__`): the magic `ITERES`, three little-endian
 * header words `blocksize, headerblocks, entries`, then `entries` file-table records read
 * one after another. Each record is `length, offset, pathlen` followed by `pathlen` bytes
 * of name, the last of which is a terminator.
 */
module ResArchive {
  import opened Wrappers
  import opened Bytes

  /** 'Bad file magic.', `struct.error`, 'File table error.' and 'Invalid file name.' */
  datatype ResError = BadFileMagic | StructError | FileTableError | InvalidFileName

  /** One file of the archive: where its data starts, how long it is, and its name. */
  datatype ResEntry = ResEntry(offset: nat, length: nat, name: string)

  /** An opened archive: the file's length and its file table in file order. */
  datatype Res = Res(length: nat, filetable: seq<ResEntry>)

  /** One record read: its entry and where the next record starts. */
  datatype Step = Step(entry: ResEntry, next: nat)

  /** The bytes of `b'ITERES'`. */
  const Magic: seq<byte> := [0x49, 0x54, 0x45, 0x52, 0x45, 0x53]

  /** Where the first file-table record starts. */
  const TableStart: nat := 18

  predicate Ascii(b: seq<byte>)
  {
    forall i :: 0 <= i < |b| ==> b[i] < 128
  }

  /** `bytes.decode('ascii')` of bytes that are all below 128. */
  function AsciiDecode(b: seq<byte>): (s: string)
    requires Ascii(b)
    ensures |s| == |b| && forall i :: 0 <= i < |b| ==> s[i] as int == b[i]
  {
    seq(|b|, i requires 0 <= i < |b| => b[i] as char)
  }

  /** `path[:-1]`: every byte but the last, and nothing of an empty read. */
  function DropLast(path: seq<byte>): (name: seq<byte>)
    ensures path != [] ==> path == name + [path[|path| - 1]]
    ensures path == [] ==> name == []
  {
    if path == [] then [] else path[..|path| - 1]
  }

  /** `t` in front of the table a successful parse gives; errors are passed on. */
  function Prefixed(t: seq<ResEntry>, r: Result<seq<ResEntry>, ResError>): (p: Result<seq<ResEntry>, ResError>)
    ensures p.Ok? <==> r.Ok?
    ensures r.Err? ==> p == r
  {
    match r
    case Ok(rest) => Ok(t + rest)
    case Err(e) => Err(e)
  }

  lemma PrefixedEmpty(r: Result<seq<ResEntry>, ResError>)
    ensures Prefixed([], r) == r
  {
    if r.Ok? {
      assert [] + r.value == r.value;
    }
  }

  lemma PrefixedTwice(t: seq<ResEntry>, e: ResEntry, r: Result<seq<ResEntry>, ResError>)
    ensures Prefixed(t, Prefixed([e], r)) == Prefixed(t + [e], r)
  {
    if r.Ok? {
      assert t + ([e] + r.value) == t + [e] + r.value;
    }
  }

  /**
   * The file-table record at byte `pos` of `file` and where the next one starts (lines
   * 32-39), each check in the order the source makes it; the next record starts right after
   * the name bytes that were read, however few.
   */
  function ReadEntry(file: seq<byte>, pos: nat, headerend: nat): (r: Result<Step, ResError>)
    ensures r.Ok? ==> r.value.next >= pos + 12
    ensures r.Ok? ==> var e := r.value.entry;
      e.offset >= headerend && e.offset - headerend + e.length <= |file|
    ensures r.Err? ==> r.error != BadFileMagic
    ensures r == Err(StructError) <==> pos + 12 > |file|
    ensures r == Err(FileTableError) <==> pos + 12 <= |file| && U32(file, pos + 4) + U32(file, pos) > |file|
    ensures r.Ok? ==> r.value.entry.length == U32(file, pos) && r.value.entry.offset == headerend + U32(file, pos + 4)
    ensures r == Err(InvalidFileName) <==>
      pos + 12 <= |file| && U32(file, pos + 4) + U32(file, pos) <= |file| &&
      !Ascii(DropLast(ReadAt(file, pos + 12, U32(file, pos + 8))))
    ensures r.Ok? ==> var path := ReadAt(file, pos + 12, U32(file, pos + 8));
      Ascii(DropLast(path)) && r.value.entry.name == AsciiDecode(DropLast(path)) &&
      r.value.next == pos + 12 + |path|
  {
    if pos + 12 > |file| then Err(StructError)
    else
      var length, offset, pathlen := U32(file, pos), U32(file, pos + 4), U32(file, pos + 8);
      if offset + length > |file| then Err(FileTableError)
      else
        var path := ReadAt(file, pos + 12, pathlen);
        var name := DropLast(path);
        if !Ascii(name) then Err(InvalidFileName)
        else Ok(Step(ResEntry(headerend + offset, length, AsciiDecode(name)), pos + 12 + |path|))
  }

  /** The `k` file-table records from byte `pos` of `file` (lines 31-39), in file order. */
  function Entries(file: seq<byte>, pos: nat, k: nat, headerend: nat): (r: Result<seq<ResEntry>, ResError>)
    ensures r.Ok? ==> |r.value| == k
    ensures r.Err? ==> r.error != BadFileMagic
    decreases k
  {
    if k == 0 then Ok([])
    else
      match ReadEntry(file, pos, headerend)
      case Err(e) => Err(e)
      case Ok(Step(entry, next)) => Prefixed([entry], Entries(file, next, Less(k), headerend))
  }

  /**
   * Where the file data area starts (line 28): after `headerblocks` whole blocks of
   * `blocksize` bytes, so on a block boundary.
   */
  function HeaderEnd(blocksize: nat, headerblocks: nat): (h: nat)
    ensures blocksize > 0 ==> h % blocksize == 0 && h / blocksize == headerblocks
    ensures blocksize == 0 || headerblocks == 0 <==> h == 0
  {
    WholeBlocks(blocksize, headerblocks);
    blocksize * headerblocks
  }

  lemma {:induction false} WholeBlocks(b: nat, k: nat)
    ensures b > 0 ==> (b * k) % b == 0 && (b * k) / b == k
    ensures b == 0 || k == 0 <==> b * k == 0
    decreases k
  {
    if k > 0 {
      WholeBlocks(b, k - 1);
      assert b * k == b * (k - 1) + b;
    }
  }

  /**
   * The entry passed the file-table check, which bounds its raw offset and length by the
   * file length, and has an ASCII name.
   */
  predicate Checked(e: ResEntry, headerend: nat, size: nat)
  {
    e.offset >= headerend && e.offset - headerend + e.length <= size &&
    forall c :: 0 <= c < |e.name| ==> e.name[c] < 128 as char
  }

  /** Every entry of a parsed table passed the checks of the loop. */
  lemma {:induction false} EntriesBounded(file: seq<byte>, pos: nat, k: nat, headerend: nat)
    requires Entries(file, pos, k, headerend).Ok?
    ensures var t := Entries(file, pos, k, headerend).value;
      forall j :: 0 <= j < |t| ==> Checked(t[j], headerend, |file|)
    decreases k
  {
    if k > 0 {
      var s := ReadEntry(file, pos, headerend).value;
      var next, j := s.next, Less(k);
      EntriesCons(file, pos, k, headerend, s);
      EntriesBounded(file, next, j, headerend);
      var t, rest := Entries(file, pos, k, headerend).value, Entries(file, next, j, headerend).value;
      assert t == [s.entry] + rest;
      assert Checked(s.entry, headerend, |file|) by {
        var name := DropLast(ReadAt(file, pos + 12, U32(file, pos + 8)));
        assert s.entry.name == AsciiDecode(name);
      }
      forall i | 0 <= i < |t|
        ensures Checked(t[i], headerend, |file|)
      {
        if i > 0 {
          assert t[i] == rest[i - 1];
        }
      }
    }
  }

  /** The archive the bytes `file` open to, or the error `Res(file)` raises. */
  function ParseRes(file: seq<byte>): (r: Result<Res, ResError>)
    ensures r == Err(BadFileMagic) <==> |file| < 6 || file[..6] != Magic
    ensures r == Err(StructError) ==> |file| < TableStart || U32(file, 14) > 0
    ensures r.Ok? ==> |file| >= TableStart && r.value.length == |file| && |r.value.filetable| == U32(file, 14)
  {
    if |file| < 6 || file[..6] != Magic then Err(BadFileMagic)
    else if |file| < TableStart then Err(StructError)
    else
      var blocksize, headerblocks, entries := U32(file, 6), U32(file, 10), U32(file, 14);
      match Entries(file, TableStart, entries, HeaderEnd(blocksize, headerblocks))
      case Err(e) => Err(e)
      case Ok(table) => Ok(Res(|file|, table))
  }

  /** One pass of the file-table loop (lines 32-37): read a record and its name. */
  method ReadRecord(file: seq<byte>, pos: nat, headerend: nat) returns (r: Result<Step, ResError>)
    ensures r == ReadEntry(file, pos, headerend)
  {
    var record := ReadAt(file, pos, 12);
    if |record| < 12 {
      return Err(StructError);
    }
    var length, offset, pathlen := U32(file, pos), U32(file, pos + 4), U32(file, pos + 8);
    if offset + length > |file| {
      return Err(FileTableError);
    }
    var path := ReadAt(file, pos + 12, pathlen);
    var name := DropLast(path);
    if !Ascii(name) {
      return Err(InvalidFileName);
    }
    r := Ok(Step(ResEntry(headerend + offset, length, AsciiDecode(name)), pos + 12 + |path|));
  }

  /** A record read is the head of the table parsed from its position. */
  lemma EntriesCons(file: seq<byte>, pos: nat, k: nat, headerend: nat, s: Step)
    requires k > 0 && ReadEntry(file, pos, headerend) == Ok(s)
    ensures Entries(file, pos, k, headerend) == Prefixed([s.entry], Entries(file, s.next, Less(k), headerend))
  {
  }

  /** One record read moves the loop from `t` at `pos` to `t'` at `pos'`, `k'` records left. */
  lemma Advance(file: seq<byte>, headerend: nat, all: Result<seq<ResEntry>, ResError>,
                t: seq<ResEntry>, pos: nat, k: nat, s: Step, t': seq<ResEntry>, pos': nat, k': nat)
    requires all == Prefixed(t, Entries(file, pos, k, headerend))
    requires k > 0 && ReadEntry(file, pos, headerend) == Ok(s)
    requires t' == t + [s.entry] && pos' == s.next && k' == Less(k)
    ensures all == Prefixed(t', Entries(file, pos', k', headerend))
  {
    PrefixedTwice(t, s.entry, Entries(file, s.next, Less(k), headerend));
  }

  /** A record that cannot be read ends the parse with its error. */
  lemma Halt(file: seq<byte>, headerend: nat, t: seq<ResEntry>, pos: nat, k: nat)
    requires k > 0 && ReadEntry(file, pos, headerend).Err?
    ensures Prefixed(t, Entries(file, pos, k, headerend)) == Err(ReadEntry(file, pos, headerend).error)
  {
  }

  /** With no records left, the parse is the table read so far. */
  lemma Finish(file: seq<byte>, headerend: nat, t: seq<ResEntry>, pos: nat)
    ensures Prefixed(t, Entries(file, pos, 0, headerend)) == Ok(t)
  {
    assert t + [] == t;
  }

  /** `Res.__init__` (lines 15-39). */
  method Open(file: seq<byte>) returns (r: Result<Res, ResError>)
    ensures r == ParseRes(file)
  {
    var magic := ReadAt(file, 0, 6);
    if magic != Magic {
      assert |file| >= 6 ==> magic == file[..6];
      return Err(BadFileMagic);
    }
    assert file[..6] == magic;
    var header := ReadAt(file, 6, 12);
    if |header| < 12 {
      return Err(StructError);
    }
    var blocksize, headerblocks, entries := U32(file, 6), U32(file, 10), U32(file, 14);
    var headerend := HeaderEnd(blocksize, headerblocks);
    ghost var all := Entries(file, TableStart, entries, headerend);
    var filetable: seq<ResEntry> := [];
    var pos: nat := TableStart;
    ghost var left: nat := entries;
    PrefixedEmpty(all);
    for n := 0 to entries
      invariant left == entries - n
      invariant all == Prefixed(filetable, Entries(file, pos, left, headerend))
    {
      var step := ReadRecord(file, pos, headerend);
      if step.Err? {
        Halt(file, headerend, filetable, pos, left);
        return Err(step.error);
      }
      ghost var t0, p0, k0 := filetable, pos, left;
      filetable := filetable + [step.value.entry];
      pos := step.value.next;
      left := left - 1;
      Advance(file, headerend, all, t0, p0, k0, step.value, filetable, pos, left);
    }
    Finish(file, headerend, filetable, pos);
    r := Ok(Res(|file|, filetable));
  }

  // Building an archive

  /** A file-table record as stored: the name bytes `path` include the terminator. */
  datatype Record = Record(length: nat, offset: nat, path: seq<byte>)

  predicate WordRecord(e: Record)
  {
    e.length < Word && e.offset < Word && |e.path| < Word
  }

  function RecordBytes(e: Record): (b: seq<byte>)
    requires WordRecord(e)
    ensures |b| == 12 + |e.path|
  {
    LE32(e.length) + LE32(e.offset) + LE32(|e.path|) + e.path
  }

  function TableBytes(es: seq<Record>): (b: seq<byte>)
    requires forall i :: 0 <= i < |es| ==> WordRecord(es[i])
  {
    if es == [] then [] else RecordBytes(es[0]) + TableBytes(es[1..])
  }

  /** The entry a well-formed stored record is read as. */
  function EntryOf(e: Record, headerend: nat): ResEntry
    requires Ascii(DropLast(e.path))
  {
    ResEntry(headerend + e.offset, e.length, AsciiDecode(DropLast(e.path)))
  }

  /** The stored records `es`, read back with nothing going wrong. */
  predicate Readable(es: seq<Record>, size: nat)
  {
    forall i :: 0 <= i < |es| ==>
      WordRecord(es[i]) && Ascii(DropLast(es[i].path)) && es[i].offset + es[i].length <= size
  }

  function EntriesOf(es: seq<Record>, headerend: nat, size: nat): (t: seq<ResEntry>)
    requires Readable(es, size)
    ensures |t| == |es|
  {
    if es == [] then [] else [EntryOf(es[0], headerend)] + EntriesOf(es[1..], headerend, size)
  }

  /** The record `e` is stored at byte `pos` of `file`. */
  predicate RecordAt(file: seq<byte>, pos: nat, e: Record)
  {
    pos + 12 + |e.path| <= |file| && U32(file, pos) == e.length && U32(file, pos + 4) == e.offset &&
    U32(file, pos + 8) == |e.path| && forall j :: 0 <= j < |e.path| ==> file[pos + 12 + j] == e.path[j]
  }

  /** The records `es` are stored one after another from byte `pos` of `file`. */
  predicate RecordsAt(file: seq<byte>, pos: nat, es: seq<Record>)
    decreases |es|
  {
    es == [] || (RecordAt(file, pos, es[0]) && RecordsAt(file, pos + 12 + |es[0].path|, es[1..]))
  }

  /** A record stored whole, within bounds and with an ASCII name reads back as its entry. */
  lemma ReadOneRecord(file: seq<byte>, pos: nat, e: Record, headerend: nat, next: nat)
    requires RecordAt(file, pos, e) && WordRecord(e) && Ascii(DropLast(e.path))
    requires e.offset + e.length <= |file| && next == pos + 12 + |e.path|
    ensures ReadEntry(file, pos, headerend) == Ok(Step(EntryOf(e, headerend), next))
  {
    ReadAtWithin(file, pos + 12, |e.path|);
    assert ReadAt(file, pos + 12, |e.path|) == e.path;
  }

  lemma RecordsRest(file: seq<byte>, pos: nat, es: seq<Record>, size: nat)
    requires es != [] && RecordsAt(file, pos, es) && Readable(es, size)
    ensures RecordAt(file, pos, es[0]) && RecordsAt(file, pos + 12 + |es[0].path|, es[1..])
    ensures WordRecord(es[0]) && Ascii(DropLast(es[0].path)) && es[0].offset + es[0].length <= size
    ensures Readable(es[1..], size)
  {
    assert Readable(es[1..], size) by {
      forall i | 0 <= i < |es[1..]|
        ensures WordRecord(es[1..][i]) && Ascii(DropLast(es[1..][i].path)) && es[1..][i].offset + es[1..][i].length <= size
      {
        assert es[1..][i] == es[i + 1];
      }
    }
  }

  /** A record stored whole, within bounds and with an ASCII name heads the table read from it. */
  lemma RecordHead(file: seq<byte>, pos: nat, e: Record, headerend: nat, k: nat, next: nat, j: nat)
    requires k > 0 && RecordAt(file, pos, e) && WordRecord(e) && Ascii(DropLast(e.path))
    requires e.offset + e.length <= |file|
    requires next == pos + 12 + |e.path| && j == Less(k)
    ensures Entries(file, pos, k, headerend) == Prefixed([EntryOf(e, headerend)], Entries(file, next, j, headerend))
  {
    var s := Step(EntryOf(e, headerend), next);
    ReadOneRecord(file, pos, e, headerend, next);
    EntriesCons(file, pos, k, headerend, s);
  }

  lemma {:induction false} ReadRecords(file: seq<byte>, pos: nat, es: seq<Record>, headerend: nat, k: nat)
    requires k == |es| && RecordsAt(file, pos, es) && Readable(es, |file|)
    ensures Entries(file, pos, k, headerend) == Ok(EntriesOf(es, headerend, |file|))
    decreases k
  {
    if k > 0 {
      var e, rest := es[0], es[1..];
      var next, j := pos + 12 + |e.path|, Less(k);
      RecordsRest(file, pos, es, |file|);
      var x, tail := EntryOf(e, headerend), EntriesOf(rest, headerend, |file|);
      ReadRecords(file, next, rest, headerend, j);
      RecordHead(file, pos, e, headerend, k, next, j);
      assert Entries(file, pos, k, headerend) == Prefixed([x], Ok(tail));
      assert EntriesOf(es, headerend, |file|) == [x] + tail;
    } else {
      assert es == [];
    }
  }

  lemma RecordStored(file: seq<byte>, pre: seq<byte>, e: Record, post: seq<byte>)
    requires WordRecord(e) && file == pre + RecordBytes(e) + post
    ensures RecordAt(file, |pre|, e)
  {
    var a, b, c := LE32(e.length), LE32(e.offset), LE32(|e.path|);
    Inside(file, pre, RecordBytes(e), post);
    assert RecordBytes(e) == a + b + c + e.path;
    WordAt(file, |pre|, e.length);
    WordAt(file, |pre| + 4, e.offset);
    WordAt(file, |pre| + 8, |e.path|);
  }

  lemma {:induction false} TableStored(file: seq<byte>, pre: seq<byte>, es: seq<Record>, post: seq<byte>, pos: nat)
    requires forall i :: 0 <= i < |es| ==> WordRecord(es[i])
    requires file == pre + TableBytes(es) + post && pos == |pre|
    ensures RecordsAt(file, pos, es)
    decreases |es|
  {
    if es != [] {
      var e := es[0];
      var head, rest := RecordBytes(e), TableBytes(es[1..]);
      var pre', pos' := pre + head, pos + 12 + |e.path|;
      assert TableBytes(es) == head + rest;
      Assoc(pre, head + rest, post);
      Assoc(head, rest, post);
      RecordStored(file, pre, e, rest + post);
      Assoc(pre, head, rest + post);
      Assoc(pre', rest, post);
      TableStored(file, pre', es[1..], post, pos');
    }
  }

  /** The first 18 bytes of an archive: the magic and the three header words. */
  function Header(blocksize: nat, headerblocks: nat, entries: nat): (h: seq<byte>)
    requires blocksize < Word && headerblocks < Word && entries < Word
    ensures |h| == TableStart
  {
    Magic + LE32(blocksize) + LE32(headerblocks) + LE32(entries)
  }

  /** An archive file: the header, the file table, then the data. */
  function BuildRes(blocksize: nat, headerblocks: nat, es: seq<Record>, data: seq<byte>): (file: seq<byte>)
    requires blocksize < Word && headerblocks < Word && |es| < Word
    requires forall i :: 0 <= i < |es| ==> WordRecord(es[i])
  {
    Header(blocksize, headerblocks, |es|) + TableBytes(es) + data
  }

  /** A built header reads back as its magic and its three words. */
  lemma HeaderReadBack(file: seq<byte>, blocksize: nat, headerblocks: nat, entries: nat, post: seq<byte>)
    requires blocksize < Word && headerblocks < Word && entries < Word
    requires file == Header(blocksize, headerblocks, entries) + post
    ensures file[..6] == Magic
    ensures U32(file, 6) == blocksize && U32(file, 10) == headerblocks && U32(file, 14) == entries
  {
    var w0, w1, w2 := LE32(blocksize), LE32(headerblocks), LE32(entries);
    Assoc(Magic, w0 + w1 + w2, post);
    assert Magic + (w0 + w1 + w2) == Header(blocksize, headerblocks, entries);
    Inside(file, Magic, w0 + w1 + w2, post);
    assert file[..6] == Magic;
    WordAt(file, 6, blocksize);
    WordAt(file, 10, headerblocks);
    WordAt(file, 14, entries);
  }

  /** Opening a built archive gives back its records, placed after the header blocks. */
  lemma BuildRoundTrip(blocksize: nat, headerblocks: nat, es: seq<Record>, data: seq<byte>)
    requires blocksize < Word && headerblocks < Word && |es| < Word
    requires forall i :: 0 <= i < |es| ==> WordRecord(es[i])
    requires Readable(es, |BuildRes(blocksize, headerblocks, es, data)|)
    ensures var file := BuildRes(blocksize, headerblocks, es, data);
      ParseRes(file) == Ok(Res(|file|, EntriesOf(es, HeaderEnd(blocksize, headerblocks), |file|)))
  {
    var file := BuildRes(blocksize, headerblocks, es, data);
    var head, table := Header(blocksize, headerblocks, |es|), TableBytes(es);
    Assoc(head, table, data);
    HeaderReadBack(file, blocksize, headerblocks, |es|, table + data);
    TableStored(file, head, es, data, TableStart);
    ReadRecords(file, TableStart, es, HeaderEnd(blocksize, headerblocks), |es|);
  }

  /**
   * The file-table check compares the raw offset and not `headerend + offset` with the file
   * length, so an archive whose header blocks are larger than the file opens to an entry
   * that reaches past the end of the file.
   */
  lemma EntryMayPassEnd()
    ensures var file := BuildRes(100, 1, [Record(1, 0, [0x61, 0])], []);
      ParseRes(file).Ok? && |file| < ParseRes(file).value.filetable[0].offset
  {
    var es := [Record(1, 0, [0x61, 0])];
    var file := BuildRes(100, 1, es, []);
    assert |file| == 32;
    assert DropLast(es[0].path) == [0x61];
    BuildRoundTrip(100, 1, es, []);
  }
}
