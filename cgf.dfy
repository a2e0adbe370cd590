/**
 * The validation inside the CGF `dump` command: the magic `CGFF`, six little-endian header
 * words, the size checks of format 0, and `entries` records of six words each, each with a
 * known flag, printed together with the difference of its last word from the previous one.
 */
module CgfDump {
  import opened Wrappers
  import opened Bytes

  /** The failed assertions of `dump`, and `struct.error` for a short read. */
  datatype CgfError = BadFileMagic | StructError | UnknownVersion | BadFileSize | BadHeaderSize | UnknownFlag

  /** `version, entries, headersize, datasize, format, version2`. */
  datatype CgfHeader = CgfHeader(version: nat, entries: nat, headersize: nat, datasize: nat, format: nat, version2: nat)

  /** One printed line: the six words of a record and the difference `f - offset`. */
  datatype Row = Row(a: nat, b: nat, c: nat, d: nat, e: nat, f: nat, delta: int)

  /** What `dump` prints: the rows, in order, and the failure that ended it, if any. */
  datatype Dump = Dump(rows: seq<Row>, failure: Option<CgfError>)

  /** The bytes of `b'CGFF'`. */
  const Magic: seq<byte> := [0x43, 0x47, 0x46, 0x46]

  /** Where the first record starts: the magic and six words. */
  const RecordsStart: nat := 28

  const RecordSize: nat := 24

  /** The two flags a record may carry. */
  predicate KnownFlag(e: nat)
  {
    e == 0x2e || e == 0x26
  }

  /** The header of `file` (lines 16-27), or the assertion that fails on it. */
  function ParseHeader(file: seq<byte>): (r: Result<CgfHeader, CgfError>)
    ensures r == Err(BadFileMagic) <==> |file| < 4 || file[..4] != Magic
    ensures r == Err(StructError) <==> 4 <= |file| < RecordsStart && file[..4] == Magic
    ensures r.Ok? ==> RecordsStart <= |file| && r.value.version == 1 && r.value.version2 == 0
    ensures r.Ok? ==>
      r.value == CgfHeader(U32(file, 4), U32(file, 8), U32(file, 12), U32(file, 16), U32(file, 20), U32(file, 24))
    ensures r.Ok? && r.value.format == 0 ==>
      RecordsStart + r.value.headersize + r.value.datasize == |file| &&
      r.value.entries * RecordSize == r.value.headersize
    ensures r == Err(UnknownVersion) <==>
      RecordsStart <= |file| && file[..4] == Magic && !(U32(file, 4) == 1 && U32(file, 24) == 0)
    ensures r == Err(BadFileSize) <==>
      RecordsStart <= |file| && file[..4] == Magic && U32(file, 4) == 1 && U32(file, 24) == 0 &&
      U32(file, 20) == 0 && RecordsStart + U32(file, 12) + U32(file, 16) != |file|
    ensures r == Err(BadHeaderSize) <==>
      RecordsStart <= |file| && file[..4] == Magic && U32(file, 4) == 1 && U32(file, 24) == 0 &&
      U32(file, 20) == 0 && RecordsStart + U32(file, 12) + U32(file, 16) == |file| &&
      U32(file, 8) * RecordSize != U32(file, 12)
    ensures (RecordsStart <= |file| && file[..4] == Magic && U32(file, 4) == 1 && U32(file, 24) == 0 &&
             U32(file, 20) != 0) ==> r.Ok?
  {
    if |file| < 4 || file[..4] != Magic then Err(BadFileMagic)
    else if |file| < RecordsStart then Err(StructError)
    else
      var h := CgfHeader(U32(file, 4), U32(file, 8), U32(file, 12), U32(file, 16), U32(file, 20), U32(file, 24));
      if !(h.version == 1 && h.version2 == 0) then Err(UnknownVersion)
      else if h.format == 0 && RecordsStart + h.headersize + h.datasize != |file| then Err(BadFileSize)
      else if h.format == 0 && h.entries * RecordSize != h.headersize then Err(BadHeaderSize)
      else Ok(h)
  }

  /** `r` printed in front of what the rest of the loop prints. */
  function Then(r: Row, rest: Dump): (d: Dump)
    ensures |d.rows| == |rest.rows| + 1 && d.rows[0] == r && d.rows[1..] == rest.rows
    ensures d.failure == rest.failure
  {
    Dump([r] + rest.rows, rest.failure)
  }

  /**
   * The last `k` passes of the record loop (lines 29-34), the next record at byte `pos` and
   * `offset` the last word of the record before it.
   */
  function Records(file: seq<byte>, pos: nat, k: nat, offset: nat): (d: Dump)
    ensures |d.rows| <= k
    ensures d.failure.None? <==> |d.rows| == k
    decreases k
  {
    if k == 0 then Dump([], None)
    else if pos + RecordSize > |file| then Dump([], Some(StructError))
    else
      var e, f := U32(file, pos + 16), U32(file, pos + 20);
      if !KnownFlag(e) then Dump([], Some(UnknownFlag))
      else
        var row := Row(U32(file, pos), U32(file, pos + 4), U32(file, pos + 8), U32(file, pos + 12), e, f, f - offset);
        Then(row, Records(file, pos + RecordSize, Less(k), f))
  }

  /** What `dump` prints for the bytes `file`. */
  function DumpFile(file: seq<byte>): (d: Dump)
    ensures d.failure.None? <==> ParseHeader(file).Ok? && |d.rows| == ParseHeader(file).value.entries
    ensures ParseHeader(file).Err? ==> d.rows == []
  {
    match ParseHeader(file)
    case Err(e) => Dump([], Some(e))
    case Ok(h) => Records(file, RecordsStart, h.entries, 0)
  }

  /** One record read moves the loop from `rows` at `pos` to `rows'` at `pos'`. */
  lemma Advance(file: seq<byte>, all: Dump, rows: seq<Row>, pos: nat, k: nat, offset: nat,
                row: Row, rows': seq<Row>, pos': nat, k': nat)
    requires all == Dump(rows + Records(file, pos, k, offset).rows, Records(file, pos, k, offset).failure)
    requires k > 0 && pos + RecordSize <= |file| && KnownFlag(U32(file, pos + 16))
    requires row == Row(U32(file, pos), U32(file, pos + 4), U32(file, pos + 8), U32(file, pos + 12),
                        U32(file, pos + 16), U32(file, pos + 20), U32(file, pos + 20) - offset)
    requires rows' == rows + [row] && pos' == pos + RecordSize && k' == Less(k)
    ensures all == Dump(rows' + Records(file, pos', k', row.f).rows, Records(file, pos', k', row.f).failure)
  {
    var rest := Records(file, pos', k', row.f);
    assert Records(file, pos, k, offset) == Then(row, rest);
    assert rows + ([row] + rest.rows) == rows' + rest.rows;
  }

  /** `dump` (lines 16-34): the rows it prints and the failure that stops it. */
  method DumpCgf(file: seq<byte>) returns (rows: seq<Row>, failure: Option<CgfError>)
    ensures Dump(rows, failure) == DumpFile(file)
  {
    rows := [];
    var magic := ReadAt(file, 0, 4);
    if magic != Magic {
      assert |file| >= 4 ==> magic == file[..4];
      return [], Some(BadFileMagic);
    }
    assert file[..4] == magic;
    var header := ReadAt(file, 4, 24);
    if |header| < 24 {
      return [], Some(StructError);
    }
    var version, entries, headersize := U32(file, 4), U32(file, 8), U32(file, 12);
    var datasize, format, version2 := U32(file, 16), U32(file, 20), U32(file, 24);
    if !(version == 1 && version2 == 0) {
      return [], Some(UnknownVersion);
    }
    if format == 0 {
      if RecordsStart + headersize + datasize != |file| {
        return [], Some(BadFileSize);
      }
      if entries * 6 * 4 != headersize {
        return [], Some(BadHeaderSize);
      }
    }
    ghost var all := DumpFile(file);
    var offset := 0;
    var pos: nat := RecordsStart;
    ghost var left: nat := entries;
    assert all == Dump(rows + Records(file, pos, left, offset).rows, Records(file, pos, left, offset).failure);
    for n := 0 to entries
      invariant left == entries - n
      invariant all == Dump(rows + Records(file, pos, left, offset).rows, Records(file, pos, left, offset).failure)
    {
      var record := ReadAt(file, pos, 24);
      if |record| < 24 {
        assert rows + [] == rows;
        return rows, Some(StructError);
      }
      var a, b, c, d := U32(file, pos), U32(file, pos + 4), U32(file, pos + 8), U32(file, pos + 12);
      var e, f := U32(file, pos + 16), U32(file, pos + 20);
      if !KnownFlag(e) {
        assert rows + [] == rows;
        return rows, Some(UnknownFlag);
      }
      var delta := f as int - offset as int;
      var row := Row(a, b, c, d, e, f, delta);
      ghost var rows0, pos0, left0, offset0 := rows, pos, left, offset;
      rows := rows + [row];
      pos := pos + RecordSize;
      left := Less(left);
      offset := f;
      Advance(file, all, rows0, pos0, left0, offset0, row, rows, pos, left);
    }
    assert rows + [] == rows;
    failure := None;
  }

  // Properties of what is printed

  function SumDeltas(rows: seq<Row>): int
  {
    if rows == [] then 0 else rows[0].delta + SumDeltas(rows[1..])
  }

  /** The last word of the last row, or `offset` when nothing was printed. */
  function LastF(rows: seq<Row>, offset: int): int
  {
    if rows == [] then offset else rows[|rows| - 1].f
  }

  /** Each row's difference is taken from the row before it, or from `offset` for the first. */
  predicate Chained(rows: seq<Row>, offset: int)
    decreases |rows|
  {
    rows == [] || (rows[0].delta == rows[0].f - offset && Chained(rows[1..], rows[0].f))
  }

  /** Chained differences add up to the last word, less the starting offset. */
  lemma {:induction false} ChainedSum(rows: seq<Row>, offset: int)
    requires Chained(rows, offset)
    ensures SumDeltas(rows) == LastF(rows, offset) - offset
    decreases |rows|
  {
    if rows != [] {
      var rest := rows[1..];
      ChainedSum(rest, rows[0].f);
      if rest != [] {
        assert rest[|rest| - 1] == rows[|rows| - 1];
      }
    }
  }

  /** The words of record `j`, `pos` the first record, in the order a row prints them. */
  predicate RowOf(file: seq<byte>, pos: nat, j: nat, row: Row)
  {
    var at := pos + RecordSize * j;
    at + RecordSize <= |file| &&
    row.a == U32(file, at) && row.b == U32(file, at + 4) && row.c == U32(file, at + 8) &&
    row.d == U32(file, at + 12) && row.e == U32(file, at + 16) && row.f == U32(file, at + 20)
  }

  /** Every row `j` holds the words of record `j` and a known flag. */
  predicate RowsOf(file: seq<byte>, pos: nat, rows: seq<Row>)
  {
    forall j :: 0 <= j < |rows| ==> RowOf(file, pos, j, rows[j]) && KnownFlag(rows[j].e)
  }

  /** Row `j` holds the six words at `pos + 24 * j` and carries a known flag. */
  lemma {:induction false} RowsAt(file: seq<byte>, pos: nat, k: nat, offset: nat)
    ensures RowsOf(file, pos, Records(file, pos, k, offset).rows)
    decreases k
  {
    var d := Records(file, pos, k, offset);
    if k > 0 && pos + RecordSize <= |file| && KnownFlag(U32(file, pos + 16)) {
      var f := U32(file, pos + 20);
      var pos' := pos + RecordSize;
      var rest := Records(file, pos', Less(k), f);
      RowsAt(file, pos', Less(k), f);
      assert RowsOf(file, pos', rest.rows);
      forall j | 0 <= j < |d.rows|
        ensures RowOf(file, pos, j, d.rows[j]) && KnownFlag(d.rows[j].e)
      {
        if j > 0 {
          assert d.rows[1..][j - 1] == d.rows[j];
          assert RowOf(file, pos', j - 1, rest.rows[j - 1]);
          assert pos' + RecordSize * (j - 1) == pos + RecordSize * j;
        }
      }
    }
  }

  /** Each printed difference is taken from the row before, or from `offset` for the first. */
  lemma {:induction false} RowsChained(file: seq<byte>, pos: nat, k: nat, offset: nat)
    ensures Chained(Records(file, pos, k, offset).rows, offset)
    decreases k
  {
    if k > 0 && pos + RecordSize <= |file| && KnownFlag(U32(file, pos + 16)) {
      var f := U32(file, pos + 20);
      RowsChained(file, pos + RecordSize, Less(k), f);
    }
  }

  /** Over a whole dump the printed differences add up to the last word printed. */
  lemma DumpDeltas(file: seq<byte>)
    ensures SumDeltas(DumpFile(file).rows) == LastF(DumpFile(file).rows, 0)
  {
    if ParseHeader(file).Ok? {
      RowsChained(file, RecordsStart, ParseHeader(file).value.entries, 0);
      ChainedSum(DumpFile(file).rows, 0);
    }
  }

  /**
   * A dump that stops early stops at the record after the last row printed: it is cut
   * short by the end of the file, or carries an unknown flag.
   */
  lemma {:induction false} StopsAtFirstBadRecord(file: seq<byte>, pos: nat, k: nat, offset: nat)
    ensures var d := Records(file, pos, k, offset);
      var at := pos + RecordSize * |d.rows|;
      (d.failure == Some(StructError) <==> |d.rows| < k && at + RecordSize > |file|) &&
      (d.failure == Some(UnknownFlag) <==> |d.rows| < k && at + RecordSize <= |file| && !KnownFlag(U32(file, at + 16)))
    decreases k
  {
    var d := Records(file, pos, k, offset);
    if k > 0 && pos + RecordSize <= |file| && KnownFlag(U32(file, pos + 16)) {
      var f := U32(file, pos + 20);
      var rest := Records(file, pos + RecordSize, Less(k), f);
      StopsAtFirstBadRecord(file, pos + RecordSize, Less(k), f);
      assert d.failure == rest.failure && |d.rows| == |rest.rows| + 1;
      assert pos + RecordSize * |d.rows| == pos + RecordSize + RecordSize * |rest.rows|;
    } else {
      assert d.rows == [];
    }
  }
}
