/**
 * What `write(address, data, dirtyPages)` and `read(address, dst)` do to a block page,
 * stated as values: which outcome, the page bytes afterwards, where the buffer cursor
 * and limit are left, and which bytes move. The methods of BlockPages are proved to
 * follow these functions, and the lemmas here say what the functions mean.
 */
module BlockEffects {
  import opened Results
  import opened Bytes
  import opened PageFormat

  /**
   * Where `limit(end)` leaves a cursor standing just after the 12-byte header of a
   * record at `offset`: there, or pulled back to `end` when that is smaller.
   */
  function PulledBack(offset: int, end: int): (from: int)
    ensures from <= end && from <= offset + BLOCK_HEADER_SIZE
    ensures from == end || from == offset + BLOCK_HEADER_SIZE
  {
    if offset + BLOCK_HEADER_SIZE <= end then offset + BLOCK_HEADER_SIZE else end
  }

  /**
   * The effect of one `write`: `result` is Ok(false) when no record carries the
   * address, Ok(true) after a copy, or the exception raised. `marked` is the range
   * passed to `invalidate`, when the write got that far.
   */
  datatype WriteStep = WriteStep(
    result: Result<bool, PageError>, bytes: seq<byte>, cursor: int, limit: int, marked: Option<(int, int)>)

  /** The exceptions a block page operation can raise on a page that decodes. */
  datatype PageError = IllegalArgument | BufferOverflow

  /**
   * `write(address, data)` on page bytes `s` whose scan passes `blocks`, with `src`
   * the bytes remaining in `data`. The first record carrying the address, live or
   * freed, is the target; the limit is set to its end (IllegalArgumentException when
   * that lies outside the page), the bytes from the cursor to that end are
   * invalidated, and `src` is copied there unless it is longer (BufferOverflowException).
   */
  function WriteEffect(s: seq<byte>, blocks: seq<Record>, address: int, src: seq<byte>): (e: WriteStep)
    ensures e.result.Ok? ==> e.limit == |s|
    ensures e.result != Ok(true) ==> e.bytes == s
  {
    match Find(blocks, address)
    case None => WriteStep(Ok(false), s, BLOCK_PAGE_HEADER_SIZE + Extents(blocks), |s|, None)
    case Some(k) => WriteAtEffect(s, blocks[k].offset, blocks[k].size, src)
  }

  /**
   * `write` at the record whose header holds `size` at `offset`: IllegalArgumentException
   * when the record's end lies outside the page, and otherwise the put into its range.
   */
  function WriteAtEffect(s: seq<byte>, offset: nat, size: int, src: seq<byte>): (e: WriteStep)
    ensures e.result.Ok? ==> e.limit == |s|
    ensures e.result != Ok(true) ==> e.bytes == s
  {
    var end := offset + size;
    if end < 0 || end > |s| then
      WriteStep(Err(IllegalArgument), s, offset + BLOCK_HEADER_SIZE, |s|, None)
    else
      PutEffect(s, PulledBack(offset, end), end, src)
  }

  /**
   * The put at the heart of `write`, with the cursor at `from` and the limit at `end`:
   * that range is invalidated, then `src` is copied at `from` and the limit restored
   * to the end of the page, or BufferOverflowException when `src` is longer than the range.
   */
  function PutEffect(s: seq<byte>, from: int, end: int, src: seq<byte>): (e: WriteStep)
    requires 0 <= from <= end <= |s|
    ensures e.marked == Some((from, end - from))
    ensures e.result == Ok(true) <==> |src| <= end - from
    ensures |e.bytes| == |s|
    ensures e.result == Ok(true) ==> e.bytes[from..from + |src|] == src
    ensures e.result == Ok(true) ==> e.bytes[..from] == s[..from] && e.bytes[from + |src|..] == s[from + |src|..]
  {
    if |src| > end - from then
      WriteStep(Err(BufferOverflow), s, from, end, Some((from, end - from)))
    else
      WriteStep(Ok(true), Overwrite(s, from, src), from + |src|, |s|, Some((from, end - from)))
  }

  /**
   * The effect of one `read`: `result` is Ok(false) when no record carries the address
   * (the source returns null), Ok(true) when the buffer is returned, or the exception
   * raised. `copied` is what was put into the buffer.
   */
  datatype ReadStep = ReadStep(result: Result<bool, PageError>, copied: seq<byte>, cursor: int, limit: int)

  /**
   * `read(address, dst)` on page bytes `s` whose scan passes `blocks`. `room` is the
   * space left in `dst`, or None when `dst` is null: then a buffer of the record's
   * size less its header is allocated, which fails (IllegalArgumentException) for a
   * freed record's negative size. The bytes from the cursor to the record's end are
   * then put into the buffer, or BufferOverflowException when they do not fit.
   */
  function ReadEffect(s: seq<byte>, blocks: seq<Record>, address: int, room: Option<int>): (e: ReadStep)
    ensures e.result != Ok(true) ==> e.copied == []
  {
    match Find(blocks, address)
    case None => ReadStep(Ok(false), [], BLOCK_PAGE_HEADER_SIZE + Extents(blocks), |s|)
    case Some(k) =>
      var rec := blocks[k];
      var end := rec.offset + rec.size;
      if room.None? && rec.size < BLOCK_HEADER_SIZE then
        ReadStep(Err(IllegalArgument), [], rec.offset, |s|)
      else if end < 0 || end > |s| then
        ReadStep(Err(IllegalArgument), [], rec.offset + BLOCK_HEADER_SIZE, |s|)
      else
        var from := PulledBack(rec.offset, end);
        var space := if room.Some? then room.value else rec.size - BLOCK_HEADER_SIZE;
        if end - from > space then
          ReadStep(Err(BufferOverflow), [], from, end)
        else
          ReadStep(Ok(true), s[from..end], end, |s|)
  }

  // ---------------------------------------------------------------------------
  // Lemmas

  /** A fresh buffer has room for exactly the record's size less its header. */
  lemma ReadFreshRoom(s: seq<byte>, blocks: seq<Record>, address: int)
    requires Find(blocks, address).Some? && blocks[Find(blocks, address).value].size >= BLOCK_HEADER_SIZE
    ensures ReadEffect(s, blocks, address, None)
         == ReadEffect(s, blocks, address, Some(blocks[Find(blocks, address).value].size - BLOCK_HEADER_SIZE))
  {
  }

  /** A write finds nothing to write exactly when no record carries the address, and then changes nothing. */
  lemma WriteMissesExactly(s: seq<byte>, blocks: seq<Record>, address: int, src: seq<byte>)
    ensures WriteEffect(s, blocks, address, src).result == Ok(false)
        <==> forall j :: 0 <= j < |blocks| ==> blocks[j].address != address
    ensures WriteEffect(s, blocks, address, src).result == Ok(false) ==> WriteEffect(s, blocks, address, src).bytes == s
  {
  }

  /**
   * On a page that decodes, every write keeps the chain of records: into a live
   * record the copy stays inside its payload, and a freed record's range is empty,
   * so only an empty `src` is copied there.
   */
  lemma WriteKeepsRecords(s: seq<byte>, n: int, address: int, src: seq<byte>)
    requires Records(s, BLOCK_PAGE_HEADER_SIZE, n).Some?
    ensures var blocks := Records(s, BLOCK_PAGE_HEADER_SIZE, n).value;
      Records(WriteEffect(s, blocks, address, src).bytes, BLOCK_PAGE_HEADER_SIZE, n) == Some(blocks)
  {
    var blocks := Records(s, BLOCK_PAGE_HEADER_SIZE, n).value;
    match Find(blocks, address)
    case None =>
    case Some(k) =>
      var rec := blocks[k];
      var end := rec.offset + rec.size;
      if 0 <= end <= |s| {
        var from := PulledBack(rec.offset, end);
        if |src| <= end - from {
          if IsLive(rec) {
            RecordBounds(s, n, k);
            assert from == rec.offset + BLOCK_HEADER_SIZE;
            OverwritePayloadKeepsRecords(s, n, k, src);
          } else {
            assert src == [];
            OverwriteNothing(s, from);
          }
        }
      }
  }

  /**
   * Writing a live record's whole payload and then reading it into a fresh buffer
   * yields exactly the bytes written.
   */
  lemma WriteThenRead(s: seq<byte>, n: int, address: int, src: seq<byte>)
    requires Records(s, BLOCK_PAGE_HEADER_SIZE, n).Some?
    requires var blocks := Records(s, BLOCK_PAGE_HEADER_SIZE, n).value;
      && Find(blocks, address).Some?
      && IsLive(blocks[Find(blocks, address).value])
      && |src| == blocks[Find(blocks, address).value].size - BLOCK_HEADER_SIZE
    ensures var blocks := Records(s, BLOCK_PAGE_HEADER_SIZE, n).value;
      var written := WriteEffect(s, blocks, address, src);
      && written.result == Ok(true)
      && ReadEffect(written.bytes, blocks, address, None) == ReadStep(Ok(true), src, written.cursor, |s|)
  {
    var blocks := Records(s, BLOCK_PAGE_HEADER_SIZE, n).value;
    var rec := blocks[Find(blocks, address).value];
    RecordBounds(s, n, Find(blocks, address).value);
    WriteThenReadPayload(s, rec, src);
  }

  /**
   * Reading a live record into a fresh buffer yields its payload; reading a freed
   * one into a fresh buffer raises IllegalArgumentException.
   */
  lemma ReadIntoFreshBuffer(s: seq<byte>, n: int, address: int)
    requires Records(s, BLOCK_PAGE_HEADER_SIZE, n).Some?
    requires Find(Records(s, BLOCK_PAGE_HEADER_SIZE, n).value, address).Some?
    ensures var blocks := Records(s, BLOCK_PAGE_HEADER_SIZE, n).value;
      var rec := blocks[Find(blocks, address).value];
      var e := ReadEffect(s, blocks, address, None);
      && (IsLive(rec) ==> e.result == Ok(true) && e.copied == Payload(s, rec))
      && (!IsLive(rec) ==> e.result == Err(IllegalArgument))
  {
    var blocks := Records(s, BLOCK_PAGE_HEADER_SIZE, n).value;
    var k := Find(blocks, address).value;
    if IsLive(blocks[k]) {
      RecordBounds(s, n, k);
      assert PulledBack(blocks[k].offset, blocks[k].offset + blocks[k].size) == blocks[k].offset + BLOCK_HEADER_SIZE;
    }
  }
}
