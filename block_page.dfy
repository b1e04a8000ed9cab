/**
 * A block page: a raw page whose bytes hold a checksum, a count and a chain of
 * block records (see PageFormat). The object keeps the number of live blocks
 * (`count`) and the bytes still free (`remaining`); every operation scans the
 * page buffer from byte 12, moving the buffer cursor as the source does.
 */
module BlockPages {
  import opened Results
  import opened Bytes
  import opened Buffers
  import opened Sheaf
  import opened PageFormat
  import opened BlockEffects
  import opened Recoveries

  /** The header a new page starts with: checksum 0, then the count field. */
  lemma NewHeaderReadsBack(checksum: Int64, count: Int32, rest: seq<byte>)
    ensures Int64At(Int64Bytes(checksum) + Int32Bytes(count) + rest, 0) == checksum
    ensures Int32At(Int64Bytes(checksum) + Int32Bytes(count) + rest, CHECKSUM_SIZE) == count
    ensures Records(Int64Bytes(checksum) + Int32Bytes(count) + rest, BLOCK_PAGE_HEADER_SIZE, 0) == Some([])
  {
    var a := Int64Bytes(checksum);
    var b := Int32Bytes(count);
    var s := a + b + rest;
    assert s[0..8] == a && a[0..8] == a;
    assert s[8..12] == b && b[0..4] == b;
    Int64RoundTrip(checksum);
    Int32RoundTrip(count);
  }

  /** Storing the checksum field and then the count field replaces exactly the first 12 bytes. */
  lemma HeaderStores(s: seq<byte>, checksum: seq<byte>, count: seq<byte>)
    requires |s| >= BLOCK_PAGE_HEADER_SIZE && |checksum| == CHECKSUM_SIZE && |count| == COUNT_SIZE
    ensures Overwrite(Overwrite(s, 0, checksum), CHECKSUM_SIZE, count) == checksum + count + s[BLOCK_PAGE_HEADER_SIZE..]
  {
  }

  /**
   * `n` turns of `checksum.update(bytes.get())` on the page buffer: the bytes from
   * the cursor on are appended to what the checksum has been fed, and the cursor
   * moves past them.
   */
  method Feed(page: RawPage, fed: seq<byte>, n: int) returns (more: seq<byte>)
    requires 0 <= n && 0 <= page.cursor && page.cursor + n <= page.limit <= page.bytes.Length
    modifies page
    ensures page.limit == old(page.limit) && page.invalidated == old(page.invalidated)
    ensures page.cursor == old(page.cursor) + n
    ensures more == fed + page.bytes[old(page.cursor)..old(page.cursor) + n]
  {
    more := fed;
    var i := 0;
    while i < n
      invariant 0 <= i <= n && page.cursor == old(page.cursor) + i
      invariant page.limit == old(page.limit) && page.invalidated == old(page.invalidated)
      invariant more == fed + page.bytes[old(page.cursor)..page.cursor]
    {
      more := more + [page.bytes[page.cursor]];
      page.cursor := page.cursor + 1;
      i := i + 1;
    }
  }

  /**
   * One turn of the record loop of `verifyChecksum`, with `need` live records still
   * to pass: the size field at the cursor is read, and a page where it does not fit,
   * is 0 or is larger than the bytes left is `corrupt`; otherwise a live record's
   * bytes are fed to the checksum and a freed one is skipped.
   */
  method VerifyStep(page: RawPage, ghost s: seq<byte>, need: int, fed: seq<byte>)
    returns (corrupt: bool, live: bool, more: seq<byte>)
    requires s == page.bytes[..] && page.limit == |s| && 0 <= page.cursor <= |s| && need > 0
    modifies page
    ensures page.limit == old(page.limit) && page.invalidated == old(page.invalidated)
    ensures corrupt ==> LiveScan(s, old(page.cursor), need) == None
    ensures !corrupt ==> old(page.cursor) < page.cursor <= |s|
    ensures !corrupt && live ==>
      Prefixed(more, LiveScan(s, page.cursor, need - 1)) == Prefixed(fed, LiveScan(s, old(page.cursor), need))
    ensures !corrupt && !live ==> more == fed && LiveScan(s, page.cursor, need) == LiveScan(s, old(page.cursor), need)
  {
    live, more := false, fed;
    if page.cursor + COUNT_SIZE > page.limit {
      return true, live, more;
    }
    var size := Int32At(page.bytes[..], page.cursor);
    if size == 0 || Abs(size) > page.limit - page.cursor {
      return true, live, more;
    }
    corrupt := false;
    live := size > 0;
    if live {
      more := FeedLive(page, s, need, size, fed);
    } else {
      SkipFreed(page, s, need, size);
    }
  }

  /** The live branch of a `verifyChecksum` turn: the record's `size` bytes are fed to the checksum. */
  method FeedLive(page: RawPage, ghost s: seq<byte>, need: int, size: Int32, fed: seq<byte>) returns (more: seq<byte>)
    requires s == page.bytes[..] && page.limit == |s| && 0 <= page.cursor && page.cursor + COUNT_SIZE <= |s| && need > 0
    requires size == Int32At(s, page.cursor) && 0 < size <= |s| - page.cursor
    modifies page
    ensures page.limit == old(page.limit) && page.invalidated == old(page.invalidated)
    ensures page.cursor == old(page.cursor) + size
    ensures Prefixed(more, LiveScan(s, page.cursor, need - 1)) == Prefixed(fed, LiveScan(s, old(page.cursor), need))
  {
    ghost var pos := page.cursor;
    more := Feed(page, fed, size);
    LiveScanLive(s, pos, need, fed);
  }

  /** The freed branch of a `verifyChecksum` turn: `advance` skips the record. */
  method SkipFreed(page: RawPage, ghost s: seq<byte>, need: int, size: Int32)
    requires s == page.bytes[..] && page.limit == |s| && 0 <= page.cursor && page.cursor + COUNT_SIZE <= |s| && need > 0
    requires size == Int32At(s, page.cursor) && size < 0 && Abs(size) <= |s| - page.cursor
    modifies page
    ensures page.limit == old(page.limit) && page.invalidated == old(page.invalidated)
    ensures page.cursor == old(page.cursor) + Abs(size)
    ensures LiveScan(s, page.cursor, need) == LiveScan(s, old(page.cursor), need)
  {
    LiveScanFreed(s, page.cursor, need);
    page.cursor := page.cursor + Abs(size);
  }

  /**
   * The checks `verifyAddresses` makes of one live `address` on the page at
   * `position`: a bad user address is reported when it lies outside the user range,
   * and again when its address page does not lead back to the page.
   */
  method CheckAddress(recovery: Recovery, pager: PagerView, position: int, address: Int64) returns (fine: bool)
    modifies recovery
    ensures recovery.reports == old(recovery.reports) + AddressReport(pager, position, address)
    ensures fine == (AddressReport(pager, position, address) == [])
  {
    fine := true;
    if address < pager.firstAddressPageStart + pager.addressPageHeaderSize || address >= pager.userBoundary {
      recovery.BadUserAddress(position, address);
      fine := false;
    }
    if position != pager.dereference(address) {
      recovery.BadUserAddress(position, address);
      fine := false;
    }
  }

  class BlockPage {
    const raw: RawPage
    /** The number of live blocks: every scan stops once it has passed this many. */
    var count: int
    /** The bytes of the page not taken by the header or by live blocks. */
    var remaining: int

    /** The page holds a chain of records up to its `count`-th live one. */
    ghost predicate Decodes()
      reads this, raw.bytes
    {
      && raw.bytes.Length >= BLOCK_PAGE_HEADER_SIZE
      && count >= 0
      && Records(raw.bytes[..], BLOCK_PAGE_HEADER_SIZE, count).Some?
    }

    /** The records a scan of the page passes, live and freed, in page order. */
    ghost function Blocks(): seq<Record>
      reads this, raw.bytes
      requires Decodes()
    {
      Records(raw.bytes[..], BLOCK_PAGE_HEADER_SIZE, count).value
    }

    /** The page decodes and `remaining` agrees with what its first `count` records consume. */
    ghost predicate Valid()
      reads this, raw.bytes
    {
      && Decodes()
      && count <= |Blocks()|
      && remaining == raw.bytes.Length - ConsumedBytes(Blocks(), count)
    }

    /**
     * `create(rawPage, dirtyPages)`: clears the buffer, writes checksum 0 and the disk
     * count (`getDiskCount()`, given here) into the header, and marks the page dirty.
     */
    constructor Create(raw: RawPage, dirty: DirtyPageSet, diskCount: Int32)
      requires raw.bytes.Length >= BLOCK_PAGE_HEADER_SIZE && dirty.Valid()
      modifies raw, raw.bytes, dirty
      ensures this.raw == raw && Valid()
      ensures count == 0 && remaining == raw.bytes.Length - BLOCK_PAGE_HEADER_SIZE
      ensures raw.bytes[..] == Int64Bytes(0) + Int32Bytes(diskCount) + old(raw.bytes[..])[BLOCK_PAGE_HEADER_SIZE..]
      ensures raw.cursor == BLOCK_PAGE_HEADER_SIZE && raw.limit == raw.bytes.Length
      ensures raw.invalidated == old(raw.invalidated) + [(0, BLOCK_PAGE_HEADER_SIZE)]
      ensures dirty.Valid() && dirty.written == old(dirty.written)
      ensures dirty.rawPages == old(dirty.rawPages)[raw.position := raw]
      ensures dirty.byteBuffers == old(dirty.byteBuffers)[raw.position := raw.bytes]
    {
      this.raw := raw;
      count := 0;
      remaining := raw.bytes.Length - BLOCK_PAGE_HEADER_SIZE;
      new;
      ghost var before := raw.bytes[..];
      raw.cursor := 0;
      raw.limit := raw.bytes.Length;
      raw.Invalidate(0, BLOCK_PAGE_HEADER_SIZE);
      Store(raw.bytes, 0, Int64Bytes(0));
      raw.cursor := CHECKSUM_SIZE;
      Store(raw.bytes, CHECKSUM_SIZE, Int32Bytes(diskCount));
      raw.cursor := BLOCK_PAGE_HEADER_SIZE;
      HeaderStores(before, Int64Bytes(0), Int32Bytes(diskCount));
      dirty.Add(raw);
      assert Records(raw.bytes[..], BLOCK_PAGE_HEADER_SIZE, 0) == Some([]);
    }

    /**
     * `load(rawPage)`: reads the stored count through `getDiskCount(int)` (given here
     * as `diskCount`) and sets `remaining` from what the first `count` records consume.
     */
    constructor Load(raw: RawPage, diskCount: Int32 -> Int32)
      requires raw.bytes.Length >= BLOCK_PAGE_HEADER_SIZE
      requires diskCount(Int32At(raw.bytes[..], CHECKSUM_SIZE)) >= 0
      requires Records(raw.bytes[..], BLOCK_PAGE_HEADER_SIZE, diskCount(Int32At(raw.bytes[..], CHECKSUM_SIZE))).Some?
      modifies raw
      ensures this.raw == raw && Valid() && raw.limit == raw.bytes.Length
      ensures count == diskCount(Int32At(raw.bytes[..], CHECKSUM_SIZE))
      ensures remaining == raw.bytes.Length - ConsumedBytes(Blocks(), count)
    {
      this.raw := raw;
      count := diskCount(Int32At(raw.bytes[..], CHECKSUM_SIZE));
      remaining := 0;
      new;
      raw.cursor := BLOCK_PAGE_HEADER_SIZE;
      raw.limit := raw.bytes.Length;
      var consumed := Consumed();
      remaining := raw.bytes.Length - consumed;
    }

    /** The page decodes to `blocks` and the cursor is on record `k`. */
    ghost predicate OnRecord(blocks: seq<Record>, k: nat)
      reads this, raw, raw.bytes
    {
      Decodes() && blocks == Blocks() && k < |blocks| && raw.cursor == blocks[k].offset
    }

    /**
     * `getBlockSize(bytes)` with the cursor on record `k`: its size field, which is
     * not 0 and not larger than the bytes left (the two asserts of the source).
     */
    method BlockSize(ghost blocks: seq<Record>, ghost k: nat) returns (size: Int32)
      requires OnRecord(blocks, k)
      ensures size == blocks[k].size
      ensures size != 0 && Abs(size) <= raw.bytes.Length - raw.cursor
    {
      RecordsTile(raw.bytes[..], BLOCK_PAGE_HEADER_SIZE, count);
      assert Stored(raw.bytes[..], blocks[k], BLOCK_PAGE_HEADER_SIZE);
      size := Int32At(raw.bytes[..], raw.cursor);
    }

    /** `getAddress(bytes)` with the cursor on record `k`: its address field. */
    method AddressAt(ghost blocks: seq<Record>, ghost k: nat) returns (address: Int64)
      requires OnRecord(blocks, k)
      ensures address == blocks[k].address
    {
      RecordsTile(raw.bytes[..], BLOCK_PAGE_HEADER_SIZE, count);
      assert Stored(raw.bytes[..], blocks[k], BLOCK_PAGE_HEADER_SIZE);
      address := Int64At(raw.bytes[..], raw.cursor + COUNT_SIZE);
    }

    /**
     * `advance(bytes, size)` past record `k`: the cursor lands on the next record, as
     * the records tile the page.
     */
    method Advance(ghost blocks: seq<Record>, ghost k: nat, size: Int32)
      requires OnRecord(blocks, k)
      requires size == blocks[k].size && raw.limit == raw.bytes.Length
      modifies raw
      ensures raw.limit == old(raw.limit) && raw.invalidated == old(raw.invalidated)
      ensures raw.cursor == old(raw.cursor) + Abs(size) <= raw.limit
      ensures k + 1 < |blocks| ==> raw.cursor == blocks[k + 1].offset
    {
      RecordsTile(raw.bytes[..], BLOCK_PAGE_HEADER_SIZE, count);
      assert Stored(raw.bytes[..], blocks[k], BLOCK_PAGE_HEADER_SIZE);
      raw.cursor := raw.cursor + Abs(size);
    }

    /**
     * `getConsumed()`: the header plus the positive sizes among the first `count`
     * records. The loop counts records, live or freed, not live records.
     */
    method Consumed() returns (consumed: int)
      requires Decodes() && raw.limit == raw.bytes.Length
      modifies raw
      ensures raw.limit == old(raw.limit) && raw.invalidated == old(raw.invalidated)
      ensures count <= |Blocks()| && consumed == ConsumedBytes(Blocks(), count)
      ensures BLOCK_PAGE_HEADER_SIZE <= consumed <= raw.bytes.Length
    {
      ghost var blocks := Blocks();
      ConsumedFits(raw.bytes[..], count);
      consumed := BLOCK_PAGE_HEADER_SIZE;
      raw.cursor := BLOCK_PAGE_HEADER_SIZE;
      var i := 0;
      while i < count
        invariant 0 <= i <= count <= |blocks|
        invariant raw.limit == raw.bytes.Length && raw.invalidated == old(raw.invalidated)
        invariant i < count ==> raw.cursor == blocks[i].offset
        invariant consumed == BLOCK_PAGE_HEADER_SIZE + LiveSize(blocks[..i])
      {
        var size := BlockSize(blocks, i);
        if size > 0 {
          consumed := consumed + size;
        }
        Advance(blocks, i, size);
        PrefixStep(blocks, i);
        i := i + 1;
      }
    }

    /**
     * `advance(bytes, size)` past record `k` during a scan that has so far covered
     * `Extents(blocks[..k])` bytes and counts down the live records left.
     */
    method PassRecord(ghost blocks: seq<Record>, ghost k: nat, size: Int32)
      requires OnRecord(blocks, k) && size == blocks[k].size && raw.limit == raw.bytes.Length
      requires raw.cursor == BLOCK_PAGE_HEADER_SIZE + Extents(blocks[..k])
      modifies raw
      ensures raw.limit == old(raw.limit) && raw.invalidated == old(raw.invalidated)
      ensures k + 1 < |blocks| ==> raw.cursor == blocks[k + 1].offset
      ensures raw.cursor == BLOCK_PAGE_HEADER_SIZE + Extents(blocks[..k + 1])
      ensures LiveCount(blocks[k..]) == (if size > 0 then 1 else 0) + LiveCount(blocks[k + 1..])
    {
      Advance(blocks, k, size);
      LiveCountStep(blocks, k);
      PrefixStep(blocks, k);
    }

    /**
     * One turn of the `seek` loop at record `i`: reads its size (`live` when positive)
     * and its address field, and moves past it unless the address is the one sought.
     */
    method SeekStep(ghost blocks: seq<Record>, ghost i: nat, address: Int64) returns (live: bool, hit: bool)
      requires OnRecord(blocks, i) && raw.limit == raw.bytes.Length
      requires raw.cursor == BLOCK_PAGE_HEADER_SIZE + Extents(blocks[..i])
      modifies raw
      ensures raw.limit == old(raw.limit) && raw.invalidated == old(raw.invalidated)
      ensures live == IsLive(blocks[i]) && hit == (blocks[i].address == address)
      ensures LiveCount(blocks[i..]) == (if live then 1 else 0) + LiveCount(blocks[i + 1..])
      ensures hit ==> raw.cursor == blocks[i].offset
      ensures !hit ==> raw.cursor == BLOCK_PAGE_HEADER_SIZE + Extents(blocks[..i + 1])
      ensures !hit && i + 1 < |blocks| ==> raw.cursor == blocks[i + 1].offset
    {
      var size := BlockSize(blocks, i);
      live := size > 0;
      var at := AddressAt(blocks, i);
      hit := at == address;
      if hit {
        LiveCountStep(blocks, i);
      } else {
        PassRecord(blocks, i, size);
      }
    }

    /**
     * `seek(bytes, address)`: true, with the cursor on it, for the first record whose
     * address field is `address`, live or freed; false once `count` live records have
     * been passed, with the cursor after the last record passed.
     */
    method Seek(address: Int64) returns (found: bool)
      requires Valid() && raw.limit == raw.bytes.Length
      modifies raw
      ensures raw.limit == old(raw.limit) && raw.invalidated == old(raw.invalidated)
      ensures found == Find(Blocks(), address).Some?
      ensures found ==> raw.cursor == Blocks()[Find(Blocks(), address).value].offset
      ensures !found ==> raw.cursor == BLOCK_PAGE_HEADER_SIZE + Extents(Blocks())
    {
      ghost var blocks := Blocks();
      ScanPlan(raw.bytes[..], count);
      raw.cursor := BLOCK_PAGE_HEADER_SIZE;
      var block := 0;
      ghost var i := 0;
      while block < count
        invariant 0 <= block <= count && 0 <= i <= |blocks|
        invariant raw.limit == raw.bytes.Length && raw.invalidated == old(raw.invalidated)
        invariant LiveCount(blocks[i..]) == count - block
        invariant i < |blocks| ==> raw.cursor == blocks[i].offset
        invariant raw.cursor == BLOCK_PAGE_HEADER_SIZE + Extents(blocks[..i])
        invariant forall j :: 0 <= j < i ==> blocks[j].address != address
        decreases |blocks| - i
      {
        var live, hit := SeekStep(blocks, i, address);
        if live {
          block := block + 1;
        }
        if hit {
          FindFirst(blocks, i, address);
          return true;
        }
        i := i + 1;
      }
      assert Find(blocks, address) == None;
      assert blocks[..i] == blocks;
      return false;
    }

    /**
     * `seek(bytes, address)` followed, when it succeeds, by the reads of the found
     * record's offset (the cursor), size and address field that `write` and `read` do.
     */
    method SeekHeader(address: Int64) returns (found: bool, offset: int, size: Int32, stored: Int64)
      requires Valid() && raw.limit == raw.bytes.Length
      modifies raw
      ensures raw.limit == old(raw.limit) && raw.invalidated == old(raw.invalidated)
      ensures found == Find(Blocks(), address).Some?
      ensures found ==> var rec := Blocks()[Find(Blocks(), address).value];
        offset == rec.offset && size == rec.size && stored == rec.address && raw.cursor == offset
      ensures !found ==> raw.cursor == BLOCK_PAGE_HEADER_SIZE + Extents(Blocks())
    {
      offset, size, stored := 0, 0, 0;
      found := Seek(address);
      if found {
        ghost var k := Find(Blocks(), address).value;
        offset := raw.cursor;
        size := BlockSize(Blocks(), k);
        stored := AddressAt(Blocks(), k);
      }
    }

    /**
     * `getBlockSize(address)`: the signed size of the record `seek` finds, or
     * IllegalArgumentException when no record carries the address.
     */
    method GetBlockSize(address: Int64) returns (r: Result<Int32, PageError>)
      requires Valid() && raw.limit == raw.bytes.Length
      modifies raw
      ensures raw.limit == old(raw.limit) && raw.invalidated == old(raw.invalidated)
      ensures Find(Blocks(), address).None? ==>
        r == Err(IllegalArgument) && raw.cursor == BLOCK_PAGE_HEADER_SIZE + Extents(Blocks())
      ensures Find(Blocks(), address).Some? ==>
        && r == Ok(Blocks()[Find(Blocks(), address).value].size)
        && raw.cursor == Blocks()[Find(Blocks(), address).value].offset
    {
      var found := Seek(address);
      if found {
        var size := BlockSize(Blocks(), Find(Blocks(), address).value);
        return Ok(size);
      }
      return Err(IllegalArgument);
    }

    /**
     * One turn of the loop of `getAddresses()` with the cursor on record `i`: a live
     * record adds its address, and the cursor moves to the next record.
     */
    method CollectAddress(ghost blocks: seq<Record>, ghost i: nat, block: int, addresses: seq<Int64>)
      returns (next: int, collected: seq<Int64>)
      requires OnRecord(blocks, i) && raw.limit == raw.bytes.Length
      requires addresses == LiveAddresses(blocks[..i]) && |addresses| == block
      modifies raw
      ensures raw.limit == old(raw.limit) && raw.invalidated == old(raw.invalidated)
      ensures i + 1 < |blocks| ==> raw.cursor == blocks[i + 1].offset
      ensures next == block + LiveCount(blocks[i..]) - LiveCount(blocks[i + 1..])
      ensures collected == LiveAddresses(blocks[..i + 1]) && |collected| == next
    {
      var size := BlockSize(blocks, i);
      next, collected := block, addresses;
      if size > 0 {
        next := block + 1;
        var at := AddressAt(blocks, i);
        collected := addresses + [at];
      }
      Advance(blocks, i, size);
      LiveCountStep(blocks, i);
      PrefixStep(blocks, i);
    }

    /** `getAddresses()`: the address fields of the live records, in page order; `count` of them. */
    method GetAddresses() returns (addresses: seq<Int64>)
      requires Valid() && raw.limit == raw.bytes.Length
      modifies raw
      ensures raw.limit == old(raw.limit) && raw.invalidated == old(raw.invalidated)
      ensures addresses == LiveAddresses(Blocks()) && |addresses| == count
    {
      ghost var blocks := Blocks();
      ScanPlan(raw.bytes[..], count);
      raw.cursor := BLOCK_PAGE_HEADER_SIZE;
      addresses := [];
      var block := 0;
      ghost var i := 0;
      while block < count
        invariant 0 <= block <= count && 0 <= i <= |blocks|
        invariant raw.limit == raw.bytes.Length && raw.invalidated == old(raw.invalidated)
        invariant LiveCount(blocks[i..]) == count - block
        invariant i < |blocks| ==> raw.cursor == blocks[i].offset
        invariant addresses == LiveAddresses(blocks[..i]) && |addresses| == block
        decreases |blocks| - i
      {
        block, addresses := CollectAddress(blocks, i, block, addresses);
        i := i + 1;
      }
      assert blocks[..i] == blocks;
    }

    /**
     * `write` once the cursor is on the record found, whose header holds `size` at
     * `offset`: the limit is set to the record's end, IllegalArgumentException when
     * that lies outside the page, and otherwise the put follows.
     */
    method WriteAt(ghost s: seq<byte>, ghost blocks: seq<Record>, address: Int64, ghost src: seq<byte>,
                   offset: int, size: Int32, data: ByteBuffer, dirty: DirtyPageSet)
      returns (r: Result<bool, PageError>)
      requires Find(blocks, address).Some? && blocks[Find(blocks, address).value].offset == offset
      requires blocks[Find(blocks, address).value].size == size
      requires raw.limit == raw.bytes.Length && s == raw.bytes[..] && data.Valid() && src == data.Remaining() && dirty.Valid()
      modifies raw, raw.bytes, data, dirty
      ensures var e := WriteEffect(s, blocks, address, src);
        && r == e.result && raw.bytes[..] == e.bytes && raw.cursor == e.cursor && raw.limit == e.limit
        && raw.invalidated == old(raw.invalidated) + (if e.marked.Some? then [e.marked.value] else [])
      ensures data.Valid() && dirty.Valid()
      ensures r == Ok(true) ==>
        && data.position == old(data.limit) && data.limit == old(data.limit) && dirty.written == old(dirty.written)
        && dirty.rawPages == old(dirty.rawPages)[raw.position := raw]
        && dirty.byteBuffers == old(dirty.byteBuffers)[raw.position := raw.bytes]
      ensures r != Ok(true) ==> unchanged(data) && unchanged(dirty)
    {
      var end := offset + size;
      if end < 0 || end > raw.bytes.Length {
        raw.cursor := offset + BLOCK_HEADER_SIZE;
        return Err(IllegalArgument);
      }
      // limit(end) pulls a cursor beyond the new limit back to it
      var from := if offset + BLOCK_HEADER_SIZE <= end then offset + BLOCK_HEADER_SIZE else end;
      r := Put(s, src, from, end, data, dirty);
    }

    /**
     * The put of `write`: the cursor and limit are set around the bytes to write,
     * those bytes are invalidated, then `data`'s remaining bytes are copied there, or
     * BufferOverflowException when they do not fit. After a copy the limit goes back to
     * the end of the page and the page is marked dirty.
     */
    method Put(ghost s: seq<byte>, ghost src: seq<byte>, from: int, end: int, data: ByteBuffer, dirty: DirtyPageSet)
      returns (r: Result<bool, PageError>)
      requires 0 <= from <= end <= raw.bytes.Length
      requires s == raw.bytes[..] && data.Valid() && src == data.Remaining() && dirty.Valid()
      modifies raw, raw.bytes, data, dirty
      ensures var e := PutEffect(s, from, end, src);
        && r == e.result && raw.bytes[..] == e.bytes && raw.cursor == e.cursor && raw.limit == e.limit
        && raw.invalidated == old(raw.invalidated) + [e.marked.value]
      ensures data.Valid() && dirty.Valid()
      ensures r == Ok(true) ==>
        && data.position == old(data.limit) && data.limit == old(data.limit) && dirty.written == old(dirty.written)
        && dirty.rawPages == old(dirty.rawPages)[raw.position := raw]
        && dirty.byteBuffers == old(dirty.byteBuffers)[raw.position := raw.bytes]
      ensures r != Ok(true) ==> unchanged(data) && unchanged(dirty)
    {
      raw.cursor, raw.limit := from, end;
      raw.Invalidate(raw.cursor, raw.limit - raw.cursor);
      if data.limit - data.position > raw.limit - raw.cursor {
        return Err(BufferOverflow);
      }
      var copied := data.TakeRemaining();
      Store(raw.bytes, raw.cursor, copied);
      assert raw.bytes[..] == PutEffect(s, from, end, src).bytes;
      raw.cursor := raw.cursor + |copied|;
      raw.limit := raw.bytes.Length;
      dirty.Add(raw);
      return Ok(true);
    }

    /**
     * `write(address, data, dirtyPages)`: follows WriteEffect on the page bytes and the
     * bytes remaining in `data`. Writing never moves a record: the decoded chain,
     * `count` and `remaining` stay as they were.
     */
    method Write(address: Int64, data: ByteBuffer, dirty: DirtyPageSet) returns (r: Result<bool, PageError>)
      requires Valid() && raw.limit == raw.bytes.Length && data.Valid() && dirty.Valid()
      modifies raw, raw.bytes, data, dirty
      ensures Valid() && Blocks() == old(Blocks()) && count == old(count) && remaining == old(remaining)
      ensures var e := WriteEffect(old(raw.bytes[..]), old(Blocks()), address, old(data.Remaining()));
        && r == e.result && raw.bytes[..] == e.bytes && raw.cursor == e.cursor && raw.limit == e.limit
        && raw.invalidated == old(raw.invalidated) + (if e.marked.Some? then [e.marked.value] else [])
      ensures data.Valid() && dirty.Valid()
      ensures r == Ok(true) ==>
        && data.position == old(data.limit) && data.limit == old(data.limit) && dirty.written == old(dirty.written)
        && dirty.rawPages == old(dirty.rawPages)[raw.position := raw]
        && dirty.byteBuffers == old(dirty.byteBuffers)[raw.position := raw.bytes]
      ensures r != Ok(true) ==> unchanged(data) && unchanged(dirty)
    {
      ghost var s := raw.bytes[..];
      ghost var blocks := Blocks();
      ghost var src := data.Remaining();
      WriteKeepsRecords(s, count, address, src);
      var found, offset, size, stored := SeekHeader(address);
      if !found {
        return Ok(false);
      }
      if stored != address {
        // Danger(ERROR_BLOCK_PAGE_CORRUPT): seek has just matched this address
        assert false;
      }
      r := WriteAt(s, blocks, address, src, offset, size, data, dirty);
      assert Records(raw.bytes[..], BLOCK_PAGE_HEADER_SIZE, count) == Some(blocks);
    }

    /**
     * `read(address, dst)`: follows ReadEffect on the page bytes, with `room` the
     * space left in `dst` (None when `dst` is null). The page is not changed. On
     * success `out` is `dst`, or a fresh buffer when `dst` is null, holding the bytes
     * copied at its old position; when no record carries the address `out` is null.
     */
    method Read(address: Int64, dst: ByteBuffer?) returns (r: Result<bool, PageError>, out: ByteBuffer?)
      requires Valid() && raw.limit == raw.bytes.Length
      requires dst != null ==> dst.Valid() && dst.data != raw.bytes
      modifies raw, dst, if dst != null then {dst.data} else {}
      ensures Valid() && raw.bytes[..] == old(raw.bytes[..]) && raw.invalidated == old(raw.invalidated)
      ensures var e := ReadEffect(old(raw.bytes[..]), old(Blocks()), address,
                                  if dst == null then None else Some(old(dst.limit - dst.position)));
        && r == e.result && raw.cursor == e.cursor && raw.limit == e.limit
        && (r == Ok(true) ==> out != null && out.Valid() && out.position == old(if dst == null then 0 else dst.position) + |e.copied|)
        && (r == Ok(true) && dst == null ==> fresh(out) && out.capacity == |e.copied| && out.Contents() == e.copied)
        && (r == Ok(true) && dst != null ==>
              out == dst && dst.limit == old(dst.limit)
              && dst.data[..] == Overwrite(old(dst.data[..]), dst.start + old(dst.position), e.copied))
      ensures r != Ok(true) ==> out == null
      ensures r != Ok(true) && dst != null ==> unchanged(dst) && dst.data[..] == old(dst.data[..])
    {
      ghost var s := raw.bytes[..];
      ghost var blocks := Blocks();
      ghost var room := if dst == null then None else Some(dst.limit - dst.position);
      ghost var at := if dst == null then 0 else dst.position;
      ghost var end := if dst == null then 0 else dst.limit;
      ghost var before := if dst == null then [] else dst.data[..];
      var found, offset, size, stored := SeekHeader(address);
      if !found {
        return Ok(false), null;
      }
      if stored != address {
        // IllegalStateException: seek has just matched this address
        assert false;
      }
      r, out := ReadAt(s, blocks, address, offset, size, dst, room, at, end, before);
      assert raw.bytes[..] == s;
    }

    /**
     * `read` once the cursor is on the record found, whose header holds `size` at
     * `offset`. With a null `dst` a buffer is allocated from the record's size (the
     * source looks the size up again through `getBlockSize(address)`, whose seek lands
     * on the same record), which fails for a freed record; then the transfer follows.
     */
    method ReadAt(ghost s: seq<byte>, ghost blocks: seq<Record>, address: Int64, offset: int, size: Int32, dst: ByteBuffer?,
                  ghost room: Option<int>, ghost at: int, ghost end: int, ghost before: seq<byte>)
      returns (r: Result<bool, PageError>, out: ByteBuffer?)
      requires Find(blocks, address).Some? && blocks[Find(blocks, address).value].offset == offset
      requires blocks[Find(blocks, address).value].size == size
      requires raw.limit == raw.bytes.Length && s == raw.bytes[..] && raw.cursor == offset
      requires dst != null ==> dst.Valid() && dst.data != raw.bytes
      requires room == (if dst == null then None else Some(dst.limit - dst.position))
      requires at == (if dst == null then 0 else dst.position)
      requires dst != null ==> end == dst.limit && before == dst.data[..]
      modifies raw, dst, if dst != null then {dst.data} else {}
      ensures raw.invalidated == old(raw.invalidated)
      ensures var e := ReadEffect(s, blocks, address, room);
        && r == e.result && raw.cursor == e.cursor && raw.limit == e.limit
        && (r == Ok(true) ==> out != null && out.Valid() && out.position == at + |e.copied|)
        && (r == Ok(true) && dst == null ==> fresh(out) && out.capacity == |e.copied| && out.Contents() == e.copied)
        && (r == Ok(true) && dst != null ==>
              out == dst && dst.limit == end
              && dst.data[..] == Overwrite(before, dst.start + at, e.copied))
      ensures r != Ok(true) ==> out == null
      ensures r != Ok(true) && dst != null ==> unchanged(dst) && dst.data[..] == old(dst.data[..])
    {
      if dst != null {
        r := Transfer(s, blocks, address, offset, size, dst);
        out := if r == Ok(true) then dst else null;
        return;
      }
      if size - BLOCK_HEADER_SIZE < 0 {
        return Err(IllegalArgument), null;
      }
      var buffer := new ByteBuffer.Allocate(size - BLOCK_HEADER_SIZE);
      ReadFreshRoom(s, blocks, address);
      r := Transfer(s, blocks, address, offset, size, buffer);
      if r == Ok(true) {
        assert buffer.Contents() == buffer.data[..];
        out := buffer;
      } else {
        out := null;
      }
    }

    /**
     * The transfer of `read` into `buffer`: the limit is set to the record's end
     * (IllegalArgumentException when that lies outside the page) and the bytes from the
     * cursor to it are put at the buffer's position, or BufferOverflowException when
     * they do not fit; the page's limit is then restored.
     */
    method Transfer(ghost s: seq<byte>, ghost blocks: seq<Record>, address: Int64, offset: int, size: Int32, buffer: ByteBuffer)
      returns (r: Result<bool, PageError>)
      requires Find(blocks, address).Some? && blocks[Find(blocks, address).value].offset == offset
      requires blocks[Find(blocks, address).value].size == size
      requires raw.limit == raw.bytes.Length && s == raw.bytes[..]
      requires buffer.Valid() && buffer.data != raw.bytes
      modifies raw, buffer, buffer.data
      ensures raw.invalidated == old(raw.invalidated)
      ensures var e := ReadEffect(s, blocks, address, Some(old(buffer.limit - buffer.position)));
        && r == e.result && raw.cursor == e.cursor && raw.limit == e.limit
        && (r == Ok(true) ==>
              buffer.Valid() && buffer.limit == old(buffer.limit) && buffer.position == old(buffer.position) + |e.copied|
              && buffer.data[..] == Overwrite(old(buffer.data[..]), buffer.start + old(buffer.position), e.copied))
      ensures r != Ok(true) ==> unchanged(buffer) && buffer.data[..] == old(buffer.data[..])
    {
      var end := offset + size;
      if end < 0 || end > raw.bytes.Length {
        raw.cursor := offset + BLOCK_HEADER_SIZE;
        return Err(IllegalArgument);
      }
      // limit(end) pulls a cursor beyond the new limit back to it
      var from := if offset + BLOCK_HEADER_SIZE <= end then offset + BLOCK_HEADER_SIZE else end;
      raw.cursor, raw.limit := from, end;
      if end - from > buffer.limit - buffer.position {
        return Err(BufferOverflow);
      }
      var ok := buffer.Put(raw.bytes[from..end]);
      raw.cursor, raw.limit := end, raw.bytes.Length;
      return Ok(true);
    }

    /**
     * One turn of the `getChecksum` loop at record `i`: a live record's bytes, header
     * included, are fed to the checksum as the cursor passes them; a freed record is
     * skipped.
     */
    method ChecksumStep(ghost blocks: seq<Record>, ghost i: nat, ghost head: seq<byte>, fed: seq<byte>)
      returns (live: bool, more: seq<byte>)
      requires OnRecord(blocks, i) && raw.limit == raw.bytes.Length
      requires raw.cursor == BLOCK_PAGE_HEADER_SIZE + Extents(blocks[..i])
      requires fed == head + LiveBytes(raw.bytes[..], blocks[..i])
      modifies raw
      ensures raw.limit == old(raw.limit) && raw.invalidated == old(raw.invalidated)
      ensures live == IsLive(blocks[i])
      ensures LiveCount(blocks[i..]) == (if live then 1 else 0) + LiveCount(blocks[i + 1..])
      ensures more == head + LiveBytes(raw.bytes[..], blocks[..i + 1])
      ensures raw.cursor == BLOCK_PAGE_HEADER_SIZE + Extents(blocks[..i + 1])
      ensures i + 1 < |blocks| ==> raw.cursor == blocks[i + 1].offset
    {
      ghost var s := raw.bytes[..];
      var size := BlockSize(blocks, i);
      RecordBounds(s, count, i);
      live := size > 0;
      more := FeedRecord(s, blocks[i], size, fed);
      ChecksumFold(s, blocks, i, head, fed);
      LiveCountStep(blocks, i);
      PrefixStep(blocks, i);
      if i + 1 < |blocks| {
        NextOffset(s, count, i);
      }
    }

    /**
     * The body of the `getChecksum` loop once record `r`'s size is read: a live
     * record's bytes are fed to the checksum, a freed record's skipped.
     */
    method FeedRecord(ghost s: seq<byte>, ghost r: Record, size: Int32, fed: seq<byte>) returns (more: seq<byte>)
      requires s == raw.bytes[..] && raw.limit == raw.bytes.Length && raw.cursor == r.offset && size == r.size
      requires r.offset + Abs(r.size) <= |s|
      modifies raw
      ensures raw.limit == old(raw.limit) && raw.invalidated == old(raw.invalidated)
      ensures raw.cursor == r.offset + Abs(r.size)
      ensures more == fed + RecordBytes(s, r)
    {
      if size > 0 {
        more := Feed(raw, fed, size);
      } else {
        more := fed;
        raw.cursor := raw.cursor - size;
      }
    }

    /**
     * `getChecksum(checksum)`: the checksum of the count field followed by every
     * live record's bytes, header included, up to the `count`-th live record. The
     * checksum algorithm is the parameter `checksum`, applied to all it is fed.
     */
    method GetChecksum(checksum: ChecksumFn) returns (value: Int64)
      requires Valid()
      modifies raw
      ensures raw.limit == raw.bytes.Length && raw.invalidated == old(raw.invalidated)
      ensures raw.cursor == BLOCK_PAGE_HEADER_SIZE + Extents(Blocks())
      ensures value == checksum(ChecksumInput(raw.bytes[..], Blocks()))
    {
      ghost var s := raw.bytes[..];
      ghost var blocks := Blocks();
      ScanPlan(s, count);
      raw.cursor, raw.limit := 0, raw.bytes.Length;
      raw.cursor := CHECKSUM_SIZE;
      var fed := Feed(raw, [], COUNT_SIZE);
      ghost var head := fed;
      assert head == s[CHECKSUM_SIZE..BLOCK_PAGE_HEADER_SIZE];
      assert blocks[..0] == [] && fed == head + [];
      var block := 0;
      ghost var i := 0;
      while block < count
        invariant 0 <= block <= count && 0 <= i <= |blocks|
        invariant raw.limit == raw.bytes.Length && raw.invalidated == old(raw.invalidated)
        invariant LiveCount(blocks[i..]) == count - block
        invariant i < |blocks| ==> raw.cursor == blocks[i].offset
        invariant raw.cursor == BLOCK_PAGE_HEADER_SIZE + Extents(blocks[..i])
        invariant fed == head + LiveBytes(s, blocks[..i])
        decreases |blocks| - i
      {
        var live;
        live, fed := ChecksumStep(blocks, i, head, fed);
        if live {
          block := block + 1;
        }
        i := i + 1;
      }
      assert blocks[..i] == blocks;
      assert fed == ChecksumInput(s, blocks);
      value := checksum(fed);
    }

    /**
     * `checksum(checksum)`: stores `getChecksum` in bytes 0..8 and invalidates them.
     * The records, and so `count` and `remaining`, are untouched.
     */
    method Checksum(checksum: ChecksumFn)
      requires Valid()
      modifies raw, raw.bytes
      ensures Valid() && Blocks() == old(Blocks())
      ensures raw.bytes[..] == Int64Bytes(checksum(ChecksumInput(old(raw.bytes[..]), old(Blocks()))))
                               + old(raw.bytes[..])[CHECKSUM_SIZE..]
      ensures raw.invalidated == old(raw.invalidated) + [(0, CHECKSUM_SIZE)]
      ensures raw.limit == raw.bytes.Length && raw.cursor == BLOCK_PAGE_HEADER_SIZE + Extents(Blocks())
    {
      ghost var s := raw.bytes[..];
      var value := GetChecksum(checksum);
      Store(raw.bytes, 0, Int64Bytes(value));
      OverwriteHead(s, Int64Bytes(value));
      ChecksumFieldKeeps(s, value, count);
      raw.Invalidate(0, CHECKSUM_SIZE);
    }
    /**
     * `verifyChecksum(rawPage, recovery)`, with the record loop corrected to report a
     * corrupt page in every case the scan cannot go on (see ChecksumScan for the loop
     * as written). `mask` is `Pack.COUNT_MASK`. True with nothing reported when the
     * page verifies; otherwise false, after reporting the page as corrupt or as
     * holding a bad checksum.
     */
    method VerifyChecksum(page: RawPage, recovery: Recovery, mask: Word) returns (ok: bool)
      requires page.bytes.Length >= BLOCK_PAGE_HEADER_SIZE && page.limit == page.bytes.Length
      modifies page, recovery
      ensures ok == (VerdictOf(page.bytes[..], mask, recovery.checksum) == Verified)
      ensures recovery.reports
           == old(recovery.reports) + VerdictReports(VerdictOf(page.bytes[..], mask, recovery.checksum), page.position)
      ensures page.limit == old(page.limit) && page.invalidated == old(page.invalidated)
    {
      ghost var s := page.bytes[..];
      page.cursor := CHECKSUM_SIZE;
      var fed := Feed(page, [], COUNT_SIZE);
      ghost var head := fed;
      assert head == s[CHECKSUM_SIZE..BLOCK_PAGE_HEADER_SIZE];
      var storedCount: int := StripMask(Int32At(page.bytes[..], CHECKSUM_SIZE), mask);
      var block: int := 0;
      while block < storedCount
        invariant page.limit == |s| && page.invalidated == old(page.invalidated)
        invariant 0 <= page.cursor <= |s| && recovery.reports == old(recovery.reports)
        invariant Prefixed(fed, LiveScan(s, page.cursor, storedCount - block))
               == Prefixed(head, LiveScan(s, BLOCK_PAGE_HEADER_SIZE, storedCount))
        decreases |s| - page.cursor
      {
        var corrupt, live;
        corrupt, live, fed := VerifyStep(page, s, storedCount - block, fed);
        if corrupt {
          recovery.CorruptDataPage(page.position);
          return false;
        }
        if live {
          block := block + 1;
        }
      }
      assert fed + [] == fed;
      var expected := recovery.checksum(fed);
      var actual := Int64At(page.bytes[..], 0);
      if expected != actual {
        recovery.BadUserChecksum(page.position);
        return false;
      }
      return true;
    }
    /**
     * One turn of the corrected `verifyAddresses` loop at record `i`: a live record's
     * address is checked, and the cursor then moves to the next record, live or freed.
     * `base` is what the sink held before the loop.
     */
    method VerifyAddressStep(ghost blocks: seq<Record>, ghost i: nat, block: int, ghost addresses: seq<Int64>,
                             ghost base: seq<Report>, recovery: Recovery, pager: PagerView, copacetic: bool)
      returns (next: int, ghost checked: seq<Int64>, still: bool)
      requires OnRecord(blocks, i) && raw.limit == raw.bytes.Length
      requires addresses == LiveAddresses(blocks[..i]) && |addresses| == block
      requires recovery.reports == base + AddressReports(pager, raw.position, addresses)
      requires copacetic == (AddressReports(pager, raw.position, addresses) == [])
      modifies raw, recovery
      ensures raw.limit == old(raw.limit) && raw.invalidated == old(raw.invalidated)
      ensures i + 1 < |blocks| ==> raw.cursor == blocks[i + 1].offset
      ensures next == block + LiveCount(blocks[i..]) - LiveCount(blocks[i + 1..])
      ensures checked == LiveAddresses(blocks[..i + 1]) && |checked| == next
      ensures recovery.reports == base + AddressReports(pager, raw.position, checked)
      ensures still == (AddressReports(pager, raw.position, checked) == [])
    {
      var size := BlockSize(blocks, i);
      next, checked, still := block, addresses, copacetic;
      if size > 0 {
        next := block + 1;
        var address := AddressAt(blocks, i);
        var fine := CheckAddress(recovery, pager, raw.position, address);
        checked := addresses + [address];
        AddressReportsSnoc(pager, raw.position, addresses, address);
        still := copacetic && fine;
      }
      Advance(blocks, i, size);
      LiveCountStep(blocks, i);
      PrefixStep(blocks, i);
    }

    /**
     * `verifyAddresses(recovery)`, with the loop corrected to move past each live
     * record once its address is checked (see AddressScan for the loop as written).
     * Every live address is checked in page order and each failed check reported;
     * the result is true exactly when nothing was reported, which AddressReportsEmpty
     * shows to mean that every live address lies in the user range and leads back to
     * this page.
     */
    method VerifyAddresses(recovery: Recovery, pager: PagerView) returns (copacetic: bool)
      requires Valid() && raw.limit == raw.bytes.Length
      modifies raw, recovery
      ensures raw.limit == old(raw.limit) && raw.invalidated == old(raw.invalidated)
      ensures recovery.reports == old(recovery.reports) + AddressReports(pager, raw.position, LiveAddresses(Blocks()))
      ensures copacetic == (AddressReports(pager, raw.position, LiveAddresses(Blocks())) == [])
    {
      ghost var blocks := Blocks();
      ScanPlan(raw.bytes[..], count);
      raw.cursor := BLOCK_PAGE_HEADER_SIZE;
      copacetic := true;
      ghost var checked: seq<Int64> := [];
      var block := 0;
      ghost var i := 0;
      while block < count
        invariant 0 <= block <= count && 0 <= i <= |blocks|
        invariant raw.limit == raw.bytes.Length && raw.invalidated == old(raw.invalidated)
        invariant LiveCount(blocks[i..]) == count - block
        invariant i < |blocks| ==> raw.cursor == blocks[i].offset
        invariant checked == LiveAddresses(blocks[..i]) && |checked| == block
        invariant recovery.reports == old(recovery.reports) + AddressReports(pager, raw.position, checked)
        invariant copacetic == (AddressReports(pager, raw.position, checked) == [])
        decreases |blocks| - i
      {
        block, checked, copacetic := VerifyAddressStep(blocks, i, block, checked, old(recovery.reports), recovery, pager, copacetic);
        i := i + 1;
      }
      assert blocks[..i] == blocks;
    }
  }
}