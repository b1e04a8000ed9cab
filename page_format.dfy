/**
 * The on-page layout of a block page, decoded as values.
 *
 * A page is `[checksum: 8][count: 4]` followed by block records
 * `[size: signed 4][address: 8][payload: |size| - 12]`. A positive size is a live
 * block of that many bytes; a negative size is a freed block of |size| bytes that
 * is skipped but still carries its address. Every scan of the page starts at byte
 * 12 and stops once it has passed `count` live records, so the records that matter
 * are those up to and including the count-th live one: `Records` decodes them.
 */
module PageFormat {
  import opened Results
  import opened Bytes

  const CHECKSUM_SIZE: nat := 8
  const COUNT_SIZE: nat := 4
  const BLOCK_PAGE_HEADER_SIZE: nat := CHECKSUM_SIZE + COUNT_SIZE
  /** The size field (4 bytes) and the address field (8 bytes) of a record. */
  const BLOCK_HEADER_SIZE: nat := 12

  /** A `java.util.zip.Checksum` seen from outside: the value after reset and one update per byte. */
  type ChecksumFn = seq<byte> -> Int64

  /** A record header: where it starts, its signed size and its address field. */
  datatype Record = Record(offset: nat, size: Int32, address: Int64)

  function Abs(x: int): nat
  {
    if x < 0 then -x else x
  }

  predicate IsLive(r: Record)
  {
    r.size > 0
  }

  /** `r` was read from `s` at or after `pos`, is at least a header long, and lies inside the page. */
  ghost predicate Stored(s: seq<byte>, r: Record, pos: nat)
  {
    && pos <= r.offset
    && BLOCK_HEADER_SIZE <= Abs(r.size)
    && r.offset + Abs(r.size) <= |s|
    && r.size == Int32At(s, r.offset)
    && r.address == Int64At(s, r.offset + COUNT_SIZE)
  }

  /** The records start at `pos` and follow one another with no gap and no overlap. */
  ghost predicate Tiling(s: seq<byte>, blocks: seq<Record>, pos: nat)
  {
    && (|blocks| > 0 ==> blocks[0].offset == pos)
    && (forall k :: 0 <= k < |blocks| ==> Stored(s, blocks[k], pos))
    && (forall k :: 0 <= k < |blocks| - 1 ==> blocks[k + 1].offset == blocks[k].offset + Abs(blocks[k].size))
  }

  /** Every record lies inside the page. */
  ghost predicate InPage(s: seq<byte>, blocks: seq<Record>)
  {
    forall k :: 0 <= k < |blocks| ==> blocks[k].offset + Abs(blocks[k].size) <= |s|
  }

  function LiveCount(blocks: seq<Record>): (n: nat)
    ensures n <= |blocks|
  {
    if blocks == [] then 0 else (if IsLive(blocks[0]) then 1 else 0) + LiveCount(blocks[1..])
  }

  /**
   * The records a scan from `pos` passes before it has seen `need` live ones, or None
   * when the bytes cannot be such a chain: a header that does not fit, or a size
   * whose magnitude is below the 12-byte header or beyond the end of the page
   * (a zero size among them).
   */
  function Records(s: seq<byte>, pos: nat, need: int): (r: Option<seq<Record>>)
    decreases |s| - pos
    ensures need <= 0 ==> r == Some([])
  {
    if need <= 0 then Some([])
    else if pos + BLOCK_HEADER_SIZE > |s| then None
    else
      var size := Int32At(s, pos);
      if Abs(size) < BLOCK_HEADER_SIZE || Abs(size) > |s| - pos then None
      else
        match Records(s, pos + Abs(size), if size > 0 then need - 1 else need)
        case None => None
        case Some(rest) =>
          var head := Record(pos, size, Int64At(s, pos + COUNT_SIZE));
          assert ([head] + rest)[1..] == rest;
          Some([head] + rest)
  }

  /**
   * What `Records` decodes is a chain of stored records that tile the page from `pos`,
   * holding exactly `need` live records.
   */
  lemma {:induction false} RecordsTile(s: seq<byte>, pos: nat, need: int)
    requires Records(s, pos, need).Some?
    ensures Tiling(s, Records(s, pos, need).value, pos)
    ensures InPage(s, Records(s, pos, need).value)
    ensures LiveCount(Records(s, pos, need).value) == if need > 0 then need else 0
    decreases |s| - pos
  {
    if need > 0 {
      RecordsUnfold(s, pos, need);
      var size := Int32At(s, pos);
      var next := if size > 0 then need - 1 else need;
      var head := Record(pos, size, Int64At(s, pos + COUNT_SIZE));
      var rest := Records(s, pos + Abs(size), next).value;
      RecordsTile(s, pos + Abs(size), next);
      Chain(s, head, rest, pos);
      assert Records(s, pos, need).value == [head] + rest;
    }
  }

  /** A stored record followed by a tiling that starts where it ends is a tiling. */
  lemma Chain(s: seq<byte>, head: Record, rest: seq<Record>, pos: nat)
    requires head.offset == pos && Stored(s, head, pos)
    requires Tiling(s, rest, pos + Abs(head.size))
    ensures Tiling(s, [head] + rest, pos) && InPage(s, [head] + rest)
    ensures LiveCount([head] + rest) == (if IsLive(head) then 1 else 0) + LiveCount(rest)
  {
    var blocks := [head] + rest;
    assert blocks[1..] == rest;
    forall k | 0 <= k < |blocks|
      ensures Stored(s, blocks[k], pos)
    {
      if k > 0 {
        assert blocks[k] == rest[k - 1];
      }
    }
  }

  /** How a decodable chain with live records still to pass begins. */
  lemma RecordsUnfold(s: seq<byte>, pos: nat, need: int)
    requires Records(s, pos, need).Some? && need > 0
    ensures pos + BLOCK_HEADER_SIZE <= |s|
    ensures var size := Int32At(s, pos);
      && BLOCK_HEADER_SIZE <= Abs(size) <= |s| - pos
      && Records(s, pos + Abs(size), if size > 0 then need - 1 else need).Some?
      && Records(s, pos, need).value
         == [Record(pos, size, Int64At(s, pos + COUNT_SIZE))] + Records(s, pos + Abs(size), if size > 0 then need - 1 else need).value
  {
  }

  /** The index of the first record whose address field is `address`, live or freed. */
  function Find(blocks: seq<Record>, address: int): (r: Option<nat>)
    ensures r.Some? ==> r.value < |blocks| && blocks[r.value].address == address
    ensures r.Some? ==> forall j :: 0 <= j < r.value ==> blocks[j].address != address
    ensures r.None? <==> forall j :: 0 <= j < |blocks| ==> blocks[j].address != address
  {
    if blocks == [] then None
    else if blocks[0].address == address then Some(0)
    else match Find(blocks[1..], address)
      case None => None
      case Some(i) => Some(i + 1)
  }

  /** A record carrying `address` that no earlier record carries is the one Find returns. */
  lemma FindFirst(blocks: seq<Record>, i: nat, address: int)
    requires i < |blocks| && blocks[i].address == address
    requires forall j :: 0 <= j < i ==> blocks[j].address != address
    ensures Find(blocks, address) == Some(i)
  {
  }

  /** The address fields of the live records, in page order. */
  function LiveAddresses(blocks: seq<Record>): seq<Int64>
  {
    if blocks == [] then []
    else
      var last := blocks[|blocks| - 1];
      LiveAddresses(blocks[..|blocks| - 1]) + if IsLive(last) then [last.address] else []
  }

  /** What a live record contributes to the checksum: all of its bytes, header included. */
  function RecordBytes(s: seq<byte>, r: Record): seq<byte>
  {
    if IsLive(r) && r.offset + r.size <= |s| then s[r.offset..r.offset + r.size] else []
  }

  /** The bytes of the live records, in page order; freed records contribute nothing. */
  function LiveBytes(s: seq<byte>, blocks: seq<Record>): seq<byte>
  {
    if blocks == [] then [] else RecordBytes(s, blocks[0]) + LiveBytes(s, blocks[1..])
  }

  /** Everything folded into the page checksum: the count field, then every live record. */
  function ChecksumInput(s: seq<byte>, blocks: seq<Record>): seq<byte>
    requires |s| >= BLOCK_PAGE_HEADER_SIZE
  {
    s[CHECKSUM_SIZE..BLOCK_PAGE_HEADER_SIZE] + LiveBytes(s, blocks)
  }

  /** The sum of the positive sizes among `blocks`. */
  function LiveSize(blocks: seq<Record>): nat
  {
    if blocks == [] then 0
    else
      var last := blocks[|blocks| - 1];
      LiveSize(blocks[..|blocks| - 1]) + if IsLive(last) then last.size else 0
  }

  /** The sum of |size| over `blocks`: the bytes they occupy, live or freed. */
  function Extents(blocks: seq<Record>): nat
  {
    if blocks == [] then 0 else Extents(blocks[..|blocks| - 1]) + Abs(blocks[|blocks| - 1].size)
  }

  /** The payload of a live record: the bytes after its 12-byte header. */
  function Payload(s: seq<byte>, r: Record): seq<byte>
    requires BLOCK_HEADER_SIZE <= r.size && r.offset + r.size <= |s|
  {
    s[r.offset + BLOCK_HEADER_SIZE..r.offset + r.size]
  }

  /** A 32-bit pattern, read as the unsigned number it spells. */
  type Word = x: int | 0 <= x < 0x1_0000_0000

  /** Java's `a & b` on bit patterns: the bits set in both. */
  function BitAnd(a: nat, b: nat): (r: nat)
    ensures r <= a
    decreases a
  {
    if a == 0 || b == 0 then 0
    else 2 * BitAnd(a / 2, b / 2) + (if a % 2 == 1 && b % 2 == 1 then 1 else 0)
  }

  /** Java's `a & ~m` on bit patterns: the bits of `a` with those of `m` cleared. */
  function BitClear(a: nat, m: nat): (r: nat)
    ensures r <= a
    decreases a
  {
    if a == 0 then 0
    else 2 * BitClear(a / 2, m / 2) + (if a % 2 == 1 && m % 2 == 0 then 1 else 0)
  }

  /** Clearing the bits of `m` leaves none of them set. */
  lemma {:induction false} ClearedBitsGone(a: nat, m: nat)
    ensures BitAnd(BitClear(a, m), m) == 0
    decreases a
  {
    if a != 0 && m != 0 {
      ClearedBitsGone(a / 2, m / 2);
      var c := BitClear(a, m);
      assert c / 2 == BitClear(a / 2, m / 2);
      assert c % 2 == 1 ==> m % 2 == 0;
    }
  }

  /** The two's-complement bit pattern of a Java int. */
  function Unsigned(v: Int32): Word
  {
    if v < 0 then v + 0x1_0000_0000 else v
  }

  /** The Java int whose two's-complement bit pattern is `w`. */
  function Signed(w: Word): Int32
  {
    if w < 0x8000_0000 then w else w - 0x1_0000_0000
  }

  /** The stored count with the reserved `mask` bits cleared, read back as a Java int. */
  function StoredCount(s: seq<byte>, mask: Word): Int32
    requires |s| >= BLOCK_PAGE_HEADER_SIZE
  {
    StripMask(Int32At(s, CHECKSUM_SIZE), mask)
  }

  /**
   * `raw` with the `mask` bits cleared when any of them is set: the result has no
   * mask bit, and a value without mask bits comes back unchanged.
   */
  function StripMask(raw: Int32, mask: Word): (r: Int32)
    ensures BitAnd(Unsigned(r), mask) == 0
    ensures BitAnd(Unsigned(raw), mask) == 0 ==> r == raw
    ensures BitAnd(Unsigned(raw), mask) != 0 ==> Unsigned(r) == BitClear(Unsigned(raw), mask)
  {
    var u := Unsigned(raw);
    ClearedBitsGone(u, mask);
    Signed(if BitAnd(u, mask) != 0 then BitClear(u, mask) else u)
  }

  /** What recovery concludes about one page. */
  datatype Verdict = Verified | CorruptDataPage | BadUserChecksum

  /**
   * The bytes a checksum scan from `pos` folds in while it passes `need` live records,
   * or None when it meets a size field that does not fit in the page, a size of 0, or
   * a size whose magnitude exceeds the bytes left.
   */
  function LiveScan(s: seq<byte>, pos: nat, need: int): (r: Option<seq<byte>>)
    decreases |s| - pos
    ensures need <= 0 ==> r == Some([])
  {
    if need <= 0 then Some([])
    else if pos + COUNT_SIZE > |s| then None
    else
      var size := Int32At(s, pos);
      if size == 0 || Abs(size) > |s| - pos then None
      else
        match LiveScan(s, pos + Abs(size), if size > 0 then need - 1 else need)
        case None => None
        case Some(rest) => Some((if size > 0 then s[pos..pos + size] else []) + rest)
  }

  /**
   * A page is corrupt when the scan up to the stored count fails; otherwise its
   * checksum is good exactly when the checksum of the count field followed by the
   * scanned live bytes equals the long stored at byte 0.
   */
  function VerdictOf(s: seq<byte>, mask: Word, checksum: ChecksumFn): Verdict
    requires |s| >= BLOCK_PAGE_HEADER_SIZE
  {
    match LiveScan(s, BLOCK_PAGE_HEADER_SIZE, StoredCount(s, mask))
    case None => CorruptDataPage
    case Some(fed) =>
      if checksum(s[CHECKSUM_SIZE..BLOCK_PAGE_HEADER_SIZE] + fed) != Int64At(s, 0) then BadUserChecksum else Verified
  }

  /** `o` with `p` put in front of the bytes it holds, if any. */
  function Prefixed(p: seq<byte>, o: Option<seq<byte>>): (r: Option<seq<byte>>)
    ensures r.Some? <==> o.Some?
  {
    match o
    case None => None
    case Some(x) => Some(p + x)
  }

  lemma PrefixedAssoc(a: seq<byte>, b: seq<byte>, o: Option<seq<byte>>)
    ensures Prefixed(a, Prefixed(b, o)) == Prefixed(a + b, o)
  {
    if o.Some? {
      ConcatAssoc(a, b, o.value);
    }
  }

  /**
   * A live record's bytes come first in the scan from it, then the scan of the
   * records after it: feeding them moves the scan on by one live record.
   */
  lemma LiveScanLive(s: seq<byte>, pos: nat, need: int, fed: seq<byte>)
    requires need > 0 && pos + COUNT_SIZE <= |s|
    requires 0 < Int32At(s, pos) <= |s| - pos
    ensures var size := Int32At(s, pos);
      Prefixed(fed + s[pos..pos + size], LiveScan(s, pos + size, need - 1)) == Prefixed(fed, LiveScan(s, pos, need))
  {
    var size := Int32At(s, pos);
    assert LiveScan(s, pos, need) == Prefixed(s[pos..pos + size], LiveScan(s, pos + size, need - 1));
    PrefixedAssoc(fed, s[pos..pos + size], LiveScan(s, pos + size, need - 1));
  }

  /** The scan from a freed record is the scan from the record after it. */
  lemma LiveScanFreed(s: seq<byte>, pos: nat, need: int)
    requires need > 0 && pos + COUNT_SIZE <= |s|
    requires Int32At(s, pos) < 0 && Abs(Int32At(s, pos)) <= |s| - pos
    ensures LiveScan(s, pos, need) == LiveScan(s, pos + Abs(Int32At(s, pos)), need)
  {
    var next := LiveScan(s, pos + Abs(Int32At(s, pos)), need);
    if next.Some? {
      assert [] + next.value == next.value;
    }
  }

  // ---------------------------------------------------------------------------
  // Lemmas

  /** `s` and `t` differ at most inside the window `[lo, hi)`. */
  ghost predicate SameOutside(s: seq<byte>, t: seq<byte>, lo: int, hi: int)
  {
    && |s| == |t|
    && forall i :: 0 <= i < |s| && (i < lo || hi <= i) ==> s[i] == t[i]
  }

  /** No record header of `blocks` overlaps the window `[lo, hi)`. */
  ghost predicate HeadersClear(blocks: seq<Record>, lo: int, hi: int)
  {
    forall k :: 0 <= k < |blocks| ==> blocks[k].offset + BLOCK_HEADER_SIZE <= lo || hi <= blocks[k].offset
  }

  /** A range that misses the window holds the same bytes in `s` and in `t`. */
  lemma SameRange(s: seq<byte>, t: seq<byte>, lo: int, hi: int, from: nat, to: nat)
    requires SameOutside(s, t, lo, hi) && from <= to <= |s|
    requires to <= lo || hi <= from
    ensures s[from..to] == t[from..to]
  {
    assert forall i :: from <= i < to ==> s[i] == t[i];
  }

  /** One decoding step: equal first headers and equal decodings of the rest give equal decodings. */
  lemma RecordsStep(s: seq<byte>, t: seq<byte>, pos: nat, need: int)
    requires Records(s, pos, need).Some? && need > 0 && |s| == |t|
    requires s[pos..pos + BLOCK_HEADER_SIZE] == t[pos..pos + BLOCK_HEADER_SIZE]
    requires
      var size := Int32At(s, pos);
      Records(t, pos + Abs(size), if size > 0 then need - 1 else need)
      == Records(s, pos + Abs(size), if size > 0 then need - 1 else need)
    ensures Records(t, pos, need) == Records(s, pos, need)
  {
    assert s[pos..pos + 4] == s[pos..pos + BLOCK_HEADER_SIZE][..4];
    assert t[pos..pos + 4] == t[pos..pos + BLOCK_HEADER_SIZE][..4];
    assert s[pos + 4..pos + 12] == s[pos..pos + BLOCK_HEADER_SIZE][4..];
    assert t[pos + 4..pos + 12] == t[pos..pos + BLOCK_HEADER_SIZE][4..];
  }

  /** Decoding reads only the record headers: bytes in a window that misses them can change freely. */
  lemma {:induction false} RecordsFrame(s: seq<byte>, t: seq<byte>, lo: int, hi: int, pos: nat, need: int)
    requires Records(s, pos, need).Some? && SameOutside(s, t, lo, hi)
    requires HeadersClear(Records(s, pos, need).value, lo, hi)
    ensures Records(t, pos, need) == Records(s, pos, need)
    decreases |s| - pos
  {
    if need > 0 {
      RecordsUnfold(s, pos, need);
      var blocks := Records(s, pos, need).value;
      var size := Int32At(s, pos);
      var next := if size > 0 then need - 1 else need;
      var rest := Records(s, pos + Abs(size), next).value;
      assert blocks[0].offset == pos && blocks[1..] == rest;
      assert pos + BLOCK_HEADER_SIZE <= lo || hi <= pos;
      assert HeadersClear(rest, lo, hi) by {
        assert forall k :: 0 <= k < |rest| ==> rest[k] == blocks[k + 1];
      }
      RecordsFrame(s, t, lo, hi, pos + Abs(size), next);
      SameRange(s, t, lo, hi, pos, pos + BLOCK_HEADER_SIZE);
      RecordsStep(s, t, pos, need);
    }
  }

  /** A prefix of a tiling is a tiling. */
  lemma TilingPrefix(s: seq<byte>, blocks: seq<Record>, pos: nat, n: nat)
    requires Tiling(s, blocks, pos) && n <= |blocks|
    ensures Tiling(s, blocks[..n], pos)
  {
    var p := blocks[..n];
    assert forall k :: 0 <= k < n ==> p[k] == blocks[k];
  }

  /** The records of a tiling end exactly `Extents` bytes after `pos`: there are no gaps. */
  lemma {:induction false} TilingSpan(s: seq<byte>, blocks: seq<Record>, pos: nat)
    requires Tiling(s, blocks, pos) && |blocks| > 0
    ensures pos + Extents(blocks) == blocks[|blocks| - 1].offset + Abs(blocks[|blocks| - 1].size)
  {
    var n := |blocks|;
    if n > 1 {
      TilingPrefix(s, blocks, pos, n - 1);
      var p := blocks[..n - 1];
      TilingSpan(s, p, pos);
      assert p[n - 2] == blocks[n - 2];
    }
  }

  /** In a tiling a record ends at or before the start of every later record. */
  lemma {:induction false} TilingOrdered(s: seq<byte>, blocks: seq<Record>, pos: nat, j: nat, k: nat)
    requires Tiling(s, blocks, pos) && j < k < |blocks|
    ensures blocks[j].offset + Abs(blocks[j].size) <= blocks[k].offset
    decreases k
  {
    if j + 1 < k {
      TilingOrdered(s, blocks, pos, j, k - 1);
    }
  }

  /** The records a scan passes, live and freed, fit in the page after `pos`. */
  lemma ExtentsFit(s: seq<byte>, blocks: seq<Record>, pos: nat)
    requires Tiling(s, blocks, pos) && pos <= |s|
    ensures pos + Extents(blocks) <= |s|
  {
    if |blocks| > 0 {
      TilingSpan(s, blocks, pos);
      assert Stored(s, blocks[|blocks| - 1], pos);
    }
  }

  lemma {:induction false} LiveSizeAtMostExtents(blocks: seq<Record>)
    ensures LiveSize(blocks) <= Extents(blocks)
  {
    if blocks != [] {
      LiveSizeAtMostExtents(blocks[..|blocks| - 1]);
    }
  }

  lemma {:induction false} LiveSizeOfAllLive(blocks: seq<Record>)
    requires forall k :: 0 <= k < |blocks| ==> IsLive(blocks[k])
    ensures LiveSize(blocks) == Extents(blocks)
  {
    if blocks != [] {
      LiveSizeOfAllLive(blocks[..|blocks| - 1]);
    }
  }

  /** Exactly the live records' addresses appear, and no freed record's address on its own account. */
  lemma {:induction false} LiveAddressesExact(blocks: seq<Record>, a: int)
    ensures a in LiveAddresses(blocks) <==> exists k :: 0 <= k < |blocks| && IsLive(blocks[k]) && blocks[k].address == a
  {
    if blocks != [] {
      var n := |blocks|;
      var p := blocks[..n - 1];
      LiveAddressesExact(p, a);
      assert forall k :: 0 <= k < n - 1 ==> p[k] == blocks[k];
      if a in LiveAddresses(blocks) && !(a in LiveAddresses(p)) {
        assert IsLive(blocks[n - 1]) && blocks[n - 1].address == a;
      }
      if exists k :: 0 <= k < n && IsLive(blocks[k]) && blocks[k].address == a {
        var k :| 0 <= k < n && IsLive(blocks[k]) && blocks[k].address == a;
        if k < n - 1 {
          assert p[k] == blocks[k];
        }
      }
    }
  }

  /** No live record of `blocks` overlaps the window `[lo, hi)`. */
  ghost predicate LiveClear(blocks: seq<Record>, lo: int, hi: int)
  {
    forall k :: 0 <= k < |blocks| && IsLive(blocks[k]) ==> blocks[k].offset + blocks[k].size <= lo || hi <= blocks[k].offset
  }

  /** Live bytes depend only on the bytes of the live records. */
  lemma {:induction false} LiveBytesFrame(s: seq<byte>, t: seq<byte>, lo: int, hi: int, blocks: seq<Record>)
    requires SameOutside(s, t, lo, hi) && LiveClear(blocks, lo, hi)
    ensures LiveBytes(t, blocks) == LiveBytes(s, blocks)
  {
    if blocks != [] {
      var r := blocks[0];
      var rest := blocks[1..];
      assert LiveClear(rest, lo, hi) by {
        assert forall k :: 0 <= k < |rest| ==> rest[k] == blocks[k + 1];
      }
      LiveBytesFrame(s, t, lo, hi, rest);
      if IsLive(r) && r.offset + r.size <= |s| {
        assert r.offset + r.size <= lo || hi <= r.offset;
        SameRange(s, t, lo, hi, r.offset, r.offset + r.size);
      }
      assert RecordBytes(t, r) == RecordBytes(s, r);
    }
  }

  /** On a decodable chain the checksum scan folds in exactly the live records' bytes. */
  lemma {:induction false} RecordsScan(s: seq<byte>, pos: nat, need: int)
    requires Records(s, pos, need).Some?
    ensures LiveScan(s, pos, need) == Some(LiveBytes(s, Records(s, pos, need).value))
    decreases |s| - pos
  {
    if need > 0 {
      RecordsUnfold(s, pos, need);
      var size := Int32At(s, pos);
      var next := if size > 0 then need - 1 else need;
      var head := Record(pos, size, Int64At(s, pos + COUNT_SIZE));
      var rest := Records(s, pos + Abs(size), next).value;
      RecordsScan(s, pos + Abs(size), next);
      ScanStep(s, pos, need, rest);
    }
  }

  lemma ScanStep(s: seq<byte>, pos: nat, need: int, rest: seq<Record>)
    requires need > 0 && pos + BLOCK_HEADER_SIZE <= |s|
    requires BLOCK_HEADER_SIZE <= Abs(Int32At(s, pos)) <= |s| - pos
    requires var size := Int32At(s, pos);
      LiveScan(s, pos + Abs(size), if size > 0 then need - 1 else need) == Some(LiveBytes(s, rest))
    ensures LiveScan(s, pos, need) == Some(LiveBytes(s, [Record(pos, Int32At(s, pos), Int64At(s, pos + COUNT_SIZE))] + rest))
  {
    var head := Record(pos, Int32At(s, pos), Int64At(s, pos + COUNT_SIZE));
    assert ([head] + rest)[1..] == rest;
  }

  /**
   * A page whose checksum field holds the checksum computed over its live records,
   * and whose stored count (mask cleared) is the count the checksum was taken with,
   * passes recovery's check.
   */
  lemma ChecksummedPageVerifies(s: seq<byte>, mask: Word, checksum: ChecksumFn, n: int)
    requires |s| >= BLOCK_PAGE_HEADER_SIZE
    requires Records(s, BLOCK_PAGE_HEADER_SIZE, n).Some? && StoredCount(s, mask) == n
    ensures VerdictOf(Int64Bytes(checksum(ChecksumInput(s, Records(s, BLOCK_PAGE_HEADER_SIZE, n).value)))
                      + s[CHECKSUM_SIZE..], mask, checksum) == Verified
  {
    var blocks := Records(s, BLOCK_PAGE_HEADER_SIZE, n).value;
    var v := checksum(ChecksumInput(s, blocks));
    var t := Int64Bytes(v) + s[CHECKSUM_SIZE..];
    ChecksumField(s, v);
    ChecksumFieldKeeps(s, v, n);
    assert StoredCount(t, mask) == n;
    RecordsScan(t, BLOCK_PAGE_HEADER_SIZE, n);
  }

  /** Storing `v` in the checksum field changes only bytes 0..8, and reads back as `v`. */
  lemma ChecksumField(s: seq<byte>, v: Int64)
    requires |s| >= CHECKSUM_SIZE
    ensures SameOutside(s, Int64Bytes(v) + s[CHECKSUM_SIZE..], 0, CHECKSUM_SIZE)
    ensures Int64At(Int64Bytes(v) + s[CHECKSUM_SIZE..], 0) == v
  {
    var w := Int64Bytes(v);
    var t := w + s[CHECKSUM_SIZE..];
    forall i | 0 <= i < |s| && CHECKSUM_SIZE <= i
      ensures s[i] == t[i]
    {
      assert t[i] == s[CHECKSUM_SIZE..][i - CHECKSUM_SIZE];
    }
    assert t[0..8] == w == w[0..8];
    Int64RoundTrip(v);
  }

  /**
   * Overwriting bytes inside a live record's payload keeps every record where it
   * was: the decoded chain, and with it the count and the free space, is unchanged.
   */
  lemma OverwritePayloadKeepsRecords(s: seq<byte>, n: int, i: nat, data: seq<byte>)
    requires Records(s, BLOCK_PAGE_HEADER_SIZE, n).Some?
    requires i < |Records(s, BLOCK_PAGE_HEADER_SIZE, n).value|
    requires IsLive(Records(s, BLOCK_PAGE_HEADER_SIZE, n).value[i])
    requires |data| <= Records(s, BLOCK_PAGE_HEADER_SIZE, n).value[i].size - BLOCK_HEADER_SIZE
    ensures Records(s, BLOCK_PAGE_HEADER_SIZE, n).value[i].offset + BLOCK_HEADER_SIZE + |data| <= |s|
    ensures Records(Overwrite(s, Records(s, BLOCK_PAGE_HEADER_SIZE, n).value[i].offset + BLOCK_HEADER_SIZE, data),
                    BLOCK_PAGE_HEADER_SIZE, n) == Records(s, BLOCK_PAGE_HEADER_SIZE, n)
  {
    var blocks := Records(s, BLOCK_PAGE_HEADER_SIZE, n).value;
    var r := blocks[i];
    RecordsTile(s, BLOCK_PAGE_HEADER_SIZE, n);
    assert Stored(s, r, BLOCK_PAGE_HEADER_SIZE);
    var at := r.offset + BLOCK_HEADER_SIZE;
    var t := Overwrite(s, at, data);
    assert SameOutside(s, t, at, at + |data|);
    forall k | 0 <= k < |blocks|
      ensures blocks[k].offset + BLOCK_HEADER_SIZE <= at || at + |data| <= blocks[k].offset
    {
      if k < i {
        TilingOrdered(s, blocks, BLOCK_PAGE_HEADER_SIZE, k, i);
      } else if i < k {
        TilingOrdered(s, blocks, BLOCK_PAGE_HEADER_SIZE, i, k);
      }
    }
    RecordsFrame(s, t, at, at + |data|, BLOCK_PAGE_HEADER_SIZE, n);
  }

  /** Writing a live record's whole payload and reading it back yields what was written. */
  lemma WriteThenReadPayload(s: seq<byte>, r: Record, data: seq<byte>)
    requires BLOCK_HEADER_SIZE <= r.size && r.offset + r.size <= |s|
    requires |data| == r.size - BLOCK_HEADER_SIZE
    ensures Payload(Overwrite(s, r.offset + BLOCK_HEADER_SIZE, data), r) == data
  {
  }


  // ---------------------------------------------------------------------------
  // Scanning a decoded page one record at a time.

  /** The bytes a page's header and the positive sizes among its first `count` records take up. */
  function ConsumedBytes(blocks: seq<Record>, count: nat): nat
    requires count <= |blocks|
  {
    BLOCK_PAGE_HEADER_SIZE + LiveSize(blocks[..count])
  }

  /** Every record a page decodes to starts after the page header and lies inside the page. */
  lemma RecordBounds(s: seq<byte>, n: int, k: nat)
    requires Records(s, BLOCK_PAGE_HEADER_SIZE, n).Some? && k < |Records(s, BLOCK_PAGE_HEADER_SIZE, n).value|
    ensures var r := Records(s, BLOCK_PAGE_HEADER_SIZE, n).value[k];
      && BLOCK_PAGE_HEADER_SIZE <= r.offset && BLOCK_HEADER_SIZE <= Abs(r.size)
      && r.offset + Abs(r.size) <= |s|
  {
    RecordsTile(s, BLOCK_PAGE_HEADER_SIZE, n);
    assert Stored(s, Records(s, BLOCK_PAGE_HEADER_SIZE, n).value[k], BLOCK_PAGE_HEADER_SIZE);
  }

  /**
   * On a page that decodes, the first `count` records exist and what they consume
   * fits in the page, so `remaining` is never negative.
   */
  lemma ConsumedFits(s: seq<byte>, count: nat)
    requires |s| >= BLOCK_PAGE_HEADER_SIZE && Records(s, BLOCK_PAGE_HEADER_SIZE, count).Some?
    ensures count <= |Records(s, BLOCK_PAGE_HEADER_SIZE, count).value|
    ensures count > 0 ==> Records(s, BLOCK_PAGE_HEADER_SIZE, count).value[0].offset == BLOCK_PAGE_HEADER_SIZE
    ensures BLOCK_PAGE_HEADER_SIZE <= ConsumedBytes(Records(s, BLOCK_PAGE_HEADER_SIZE, count).value, count) <= |s|
  {
    var blocks := Records(s, BLOCK_PAGE_HEADER_SIZE, count).value;
    RecordsTile(s, BLOCK_PAGE_HEADER_SIZE, count);
    TilingPrefix(s, blocks, BLOCK_PAGE_HEADER_SIZE, count);
    ExtentsFit(s, blocks[..count], BLOCK_PAGE_HEADER_SIZE);
    LiveSizeAtMostExtents(blocks[..count]);
  }

  /** Extending a prefix of `blocks` by one record adds that record to the sums and the address list. */
  lemma PrefixStep(blocks: seq<Record>, i: nat)
    requires i < |blocks|
    ensures LiveSize(blocks[..i + 1]) == LiveSize(blocks[..i]) + if IsLive(blocks[i]) then blocks[i].size else 0
    ensures Extents(blocks[..i + 1]) == Extents(blocks[..i]) + Abs(blocks[i].size)
    ensures LiveAddresses(blocks[..i + 1]) == LiveAddresses(blocks[..i]) + if IsLive(blocks[i]) then [blocks[i].address] else []
  {
    assert blocks[..i + 1][..i] == blocks[..i];
  }

  /** In a tiling, each record starts where the extents of the records before it end. */
  lemma OffsetIsExtents(s: seq<byte>, blocks: seq<Record>, pos: nat, i: nat)
    requires Tiling(s, blocks, pos) && i < |blocks|
    ensures blocks[i].offset == pos + Extents(blocks[..i])
  {
    if i == 0 {
      assert blocks[..i] == [];
    } else {
      TilingPrefix(s, blocks, pos, i);
      TilingSpan(s, blocks[..i], pos);
      assert blocks[..i][i - 1] == blocks[i - 1];
    }
  }

  /**
   * One step of a scan that still needs live records, when the records left to scan
   * are `blocks[i..]`: the record under the cursor is `blocks[i]`, read from the page,
   * and the rest of the scan decodes to `blocks[i + 1..]`.
   */
  lemma SuffixStep(s: seq<byte>, pos: nat, need: int, blocks: seq<Record>, i: nat)
    requires need > 0 && i <= |blocks| && Records(s, pos, need) == Some(blocks[i..])
    ensures i < |blocks| && pos + BLOCK_HEADER_SIZE <= |s|
    ensures blocks[i] == Record(pos, Int32At(s, pos), Int64At(s, pos + COUNT_SIZE))
    ensures BLOCK_HEADER_SIZE <= Abs(blocks[i].size) <= |s| - pos
    ensures Records(s, pos + Abs(blocks[i].size), if IsLive(blocks[i]) then need - 1 else need) == Some(blocks[i + 1..])
    ensures blocks[..i + 1] == blocks[..i] + [blocks[i]]
  {
    RecordsUnfold(s, pos, need);
    assert blocks[i..][0] == blocks[i];
    assert blocks[i..][1..] == blocks[i + 1..];
  }

  /**
   * `SuffixStep` without the field values: where the record under the cursor sits
   * and where the rest of the scan starts.
   */
  lemma SuffixNext(s: seq<byte>, pos: nat, need: int, blocks: seq<Record>, i: nat)
    requires need > 0 && i <= |blocks| && Records(s, pos, need) == Some(blocks[i..])
    ensures i < |blocks| && blocks[i].offset == pos && pos + Abs(blocks[i].size) <= |s|
    ensures Records(s, pos + Abs(blocks[i].size), if IsLive(blocks[i]) then need - 1 else need) == Some(blocks[i + 1..])
  {
    SuffixStep(s, pos, need, blocks, i);
  }

  /** Appending a record to a chain appends its bytes, if it is live, to the live bytes. */
  lemma {:induction false} LiveBytesSnoc(s: seq<byte>, blocks: seq<Record>, r: Record)
    ensures LiveBytes(s, blocks + [r]) == LiveBytes(s, blocks) + RecordBytes(s, r)
  {
    if blocks == [] {
      assert ([] + [r])[1..] == [];
    } else {
      assert (blocks + [r])[0] == blocks[0];
      assert (blocks + [r])[1..] == blocks[1..] + [r];
      LiveBytesSnoc(s, blocks[1..], r);
    }
  }

  /** The live bytes of the first `i + 1` records: those of the first `i`, then record `i`'s. */
  lemma LiveBytesPrefixStep(s: seq<byte>, blocks: seq<Record>, i: nat)
    requires i < |blocks|
    ensures LiveBytes(s, blocks[..i + 1]) == LiveBytes(s, blocks[..i]) + RecordBytes(s, blocks[i])
  {
    assert blocks[..i + 1] == blocks[..i] + [blocks[i]];
    LiveBytesSnoc(s, blocks[..i], blocks[i]);
  }

  /** What the checksum has been fed after record `i`: the same head, then the live bytes of records 0..i. */
  lemma ChecksumFold(s: seq<byte>, blocks: seq<Record>, i: nat, head: seq<byte>, fed: seq<byte>)
    requires i < |blocks| && fed == head + LiveBytes(s, blocks[..i])
    ensures fed + RecordBytes(s, blocks[i]) == head + LiveBytes(s, blocks[..i + 1])
  {
    LiveBytesPrefixStep(s, blocks, i);
    ConcatAssoc(head, LiveBytes(s, blocks[..i]), RecordBytes(s, blocks[i]));
  }

  /** On a page that decodes, each record after the first starts where the one before it ends. */
  lemma NextOffset(s: seq<byte>, n: int, k: nat)
    requires Records(s, BLOCK_PAGE_HEADER_SIZE, n).Some? && k + 1 < |Records(s, BLOCK_PAGE_HEADER_SIZE, n).value|
    ensures var blocks := Records(s, BLOCK_PAGE_HEADER_SIZE, n).value;
      blocks[k + 1].offset == blocks[k].offset + Abs(blocks[k].size)
  {
    RecordsTile(s, BLOCK_PAGE_HEADER_SIZE, n);
  }

  /**
   * Storing a checksum in bytes 0..8 of a page that decodes keeps its records, the
   * bytes they contribute to the checksum, and its count field.
   */
  lemma ChecksumFieldKeeps(s: seq<byte>, v: Int64, n: int)
    requires |s| >= BLOCK_PAGE_HEADER_SIZE && Records(s, BLOCK_PAGE_HEADER_SIZE, n).Some?
    ensures var t := Int64Bytes(v) + s[CHECKSUM_SIZE..];
      && Records(t, BLOCK_PAGE_HEADER_SIZE, n) == Records(s, BLOCK_PAGE_HEADER_SIZE, n)
      && t[CHECKSUM_SIZE..BLOCK_PAGE_HEADER_SIZE] == s[CHECKSUM_SIZE..BLOCK_PAGE_HEADER_SIZE]
      && LiveBytes(t, Records(s, BLOCK_PAGE_HEADER_SIZE, n).value) == LiveBytes(s, Records(s, BLOCK_PAGE_HEADER_SIZE, n).value)
  {
    var blocks := Records(s, BLOCK_PAGE_HEADER_SIZE, n).value;
    var t := Int64Bytes(v) + s[CHECKSUM_SIZE..];
    ChecksumField(s, v);
    SameRange(s, t, 0, CHECKSUM_SIZE, CHECKSUM_SIZE, BLOCK_PAGE_HEADER_SIZE);
    RecordsTile(s, BLOCK_PAGE_HEADER_SIZE, n);
    assert HeadersClear(blocks, 0, CHECKSUM_SIZE) && LiveClear(blocks, 0, CHECKSUM_SIZE) by {
      forall k | 0 <= k < |blocks|
        ensures CHECKSUM_SIZE <= blocks[k].offset
      {
        assert Stored(s, blocks[k], BLOCK_PAGE_HEADER_SIZE);
      }
    }
    RecordsFrame(s, t, 0, CHECKSUM_SIZE, BLOCK_PAGE_HEADER_SIZE, n);
    LiveBytesFrame(s, t, 0, CHECKSUM_SIZE, blocks);
  }

  /** The live records from index `i` on: the first one counts, then the rest. */
  lemma LiveCountStep(blocks: seq<Record>, i: nat)
    requires i < |blocks|
    ensures LiveCount(blocks[i..]) == (if IsLive(blocks[i]) then 1 else 0) + LiveCount(blocks[i + 1..])
  {
    assert blocks[i..][1..] == blocks[i + 1..];
  }

  /** A scan that still needs live records stops right after one: the last record it passes is live. */
  lemma {:induction false} RecordsEndLive(s: seq<byte>, pos: nat, need: int)
    requires need > 0 && Records(s, pos, need).Some?
    ensures |Records(s, pos, need).value| > 0
    ensures IsLive(Records(s, pos, need).value[|Records(s, pos, need).value| - 1])
    decreases |s| - pos
  {
    RecordsUnfold(s, pos, need);
    var size := Int32At(s, pos);
    var next := if size > 0 then need - 1 else need;
    if next > 0 {
      RecordsEndLive(s, pos + Abs(size), next);
    }
  }

  /** When the last record is live, every suffix that is not empty holds a live record. */
  lemma {:induction false} LiveBeforeEnd(blocks: seq<Record>, i: nat)
    requires i < |blocks| && IsLive(blocks[|blocks| - 1])
    ensures LiveCount(blocks[i..]) > 0
    decreases |blocks| - i
  {
    LiveCountStep(blocks, i);
    if i + 1 < |blocks| {
      LiveBeforeEnd(blocks, i + 1);
    }
  }

  /**
   * What a scan of `count` live records from byte 12 relies on: the records hold
   * exactly `count` live ones, and once all of them are passed no record is left.
   */
  lemma ScanPlan(s: seq<byte>, count: nat)
    requires Records(s, BLOCK_PAGE_HEADER_SIZE, count).Some?
    ensures var blocks := Records(s, BLOCK_PAGE_HEADER_SIZE, count).value;
      && LiveCount(blocks[0..]) == count <= |blocks|
      && (|blocks| > 0 ==> blocks[0].offset == BLOCK_PAGE_HEADER_SIZE)
      && (forall i :: 0 <= i < |blocks| ==> LiveCount(blocks[i..]) > 0)
  {
    var blocks := Records(s, BLOCK_PAGE_HEADER_SIZE, count).value;
    RecordsTile(s, BLOCK_PAGE_HEADER_SIZE, count);
    assert blocks[0..] == blocks;
    if count > 0 {
      RecordsEndLive(s, BLOCK_PAGE_HEADER_SIZE, count);
      forall i | 0 <= i < |blocks|
        ensures LiveCount(blocks[i..]) > 0
      {
        LiveBeforeEnd(blocks, i);
      }
    }
  }
}
