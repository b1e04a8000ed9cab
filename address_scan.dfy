/**
 * The record loop of `BlockPage.verifyAddresses` exactly as it is written, run with
 * a step budget (`fuel`). Its live branch counts the record but never moves the
 * cursor past it, so once the loop reaches a live record it checks that record's
 * address again and again until the tally reaches `count`; the live records after
 * it are never checked. `BlockPages.BlockPage.VerifyAddresses` is the corrected loop.
 */
module AddressScan {
  import opened Results
  import opened Bytes
  import opened PageFormat
  import opened ChecksumScan

  /**
   * The addresses the loop as written checks from `pos`, having counted `block` of
   * `count` live records, in the order it checks them; None when it throws (a field
   * read past the end of the buffer, a negative `position`) or runs out of fuel.
   */
  function VisitsAsWritten(s: seq<byte>, count: int, pos: nat, block: int, fuel: nat): Option<seq<Int64>>
    decreases fuel
  {
    if block >= count then Some([])
    else if fuel == 0 || pos + COUNT_SIZE > |s| then None
    else
      var size := Int32At(s, pos);
      if size > 0 then
        if pos + BLOCK_HEADER_SIZE > |s| then None
        else
          match VisitsAsWritten(s, count, pos, block + 1, fuel - 1)
          case None => None
          case Some(rest) => Some([Int64At(s, pos + COUNT_SIZE)] + rest)
      else if pos + JavaAbs(size) < 0 then None
      else VisitsAsWritten(s, count, pos + JavaAbs(size), block, fuel - 1)
  }

  /** `n` copies of `a`. */
  function Repeat(a: Int64, n: nat): (r: seq<Int64>)
    ensures |r| == n && forall j :: 0 <= j < n ==> r[j] == a
  {
    if n == 0 then [] else [a] + Repeat(a, n - 1)
  }

  /** Once the loop as written stands on a live record, it checks that record's address for every live record left. */
  lemma {:induction false} StuckOnLive(s: seq<byte>, count: int, pos: nat, block: int, fuel: nat)
    requires pos + BLOCK_HEADER_SIZE <= |s| && Int32At(s, pos) > 0
    requires block <= count && count - block <= fuel
    ensures VisitsAsWritten(s, count, pos, block, fuel) == Some(Repeat(Int64At(s, pos + COUNT_SIZE), count - block))
    decreases count - block
  {
    if block < count {
      StuckOnLive(s, count, pos, block + 1, fuel - 1);
    }
  }

  /** The 12 bytes of a record header: its size, then its address. */
  function HeaderBytes(size: Int32, address: Int64): (r: seq<byte>)
    ensures |r| == BLOCK_HEADER_SIZE
  {
    Int32Bytes(size) + Int64Bytes(address)
  }

  /** A record header stored after `prefix` reads back as the size and address it was made of. */
  lemma HeaderAt(prefix: seq<byte>, size: Int32, address: Int64, suffix: seq<byte>)
    ensures var page := prefix + HeaderBytes(size, address) + suffix;
      && |prefix| + BLOCK_HEADER_SIZE <= |page|
      && Int32At(page, |prefix|) == size && Int64At(page, |prefix| + COUNT_SIZE) == address
  {
    var h := HeaderBytes(size, address);
    var page := prefix + h + suffix;
    var n := |prefix|;
    assert page[n..n + 12] == h;
    assert page[n..n + 4] == h[0..4] == Int32Bytes(size);
    assert page[n + 4..n + 12] == h[4..12] == Int64Bytes(address);
    Int32AtBytes(page, n, size);
    Int64AtBytes(page, n + 4, address);
  }

  /** A 36-byte page: checksum 0, count 2, then two live records of 12 bytes (header only) with addresses `a1` and `a2`. */
  function TwoLivePage(a1: Int64, a2: Int64): (page: seq<byte>)
    ensures |page| == 36
  {
    Int64Bytes(0) + Int32Bytes(2) + HeaderBytes(12, a1) + HeaderBytes(12, a2)
  }

  lemma TwoLivePageFields(a1: Int64, a2: Int64)
    ensures var page := TwoLivePage(a1, a2);
      && Int32At(page, CHECKSUM_SIZE) == 2
      && Int32At(page, 12) == 12 && Int64At(page, 16) == a1
      && Int32At(page, 24) == 12 && Int64At(page, 28) == a2
  {
    var head := Int64Bytes(0) + Int32Bytes(2);
    var r1 := HeaderBytes(12, a1);
    var r2 := HeaderBytes(12, a2);
    ConcatAssoc(head, r1, r2);
    Int32Field(Int64Bytes(0), 2, r1 + r2);
    HeaderAt(head, 12, a1, r2);
    assert head + r1 + r2 + [] == head + r1 + r2;
    HeaderAt(head + r1, 12, a2, []);
  }

  /** The page decodes to its two live records. */
  lemma TwoLivePageDecodes(a1: Int64, a2: Int64)
    ensures Records(TwoLivePage(a1, a2), BLOCK_PAGE_HEADER_SIZE, 2) == Some([Record(12, 12, a1), Record(24, 12, a2)])
  {
    var page := TwoLivePage(a1, a2);
    TwoLivePageFields(a1, a2);
    assert Records(page, 36, 0) == Some([]);
    assert [Record(24, 12, a2)] + [] == [Record(24, 12, a2)];
    assert Records(page, 24, 1) == Some([Record(24, 12, a2)]);
    assert [Record(12, 12, a1)] + [Record(24, 12, a2)] == [Record(12, 12, a1), Record(24, 12, a2)];
  }

  /** Their addresses, in page order, are `a1` then `a2`: what the corrected check visits. */
  lemma TwoLiveAddresses(a1: Int64, a2: Int64)
    ensures LiveAddresses([Record(12, 12, a1), Record(24, 12, a2)]) == [a1, a2]
  {
    var blocks := [Record(12, 12, a1), Record(24, 12, a2)];
    assert blocks[..1] == [Record(12, 12, a1)] && blocks[..1][..0] == [];
    assert LiveAddresses(blocks[..1]) == [a1];
  }

  /** On that page the loop as written checks `a1` twice and never checks `a2`. */
  lemma TwoLivePageChecksFirstTwice(a1: Int64, a2: Int64, fuel: nat)
    requires fuel >= 2
    ensures VisitsAsWritten(TwoLivePage(a1, a2), 2, BLOCK_PAGE_HEADER_SIZE, 0, fuel) == Some([a1, a1])
  {
    var page := TwoLivePage(a1, a2);
    TwoLivePageFields(a1, a2);
    StuckOnLive(page, 2, BLOCK_PAGE_HEADER_SIZE, 0, fuel);
    assert Repeat(a1, 2) == [a1, a1];
  }
}
