/**
 * The record loop of `BlockPage.verifyChecksum` exactly as it is written, run with a
 * step budget (`fuel`) because on some pages it never ends. It is compared with the
 * corrected scan `PageFormat.LiveScan`: whenever the loop as written returns, it
 * returns what the corrected check returns; it fails to return only on pages the
 * corrected check reports as corrupt, where it hangs or throws instead.
 */
module ChecksumScan {
  import opened Results
  import opened Bytes
  import opened PageFormat

  /** Where the loop ends: its fed bytes, a corruption report, an exception, or still looping. */
  datatype Run = Finished(fed: seq<byte>) | ReportedCorrupt | Threw | Running

  /** `Math.abs` on a Java int: Integer.MIN_VALUE has no positive counterpart and stays negative. */
  function JavaAbs(x: Int32): (r: Int32)
    ensures x != INT32_MIN ==> r == Abs(x)
    ensures x == INT32_MIN ==> r < 0
  {
    if x == INT32_MIN then x else Abs(x)
  }

  /**
   * The loop from `pos`, having passed `block` of `count` live records and fed `fed`
   * to the checksum. `getInt` at the cursor throws when fewer than 4 bytes remain;
   * `position` throws on a negative target.
   */
  function RunAsWritten(s: seq<byte>, count: int, pos: nat, block: int, fed: seq<byte>, fuel: nat): Run
    decreases fuel
  {
    if block >= count then Finished(fed)
    else if fuel == 0 then Running
    else if pos + COUNT_SIZE > |s| then Threw
    else
      var size := Int32At(s, pos);
      if JavaAbs(size) > |s| - pos then ReportedCorrupt
      else if size > 0 then RunAsWritten(s, count, pos + size, block + 1, fed + s[pos..pos + size], fuel - 1)
      else if pos + JavaAbs(size) < 0 then Threw
      else RunAsWritten(s, count, pos + JavaAbs(size), block, fed, fuel - 1)
  }

  /** What `verifyChecksum` as written does with a page, given a step budget. */
  datatype Outcome = Returned(verdict: Verdict) | Throws | OutOfFuel

  function VerifyAsWritten(s: seq<byte>, mask: Word, checksum: ChecksumFn, fuel: nat): Outcome
    requires |s| >= BLOCK_PAGE_HEADER_SIZE
  {
    match RunAsWritten(s, StoredCount(s, mask), BLOCK_PAGE_HEADER_SIZE, 0, s[CHECKSUM_SIZE..BLOCK_PAGE_HEADER_SIZE], fuel)
    case Finished(fed) => Returned(if checksum(fed) != Int64At(s, 0) then BadUserChecksum else Verified)
    case ReportedCorrupt => Returned(CorruptDataPage)
    case Threw => Throws
    case Running => OutOfFuel
  }

  /** A Java array, and so a page buffer, holds fewer than 2^31 bytes. */
  const MAX_PAGE: nat := 0x7FFF_FFFF

  /** When the loop as written finishes, the corrected scan succeeds and the same bytes were fed. */
  lemma {:induction false} FinishedMeansScanned(s: seq<byte>, count: int, pos: nat, block: int, fed: seq<byte>, fuel: nat)
    requires |s| <= MAX_PAGE
    requires RunAsWritten(s, count, pos, block, fed, fuel).Finished?
    ensures LiveScan(s, pos, count - block).Some?
    ensures RunAsWritten(s, count, pos, block, fed, fuel).fed == fed + LiveScan(s, pos, count - block).value
    decreases fuel
  {
    if block >= count {
      assert fed + [] == fed;
    } else {
      FinishedStep(s, count, pos, block, fed, fuel);
      var size := Int32At(s, pos);
      if size > 0 {
        RunStepLive(s, count, pos, block, fed, fuel);
        FinishedMeansScanned(s, count, pos + size, block + 1, fed + s[pos..pos + size], fuel - 1);
        FinishedAfterLive(s, count, pos, block, fed, fuel);
      } else {
        RunStepFreed(s, count, pos, block, fed, fuel);
        FinishedMeansScanned(s, count, pos + Abs(size), block, fed, fuel - 1);
        ScanStepFreed(s, pos, count, block);
      }
    }
  }

  /** The inductive step of `FinishedMeansScanned` over a live record. */
  lemma FinishedAfterLive(s: seq<byte>, count: int, pos: nat, block: int, fed: seq<byte>, fuel: nat)
    requires block < count && fuel > 0 && pos + COUNT_SIZE <= |s| && 0 < Int32At(s, pos) <= |s| - pos
    requires var size := Int32At(s, pos);
      var run := RunAsWritten(s, count, pos + size, block + 1, fed + s[pos..pos + size], fuel - 1);
      && run.Finished? && LiveScan(s, pos + size, count - (block + 1)).Some?
      && run.fed == fed + s[pos..pos + size] + LiveScan(s, pos + size, count - (block + 1)).value
    ensures LiveScan(s, pos, count - block).Some?
    ensures RunAsWritten(s, count, pos, block, fed, fuel).fed == fed + LiveScan(s, pos, count - block).value
  {
    var size := Int32At(s, pos);
    var here := s[pos..pos + size];
    RunStepLive(s, count, pos, block, fed, fuel);
    ScanStepLive(s, pos, count, block);
    var rest := LiveScan(s, pos + size, count - (block + 1)).value;
    assert fed + here + rest == fed + (here + rest);
  }

  /** A loop as written that finishes past a record took a step over a record that fits. */
  lemma FinishedStep(s: seq<byte>, count: int, pos: nat, block: int, fed: seq<byte>, fuel: nat)
    requires |s| <= MAX_PAGE
    requires block < count && RunAsWritten(s, count, pos, block, fed, fuel).Finished?
    ensures fuel > 0 && pos + COUNT_SIZE <= |s|
    ensures var size := Int32At(s, pos);
      size != 0 && size != INT32_MIN && Abs(size) <= |s| - pos
  {
    var size := Int32At(s, pos);
    if size == 0 {
      ZeroSizeNeverEnds(s, count, pos, block, fed, fuel);
    }
  }

  /** When the loop as written reports corruption or throws, the corrected scan fails. */
  lemma {:induction false} FailedMeansUnscanned(s: seq<byte>, count: int, pos: nat, block: int, fed: seq<byte>, fuel: nat)
    requires |s| <= MAX_PAGE
    requires RunAsWritten(s, count, pos, block, fed, fuel).ReportedCorrupt? || RunAsWritten(s, count, pos, block, fed, fuel).Threw?
    ensures LiveScan(s, pos, count - block).None?
    decreases fuel, 1
  {
    assert block < count && fuel > 0;
    if pos + COUNT_SIZE > |s| || Int32At(s, pos) == 0 || Int32At(s, pos) == INT32_MIN || Abs(Int32At(s, pos)) > |s| - pos {
      BadRecordUnscanned(s, pos, count - block);
    } else if Int32At(s, pos) > 0 {
      FailedPastLive(s, count, pos, block, fed, fuel);
    } else {
      FailedPastFreed(s, count, pos, block, fed, fuel);
    }
  }

  /** `FailedMeansUnscanned` when the loop as written failed after passing a live record. */
  lemma {:induction false} FailedPastLive(s: seq<byte>, count: int, pos: nat, block: int, fed: seq<byte>, fuel: nat)
    requires |s| <= MAX_PAGE && block < count && fuel > 0
    requires pos + COUNT_SIZE <= |s| && 0 < Int32At(s, pos) <= |s| - pos
    requires RunAsWritten(s, count, pos, block, fed, fuel).ReportedCorrupt? || RunAsWritten(s, count, pos, block, fed, fuel).Threw?
    ensures LiveScan(s, pos, count - block).None?
    decreases fuel, 0
  {
    var size := Int32At(s, pos);
    RunStepLive(s, count, pos, block, fed, fuel);
    FailedMeansUnscanned(s, count, pos + size, block + 1, fed + s[pos..pos + size], fuel - 1);
    ScanStepLive(s, pos, count, block);
  }

  /** `FailedMeansUnscanned` when the loop as written failed after skipping a freed record. */
  lemma {:induction false} FailedPastFreed(s: seq<byte>, count: int, pos: nat, block: int, fed: seq<byte>, fuel: nat)
    requires |s| <= MAX_PAGE && block < count && fuel > 0
    requires pos + COUNT_SIZE <= |s| && INT32_MIN < Int32At(s, pos) < 0 && Abs(Int32At(s, pos)) <= |s| - pos
    requires RunAsWritten(s, count, pos, block, fed, fuel).ReportedCorrupt? || RunAsWritten(s, count, pos, block, fed, fuel).Threw?
    ensures LiveScan(s, pos, count - block).None?
    decreases fuel, 0
  {
    RunStepFreed(s, count, pos, block, fed, fuel);
    FailedMeansUnscanned(s, count, pos + Abs(Int32At(s, pos)), block, fed, fuel - 1);
    ScanStepFreed(s, pos, count, block);
  }

  /** The corrected scan stops at a size field that does not fit, a size of 0, or one too large. */
  lemma BadRecordUnscanned(s: seq<byte>, pos: nat, need: int)
    requires need > 0 && |s| <= MAX_PAGE
    requires pos + COUNT_SIZE > |s| || Int32At(s, pos) == 0 || Int32At(s, pos) == INT32_MIN || Abs(Int32At(s, pos)) > |s| - pos
    ensures LiveScan(s, pos, need).None?
  {
  }

  /** One step of the loop as written over a live record that fits. */
  lemma RunStepLive(s: seq<byte>, count: int, pos: nat, block: int, fed: seq<byte>, fuel: nat)
    requires block < count && fuel > 0 && pos + COUNT_SIZE <= |s|
    requires 0 < Int32At(s, pos) <= |s| - pos
    ensures var size := Int32At(s, pos);
      RunAsWritten(s, count, pos, block, fed, fuel) == RunAsWritten(s, count, pos + size, block + 1, fed + s[pos..pos + size], fuel - 1)
  {
  }

  /** One step of the loop as written over a freed record that fits. */
  lemma RunStepFreed(s: seq<byte>, count: int, pos: nat, block: int, fed: seq<byte>, fuel: nat)
    requires block < count && fuel > 0 && pos + COUNT_SIZE <= |s|
    requires INT32_MIN < Int32At(s, pos) < 0 && Abs(Int32At(s, pos)) <= |s| - pos
    ensures RunAsWritten(s, count, pos, block, fed, fuel) == RunAsWritten(s, count, pos + Abs(Int32At(s, pos)), block, fed, fuel - 1)
  {
  }

  /** One step of the corrected scan over a live record that fits, as the loop counts it. */
  lemma ScanStepLive(s: seq<byte>, pos: nat, count: int, block: int)
    requires block < count && pos + COUNT_SIZE <= |s|
    requires 0 < Int32At(s, pos) <= |s| - pos
    ensures var size := Int32At(s, pos);
      LiveScan(s, pos, count - block).Some? <==> LiveScan(s, pos + size, count - (block + 1)).Some?
    ensures var size := Int32At(s, pos);
      LiveScan(s, pos + size, count - (block + 1)).Some? ==>
        LiveScan(s, pos, count - block).value == s[pos..pos + size] + LiveScan(s, pos + size, count - (block + 1)).value
  {
    assert count - (block + 1) == count - block - 1;
  }

  /** One step of the corrected scan over a freed record that fits: nothing is fed. */
  lemma ScanStepFreed(s: seq<byte>, pos: nat, count: int, block: int)
    requires block < count && pos + COUNT_SIZE <= |s|
    requires Int32At(s, pos) < 0 && Abs(Int32At(s, pos)) <= |s| - pos
    ensures LiveScan(s, pos, count - block) == LiveScan(s, pos + Abs(Int32At(s, pos)), count - block)
  {
    var rest := LiveScan(s, pos + Abs(Int32At(s, pos)), count - block);
    if rest.Some? {
      assert [] + rest.value == rest.value;
    }
  }

  /** On a page the corrected scan accepts, the loop as written finishes within |s| - pos steps. */
  lemma {:induction false} RunFinishesWhenScanSucceeds(s: seq<byte>, count: int, pos: nat, block: int, fed: seq<byte>, fuel: nat)
    requires |s| <= MAX_PAGE
    requires LiveScan(s, pos, count - block).Some? && fuel >= |s| - pos
    ensures RunAsWritten(s, count, pos, block, fed, fuel) == Finished(fed + LiveScan(s, pos, count - block).value)
    decreases |s| - pos, 1
  {
    if block >= count {
      assert fed + [] == fed;
    } else {
      ScannedRecordFits(s, pos, count - block);
      if Int32At(s, pos) > 0 {
        FinishesPastLive(s, count, pos, block, fed, fuel);
      } else {
        FinishesPastFreed(s, count, pos, block, fed, fuel);
      }
    }
  }

  /** A record the corrected scan passes has a size field inside the page, not 0, that fits. */
  lemma ScannedRecordFits(s: seq<byte>, pos: nat, need: int)
    requires |s| <= MAX_PAGE && need > 0 && LiveScan(s, pos, need).Some?
    ensures pos + COUNT_SIZE <= |s|
    ensures Int32At(s, pos) != 0 && Int32At(s, pos) != INT32_MIN && Abs(Int32At(s, pos)) <= |s| - pos
  {
  }

  /** `RunFinishesWhenScanSucceeds` past a live record. */
  lemma {:induction false} FinishesPastLive(s: seq<byte>, count: int, pos: nat, block: int, fed: seq<byte>, fuel: nat)
    requires |s| <= MAX_PAGE && block < count
    requires pos + COUNT_SIZE <= |s| && 0 < Int32At(s, pos) <= |s| - pos
    requires LiveScan(s, pos, count - block).Some? && fuel >= |s| - pos
    ensures RunAsWritten(s, count, pos, block, fed, fuel) == Finished(fed + LiveScan(s, pos, count - block).value)
    decreases |s| - pos, 0
  {
    var size := Int32At(s, pos);
    var here := s[pos..pos + size];
    ScanStepLive(s, pos, count, block);
    var rest := LiveScan(s, pos + size, count - (block + 1)).value;
    RunFinishesWhenScanSucceeds(s, count, pos + size, block + 1, fed + here, fuel - 1);
    RunStepLive(s, count, pos, block, fed, fuel);
    assert fed + here + rest == fed + (here + rest);
  }

  /** `RunFinishesWhenScanSucceeds` past a freed record. */
  lemma {:induction false} FinishesPastFreed(s: seq<byte>, count: int, pos: nat, block: int, fed: seq<byte>, fuel: nat)
    requires |s| <= MAX_PAGE && block < count
    requires pos + COUNT_SIZE <= |s| && INT32_MIN < Int32At(s, pos) < 0 && Abs(Int32At(s, pos)) <= |s| - pos
    requires LiveScan(s, pos, count - block).Some? && fuel >= |s| - pos
    ensures RunAsWritten(s, count, pos, block, fed, fuel) == Finished(fed + LiveScan(s, pos, count - block).value)
    decreases |s| - pos, 0
  {
    ScanStepFreed(s, pos, count, block);
    RunStepFreed(s, count, pos, block, fed, fuel);
    RunFinishesWhenScanSucceeds(s, count, pos + Abs(Int32At(s, pos)), block, fed, fuel - 1);
  }

  /**
   * `verifyChecksum` as written and the corrected check agree whenever the former
   * returns; it throws only on pages the corrected check reports as corrupt; and on
   * every page the corrected check does not find corrupt it returns, within |s| steps.
   */
  lemma AsWrittenAgrees(s: seq<byte>, mask: Word, checksum: ChecksumFn, fuel: nat)
    requires BLOCK_PAGE_HEADER_SIZE <= |s| <= MAX_PAGE
    ensures VerifyAsWritten(s, mask, checksum, fuel).Returned? ==>
      VerifyAsWritten(s, mask, checksum, fuel).verdict == VerdictOf(s, mask, checksum)
    ensures VerifyAsWritten(s, mask, checksum, fuel).Throws? ==> VerdictOf(s, mask, checksum) == CorruptDataPage
    ensures fuel >= |s| && VerdictOf(s, mask, checksum) != CorruptDataPage ==>
      VerifyAsWritten(s, mask, checksum, fuel) == Returned(VerdictOf(s, mask, checksum))
  {
    var count := StoredCount(s, mask);
    var head := s[CHECKSUM_SIZE..BLOCK_PAGE_HEADER_SIZE];
    var r := RunAsWritten(s, count, BLOCK_PAGE_HEADER_SIZE, 0, head, fuel);
    var scan := LiveScan(s, BLOCK_PAGE_HEADER_SIZE, count);
    if r.Finished? {
      FinishedMeansScanned(s, count, BLOCK_PAGE_HEADER_SIZE, 0, head, fuel);
      assert r.fed == head + scan.value;
    } else if r.ReportedCorrupt? || r.Threw? {
      FailedMeansUnscanned(s, count, BLOCK_PAGE_HEADER_SIZE, 0, head, fuel);
      assert scan.None?;
    } else if fuel >= |s| && scan.Some? {
      RunFinishesWhenScanSucceeds(s, count, BLOCK_PAGE_HEADER_SIZE, 0, head, fuel);
      assert false;
    }
  }

  // ---------------------------------------------------------------------------
  // The three ways the loop as written fails to report a corrupt page.

  /** A size field of 0 leaves the cursor where it is and the tally unchanged: the loop never ends. */
  lemma {:induction false} ZeroSizeNeverEnds(s: seq<byte>, count: int, pos: nat, block: int, fed: seq<byte>, fuel: nat)
    requires block < count && pos + COUNT_SIZE <= |s| && Int32At(s, pos) == 0
    ensures RunAsWritten(s, count, pos, block, fed, fuel) == Running
    decreases fuel
  {
    if fuel > 0 {
      ZeroSizeNeverEnds(s, count, pos, block, fed, fuel - 1);
    }
  }

  /** A size of Integer.MIN_VALUE passes the bounds test (its abs is negative) and `position` throws. */
  lemma MinSizeThrows(s: seq<byte>, count: int, pos: nat, block: int, fed: seq<byte>, fuel: nat)
    requires block < count && fuel > 0 && pos + COUNT_SIZE <= |s| <= MAX_PAGE && Int32At(s, pos) == INT32_MIN
    ensures RunAsWritten(s, count, pos, block, fed, fuel) == Threw
  {
  }

  /** The int stored just after `prefix` is the one `putInt` wrote there. */
  lemma Int32Field(prefix: seq<byte>, v: Int32, suffix: seq<byte>)
    ensures Int32At(prefix + Int32Bytes(v) + suffix, |prefix|) == v
  {
    var page := prefix + Int32Bytes(v) + suffix;
    assert page[|prefix|..|prefix| + 4] == Int32Bytes(v) == Int32Bytes(v)[0..4];
    Int32RoundTrip(v);
  }

  /** A 24-byte page: checksum 0, then the count, then one 12-byte record header. */
  function SamplePage(count: Int32, size: Int32): (page: seq<byte>)
    ensures |page| == 24
    ensures Int32At(page, CHECKSUM_SIZE) == count && Int32At(page, BLOCK_PAGE_HEADER_SIZE) == size
  {
    var head := Int64Bytes(0);
    var tail := Int64Bytes(0);
    var page := head + Int32Bytes(count) + Int32Bytes(size) + tail;
    assert page == head + Int32Bytes(count) + (Int32Bytes(size) + tail);
    Int32Field(head, count, Int32Bytes(size) + tail);
    Int32Field(head + Int32Bytes(count), size, tail);
    page
  }

  lemma CountOfSamplePage(count: Int32, size: Int32)
    ensures StoredCount(SamplePage(count, size), 0) == count
  {
  }

  /** A page holding one record of size 0: the loop as written never returns. */
  lemma ZeroSizePageHangs(checksum: ChecksumFn, fuel: nat)
    ensures VerifyAsWritten(SamplePage(1, 0), 0, checksum, fuel) == OutOfFuel
  {
    var page := SamplePage(1, 0);
    CountOfSamplePage(1, 0);
    ZeroSizeNeverEnds(page, 1, BLOCK_PAGE_HEADER_SIZE, 0, page[CHECKSUM_SIZE..BLOCK_PAGE_HEADER_SIZE], fuel);
  }

  lemma ZeroSizePageIsCorrupt(checksum: ChecksumFn)
    ensures VerdictOf(SamplePage(1, 0), 0, checksum) == CorruptDataPage
  {
    CountOfSamplePage(1, 0);
  }

  /** A page whose one record has size Integer.MIN_VALUE: the loop as written throws. */
  lemma MinSizePageThrows(checksum: ChecksumFn, fuel: nat)
    requires fuel > 0
    ensures VerifyAsWritten(SamplePage(1, INT32_MIN), 0, checksum, fuel) == Throws
  {
    var page := SamplePage(1, INT32_MIN);
    CountOfSamplePage(1, INT32_MIN);
    MinSizeThrows(page, 1, BLOCK_PAGE_HEADER_SIZE, 0, page[CHECKSUM_SIZE..BLOCK_PAGE_HEADER_SIZE], fuel);
  }

  lemma MinSizePageIsCorrupt(checksum: ChecksumFn)
    ensures VerdictOf(SamplePage(1, INT32_MIN), 0, checksum) == CorruptDataPage
  {
    CountOfSamplePage(1, INT32_MIN);
  }

  /**
   * A page whose count is 2 but whose one record fills it to the end: the loop as
   * written reads the next size field past the end of the buffer and throws.
   */
  lemma ShortPageThrows(checksum: ChecksumFn, fuel: nat)
    requires fuel > 1
    ensures VerifyAsWritten(SamplePage(2, 12), 0, checksum, fuel) == Throws
  {
    var page := SamplePage(2, 12);
    CountOfSamplePage(2, 12);
    var fed := page[CHECKSUM_SIZE..BLOCK_PAGE_HEADER_SIZE];
    assert RunAsWritten(page, 2, 24, 1, fed + page[12..24], fuel - 1) == Threw;
  }

  lemma ShortPageIsCorrupt(checksum: ChecksumFn)
    ensures VerdictOf(SamplePage(2, 12), 0, checksum) == CorruptDataPage
  {
    CountOfSamplePage(2, 12);
  }
}
