# Sheaf block pages and the dirty page set, in Dafny

Sheaf is a page cache over a file, and Pack stores blocks of user data on it. This
project models three parts of it.

- **A block page** (`BlockPage`). A page of bytes holds:
  - an 8-byte checksum;
  - a 4-byte count of live blocks;
  - a run of records. Each record has a 4-byte signed size, an 8-byte address and a payload.
  A positive size marks a live block and a negative size a freed one; either way the
  record spans `|size|` bytes. The page operations scan this layout with the cursor
  (`position()`) of the page's `ByteBuffer`. Three of them change the page:
  - `create` writes a new header;
  - `write` copies user bytes into a record;
  - `checksum` stores the checksum of the live bytes.
  The other operations read the page:
  - `load` recounts the space in use;
  - `seek`, `getBlockSize`, `getAddresses` and `read` find records by address;
  - `verifyChecksum` and `verifyAddresses` check a page during recovery and report what
    they find to a `Recovery` sink.
- **The dirty page set** (`DirtyPageSet`). It holds every page with unflushed changes in
  two maps keyed by page position. It writes them all out when it grows past its capacity
  or when it is flushed, and it can also be cleared.
- **A header** (`Header.get`). It hands out a region of a shared buffer: the slice
  `[offset, offset + length)` named by a fixed table of keys, with the shared buffer's
  position and limit put back afterwards.

The model is imperative where the code is. `BlockPage`, `RawPage`, `DirtyPageSet`,
`Header`, `Recovery` and java.nio's `ByteBuffer` are classes whose methods update their
fields and arrays in place.

Each scan is proved against pure functions of the page bytes, in module `PageFormat`:
- `Records` decodes the page into the records up to the `count`-th live one;
- `Find` is the first record carrying an address;
- `LiveAddresses` lists the addresses of the live records;
- `LiveScan` and `ChecksumInput` give the bytes fed to the checksum;
- `VerdictOf` is the result of the recovery check.

A block page's invariant (`BlockPage.Valid`) is that `Records` succeeds on its bytes. That
means the records tile the page from byte 12 without gaps, every `|size|` is at least the
12-byte record header and stays inside the page, and exactly `count` of the records
passed are live.

`write` and `read` are specified by `WriteEffect` and `ReadEffect` in module
`BlockEffects`. Each states the outcome, including the exception raised, together with the
page bytes, the cursor and the limit afterwards.

Modules:
- `Results`: `Option` and `Result`.
- `Bytes`: big-endian ints and longs, and overwriting bytes.
- `Buffers`: the position, limit, slice and put rules of java.nio's `ByteBuffer`.
- `PageFormat`: the page layout and its scans.
- `BlockEffects`: what `write` and `read` do.
- `Recoveries`: the `Recovery` sink and what the pager tells `verifyAddresses`.
- `BlockPages`: the `BlockPage` class and its loops.
- `ChecksumScan` and `AddressScan`: the two recovery loops as written, for the findings below.
- `Sheaf`: `RawPage` and `DirtyPageSet`.
- `Headers`: `Header`.

## Model

| member | source | states |
|---|---|---|
| BlockPages.BlockPage.Create | src/main/java/com/goodworkalan/pack/BlockPage.java:84-100 | count is 0 and remaining is the page size less 12; the page starts with checksum 0L, then the disk count, and its other bytes are unchanged; bytes [0, 12) are invalidated; the page is added to the dirty set under its position; the result is a valid block page |
| BlockPages.BlockPage.Load | src/main/java/com/goodworkalan/pack/BlockPage.java:118-129 | count is getDiskCount of the stored count field; remaining is the page size less ConsumedBytes, which is 12 plus the positive sizes among the first `count` records |
| BlockPages.BlockPage.Consumed | src/main/java/com/goodworkalan/pack/BlockPage.java:102-116 | returns 12 plus the positive sizes among the first `count` records; that is between 12 and the page size; the limit and the invalidated ranges are unchanged |
| PageFormat.ConsumedFits | src/main/java/com/goodworkalan/pack/BlockPage.java:102-116 | on a page that decodes, the first `count` records exist, the first starts at byte 12, and the bytes they consume lie between 12 and the page size |
| BlockPages.BlockPage.BlockSize | src/main/java/com/goodworkalan/pack/BlockPage.java:155-161 | at a record, returns its signed size; on a valid page that size is nonzero and its magnitude is at most the bytes from the cursor to the end, which are the two asserts the source makes |
| BlockPages.BlockPage.AddressAt | src/main/java/com/goodworkalan/pack/BlockPage.java:163-166 | at a record, returns the address stored 4 bytes past the cursor |
| BlockPages.BlockPage.Advance | src/main/java/com/goodworkalan/pack/BlockPage.java:168-171 | moves the cursor by the magnitude of the size, onto the next record, and does not leave the page |
| BlockPages.BlockPage.Seek | src/main/java/com/goodworkalan/pack/BlockPage.java:207-225 | returns true exactly when Find finds a record carrying the address; the cursor is then at that record's start (freed or live), and otherwise it is just past the records passed |
| BlockPages.BlockPage.SeekStep | src/main/java/com/goodworkalan/pack/BlockPage.java:211-223 | one turn of the seek loop: only a positive size counts toward the live tally; on a match the cursor stays at the record, and otherwise it moves to the next |
| PageFormat.Find | src/main/java/com/goodworkalan/pack/BlockPage.java:207-225 | the index of the first record carrying the address; None exactly when no record carries it |
| PageFormat.FindFirst | src/main/java/com/goodworkalan/pack/BlockPage.java:207-225 | if record i carries the address and no earlier record does, Find returns i |
| PageFormat.RecordsTile | src/main/java/com/goodworkalan/pack/BlockPage.java:155-171 | the decoded records are stored where they are read, tile the page from byte 12 without gaps, stay inside it, and number exactly `count` live ones |
| PageFormat.RecordsEndLive | src/main/java/com/goodworkalan/pack/BlockPage.java:211-224 | the scan of a page with a positive count ends on a live record, so every loop bounded by the live tally meets a live record before it stops |
| BlockPages.BlockPage.SeekHeader | src/main/java/com/goodworkalan/pack/BlockPage.java:271-275 | the seek and then the header reads of write and read: when found, the offset, size and stored address are those of Find's record, and the stored address equals the one sought |
| BlockPages.BlockPage.GetBlockSize | src/main/java/com/goodworkalan/pack/BlockPage.java:232-243 | returns the signed size of the record seek finds, or IllegalArgumentException when no record carries the address |
| BlockPages.BlockPage.GetAddresses | src/main/java/com/goodworkalan/pack/BlockPage.java:245-264 | returns LiveAddresses: the address fields of the positive-size records, in page order; the list has `count` entries |
| BlockPages.BlockPage.CollectAddress | src/main/java/com/goodworkalan/pack/BlockPage.java:252-261 | one turn of the getAddresses loop: a live record appends its address and counts one block, and a freed one adds nothing |
| PageFormat.LiveAddressesExact | src/main/java/com/goodworkalan/pack/BlockPage.java:245-264 | an address is in LiveAddresses exactly when some live record carries it |
| BlockPages.BlockPage.Write | src/main/java/com/goodworkalan/pack/BlockPage.java:266-288 | follows WriteEffect: false with no change when the address is absent; otherwise the remaining data is put at offset+12 within [offset+12, offset+size), the range is invalidated, the page is added to the dirty set and the limit restored, or the java.nio exception is raised; the record chain, count and remaining are kept |
| BlockPages.BlockPage.WriteAt | src/main/java/com/goodworkalan/pack/BlockPage.java:273-284 | the write at a found record: limit(offset + size), which IllegalArgumentException refuses outside the page, then the put |
| BlockPages.BlockPage.Put | src/main/java/com/goodworkalan/pack/BlockPage.java:279-284 | invalidates [cursor, end), then copies the data's remaining bytes at the cursor and restores the limit, or raises BufferOverflowException and copies nothing when they do not fit |
| BlockEffects.PutEffect | src/main/java/com/goodworkalan/pack/BlockPage.java:279-284 | the put succeeds exactly when the source fits in [from, end); then the page holds the source at `from` and every other byte is unchanged |
| BlockEffects.WriteMissesExactly | src/main/java/com/goodworkalan/pack/BlockPage.java:266-288 | write returns false exactly when no record carries the address, and then changes no byte |
| BlockEffects.WriteKeepsRecords | src/main/java/com/goodworkalan/pack/BlockPage.java:266-288 | no write changes a size or address field: the page decodes to the same records afterwards |
| PageFormat.OverwritePayloadKeepsRecords | src/main/java/com/goodworkalan/pack/BlockPage.java:279-281 | bytes written inside a live record's payload leave the decoded records unchanged |
| BlockPages.BlockPage.Read | src/main/java/com/goodworkalan/pack/BlockPage.java:290-314 | follows ReadEffect: null when the address is absent; otherwise the bytes from the cursor to the record's end are put into dst, or into a new buffer of size less 12 when dst is null, and that buffer is returned; the page bytes and ranges are unchanged, and on an exception dst is unchanged |
| BlockPages.BlockPage.ReadAt | src/main/java/com/goodworkalan/pack/BlockPage.java:297-310 | the read at a found record: allocation of the fresh buffer, which IllegalArgumentException refuses for a freed record's negative size, then the transfer |
| BlockPages.BlockPage.Transfer | src/main/java/com/goodworkalan/pack/BlockPage.java:301-310 | limit(offset + size), then the record's bytes are put into the buffer at its position, or BufferOverflowException with the buffer unchanged |
| BlockEffects.ReadFreshRoom | src/main/java/com/goodworkalan/pack/BlockPage.java:297-300 | reading into a fresh buffer is reading into one with room for exactly size less 12 bytes |
| BlockEffects.ReadIntoFreshBuffer | src/main/java/com/goodworkalan/pack/BlockPage.java:290-314 | reading a live record into a fresh buffer yields exactly its payload [offset+12, offset+size); reading a freed one raises IllegalArgumentException |
| BlockEffects.WriteThenRead | src/main/java/com/goodworkalan/pack/BlockPage.java:266-314 | writing a live record's whole payload and then reading it back returns exactly the bytes written |
| PageFormat.WriteThenReadPayload | src/main/java/com/goodworkalan/pack/BlockPage.java:279-308 | the payload of a record overwritten with bytes of its payload's length is those bytes |
| BlockEffects.PulledBack | src/main/java/com/goodworkalan/pack/BlockPage.java:279 | limit(end) leaves the cursor just after the record header, or at `end` when that comes first |
| BlockPages.BlockPage.GetChecksum | src/main/java/com/goodworkalan/pack/BlockPage.java:317-349 | returns the checksum of ChecksumInput: the 4 count bytes, then every byte of each live record in page order, with freed records skipped; the page bytes are unchanged, so two calls give the same value |
| BlockPages.BlockPage.ChecksumStep | src/main/java/com/goodworkalan/pack/BlockPage.java:331-346 | one turn of the getChecksum loop: a live record feeds all its bytes and counts one block, and a freed one is skipped |
| BlockPages.BlockPage.FeedRecord | src/main/java/com/goodworkalan/pack/BlockPage.java:333-345 | feeds a live record's `size` bytes or skips a freed record's `-size` bytes, leaving the cursor at the next record |
| BlockPages.Feed | src/main/java/com/goodworkalan/pack/BlockPage.java:336-339 | feeds the next n bytes from the cursor, one get() at a time, and moves the cursor past them |
| BlockPages.BlockPage.Checksum | src/main/java/com/goodworkalan/pack/BlockPage.java:148-153 | stores the checksum of the live bytes, as a big-endian long, in bytes [0, 8), invalidates them, and leaves every other byte and the records unchanged |
| PageFormat.ChecksumFieldKeeps | src/main/java/com/goodworkalan/pack/BlockPage.java:148-153 | storing the checksum field changes neither the records, nor the count bytes, nor the live bytes the checksum covers |
| PageFormat.ChecksummedPageVerifies | src/main/java/com/goodworkalan/pack/BlockPage.java:148-153 | a page whose checksum was stored by `checksum` passes verifyChecksum's check |
| BlockPages.NewHeaderReadsBack | src/main/java/com/goodworkalan/pack/BlockPage.java:96-97 | after putLong(0L) and putInt(count), the page reads back checksum 0 and that count |
| BlockPages.BlockPage.VerifyChecksum | src/main/java/com/goodworkalan/pack/BlockPage.java:351-405 | returns true exactly when VerdictOf is Verified; on CorruptDataPage it reports corruptDataPage(position) and on BadUserChecksum it reports badUserChecksum(position), once; it never throws |
| BlockPages.VerifyStep | src/main/java/com/goodworkalan/pack/BlockPage.java:371-393 | one turn of the verifyChecksum loop: a corrupt page is reported exactly when the scan from here fails; otherwise the cursor moves forward and the bytes fed, followed by the rest of the scan, are unchanged |
| BlockPages.FeedLive | src/main/java/com/goodworkalan/pack/BlockPage.java:381-388 | feeds a live record's bytes and keeps the loop's scan equation |
| BlockPages.SkipFreed | src/main/java/com/goodworkalan/pack/BlockPage.java:389-392 | skips a freed record and keeps the loop's scan equation |
| PageFormat.StripMask | src/main/java/com/goodworkalan/pack/BlockPage.java:364-368 | the count has no COUNT_MASK bit left; it is unchanged when it had none, and otherwise has exactly those bits cleared |
| PageFormat.ClearedBitsGone | src/main/java/com/goodworkalan/pack/BlockPage.java:367 | `count & ~mask` shares no bit with the mask |
| PageFormat.LiveScanLive | src/main/java/com/goodworkalan/pack/BlockPage.java:381-388 | scanning a live record feeds its bytes and counts one block |
| PageFormat.LiveScanFreed | src/main/java/com/goodworkalan/pack/BlockPage.java:389-392 | scanning a freed record feeds nothing |
| PageFormat.RecordsScan | src/main/java/com/goodworkalan/pack/BlockPage.java:317-349 | on a page that decodes, the scan succeeds and feeds exactly the live bytes of its records |
| Recoveries.VerdictReports | src/main/java/com/goodworkalan/pack/BlockPage.java:375-404 | nothing is reported exactly when the page verifies; a corrupt page reports corruptDataPage and a checksum mismatch reports badUserChecksum, once each |
| Recoveries.Recovery.CorruptDataPage | src/main/java/com/goodworkalan/pack/BlockPage.java:377 | appends the report for a corrupt page at the position |
| Recoveries.Recovery.BadUserChecksum | src/main/java/com/goodworkalan/pack/BlockPage.java:400 | appends the report for a checksum mismatch at the position |
| Recoveries.Recovery.BadUserAddress | src/main/java/com/goodworkalan/pack/BlockPage.java:423-429 | appends the report for a bad address on the page at the position |
| BlockPages.BlockPage.VerifyAddresses | src/main/java/com/goodworkalan/pack/BlockPage.java:407-439 | reports, for each live address in page order, one badUserAddress when it is outside the user range and one more when its address page does not lead back here; returns true exactly when nothing was reported |
| BlockPages.BlockPage.VerifyAddressStep | src/main/java/com/goodworkalan/pack/BlockPage.java:413-437 | one turn of the corrected loop: a live record's address is checked and the cursor moves to the next record, and a freed one is skipped |
| BlockPages.CheckAddress | src/main/java/com/goodworkalan/pack/BlockPage.java:419-431 | the range check and then the dereference check of one address, each reporting once when it fails; returns whether both passed |
| Recoveries.AddressReport | src/main/java/com/goodworkalan/pack/BlockPage.java:420-431 | one address reports nothing exactly when it lies in [first address page start + header size, user boundary) and dereferences to this page, and each report names this page and that address |
| Recoveries.AddressReportsEmpty | src/main/java/com/goodworkalan/pack/BlockPage.java:407-439 | the check reports nothing, so `copacetic` stays true, exactly when every live address is in range and leads back to the page |
| Recoveries.AddressReportsName | src/main/java/com/goodworkalan/pack/BlockPage.java:423-429 | every report names this page and one of the addresses checked |
| Sheaf.RawPage.Invalidate | src/main/java/com/goodworkalan/pack/BlockPage.java:95 | records the range passed to invalidate and moves neither the cursor nor the limit |
| Sheaf.DirtyPageSet.Add | src/main/java/com/goodworkalan/sheaf/DirtyPageSet.java:46-50 | both maps now hold the page under its position, the newer page replacing any older one; the size grows only for a new position; both maps keep the same keys, and nothing is written |
| Sheaf.DirtyPageSet.FlushIfAtCapacity | src/main/java/com/goodworkalan/sheaf/DirtyPageSet.java:55-61 | flushes only when more than `capacity` pages are held, and then promises what Flush does: every held page written once with its bytes and both maps emptied, or SheafException(101) with the pages before the failing one written and both maps kept; otherwise nothing changes and nothing is written |
| Sheaf.DirtyPageSet.Flush | src/main/java/com/goodworkalan/sheaf/DirtyPageSet.java:68-87 | writes every held page exactly once, with its bytes, and then empties both maps; when a page's write fails, the pages before it are written, the outcome is SheafException(101), and both maps keep their entries |
| Sheaf.DirtyPageSet.Clear | src/main/java/com/goodworkalan/sheaf/DirtyPageSet.java:93-97 | empties both maps and writes nothing |
| Headers.Header.GetAsWritten | src/main/java/com/goodworkalan/sheaf/Header.java:18-44 | get in the source's own step order: NullPointerException for an absent key; for a present key the lock is taken and released, and each refused position or limit leaves the shared buffer where it was refused; otherwise the region and the restored position and limit |
| Headers.Header.SliceAsWritten | src/main/java/com/goodworkalan/sheaf/Header.java:27-36 | the buffer steps of get as written: position, limit, slice, then position and limit restored; the ensures say where each refusal leaves the buffer |
| Headers.Header.Get | src/main/java/com/goodworkalan/sheaf/Header.java:18-44 | get with only the restore order corrected: the shared buffer's position and limit are the same afterwards; an absent key fails with NullPointerException and takes no lock; a present key takes and releases the lock; the region is returned exactly when get as written accepts both narrowing steps (0 <= off <= the limit, 0 <= off+len <= the capacity), and otherwise IllegalArgumentException; the region's buffer is the same slice as get as written returns, which is exactly bytes [off, off+len) when len >= 0, and its position is the buffer's position plus off |
| Headers.Header.SliceRestoring | src/main/java/com/goodworkalan/sheaf/Header.java:27-36 | position, then limit, as the source narrows, then slice, with the saved limit and then the saved position restored whatever happened; null exactly when a narrowing step is refused, and otherwise the slice shares the bytes from the pulled-back position to off+len |
| Headers.RestoreOrderExample | src/main/java/com/goodworkalan/sheaf/Header.java:35-36 | for a buffer at position 50 and a region [0, 10), get as written leaves the buffer at position 0 and limit 10, while the corrected get leaves position 50 and limit 100 |
| ChecksumScan.AsWrittenAgrees | src/main/java/com/goodworkalan/pack/BlockPage.java:351-405 | whenever the loop as written returns, it returns the corrected verdict; it throws only on pages the corrected check finds corrupt; and on every other page it returns within |s| steps |
| ChecksumScan.ZeroSizePageHangs | src/main/java/com/goodworkalan/pack/BlockPage.java:371-393 | a page whose one record has size 0 never leaves the loop as written |
| ChecksumScan.ZeroSizePageIsCorrupt | src/main/java/com/goodworkalan/pack/BlockPage.java:371-393 | the corrected check reports that page as corrupt |
| ChecksumScan.MinSizePageThrows | src/main/java/com/goodworkalan/pack/BlockPage.java:373-391 | a record of size Integer.MIN_VALUE passes the bounds test and the loop as written throws |
| ChecksumScan.MinSizePageIsCorrupt | src/main/java/com/goodworkalan/pack/BlockPage.java:373-391 | the corrected check reports that page as corrupt |
| ChecksumScan.ShortPageThrows | src/main/java/com/goodworkalan/pack/BlockPage.java:371-373 | a count that overruns the records makes the loop as written read past the page and throw |
| ChecksumScan.ShortPageIsCorrupt | src/main/java/com/goodworkalan/pack/BlockPage.java:371-373 | the corrected check reports that page as corrupt |
| AddressScan.StuckOnLive | src/main/java/com/goodworkalan/pack/BlockPage.java:413-437 | at a live record the loop as written never moves on: it checks that record's address once for each remaining block |
| AddressScan.TwoLivePageDecodes | src/main/java/com/goodworkalan/pack/BlockPage.java:413-437 | a page of two live records with addresses a1 and a2 decodes to those two records |
| AddressScan.TwoLiveAddresses | src/main/java/com/goodworkalan/pack/BlockPage.java:413-437 | the live addresses of that page are [a1, a2] |
| AddressScan.TwoLivePageChecksFirstTwice | src/main/java/com/goodworkalan/pack/BlockPage.java:413-437 | verifyAddresses as written checks a1 twice and never checks a2 |

## Left out

- `synchronized`, the page `Lock` and the mirror/vacuum protocol are concurrency and are not modelled. `Header`'s lock is a flag plus a ghost log of lock and unlock events.
- Soft references and garbage-collection retention are not modelled.
- Disk writes in `flush` are a ghost log of (position, bytes) writes. The pages whose write fails with an I/O error are a parameter (`failing`). `HashMap` iteration order is left open: the pages are written in some order that the contract does not fix.
- The `java.util.zip.Checksum` algorithm is a function parameter (`ChecksumFn`) applied to the sequence of bytes fed to it.
- `Pack` is not part of this model. Its constants are 12 (`BLOCK_PAGE_HEADER_SIZE`, `BLOCK_HEADER_SIZE`), 8 (`CHECKSUM_SIZE`) and 4 (`COUNT_SIZE`). `COUNT_MASK` is the `mask` parameter of `VerifyChecksum`. `ADDRESS_PAGE_HEADER_SIZE` is a field of `PagerView`.
- `Pager` and `AddressPage` are not part of this model. `verifyAddresses` sees them through `PagerView`: the first address page start, the user boundary and a function from an address to the position it dereferences to.
- The abstract `getDiskCount()` and `getDiskCount(int)` are parameters of `Create` and `Load`.
- `RelocatablePage` is not part of this model, and neither are `unmoved()` and `contains`, which depend on it.
- `getCount` and `getRemaining` return the `count` and `remaining` fields, which are fields of the model.
- `getBlockRange` is folded into the scans, which start at byte 12.
- `BasicWritable`, `BasicRegion`, `SubDirtyable` and `DirtyByteMap` behind `Header` are not modelled. A region is its position and its sliced buffer.
- `invalidate` is only recorded, as a ghost list of ranges on `RawPage`.
- BlockPages.BlockPage.Load: requires a page that decodes, with its records tiling the page up to the `count`-th live one. On another page the source's scan trips its asserts or throws, and that is not modelled.
- BlockPages.BlockPage.Seek, GetBlockSize, GetAddresses, Write, Read, VerifyAddresses: each requires that the page buffer's limit equals its capacity on entry. The calls that return normally leave it so: `create`, `load`, `checksum`, and `write` and `read` when they return. `getChecksum` calls `clear()` itself and needs nothing.
- BlockPages.BlockPage.Write, Read: when the `put` raises BufferOverflowException, the limit stays at the record's end, because the reset at BlockPage.java:282 and :309 is not in a `finally`. `WriteEffect` and `ReadEffect` state that limit. Calls on the same page after such an exception, which would read past the narrowed limit and throw until the next `clear()`, are not modelled.
- Headers.Header.Get, GetAsWritten: the region's position is the shared buffer's saved position plus the offset, as at Header.java:27 and :38. That local `position` shadows the header's own file position (the constructor's `position`, kept as a field), which `get` never reads.
- BlockPages.BlockPage.Read: requires that `dst` does not share the page's backing array. A `dst` that aliases the page's bytes in any way is not modelled: java.nio refuses only `dst` being the page buffer itself, and accepts a distinct view over the same array, whose overlapping copy the model does not describe.
- BlockPages.BlockPage.Read: the fresh buffer for a null `dst` is sized from the size field that `seek` has just read. The source calls `getBlockSize(address)` again, which seeks to the same record and returns the same size.
- BlockPages.BlockPage.Write, Read: the `Danger(ERROR_BLOCK_PAGE_CORRUPT)` and `IllegalStateException` branches (a stored address differing from the one sought) are shown unreachable, since `seek` stopped at that address. They are not modelled as outcomes.
- ChecksumScan.AsWrittenAgrees: holds for page sizes up to 2^31 - 1, the range of a Java int.
- Recoveries.InUserRange: compares with unbounded integers. The source's `long` sum `getFirstAddressPageStart() + ADDRESS_PAGE_HEADER_SIZE` could overflow only for a start within 2^63 of the top of the range, and that is not modelled.
- BlockPages.BlockPage.VerifyChecksum: requires the page buffer's limit to equal its capacity. The source uses the buffer as it finds it.

## Findings

| source | as written | input that shows it | evidently intended | confidence | as-written member | corrected member |
|---|---|---|---|---|---|---|
| src/main/java/com/goodworkalan/pack/BlockPage.java:371-393 | a record whose size field is 0 passes the bounds test and takes the freed branch, which advances by 0, so `verifyChecksum` loops forever | a 24-byte page with count 1 and one record of size 0 | report `corruptDataPage` and return false | not executed | ChecksumScan.ZeroSizePageHangs | ChecksumScan.ZeroSizePageIsCorrupt |
| src/main/java/com/goodworkalan/pack/BlockPage.java:375-391 | `Math.abs(Integer.MIN_VALUE)` is negative, so the bounds test passes and `advance` sets a negative position, which throws IllegalArgumentException | a 24-byte page with count 1 and one record of size Integer.MIN_VALUE | report `corruptDataPage` and return false | not executed | ChecksumScan.MinSizePageThrows | ChecksumScan.MinSizePageIsCorrupt |
| src/main/java/com/goodworkalan/pack/BlockPage.java:371-373 | when the count promises more live records than the page holds, `getInt(position())` reads past the end and throws IndexOutOfBoundsException | a 24-byte page with count 2 and one record of size 12 | report `corruptDataPage` and return false | not executed | ChecksumScan.ShortPageThrows | BlockPages.BlockPage.VerifyChecksum |
| src/main/java/com/goodworkalan/pack/BlockPage.java:416-436 | the live branch never advances the cursor, so `verifyAddresses` checks the first live address `count` times and no other | a 36-byte page with count 2 and two live records of size 12 carrying a1 and a2 | check each live address once, in page order | not executed | AddressScan.TwoLivePageChecksFirstTwice | BlockPages.BlockPage.VerifyAddresses |
| src/main/java/com/goodworkalan/sheaf/Header.java:35-36 | the saved position is restored before the saved limit; while the limit is still the slice's end, a saved position beyond that end is refused and the shared buffer keeps the slice's bounds | a 100-byte buffer at position 50 and a key whose region is [0, 10) | the parent's position and limit restored, as the method intends | not executed | Headers.RestoreOrderExample | Headers.Header.Get |
