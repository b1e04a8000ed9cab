/**
 * Raw pages and the dirty page set: the write-back cache that holds every page
 * with unflushed writes, keyed by page position, until it is flushed or cleared.
 */
module Sheaf {
  import opened Bytes

  /**
   * A page of the file: its position and its byte buffer (one page long), whose
   * cursor (`ByteBuffer.position()`) and `limit` the page operations move.
   */
  class RawPage {
    const position: int
    const bytes: array<byte>
    var cursor: int
    var limit: int
    /** Every range passed to `invalidate(start, length)`, oldest first. */
    ghost var invalidated: seq<(int, int)>

    constructor (position: int, bytes: array<byte>)
      ensures this.position == position && this.bytes == bytes && invalidated == []
      ensures cursor == 0 && limit == bytes.Length
    {
      this.position := position;
      this.bytes := bytes;
      cursor := 0;
      limit := bytes.Length;
      invalidated := [];
    }

    /** Marks `length` bytes from `start` as modified. */
    method Invalidate(start: int, length: int)
      modifies this
      ensures invalidated == old(invalidated) + [(start, length)]
      ensures cursor == old(cursor) && limit == old(limit)
    {
      invalidated := invalidated + [(start, length)];
    }
  }

  /** One page written to disk by `flush`: its position and its bytes at that moment. */
  datatype PageWrite = PageWrite(position: int, bytes: seq<byte>)

  /** `flush` either completes or throws SheafException with code 101 (an I/O failure). */
  datatype FlushOutcome = Done | SheafError(code: int)

  const FLUSH_IO_ERROR: int := 101

  /** The positions listed in `order`. */
  ghost function Elements(order: seq<int>): set<int>
  {
    set i | 0 <= i < |order| :: order[i]
  }

  lemma ElementsAppend(order: seq<int>, p: int)
    ensures Elements(order + [p]) == Elements(order) + {p}
  {
    var longer := order + [p];
    assert forall i :: 0 <= i < |order| ==> longer[i] == order[i];
    assert longer[|order|] == p;
  }

  lemma NonEmptyHasElement(s: set<int>)
    requires s != {}
    ensures exists q :: q in s
  {
    if forall q :: q !in s {
      assert false;
    }
  }

  class DirtyPageSet {
    var rawPages: map<int, RawPage>
    var byteBuffers: map<int, array<byte>>
    /** The number of pages above which `flushIfAtCapacity` flushes. */
    const capacity: int
    /** The disk: every page write, oldest first. */
    ghost var written: seq<PageWrite>

    /** Both maps have the same keys, and each key is the position of the page it holds. */
    ghost predicate Valid()
      reads this
    {
      && rawPages.Keys == byteBuffers.Keys
      && (forall p :: p in rawPages ==> rawPages[p].position == p && byteBuffers[p] == rawPages[p].bytes)
    }

    constructor (capacity: int)
      ensures Valid() && this.capacity == capacity
      ensures rawPages == map[] && byteBuffers == map[] && written == []
    {
      rawPages := map[];
      byteBuffers := map[];
      this.capacity := capacity;
      written := [];
    }

    /**
     * Holds `page` and its buffer under the page's position. A page already held at
     * that position is replaced, so there is still one entry per position.
     */
    method Add(page: RawPage)
      requires Valid()
      modifies this
      ensures Valid() && written == old(written)
      ensures rawPages == old(rawPages)[page.position := page]
      ensures byteBuffers == old(byteBuffers)[page.position := page.bytes]
      ensures |rawPages| == if page.position in old(rawPages) then |old(rawPages)| else |old(rawPages)| + 1
    {
      rawPages := rawPages[page.position := page];
      byteBuffers := byteBuffers[page.position := page.bytes];
      if page.position in old(rawPages) {
        assert rawPages.Keys == old(rawPages).Keys;
      } else {
        assert rawPages.Keys == old(rawPages).Keys + {page.position};
      }
    }

    /** Flushes only when more than `capacity` pages are held; otherwise nothing changes. */
    method FlushIfAtCapacity(failing: set<int>) returns (outcome: FlushOutcome, ghost order: seq<int>)
      requires Valid()
      modifies this
      ensures Valid()
      ensures |old(rawPages)| <= capacity ==> outcome == Done && order == [] && unchanged(this)
      ensures |old(rawPages)| <= capacity ==> written == old(written)
      // above capacity: exactly what `flush` promises
      ensures |old(rawPages)| > capacity ==> (outcome == Done <==> old(rawPages).Keys !! failing)
      ensures |old(rawPages)| > capacity && outcome == Done ==> rawPages == map[] && byteBuffers == map[]
      ensures outcome != Done ==>
        outcome == SheafError(FLUSH_IO_ERROR) && rawPages == old(rawPages) && byteBuffers == old(byteBuffers)
      ensures forall i, j :: 0 <= i < j < |order| ==> order[i] != order[j]
      ensures Elements(order) <= old(rawPages).Keys && Elements(order) !! failing
      ensures |old(rawPages)| > capacity && outcome == Done ==> Elements(order) == old(rawPages).Keys
      ensures |written| == |old(written)| + |order| && written[..|old(written)|] == old(written)
      ensures forall i :: 0 <= i < |order| ==>
        written[|old(written)| + i] == PageWrite(order[i], old(rawPages)[order[i]].bytes[..])
    {
      if |rawPages| > capacity {
        outcome, order := Flush(failing);
      } else {
        outcome, order := Done, [];
      }
    }

    /**
     * Writes every held page to disk, each exactly once (in `order`, an order the model
     * leaves open as a HashMap does), and then empties both maps. `failing` is the set of
     * positions whose write raises an I/O error: the first such page met ends the flush
     * with SheafError(101), after the pages before it were written and before either map
     * is cleared.
     */
    method Flush(failing: set<int>) returns (outcome: FlushOutcome, ghost order: seq<int>)
      requires Valid()
      modifies this
      ensures Valid()
      ensures outcome == Done <==> old(rawPages).Keys !! failing
      ensures outcome == Done ==> rawPages == map[] && byteBuffers == map[]
      ensures outcome != Done ==>
        outcome == SheafError(FLUSH_IO_ERROR) && rawPages == old(rawPages) && byteBuffers == old(byteBuffers)
      ensures forall i, j :: 0 <= i < j < |order| ==> order[i] != order[j]
      ensures Elements(order) <= old(rawPages).Keys && Elements(order) !! failing
      ensures outcome == Done ==> Elements(order) == old(rawPages).Keys
      ensures |written| == |old(written)| + |order| && written[..|old(written)|] == old(written)
      ensures forall i :: 0 <= i < |order| ==>
        written[|old(written)| + i] == PageWrite(order[i], old(rawPages)[order[i]].bytes[..])
    {
      var pending := rawPages.Keys;
      order := [];
      while pending != {}
        invariant rawPages == old(rawPages) && byteBuffers == old(byteBuffers)
        invariant pending <= rawPages.Keys
        invariant forall i, j :: 0 <= i < |order| && 0 <= j < |order| && i != j ==> order[i] != order[j]
        invariant Elements(order) + pending == rawPages.Keys && Elements(order) !! pending
        invariant Elements(order) !! failing
        invariant |written| == |old(written)| + |order| && written[..|old(written)|] == old(written)
        invariant forall i :: 0 <= i < |order| ==>
          written[|old(written)| + i] == PageWrite(order[i], rawPages[order[i]].bytes[..])
        decreases pending
      {
        NonEmptyHasElement(pending);
        var p :| p in pending;
        if p in failing {
          return SheafError(FLUSH_IO_ERROR), order;
        }
        written := written + [PageWrite(p, rawPages[p].bytes[..])];
        ElementsAppend(order, p);
        order := order + [p];
        pending := pending - {p};
      }
      rawPages := map[];
      byteBuffers := map[];
      outcome := Done;
    }

    /** Drops every entry without writing anything. */
    method Clear()
      requires Valid()
      modifies this
      ensures Valid() && rawPages == map[] && byteBuffers == map[] && written == old(written)
    {
      rawPages := map[];
      byteBuffers := map[];
    }
  }
}
