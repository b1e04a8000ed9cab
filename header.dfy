/**
 * A header: a fixed table from keys to (offset, length) pairs over one shared
 * byte buffer. `get(key)` hands out a region: a slice of the shared buffer
 * covering that key's bytes, taken under the header's lock.
 */
module Headers {
  import opened Results
  import opened Bytes
  import opened Buffers

  /** The (offset, length) pair the offsets table holds for a key. */
  datatype Extent = Extent(offset: int, length: int)

  datatype LockEvent = Lock | Unlock

  /** A region: its position and a buffer that shares the header's bytes. */
  datatype Region = Region(position: int, buffer: ByteBuffer)

  /** NullPointer: the key is not in the table. IllegalArgument: a position or limit was refused. */
  datatype HeaderError = NullPointer | IllegalArgument

  /** The first index of the region for extent `e` when the slice is taken as written. */
  function SliceStart(e: Extent): int
  {
    if e.length < 0 then e.offset + e.length else e.offset
  }

  class Header<K(==)> {
    /** The position the header was constructed with. */
    const position: int
    /** Fixed at construction: no entry is ever added, removed or changed. */
    const offsets: map<K, Extent>
    const buffer: ByteBuffer
    /** The shared lock, held only inside `get`. */
    var locked: bool
    ghost var lockEvents: seq<LockEvent>

    ghost predicate Valid()
      reads this, buffer
    {
      buffer.Valid() && !locked
    }

    constructor (position: int, offsets: map<K, Extent>, buffer: ByteBuffer)
      requires buffer.Valid()
      ensures Valid()
      ensures this.position == position && this.offsets == offsets && this.buffer == buffer
      ensures lockEvents == []
    {
      this.position := position;
      this.offsets := offsets;
      this.buffer := buffer;
      locked := false;
      lockEvents := [];
    }

    /**
     * `get(key)` exactly as written: set the position to the offset, then the limit to
     * offset + length, slice, then restore the position and then the limit. Every call
     * that finds its key takes and releases the lock; the ensures list, case by case,
     * where a refused position or limit leaves the shared buffer.
     */
    method GetAsWritten(key: K) returns (r: Result<Region, HeaderError>)
      requires Valid()
      modifies this, buffer
      ensures Valid()
      ensures key !in offsets ==> r == Err(NullPointer) && lockEvents == old(lockEvents)
      ensures key !in offsets ==> buffer.position == old(buffer.position) && buffer.limit == old(buffer.limit)
      ensures key in offsets ==> lockEvents == old(lockEvents) + [Lock, Unlock]
      // position(offset) refused: nothing has moved yet
      ensures key in offsets && !(0 <= offsets[key].offset <= old(buffer.limit)) ==>
        r == Err(IllegalArgument) && buffer.position == old(buffer.position) && buffer.limit == old(buffer.limit)
      // limit(offset + length) refused: the position is left at the offset
      ensures (key in offsets && 0 <= offsets[key].offset <= old(buffer.limit)
               && !(0 <= offsets[key].offset + offsets[key].length <= buffer.capacity)) ==>
        r == Err(IllegalArgument) && buffer.position == offsets[key].offset && buffer.limit == old(buffer.limit)
      // restoring a saved position beyond the slice's end is refused: the slice's bounds stay
      ensures (key in offsets && 0 <= offsets[key].offset <= old(buffer.limit)
               && 0 <= offsets[key].offset + offsets[key].length <= buffer.capacity
               && old(buffer.position) > offsets[key].offset + offsets[key].length) ==>
        r == Err(IllegalArgument) && buffer.position == SliceStart(offsets[key])
        && buffer.limit == offsets[key].offset + offsets[key].length
      // every step accepted: the region and the restored buffer
      ensures (key in offsets && 0 <= offsets[key].offset <= old(buffer.limit)
               && 0 <= offsets[key].offset + offsets[key].length <= buffer.capacity
               && old(buffer.position) <= offsets[key].offset + offsets[key].length) ==>
        && r.Ok? && fresh(r.value.buffer) && r.value.buffer.Valid()
        && r.value.position == old(buffer.position) + offsets[key].offset
        && r.value.buffer.data == buffer.data
        && r.value.buffer.start == buffer.start + SliceStart(offsets[key])
        && r.value.buffer.capacity == offsets[key].offset + offsets[key].length - SliceStart(offsets[key])
        && r.value.buffer.Contents() == buffer.Contents()[SliceStart(offsets[key])..offsets[key].offset + offsets[key].length]
        && buffer.position == old(buffer.position) && buffer.limit == old(buffer.limit)
    {
      if key !in offsets {
        return Err(NullPointer);
      }
      var e := offsets[key];
      locked := true;
      lockEvents := lockEvents + [Lock];
      var position := buffer.position;
      var sub := SliceAsWritten(e);
      locked := false;
      lockEvents := lockEvents + [Unlock];
      if sub != null {
        r := Ok(Region(position + e.offset, sub));
      } else {
        r := Err(IllegalArgument);
      }
    }

    /**
     * The buffer steps of `get` as written for extent `e`; null when one of them is
     * refused, with the buffer left where the refused step found it.
     */
    method SliceAsWritten(e: Extent) returns (sub: ByteBuffer?)
      requires buffer.Valid()
      modifies buffer
      ensures buffer.Valid()
      ensures !(0 <= e.offset <= old(buffer.limit)) ==>
        sub == null && buffer.position == old(buffer.position) && buffer.limit == old(buffer.limit)
      ensures (0 <= e.offset <= old(buffer.limit) && !(0 <= e.offset + e.length <= buffer.capacity)) ==>
        sub == null && buffer.position == e.offset && buffer.limit == old(buffer.limit)
      ensures (0 <= e.offset <= old(buffer.limit) && 0 <= e.offset + e.length <= buffer.capacity
               && old(buffer.position) > e.offset + e.length) ==>
        sub == null && buffer.position == SliceStart(e) && buffer.limit == e.offset + e.length
      ensures (0 <= e.offset <= old(buffer.limit) && 0 <= e.offset + e.length <= buffer.capacity
               && old(buffer.position) <= e.offset + e.length) ==>
        && sub != null && fresh(sub) && sub.Valid() && sub.data == buffer.data
        && sub.start == buffer.start + SliceStart(e) && sub.capacity == e.offset + e.length - SliceStart(e)
        && sub.Contents() == buffer.Contents()[SliceStart(e)..e.offset + e.length]
        && buffer.position == old(buffer.position) && buffer.limit == old(buffer.limit)
    {
      var position, limit := buffer.position, buffer.limit;
      sub := null;
      var ok := buffer.SetPosition(e.offset);
      if !ok {
        return;
      }
      ok := buffer.SetLimit(e.offset + e.length);
      if !ok {
        return;
      }
      var slice := buffer.Slice();
      ok := buffer.SetPosition(position);
      if !ok {
        return;
      }
      ok := buffer.SetLimit(limit);
      SharedWindow(buffer, slice, SliceStart(e), e.offset + e.length);
      sub := slice;
    }

    /**
     * `get(key)` with only the restore corrected: the position and then the limit are
     * narrowed as the source does, and the saved limit is restored before the saved
     * position, an order java.nio never refuses. The region and every refusal are those
     * of `GetAsWritten`, and the parent's position and limit are the same afterwards,
     * whatever happens.
     */
    method Get(key: K) returns (r: Result<Region, HeaderError>)
      requires Valid()
      modifies this, buffer
      ensures Valid()
      ensures buffer.position == old(buffer.position) && buffer.limit == old(buffer.limit)
      ensures key !in offsets ==> r == Err(NullPointer) && lockEvents == old(lockEvents)
      ensures key in offsets ==> lockEvents == old(lockEvents) + [Lock, Unlock]
      ensures r.Ok? <==> key in offsets && 0 <= offsets[key].offset <= old(buffer.limit)
                         && 0 <= offsets[key].offset + offsets[key].length <= buffer.capacity
      ensures key in offsets && r.Err? ==> r.error == IllegalArgument
      ensures r.Ok? ==>
        && fresh(r.value.buffer) && r.value.buffer.Valid()
        && r.value.position == old(buffer.position) + offsets[key].offset
        && r.value.buffer.data == buffer.data
        && r.value.buffer.start == buffer.start + SliceStart(offsets[key])
        && r.value.buffer.capacity == offsets[key].offset + offsets[key].length - SliceStart(offsets[key])
        && r.value.buffer.position == 0 && r.value.buffer.limit == r.value.buffer.capacity
        && r.value.buffer.Contents() == buffer.Contents()[SliceStart(offsets[key])..offsets[key].offset + offsets[key].length]
      // a length that is not negative: the region is exactly [offset, offset + length)
      ensures r.Ok? && offsets[key].length >= 0 ==>
        r.value.buffer.Contents() == buffer.Contents()[offsets[key].offset..offsets[key].offset + offsets[key].length]
    {
      if key !in offsets {
        return Err(NullPointer);
      }
      var e := offsets[key];
      locked := true;
      lockEvents := lockEvents + [Lock];
      var position := buffer.position;
      var sub := SliceRestoring(e);
      locked := false;
      lockEvents := lockEvents + [Unlock];
      if sub != null {
        r := Ok(Region(position + e.offset, sub));
      } else {
        r := Err(IllegalArgument);
      }
    }

    /**
     * The buffer steps of the corrected `get` for extent `e`: position, then limit, as
     * the source narrows, then slice; the saved limit and then the saved position are
     * restored whatever happened. Null exactly when the source refuses a narrowing step.
     */
    method SliceRestoring(e: Extent) returns (sub: ByteBuffer?)
      requires buffer.Valid()
      modifies buffer
      ensures buffer.Valid() && buffer.position == old(buffer.position) && buffer.limit == old(buffer.limit)
      ensures sub != null <==> 0 <= e.offset <= old(buffer.limit) && 0 <= e.offset + e.length <= buffer.capacity
      ensures sub != null ==>
        && fresh(sub) && sub.Valid() && sub.data == buffer.data
        && sub.start == buffer.start + SliceStart(e) && sub.capacity == e.offset + e.length - SliceStart(e)
        && sub.position == 0 && sub.limit == sub.capacity
        && sub.Contents() == buffer.Contents()[SliceStart(e)..e.offset + e.length]
    {
      var position, limit := buffer.position, buffer.limit;
      sub := null;
      var ok := buffer.SetPosition(e.offset);
      if ok {
        ok := buffer.SetLimit(e.offset + e.length);
        if ok {
          sub := buffer.Slice();
          SharedWindow(buffer, sub, SliceStart(e), e.offset + e.length);
        }
      }
      var restored := buffer.SetLimit(limit);
      restored := buffer.SetPosition(position);
    }
  }

  /**
   * A concrete call that shows the difference: a 100-byte buffer whose position is 50,
   * and a key whose region is bytes [0, 10). As written, `get` is refused while restoring
   * the position and leaves the buffer at position 0 and limit 10; the corrected `get`
   * returns the region and leaves position 50 and limit 100.
   */
  method RestoreOrderExample() returns (asWritten: (int, int), corrected: (int, int))
    ensures asWritten == (0, 10)
    ensures corrected == (50, 100)
  {
    var bytes := new byte[100];
    var buffer := new ByteBuffer.View(bytes, 0, 100);
    var moved := buffer.SetPosition(50);
    var header := new Header<int>(0, map[1 := Extent(0, 10)], buffer);
    var r := header.GetAsWritten(1);
    assert r == Err(IllegalArgument);
    asWritten := (buffer.position, buffer.limit);

    var buffer2 := new ByteBuffer.View(bytes, 0, 100);
    moved := buffer2.SetPosition(50);
    var header2 := new Header<int>(0, map[1 := Extent(0, 10)], buffer2);
    var r2 := header2.Get(1);
    assert r2.Ok?;
    corrected := (buffer2.position, buffer2.limit);
  }
}
