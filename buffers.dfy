/**
 * The parts of java.nio.ByteBuffer that the core relies on: a window of
 * `capacity` bytes starting at `start` in a backing array, with a cursor
 * (`position`) and a bound (`limit`). A slice is a second window over the same
 * backing array, so writes through one are seen through the other.
 */
module Buffers {
  import opened Bytes

  /** A buffer that shares `b`'s backing array from `b`'s index `from` sees exactly those bytes of `b`. */
  lemma SharedWindow(b: ByteBuffer, sub: ByteBuffer, from: nat, to: nat)
    requires b.Valid() && sub.Valid() && sub.data == b.data && from <= to <= b.capacity
    requires sub.start == b.start + from && sub.capacity == to - from
    ensures sub.Contents() == b.Contents()[from..to]
  {
  }

  class ByteBuffer {
    const data: array<byte>
    const start: nat
    const capacity: nat
    var position: int
    var limit: int

    ghost predicate Valid()
      reads this
    {
      0 <= position <= limit <= capacity && start + capacity <= data.Length
    }

    /** The bytes of this buffer, from index 0 to its capacity. */
    ghost function Contents(): seq<byte>
      reads this, data
      requires Valid()
    {
      data[start..start + capacity]
    }

    /** `ByteBuffer.allocateDirect(capacity)` for a capacity that is not negative. */
    constructor Allocate(capacity: nat)
      ensures Valid() && fresh(data)
      ensures start == 0 && this.capacity == capacity && data.Length == capacity
      ensures position == 0 && limit == capacity
    {
      data := new byte[capacity];
      start := 0;
      this.capacity := capacity;
      position := 0;
      limit := capacity;
    }

    /** A buffer over `data[start..start + capacity]` with its cursor at 0. */
    constructor View(data: array<byte>, start: nat, capacity: nat)
      requires start + capacity <= data.Length
      ensures Valid()
      ensures this.data == data && this.start == start && this.capacity == capacity
      ensures position == 0 && limit == capacity
    {
      this.data := data;
      this.start := start;
      this.capacity := capacity;
      position := 0;
      limit := capacity;
    }

    /** `position(p)`: throws IllegalArgumentException (ok false) unless `0 <= p <= limit`. */
    method SetPosition(p: int) returns (ok: bool)
      requires Valid()
      modifies this
      ensures Valid() && limit == old(limit)
      ensures ok == (0 <= p <= old(limit))
      ensures position == if ok then p else old(position)
    {
      ok := 0 <= p <= limit;
      if ok {
        position := p;
      }
    }

    /**
     * `limit(l)`: throws IllegalArgumentException (ok false) unless `0 <= l <= capacity`;
     * a position beyond the new limit is pulled back to it.
     */
    method SetLimit(l: int) returns (ok: bool)
      requires Valid()
      modifies this
      ensures Valid()
      ensures ok == (0 <= l <= capacity)
      ensures limit == if ok then l else old(limit)
      ensures position == if ok && old(position) > l then l else old(position)
    {
      ok := 0 <= l <= capacity;
      if ok {
        limit := l;
        if position > l {
          position := l;
        }
      }
    }

    /** `slice()`: a new buffer over the bytes between position and limit, sharing them. */
    method Slice() returns (b: ByteBuffer)
      requires Valid()
      ensures fresh(b) && b.Valid()
      ensures b.data == data && b.start == start + position && b.capacity == limit - position
      ensures b.position == 0 && b.limit == b.capacity
    {
      b := new ByteBuffer.View(data, start + position, limit - position);
    }

    /** The bytes between position and limit: what a bulk transfer out of this buffer carries. */
    function Remaining(): (r: seq<byte>)
      reads this, data
      requires Valid()
      ensures |r| == limit - position
    {
      data[start + position..start + limit]
    }

    /**
     * The source side of a bulk `put(this)` into another buffer: all remaining bytes
     * are taken and the position moves to the limit.
     */
    method TakeRemaining() returns (r: seq<byte>)
      requires Valid()
      modifies this
      ensures Valid() && limit == old(limit) && position == old(limit)
      ensures r == old(Remaining())
    {
      r := data[start + position..start + limit];
      position := limit;
    }

    /**
     * Relative bulk `put(src)`: throws BufferOverflowException (ok false, nothing
     * transferred) when `src` is longer than `limit - position`; otherwise copies
     * `src` at the position and advances it.
     */
    method Put(src: seq<byte>) returns (ok: bool)
      requires Valid()
      modifies this, data
      ensures Valid() && limit == old(limit)
      ensures ok == (|src| <= old(limit) - old(position))
      ensures ok ==> position == old(position) + |src|
      ensures ok ==> data[..] == Overwrite(old(data[..]), start + old(position), src)
      ensures !ok ==> position == old(position) && data[..] == old(data[..])
    {
      ok := |src| <= limit - position;
      if ok {
        Store(data, start + position, src);
        position := position + |src|;
      }
    }
  }
}
