/**
 * The readable buffer cursor the AMQP codec decodes from: a window of a
 * shared byte store with its own position, limit and mark, and the writable
 * cursor that bulk transfers fill.
 *
 * Indices are relative to the cursor's window, which starts at `offset` in
 * the shared store. Every operation that would leave the window fails with
 * `IndexOutOfBounds` and changes nothing.
 */
module ReadableBuffers {
  import opened Wrappers
  import opened Bytes

  /** The exceptions the cursor raises. */
  datatype BufferError =
    | IndexOutOfBounds  // IndexOutOfBoundsException
    | IllegalState      // reset() without mark()
    | NoArray           // UnsupportedOperationException: the store is not array-addressable

  class ReadableBuffer {
    /** The backing store, shared with every duplicate and slice. */
    const store: array<int8>
    /** Where this cursor's window starts in the store (arrayOffset). */
    const offset: nat
    /** The fixed size of the window. */
    const capacity: nat
    /** Whether the store is a heap array (true) or direct memory (false). */
    const hasArray: bool

    var position: nat
    var limit: nat
    var mark: Option<nat>

    /** 0 <= mark <= position <= limit <= capacity, and the window lies in the store. */
    ghost predicate Valid()
      reads this`position, this`limit, this`mark
    {
      && offset + capacity <= store.Length
      && position <= limit <= capacity
      && (mark.Some? ==> mark.value <= position)
    }

    /** The bytes of the window, index 0 first. */
    ghost function Window(): (w: seq<int8>)
      reads store
      requires offset + capacity <= store.Length
      ensures |w| == capacity
    {
      store[offset..offset + capacity]
    }

    /** The bytes still to be read: the window from position up to limit. */
    ghost function Readable(): (r: seq<int8>)
      reads this`position, this`limit, store
      requires position <= limit && offset + limit <= store.Length
      ensures |r| == limit - position
    {
      store[offset + position..offset + limit]
    }

    /** The readable bytes are the part of the window between position and limit. */
    lemma ReadableInWindow()
      requires Valid()
      ensures Readable() == Window()[position..limit]
    {
      var w := Window();
      assert forall j | 0 <= j < limit - position :: w[position..limit][j] == store[offset + position + j];
    }

    /** Wraps a window of `store`, as `new ProtonReadableBufferImpl(byteBuf)` does; nothing is copied. */
    constructor Wrap(store: array<int8>, offset: nat, capacity: nat, limit: nat, hasArray: bool)
      requires offset + capacity <= store.Length && limit <= capacity
      ensures Valid()
      ensures this.store == store && this.offset == offset && this.capacity == capacity
      ensures this.hasArray == hasArray
      ensures position == 0 && this.limit == limit && mark == None
    {
      this.store := store;
      this.offset := offset;
      this.capacity := capacity;
      this.hasArray := hasArray;
      position := 0;
      this.limit := limit;
      mark := None;
    }

    /** A further cursor over the same store with the given state: used by duplicate and slice. */
    constructor View(store: array<int8>, offset: nat, capacity: nat, hasArray: bool,
                     position: nat, limit: nat, mark: Option<nat>)
      requires offset + capacity <= store.Length && position <= limit <= capacity
      requires mark.Some? ==> mark.value <= position
      ensures Valid()
      ensures this.store == store && this.offset == offset && this.capacity == capacity
      ensures this.hasArray == hasArray
      ensures this.position == position && this.limit == limit && this.mark == mark
    {
      this.store := store;
      this.offset := offset;
      this.capacity := capacity;
      this.hasArray := hasArray;
      this.position := position;
      this.limit := limit;
      this.mark := mark;
    }

    /** `remaining()`: how many bytes are left to read. */
    function Remaining(): (n: nat)
      reads this, store
      requires Valid()
      ensures n == |Readable()|
    {
      limit - position
    }

    /** `hasRemaining()`: whether any byte is left to read. */
    function HasRemaining(): (b: bool)
      reads this, store
      requires Valid()
      ensures b <==> Readable() != []
    {
      position < limit
    }

    /** `reclaimRead()`: the live cursor itself. */
    method ReclaimRead() returns (b: ReadableBuffer)
      ensures b == this
    {
      b := this;
    }

    /** `array()`: the backing array, only when the store is array-addressable. */
    function Array(): (r: Result<array<int8>, BufferError>)
      ensures r.Ok? <==> hasArray
      ensures r.Ok? ==> r.value == store
      ensures r.Err? ==> r.error == NoArray
    {
      if hasArray then Ok(store) else Err(NoArray)
    }

    /** `arrayOffset()`: where the window starts in the backing array. */
    function ArrayOffset(): (r: Result<nat, BufferError>)
      ensures r.Ok? <==> hasArray
      ensures r.Ok? ==> r.value == offset
      ensures r.Err? ==> r.error == NoArray
    {
      if hasArray then Ok(offset) else Err(NoArray)
    }

    /**
     * Absolute `get(index)`: the byte at `index` of the window, for an index among
     * the remaining bytes; the position does not move.
     */
    function GetAt(index: int): (r: Result<int8, BufferError>)
      reads this, store
      requires Valid()
      ensures r.Ok? <==> position <= index < limit
      ensures r.Ok? ==> r.value == Window()[index] == Readable()[index - position]
      ensures r.Err? ==> r.error == IndexOutOfBounds
    {
      if position <= index < limit then Ok(store[offset + index]) else Err(IndexOutOfBounds)
    }

    /** Relative `get()`: the next byte, advancing the position by one. */
    method Get() returns (r: Result<int8, BufferError>)
      requires Valid()
      modifies this`position
      ensures Valid()
      ensures r.Ok? <==> old(Readable()) != []
      ensures r.Ok? ==> r.value == old(Readable())[0] && position == old(position) + 1
      ensures r.Ok? ==> Readable() == old(Readable())[1..]
      ensures r.Err? ==> r.error == IndexOutOfBounds && position == old(position)
    {
      if position < limit {
        r := Ok(store[offset + position]);
        position := position + 1;
      } else {
        r := Err(IndexOutOfBounds);
      }
    }

    /** Reads the next `width` bytes as one unsigned big-endian value, advancing past them. */
    method GetUnsigned(width: nat) returns (r: Result<nat, BufferError>)
      requires Valid()
      modifies this`position
      ensures Valid()
      ensures r.Ok? <==> width <= old(Remaining())
      ensures r.Ok? ==> r.value < Pow256(width)
      ensures r.Ok? ==> r.value == DecodeUnsigned(old(Readable())[..width])
      ensures r.Ok? ==> EncodeUnsigned(r.value, width) == old(Readable())[..width]
      ensures r.Ok? ==> position == old(position) + width && Readable() == old(Readable())[width..]
      ensures r.Err? ==> r.error == IndexOutOfBounds && position == old(position)
    {
      if width <= limit - position {
        var bytes := store[offset + position..offset + position + width];
        assert bytes == old(Readable())[..width];
        EncodeDecodeUnsigned(bytes);
        r := Ok(DecodeUnsigned(bytes));
        position := position + width;
      } else {
        r := Err(IndexOutOfBounds);
      }
    }

    /** Reads the next `width` bytes as one signed big-endian value, advancing past them. */
    method GetSigned(width: nat) returns (r: Result<int, BufferError>)
      requires Valid() && width > 0
      modifies this`position
      ensures Valid()
      ensures r.Ok? <==> width <= old(Remaining())
      ensures r.Ok? ==> -Half(width) <= r.value < Half(width)
      ensures r.Ok? ==> r.value == DecodeSigned(old(Readable())[..width])
      ensures r.Ok? ==> EncodeSigned(r.value, width) == old(Readable())[..width]
      ensures r.Ok? ==> position == old(position) + width && Readable() == old(Readable())[width..]
      ensures r.Err? ==> r.error == IndexOutOfBounds && position == old(position)
    {
      var u := GetUnsigned(width);
      if u.Ok? {
        r := Ok(ToSigned(u.value, width));
      } else {
        r := Err(u.error);
      }
    }

    /** `getShort()`: a Java short, big-endian, consuming two bytes. */
    method GetShort() returns (r: Result<int, BufferError>)
      requires Valid()
      modifies this`position
      ensures Valid()
      ensures r.Ok? <==> 2 <= old(Remaining())
      ensures r.Ok? ==> -0x8000 <= r.value < 0x8000
      ensures r.Ok? ==> r.value == DecodeSigned(old(Readable())[..2])
      ensures r.Ok? ==> EncodeSigned(r.value, 2) == old(Readable())[..2]
      ensures r.Ok? ==> position == old(position) + 2
      ensures r.Err? ==> r.error == IndexOutOfBounds && position == old(position)
    {
      r := GetSigned(2);
    }

    /** `getInt()`: a Java int, big-endian, consuming four bytes. */
    method GetInt() returns (r: Result<int, BufferError>)
      requires Valid()
      modifies this`position
      ensures Valid()
      ensures r.Ok? <==> 4 <= old(Remaining())
      ensures r.Ok? ==> -0x8000_0000 <= r.value < 0x8000_0000
      ensures r.Ok? ==> r.value == DecodeSigned(old(Readable())[..4])
      ensures r.Ok? ==> EncodeSigned(r.value, 4) == old(Readable())[..4]
      ensures r.Ok? ==> position == old(position) + 4
      ensures r.Err? ==> r.error == IndexOutOfBounds && position == old(position)
    {
      r := GetSigned(4);
    }

    /** `getLong()`: a Java long, big-endian, consuming eight bytes. */
    method GetLong() returns (r: Result<int, BufferError>)
      requires Valid()
      modifies this`position
      ensures Valid()
      ensures r.Ok? <==> 8 <= old(Remaining())
      ensures r.Ok? ==> -0x8000_0000_0000_0000 <= r.value < 0x8000_0000_0000_0000
      ensures r.Ok? ==> r.value == DecodeSigned(old(Readable())[..8])
      ensures r.Ok? ==> EncodeSigned(r.value, 8) == old(Readable())[..8]
      ensures r.Ok? ==> position == old(position) + 8
      ensures r.Err? ==> r.error == IndexOutOfBounds && position == old(position)
    {
      r := GetSigned(8);
    }

    /** `getFloat()`, as its IEEE 754 bit pattern: four bytes, big-endian. */
    method GetFloatBits() returns (r: Result<nat, BufferError>)
      requires Valid()
      modifies this`position
      ensures Valid()
      ensures r.Ok? <==> 4 <= old(Remaining())
      ensures r.Ok? ==> r.value < 0x1_0000_0000
      ensures r.Ok? ==> r.value == DecodeUnsigned(old(Readable())[..4])
      ensures r.Ok? ==> EncodeUnsigned(r.value, 4) == old(Readable())[..4]
      ensures r.Ok? ==> position == old(position) + 4
      ensures r.Err? ==> r.error == IndexOutOfBounds && position == old(position)
    {
      r := GetUnsigned(4);
    }

    /** `getDouble()`, as its IEEE 754 bit pattern: eight bytes, big-endian. */
    method GetDoubleBits() returns (r: Result<nat, BufferError>)
      requires Valid()
      modifies this`position
      ensures Valid()
      ensures r.Ok? <==> 8 <= old(Remaining())
      ensures r.Ok? ==> r.value < 0x1_0000_0000_0000_0000
      ensures r.Ok? ==> r.value == DecodeUnsigned(old(Readable())[..8])
      ensures r.Ok? ==> EncodeUnsigned(r.value, 8) == old(Readable())[..8]
      ensures r.Ok? ==> position == old(position) + 8
      ensures r.Err? ==> r.error == IndexOutOfBounds && position == old(position)
    {
      r := GetUnsigned(8);
    }

    /**
     * `get(target, off, len)`: copies the next `len` bytes into `target[off..off + len]`
     * and advances past them. The bytes are staged first, so a target that is the
     * store itself receives the bytes as they were before the copy.
     */
    method GetRange(target: array<int8>, off: int, len: int) returns (o: Outcome<BufferError>)
      requires Valid()
      modifies this`position, target
      ensures Valid()
      ensures o.Pass? <==> 0 <= off && 0 <= len && off + len <= target.Length && len <= old(Remaining())
      ensures o.Pass? ==> target[..] == old(target[..])[..off] + old(Readable())[..len] + old(target[..])[off + len..]
      ensures o.Pass? ==> position == old(position) + len
      ensures o.Fail? ==> o.error == IndexOutOfBounds && position == old(position)
      ensures o.Fail? ==> target[..] == old(target[..])
    {
      if off < 0 || len < 0 || off + len > target.Length || len > limit - position {
        return Fail(IndexOutOfBounds);
      }
      var staged := store[offset + position..offset + position + len];
      assert staged == old(Readable())[..len];
      CopyInto(target, off, staged);
      position := position + len;
      o := Pass;
    }

    /** `get(target)`: fills the whole of `target` from the next bytes and advances past them. */
    method GetBytes(target: array<int8>) returns (o: Outcome<BufferError>)
      requires Valid()
      modifies this`position, target
      ensures Valid()
      ensures o.Pass? <==> target.Length <= old(Remaining())
      ensures o.Pass? ==> target[..] == old(Readable())[..target.Length]
      ensures o.Pass? ==> position == old(position) + target.Length
      ensures o.Fail? ==> o.error == IndexOutOfBounds && position == old(position)
      ensures o.Fail? ==> target[..] == old(target[..])
    {
      o := GetRange(target, 0, target.Length);
    }

    /**
     * `get(writableBuffer)`: appends every remaining byte to `target`, whatever
     * backs either side, and leaves this cursor exhausted. A target without room
     * for them all fails before anything is written.
     */
    method GetInto(target: WritableBuffer) returns (o: Outcome<BufferError>)
      requires Valid() && target.Valid()
      modifies this`position, target`position, target.store
      ensures Valid() && target.Valid()
      ensures o.Pass? <==> old(Remaining()) <= old(target.Free())
      ensures o.Pass? ==> target.Written() == old(target.Written()) + old(Readable())
      ensures o.Pass? ==> target.store[target.position..] == old(target.store[..])[target.position..]
      ensures o.Pass? ==> position == limit
      ensures o.Fail? ==> o.error == IndexOutOfBounds && position == old(position)
      ensures o.Fail? ==> target.position == old(target.position) && target.store[..] == old(target.store[..])
    {
      if limit - position > target.store.Length - target.position {
        return Fail(IndexOutOfBounds);
      }
      var staged := store[offset + position..offset + limit];
      PutAll(target, staged);
      position := limit;
      o := Pass;
    }

    /** `position(n)`: moves the cursor; a mark beyond the new position is discarded. */
    method SetPosition(n: int) returns (o: Outcome<BufferError>)
      requires Valid()
      modifies this`position, this`mark
      ensures Valid()
      ensures o.Pass? <==> 0 <= n <= limit
      ensures o.Pass? ==> position == n
      ensures o.Pass? ==> mark == if old(mark).Some? && old(mark).value <= n then old(mark) else None
      ensures o.Fail? ==> o.error == IndexOutOfBounds && position == old(position) && mark == old(mark)
    {
      if n < 0 || n > limit {
        return Fail(IndexOutOfBounds);
      }
      position := n;
      if mark.Some? && mark.value > n {
        mark := None;
      }
      o := Pass;
    }

    /** `limit(n)`: moves the limit; a limit below the position or beyond the capacity fails. */
    method SetLimit(n: int) returns (o: Outcome<BufferError>)
      requires Valid()
      modifies this`limit
      ensures Valid()
      ensures o.Pass? <==> position <= n <= capacity
      ensures o.Pass? ==> limit == n
      ensures o.Fail? ==> o.error == IndexOutOfBounds && limit == old(limit)
    {
      if n < position || n > capacity {
        return Fail(IndexOutOfBounds);
      }
      limit := n;
      o := Pass;
    }

    /** `clear()`: the whole window becomes readable again and the mark is discarded. */
    method Clear()
      requires Valid()
      modifies this`position, this`limit, this`mark
      ensures Valid()
      ensures position == 0 && limit == capacity && mark == None
      ensures Readable() == Window()
    {
      position, limit, mark := 0, capacity, None;
      ReadableInWindow();
    }

    /** `rewind()`: back to the start of the window; the limit stays and the mark is discarded. */
    method Rewind()
      requires Valid()
      modifies this`position, this`mark
      ensures Valid()
      ensures position == 0 && mark == None
      ensures Readable() == Window()[..limit]
    {
      position, mark := 0, None;
      ReadableInWindow();
    }

    /** `mark()`: remembers the current position. */
    method Mark()
      requires Valid()
      modifies this`mark
      ensures Valid()
      ensures mark == Some(position)
    {
      mark := Some(position);
    }

    /** `reset()`: returns to the marked position; without a mark it fails. */
    method Reset() returns (o: Outcome<BufferError>)
      requires Valid()
      modifies this`position
      ensures Valid()
      ensures o.Pass? <==> mark.Some?
      ensures o.Pass? ==> position == mark.value
      ensures o.Pass? ==> Readable() == Window()[mark.value..limit]
      ensures o.Fail? ==> o.error == IllegalState && position == old(position)
    {
      if mark.None? {
        return Fail(IllegalState);
      }
      position := mark.value;
      ReadableInWindow();
      o := Pass;
    }

    /** `flip()`: what was read becomes what is readable, starting at the mark if there is one. */
    method Flip()
      requires Valid()
      modifies this`position, this`limit
      ensures Valid()
      ensures limit == old(position)
      ensures position == if mark.Some? then mark.value else 0
      ensures Readable() == Window()[position..old(position)]
    {
      limit := position;
      position := if mark.Some? then mark.value else 0;
      ReadableInWindow();
    }

    /** `duplicate()`: a new cursor over the same store with the same position, limit and mark. */
    method Duplicate() returns (d: ReadableBuffer)
      requires Valid()
      ensures fresh(d) && d.Valid()
      ensures d.store == store && d.offset == offset && d.capacity == capacity && d.hasArray == hasArray
      ensures d.position == position && d.limit == limit && d.mark == mark
      ensures d.Readable() == Readable()
    {
      d := new ReadableBuffer.View(store, offset, capacity, hasArray, position, limit, mark);
    }

    /** `slice()`: a new cursor whose whole window is this cursor's readable bytes. */
    method Slice() returns (s: ReadableBuffer)
      requires Valid()
      ensures fresh(s) && s.Valid()
      ensures s.store == store && s.offset == offset + position && s.hasArray == hasArray
      ensures s.capacity == limit - position && s.position == 0 && s.limit == s.capacity
      ensures s.mark == None
      ensures s.Window() == s.Readable() == Readable()
    {
      s := new ReadableBuffer.View(store, offset + position, limit - position, hasArray,
                                   0, limit - position, None);
    }
  }

  /** Appends every byte of `src` to `target` with `put`, leaving the bytes after them as they were. */
  method PutAll(target: WritableBuffer, src: seq<int8>)
    requires target.Valid() && |src| <= target.Free()
    modifies target`position, target.store
    ensures target.Valid() && target.position == old(target.position) + |src|
    ensures target.Written() == old(target.Written()) + src
    ensures target.store[target.position..] == old(target.store[..])[target.position..]
  {
    var k := 0;
    while k < |src|
      invariant 0 <= k <= |src|
      invariant target.Valid() && target.position == old(target.position) + k
      invariant target.Written() == old(target.Written()) + src[..k]
      invariant target.store[target.position..] == old(target.store[..])[target.position..]
    {
      ghost var before := target.store[..];
      var done := target.Put(src[k]);
      assert target.store[target.position..] == before[target.position..];
      assert src[..k + 1] == src[..k] + [src[k]];
      k := k + 1;
    }
    assert src[..k] == src;
  }

  /** Writes `src` over `target[off..off + |src|]`, leaving the rest of `target` as it was. */
  method CopyInto(target: array<int8>, off: nat, src: seq<int8>)
    requires off + |src| <= target.Length
    modifies target
    ensures target[..] == old(target[..])[..off] + src + old(target[..])[off + |src|..]
  {
    var k := 0;
    while k < |src|
      invariant 0 <= k <= |src|
      invariant forall j :: 0 <= j < target.Length ==>
        target[j] == if off <= j < off + k then src[j - off] else old(target[j])
    {
      target[off + k] := src[k];
      k := k + 1;
    }
    assert target[..] == old(target[..])[..off] + src + old(target[..])[off + |src|..];
  }

  /**
   * The writable cursor a bulk transfer fills: bytes are appended at `position`
   * until the store is full; the written bytes are `store[..position]`.
   */
  class WritableBuffer {
    const store: array<int8>
    var position: nat

    ghost predicate Valid()
      reads this
    {
      position <= store.Length
    }

    /** The bytes written so far. */
    ghost function Written(): (w: seq<int8>)
      reads this, store
      requires Valid()
      ensures |w| == position
    {
      store[..position]
    }

    /** How many more bytes fit. */
    function Free(): (n: nat)
      reads this, store
      requires Valid()
      ensures n == store.Length - |Written()|
    {
      store.Length - position
    }

    /** An empty writable cursor over the whole of `store`. */
    constructor Wrap(store: array<int8>)
      ensures Valid() && this.store == store && position == 0 && Written() == []
    {
      this.store := store;
      position := 0;
    }

    /** `put(b)`: appends one byte; a full cursor fails. */
    method Put(b: int8) returns (o: Outcome<BufferError>)
      requires Valid()
      modifies this`position, store
      ensures Valid()
      ensures o.Pass? <==> old(position) < store.Length
      ensures o.Pass? ==> Written() == old(Written()) + [b]
      ensures o.Pass? ==> store[..] == old(store[..])[old(position) := b]
      ensures o.Fail? ==> o.error == IndexOutOfBounds && position == old(position)
      ensures o.Fail? ==> store[..] == old(store[..])
    {
      if position == store.Length {
        return Fail(IndexOutOfBounds);
      }
      store[position] := b;
      position := position + 1;
      o := Pass;
    }
  }
}
