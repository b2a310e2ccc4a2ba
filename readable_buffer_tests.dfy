/**
 * The behaviour that ProtonReadableBufferImplTest pins down, stated for every
 * input rather than for the test's fixed bytes. Each test method builds its
 * cursors itself, drives them as the test does, and returns what the test
 * observes. README.md lists how the methods map onto the Java tests: two
 * methods each cover two tests, three state error rules of the model's own
 * for cases no Java test exercises, one leaves out a check on the Netty
 * buffer, and a few helpers keep the proofs short.
 */
module ReadableBufferTests {
  import opened Wrappers
  import opened Bytes
  import opened ReadableBuffers

  /** A fresh store holding `data`, as `Unpooled.wrappedBuffer(data)` allocates. */
  method NewStore(data: seq<int8>) returns (a: array<int8>)
    ensures fresh(a) && a[..] == data
  {
    a := new int8[|data|](i requires 0 <= i < |data| => data[i]);
  }

  /** A cursor over a fresh store holding `data`, all of it readable. */
  method Wrapped(data: seq<int8>, hasArray: bool) returns (b: ReadableBuffer)
    ensures fresh(b) && fresh(b.store) && b.Valid()
    ensures b.offset == 0 && b.capacity == |data| && b.hasArray == hasArray
    ensures b.position == 0 && b.limit == |data| && b.mark == None
    ensures b.store[..] == data && b.Window() == data && b.Readable() == data
  {
    var a := NewStore(data);
    b := new ReadableBuffer.Wrap(a, 0, |data|, |data|, hasArray);
  }

  /** Calls `get()` `n` times, as the tests' read loops do, and collects the bytes. */
  method ReadEach(b: ReadableBuffer, n: nat) returns (got: seq<int8>)
    requires b.Valid() && n <= b.Remaining()
    modifies b`position
    ensures b.Valid()
    ensures got == old(b.Readable())[..n]
    ensures b.position == old(b.position) + n
    ensures b.Readable() == old(b.Readable())[n..]
  {
    got := [];
    var i := 0;
    while i < n
      invariant 0 <= i <= n
      invariant b.Valid() && b.position == old(b.position) + i
      invariant got == old(b.Readable())[..i]
    {
      var r := b.Get();
      got := got + [r.value];
      i := i + 1;
    }
  }

  /** Calls `get(i)` for each index below `n` of an unread cursor, as the absolute read loop does, and collects the bytes. */
  method ReadEachAt(b: ReadableBuffer, n: nat) returns (got: seq<int8>)
    requires b.Valid() && b.position == 0 && n <= b.limit
    ensures got == b.Window()[..n]
  {
    got := [];
    var i := 0;
    while i < n
      invariant 0 <= i <= n
      invariant got == b.Window()[..i]
    {
      var r := b.GetAt(i);
      got := got + [r.value];
      i := i + 1;
    }
  }

  /** Reads `at` bytes, marks there, and reads the rest: how testReset and testFlip start. */
  method MarkThenReadRest(b: ReadableBuffer, at: nat) returns (rest: seq<int8>)
    requires b.Valid() && b.position == 0 && at <= b.limit
    modifies b`position, b`mark
    ensures b.Valid() && b.mark == Some(at) && b.position == b.limit
    ensures rest == old(b.Readable())[at..]
  {
    var skipped := ReadEach(b, at);
    b.Mark();
    rest := ReadEach(b, b.limit - at);
  }

  /**
   * `get(target)` with a target as long as what remains, then once more: the first
   * call copies everything, and the second fails unless nothing was left to copy.
   */
  method GetBytesTwice(b: ReadableBuffer, target: array<int8>) returns (first: seq<int8>, again: Outcome<BufferError>)
    requires b.Valid() && target.Length == b.Remaining()
    modifies b`position, target
    ensures b.Valid() && b.position == b.limit
    ensures first == old(b.Readable()) && target[..] == first
    ensures again.Fail? <==> first != []
  {
    var o := b.GetBytes(target);
    first := target[..];
    again := b.GetBytes(target);
  }

  /** testWrapBuffer: a wrapped buffer reports its capacity and reclaimRead gives it back. */
  method TestWrapBuffer(capacity: nat) returns (reported: nat, reclaimedSame: bool)
    ensures reported == capacity && reclaimedSame
  {
    var a := new int8[capacity];
    var b := new ReadableBuffer.Wrap(a, 0, capacity, 0, true);
    reported := b.capacity;
    var r := b.ReclaimRead();
    reclaimedSame := r == b;
  }

  /** testArrayAccess and testArrayOffset: a heap window exposes its array and offset, and reading keeps the offset. */
  method TestArrayOffset(data: seq<int8>, off: nat, len: nat)
    returns (hasArray: bool, sameArray: bool, offsetBefore: Result<nat, BufferError>,
             first: Result<int8, BufferError>, offsetAfter: Result<nat, BufferError>)
    requires off + len <= |data|
    ensures hasArray && sameArray
    ensures offsetBefore == offsetAfter == Ok(off)
    ensures len > 0 ==> first == Ok(data[off])
  {
    var a := NewStore(data);
    var b := new ReadableBuffer.Wrap(a, off, len, len, true);
    hasArray := b.hasArray;
    sameArray := b.Array() == Ok(a);
    offsetBefore := b.ArrayOffset();
    first := b.Get();
    offsetAfter := b.ArrayOffset();
  }

  /** testArrayAccessWhenNoArray: a direct buffer has no array, so array() and arrayOffset() fail. */
  method TestArrayAccessWhenNoArray(capacity: nat)
    returns (hasArray: bool, backing: Result<array<int8>, BufferError>, offset: Result<nat, BufferError>)
    ensures !hasArray && backing == Err(NoArray) && offset == Err(NoArray)
  {
    var a := new int8[capacity];
    var b := new ReadableBuffer.Wrap(a, 0, capacity, 0, false);
    hasArray, backing, offset := b.hasArray, b.Array(), b.ArrayOffset();
  }

  /** testGet: `get()` yields the data in order, then nothing is left and one more `get()` fails. */
  method TestGet(data: seq<int8>) returns (got: seq<int8>, remainingAfter: bool, next: Result<int8, BufferError>)
    ensures got == data && !remainingAfter && next == Err(IndexOutOfBounds)
  {
    var b := Wrapped(data, true);
    got := ReadEach(b, |data|);
    remainingAfter := b.HasRemaining();
    next := b.Get();
  }

  /** testGetPosition: the position is i before the i-th `get()` and i + 1 after it. */
  method TestGetPosition(data: seq<int8>) returns (before: seq<nat>, after: seq<nat>, got: seq<int8>)
    ensures |before| == |after| == |data|
    ensures forall i :: 0 <= i < |data| ==> before[i] == i && after[i] == i + 1
    ensures got == data
  {
    var b := Wrapped(data, true);
    before, after, got := ReadNoting(b, |data|);
  }

  /** Calls `get()` `n` times, noting the position before and after each call. */
  method ReadNoting(b: ReadableBuffer, n: nat) returns (before: seq<nat>, after: seq<nat>, got: seq<int8>)
    requires b.Valid() && n <= b.Remaining()
    modifies b`position
    ensures got == old(b.Readable())[..n]
    ensures before == Count(old(b.position), n) && after == Count(old(b.position) + 1, n)
  {
    before, after, got := [], [], [];
    var i := 0;
    while i < n
      invariant 0 <= i <= n
      invariant b.Valid() && b.position == old(b.position) + i && b.Readable() == old(b.Readable())[i..]
      invariant before == Count(old(b.position), i) && after == Count(old(b.position) + 1, i)
      invariant got == old(b.Readable())[..i]
    {
      var at, v, next := GetNoting(b);
      before, after, got := before + [at], after + [next], got + [v];
      i := i + 1;
    }
  }

  /** The `n` consecutive positions starting at `lo`. */
  function Count(lo: nat, n: nat): (r: seq<nat>)
    ensures |r| == n && forall j :: 0 <= j < n ==> r[j] == lo + j
  {
    if n == 0 then [] else Count(lo, n - 1) + [lo + n - 1]
  }

  /** One step of testGetPosition: the position before `get()`, the byte it yields, and the position after. */
  method GetNoting(b: ReadableBuffer) returns (at: nat, v: int8, next: nat)
    requires b.Valid() && b.Readable() != []
    modifies b`position
    ensures b.Valid() && at == old(b.position) && next == b.position == at + 1
    ensures v == old(b.Readable())[0] && b.Readable() == old(b.Readable())[1..]
  {
    at := b.position;
    var r := b.Get();
    v, next := r.value, b.position;
  }

  /** testGetIndex: `get(i)` yields `data[i]` without moving, so the data is all still readable. */
  method TestGetIndex(data: seq<int8>) returns (got: seq<int8>, remainingAfter: bool)
    ensures got == data
    ensures remainingAfter <==> data != []
  {
    var b := Wrapped(data, true);
    got := ReadEachAt(b, |data|);
    remainingAfter := b.HasRemaining();
  }

  /** testGetShort: two bytes decode as a big-endian short ({0, 1} is 1), then a second getShort fails. */
  method TestGetShort(data: seq<int8>) returns (value: Result<int, BufferError>, remainingAfter: bool, next: Result<int, BufferError>)
    requires |data| == 2
    ensures value == Ok(DecodeSigned(data))
    ensures data == [0, 1] ==> value == Ok(1)
    ensures !remainingAfter && next == Err(IndexOutOfBounds)
  {
    var b := Wrapped(data, true);
    assert b.Readable()[..2] == data;
    value := b.GetShort();
    assert value == Ok(DecodeSigned(data)) && b.position == 2 && b.limit == 2;
    if data == [0, 1] {
      assert data == Zeros(1) + [1];
      DecodeSignedOne(2);
      assert value == Ok(1);
    }
    remainingAfter := b.HasRemaining();
    next := b.GetShort();
  }

  /** testGetInt: four bytes decode as a big-endian int ({0, 0, 0, 1} is 1), then a second getInt fails. */
  method TestGetInt(data: seq<int8>) returns (value: Result<int, BufferError>, remainingAfter: bool, next: Result<int, BufferError>)
    requires |data| == 4
    ensures value == Ok(DecodeSigned(data))
    ensures data == [0, 0, 0, 1] ==> value == Ok(1)
    ensures !remainingAfter && next == Err(IndexOutOfBounds)
  {
    var b := Wrapped(data, true);
    assert b.Readable()[..4] == data;
    value := b.GetInt();
    assert value == Ok(DecodeSigned(data)) && b.position == 4 && b.limit == 4;
    if data == [0, 0, 0, 1] {
      assert data == Zeros(3) + [1];
      DecodeSignedOne(4);
      assert value == Ok(1);
    }
    remainingAfter := b.HasRemaining();
    next := b.GetInt();
  }

  /** testGetLong: eight bytes decode as a big-endian long ({0, ..., 0, 1} is 1), then a second getLong fails. */
  method TestGetLong(data: seq<int8>) returns (value: Result<int, BufferError>, remainingAfter: bool, next: Result<int, BufferError>)
    requires |data| == 8
    ensures value == Ok(DecodeSigned(data))
    ensures data == [0, 0, 0, 0, 0, 0, 0, 1] ==> value == Ok(1)
    ensures !remainingAfter && next == Err(IndexOutOfBounds)
  {
    var b := Wrapped(data, true);
    assert b.Readable()[..8] == data;
    value := b.GetLong();
    assert value == Ok(DecodeSigned(data)) && b.position == 8 && b.limit == 8;
    if data == [0, 0, 0, 0, 0, 0, 0, 1] {
      assert data == Zeros(7) + [1];
      DecodeSignedOne(8);
      assert value == Ok(1);
    }
    remainingAfter := b.HasRemaining();
    next := b.GetLong();
  }

  /** testGetFloat: getFloat consumes four bytes ({0, 0, 0, 0} is the pattern of 0.0), then fails. */
  method TestGetFloat(data: seq<int8>) returns (bits: Result<nat, BufferError>, remainingAfter: bool, next: Result<nat, BufferError>)
    requires |data| == 4
    ensures bits == Ok(DecodeUnsigned(data))
    ensures data == [0, 0, 0, 0] ==> bits == Ok(0)
    ensures !remainingAfter && next == Err(IndexOutOfBounds)
  {
    var b := Wrapped(data, true);
    assert b.Readable()[..4] == data;
    bits := b.GetFloatBits();
    assert bits == Ok(DecodeUnsigned(data)) && b.position == 4 && b.limit == 4;
    if data == [0, 0, 0, 0] {
      assert data == Zeros(4);
      DecodeZeros(4);
    }
    remainingAfter := b.HasRemaining();
    next := b.GetFloatBits();
  }

  /** testGetDouble: getDouble consumes eight bytes ({0, ..., 0} is the pattern of 0.0), then fails. */
  method TestGetDouble(data: seq<int8>) returns (bits: Result<nat, BufferError>, remainingAfter: bool, next: Result<nat, BufferError>)
    requires |data| == 8
    ensures bits == Ok(DecodeUnsigned(data))
    ensures data == [0, 0, 0, 0, 0, 0, 0, 0] ==> bits == Ok(0)
    ensures !remainingAfter && next == Err(IndexOutOfBounds)
  {
    var b := Wrapped(data, true);
    assert b.Readable()[..8] == data;
    bits := b.GetDoubleBits();
    assert bits == Ok(DecodeUnsigned(data)) && b.position == 8 && b.limit == 8;
    if data == [0, 0, 0, 0, 0, 0, 0, 0] {
      assert data == Zeros(8);
      DecodeZeros(8);
    }
    remainingAfter := b.HasRemaining();
    next := b.GetDoubleBits();
  }

  /**
   * testGetBytes: `get(target)` fills a target as long as the data, exhausting the
   * cursor; a repeat fails, and leaves the target alone, unless there was nothing to read.
   */
  method TestGetBytes(data: seq<int8>)
    returns (copied: seq<int8>, remainingAfter: bool, again: Outcome<BufferError>, copiedAfterAgain: seq<int8>)
    ensures copied == data && !remainingAfter
    ensures again.Fail? <==> data != []
    ensures copiedAfterAgain == data
  {
    var b := Wrapped(data, true);
    var target := new int8[|data|];
    var o := b.GetBytes(target);
    copied := target[..];
    remainingAfter := b.HasRemaining();
    again := b.GetBytes(target);
    copiedAfterAgain := target[..];
  }

  /** testGetBytesIntInt: `get(target, 0, target.length)` behaves as `get(target)`. */
  method TestGetBytesIntInt(data: seq<int8>)
    returns (copied: seq<int8>, remainingAfter: bool, again: Outcome<BufferError>, copiedAfterAgain: seq<int8>)
    ensures copied == data && !remainingAfter
    ensures again.Fail? <==> data != []
    ensures copiedAfterAgain == data
  {
    var b := Wrapped(data, true);
    var target := new int8[|data|];
    var o := b.GetRange(target, 0, target.Length);
    assert target[..] == data;
    copied := target[..];
    remainingAfter := b.HasRemaining();
    again := b.GetRange(target, 0, target.Length);
    copiedAfterAgain := target[..];
  }

  /**
   * testGetBytesToWritableBuffer and testGetBytesToWritableBufferThatIsDirect:
   * `get(writable)` moves all the data, in order, into a writable cursor of the same
   * size, whether the source is heap (`sourceHasArray`) or direct memory.
   */
  method TestGetBytesToWritableBuffer(data: seq<int8>, sourceHasArray: bool)
    returns (o: Outcome<BufferError>, written: seq<int8>, remainingAfter: bool)
    ensures o == Pass && written == data && !remainingAfter
  {
    var b := Wrapped(data, sourceHasArray);
    var targetStore := new int8[|data|];
    var target := new WritableBuffer.Wrap(targetStore);
    o := b.GetInto(target);
    written := targetStore[..target.position];
    remainingAfter := b.HasRemaining();
  }

  /**
   * testDuplicate: after `skip` got, a duplicate got exactly the source's remaining
   * bytes and is then exhausted, while the source's position stays where it was.
   */
  method TestDuplicate(data: seq<int8>, skip: nat)
    returns (got: seq<int8>, duplicateRemaining: bool, sourcePosition: nat, sourceRemaining: nat)
    requires skip <= |data|
    ensures got == data[skip..] && !duplicateRemaining
    ensures sourcePosition == skip && sourceRemaining == |data| - skip
  {
    var b := Wrapped(data, true);
    var skipped := ReadEach(b, skip);
    assert b.Readable() == data[skip..];
    var d := b.Duplicate();
    got := ReadEach(d, |data| - skip);
    duplicateRemaining := d.HasRemaining();
    sourcePosition, sourceRemaining := b.position, b.Remaining();
  }

  /**
   * testSlice: after `skip` got, a slice's window is exactly the source's remaining
   * bytes; reading it through exhausts it and leaves the source's position alone.
   */
  method TestSlice(data: seq<int8>, skip: nat)
    returns (got: seq<int8>, sliceCapacity: nat, sliceRemaining: bool, sourcePosition: nat)
    requires skip <= |data|
    ensures got == data[skip..] && sliceCapacity == |data| - skip && !sliceRemaining
    ensures sourcePosition == skip
  {
    var b := Wrapped(data, true);
    var skipped := ReadEach(b, skip);
    assert b.Readable() == data[skip..];
    got, sliceCapacity, sliceRemaining := ReadSlice(b);
    sourcePosition := b.position;
  }

  /** Takes a slice of `b` and reads it through, reporting its capacity and whether anything is left. */
  method ReadSlice(b: ReadableBuffer) returns (got: seq<int8>, sliceCapacity: nat, sliceRemaining: bool)
    requires b.Valid()
    ensures got == b.Readable() && sliceCapacity == |got| && !sliceRemaining
  {
    var s := b.Slice();
    sliceCapacity := s.capacity;
    got := ReadEach(s, s.Remaining());
    sliceRemaining := s.HasRemaining();
  }

  /** testLimit: after `limit(n)`, reading `n` bytes exhausts the cursor and the next `get()` fails. */
  method TestLimit(data: seq<int8>, n: nat)
    returns (limitBefore: nat, moved: Outcome<BufferError>, limitAfter: nat, got: seq<int8>,
             remainingAfter: bool, next: Result<int8, BufferError>)
    requires n <= |data|
    ensures limitBefore == |data| && moved == Pass && limitAfter == n
    ensures got == data[..n] && !remainingAfter && next == Err(IndexOutOfBounds)
  {
    var b := Wrapped(data, true);
    limitBefore := b.limit;
    moved := b.SetLimit(n);
    limitAfter := b.limit;
    got := ReadEach(b, n);
    remainingAfter := b.HasRemaining();
    next := b.Get();
  }

  /**
   * testClear: once `get(target)` has consumed everything and a repeat has failed,
   * `clear()` makes the whole capacity readable again and the same bytes come back.
   */
  method TestClear(data: seq<int8>)
    returns (first: seq<int8>, again: Outcome<BufferError>, remainingAfterClear: nat,
             hasRemainingAfterClear: bool, second: seq<int8>, remainingAtEnd: bool)
    ensures first == data && (again.Fail? <==> data != [])
    ensures remainingAfterClear == |data| && (hasRemainingAfterClear <==> data != [])
    ensures second == data && !remainingAtEnd
  {
    var b := Wrapped(data, true);
    var target := new int8[|data|];
    first, again := GetBytesTwice(b, target);
    b.Clear();
    assert b.Readable() == b.Window() == data;
    remainingAfterClear, hasRemainingAfterClear := b.Remaining(), b.HasRemaining();
    var o := b.GetBytes(target);
    second := target[..];
    remainingAtEnd := b.HasRemaining();
  }

  /** testRewind: after reading everything, `rewind()` replays the same bytes. */
  method TestRewind(data: seq<int8>) returns (first: seq<int8>, remainingAfterRewind: bool, second: seq<int8>)
    ensures first == data && second == data
    ensures remainingAfterRewind <==> data != []
  {
    var b := Wrapped(data, true);
    first := ReadEach(b, |data|);
    b.Rewind();
    remainingAfterRewind := b.HasRemaining();
    second := ReadEach(b, |data|);
  }

  /**
   * testReset: `mark()` after `at` got, reading to the end, then `reset()` replays
   * exactly the bytes after the mark. The test marks at 0.
   */
  method TestReset(data: seq<int8>, at: nat)
    returns (first: seq<int8>, reset: Outcome<BufferError>, remainingAfterReset: bool, second: seq<int8>)
    requires at <= |data|
    ensures first == data[at..] && reset == Pass && second == data[at..]
    ensures remainingAfterReset <==> at < |data|
  {
    var b := Wrapped(data, true);
    first := MarkThenReadRest(b, at);
    reset := b.Reset();
    assert reset.Pass? && b.position == at;
    assert b.Readable() == b.Window()[at..|data|] == data[at..];
    remainingAfterReset := b.HasRemaining();
    second := ReadEach(b, |data| - at);
  }

  /** `reset()` on a cursor that was never marked fails and leaves the position alone. */
  method TestResetWithoutMark(data: seq<int8>) returns (reset: Outcome<BufferError>, position: nat)
    ensures reset == Fail(IllegalState) && position == |data|
  {
    var b := Wrapped(data, true);
    var got := ReadEach(b, |data|);
    reset := b.Reset();
    position := b.position;
  }

  /** testSetPosition: after reading everything, `position(n)` makes the bytes from `n` on readable again. The test uses 0. */
  method TestSetPosition(data: seq<int8>, n: nat)
    returns (first: seq<int8>, moved: Outcome<BufferError>, remainingAfterSet: bool, second: seq<int8>)
    requires n <= |data|
    ensures first == data && moved == Pass && second == data[n..]
    ensures remainingAfterSet <==> n < |data|
  {
    var b := Wrapped(data, true);
    first := ReadEach(b, |data|);
    moved := b.SetPosition(n);
    remainingAfterSet := b.HasRemaining();
    second := ReadEach(b, |data| - n);
  }

  /** `position(n)` beyond the limit, or negative, fails and leaves the position alone. */
  method TestSetPositionOutOfBounds(data: seq<int8>, n: int) returns (moved: Outcome<BufferError>, position: nat)
    requires n < 0 || n > |data|
    ensures moved == Fail(IndexOutOfBounds) && position == 0
  {
    var b := Wrapped(data, true);
    moved := b.SetPosition(n);
    position := b.position;
  }

  /**
   * testFlip: `mark()` after `at` got, reading to the end, then `flip()` makes the
   * bytes from the mark to the old position readable. The test marks at 0.
   */
  method TestFlip(data: seq<int8>, at: nat)
    returns (first: seq<int8>, remainingAfterFlip: bool, second: seq<int8>, limitAfterFlip: nat)
    requires at <= |data|
    ensures first == data[at..] && second == data[at..] && limitAfterFlip == |data|
    ensures remainingAfterFlip <==> at < |data|
  {
    var b := Wrapped(data, true);
    first := MarkThenReadRest(b, at);
    b.Flip();
    assert b.position == at && b.limit == |data|;
    assert b.Readable() == b.Window()[at..|data|] == data[at..];
    remainingAfterFlip, limitAfterFlip := b.HasRemaining(), b.limit;
    second := ReadEach(b, |data| - at);
  }
}
