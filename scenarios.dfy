/** Concrete runs of the ring buffer, each stating what a caller observes.
    They exercise the cases the cursor arithmetic has to get right: a new
    buffer, the "cursors meet" ambiguity between full and empty, writes and
    reads that straddle the end of the array, and a write that does not fit. */
module Scenarios {
  import opened Ringbuffer

  /** A new buffer is empty: every query agrees, reads report `ErrIsEmpty`,
      and a zero-length read is not an error. */
  method NewBufferIsEmpty() returns (len: int, free: int, empty: bool, full: bool,
                                     n0: int, err0: Status, n: int, err: Status)
    ensures len == 0 && free == 4 && empty && !full
    ensures n0 == 0 && err0 == Ok
    ensures n == 0 && err == ErrIsEmpty
  {
    var b := new RingBuffer(4);
    len, free, empty, full := b.Length(), b.Free(), b.IsEmpty(), b.IsFull();
    var none := new byte[0];
    n0, err0 := b.Read(none);
    var p := new byte[2];
    n, err := b.Read(p);
  }

  /** Filling a buffer of two makes the cursors meet, as they do when it is
      empty; the flag tells the two apart. A full buffer refuses writes and
      hands everything back to a read, after which it is empty again with the
      cursors still meeting. */
  method FullAndEmptyCursorsMeet()
    returns (meetFull: bool, full: bool, free: int, nw: int, errw: Status, errb: Status,
             nr: int, got: seq<byte>, meetEmpty: bool, empty: bool, errr: Status)
    ensures meetFull && full && free == 0
    ensures nw == 0 && errw == ErrIsFull && errb == ErrIsFull
    ensures nr == 2 && got == [7, 8]
    ensures meetEmpty && empty && errr == ErrIsEmpty
  {
    var b := new RingBuffer(2);
    var n, err := b.Write([7, 8]);
    meetFull, full, free := b.r == b.w, b.IsFull(), b.Free();
    nw, errw := b.Write([9]);
    errb := b.WriteByte(9);
    var p := new byte[2];
    nr, err := b.Read(p);
    got := p[..];
    meetEmpty, empty := b.r == b.w, b.IsEmpty();
    var _, e := b.ReadByte();
    errr := e;
  }

  /** Capacity 4: write three bytes, read two, then write three more. The
      free space is three (only one byte is still unread), so the second
      write is accepted whole; it crosses the end of the array, and the
      snapshot shows the retained byte followed by the new ones. */
  method WriteAcrossTheEnd() returns (n: int, err: Status, full: bool, snapshot: seq<byte>)
    ensures n == 3 && err == Ok && full
    ensures snapshot == [3, 4, 5, 6]
  {
    var b := new RingBuffer(4);
    var n1, e1 := b.Write([1, 2, 3]);
    var p := new byte[2];
    var n2, e2 := b.Read(p);
    n, err := b.Write([4, 5, 6]);
    full := b.IsFull();
    var out := b.Bytes();
    snapshot := out[..];
  }

  /** The same run with four bytes in the second write: only the three that
      fit are taken and the write reports `ErrTooManyDataToWrite`. */
  method WriteTooMuch() returns (n: int, err: Status, snapshot: seq<byte>)
    ensures n == 3 && err == ErrTooManyDataToWrite
    ensures snapshot == [3, 4, 5, 6]
  {
    var b := new RingBuffer(4);
    var n1, e1 := b.Write([1, 2, 3]);
    var p := new byte[2];
    var n2, e2 := b.Read(p);
    n, err := b.Write([4, 5, 6, 7]);
    var out := b.Bytes();
    snapshot := out[..];
  }

  /** A read whose bytes straddle the end of the array returns them in the
      order they were written. */
  method ReadAcrossTheEnd() returns (n: int, got: seq<byte>, empty: bool)
    ensures n == 3 && got == [3, 4, 5] && empty
  {
    var b := new RingBuffer(4);
    var n1, e1 := b.Write([1, 2, 3]);
    var p := new byte[2];
    var n2, e2 := b.Read(p);
    var n3, e3 := b.Write([4, 5]);
    var q := new byte[5];
    var err;
    n, err := b.Read(q);
    got := q[..n];
    empty := b.IsEmpty();
  }

  /** Single-byte writes and reads wrap the cursors like the bulk ones. */
  method BytewiseWrap() returns (first: byte, errFull: Status, snapshot: seq<byte>, len: int)
    ensures first == 10 && errFull == ErrIsFull
    ensures snapshot == [20, 30, 40] && len == 3
  {
    var b := new RingBuffer(3);
    var e := b.WriteByte(10);
    e := b.WriteByte(20);
    var e1;
    first, e1 := b.ReadByte();
    e := b.WriteByte(30);
    e := b.WriteByte(40);
    errFull := b.WriteByte(50);
    var out := b.Bytes();
    snapshot := out[..];
    len := b.Length();
  }

  /** Reset empties a full buffer and puts both cursors back at the start;
      the snapshot of an empty buffer has no bytes. */
  method ResetEmpties() returns (empty: bool, atStart: bool, snapshot: seq<byte>, n: int, err: Status)
    ensures empty && atStart && snapshot == []
    ensures n == 2 && err == Ok
  {
    var b := new RingBuffer(2);
    var n1, e1 := b.WriteString([1, 2]);
    b.Reset();
    empty, atStart := b.IsEmpty(), b.r == 0 && b.w == 0;
    var out := b.Bytes();
    snapshot := out[..];
    n, err := b.WriteString([5, 6]);
  }

  /** From any empty buffer, whatever the positions of its cursors, writing
      up to a capacity's worth of bytes and reading them back returns exactly
      those bytes, in order, and leaves the buffer empty. */
  method RoundTrip(b: RingBuffer, data: seq<byte>, p: array<byte>)
    requires b.Valid() && b.contents == [] && p != b.buf
    requires 0 < |data| <= b.size && p.Length == |data|
    modifies b`r, b`w, b`isFull, b`contents, b.buf, p
    ensures b.Valid() && b.contents == []
    ensures p[..] == data
  {
    var n, err := b.Write(data);
    n, err := b.Read(p);
  }

  /** Streams `data` of any length through a buffer of any capacity: write as
      much as fits, read everything back, repeat. However many times the
      cursors wrap around, the bytes come out exactly as they went in. */
  method Stream(data: seq<byte>, capacity: int) returns (out: seq<byte>)
    requires capacity > 0
    ensures out == data
  {
    var b := new RingBuffer(capacity);
    var p := new byte[capacity];
    out := [];
    var i := 0;
    while i < |data|
      invariant 0 <= i <= |data|
      invariant b.Valid() && p != b.buf && p.Length == b.size
      invariant b.contents == [] && !b.isFull
      invariant out == data[..i]
      decreases |data| - i
    {
      var n, err := b.Write(data[i..]);
      var m, e := b.Read(p);
      assert data[..i + n] == data[..i] + data[i..][..n];
      out := out + p[..m];
      i := i + n;
    }
    assert data[..|data|] == data;
  }
}
