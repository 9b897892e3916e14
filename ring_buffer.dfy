/** A fixed-capacity byte ring buffer: a backing array of `size` bytes, a read
    cursor `r`, a write cursor `w`, and a flag `isFull` that tells "full" from
    "empty" when the two cursors meet. Each operation is modelled as one atomic
    sequential step; the mutex of the original is not part of the model. */
module Ringbuffer {

  newtype byte = x: int | 0 <= x < 256

  /** The status an operation reports; `Ok` stands for a nil error. */
  datatype Status = Ok | ErrIsEmpty | ErrIsFull | ErrTooManyDataToWrite

  function Min(a: int, b: int): int { if a <= b then a else b }

  // ---------------------------------------------------------------------
  // Cursor arithmetic

  /** The cursor reached by moving `k` slots forward from cursor `c` in a
      buffer of `m` slots, wrapping once at the end of the array. */
  function Advance(m: int, c: int, k: int): (a: int)
    requires 0 <= c < m && 0 <= k <= m
    ensures 0 <= a < m
  {
    if c + k < m then c + k else c + k - m
  }

  lemma ModOfShifted(m: int, x: int)
    requires 0 <= x < m
    ensures x % m == x && (m + x) % m == x
  {
  }

  /** `Advance` is the reset-to-0 step by definition; it also equals the
      remainder `(c + k) % m`. */
  lemma AdvanceIsMod(m: int, c: int, k: int)
    requires 0 <= c < m && 0 <= k <= m
    ensures Advance(m, c, k) == (c + k) % m
  {
    if c + k >= m {
      ModOfShifted(m, c + k - m);
    } else {
      ModOfShifted(m, c + k);
    }
  }

  /** Advancing in two steps is advancing by their sum. */
  lemma AdvanceTwice(m: int, c: int, j: int, k: int)
    requires 0 <= c < m && 0 <= j && 0 <= k && j + k <= m
    ensures Advance(m, Advance(m, c, j), k) == Advance(m, c, j + k)
  {
  }

  // ---------------------------------------------------------------------
  // Windows of the backing array and Go's copy

  /** The `n` bytes of `s` that start at cursor `start`, in FIFO order,
      wrapping at the end of `s`. */
  function Window(s: seq<byte>, start: int, n: int): seq<byte>
    requires 0 <= start < |s| && 0 <= n <= |s|
  {
    seq(n, i requires 0 <= i < n => s[Advance(|s|, start, i)])
  }

  /** A window that does not cross the end of the array is one slice; one that
      does is the tail of the array followed by its head. */
  lemma WindowSplit(s: seq<byte>, start: int, n: int)
    requires 0 <= start < |s| && 0 <= n <= |s|
    ensures start + n <= |s| ==> Window(s, start, n) == s[start..start + n]
    ensures start + n >= |s| ==>
      Window(s, start, n) == s[start..] + s[..start + n - |s|]
  {
    var v := Window(s, start, n);
    if start + n <= |s| {
      assert forall i | 0 <= i < n :: v[i] == s[start..start + n][i];
    }
    if start + n >= |s| {
      var c1 := |s| - start;
      var t := s[start..] + s[..start + n - |s|];
      assert |t| == n;
      forall i | 0 <= i < n ensures v[i] == t[i] {
        if i < c1 {
          assert t[i] == s[start..][i];
        } else {
          assert t[i] == s[..start + n - |s|][i - c1];
        }
      }
    }
  }

  /** Taking bytes off the front of a window leaves the window that starts
      that many slots further on. */
  lemma WindowDrop(s: seq<byte>, start: int, n: int, k: int)
    requires 0 <= start < |s| && 0 <= k <= n <= |s|
    ensures Window(s, start, n)[..k] == Window(s, start, k)
    ensures Window(s, start, n)[k..] == Window(s, Advance(|s|, start, k), n - k)
  {
    var v, u := Window(s, start, n), Window(s, Advance(|s|, start, k), n - k);
    assert forall i | 0 <= i < k :: v[..k][i] == Window(s, start, k)[i];
    forall i | 0 <= i < n - k ensures v[k..][i] == u[i] {
      assert v[k..][i] == v[k + i];
    }
  }

  /** When the slots of a window keep their bytes and the next |p| slots
      receive p, the longer window is the old one followed by p. */
  lemma WindowAppend(s: seq<byte>, t: seq<byte>, start: int, len: int, p: seq<byte>)
    requires |s| == |t| && 0 <= start < |s| && 0 <= len && len + |p| <= |s|
    requires forall j :: 0 <= j < len ==> t[Advance(|s|, start, j)] == s[Advance(|s|, start, j)]
    requires forall i :: 0 <= i < |p| ==> t[Advance(|s|, start, len + i)] == p[i]
    ensures Window(t, start, len + |p|) == Window(s, start, len) + p
  {
    var v, u := Window(t, start, len + |p|), Window(s, start, len) + p;
    forall i | 0 <= i < len + |p| ensures v[i] == u[i] {
      if i >= len {
        assert t[Advance(|s|, start, len + (i - len))] == p[i - len];
      }
    }
  }

  /** The value of `dst` after Go's `copy(dst[at:], src)` when `src` fits:
      `src` lands at `at` and every other byte stays. */
  function Copied(dst: seq<byte>, at: int, src: seq<byte>): (t: seq<byte>)
    requires 0 <= at && at + |src| <= |dst|
    ensures |t| == |dst|
  {
    dst[..at] + src + dst[at + |src|..]
  }

  /** After the copy, `src` sits at `at` and every other byte is unchanged. */
  lemma CopiedAt(dst: seq<byte>, at: int, src: seq<byte>)
    requires 0 <= at && at + |src| <= |dst|
    ensures forall k :: 0 <= k < |dst| ==>
      Copied(dst, at, src)[k] == if at <= k < at + |src| then src[k - at] else dst[k]
  {
    var t := Copied(dst, at, src);
    forall k | 0 <= k < |dst|
      ensures t[k] == if at <= k < at + |src| then src[k - at] else dst[k]
    {
      if k < at {
        assert t[k] == dst[..at][k];
      } else if k < at + |src| {
        assert t[k] == (dst[..at] + src)[k];
      } else {
        assert t[k] == dst[at + |src|..][k - at - |src|];
      }
    }
  }

  /** Go's built-in `copy(dst[at:], src)`, for a `src` that fits. */
  method CopyTo(dst: array<byte>, at: int, src: seq<byte>)
    requires 0 <= at && at + |src| <= dst.Length
    modifies dst
    ensures dst[..] == Copied(old(dst[..]), at, src)
  {
    var i := 0;
    while i < |src|
      invariant 0 <= i <= |src|
      invariant forall k :: 0 <= k < dst.Length ==>
        dst[k] == if at <= k < at + i then src[k - at] else old(dst[k])
    {
      dst[at + i] := src[i];
      i := i + 1;
    }
    CopiedAt(old(dst[..]), at, src);
  }

  /** Copying a window out of the array when it does not cross the end: one
      copy puts the window at the front of the destination. */
  lemma CopyOutContiguous(s: seq<byte>, r: int, n: int, p: seq<byte>)
    requires 0 <= r < |s| && 0 <= n && r + n <= |s| && n <= |p|
    ensures Copied(p, 0, s[r..r + n]) == Window(s, r, n) + p[n..]
  {
    WindowSplit(s, r, n);
    CopiedAt(p, 0, s[r..r + n]);
    var t, u := Copied(p, 0, s[r..r + n]), Window(s, r, n) + p[n..];
    assert forall k | 0 <= k < |p| :: t[k] == u[k];
  }

  /** Copying a window out of the array when it reaches or crosses the end:
      the tail `[r, |s|)` then the head `[0, c2)` give the window in order. */
  lemma CopyOutSplit(s: seq<byte>, r: int, n: int, p: seq<byte>)
    requires 0 <= r < |s| && |s| - r <= n <= |s| && n <= |p|
    ensures Copied(Copied(p, 0, s[r..|s|]), |s| - r, s[0..n - (|s| - r)]) == Window(s, r, n) + p[n..]
  {
    WindowSplit(s, r, n);
    var c1 := |s| - r;
    CopiedAt(p, 0, s[r..|s|]);
    CopiedAt(Copied(p, 0, s[r..|s|]), c1, s[0..n - c1]);
    var t := Copied(Copied(p, 0, s[r..|s|]), c1, s[0..n - c1]);
    var u := Window(s, r, n) + p[n..];
    forall k | 0 <= k < |p| ensures t[k] == u[k] {
      if k < c1 {
        assert u[k] == (s[r..] + s[..n - c1])[k];
      } else if k < n {
        assert u[k] == (s[r..] + s[..n - c1])[k];
      }
    }
  }

  /** Copying bytes in after the window when the free slots do not cross the
      end of the array. */
  lemma CopyInContiguous(s: seq<byte>, r: int, len: int, q: seq<byte>)
    requires 0 <= r < |s| && 0 <= len && len + |q| <= |s|
    requires Advance(|s|, r, len) + |q| <= |s|
    ensures Window(Copied(s, Advance(|s|, r, len), q), r, len + |q|) == Window(s, r, len) + q
  {
    var w := Advance(|s|, r, len);
    CopiedAt(s, w, q);
    var t := Copied(s, w, q);
    forall i | 0 <= i < |q| ensures t[Advance(|s|, r, len + i)] == q[i] {
      assert Advance(|s|, r, len + i) == w + i;
    }
    WindowAppend(s, t, r, len, q);
  }

  /** Copying bytes in after the window when the free slots cross the end:
      the first `c1` bytes fill `[w, |s|)` and the rest go to `[0, |q| - c1)`. */
  lemma CopyInSplit(s: seq<byte>, r: int, len: int, q: seq<byte>, c1: int)
    requires 0 <= r < |s| && 0 <= len && len + |q| <= |s|
    requires c1 == |s| - Advance(|s|, r, len) && 0 <= c1 < |q|
    ensures Window(Copied(Copied(s, Advance(|s|, r, len), q[..c1]), 0, q[c1..]), r, len + |q|)
         == Window(s, r, len) + q
  {
    var w := Advance(|s|, r, len);
    CopiedAt(s, w, q[..c1]);
    CopiedAt(Copied(s, w, q[..c1]), 0, q[c1..]);
    var t := Copied(Copied(s, w, q[..c1]), 0, q[c1..]);
    forall i | 0 <= i < |q| ensures t[Advance(|s|, r, len + i)] == q[i] {
      if i < c1 {
        assert Advance(|s|, r, len + i) == w + i;
        assert q[..c1][i] == q[i];
      } else {
        assert Advance(|s|, r, len + i) == i - c1;
        assert q[c1..][i - c1] == q[i];
      }
    }
    WindowAppend(s, t, r, len, q);
  }

  // ---------------------------------------------------------------------
  // The invariant that ties the cursors and the flag to the unread bytes

  /** `contents` are the unread bytes of the backing array `s`: the write
      cursor is the read cursor advanced by their count, the flag is set
      exactly when every slot is taken, and reading from `r` yields them in
      order. */
  ghost predicate Consistent(s: seq<byte>, r: int, w: int, isFull: bool, contents: seq<byte>)
  {
    0 <= r < |s| && |contents| <= |s| &&
    w == Advance(|s|, r, |contents|) &&
    isFull == (|contents| == |s|) &&
    contents == Window(s, r, |contents|)
  }

  /** The flag only matters where the cursors meet: it is never set elsewhere,
      and where they meet it alone tells a full buffer from an empty one. */
  lemma FlagAgreesWithCursors(s: seq<byte>, r: int, w: int, isFull: bool, contents: seq<byte>)
    requires Consistent(s, r, w, isFull, contents)
    ensures 0 <= w < |s|
    ensures isFull ==> r == w
    ensures r == w && !isFull <==> contents == []
    ensures r == w <==> contents == [] || isFull
  {
  }

  /** The unread count the original computes from the cursors and the flag:
      `size` when full, 0 when empty, else the distance from `r` to `w`. */
  lemma OccupiedFromCursors(s: seq<byte>, r: int, w: int, isFull: bool, contents: seq<byte>)
    requires Consistent(s, r, w, isFull, contents)
    ensures w == r ==> |contents| == (if isFull then |s| else 0)
    ensures w > r ==> |contents| == w - r
    ensures w < r ==> |contents| == |s| - r + w
  {
  }

  /** When the write cursor is behind the read cursor, the unread bytes run
      from `r` at least to the end of the array: a window from `r` that stops
      short of the end is impossible there. */
  lemma WrappedCrossesEnd(s: seq<byte>, r: int, w: int, isFull: bool, contents: seq<byte>)
    requires Consistent(s, r, w, isFull, contents) && w < r
    ensures r + |contents| >= |s|
  {
    OccupiedFromCursors(s, r, w, isFull, contents);
  }

  /** Reading `n > 0` bytes hands out the oldest `n` in order and leaves a
      consistent, not-full buffer whose read cursor has moved `n` slots. */
  lemma ReadKeepsConsistent(s: seq<byte>, r: int, w: int, isFull: bool, contents: seq<byte>, n: int)
    requires Consistent(s, r, w, isFull, contents) && 0 < n <= |contents|
    ensures contents[..n] == Window(s, r, n)
    ensures Consistent(s, Advance(|s|, r, n), w, false, contents[n..])
  {
    WindowDrop(s, r, |contents|, n);
    AdvanceTwice(|s|, r, n, |contents| - n);
  }

  /** Writing `q` (non-empty, fits the free space) into the slots after the
      unread bytes appends it to them; the buffer becomes full exactly when
      the write cursor lands on the read cursor. */
  lemma WriteKeepsConsistent(s: seq<byte>, t: seq<byte>, r: int, w: int, contents: seq<byte>, q: seq<byte>)
    requires Consistent(s, r, w, false, contents)
    requires |t| == |s| && 0 < |q| <= |s| - |contents|
    requires Window(t, r, |contents| + |q|) == contents + q
    ensures Advance(|s|, w, |q|) == r <==> |contents| + |q| == |s|
    ensures Consistent(t, r, Advance(|s|, w, |q|), Advance(|s|, w, |q|) == r, contents + q)
  {
    AdvanceTwice(|s|, r, |contents|, |q|);
  }

  // ---------------------------------------------------------------------

  class RingBuffer {
    const buf: array<byte>
    const size: int
    var r: int       // read cursor
    var w: int       // write cursor
    var isFull: bool
    /** The unread bytes, oldest first. */
    ghost var contents: seq<byte>

    ghost predicate Valid()
      reads this, buf
    {
      buf.Length == size && Consistent(buf[..], r, w, isFull, contents)
    }

    constructor (size: int)
      requires size > 0
      ensures Valid() && fresh(buf)
      ensures this.size == size && contents == []
      ensures r == 0 && w == 0 && !isFull
    {
      buf := new byte[size];
      this.size := size;
      r, w, isFull := 0, 0, false;
      contents := [];
    }

    /** Number of unread bytes. */
    function Length(): (n: int)
      reads this, buf
      requires Valid()
      ensures n == |contents|
      ensures 0 <= n <= size
    {
      OccupiedFromCursors(buf[..], r, w, isFull, contents);
      if w == r then
        if isFull then size else 0
      else if w > r then
        w - r
      else
        size - r + w
    }

    function Capacity(): (c: int)
      reads this, buf
      requires Valid()
      ensures c == buf.Length && c > 0
      ensures |contents| <= c
    {
      size
    }

    /** Number of bytes that can still be written. */
    function Free(): (n: int)
      reads this, buf
      requires Valid()
      ensures n == size - |contents|
      ensures n + Length() == Capacity()
    {
      OccupiedFromCursors(buf[..], r, w, isFull, contents);
      if w == r then
        if isFull then 0 else size
      else if w < r then
        r - w
      else
        size - w + r
    }

    function IsFull(): (b: bool)
      reads this, buf
      requires Valid()
      ensures b <==> |contents| == size
      ensures b <==> Free() == 0
    {
      isFull
    }

    function IsEmpty(): (b: bool)
      reads this, buf
      requires Valid()
      ensures b <==> contents == []
      ensures b <==> Length() == 0
    {
      FlagAgreesWithCursors(buf[..], r, w, isFull, contents);
      !isFull && w == r
    }

    /** Go's `copy(p, buf[r:r+n])`: the oldest `n` unread bytes, which do not
        cross the end of the array, go to the front of `p`. */
    method PeekContiguous(p: array<byte>, n: int)
      requires Valid() && p != buf
      requires 0 < n <= |contents| && n <= p.Length && r + n <= size
      modifies p
      ensures p[..] == contents[..n] + old(p[n..])
    {
      ghost var s, p0 := buf[..], p[..];
      CopyTo(p, 0, buf[r..r + n]);
      CopyOutContiguous(s, r, n, p0);
      WindowDrop(s, r, |contents|, n);
    }

    /** Go's `copy(p, buf[r:size])` then `copy(p[size-r:], buf[0:n-(size-r)])`:
        the oldest `n` unread bytes, which reach the end of the array, go to
        the front of `p` in order. */
    method PeekWrapped(p: array<byte>, n: int)
      requires Valid() && p != buf
      requires 0 < n <= |contents| && n <= p.Length && size - r <= n
      modifies p
      ensures p[..] == contents[..n] + old(p[n..])
    {
      ghost var s, p0 := buf[..], p[..];
      var c1 := size - r;
      CopyTo(p, 0, buf[r..size]);
      var c2 := n - c1;
      CopyTo(p, c1, buf[0..c2]);
      CopyOutSplit(s, r, n, p0);
      WindowDrop(s, r, |contents|, n);
    }

    /** The path of Read taken when the unread bytes lie in `[r, w)`: one
        copy, and the read cursor moves on. The flag is left as it is; it is
        already clear, since a full buffer has `w == r`. */
    method ReadAhead(p: array<byte>) returns (n: int)
      requires Valid() && p != buf && p.Length > 0 && w > r
      modifies this`r, this`contents, p
      ensures Valid()
      ensures n == Min(|old(contents)|, p.Length) && n > 0 && !isFull
      ensures p[..] == old(contents)[..n] + old(p[n..])
      ensures contents == old(contents)[n..]
      ensures r == Advance(size, old(r), n)
    {
      OccupiedFromCursors(buf[..], r, w, isFull, contents);
      FlagAgreesWithCursors(buf[..], r, w, isFull, contents);
      n := w - r;
      if n > p.Length {
        n := p.Length;
      }
      PeekContiguous(p, n);
      ReadKeepsConsistent(buf[..], r, w, isFull, contents, n);
      AdvanceIsMod(size, r, n);
      r := (r + n) % size;
      contents := contents[n..];
    }

    /** The path of Read taken when the unread bytes reach around the end of
        the array (or fill it): one or two copies, the read cursor moves on
        and the flag is cleared. */
    method ReadAround(p: array<byte>) returns (n: int)
      requires Valid() && p != buf && p.Length > 0 && w <= r && contents != []
      modifies this`r, this`isFull, this`contents, p
      ensures Valid()
      ensures n == Min(|old(contents)|, p.Length) && n > 0 && !isFull
      ensures p[..] == old(contents)[..n] + old(p[n..])
      ensures contents == old(contents)[n..]
      ensures r == Advance(size, old(r), n)
    {
      OccupiedFromCursors(buf[..], r, w, isFull, contents);
      n := size - r + w;
      if n > p.Length {
        n := p.Length;
      }
      if r + n <= size {
        PeekContiguous(p, n);
      } else {
        PeekWrapped(p, n);
      }
      ReadKeepsConsistent(buf[..], r, w, isFull, contents, n);
      AdvanceIsMod(size, r, n);
      r := (r + n) % size;
      isFull := false;
      contents := contents[n..];
    }

    /** Moves up to p.Length of the oldest bytes into p. */
    method Read(p: array<byte>) returns (n: int, err: Status)
      requires Valid() && p != buf
      modifies this`r, this`isFull, this`contents, p
      ensures Valid()
      ensures p.Length == 0 ==> n == 0 && err == Ok
      ensures p.Length > 0 && old(contents) == [] ==> n == 0 && err == ErrIsEmpty
      ensures p.Length > 0 && old(contents) != [] ==>
        n == Min(|old(contents)|, p.Length) && err == Ok && !isFull
      ensures 0 <= n <= p.Length && n <= |old(contents)|
      ensures p[..] == old(contents)[..n] + old(p[n..])
      ensures contents == old(contents)[n..]
      ensures r == Advance(size, old(r), n) && w == old(w)
    {
      if p.Length == 0 {
        return 0, Ok;
      }
      if w == r && !isFull {
        return 0, ErrIsEmpty;
      }
      FlagAgreesWithCursors(buf[..], r, w, isFull, contents);
      if w > r {
        n := ReadAhead(p);
      } else {
        n := ReadAround(p);
      }
      err := Ok;
    }

    /** Removes and returns the oldest byte. */
    method ReadByte() returns (b: byte, err: Status)
      requires Valid()
      modifies this
      ensures Valid()
      ensures old(contents) == [] ==> b == 0 && err == ErrIsEmpty && contents == old(contents)
      ensures old(contents) != [] ==>
        b == old(contents)[0] && err == Ok && contents == old(contents)[1..] && !isFull &&
        r == Advance(size, old(r), 1)
      ensures w == old(w)
    {
      if w == r && !isFull {
        return 0, ErrIsEmpty;
      }
      ReadKeepsConsistent(buf[..], r, w, isFull, contents, 1);
      b := buf[r];
      r := r + 1;
      if r == size {
        r := 0;
      }
      isFull := false;
      contents := contents[1..];
      err := Ok;
    }

    /** The copying half of Write: places `q`, which fits the free space, in
        the slots after the unread bytes (one copy, or two when the free slots
        cross the end of the array) and moves the write cursor past it. The
        flag and `contents` are left for the caller to update. */
    method CopyIn(q: seq<byte>)
      requires Valid() && 0 < |q| <= size - |contents|
      modifies buf, this`w
      ensures w == Advance(size, old(w), |q|)
      ensures Window(buf[..], r, |contents| + |q|) == contents + q
    {
      ghost var s, len := buf[..], |contents|;
      var n := |q|;
      if w >= r {
        var c1 := size - w;
        if c1 >= n {
          CopyTo(buf, w, q);
          CopyInContiguous(s, r, len, q);
          w := w + n;
        } else {
          CopyTo(buf, w, q[..c1]);
          var c2 := n - c1;
          CopyTo(buf, 0, q[c1..]);
          CopyInSplit(s, r, len, q, c1);
          w := c2;
        }
      } else {
        CopyTo(buf, w, q);
        CopyInContiguous(s, r, len, q);
        w := w + n;
      }
      if w == size {
        w := 0;
      }
    }

    /** Appends as many bytes of p as fit. */
    method Write(p: seq<byte>) returns (n: int, err: Status)
      requires Valid()
      modifies buf, this`w, this`isFull, this`contents
      ensures Valid()
      ensures |p| == 0 ==> n == 0 && err == Ok
      ensures |p| > 0 && old(isFull) ==> n == 0 && err == ErrIsFull
      ensures |p| > 0 && !old(isFull) ==>
        n == Min(|p|, size - |old(contents)|) && n > 0 &&
        err == (if |p| > size - |old(contents)| then ErrTooManyDataToWrite else Ok) &&
        (isFull <==> r == w) && (isFull <==> n == size - |old(contents)|)
      ensures 0 <= n <= |p|
      ensures contents == old(contents) + p[..n]
      ensures w == Advance(size, old(w), n)
    {
      if |p| == 0 {
        return 0, Ok;
      }
      if isFull {
        return 0, ErrIsFull;
      }
      OccupiedFromCursors(buf[..], r, w, isFull, contents);
      var avail: int;
      if w >= r {
        avail := size - w + r;
      } else {
        avail := r - w;
      }
      var q := p;
      err := Ok;
      if |q| > avail {
        err := ErrTooManyDataToWrite;
        q := q[..avail];
      }
      n := |q|;
      ghost var s, w0 := buf[..], w;
      CopyIn(q);
      WriteKeepsConsistent(s, buf[..], r, w0, contents, q);
      if w == r {
        isFull := true;
      }
      contents := contents + q;
    }

    /** Writes the bytes of a string: a Go string is an immutable byte
        sequence, and this is Write on those bytes. */
    method WriteString(s: seq<byte>) returns (n: int, err: Status)
      requires Valid()
      modifies buf, this`w, this`isFull, this`contents
      ensures Valid()
      ensures |s| == 0 ==> n == 0 && err == Ok
      ensures |s| > 0 && old(isFull) ==> n == 0 && err == ErrIsFull
      ensures |s| > 0 && !old(isFull) ==>
        n == Min(|s|, size - |old(contents)|) &&
        err == (if |s| > size - |old(contents)| then ErrTooManyDataToWrite else Ok)
      ensures 0 <= n <= |s|
      ensures contents == old(contents) + s[..n]
    {
      n, err := Write(s);
    }

    /** Appends one byte. */
    method WriteByte(c: byte) returns (err: Status)
      requires Valid()
      modifies buf, this`w, this`isFull, this`contents
      ensures Valid()
      ensures old(isFull) ==> err == ErrIsFull && contents == old(contents)
      ensures !old(isFull) ==>
        err == Ok && contents == old(contents) + [c] && w == Advance(size, old(w), 1) &&
        (isFull <==> r == w) && (isFull <==> |old(contents)| + 1 == size)
    {
      if w == r && isFull {
        return ErrIsFull;
      }
      ghost var s, w0, len := buf[..], w, |contents|;
      buf[w] := c;
      assert buf[..] == Copied(s, w0, [c]);
      CopyInContiguous(s, r, len, [c]);
      w := w + 1;
      if w == size {
        w := 0;
      }
      WriteKeepsConsistent(s, buf[..], r, w0, contents, [c]);
      if w == r {
        isFull := true;
      }
      contents := contents + [c];
      err := Ok;
    }

    /** A fresh copy of the unread bytes, oldest first; the buffer is left as
        it was. */
    method Bytes() returns (out: array<byte>)
      requires Valid()
      ensures fresh(out)
      ensures out[..] == contents
    {
      OccupiedFromCursors(buf[..], r, w, isFull, contents);
      if w == r {
        if isFull {
          out := new byte[size];
          PeekWrapped(out, size);
          return;
        }
        out := new byte[0];
        return;
      }
      if w > r {
        out := new byte[w - r];
        PeekContiguous(out, w - r);
        return;
      }
      var n := size - r + w;
      out := new byte[n];
      WrappedCrossesEnd(buf[..], r, w, isFull, contents);
      if r + n < size {
        assert false;
      } else {
        PeekWrapped(out, n);
      }
    }

    /** Discards the unread bytes without reallocating the array. */
    method Reset()
      requires Valid()
      modifies this
      ensures Valid()
      ensures r == 0 && w == 0 && !isFull && contents == []
      ensures buf[..] == old(buf[..])
    {
      r := 0;
      w := 0;
      isFull := false;
      contents := [];
    }
  }
}
