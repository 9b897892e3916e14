# Ring buffer model

A Dafny model of `ring_buffer.go`, a fixed-capacity FIFO byte buffer.
`RingBuffer` keeps a backing array of `size` bytes, a read cursor `r` and a
write cursor `w`. When the two cursors meet, the buffer is either empty or
full, and a flag `isFull` tells which. Reads and writes that run past the end
of the array are done as two copies, one up to the end and one from index 0.

`ring_buffer.dfy` (module `Ringbuffer`) holds the model:

- The class `RingBuffer` has the same fields as the Go struct. It adds a
  ghost field `contents`, the unread bytes oldest first.
- Its invariant `Valid()` ties the cursors, the flag and the array to
  `contents`:
  - `w` is `r` moved `|contents|` slots forward, wrapping at the end;
  - `isFull` holds exactly when `|contents| == size`;
  - reading the array from `r` onwards, wrapping, gives `contents` in order.
- Every operation is a method or a function of the class. Each has the same
  branches, constants and error values as the Go code. Each is proved to keep
  `Valid()` and to change `contents` as the source documents: a read takes a
  prefix and a write appends.
- Go's built-in `copy` is the method `CopyTo`, specified by the value-level
  function `Copied`.
- The cursor arithmetic is the function `Advance`, which is the reset-to-0
  step by definition. The lemma `AdvanceIsMod` shows it also equals Go's
  `(c + k) % size`.
- Some steps of Read, Write and Bytes are separate methods, each modelling
  the lines cited in the table below:
  - the two paths of Read: `ReadAhead` (w > r) and `ReadAround`;
  - the one-copy and two-copy reads of unread bytes, shared by Read and
    Bytes: `PeekContiguous` and `PeekWrapped`;
  - the copy half of Write: `CopyIn`.

`scenarios.dfy` (module `Scenarios`) proves what a caller observes after
concrete sequences of calls on small buffers. It also proves the general
write-then-read round trip from any empty buffer, and that streaming any
byte sequence through a buffer of any capacity returns it unchanged.

Wrap-around example: with capacity 4, write 3 bytes and read 2. One byte is
still unread, so 3 slots are free and a 3-byte write is accepted whole
(`Scenarios.WriteAcrossTheEnd`). `Scenarios.WriteTooMuch` shows
`ErrTooManyDataToWrite` with a 4-byte write.

## Model

| member | source | states |
|---|---|---|
| Ringbuffer.RingBuffer.constructor | ring_buffer.go:30-35 | New allocates a `size`-byte array (size > 0) with both cursors at 0, the flag clear and no unread bytes |
| Ringbuffer.RingBuffer.Length | ring_buffer.go:192-208 | the count the cursors and flag give (size when full, 0 when empty, else the cursor distance) equals the number of unread bytes, which is at most the capacity |
| Ringbuffer.RingBuffer.Capacity | ring_buffer.go:211-213 | the capacity is the length of the backing array, is positive and bounds the unread bytes |
| Ringbuffer.RingBuffer.Free | ring_buffer.go:217-234 | the free count computed from the cursors is capacity minus unread bytes, so Length + Free == Capacity |
| Ringbuffer.RingBuffer.IsFull | ring_buffer.go:283-288 | the flag is set exactly when the unread bytes fill the buffer, i.e. when Free is 0 |
| Ringbuffer.RingBuffer.IsEmpty | ring_buffer.go:292-297 | "cursors meet and flag clear" holds exactly when there are no unread bytes, i.e. when Length is 0 |
| Ringbuffer.RingBuffer.Read | ring_buffer.go:40-81 | an empty p gives (0, nil) and an empty buffer gives (0, ErrIsEmpty); otherwise n = min(unread, len(p)), p starts with the oldest n bytes in order and the rest of p is untouched, those bytes leave the buffer, r moves n slots, w stays and the buffer is not full |
| Ringbuffer.RingBuffer.ReadAhead | ring_buffer.go:52-61 | when w > r, one copy hands out min(w - r, len(p)) oldest bytes and r moves on; the flag, which this path does not touch, is already clear |
| Ringbuffer.RingBuffer.ReadAround | ring_buffer.go:63-80 | when w <= r and the buffer is not empty, one or two copies hand out min(unread, len(p)) oldest bytes in order, r moves on and the flag is cleared |
| Ringbuffer.RingBuffer.PeekContiguous | ring_buffer.go:68-69 | copying `buf[r:r+n]` when it does not cross the end puts the oldest n unread bytes at the front of p and leaves the rest of p |
| Ringbuffer.RingBuffer.PeekWrapped | ring_buffer.go:70-75 | copying `buf[r:size]` and then `buf[0:n-c1]` after it puts the oldest n unread bytes, in order, at the front of p |
| Ringbuffer.RingBuffer.ReadByte | ring_buffer.go:84-99 | an empty buffer gives (0, ErrIsEmpty) and is unchanged; otherwise the oldest byte is returned and removed, r moves one slot (wrapping) and the buffer is not full |
| Ringbuffer.RingBuffer.Write | ring_buffer.go:105-166 | an empty p gives (0, nil) and a full buffer (0, ErrIsFull); otherwise n = min(len(p), Free) > 0, the first n bytes of p are appended, ErrTooManyDataToWrite is reported exactly when p did not fit, w moves n slots, and the buffer is full exactly when w meets r, exactly when n equalled Free |
| Ringbuffer.RingBuffer.CopyIn | ring_buffer.go:132-157 | the one- or two-copy placement puts the accepted bytes in the slots after the unread ones, in order, and leaves w one past them, wrapped |
| Ringbuffer.RingBuffer.WriteString | ring_buffer.go:237-242 | writing a string is Write on its bytes: same count, error and appended prefix |
| Ringbuffer.RingBuffer.WriteByte | ring_buffer.go:171-189 | a full buffer gives ErrIsFull and is unchanged; otherwise the byte is appended, w moves one slot (wrapping), and the buffer is full exactly when w meets r, exactly when this byte took the last free slot |
| Ringbuffer.RingBuffer.Bytes | ring_buffer.go:246-280 | returns a fresh array holding exactly the unread bytes, oldest first (no bytes when empty), and changes nothing |
| Ringbuffer.RingBuffer.Reset | ring_buffer.go:301-308 | both cursors go to 0, the flag clears, nothing is unread, and the backing array keeps its bytes (no reallocation) |
| Ringbuffer.CopyTo | ring_buffer.go:57 | Go's `copy(dst[at:], src)` for a source that fits writes src at `at` and leaves every other byte of dst |
| Ringbuffer.AdvanceIsMod | ring_buffer.go:76 | moving a cursor k slots with one wrap equals Go's `(c + k) % size`, for every cursor and every k up to size |
| Ringbuffer.FlagAgreesWithCursors | ring_buffer.go:47 | under the invariant the flag implies w == r, and "w == r with the flag clear" holds exactly when the buffer is empty, so "w == r" means empty or full |
| Ringbuffer.OccupiedFromCursors | ring_buffer.go:196-207 | under the invariant the unread count is size or 0 when the cursors meet (by the flag), w - r when w > r, and size - r + w when w < r |
| Ringbuffer.WrappedCrossesEnd | ring_buffer.go:267-277 | when w < r the unread bytes reach the end of the array, so the `r+n < size` branch of Bytes can never be taken |
| Ringbuffer.ReadKeepsConsistent | ring_buffer.go:76-78 | taking n > 0 bytes hands out the oldest n in order, and moving r on n slots with the flag cleared leaves a consistent buffer holding the rest |
| Ringbuffer.WriteKeepsConsistent | ring_buffer.go:159-162 | after non-empty bytes that fit are placed after the unread ones, moving w on and setting the flag when w meets r leaves a consistent buffer, and w meets r exactly when the buffer became full |
| Ringbuffer.WindowSplit | ring_buffer.go:68-75 | the unread window from r is one slice when it does not cross the end and the tail slice followed by the head slice when it does |
| Ringbuffer.WindowDrop | ring_buffer.go:58 | removing k bytes from the front of the window from r leaves the window that starts k slots further on |
| Ringbuffer.CopyOutContiguous | ring_buffer.go:57 | one copy of `buf[r:r+n]` into p yields the window of n bytes from r followed by the untouched rest of p |
| Ringbuffer.CopyOutSplit | ring_buffer.go:72-74 | the two copies `buf[r:size]` then `buf[0:n-c1]` into p yield the window of n bytes from r, in order, followed by the untouched rest of p |
| Ringbuffer.CopyInContiguous | ring_buffer.go:137-138 | copying q at w when it fits before the end extends the window from r by q |
| Ringbuffer.CopyInSplit | ring_buffer.go:143-146 | copying the first c1 bytes of q at w and the rest at 0 extends the window from r by all of q, in order |
| Scenarios.NewBufferIsEmpty | ring_buffer.go:30-50 | a new buffer of 4 reports length 0, free 4, empty and not full; a zero-length read is (0, nil) and a read is (0, ErrIsEmpty) |
| Scenarios.FullAndEmptyCursorsMeet | ring_buffer.go:159-162 | filling a buffer of 2 makes the cursors meet with the flag set; further writes report ErrIsFull; reading returns both bytes in order, after which the cursors meet with the buffer empty |
| Scenarios.WriteAcrossTheEnd | ring_buffer.go:132-147 | capacity 4, write 3, read 2, write 3: all 3 are accepted without error, the buffer is full and holds [3, 4, 5, 6] |
| Scenarios.WriteTooMuch | ring_buffer.go:124-127 | the same run writing 4 bytes accepts 3 and reports ErrTooManyDataToWrite |
| Scenarios.ReadAcrossTheEnd | ring_buffer.go:70-75 | a read whose bytes straddle the end of the array returns them in write order and empties the buffer |
| Scenarios.BytewiseWrap | ring_buffer.go:171-189 | single-byte writes and reads wrap around a buffer of 3, keep FIFO order and report ErrIsFull once full |
| Scenarios.ResetEmpties | ring_buffer.go:301-308 | after Reset a full buffer is empty with both cursors at 0, its snapshot has no bytes, and a full-capacity write is accepted |
| Scenarios.RoundTrip | ring_buffer.go:40-166 | from any empty buffer, wherever its cursors are, writing up to a capacity's worth of bytes and reading them back returns exactly those bytes and leaves it empty |
| Scenarios.Stream | ring_buffer.go:40-166 | pushing a byte sequence of any length through a buffer of any capacity, writing what fits and reading it all back each round, returns exactly that sequence, however many times the cursors wrap |

## Left out

- The mutex `mu` and its Lock/Unlock calls: each operation is one sequential step, and concurrent use is not modelled.
- Ringbuffer.RingBuffer.WriteString: the unsafe reinterpretation of the string header is not modelled; the string is taken as its bytes.
- Conformance to Go's `io.Reader`, `io.Writer`, `io.ByteReader` and `io.ByteWriter` interfaces: Go type-system facts with no behaviour of their own.
- Ringbuffer.RingBuffer.constructor: requires size > 0, so `make` panicking on a negative size, and the degenerate size-0 buffer, are not modelled.
- Go's fixed-width `int`: cursors and counts are unbounded integers. The cursors stay in [0, size), so the model ignores overflow of `r + n` near the largest `int`.
- Ringbuffer.RingBuffer.Bytes: Go returns a `nil` slice for an empty buffer; the model returns a zero-length array. A nil slice has length 0 and behaves like an empty one for `len`, `range` and `copy`; only a comparison with `nil` tells them apart, and the model does not capture it.
- Ringbuffer.RingBuffer.Read: requires p is not the backing array. Callers cannot reach the unexported `buf`, so Go cannot have this aliasing.
- Ringbuffer.RingBuffer.Read: Go allows Read to use all of p as scratch space. The model promises more, that p beyond the n bytes read is untouched, which is what the code does.
- Ringbuffer.RingBuffer.Write: p is a value (`seq<byte>`), since Go's Write must not modify it.
- Ringbuffer.CopyTo: models Go's `copy` only when the source fits in the destination, which every call in the core satisfies; Go's truncation to the shorter length is not modelled.
