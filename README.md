# RingBuffer in Dafny

This project models a small embedded C library. The library has two parts:

- **A ring buffer.** It is a fixed-capacity circular FIFO of bytes, kept in a caller-supplied array. The state is `head`, `tail`, the stored length and the capacity.
  - Writes append at the tail and reads consume from the head.
  - A block that crosses the physical end of the array is copied in two parts.
  - A non-consuming search finds a keyword of 1 to 4 bytes. It assembles the keyword most significant byte first from the wrapped storage.
- **A chapter index.** It is a 16-slot circular queue of chapter lengths kept beside the ring, so that the ring's bytes can be taken out one chapter at a time.

## How the model is organised

- `circular.dfy` (module `Circular`) holds the index arithmetic of a circular array.
  - `Wrap` is the "compare with the end, then subtract or reset" step the C code uses for every index.
  - `Window` is the circular view of `n` cells from a start.
  - `CircularWrite` is a block laid down circularly.
  - The lemmas relate these views to each other.
- `words.dfy` (module `Words`) holds the byte and 32-bit word types and the byte-order functions.
  - `BigEndian` is the most-significant-byte-first assembly.
  - `EncodeBigEndian` is its inverse.
  - The module also has the two keyword byte layouts described under Findings.
- `ring_buffer.dfy` (module `RingBuffers`) holds the ring buffer.
  - It is the class `RingBuffer`, with a `storage: array<byte>` that its methods update in place, and a ghost `Contents` that holds the stored bytes oldest first.
  - The value-level predicate `Ring` states the invariant. The storage holds at least 2 cells, `head`, `tail` and `length` are in range, `tail` lies `length` cells after `head` (wrapping), and `Contents` is the circular window of `length` cells from `head`.
  - Each mutator establishes the invariant again through `WriteKeepsRing` or `ReadKeepsRing`.
  - `memcpy` is modelled by the element-wise `Copy`. Its split-path callers prove that the two copies together amount to the single circular write (`CopyAcrossEnd`) or the circular window (`CopyFromAcrossEnd`).
- `ring_buffer_chapter.dfy` (module `RingBufferChapters`) holds the chapter index.
  - It is the class `ChapterRing`, with the `standby`, `active` and `number` fields of the chapter struct.
  - A ghost `Pending` holds the recorded lengths of the waiting chapters, oldest first. The invariant ties it to the `number` slots of the length table from `standby` on.
  - The chapter length table is an `array<uint32>`, and the data ring is a `RingBuffer`.
  - The undefined `Ring_Buffer_Get_Chapter_Number` that the chapter read calls is taken to return the chapter count.
  - Only the second definition of `Ring_Buffer_Chapter_Read_String` is modelled.

`Find_Keyword` returns the 1-based distance from the head to the first byte of the match. This is the code's behaviour: `distance` is returned before it moves past the match. It also agrees with the function's own doc comment (ring_buffer.c:246), which describes the result as the number of bytes to read to reach the match's most significant byte.

## Model

| member | source | states |
|---|---|---|
| Circular.Wrap | ring_buffer.c:86-88 | one wrap-around step keeps an offset that overran by less than a turn inside the array |
| Circular.WrapIsMod | ring_buffer.c:59-62 | the conditional reset equals the remainder modulo the capacity, so `head' == (head + n) % cap` |
| Circular.CircularWriteAt | ring_buffer.c:133-158 | after a circular write, `cells[(tail + i) % cap] == input[i]` for every `i`, and every other cell is unchanged |
| Circular.WindowAppend | ring_buffer.c:123-162 | writing a block at the cell after a window's last one extends the window by exactly that block (FIFO append) |
| Circular.WindowDrop | ring_buffer.c:52-66 | dropping `k` bytes from the front of the circular window leaves the window that starts `k` cells later |
| Circular.WindowSlice | ring_buffer.c:253-257 | any run of consecutive stored bytes is the circular window at its wrapped start position |
| Circular.WindowSnoc | ring_buffer_chapter.c:13-18 | lengthening a circular window by one cell appends the cell right after its end, which is how ending a chapter adds the open slot to the waiting chapters |
| Circular.CircularWriteOne | ring_buffer.c:82 | writing a single byte circularly is an update of the one cell at the tail |
| Words.BigEndianSnoc | ring_buffer.c:276-283 | the Horner form of the assembled value: appending a byte multiplies the value of the bytes before it by 256 and adds the byte (the loop invariant of `GetWord` rests on it, although the C ORs each byte in at its final weight) |
| Words.BigEndianBound | ring_buffer.c:273-285 | an assembly of `n` bytes stays below `256^n`, so a 4-byte word fits in 32 bits |
| Words.EncodeBigEndianRoundTrip | ring_buffer.c:220-229 | splitting a value into `n` bytes, most significant first, and assembling them gives the value back |
| Words.BigEndianEncodeRoundTrip | ring_buffer.c:273-285 | assembling bytes and splitting the result gives the bytes back |
| Words.TopByte | ring_buffer.c:251-255 | the most significant byte of an assembled word is its first byte, which justifies the search's trigger filter |
| Words.InsertedKeywordBytes | ring_buffer.c:220-229 | the bytes inserted as written: the first `klen` bytes of the keyword's 32-bit big-endian form |
| Words.KeywordBytes | ring_buffer.c:218-229 | the intended keyword bytes: the low `klen` bytes, most significant first |
| RingBuffers.Copy | ring_buffer.c:147-148 | a block copy sets exactly the target cells to the source bytes and leaves the rest of the array alone |
| RingBuffers.CopyInto | ring_buffer.c:154 | the one-copy write path equals the circular write at the tail |
| RingBuffers.CopyAcrossEnd | ring_buffer.c:144-148 | the two-copy write path (to the array's end, then from its front) equals the circular write at the tail |
| RingBuffers.CopyFrom | ring_buffer.c:199 | the one-copy read path delivers the circular window at the head |
| RingBuffers.CopyFromAcrossEnd | ring_buffer.c:190-193 | the two-copy read path delivers the circular window at the head |
| RingBuffers.WriteKeepsRing | ring_buffer.c:144-158 | a block write that fits keeps the ring invariant, moves the tail on by the block's length with wrap, and appends the block to the contents |
| RingBuffers.ReadKeepsRing | ring_buffer.c:190-203 | a read or delete of `n <= length` bytes gives the first `n` stored bytes and keeps the invariant, with the head moved on by `n` with wrap and the contents losing their first `n` bytes |
| RingBuffers.FifoRoundTrip | ring_buffer.c:123-207 | on an empty ring, wherever its head sits, a block write followed by a read of the same length returns the block unchanged |
| RingBuffers.CandidateAt | ring_buffer.c:253-257 | a candidate position matches the keyword exactly when the assembled circular window equals it, and only if its first cell is the keyword's top byte |
| RingBuffers.KeywordBytesFound | ring_buffer.c:218-229 | the corrected keyword bytes, once stored, are matched where they were written |
| RingBuffers.InsertedKeywordMisses | ring_buffer.c:222-229 | the as-written insertion of the 1-byte keyword 0x41 stores 0x00, which does not match 0x41 |
| RingBuffers.RingBuffer.Init | ring_buffer.c:31-42 | zeroes head, tail and length and records the array and capacity even on failure; fails exactly when the capacity is below 2; success gives a valid empty ring |
| RingBuffers.RingBuffer.Delete | ring_buffer.c:52-66 | fails with no change exactly when `n` exceeds the stored length; otherwise head moves on by `n` with wrap, length drops by `n`, the tail is untouched and the contents lose their first `n` bytes |
| RingBuffers.RingBuffer.WriteByte | ring_buffer.c:76-90 | fails with no change exactly when full; otherwise stores the byte at the old tail, grows the length by 1, advances the tail with wrap to 0 and appends the byte to the contents |
| RingBuffers.RingBuffer.ReadByte | ring_buffer.c:99-112 | on a non-empty ring returns `storage[head]`, the oldest byte, advances the head with wrap and drops it from the contents; on an empty ring changes nothing |
| RingBuffers.RingBuffer.WriteString | ring_buffer.c:123-162 | fails with no change exactly when `length + n > capacity`; otherwise on both copy paths the storage is the circular write at the old tail, the tail moves on by `n` with wrap, the length grows by `n` and the block is appended to the contents |
| RingBuffers.RingBuffer.Put | ring_buffer.c:129-159 | the copying part of a write that fits: the storage becomes the circular write at the old tail, the tail moves on with wrap, and the block is appended to the contents |
| RingBuffers.RingBuffer.ReadString | ring_buffer.c:173-207 | fails with no change exactly when `n` exceeds the stored length; otherwise on both copy paths the output receives the `n` oldest bytes, the head moves on by `n` with wrap, the length drops by `n` and the contents lose those bytes |
| RingBuffers.RingBuffer.Take | ring_buffer.c:179-204 | the copying part of a read of `n <= length` bytes: the output receives the `n` oldest bytes, the rest of the output is untouched, the head moves on with wrap and the contents lose those bytes |
| RingBuffers.RingBuffer.InsertKeyword | ring_buffer.c:218-229 | succeeds or fails exactly as writing `klen` bytes does, and on success appends the as-written keyword bytes |
| RingBuffers.RingBuffer.InsertKeywordLowBytes | ring_buffer.c:218-229 | the corrected insertion appends the low `klen` bytes, and a keyword that fits in them then matches at the old end of the contents |
| RingBuffers.RingBuffer.GetWord | ring_buffer.c:273-285 | returns the `klen` bytes from `at`, stepping circularly, assembled most significant first, and the result is below `256^klen` |
| RingBuffers.RingBuffer.FindKeyword | ring_buffer.c:248-264 | returns the smallest 1-based distance from the head at which the `klen` stored bytes assemble to the keyword, or 0 when none of the `length - klen + 1` positions matches; it changes nothing |
| RingBuffers.RingBuffer.GetLength | ring_buffer.c:292-295 | the stored length is the number of bytes in the contents |
| RingBuffers.RingBuffer.GetFreeSize | ring_buffer.c:302-305 | the free space and the stored length add up to the capacity |
| RingBuffers.WraparoundScenario | ring_buffer.c:123-207 | capacity 8: write 1..5, delete 2, write 6..10 (split 3 + 2, tail ends at 2), then read 8 bytes to get 3..10 in order |
| RingBufferChapters.ChapterRing.constructor | ring_buffer_chapter.h:9-15 | an all-zero index over a valid ring satisfies the index invariant and has no chapter waiting |
| RingBufferChapters.ChapterRing.SetActiveEnd | ring_buffer_chapter.c:11-22 | fails with no change exactly when 16 chapters are recorded; otherwise the count grows by 1, the active slot advances with wrap at 16, and the length in the old active slot joins the end of the waiting chapters; the invariant `active == (standby + number) % 16` is kept |
| RingBufferChapters.ChapterRing.ChapterGetCount | ring_buffer_chapter.c:29-32 | the count is the number of waiting chapters, at most 16, and the active slot lies that many slots after the standby slot, wrapping at 16 |
| RingBufferChapters.ChapterRing.ChapterGetStandbyLength | ring_buffer_chapter.c:39-42 | with a chapter waiting, the result is the oldest waiting chapter's length, the first of the waiting chapters; with none waiting, it is the stale entry of the standby slot |
| RingBufferChapters.ChapterRing.ChapterReadString | ring_buffer_chapter.c:78-91 | fails with no change (index, ring head, length and contents, output) exactly when no chapter is waiting. Otherwise it drops the oldest chapter from the waiting chapters (count down by 1, standby advanced with wrap), whether or not the ring read succeeds. If the ring holds that chapter's `len` bytes, the output receives the `len` oldest bytes, the ring head moves on by `len` with wrap and the contents lose them; if not, the ring and output are unchanged. The ring tail never moves |
| RingBufferChapters.ChapterRoundTrip | ring_buffer_chapter.c:78-91 | write 7, 8, 9, record a chapter of length 3 and end it, then read the chapter: the output is 7, 8, 9 and both the index and the ring end up empty |
| RingBufferChapters.ChapterOverEmptyRing | ring_buffer_chapter.c:80-88 | a chapter of recorded length 5 over an empty ring is consumed: the read succeeds, the count drops to 0 and the ring still holds 0 bytes |

## Left out

- Pointers and `memcpy` are modelled as element-wise copies between Dafny arrays. The caller's output array must be a different array from the storage. The caller's ownership and the lifetime of the backing array are not modelled.
- Concurrency is not modelled. The buffer is often shared between an interrupt handler and a main loop, but the code has no locking, so the model is single-threaded.
- The big-endian-host branch of `Ring_Buffer_Insert_Keyword` (ring_buffer.c:230-238) is not modelled. Only the little-endian branch is.
- RingBuffers.RingBuffer.ReadByte: the byte returned from an empty ring is left unspecified, because the code returns an uninitialised local.
- RingBuffers.RingBuffer.WriteString: requires `length + n < 2^32`. The uint32 wrap-around of that sum in the capacity test is not modelled.
- RingBuffers.RingBuffer.InsertKeyword: requires `length + klen < 2^32`, for the same reason.
- RingBuffers.RingBuffer.InsertKeywordLowBytes: requires `length + klen < 2^32`, for the same reason.
- RingBuffers.RingBuffer.FindKeyword: requires `1 <= klen <= 4` and `klen <= length + 1`.
  - The uint32 underflow of the number of positions to scan when `klen > length + 1` is not modelled.
  - Neither is a keyword length the word assembly cannot hold.
- RingBuffers.RingBuffer.GetWord: requires `at < capacity` and `klen <= capacity`. The C helper is private and has no bounds checks. Its one caller only asks for positions inside the stored bytes.
- RingBuffers.RingBuffer.ReadString: requires `n <= output.Length`. In C the caller must supply a buffer that is large enough.
- RingBuffers.RingBuffer.Delete: the count is a byte (0..255), after the `uint8_t` parameter.
- RingBuffers.RingBuffer.constructor stands for a handle that has been declared but not yet initialised. Only `Init` gives it a storage array and capacity.
- RingBufferChapters.ChapterRing.constructor stands for a zero-initialised chapter struct. The library has no initialiser for the chapter fields (ring_buffer_chapter.h:9-15 only declares them), so the index invariant holds in C only when the caller zeroes them.
- The first, duplicate `Ring_Buffer_Chapter_Read_String` (ring_buffer_chapter.c:53-66) and the stray `#endif` after it are not modelled.
- The unused `output_addr` parameter of `Ring_Buffer_Chapter_Get_Count` is dropped. The header declares the function without it.
- The chapter fields are declared in a struct of their own, but the code reaches them through the ring handle. The model puts them in `ChapterRing` beside a reference to its `RingBuffer`.
- Nothing in the chapter file writes the chapter length table, so the model does not claim that recorded lengths match the bytes written. The table is a caller-provided array that the chapter operations only read. The caller records a chapter's length in the open slot before ending it; a write to the slot of a waiting chapter falls outside the model.
- RingBufferChapters.ChapterRing.ChapterReadString: requires the oldest waiting chapter's length to be at most `output.Length`, and an output array that is not the ring's storage.
- The status codes are the byte constants `Success` (0x01) and `Error` (0x00) from ring_buffer.h:15-16.

## Findings

| source | as written | input that shows it | evidently intended | confidence | as-written member | corrected member |
|---|---|---|---|---|---|---|
| ring_buffer.c:222-229 | on a little-endian host the keyword is written as the first `klen` bytes of its 32-bit big-endian form, which for `klen < 4` are its high bytes | inserting keyword 0x41 with length 1 stores the byte 0x00, so a search for 0x41 of length 1 does not find it | write the keyword's low `klen` bytes, most significant first, which is the order `Ring_Buffer_Find_Keyword` assembles | high; not executed | RingBuffers.InsertedKeywordMisses | RingBuffers.RingBuffer.InsertKeywordLowBytes |
