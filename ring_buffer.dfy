/** The raw ring buffer: a caller-supplied byte array used as a circular FIFO. */
module RingBuffers {
  import opened Words
  import opened Circular

  /** Status codes returned by every mutator. */
  const Success: byte := 0x01
  const Error: byte := 0x00

  /** Element-wise block copy of `src` into `dst` from `at` on (what `memcpy` does to the
      array). */
  method Copy<T>(dst: array<T>, at: nat, src: seq<T>)
    requires at + |src| <= dst.Length
    modifies dst
    ensures forall i :: 0 <= i < |src| ==> dst[at + i] == src[i]
    ensures forall j :: 0 <= j < dst.Length && !(at <= j < at + |src|) ==> dst[j] == old(dst[j])
  {
    var i := 0;
    while i < |src|
      invariant 0 <= i <= |src|
      invariant forall k :: 0 <= k < i ==> dst[at + k] == src[k]
      invariant forall j :: 0 <= j < dst.Length && !(at <= j < at + i) ==> dst[j] == old(dst[j])
    {
      dst[at + i] := src[i];
      i := i + 1;
    }
  }

  /** A block write that fits between `at` and the end of `dst`: one copy, which is the
      circular write. */
  method CopyInto<T>(dst: array<T>, at: nat, src: seq<T>)
    requires at < dst.Length && at + |src| <= dst.Length
    modifies dst
    ensures dst[..] == CircularWrite(old(dst[..]), at, src)
  {
    ghost var s := dst[..];
    Copy(dst, at, src);
    forall j | 0 <= j < dst.Length
      ensures dst[..][j] == CircularWrite(s, at, src)[j]
    {
      if at <= j < at + |src| {
        assert dst[at + (j - at)] == src[j - at];
      } else {
        assert Offset(j, at, dst.Length) >= |src|;
        assert dst[j] == s[j];
      }
    }
  }

  /** A block write that crosses the end of `dst`: the first `a` bytes of `src` fill `dst` from
      `at` to its end and the rest go to its front. The two copies together are the circular
      write. */
  method CopyAcrossEnd<T>(dst: array<T>, at: nat, src: seq<T>, a: nat)
    requires at < dst.Length && |src| <= dst.Length && a == dst.Length - at < |src|
    modifies dst
    ensures dst[..] == CircularWrite(old(dst[..]), at, src)
  {
    ghost var s := dst[..];
    Copy(dst, at, src[..a]);
    Copy(dst, 0, src[a..]);
    forall j | 0 <= j < dst.Length
      ensures dst[..][j] == CircularWrite(s, at, src)[j]
    {
      if j < |src| - a {
        assert Offset(j, at, dst.Length) == a + j;
        assert dst[0 + j] == src[a..][j];
      } else if at <= j {
        assert Offset(j, at, dst.Length) == j - at;
        assert dst[at + (j - at)] == src[..a][j - at];
      } else {
        assert Offset(j, at, dst.Length) >= |src|;
        assert dst[j] == s[j];
      }
    }
  }

  /** A block read that stays within `src`: one copy of `src[at..at + n]` into `dst[..n]`,
      which is the circular window. */
  method CopyFrom<T>(dst: array<T>, src: array<T>, at: nat, n: nat)
    requires dst != src && n <= dst.Length && at < src.Length && at + n <= src.Length
    modifies dst
    ensures dst[..n] == Window(src[..], at, n) && dst[n..] == old(dst[n..])
  {
    Copy(dst, 0, src[at..at + n]);
    forall i | 0 <= i < n
      ensures dst[..n][i] == Window(src[..], at, n)[i]
    {
      assert Wrap(at + i, src.Length) == at + i;
      assert dst[0 + i] == src[at..at + n][i];
    }
  }

  /** A block read that crosses the end of `src`: from `at` to its end, then from its front,
      into `dst[..n]`. The two copies together read the circular window. */
  method CopyFromAcrossEnd<T>(dst: array<T>, src: array<T>, at: nat, n: nat, a: nat)
    requires dst != src && n <= dst.Length
    requires at < src.Length && n <= src.Length && a == src.Length - at < n
    modifies dst
    ensures dst[..n] == Window(src[..], at, n) && dst[n..] == old(dst[n..])
  {
    Copy(dst, 0, src[at..at + a]);
    Copy(dst, a, src[..n - a]);
    forall i | 0 <= i < n
      ensures dst[..n][i] == Window(src[..], at, n)[i]
    {
      if i < a {
        assert Wrap(at + i, src.Length) == at + i;
        assert dst[0 + i] == src[at..at + a][i];
      } else {
        assert Wrap(at + i, src.Length) == i - a;
        assert dst[a + (i - a)] == src[..n - a][i - a];
      }
    }
  }

  /** The keyword `keyword` of `klen` bytes occurs at index `i` of `s`, assembled most
      significant byte first. */
  ghost predicate MatchAt(s: seq<byte>, i: nat, klen: nat, keyword: nat)
  {
    i + klen <= |s| && BigEndian(s[i..i + klen]) == keyword
  }

  /** The ring invariant over plain values: `cells` is the storage, the indices are in range,
      `tail` lies `length` cells after `head` (wrapping once), and the stored bytes are the
      circular window of `length` cells that starts at `head`. */
  ghost predicate Ring(cells: seq<byte>, head: nat, tail: nat, length: nat, contents: seq<byte>)
  {
    2 <= |cells| && head < |cells| && tail < |cells| && length <= |cells| &&
    tail == Wrap(head + length, |cells|) && contents == Window(cells, head, length)
  }

  /** A block write that fits keeps the invariant: the split copies amount to the single
      circular copy at `tail`, the tail moves on by the block's length, and the block is
      appended to the contents. */
  lemma WriteKeepsRing(cells: seq<byte>, head: nat, tail: nat, length: nat, contents: seq<byte>,
                       input: seq<byte>)
    requires Ring(cells, head, tail, length, contents) && length + |input| <= |cells|
    ensures tail + |input| < 2 * |cells|
    ensures Ring(CircularWrite(cells, tail, input), head, Wrap(tail + |input|, |cells|),
                 length + |input|, contents + input)
  {
    WindowAppend(cells, head, length, input);
    assert Wrap(tail + |input|, |cells|) == Wrap(head + (length + |input|), |cells|);
  }

  /** Removing `n` stored bytes keeps the invariant: the split copies read exactly the first
      `n` bytes, and the head moves on by `n`. */
  lemma ReadKeepsRing(cells: seq<byte>, head: nat, tail: nat, length: nat, contents: seq<byte>,
                      n: nat)
    requires Ring(cells, head, tail, length, contents) && n <= length
    ensures head + n < 2 * |cells|
    ensures Window(cells, head, n) == contents[..n]
    ensures Ring(cells, Wrap(head + n, |cells|), tail, length - n, contents[n..])
  {
    WindowSlice(cells, head, length, 0, n);
    WindowDrop(cells, head, length, n);
    assert Wrap(Wrap(head + n, |cells|) + (length - n), |cells|) == tail;
  }

  /** First in, first out across the wrap-around: on an empty ring, wherever its head sits,
      a block write followed by a read of the same length gives the block back unchanged. */
  lemma FifoRoundTrip(cells: seq<byte>, head: nat, tail: nat, input: seq<byte>)
    requires Ring(cells, head, tail, 0, []) && |input| <= |cells|
    ensures Window(CircularWrite(cells, tail, input), head, |input|) == input
  {
    WindowAppend(cells, head, 0, input);
  }

  /** The `m` stored bytes starting `k` bytes after the head are the circular window of the
      storage at the wrapped position. So they match `keyword` exactly when that window
      assembles to it, and only if the window's first cell is the keyword's top byte. */
  lemma CandidateAt(cells: seq<byte>, head: nat, tail: nat, length: nat, contents: seq<byte>,
                    k: nat, m: nat, keyword: nat)
    requires Ring(cells, head, tail, length, contents) && 1 <= m && k + m <= length
    ensures head + k < 2 * |cells|
    ensures MatchAt(contents, k, m, keyword) <==>
      BigEndian(Window(cells, Wrap(head + k, |cells|), m)) == keyword
    ensures MatchAt(contents, k, m, keyword) ==>
      cells[Wrap(head + k, |cells|)] == (keyword / Pow256(m - 1)) % 256
  {
    WindowSlice(cells, head, length, k, m);
    if MatchAt(contents, k, m, keyword) {
      TopByte(contents[k..k + m]);
    }
  }

  /** Every keyword of `klen` bytes that fits in them is found where its corrected encoding
      was placed: `KeywordBytes` lays out the low `klen` bytes of `keyword` most significant
      first, which is what the search assembles. */
  lemma KeywordBytesFound(prefix: seq<byte>, keyword: nat, klen: nat)
    requires keyword < Pow256(klen)
    ensures MatchAt(prefix + KeywordBytes(keyword, klen), |prefix|, klen, keyword)
  {
    var s := prefix + KeywordBytes(keyword, klen);
    assert s[|prefix|..|prefix| + klen] == KeywordBytes(keyword, klen);
    EncodeBigEndianRoundTrip(keyword, klen);
  }

  /** As written, inserting the one-byte keyword 0x41 stores the byte 0x00 (the most
      significant byte of the 32-bit word), so a search for that keyword does not find it. */
  lemma InsertedKeywordMisses()
    ensures InsertedKeywordBytes(0x41, 1) == [0x00]
    ensures !MatchAt([] + InsertedKeywordBytes(0x41, 1), 0, 1, 0x41)
  {
    assert EncodeBigEndian(0x41, 4) == [0x00, 0x00, 0x00, 0x41];
    assert [] + InsertedKeywordBytes(0x41, 1) == [0x00];
    assert BigEndian([0x00]) == 0;
  }

  class RingBuffer {
    /** The bytes stored, oldest first: the abstract value of the buffer. */
    ghost var Contents: seq<byte>

    var head: uint32      // offset of the next byte to read
    var tail: uint32      // offset of the next byte to write
    var length: uint32    // number of bytes stored
    var storage: array<byte>
    var capacity: uint32  // the number of bytes the storage holds

    /** The object invariant: the ring invariant holds of the storage's cells, and the
        capacity is the storage's size. */
    ghost predicate Valid()
      reads this, storage
    {
      storage.Length == capacity && Ring(storage[..], head, tail, length, Contents)
    }

    /** A handle that has been declared but not yet initialised. */
    constructor ()
      ensures head == 0 && tail == 0 && length == 0 && capacity == 0 && Contents == []
    {
      head, tail, length := 0, 0, 0;
      storage := new byte[0];
      capacity := 0;
      Contents := [];
    }

    /** Attach `buffer` and empty the ring. The fields are set even when the buffer is too
        small, but only a buffer of two bytes or more gives a valid ring. */
    method Init(buffer: array<byte>, size: uint32) returns (status: byte)
      requires buffer.Length == size
      modifies this
      ensures head == 0 && tail == 0 && length == 0
      ensures storage == buffer && capacity == size && Contents == []
      ensures status == (if size < 2 then Error else Success)
      ensures status == Success ==> Valid()
    {
      head := 0;
      tail := 0;
      length := 0;
      storage := buffer;
      capacity := size;
      Contents := [];
      if capacity < 2 {
        return Error;
      } else {
        return Success;
      }
    }

    /** Discard the `n` oldest bytes; fails without any change when fewer are stored. */
    method Delete(n: byte) returns (status: byte)
      requires Valid()
      modifies this
      ensures Valid() && storage == old(storage) && capacity == old(capacity)
      ensures status == (if old(length) < n then Error else Success)
      ensures tail == old(tail)
      ensures status == Success ==>
        head == Wrap(old(head) + n, capacity) && length == old(length) - n &&
        Contents == old(Contents)[n..]
      ensures status == Error ==>
        head == old(head) && length == old(length) && Contents == old(Contents)
    {
      if length < n {
        return Error;
      } else {
        ReadKeepsRing(storage[..], head, tail, length, Contents, n);
        if head + n >= capacity {
          head := n - (capacity - head);
        } else {
          head := head + n;
        }
        length := length - n;
        Contents := Contents[n..];
        return Success;
      }
    }

    /** Append one byte at the tail; fails without any change when the ring is full. */
    method WriteByte(data: byte) returns (status: byte)
      requires Valid()
      modifies this, storage
      ensures Valid() && storage == old(storage) && capacity == old(capacity)
      ensures status == (if old(length) >= capacity then Error else Success)
      ensures head == old(head)
      ensures status == Success ==>
        storage[..] == old(storage[..])[old(tail) := data] &&
        length == old(length) + 1 && tail == Wrap(old(tail) + 1, capacity) &&
        Contents == old(Contents) + [data]
      ensures status == Error ==>
        storage[..] == old(storage[..]) && tail == old(tail) && length == old(length) &&
        Contents == old(Contents)
    {
      if length >= capacity {
        return Error;
      } else {
        WriteKeepsRing(storage[..], head, tail, length, Contents, [data]);
        CircularWriteOne(storage[..], tail, data);
        storage[tail] := data;
        length := length + 1;
        tail := tail + 1;
        Contents := Contents + [data];
      }
      if tail >= capacity {
        tail := 0;
      }
      return Success;
    }

    /** Take the oldest byte. On an empty ring nothing changes and the byte returned is
        unspecified. */
    method ReadByte() returns (data: byte)
      requires Valid()
      modifies this
      ensures Valid() && storage == old(storage) && capacity == old(capacity)
      ensures tail == old(tail)
      ensures old(length) != 0 ==>
        data == old(Contents)[0] && data == storage[old(head)] &&
        head == Wrap(old(head) + 1, capacity) && length == old(length) - 1 &&
        Contents == old(Contents)[1..]
      ensures old(length) == 0 ==> head == old(head) && length == 0 && Contents == old(Contents)
    {
      data := *;
      if length != 0 {
        ReadKeepsRing(storage[..], head, tail, length, Contents, 1);
        data := storage[head];
        assert Contents[0] == storage[..][Wrap(head + 0, capacity)];
        head := head + 1;
        length := length - 1;
        Contents := Contents[1..];
        if head > capacity - 1 {
          head := 0;
        }
      }
    }

    /** Append `input` at the tail, copying it in two parts when it crosses the end of the
        array; fails without any change when it does not fit. */
    method WriteString(input: seq<byte>) returns (status: byte)
      requires Valid()
      requires length + |input| < 0x1_0000_0000
      modifies this, storage
      ensures Valid() && storage == old(storage) && capacity == old(capacity)
      ensures status == (if old(length) + |input| > capacity then Error else Success)
      ensures head == old(head)
      ensures status == Success ==>
        storage[..] == CircularWrite(old(storage[..]), old(tail), input) &&
        tail == Wrap(old(tail) + |input|, capacity) && length == old(length) + |input| &&
        Contents == old(Contents) + input
      ensures status == Error ==>
        storage[..] == old(storage[..]) && tail == old(tail) && length == old(length) &&
        Contents == old(Contents)
    {
      if length + |input| > capacity {
        return Error;
      } else {
        Put(input);
        return Success;
      }
    }

    /** The successful part of `WriteString`: `input` fits, so the copies go ahead. */
    method Put(input: seq<byte>)
      requires Valid()
      requires length + |input| <= capacity
      modifies this, storage
      ensures Valid() && storage == old(storage) && capacity == old(capacity) && head == old(head)
      ensures storage[..] == CircularWrite(old(storage[..]), old(tail), input)
      ensures tail == Wrap(old(tail) + |input|, capacity) && length == old(length) + |input|
      ensures Contents == old(Contents) + input
    {
      WriteKeepsRing(storage[..], head, tail, length, Contents, input);
      var a: uint32, b: uint32;
      if capacity - tail < |input| {
        a := capacity - tail;
        b := |input| - a;
      } else {
        a := |input|;
        b := 0;
      }
      if b != 0 {
        CopyAcrossEnd(storage, tail, input, a);
        length := length + |input|;
        tail := b;
      } else {
        CopyInto(storage, tail, input);
        length := length + |input|;
        tail := tail + a;
        if tail == capacity {
          tail := 0;
        }
      }
      Contents := Contents + input;
    }

    /** Take the `n` oldest bytes into `output[..n]`, copying in two parts when they cross the
        end of the array; fails without any change when fewer are stored. */
    method ReadString(output: array<byte>, n: uint32) returns (status: byte)
      requires Valid()
      requires n <= output.Length && output != storage
      modifies this, output
      ensures Valid() && storage == old(storage) && capacity == old(capacity)
      ensures status == (if n > old(length) then Error else Success)
      ensures tail == old(tail)
      ensures status == Success ==>
        output[..n] == old(Contents)[..n] && output[n..] == old(output[n..]) &&
        head == Wrap(old(head) + n, capacity) && length == old(length) - n &&
        Contents == old(Contents)[n..]
      ensures status == Error ==>
        output[..] == old(output[..]) && head == old(head) && length == old(length) &&
        Contents == old(Contents)
    {
      if n > length {
        return Error;
      } else {
        Take(output, n);
        return Success;
      }
    }

    /** The successful part of `ReadString`: `n` bytes are stored, so the copies go ahead. */
    method Take(output: array<byte>, n: uint32)
      requires Valid()
      requires n <= length && n <= output.Length && output != storage
      modifies this, output
      ensures Valid() && storage == old(storage) && capacity == old(capacity) && tail == old(tail)
      ensures output[..n] == old(Contents)[..n] && output[n..] == old(output[n..])
      ensures head == Wrap(old(head) + n, capacity) && length == old(length) - n
      ensures Contents == old(Contents)[n..]
    {
      ReadKeepsRing(storage[..], head, tail, length, Contents, n);
      ghost var taken := Contents[..n];
      var a: uint32, b: uint32;
      if n > capacity - head {
        a := capacity - head;
        b := n - a;
      } else {
        a := n;
        b := 0;
      }
      if b != 0 {
        CopyFromAcrossEnd(output, storage, head, n, a);
        assert output[..n] == taken;
        length := length - n;
        head := b;
      } else {
        CopyFrom(output, storage, head, n);
        assert output[..n] == taken;
        length := length - n;
        head := head + a;
        if head == capacity {
          head := 0;
        }
      }
      Contents := Contents[n..];
    }

    /** Write the keyword's bytes as the little-endian build lays them out: the 32-bit word
        most significant byte first, of which the first `klen` bytes are written. Succeeds or
        fails exactly as writing those bytes does. */
    method InsertKeyword(keyword: uint32, klen: nat) returns (status: byte)
      requires Valid()
      requires klen <= 4 && length + klen < 0x1_0000_0000
      modifies this, storage
      ensures Valid() && storage == old(storage) && capacity == old(capacity)
      ensures status == (if old(length) + klen > capacity then Error else Success)
      ensures head == old(head)
      ensures status == Success ==>
        tail == Wrap(old(tail) + klen, capacity) && length == old(length) + klen &&
        Contents == old(Contents) + InsertedKeywordBytes(keyword, klen)
      ensures status == Error ==>
        storage[..] == old(storage[..]) && tail == old(tail) && length == old(length) &&
        Contents == old(Contents)
    {
      var keywordBytes := EncodeBigEndian(keyword, 4);
      status := WriteString(keywordBytes[..klen]);
    }

    /** The insertion as evidently intended: write the keyword's low `klen` bytes, most
        significant first, which is the order the search assembles. A keyword that fits in
        `klen` bytes then matches where it was written. */
    method InsertKeywordLowBytes(keyword: uint32, klen: nat) returns (status: byte)
      requires Valid()
      requires klen <= 4 && length + klen < 0x1_0000_0000
      modifies this, storage
      ensures Valid() && storage == old(storage) && capacity == old(capacity)
      ensures status == (if old(length) + klen > capacity then Error else Success)
      ensures head == old(head)
      ensures status == Success ==>
        tail == Wrap(old(tail) + klen, capacity) && length == old(length) + klen &&
        Contents == old(Contents) + KeywordBytes(keyword, klen)
      ensures status == Success && keyword < Pow256(klen) ==>
        MatchAt(Contents, |old(Contents)|, klen, keyword)
      ensures status == Error ==>
        storage[..] == old(storage[..]) && tail == old(tail) && length == old(length) &&
        Contents == old(Contents)
    {
      status := WriteString(KeywordBytes(keyword, klen));
      if status == Success && keyword < Pow256(klen) {
        KeywordBytesFound(old(Contents), keyword, klen);
      }
    }

    /** Assemble `klen` bytes starting at offset `at`, most significant first, stepping
        circularly through the storage. The search only asks for words inside the stored
        bytes, so `klen` never exceeds the capacity. */
    method GetWord(at: uint32, klen: nat) returns (data: nat)
      requires Valid() && at < capacity && klen <= 4 && klen <= capacity
      ensures data == BigEndian(Window(storage[..], at, klen))
      ensures data < Pow256(klen)
    {
      ghost var w := Window(storage[..], at, klen);
      data := 0;
      var h := at;
      var i := 1;
      while i <= klen
        invariant 1 <= i <= klen + 1
        invariant h == Wrap(at + (i - 1), capacity)
        invariant data + BigEndian(w[i - 1..]) == BigEndian(w)
      {
        assert w[i - 1..] == [w[i - 1]] + w[i..];
        // the byte shifted left by 8 * (klen - i) bits; the shifted bytes never overlap, so
        // or-ing them in is adding them
        data := data + storage[h] * Pow256(klen - i);
        h := h + 1;
        if h > capacity - 1 {
          h := 0;
        }
        i := i + 1;
      }
      assert w[klen..] == [];
      BigEndianBound(w);
    }

    /** Search the stored bytes, without consuming them, for the first place where `klen`
        consecutive bytes assemble (most significant first) to `keyword`. Returns that place's
        1-based distance from the head, or 0 when there is none. Only the start positions
        whose `klen` bytes are all stored are examined. */
    method FindKeyword(keyword: uint32, klen: nat) returns (found: uint32)
      requires Valid()
      requires 1 <= klen <= 4 && klen <= length + 1
      ensures found <= length - klen + 1
      ensures found != 0 ==> MatchAt(Contents, found - 1, klen, keyword)
      ensures forall i :: 0 <= i < (if found == 0 then length - klen + 1 else found - 1) ==>
        !MatchAt(Contents, i, klen, keyword)
    {
      var maxFind: uint32 := length - klen + 1;
      var trigger := (keyword / Pow256(klen - 1)) % 256;
      var distance: nat := 1;
      var findHead := head;
      while distance <= maxFind
        invariant 1 <= distance <= maxFind + 1
        invariant findHead == Wrap(head + (distance - 1), capacity)
        invariant forall i :: 0 <= i < distance - 1 ==> !MatchAt(Contents, i, klen, keyword)
      {
        CandidateAt(storage[..], head, tail, length, Contents, distance - 1, klen, keyword);
        if storage[findHead] == trigger {
          var word := GetWord(findHead, klen);
          if word == keyword {
            return distance;
          }
        }
        findHead := findHead + 1;
        distance := distance + 1;
        if findHead > capacity - 1 {
          findHead := 0;
        }
      }
      return 0;
    }

    /** The number of bytes stored. */
    function GetLength(): (n: nat)
      reads this, storage
      requires Valid()
      ensures n == |Contents|
    {
      length
    }

    /** The number of bytes that can still be written; with the stored length it makes up the
        capacity. */
    function GetFreeSize(): (n: nat)
      reads this, storage
      requires Valid()
      ensures n + |Contents| == capacity
    {
      capacity - length
    }
  }

  /** Capacity 8: write 1..5, delete two, then write 6..10. Only three cells remain before the
      array's end, so the second write takes the split path (3 bytes, then 2 at the front);
      reading all eight bytes gives them back in order. */
  method WraparoundScenario() returns (out: seq<byte>)
    ensures out == [3, 4, 5, 6, 7, 8, 9, 10]
  {
    var cells := new byte[8];
    var ring := new RingBuffer();
    var status := ring.Init(cells, 8);
    assert status == Success && ring.Valid() && ring.storage == cells;
    status := ring.WriteString([1, 2, 3, 4, 5]);
    assert status == Success && ring.head == 0 && ring.tail == 5 && ring.Contents == [1, 2, 3, 4, 5];
    status := ring.Delete(2);
    assert status == Success && ring.head == 2 && ring.tail == 5 && ring.Contents == [3, 4, 5];
    status := ring.WriteString([6, 7, 8, 9, 10]);
    assert status == Success && ring.tail == 2 && ring.Contents == [3, 4, 5, 6, 7, 8, 9, 10];
    var output := new byte[8];
    status := ring.ReadString(output, 8);
    assert status == Success && output[..8] == [3, 4, 5, 6, 7, 8, 9, 10];
    out := output[..];
  }
}
