/** The chapter index: a 16-slot circular queue of chapter lengths kept beside a ring buffer,
    so that the ring's bytes can be taken out one whole chapter at a time. */
module RingBufferChapters {
  import opened Words
  import opened Circular
  import opened RingBuffers

  /** The number of chapters the index can hold. */
  const MaxChapterNumber: nat := 16

  class ChapterRing {
    /** The recorded lengths of the chapters waiting to be read, oldest first: the abstract
        value of the index. */
    ghost var Pending: seq<uint32>

    /** The data ring whose bytes the chapters divide. */
    const ring: RingBuffer
    /** The length of each recorded chapter, by slot. */
    const chapterBuffer: array<uint32>

    var standby: uint32   // slot of the oldest chapter, the next one to be read
    var active: uint32    // slot of the chapter still being recorded
    var number: uint32    // number of chapters ended and not yet read

    /** The index invariant: the data ring is valid, both slots lie in the index, the open
        chapter's slot is `number` slots after the oldest one (wrapping at 16), and the waiting
        chapters' lengths are the `number` slots of the table from the oldest one on. */
    ghost predicate Valid()
      reads this, ring, ring.storage, chapterBuffer
    {
      ring.Valid() && chapterBuffer.Length == MaxChapterNumber &&
      number <= MaxChapterNumber && standby < MaxChapterNumber && active < MaxChapterNumber &&
      active == Wrap(standby + number, MaxChapterNumber) &&
      Pending == Window(chapterBuffer[..], standby, number)
    }

    /** An empty index over `ring`, with the length table `chapterBuffer`. */
    constructor (ring: RingBuffer, chapterBuffer: array<uint32>)
      requires ring.Valid() && chapterBuffer.Length == MaxChapterNumber
      ensures Valid() && this.ring == ring && this.chapterBuffer == chapterBuffer
      ensures standby == 0 && active == 0 && number == 0 && Pending == []
    {
      this.ring := ring;
      this.chapterBuffer := chapterBuffer;
      standby, active, number := 0, 0, 0;
      Pending := [];
    }

    /** Close the open chapter: the length in its slot joins the waiting chapters and recording
        moves to the next slot. Fails without any change when all 16 slots are in use. The
        length itself is not recorded here. */
    method SetActiveEnd() returns (status: byte)
      requires Valid()
      modifies this
      ensures Valid()
      ensures status == (if old(number) < MaxChapterNumber then Success else Error)
      ensures standby == old(standby)
      ensures status == Success ==>
        number == old(number) + 1 && active == Wrap(old(active) + 1, MaxChapterNumber) &&
        Pending == old(Pending) + [chapterBuffer[old(active)]]
      ensures status == Error ==>
        number == old(number) && active == old(active) && Pending == old(Pending)
    {
      if number < MaxChapterNumber as uint32 {
        WindowSnoc(chapterBuffer[..], standby, number);
        Pending := Pending + [chapterBuffer[active]];
        number := number + 1;
        active := active + 1;
        if active >= MaxChapterNumber as uint32 {
          active := 0;
        }
        return Success;
      }
      return Error;
    }

    /** The number of chapters waiting to be read. The open chapter's slot lies that many
        slots after the oldest one's, wrapping at 16. */
    function ChapterGetCount(): (n: nat)
      reads this, ring, ring.storage, chapterBuffer
      requires Valid()
      ensures n == |Pending| && n <= MaxChapterNumber
      ensures active == Wrap(standby + n, MaxChapterNumber)
    {
      number
    }

    /** The recorded length of the oldest waiting chapter, the number of bytes the next chapter
        read takes from the ring. With no chapter waiting it is whatever the oldest slot holds. */
    function ChapterGetStandbyLength(): (n: nat)
      reads this, ring, ring.storage, chapterBuffer
      requires Valid()
      ensures Pending != [] ==> n == Pending[0]
      ensures Pending == [] ==> n == chapterBuffer[standby]
    {
      assert Pending != [] ==> Pending[0] == chapterBuffer[..][Wrap(standby + 0, MaxChapterNumber)];
      chapterBuffer[standby]
    }

    /** Read the oldest chapter: take its recorded length of bytes from the ring into `output`,
        then drop the chapter from the index. The ring read's own status is not consulted, so
        the chapter is dropped even when the ring holds fewer bytes than its length (and then
        the ring and `output` are left as they were). Fails without any change when no chapter
        is waiting. */
    method ChapterReadString(output: array<byte>) returns (status: byte)
      requires Valid()
      requires output != ring.storage
      requires Pending != [] ==> Pending[0] as nat <= output.Length
      modifies this, ring, output
      ensures Valid() && ring.storage == old(ring.storage) && ring.capacity == old(ring.capacity)
      ensures active == old(active) && ring.tail == old(ring.tail)
      ensures status == (if old(Pending) != [] then Success else Error)
      ensures status == Success ==>
        number == old(number) - 1 && standby == Wrap(old(standby) + 1, MaxChapterNumber) &&
        Pending == old(Pending)[1..]
      ensures status == Error ==>
        number == old(number) && standby == old(standby) && Pending == old(Pending) &&
        ring.head == old(ring.head) && ring.length == old(ring.length) &&
        ring.Contents == old(ring.Contents) && output[..] == old(output[..])
      ensures status == Success && old(Pending)[0] as nat <= old(ring.length) ==>
        var len := old(Pending)[0] as nat;
        output[..len] == old(ring.Contents)[..len] && output[len..] == old(output[len..]) &&
        ring.head == Wrap(old(ring.head) + len, ring.capacity) &&
        ring.length == old(ring.length) - len && ring.Contents == old(ring.Contents)[len..]
      ensures status == Success && old(Pending)[0] as nat > old(ring.length) ==>
        ring.head == old(ring.head) && ring.length == old(ring.length) &&
        ring.Contents == old(ring.Contents) && output[..] == old(output[..])
    {
      if number != 0 {
        assert Pending[0] == chapterBuffer[..][Wrap(standby + 0, MaxChapterNumber)];
        var _ := ring.ReadString(output, chapterBuffer[standby]);
        WindowDrop(chapterBuffer[..], standby, number, 1);
        Pending := Pending[1..];
        number := number - 1;
        standby := standby + 1;
        if standby >= MaxChapterNumber as uint32 {
          standby := 0;
        }
        return Success;
      }
      return Error;
    }
  }

  /** A chapter is consumed even when its bytes are not there: with one chapter of recorded
      length 5 ended over an empty ring, reading it succeeds, the index empties and the ring
      still holds nothing. */
  method ChapterOverEmptyRing() returns (status: byte, count: nat, stored: nat)
    ensures status == Success && count == 0 && stored == 0
  {
    var cells := new byte[8];
    var ring := new RingBuffer();
    var initStatus := ring.Init(cells, 8);
    assert initStatus == Success;
    var lengths := new uint32[MaxChapterNumber];
    lengths[0] := 5;
    var chapters := new ChapterRing(ring, lengths);
    var endStatus := chapters.SetActiveEnd();
    assert endStatus == Success && chapters.number == 1 && chapters.standby == 0;
    var output := new byte[8];
    status := chapters.ChapterReadString(output);
    count := chapters.ChapterGetCount();
    stored := ring.GetLength();
  }

  /** A fresh ring of eight cells holding the three bytes 7, 8, 9. */
  method RingOfThree() returns (ring: RingBuffer)
    ensures fresh(ring) && fresh(ring.storage) && ring.Valid() && ring.Contents == [7, 8, 9]
  {
    var cells := new byte[8];
    ring := new RingBuffer();
    var initStatus := ring.Init(cells, 8);
    assert initStatus == Success;
    var writeStatus := ring.WriteString([7, 8, 9]);
    assert writeStatus == Success;
  }

  /** One chapter of three bytes: after writing the bytes, recording their length in the
      open slot and ending the chapter, reading the chapter gives the bytes back and empties
      both the index and the ring. */
  method ChapterRoundTrip() returns (out: seq<byte>, count: nat, stored: nat)
    ensures out == [7, 8, 9] && count == 0 && stored == 0
  {
    var ring := RingOfThree();
    var lengths := new uint32[MaxChapterNumber];
    lengths[0] := 3;
    var chapters := new ChapterRing(ring, lengths);
    var endStatus := chapters.SetActiveEnd();
    assert endStatus == Success && chapters.Pending == [3];
    var output := new byte[3];
    var status := chapters.ChapterReadString(output);
    assert output[..] == output[..3];
    out := output[..];
    count := chapters.ChapterGetCount();
    stored := ring.GetLength();
  }
}
