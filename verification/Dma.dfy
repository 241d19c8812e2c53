/** A circular DMA channel writing behind the ring buffer's back, and the publication of what it wrote.

    The hardware owns the memory and a countdown; the buffer learns of new bytes only when it is told
    the countdown. Arrivals, publications and reads may interleave in any order. */
module Dma {
  import opened Machine
  import opened Seqs
  import opened Fifo
  import opened Slots
  import opened RingBuffer

  class Channel {
    const memory: array<Byte>
    const size: Size
    /** Bytes left before the countdown reloads. */
    var ndtr: nat
    /** Everything that ever arrived. */
    ghost var stream: seq<Byte>

    ghost predicate Shaped() {
      CheckSize(size) && size < 0x8000_0000 && memory.Length == size
    }

    /** The countdown gives the position of the next byte, and the memory the newest `size` bytes. */
    ghost predicate Valid()
      reads this, memory
    {
      && Shaped()
      && ndtr <= size
      && (size - ndtr) % size == |stream| % size
      && Recent(memory[..], stream)
    }

    constructor Start(memory: array<Byte>, size: Size)
      requires CheckSize(size) && size < 0x8000_0000 && memory.Length == size
      ensures Valid() && this.memory == memory && this.size == size && ndtr == size && stream == []
    {
      this.memory := memory;
      this.size := size;
      ndtr := size;
      stream := [];
      new;
      ModSmall(0, size);
    }

    /** Stores a chunk at the physical position, wrapping at the end of the memory. */
    method StoreChunk(chunk: seq<Byte>, slot: nat)
      requires Shaped() && slot < size && |chunk| < size
      modifies memory
      ensures memory[..] == Store(old(memory[..]), slot, chunk)
    {
      hide CheckSize, Store;
      ghost var d := memory[..];
      StoreNothing(d, slot);
      assert chunk[..0] == [];
      var tillEnd := size - slot;
      var n1 := if |chunk| < tillEnd then |chunk| else tillEnd;
      for i := 0 to n1
        invariant memory[..] == Store(d, slot, chunk[..i])
      {
        StoreNext(d, slot, chunk, i, slot + i);
        memory[slot + i] := chunk[i];
      }
      if |chunk| > n1 {
        var n2 := |chunk| - n1;
        for i := 0 to n2
          invariant memory[..] == Store(d, slot, chunk[..n1 + i])
        {
          StoreNext(d, slot, chunk, n1 + i, i);
          memory[i] := chunk[n1 + i];
        }
      }
      assert chunk[..|chunk|] == chunk;
    }

    /** The countdown moves on, reloading when it runs out. */
    method Countdown(k: nat)
      requires Shaped() && ndtr <= size && k < size && (size - ndtr) % size == |stream| % size
      modifies this`ndtr
      ensures ndtr <= size && (size - ndtr) % size == (|stream| + k) % size
    {
      hide CheckSize;
      CountdownMoves(size, ndtr, k, |stream|);
      if k <= ndtr {
        ndtr := ndtr - k;
      } else {
        var over := k - ndtr;
        ndtr := size - over % size;
      }
    }

    /** One arrival: the chunk is stored and the countdown follows. */
    method Arrive(chunk: seq<Byte>)
      requires Valid() && |chunk| < size
      modifies this`ndtr, this`stream, memory
      ensures Valid() && stream == old(stream) + chunk
    {
      hide CheckSize, Store, Recent, And, Wrap;
      PhysicalSlot(size, ndtr);
      var slot := And(size - ndtr, size - 1);
      RecentAfterStore(memory[..], stream, slot, chunk);
      StoreChunk(chunk, slot);
      Countdown(|chunk|);
      stream := stream + chunk;
    }
  }

  lemma PhysicalSlot(size: Size, ndtr: nat)
    requires CheckSize(size) && ndtr <= size
    ensures And(size - ndtr, size - 1) == (size - ndtr) % size < size
    ensures And(size - ndtr, size - 1) % size == (size - ndtr) % size
  {
    hide And;
    SlotOf(size - ndtr, size);
    WrapSize(size - ndtr);
    ModSmall((size - ndtr) % size, size);
  }

  /** The memory holds the newest bytes of the stream, each in the slot of its position. */
  ghost predicate Recent(d: seq<Byte>, stream: seq<Byte>)
    requires |d| > 0
  {
    var n := Min(|stream|, |d|);
    Window(d, |stream| - n, n) == LastN(stream, |d|)
  }

  lemma StoreNext(d: seq<Byte>, w: nat, items: seq<Byte>, k: nat, slot: nat)
    requires k < |items| && slot < |d| && (w + k == slot || w + k == slot + |d|)
    ensures Store(d, w, items[..k + 1]) == Store(d, w, items[..k])[slot := items[k]]
  {
    assert items[..k + 1][..k] == items[..k];
    ModSmall(slot, |d|);
    ModAddMultiple(slot, |d|, 1);
  }

  lemma RecentAfterStore(d: seq<Byte>, stream: seq<Byte>, slot: nat, chunk: seq<Byte>)
    requires |d| > 0 && Recent(d, stream) && |chunk| < |d| && slot % |d| == |stream| % |d|
    ensures Recent(Store(d, slot, chunk), stream + chunk)
  {
    hide Window, Store, LastN;
    var n := Min(|stream|, |d|);
    StoreShift(d, slot, |stream|, chunk);
    WindowAfterStore(d, |stream| - n, n, chunk, |d|);
    assert |stream| - n + n == |stream|;
    LastNAppend(stream, chunk, |d|);
    WindowSame(Store(d, slot, chunk), |stream| + |chunk| - Min(n + |chunk|, |d|),
               |stream + chunk| - Min(|stream + chunk|, |d|), Min(n + |chunk|, |d|));
  }

  lemma WindowSame(d: seq<Byte>, p: nat, p': nat, n: nat)
    requires |d| > 0 && p == p'
    ensures Window(d, p, n) == Window(d, p', n)
  {
  }

  /** The countdown after an arrival of `k` bytes, with its reload, still gives the position. */
  lemma CountdownMoves(size: nat, ndtr: nat, k: nat, total: nat)
    requires 0 < size && ndtr <= size && k < size
    requires (size - ndtr) % size == total % size
    ensures var ndtr' := if k <= ndtr then ndtr - k else size - (k - ndtr) % size;
            0 <= ndtr' <= size && (size - ndtr') % size == (total + k) % size
  {
    ModCongruentAdd(size - ndtr, total, k, size);
    if k > ndtr {
      var over := k - ndtr;
      ModSmall(over % size, size);
      assert size - ndtr + k == over + 1 * size;
      ModAddMultiple(over, size, 1);
    } else {
      assert size - ndtr + k == size - (ndtr - k);
    }
  }

  lemma RecentAt(d: seq<Byte>, stream: seq<Byte>, j: nat)
    requires |d| > 0 && Recent(d, stream) && j < |stream| <= j + |d|
    ensures d[j % |d|] == stream[j]
  {
    var n := Min(|stream|, |d|);
    var i := j - (|stream| - n);
    assert Window(d, |stream| - n, n)[i] == d[j % |d|];
    assert LastN(stream, |d|)[i] == stream[j];
  }

  /** Where the memory has lapped a position, it shows the byte one turn later. */
  function Lapped(j: nat, size: nat, total: nat): (k: nat)
    ensures j < total ==> k < total
  {
    if j + size < total then j + size else j
  }

  /** The bytes `q` are those of the stream from `pos` on, except where they have been lapped. */
  ghost predicate Shows(q: seq<Byte>, stream: seq<Byte>, pos: nat, size: nat) {
    && pos + |q| <= |stream|
    && forall i :: 0 <= i < |q| ==> q[i] == stream[Lapped(pos + i, size, |stream|)]
  }

  lemma WindowOfStream(d: seq<Byte>, stream: seq<Byte>, pos: nat, c: nat)
    requires |d| > 0 && Recent(d, stream) && pos + c <= |stream| < pos + c + |d| && c < |d|
    ensures Shows(Window(d, pos, c), stream, pos, |d|)
  {
    hide Recent;
    forall i | 0 <= i < c
      ensures Window(d, pos, c)[i] == stream[Lapped(pos + i, |d|, |stream|)]
    {
      RecentAt(d, stream, Lapped(pos + i, |d|, |stream|));
      ModAddMultiple(pos + i, |d|, 1);
    }
  }

  /** Nothing has been lapped while the hardware is at most one turn ahead of the reader. */
  lemma WindowUnlapped(d: seq<Byte>, stream: seq<Byte>, pos: nat, c: nat)
    requires |d| > 0 && Recent(d, stream) && pos + c <= |stream| <= pos + |d| && c < |d|
    ensures Window(d, pos, c) == stream[pos..pos + c]
  {
    hide Recent, Window;
    if c > 0 {
      WindowOfStream(d, stream, pos, c);
    }
  }

  /** The buffer and the hardware that feeds it. Neither calls the other: they share the memory. */
  class System {
    const buffer: CircularBuffer
    const channel: Channel
    /** How much of the stream the buffer has been told about. */
    ghost var published: nat

    /** The queue as a reader should see it. */
    ghost function Queue(): seq<Byte>
      reads buffer
    {
      Replay(buffer.mask, buffer.history).bytes
    }

    ghost predicate Shared()
      reads buffer, channel, channel.memory
    {
      && buffer.Valid()
      && channel.Valid()
      && buffer.data == channel.memory
      && buffer.size == channel.size
    }

    /** Publications are less than a turn behind the hardware, all three counters agree with the byte
        totals, and the queue is the newest part of the published stream. */
    ghost predicate Valid()
      reads this, buffer, channel, channel.memory
    {
      && Shared()
      && published <= |channel.stream| < published + buffer.size
      && buffer.write % buffer.size == published % buffer.size
      && buffer.dmaCnt == published % buffer.size
      && |Queue()| <= published
      && Queue() == channel.stream[published - |Queue()|..published]
    }

    /** The hardware position is at most one turn ahead of the read position. */
    ghost predicate Unlapped()
      reads this, buffer, channel
      requires |Queue()| <= published
    {
      |channel.stream| <= published - |Queue()| + buffer.size
    }

    constructor Start(memory: array<Byte>, size: Size)
      requires CheckSize(size) && size < 0x8000_0000 && memory.Length == size
      ensures Valid() && published == 0 && channel.stream == [] && buffer.data == memory
    {
      buffer := new CircularBuffer.Init(memory, size);
      channel := new Channel.Start(memory, size);
      published := 0;
      new;
      ModSmall(0, size);
    }

    /** What the memory shows of the queue, lapped or not. */
    lemma ContentsShown()
      requires Valid()
      ensures |buffer.Contents()| == |Queue()|
      ensures Shows(buffer.Contents(), channel.stream, published - |Queue()|, buffer.size)
    {
      hide CheckSize, And, DataCount, Window, Replay, Recent, Shows;
      WindowShown(buffer.data[..], channel.stream, buffer.write, buffer.read, published);
    }

    /** While nothing unread has been lapped the memory shows exactly the queue. */
    lemma UnlappedIsIntact()
      requires Valid() && Unlapped()
      ensures buffer.Intact()
    {
      hide CheckSize, And, DataCount, Window, Replay, Recent;
      ContentsShown();
      assert buffer.Contents() == Queue();
    }

    /** Bytes arrive. The buffer does not notice: its queue, its counters and its history stay. */
    method Arrive(chunk: seq<Byte>)
      requires Valid() && |channel.stream| - published + |chunk| < buffer.size
      modifies channel`ndtr, channel`stream, channel.memory
      ensures Valid() && channel.stream == old(channel.stream) + chunk
      ensures Unlapped() ==> buffer.Intact() && buffer.Contents() == old(Queue())
    {
      hide CheckSize, And, DataCount, Window, Replay, Recent, Run;
      ghost var stream := channel.stream;
      channel.Arrive(chunk);
      assert (stream + chunk)[published - |Queue()|..published] == stream[published - |Queue()|..published];
      if Unlapped() {
        UnlappedIsIntact();
      }
    }

    /** What the buffer will make of the countdown, should it be told now. */
    lemma PendingBytes()
      requires Valid()
      ensures var pending := channel.stream[published..];
              && DmaSlot(channel.ndtr, buffer.size) == |channel.stream| % buffer.size
              && DmaFresh(DmaSlot(channel.ndtr, buffer.size), buffer.dmaCnt, buffer.size) == |pending|
              && Window(buffer.data[..], buffer.write, |pending|) == pending
              && Wrap(buffer.write + |pending|) % buffer.size == |channel.stream| % buffer.size
    {
      hide CheckSize, And, DataCount, Window, Replay, Recent, Run, DmaSlot, DmaFresh, Wrap;
      ghost var n := |channel.stream| - published;
      FreshBytes(buffer.data[..], channel.stream, published, buffer.write, channel.ndtr, buffer.dmaCnt);
      SlotOf(buffer.write + n, buffer.size);
      ModCongruentAdd(buffer.write, published, n, buffer.size);
    }

    /** The buffer is told the countdown. Whatever the memory showed of the old queue, it now shows the
        old queue followed by exactly the bytes that had not been published, less the oldest. */
    method Publish()
      requires Valid()
      modifies this`published, buffer`write, buffer`read, buffer`readLast, buffer`dmaCnt,
               buffer`fullCnt, buffer`history
      ensures Valid() && published == |channel.stream|
      ensures buffer.Contents() == Queue() == LastN(old(Queue()) + channel.stream[old(published)..], buffer.mask)
    {
      hide CheckSize, And, DataCount, Window, Replay, Recent, Run, LastN, Clamp, DmaSlot, DmaFresh, Wrap;
      PendingBytes();
      ReplayPut(buffer.mask, buffer.history, channel.stream[published..]);
      PublishedQueue(channel.stream, published, Queue(), buffer.mask);
      buffer.DmaWriteInc(channel.ndtr);
      published := |channel.stream|;
      UnlappedIsIntact();
    }

    /** One round of the hardware loop: a chunk arrives and is published at once. */
    method Tick(chunk: seq<Byte>)
      requires Valid() && published == |channel.stream| && |chunk| < buffer.size
      modifies this`published, channel`ndtr, channel`stream, channel.memory, buffer`write, buffer`read,
               buffer`readLast, buffer`dmaCnt, buffer`fullCnt, buffer`history
      ensures Valid() && published == |channel.stream| && channel.stream == old(channel.stream) + chunk
      ensures (channel.size - channel.ndtr) % channel.size == buffer.dmaCnt
           == buffer.write % buffer.size == |channel.stream| % buffer.size
      ensures buffer.Contents() == Queue() == LastN(old(Queue()) + chunk, buffer.mask)
    {
      hide CheckSize, And, DataCount, Window, Replay, Recent, Run, LastN, Clamp, DmaSlot, DmaFresh, Wrap;
      ghost var stream := channel.stream;
      Arrive(chunk);
      assert channel.stream[|stream|..] == chunk;
      Publish();
    }

    /** Whatever only moves the read position past the oldest bytes keeps the two consistent. */
    twostate lemma ConsumedKeepsValid(r: nat)
      requires old(Valid()) && buffer.Valid() && r <= |old(Queue())| && Queue() == old(Queue())[r..]
      requires unchanged(this) && unchanged(channel) && unchanged(channel.memory)
      requires buffer.write == old(buffer.write) && buffer.dmaCnt == old(buffer.dmaCnt)
      ensures Valid()
      ensures old(Unlapped()) ==> Unlapped()
    {
      hide CheckSize, And, DataCount, Window, Replay, Recent, Run, AllAccepted;
      QueueTail(channel.stream, published, old(Queue()), r);
    }

    /** Reading from the buffer only moves the read position. */
    twostate lemma TakenKeepsValid(r: nat)
      requires old(Valid()) && buffer.Valid() && buffer.Taken(r)
      requires unchanged(this) && unchanged(channel) && unchanged(channel.memory)
      requires buffer.write == old(buffer.write) && buffer.dmaCnt == old(buffer.dmaCnt)
      ensures Valid() && Queue() == old(Queue())[r..]
      ensures old(Unlapped()) ==> Unlapped()
    {
      hide CheckSize, And, DataCount, Window, Replay, Recent, Run;
      if r > 0 {
        ReplayTake(buffer.mask, old(buffer.history), r);
      } else {
        assert buffer.history == old(buffer.history);
      }
      ConsumedKeepsValid(r);
    }

    /** What a read of any length would deliver. */
    lemma ReadableShown()
      requires Valid()
      ensures |buffer.Contents()| == |Queue()|
      ensures Unlapped() ==> buffer.Contents() == Queue()
      ensures forall r :: 0 <= r <= |Queue()| ==>
                Shows(buffer.Contents()[..r], channel.stream, published - |Queue()|, buffer.size)
    {
      hide CheckSize, And, DataCount, Window, Replay, Recent, Shows;
      ContentsShown();
      if Unlapped() {
        UnlappedIsIntact();
      }
      forall r | 0 <= r <= |Queue()|
        ensures Shows(buffer.Contents()[..r], channel.stream, published - |Queue()|, buffer.size)
      {
        ShowsPrefix(buffer.Contents(), r, channel.stream, published - |Queue()|, buffer.size);
      }
    }

    /** A read at any moment. It delivers the oldest bytes the memory shows, which are the queue's unless
        they have been lapped. */
    method Read(out: array<Byte>, n: nat) returns (r: nat)
      requires Valid() && n > 0 && out != buffer.data && Min(n, |Queue()|) <= out.Length
      modifies buffer`read, buffer`readLast, buffer`history, out
      ensures Valid() && r == Min(n, |old(Queue())|) && Queue() == old(Queue())[r..]
      ensures r <= |old(buffer.Contents())|
      ensures out[..] == Overlay(old(out[..]), old(buffer.Contents())[..r])
      ensures Shows(old(buffer.Contents())[..r], channel.stream, old(published - |Queue()|), buffer.size)
      ensures old(Unlapped()) ==> Unlapped() && out[..] == Overlay(old(out[..]), old(Queue())[..r])
    {
      hide CheckSize, And, DataCount, Window, Replay, Recent, Run, Overlay, Shows, AllAccepted,
           CircularBuffer.Count, CircularBuffer.Contents, Channel.Valid;
      ReadableShown();
      r := buffer.Read(out, n);
      TakenKeepsValid(r);
    }

    /** A delimiter read at any moment. */
    method ReadUntil(out: array<Byte>, max: nat, b: Byte) returns (r: nat)
      requires Valid() && max > 0 && out != buffer.data && Min(max, |Queue()|) <= out.Length
      modifies buffer`read, buffer`readLast, buffer`history, out
      ensures Valid() && r == FrameLen(old(buffer.Contents()), max, b)
      ensures r <= |old(Queue())| && Queue() == old(Queue())[r..]
      ensures out[..] == Overlay(old(out[..]), old(buffer.Contents())[..r])
      ensures Shows(old(buffer.Contents())[..r], channel.stream, old(published - |Queue()|), buffer.size)
      ensures old(Unlapped()) ==>
                && Unlapped()
                && r == FrameLen(old(Queue()), max, b)
                && out[..] == Overlay(old(out[..]), old(Queue())[..r])
    {
      hide CheckSize, And, DataCount, Window, Replay, Recent, Run, Overlay, FrameLen, Shows, AllAccepted,
           CircularBuffer.Count, CircularBuffer.Contents, Channel.Valid;
      ReadableShown();
      r := buffer.ReadUntil(out, max, b);
      TakenKeepsValid(r);
    }

    /** Skipping to a start byte at any moment: the first one the memory shows. */
    method SyncStart(b: Byte)
      requires Valid()
      modifies buffer`read, buffer`readLast, buffer`history
      ensures Valid()
      ensures |old(buffer.Contents())| == |old(Queue())|
      ensures buffer.Contents() == old(buffer.Contents())[IndexOf(old(buffer.Contents()), b)..]
      ensures Queue() == old(Queue())[IndexOf(old(buffer.Contents()), b)..]
      ensures old(Unlapped()) ==> Unlapped() && Queue() == old(Queue())[IndexOf(old(Queue()), b)..]
    {
      hide CheckSize, And, DataCount, Window, Replay, Recent, Run, IndexOf, AllAccepted;
      if Unlapped() {
        UnlappedIsIntact();
      }
      ghost var k := IndexOf(buffer.Contents(), b);
      buffer.DmaSyncStart(b);
      ConsumedKeepsValid(k);
    }
  }

  lemma QueueTail(stream: seq<Byte>, published: nat, q: seq<Byte>, r: nat)
    requires r <= |q| <= published <= |stream| && q == stream[published - |q|..published]
    ensures q[r..] == stream[published - |q[r..]|..published]
  {
  }

  lemma ShowsPrefix(q: seq<Byte>, r: nat, stream: seq<Byte>, pos: nat, size: nat)
    requires r <= |q| && Shows(q, stream, pos, size)
    ensures Shows(q[..r], stream, pos, size)
  {
  }

  /** The queue stays the newest part of the published stream. */
  lemma PublishedQueue(stream: seq<Byte>, published: nat, q: seq<Byte>, cap: nat)
    requires |q| <= published <= |stream| && q == stream[published - |q|..published]
    ensures var q' := LastN(q + stream[published..], cap);
            |q'| <= |stream| && q' == stream[|stream| - |q'|..]
  {
    hide LastN;
    assert q + stream[published..] == stream[published - |q|..];
    var q' := LastN(q + stream[published..], cap);
    DropDrop(stream, published - |q|, |stream| - (published - |q|) - |q'|);
  }

  lemma SlotDistance(total: nat, published: nat, size: nat)
    requires published <= total < published + size
    ensures (total % size - published % size) % size == total - published
  {
    var x, y, n: int := total % size, published % size, total - published;
    var back: int := -1 * y;
    ModSmall(x, size);
    ModSmall(y, size);
    ModCongruentAdd(x, total, back, size);
    ModCongruentAdd(published, y, n - y, size);
    ModSmall(n, size);
  }

  /** What the countdown makes of the bytes that have not been published yet. */
  lemma FreshBytes(d: seq<Byte>, stream: seq<Byte>, published: nat, write: nat, ndtr: nat, dmaCnt: nat)
    requires 0 < |d| < TWO_64 && Recent(d, stream) && ndtr <= |d|
    requires (|d| - ndtr) % |d| == |stream| % |d|
    requires published <= |stream| < published + |d|
    requires write % |d| == dmaCnt == published % |d|
    ensures DmaSlot(ndtr, |d|) == |stream| % |d|
    ensures DmaFresh(DmaSlot(ndtr, |d|), dmaCnt, |d|) == |stream| - published
    ensures Window(d, write, |stream| - published) == stream[published..]
  {
    hide Window, Recent;
    var n := |stream| - published;
    SlotDistance(|stream|, published, |d|);
    WindowShift(d, write, published, n);
    WindowUnlapped(d, stream, published, n);
  }

  lemma WindowShown(d: seq<Byte>, stream: seq<Byte>, write: Size, read: Size, published: nat)
    requires CheckSize(|d|) && |d| < TWO_64 && Recent(d, stream)
    requires DataCount(write, read, |d| - 1) <= published <= |stream| < published + |d|
    requires write % |d| == published % |d|
    ensures var c := DataCount(write, read, |d| - 1);
            Shows(Window(d, read, c), stream, published - c, |d|)
  {
    hide And, DataCount, Window, Recent, Shows;
    var c := DataCount(write, read, |d| - 1);
    CountFacts(write, read, |d|);
    ReadPosition(read, published, c, |d|);
    WindowShift(d, read, published - c, c);
    WindowOfStream(d, stream, published - c, c);
  }

  lemma ReadPosition(read: nat, published: nat, c: nat, size: nat)
    requires size > 0 && c <= published && (read + c) % size == published % size
    ensures read % size == (published - c) % size
  {
    var back: int := -1 * c;
    ModCongruentAdd(read + c, published, back, size);
  }
}
