/** The overwriting ring buffer: free-running 64-bit counters reduced by a mask. On overrun a batch
    sets `read` one ahead of `write`, so nothing orders the two; only their slots are related. */
module RingBuffer {
  import opened Machine
  import opened Seqs
  import opened Fifo
  import opened Slots

  /** Unread bytes between two counters, as the code computes it. */
  function DataCount(write: Size, read: Size, mask: nat): nat {
    And(Wrap(write - read), mask)
  }

  /** A counter and its slot, for an accepted size. */
  lemma SlotOf(x: nat, size: Size)
    requires CheckSize(size)
    ensures And(Wrap(x), size - 1) == x % size == Wrap(x) % size < size
  {
    hide And;
    WrapInvisible(x, size);
    WrapInvisible(Wrap(x), size);
    assert Wrap(Wrap(x)) == Wrap(x);
  }

  lemma CountFacts(write: Size, read: Size, size: Size)
    requires CheckSize(size)
    ensures var c := DataCount(write, read, size - 1);
            c < size && c == (write - read) % size && (read + c) % size == write % size
  {
    hide And;
    WrapInvisible(write - read, size);
    ModAdd(write - read, read, size);
  }

  /** The count is the only number below the size that leads from `read` to `write`. */
  lemma CountIs(write: Size, read: Size, size: Size, n: nat)
    requires CheckSize(size) && n < size && (read + n) % size == write % size
    ensures DataCount(write, read, size - 1) == n
  {
    hide And, DataCount;
    CountFacts(write, read, size);
    ModInjective(read, DataCount(write, read, size - 1), n, size);
  }

  /** No unread bytes exactly when the slots coincide. */
  lemma EmptyIff(write: Size, read: Size, size: Size)
    requires CheckSize(size)
    ensures And(write, size - 1) == And(read, size - 1) <==> DataCount(write, read, size - 1) == 0
  {
    hide And, DataCount, CheckSize;
    SlotOf(write, size);
    SlotOf(read, size);
    assert Wrap(write) == write && Wrap(read) == read;
    CountFacts(write, read, size);
    if write % size == read % size {
      assert read + 0 == read;
      CountIs(write, read, size, 0);
    }
  }

  /** The code's test for fullness. */
  predicate SaysFull(write: Size, read: Size, size: Size)
    requires size > 0
  {
    And(Wrap(read + 1), size - 1) == And(write, size - 1)
  }

  /** It asks whether the count is 1, modulo the size. */
  lemma FullIff(write: Size, read: Size, size: Size)
    requires CheckSize(size)
    ensures SaysFull(write, read, size) <==> DataCount(write, read, size - 1) == 1 % size
  {
    hide And, DataCount;
    SlotOf(read + 1, size);
    SlotOf(write, size);
    CountFacts(write, read, size);
    var one := 1 % size;
    ModAdd(1, read, size);
    if (read + 1) % size == write % size {
      CountIs(write, read, size, one);
    }
  }

  /** So it tests for fullness exactly in buffers of one or two bytes. */
  lemma FullTestExactly(size: Size)
    requires CheckSize(size)
    ensures (forall write: Size, read: Size {:trigger SaysFull(write, read, size)} ::
               SaysFull(write, read, size) <==> DataCount(write, read, size - 1) == size - 1)
       <==> size <= 2
  {
    hide And, DataCount, SaysFull;
    forall write: Size, read: Size
      ensures SaysFull(write, read, size) <==> DataCount(write, read, size - 1) == 1 % size
    {
      FullIff(write, read, size);
    }
    if size > 2 {
      CountIs(1, 0, size, 1);
      assert SaysFull(1, 0, size);
    }
  }

  /** What advancing both counters on a publication of `num` bytes does: the queue keeps its newest
      `mask` positions, whether or not `read` had to be moved past `write`. */
  lemma Publish(write: Size, read: Size, size: Size, num: nat, write': Size, read': Size)
    requires CheckSize(size) && num < size
    requires write' == Wrap(write + num)
    requires read' == if num > size - 1 - DataCount(write, read, size - 1) then Wrap(write' + 1) else read
    ensures var c := DataCount(write, read, size - 1);
            var n := Min(c + num, size - 1);
            && DataCount(write', read', size - 1) == n
            && read' % size == (read + c + num - n) % size
  {
    hide And, DataCount, Wrap;
    var c := DataCount(write, read, size - 1);
    if num > size - 1 - c {
      Overtake(write, read, size, num);
    } else {
      CountFacts(write, read, size);
      SlotOf(write + num, size);
      ModCongruentAdd(read + c, write, num, size);
      CountIs(write', read', size, c + num);
    }
  }

  /** One ahead of `write` is one turn less one behind it: the queue is full. */
  lemma Overtake(write: Size, read: Size, size: Size, num: nat)
    requires CheckSize(size) && num < size && num > size - 1 - DataCount(write, read, size - 1)
    ensures var c := DataCount(write, read, size - 1);
            var write': int := Wrap(write + num);
            && DataCount(write', Wrap(write' + 1), size - 1) == size - 1
            && Wrap(write' + 1) % size == (read + c + num - (size - 1)) % size
  {
    hide And, DataCount, Wrap;
    var c, write': int := DataCount(write, read, size - 1), Wrap(write + num);
    var read' := Wrap(write' + 1);
    CountFacts(write, read, size);
    SlotOf(write + num, size);
    SlotOf(write' + 1, size);
    OneTurn(read', write' + 1, size);
    CountIs(write', read', size, size - 1);
    ModCongruentAdd(write', write + num, 1, size);
    ModCongruentAdd(write, read + c, num + 1, size);
    OneTurn(read', read + c + num + 1, size);
    ModAddMultiple(read + c + num + 1, size, -1);
  }

  lemma OneTurn(x: int, y: int, size: int)
    requires size > 0 && x % size == y % size
    ensures (x + (size - 1)) % size == (y - 1) % size
  {
    ModCongruentAdd(x, y, size - 1, size);
    ModAddMultiple(y - 1, size, 1);
  }

  /** Consuming `num` of the unread bytes. */
  lemma Consume(write: Size, read: Size, size: Size, num: nat)
    requires CheckSize(size) && num <= DataCount(write, read, size - 1)
    ensures DataCount(write, Wrap(read + num), size - 1) == DataCount(write, read, size - 1) - num
    ensures Wrap(read + num) % size == (read + num) % size
  {
    hide And, DataCount;
    var c := DataCount(write, read, size - 1);
    CountFacts(write, read, size);
    SlotOf(read + num, size);
    ModCongruentAdd(Wrap(read + num), read + num, c - num, size);
    CountIs(write, Wrap(read + num), size, c - num);
  }

  /** Writing one more byte at the masked counter. */
  lemma StoreLast(d: seq<Byte>, w: Size, items: seq<Byte>, k: nat)
    requires CheckSize(|d|) && |d| < TWO_64 && k < |items|
    ensures And(Wrap(w + k), |d| - 1) == (w + k) % |d| < |d|
    ensures Store(d, w, items[..k + 1]) == Store(d, w, items[..k])[(w + k) % |d| := items[k]]
  {
    SlotOf(w + k, |d|);
    assert items[..k + 1][..k] == items[..k];
  }

  /** An array whose first bytes have been overwritten. */
  function Overlay(dst: seq<Byte>, src: seq<Byte>): (r: seq<Byte>)
    requires |src| <= |dst|
    ensures |r| == |dst|
  {
    src + dst[|src|..]
  }

  lemma OverlayNothing(dst: seq<Byte>, q: seq<Byte>)
    ensures Overlay(dst, q[..0]) == dst
  {
  }

  lemma OverlayStep(dst: seq<Byte>, q: seq<Byte>, i: nat)
    requires i < |q| && i < |dst|
    ensures Overlay(dst, q[..i])[i := q[i]] == Overlay(dst, q[..i + 1])
  {
  }

  /** The byte under the masked counter. */
  lemma ByteAt(d: seq<Byte>, p: Size, c: nat, k: nat)
    requires CheckSize(|d|) && |d| < TWO_64 && k < c
    ensures And(Wrap(p + k), |d| - 1) < |d|
    ensures d[And(Wrap(p + k), |d| - 1)] == Window(d, p, c)[k]
  {
    hide And, CheckSize;
    SlotOf(p + k, |d|);
  }

  lemma StoreOne(d: seq<Byte>, w: Size, item: Byte)
    requires CheckSize(|d|) && |d| < TWO_64
    ensures And(w, |d| - 1) < |d|
    ensures Store(d, w, [item]) == d[And(w, |d| - 1) := item]
  {
    hide And;
    StoreLast(d, w, [item], 0);
    StoreNothing(d, w);
    WrapSize(w);
    assert [item][..1] == [item] && [item][..0] == [];
  }

  lemma StoredWindow(d: seq<Byte>, w: nat, items: seq<Byte>)
    requires |items| < |d|
    ensures |Store(d, w, items)| == |d| && Window(Store(d, w, items), w, |items|) == items
  {
    WindowOfStore(d, w, items);
  }

  /** A single write moves `read` only when it catches up with it; the effect is that of `Publish`. */
  lemma PublishOne(write: Size, read: Size, size: Size)
    requires CheckSize(size)
    ensures var c := DataCount(write, read, size - 1);
            var write' := Wrap(write + 1);
            var full := And(write', size - 1) == And(read, size - 1);
            var read' := if full then Wrap(read + 1) else read;
            var n := Min(c + 1, size - 1);
            && (full <==> c + 1 > size - 1)
            && DataCount(write', read', size - 1) == n
            && read' % size == (read + c + 1 - n) % size
  {
    hide And, DataCount;
    var c, write' := DataCount(write, read, size - 1), Wrap(write + 1);
    CountFacts(write, read, size);
    SlotOf(write + 1, size);
    ModCongruentAdd(read + c, write, 1, size);
    if c + 1 == size {
      ModAddMultiple(read, size, 1);
      CountIs(write', read, size, 0);
      SlotOf(read + 1, size);
      ModCongruentAdd(Wrap(read + 1), read + 1, size - 1, size);
      CountIs(write', Wrap(read + 1), size, size - 1);
    } else {
      CountIs(write', read, size, c + 1);
    }
    EmptyIff(write', read, size);
  }

  lemma SurvivorsAt(d: seq<Byte>, write: nat, read: nat, c: nat, items: seq<Byte>, read': nat)
    requires c < |d| && (read + c) % |d| == write % |d| && |items| <= Max(1, |d| - 1)
    requires read' % |d| == (read + c + |items| - Min(c + |items|, |d| - 1)) % |d|
    ensures Window(Store(d, write, items), read', Min(c + |items|, |d| - 1)) ==
            LastN(Window(d, read, c) + items, |d| - 1)
  {
    hide Window, Store, LastN;
    var n := Min(c + |items|, |d| - 1);
    StoreShift(d, write, read + c, items);
    WindowAfterStore(d, read, c, items, |d| - 1);
    WindowShift(Store(d, write, items), read', read + c + |items| - n, n);
  }

  /** The memory effect of a write: the surviving window is the newest part of old queue and items. */
  lemma Survivors(d: seq<Byte>, write: Size, read: Size, items: seq<Byte>, read': Size)
    requires CheckSize(|d|) && |d| < TWO_64 && |items| <= Max(1, |d| - 1)
    requires var c := DataCount(write, read, |d| - 1);
             read' % |d| == (read + c + |items| - Min(c + |items|, |d| - 1)) % |d|
    ensures var c := DataCount(write, read, |d| - 1);
            Window(Store(d, write, items), read', Min(c + |items|, |d| - 1)) ==
            LastN(Window(d, read, c) + items, |d| - 1)
  {
    hide And, DataCount, Window, Store, LastN;
    CountFacts(write, read, |d|);
    SurvivorsAt(d, write, read, DataCount(write, read, |d| - 1), items, read');
  }

  /** The memory effect of a read: the window loses its first bytes. */
  lemma Consumed(d: seq<Byte>, write: Size, read: Size, n: nat)
    requires CheckSize(|d|) && |d| < TWO_64 && n <= DataCount(write, read, |d| - 1)
    ensures var read' := Wrap(read + n);
            Window(d, read', DataCount(write, read', |d| - 1)) ==
            Window(d, read, DataCount(write, read, |d| - 1))[n..]
  {
    hide And, DataCount, Window;
    var c := DataCount(write, read, |d| - 1);
    Consume(write, read, |d|, n);
    WindowSplit(d, read, n, c - n);
    assert n + (c - n) == c;
    WindowShift(d, Wrap(read + n), read + n, c - n);
  }

  lemma ByteAt0(d: seq<Byte>, p: Size, c: nat)
    requires CheckSize(|d|) && |d| < TWO_64
    ensures And(p, |d| - 1) < |d|
    ensures c > 0 ==> d[And(p, |d| - 1)] == Window(d, p, c)[0]
  {
    hide And, Window;
    WrapSize(p);
    SlotOf(p, |d|);
    if c > 0 {
      ByteAt(d, p, c, 0);
    }
  }

  /** A remaining count reported by the hardware, forced into 0..size. */
  function Clamp(ndtr: int, size: nat): (r: nat)
    ensures r <= size
  {
    if ndtr < 0 then 0 else if ndtr > size then size else ndtr
  }

  /** Publishing bytes that already lie in memory: the surviving window is the newest part of both. */
  lemma Advanced(d: seq<Byte>, write: nat, read: nat, c: nat, n: nat, read': nat, keep: nat)
    requires |d| > 0 && keep == Min(c + n, |d| - 1)
    requires write % |d| == (read + c) % |d| && read' % |d| == (read + c + n - keep) % |d|
    ensures Window(d, read', keep) == LastN(Window(d, read, c) + Window(d, write, n), |d| - 1)
  {
    hide Window, LastN;
    WindowShift(d, write, read + c, n);
    WindowAdvance(d, read, c, n, |d| - 1);
    assert read + c + n - keep == read + (c + n - keep);
    WindowShift(d, read', read + (c + n - keep), keep);
  }

  /** The same from one pair of counters to the next. */
  lemma AdvancedQueue(d: seq<Byte>, write: Size, read: Size, n: nat, write': Size, read': Size)
    requires CheckSize(|d|) && |d| < TWO_64 && n < |d|
    requires write' == Wrap(write + n)
    requires read' == if n > |d| - 1 - DataCount(write, read, |d| - 1) then Wrap(write' + 1) else read
    ensures Window(d, read', DataCount(write', read', |d| - 1)) ==
            LastN(Window(d, read, DataCount(write, read, |d| - 1)) + Window(d, write, n), |d| - 1)
  {
    hide And, DataCount, Window, LastN, Wrap;
    var c := DataCount(write, read, |d| - 1);
    CountFacts(write, read, |d|);
    Publish(write, read, |d|, n, write', read');
    Advanced(d, write, read, c, n, read', DataCount(write', read', |d| - 1));
  }

  /** The slot the hardware writes next. */
  function DmaSlot(ndtr: int, size: Size): nat
    requires size > 0
  {
    (size - Clamp(ndtr, size)) % size
  }

  /** How far that slot has moved since it was `slot0`. */
  function DmaFresh(slot: nat, slot0: nat, size: Size): (n: nat)
    requires size > 0
    ensures n < size
  {
    (slot - slot0) % size
  }

  /** What the hardware count says was produced since the last publication. */
  lemma DmaDelta(ndtr: int, size: Size, dmaCnt: nat)
    requires CheckSize(size) && dmaCnt < size
    ensures var produced := And(Wrap(size - Clamp(ndtr, size)), size - 1);
            && produced == DmaSlot(ndtr, size) < size
            && And(Wrap(produced - dmaCnt), size - 1) == DmaFresh(produced, dmaCnt, size)
  {
    hide And, Wrap, Clamp;
    WrapInvisible(size - Clamp(ndtr, size), size);
    WrapInvisible(DmaSlot(ndtr, size) - dmaCnt, size);
  }

  /** The counters, the queue in memory and the ledger after one byte. */
  lemma OneWritten(d: seq<Byte>, write: Size, read: Size, item: Byte, events: seq<Event>)
    requires CheckSize(|d|) && |d| < TWO_64 && AllAccepted(|d| - 1, events)
    requires DataCount(write, read, |d| - 1) == |Replay(|d| - 1, events).bytes|
    ensures var write', l' := Wrap(write + 1), Replay(|d| - 1, events + [Put([item])]);
            var full := And(write', |d| - 1) == And(read, |d| - 1);
            var read' := if full then Wrap(read + 1) else read;
            && DataCount(write', read', |d| - 1) == |l'.bytes|
            && Window(Store(d, write, [item]), read', |l'.bytes|) ==
               LastN(Window(d, read, DataCount(write, read, |d| - 1)) + [item], |d| - 1)
            && Wrap(l'.overruns) == Wrap(Wrap(Replay(|d| - 1, events).overruns) + if full then 1 else 0)
            && AllAccepted(|d| - 1, events + [Put([item])])
  {
    hide And, DataCount, Window, Store, LastN, Replay, Wrap, AllAccepted;
    var full := And(Wrap(write + 1), |d| - 1) == And(read, |d| - 1);
    PublishOne(write, read, |d|);
    Survivors(d, write, read, [item], if full then Wrap(read + 1) else read);
    ReplayPut(|d| - 1, events, [item]);
    AcceptedOne(|d| - 1, events, item);
    WrapAdd(Replay(|d| - 1, events).overruns, if full then 1 else 0);
  }

  /** The hardware slot in one line: a countdown outside the buffer counts as a full or an empty one,
      and both mean slot zero. */
  lemma DmaSlotIs(ndtr: int, size: Size)
    requires size > 0
    ensures DmaSlot(ndtr, size) == if 0 < ndtr < size then size - ndtr else 0
  {
    if 0 < ndtr < size {
      ModSmall(size - ndtr, size);
    } else {
      ModAddMultiple(0, size, 1);
      ModSmall(0, size);
    }
  }

  class CircularBuffer {
    const data: array<Byte>
    const size: Size
    const mask: Size
    var write: Size
    var read: Size
    var readLast: Size
    var dmaCnt: Size
    var fullCnt: Size
    ghost var history: seq<Event>

    ghost predicate Shaped() {
      CheckSize(size) && mask == size - 1 && data.Length == size
    }

    ghost function Count(): (c: nat)
      reads this
      requires Shaped()
    {
      DataCount(write, read, mask)
    }

    /** The unread bytes, oldest first. */
    ghost function Contents(): (q: seq<Byte>)
      reads this, data
      requires Shaped()
      ensures |q| == Count()
    {
      Window(data[..], read, Count())
    }

    /** The counters agree with the ledger of everything done to the buffer so far. */
    ghost predicate Valid()
      reads this
    {
      && Shaped()
      && Count() == |Replay(mask, history).bytes|
      && fullCnt == Wrap(Replay(mask, history).overruns)
      && readLast == read
      && dmaCnt < size
      && AllAccepted(mask, history)
    }

    /** The memory holds the bytes of the queue. Only a writer that bypasses the buffer can break this. */
    ghost predicate Intact()
      reads this, data
      requires Shaped()
    {
      Contents() == Replay(mask, history).bytes
    }

    /** After every run the wrapped overrun counter stands for a number that brackets the bytes lost. */
    lemma OverrunsBracket()
      requires Valid()
      ensures var l := Replay(mask, history);
              fullCnt == Wrap(l.overruns) && l.overruns <= l.dropped <= l.overruns * Max(1, mask)
    {
      hide And, CheckSize, DataCount, AllAccepted, Replay, Wrap;
      OverrunsBracketLoss(mask, history);
    }

    constructor Init(data: array<Byte>, size: Size)
      requires CheckSize(size) && data.Length == size
      ensures Valid() && this.data == data && this.size == size && Contents() == [] && Intact()
      ensures write == 0 && dmaCnt == 0 && history == []
    {
      this.data := data;
      this.size := size;
      mask := size - 1;
      write, read, readLast, dmaCnt, fullCnt := 0, 0, 0, 0, 0;
      history := [];
      new;
      CountIs(0, 0, size, 0);
    }

    method IsEmpty() returns (empty: bool)
      requires Valid()
      ensures empty <==> Contents() == []
    {
      EmptyIff(write, read, size);
      empty := And(write, mask) == And(read, mask);
    }

    /** Despite its name, true when the count is 1 modulo the size. */
    method IsFull() returns (full: bool)
      requires Valid()
      ensures full <==> Count() == 1 % size
    {
      FullIff(write, read, size);
      full := And(Wrap(read + 1), mask) == And(write, mask);
    }

    method Available() returns (n: nat)
      requires Valid()
      ensures n == |Contents()| == Count()
    {
      n := And(Wrap(write - read), mask);
    }

    method EmptyCount() returns (gap: nat)
      requires Valid()
      ensures gap == mask - |Contents()|
    {
      CountFacts(write, read, size);
      gap := mask - And(Wrap(write - read), mask);
    }

    /** Publishes the `num` bytes that already lie at and after the write position. */
    method WriteInc(num: nat)
      requires Valid() && num <= mask
      modifies this`write, this`read, this`readLast, this`fullCnt, this`history
      ensures Valid()
      ensures write == Wrap(old(write) + num)
      ensures read == if num > mask - old(Count()) then Wrap(write + 1) else old(read)
      ensures history == old(history) + [Put(Window(data[..], old(write), num))]
    {
      hide And, Window, Replay, DataCount, CheckSize, LastN, Wrap, AllAccepted;
      var gap := EmptyCount();
      ghost var write0, read0 := write, read;
      write := Wrap(write + num);
      if num > gap {
        read := Wrap(write + 1);
        readLast := read;
        WrapAdd(Replay(mask, history).overruns, 1);
        fullCnt := Wrap(fullCnt + 1);
      }
      Publish(write0, read0, size, num, write, read);
      ghost var items := Window(data[..], write0, num);
      ReplayPut(mask, history, items);
      AcceptedSnoc(mask, history, Put(items));
      history := history + [Put(items)];
    }

    method ReadInc(num: nat)
      requires Valid()
      modifies this`read, this`readLast, this`history
      ensures Valid()
      ensures var n := Min(num, old(Count()));
              && history == old(history) + [Take(n)]
              && read == Wrap(old(read) + n)
              && Contents() == old(Contents())[n..]
      ensures old(Intact()) ==> Intact()
    {
      hide And, Window, Replay, CheckSize, Wrap, AllAccepted;
      var avail := And(Wrap(write - read), mask);
      var n := if num > avail then avail else num;
      Consume(write, read, size, n);
      Consumed(data[..], write, read, n);
      read := Wrap(read + n);
      readLast := read;
      ReplayTake(mask, history, n);
      AcceptedSnoc(mask, history, Take(n));
      history := history + [Take(n)];
    }

    /** A publication of `items`: they follow the queue, which keeps its newest bytes. */
    twostate predicate Published(items: seq<Byte>)
      reads this, data
      requires Shaped()
    {
      && write == Wrap(old(write) + |items|)
      && Contents() == LastN(old(Contents()) + items, mask)
      && history == old(history) + [Put(items)]
    }

    /** Publishing onto an intact queue gives an intact queue. */
    twostate lemma PublishedIntact(items: seq<Byte>)
      requires Shaped() && Published(items) && old(Intact())
      ensures Intact()
    {
      hide And, DataCount, Window, CheckSize, LastN, Replay;
      ReplayPut(mask, old(history), items);
    }

    /** The path for a single byte. */
    method WriteOne(item: Byte)
      requires Valid()
      modifies this`write, this`read, this`readLast, this`fullCnt, this`history, data
      ensures Valid() && Published([item])
      ensures data[..] == Store(old(data[..]), old(write), [item])
    {
      hide And, Window, Replay, CheckSize, DataCount, LastN, Wrap, Store, AllAccepted;
      ghost var d := data[..];
      StoreOne(d, write, item);
      OneWritten(d, write, read, item, history);
      WrapSize(fullCnt);
      data[And(write, mask)] := item;
      assert data[..] == Store(d, write, [item]);
      write := Wrap(write + 1);
      if And(write, mask) == And(read, mask) {
        read := Wrap(read + 1);
        readLast := read;
        fullCnt := Wrap(fullCnt + 1);
      }
      history := history + [Put([item])];
    }

    /** The copy loop of a batch: a second counter runs ahead of `write`. */
    method Fill(items: seq<Byte>)
      requires Shaped()
      modifies data
      ensures data[..] == Store(old(data[..]), write, items)
    {
      hide And, CheckSize, Wrap, Store;
      ghost var d := data[..];
      WrapSize(write);
      StoreNothing(d, write);
      assert items[..0] == [];
      var v: nat, k := write, 0;
      while k < |items|
        invariant 0 <= k <= |items|
        invariant v == Wrap(write + k)
        invariant data[..] == Store(d, write, items[..k])
      {
        StoreLast(d, write, items, k);
        data[And(v, mask)] := items[k];
        WrapAdd(write + k, 1);
        k := k + 1;
        v := Wrap(v + 1);
      }
      assert items[..k] == items;
    }

    /** The path for a batch. */
    method WriteBatch(items: seq<Byte>)
      requires Valid() && |items| < size
      modifies this`write, this`read, this`readLast, this`fullCnt, this`history, data
      ensures Valid() && Published(items)
      ensures data[..] == Store(old(data[..]), old(write), items)
    {
      hide And, Window, Replay, CheckSize, DataCount, LastN, Wrap, Store;
      ghost var d, write0, read0 := data[..], write, read;
      Fill(items);
      StoredWindow(d, write, items);
      WriteInc(|items|);
      Publish(write0, read0, size, |items|, write, read);
      Survivors(d, write0, read0, items, read);
    }

    /** Writes one byte, or a batch that is smaller than the buffer; a larger batch is refused. */
    method Write(items: seq<Byte>) returns (r: nat)
      requires Valid() && |items| > 0
      modifies this`write, this`read, this`readLast, this`fullCnt, this`history, data
      ensures Valid()
      ensures |items| >= Max(2, size) ==> r == 0 && unchanged(this) && unchanged(data)
      ensures |items| < Max(2, size) ==>
                r == |items| && Published(items) && data[..] == Store(old(data[..]), old(write), items)
      ensures old(Intact()) ==> Intact()
    {
      hide And, Window, Replay, CheckSize, DataCount, LastN, Wrap, Store, Contents, Count, Published, Intact;
      assert |items| == 1 ==> items == [items[0]];
      if |items| == 1 {
        WriteOne(items[0]);
        r := 1;
      } else if |items| < size {
        WriteBatch(items);
        r := |items|;
      } else {
        r := 0;
        return;
      }
      if old(Intact()) {
        PublishedIntact(items);
      }
    }

    /** A consumption of the `r` oldest bytes; nothing is recorded when there are none. */
    twostate predicate Taken(r: nat)
      reads this, data
      requires Shaped()
    {
      && r <= old(Count())
      && Contents() == old(Contents())[r..]
      && history == old(history) + if r == 0 then [] else [Take(r)]
    }

    twostate lemma TakenIntact(r: nat)
      requires Valid() && old(Valid()) && Taken(r) && old(Intact())
      ensures Intact()
    {
      hide And, DataCount, Window, CheckSize, Replay;
      if r > 0 {
        ReplayTake(mask, old(history), r);
      } else {
        assert history == old(history);
      }
    }

    /** The copy loop of a read. */
    method CopyOut(out: array<Byte>, n: nat)
      requires Shaped() && out != data && n <= Count() && n <= out.Length
      modifies out
      ensures out[..] == Overlay(old(out[..]), Contents()[..n])
    {
      hide And, CheckSize, Wrap, Window, DataCount, Overlay;
      ghost var q, c, dst := Contents(), Count(), out[..];
      WrapSize(read);
      OverlayNothing(dst, q);
      var v: nat, k := read, 0;
      while k < n
        invariant 0 <= k <= n && v == Wrap(read + k)
        invariant out[..] == Overlay(dst, q[..k])
      {
        ByteAt(data[..], read, c, k);
        OverlayStep(dst, q, k);
        out[k] := data[And(v, mask)];
        WrapAdd(read + k, 1);
        k := k + 1;
        v := Wrap(v + 1);
      }
    }

    /** Reads up to `n` bytes. */
    method Read(out: array<Byte>, n: nat) returns (r: nat)
      requires Valid() && n > 0 && out != data && Min(n, Count()) <= out.Length
      modifies this`read, this`readLast, this`history, out
      ensures Valid() && r == Min(n, old(Count())) && Taken(r)
      ensures out[..] == Overlay(old(out[..]), old(Contents())[..r])
      ensures old(Intact()) ==> Intact()
    {
      hide And, CheckSize, Wrap, Window, DataCount, Replay, Overlay;
      OverlayNothing(out[..], Contents());
      var empty := IsEmpty();
      if empty {
        return 0;
      }
      if n == 1 {
        ReadOne(out);
        r := 1;
      } else {
        var available := Available();
        r := if available < n then available else n;
        CopyOut(out, r);
        ReadInc(r);
      }
      if old(Intact()) {
        TakenIntact(r);
      }
    }

    /** The path for a single byte. */
    method ReadOne(out: array<Byte>)
      requires Valid() && out != data && Count() > 0 && out.Length > 0
      modifies this`read, this`readLast, this`history, out
      ensures Valid() && Taken(1)
      ensures out[..] == Overlay(old(out[..]), old(Contents())[..1])
    {
      hide And, CheckSize, Wrap, Window, DataCount, Replay, Overlay, AllAccepted;
      ByteAt0(data[..], read, Count());
      Consume(write, read, size, 1);
      Consumed(data[..], write, read, 1);
      OverlayNothing(out[..], Contents());
      OverlayStep(out[..], Contents(), 0);
      out[0] := data[And(read, mask)];
      read := Wrap(read + 1);
      readLast := read;
      ReplayTake(mask, history, 1);
      AcceptedSnoc(mask, history, Take(1));
      history := history + [Take(1)];
    }

    /** Reads through the first `b`, or up to `max` bytes when it does not come before that. */
    method ReadUntil(out: array<Byte>, max: nat, b: Byte) returns (r: nat)
      requires Valid() && max > 0 && out != data && Min(max, Count()) <= out.Length
      modifies this`read, this`readLast, this`history, out
      ensures Valid() && r == FrameLen(old(Contents()), max, b) && Taken(r)
      ensures out[..] == Overlay(old(out[..]), old(Contents())[..r])
      ensures old(Intact()) ==> Intact()
    {
      hide And, CheckSize, Wrap, Window, DataCount, Replay, Overlay;
      OverlayNothing(out[..], Contents());
      var empty := IsEmpty();
      if empty {
        return 0;
      }
      r := CopyUntil(out, max, b);
      ReadInc(r);
      if old(Intact()) {
        TakenIntact(r);
      }
    }

    /** The copy loop of a delimiter read. */
    method CopyUntil(out: array<Byte>, max: nat, b: Byte) returns (i: nat)
      requires Valid() && max > 0 && out != data && Min(max, Count()) <= out.Length && Count() > 0
      modifies out
      ensures i == FrameLen(Contents(), max, b) > 0
      ensures out[..] == Overlay(old(out[..]), Contents()[..i])
    {
      hide And, CheckSize, Wrap, Window, DataCount, Replay, FrameLen, IndexOf, Overlay;
      ghost var q, dst := Contents(), out[..];
      var m := Available();
      if max < m {
        m := max;
      }
      WrapSize(read);
      OverlayNothing(dst, q);
      var v: nat := read;
      i := 0;
      while i < m
        invariant 0 <= i <= m && v == Wrap(read + i)
        invariant out[..] == Overlay(dst, q[..i])
        invariant b !in q[..i]
      {
        ByteAt(data[..], read, |q|, i);
        OverlayStep(dst, q, i);
        out[i] := data[And(v, mask)];
        if out[i] == b {
          FrameEndsAt(q, max, b, i);
          i := i + 1;
          return;
        }
        WrapAdd(read + i, 1);
        i := i + 1;
        v := Wrap(v + 1);
      }
      FrameFills(q, max, b, i);
    }

    /** Discards everything before the first `b` that the memory shows, and as much of the recorded queue. */
    method DmaSyncStart(b: Byte)
      requires Valid()
      modifies this`read, this`readLast, this`history
      ensures Valid()
      ensures Contents() == old(Contents())[IndexOf(old(Contents()), b)..]
      ensures |old(Replay(mask, history).bytes)| == |old(Contents())|
      ensures Replay(mask, history).bytes ==
              old(Replay(mask, history).bytes)[IndexOf(old(Contents()), b)..]
      ensures old(Intact()) ==> Intact()
    {
      hide And, CheckSize, Wrap, Window, DataCount, Replay, Intact, AllAccepted;
      ghost var q, l, k := Contents(), Replay(mask, history).bytes, 0;
      var more := StartsWithout(b);
      while more
        invariant Valid() && k <= |q| == |l| && Contents() == q[k..] && b !in q[..k]
        invariant Replay(mask, history).bytes == l[k..]
        invariant more <==> Contents() != [] && Contents()[0] != b
        invariant old(Intact()) ==> Intact()
        decreases |q| - k
      {
        ReplayTake(mask, history, 1);
        ReadInc(1);
        DropDrop(q, k, 1);
        DropDrop(l, k, 1);
        k := k + 1;
        more := StartsWithout(b);
      }
      IndexOfUnique(q, b, k);
    }

    /** Whether there is an unread byte and it is not `b`. */
    method StartsWithout(b: Byte) returns (more: bool)
      requires Valid()
      ensures more <==> Contents() != [] && Contents()[0] != b
    {
      hide And, CheckSize, Wrap, Window, DataCount, Replay;
      var empty := IsEmpty();
      ByteAt0(data[..], read, Count());
      more := !empty && data[And(read, mask)] != b;
    }

    /** Publishes what a DMA channel with remaining count `ndtr` has written since the last call. */
    method DmaWriteInc(ndtr: int)
      requires Valid() && -0x8000_0000 <= ndtr < 0x8000_0000
      modifies this`write, this`read, this`readLast, this`dmaCnt, this`fullCnt, this`history
      ensures Valid()
      ensures dmaCnt == DmaSlot(ndtr, size)
      ensures Published(Window(data[..], old(write), DmaFresh(dmaCnt, old(dmaCnt), size)))
    {
      hide And, CheckSize, Wrap, Window, DataCount, Replay, LastN, Clamp, DmaSlot, DmaFresh;
      var remaining := Clamp(ndtr, size);
      DmaDelta(ndtr, size, dmaCnt);
      var produced := And(Wrap(size - remaining), mask);
      var delta := And(Wrap(produced - dmaCnt), mask);
      dmaCnt := produced;
      Advance(delta);
    }

    /** `WriteInc` on bytes that were already in memory. */
    method Advance(n: nat)
      requires Valid() && n <= mask
      modifies this`write, this`read, this`readLast, this`fullCnt, this`history
      ensures Valid() && Published(Window(data[..], old(write), n))
    {
      hide And, CheckSize, Wrap, Window, DataCount, Replay, LastN;
      ghost var write0, read0 := write, read;
      WriteInc(n);
      AdvancedQueue(data[..], write0, read0, n, write, read);
    }
  }
}
