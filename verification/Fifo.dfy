/** The queue that the ring buffer is meant to be: at most `cap` bytes, and the oldest are dropped
    to make room. A run is a sequence of events, and a ledger accounts for every byte of it. */
module Fifo {
  import opened Machine
  import opened Seqs

  function LastN<T>(s: seq<T>, n: nat): (r: seq<T>)
    ensures |r| == Min(|s|, n)
    ensures r == s[|s| - |r|..]
  {
    if |s| <= n then s else s[|s| - n..]
  }

  /** `Put` publishes bytes in one go; `Take` removes up to `n` of the oldest ones. */
  datatype Event = Put(items: seq<Byte>) | Take(n: nat)

  /** The queue together with running totals since the buffer was set up. */
  datatype Ledger = Ledger(bytes: seq<Byte>, published: nat, consumed: nat, dropped: nat, overruns: nat)

  const EMPTY := Ledger([], 0, 0, 0, 0)

  function Excess(cap: nat, l: Ledger, n: nat): nat {
    if |l.bytes| + n <= cap then 0 else |l.bytes| + n - cap
  }

  function Step(cap: nat, l: Ledger, e: Event): Ledger {
    match e
    case Put(items) =>
      var excess := Excess(cap, l, |items|);
      Ledger(LastN(l.bytes + items, cap), l.published + |items|, l.consumed, l.dropped + excess,
             l.overruns + if excess > 0 then 1 else 0)
    case Take(n) =>
      var m := Min(n, |l.bytes|);
      l.(bytes := l.bytes[m..], consumed := l.consumed + m)
  }

  function Run(cap: nat, l: Ledger, events: seq<Event>): Ledger {
    if events == [] then l
    else Step(cap, Run(cap, l, events[..|events| - 1]), events[|events| - 1])
  }

  function Replay(cap: nat, events: seq<Event>): Ledger {
    Run(cap, EMPTY, events)
  }

  lemma RunSnoc(cap: nat, l: Ledger, events: seq<Event>, e: Event)
    ensures Run(cap, l, events + [e]) == Step(cap, Run(cap, l, events), e)
  {
    assert (events + [e])[..|events|] == events;
  }

  /** A publication, seen from the ledger. */
  lemma ReplayPut(cap: nat, events: seq<Event>, items: seq<Byte>)
    ensures var l, l' := Replay(cap, events), Replay(cap, events + [Put(items)]);
            && l'.bytes == LastN(l.bytes + items, cap)
            && l'.overruns == l.overruns + if |l.bytes| + |items| > cap then 1 else 0
  {
    hide Run, LastN;
    RunSnoc(cap, EMPTY, events, Put(items));
  }

  lemma ReplayTake(cap: nat, events: seq<Event>, n: nat)
    requires n <= |Replay(cap, events).bytes|
    ensures var l, l' := Replay(cap, events), Replay(cap, events + [Take(n)]);
            && l'.bytes == l.bytes[n..]
            && l'.overruns == l.overruns
  {
    hide Run;
    RunSnoc(cap, EMPTY, events, Take(n));
  }

  /** Everything ever published, in order. */
  function Stream(events: seq<Event>): seq<Byte> {
    if events == [] then []
    else
      var last := events[|events| - 1];
      Stream(events[..|events| - 1]) + if last.Put? then last.items else []
  }

  /** Conservation, and first-in-first-out, over every run: the queue is exactly the published
      stream without the bytes consumed or dropped, all of which came off its front. */
  lemma {:induction false} Conservation(cap: nat, events: seq<Event>)
    ensures var l := Replay(cap, events);
            && l.published == |Stream(events)| == l.consumed + l.dropped + |l.bytes|
            && |l.bytes| <= cap
            && l.bytes == Stream(events)[l.consumed + l.dropped..]
  {
    hide Step, LastN;
    if events != [] {
      var before, e := events[..|events| - 1], events[|events| - 1];
      Conservation(cap, before);
      var l := Replay(cap, before);
      assert Replay(cap, events) == Step(cap, l, e);
      StepTakesFromFront(cap, l, e, Stream(before));
    }
  }

  lemma StepTakesFromFront(cap: nat, l: Ledger, e: Event, s: seq<Byte>)
    requires l.published == |s| == l.consumed + l.dropped + |l.bytes|
    requires |l.bytes| <= cap && l.bytes == s[l.consumed + l.dropped..]
    ensures var l' := Step(cap, l, e);
            var s' := s + if e.Put? then e.items else [];
            && l'.published == |s'| == l'.consumed + l'.dropped + |l'.bytes|
            && |l'.bytes| <= cap
            && l'.bytes == s'[l'.consumed + l'.dropped..]
  {
    match e
    case Put(items) => PutDropsFromFront(cap, l, items, s);
    case Take(n) =>
      DropDrop(s, l.consumed + l.dropped, Min(n, |l.bytes|));
      assert s + [] == s;
  }

  lemma PutDropsFromFront(cap: nat, l: Ledger, items: seq<Byte>, s: seq<Byte>)
    requires l.published == |s| == l.consumed + l.dropped + |l.bytes|
    requires |l.bytes| <= cap && l.bytes == s[l.consumed + l.dropped..]
    ensures var l' := Step(cap, l, Put(items));
            && l'.published == |s + items| == l'.consumed + l'.dropped + |l'.bytes|
            && |l'.bytes| <= cap
            && l'.bytes == (s + items)[l'.consumed + l'.dropped..]
  {
    hide LastN;
    var k := l.consumed + l.dropped;
    assert l.bytes + items == (s + items)[k..];
    DropDrop(s + items, k, Excess(cap, l, |items|));
  }

  /** A publication the buffer accepts: one byte, or fewer bytes than its size. */
  predicate Accepted(cap: nat, e: Event) {
    e.Put? ==> |e.items| <= Max(1, cap)
  }

  ghost predicate AllAccepted(cap: nat, events: seq<Event>) {
    forall e :: e in events ==> Accepted(cap, e)
  }

  lemma AcceptedSnoc(cap: nat, events: seq<Event>, e: Event)
    requires AllAccepted(cap, events) && Accepted(cap, e)
    ensures AllAccepted(cap, events + [e])
  {
  }

  lemma AcceptedOne(cap: nat, events: seq<Event>, item: Byte)
    requires AllAccepted(cap, events)
    ensures AllAccepted(cap, events + [Put([item])])
  {
    AcceptedSnoc(cap, events, Put([item]));
  }

  /** The overrun counter brackets the loss. */
  lemma {:induction false} OverrunsBracketLoss(cap: nat, events: seq<Event>)
    requires AllAccepted(cap, events)
    ensures var l := Replay(cap, events); l.overruns <= l.dropped <= l.overruns * Max(1, cap)
  {
    if events != [] {
      var before := events[..|events| - 1];
      assert forall e :: e in before ==> e in events;
      OverrunsBracketLoss(cap, before);
      Conservation(cap, before);
      assert events[|events| - 1] in events;
      StepBracketsLoss(cap, Replay(cap, before), events[|events| - 1]);
    }
  }

  lemma StepBracketsLoss(cap: nat, l: Ledger, e: Event)
    requires |l.bytes| <= cap && Accepted(cap, e)
    requires l.overruns <= l.dropped <= l.overruns * Max(1, cap)
    ensures var l' := Step(cap, l, e); l'.overruns <= l'.dropped <= l'.overruns * Max(1, cap)
  {
    hide LastN, Excess;
    if e.Put? {
      ExcessBound(cap, l, |e.items|);
      OneMore(l.overruns, Max(1, cap));
    }
  }

  lemma ExcessBound(cap: nat, l: Ledger, n: nat)
    requires |l.bytes| <= cap && n <= Max(1, cap)
    ensures Excess(cap, l, n) <= Max(1, cap)
  {
  }

  lemma OneMore(k: nat, cap: nat)
    ensures (k + 1) * cap == k * cap + cap
  {
  }

  /** When bytes are written one at a time the counter is the loss. */
  lemma {:induction false} SingleWritesCountLoss(cap: nat, events: seq<Event>)
    requires forall e :: e in events && e.Put? ==> |e.items| == 1
    ensures var l := Replay(cap, events); l.overruns == l.dropped
  {
    if events != [] {
      var before := events[..|events| - 1];
      SingleWritesCountLoss(cap, before);
      Conservation(cap, before);
      assert events[|events| - 1] in events;
    }
  }

  function Singles(items: seq<Byte>): seq<Event> {
    seq(|items|, i requires 0 <= i < |items| => Put([items[i]]))
  }

  lemma LastNAppend<T>(s: seq<T>, t: seq<T>, n: nat)
    ensures LastN(LastN(s, n) + t, n) == LastN(s + t, n)
  {
    hide LastN;
    if |s| > n {
      var k := |s| - n;
      assert s + t == s[..k] + (s[k..] + t);
      LastNOfSuffix(s[..k], s[k..] + t, n);
    }
  }

  lemma LastNOfSuffix<T>(s: seq<T>, t: seq<T>, n: nat)
    requires |t| >= n
    ensures LastN(s + t, n) == LastN(t, n)
  {
    hide LastN;
    assert (s + t)[|s| + |t| - n..] == t[|t| - n..];
  }

  lemma SinglesSnoc(front: seq<Byte>, last: Byte)
    ensures Singles(front + [last]) == Singles(front) + [Put([last])]
  {
  }

  /** Appending one byte more to a batch, or writing it separately, differs only in the overruns. */
  lemma BatchSnoc(cap: nat, l: Ledger, front: seq<Byte>, last: Byte)
    requires |l.bytes| <= cap
    ensures Step(cap, l, Put(front + [last])).(overruns := 0)
         == Step(cap, Step(cap, l, Put(front)), Put([last])).(overruns := 0)
    ensures Excess(cap, Step(cap, l, Put(front)), 1) ==
            Excess(cap, l, |front| + 1) - Excess(cap, l, |front|)
  {
    hide LastN;
    LastNAppend(l.bytes + front, [last], cap);
    assert l.bytes + (front + [last]) == l.bytes + front + [last];
  }

  lemma StepNothing(cap: nat, l: Ledger)
    requires |l.bytes| <= cap
    ensures Step(cap, l, Put([])) == l && Excess(cap, l, 0) == 0
  {
    assert l.bytes + [] == l.bytes;
  }

  lemma StepIgnoresOverruns(cap: nat, l: Ledger, k: nat, e: Event)
    ensures Step(cap, l.(overruns := k), e).(overruns := 0) == Step(cap, l, e).(overruns := 0)
  {
  }

  /** Single writes leave the queue and the totals of one batch, and count every byte lost. */
  lemma {:induction false} BatchIsSingles(cap: nat, l: Ledger, items: seq<Byte>)
    requires |l.bytes| <= cap
    ensures Run(cap, l, Singles(items)) ==
            Step(cap, l, Put(items)).(overruns := l.overruns + Excess(cap, l, |items|))
  {
    hide LastN;
    if items == [] {
      StepNothing(cap, l);
    } else {
      var front, last := items[..|items| - 1], items[|items| - 1];
      assert items == front + [last];
      SinglesSnoc(front, last);
      RunSnoc(cap, l, Singles(front), Put([last]));
      BatchIsSingles(cap, l, front);
      BatchSnoc(cap, l, front, last);
      assert Excess(cap, l, |front| + 1) == Excess(cap, l, |items|);
      var batch := Step(cap, l, Put(front));
      StepIgnoresOverruns(cap, batch, l.overruns + Excess(cap, l, |front|), Put([last]));
    }
  }

  /** A batch counts its loss once, so the two counters agree exactly when at most one byte is lost. */
  lemma BatchCountsLossOnce(cap: nat, l: Ledger, items: seq<Byte>)
    requires |l.bytes| <= cap
    ensures Run(cap, l, Singles(items)).overruns == Step(cap, l, Put(items)).overruns
       <==> Excess(cap, l, |items|) <= 1
  {
    BatchIsSingles(cap, l, items);
  }

  // ---- Frames ----

  /** What repeated delimiter reads return, when each may take the whole queue. */
  function Frames(q: seq<Byte>, b: Byte): seq<seq<Byte>>
    decreases |q|
  {
    if q == [] then []
    else
      var n := FrameLen(q, |q|, b);
      [q[..n]] + Frames(q[n..], b)
  }

  function Concat(frames: seq<seq<Byte>>): seq<Byte> {
    if frames == [] then [] else frames[0] + Concat(frames[1..])
  }

  ghost predicate FrameShaped(f: seq<Byte>, b: Byte) {
    f != [] && b !in f[..|f| - 1]
  }

  /** A framing: no delimiter inside a frame, and one at the end of every frame but the last. */
  ghost predicate IsFraming(frames: seq<seq<Byte>>, b: Byte) {
    && (forall i :: 0 <= i < |frames| ==> FrameShaped(frames[i], b))
    && (forall i :: 0 <= i < |frames| - 1 ==> frames[i] != [] && frames[i][|frames[i]| - 1] == b)
  }

  lemma FirstFrame(q: seq<Byte>, b: Byte)
    requires q != []
    ensures var n := FrameLen(q, |q|, b);
            FrameShaped(q[..n], b) && (n < |q| ==> q[n - 1] == b)
  {
    var n := FrameLen(q, |q|, b);
    assert q[..n][..n - 1] == q[..IndexOf(q, b)][..n - 1];
  }

  lemma FramingCons(f: seq<Byte>, frames: seq<seq<Byte>>, b: Byte)
    requires IsFraming(frames, b) && FrameShaped(f, b)
    requires frames != [] ==> f[|f| - 1] == b
    ensures IsFraming([f] + frames, b)
  {
    var fs := [f] + frames;
    assert forall i :: 1 <= i < |fs| ==> fs[i] == frames[i - 1];
  }

  /** Each read whose limit is no smaller than the queue takes the next frame. */
  lemma FramesOf(q: seq<Byte>, max: nat, b: Byte)
    requires q != [] && max >= |q|
    ensures var n := FrameLen(q, max, b);
            && 0 < n <= |q|
            && Frames(q, b) == [q[..n]] + Frames(q[n..], b)
            && (q[n..] == [] ==> Frames(q[n..], b) == [])
  {
    hide IndexOf;
  }

  lemma ConcatCons(f: seq<Byte>, frames: seq<seq<Byte>>)
    ensures Concat([f] + frames) == f + Concat(frames)
  {
    assert ([f] + frames)[1..] == frames;
  }

  /** The first frame put before a cut of the rest is a cut of the whole. */
  lemma CutCons(q: seq<Byte>, n: nat, frames: seq<seq<Byte>>, b: Byte)
    requires 0 < n <= |q| && FrameShaped(q[..n], b) && (n < |q| ==> q[n - 1] == b)
    requires Concat(frames) == q[n..] && IsFraming(frames, b) && (n == |q| ==> frames == [])
    ensures Concat([q[..n]] + frames) == q && IsFraming([q[..n]] + frames, b)
  {
    hide Concat, IsFraming, FrameShaped;
    FramingCons(q[..n], frames, b);
    ConcatCons(q[..n], frames);
    assert q == q[..n] + q[n..];
  }

  lemma NoFrames(b: Byte)
    ensures Frames([], b) == [] && Concat([]) == [] && IsFraming([], b)
  {
  }

  /** Repeated delimiter reads lose nothing and cut the queue into a framing... */
  lemma {:induction false} FramesCutTheQueue(q: seq<Byte>, b: Byte)
    ensures Concat(Frames(q, b)) == q
    ensures IsFraming(Frames(q, b), b)
    decreases |q|
  {
    hide FrameLen, IsFraming, FrameShaped, IndexOf, Concat, Frames;
    if q == [] {
      NoFrames(b);
    } else {
      var n := FrameLen(q, |q|, b);
      FirstFrame(q, b);
      FramesOf(q, |q|, b);
      FramesCutTheQueue(q[n..], b);
      CutCons(q, n, Frames(q[n..], b), b);
    }
  }

  /** A frame with its delimiter, or the last one, is what a read takes first. */
  lemma FrameFirst(f: seq<Byte>, more: seq<Byte>, b: Byte)
    requires FrameShaped(f, b) && (f[|f| - 1] == b || more == [])
    ensures var q := f + more;
            q != [] && FrameLen(q, |q|, b) == |f| && q[..|f|] == f && q[|f|..] == more
  {
    hide FrameLen;
    var q := f + more;
    assert q[..|f| - 1] == f[..|f| - 1];
    if f[|f| - 1] == b {
      FrameEndsAt(q, |q|, b, |f| - 1);
    } else {
      assert q == f && q[..|q|] == f[..|f| - 1] + [f[|f| - 1]];
      FrameFills(q, |q|, b, |q|);
    }
  }

  lemma FramingTail(frames: seq<seq<Byte>>, b: Byte)
    requires IsFraming(frames, b) && frames != []
    ensures FrameShaped(frames[0], b) && IsFraming(frames[1..], b)
    ensures frames[0][|frames[0]| - 1] == b || frames[1..] == []
  {
    hide FrameShaped;
    assert forall i :: 0 <= i < |frames[1..]| ==> frames[1..][i] == frames[i + 1];
    assert FrameShaped(frames[0], b);
    FrameNotEmpty(frames[0], b);
  }

  lemma FrameNotEmpty(f: seq<Byte>, b: Byte)
    requires FrameShaped(f, b)
    ensures f != []
  {
  }

  /** ... the only one there is. */
  lemma {:induction false} FramingUnique(frames: seq<seq<Byte>>, b: Byte)
    requires IsFraming(frames, b)
    ensures frames == Frames(Concat(frames), b)
  {
    hide FrameLen, IsFraming, FrameShaped;
    if frames == [] {
      NoFrames(b);
    } else {
      var f, rest := frames[0], frames[1..];
      FramingTail(frames, b);
      FramingUnique(rest, b);
      FrameFirst(f, Concat(rest), b);
      FramesOf(Concat(frames), |Concat(frames)|, b);
    }
  }
}
