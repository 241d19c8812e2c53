/** Counters used as positions in a circular array: position p lives in slot p modulo the size. */
module Slots {
  import opened Machine
  import opened Fifo

  /** The `n` bytes at positions from, from + 1, ... */
  function Window(d: seq<Byte>, from: nat, n: nat): (w: seq<Byte>)
    requires |d| > 0
    ensures |w| == n
    ensures forall i :: 0 <= i < n ==> w[i] == d[(from + i) % |d|]
  {
    seq(n, i requires 0 <= i < n => d[(from + i) % |d|])
  }

  /** The array after writing `items` at positions w, w + 1, ... */
  function Store(d: seq<Byte>, w: nat, items: seq<Byte>): (r: seq<Byte>)
    requires |d| > 0
    ensures |r| == |d|
  {
    if items == [] then d
    else
      var k := |items| - 1;
      Store(d, w, items[..k])[(w + k) % |d| := items[k]]
  }

  lemma StoreNothing(d: seq<Byte>, w: nat)
    requires |d| > 0
    ensures Store(d, w, []) == d
  {
  }

  lemma {:induction false} StoreShift(d: seq<Byte>, w: nat, w': nat, items: seq<Byte>)
    requires |d| > 0 && w % |d| == w' % |d|
    ensures Store(d, w, items) == Store(d, w', items)
  {
    if items != [] {
      StoreShift(d, w, w', items[..|items| - 1]);
      ModCongruentAdd(w, w', |items| - 1, |d|);
    }
  }

  /** What a store of at most a full turn leaves in each slot. */
  lemma {:induction false} StoreAt(d: seq<Byte>, w: nat, items: seq<Byte>, i: nat)
    requires i < |d| && |items| <= |d|
    ensures Store(d, w, items)[(w + i) % |d|] == if i < |items| then items[i] else d[(w + i) % |d|]
  {
    if items != [] {
      var k := |items| - 1;
      StoreAt(d, w, items[..k], i);
      if (w + k) % |d| == (w + i) % |d| {
        ModInjective(w, k, i, |d|);
      }
    }
  }

  /** Only the slot of a counter matters. */
  lemma WindowShift(d: seq<Byte>, p: nat, p': nat, n: nat)
    requires |d| > 0 && p % |d| == p' % |d|
    ensures Window(d, p, n) == Window(d, p', n)
  {
    forall i | 0 <= i < n
      ensures Window(d, p, n)[i] == Window(d, p', n)[i]
    {
      ModCongruentAdd(p, p', i, |d|);
    }
  }

  lemma WindowSplit(d: seq<Byte>, p: nat, m: nat, n: nat)
    requires |d| > 0
    ensures Window(d, p, m + n) == Window(d, p, m) + Window(d, p + m, n)
  {
    var w, back := Window(d, p, m + n), Window(d, p + m, n);
    forall i | m <= i < m + n
      ensures w[i] == back[i - m]
    {
      assert p + i == p + m + (i - m);
    }
    assert w == Window(d, p, m) + back;
  }

  /** The bytes just stored are found where they were put. */
  lemma WindowOfStore(d: seq<Byte>, w: nat, items: seq<Byte>)
    requires |d| > 0 && |items| <= |d|
    ensures Window(Store(d, w, items), w, |items|) == items
  {
    forall i | 0 <= i < |items|
      ensures Window(Store(d, w, items), w, |items|)[i] == items[i]
    {
      StoreAt(d, w, items, i);
    }
  }

  /** A store leaves alone the `c` positions before it while they are at most a turn away from its end. */
  lemma WindowBeforeStore(d: seq<Byte>, r: nat, c: nat, items: seq<Byte>)
    requires |d| > 0 && c + |items| <= |d|
    ensures Window(Store(d, r + c, items), r, c) == Window(d, r, c)
  {
    forall i | 0 <= i < c
      ensures Window(Store(d, r + c, items), r, c)[i] == Window(d, r, c)[i]
    {
      StoreAt(d, r + c, items, |d| - c + i);
      ModAddMultiple(r + i, |d|, 1);
      assert r + c + (|d| - c + i) == r + i + 1 * |d|;
    }
  }

  lemma WindowAcrossStore(d: seq<Byte>, r: nat, c: nat, items: seq<Byte>)
    requires |d| > 0 && c + |items| <= |d|
    ensures Window(Store(d, r + c, items), r, c + |items|) == Window(d, r, c) + items
  {
    var d' := Store(d, r + c, items);
    WindowSplit(d', r, c, |items|);
    WindowBeforeStore(d, r, c, items);
    WindowOfStore(d, r + c, items);
  }

  lemma WindowAfterDrop(d: seq<Byte>, r: nat, c: nat, items: seq<Byte>, cap: nat, drop: nat)
    requires drop <= c && c - drop + |items| <= |d| && |d| > 0
    requires c - drop + |items| == Min(c + |items|, cap)
    ensures Window(Store(d, r + c, items), r + drop, c - drop + |items|) == LastN(Window(d, r, c) + items, cap)
  {
    hide Window, Store, LastN;
    WindowAcrossStore(d, r + drop, c - drop, items);
    assert r + drop + (c - drop) == r + c;
    WindowSplit(d, r, drop, c - drop);
    assert drop + (c - drop) == c;
    LastNSplit(Window(d, r, drop), Window(d, r + drop, c - drop), items, cap);
  }

  /** Writing `items` after a window of `c` bytes and keeping the last `cap` bytes: the surviving
      window starts as many positions later as bytes are lost. */
  lemma WindowAfterStore(d: seq<Byte>, r: nat, c: nat, items: seq<Byte>, cap: nat)
    requires |d| >= Max(1, cap) && c <= cap && |items| <= Max(1, cap)
    ensures var n := Min(c + |items|, cap);
            Window(Store(d, r + c, items), r + c + |items| - n, n) == LastN(Window(d, r, c) + items, cap)
  {
    hide Window, Store, LastN;
    var n := Min(c + |items|, cap);
    if cap > 0 {
      var drop := c + |items| - n;
      WindowAfterDrop(d, r, c, items, cap, drop);
      assert r + drop == r + c + |items| - n && c - drop + |items| == n;
    }
  }

  /** Appending the next `k` positions to a window and keeping the last `cap` bytes. */
  lemma WindowAdvance(d: seq<Byte>, r: nat, c: nat, k: nat, cap: nat)
    requires |d| > 0
    ensures var n := Min(c + k, cap);
            Window(d, r + (c + k - n), n) == LastN(Window(d, r, c) + Window(d, r + c, k), cap)
  {
    hide Window, LastN;
    var n := Min(c + k, cap);
    WindowSplit(d, r, c, k);
    WindowSplit(d, r, c + k - n, n);
    LastNTail(Window(d, r, c + k - n), Window(d, r + (c + k - n), n), cap);
  }

  lemma LastNTail(a: seq<Byte>, b: seq<Byte>, n: nat)
    requires |b| == Min(|a| + |b|, n)
    ensures LastN(a + b, n) == b
  {
  }

  lemma LastNSplit(a: seq<Byte>, b: seq<Byte>, c: seq<Byte>, n: nat)
    requires |b| + |c| == Min(|a| + |b| + |c|, n)
    ensures LastN(a + b + c, n) == b + c
  {
    hide LastN;
    assert a + b + c == a + (b + c);
    LastNTail(a, b + c, n);
  }
}
