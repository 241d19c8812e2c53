/** Searching and slicing sequences. */
module Seqs {
  import opened Machine

  datatype Option<+T> = None | Some(value: T)

  /** The first position of `b`, or the length when there is none. */
  function IndexOf<T(==)>(q: seq<T>, b: T): (i: nat)
    ensures i <= |q|
    ensures b !in q[..i]
    ensures i < |q| ==> q[i] == b
  {
    if q == [] || q[0] == b then 0
    else
      var i := 1 + IndexOf(q[1..], b);
      assert q[..i] == [q[0]] + q[1..][..i - 1];
      i
  }

  /** Only one position is first. */
  lemma IndexOfUnique<T>(q: seq<T>, b: T, i: nat)
    requires i <= |q| && b !in q[..i] && (i < |q| ==> q[i] == b)
    ensures i == IndexOf(q, b)
  {
  }

  lemma {:induction false} NotBefore<T>(q: seq<T>, b: T, i: nat)
    requires i <= |q| && b !in q[..i]
    ensures IndexOf(q, b) >= i
  {
    if i > 0 {
      assert q[..i][0] == q[0] && q[..i][1..] == q[1..][..i - 1];
      NotBefore(q[1..], b, i - 1);
    }
  }

  /** How many elements a read up to a delimiter takes: through the first `b`, but no more than `max`. */
  function FrameLen<T(==)>(q: seq<T>, max: nat, b: T): (n: nat)
    ensures n <= |q| && n <= max
  {
    Min(IndexOf(q, b) + 1, Min(max, |q|))
  }

  lemma FrameEndsAt<T>(q: seq<T>, max: nat, b: T, i: nat)
    requires i < |q| && i < max && b !in q[..i] && q[i] == b
    ensures FrameLen(q, max, b) == i + 1
  {
    IndexOfUnique(q, b, i);
  }

  lemma FrameFills<T>(q: seq<T>, max: nat, b: T, i: nat)
    requires i == Min(max, |q|) && b !in q[..i]
    ensures FrameLen(q, max, b) == i
  {
    NotBefore(q, b, i);
  }

  lemma DropDrop<T>(s: seq<T>, i: nat, j: nat)
    requires i + j <= |s|
    ensures s[i..][j..] == s[i + j..]
  {
  }

  lemma TakeSplit<T>(s: seq<T>, i: nat, j: nat)
    requires i + j <= |s|
    ensures s[..i + j] == s[..i] + s[i..][..j]
  {
  }
}
