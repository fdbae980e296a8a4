/**
 * The two uses of `Array.prototype.splice` that reorderCounters makes
 * (app.js:678-682), and the move they compose to.
 */
module Seqs {

  /** `arr.splice(i, 1)`: the sequence without its element at index i. */
  function RemoveAt<T>(s: seq<T>, i: nat): (r: seq<T>)
    requires i < |s|
    ensures |r| == |s| - 1
    ensures forall k :: 0 <= k < i ==> r[k] == s[k]
    ensures forall k :: i <= k < |r| ==> r[k] == s[k + 1]
  {
    s[..i] + s[i + 1..]
  }

  /** `arr.splice(i, 0, x)`: x inserted in front of index i (at the end when i == |s|). */
  function InsertAt<T>(s: seq<T>, i: nat, x: T): (r: seq<T>)
    requires i <= |s|
    ensures |r| == |s| + 1 && r[i] == x
    ensures forall k :: 0 <= k < i ==> r[k] == s[k]
    ensures forall k :: i < k < |r| ==> r[k] == s[k - 1]
  {
    s[..i] + [x] + s[i..]
  }

  /** Removing what was just inserted gives back the original sequence. */
  lemma RemoveInsert<T>(s: seq<T>, i: nat, x: T)
    requires i <= |s|
    ensures RemoveAt(InsertAt(s, i, x), i) == s
  {
    var r := RemoveAt(InsertAt(s, i, x), i);
    assert forall k :: 0 <= k < |s| ==> r[k] == s[k];
  }

  /** Putting a removed element back where it was gives back the original sequence. */
  lemma InsertRemove<T>(s: seq<T>, i: nat)
    requires i < |s|
    ensures InsertAt(RemoveAt(s, i), i, s[i]) == s
  {
    var r := InsertAt(RemoveAt(s, i), i, s[i]);
    assert forall k :: 0 <= k < |s| ==> r[k] == s[k];
  }

  /** Removing one element takes exactly that element out of the multiset. */
  lemma RemoveAtMultiset<T>(s: seq<T>, i: nat)
    requires i < |s|
    ensures multiset(RemoveAt(s, i)) + multiset{s[i]} == multiset(s)
  {
    assert s == s[..i] + [s[i]] + s[i + 1..];
  }

  /** Inserting one element adds exactly that element to the multiset. */
  lemma InsertAtMultiset<T>(s: seq<T>, i: nat, x: T)
    requires i <= |s|
    ensures multiset(InsertAt(s, i, x)) == multiset(s) + multiset{x}
  {
    assert s == s[..i] + s[i..];
  }

  /**
   * reorderCounters(src, dst): take the element at src out, then insert it at
   * dst of the shortened sequence, so that it ends up at index dst.
   */
  function Moved<T>(s: seq<T>, src: nat, dst: nat): (r: seq<T>)
    requires src < |s| && dst < |s|
    ensures |r| == |s| && r[dst] == s[src]
  {
    InsertAt(RemoveAt(s, src), dst, s[src])
  }

  /**
   * A move is a permutation: the length is kept, the moved element is at dst,
   * and taking it out again leaves the other elements in their old order.
   */
  lemma MovedIsPermutation<T>(s: seq<T>, src: nat, dst: nat)
    requires src < |s| && dst < |s|
    ensures |Moved(s, src, dst)| == |s|
    ensures Moved(s, src, dst)[dst] == s[src]
    ensures RemoveAt(Moved(s, src, dst), dst) == RemoveAt(s, src)
    ensures multiset(Moved(s, src, dst)) == multiset(s)
  {
    RemoveInsert(RemoveAt(s, src), dst, s[src]);
    RemoveAtMultiset(s, src);
    InsertAtMultiset(RemoveAt(s, src), dst, s[src]);
  }

  /**
   * Where each element ends up: the moved one at dst, the ones between src and
   * dst shift by one towards src, everything outside that range stays put.
   */
  lemma MovedAt<T>(s: seq<T>, src: nat, dst: nat, k: nat)
    requires src < |s| && dst < |s| && k < |s|
    ensures Moved(s, src, dst)[k] ==
      if k == dst then s[src]
      else if src <= k < dst then s[k + 1]
      else if dst < k <= src then s[k - 1]
      else s[k]
  {
  }

  /** A move onto its own index changes nothing. */
  lemma MovedInPlace<T>(s: seq<T>, i: nat)
    requires i < |s|
    ensures Moved(s, i, i) == s
  {
    InsertRemove(s, i);
  }

  /** Moving by one position exchanges the element with its neighbour. */
  lemma MovedAdjacentSwaps<T>(s: seq<T>, src: nat, dst: nat)
    requires src < |s| && dst < |s|
    requires src == dst + 1 || dst == src + 1
    ensures Moved(s, src, dst) == s[src := s[dst]][dst := s[src]]
  {
    var r := Moved(s, src, dst);
    forall k | 0 <= k < |s|
      ensures r[k] == s[src := s[dst]][dst := s[src]][k]
    {
      MovedAt(s, src, dst, k);
    }
  }

  /** Moving to index 0 puts the element in front of all the others, in their old order. */
  lemma MovedToFront<T>(s: seq<T>, src: nat)
    requires src < |s|
    ensures Moved(s, src, 0) == [s[src]] + RemoveAt(s, src)
  {
    assert Moved(s, src, 0) == [s[src]] + RemoveAt(s, src)[0..];
  }

  /** Moving to the last index puts the element behind all the others, in their old order. */
  lemma MovedToBack<T>(s: seq<T>, src: nat)
    requires src < |s|
    ensures Moved(s, src, |s| - 1) == RemoveAt(s, src) + [s[src]]
  {
    var rest := RemoveAt(s, src);
    assert rest[..|s| - 1] == rest && rest[|s| - 1..] == [];
  }
}
