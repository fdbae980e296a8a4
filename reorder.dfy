/**
 * Which move reorderCounters is asked to make: by the touch menu's
 * up / down / top / bottom items (app.js:240-257) and by dropping a dragged
 * card on another card or on the empty area of the list (app.js:613-642).
 * Each computation yields None where the source returns early.
 */
module Reorder {
  import opened Wrappers
  import opened Seqs
  import opened Counters

  /** reorderCounters(src, dst): the counter at src is taken out and put at dst. */
  datatype Move = Move(src: nat, dst: nat)

  /** A move that reorderCounters can make on s and that changes something. */
  predicate ValidMove(s: seq<Counter>, m: Move) {
    m.src < |s| && m.dst < |s| && m.src != m.dst
  }

  /** The list after the move, if any, has been made. */
  function Apply(s: seq<Counter>, m: Option<Move>): seq<Counter>
    requires m.Some? ==> ValidMove(s, m.value)
  {
    match m
    case None => s
    case Some(mv) => Moved(s, mv.src, mv.dst)
  }

  /** `Math.max(lo, Math.min(hi, x))` */
  function Clamp(x: int, lo: int, hi: int): (r: int)
    ensures lo <= hi ==> lo <= r <= hi
    ensures lo <= x <= hi ==> r == x
  {
    Max(lo, Min(hi, x))
  }

  /**
   * moveCounterById(id, delta): one step towards the top for a negative delta,
   * one step towards the bottom otherwise, clamped to the list; nothing when
   * the id is missing or the counter is already at that end.
   */
  function StepMove(s: seq<Counter>, id: string, delta: int): (m: Option<Move>)
    ensures m.Some? ==>
      && ValidMove(s, m.value)
      && m.value.src == IndexOf(s, id)
      && m.value.dst == (if delta < 0 then m.value.src - 1 else m.value.src + 1)
    ensures m.None? <==>
      || IndexOf(s, id) < 0
      || (delta < 0 && IndexOf(s, id) == 0)
      || (delta >= 0 && IndexOf(s, id) == |s| - 1)
  {
    var idx := IndexOf(s, id);
    if idx < 0 then None
    else
      var dst := Clamp(idx + (if delta < 0 then -1 else 1), 0, |s| - 1);
      if dst == idx then None else Some(Move(idx, dst))
  }

  /**
   * moveCounterToEdge(id, edge): to index 0 for 'top', to the last index for
   * any other edge; nothing when the id is missing or the counter is already there.
   */
  function EdgeMove(s: seq<Counter>, id: string, edge: string): (m: Option<Move>)
    ensures m.Some? ==>
      && ValidMove(s, m.value)
      && m.value.src == IndexOf(s, id)
      && m.value.dst == (if edge == "top" then 0 else |s| - 1)
    ensures m.None? <==>
      IndexOf(s, id) < 0 || IndexOf(s, id) == (if edge == "top" then 0 else |s| - 1)
  {
    var idx := IndexOf(s, id);
    if idx < 0 then None
    else
      var dst := if edge == "top" then 0 else |s| - 1;
      if dst == idx then None else Some(Move(idx, dst))
  }

  /** `!dragId`: no drag in progress (null, or an empty id). */
  predicate NoDrag(dragId: Option<string>) {
    dragId.None? || dragId.value == ""
  }

  /**
   * The drop handler of a card: a drop on the card's top half aims in front of
   * it, on the bottom half behind it, and the target index is adjusted for the
   * removal of the dragged card when it lies further down.
   */
  function CardDropMove(s: seq<Counter>, dragId: Option<string>, overId: string, isTop: bool): (m: Option<Move>)
    ensures m.Some? ==>
      && !NoDrag(dragId)
      && ValidMove(s, m.value)
      && m.value.src == IndexOf(s, dragId.value)
  {
    if NoDrag(dragId) || dragId.value == overId then None
    else
      var src := IndexOf(s, dragId.value);
      var dst := DropIndex(src, IndexOf(s, overId), isTop);
      if src < 0 || dst < 0 || src == dst then None else Some(Move(src, dst))
  }

  /**
   * The index a drop on the card at base aims for: base itself for the top
   * half, base + 1 for the bottom half, one less when that lies beyond src
   * (src is taken out before the counter is inserted again).
   */
  function DropIndex(src: int, base: int, isTop: bool): (r: int)
    ensures src != base ==>
      r == (if base > src then base - 1 else base) + (if isTop then 0 else 1)
    ensures src >= 0 && base >= 0 ==> r >= 0
  {
    var aim := if isTop then base else base + 1;
    if aim > src then aim - 1 else aim
  }

  /** The drop handler of the list's empty area: the dragged card goes to the end. */
  function EndDropMove(s: seq<Counter>, dragId: Option<string>, onCard: bool): (m: Option<Move>)
    ensures m.Some? ==>
      && !NoDrag(dragId) && !onCard
      && ValidMove(s, m.value)
      && m.value.src == IndexOf(s, dragId.value)
      && m.value.dst == |s| - 1
  {
    if NoDrag(dragId) || onCard then None
    else
      var src := IndexOf(s, dragId.value);
      var dst := |s| - 1;
      if src < 0 || src == dst then None else Some(Move(src, dst))
  }

  /** Every move the UI makes is a permutation of the list. */
  lemma ApplyIsPermutation(s: seq<Counter>, m: Option<Move>)
    requires m.Some? ==> ValidMove(s, m.value)
    ensures |Apply(s, m)| == |s| && multiset(Apply(s, m)) == multiset(s)
  {
    if m.Some? {
      MovedIsPermutation(s, m.value.src, m.value.dst);
    }
  }

  /** An up / down step exchanges the counter with its neighbour; nothing else moves. */
  lemma StepMoveSwapsNeighbours(s: seq<Counter>, id: string, delta: int)
    requires StepMove(s, id, delta).Some?
    ensures var m := StepMove(s, id, delta).value;
      Apply(s, Some(m)) == s[m.src := s[m.dst]][m.dst := s[m.src]]
  {
    var m := StepMove(s, id, delta).value;
    MovedAdjacentSwaps(s, m.src, m.dst);
  }

  /** 'top' puts the counter first and keeps the others in order, also when nothing moves. */
  lemma EdgeMoveTop(s: seq<Counter>, id: string)
    requires IndexOf(s, id) >= 0
    ensures var i := IndexOf(s, id);
      Apply(s, EdgeMove(s, id, "top")) == [s[i]] + RemoveAt(s, i)
  {
    var i := IndexOf(s, id);
    MovedToFront(s, i);
    if i == 0 {
      assert EdgeMove(s, id, "top") == None;
      MovedInPlace(s, 0);
    } else {
      assert EdgeMove(s, id, "top") == Some(Move(i, 0));
    }
  }

  /** Any other edge puts the counter last and keeps the others in order, also when nothing moves. */
  lemma EdgeMoveBottom(s: seq<Counter>, id: string, edge: string)
    requires IndexOf(s, id) >= 0 && edge != "top"
    ensures var i := IndexOf(s, id);
      Apply(s, EdgeMove(s, id, edge)) == RemoveAt(s, i) + [s[i]]
  {
    var i := IndexOf(s, id);
    MovedToBack(s, i);
    if i == |s| - 1 {
      assert EdgeMove(s, id, edge) == None;
      MovedInPlace(s, i);
    } else {
      assert EdgeMove(s, id, edge) == Some(Move(i, |s| - 1));
    }
  }

  /** The move a drop asks for, given the dragged index and the target index. */
  function DropMove(src: nat, dst: nat): Option<Move> {
    if dst == src then None else Some(Move(src, dst))
  }

  /** Moving src to the adjusted top-half target of base leaves it directly in front of base. */
  lemma MovedInFrontOf(s: seq<Counter>, src: nat, base: nat)
    requires src < |s| && base < |s| && src != base
    ensures var p := if src < base then base - 1 else base;
      var m := DropMove(src, p);
      && (m.Some? ==> ValidMove(s, m.value))
      && p + 1 < |s| && |Apply(s, m)| == |s|
      && Apply(s, m)[p] == s[src] && Apply(s, m)[p + 1] == s[base]
  {
    var p := if src < base then base - 1 else base;
    if p != src {
      assert Apply(s, DropMove(src, p)) == Moved(s, src, p);
      MovedAt(s, src, p, p);
      MovedAt(s, src, p, p + 1);
    } else {
      assert Apply(s, DropMove(src, p)) == s;
    }
  }

  /** Moving src to the adjusted bottom-half target of base leaves it directly behind base. */
  lemma MovedBehind(s: seq<Counter>, src: nat, base: nat)
    requires src < |s| && base < |s| && src != base
    ensures var p := if src < base then base else base + 1;
      var m := DropMove(src, p);
      && (m.Some? ==> ValidMove(s, m.value))
      && 0 < p < |s| && |Apply(s, m)| == |s|
      && Apply(s, m)[p] == s[src] && Apply(s, m)[p - 1] == s[base]
  {
    var p := if src < base then base else base + 1;
    if p != src {
      assert Apply(s, DropMove(src, p)) == Moved(s, src, p);
      MovedAt(s, src, p, p);
      MovedAt(s, src, p, p - 1);
    } else {
      assert Apply(s, DropMove(src, p)) == s;
    }
  }

  /**
   * When both the dragged and the target counter are in the list, a card drop
   * asks for the move to DropIndex, unless that is where the dragged counter is.
   */
  lemma DropOnCardFound(s: seq<Counter>, d: string, overId: string, isTop: bool)
    requires d != "" && d != overId
    requires IndexOf(s, d) >= 0 && IndexOf(s, overId) >= 0
    ensures var src := IndexOf(s, d);
      var dst := DropIndex(src, IndexOf(s, overId), isTop);
      CardDropMove(s, Some(d), overId, isTop) == DropMove(src, dst)
  {
    assert !NoDrag(Some(d)) && Some(d).value != overId;
  }

  /** Dropping a card on another card's top half leaves it directly in front of that card. */
  lemma DropOnTopHalf(s: seq<Counter>, d: string, overId: string)
    requires d != "" && d != overId
    requires IndexOf(s, d) >= 0 && IndexOf(s, overId) >= 0
    ensures var src := IndexOf(s, d);
      var base := IndexOf(s, overId);
      var r := Apply(s, CardDropMove(s, Some(d), overId, true));
      var p := if src < base then base - 1 else base;
      && |r| == |s| && 0 <= p && p + 1 < |s|
      && r[p] == s[src] && r[p + 1] == s[base]
  {
    var src := IndexOf(s, d);
    var base := IndexOf(s, overId);
    assert src != base by { assert s[src].id != s[base].id; }
    var p := if src < base then base - 1 else base;
    assert DropIndex(src, base, true) == p;
    DropOnCardFound(s, d, overId, true);
    assert CardDropMove(s, Some(d), overId, true) == DropMove(src, p);
    MovedInFrontOf(s, src, base);
  }

  /** Dropping a card on another card's bottom half leaves it directly behind that card. */
  lemma DropOnBottomHalf(s: seq<Counter>, d: string, overId: string)
    requires d != "" && d != overId
    requires IndexOf(s, d) >= 0 && IndexOf(s, overId) >= 0
    ensures var src := IndexOf(s, d);
      var base := IndexOf(s, overId);
      var r := Apply(s, CardDropMove(s, Some(d), overId, false));
      var p := if src < base then base else base + 1;
      && |r| == |s| && 0 < p < |s|
      && r[p] == s[src] && r[p - 1] == s[base]
  {
    var src := IndexOf(s, d);
    var base := IndexOf(s, overId);
    assert src != base by { assert s[src].id != s[base].id; }
    var p := if src < base then base else base + 1;
    assert DropIndex(src, base, false) == p;
    DropOnCardFound(s, d, overId, false);
    assert CardDropMove(s, Some(d), overId, false) == DropMove(src, p);
    MovedBehind(s, src, base);
  }

  /** A drop on the empty area puts the card last and keeps the others in order. */
  lemma DropAtEndResult(s: seq<Counter>, d: string)
    requires d != "" && IndexOf(s, d) >= 0
    ensures var i := IndexOf(s, d);
      Apply(s, EndDropMove(s, Some(d), false)) == RemoveAt(s, i) + [s[i]]
  {
    var i := IndexOf(s, d);
    MovedToBack(s, i);
    if i == |s| - 1 {
      assert EndDropMove(s, Some(d), false) == None;
      MovedInPlace(s, i);
    } else {
      assert EndDropMove(s, Some(d), false) == Some(Move(i, |s| - 1));
    }
  }
}
