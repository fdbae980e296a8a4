/**
 * The counter list `state.counters` and the operations of app.js that change
 * it. Each method does what its JavaScript function does to the list, without
 * the save() / render() calls around it, and its postcondition ties the new
 * list to a function of the old one; the properties of those functions are
 * the lemmas of this module and of the modules it imports.
 */
module Store {
  import opened Wrappers
  import opened Seqs
  import opened Counters
  import opened Reorder

  /** `name = '新的计数器'`: the default applies only when no name is passed. */
  function NameOrDefault(name: Option<string>): (r: string)
    ensures name.None? ==> r == DefaultName
    ensures name.Some? ==> r == name.value
  {
    match name
    case None => DefaultName
    case Some(n) => n
  }

  /** `counters.filter(c => c.id !== id)`: every counter with the id goes, the rest stay in order. */
  function WithoutId(s: seq<Counter>, id: string): (r: seq<Counter>)
    ensures |r| <= |s|
  {
    if s == [] then []
    else (if s[0].id == id then [] else [s[0]]) + WithoutId(s[1..], id)
  }

  /** After the removal filter, the list holds exactly the old counters whose id differs. */
  lemma {:induction false} WithoutIdMembers(s: seq<Counter>, id: string)
    ensures forall c :: c in WithoutId(s, id) <==> c in s && c.id != id
  {
    if s != [] {
      WithoutIdMembers(s[1..], id);
      assert s == [s[0]] + s[1..];
    }
  }

  /** renameCounter's change: an empty name keeps the old one; updatedAt is bumped either way. */
  function Renamed(c: Counter, name: string, now: string): (r: Counter)
    ensures r.name == (if name == "" then c.name else name)
    ensures r.(name := c.name, updatedAt := c.updatedAt) == c
    ensures r.updatedAt == now
  {
    c.(name := if name != "" then name else c.name, updatedAt := now)
  }

  /** resetCounter's change: count 0, history emptied, updatedAt bumped; the rest is kept. */
  function Reset(c: Counter, now: string): (r: Counter)
    ensures Consistent(r)
    ensures r.count == 0 && r.history == [] && r.updatedAt == now
    ensures r.id == c.id && r.name == c.name && r.createdAt == c.createdAt
  {
    c.(count := 0, history := [], updatedAt := now)
  }

  /** The list after inc(id, delta, note) at time now: only the first counter with the id changes. */
  function IncIn(s: seq<Counter>, id: string, delta: int, note: Option<string>, now: string): (r: seq<Counter>)
    ensures |r| == |s| && forall j :: 0 <= j < |s| ==> r[j].id == s[j].id
    ensures forall j :: 0 <= j < |s| && j != IndexOf(s, id) ==> r[j] == s[j]
    ensures IndexOf(s, id) >= 0 ==> r[IndexOf(s, id)] == Bump(s[IndexOf(s, id)], delta, note, now)
  {
    var i := IndexOf(s, id);
    if i < 0 then s else s[i := Bump(s[i], delta, note, now)]
  }

  /** The list after renameCounter(id, name) at time now. */
  function RenameIn(s: seq<Counter>, id: string, name: string, now: string): (r: seq<Counter>)
    ensures |r| == |s| && forall j :: 0 <= j < |s| ==> r[j].id == s[j].id
    ensures forall j :: 0 <= j < |s| && j != IndexOf(s, id) ==> r[j] == s[j]
    ensures IndexOf(s, id) >= 0 ==> r[IndexOf(s, id)] == Renamed(s[IndexOf(s, id)], name, now)
  {
    var i := IndexOf(s, id);
    if i < 0 then s else s[i := Renamed(s[i], name, now)]
  }

  /** The list after resetCounter(id) at time now. */
  function ResetIn(s: seq<Counter>, id: string, now: string): (r: seq<Counter>)
    ensures |r| == |s| && forall j :: 0 <= j < |s| ==> r[j].id == s[j].id
    ensures forall j :: 0 <= j < |s| && j != IndexOf(s, id) ==> r[j] == s[j]
    ensures IndexOf(s, id) >= 0 ==> r[IndexOf(s, id)] == Reset(s[IndexOf(s, id)], now)
  {
    var i := IndexOf(s, id);
    if i < 0 then s else s[i := Reset(s[i], now)]
  }

  /** Every counter of the list keeps count and history coupled. */
  predicate AllConsistent(s: seq<Counter>) {
    forall j :: 0 <= j < |s| ==> Consistent(s[j])
  }

  /** A counter whose id is not in the list. */
  predicate Fresh(s: seq<Counter>, id: string) {
    forall j :: 0 <= j < |s| ==> s[j].id != id
  }

  /** Filtering out an id that no counter has changes nothing. */
  lemma {:induction false} WithoutAbsentId(s: seq<Counter>, id: string)
    requires Fresh(s, id)
    ensures WithoutId(s, id) == s
  {
    if s != [] {
      WithoutAbsentId(s[1..], id);
    }
  }

  /** Filtering distributes over concatenation, so the kept counters stay in their relative order. */
  lemma {:induction false} WithoutIdAppend(a: seq<Counter>, b: seq<Counter>, id: string)
    ensures WithoutId(a + b, id) == WithoutId(a, id) + WithoutId(b, id)
  {
    if a == [] {
      assert a + b == b;
    } else {
      var head := if a[0].id == id then [] else [a[0]];
      calc {
        WithoutId(a + b, id);
        { assert (a + b)[0] == a[0] && (a + b)[1..] == a[1..] + b; }
        head + WithoutId(a[1..] + b, id);
        { WithoutIdAppend(a[1..], b, id); }
        head + (WithoutId(a[1..], id) + WithoutId(b, id));
        (head + WithoutId(a[1..], id)) + WithoutId(b, id);
      }
    }
  }

  /** Every counter with another id is kept as often as it occurred. */
  lemma {:induction false} WithoutIdKeepsOthers(s: seq<Counter>, id: string, c: Counter)
    requires c.id != id
    ensures multiset(WithoutId(s, id))[c] == multiset(s)[c]
  {
    if s != [] {
      var rest := WithoutId(s[1..], id);
      WithoutIdKeepsOthers(s[1..], id, c);
      assert multiset(s) == multiset{s[0]} + multiset(s[1..]) by {
        assert s == [s[0]] + s[1..];
      }
      if s[0].id == id {
        assert WithoutId(s, id) == rest;
        assert s[0] != c;
      } else {
        assert WithoutId(s, id) == [s[0]] + rest;
        assert multiset(WithoutId(s, id)) == multiset{s[0]} + multiset(rest);
      }
    }
  }

  /**
   * removeCounter's filter may run twice for one removal (on transitionend and
   * on the timeout, app.js:342-343); the second run changes nothing.
   */
  lemma WithoutIdIdempotent(s: seq<Counter>, id: string)
    ensures WithoutId(WithoutId(s, id), id) == WithoutId(s, id)
  {
    var r := WithoutId(s, id);
    WithoutIdMembers(s, id);
    forall j | 0 <= j < |r| ensures r[j].id != id {
      assert r[j] in r;
    }
    WithoutAbsentId(r, id);
  }

  /** Removing a counter just added with a fresh id gives back the list as it was. */
  lemma RemoveUndoesAdd(s: seq<Counter>, id: string, name: string, now: string)
    requires Fresh(s, id)
    ensures WithoutId([NewCounter(id, name, now)] + s, id) == s
  {
    WithoutIdAppend([NewCounter(id, name, now)], s, id);
    WithoutAbsentId(s, id);
  }

  /** inc with the UI's deltas (+1, -1) keeps every counter of the list consistent. */
  lemma IncKeepsAllConsistent(s: seq<Counter>, id: string, delta: int, note: Option<string>, now: string)
    requires AllConsistent(s) && delta <= 1
    ensures AllConsistent(IncIn(s, id, delta, note, now))
  {
    var i := IndexOf(s, id);
    if i >= 0 {
      BumpKeepsConsistent(s[i], delta, note, now);
    }
  }

  /** The list `state.counters` of the app, changed in place by the operations below. */
  class CounterStore {
    var counters: seq<Counter>

    /** The invariant the UI's operations keep: each count matches its positive entries. */
    ghost predicate Valid()
      reads this
    {
      AllConsistent(counters)
    }

    /** The initial state: no counters. */
    constructor ()
      ensures counters == [] && Valid()
    {
      counters := [];
    }

    /** addCounter(name): a new counter with the given id goes in front of the list. */
    method AddCounter(id: string, name: Option<string>, now: string)
      modifies this
      ensures counters == [NewCounter(id, NameOrDefault(name), now)] + old(counters)
      ensures old(Valid()) ==> Valid()
    {
      var c := Counter(id, NameOrDefault(name), 0, [], now, now);
      counters := [c] + counters;
    }

    /**
     * removeCounter(id). When the counter's card is on screen, the list is left
     * as it is: the card starts its leave animation and the filter runs later,
     * in FinishRemoval. Otherwise the filter runs at once.
     */
    method RemoveCounter(id: string, cardShown: bool)
      modifies this
      ensures counters == if cardShown then old(counters) else WithoutId(old(counters), id)
      ensures old(Valid()) ==> Valid()
    {
      if cardShown {
        return;
      }
      FinishRemoval(id);
    }

    /**
     * The `finish` callback of removeCounter, run on transitionend and on the
     * 280 ms timeout: it filters the list as it is at that moment.
     */
    method FinishRemoval(id: string)
      modifies this
      ensures counters == WithoutId(old(counters), id)
      ensures old(Valid()) ==> Valid()
    {
      WithoutIdMembers(counters, id);
      counters := WithoutId(counters, id);
      if old(Valid()) {
        forall j | 0 <= j < |counters| ensures Consistent(counters[j]) {
          assert counters[j] in old(counters);
        }
      }
    }

    /** renameCounter(id, name): the first counter with the id gets the name, unless it is empty. */
    method RenameCounter(id: string, name: string, now: string)
      modifies this
      ensures counters == RenameIn(old(counters), id, name, now)
      ensures old(Valid()) ==> Valid()
    {
      var i := IndexOf(counters, id);
      if i < 0 {
        return;
      }
      var c := counters[i];
      c := c.(name := if name != "" then name else c.name);
      c := c.(updatedAt := now);
      counters := counters[i := c];
    }

    /**
     * inc(id, delta, note): undo for a negative delta, otherwise add delta and
     * record it. With the UI's deltas (+1 and -1) the invariant is kept.
     */
    method Inc(id: string, delta: int, note: Option<string>, now: string)
      modifies this
      ensures counters == IncIn(old(counters), id, delta, note, now)
      ensures old(Valid()) && delta <= 1 ==> Valid()
    {
      var i := IndexOf(counters, id);
      if i < 0 {
        return;
      }
      var c := counters[i];
      ghost var was := c;
      if delta < 0 {
        if c.count <= 0 {
          assert Bump(was, delta, note, now) == was;
          return;
        }
        var k := FirstPositive(c.history);
        if k != -1 {
          c := c.(history := c.history[..k] + c.history[k + 1..]);
          assert c.history == RemoveAt(was.history, k);
        }
        c := c.(count := Max(0, c.count - 1));
      } else {
        c := c.(count := Max(0, c.count + delta));
        c := AddHistory(c, delta, note, now);
      }
      c := c.(updatedAt := now);
      assert c == Bump(was, delta, note, now);
      counters := counters[i := c];
      if old(Valid()) && delta <= 1 {
        IncKeepsAllConsistent(old(counters), id, delta, note, now);
      }
    }

    /** resetCounter(id): the first counter with the id goes back to zero with no history. */
    method ResetCounter(id: string, now: string)
      modifies this
      ensures counters == ResetIn(old(counters), id, now)
      ensures old(Valid()) ==> Valid()
    {
      var i := IndexOf(counters, id);
      if i < 0 {
        return;
      }
      var c := counters[i];
      c := c.(count := 0);
      c := c.(history := []);
      c := c.(updatedAt := now);
      counters := counters[i := c];
    }

    /**
     * reorderCounters(src, dst): splice the counter at src out of a copy of the
     * list and back in at dst, then make the copy the list.
     */
    method ReorderCounters(src: nat, dst: nat)
      requires src < |counters| && dst < |counters|
      modifies this
      ensures counters == Moved(old(counters), src, dst)
      ensures multiset(counters) == multiset(old(counters))
      ensures old(Valid()) ==> Valid()
    {
      var arr := counters;
      var moved := arr[src];
      arr := arr[..src] + arr[src + 1..];
      arr := arr[..dst] + [moved] + arr[dst..];
      MovedIsPermutation(counters, src, dst);
      if old(Valid()) {
        forall j | 0 <= j < |arr| ensures Consistent(arr[j]) {
          assert arr[j] in multiset(counters);
        }
      }
      counters := arr;
    }

    /** moveCounterById(id, delta): one step up or down, clamped to the list. */
    method MoveCounterById(id: string, delta: int)
      modifies this
      ensures counters == Apply(old(counters), StepMove(old(counters), id, delta))
      ensures multiset(counters) == multiset(old(counters))
      ensures old(Valid()) ==> Valid()
    {
      var idx := IndexOf(counters, id);
      if idx < 0 {
        return;
      }
      var dst := idx + (if delta < 0 then -1 else 1);
      dst := Max(0, Min(|counters| - 1, dst));
      if dst == idx {
        return;
      }
      ReorderCounters(idx, dst);
    }

    /** moveCounterToEdge(id, edge): to the top for 'top', to the bottom otherwise. */
    method MoveCounterToEdge(id: string, edge: string)
      modifies this
      ensures counters == Apply(old(counters), EdgeMove(old(counters), id, edge))
      ensures multiset(counters) == multiset(old(counters))
      ensures old(Valid()) ==> Valid()
    {
      ghost var m := EdgeMove(counters, id, edge);
      var idx := IndexOf(counters, id);
      if idx < 0 {
        assert m == None;
        return;
      }
      var dst := if edge == "top" then 0 else |counters| - 1;
      if dst == idx {
        assert m == None;
        return;
      }
      assert m == Some(Move(idx, dst));
      ReorderCounters(idx, dst);
    }

    /** The drop handler of a card: the dragged counter goes in front of or behind the card dropped on. */
    method DropOnCard(dragId: Option<string>, overId: string, isTop: bool)
      modifies this
      ensures counters == Apply(old(counters), CardDropMove(old(counters), dragId, overId, isTop))
      ensures multiset(counters) == multiset(old(counters))
      ensures old(Valid()) ==> Valid()
    {
      ghost var m := CardDropMove(counters, dragId, overId, isTop);
      if NoDrag(dragId) || dragId.value == overId {
        assert m == None;
        return;
      }
      var srcIdx := IndexOf(counters, dragId.value);
      var dstIdxBase := IndexOf(counters, overId);
      var dstIdx := if isTop then dstIdxBase else dstIdxBase + 1;
      if dstIdx > srcIdx {
        dstIdx := dstIdx - 1;
      }
      assert dstIdx == DropIndex(srcIdx, dstIdxBase, isTop);
      if srcIdx < 0 || dstIdx < 0 || srcIdx == dstIdx {
        assert m == None;
        return;
      }
      assert m == Some(Move(srcIdx, dstIdx));
      ReorderCounters(srcIdx, dstIdx);
    }

    /** The drop handler of the list's empty area: the dragged counter goes to the end. */
    method DropAtEnd(dragId: Option<string>, onCard: bool)
      modifies this
      ensures counters == Apply(old(counters), EndDropMove(old(counters), dragId, onCard))
      ensures multiset(counters) == multiset(old(counters))
      ensures old(Valid()) ==> Valid()
    {
      ghost var m := EndDropMove(counters, dragId, onCard);
      if NoDrag(dragId) || onCard {
        assert m == None;
        return;
      }
      var srcIdx := IndexOf(counters, dragId.value);
      var dstIdx := |counters| - 1;
      if srcIdx < 0 || srcIdx == dstIdx {
        assert m == None;
        return;
      }
      assert m == Some(Move(srcIdx, dstIdx));
      ReorderCounters(srcIdx, dstIdx);
    }
  }
}
