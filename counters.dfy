/**
 * One counter of the store and the changes `inc` makes to it (app.js:361-384).
 * Timestamps are the ISO strings nowISO() would return; the caller passes
 * them in, so nothing here reads a clock.
 */
module Counters {
  import opened Wrappers
  import opened Seqs

  /** A history entry: when, by how much, and an optional note ('' when none). */
  datatype Rec = Rec(ts: string, delta: int, note: string)

  /** A counter; `history` is kept most recent first (entries are prepended). */
  datatype Counter = Counter(
    id: string,
    name: string,
    count: int,
    history: seq<Rec>,
    createdAt: string,
    updatedAt: string)

  /** The name addCounter uses when called without one. */
  const DefaultName: string := "新的计数器"

  function Max(a: int, b: int): int {
    if a >= b then a else b
  }

  function Min(a: int, b: int): int {
    if a <= b then a else b
  }

  /** The counter addCounter creates: nothing counted yet, created and updated now. */
  function NewCounter(id: string, name: string, now: string): (r: Counter)
    ensures Consistent(r) && r.count == 0 && r.history == []
    ensures r.id == id && r.name == name && r.createdAt == now && r.updatedAt == now
  {
    Counter(id, name, 0, [], now, now)
  }

  /** Number of history entries with a positive delta. */
  function PositiveCount(h: seq<Rec>): nat {
    if h == [] then 0
    else (if h[0].delta > 0 then 1 else 0) + PositiveCount(h[1..])
  }

  /**
   * The coupling between count and history that the UI's +1 / -1 buttons keep:
   * the count is the number of positive entries (hence never negative).
   */
  predicate Consistent(c: Counter) {
    c.count == PositiveCount(c.history)
  }

  /** `note || ''`: an absent note is stored as the empty string. */
  function NoteOrEmpty(note: Option<string>): (r: string)
    ensures note.Some? ==> r == note.value
    ensures r == "" <==> note.None? || note.value == ""
  {
    match note
    case None => ""
    case Some(n) => n
  }

  /** addHistory: prepend one entry stamped `now`. */
  function AddHistory(c: Counter, delta: int, note: Option<string>, now: string): (r: Counter)
    ensures |r.history| == |c.history| + 1 && r.history[1..] == c.history
    ensures r.history[0] == Rec(now, delta, NoteOrEmpty(note))
    ensures PositiveCount(r.history) == PositiveCount(c.history) + (if delta > 0 then 1 else 0)
    ensures r.(history := c.history) == c
  {
    c.(history := [Rec(now, delta, NoteOrEmpty(note))] + c.history)
  }

  /**
   * `history.findIndex(h => h.delta > 0)`: the most recent positive entry,
   * or -1 when there is none.
   */
  function FirstPositive(h: seq<Rec>): (k: int)
    ensures -1 <= k < |h|
    ensures k == -1 <==> forall j :: 0 <= j < |h| ==> h[j].delta <= 0
    ensures k >= 0 ==> h[k].delta > 0 && forall j :: 0 <= j < k ==> h[j].delta <= 0
  {
    if h == [] then -1
    else if h[0].delta > 0 then 0
    else
      var k := FirstPositive(h[1..]);
      if k == -1 then -1 else k + 1
  }

  /**
   * `counters.findIndex(x => x.id === id)`: the first counter with the id, or -1.
   * `counters.find` picks the same counter.
   */
  function IndexOf(s: seq<Counter>, id: string): (i: int)
    ensures -1 <= i < |s|
    ensures i == -1 <==> forall j :: 0 <= j < |s| ==> s[j].id != id
    ensures i >= 0 ==> s[i].id == id && forall j :: 0 <= j < i ==> s[j].id != id
  {
    if s == [] then -1
    else if s[0].id == id then 0
    else
      var i := IndexOf(s[1..], id);
      if i == -1 then -1 else i + 1
  }

  /**
   * The change inc(id, delta, note) makes to the counter it found, stamped `now`.
   * A negative delta is an undo: a no-op at count <= 0, otherwise it drops the
   * most recent positive entry and decrements; it never records a negative entry.
   */
  function Bump(c: Counter, delta: int, note: Option<string>, now: string): (r: Counter)
    ensures r.id == c.id && r.name == c.name && r.createdAt == c.createdAt
    ensures delta < 0 && c.count <= 0 ==> r == c
    ensures !(delta < 0 && c.count <= 0) ==> r.updatedAt == now && r.count >= 0
    ensures delta >= 0 ==> |r.history| == |c.history| + 1 && r.history[1..] == c.history
    ensures delta >= 0 ==>
      r.count == Max(0, c.count + delta) && r.history == [Rec(now, delta, NoteOrEmpty(note))] + c.history
  {
    if delta < 0 then
      if c.count <= 0 then c
      else
        var k := FirstPositive(c.history);
        c.(history := if k != -1 then RemoveAt(c.history, k) else c.history,
           count := Max(0, c.count - 1),
           updatedAt := now)
    else
      AddHistory(c, delta, note, now).(count := Max(0, c.count + delta), updatedAt := now)
  }

  /**
   * inc never writes a negative entry: an undo only takes entries out, and the
   * one entry any other call adds carries its non-negative delta.
   */
  lemma BumpWritesNoNegative(c: Counter, delta: int, note: Option<string>, now: string)
    ensures delta < 0 ==> multiset(Bump(c, delta, note, now).history) <= multiset(c.history)
    ensures forall e :: e in Bump(c, delta, note, now).history && e !in c.history ==> e.delta >= 0
  {
    var r := Bump(c, delta, note, now);
    if delta < 0 && c.count > 0 {
      var k := FirstPositive(c.history);
      if k != -1 {
        RemoveAtMultiset(c.history, k);
        forall e | e in r.history ensures e in c.history {
          assert e in multiset(r.history);
        }
      }
    } else if delta >= 0 {
      assert r.history == [r.history[0]] + c.history;
    }
  }

  /** Taking one entry out lowers the positive count by one exactly when that entry was positive. */
  lemma {:induction false} PositiveCountRemoveAt(h: seq<Rec>, k: nat)
    requires k < |h|
    ensures PositiveCount(RemoveAt(h, k)) == PositiveCount(h) - (if h[k].delta > 0 then 1 else 0)
  {
    if k > 0 {
      PositiveCountRemoveAt(h[1..], k - 1);
      assert RemoveAt(h, k) == [h[0]] + RemoveAt(h[1..], k - 1);
    } else {
      assert RemoveAt(h, 0) == h[1..];
    }
  }

  /** A positive entry exists exactly when the positive count is non-zero. */
  lemma {:induction false} FirstPositiveFinds(h: seq<Rec>)
    ensures FirstPositive(h) != -1 <==> PositiveCount(h) > 0
  {
    if h != [] {
      FirstPositiveFinds(h[1..]);
    }
  }

  /**
   * Undo on a positive count: the count drops by one, at most one entry
   * leaves the history, and that entry is the most recent positive one.
   */
  lemma UndoDropsMostRecentPositive(c: Counter, delta: int, note: Option<string>, now: string)
    requires delta < 0 && c.count > 0
    ensures var r := Bump(c, delta, note, now);
      && r.count == c.count - 1
      && r.updatedAt == now
      && PositiveCount(r.history) == PositiveCount(c.history) - (if PositiveCount(c.history) > 0 then 1 else 0)
      && (PositiveCount(c.history) > 0 ==>
            exists k :: 0 <= k < |c.history| && c.history[k].delta > 0
              && (forall j :: 0 <= j < k ==> c.history[j].delta <= 0)
              && r.history == RemoveAt(c.history, k))
      && (PositiveCount(c.history) == 0 ==> r.history == c.history)
  {
    FirstPositiveFinds(c.history);
    var k := FirstPositive(c.history);
    if k != -1 {
      PositiveCountRemoveAt(c.history, k);
    }
  }

  /** Under the UI's calls (+1 and -1; delta 0 is covered as well) inc keeps count and history coupled. */
  lemma BumpKeepsConsistent(c: Counter, delta: int, note: Option<string>, now: string)
    requires Consistent(c) && delta <= 1
    ensures Consistent(Bump(c, delta, note, now))
  {
    if delta < 0 && c.count > 0 {
      UndoDropsMostRecentPositive(c, delta, note, now);
    }
  }

  /** An undo right after a +1 gives back the count and the history as they were. */
  lemma UndoCancelsIncrement(c: Counter, note: Option<string>, t1: string, t2: string)
    requires c.count >= 0
    ensures var r := Bump(Bump(c, 1, note, t1), -1, None, t2);
      r == c.(updatedAt := t2)
  {
    var up := Bump(c, 1, note, t1);
    assert FirstPositive(up.history) == 0;
    assert RemoveAt(up.history, 0) == c.history;
  }
}
