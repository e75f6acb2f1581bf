/** The editor's registry of remote cursors: the colour given to each remote
    user whose cursor is shown, drawn in turn from a fixed palette by a
    counter that only ever grows, and the cursor payload sent on a local
    selection change. */
module Cursors {
  import opened Common
  import opened OrderedMap

  /** `CURSOR_COLORS`: emerald, pink, indigo, amber, purple, cyan, rose,
      blue, lime, violet. */
  const Palette: seq<string> := ["#10B981", "#EC4899", "#6366F1", "#F59E0B", "#8B5CF6",
                                 "#06B6D4", "#F43F5E", "#3B82F6", "#84CC16", "#9333EA"]

  /** `CURSOR_COLORS[n % CURSOR_COLORS.length]`. */
  function ColorAt(n: nat): (c: string)
    ensures c in Palette
  {
    Palette[n % |Palette|]
  }

  /** The palette repeats every ten assignments ... */
  lemma ColorAtPeriodic(n: nat)
    ensures ColorAt(n + 10) == ColorAt(n)
  {
    assert (n + 10) % 10 == n % 10;
  }

  /** ... and within any ten consecutive assignments no colour repeats. */
  lemma ColorAtDistinct(n: nat, m: nat)
    requires n < m < n + 10
    ensures ColorAt(n) != ColorAt(m)
  {
    assert n % 10 != m % 10;
    assert forall i, j :: 0 <= i < j < 10 ==> Palette[i] != Palette[j];
  }

  /** The calls the registry makes on the cursors module of the editor. */
  datatype CursorOp =
    | CreateCursor(userId: UserId, username: string, color: string)
    | MoveCursor(userId: UserId, range: Range)
    | RemoveCursor(userId: UserId)

  /** `cursorsRef` (user id to colour, in insertion order) and
      `colorIndexRef`. */
  datatype Registry = Registry(colors: seq<Entry<UserId, string>>, counter: nat)

  /** Every stored colour comes from the palette and no user is stored twice. */
  ghost predicate WellFormed(r: Registry) {
    Distinct(r.colors) && forall i :: 0 <= i < |r.colors| ==> r.colors[i].value in Palette
  }

  /** The registry once `userId` is sure to have a colour: an unknown user
      takes the colour the counter points at and the counter moves on. */
  function Admit(r: Registry, userId: UserId): (a: Registry)
    ensures userId in Keys(r.colors) ==> a == r
    ensures userId !in Keys(r.colors) ==>
      a == Registry(r.colors + [Entry(userId, ColorAt(r.counter))], r.counter + 1)
    ensures Get(a.colors, userId) == Some(if userId in Keys(r.colors) then Get(r.colors, userId).value else ColorAt(r.counter))
    ensures forall k :: k != userId ==> Get(a.colors, k) == Get(r.colors, k)
  {
    if Get(r.colors, userId).Some? then r
    else Registry(Put(r.colors, userId, ColorAt(r.counter)), r.counter + 1)
  }

  /** `handleCursorPosition` on the registry: the new registry and the
      calls made on the editor's cursors, in order. */
  function CursorEvent(r: Registry, localId: UserId, d: CursorData): (res: (Registry, seq<CursorOp>))
    ensures d.userId == localId ==> res == (r, [])
    ensures d.userId != localId ==>
      res.0.counter == r.counter + (if d.userId in Keys(r.colors) then 0 else 1)
    ensures d.userId != localId && d.position.None? ==> d.userId !in Keys(res.0.colors)
    ensures d.userId != localId && d.position.Some? ==>
      Get(res.0.colors, d.userId) == Some(if d.userId in Keys(r.colors) then Get(r.colors, d.userId).value else ColorAt(r.counter))
    ensures forall k :: k != d.userId ==> Get(res.0.colors, k) == Get(r.colors, k)
  {
    if d.userId == localId then (r, [])
    else
      var a := Admit(r, d.userId);
      var created := if d.userId in Keys(r.colors) then [] else [CreateCursor(d.userId, d.username, ColorAt(r.counter))];
      if d.position.None? then
        (Registry(Remove(a.colors, d.userId), a.counter), created + [RemoveCursor(d.userId)])
      else
        var c := Get(a.colors, d.userId).value;
        (a, created + [CreateCursor(d.userId, d.username, c), MoveCursor(d.userId, d.position.value)])
  }

  /** Every event keeps the registry well formed. */
  lemma CursorEventWellFormed(r: Registry, localId: UserId, d: CursorData)
    requires WellFormed(r)
    ensures WellFormed(CursorEvent(r, localId, d).0)
  {
    if d.userId != localId {
      var a := Admit(r, d.userId);
      if d.userId !in Keys(r.colors) {
        DistinctAppend(r.colors, Entry(d.userId, ColorAt(r.counter)));
      }
      assert WellFormed(a);
      if d.position.None? {
        RemoveDistinct(a.colors, d.userId);
        RemoveSubset(a.colors, d.userId);
      }
    }
  }

  /** A user keeps its colour for as long as it sends positions. */
  lemma KeepsColor(r: Registry, localId: UserId, d: CursorData)
    requires d.userId != localId && d.userId in Keys(r.colors) && d.position.Some?
    ensures Get(CursorEvent(r, localId, d).0.colors, d.userId) == Get(r.colors, d.userId)
    ensures CursorEvent(r, localId, d).0.counter == r.counter
  {
  }

  /** A user whose cursor was hidden comes back with a fresh colour, the
      one the counter points at by then; hiding took a counter step of its
      own when it was that user's first event. */
  lemma {:induction false} ReturnsWithFreshColor(r: Registry, localId: UserId, gone: CursorData, back: CursorData)
    requires gone.userId != localId && gone.position.None?
    requires back.userId == gone.userId && back.position.Some?
    ensures gone.userId in Keys(r.colors) ==> CursorEvent(r, localId, gone).0.counter == r.counter
    ensures gone.userId !in Keys(r.colors) ==> CursorEvent(r, localId, gone).0.counter == r.counter + 1
    ensures Get(CursorEvent(CursorEvent(r, localId, gone).0, localId, back).0.colors, back.userId)
         == Some(ColorAt(CursorEvent(r, localId, gone).0.counter))
    ensures CursorEvent(CursorEvent(r, localId, gone).0, localId, back).0.counter
         == CursorEvent(r, localId, gone).0.counter + 1
  {
    var h := CursorEvent(r, localId, gone).0;
    assert gone.userId !in Keys(h.colors);
  }

  /** Two users first seen one after the other get different colours. */
  lemma {:induction false} NewUsersDiffer(r: Registry, localId: UserId, d: CursorData, e: CursorData)
    requires d.userId != localId && e.userId != localId && d.userId != e.userId
    requires d.userId !in Keys(r.colors) && e.userId !in Keys(r.colors)
    requires d.position.Some? && e.position.Some?
    ensures Get(CursorEvent(CursorEvent(r, localId, d).0, localId, e).0.colors, d.userId)
         != Get(CursorEvent(CursorEvent(r, localId, d).0, localId, e).0.colors, e.userId)
  {
    var r1 := CursorEvent(r, localId, d).0;
    assert r1.counter == r.counter + 1;
    ColorAtDistinct(r.counter, r.counter + 1);
  }

  /** `handleSelectionChange`'s payload: the local user and the selection,
      or no position when nothing is selected. */
  function SelectionPayload(user: User, range: Option<Range>): (p: CursorPosition)
    ensures p.id == user.id && p.user == user
    ensures p.position.None? <==> range.None?
    ensures range.Some? ==> p.position.value.index == range.value.index && p.position.value.length == range.value.length
  {
    CursorPosition(user.id, user, if range.None? then None else Some(Range(range.value.index, range.value.length)))
  }

  class CursorRegistry {
    var colors: seq<Entry<UserId, string>>
    var counter: nat

    ghost function State(): Registry
      reads this
    {
      Registry(colors, counter)
    }

    constructor ()
      ensures colors == [] && counter == 0
    {
      colors := [];
      counter := 0;
    }

    /** `handleCursorPosition`, for the local user `localId`. */
    method HandleCursor(localId: UserId, d: CursorData) returns (ops: seq<CursorOp>)
      modifies this
      ensures State() == CursorEvent(old(State()), localId, d).0
      ensures ops == CursorEvent(old(State()), localId, d).1
    {
      if d.userId == localId {
        return [];
      }
      ghost var r0 := State();
      ops := [];
      if Get(colors, d.userId).None? {
        var color := ColorAt(counter);
        counter := counter + 1;
        colors := Put(colors, d.userId, color);
        ops := ops + [CreateCursor(d.userId, d.username, color)];
      }
      assert State() == Admit(r0, d.userId);
      assert ops == if d.userId in Keys(r0.colors) then [] else [CreateCursor(d.userId, d.username, ColorAt(r0.counter))];
      if d.position.None? {
        ops := ops + [RemoveCursor(d.userId)];
        colors := Remove(colors, d.userId);
        return;
      }
      var color := Get(colors, d.userId);
      assert color.Some?;
      if color.Some? {
        ops := ops + [CreateCursor(d.userId, d.username, color.value)];
      }
      ops := ops + [MoveCursor(d.userId, d.position.value)];
    }

    /** The effect clean-up: every shown cursor is removed, in the order the
        users were added, and the registry is emptied; the counter is kept. */
    method Cleanup() returns (ops: seq<CursorOp>)
      modifies this
      ensures colors == [] && counter == old(counter)
      ensures |ops| == |old(colors)|
      ensures forall i :: 0 <= i < |ops| ==> ops[i] == RemoveCursor(old(colors)[i].key)
    {
      ops := [];
      var i := 0;
      while i < |colors|
        invariant 0 <= i <= |colors|
        invariant |ops| == i
        invariant forall j :: 0 <= j < i ==> ops[j] == RemoveCursor(colors[j].key)
      {
        ops := ops + [RemoveCursor(colors[i].key)];
        i := i + 1;
      }
      colors := [];
    }
  }
}
