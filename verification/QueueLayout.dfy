/**
 * Where the messages lie: in the current lap the read ones (`done`) and then the unread ones, which may
 * continue (`lower`) at the start of the buffer. Of the read ones only what the code looks at is known: after a
 * restart they may be left over from earlier laps.
 */
module QueueLayout {
  import opened Bytes
  import opened QueueFormat
  import opened QueueSteps

  /** Unread messages, oldest first, are `upper + lower`; `done` holds the read ones from word 0 up to them. */
  datatype Layout = Layout(done: seq<Msg>, upper: seq<Msg>, lower: seq<Msg>) {
    function Unread(): seq<Msg> { upper + lower }

    function All(): seq<Msg> { done + upper + lower }
  }

  function EndOf(ms: seq<Msg>, from: nat): nat {
    if ms == [] then from else EndPtr(ms[|ms| - 1])
  }

  function WrapEnd(ptr: nat, n: nat): nat {
    if ptr < n then ptr else 0
  }

  /** The messages fill the words from `from` to `to` without gaps. */
  ghost predicate Tiles(ms: seq<Msg>, from: nat, to: nat) {
    && from <= to
    && to == EndOf(ms, from)
    && (ms != [] ==> ms[0].ptr == from)
    && (forall i, j :: 0 <= i < j < |ms| ==>
          EndPtr(ms[i]) <= ms[j].ptr && (j == i + 1 ==> EndPtr(ms[i]) == ms[j].ptr))
  }

  ghost predicate AllHeld(mem: seq<byte>, ms: seq<Msg>, read: bool) {
    forall i :: 0 <= i < |ms| ==> Held(mem, ms[i], read)
  }

  /** Every header's back-link names the message written before. */
  ghost predicate Linked(ms: seq<Msg>) {
    forall i, j :: 0 <= i < j < |ms| && j == i + 1 ==> ms[j].prev == ms[i].ptr
  }

  ghost predicate Geometry(s: State, l: Layout)
    requires IsState(s)
  {
    var n, end := WordCount(s.mem), EndOf(l.upper, s.readPtr);
    && Tiles(l.upper, s.readPtr, end)
    && end <= n
    && (if l.lower == [] then
          && Tiles(l.done, 0, EndOf(l.done, 0))
          && EndOf(l.done, 0) <= n
          && s.readPtr == WrapEnd(EndOf(l.done, 0), n)
          && (l.upper != [] ==> EndOf(l.done, 0) == s.readPtr)
          && s.writePtr == WrapEnd(end, n)
        else
          && l.done == []
          && l.upper != []
          && (end == n || IsEnd(s.mem, end))
          && Tiles(l.lower, 0, s.writePtr)
          && s.writePtr <= s.readPtr)
  }

  /** What every write and read keeps, wherever a write lands. */
  ghost predicate Shape(s: State, l: Layout) {
    && IsState(s)
    && Geometry(s, l)
    && AllHeld(s.mem, l.done, true)
    && AllHeld(s.mem, l.upper, false)
    && AllHeld(s.mem, l.lower, false)
    && Linked(l.Unread())
    && (l.All() != [] ==> s.prevPtr == l.All()[|l.All()| - 1].ptr)
    && (s.canComplete ==> l.upper != [])
    && (l.upper == [] && s.writePtr != 0 ==> !IsEnd(s.mem, s.writePtr))
    && (l.All() == [] ==> FirstScan(s.mem) == Pointers(0, 0, s.prevPtr))
  }

  /** The bytes once every message of `ms` has been marked read. */
  function MarkAll(mem: seq<byte>, ms: seq<Msg>): (r: seq<byte>)
    requires forall i :: 0 <= i < |ms| ==> 4 * ms[i].ptr + 4 <= |mem|
    ensures |r| == |mem|
    decreases |ms|
  {
    if ms == [] then mem else MarkAll(MarkRead(mem, ms[0].ptr), ms[1..])
  }

  /** No END marker at the write pointer, and no unread message either once the stored ones are read. */
  ghost predicate CleanLanding(s: State, l: Layout)
    requires forall i :: 0 <= i < |l.Unread()| ==> 4 * l.Unread()[i].ptr + 4 <= |s.mem|
  {
    && (s.writePtr != 0 ==> !IsEnd(s.mem, s.writePtr))
    && !IsPending(MarkAll(s.mem, l.Unread()), s.writePtr)
  }

  /** In a full queue the oldest message is one that the bounds test accepts. */
  ghost predicate HeadVisible(s: State, l: Layout) {
    l.upper != [] && s.readPtr == s.writePtr ==> !IsFlush(l.upper[0], |s.mem|)
  }

  lemma UnreadFits(s: State, l: Layout)
    requires Shape(s, l)
    ensures forall i :: 0 <= i < |l.Unread()| ==> Stored(s.mem, l.Unread()[i], false)
    ensures forall i :: 0 <= i < |l.Unread()| ==> 4 * l.Unread()[i].ptr + 4 <= |s.mem|
  {
    hide Geometry, Linked, IsState, FirstScan;
    forall i | 0 <= i < |l.Unread()|
      ensures Stored(s.mem, l.Unread()[i], false)
    {
      assert l.Unread()[i] == if i < |l.upper| then l.upper[i] else l.lower[i - |l.upper|];
    }
  }

  ghost predicate Clean(s: State, l: Layout)
    requires Shape(s, l)
  {
    UnreadFits(s, l);
    CleanLanding(s, l) && HeadVisible(s, l)
  }

  ghost predicate Good(s: State, l: Layout) {
    Shape(s, l) && Clean(s, l)
  }

  lemma WrappedParts(s: State, l: Layout)
    requires IsState(s) && Geometry(s, l) && l.lower != []
    ensures l.done == [] && l.upper != []
  {
  }

  // ---------- tilings ----------

  lemma TilesAppend(ms: seq<Msg>, from: nat, to: nat, m: Msg)
    requires Tiles(ms, from, to) && m.ptr == to
    ensures Tiles(ms + [m], from, EndPtr(m))
  {
    var all := ms + [m];
    forall i, j | 0 <= i < j < |all|
      ensures EndPtr(all[i]) <= all[j].ptr && (j == i + 1 ==> EndPtr(all[i]) == all[j].ptr)
    {
      if j == |ms| && i < |ms| - 1 {
        assert EndPtr(ms[i]) <= ms[|ms| - 1].ptr;
      }
    }
  }

  lemma TilesConcat(a: seq<Msg>, from: nat, mid: nat, b: seq<Msg>, to: nat)
    requires Tiles(a, from, mid) && Tiles(b, mid, to)
    ensures Tiles(a + b, from, to)
  {
    var all := a + b;
    forall i, j | 0 <= i < j < |all|
      ensures EndPtr(all[i]) <= all[j].ptr && (j == i + 1 ==> EndPtr(all[i]) == all[j].ptr)
    {
      if i < |a| <= j {
        TilesNext(a, from, mid, i);
        TilesNext(b, mid, to, j - |a|);
      }
    }
  }

  lemma TilesDrop(ms: seq<Msg>, from: nat, to: nat, k: nat)
    requires Tiles(ms, from, to) && k <= |ms|
    ensures k < |ms| ==> Tiles(ms[k..], ms[k].ptr, to) && EndOf(ms[k..], ms[k].ptr) == to
  {
    if k < |ms| {
      var tail := ms[k..];
      assert EndOf(tail, ms[k].ptr) == to;
    }
  }

  lemma TilesWithin(ms: seq<Msg>, from: nat, to: nat, i: nat)
    requires Tiles(ms, from, to) && i < |ms|
    ensures from <= ms[i].ptr < EndPtr(ms[i]) <= to
  {
  }

  lemma TilesNothing(at: nat)
    ensures Tiles([], at, at) && EndOf([], at) == at
  {
  }

  lemma TilesNext(ms: seq<Msg>, from: nat, to: nat, i: nat)
    requires Tiles(ms, from, to) && i < |ms|
    ensures i == 0 ==> ms[i].ptr == from
    ensures to == EndOf(ms, from)
    ensures EndPtr(ms[i]) == if i + 1 < |ms| then ms[i + 1].ptr else to
    ensures from <= ms[i].ptr < EndPtr(ms[i]) <= to
  {
  }

  lemma TilesGrow(ms: seq<Msg>, from: nat, to: nat)
    requires Tiles(ms, from, to)
    ensures ms != [] ==> from < to
  {
    if ms != [] {
      TilesNext(ms, from, to, 0);
    }
  }

  lemma LinkedAppend(ms: seq<Msg>, m: Msg)
    requires Linked(ms)
    requires ms != [] ==> m.prev == ms[|ms| - 1].ptr
    ensures Linked(ms + [m])
  {
  }

  lemma LinkedDrop(ms: seq<Msg>, k: nat)
    requires Linked(ms) && k <= |ms|
    ensures Linked(ms[k..])
  {
  }

  // ---------- frames ----------

  lemma AllHeldFrame(mem: seq<byte>, mem': seq<byte>, ms: seq<Msg>, read: bool, from: nat, to: nat)
    requires AllHeld(mem, ms, read) && Tiles(ms, from, to) && |mem'| == |mem|
    requires forall i :: 4 * from <= i < 4 * to && i < |mem| ==> mem'[i] == mem[i]
    ensures AllHeld(mem', ms, read)
  {
    forall i | 0 <= i < |ms|
      ensures Held(mem', ms[i], read)
    {
      TilesWithin(ms, from, to, i);
      HeldFrame(mem, mem', ms[i], read);
    }
  }

  lemma IsEndFrame(mem: seq<byte>, mem': seq<byte>, ptr: nat)
    requires |mem'| == |mem|
    requires forall i :: 4 * ptr <= i < 4 * ptr + 4 && i < |mem| ==> mem'[i] == mem[i]
    ensures IsEnd(mem', ptr) == IsEnd(mem, ptr)
  {
    if 4 * ptr + 4 <= |mem| {
      assert mem'[4 * ptr..4 * ptr + 4] == mem[4 * ptr..4 * ptr + 4];
    }
  }
}
