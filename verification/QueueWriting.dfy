/** Writing: where a message goes, what it covers and what is then unread. */
module QueueWriting {
  import opened Bytes
  import opened QueueFormat
  import opened QueueSteps
  import opened QueueLayout

  /** The write replaces the word at `ptr`, by the END marker or by the message. */
  predicate Covers(s: State, payload: seq<byte>, ptr: nat) {
    Target(s, payload) <= ptr < TargetEnd(s, payload) || (Wraps(s, payload) && ptr == s.writePtr)
  }

  /** Nothing is unread, or the queue is not full and wraps only from the state before its own wrap. */
  predicate Orderly(s: State, l: Layout, payload: seq<byte>) {
    l.upper == []
    || (s.readPtr != s.writePtr && (Wraps(s, payload) ==> 0 < s.readPtr < s.writePtr))
  }

  predicate AllCovered(s: State, l: Layout, payload: seq<byte>) {
    forall i :: 0 <= i < |l.Unread()| ==> Covers(s, payload, l.Unread()[i].ptr)
  }

  /** How many messages, from the first, start before `limit`. */
  function DropCount(ms: seq<Msg>, limit: nat): (k: nat)
    ensures k <= |ms|
  {
    if ms == [] || ms[0].ptr >= limit then 0 else 1 + DropCount(ms[1..], limit)
  }

  function NewMsg(s: State, payload: seq<byte>): Msg
    requires IsState(s)
  {
    Msg(Target(s, payload), payload, s.prevPtr)
  }

  /** How many of the oldest unread messages the write drops. */
  function Dropped(s: State, l: Layout, payload: seq<byte>): (k: nat)
    ensures k <= |l.Unread()|
  {
    if !Orderly(s, l, payload) then |l.Unread()|
    else if l.upper == [] || s.readPtr < Target(s, payload) then 0
    else DropCount(l.upper, TargetEnd(s, payload))
  }

  function AfterWrite(s: State, l: Layout, payload: seq<byte>): Layout
    requires IsState(s)
  {
    var m := NewMsg(s, payload);
    if l.upper == [] then Layout(if m.ptr == 0 then [] else l.done, [m], [])
    else if !Orderly(s, l, payload) then Layout([], [m], [])
    else if s.readPtr < m.ptr then Layout(l.done, l.upper + [m], [])
    else
      var kept := l.upper[DropCount(l.upper, EndPtr(m))..];
      if kept == [] then Layout([], l.lower + [m], []) else Layout([], kept, l.lower + [m])
  }

  // ---------- what the bytes are afterwards ----------

  lemma EndWrapsByRemainder(end: nat, n: nat)
    requires 0 < end <= n
    ensures end % n == WrapEnd(end, n)
  {
  }

  lemma WrittenMessage(s: State, payload: seq<byte>)
    requires IsState(s) && Accepts(s, payload)
    ensures Stored(Written(s, payload).mem, NewMsg(s, payload), false)
    ensures Held(Written(s, payload).mem, NewMsg(s, payload), false)
    ensures EndPtr(NewMsg(s, payload)) == TargetEnd(s, payload) <= WordCount(s.mem)
    ensures Written(s, payload).writePtr == WrapEnd(TargetEnd(s, payload), WordCount(s.mem))
  {
    hide Image, FirstScan;
    StoredSplice(WithMarker(s, payload), NewMsg(s, payload));
    EndWrapsByRemainder(TargetEnd(s, payload), WordCount(s.mem));
  }

  lemma MarkerStored(s: State, payload: seq<byte>)
    requires IsState(s) && Accepts(s, payload) && Wraps(s, payload)
    ensures IsEnd(WithMarker(s, payload), s.writePtr)
    ensures TargetEnd(s, payload) <= s.writePtr ==> IsEnd(Written(s, payload).mem, s.writePtr)
  {
    hide Image, FirstScan;
    var marked, w := WithMarker(s, payload), s.writePtr;
    assert marked[4 * w..4 * w + 4] == END_POINTER;
    if TargetEnd(s, payload) <= w {
      IsEndFrame(marked, Written(s, payload).mem, w);
    }
  }

  /** Messages away from the message and the marker keep their bytes. */
  lemma MessagesUntouched(s: State, payload: seq<byte>, ms: seq<Msg>, read: bool, from: nat, to: nat)
    requires IsState(s) && Accepts(s, payload)
    requires AllHeld(s.mem, ms, read) && Tiles(ms, from, to)
    requires Wraps(s, payload) ==> to <= s.writePtr || s.writePtr < from
    ensures AllHeld(WithMarker(s, payload), ms, read)
    ensures to <= Target(s, payload) || TargetEnd(s, payload) <= from ==> AllHeld(Written(s, payload).mem, ms, read)
  {
    hide Image, Stored, Held, Tiles, AllHeld, FirstScan;
    var marked := WithMarker(s, payload);
    AllHeldFrame(s.mem, marked, ms, read, from, to);
    if to <= Target(s, payload) || TargetEnd(s, payload) <= from {
      AllHeldFrame(marked, Written(s, payload).mem, ms, read, from, to);
    }
  }

  lemma EndUntouched(s: State, payload: seq<byte>, ptr: nat)
    requires IsState(s) && Accepts(s, payload)
    requires Wraps(s, payload) ==> ptr != s.writePtr
    requires ptr < Target(s, payload) || TargetEnd(s, payload) <= ptr
    ensures IsEnd(Written(s, payload).mem, ptr) == IsEnd(s.mem, ptr)
  {
    hide Image, IsEnd, FirstScan;
    IsEndFrame(s.mem, WithMarker(s, payload), ptr);
    IsEndFrame(WithMarker(s, payload), Written(s, payload).mem, ptr);
  }

  // ---------- the walk past overwritten messages ----------

  lemma {:induction false} DropSplits(ms: seq<Msg>, from: nat, to: nat, limit: nat, i: nat)
    requires Tiles(ms, from, to) && i < |ms|
    ensures ms[i].ptr < limit <==> i < DropCount(ms, limit)
    decreases |ms|
  {
    if ms[0].ptr < limit && i > 0 {
      TilesDrop(ms, from, to, 1);
      DropSplits(ms[1..], ms[1].ptr, to, limit, i - 1);
    }
  }

  /** The walk stops at the first message that is not overwritten, and at 0 when there is none. */
  lemma {:induction false} AdvanceDrops(mem: seq<byte>, ms: seq<Msg>, from: nat, to: nat, limit: nat)
    requires IsBuffer(mem) && AllHeld(mem, ms, false) && Tiles(ms, from, to)
    requires ms != [] && from < limit
    requires to == WordCount(mem) || (to < WordCount(mem) && IsEnd(mem, to))
    ensures var k := DropCount(ms, limit);
            Advance(mem, from, limit) == if k < |ms| then ms[k].ptr else 0
    decreases |ms|
  {
    hide Stored, Held, IsEnd, IsBuffer, NextMessage, Tiles, FirstScan;
    TilesNext(ms, from, to, 0);
    HeldNext(mem, ms[0], false);
    if |ms| > 1 {
      TilesNext(ms, from, to, 1);
      HeldValidity(mem, ms[1], false);
      TilesDrop(ms, from, to, 1);
      if ms[1].ptr < limit {
        AdvanceDrops(mem, ms[1..], ms[1].ptr, to, limit);
      }
    }
  }

  // ---------- the new layout ----------

  /** With nothing unread before, the new message alone is unread. */
  lemma WriteIntoEmpty(s: State, l: Layout, payload: seq<byte>)
    requires Shape(s, l) && Accepts(s, payload) && l.upper == []
    ensures Geometry(Written(s, payload), AfterWrite(s, l, payload))
    ensures AllHeld(Written(s, payload).mem, AfterWrite(s, l, payload).done, true)
  {
    hide Stored, Held, IsEnd, IsBuffer, Image, Linked, Tiles, FirstScan;
    var m := NewMsg(s, payload);
    WrittenMessage(s, payload);
    TilesNothing(m.ptr);
    TilesAppend([], m.ptr, m.ptr, m);
    assert [] + [m] == [m];
    if m.ptr == 0 {
      TilesNothing(0);
    } else {
      MessagesUntouched(s, payload, l.done, true, 0, m.ptr);
    }
  }

  /** When everything unread is covered the read pointer ends up at the new message, in word 0. */
  lemma WriteOverAll(s: State, l: Layout, payload: seq<byte>)
    requires Shape(s, l) && Accepts(s, payload) && AllCovered(s, l, payload) && !Orderly(s, l, payload)
    ensures Written(s, payload).readPtr == 0 == Target(s, payload)
  {
    hide Stored, Held, IsEnd, IsBuffer, Image, Linked, Tiles, Advance, NextMessage, FirstScan, AllHeld, Written;
    OverAllFromZero(s, l, payload);
    if s.readPtr > s.writePtr {
      PushedPastAll(s, l, payload);
    } else {
      WrittenAtHead(s, payload);
    }
  }

  lemma WrittenAtHead(s: State, payload: seq<byte>)
    requires IsState(s) && Accepts(s, payload) && (s.readPtr == s.writePtr || s.readPtr == Target(s, payload))
    ensures Written(s, payload).readPtr == Target(s, payload)
  {
    hide Image, IsBuffer, Advance;
  }

  lemma OverAllFromZero(s: State, l: Layout, payload: seq<byte>)
    requires Shape(s, l) && Accepts(s, payload) && AllCovered(s, l, payload) && !Orderly(s, l, payload)
    ensures Target(s, payload) == 0
    ensures s.readPtr < s.writePtr ==> s.readPtr == 0
    ensures s.readPtr > s.writePtr ==> Wraps(s, payload)
  {
    hide Stored, Held, IsEnd, IsBuffer, Image, Linked, Tiles, Advance, NextMessage, FirstScan, AllHeld, Written, MsgWords;
    TilesNext(l.upper, s.readPtr, EndOf(l.upper, s.readPtr), 0);
    if l.lower != [] {
      assert l.Unread()[|l.upper|] == l.lower[0];
      TilesNext(l.lower, 0, s.writePtr, 0);
    }
  }

  lemma UpperCovered(s: State, l: Layout, payload: seq<byte>)
    requires Shape(s, l) && AllCovered(s, l, payload) && s.readPtr > s.writePtr && l.upper != []
    ensures var end := EndOf(l.upper, s.readPtr);
            && s.readPtr < TargetEnd(s, payload)
            && DropCount(l.upper, TargetEnd(s, payload)) == |l.upper|
            && s.writePtr < end <= WordCount(s.mem)
            && (end == WordCount(s.mem) || IsEnd(s.mem, end))
  {
    hide Stored, Held, IsEnd, IsBuffer, Linked, Tiles, FirstScan, AllHeld, MsgWords, DropCount, Wraps;
    var end, last := EndOf(l.upper, s.readPtr), |l.upper| - 1;
    TilesNext(l.upper, s.readPtr, end, 0);
    TilesNext(l.upper, s.readPtr, end, last);
    assert l.Unread()[last] == l.upper[last] && l.Unread()[0] == l.upper[0];
    DropSplits(l.upper, s.readPtr, end, TargetEnd(s, payload), last);
  }

  lemma PushedPastAll(s: State, l: Layout, payload: seq<byte>)
    requires Shape(s, l) && Accepts(s, payload) && AllCovered(s, l, payload) && Wraps(s, payload)
    requires s.readPtr > s.writePtr && l.upper != []
    ensures Written(s, payload).readPtr == 0
  {
    hide Stored, Held, IsEnd, IsBuffer, Image, Linked, Tiles, Advance, NextMessage, FirstScan, AllHeld, MsgWords,
      DropCount, AllCovered, Splice;
    var end := EndOf(l.upper, s.readPtr);
    UpperCovered(s, l, payload);
    MessagesUntouched(s, payload, l.upper, false, s.readPtr, end);
    MarkerKeepsEnd(s, payload, end);
    AdvanceDrops(WithMarker(s, payload), l.upper, s.readPtr, end, TargetEnd(s, payload));
  }

  lemma MarkerKeepsEnd(s: State, payload: seq<byte>, ptr: nat)
    requires IsState(s) && Accepts(s, payload) && ptr != s.writePtr
    ensures IsEnd(WithMarker(s, payload), ptr) == IsEnd(s.mem, ptr)
  {
    IsEndFrame(s.mem, WithMarker(s, payload), ptr);
  }

  lemma GeometryOfOne(s: State, m: Msg)
    requires IsState(s) && m.ptr == 0 == s.readPtr && EndPtr(m) <= WordCount(s.mem)
    requires s.writePtr == WrapEnd(EndPtr(m), WordCount(s.mem))
    ensures Geometry(s, Layout([], [m], []))
  {
  }

  /** Writing after the last unread message, short of the buffer's end. */
  lemma WriteBehindLast(s: State, l: Layout, payload: seq<byte>)
    requires Shape(s, l) && Accepts(s, payload) && Orderly(s, l, payload)
    requires l.upper != [] && s.readPtr < Target(s, payload)
    ensures Geometry(Written(s, payload), AfterWrite(s, l, payload))
    ensures AllHeld(Written(s, payload).mem, l.done, true)
    ensures AllHeld(Written(s, payload).mem, l.upper, false)
    ensures l.lower == []
  {
    hide Stored, Held, IsEnd, IsBuffer, Image, Linked, Tiles, FirstScan;
    var m := NewMsg(s, payload);
    WrittenMessage(s, payload);
    TilesAppend(l.upper, s.readPtr, m.ptr, m);
    MessagesUntouched(s, payload, l.done, true, 0, s.readPtr);
    MessagesUntouched(s, payload, l.upper, false, s.readPtr, m.ptr);
  }

  /** Writing towards the oldest unread message: the read pointer moves to the first message left. */
  lemma WritePushesRead(s: State, l: Layout, payload: seq<byte>)
    requires Shape(s, l) && Accepts(s, payload) && Orderly(s, l, payload)
    requires l.upper != [] && s.readPtr > Target(s, payload)
    ensures var k := DropCount(l.upper, TargetEnd(s, payload));
            Written(s, payload).readPtr == if k < |l.upper| then l.upper[k].ptr else 0
  {
    hide Stored, Held, IsEnd, IsBuffer, Image, Linked, Tiles, FirstScan;
    var end := EndOf(l.upper, s.readPtr);
    TilesNext(l.upper, s.readPtr, end, 0);
    if Overtakes(s, payload) {
      MessagesUntouched(s, payload, l.upper, false, s.readPtr, end);
      PushedEnd(s, l, payload);
      AdvanceDrops(WithMarker(s, payload), l.upper, s.readPtr, end, TargetEnd(s, payload));
    }
  }

  lemma PushedEnd(s: State, l: Layout, payload: seq<byte>)
    requires Shape(s, l) && Accepts(s, payload) && Orderly(s, l, payload)
    requires l.upper != [] && s.readPtr > Target(s, payload)
    ensures var end := EndOf(l.upper, s.readPtr);
            end == WordCount(s.mem) || (end < WordCount(s.mem) && IsEnd(WithMarker(s, payload), end))
    ensures Wraps(s, payload) ==> l.lower == [] && EndOf(l.upper, s.readPtr) == s.writePtr
    ensures !Wraps(s, payload) ==> s.writePtr < s.readPtr && (l.lower == [] ==> s.writePtr == 0)
  {
    hide Stored, Held, IsEnd, IsBuffer, Image, Linked, Tiles, FirstScan;
    var end := EndOf(l.upper, s.readPtr);
    TilesNext(l.upper, s.readPtr, end, |l.upper| - 1);
    if Wraps(s, payload) {
      MarkerStored(s, payload);
    }
  }

  /** What becomes of the messages from the `k`-th on, which the write does not reach. */
  lemma KeptUntouched(s: State, l: Layout, payload: seq<byte>, k: nat)
    requires Shape(s, l) && Accepts(s, payload) && Orderly(s, l, payload)
    requires l.upper != [] && s.readPtr > Target(s, payload)
    requires k == DropCount(l.upper, TargetEnd(s, payload)) < |l.upper|
    ensures var end := EndOf(l.upper, s.readPtr);
            && AllHeld(Written(s, payload).mem, l.upper[k..], false)
            && Tiles(l.upper[k..], l.upper[k].ptr, end) && EndOf(l.upper[k..], l.upper[k].ptr) == end
            && TargetEnd(s, payload) <= l.upper[k].ptr < end <= WordCount(s.mem)
            && (end == WordCount(s.mem) || IsEnd(Written(s, payload).mem, end))
  {
    hide Stored, Held, IsEnd, IsBuffer, Image, Linked, Tiles, FirstScan, Written, MsgWords, DropCount, Advance;
    var end := EndOf(l.upper, s.readPtr);
    PushedEnd(s, l, payload);
    DropSplits(l.upper, s.readPtr, end, TargetEnd(s, payload), k);
    TilesNext(l.upper, s.readPtr, end, k);
    TilesDrop(l.upper, s.readPtr, end, k);
    KeptHeld(s.mem, l.upper, k);
    MessagesUntouched(s, payload, l.upper[k..], false, l.upper[k].ptr, end);
    if end < WordCount(s.mem) {
      if Wraps(s, payload) {
        MarkerStored(s, payload);
      } else {
        EndUntouched(s, payload, end);
      }
    }
  }

  lemma KeptHeld(mem: seq<byte>, ms: seq<Msg>, k: nat)
    requires AllHeld(mem, ms, false) && k <= |ms|
    ensures AllHeld(mem, ms[k..], false)
  {
    hide Held;
  }

  lemma LowerGrows(s: State, l: Layout, payload: seq<byte>)
    requires Shape(s, l) && Accepts(s, payload) && Orderly(s, l, payload)
    requires l.upper != [] && s.readPtr > Target(s, payload)
    ensures AllHeld(Written(s, payload).mem, l.lower, false)
    ensures Tiles(l.lower + [NewMsg(s, payload)], 0, TargetEnd(s, payload))
  {
    hide Stored, Held, IsEnd, IsBuffer, Image, Linked, Tiles, FirstScan, Written, MsgWords, Advance;
    PushedEnd(s, l, payload);
    if l.lower == [] {
      TilesNothing(0);
    } else {
      MessagesUntouched(s, payload, l.lower, false, 0, s.writePtr);
    }
    WrittenMessage(s, payload);
    TilesAppend(l.lower, 0, Target(s, payload), NewMsg(s, payload));
  }

  lemma WriteBeforeFirst(s: State, l: Layout, payload: seq<byte>)
    requires Shape(s, l) && Accepts(s, payload) && Orderly(s, l, payload)
    requires l.upper != [] && s.readPtr > Target(s, payload)
    ensures var s', l' := Written(s, payload), AfterWrite(s, l, payload);
            && Geometry(s', l')
            && AllHeld(s'.mem, l.upper[DropCount(l.upper, TargetEnd(s, payload))..], false)
            && AllHeld(s'.mem, l.lower, false)
  {
    hide Stored, Held, AllHeld, IsEnd, IsBuffer, Image, Linked, Tiles, FirstScan, Written, MsgWords, DropCount, Advance, Orderly;
    var k := DropCount(l.upper, TargetEnd(s, payload));
    WrittenMessage(s, payload);
    WritePushesRead(s, l, payload);
    LowerGrows(s, l, payload);
    if k < |l.upper| {
      KeptUntouched(s, l, payload, k);
    } else {
      TilesNothing(0);
      NothingHeld(Written(s, payload).mem, l.upper[k..]);
    }
  }

  lemma NothingHeld(mem: seq<byte>, ms: seq<Msg>)
    requires ms == []
    ensures AllHeld(mem, ms, false)
  {
  }

  lemma WriteKeepsGeometry(s: State, l: Layout, payload: seq<byte>)
    requires Shape(s, l) && Accepts(s, payload)
    requires Orderly(s, l, payload) || AllCovered(s, l, payload)
    ensures var s', l' := Written(s, payload), AfterWrite(s, l, payload);
            && Geometry(s', l')
            && AllHeld(s'.mem, l'.done, true)
            && AllHeld(s'.mem, l'.upper, false)
            && AllHeld(s'.mem, l'.lower, false)
  {
    hide Stored, Held, IsEnd, IsBuffer, Image, Linked, Tiles, Geometry, NextMessage, Advance, FirstScan;
    WrittenMessage(s, payload);
    if l.upper == [] {
      WriteIntoEmpty(s, l, payload);
    } else if !Orderly(s, l, payload) {
      WriteOverAll(s, l, payload);
      GeometryOfOne(Written(s, payload), NewMsg(s, payload));
    } else if s.readPtr < Target(s, payload) {
      WriteBehindLast(s, l, payload);
    } else {
      WriteBeforeFirst(s, l, payload);
    }
  }

  lemma EmptyUpper(s: State, l: Layout)
    requires IsState(s) && Geometry(s, l) && l.upper == []
    ensures l.lower == []
  {
  }

  /** The unread messages afterwards: the old ones without the dropped, then the new one. */
  lemma UnreadAfterWrite(s: State, l: Layout, payload: seq<byte>)
    requires Shape(s, l) && Accepts(s, payload)
    requires Orderly(s, l, payload) || AllCovered(s, l, payload)
    ensures AfterWrite(s, l, payload).Unread()
            == l.Unread()[Dropped(s, l, payload)..] + [NewMsg(s, payload)]
  {
    hide Stored, Held, AllHeld, IsEnd, IsBuffer, Image, Linked, Tiles, NextMessage, Advance, FirstScan, Geometry, Written,
      DropCount, MsgWords;
    if l.upper == [] {
      EmptyUpper(s, l);
    } else if Orderly(s, l, payload) && s.readPtr < Target(s, payload) {
      WriteBehindLast(s, l, payload);
    }
  }

  lemma LinksAfterWrite(s: State, l: Layout, payload: seq<byte>)
    requires Shape(s, l) && Accepts(s, payload)
    requires Orderly(s, l, payload) || AllCovered(s, l, payload)
    ensures var after := AfterWrite(s, l, payload);
            Linked(after.Unread()) && after.All() != [] && after.All()[|after.All()| - 1] == NewMsg(s, payload)
  {
    hide Stored, Held, IsEnd, IsBuffer, Image, Linked, Tiles, NextMessage, Advance, Geometry, AllHeld, AfterWrite,
      Orderly, AllCovered, FirstScan, Dropped, Written;
    UnreadAfterWrite(s, l, payload);
    var kept := l.Unread()[Dropped(s, l, payload)..];
    LinkedDrop(l.Unread(), Dropped(s, l, payload));
    if kept != [] {
      LastUnread(l);
      assert kept[|kept| - 1] == l.Unread()[|l.Unread()| - 1];
    }
    LinkedAppend(kept, NewMsg(s, payload));
    LastUnread(AfterWrite(s, l, payload));
  }

  lemma LastUnread(l: Layout)
    requires l.Unread() != []
    ensures l.All() != [] && l.All()[|l.All()| - 1] == l.Unread()[|l.Unread()| - 1]
  {
    assert l.All() == l.done + l.Unread();
  }

  lemma WriteKeepsShape(s: State, l: Layout, payload: seq<byte>)
    requires Shape(s, l) && Accepts(s, payload)
    requires Orderly(s, l, payload) || AllCovered(s, l, payload)
    ensures Shape(Written(s, payload), AfterWrite(s, l, payload))
  {
    hide Stored, Held, IsEnd, IsBuffer, Image, Linked, Tiles, NextMessage, Advance, Geometry, DropCount, FirstScan;
    WriteKeepsGeometry(s, l, payload);
    LinksAfterWrite(s, l, payload);
  }
}
