/** Reading: what draining a queue delivers. */
module QueueReading {
  import opened QueueFormat
  import opened QueueSteps
  import opened QueueLayout

  /** Each unread message ends where the next one starts, or where the buffer (or its used part) ends. */
  lemma UnreadEnds(s: State, l: Layout, i: nat)
    requires IsState(s) && Geometry(s, l) && i < |l.Unread()|
    ensures i + 1 < |l.Unread()| ==>
              || EndPtr(l.Unread()[i]) == l.Unread()[i + 1].ptr < WordCount(s.mem)
              || (l.Unread()[i + 1].ptr == 0
                  && (EndPtr(l.Unread()[i]) == WordCount(s.mem) || IsEnd(s.mem, EndPtr(l.Unread()[i]))))
    ensures i + 1 == |l.Unread()| ==>
              || EndPtr(l.Unread()[i]) == s.writePtr
              || (EndPtr(l.Unread()[i]) == WordCount(s.mem) && s.writePtr == 0)
  {
    hide IsEnd, Tiles, EndOf, FirstScan;
    var u, k := l.Unread(), |l.upper|;
    if i < k {
      TilesNext(l.upper, s.readPtr, EndOf(l.upper, s.readPtr), i);
      if i + 1 < k {
        TilesNext(l.upper, s.readPtr, EndOf(l.upper, s.readPtr), i + 1);
      } else if i + 1 < |u| {
        TilesNext(l.lower, 0, s.writePtr, 0);
      }
    } else {
      TilesNext(l.lower, 0, s.writePtr, i - k);
      if i + 1 < |u| {
        TilesNext(l.lower, 0, s.writePtr, i + 1 - k);
      }
    }
  }

  lemma UnreadNext(s: State, l: Layout, i: nat)
    requires Shape(s, l) && i < |l.Unread()|
    ensures NextMessage(s.mem, l.Unread()[i].ptr)
            == if i + 1 < |l.Unread()| then l.Unread()[i + 1].ptr
               else if s.writePtr != 0 && IsEnd(s.mem, s.writePtr) then 0 else s.writePtr
  {
    var u := l.Unread();
    UnreadFits(s, l);
    UnreadEnds(s, l, i);
    hide Geometry, Stored, Held, IsEnd, NextMessage, AllHeld, Linked, FirstScan;
    StoredNext(s.mem, u[i], false);
    if i + 1 < |u| {
      StoredFields(s.mem, u[i + 1], false);
    }
  }

  function AfterTake(l: Layout): (r: Layout)
    requires l.upper != []
    ensures r.Unread() == l.Unread()[1..]
  {
    if l.lower == [] then Layout(l.done + [l.upper[0]], l.upper[1..], [])
    else if |l.upper| > 1 then Layout([], l.upper[1..], l.lower)
    else Layout([], l.lower, [])
  }

  lemma HeadIsFirst(s: State, l: Layout)
    requires Shape(s, l) && l.upper != []
    ensures l.Unread()[0] == l.upper[0] && l.upper[0].ptr == s.readPtr
    ensures Stored(s.mem, l.upper[0], false)
  {
  }

  /** Marking the head changes one flags byte and no other message. */
  lemma MarkHead(s: State, l: Layout)
    requires Shape(s, l) && l.upper != []
    ensures var mem := MarkRead(s.mem, s.readPtr);
            && Stored(mem, l.upper[0], true) && Held(mem, l.upper[0], true)
            && AllHeld(mem, l.done, true)
            && AllHeld(mem, l.upper[1..], false)
            && AllHeld(mem, l.lower, false)
  {
    hide Stored, Held, IsEnd, Linked, IsBuffer, Tiles, FirstScan;
    var mem, end := MarkRead(s.mem, s.readPtr), EndOf(l.upper, s.readPtr);
    TilesNext(l.upper, s.readPtr, end, 0);
    HeadIsFirst(s, l);
    StoredMark(s.mem, l.upper[0]);
    StoredIsHeld(mem, l.upper[0]);
    if |l.upper| > 1 {
      TilesNext(l.upper, s.readPtr, end, 1);
      TilesDrop(l.upper, s.readPtr, end, 1);
      AllHeldFrame(s.mem, mem, l.upper[1..], false, l.upper[1].ptr, end);
    }
    if l.lower == [] {
      AllHeldFrame(s.mem, mem, l.done, true, 0, EndOf(l.done, 0));
    } else {
      AllHeldFrame(s.mem, mem, l.lower, false, 0, s.writePtr);
    }
  }

  lemma MarkKeepsEnd(s: State, l: Layout, ptr: nat)
    requires Shape(s, l) && l.upper != []
    ensures IsEnd(MarkRead(s.mem, s.readPtr), ptr) == IsEnd(s.mem, ptr)
  {
    hide Geometry, Stored, Held, AllHeld, Linked, IsEnd, FirstScan;
    HeadIsFirst(s, l);
    MarkHead(s, l);
    if ptr == s.readPtr {
      StoredFields(s.mem, l.upper[0], false);
      StoredFields(MarkRead(s.mem, s.readPtr), l.upper[0], true);
    } else {
      IsEndFrame(s.mem, MarkRead(s.mem, s.readPtr), ptr);
    }
  }

  lemma NextAfterMark(s: State, l: Layout)
    requires Shape(s, l) && l.upper != []
    ensures NextMessage(MarkRead(s.mem, s.readPtr), s.readPtr) == NextMessage(s.mem, s.readPtr)
  {
    HeadIsFirst(s, l);
    MarkHead(s, l);
    StoredNext(s.mem, l.upper[0], false);
    StoredNext(MarkRead(s.mem, s.readPtr), l.upper[0], true);
    MarkKeepsEnd(s, l, EndPtr(l.upper[0]));
  }

  /** The read pointer moves on as long as something unread is left, or the write pointer is not at an END marker. */
  predicate Continues(s: State, l: Layout) {
    |l.Unread()| > 1 || s.writePtr == 0 || !IsEnd(s.mem, s.writePtr)
  }

  lemma TakePointers(s: State, l: Layout)
    requires Shape(s, l) && l.upper != [] && s.canComplete && Continues(s, l)
    ensures CompleteRead(s).0.readPtr == if |l.Unread()| > 1 then l.Unread()[1].ptr else s.writePtr
  {
    UnreadNext(s, l, 0);
    NextAfterMark(s, l);
    HeadIsFirst(s, l);
  }

  lemma TakeGeometryStraight(s: State, l: Layout)
    requires Shape(s, l) && l.upper != [] && l.lower == [] && s.canComplete && Continues(s, l)
    ensures Geometry(CompleteRead(s).0, AfterTake(l))
  {
    hide Stored, Held, AllHeld, Linked, IsEnd, NextMessage, MarkRead, Tiles, IsBuffer, FirstScan, Continues;
    TakePointers(s, l);
    var end := EndOf(l.upper, s.readPtr);
    TilesNext(l.upper, s.readPtr, end, 0);
    TilesDrop(l.upper, s.readPtr, end, 1);
    TilesAppend(l.done, 0, EndOf(l.done, 0), l.upper[0]);
    if |l.upper| > 1 {
      TilesNext(l.upper, s.readPtr, end, 1);
    } else {
      TilesNothing(s.writePtr);
    }
  }

  lemma TakeGeometryWrapped(s: State, l: Layout)
    requires Shape(s, l) && l.upper != [] && l.lower != [] && s.canComplete && Continues(s, l)
    ensures Geometry(CompleteRead(s).0, AfterTake(l))
  {
    hide Stored, Held, AllHeld, Linked, IsEnd, NextMessage, MarkRead, Tiles, IsBuffer, FirstScan, Continues;
    TakePointers(s, l);
    var end := EndOf(l.upper, s.readPtr);
    MarkKeepsEnd(s, l, end);
    TilesNext(l.upper, s.readPtr, end, 0);
    TilesDrop(l.upper, s.readPtr, end, 1);
    if |l.upper| == 1 {
      TilesNext(l.lower, 0, s.writePtr, 0);
      TilesNothing(0);
    } else {
      TilesNext(l.upper, s.readPtr, end, 1);
    }
  }

  lemma StoredAfterTake(s: State, l: Layout)
    requires Shape(s, l) && l.upper != []
    ensures var mem, l' := MarkRead(s.mem, s.readPtr), AfterTake(l);
            AllHeld(mem, l'.done, true) && AllHeld(mem, l'.upper, false) && AllHeld(mem, l'.lower, false)
  {
    hide Geometry, Stored, Held, Linked, MarkRead, IsBuffer, IsEnd, FirstScan;
    MarkHead(s, l);
  }

  lemma TakeKeepsLinks(l: Layout)
    requires l.upper != [] && Linked(l.Unread()) && (l.lower != [] ==> l.done == [])
    ensures Linked(AfterTake(l).Unread())
    ensures AfterTake(l).All() != [] && AfterTake(l).All()[|AfterTake(l).All()| - 1] == l.All()[|l.All()| - 1]
  {
    hide Linked;
    LinkedDrop(l.Unread(), 1);
    assert AfterTake(l).All() == if l.lower == [] then l.All() else l.All()[1..];
  }

  lemma TakeKeepsShape(s: State, l: Layout)
    requires Shape(s, l) && l.upper != [] && s.canComplete && Continues(s, l)
    ensures Shape(CompleteRead(s).0, AfterTake(l))
  {
    hide Geometry, Stored, Held, AllHeld, IsEnd, NextMessage, MarkRead, Tiles, Linked, FirstScan, IsBuffer;
    MarkKeepsEnd(s, l, s.writePtr);
    StoredAfterTake(s, l);
    if l.lower == [] {
      TakeGeometryStraight(s, l);
    } else {
      TakeGeometryWrapped(s, l);
      WrappedParts(s, l);
    }
    TakeKeepsLinks(l);
  }

  // ---------- draining ----------

  /**
   * Reading and completing until nothing is left hands out exactly `ms`, each from where it was stored,
   * and then reports the queue empty.
   */
  ghost predicate Delivers(s: State, ms: seq<Msg>)
    requires IsState(s)
    decreases |ms|
  {
    var (s1, head) := ReadHead(s);
    if ms == [] then head == Nothing
    else
      && s.readPtr == ms[0].ptr
      && head == Message(ms[0].payload)
      && Delivers(CompleteRead(s1).0, ms[1..])
  }

  lemma HeadOfShape(s: State, l: Layout)
    requires Shape(s, l) && l.upper != []
    ensures ReadHead(s) == if HeadVisible(s, l) then (s.(canComplete := true), Message(l.upper[0].payload))
                           else (s, Nothing)
  {
    HeadIsFirst(s, l);
    StoredFields(s.mem, l.upper[0], false);
    StoredValidity(s.mem, l.upper[0], false);
  }

  lemma ArmedShape(s: State, l: Layout, armed: bool)
    requires Shape(s, l) && (armed ==> l.upper != [])
    ensures Shape(s.(canComplete := armed), l)
    ensures Clean(s.(canComplete := armed), l) == Clean(s, l)
  {
    hide Tiles, Stored, Held, AllHeld, Linked, IsEnd, IsPending, MarkAll, IsBuffer, FirstScan;
  }

  lemma TakeKeepsCleanLanding(s: State, l: Layout)
    requires Shape(s, l) && l.upper != [] && s.canComplete && Continues(s, l)
    requires Shape(CompleteRead(s).0, AfterTake(l))
    ensures Clean(CompleteRead(s).0, AfterTake(l)) <==> (UnreadFits(s, l); CleanLanding(s, l))
  {
    hide Geometry, Stored, Held, IsEnd, AllHeld, Linked, MarkRead, NextMessage, IsPending, IsBuffer, FirstScan;
    var s', l' := CompleteRead(s).0, AfterTake(l);
    UnreadFits(s, l);
    UnreadFits(s', l');
    MarkKeepsEnd(s, l, s.writePtr);
    HeadIsFirst(s, l);
    assert MarkAll(s.mem, l.Unread()) == MarkAll(s'.mem, l'.Unread());
    NotFullAfterTake(s, l);
  }

  lemma NotFullAfterTake(s: State, l: Layout)
    requires Shape(s, l) && l.upper != [] && s.canComplete && Continues(s, l)
    requires Shape(CompleteRead(s).0, AfterTake(l))
    ensures HeadVisible(CompleteRead(s).0, AfterTake(l))
  {
    hide Stored, Held, IsEnd, AllHeld, Linked, MarkRead, NextMessage, IsBuffer, Tiles, FirstScan;
    var s', l' := CompleteRead(s).0, AfterTake(l);
    TakePointers(s, l);
    TilesNext(l.upper, s.readPtr, EndOf(l.upper, s.readPtr), 0);
    if |l.upper| > 1 {
      TilesNext(l.upper, s.readPtr, EndOf(l.upper, s.readPtr), 1);
    }
    if l.lower != [] {
      TilesNext(l.lower, 0, s.writePtr, 0);
    }
    if l'.upper != [] {
      TilesNext(l'.upper, s'.readPtr, EndOf(l'.upper, s'.readPtr), 0);
    }
  }

  lemma EmptyIffClean(s: State, l: Layout)
    requires Shape(s, l) && l.Unread() == []
    ensures Delivers(s, []) <==> Clean(s, l)
  {
    hide Tiles, Stored, Held, AllHeld, Linked, NextMessage, MarkRead, FirstScan;
    assert l.upper == [] && l.lower == [];
    assert s.readPtr == s.writePtr;
    assert MarkAll(s.mem, l.Unread()) == s.mem;
  }

  /** Where the last write landed decides whether the queue drains to what it should. */
  lemma {:induction false} DrainsIffClean(s: State, l: Layout)
    requires Shape(s, l)
    ensures Delivers(s, l.Unread()) <==> Clean(s, l)
    decreases |l.Unread()|
  {
    hide Geometry, Stored, Held, IsEnd, NextMessage, MarkRead, Tiles, IsBuffer, AllHeld, Linked, FirstScan;
    var u := l.Unread();
    UnreadFits(s, l);
    if l.lower != [] {
      WrappedParts(s, l);
    }
    if u == [] {
      EmptyIffClean(s, l);
    } else {
      HeadIsFirst(s, l);
      HeadOfShape(s, l);
      if HeadVisible(s, l) {
        var s1 := s.(canComplete := true);
        ArmedShape(s, l, true);
        var s' := CompleteRead(s1).0;
        if Continues(s, l) {
          TakeKeepsShape(s1, l);
          TakeKeepsCleanLanding(s1, l);
          DrainsIffClean(s', AfterTake(l));
        } else {
          StuckAtMarker(s1, l);
        }
      }
    }
  }

  /** With an END marker at the write pointer the last read jumps to word 0, past the empty state. */
  lemma StuckAtMarker(s: State, l: Layout)
    requires Shape(s, l) && l.upper != [] && s.canComplete && !Continues(s, l)
    ensures !Delivers(CompleteRead(s).0, [])
  {
    hide Geometry, Stored, Held, AllHeld, Linked, FirstScan, NextMessage, MarkRead;
    HeadIsFirst(s, l);
    UnreadNext(s, l, 0);
    NextAfterMark(s, l);
  }
}
