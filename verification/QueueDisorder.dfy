/** What is read after a write that keeps the order of a list from being kept. */
module QueueDisorder {
  import opened Bytes
  import opened QueueFormat
  import opened QueueSteps
  import opened QueueLayout
  import opened QueueWriting

  /** What reading hands out from a message stored at the read pointer: the message, unless it cannot be seen. */
  lemma ReadStored(s: State, m: Msg)
    requires IsState(s) && Stored(s.mem, m, false) && m.ptr == s.readPtr
    ensures ReadHead(s).1 == if s.readPtr == s.writePtr && IsFlush(m, |s.mem|) then Nothing else Message(m.payload)
  {
    hide Stored, IsValid;
    StoredFields(s.mem, m, false);
    StoredValidity(s.mem, m, false);
  }

  /**
   * Into a full queue, or wrapping with the oldest message in word 0: the new message is handed out first, and the
   * permission to complete stays.
   */
  lemma NewComesFirst(s: State, l: Layout, payload: seq<byte>)
    requires Shape(s, l) && Accepts(s, payload)
    requires s.readPtr == s.writePtr || (s.readPtr == 0 && s.writePtr + MsgWords(payload) > |s.mem| / 4)
    ensures var s', at := Written(s, payload), if s.writePtr + MsgWords(payload) > |s.mem| / 4 then 0 else s.writePtr;
            && s'.readPtr == at && s'.canComplete == s.canComplete
            && ReadHead(s').1 ==
               if s'.writePtr == at && 4 * at + 12 + |payload| == |s.mem| then Nothing else Message(payload)
  {
    hide Image, Splice, Advance, Stored, Held, AllHeld, Linked, FirstScan, Geometry, IsEnd;
    WrittenMessage(s, payload);
    ReadStored(Written(s, payload), NewMsg(s, payload));
  }

  /** The messages before the wrap lie at the end of the buffer; the marker that a second wrap stores misses them. */
  lemma UpperKept(s: State, l: Layout, payload: seq<byte>, i: nat)
    requires Shape(s, l) && Accepts(s, payload) && Wraps(s, payload) && s.writePtr < s.readPtr && i < |l.upper|
    requires TargetEnd(s, payload) <= l.upper[i].ptr
    ensures Stored(Written(s, payload).mem, l.upper[i], false)
  {
    hide Image, Splice, Advance, Stored, Linked, FirstScan, IsEnd, Tiles, MsgWords, Held;
    var end, m := EndOf(l.upper, s.readPtr), l.upper[i];
    TilesNext(l.upper, s.readPtr, end, i);
    assert Held(s.mem, m, false);
    HeldIsStored(s.mem, m);
    MessageElsewhere(s, payload, m);
  }

  lemma HeldIsStored(mem: seq<byte>, m: Msg)
    ensures Held(mem, m, false) == Stored(mem, m, false)
  {
  }

  lemma MessageElsewhere(s: State, payload: seq<byte>, m: Msg)
    requires IsState(s) && Accepts(s, payload) && Stored(s.mem, m, false)
    requires TargetEnd(s, payload) <= m.ptr && s.writePtr < m.ptr
    ensures Stored(Written(s, payload).mem, m, false)
  {
    hide Image, Advance;
    StoredFrame(s.mem, Written(s, payload).mem, m, false);
  }

  /**
   * A wrap from a state that is wrapped already, by a message that ends before the read pointer: the oldest unread
   * message is handed out as if nothing had been written, and the permission to complete it stays.
   */
  lemma SecondWrapBelowHead(s: State, l: Layout, payload: seq<byte>)
    requires Shape(s, l) && Accepts(s, payload)
    requires s.writePtr < s.readPtr && s.writePtr + MsgWords(payload) > |s.mem| / 4
    requires MsgWords(payload) <= s.readPtr
    ensures l.upper != [] && l.Unread()[0] == l.upper[0]
    ensures var s' := Written(s, payload);
            && s'.readPtr == s.readPtr && s'.canComplete == s.canComplete
            && Stored(s'.mem, l.Unread()[0], false)
            && ReadHead(s').1 ==
               if MsgWords(payload) == s.readPtr && IsFlush(l.Unread()[0], |s.mem|) then Nothing
               else Message(l.Unread()[0].payload)
  {
    hide Image, Splice, Advance, Stored, Held, AllHeld, Linked, FirstScan, IsEnd, Tiles, MsgWords, IsFlush;
    HasHead(s, l);
    UpperKept(s, l, payload, 0);
    WrittenMessage(s, payload);
    ReadStored(Written(s, payload), l.upper[0]);
  }

  lemma HasHead(s: State, l: Layout)
    requires Shape(s, l) && s.readPtr != s.writePtr
    ensures l.upper != [] && l.upper[0].ptr == s.readPtr && l.Unread()[0] == l.upper[0]
  {
  }

  /**
   * A wrap from a state that is wrapped already, by a message that covers the read pointer: the first message before the
   * wrap that starts behind the new one is handed out, or the new one in word 0 if there is none; and the permission to
   * complete is gone.
   */
  lemma SecondWrapOverHead(s: State, l: Layout, payload: seq<byte>) returns (k: nat)
    requires Shape(s, l) && Accepts(s, payload)
    requires s.writePtr < s.readPtr && s.writePtr + MsgWords(payload) > |s.mem| / 4
    requires MsgWords(payload) > s.readPtr
    ensures 0 < k <= |l.upper|
    ensures forall i :: 0 <= i < |l.upper| ==> (l.upper[i].ptr < MsgWords(payload) <==> i < k)
    ensures var s', head := Written(s, payload), if k < |l.upper| then l.upper[k] else NewMsg(s, payload);
            && (k == |l.upper| ==> head.ptr == 0 && head.payload == payload)
            && s'.readPtr == head.ptr && !s'.canComplete
            && Stored(s'.mem, head, false)
            && ReadHead(s').1 ==
               if s'.writePtr == head.ptr && IsFlush(head, |s.mem|) then Nothing else Message(head.payload)
  {
    hide Image, Splice, Advance, Stored, Held, AllHeld, Linked, FirstScan, IsEnd, Tiles, MsgWords, IsFlush, DropCount;
    var end := EndOf(l.upper, s.readPtr);
    k := DropCount(l.upper, MsgWords(payload));
    HasHead(s, l);
    forall i | 0 <= i < |l.upper|
      ensures l.upper[i].ptr < MsgWords(payload) <==> i < k
    {
      DropSplits(l.upper, s.readPtr, end, MsgWords(payload), i);
    }
    EndAfterUpper(s, l);
    MessagesUntouched(s, payload, l.upper, false, s.readPtr, end);
    MarkerKeepsEnd(s, payload, end);
    AdvanceDrops(WithMarker(s, payload), l.upper, s.readPtr, end, MsgWords(payload));
    WrittenMessage(s, payload);
    if k < |l.upper| {
      UpperKept(s, l, payload, k);
      ReadStored(Written(s, payload), l.upper[k]);
    } else {
      ReadStored(Written(s, payload), NewMsg(s, payload));
    }
  }

  lemma EndAfterUpper(s: State, l: Layout)
    requires Shape(s, l) && s.writePtr < s.readPtr
    ensures var end := EndOf(l.upper, s.readPtr);
            && Tiles(l.upper, s.readPtr, end) && s.readPtr < end <= WordCount(s.mem)
            && (end == WordCount(s.mem) || IsEnd(s.mem, end))
  {
    hide Stored, Held, AllHeld, Linked, FirstScan, IsEnd, Tiles;
    HasHead(s, l);
    TilesNext(l.upper, s.readPtr, EndOf(l.upper, s.readPtr), 0);
  }
}
