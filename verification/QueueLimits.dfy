/** Inputs on which the queue departs from a list that drops its oldest messages, and files it cannot start from. */
module QueueLimits {
  import opened Bytes
  import opened QueueFormat
  import opened QueueSteps
  import opened QueueLayout
  import opened QueueReading
  import opened QueueWriting
  import opened QueueRestart
  import opened QueueFifo
  import opened QueueLaps

  // ---------- reaching the states ----------

  lemma Start(length: nat) returns (s: State, l: Layout)
    requires IsBuffer(Zeros(length))
    ensures s == Fresh(length) && l == EMPTY && FirstLap(s, l) && Reachable(s, l)
  {
    FreshIsGood(length);
    s, l := Fresh(length), EMPTY;
    assert Leads(length, [], s, l);
  }

  lemma AddFirst(s: State, l: Layout, payload: seq<byte>) returns (s': State, l': Layout)
    requires FirstLap(s, l) && Reachable(s, l) && Accepts(s, payload)
    requires var end := EndOf(Lap(l), 0) + MsgWords(payload);
             end <= WordCount(s.mem) && !(end == WordCount(s.mem) && |payload| % 4 == 0)
    ensures FirstLap(s', l') && Reachable(s', l') && |s'.mem| == |s.mem|
    ensures s.writePtr == EndOf(Lap(l), 0) && l' == Layout(l.done, l.upper + [Msg(s.writePtr, payload, s.prevPtr)], [])
    ensures s'.readPtr == s.readPtr && s'.prevPtr == s.writePtr && s'.canComplete == s.canComplete
    ensures s'.writePtr == WrapEnd(s.writePtr + MsgWords(payload), WordCount(s.mem))
  {
    hide FirstLap, Good, Reachable, Legal, Disarms, Image, Advance, IsEnd, Splice;
    FirstLapGood(s, l);
    GoodIsState(s, l);
    FirstLapTarget(s, l, payload);
    FirstLapWrite(s, l, payload);
    WrittenMessage(s, payload);
    ReachableStep(s, l, Write(payload));
    s', l' := Written(s, payload), AfterWrite(s, l, payload);
  }

  lemma AddMore(s: State, l: Layout, payload: seq<byte>)
    requires Good(s, l) && Reachable(s, l) && Accepts(s, payload) && !s.canComplete
    requires Orderly(s, l, payload) && LandsClean(s, l, payload)
    ensures Good(Written(s, payload), AfterWrite(s, l, payload)) && Reachable(Written(s, payload), AfterWrite(s, l, payload))
  {
    hide Good, Reachable, Orderly, LandsClean, Legal, Written, AfterWrite, Dropped;
    LegalByOneWord(s, l, payload);
    StepKeepsGood(s, l, Write(payload));
    ReachableStep(s, l, Write(payload));
  }

  lemma Take(s: State, l: Layout) returns (s': State)
    requires Good(s, l) && Reachable(s, l) && l.upper != []
    ensures Good(s', AfterTake(l)) && Reachable(s', AfterTake(l))
    ensures |s'.mem| == |s.mem| && s'.writePtr == s.writePtr && s'.prevPtr == s.prevPtr && !s'.canComplete
    ensures s'.readPtr == if |l.Unread()| > 1 then l.Unread()[1].ptr else s.writePtr
  {
    hide Good, Shape, Reachable, MarkRead, NextMessage, AfterTake;
    StepKeepsGood(s, l, Peek);
    ReachableStep(s, l, Peek);
    PeekFacts(s, l);
    HasUnread(l);
    var s1 := Perform(s, l, Peek).state;
    StepKeepsGood(s1, l, Complete);
    ReachableStep(s1, l, Complete);
    CleanContinues(s1, l);
    GoodIsShape(s1, l);
    TakePointers(s1, l);
    CompleteFacts(s1);
    s' := Perform(s1, l, Complete).state;
  }

  lemma HasUnread(l: Layout)
    requires l.upper != []
    ensures l.Unread() != []
  {
  }

  lemma GoodIsShape(s: State, l: Layout)
    requires Good(s, l)
    ensures Shape(s, l)
  {
  }

  lemma TwoMessages(length: nat, a: seq<byte>, b: seq<byte>) returns (s: State, l: Layout)
    requires length % 4 == 0 && 0 < |a| <= 24 && 0 < |b| < 4
    requires 4 * (MsgWords(a) + MsgWords(b)) <= length <= 64
    ensures Good(s, l) && Reachable(s, l) && |s.mem| == length && s.readPtr == 0 && !s.canComplete
    ensures s.prevPtr == MsgWords(a) && s.writePtr == WrapEnd(MsgWords(a) + MsgWords(b), length / 4)
    ensures l == Layout([], [Msg(0, a, 0), Msg(MsgWords(a), b, 0)], [])
  {
    hide FirstLap, Good, Reachable, Image;
    var s0, l0 := Start(length);
    var s1, l1 := AddFirst(s0, l0, a);
    s, l := AddFirst(s1, l1, b);
    FirstLapGood(s, l);
  }

  lemma BytesUntouched(s: State, payload: seq<byte>, from: nat, to: nat)
    requires IsState(s) && Accepts(s, payload) && 4 * TargetEnd(s, payload) <= from <= to <= |s.mem|
    requires Wraps(s, payload) ==> to <= 4 * s.writePtr || 4 * s.writePtr + 4 <= from
    ensures Written(s, payload).mem[from..to] == s.mem[from..to]
  {
    hide Image, Advance;
  }

  // ---------- writes that go wrong ----------

  /** A full queue: the write that finds read and write pointer equal makes its own message the head. */
  lemma FullQueueReorders()
    ensures exists s: State, l: Layout ::
              Good(s, l) && Reachable(s, l) && s.readPtr == s.writePtr && Accepts(s, [3]) && !Legal(s, l, [3])
              && Payloads(l.Unread()) == [[1], [2]] && ReadHead(Written(s, [3])).1 == Message([3])
  {
    hide Image, IsEnd, Clean, Shape, Reachable;
    var s, l := TwoMessages(32, [1], [2]);
    GoodIsState(s, l);
    assert Accepts(s, [3]);
    assert !Covers(s, [3], l.Unread()[1].ptr);
    assert Payloads(l.Unread()) == [[1], [2]];
    WrittenMessage(s, [3]);
    StoredFields(Written(s, [3]).mem, NewMsg(s, [3]), false);
  }

  lemma GoodIsState(s: State, l: Layout)
    requires Good(s, l)
    ensures IsState(s)
  {
  }

  /** A wrap while the oldest unread message lies in word 0: the read pointer stays there, at the new message. */
  lemma WrapOntoWordZeroReorders()
    ensures exists s: State, l: Layout ::
              Good(s, l) && Reachable(s, l) && Wraps(s, [3]) && s.readPtr == 0 && Accepts(s, [3]) && !Legal(s, l, [3])
              && Payloads(l.Unread()) == [[1], [2]] && ReadHead(Written(s, [3])).1 == Message([3])
  {
    hide Image, IsEnd, Clean, Shape, Reachable;
    var s, l := TwoMessages(44, [1], [2]);
    GoodIsState(s, l);
    assert Accepts(s, [3]) && Wraps(s, [3]);
    assert !Covers(s, [3], l.Unread()[1].ptr);
    assert Payloads(l.Unread()) == [[1], [2]];
    WrittenMessage(s, [3]);
    StoredFields(Written(s, [3]).mem, NewMsg(s, [3]), false);
  }

  const LONG: seq<byte> := Zeros(24)
  const MIDDLE: seq<byte> := Zeros(12)

  /** Two long messages with a short one between them; the first is read, and the other two lie around the end. */
  lemma WrappedState() returns (s: State, l: Layout)
    ensures Good(s, l) && Reachable(s, l) && |s.mem| == 56 && s.readPtr == 9 && s.writePtr == 6
    ensures l == Layout([], [Msg(9, [2], 0)], [Msg(0, MIDDLE, 9)])
  {
    hide Good, Reachable, Image, LandsClean, AfterTake, Zeros;
    var s2, l2 := TwoMessages(56, LONG, [2]);
    var s3 := Take(s2, l2);
    var l3 := AfterTake(l2);
    assert l3 == Layout([Msg(0, LONG, 0)], [Msg(9, [2], 0)], []) by { TakenFirst(l2); }
    GoodIsState(s3, l3);
    LandsInLong(s3, l3);
    AddMore(s3, l3, MIDDLE);
    WrittenMessage(s3, MIDDLE);
    s, l := Written(s3, MIDDLE), AfterWrite(s3, l3, MIDDLE);
  }

  lemma TakenFirst(l: Layout)
    requires l.lower == [] && |l.upper| == 2
    ensures AfterTake(l) == Layout(l.done + [l.upper[0]], [l.upper[1]], [])
  {
  }

  lemma LandsInLong(s: State, l: Layout)
    requires Good(s, l) && |s.mem| == 56 && s.writePtr == 13 && s.readPtr == 9
    requires l == Layout([Msg(0, LONG, 0)], [Msg(9, [2], 0)], [])
    ensures LandsClean(s, l, MIDDLE)
  {
    hide Image, Stored, Held, Linked, IsEnd, FirstScan, Clean, Tiles, Zeros;
    var marked := WithMarker(s, MIDDLE);
    assert Held(s.mem, l.done[0], true);
    LongBytes(s.mem, l.done[0]);
    assert marked[24] == s.mem[24];
    assert LooksDead(marked, 6);
  }

  lemma LongBytes(mem: seq<byte>, m: Msg)
    requires Held(mem, m, true) && m == Msg(0, LONG, 0)
    ensures |mem| > 24 && mem[24] == 0
  {
    hide IsValid;
    assert Payload(mem, 0)[12] == mem[24];
  }

  /** A second wrap from a state that is wrapped already: the newer message is covered, the older one stays. */
  lemma SecondWrapLosesNewer()
    ensures exists s: State, l: Layout ::
              && Good(s, l) && Reachable(s, l) && Wraps(s, LONG) && s.writePtr < s.readPtr
              && Accepts(s, LONG) && !Legal(s, l, LONG)
              && Payloads(l.Unread()) == [[2], MIDDLE]
              && !Covers(s, LONG, l.Unread()[0].ptr) && Covers(s, LONG, l.Unread()[1].ptr)
              && ReadHead(Written(s, LONG)).1 == Message([2])
  {
    hide Image, IsEnd, Clean, Reachable, Linked, FirstScan, Stored, Zeros, Advance, Tiles;
    var s, l := WrappedState();
    GoodIsState(s, l);
    assert Accepts(s, LONG) && Wraps(s, LONG);
    assert !Covers(s, LONG, l.Unread()[0].ptr);
    assert Payloads(l.Unread()) == [[2], MIDDLE];
    StillThere(s, l);
  }

  lemma StillThere(s: State, l: Layout)
    requires Good(s, l) && |s.mem| == 56 && s.readPtr == 9 && s.writePtr == 6
    requires l == Layout([], [Msg(9, [2], 0)], [Msg(0, MIDDLE, 9)])
    ensures IsState(s) && Accepts(s, LONG) && ReadHead(Written(s, LONG)).1 == Message([2])
  {
    hide Image, IsEnd, Clean, Linked, FirstScan, Stored, Held, AllHeld, Zeros, Tiles, NextMessage, Splice, Geometry, Advance;
    assert |LONG| == 24;
    HeadIsFirst(s, l);
    var m := l.upper[0];
    BytesUntouched(s, LONG, 36, 52);
    SameSliceStored(s.mem, Written(s, LONG).mem, m);
    StoredFields(Written(s, LONG).mem, m, false);
    WrittenMessage(s, LONG);
  }

  lemma SameSliceStored(mem: seq<byte>, mem': seq<byte>, m: Msg)
    requires Stored(mem, m, false) && |mem'| == |mem|
    requires mem'[4 * m.ptr..4 * EndPtr(m)] == mem[4 * m.ptr..4 * EndPtr(m)]
    ensures Stored(mem', m, false)
  {
    hide Image;
  }

  /** Two messages, both read. */
  lemma BothRead() returns (s: State, l: Layout)
    ensures Good(s, l) && Reachable(s, l) && |s.mem| == 44 && s.writePtr == 8 && s.readPtr == 8 && s.prevPtr == 4
    ensures l == Layout([Msg(0, [1], 0), Msg(4, [2], 0)], [], []) && !s.canComplete
  {
    hide Good, Reachable, Image;
    var s2, l2 := TwoMessages(44, [1], [2]);
    var s3 := Take(s2, l2);
    s := Take(s3, AfterTake(l2));
    l := AfterTake(AfterTake(l2));
  }

  /** A queue that has been read empty just before the end of the buffer wraps, and leaves its marker behind. */
  lemma WrappedOnce() returns (s: State, l: Layout)
    ensures Good(s, l) && Reachable(s, l) && |s.mem| == 44 && IsEnd(s.mem, 8)
    ensures s.readPtr == 0 && s.writePtr == 4
    ensures l == Layout([], [Msg(0, [3], 4)], [])
  {
    hide Image, Good, Reachable, IsEnd, LooksDead, LandsClean;
    var s4, l4 := BothRead();
    GoodIsState(s4, l4);
    LandsOnRead(s4, l4);
    AddMore(s4, l4, [3]);
    MarkerStored(s4, [3]);
    WrittenMessage(s4, [3]);
    s, l := Written(s4, [3]), AfterWrite(s4, l4, [3]);
  }

  lemma LandsOnRead(s: State, l: Layout)
    requires Good(s, l) && |s.mem| == 44 && s.writePtr == 8 && s.readPtr == 8
    requires l == Layout([Msg(0, [1], 0), Msg(4, [2], 0)], [], [])
    ensures LandsClean(s, l, [3])
  {
    hide Image, Stored, Linked, IsEnd, FirstScan, Clean, Tiles;
    assert Held(s.mem, l.done[1], true);
    assert WithMarker(s, [3])[16..20] == s.mem[16..20];
    assert WithMarker(s, [3])[19] == s.mem[16..20][3];
  }

  /**
   * A write that ends just where an old END marker lies: it is orderly, and still what the queue then delivers is
   * not the list's, because after its message the reader follows the marker.
   */
  lemma StaleMarkerMisleads()
    ensures exists s: State, l: Layout ::
              && Good(s, l) && Reachable(s, l) && Accepts(s, [4]) && Orderly(s, l, [4])
              && IsEnd(Written(s, [4]).mem, Written(s, [4]).writePtr)
              && !exists k: nat :: CoversOldest(s, l, [4], k)
                   && Delivers(Written(s, [4]), l.Unread()[k..] + [NewMsg(s, [4])])
  {
    hide Image, Delivers, Reachable;
    var s, l := WrappedOnce();
    assert Accepts(s, [4]) && Orderly(s, l, [4]);
    WrittenMessage(s, [4]);
    EndUntouched(s, [4], 8);
    WriteIsFifoIffLegal(s, l, [4]);
    assert Written(s, [4]).writePtr == 8;
  }

  /** A payload that holds the image of an unread message. */
  const MIMIC: seq<byte> := Zeros(4) + Image([7], 0, false)

  lemma MimicRead() returns (s: State, l: Layout)
    ensures Good(s, l) && Reachable(s, l) && |s.mem| == 44 && s.writePtr == 8 && s.readPtr == 8
    ensures l == Layout([Msg(0, MIMIC, 0)], [], []) && !s.canComplete
  {
    hide FirstLap, Good, Reachable, Image, Zeros;
    var s0, l0 := Start(44);
    assert |MIMIC| == 20;
    var s1, l1 := AddFirst(s0, l0, MIMIC);
    FirstLapGood(s1, l1);
    s := Take(s1, l1);
    l := AfterTake(l1);
    assert [] + [l1.upper[0]] == [l1.upper[0]] && l1.upper[1..] == [];
  }

  lemma MimicBytes(mem: seq<byte>, m: Msg)
    requires Held(mem, m, true) && m == Msg(0, MIMIC, 0)
    ensures |mem| >= 32 && mem[16..32] == Image([7], 0, false)
  {
    hide Image, Crc8.Checksum, IsValid;
    assert |MIMIC| == 20;
    assert mem[12..32] == MIMIC;
    assert mem[16..32] == mem[12..32][4..20] == MIMIC[4..20];
  }

  lemma MimicSurvives(s: State, l: Layout)
    requires Good(s, l) && |s.mem| == 44 && s.writePtr == 8 && s.readPtr == 8
    requires l == Layout([Msg(0, MIMIC, 0)], [], [])
    ensures IsState(s) && Accepts(s, [3]) && Written(s, [3]).writePtr == 4
    ensures Stored(Written(s, [3]).mem, Msg(4, [7], 0), false)
  {
    hide Image, Linked, IsEnd, FirstScan, Clean, Tiles, Zeros, Advance, Splice, Held;
    assert Held(s.mem, l.done[0], true);
    MimicBytes(s.mem, l.done[0]);
    BytesUntouched(s, [3], 16, 32);
    WrittenMessage(s, [3]);
  }

  /** A write that ends where bytes of an old payload look like an unread message: that is delivered too. */
  lemma StaleBytesAreDelivered()
    ensures exists s: State, l: Layout ::
              && Good(s, l) && Reachable(s, l) && Accepts(s, [3]) && Orderly(s, l, [3])
              && IsPending(Written(s, [3]).mem, Written(s, [3]).writePtr)
              && !IsEnd(Written(s, [3]).mem, Written(s, [3]).writePtr)
              && !exists k: nat :: CoversOldest(s, l, [3], k)
                   && Delivers(Written(s, [3]), l.Unread()[k..] + [NewMsg(s, [3])])
  {
    hide Image, Delivers, Reachable, Shape, Stored, IsEnd, IsValid, Written;
    var s, l := MimicRead();
    MimicSurvives(s, l);
    var s' := Written(s, [3]);
    StoredFields(s'.mem, Msg(4, [7], 0), false);
    StoredValidity(s'.mem, Msg(4, [7], 0), false);
    MimicIsPending(s, l);
    WriteIsFifoIffLegal(s, l, [3]);
  }

  lemma MimicIsPending(s: State, l: Layout)
    requires Good(s, l) && |s.mem| == 44 && s.writePtr == 8 && s.readPtr == 8
    requires l == Layout([Msg(0, MIMIC, 0)], [], [])
    ensures IsState(s) && Accepts(s, [3]) && !Legal(s, l, [3])
  {
    hide Image, Linked, IsEnd, FirstScan, Tiles, Zeros, Advance, IsValid, Stored, Held, AllHeld, Geometry;
    MimicSurvives(s, l);
    var s', l', m := Written(s, [3]), AfterWrite(s, l, [3]), Msg(4, [7], 0);
    assert l'.Unread() == [NewMsg(s, [3])];
    var mem := MarkRead(s'.mem, 0);
    MarkedOnce(s'.mem, NewMsg(s, [3]));
    StoredFrame(s'.mem, mem, m, false);
    StoredValidity(mem, m, false);
  }

  lemma MarkedOnce(mem: seq<byte>, m: Msg)
    requires 4 * m.ptr + 4 <= |mem|
    ensures MarkAll(mem, [m]) == MarkRead(mem, m.ptr)
  {
    assert [m][1..] == [];
  }

  lemma HandedOut() returns (s: State, l: Layout)
    ensures Good(s, l) && Reachable(s, l) && |s.mem| == 16 && s.readPtr == 0 && s.writePtr == 0 && s.canComplete
    ensures l == Layout([], [Msg(0, [1], 0)], []) && ReadHead(s).1 == Message([1])
  {
    hide FirstLap, Good, Reachable, Image;
    var s0, l0 := Start(16);
    var s1, l1 := AddFirst(s0, l0, [1]);
    assert [] + [Msg(0, [1], 0)] == [Msg(0, [1], 0)];
    FirstLapGood(s1, l1);
    PeekFacts(s1, l1);
    StepKeepsGood(s1, l1, Peek);
    ReachableStep(s1, l1, Peek);
    s, l := ReadHead(s1).0, l1;
    PeekFacts(s, l);
  }

  /** In a full queue of one message that has been handed out, a write replaces it and completing stays permitted. */
  lemma PermissionOutlivesMessage()
    ensures exists s: State, l: Layout ::
              && Good(s, l) && Reachable(s, l) && Accepts(s, [2]) && Legal(s, l, [2]) && !Disarms(s, l, [2])
              && s.canComplete && ReadHead(s).1 == Message([1]) && Dropped(s, l, [2]) == 1
              && CompleteRead(Written(s, [2])).1 && Payloads(AfterWrite(s, l, [2]).Unread()) == [[2]]
  {
    hide Good, Reachable, Image, IsEnd, Advance, Legal, Splice;
    var s, l := HandedOut();
    GoodIsState(s, l);
    assert l.Unread() == [Msg(0, [1], 0)];
    assert AllCovered(s, l, [2]) && Accepts(s, [2]);
    LegalByOneWord(s, l, [2]);
    CompleteFacts(Written(s, [2]));
    assert Payloads(AfterWrite(s, l, [2]).Unread()) == [[2]];
  }

  /** A message that fills the buffer to the last byte is stored and never seen again. */
  lemma FlushMessageIsLost(payload: seq<byte>)
    requires |payload| == 4
    ensures IsState(Fresh(16)) && Accepts(Fresh(16), payload)
    ensures Stored(Written(Fresh(16), payload).mem, Msg(0, payload, 0), false)
    ensures ReadHead(Written(Fresh(16), payload)) == (Written(Fresh(16), payload), Nothing)
  {
    hide Image;
    var s := Fresh(16);
    WrittenMessage(s, payload);
    StoredValidity(Written(s, payload).mem, NewMsg(s, payload), false);
  }

  // ---------- restarts that go wrong ----------

  const NINES: seq<byte> := [9, 9, 9, 9]

  lemma FlushBehindOther() returns (s: State, l: Layout)
    ensures Good(s, l) && Reachable(s, l) && |s.mem| == 32 && s.writePtr == 0
    ensures l == Layout([], [Msg(0, [1], 0), Msg(4, NINES, 0)], [])
  {
    hide FirstLap, Good, Reachable, Image, LandsClean, Advance;
    var s0, l0 := Start(32);
    var s1, l1 := AddFirst(s0, l0, [1]);
    FirstLapGood(s1, l1);
    GoodIsState(s1, l1);
    LandsOnHead(s1, l1, NINES);
    AddMore(s1, l1, NINES);
    WrittenMessage(s1, NINES);
    s, l := Written(s1, NINES), AfterWrite(s1, l1, NINES);
  }

  /** A message that ends on the buffer's last byte behind another one is lost at the next restart. */
  lemma RestartLosesFlushMessage()
    ensures exists s: State, l: Layout ::
              && Good(s, l) && Reachable(s, l) && RestartClear(s, l) && !FlushFromZero(s, l)
              && Payloads(l.Unread()) == [[1], [9, 9, 9, 9]] && !RestartKeeps(s.mem, l.Unread())
  {
    hide Good, Reachable, RestartKeeps, Recoverable, RestartClear;
    var s, l := FlushBehindOther();
    assert l.All()[1] == Msg(4, NINES, 0);
    assert IsFlush(l.All()[1], |s.mem|);
    assert Payloads(l.Unread()) == [[1], NINES];
    FlushIsNotRecovered(s, l);
  }

  lemma LandsOnHead(s: State, l: Layout, payload: seq<byte>)
    requires IsState(s) && |s.mem| == 32 && s.readPtr == 0 && s.writePtr == 4 && payload == [9, 9, 9, 9]
    requires l == Layout([], [Msg(0, [1], 0)], [])
    ensures Accepts(s, payload) && Orderly(s, l, payload) && LandsClean(s, l, payload)
  {
    hide LooksDead;
    assert l.Unread()[0].ptr == 0;
  }

  lemma FlushIsNotRecovered(s: State, l: Layout)
    requires Good(s, l) && l.upper != [] && s.writePtr == 0 && !FlushFromZero(s, l)
    ensures RestartClear(s, l) && !RestartKeeps(s.mem, l.Unread())
  {
    hide Shape, Clean, RestartKeeps, FlushFromZero;
    RestartKeepsListIff(s, l);
  }

  /** A full queue whose oldest message is not in word 0: after a restart the newest message comes first. */
  lemma RestartReordersFullQueue()
    ensures exists s: State, l: Layout ::
              && Good(s, l) && Reachable(s, l) && s.readPtr == s.writePtr != 0 && FlushFromZero(s, l)
              && !RestartClear(s, l) && Payloads(l.Unread()) == [[2], [3]] && !RestartKeeps(s.mem, l.Unread())
  {
    hide Good, Reachable, Image, LandsClean, IsEnd, Advance, RestartKeeps, RestartClear;
    var s2, l2 := TwoMessages(44, [1], [2]);
    var s3 := Take(s2, l2);
    var l3 := AfterTake(l2);
    TakenFirst(l2);
    GoodIsState(s3, l3);
    LandsOnFull(s3, l3);
    AddMore(s3, l3, [3]);
    WrittenMessage(s3, [3]);
    var s, l := Written(s3, [3]), AfterWrite(s3, l3, [3]);
    assert l == Layout([], [Msg(4, [2], 0)], [Msg(0, [3], 4)]);
    assert l.Unread() == [Msg(4, [2], 0), Msg(0, [3], 4)] == l.All();
    assert Payloads(l.Unread()) == [[2], [3]];
    FullIsNotRecovered(s, l);
  }

  lemma LandsOnFull(s: State, l: Layout)
    requires IsState(s) && |s.mem| == 44 && s.readPtr == 4 && s.writePtr == 8
    requires l == Layout([Msg(0, [1], 0)], [Msg(4, [2], 0)], [])
    ensures Accepts(s, [3]) && Orderly(s, l, [3]) && LandsClean(s, l, [3])
  {
    hide LooksDead;
    assert l.Unread()[0].ptr == 4;
  }

  lemma FullIsNotRecovered(s: State, l: Layout)
    requires Good(s, l) && l.upper != [] && s.readPtr == s.writePtr != 0
    ensures !RestartClear(s, l) && !RestartKeeps(s.mem, l.Unread())
  {
    hide RestartKeeps, Geometry, Held, Stored, AllHeld, Linked, FirstScan, IsEnd, IsValid, MarkAll;
    HeadIsFirst(s, l);
    StoredValidity(s.mem, l.upper[0], false);
    RestartKeepsListIff(s, l);
  }

  // ---------- a file that start of day never gets past ----------

  /** An unread message in word 0 whose back-link leads to two unread messages that name each other. */
  lemma CircularLinksHang(mem: seq<byte>, a: nat, b: nat, hops: nat)
    requires IsPending(mem, a) && IsPending(mem, b) && a != b && a != 0 && b != 0
    requires PrevHeader(mem, a) == b && PrevHeader(mem, b) == a
    ensures Walk(mem, a, hops).Hangs?
    decreases hops
  {
    if hops > 0 {
      CircularLinksHang(mem, b, a, hops - 1);
    }
  }

  function Add(mem: seq<byte>, m: Msg): (r: seq<byte>)
    requires 0 < |m.payload| <= MAX_PAYLOAD && 4 * EndPtr(m) <= |mem|
    ensures |r| == |mem|
  {
    Splice(mem, 4 * m.ptr, Image(m.payload, m.prev, false))
  }

  lemma AddKeeps(mem: seq<byte>, m: Msg, other: Msg)
    requires 0 < |m.payload| <= MAX_PAYLOAD && 4 * EndPtr(m) <= |mem|
    requires Stored(mem, other, false) && EndPtr(other) <= m.ptr
    ensures Stored(Add(mem, m), other, false)
    ensures forall i :: 0 <= i < 4 * m.ptr ==> Add(mem, m)[i] == mem[i]
  {
    hide Image, Stored, Held;
    StoredFrame(mem, Add(mem, m), other, false);
  }

  const ZERO: Msg := Msg(0, [0], 8)
  const LOW: Msg := Msg(8, [0], 12)
  const HIGH: Msg := Msg(12, [0], 8)

  function CircularFile(): seq<byte> {
    Add(Add(Add(Zeros(64), ZERO), LOW), HIGH)
  }

  lemma StoredPending(mem: seq<byte>, m: Msg)
    requires Stored(mem, m, false) && !IsFlush(m, |mem|)
    ensures IsPending(mem, m.ptr) && HeaderFits(mem, m.ptr) && PrevHeader(mem, m.ptr) == m.prev
  {
    StoredFields(mem, m, false);
  }

  lemma CircularBytes()
    ensures |CircularFile()| == 64
    ensures Stored(CircularFile(), ZERO, false)
    ensures Stored(CircularFile(), LOW, false)
    ensures Stored(CircularFile(), HIGH, false)
    ensures forall i :: 16 <= i < 32 ==> CircularFile()[i] == 0
  {
    hide Image, Stored, Held;
    StoredSplice(Zeros(64), ZERO);
    var m0 := Add(Zeros(64), ZERO);
    StoredSplice(m0, LOW);
    AddKeeps(m0, LOW, ZERO);
    var m1 := Add(m0, LOW);
    StoredSplice(m1, HIGH);
    AddKeeps(m1, HIGH, ZERO);
    AddKeeps(m1, HIGH, LOW);
  }

  lemma CircularWalk(mem: seq<byte>, hops: nat)
    requires IsPending(mem, 0) && IsPending(mem, 8) && IsPending(mem, 12)
    requires PrevHeader(mem, 0) == 8 && PrevHeader(mem, 8) == 12 && PrevHeader(mem, 12) == 8
    ensures Walk(mem, 0, hops).Hangs?
  {
    hide IsPending, PrevHeader;
    if hops > 0 {
      CircularLinksHang(mem, 8, 12, hops - 1);
    }
  }

  lemma CircularScan(mem: seq<byte>)
    requires IsBuffer(mem) && |mem| == 64 && Stored(mem, Msg(0, [0], 8), false)
    requires forall i :: 16 <= i < 32 ==> mem[i] == 0
    ensures NeedsWalk(FirstScan(mem))
  {
    StoredPending(mem, Msg(0, [0], 8));
    StoredNext(mem, Msg(0, [0], 8), false);
    assert mem[16..20][0] == 0;
    assert !IsValid(mem, 4) && NextMessage(mem, 0) == 4;
    assert Scan(mem, 4, 0, 0, false) == Pointers(0, 4, 0);
  }

  /** Such a file exists: on it the backward walk goes round for ever. */
  lemma StartupCanHang()
    ensures IsBuffer(CircularFile()) && !StartupEnds(CircularFile())
    ensures forall hops :: Walk(CircularFile(), 0, hops).Hangs?
  {
    hide Add, Stored, Held, Scan;
    var mem := CircularFile();
    CircularBytes();
    StoredPending(mem, ZERO);
    StoredPending(mem, LOW);
    StoredPending(mem, HIGH);
    CircularScan(mem);
    forall hops: nat ensures Walk(mem, 0, hops).Hangs? {
      CircularWalk(mem, hops);
    }
  }
}
