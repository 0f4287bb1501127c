/** Which writes land cleanly, and restarts on the first lap through the buffer and after a wrap. */
module QueueLaps {
  import opened Bytes
  import opened QueueFormat
  import opened QueueSteps
  import opened QueueLayout
  import opened QueueReading
  import opened QueueWriting
  import opened QueueRestart
  import opened QueueFifo

  // ---------- a check on one word ----------

  /** Marking messages read sets the lowest bit of their flags bytes and does nothing else. */
  lemma {:induction false} MarkAllBytes(mem: seq<byte>, ms: seq<Msg>, i: nat)
    requires forall j :: 0 <= j < |ms| ==> 4 * ms[j].ptr + 4 <= |mem|
    requires i < |mem|
    ensures i % 4 != 3 ==> MarkAll(mem, ms)[i] == mem[i]
    ensures mem[i] % 2 == 1 ==> MarkAll(mem, ms)[i] == mem[i]
    ensures (exists j :: 0 <= j < |ms| && i == 4 * ms[j].ptr + 3) ==> MarkAll(mem, ms)[i] % 2 == 1
    decreases |ms|
  {
    if ms != [] {
      var mem' := MarkRead(mem, ms[0].ptr);
      MarkAllBytes(mem', ms[1..], i);
      if j :| 0 <= j < |ms| && i == 4 * ms[j].ptr + 3 {
        if j > 0 {
          assert ms[1..][j - 1] == ms[j];
        }
      }
    }
  }

  /** The word does not look like the header of an unread message. */
  predicate LooksDead(mem: seq<byte>, ptr: nat) {
    4 * ptr + 4 <= |mem| && (mem[4 * ptr] != HEADER_MAGIC || mem[4 * ptr + 3] % 2 == 1)
  }

  /** A look at one word is enough: no END marker, and no unread header unless it is the oldest message's own. */
  lemma CleanByOneWord(s: State, l: Layout)
    requires Shape(s, l) && HeadVisible(s, l)
    requires s.writePtr != 0 ==> !IsEnd(s.mem, s.writePtr)
    requires LooksDead(s.mem, s.writePtr) || (l.upper != [] && s.readPtr == s.writePtr)
    ensures Clean(s, l)
  {
    hide Geometry, Stored, Held, IsEnd, AllHeld, Linked, MarkAll;
    UnreadFits(s, l);
    MarkAllBytes(s.mem, l.Unread(), 4 * s.writePtr);
    MarkAllBytes(s.mem, l.Unread(), 4 * s.writePtr + 3);
    if l.upper != [] && s.readPtr == s.writePtr {
      HeadIsFirst(s, l);
      assert 4 * s.writePtr + 3 == 4 * l.Unread()[0].ptr + 3;
    }
  }

  /**
   * Where a write is going to land, seen before it: the word does not look like an unread header once the END marker
   * is stored, or it belongs to the oldest unread message that is left, which then does not end flush with the buffer.
   */
  predicate LandsClean(s: State, l: Layout, payload: seq<byte>)
    requires IsState(s) && Accepts(s, payload)
  {
    var landing, k := WrapEnd(TargetEnd(s, payload), WordCount(s.mem)), Dropped(s, l, payload);
    if Target(s, payload) == landing then |payload| % 4 != 0
    else
      || LooksDead(WithMarker(s, payload), landing)
      || (k < |l.Unread()| && landing == l.Unread()[k].ptr && !IsFlush(l.Unread()[k], |s.mem|))
  }

  lemma LandingUntouched(s: State, payload: seq<byte>)
    requires IsState(s) && Accepts(s, payload)
    ensures var landing := WrapEnd(TargetEnd(s, payload), WordCount(s.mem));
            && Written(s, payload).writePtr == landing
            && (Target(s, payload) != landing ==>
                  && LooksDead(Written(s, payload).mem, landing) == LooksDead(WithMarker(s, payload), landing))
  {
    hide Image, IsEnd, Advance;
    WrittenMessage(s, payload);
  }

  lemma DeadIsNoEnd(mem: seq<byte>, ptr: nat)
    requires LooksDead(mem, ptr)
    ensures !IsEnd(mem, ptr)
  {
    var word := mem[4 * ptr..4 * ptr + 4];
    assert word[0] == mem[4 * ptr] && word[3] == mem[4 * ptr + 3];
  }

  lemma UnreadIsAlive(s: State, l: Layout)
    requires Shape(s, l) && l.upper != []
    ensures !LooksDead(s.mem, s.readPtr) && !IsEnd(s.mem, s.readPtr)
  {
    hide Shape, Stored, LooksDead, IsEnd;
    HeadIsFirst(s, l);
    StoredIsAlive(s.mem, l.upper[0]);
  }

  lemma StoredIsAlive(mem: seq<byte>, m: Msg)
    requires Stored(mem, m, false)
    ensures !LooksDead(mem, m.ptr) && !IsEnd(mem, m.ptr)
  {
    hide Stored, IsEnd;
    StoredFields(mem, m, false);
  }

  /** The first unread message afterwards: the oldest left, or the new one. */
  lemma HeadAfterWrite(s: State, l: Layout, payload: seq<byte>)
    requires Shape(s, l) && Accepts(s, payload) && (Orderly(s, l, payload) || AllCovered(s, l, payload))
    requires Shape(Written(s, payload), AfterWrite(s, l, payload))
    ensures var k, after := Dropped(s, l, payload), AfterWrite(s, l, payload);
            && after.upper != [] && after.upper[0].ptr == Written(s, payload).readPtr
            && after.upper[0] == if k < |l.Unread()| then l.Unread()[k] else NewMsg(s, payload)
  {
    hide Geometry, Stored, Held, AllHeld, Linked, FirstScan, Image, IsEnd, IsBuffer, Orderly, AllCovered, Written,
      AfterWrite, Dropped;
    UnreadAfterWrite(s, l, payload);
    NothingUnreadInShape(Written(s, payload), AfterWrite(s, l, payload));
    HeadIsFirst(Written(s, payload), AfterWrite(s, l, payload));
  }

  lemma NothingUnreadInShape(s: State, l: Layout)
    requires Shape(s, l) && l.Unread() != []
    ensures l.upper != []
  {
  }

  /** A look at the landing word before the write is enough for the write to be legal. */
  lemma LegalByOneWord(s: State, l: Layout, payload: seq<byte>)
    requires Good(s, l) && Accepts(s, payload) && (Orderly(s, l, payload) || AllCovered(s, l, payload))
    requires LandsClean(s, l, payload)
    ensures Legal(s, l, payload)
  {
    hide Geometry, Stored, Held, AllHeld, Linked, FirstScan, Image, IsEnd, IsBuffer, Orderly, AllCovered, Written,
      AfterWrite, Dropped, LooksDead, MarkAll, IsPending, Clean;
    var s', l' := Written(s, payload), AfterWrite(s, l, payload);
    WriteKeepsShape(s, l, payload);
    HeadAfterWrite(s, l, payload);
    LandingUntouched(s, payload);
    UnreadIsAlive(s', l');
    if LooksDead(s'.mem, s'.writePtr) {
      DeadIsNoEnd(s'.mem, s'.writePtr);
    } else if Target(s, payload) == s'.writePtr {
      WholeBuffer(s, l, payload);
    }
    CleanByOneWord(s', l');
  }

  /** A message that fills the buffer leaves nothing else unread. */
  lemma WholeBuffer(s: State, l: Layout, payload: seq<byte>)
    requires Shape(s, l) && Accepts(s, payload) && (Orderly(s, l, payload) || AllCovered(s, l, payload))
    requires Target(s, payload) == WrapEnd(TargetEnd(s, payload), WordCount(s.mem))
    requires |payload| % 4 != 0
    ensures Dropped(s, l, payload) == |l.Unread()|
    ensures !IsFlush(NewMsg(s, payload), |s.mem|) && Target(s, payload) == 0
  {
    hide Geometry, Stored, Held, AllHeld, Linked, FirstScan, Image, IsEnd, IsBuffer, Orderly, AllCovered, Written,
      AfterWrite, Dropped;
    WrittenMessage(s, payload);
    DroppedAreCovered(s, l, payload);
    UnreadFits(s, l);
    var k := Dropped(s, l, payload);
    assert k < |l.Unread()| ==> Covers(s, payload, l.Unread()[k].ptr);
    DroppedAreCovered(s, l, payload);
  }

  // ---------- the first lap ----------

  /** Messages from word 0 on, zero bytes behind them, and a first message that links to itself. */
  ghost predicate FirstLap(s: State, l: Layout) {
    && Good(s, l)
    && AllVisible(s, l)
    && l.lower == []
    && (if Lap(l) == [] then s.prevPtr == 0 else Lap(l)[0].prev == 0)
    && (forall i :: 4 * EndOf(Lap(l), 0) <= i < |s.mem| ==> s.mem[i] == 0)
  }

  /** Writes that fit behind the `used` words one after the other, none of them ending flush with the buffer. */
  predicate FitsOnce(words: nat, used: nat, ops: seq<Op>)
    decreases |ops|
  {
    if ops == [] then true
    else if ops[0].Write? && ops[0].payload != [] && MsgWords(ops[0].payload) <= words then
      var end := used + MsgWords(ops[0].payload);
      && |ops[0].payload| <= MAX_PAYLOAD
      && end <= words
      && !(end == words && |ops[0].payload| % 4 == 0)
      && FitsOnce(words, end, ops[1..])
    else (ops[0].Write? ==> |ops[0].payload| <= MAX_PAYLOAD) && FitsOnce(words, used, ops[1..])
  }

  lemma FirstLapIsClear(s: State, l: Layout)
    requires FirstLap(s, l)
    ensures RestartClear(s, l)
  {
    hide Stored, Held, IsEnd, AllHeld, Linked, MarkAll, Tiles, Clean, AllVisible;
    LapTiles(s, l);
    if s.writePtr != 0 {
      assert s.mem[4 * s.writePtr] == 0;
      if l.upper != [] && s.readPtr == 0 {
        NothingDoneAtZero(s, l);
        HeadIsFirst(s, l);
        StoredFields(s.mem, l.upper[0], false);
      }
    }
  }

  lemma NothingDoneAtZero(s: State, l: Layout)
    requires IsState(s) && Geometry(s, l) && l.lower == [] && l.upper != [] && s.readPtr == 0
    ensures l.done == [] && l.upper[0].ptr == 0
  {
    hide IsEnd, Tiles;
    if l.done != [] {
      TilesNext(l.done, 0, 0, 0);
    }
    TilesNext(l.upper, s.readPtr, EndOf(l.upper, s.readPtr), 0);
  }

  /** Where an accepted write of the first lap goes. */
  lemma FirstLapTarget(s: State, l: Layout, payload: seq<byte>)
    requires FirstLap(s, l) && Accepts(s, payload)
    requires EndOf(Lap(l), 0) + MsgWords(payload) <= WordCount(s.mem)
    ensures s.writePtr == EndOf(Lap(l), 0) == Target(s, payload)
    ensures Orderly(s, l, payload) && !Overtakes(s, payload)
    ensures AfterWrite(s, l, payload) == Layout(l.done, l.upper + [NewMsg(s, payload)], [])
  {
    hide Stored, Held, IsEnd, AllHeld, Linked, MarkAll, Tiles, Clean, AllVisible, IsBuffer;
    LapTiles(s, l);
    if l.upper != [] {
      TilesNext(l.upper, s.readPtr, EndOf(l.upper, s.readPtr), |l.upper| - 1);
      TilesNext(l.upper, s.readPtr, EndOf(l.upper, s.readPtr), 0);
    } else {
      TilesGrow(l.done, 0, EndOf(l.done, 0));
    }
  }

  lemma FirstLapVisible(s: State, l: Layout, payload: seq<byte>)
    requires FirstLap(s, l) && Accepts(s, payload)
    requires var end := EndOf(Lap(l), 0) + MsgWords(payload);
             end <= WordCount(s.mem) && !(end == WordCount(s.mem) && |payload| % 4 == 0)
    ensures AllVisible(Written(s, payload), AfterWrite(s, l, payload))
  {
    hide IsBuffer, Orderly, Stored, Held, IsEnd, AllHeld, Linked, MarkAll, Tiles, Geometry, Clean, Image, Overtakes, Written;
    FirstLapTarget(s, l, payload);
    var m, all := NewMsg(s, payload), AfterWrite(s, l, payload).All();
    assert !IsFlush(m, |s.mem|);
    assert all == l.All() + [m];
  }

  lemma FirstLapZeros(s: State, payload: seq<byte>)
    requires IsState(s) && Accepts(s, payload) && !Wraps(s, payload)
    requires forall i :: 4 * s.writePtr <= i < |s.mem| ==> s.mem[i] == 0
    ensures forall i :: 4 * TargetEnd(s, payload) <= i < |s.mem| ==> Written(s, payload).mem[i] == 0
  {
    hide Image;
  }

  lemma FirstLapLanding(s: State, l: Layout)
    requires Shape(s, l) && AllVisible(s, l) && l.lower == [] && l.upper != []
    requires forall i :: 4 * EndOf(Lap(l), 0) <= i < |s.mem| ==> s.mem[i] == 0
    ensures Clean(s, l)
  {
    hide Stored, Held, AllHeld, Linked, MarkAll, Tiles, Clean, IsFlush;
    LapTiles(s, l);
    assert l.All()[|l.done|] == l.upper[0];
    if s.writePtr != 0 {
      assert s.mem[4 * s.writePtr] == 0;
      assert s.mem[4 * s.writePtr..4 * s.writePtr + 4][0] == 0;
    } else if s.readPtr != 0 {
      DoneAtZero(s, l);
    }
    CleanByOneWord(s, l);
  }

  lemma DoneAtZero(s: State, l: Layout)
    requires Shape(s, l) && l.lower == [] && s.readPtr != 0
    ensures s.mem[3] % 2 == 1
  {
    hide IsEnd, Tiles, Stored, Held;
    if l.done != [] {
      TilesNext(l.done, 0, EndOf(l.done, 0), 0);
      HeldValidity(s.mem, l.done[0], true);
    }
  }

  lemma FirstLapWrite(s: State, l: Layout, payload: seq<byte>)
    requires FirstLap(s, l) && Accepts(s, payload)
    requires var end := EndOf(Lap(l), 0) + MsgWords(payload);
             end <= WordCount(s.mem) && !(end == WordCount(s.mem) && |payload| % 4 == 0)
    ensures Legal(s, l, payload) && Disarms(s, l, payload)
    ensures FirstLap(Written(s, payload), AfterWrite(s, l, payload))
    ensures EndOf(Lap(AfterWrite(s, l, payload)), 0) == EndOf(Lap(l), 0) + MsgWords(payload)
  {
    hide Stored, Held, IsEnd, AllHeld, Linked, MarkAll, Tiles, Geometry, Clean, IsBuffer, Image, Dropped, Overtakes, FirstScan, Splice, Advance, DropCount, IsFlush;
    var s', l', m, n := Written(s, payload), AfterWrite(s, l, payload), NewMsg(s, payload), WordCount(s.mem);
    FirstLapTarget(s, l, payload);
    WriteKeepsShape(s, l, payload);
    WrittenMessage(s, payload);
    assert Lap(l') == Lap(l) + [m];
    FirstLapVisible(s, l, payload);
    FirstLapZeros(s, payload);
    FirstLapLanding(s', l');
  }

  lemma FirstLapStep(s: State, l: Layout, op: Op)
    requires FirstLap(s, l) && FitsOnce(WordCount(s.mem), EndOf(Lap(l), 0), [op])
    ensures Allowed(s, l, op)
    ensures var r := Perform(s, l, op);
            && FirstLap(r.state, r.layout)
            && |r.state.mem| == |s.mem|
            && EndOf(Lap(r.layout), 0) == EndOf(Lap(l), 0) + WordsOf(WordCount(s.mem), op)
  {
    hide Stored, Held, IsEnd, AllHeld, Linked, MarkAll, Tiles, Geometry, Clean, Image, Overtakes, Orderly, Written, AfterWrite;
    FirstLapIsClear(s, l);
    if op.Write? && Accepts(s, op.payload) {
      FirstLapWrite(s, l, op.payload);
    }
    if !(op.Write? && Accepts(s, op.payload)) {
      StepKeepsGood(s, l, op);
    }
    if op.Complete? && s.canComplete {
      FirstLapTake(s, l);
    }
    if op.Restart? {
      RestartExact(s, l);
    }
  }

  lemma FirstLapTake(s: State, l: Layout)
    requires FirstLap(s, l) && s.canComplete
    ensures var s', l' := CompleteRead(s).0, AfterTake(l);
            && l'.lower == [] && l'.All() == l.All() && Lap(l') == Lap(l)
            && AllVisible(s', l')
            && (forall i :: 4 * EndOf(Lap(l), 0) <= i < |s.mem| ==> s'.mem[i] == 0)
  {
    hide Stored, Held, IsEnd, AllHeld, Linked, Tiles, Clean, NextMessage, FirstScan, Geometry, IsBuffer;
    HeadInLap(s, l);
    assert AfterTake(l).All() == l.All();
  }

  lemma HeadInLap(s: State, l: Layout)
    requires Shape(s, l) && l.lower == [] && l.upper != []
    ensures s.readPtr < EndOf(Lap(l), 0)
  {
    hide Stored, Held, IsEnd, AllHeld, Linked, Tiles, FirstScan, IsBuffer;
    var end := EndOf(l.upper, s.readPtr);
    TilesNext(l.upper, s.readPtr, end, 0);
    assert Lap(l)[|Lap(l)| - 1] == l.upper[|l.upper| - 1];
  }

  lemma FitsOnceSplit(words: nat, used: nat, ops: seq<Op>)
    requires FitsOnce(words, used, ops) && ops != []
    ensures FitsOnce(words, used, [ops[0]])
    ensures FitsOnce(words, used + WordsOf(words, ops[0]), ops[1..])
  {
  }

  /** The words an operation uses up. */
  function WordsOf(words: nat, op: Op): nat {
    if op.Write? && op.payload != [] && MsgWords(op.payload) <= words then MsgWords(op.payload) else 0
  }

  lemma FirstLapGood(s: State, l: Layout)
    requires FirstLap(s, l)
    ensures Good(s, l)
  {
  }

  lemma FirstLapRestart(s: State, l: Layout)
    requires FirstLap(s, l)
    ensures Good(s, l)
    ensures StartupEnds(s.mem) && Recover(s.mem) == Pointers(s.readPtr, s.writePtr, s.prevPtr)
  {
    FirstLapIsClear(s, l);
    RestartExact(s, l);
  }

  /**
   * As long as everything written fits once, every interleaving of writes, reads and restarts is allowed,
   * and a restart after it finds all three pointers.
   */
  lemma {:induction false} FirstLapRuns(s: State, l: Layout, ops: seq<Op>)
    requires FirstLap(s, l) && FitsOnce(WordCount(s.mem), EndOf(Lap(l), 0), ops)
    ensures RunAllowed(s, l, ops)
    ensures var (s', l') := EndOfRun(s, l, ops);
            StartupEnds(s'.mem) && Recover(s'.mem) == Pointers(s'.readPtr, s'.writePtr, s'.prevPtr)
    decreases |ops|
  {
    hide FirstLap, Good, Perform, AllVisible, FitsOnce, Accepts, Allowed;
    if ops == [] {
      FirstLapRestart(s, l);
    } else {
      FirstLapGood(s, l);
      FitsOnceSplit(WordCount(s.mem), EndOf(Lap(l), 0), ops);
      FirstLapStep(s, l, ops[0]);
      StepKeepsGood(s, l, ops[0]);
      var r := Perform(s, l, ops[0]);
      FirstLapRuns(r.state, r.layout, ops[1..]);
    }
  }

  // ---------- after a wrap ----------

  lemma PassedBlocks(s: State, l: Layout, before: Msg)
    requires Shape(s, l) && l.lower != [] && Passed(s.mem, before) && before.ptr == l.upper[0].prev
    ensures HeaderFits(s.mem, s.readPtr) && Blocked(s.mem, s.readPtr)
  {
    hide IsEnd, Linked, Tiles, IsBuffer, Stored, Held, FirstScan, IsValid, IsRead, PrevHeader;
    FirstUpper(s, l);
    UpperPending(s, l, 0);
    PassedIsRead(s.mem, before);
  }

  lemma PassedIsRead(mem: seq<byte>, m: Msg)
    requires Passed(mem, m)
    ensures HeaderFits(mem, m.ptr) && IsRead(mem, m.ptr)
  {
  }

  lemma DeadWordIsClear(s: State, l: Layout)
    requires Shape(s, l) && l.lower != [] && LooksDead(s.mem, s.writePtr)
    requires HeaderFits(s.mem, s.readPtr) && Blocked(s.mem, s.readPtr)
    ensures RestartClear(s, l)
  {
    hide IsEnd, Linked, Tiles, IsBuffer, Stored, Held, FirstScan, Blocked, AllHeld;
  }

  /**
   * Once the unread messages continue at word 0, the message before the oldest unread one is still there, read, and
   * the word at the write pointer is not an unread header, a restart finds the pointers, unless a message ends flush
   * with the buffer.
   */
  lemma RestartAfterWrap(s: State, l: Layout, before: Msg)
    requires Good(s, l) && l.lower != []
    requires LooksDead(s.mem, s.writePtr)
    requires Passed(s.mem, before) && before.ptr == l.upper[0].prev
    ensures StartupEnds(s.mem) && Recover(s.mem) == Pointers(s.readPtr, s.writePtr, s.prevPtr)
            <==> Visible(s.mem, l.upper)
  {
    hide Shape, Clean, RestartClear, FirstScan, Walk, Visible, FlushFromZero, Passed;
    WrappedWritePtr(s, l);
    PassedBlocks(s, l, before);
    DeadWordIsClear(s, l);
    FlushOnlyInUpper(s, l);
    RestartExact(s, l);
  }

  lemma WrappedWritePtr(s: State, l: Layout)
    requires Shape(s, l) && l.lower != []
    ensures s.writePtr != 0
  {
    WrappedPositive(s, l);
  }
}
