/** The queue as a first-in first-out list that drops its oldest messages: one write, and whole runs. */
module QueueFifo {
  import opened Bytes
  import opened QueueFormat
  import opened QueueSteps
  import opened QueueLayout
  import opened QueueReading
  import opened QueueWriting
  import opened QueueRestart

  // ---------- one write ----------

  /** The write covers exactly the first `k` unread messages. */
  ghost predicate CoversOldest(s: State, l: Layout, payload: seq<byte>, k: nat) {
    k <= |l.Unread()| && forall i :: 0 <= i < |l.Unread()| ==> (Covers(s, payload, l.Unread()[i].ptr) <==> i < k)
  }

  /** The write overwrites in order and leaves the write pointer at a clean word. */
  ghost predicate Legal(s: State, l: Layout, payload: seq<byte>)
    requires Shape(s, l) && Accepts(s, payload)
  {
    && (Orderly(s, l, payload) || AllCovered(s, l, payload))
    && (WriteKeepsShape(s, l, payload); Clean(Written(s, payload), AfterWrite(s, l, payload)))
  }

  lemma DroppedAreCovered(s: State, l: Layout, payload: seq<byte>)
    requires Shape(s, l) && Accepts(s, payload)
    requires Orderly(s, l, payload) || AllCovered(s, l, payload)
    ensures CoversOldest(s, l, payload, Dropped(s, l, payload))
  {
    hide Stored, Held, IsEnd, IsBuffer, Image, Linked, Tiles, DropCount, AllHeld;
    var u, k, end := l.Unread(), Dropped(s, l, payload), EndOf(l.upper, s.readPtr);
    if l.upper != [] && Orderly(s, l, payload) {
      forall i | 0 <= i < |u|
        ensures Covers(s, payload, u[i].ptr) <==> i < k
      {
        if i < |l.upper| {
          TilesNext(l.upper, s.readPtr, end, i);
          DropSplits(l.upper, s.readPtr, end, TargetEnd(s, payload), i);
        } else {
          TilesNext(l.lower, 0, s.writePtr, i - |l.upper|);
        }
        if s.readPtr > Target(s, payload) {
          PushedEnd(s, l, payload);
        }
      }
    }
  }

  /**
   * From a state that is neither orderly nor about to be covered entirely the write goes wrong:
   * it covers newer messages while older ones remain, or leaves the read pointer off the oldest one left.
   */
  lemma DisorderlyFails(s: State, l: Layout, payload: seq<byte>, k: nat)
    requires Shape(s, l) && Accepts(s, payload) && CoversOldest(s, l, payload, k)
    requires !Orderly(s, l, payload) && !AllCovered(s, l, payload)
    ensures k < |l.Unread()| && Written(s, payload).readPtr != l.Unread()[k].ptr
  {
    hide Stored, Held, IsEnd, IsBuffer, Image, Linked, Tiles, DropCount, AllHeld, Advance;
    var u, end := l.Unread(), EndOf(l.upper, s.readPtr);
    TilesNext(l.upper, s.readPtr, end, |l.upper| - 1);
    if s.readPtr > s.writePtr && l.lower != [] {
      SecondWrapSkipsNewer(s, l, payload, k);
      assert false;
    }
  }

  /** Wrapping again while unread messages lie at the start covers the newest of them before the oldest. */
  lemma SecondWrapSkipsNewer(s: State, l: Layout, payload: seq<byte>, k: nat)
    requires Shape(s, l) && Accepts(s, payload) && Wraps(s, payload) && l.lower != [] && s.writePtr < s.readPtr
    ensures CoversOldest(s, l, payload, k) ==> AllCovered(s, l, payload)
  {
    hide Stored, Held, IsEnd, IsBuffer, Image, Linked, Tiles, AllHeld, MsgWords;
    var u, last := l.Unread(), |l.upper| - 1;
    WrappedParts(s, l);
    TilesNext(l.upper, s.readPtr, EndOf(l.upper, s.readPtr), last);
    TilesNext(l.lower, 0, s.writePtr, 0);
    assert u[last] == l.upper[last] && u[|l.upper|] == l.lower[0];
    assert Covers(s, payload, 0);
    if CoversOldest(s, l, payload, k) {
      assert last + 1 < k && Covers(s, payload, u[last].ptr);
      forall i | k <= i < |u|
        ensures Covers(s, payload, u[i].ptr)
      {
        TilesNext(l.lower, 0, s.writePtr, i - |l.upper|);
      }
    }
  }

  /**
   * A write turns the unread messages into those it does not cover, in order and with their bytes, followed by
   * the new one, exactly when it is legal.
   */
  lemma WriteIsFifoIffLegal(s: State, l: Layout, payload: seq<byte>)
    requires Good(s, l) && Accepts(s, payload)
    ensures Legal(s, l, payload) <==>
            exists k: nat :: CoversOldest(s, l, payload, k)
              && Delivers(Written(s, payload), l.Unread()[k..] + [NewMsg(s, payload)])
  {
    hide Stored, Held, IsEnd, IsBuffer, Image, Linked, Tiles, Geometry, AllHeld, Covers, Orderly, Written, NewMsg, AfterWrite, Dropped, Clean;
    var s', m, u := Written(s, payload), NewMsg(s, payload), l.Unread();
    if Orderly(s, l, payload) || AllCovered(s, l, payload) {
      WriteKeepsShape(s, l, payload);
      DroppedAreCovered(s, l, payload);
      UnreadAfterWrite(s, l, payload);
      DrainsIffClean(s', AfterWrite(s, l, payload));
      if k: nat :| CoversOldest(s, l, payload, k) && Delivers(s', u[k..] + [m]) {
        SameCount(s, l, payload, k, Dropped(s, l, payload));
      }
    } else if k: nat :| CoversOldest(s, l, payload, k) && Delivers(s', u[k..] + [m]) {
      DisorderlyFails(s, l, payload, k);
    }
  }

  lemma SameCount(s: State, l: Layout, payload: seq<byte>, a: nat, b: nat)
    requires CoversOldest(s, l, payload, a) && CoversOldest(s, l, payload, b)
    ensures a == b
  {
    hide Covers;
    var u := l.Unread();
    assert a < |u| ==> (Covers(s, payload, u[a].ptr) <==> a < b);
    assert b < |u| ==> (Covers(s, payload, u[b].ptr) <==> b < a);
  }

  /** A write that drops the message last handed out also takes back the permission to complete it. */
  ghost predicate Disarms(s: State, l: Layout, payload: seq<byte>) {
    s.canComplete ==> Orderly(s, l, payload) || Overtakes(s, payload)
  }

  /** The permission survives a legal write exactly when its message does, provided the write `Disarms`. */
  lemma PermissionFollowsHead(s: State, l: Layout, payload: seq<byte>)
    requires Shape(s, l) && Accepts(s, payload) && (Orderly(s, l, payload) || AllCovered(s, l, payload))
    ensures (Written(s, payload).canComplete <==> s.canComplete && Dropped(s, l, payload) == 0)
            <==> Disarms(s, l, payload)
  {
    hide Stored, Held, IsEnd, IsBuffer, Image, Linked, Tiles, AllHeld, Advance;
    if l.upper != [] {
      TilesNext(l.upper, s.readPtr, EndOf(l.upper, s.readPtr), 0);
    }
  }

  /** Completing marks the oldest unread message read, changes no other byte and leaves all other messages stored. */
  lemma CompletionIsExact(s: State, l: Layout)
    requires Good(s, l) && s.canComplete
    ensures l.upper != [] && s.readPtr == l.Unread()[0].ptr
    ensures var (s', ok) := CompleteRead(s);
            && ok
            && (forall i :: 0 <= i < |s.mem| && i != 4 * s.readPtr + 3 ==> s'.mem[i] == s.mem[i])
            && Stored(s'.mem, l.Unread()[0], true)
            && (forall i :: 0 < i < |l.Unread()| ==> Stored(s'.mem, l.Unread()[i], false))
            && Good(s', AfterTake(l))
  {
    hide Geometry, Stored, IsEnd, IsBuffer, Image, Linked, Tiles, MarkAll, IsPending, NextMessage;
    StepKeepsGood(s, l, Complete);
    HeadIsFirst(s, l);
    MarkHead(s, l);
    forall i | 0 < i < |l.Unread()|
      ensures Stored(CompleteRead(s).0.mem, l.Unread()[i], false)
    {
      if i < |l.upper| {
        assert l.upper[1..][i - 1] == l.upper[i];
      }
    }
  }

  // ---------- runs ----------

  datatype Op = Write(payload: seq<byte>) | Peek | Complete | Restart

  /** What a caller sees of one operation; `dropped` counts the unread messages a write covers. */
  datatype Event =
    | Wrote(payload: seq<byte>, stored: bool, dropped: nat)
    | Peeked(head: Head)
    | Completed(ok: bool)
    | Restarted

  ghost predicate Allowed(s: State, l: Layout, op: Op)
    requires Good(s, l)
  {
    match op
    case Write(payload) =>
      |payload| <= MAX_PAYLOAD
      && (Accepts(s, payload) ==> Legal(s, l, payload) && Disarms(s, l, payload))
    case Peek => true
    case Complete => true
    case Restart => Recoverable(s, l) || (l.upper == [] && NothingUnread(s.mem))
  }

  datatype Outcome = Outcome(state: State, layout: Layout, event: Event)

  ghost function Perform(s: State, l: Layout, op: Op): Outcome
    requires Good(s, l) && Allowed(s, l, op)
  {
    match op
    case Write(payload) =>
      if Accepts(s, payload) then
        Outcome(Written(s, payload), AfterWrite(s, l, payload), Wrote(payload, true, Dropped(s, l, payload)))
      else Outcome(s, l, Wrote(payload, false, 0))
    case Peek => Outcome(ReadHead(s).0, l, Peeked(ReadHead(s).1))
    case Complete =>
      var (s', ok) := CompleteRead(s);
      Outcome(s', if ok && l.upper != [] then AfterTake(l) else l, Completed(ok))
    case Restart =>
      RestartEnds(s, l);
      Outcome(Reopened(s.mem), if Recoverable(s, l) then l else FoundLayout(s.mem), Restarted)
  }

  lemma RestartEnds(s: State, l: Layout)
    requires Good(s, l) && (Recoverable(s, l) || (l.upper == [] && NothingUnread(s.mem)))
    ensures StartupEnds(s.mem)
  {
    hide Geometry, Stored, Held, Recoverable, NothingUnread, Walk, Scan;
    if Recoverable(s, l) {
      RestartExact(s, l);
    } else {
      FoundIsGood(s.mem);
    }
  }

  lemma RestartKeepsGood(s: State, l: Layout)
    requires Good(s, l) && Allowed(s, l, Restart)
    ensures Good(Perform(s, l, Restart).state, Perform(s, l, Restart).layout)
    ensures Perform(s, l, Restart).state.mem == s.mem
    ensures Perform(s, l, Restart).layout.Unread() == l.Unread()
  {
    hide Geometry, Stored, Held, Recoverable, NothingUnread, Walk, Scan, Tiles, Linked, IsEnd, FirstScan, Clean, RestartClear;
    if Recoverable(s, l) {
      RestartExact(s, l);
      ArmedShape(s, l, false);
    } else {
      FoundIsGood(s.mem);
      PeekFacts(s, l);
    }
  }

  lemma StepKeepsGood(s: State, l: Layout, op: Op)
    requires Good(s, l) && Allowed(s, l, op)
    ensures Good(Perform(s, l, op).state, Perform(s, l, op).layout)
    ensures |Perform(s, l, op).state.mem| == |s.mem|
  {
    hide Geometry, Stored, Held, IsEnd, IsBuffer, Image, Linked, Tiles, AllHeld, Advance, MarkAll, IsPending, Scan, Walk,
      NextMessage, AfterWrite, Recoverable, NothingUnread, FirstScan;
    match op
    case Write(payload) =>
      if Accepts(s, payload) {
        WriteKeepsShape(s, l, payload);
      }
    case Peek =>
      PeekFacts(s, l);
      ArmedShape(s, l, ReadHead(s).0.canComplete);
    case Complete =>
      if s.canComplete {
        CleanContinues(s, l);
        TakeKeepsShape(s, l);
        TakeKeepsCleanLanding(s, l);
      }
    case Restart =>
      RestartKeepsGood(s, l);
  }

  lemma CleanContinues(s: State, l: Layout)
    requires Good(s, l)
    ensures Continues(s, l)
    ensures (UnreadFits(s, l); CleanLanding(s, l))
  {
  }

  lemma PeekFacts(s: State, l: Layout)
    requires Good(s, l)
    ensures ReadHead(s) == if l.Unread() == [] then (s, Nothing)
                           else (s.(canComplete := true), Message(l.Unread()[0].payload))
    ensures l.upper == [] ==> l.lower == []
  {
    hide Tiles, Stored, Held, AllHeld, Linked, NextMessage, MarkRead;
    if l.upper == [] {
      assert MarkAll(s.mem, l.Unread()) == s.mem;
    } else {
      HeadIsFirst(s, l);
      HeadOfShape(s, l);
    }
  }

  ghost predicate RunAllowed(s: State, l: Layout, ops: seq<Op>)
    requires Good(s, l)
    decreases |ops|
  {
    ops == [] ||
    (Allowed(s, l, ops[0])
     && (StepKeepsGood(s, l, ops[0]);
         RunAllowed(Perform(s, l, ops[0]).state, Perform(s, l, ops[0]).layout, ops[1..])))
  }

  ghost function Events(s: State, l: Layout, ops: seq<Op>): seq<Event>
    requires Good(s, l) && RunAllowed(s, l, ops)
    decreases |ops|
  {
    if ops == [] then []
    else
      StepKeepsGood(s, l, ops[0]);
      var r := Perform(s, l, ops[0]);
      [r.event] + Events(r.state, r.layout, ops[1..])
  }

  ghost function EndOfRun(s: State, l: Layout, ops: seq<Op>): (r: (State, Layout))
    requires Good(s, l) && RunAllowed(s, l, ops)
    ensures Good(r.0, r.1) && |r.0.mem| == |s.mem|
    decreases |ops|
  {
    if ops == [] then (s, l)
    else
      StepKeepsGood(s, l, ops[0]);
      var r := Perform(s, l, ops[0]);
      EndOfRun(r.state, r.layout, ops[1..])
  }

  /**
   * The list a user of the queue has in mind: the unread payloads, oldest first, and whether the first of them has
   * been handed out and not completed yet.
   */
  datatype Fifo = Fifo(items: seq<seq<byte>>, armed: bool)

  /** The list answers as the event says. */
  predicate Answers(words: nat, f: Fifo, event: Event) {
    match event
    case Wrote(payload, stored, dropped) =>
      && (stored <==> payload != [] && MsgWords(payload) <= words)
      && (if stored then dropped <= |f.items| else dropped == 0)
    case Peeked(head) => head == if f.items == [] then Nothing else Message(f.items[0])
    case Completed(ok) => ok == f.armed && (ok ==> f.items != [])
    case Restarted => true
  }

  /** A write drops from the front and appends; only a completed read removes the head otherwise. */
  function Next(words: nat, f: Fifo, event: Event): Fifo
    requires Answers(words, f, event)
  {
    match event
    case Wrote(payload, stored, dropped) =>
      if stored then Fifo(f.items[dropped..] + [payload], f.armed && dropped == 0) else f
    case Peeked(_) => f.(armed := f.armed || f.items != [])
    case Completed(ok) => if ok then Fifo(f.items[1..], false) else f
    case Restarted => f.(armed := false)
  }

  ghost predicate FifoAccepts(words: nat, f: Fifo, events: seq<Event>)
    decreases |events|
  {
    events == []
    || (Answers(words, f, events[0]) && FifoAccepts(words, Next(words, f, events[0]), events[1..]))
  }

  function Payloads(ms: seq<Msg>): (r: seq<seq<byte>>)
    ensures |r| == |ms|
    ensures forall i :: 0 <= i < |ms| ==> r[i] == ms[i].payload
  {
    seq(|ms|, i requires 0 <= i < |ms| => ms[i].payload)
  }

  function View(s: State, l: Layout): Fifo {
    Fifo(Payloads(l.Unread()), s.canComplete)
  }

  /** One allowed operation does to the bytes what the list does. */
  lemma StepMatchesFifo(s: State, l: Layout, op: Op)
    requires Good(s, l) && Allowed(s, l, op)
    ensures var r := Perform(s, l, op);
            && Answers(WordCount(s.mem), View(s, l), r.event)
            && View(r.state, r.layout) == Next(WordCount(s.mem), View(s, l), r.event)
  {
    hide Geometry, Stored, Held, IsEnd, IsBuffer, Image, Linked, Tiles, AllHeld, Advance, MarkAll, IsPending, Scan, Walk,
      NextMessage, AfterWrite, Recoverable, NothingUnread, Clean, Dropped, CompleteRead;
    match op
    case Write(payload) =>
      if Accepts(s, payload) {
        WriteMatchesFifo(s, l, payload);
      }
    case Peek =>
      PeekFacts(s, l);
    case Complete =>
      CompleteFacts(s);
      if s.canComplete {
        assert Payloads(l.Unread()[1..]) == Payloads(l.Unread())[1..];
      }
    case Restart =>
      RestartKeepsGood(s, l);
  }

  lemma WriteMatchesFifo(s: State, l: Layout, payload: seq<byte>)
    requires Shape(s, l) && Accepts(s, payload) && (Orderly(s, l, payload) || AllCovered(s, l, payload))
    requires Disarms(s, l, payload)
    ensures var k := Dropped(s, l, payload);
            View(Written(s, payload), AfterWrite(s, l, payload))
            == Fifo(View(s, l).items[k..] + [payload], View(s, l).armed && k == 0)
  {
    hide Geometry, AllHeld, Linked, FirstScan, IsEnd, IsBuffer, Orderly, AllCovered, Written, AfterWrite, Dropped, Disarms;
    UnreadAfterWrite(s, l, payload);
    PermissionFollowsHead(s, l, payload);
    var k := Dropped(s, l, payload);
    assert Payloads(l.Unread()[k..] + [NewMsg(s, payload)]) == Payloads(l.Unread())[k..] + [payload];
  }

  lemma CompleteFacts(s: State)
    requires IsState(s)
    ensures CompleteRead(s).1 == s.canComplete && !CompleteRead(s).0.canComplete
    ensures !s.canComplete ==> CompleteRead(s).0 == s
  {
  }

  /** Every run of allowed operations, restarts included, looks like a run of the list. */
  lemma {:induction false} RunRefinesFifo(s: State, l: Layout, ops: seq<Op>)
    requires Good(s, l) && RunAllowed(s, l, ops)
    ensures FifoAccepts(WordCount(s.mem), View(s, l), Events(s, l, ops))
    decreases |ops|
  {
    hide Good, Allowed, Perform, View, Answers, Next;
    if ops != [] {
      StepKeepsGood(s, l, ops[0]);
      var r := Perform(s, l, ops[0]);
      RunRefinesFifo(r.state, r.layout, ops[1..]);
      assert Events(s, l, ops)[1..] == Events(r.state, r.layout, ops[1..]);
      StepMatchesFifo(s, l, ops[0]);
    }
  }

  // ---------- what a list's events say ----------

  ghost function FifoAfter(words: nat, f: Fifo, events: seq<Event>): Fifo
    requires FifoAccepts(words, f, events)
    decreases |events|
  {
    if events == [] then f else FifoAfter(words, Next(words, f, events[0]), events[1..])
  }

  lemma {:induction false} FifoLast(words: nat, f: Fifo, events: seq<Event>)
    requires FifoAccepts(words, f, events) && events != []
    ensures var n := |events| - 1;
            && FifoAccepts(words, f, events[..n])
            && Answers(words, FifoAfter(words, f, events[..n]), events[n])
            && FifoAfter(words, f, events) == Next(words, FifoAfter(words, f, events[..n]), events[n])
    decreases |events|
  {
    hide Answers, Next;
    var n := |events| - 1;
    if n > 0 {
      FifoLast(words, Next(words, f, events[0]), events[1..]);
      assert events[..n][1..] == events[1..][..n - 1] && events[..n][0] == events[0];
    }
  }

  /** The event leaves the message last handed out where it is, at the head. */
  predicate LeavesHead(event: Event) {
    match event
    case Wrote(_, stored, dropped) => stored ==> dropped == 0
    case Peeked(_) => false
    case Completed(ok) => !ok
    case Restarted => false
  }

  /** Completing is permitted only since the latest read, which handed out the head of the list. */
  lemma {:induction false} PermittedSince(words: nat, f: Fifo, events: seq<Event>) returns (i: nat)
    requires FifoAccepts(words, f, events) && !f.armed && FifoAfter(words, f, events).armed
    ensures var items := FifoAfter(words, f, events).items;
            items != [] && i < |events| && events[i] == Peeked(Message(items[0]))
    ensures forall k :: i < k < |events| ==> LeavesHead(events[k])
    decreases |events|
  {
    var n := |events| - 1;
    FifoLast(words, f, events);
    if events[n].Peeked? && FifoAfter(words, f, events[..n]).items != [] {
      i := n;
    } else {
      i := PermittedSince(words, f, events[..n]);
      assert events[..n][i] == events[i];
      forall k | i < k < |events|
        ensures LeavesHead(events[k])
      {
        if k < n {
          assert events[..n][k] == events[k];
        }
      }
    }
  }

  /**
   * A completion that succeeds takes away exactly the message that the latest read before it handed out; in between
   * no write has dropped a message, nothing else was completed and the queue was not restarted.
   */
  lemma CompletedIsLatestRead(words: nat, f: Fifo, events: seq<Event>, j: nat) returns (i: nat)
    requires FifoAccepts(words, f, events) && !f.armed && j < |events| && events[j] == Completed(true)
    ensures FifoAccepts(words, f, events[..j]) && FifoAccepts(words, f, events[..j + 1])
    ensures var before, after := FifoAfter(words, f, events[..j]), FifoAfter(words, f, events[..j + 1]);
            && i < j && before.items != []
            && events[i] == Peeked(Message(before.items[0]))
            && after == Fifo(before.items[1..], false)
    ensures forall k :: i < k < j ==> LeavesHead(events[k])
  {
    hide LeavesHead;
    AcceptsPrefix(words, f, events, j + 1);
    FifoLast(words, f, events[..j + 1]);
    assert events[..j + 1][..j] == events[..j] && events[..j + 1][j] == events[j];
    i := PermittedSince(words, f, events[..j]);
    forall k | i < k < j
      ensures LeavesHead(events[k])
    {
      assert events[..j][k] == events[k];
    }
  }

  lemma {:induction false} AcceptsPrefix(words: nat, f: Fifo, events: seq<Event>, n: nat)
    requires FifoAccepts(words, f, events) && n <= |events|
    ensures FifoAccepts(words, f, events[..n])
    decreases |events|
  {
    hide Answers, Next;
    if n > 0 {
      AcceptsPrefix(words, Next(words, f, events[0]), events[1..], n - 1);
      assert events[..n][1..] == events[1..][..n - 1];
    }
  }

  // ---------- from a zero-filled buffer ----------

  const EMPTY: Layout := Layout([], [], [])

  lemma FreshIsGood(length: nat)
    requires IsBuffer(Zeros(length))
    ensures Good(Fresh(length), EMPTY)
  {
    hide Scan, IsEnd, IsBuffer, Zeros, Stored, Held;
    var s := Fresh(length);
    ZerosAreInvalid(length);
    assert MarkAll(s.mem, EMPTY.Unread()) == s.mem;
  }

  lemma ZerosAreInvalid(length: nat)
    requires IsBuffer(Zeros(length))
    ensures !IsValid(Zeros(length), 0) && FirstScan(Zeros(length)) == Pointers(0, 0, 0) && WordCount(Zeros(length)) > 0
  {
  }

  /** Any file in which the scan comes to nothing unread will do as well. */
  lemma RunFromFileRefinesFifo(mem: seq<byte>, ops: seq<Op>)
    requires IsBuffer(mem) && NothingUnread(mem)
    requires (FoundIsGood(mem); RunAllowed(Reopened(mem), FoundLayout(mem), ops))
    ensures (FoundIsGood(mem);
            FifoAccepts(WordCount(mem), Fifo([], false), Events(Reopened(mem), FoundLayout(mem), ops)))
  {
    hide Geometry, Stored, Held, NothingUnread, Scan, RunAllowed, Events, FifoAccepts;
    FoundIsGood(mem);
    RunRefinesFifo(Reopened(mem), FoundLayout(mem), ops);
    assert View(Reopened(mem), FoundLayout(mem)) == Fifo([], false);
  }

  // ---------- states that a queue can really be in ----------

  /** The operations lead to the state from a zero-filled buffer. */
  ghost predicate Leads(length: nat, ops: seq<Op>, s: State, l: Layout) {
    && IsBuffer(Zeros(length))
    && (FreshIsGood(length);
        RunAllowed(Fresh(length), EMPTY, ops) && EndOfRun(Fresh(length), EMPTY, ops) == (s, l))
  }

  ghost predicate Reachable(s: State, l: Layout) {
    exists length: nat, ops: seq<Op> :: Leads(length, ops, s, l)
  }

  lemma ReachableIsGood(s: State, l: Layout)
    requires Reachable(s, l)
    ensures Good(s, l)
  {
    hide Good, RunAllowed;
  }

  lemma {:induction false} RunAppend(s: State, l: Layout, ops: seq<Op>, op: Op)
    requires Good(s, l) && RunAllowed(s, l, ops)
    requires var (s', l') := EndOfRun(s, l, ops); Allowed(s', l', op)
    ensures RunAllowed(s, l, ops + [op])
    ensures var (s', l') := EndOfRun(s, l, ops);
            var r := Perform(s', l', op);
            EndOfRun(s, l, ops + [op]) == (r.state, r.layout)
    decreases |ops|
  {
    hide Good, Allowed, Perform;
    if ops == [] {
      StepKeepsGood(s, l, op);
      assert ops + [op] == [op] && [op][1..] == [];
    } else {
      StepKeepsGood(s, l, ops[0]);
      var r := Perform(s, l, ops[0]);
      RunAppend(r.state, r.layout, ops[1..], op);
      assert (ops + [op])[1..] == ops[1..] + [op];
    }
  }

  lemma ReachableStep(s: State, l: Layout, op: Op)
    requires Reachable(s, l) && (ReachableIsGood(s, l); Allowed(s, l, op))
    ensures (ReachableIsGood(s, l); Reachable(Perform(s, l, op).state, Perform(s, l, op).layout))
  {
    hide Good, Allowed, Perform, RunAllowed;
    ReachableIsGood(s, l);
    var length: nat, ops: seq<Op> :| Leads(length, ops, s, l);
    FreshIsGood(length);
    RunAppend(Fresh(length), EMPTY, ops, op);
    assert Leads(length, ops + [op], Perform(s, l, op).state, Perform(s, l, op).layout);
  }

  // ---------- exactly which restarts keep the list ----------

  /** Where the read pointer comes to when `k` messages are completed. */
  function Trail(mem: seq<byte>, ptr: nat, k: nat): nat
    requires 0 < WordCount(mem) && ptr < WordCount(mem)
    decreases k
  {
    if k == 0 then ptr else Trail(MarkRead(mem, ptr), NextMessage(MarkRead(mem, ptr), ptr), k - 1)
  }

  /** A queue that delivers a list ends at its write pointer. */
  lemma {:induction false} DeliveryEndsAtWrite(s: State, ms: seq<Msg>)
    requires IsState(s) && Delivers(s, ms)
    ensures Trail(s.mem, s.readPtr, |ms|) == s.writePtr
    decreases |ms|
  {
    hide IsPending, NextMessage, MarkRead, IsBuffer;
    if ms != [] {
      DeliveryEndsAtWrite(CompleteRead(ReadHead(s).0).0, ms[1..]);
    }
  }

  /** Two of the pointers are enough: the back-link is then right too. */
  lemma PointersDecide(s: State, l: Layout)
    requires Good(s, l) && StartupEnds(s.mem)
    requires Recover(s.mem).readPtr == s.readPtr && Recover(s.mem).writePtr == s.writePtr
    ensures Recoverable(s, l)
  {
    hide IsEnd, Tiles, Stored, Held, NextMessage, AllHeld, Linked, IsPending, IsValid, MarkAll, Scan, Walk,
      Geometry, FirstScan, FlushFromZero, RestartClear, Clean;
    RestartExact(s, l);
    if Lap(l) == [] {
      RestartEmpty(s, l);
    } else if s.writePtr == 0 {
      RestartFromWordZero(s, l);
    } else {
      ScanIffClear(s, l);
    }
  }

  ghost predicate RestartKeeps(mem: seq<byte>, ms: seq<Msg>)
    requires IsBuffer(mem)
  {
    StartupEnds(mem) && Delivers(Reopened(mem), ms)
  }

  /** A restart keeps the list exactly when it finds the pointers, or when the list is empty and no message turns up. */
  lemma RestartKeepsListIff(s: State, l: Layout)
    requires Good(s, l)
    ensures RestartKeeps(s.mem, l.Unread()) <==> Allowed(s, l, Restart)
  {
    hide Geometry, Stored, Held, Recoverable, NothingUnread, Walk, Scan, Tiles, Linked, IsEnd, FirstScan, Clean, RestartClear;
    if Allowed(s, l, Restart) {
      RestartEnds(s, l);
      RestartKeepsGood(s, l);
      DrainsIffClean(Reopened(s.mem), Perform(s, l, Restart).layout);
    } else if RestartKeeps(s.mem, l.Unread()) {
      DrainsIffClean(s, l);
      PeekFacts(s, l);
      if l.upper == [] {
        NothingDelivered(s.mem);
      } else {
        DeliveryEndsAtWrite(s, l.Unread());
        DeliveryEndsAtWrite(Reopened(s.mem), l.Unread());
        HeadIsFirst(s, l);
        PointersDecide(s, l);
      }
      assert false;
    }
  }

  lemma NothingDelivered(mem: seq<byte>)
    requires IsBuffer(mem) && StartupEnds(mem)
    requires Delivers(Reopened(mem), [])
    ensures NothingUnread(mem)
  {
    hide IsPending, Scan;
    if NeedsWalk(FirstScan(mem)) {
      ScanInRange(mem, 0, 0, 0, true);
      WalkResult(mem, 0, WordCount(mem));
    }
  }

  lemma RunFromFreshRefinesFifo(length: nat, ops: seq<Op>)
    requires IsBuffer(Zeros(length)) && (FreshIsGood(length); RunAllowed(Fresh(length), EMPTY, ops))
    ensures (FreshIsGood(length); FifoAccepts(length / 4, Fifo([], false), Events(Fresh(length), EMPTY, ops)))
  {
    FreshIsGood(length);
    RunRefinesFifo(Fresh(length), EMPTY, ops);
    assert View(Fresh(length), EMPTY) == Fifo([], false);
  }
}
