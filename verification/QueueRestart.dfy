/** Start of day: finding the pointers again from the bytes alone. */
module QueueRestart {
  import opened Bytes
  import opened QueueFormat
  import opened QueueSteps
  import opened QueueLayout

  datatype Found = Hangs | Stops(ptr: nat)

  /** The backward walk does not go on from `ptr`: its back-link names itself or no valid unread message. */
  predicate Blocked(mem: seq<byte>, ptr: nat)
    requires HeaderFits(mem, ptr)
  {
    var prev := PrevHeader(mem, ptr);
    prev == ptr || !IsPending(mem, prev)
  }

  /** The backward walk from `ptr`, given up after `hops` turns. */
  function Walk(mem: seq<byte>, ptr: nat, hops: nat): Found
    requires HeaderFits(mem, ptr)
    decreases hops
  {
    if hops == 0 then Hangs
    else if Blocked(mem, ptr) then Stops(ptr)
    else if PrevHeader(mem, ptr) == 0 then Stops(0)
    else Walk(mem, PrevHeader(mem, ptr), hops - 1)
  }

  /** The walk is tried only when the scan stopped behind unread messages that start at word 0. */
  predicate NeedsWalk(p: Pointers) {
    p.readPtr == 0 && p.writePtr != 0
  }

  predicate StartupEnds(mem: seq<byte>)
    requires IsBuffer(mem)
  {
    NeedsWalk(FirstScan(mem)) ==> Walk(mem, 0, WordCount(mem)).Stops?
  }

  function Recover(mem: seq<byte>): Pointers
    requires IsBuffer(mem) && StartupEnds(mem)
  {
    var p := FirstScan(mem);
    if NeedsWalk(p) then p.(readPtr := Walk(mem, 0, WordCount(mem)).ptr) else p
  }

  // ---------- termination of the walk ----------

  lemma {:induction false} MoreHops(mem: seq<byte>, ptr: nat, hops: nat, more: nat)
    requires HeaderFits(mem, ptr) && hops <= more && Walk(mem, ptr, hops).Stops?
    ensures Walk(mem, ptr, more) == Walk(mem, ptr, hops)
    decreases hops
  {
    if !Blocked(mem, ptr) && PrevHeader(mem, ptr) != 0 {
      MoreHops(mem, PrevHeader(mem, ptr), hops - 1, more - 1);
    }
  }

  /** A walk that needs all of its hops passes through that many different words. */
  lemma {:induction false} HopsAreDistinct(mem: seq<byte>, ptr: nat, hops: nat) returns (visited: set<nat>)
    requires HeaderFits(mem, ptr) && hops > 0
    requires Walk(mem, ptr, hops).Stops? && Walk(mem, ptr, hops - 1).Hangs?
    ensures |visited| == hops
    ensures forall q :: q in visited ==> HeaderFits(mem, q) && Walk(mem, q, hops).Stops?
    decreases hops
  {
    if hops == 1 {
      visited := {ptr};
    } else {
      var rest := HopsAreDistinct(mem, PrevHeader(mem, ptr), hops - 1);
      visited := rest + {ptr};
      forall q | q in visited
        ensures HeaderFits(mem, q) && Walk(mem, q, hops).Stops?
      {
        if q in rest {
          MoreHops(mem, q, hops - 1, hops);
        }
      }
    }
  }

  lemma {:induction false} SetBelow(s: set<nat>, n: nat)
    requires forall q :: q in s ==> q < n
    ensures |s| <= n
    decreases n
  {
    if n == 0 {
      assert s == {};
    } else {
      SetBelow(s - {n - 1}, n - 1);
    }
  }

  lemma {:induction false} FewHops(mem: seq<byte>, ptr: nat, hops: nat)
    requires IsBuffer(mem) && HeaderFits(mem, ptr) && Walk(mem, ptr, hops).Stops?
    ensures Walk(mem, ptr, WordCount(mem)) == Walk(mem, ptr, hops)
    decreases hops
  {
    if hops <= WordCount(mem) {
      MoreHops(mem, ptr, hops, WordCount(mem));
    } else if Walk(mem, ptr, hops - 1).Stops? {
      FewHops(mem, ptr, hops - 1);
      MoreHops(mem, ptr, hops - 1, hops);
    } else {
      var visited := HopsAreDistinct(mem, ptr, hops);
      SetBelow(visited, WordCount(mem));
      assert false;
    }
  }

  /** The walk ends, however many hops it is given, exactly when it ends within as many hops as there are words. */
  lemma WalkEndsWithinBuffer(mem: seq<byte>, ptr: nat)
    requires IsBuffer(mem) && HeaderFits(mem, ptr)
    ensures (exists hops: nat :: Walk(mem, ptr, hops).Stops?) <==> Walk(mem, ptr, WordCount(mem)).Stops?
  {
    if hops: nat :| Walk(mem, ptr, hops).Stops? {
      FewHops(mem, ptr, hops);
    }
  }

  // ---------- any file contents ----------

  lemma {:induction false} ScanInRange(mem: seq<byte>, at: nat, readPtr: nat, prevPtr: nat, lastRead: bool)
    requires IsBuffer(mem) && at < WordCount(mem) && readPtr < WordCount(mem) && prevPtr < WordCount(mem)
    requires !lastRead ==> IsPending(mem, readPtr)
    requires lastRead ==> readPtr == 0
    ensures var p := Scan(mem, at, readPtr, prevPtr, lastRead);
            && p.readPtr < WordCount(mem) && p.writePtr < WordCount(mem) && p.prevPtr < WordCount(mem)
            && (p.readPtr == p.writePtr || IsPending(mem, p.readPtr))
            && (p.writePtr == 0 || p.writePtr >= at)
    decreases |mem| - at
  {
    if IsValid(mem, at) && (!IsRead(mem, at) || lastRead) && NextMessage(mem, at) != 0 {
      ScanInRange(mem, NextMessage(mem, at), if !IsRead(mem, at) && lastRead then at else readPtr, at, IsRead(mem, at));
    }
  }

  lemma {:induction false} WalkResult(mem: seq<byte>, ptr: nat, hops: nat)
    requires IsPending(mem, ptr) && Walk(mem, ptr, hops).Stops?
    ensures var q := Walk(mem, ptr, hops).ptr;
            IsPending(mem, q) && (q == 0 || Blocked(mem, q))
    decreases hops
  {
    if !Blocked(mem, ptr) && PrevHeader(mem, ptr) != 0 {
      WalkResult(mem, PrevHeader(mem, ptr), hops - 1);
    }
  }

  /**
   * Whatever the file holds, pointers that are found are in range,
   * and they either say "empty or full" or name a valid, unread message.
   */
  lemma StartupOnAnyContents(mem: seq<byte>)
    requires IsBuffer(mem) && StartupEnds(mem)
    ensures var p := Recover(mem);
            && p.readPtr < WordCount(mem) && p.writePtr < WordCount(mem) && p.prevPtr < WordCount(mem)
            && (p.readPtr == p.writePtr || IsPending(mem, p.readPtr))
  {
    ScanInRange(mem, 0, 0, 0, true);
    if NeedsWalk(FirstScan(mem)) {
      WalkResult(mem, 0, WordCount(mem));
    }
  }

  /** The handle that start of day builds over the bytes left behind. */
  function Reopened(mem: seq<byte>): (s: State)
    requires IsBuffer(mem) && StartupEnds(mem)
    ensures IsState(s)
  {
    StartupOnAnyContents(mem);
    var p := Recover(mem);
    State(mem, p.readPtr, p.writePtr, p.prevPtr, false)
  }

  // ---------- files without unread messages ----------

  /** The scan from word 0 comes to no unread message. */
  predicate NothingUnread(mem: seq<byte>) {
    var p := FirstScan(mem);
    p.readPtr == p.writePtr && !IsPending(mem, p.readPtr)
  }

  /** The read messages one after the other, from the one at `at`. */
  function ReadChain(mem: seq<byte>, at: nat): seq<Msg>
    decreases |mem| - at
  {
    if !IsPassed(mem, at) then []
    else
      var next := NextMessage(mem, at);
      [Msg(at, Payload(mem, at), PrevHeader(mem, at))] + (if next == 0 then [] else ReadChain(mem, next))
  }

  predicate IsPassed(mem: seq<byte>, at: nat) {
    IsValid(mem, at) && IsRead(mem, at)
  }

  function FoundLayout(mem: seq<byte>): Layout {
    Layout(if FirstScan(mem).writePtr == 0 then [] else ReadChain(mem, 0), [], [])
  }

  lemma {:induction false} ScanKeepsFirst(mem: seq<byte>, at: nat, readPtr: nat, prevPtr: nat)
    ensures Scan(mem, at, readPtr, prevPtr, false).readPtr == readPtr
    decreases |mem| - at
  {
    if IsPending(mem, at) && NextMessage(mem, at) != 0 {
      ScanKeepsFirst(mem, NextMessage(mem, at), readPtr, at);
    }
  }

  lemma PassedMsg(mem: seq<byte>, at: nat)
    requires IsBuffer(mem) && IsPassed(mem, at)
    ensures var m := Msg(at, Payload(mem, at), PrevHeader(mem, at));
            && Held(mem, m, true)
            && (NextMessage(mem, at) != 0 ==> EndPtr(m) == NextMessage(mem, at) && !IsEnd(mem, EndPtr(m)))
  {
    var m := Msg(at, Payload(mem, at), PrevHeader(mem, at));
    PassedIsHeld(mem, m);
    hide IsEnd, IsPassed, Held, Payload, PrevHeader;
    HeldNext(mem, m, true);
  }

  lemma PassedIsHeld(mem: seq<byte>, m: Msg)
    requires IsBuffer(mem) && IsPassed(mem, m.ptr)
    requires m.payload == Payload(mem, m.ptr) && m.prev == PrevHeader(mem, m.ptr)
    ensures Held(mem, m, true)
  {
    hide Stored;
  }

  lemma TilesPrepend(m: Msg, ms: seq<Msg>, to: nat)
    requires Tiles(ms, EndPtr(m), to)
    ensures Tiles([m] + ms, m.ptr, to)
  {
    TilesNothing(m.ptr);
    TilesAppend([], m.ptr, m.ptr, m);
    assert [] + [m] == [m];
    TilesConcat([m], m.ptr, EndPtr(m), ms, to);
  }

  /** A scan through read messages only has met a tiling of them. */
  lemma {:induction false} ScanOfRead(mem: seq<byte>, at: nat, prevPtr: nat)
    requires IsBuffer(mem) && at < WordCount(mem) && prevPtr < WordCount(mem)
    requires var p := Scan(mem, at, 0, prevPtr, true); p.readPtr == p.writePtr != 0 && !IsPending(mem, p.readPtr)
    ensures var p, c := Scan(mem, at, 0, prevPtr, true), ReadChain(mem, at);
            && Tiles(c, at, p.writePtr) && AllHeld(mem, c, true)
            && (if c == [] then p.writePtr == at && p.prevPtr == prevPtr
                else p.prevPtr == c[|c| - 1].ptr && !IsEnd(mem, p.writePtr))
    decreases |mem| - at
  {
    hide IsEnd, IsValid, IsRead, Held, NextMessage, Tiles, AllHeld, ReadChain;
    var next := NextMessage(mem, at);
    ChainStep(mem, at);
    TilesNothing(at);
    if IsPending(mem, at) {
      if next != 0 {
        ScanKeepsFirst(mem, next, at, at);
      }
      assert false;
    } else if IsPassed(mem, at) {
      hide IsPending;
      PassedMsg(mem, at);
      ScanOfRead(mem, next, at);
      var m, chain := ReadChain(mem, at)[0], ReadChain(mem, next);
      assert ReadChain(mem, at) == [m] + chain;
      TilesPrepend(m, chain, Scan(mem, next, 0, at, true).writePtr);
      HeldPrepend(mem, m, chain);
    }
  }

  lemma ChainStep(mem: seq<byte>, at: nat)
    ensures !IsPassed(mem, at) ==> ReadChain(mem, at) == [] && AllHeld(mem, [], true)
    ensures IsPassed(mem, at) && NextMessage(mem, at) != 0 ==>
              ReadChain(mem, at) == [Msg(at, Payload(mem, at), PrevHeader(mem, at))] + ReadChain(mem, NextMessage(mem, at))
  {
    hide IsPassed, NextMessage;
  }

  lemma HeldPrepend(mem: seq<byte>, m: Msg, ms: seq<Msg>)
    requires Held(mem, m, true) && AllHeld(mem, ms, true)
    ensures AllHeld(mem, [m] + ms, true)
  {
    hide Held;
  }

  /** From any file in which the scan comes to nothing unread, start of day makes an empty queue that is in order. */
  lemma FoundIsGood(mem: seq<byte>)
    requires IsBuffer(mem) && NothingUnread(mem)
    ensures StartupEnds(mem) && Good(Reopened(mem), FoundLayout(mem))
  {
    hide Stored, Held, IsEnd, IsPending, Scan, Tiles;
    var s, l := Reopened(mem), FoundLayout(mem);
    StartupOnAnyContents(mem);
    if s.writePtr == 0 {
      TilesNothing(0);
    } else {
      ScanOfRead(mem, 0, 0);
      FoundGeometry(s, l);
    }
    assert l.Unread() == [] && MarkAll(s.mem, l.Unread()) == s.mem;
  }

  lemma FoundGeometry(s: State, l: Layout)
    requires IsState(s) && l.upper == [] && l.lower == []
    requires Tiles(l.done, 0, s.writePtr) && s.readPtr == s.writePtr
    ensures Geometry(s, l)
  {
    TilesNothing(s.readPtr);
  }

  // ---------- from a good state ----------

  /** None of the messages ends flush with the buffer, so the code finds every one of them valid. */
  predicate Visible(mem: seq<byte>, ms: seq<Msg>) {
    forall i :: 0 <= i < |ms| ==> !IsFlush(ms[i], |mem|)
  }

  predicate AllVisible(s: State, l: Layout) {
    Visible(s.mem, l.All())
  }

  /** A message that ends flush with the buffer fills it from word 0 on. */
  predicate FlushFromZero(s: State, l: Layout) {
    forall i :: 0 <= i < |l.All()| && IsFlush(l.All()[i], |s.mem|) ==> l.All()[i].ptr == 0
  }

  /** The messages the forward scan meets from word 0 on. */
  function Lap(l: Layout): seq<Msg> {
    if l.lower == [] then l.done + l.upper else l.lower
  }

  /** How many of them are read. */
  function ReadInLap(l: Layout): nat {
    if l.lower == [] then |l.done| else 0
  }

  /**
   * What the bytes have to look like beyond the stored messages for a restart to find the same pointers:
   * nothing the scan would go on to at the write pointer, and nothing the walk would go on to before the oldest
   * unread message.
   */
  ghost predicate RestartClear(s: State, l: Layout)
    requires Shape(s, l)
  {
    s.writePtr != 0 ==>
      && !IsPending(s.mem, s.writePtr)
      && (l.upper == [] ==> !IsValid(s.mem, s.writePtr))
      && (l.lower != [] ==> Blocked(s.mem, s.readPtr))
      && (l.lower == [] && l.upper != [] && s.readPtr == 0 ==>
            Walk(s.mem, 0, WordCount(s.mem)) == Stops(0))
  }

  ghost predicate Recoverable(s: State, l: Layout)
    requires Shape(s, l)
  {
    RestartClear(s, l) && FlushFromZero(s, l)
  }

  /** Only the last message of a tiling can end flush with the buffer. */
  lemma FlushIsLast(mem: seq<byte>, ms: seq<Msg>, from: nat, to: nat, i: nat)
    requires IsBuffer(mem) && Tiles(ms, from, to) && to <= WordCount(mem) && i < |ms| && IsFlush(ms[i], |mem|)
    ensures i == |ms| - 1 && to == EndPtr(ms[i]) == WordCount(mem)
  {
    TilesWithin(ms, from, to, i);
    TilesWithin(ms, from, to, |ms| - 1);
  }

  /** The scan from the `i`-th of a chain of stored messages, the first `r` of which are read. */
  ghost predicate Chain(mem: seq<byte>, ms: seq<Msg>, r: nat) {
    && r <= |ms|
    && (forall i :: 0 <= i < |ms| ==> Held(mem, ms[i], i < r) && !IsFlush(ms[i], |mem|))
    && (forall i :: 0 <= i < |ms| - 1 ==> Follows(mem, ms, i))
  }

  predicate Follows(mem: seq<byte>, ms: seq<Msg>, i: nat)
    requires i + 1 < |ms|
  {
    NextMessage(mem, ms[i].ptr) == ms[i + 1].ptr != 0
  }

  function FirstUnread(ms: seq<Msg>, r: nat, i: nat): nat {
    if r < i && r < |ms| then ms[r].ptr else 0
  }

  lemma {:induction false} ScanChain(mem: seq<byte>, ms: seq<Msg>, r: nat, i: nat, prevPtr: nat)
    requires Chain(mem, ms, r) && i < |ms|
    ensures var last := ms[|ms| - 1].ptr;
            var next := NextMessage(mem, last);
            var first := FirstUnread(ms, r, |ms|);
            Scan(mem, ms[i].ptr, FirstUnread(ms, r, i), prevPtr, i <= r)
            == if next == 0 then Pointers(first, 0, last) else Scan(mem, next, first, last, r == |ms|)
    decreases |ms| - i
  {
    hide Stored, Held, NextMessage;
    HeldValidity(mem, ms[i], i < r);
    if i + 1 < |ms| {
      assert Follows(mem, ms, i);
      ScanChain(mem, ms, r, i + 1, ms[i].ptr);
    }
  }

  lemma LapHeld(s: State, l: Layout)
    requires Shape(s, l)
    ensures forall i :: 0 <= i < |Lap(l)| ==> Held(s.mem, Lap(l)[i], i < ReadInLap(l))
  {
    hide Stored, Held, Geometry, Linked, IsState, FirstScan;
  }

  lemma LapTiles(s: State, l: Layout)
    requires IsState(s) && Geometry(s, l)
    ensures var end := EndOf(Lap(l), 0);
            Tiles(Lap(l), 0, end) && end <= WordCount(s.mem) && s.writePtr == WrapEnd(end, WordCount(s.mem))
  {
    hide Tiles, IsBuffer, IsEnd;
    if l.lower == [] {
      var mid, end := EndOf(l.done, 0), EndOf(l.upper, s.readPtr);
      if l.upper == [] {
        assert l.done + l.upper == l.done;
      } else {
        TilesConcat(l.done, 0, mid, l.upper, end);
      }
    } else {
      TilesNext(l.lower, 0, s.writePtr, 0);
    }
  }

  lemma LapNext(s: State, l: Layout, i: nat)
    requires Good(s, l) && i < |Lap(l)|
    ensures NextMessage(s.mem, Lap(l)[i].ptr) == if i + 1 < |Lap(l)| then Lap(l)[i + 1].ptr else s.writePtr
    ensures Lap(l)[i].ptr == 0 <==> i == 0
  {
    hide Tiles, IsBuffer, IsEnd, Stored, Held, NextMessage, AllHeld, Linked, IsFlush, IsPending, MarkAll, Geometry, FirstScan;
    var ms, r, end := Lap(l), ReadInLap(l), EndOf(Lap(l), 0);
    LapTiles(s, l);
    LapHeld(s, l);
    CleanMarker(s, l);
    TilesNext(ms, 0, end, i);
    HeldNext(s.mem, ms[i], i < r);
    if i > 0 {
      TilesNext(ms, 0, end, i - 1);
    }
    if i + 1 < |ms| {
      HeldValidity(s.mem, ms[i + 1], i + 1 < r);
      TilesNext(ms, 0, end, i + 1);
    }
  }

  /** The first `k` messages of the lap. */
  lemma LapChain(s: State, l: Layout, k: nat)
    requires Good(s, l) && 0 < k <= |Lap(l)| && Visible(s.mem, Lap(l)[..k])
    ensures Chain(s.mem, Lap(l)[..k], if ReadInLap(l) < k then ReadInLap(l) else k)
    ensures Lap(l)[0].ptr == 0
    ensures NextMessage(s.mem, Lap(l)[k - 1].ptr) == if k < |Lap(l)| then Lap(l)[k].ptr else s.writePtr
  {
    hide Tiles, IsBuffer, IsEnd, Stored, Held, NextMessage, AllHeld, Linked, IsFlush, IsPending, MarkAll, Geometry, FirstScan;
    var ms := Lap(l)[..k];
    LapHeld(s, l);
    forall i | 0 <= i < k - 1
      ensures Follows(s.mem, ms, i)
    {
      LapNext(s, l, i);
      LapNext(s, l, i + 1);
    }
    LapNext(s, l, 0);
    LapNext(s, l, k - 1);
  }

  lemma CleanMarker(s: State, l: Layout)
    requires Good(s, l)
    ensures s.writePtr != 0 ==> !IsEnd(s.mem, s.writePtr)
  {
  }

  /** What the scan finds when it reaches the write pointer. */
  lemma ScanOfLap(s: State, l: Layout)
    requires Good(s, l) && Visible(s.mem, Lap(l)) && Lap(l) != []
    ensures var first := FirstUnread(Lap(l), ReadInLap(l), |Lap(l)|);
            FirstScan(s.mem) ==
            if s.writePtr == 0 then Pointers(first, 0, s.prevPtr)
            else Scan(s.mem, s.writePtr, first, s.prevPtr, ReadInLap(l) == |Lap(l)|)
  {
    hide Tiles, IsBuffer, IsEnd, Stored, Held, NextMessage, AllHeld, Linked, IsFlush, IsPending, MarkAll, Geometry, Scan;
    assert Lap(l)[..|Lap(l)|] == Lap(l);
    LapChain(s, l, |Lap(l)|);
    ScanChain(s.mem, Lap(l), ReadInLap(l), 0, 0);
    LastOfLap(l);
  }

  /** A last message that ends flush with the buffer stops the scan. */
  lemma ScanOfFlushLap(s: State, l: Layout)
    requires Good(s, l) && Lap(l) != [] && IsFlush(Lap(l)[|Lap(l)| - 1], |s.mem|)
    ensures FirstScan(s.mem).writePtr == Lap(l)[|Lap(l)| - 1].ptr
    ensures |Lap(l)| == 1 ==> FirstScan(s.mem) == Pointers(0, 0, 0)
  {
    hide Tiles, IsBuffer, IsEnd, Stored, Held, NextMessage, AllHeld, Linked, IsFlush, IsPending, MarkAll, Geometry, IsValid;
    var ms, k := Lap(l), |Lap(l)| - 1;
    LapHeld(s, l);
    HeldValidity(s.mem, ms[k], k < ReadInLap(l));
    LapNext(s, l, k);
    if k == 0 {
      LapNext(s, l, 0);
    } else {
      VisibleButLast(s, l);
      LapChain(s, l, k);
      ScanChain(s.mem, ms[..k], if ReadInLap(l) < k then ReadInLap(l) else k, 0, 0);
    }
  }

  lemma VisibleButLast(s: State, l: Layout)
    requires IsState(s) && Geometry(s, l) && Lap(l) != []
    ensures Visible(s.mem, Lap(l)[..|Lap(l)| - 1])
    ensures s.writePtr != 0 ==> Visible(s.mem, Lap(l))
  {
    hide Tiles, IsBuffer, IsEnd, IsFlush, Geometry;
    LapTiles(s, l);
    forall i | 0 <= i < |Lap(l)| && IsFlush(Lap(l)[i], |s.mem|)
      ensures i == |Lap(l)| - 1 && s.writePtr == 0
    {
      FlushIsLast(s.mem, Lap(l), 0, EndOf(Lap(l), 0), i);
    }
  }

  lemma LastOfLap(l: Layout)
    requires Lap(l) != []
    ensures l.All()[|l.All()| - 1] == Lap(l)[|Lap(l)| - 1]
  {
  }

  lemma ScanBeyond(mem: seq<byte>, at: nat, readPtr: nat, prevPtr: nat, lastRead: bool)
    requires IsBuffer(mem) && 0 < at < WordCount(mem) && readPtr < WordCount(mem) && prevPtr < WordCount(mem)
    requires !lastRead ==> IsPending(mem, readPtr)
    requires lastRead ==> readPtr == 0
    ensures var p := Scan(mem, at, readPtr, prevPtr, lastRead);
            if IsPending(mem, at) || (lastRead && IsValid(mem, at)) then p.writePtr != at
            else p == Pointers(if lastRead then at else readPtr, at, prevPtr)
  {
    var next := NextMessage(mem, at);
    if (IsPending(mem, at) || (lastRead && IsValid(mem, at))) && next != 0 {
      ScanInRange(mem, next, if !IsRead(mem, at) && lastRead then at else readPtr, at, IsRead(mem, at));
    }
  }

  /** Before the walk: where the scan stops is the write pointer exactly when it has nothing to go on to there. */
  lemma ScanIffClear(s: State, l: Layout)
    requires Good(s, l) && Lap(l) != [] && s.writePtr != 0
    ensures var p := FirstScan(s.mem);
            if IsPending(s.mem, s.writePtr) || (l.upper == [] && IsValid(s.mem, s.writePtr)) then p.writePtr != s.writePtr
            else p == Pointers(if l.lower == [] then s.readPtr else 0, s.writePtr, s.prevPtr)
  {
    hide Tiles, IsEnd, Stored, Held, NextMessage, AllHeld, Linked, IsFlush, MarkAll, Scan, Geometry;
    var ms, r := Lap(l), ReadInLap(l);
    var first := FirstUnread(ms, r, |ms|);
    VisibleButLast(s, l);
    ScanOfLap(s, l);
    LapHeld(s, l);
    if r < |ms| {
      HeldValidity(s.mem, ms[r], false);
    }
    FirstOfLap(s, l);
    ScanBeyond(s.mem, s.writePtr, first, s.prevPtr, r == |ms|);
  }

  lemma FirstOfLap(s: State, l: Layout)
    requires IsState(s) && Geometry(s, l) && Lap(l) != []
    ensures l.upper == [] <==> ReadInLap(l) == |Lap(l)|
    ensures l.upper != [] ==> FirstUnread(Lap(l), ReadInLap(l), |Lap(l)|) == if l.lower == [] then s.readPtr else 0
    ensures l.upper == [] ==> s.readPtr == s.writePtr
  {
    hide IsBuffer, IsEnd;
  }

  // ---------- the walk through the messages before the wrap ----------

  lemma UpperPending(s: State, l: Layout, i: nat)
    requires Shape(s, l) && l.lower != [] && i < |l.upper|
    ensures IsPending(s.mem, l.upper[i].ptr) <==> !IsFlush(l.upper[i], |s.mem|)
    ensures HeaderFits(s.mem, l.upper[i].ptr) && PrevHeader(s.mem, l.upper[i].ptr) == l.upper[i].prev
    ensures HeaderFits(s.mem, 0) && 0 < s.writePtr <= s.readPtr <= l.upper[i].ptr
    ensures i > 0 ==> l.upper[i].prev == l.upper[i - 1].ptr < l.upper[i].ptr
    ensures PrevHeader(s.mem, 0) == l.upper[|l.upper| - 1].ptr
  {
    hide IsBuffer, IsEnd, Tiles, Stored, Held, IsFlush, IsValid, FirstScan, IsRead, PrevHeader;
    var end := EndOf(l.upper, s.readPtr);
    TilesNext(l.upper, s.readPtr, end, i);
    TilesNext(l.lower, 0, s.writePtr, 0);
    HeldValidity(s.mem, l.lower[0], false);
    assert l.Unread()[|l.upper|] == l.lower[0];
    assert l.Unread()[|l.upper| - 1] == l.upper[|l.upper| - 1];
    assert l.Unread()[i] == l.upper[i];
    if i > 0 {
      assert l.Unread()[i - 1] == l.upper[i - 1];
      TilesNext(l.upper, s.readPtr, end, i - 1);
    }
    HeldValidity(s.mem, l.upper[i], false);
  }

  /** Every hop leads to the message before, which lies strictly lower. */
  lemma {:induction false} WalkThroughUpper(s: State, l: Layout, i: nat, hops: nat)
    requires Shape(s, l) && Visible(s.mem, l.upper) && l.lower != [] && i < |l.upper|
    ensures HeaderFits(s.mem, l.upper[i].ptr) && HeaderFits(s.mem, s.readPtr)
    ensures Walk(s.mem, l.upper[i].ptr, i + hops) == Walk(s.mem, s.readPtr, hops)
    decreases i
  {
    hide IsBuffer, IsEnd, Tiles, Stored, Held, IsFlush, IsPending, PrevHeader, Shape;
    UpperPending(s, l, i);
    if i > 0 {
      UpperPending(s, l, i - 1);
      WalkThroughUpper(s, l, i - 1, hops);
    } else {
      FirstUpper(s, l);
    }
  }

  lemma FirstUpper(s: State, l: Layout)
    requires Shape(s, l) && l.lower != []
    ensures l.upper != [] && l.upper[0].ptr == s.readPtr
  {
  }

  /** A message flush with the buffer's end is not valid, and the walk does not get past it. */
  lemma WalkStopsAtFlush(s: State, l: Layout)
    requires Shape(s, l) && l.lower != [] && !Visible(s.mem, l.upper)
    ensures HeaderFits(s.mem, 0) && Walk(s.mem, 0, WordCount(s.mem)) == Stops(0)
  {
    hide IsEnd, Tiles, Stored, Held, IsFlush, IsPending, PrevHeader;
    FirstUpper(s, l);
    var i :| 0 <= i < |l.upper| && IsFlush(l.upper[i], |s.mem|);
    FlushIsLast(s.mem, l.upper, s.readPtr, EndOf(l.upper, s.readPtr), i);
    UpperPending(s, l, i);
  }

  /**
   * After a wrap the walk ends at the read pointer exactly when that message's back-link leads nowhere and no message
   * on the way there ends flush with the buffer.
   */
  lemma WalkIffBlocked(s: State, l: Layout)
    requires Shape(s, l) && l.lower != []
    ensures HeaderFits(s.mem, s.readPtr) && HeaderFits(s.mem, 0)
    ensures Walk(s.mem, 0, WordCount(s.mem)) == Stops(s.readPtr) <==>
            Blocked(s.mem, s.readPtr) && Visible(s.mem, l.upper)
  {
    hide IsEnd, Tiles, Stored, Held, IsFlush, IsPending, PrevHeader, Visible, Geometry, FirstScan;
    FirstUpper(s, l);
    UpperPending(s, l, 0);
    if Visible(s.mem, l.upper) {
      WalkWhenVisible(s, l);
    } else {
      WalkStopsAtFlush(s, l);
    }
  }

  lemma WalkWhenVisible(s: State, l: Layout)
    requires Shape(s, l) && Visible(s.mem, l.upper) && l.lower != []
    ensures HeaderFits(s.mem, s.readPtr) && HeaderFits(s.mem, 0)
    ensures Walk(s.mem, 0, WordCount(s.mem)) == Stops(s.readPtr) <==> Blocked(s.mem, s.readPtr)
  {
    hide IsEnd, Tiles, Stored, Held, IsFlush, IsPending, PrevHeader, Geometry, FirstScan;
    FirstUpper(s, l);
    var last := |l.upper| - 1;
    UpperPending(s, l, last);
    WalkThroughUpper(s, l, last, 1);
    WalkThroughUpper(s, l, 0, 1);
    UpperPending(s, l, 0);
    assert Walk(s.mem, 0, 1 + last + 1) == Walk(s.mem, l.upper[last].ptr, last + 1);
    if Blocked(s.mem, s.readPtr) {
      FewHops(s.mem, 0, last + 2);
    } else if Walk(s.mem, 0, WordCount(s.mem)) == Stops(s.readPtr) {
      FewerHops(s.mem, 0, WordCount(s.mem));
    }
  }

  lemma FewerHops(mem: seq<byte>, ptr: nat, hops: nat)
    requires HeaderFits(mem, ptr) && Walk(mem, ptr, hops).Stops?
    ensures var q := Walk(mem, ptr, hops).ptr; q == 0 || (HeaderFits(mem, q) && Blocked(mem, q))
    decreases hops
  {
    if !Blocked(mem, ptr) && PrevHeader(mem, ptr) != 0 {
      FewerHops(mem, PrevHeader(mem, ptr), hops - 1);
    }
  }

  lemma RestartEmpty(s: State, l: Layout)
    requires Shape(s, l) && Lap(l) == []
    ensures s.readPtr == s.writePtr == 0
    ensures FirstScan(s.mem) == Pointers(0, 0, s.prevPtr)
    ensures FlushFromZero(s, l)
  {
    hide IsEnd, Stored, Held, AllHeld, Linked, FirstScan;
    if l.lower == [] {
      assert l.All() == [];
    }
  }

  lemma RestartAtZero(s: State, l: Layout)
    requires Shape(s, l) && Lap(l) != [] && s.writePtr == 0
    ensures FirstUnread(Lap(l), ReadInLap(l), |Lap(l)|) == s.readPtr
  {
    hide IsEnd, Stored, Held, AllHeld, Linked, Tiles;
    FirstOfLap(s, l);
    WrappedPositive(s, l);
  }

  lemma WrappedPositive(s: State, l: Layout)
    requires IsState(s) && Geometry(s, l)
    ensures l.lower != [] ==> 0 < s.writePtr <= s.readPtr
  {
    hide IsEnd, Tiles;
    if l.lower != [] {
      TilesNext(l.lower, 0, s.writePtr, 0);
    }
  }

  // ---------- the main result ----------

  /** The lap without a gap: when the write pointer is at word 0, all messages are in it. */
  lemma LapIsAll(s: State, l: Layout)
    requires IsState(s) && Geometry(s, l) && (s.writePtr == 0 || l.lower == [])
    ensures l.lower == [] && Lap(l) == l.All()
  {
    hide IsEnd, Tiles;
    WrappedPositive(s, l);
  }

  /** With the write pointer at word 0 the scan goes wrong exactly at a message that ends flush with the buffer. */
  lemma RestartFromWordZero(s: State, l: Layout)
    requires Good(s, l) && Lap(l) != [] && s.writePtr == 0
    ensures FirstScan(s.mem) == Pointers(s.readPtr, 0, s.prevPtr) <==> FlushFromZero(s, l)
    ensures !FlushFromZero(s, l) ==> FirstScan(s.mem).writePtr != 0
  {
    hide IsEnd, Tiles, Stored, Held, NextMessage, AllHeld, Linked, IsFlush, IsPending, IsValid, MarkAll, Scan, Geometry;
    var ms, last := Lap(l), |Lap(l)| - 1;
    LapIsAll(s, l);
    VisibleButLast(s, l);
    if Visible(s.mem, ms) {
      ScanOfLap(s, l);
      RestartAtZero(s, l);
    } else {
      assert IsFlush(ms[last], |s.mem|);
      ScanOfFlushLap(s, l);
      LapNext(s, l, last);
      if last == 0 {
        LoneFlushIsRead(s, l);
      }
    }
  }

  /** A message that fills the whole buffer flush can only be a read one. */
  lemma LoneFlushIsRead(s: State, l: Layout)
    requires Good(s, l) && l.lower == [] && |Lap(l)| == 1 && IsFlush(Lap(l)[0], |s.mem|) && s.writePtr == 0
    ensures s.readPtr == 0
  {
    hide IsEnd, Stored, Held, AllHeld, Linked, IsFlush, IsPending, MarkAll, FirstScan;
    if l.upper == [] {
      assert l.done == Lap(l);
    }
  }

  lemma FlushOnlyInUpper(s: State, l: Layout)
    requires Shape(s, l) && s.writePtr != 0
    ensures FlushFromZero(s, l) <==> (l.lower == [] || Visible(s.mem, l.upper))
  {
    hide IsEnd, Stored, Held, AllHeld, Linked, IsFlush, FirstScan, Tiles;
    if Lap(l) != [] {
      VisibleButLast(s, l);
    }
    if l.lower != [] {
      WrappedPositive(s, l);
      WrappedParts(s, l);
      forall i | 0 <= i < |l.All()|
        ensures l.All()[i] == if i < |l.upper| then l.upper[i] else l.lower[i - |l.upper|]
        ensures i < |l.upper| ==> l.All()[i].ptr > 0
      {
        if i < |l.upper| {
          TilesNext(l.upper, s.readPtr, EndOf(l.upper, s.readPtr), i);
        }
      }
      forall i | 0 <= i < |l.upper|
        ensures l.upper[i] == l.All()[i]
      {
      }
    }
  }

  /**
   * A restart finds the same three pointers exactly when the bytes beyond the stored messages are clear and none of
   * the messages ends flush with the buffer, unless it fills the buffer from word 0 on.
   */
  lemma RestartExact(s: State, l: Layout)
    requires Good(s, l)
    ensures StartupEnds(s.mem) && Recover(s.mem) == Pointers(s.readPtr, s.writePtr, s.prevPtr)
            <==> Recoverable(s, l)
  {
    hide IsEnd, Tiles, Stored, Held, NextMessage, AllHeld, Linked, IsFlush, IsPending, IsValid, MarkAll, Scan, Walk,
      Geometry, Blocked, FirstScan, Visible, FlushFromZero;
    if Lap(l) == [] {
      RestartEmpty(s, l);
    } else if s.writePtr == 0 {
      RestartFromWordZero(s, l);
    } else {
      ScanIffClear(s, l);
      FirstOfLap(s, l);
      FlushOnlyInUpper(s, l);
      if l.lower != [] {
        WalkIffBlocked(s, l);
        WrappedPositive(s, l);
        FirstUpper(s, l);
      }
    }
  }
}
