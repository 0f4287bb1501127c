/** What the queue's functions mean, on bytes and paths: for any state and any file, in order or not. */
module QueueMeaning {
  import opened Bytes
  import opened Crc8Remainder
  import opened QueueFormat
  import opened QueueSteps
  import opened QueueRestart
  import opened QueueWriting

  // ---------- the bytes of a message ----------

  function RemainderOf(payload: seq<byte>): nat {
    Number(Remainder(Polynomial(payload) + SEVEN_ZEROS))
  }

  /** Byte by byte: magic, version, checksum, flags, back-link, size, payload and zeros up to the next word. */
  lemma MessageBytes(payload: seq<byte>, prev: uint32, read: bool)
    requires |payload| <= MAX_PAYLOAD
    ensures var image, n := Image(payload, prev, read), |payload|;
            && |image| == 4 * MsgWords(payload) && |image| - 4 < 12 + n <= |image|
            && image[0] == 0xA5 && image[1] == 0x01 && image[2] == RemainderOf(payload)
            && image[3] == (if read then 1 else 0)
            && LittleEndian(image, 4, 4) == prev && LittleEndian(image, 8, 4) == n
            && image[12..12 + n] == payload
            && forall i :: 12 + n <= i < |image| ==> image[i] == 0
  {
    hide Crc8.Checksum, Number, Remainder, Polynomial;
    ChecksumIsRemainder(payload);
    Le32RoundTrip(prev);
    Le32RoundTrip(|payload|);
    var image := Image(payload, prev, read);
    assert image[4..8] == Le32(prev) && image[8..12] == Le32(|payload|);
    Get32Slice(image, 4, Le32(prev), 0);
    Get32Slice(image, 8, Le32(|payload|), 0);
    FourBytes(image, 4);
    FourBytes(image, 8);
  }

  /** What makes the bytes at a word a valid message, and what makes it a read one. */
  lemma ValidByBytes(mem: seq<byte>, ptr: nat)
    ensures var p := 4 * ptr;
            && (IsValid(mem, ptr) <==>
                  && p + 12 <= |mem|
                  && p + 12 + LittleEndian(mem, p + 8, 4) < |mem|
                  && mem[p] == 0xA5
                  && mem[p + 2] == RemainderOf(mem[p + 12..p + 12 + LittleEndian(mem, p + 8, 4)]))
            && (IsPending(mem, ptr) <==> IsValid(mem, ptr) && mem[p + 3] % 2 == 0)
  {
    hide Crc8.Checksum, Number, Remainder, Polynomial, LittleEndian;
    SizeField(mem, ptr);
    if InBounds(mem, ptr) {
      ChecksumIsRemainder(Payload(mem, ptr));
    }
  }

  /** The message after the one at `ptr`, by its size field. */
  lemma NextByBytes(mem: seq<byte>, ptr: nat)
    ensures var p := 4 * ptr;
            NextMessage(mem, ptr) ==
            if p + 12 > |mem| then 0
            else
              var size := LittleEndian(mem, p + 8, 4);
              var next := ptr + 3 + (if size > 0xFFFF_FFFC then 0 else (size + 3) / 4);
              if next >= |mem| / 4 || mem[4 * next..4 * next + 4] == [0xA5, 0x5A, 0xA5, 0x5A] then 0 else next
  {
    hide LittleEndian;
    SizeField(mem, ptr);
    if HeaderFits(mem, ptr) {
      RoundUpMeans(PayloadSize(mem, ptr));
    }
  }

  lemma SizeField(mem: seq<byte>, ptr: nat)
    ensures HeaderFits(mem, ptr) ==> PayloadSize(mem, ptr) == LittleEndian(mem, 4 * ptr + 8, 4)
  {
    hide LittleEndian;
    if HeaderFits(mem, ptr) {
      FourBytes(mem, 4 * ptr + 8);
    }
  }

  lemma RoundUpMeans(size: uint32)
    ensures BytesToWordsRoundUp(size) == if size > 0xFFFF_FFFC then 0 else (size + 3) / 4
  {
    if size > MAX_PAYLOAD {
      assert (size + 3) % TWO_TO_THE_32 == size + 3 - TWO_TO_THE_32;
    }
  }

  // ---------- paths ----------

  predicate Hop(mem: seq<byte>, path: seq<nat>, i: nat)
    requires i + 1 < |path|
  {
    path[i + 1] == NextMessage(mem, path[i])
  }

  /** Each word is the message after the one before. */
  predicate IsPath(mem: seq<byte>, path: seq<nat>) {
    path != [] && forall i :: 0 <= i < |path| - 1 ==> Hop(mem, path, i)
  }

  lemma PathPrepend(mem: seq<byte>, ptr: nat, path: seq<nat>)
    requires IsPath(mem, path) && path[0] == NextMessage(mem, ptr)
    ensures IsPath(mem, [ptr] + path)
  {
    hide NextMessage;
    var all := [ptr] + path;
    forall i | 0 <= i < |all| - 1
      ensures Hop(mem, all, i)
    {
      if i > 0 {
        assert Hop(mem, path, i - 1);
      }
    }
  }

  /** Skipping goes from message to message and stops at the first at or beyond the limit, or at word 0. */
  lemma {:induction false} AdvanceMeans(mem: seq<byte>, ptr: nat, limit: nat) returns (path: seq<nat>)
    ensures IsPath(mem, path) && |path| >= 2 && path[0] == ptr
    ensures forall i :: 0 < i < |path| - 1 ==> 0 < path[i] < limit
    ensures var last := path[|path| - 1];
            Advance(mem, ptr, limit) == last && (last == 0 || last >= limit)
    decreases |mem| - ptr
  {
    hide NextMessage;
    var next := NextMessage(mem, ptr);
    if next >= limit || next == 0 {
      path := [ptr, next];
      assert Hop(mem, path, 0);
    } else {
      var rest := AdvanceMeans(mem, next, limit);
      path := [ptr] + rest;
      PathPrepend(mem, ptr, rest);
    }
  }

  // ---------- the operations on any state ----------

  /** Reading: nothing exactly when the pointers meet at no valid unread message, and else the bytes the header says. */
  lemma ReadHeadMeans(s: State)
    requires IsState(s)
    ensures var (s', head) := ReadHead(s);
            && s' == s.(canComplete := s.canComplete || head != Nothing)
            && (head == Nothing <==> s.readPtr == s.writePtr && !IsPending(s.mem, s.readPtr))
            && (head.Message? ==>
                  var p := 4 * s.readPtr;
                  p + 12 + |head.payload| <= |s.mem| && LittleEndian(s.mem, p + 8, 4) == |head.payload|
                  && head.payload == s.mem[p + 12..p + 12 + |head.payload|])
            && (head == Overrun ==>
                  var p := 4 * s.readPtr; p + 12 > |s.mem| || p + 12 + LittleEndian(s.mem, p + 8, 4) > |s.mem|)
  {
    hide IsPending, LittleEndian;
    SizeField(s.mem, s.readPtr);
  }

  /** Completing: refused without permission; else the lowest bit of one flags byte is set, and no other byte changes. */
  lemma CompleteMeans(s: State)
    requires IsState(s)
    ensures var (s', ok) := CompleteRead(s);
            && ok == s.canComplete
            && (!ok ==> s' == s)
            && (ok ==>
                  var f := 4 * s.readPtr + 3;
                  && f < |s.mem| == |s'.mem|
                  && s'.mem[f] == s.mem[f] - s.mem[f] % 2 + 1
                  && (forall i :: 0 <= i < |s.mem| && i != f ==> s'.mem[i] == s.mem[i])
                  && s'.readPtr == NextMessage(s'.mem, s.readPtr)
                  && s'.writePtr == s.writePtr && s'.prevPtr == s.prevPtr && !s'.canComplete)
  {
    hide NextMessage;
  }

  /** What is refused: nothing to write, or a message with more words than the buffer. */
  lemma WriteAcceptsIff(s: State, payload: seq<byte>)
    requires IsState(s) && |payload| <= MAX_PAYLOAD
    ensures Write(s, payload).1 <==> payload != [] && 12 + |payload| <= |s.mem|
    ensures !Write(s, payload).1 ==> Write(s, payload).0 == s
  {
    hide Written;
  }

  /** Where a message goes, and what else changes: every byte is accounted for. */
  lemma WriteBytesMean(s: State, payload: seq<byte>)
    requires IsState(s) && Accepts(s, payload)
    ensures var s', n, words := Written(s, payload), |s.mem| / 4, MsgWords(payload);
            var fits := s.writePtr + words <= n;
            var at := if fits then s.writePtr else 0;
            && |s'.mem| == |s.mem| && at + words <= n
            && s'.mem[4 * at..4 * (at + words)] == Image(payload, s.prevPtr, false)
            && (!fits && s.writePtr >= words ==>
                  s'.mem[4 * s.writePtr..4 * s.writePtr + 4] == [0xA5, 0x5A, 0xA5, 0x5A])
            && (forall i :: 0 <= i < |s.mem| && i / 4 != s.writePtr && !(at <= i / 4 < at + words) ==>
                  s'.mem[i] == s.mem[i])
            && s'.prevPtr == at
            && s'.writePtr == if at + words == n then 0 else at + words
  {
    hide Image, Advance, Splice, IsEnd;
    WrittenMessage(s, payload);
    if Wraps(s, payload) && s.writePtr >= MsgWords(payload) {
      MarkerStored(s, payload);
      EndBytes(Written(s, payload).mem, s.writePtr);
    }
    forall i | 0 <= i < |s.mem| && i / 4 != s.writePtr && !(Target(s, payload) <= i / 4 < TargetEnd(s, payload))
      ensures Written(s, payload).mem[i] == s.mem[i]
    {
      ByteElsewhere(s, payload, i);
    }
  }

  lemma EndBytes(mem: seq<byte>, ptr: nat)
    requires IsEnd(mem, ptr)
    ensures 4 * ptr + 4 <= |mem| && mem[4 * ptr..4 * ptr + 4] == [0xA5, 0x5A, 0xA5, 0x5A]
  {
  }

  lemma ByteElsewhere(s: State, payload: seq<byte>, i: nat)
    requires IsState(s) && Accepts(s, payload) && i < |s.mem|
    requires i / 4 != s.writePtr && !(Target(s, payload) <= i / 4 < TargetEnd(s, payload))
    ensures Written(s, payload).mem[i] == s.mem[i]
  {
    hide Image, Advance;
  }

  /** The bytes that skipping goes by: those before the write, with the END marker if there is one. */
  function Marked(s: State, payload: seq<byte>): seq<byte>
    requires IsState(s)
  {
    if s.writePtr + MsgWords(payload) <= |s.mem| / 4 then s.mem
    else s.mem[..4 * s.writePtr] + [0xA5, 0x5A, 0xA5, 0x5A] + s.mem[4 * s.writePtr + 4..]
  }

  /**
   * What a write does to the read pointer and the permission, from any state. When the pointers meet, the new message
   * becomes the head; when the message covers the head strictly behind its own start, the read pointer goes from message
   * to message to the first one behind it, or to word 0, and the permission goes; else both stay.
   */
  lemma WritePointersMean(s: State, payload: seq<byte>) returns (path: seq<nat>)
    requires IsState(s) && Accepts(s, payload)
    ensures var s', words := Written(s, payload), MsgWords(payload);
            var at := if s.writePtr + words <= |s.mem| / 4 then s.writePtr else 0;
            if s.readPtr == s.writePtr then s'.readPtr == at && s'.canComplete == s.canComplete
            else if !(at < s.readPtr < at + words) then s'.readPtr == s.readPtr && s'.canComplete == s.canComplete
            else
              && !s'.canComplete
              && IsPath(Marked(s, payload), path) && |path| >= 2
              && path[0] == s.readPtr && path[|path| - 1] == s'.readPtr
              && (forall i :: 0 < i < |path| - 1 ==> 0 < path[i] < at + words)
              && (s'.readPtr == 0 || s'.readPtr >= at + words)
  {
    hide Image, Advance, NextMessage, IsPath;
    path := AdvanceMeans(WithMarker(s, payload), s.readPtr, TargetEnd(s, payload));
    assert WithMarker(s, payload) == Marked(s, payload);
  }

  // ---------- start of day on any file ----------

  /** What the scan has met: read messages and then unread ones, and where it stopped. */
  ghost predicate Met(mem: seq<byte>, at: nat, read: seq<nat>, unread: seq<nat>, stop: nat) {
    && IsPath(mem, read + unread + [stop])
    && (read + unread + [stop])[0] == at
    && (forall i :: 0 <= i < |read| ==> IsValid(mem, read[i]) && IsRead(mem, read[i]))
    && (forall i :: 0 <= i < |unread| ==> IsPending(mem, unread[i]))
    && (forall i :: 0 < i < |read + unread| ==> (read + unread)[i] != 0)
  }

  /** Why it stopped there: the end, no valid message, or a read message behind an unread one. */
  predicate StopsHere(mem: seq<byte>, some: bool, stop: nat, unread: bool) {
    (some && stop == 0) || !IsValid(mem, stop) || (unread && IsRead(mem, stop))
  }

  lemma MetPrepend(mem: seq<byte>, at: nat, read: seq<nat>, unread: seq<nat>, stop: nat)
    requires NextMessage(mem, at) != 0 && Met(mem, NextMessage(mem, at), read, unread, stop) && IsValid(mem, at)
    ensures IsRead(mem, at) ==> Met(mem, at, [at] + read, unread, stop)
    ensures !IsRead(mem, at) && read == [] ==> Met(mem, at, [], [at] + unread, stop)
  {
    hide NextMessage, IsValid, IsRead, IsPath;
    PathPrepend(mem, at, read + unread + [stop]);
    var all := read + unread;
    assert [at] + (read + unread + [stop]) == ([at] + read) + unread + [stop];
    assert ([at] + read) + unread == [at] + all;
    if all != [] {
      assert (read + unread + [stop])[0] == all[0];
    }
    if read == [] {
      assert [at] + (read + unread + [stop]) == [] + ([at] + unread) + [stop];
      assert [] + ([at] + unread) == [at] + all;
    }
  }

  lemma MetNothing(mem: seq<byte>, at: nat)
    ensures Met(mem, at, [], [], at)
  {
  }

  lemma MetOne(mem: seq<byte>, at: nat)
    requires IsValid(mem, at)
    ensures IsRead(mem, at) ==> Met(mem, at, [at], [], NextMessage(mem, at))
    ensures !IsRead(mem, at) ==> Met(mem, at, [], [at], NextMessage(mem, at))
  {
    hide NextMessage, IsRead;
    var path := [at, NextMessage(mem, at)];
    assert Hop(mem, path, 0);
    assert [at] + [] + [NextMessage(mem, at)] == path && [] + [at] + [NextMessage(mem, at)] == path;
  }

  lemma ValidFits(mem: seq<byte>, ptr: nat)
    requires IsValid(mem, ptr)
    ensures HeaderFits(mem, ptr)
  {
  }

  /** The scan behind an unread message. */
  lemma {:induction false} ScanUnread(mem: seq<byte>, at: nat, readPtr: nat, prevPtr: nat)
    returns (unread: seq<nat>, stop: nat)
    ensures Met(mem, at, [], unread, stop) && StopsHere(mem, unread != [], stop, true)
    ensures Scan(mem, at, readPtr, prevPtr, false)
            == Pointers(readPtr, stop, if unread == [] then prevPtr else unread[|unread| - 1])
    decreases |mem| - at
  {
    hide NextMessage, IsValid, IsRead, Met;
    MetNothing(mem, at);
    if IsPending(mem, at) {
      MetOne(mem, at);
      var next := NextMessage(mem, at);
      if next == 0 {
        unread, stop := [at], 0;
      } else {
        var rest;
        rest, stop := ScanUnread(mem, next, readPtr, at);
        MetPrepend(mem, at, [], rest, stop);
        unread := [at] + rest;
      }
    } else {
      unread, stop := [], at;
    }
  }

  /**
   * The forward scan goes from message to message, read ones first and then unread ones, until it comes to the end, to
   * no valid message, or behind an unread message to a read one. The read pointer is then the first unread message; if
   * there is none, the place where the scan stopped. The write pointer is that place, and the last message met the
   * previous one.
   */
  lemma {:induction false} ScanRead(mem: seq<byte>, at: nat, prevPtr: nat)
    returns (read: seq<nat>, unread: seq<nat>, stop: nat)
    ensures Met(mem, at, read, unread, stop) && StopsHere(mem, read + unread != [], stop, unread != [])
    ensures Scan(mem, at, 0, prevPtr, true)
            == Pointers(if unread == [] then stop else unread[0], stop,
                        if read + unread == [] then prevPtr else (read + unread)[|read + unread| - 1])
    decreases |mem| - at
  {
    hide NextMessage, IsValid, IsRead, Met;
    MetNothing(mem, at);
    if !IsValid(mem, at) {
      read, unread, stop := [], [], at;
    } else {
      ValidFits(mem, at);
      MetOne(mem, at);
      var next := NextMessage(mem, at);
      if next == 0 {
        read, unread, stop := if IsRead(mem, at) then [at] else [], if IsRead(mem, at) then [] else [at], 0;
      } else if IsRead(mem, at) {
        var rest;
        rest, unread, stop := ScanRead(mem, next, at);
        MetPrepend(mem, at, rest, unread, stop);
        read := [at] + rest;
        assert read + unread == [at] + (rest + unread);
      } else {
        var rest;
        rest, stop := ScanUnread(mem, next, at, at);
        MetPrepend(mem, at, [], rest, stop);
        read, unread := [], [at] + rest;
      }
    }
  }

  /** The same for the whole scan, from word 0. */
  lemma ScanMeans(mem: seq<byte>) returns (read: seq<nat>, unread: seq<nat>, stop: nat)
    ensures Met(mem, 0, read, unread, stop) && StopsHere(mem, read + unread != [], stop, unread != [])
    ensures FirstScan(mem)
            == Pointers(if unread == [] then stop else unread[0], stop,
                        if read + unread == [] then 0 else (read + unread)[|read + unread| - 1])
  {
    hide Met, StopsHere, Scan;
    read, unread, stop := ScanRead(mem, 0, 0);
  }

  /** One step back: to a valid unread message, not the same one. */
  predicate BackHop(mem: seq<byte>, path: seq<nat>, i: nat)
    requires i + 1 < |path|
  {
    && 4 * path[i] + 12 <= |mem|
    && path[i + 1] == LittleEndian(mem, 4 * path[i] + 4, 4)
    && path[i + 1] != path[i]
    && IsPending(mem, path[i + 1])
  }

  predicate IsBackPath(mem: seq<byte>, path: seq<nat>) {
    path != [] && forall i :: 0 <= i < |path| - 1 ==> BackHop(mem, path, i)
  }

  /** The backward walk follows back-links through unread messages, to word 0 or to where they go no further. */
  lemma {:induction false} WalkMeans(mem: seq<byte>, ptr: nat, hops: nat) returns (path: seq<nat>)
    requires HeaderFits(mem, ptr) && Walk(mem, ptr, hops).Stops?
    ensures IsBackPath(mem, path) && path != [] && path[0] == ptr
    ensures forall i :: 0 < i < |path| - 1 ==> path[i] != 0
    ensures var last := path[|path| - 1];
            && Walk(mem, ptr, hops).ptr == last
            && 4 * last + 12 <= |mem|
            && ((|path| > 1 && last == 0)
                || LittleEndian(mem, 4 * last + 4, 4) == last || !IsPending(mem, LittleEndian(mem, 4 * last + 4, 4)))
    decreases hops
  {
    hide IsValid, IsBackPath, BackHop, PrevHeader, IsRead;
    var back := PrevHeader(mem, ptr);
    BackLink(mem, ptr);
    BackPathOne(mem, ptr);
    if Blocked(mem, ptr) {
      path := [ptr];
    } else {
      ValidFits(mem, back);
      BackPathOne(mem, back);
      if back == 0 {
        BackPathPrepend(mem, ptr, [0]);
        path := [ptr] + [0];
      } else {
        var rest := WalkMeans(mem, back, hops - 1);
        BackPathPrepend(mem, ptr, rest);
        path := [ptr] + rest;
      }
    }
  }

  lemma BackLink(mem: seq<byte>, ptr: nat)
    requires HeaderFits(mem, ptr)
    ensures PrevHeader(mem, ptr) == LittleEndian(mem, 4 * ptr + 4, 4)
  {
    hide LittleEndian;
    FourBytes(mem, 4 * ptr + 4);
  }

  lemma BackPathOne(mem: seq<byte>, ptr: nat)
    ensures IsBackPath(mem, [ptr])
  {
  }

  lemma BackPathPrepend(mem: seq<byte>, ptr: nat, path: seq<nat>)
    requires IsBackPath(mem, path) && HeaderFits(mem, ptr)
    requires path[0] == LittleEndian(mem, 4 * ptr + 4, 4) != ptr && IsPending(mem, path[0])
    ensures IsBackPath(mem, [ptr] + path)
  {
    hide IsPending;
    var all := [ptr] + path;
    forall i | 0 <= i < |all| - 1
      ensures BackHop(mem, all, i)
    {
      if i > 0 {
        assert BackHop(mem, path, i - 1);
      }
    }
  }

  /** The walk is made only from word 0 and only if the scan stopped elsewhere; nothing else changes what the scan found. */
  lemma RecoverMeans(mem: seq<byte>)
    requires IsBuffer(mem) && StartupEnds(mem)
    ensures var p, q := FirstScan(mem), Recover(mem);
            && q.writePtr == p.writePtr && q.prevPtr == p.prevPtr
            && (if p.readPtr == 0 && p.writePtr != 0 then
                  HeaderFits(mem, 0) && Walk(mem, 0, |mem| / 4) == Stops(q.readPtr)
                else q.readPtr == p.readPtr)
  {
    hide FirstScan, Walk;
  }
}
