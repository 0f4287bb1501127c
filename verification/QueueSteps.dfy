/** The queue's operations as steps on its state, the buffer's bytes and the handle's fields, and the start-up scan. */
module QueueSteps {
  import opened Bytes
  import opened QueueFormat

  datatype State = State(mem: seq<byte>, readPtr: nat, writePtr: nat, prevPtr: nat, canComplete: bool)

  ghost predicate IsState(s: State) {
    IsBuffer(s.mem) && s.readPtr < WordCount(s.mem) && s.writePtr < WordCount(s.mem) && s.prevPtr < WordCount(s.mem)
  }

  /** A zero-filled buffer of `length` bytes, as after creating the file. */
  function Fresh(length: nat): State {
    State(Zeros(length), 0, 0, 0, false)
  }

  /** `Overrun`: the size field of the message at the read pointer leads past the buffer's end. */
  datatype Head = Nothing | Message(payload: seq<byte>) | Overrun

  function ReadHead(s: State): (State, Head)
    requires IsState(s)
  {
    if s.readPtr == s.writePtr && !IsPending(s.mem, s.readPtr) then (s, Nothing)
    else if HeaderFits(s.mem, s.readPtr) && 4 * s.readPtr + 12 + PayloadSize(s.mem, s.readPtr) <= |s.mem| then
      (s.(canComplete := true), Message(Payload(s.mem, s.readPtr)))
    else (s.(canComplete := true), Overrun)
  }

  function CompleteRead(s: State): (r: (State, bool))
    requires IsState(s)
    ensures IsState(r.0)
  {
    if !s.canComplete then (s, false)
    else
      var mem := MarkRead(s.mem, s.readPtr);
      (s.(mem := mem, readPtr := NextMessage(mem, s.readPtr), canComplete := false), true)
  }

  /** Follows the messages from `ptr` to the first one at or after `limit`; 0 if the walk wraps first. */
  function Advance(mem: seq<byte>, ptr: nat, limit: nat): (r: nat)
    ensures r == 0 || r < WordCount(mem)
    decreases |mem| - ptr
  {
    var next := NextMessage(mem, ptr);
    if next >= limit || next == 0 then next else Advance(mem, next, limit)
  }

  predicate Accepts(s: State, payload: seq<byte>) {
    0 < |payload| <= MAX_PAYLOAD && MsgWords(payload) <= WordCount(s.mem)
  }

  predicate Wraps(s: State, payload: seq<byte>) {
    s.writePtr + MsgWords(payload) > WordCount(s.mem)
  }

  /** Where the message goes. */
  function Target(s: State, payload: seq<byte>): nat {
    if Wraps(s, payload) then 0 else s.writePtr
  }

  function TargetEnd(s: State, payload: seq<byte>): nat {
    Target(s, payload) + MsgWords(payload)
  }

  function WithMarker(s: State, payload: seq<byte>): (mem: seq<byte>)
    requires IsState(s)
    ensures |mem| == |s.mem| && IsBuffer(mem)
  {
    if Wraps(s, payload) then Splice(s.mem, 4 * s.writePtr, END_POINTER) else s.mem
  }

  /** The read pointer is seen to lie inside the stretch about to be overwritten. */
  predicate Overtakes(s: State, payload: seq<byte>) {
    s.readPtr != s.writePtr && Target(s, payload) < s.readPtr < TargetEnd(s, payload)
  }

  function Written(s: State, payload: seq<byte>): (r: State)
    requires IsState(s) && Accepts(s, payload)
    ensures IsState(r) && |r.mem| == |s.mem|
  {
    var target, end, marked := Target(s, payload), TargetEnd(s, payload), WithMarker(s, payload);
    State(
      Splice(marked, 4 * target, Image(payload, s.prevPtr, false)),
      if s.readPtr == s.writePtr then target
      else if Overtakes(s, payload) then Advance(marked, s.readPtr, end)
      else s.readPtr,
      end % WordCount(s.mem),
      target,
      s.canComplete && !Overtakes(s, payload))
  }

  /** Empty and oversized payloads are refused and change nothing. */
  function Write(s: State, payload: seq<byte>): (State, bool)
    requires IsState(s) && |payload| <= MAX_PAYLOAD
  {
    if Accepts(s, payload) then (Written(s, payload), true) else (s, false)
  }

  // ---------- the forward scan of start of day ----------

  datatype Pointers = Pointers(readPtr: nat, writePtr: nat, prevPtr: nat)

  /** The forward scan from the message at `at`, with the loop's variables as they are there. */
  function Scan(mem: seq<byte>, at: nat, readPtr: nat, prevPtr: nat, lastRead: bool): Pointers
    decreases |mem| - at
  {
    if !IsValid(mem, at) then Pointers(if lastRead then at else readPtr, at, prevPtr)
    else if IsRead(mem, at) && !lastRead then Pointers(readPtr, at, prevPtr)
    else
      var first := if !IsRead(mem, at) && lastRead then at else readPtr;
      var next := NextMessage(mem, at);
      if next == 0 then Pointers(first, 0, at) else Scan(mem, next, first, at, IsRead(mem, at))
  }

  function FirstScan(mem: seq<byte>): Pointers {
    Scan(mem, 0, 0, 0, true)
  }
}
