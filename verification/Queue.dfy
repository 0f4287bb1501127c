/** The transmit queue's handle: a buffer that survives restarts, changed in place. */
module Queue {
  import opened Bytes
  import opened QueueFormat
  import opened QueueSteps
  import opened QueueRestart

  const QUEUE_SIZE_MIN: int := 16
  const QUEUE_SIZE_MAX: int := 1024 * 1024 * 1024
  const QUEUE_SIZE_DEFAULT: int := 1024 * 1024

  /** The size the queue really gets: rounded down to words, or the default when out of range. */
  function EffectiveSize(requested: int): (size: nat)
    ensures IsBuffer(Zeros(size))
    ensures 16 <= requested <= 0x4000_0003 ==> requested - 4 < size <= requested
    ensures requested < 16 || requested > 0x4000_0003 ==> size == 0x10_0000
  {
    var aligned := if requested >= 0 then requested / 4 * 4 else -(-requested / 4 * 4);
    if QUEUE_SIZE_MIN <= aligned <= QUEUE_SIZE_MAX then aligned else QUEUE_SIZE_DEFAULT
  }

  lemma SpliceParts(mem: seq<byte>, offset: nat, a: seq<byte>, b: seq<byte>)
    requires offset + |a| + |b| <= |mem|
    ensures Splice(Splice(mem, offset, a), offset + |a|, b) == Splice(mem, offset, a + b)
  {
  }

  lemma ImageParts(payload: seq<byte>, prev: uint32)
    requires |payload| <= MAX_PAYLOAD
    ensures Image(payload, prev, false)
            == Header(Crc8.Checksum(payload), prev, |payload|) + payload + Zeros(4 * BytesToWordsRoundUp(|payload|) - |payload|)
  {
  }

  function Header(crc: byte, prev: uint32, size: uint32): (header: seq<byte>)
    ensures |header| == 12
  {
    [HEADER_MAGIC, HEADER_VERSION, crc, 0] + Le32(prev) + Le32(size)
  }

  class Queue {
    const buf: array<byte>
    var readPtr: nat
    var writePtr: nat
    var prevPtr: nat
    var canCompleteRead: bool

    ghost function Abs(): State
      reads this, buf
    {
      State(buf[..], readPtr, writePtr, prevPtr, canCompleteRead)
    }

    ghost predicate Valid()
      reads this, buf
    {
      IsState(Abs())
    }

    /** Takes over the bytes that are there and finds the pointers in them. */
    constructor (contents: array<byte>)
      requires IsBuffer(contents[..]) && StartupEnds(contents[..])
      ensures buf == contents && buf[..] == old(contents[..])
      ensures Valid() && !canCompleteRead
      ensures Pointers(readPtr, writePtr, prevPtr) == Recover(buf[..])
    {
      buf := contents;
      readPtr, writePtr, prevPtr := 0, 0, 0;
      canCompleteRead := false;
      new;
      FindReadWritePtr();
      StartupOnAnyContents(buf[..]);
    }

    method IsMsgValid(ptr: nat) returns (valid: bool)
      ensures valid <==> IsValid(buf[..], ptr)
      ensures valid ==> HeaderFits(buf[..], ptr)
    {
      if !InBounds(buf[..], ptr) || buf[4 * ptr] != HEADER_MAGIC {
        return false;
      }
      var crc := Crc8.Compute(Payload(buf[..], ptr));
      return crc == buf[4 * ptr + 2];
    }

    method FindReadWritePtr()
      requires IsBuffer(buf[..]) && StartupEnds(buf[..])
      modifies `readPtr, `writePtr, `prevPtr
      ensures Pointers(readPtr, writePtr, prevPtr) == Recover(buf[..])
    {
      hide IsValid, IsRead, NextMessage, PrevHeader;
      ghost var mem := buf[..];
      var at: nat, first: nat, write: nat, prev: nat := 0, 0, 0, 0;
      var lastRead := true;
      while true
        invariant HeaderFits(mem, 0) && Scan(mem, at, first, prev, lastRead) == FirstScan(mem)
        decreases |mem| - at
      {
        var valid := IsMsgValid(at);
        if !valid {
          write := at;
          if lastRead {
            first := at;
          }
          break;
        }
        var isRead := IsRead(buf[..], at);
        if isRead && !lastRead {
          write := at;
          break;
        } else if !isRead && lastRead {
          first := at;
        }
        lastRead := isRead;
        prev := at;
        at := NextMessage(buf[..], at);
        if at == 0 {
          write := 0;
          break;
        }
      }
      assert FirstScan(mem) == Pointers(first, write, prev);
      if first == 0 && write != 0 {
        ghost var hops := WordCount(mem);
        while true
          invariant HeaderFits(mem, first) && Walk(mem, first, hops) == Walk(mem, 0, WordCount(mem))
          decreases hops
        {
          var back := PrevHeader(buf[..], first);
          if back == first {
            break;
          }
          var valid := IsMsgValid(back);
          if !valid || IsRead(buf[..], back) {
            break;
          }
          first := back;
          hops := hops - 1;
          if first == 0 {
            break;
          }
        }
      }
      readPtr, writePtr, prevPtr := first, write, prev;
    }

    method ReadHeadMessage() returns (head: Head)
      requires Valid()
      modifies `canCompleteRead
      ensures (Abs(), head) == QueueSteps.ReadHead(old(Abs()))
    {
      if readPtr == writePtr {
        var valid := IsMsgValid(readPtr);
        if !valid || IsRead(buf[..], readPtr) {
          return Nothing;
        }
      }
      if HeaderFits(buf[..], readPtr) && 4 * readPtr + 12 + PayloadSize(buf[..], readPtr) <= buf.Length {
        head := Message(Payload(buf[..], readPtr));
      } else {
        head := Overrun;
      }
      canCompleteRead := true;
    }

    method CompleteReadMessage() returns (ok: bool)
      requires Valid()
      modifies this, buf
      ensures Valid() && (Abs(), ok) == QueueSteps.CompleteRead(old(Abs()))
    {
      if !canCompleteRead {
        return false;
      }
      var flags := buf[4 * readPtr + 3];
      buf[4 * readPtr + 3] := if flags % 2 == 1 then flags else flags + 1;
      assert buf[..] == MarkRead(old(buf[..]), readPtr);
      readPtr := NextMessage(buf[..], readPtr);
      canCompleteRead := false;
      return true;
    }

    method Store(offset: nat, bytes: seq<byte>)
      requires offset + |bytes| <= buf.Length
      modifies buf
      ensures buf[..] == Splice(old(buf[..]), offset, bytes)
    {
      for i := 0 to |bytes|
        invariant buf[..] == Splice(old(buf[..]), offset, bytes[..i])
      {
        buf[offset + i] := bytes[i];
      }
      assert bytes[..|bytes|] == bytes;
    }

    method WriteMessage(payload: seq<byte>) returns (ok: bool)
      requires Valid() && |payload| <= MAX_PAYLOAD
      modifies this, buf
      ensures Valid() && (Abs(), ok) == QueueSteps.Write(old(Abs()), payload)
    {
      hide Image, Splice, Header, Advance, NextMessage, Crc8.Checksum;
      if payload == [] {
        return false;
      }
      var paddedWords := BytesToWordsRoundUp(|payload|);
      var messageWords := HEADER_WORDS + paddedWords;
      if messageWords > buf.Length / 4 {
        return false;
      }
      var writeEnd := MakeRoom(payload);
      var crc := Crc8.Compute(payload);
      ImageParts(payload, prevPtr);
      StoreMessage(4 * writePtr, Header(crc, prevPtr, |payload|), payload, 4 * paddedWords - |payload|);
      prevPtr := writePtr;
      writePtr := writeEnd % (buf.Length / 4);
      return true;
    }

    /** Wraps the write pointer if the message needs it, and moves the read pointer out of the message's way. */
    method MakeRoom(payload: seq<byte>) returns (writeEnd: nat)
      requires Valid() && Accepts(Abs(), payload)
      modifies `readPtr, `writePtr, `canCompleteRead, buf
      ensures var s := old(Abs());
              && writePtr == Target(s, payload) && writeEnd == TargetEnd(s, payload) && prevPtr == old(prevPtr)
              && buf[..] == WithMarker(s, payload)
              && readPtr == Written(s, payload).readPtr
              && canCompleteRead == Written(s, payload).canComplete
    {
      hide Image, Splice, Advance, NextMessage;
      ghost var s := Abs();
      var messageWords := HEADER_WORDS + BytesToWordsRoundUp(|payload|);
      var readEqualsWrite := readPtr == writePtr;
      if writePtr + messageWords > buf.Length / 4 {
        Store(4 * writePtr, END_POINTER);
        writePtr := 0;
      }
      writeEnd := writePtr + messageWords;
      if readEqualsWrite {
        readPtr := writePtr;
      } else if readPtr > writePtr && readPtr < writeEnd {
        readPtr := SkipOverwritten(readPtr, writeEnd);
        canCompleteRead := false;
      }
    }

    method SkipOverwritten(from: nat, limit: nat) returns (ptr: nat)
      ensures ptr == Advance(buf[..], from, limit)
    {
      ptr := from;
      while true
        invariant Advance(buf[..], ptr, limit) == Advance(buf[..], from, limit)
        decreases buf.Length - ptr
      {
        ptr := NextMessage(buf[..], ptr);
        if ptr >= limit || ptr == 0 {
          return;
        }
      }
    }

    method StoreMessage(offset: nat, header: seq<byte>, payload: seq<byte>, padding: nat)
      requires offset + |header| + |payload| + padding <= buf.Length
      modifies buf
      ensures buf[..] == Splice(old(buf[..]), offset, header + payload + Zeros(padding))
    {
      Store(offset, header);
      Store(offset + |header|, payload);
      SpliceParts(old(buf[..]), offset, header, payload);
      if padding > 0 {
        Store(offset + |header| + |payload|, Zeros(padding));
        SpliceParts(old(buf[..]), offset, header + payload, Zeros(padding));
      } else {
        assert header + payload + Zeros(0) == header + payload;
      }
    }
  }
}
