/**
 * How the transmit queue lays messages out in its buffer, and what the code reads back from it.
 * Pointers are word indices; a buffer of `4 * n` bytes has `n` words.
 */
module QueueFormat {
  import opened Bytes
  import Crc8

  const HEADER_WORDS: nat := 3
  const HEADER_MAGIC: byte := 0xA5
  const HEADER_VERSION: byte := 0x01
  /** The marker 0x5aa55aa5 as it lies in memory. */
  const END_POINTER: seq<byte> := [0xA5, 0x5A, 0xA5, 0x5A]
  const MAX_PAYLOAD: nat := 0xFFFF_FFFC

  ghost predicate IsBuffer(mem: seq<byte>) {
    |mem| % 4 == 0 && 16 <= |mem| <= 0x4000_0000
  }

  function WordCount(mem: seq<byte>): nat { |mem| / 4 }

  /** Rounds in 32-bit arithmetic, as the code does. */
  function BytesToWordsRoundUp(sizeBytes: uint32): nat {
    (sizeBytes + 3) % TWO_TO_THE_32 / 4
  }

  // ---------- reading ----------

  predicate HeaderFits(mem: seq<byte>, ptr: nat) {
    4 * ptr + 12 <= |mem|
  }

  function PrevHeader(mem: seq<byte>, ptr: nat): uint32
    requires HeaderFits(mem, ptr)
  {
    Get32(mem, 4 * ptr + 4)
  }

  function PayloadSize(mem: seq<byte>, ptr: nat): uint32
    requires HeaderFits(mem, ptr)
  {
    Get32(mem, 4 * ptr + 8)
  }

  predicate IsEnd(mem: seq<byte>, ptr: nat) {
    4 * ptr + 4 <= |mem| && mem[4 * ptr..4 * ptr + 4] == END_POINTER
  }

  /** The message after the one at `ptr`; 0 when the end of the buffer or an END marker follows. */
  function NextMessage(mem: seq<byte>, ptr: nat): (next: nat)
    ensures next == 0 || ptr < next < WordCount(mem)
  {
    if !HeaderFits(mem, ptr) then 0
    else
      var next := ptr + HEADER_WORDS + BytesToWordsRoundUp(PayloadSize(mem, ptr));
      if next >= WordCount(mem) || IsEnd(mem, next) then 0 else next
  }

  /**
   * The size field is looked at only when the header lies inside the buffer;
   * otherwise the answer is "no" whatever the size field would hold.
   */
  predicate InBounds(mem: seq<byte>, ptr: nat) {
    HeaderFits(mem, ptr) && 4 * ptr + 12 + PayloadSize(mem, ptr) < |mem|
  }

  function Payload(mem: seq<byte>, ptr: nat): seq<byte>
    requires HeaderFits(mem, ptr) && 4 * ptr + 12 + PayloadSize(mem, ptr) <= |mem|
  {
    mem[4 * ptr + 12..4 * ptr + 12 + PayloadSize(mem, ptr)]
  }

  predicate IsValid(mem: seq<byte>, ptr: nat) {
    && InBounds(mem, ptr)
    && mem[4 * ptr] == HEADER_MAGIC
    && mem[4 * ptr + 2] == Crc8.Checksum(Payload(mem, ptr))
  }

  /** The lowest bit of the flags byte. */
  predicate IsRead(mem: seq<byte>, ptr: nat)
    requires 4 * ptr + 4 <= |mem|
  {
    mem[4 * ptr + 3] % 2 == 1
  }

  predicate IsPending(mem: seq<byte>, ptr: nat) {
    IsValid(mem, ptr) && !IsRead(mem, ptr)
  }

  // ---------- writing ----------

  function Splice(mem: seq<byte>, offset: nat, bytes: seq<byte>): (r: seq<byte>)
    requires offset + |bytes| <= |mem|
    ensures |r| == |mem|
    ensures forall i :: 0 <= i < |r| ==> r[i] == if offset <= i < offset + |bytes| then bytes[i - offset] else mem[i]
  {
    mem[..offset] + bytes + mem[offset + |bytes|..]
  }

  function MarkRead(mem: seq<byte>, ptr: nat): (r: seq<byte>)
    requires 4 * ptr + 4 <= |mem|
    ensures |r| == |mem|
  {
    var flags := mem[4 * ptr + 3];
    mem[4 * ptr + 3 := if flags % 2 == 1 then flags else flags + 1]
  }

  // ---------- messages ----------

  /** A message, the word it starts at and the back-link in its header. */
  datatype Msg = Msg(ptr: nat, payload: seq<byte>, prev: uint32)

  function MsgWords(payload: seq<byte>): nat {
    HEADER_WORDS + (|payload| + 3) / 4
  }

  function EndPtr(m: Msg): nat { m.ptr + MsgWords(m.payload) }

  function Image(payload: seq<byte>, prev: uint32, read: bool): (image: seq<byte>)
    requires |payload| <= MAX_PAYLOAD
    ensures |image| == 4 * MsgWords(payload)
  {
    [HEADER_MAGIC, HEADER_VERSION, Crc8.Checksum(payload), if read then 1 else 0]
    + Le32(prev) + Le32(|payload|) + payload + Zeros(4 * ((|payload| + 3) / 4) - |payload|)
  }

  ghost predicate Stored(mem: seq<byte>, m: Msg, read: bool) {
    && 0 < |m.payload| <= MAX_PAYLOAD
    && 4 * EndPtr(m) <= |mem|
    && mem[4 * m.ptr..4 * EndPtr(m)] == Image(m.payload, m.prev, read)
  }

  /** All that the code looks at in a message that has been read. */
  ghost predicate Passed(mem: seq<byte>, m: Msg) {
    && |m.payload| <= MAX_PAYLOAD
    && 4 * EndPtr(m) <= |mem|
    && mem[4 * m.ptr] == HEADER_MAGIC
    && mem[4 * m.ptr + 2] == Crc8.Checksum(m.payload)
    && IsRead(mem, m.ptr)
    && PrevHeader(mem, m.ptr) == m.prev
    && PayloadSize(mem, m.ptr) == |m.payload|
    && Payload(mem, m.ptr) == m.payload
  }

  ghost predicate Held(mem: seq<byte>, m: Msg, read: bool) {
    if read then Passed(mem, m) else Stored(mem, m, false)
  }

  /** The message ends on the very last byte of the buffer, where the strict bounds test rejects it. */
  predicate IsFlush(m: Msg, length: nat) {
    4 * m.ptr + 12 + |m.payload| == length
  }

  lemma StoredBytes(mem: seq<byte>, m: Msg, read: bool, i: nat)
    requires Stored(mem, m, read)
    requires i < 4 * MsgWords(m.payload)
    ensures mem[4 * m.ptr + i] == Image(m.payload, m.prev, read)[i]
  {
    assert mem[4 * m.ptr..4 * EndPtr(m)][i] == mem[4 * m.ptr + i];
  }

  lemma Get32Slice(s: seq<byte>, i: nat, t: seq<byte>, j: nat)
    requires i + 4 <= |s| && j + 4 <= |t| && s[i..i + 4] == t[j..j + 4]
    ensures Get32(s, i) == Get32(t, j)
  {
    var a, b := s[i..i + 4], t[j..j + 4];
    assert a[0] == s[i] && a[1] == s[i + 1] && a[2] == s[i + 2] && a[3] == s[i + 3];
    assert b[0] == t[j] && b[1] == t[j + 1] && b[2] == t[j + 2] && b[3] == t[j + 3];
  }

  lemma StoredFields(mem: seq<byte>, m: Msg, read: bool)
    requires Stored(mem, m, read)
    ensures HeaderFits(mem, m.ptr)
    ensures mem[4 * m.ptr] == HEADER_MAGIC
    ensures mem[4 * m.ptr + 1] == HEADER_VERSION
    ensures mem[4 * m.ptr + 2] == Crc8.Checksum(m.payload)
    ensures mem[4 * m.ptr + 3] == if read then 1 else 0
    ensures PrevHeader(mem, m.ptr) == m.prev
    ensures PayloadSize(mem, m.ptr) == |m.payload|
    ensures 4 * m.ptr + 12 + |m.payload| <= |mem|
    ensures Payload(mem, m.ptr) == m.payload
    ensures !IsEnd(mem, m.ptr)
  {
    hide Crc8.Checksum;
    var p, image := 4 * m.ptr, Image(m.payload, m.prev, read);
    assert mem[p..4 * EndPtr(m)] == image;
    forall i | 0 <= i < |image| ensures mem[p + i] == image[i] {
      StoredBytes(mem, m, read, i);
    }
    assert mem[p] == image[0] && mem[p + 1] == image[1] && mem[p + 2] == image[2] && mem[p + 3] == image[3];
    assert mem[p + 4..p + 8] == image[4..8] == Le32(m.prev);
    Get32Slice(mem, p + 4, Le32(m.prev), 0);
    Le32RoundTrip(m.prev);
    assert mem[p + 8..p + 12] == image[8..12] == Le32(|m.payload|);
    Get32Slice(mem, p + 8, Le32(|m.payload|), 0);
    Le32RoundTrip(|m.payload|);
    assert mem[p + 12..p + 12 + |m.payload|] == image[12..12 + |m.payload|] == m.payload;
    assert mem[p..p + 4][1] == mem[p + 1];
  }

  /** A stored message is valid to the code exactly when it is not flush with the buffer's end. */
  lemma StoredValidity(mem: seq<byte>, m: Msg, read: bool)
    requires Stored(mem, m, read)
    ensures IsValid(mem, m.ptr) <==> !IsFlush(m, |mem|)
    ensures 4 * m.ptr + 4 <= |mem| && (IsRead(mem, m.ptr) <==> read)
  {
    StoredFields(mem, m, read);
  }

  lemma RoundUp(size: uint32)
    requires size <= MAX_PAYLOAD
    ensures BytesToWordsRoundUp(size) == (size + 3) / 4
  {
  }

  lemma StoredNext(mem: seq<byte>, m: Msg, read: bool)
    requires Stored(mem, m, read)
    ensures NextMessage(mem, m.ptr) == if EndPtr(m) >= WordCount(mem) || IsEnd(mem, EndPtr(m)) then 0 else EndPtr(m)
  {
    hide BytesToWordsRoundUp, IsEnd, Image;
    StoredFields(mem, m, read);
    RoundUp(|m.payload|);
  }

  lemma StoredFrame(mem: seq<byte>, mem': seq<byte>, m: Msg, read: bool)
    requires Stored(mem, m, read) && |mem'| == |mem|
    requires forall i :: 4 * m.ptr <= i < 4 * EndPtr(m) ==> mem'[i] == mem[i]
    ensures Stored(mem', m, read)
  {
    assert mem'[4 * m.ptr..4 * EndPtr(m)] == mem[4 * m.ptr..4 * EndPtr(m)];
  }

  lemma StoredIsHeld(mem: seq<byte>, m: Msg)
    requires Stored(mem, m, true)
    ensures Held(mem, m, true)
  {
    hide Image, Crc8.Checksum;
    StoredFields(mem, m, true);
  }

  lemma HeldFrame(mem: seq<byte>, mem': seq<byte>, m: Msg, read: bool)
    requires Held(mem, m, read) && |mem'| == |mem|
    requires forall i :: 4 * m.ptr <= i < 4 * EndPtr(m) ==> mem'[i] == mem[i]
    ensures Held(mem', m, read)
  {
    hide Stored, Image, Crc8.Checksum;
    if read {
      var p, n := 4 * m.ptr, |m.payload|;
      assert mem'[p + 12..p + 12 + n] == mem[p + 12..p + 12 + n];
    } else {
      StoredFrame(mem, mem', m, false);
    }
  }

  /** A stored or passed message is valid to the code exactly when it is not flush with the buffer's end. */
  lemma HeldValidity(mem: seq<byte>, m: Msg, read: bool)
    requires Held(mem, m, read)
    ensures HeaderFits(mem, m.ptr) && !IsEnd(mem, m.ptr)
    ensures IsValid(mem, m.ptr) <==> !IsFlush(m, |mem|)
    ensures IsRead(mem, m.ptr) <==> read
    ensures PrevHeader(mem, m.ptr) == m.prev
  {
    hide Stored, Image, Crc8.Checksum;
    if read {
      assert mem[4 * m.ptr..4 * m.ptr + 4][3] == mem[4 * m.ptr + 3];
    } else {
      StoredFields(mem, m, false);
      StoredValidity(mem, m, false);
    }
  }

  lemma HeldNext(mem: seq<byte>, m: Msg, read: bool)
    requires Held(mem, m, read)
    ensures NextMessage(mem, m.ptr) == if EndPtr(m) >= WordCount(mem) || IsEnd(mem, EndPtr(m)) then 0 else EndPtr(m)
  {
    hide BytesToWordsRoundUp, IsEnd, Image, Stored, Crc8.Checksum;
    if read {
      RoundUp(|m.payload|);
    } else {
      StoredNext(mem, m, false);
    }
  }

  lemma StoredMark(mem: seq<byte>, m: Msg)
    requires Stored(mem, m, false)
    ensures Stored(MarkRead(mem, m.ptr), m, true)
  {
    hide Crc8.Checksum;
    StoredFields(mem, m, false);
    var mem' := MarkRead(mem, m.ptr);
    var a, b := Image(m.payload, m.prev, false), Image(m.payload, m.prev, true);
    assert b == a[3 := 1];
    assert mem'[4 * m.ptr..4 * EndPtr(m)] == mem[4 * m.ptr..4 * EndPtr(m)][3 := 1];
  }

  lemma StoredSplice(mem: seq<byte>, m: Msg)
    requires 0 < |m.payload| <= MAX_PAYLOAD && 4 * EndPtr(m) <= |mem|
    ensures Stored(Splice(mem, 4 * m.ptr, Image(m.payload, m.prev, false)), m, false)
  {
    hide Crc8.Checksum, Image;
    var image := Image(m.payload, m.prev, false);
    var mem' := Splice(mem, 4 * m.ptr, image);
    assert mem'[4 * m.ptr..4 * EndPtr(m)] == image;
  }

  /** An END marker has the magic byte, yet no bytes after it make it a valid message. */
  lemma EndIsNeverValid(mem: seq<byte>, ptr: nat)
    requires IsEnd(mem, ptr)
    ensures !IsValid(mem, ptr)
  {
    assert mem[4 * ptr..4 * ptr + 4][2] == mem[4 * ptr + 2];
    if InBounds(mem, ptr) {
      Crc8.ChecksumBelow(Payload(mem, ptr));
    }
  }

  /** Below the last three sizes a 32-bit length can have, rounding up really rounds up. */
  lemma RoundUpCovers(size: uint32)
    ensures 4 * BytesToWordsRoundUp(size) >= size <==> size <= MAX_PAYLOAD
  {
    if size > MAX_PAYLOAD {
      assert (size + 3) % TWO_TO_THE_32 == size + 3 - TWO_TO_THE_32;
    }
  }

  /** The bytes between the payload and the next word are zero. */
  lemma StoredPadding(mem: seq<byte>, m: Msg, read: bool, i: nat)
    requires Stored(mem, m, read) && 12 + |m.payload| <= i < 4 * MsgWords(m.payload)
    ensures mem[4 * m.ptr + i] == 0
  {
    hide Crc8.Checksum;
    StoredBytes(mem, m, read, i);
  }

  /** A stored message with one payload byte changed is still taken for valid exactly when the change is by 0x91. */
  lemma CorruptionIsNoticed(mem: seq<byte>, m: Msg, read: bool, i: nat, b: byte)
    requires Stored(mem, m, read) && !IsFlush(m, |mem|) && i < |m.payload|
    ensures 4 * m.ptr + 12 + i < |mem|
    ensures IsValid(mem[4 * m.ptr + 12 + i := b], m.ptr) <==> b == m.payload[i] || Crc8.Xor(b, m.payload[i]) == 0x91
  {
    hide Crc8.Checksum, Crc8.Xor, Stored;
    StoredFields(mem, m, read);
    var bad, p := mem[4 * m.ptr + 12 + i := b], 4 * m.ptr;
    assert bad[p + 8..p + 12] == mem[p + 8..p + 12];
    Get32Slice(bad, p + 8, mem, p + 8);
    assert bad[p + 12..p + 12 + |m.payload|] == m.payload[i := b];
    Crc8.SingleByteCorruption(m.payload, i, b);
  }
}
