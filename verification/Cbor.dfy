/** The CBOR encoder: items go to a buffer of limited size, or are only counted. */
module Cbor {
  import opened Bytes
  import opened CborFormat

  // ---------- what an encoder accepts ----------

  /** Where encoded bytes go, and the bytes it has taken; a size-only sink has no limit. */
  datatype Sink = Sink(sizeOnly: bool, capacity: nat, out: seq<byte>)

  predicate HasRoom(k: Sink) {
    !k.sizeOnly ==> |k.out| <= k.capacity
  }

  function Add(k: Sink, data: seq<byte>): (Sink, bool) {
    if data == [] || k.sizeOnly || |k.out| + |data| <= k.capacity then (k.(out := k.out + data), true)
    else (k, false)
  }

  /** Adds the chunks one by one and stops at the first that does not fit. */
  function AddAll(k: Sink, chunks: seq<seq<byte>>): (Sink, bool)
    decreases |chunks|
  {
    if chunks == [] then (k, true)
    else
      var (k', ok) := Add(k, chunks[0]);
      if ok then AddAll(k', chunks[1..]) else (k', false)
  }

  function Joined(chunks: seq<seq<byte>>): seq<byte>
    decreases |chunks|
  {
    if chunks == [] then [] else chunks[0] + Joined(chunks[1..])
  }

  /**
   * All chunks are taken exactly when there is room for them together; otherwise the capacity is kept.
   */
  lemma {:induction false} AddAllIffRoom(k: Sink, chunks: seq<seq<byte>>)
    requires HasRoom(k)
    ensures var (k', ok) := AddAll(k, chunks);
            && HasRoom(k') && k'.sizeOnly == k.sizeOnly && k'.capacity == k.capacity
            && (ok <==> k.sizeOnly || |k.out| + |Joined(chunks)| <= k.capacity)
            && (ok ==> k'.out == k.out + Joined(chunks))
    decreases |chunks|
  {
    if chunks != [] {
      var (k1, ok) := Add(k, chunks[0]);
      if ok {
        AddAllIffRoom(k1, chunks[1..]);
        assert k1.out + Joined(chunks[1..]) == k.out + Joined(chunks);
      }
    }
  }

  /** Chunks are taken whole and in order. */
  lemma {:induction false} AddAllTakesPrefix(k: Sink, chunks: seq<seq<byte>>) returns (n: nat)
    ensures n <= |chunks| && AddAll(k, chunks).0.out == k.out + Joined(chunks[..n])
    ensures AddAll(k, chunks).1 <==> n == |chunks|
    decreases |chunks|
  {
    if chunks == [] || !Add(k, chunks[0]).1 {
      n := 0;
      assert k.out + Joined(chunks[..0]) == k.out;
    } else {
      n := AddAllTakesPrefix(Add(k, chunks[0]).0, chunks[1..]);
      n := n + 1;
      assert chunks[..n][1..] == chunks[1..][..n - 1];
      assert k.out + chunks[0] + Joined(chunks[1..][..n - 1]) == k.out + Joined(chunks[..n]);
    }
  }

  lemma {:induction false} AddAllConcat(k: Sink, a: seq<seq<byte>>, b: seq<seq<byte>>)
    ensures AddAll(k, a + b) == if AddAll(k, a).1 then AddAll(AddAll(k, a).0, b) else AddAll(k, a)
    decreases |a|
  {
    if a == [] {
      assert a + b == b;
    } else {
      assert (a + b)[1..] == a[1..] + b;
      AddAllConcat(Add(k, a[0]).0, a[1..], b);
    }
  }

  lemma {:induction false} JoinedConcat(a: seq<seq<byte>>, b: seq<seq<byte>>)
    ensures Joined(a + b) == Joined(a) + Joined(b)
    decreases |a|
  {
    if a == [] {
      assert a + b == b;
    } else {
      assert (a + b)[1..] == a[1..] + b;
      JoinedConcat(a[1..], b);
    }
  }

  /** Any encode calls in a row, the failed ones included. */
  function Session(k: Sink, calls: seq<seq<seq<byte>>>): Sink
    decreases |calls|
  {
    if calls == [] then k else Session(AddAll(k, calls[0]).0, calls[1..])
  }

  /** Whatever is encoded and whatever fails, bytes once taken stay and the capacity is kept. */
  lemma {:induction false} SessionStaysInBuffer(k: Sink, calls: seq<seq<seq<byte>>>)
    requires HasRoom(k)
    ensures HasRoom(Session(k, calls)) && k.out <= Session(k, calls).out
    ensures Session(k, calls).capacity == k.capacity && Session(k, calls).sizeOnly == k.sizeOnly
    decreases |calls|
  {
    if calls != [] {
      AddAllIffRoom(k, calls[0]);
      var n := AddAllTakesPrefix(k, calls[0]);
      SessionStaysInBuffer(AddAll(k, calls[0]).0, calls[1..]);
    }
  }

  /** The size-only pass counts exactly what a buffer must hold for the writing pass to succeed. */
  lemma PassesAgree(chunks: seq<seq<byte>>, capacity: nat)
    ensures var counted := AddAll(Sink(true, 0, []), chunks);
            && counted.1 && counted.0.out == Joined(chunks)
            && (AddAll(Sink(false, capacity, []), chunks).1 <==> |counted.0.out| <= capacity)
            && (AddAll(Sink(false, capacity, []), chunks).1 ==>
                  AddAll(Sink(false, capacity, []), chunks).0.out == counted.0.out)
  {
    AddAllIffRoom(Sink(true, 0, []), chunks);
    AddAllIffRoom(Sink(false, capacity, []), chunks);
    assert [] + Joined(chunks) == Joined(chunks);
  }

  // ---------- the encoder ----------

  type int32 = x: int | -0x8000_0000 <= x < 0x8000_0000
  type int64 = x: int | -0x8000_0000_0000_0000 <= x < 0x8000_0000_0000_0000

  /** Negative numbers count up from -1. */
  function Integer(value: int64): Item {
    if value >= 0 then Unsigned(value) else Negative(-1 - value)
  }

  function IntegerValue(item: Item): int {
    match item
    case Unsigned(n) => n
    case Negative(n) => -1 - n
    case _ => 0
  }

  /** Every 64-bit integer reads back as itself, and takes more than five bytes only where 32 bits are not enough. */
  lemma IntegerReadsBack(value: int64, rest: seq<byte>)
    ensures Encodable(Integer(value))
    ensures Integer(value) == if value >= 0 then Unsigned(value) else Negative(-1 - value)
    ensures DecodeItem(Encode(Integer(value)) + rest) == Decoded(Integer(value), rest)
    ensures IntegerValue(Integer(value)) == value
    ensures |Encode(Integer(value))| <= 5 <==> -TWO_TO_THE_32 <= value < TWO_TO_THE_32
  {
    ItemRoundTrip(Integer(value), rest);
  }

  /** `n` shifted right by `k` bytes. */
  function ShiftRight(n: nat, k: nat): nat {
    if k == 0 then n else ShiftRight(n / 256, k - 1)
  }

  lemma {:induction false} BeDigit(n: nat, k: nat, i: nat)
    requires i < k
    ensures Be(n, k)[i] == ShiftRight(n, k - 1 - i) % 256
    decreases k
  {
    if i < k - 1 {
      BeDigit(n / 256, k - 1, i);
    }
  }

  /** The target's bytes after `out` has been delivered from `base` on. */
  function WithOutput(before: seq<byte>, base: nat, out: seq<byte>): (after: seq<byte>)
    requires base + |out| <= |before|
    ensures |after| == |before|
  {
    before[..base] + out + before[base + |out|..]
  }

  class Encoder {
    const computeSizeOnly: bool
    const target: array<byte>
    const base: nat
    const bufLen: nat
    var encodedSize: nat
    ghost const before: seq<byte>
    ghost var out: seq<byte>

    /** The bytes taken lie in the target from `base` on, and everything else there is as it was. */
    ghost predicate Valid()
      reads this, target
    {
      && encodedSize == |out|
      && (if computeSizeOnly then target.Length == 0
          else
            && |out| <= bufLen <= TWO_TO_THE_32
            && |before| == target.Length
            && base + bufLen <= target.Length
            && target[..] == WithOutput(before, base, out))
    }

    ghost function Abs(): Sink
      reads this
    {
      Sink(computeSizeOnly, bufLen, out)
    }

    lemma TargetBytes()
      requires Valid()
      ensures encodedSize == |out|
      ensures !computeSizeOnly ==>
                && base + |out| <= |before|
                && target[..] == before[..base] + out + before[base + |out|..]
    {
    }

    /** Writes go to `target[base..base + bufLen]`, through a callback that takes 32-bit offsets. */
    constructor ToBuffer(target: array<byte>, base: nat, bufLen: nat)
      requires base + bufLen <= target.Length && bufLen <= TWO_TO_THE_32
      ensures Valid() && Abs() == Sink(false, bufLen, [])
      ensures this.target == target && this.base == base && before == target[..]
    {
      computeSizeOnly := false;
      this.target, this.base, this.bufLen := target, base, bufLen;
      encodedSize := 0;
      before, out := target[..], [];
    }

    constructor SizeOnly()
      ensures Valid() && Abs() == Sink(true, 0, [])
      ensures fresh(target)
    {
      computeSizeOnly := true;
      target := new byte[0];
      base, bufLen := 0, 0;
      encodedSize := 0;
      before, out := [], [];
    }

    method WriteCallback(offset: uint32, data: seq<byte>)
      requires base + offset + |data| <= target.Length
      modifies target
      ensures target[..] == old(target[..])[..base + offset] + data + old(target[..])[base + offset + |data|..]
    {
      var at := base + offset;
      for i := 0 to |data|
        invariant forall j :: 0 <= j < target.Length ==>
                    target[j] == if at <= j < at + i then data[j - at] else old(target[j])
      {
        target[at + i] := data[i];
      }
      Replaced(old(target[..]), target[..], at, data);
    }

    method AddToResultBuffer(data: seq<byte>) returns (ok: bool)
      requires Valid()
      modifies this, target
      ensures Valid() && (Abs(), ok) == Add(old(Abs()), data)
    {
      hide WithOutput;
      if |data| == 0 {
        assert out + data == out;
        return true;
      }
      if computeSizeOnly {
        encodedSize := encodedSize + |data|;
        out := out + data;
        return true;
      }
      if encodedSize + |data| > bufLen {
        return false;
      }
      ghost var earlier := target[..];
      WriteCallback(encodedSize, data);
      Appended(before, base, out, data, earlier);
      encodedSize := encodedSize + |data|;
      out := out + data;
      return true;
    }

    method EncodeHead(major: nat, val: uint32) returns (ok: bool)
      requires Valid() && major < 8
      modifies this, target
      ensures Valid() && (Abs(), ok) == Add(old(Abs()), Head(major, val))
    {
      var mt := 32 * major;
      var tmp: seq<byte> := [];
      if val < 24 {
        tmp := [mt + val];
      } else if val <= 0xFF {
        tmp := [mt + 24, val % 256];
      } else if val <= 0xFFFF {
        tmp := [mt + 25, val / 256 % 256, val % 256];
      } else {
        tmp := [mt + 26, val / 256 / 256 / 256 % 256, val / 256 / 256 % 256, val / 256 % 256, val % 256];
      }
      BeOne(val);
      BeTwo(val);
      BeFour(val);
      assert tmp == Head(major, val);
      ok := AddToResultBuffer(tmp);
    }

    method EncodeUint64(val: uint64) returns (tmp: seq<byte>)
      ensures tmp == Be(val, 8)
    {
      var buf := new byte[8];
      var p, shift := 0, 7;
      while shift >= 0
        invariant -1 <= shift <= 7 && p == 7 - shift
        invariant buf[..p] == Be(val, 8)[..p]
        decreases shift
      {
        BeDigit(val, 8, p);
        buf[p] := ShiftRight(val, shift) % 256;
        assert buf[..p + 1] == buf[..p] + [buf[p]];
        p, shift := p + 1, shift - 1;
      }
      tmp := buf[..];
      assert tmp == buf[..8] && Be(val, 8)[..8] == Be(val, 8);
    }

    method EncodeLongSignedInteger(value: int64) returns (ok: bool)
      requires Valid()
      modifies this, target
      ensures Valid() && (Abs(), ok) == Add(old(Abs()), Encode(Integer(value)))
    {
      var major := if value < 0 then MAJOR_NEGATIVE else MAJOR_UNSIGNED;
      var ui := if value < 0 then -1 - value else value;
      if ui < TWO_TO_THE_32 {
        ok := EncodeHead(major, ui);
      } else {
        var tmp := EncodeUint64(ui);
        ok := AddToResultBuffer([32 * major + 27] + tmp);
      }
    }

    method EncodeUint64AsDouble(val: uint64) returns (ok: bool)
      requires Valid()
      modifies this, target
      ensures Valid() && (Abs(), ok) == Add(old(Abs()), Encode(Double(val)))
    {
      var tmp := EncodeUint64(val);
      ok := AddToResultBuffer([32 * MAJOR_SIMPLE + 27] + tmp);
    }

    method EncodeUnsignedInteger(value: uint32) returns (ok: bool)
      requires Valid()
      modifies this, target
      ensures Valid() && (Abs(), ok) == Add(old(Abs()), Encode(Unsigned(value)))
    {
      ok := EncodeHead(MAJOR_UNSIGNED, value);
    }

    method Join(data: seq<byte>) returns (ok: bool)
      requires Valid()
      modifies this, target
      ensures Valid() && (Abs(), ok) == Add(old(Abs()), data)
    {
      ok := AddToResultBuffer(data);
    }

    method EncodeSignedInteger(value: int32) returns (ok: bool)
      requires Valid()
      modifies this, target
      ensures Valid() && (Abs(), ok) == Add(old(Abs()), Encode(Integer(value)))
    {
      var major := if value < 0 then MAJOR_NEGATIVE else MAJOR_UNSIGNED;
      ok := EncodeHead(major, if value < 0 then -1 - value else value);
    }

    method EncodeByteString(buf: seq<byte>) returns (ok: bool)
      requires Valid()
      modifies this, target
      ensures Valid() && (Abs(), ok) == AddAll(old(Abs()), [Head(2, |buf| % 0x1_0000_0000), buf])
    {
      ok := EncodeHead(MAJOR_BYTES, |buf| % TWO_TO_THE_32);
      ghost var k := old(Abs());
      TwoChunks(k, Head(MAJOR_BYTES, |buf| % TWO_TO_THE_32), buf);
      if ok {
        ok := AddToResultBuffer(buf);
      }
    }

    method EncodeString(text: seq<byte>) returns (ok: bool)
      requires Valid()
      modifies this, target
      ensures Valid() && (Abs(), ok) == AddAll(old(Abs()), [Head(3, |text| % 0x1_0000_0000), text])
    {
      ok := EncodeHead(MAJOR_TEXT, |text| % TWO_TO_THE_32);
      ghost var k := old(Abs());
      TwoChunks(k, Head(MAJOR_TEXT, |text| % TWO_TO_THE_32), text);
      if ok {
        ok := AddToResultBuffer(text);
      }
    }

    method EncodeDictionaryBegin(count: nat) returns (ok: bool)
      requires Valid()
      modifies this, target
      ensures Valid() && (Abs(), ok) == Add(old(Abs()), Head(5, count % 0x1_0000_0000))
    {
      ok := EncodeHead(MAJOR_MAP, count % TWO_TO_THE_32);
    }

    method EncodeArrayBegin(count: nat) returns (ok: bool)
      requires Valid()
      modifies this, target
      ensures Valid() && (Abs(), ok) == Add(old(Abs()), Head(4, count % 0x1_0000_0000))
    {
      ok := EncodeHead(MAJOR_ARRAY, count % TWO_TO_THE_32);
    }
  }

  lemma Replaced(before: seq<byte>, after: seq<byte>, at: nat, data: seq<byte>)
    requires |after| == |before| && at + |data| <= |before|
    requires forall j :: 0 <= j < |before| ==> after[j] == if at <= j < at + |data| then data[j - at] else before[j]
    ensures after == before[..at] + data + before[at + |data|..]
  {
  }

  lemma Appended(before: seq<byte>, base: nat, out: seq<byte>, data: seq<byte>, earlier: seq<byte>)
    requires base + |out| + |data| <= |before|
    requires earlier == WithOutput(before, base, out)
    ensures earlier[..base + |out|] + data + earlier[base + |out| + |data|..] == WithOutput(before, base, out + data)
  {
    assert earlier[..base + |out|] == before[..base] + out;
    assert earlier[base + |out| + |data|..] == before[base + |out| + |data|..];
  }

  function TextChunks(text: seq<byte>): seq<seq<byte>> {
    [Head(MAJOR_TEXT, |text| % TWO_TO_THE_32), text]
  }

  lemma TwoChunks(k: Sink, a: seq<byte>, b: seq<byte>)
    ensures AddAll(k, [a, b]) == if Add(k, a).1 then Add(Add(k, a).0, b) else Add(k, a)
  {
    hide Add;
    var k' := Add(k, a).0;
    assert [b][1..] == [];
    assert AddAll(k', [b]) == Add(k', b);
    assert [a, b][1..] == [b];
  }

  lemma BeOne(n: nat)
    ensures Be(n, 1) == [n % 256]
  {
  }

  lemma BeTwo(n: nat)
    ensures Be(n, 2) == [n / 256 % 256, n % 256]
  {
    BeOne(n / 256);
  }

  lemma BeFour(n: nat)
    ensures Be(n, 4) == [n / 256 / 256 / 256 % 256, n / 256 / 256 % 256, n / 256 % 256, n % 256]
  {
    BeTwo(n / 256 / 256);
    assert Be(n / 256, 3) == Be(n / 256 / 256, 2) + [n / 256 % 256];
  }
}
