/** The CBOR data format (RFC 7049) as far as the encoder produces it, with a decoder to read it back. */
module CborFormat {
  import opened Bytes

  const MAJOR_UNSIGNED: nat := 0
  const MAJOR_NEGATIVE: nat := 1
  const MAJOR_BYTES: nat := 2
  const MAJOR_TEXT: nat := 3
  const MAJOR_ARRAY: nat := 4
  const MAJOR_MAP: nat := 5
  const MAJOR_SIMPLE: nat := 7

  // ---------- big-endian integers ----------

  function Be(n: nat, k: nat): (s: seq<byte>)
    ensures |s| == k
  {
    if k == 0 then [] else Be(n / 256, k - 1) + [n % 256]
  }

  function FromBe(s: seq<byte>): nat {
    if s == [] then 0 else FromBe(s[..|s| - 1]) * 256 + s[|s| - 1]
  }

  /** One more than the largest number with `k` base-256 digits. */
  function Limit(k: nat): nat {
    if k == 0 then 1 else 256 * Limit(k - 1)
  }

  lemma {:induction false} BeRoundTrip(n: nat, k: nat)
    requires n < Limit(k)
    ensures FromBe(Be(n, k)) == n
  {
    if k > 0 {
      BeRoundTrip(n / 256, k - 1);
      assert Be(n, k)[..k - 1] == Be(n / 256, k - 1);
    }
  }

  lemma {:induction false} FromBeBelow(s: seq<byte>)
    ensures FromBe(s) < Limit(|s|)
  {
    if s != [] {
      FromBeBelow(s[..|s| - 1]);
    }
  }

  lemma Limits()
    ensures Limit(1) == 0x100 && Limit(2) == 0x1_0000 && Limit(4) == TWO_TO_THE_32 && Limit(8) == TWO_TO_THE_64
  {
    assert Limit(2) == 256 * Limit(1);
    assert Limit(4) == 256 * (256 * Limit(2));
    assert Limit(6) == 256 * (256 * Limit(4));
    assert Limit(8) == 256 * (256 * Limit(6));
  }

  // ---------- heads ----------

  /** Initial byte and argument of an item, with the fewest bytes that hold the argument. */
  function Head(major: nat, arg: uint64): (s: seq<byte>)
    requires major < 8
    ensures s != []
  {
    if arg < 24 then [32 * major + arg]
    else if arg < 0x100 then [32 * major + 24] + Be(arg, 1)
    else if arg < 0x1_0000 then [32 * major + 25] + Be(arg, 2)
    else if arg < TWO_TO_THE_32 then [32 * major + 26] + Be(arg, 4)
    else [32 * major + 27] + Be(arg, 8)
  }

  datatype HeadResult = NoHead | SomeHead(major: nat, wide: bool, arg: nat, rest: seq<byte>)

  /** Bytes of the argument that follow an initial byte with this additional information. */
  function Width(info: nat): nat {
    if info == 24 then 1 else if info == 25 then 2 else if info == 26 then 4 else if info == 27 then 8 else 0
  }

  /** `wide` tells the eight-byte form, which on major type 7 is a double. */
  function DecodeHead(s: seq<byte>): (r: HeadResult)
    ensures r.SomeHead? ==> |r.rest| < |s| && r.major < 8
  {
    if s == [] then NoHead
    else
      var major, info := s[0] / 32, s[0] % 32;
      var k := Width(info);
      if info > 27 || |s| < 1 + k then NoHead
      else if info < 24 then SomeHead(major, false, info, s[1..])
      else SomeHead(major, info == 27, FromBe(s[1..1 + k]), s[1 + k..])
  }

  lemma DecodeWide(initial: byte, arg: nat, k: nat, rest: seq<byte>)
    requires 24 <= initial % 32 <= 27 && k == Width(initial % 32) && arg < Limit(k)
    ensures DecodeHead([initial] + Be(arg, k) + rest) == SomeHead(initial / 32, initial % 32 == 27, arg, rest)
  {
    var s := [initial] + Be(arg, k) + rest;
    BeRoundTrip(arg, k);
    assert s[1..1 + k] == Be(arg, k) && s[1 + k..] == rest;
  }

  lemma DecodeNarrow(initial: byte, rest: seq<byte>)
    requires initial % 32 < 24
    ensures DecodeHead([initial] + rest) == SomeHead(initial / 32, false, initial % 32, rest)
  {
    assert ([initial] + rest)[1..] == rest;
  }

  lemma HeadRoundTrip(major: nat, arg: uint64, rest: seq<byte>)
    requires major < 8
    ensures DecodeHead(Head(major, arg) + rest) == SomeHead(major, arg >= TWO_TO_THE_32, arg, rest)
  {
    hide DecodeHead, Be, Limit;
    Limits();
    if arg < 24 {
      DecodeNarrow(32 * major + arg, rest);
    } else if arg < 0x100 {
      DecodeWide(32 * major + 24, arg, 1, rest);
    } else if arg < 0x1_0000 {
      DecodeWide(32 * major + 25, arg, 2, rest);
    } else if arg < TWO_TO_THE_32 {
      DecodeWide(32 * major + 26, arg, 4, rest);
    } else {
      DecodeWide(32 * major + 27, arg, 8, rest);
    }
  }

  /** Whatever bytes say the same major type and argument, none are fewer than the encoder's. */
  lemma HeadIsShortest(s: seq<byte>)
    requires DecodeHead(s).SomeHead? && DecodeHead(s).arg < TWO_TO_THE_64
    ensures var r := DecodeHead(s); |Head(r.major, r.arg)| <= |s| - |r.rest|
  {
    Limits();
    var k := Width(s[0] % 32);
    FromBeBelow(s[1..1 + k]);
  }

  // ---------- heads by their bytes ----------

  /** The number whose `k` bytes stand at `i`, the highest first. */
  function BigEndian(s: seq<byte>, i: nat, k: nat): nat
    requires i + k <= |s|
    decreases k
  {
    if k == 0 then 0 else 0x100 * BigEndian(s, i, k - 1) + s[i + k - 1]
  }

  lemma {:induction false} BigEndianIs(s: seq<byte>, i: nat, k: nat)
    requires i + k <= |s|
    ensures BigEndian(s, i, k) == FromBe(s[i..i + k])
    decreases k
  {
    if k > 0 {
      BigEndianIs(s, i, k - 1);
      assert s[i..i + k][..k - 1] == s[i..i + k - 1];
    }
  }

  lemma WideBytes(initial: byte, arg: nat, k: nat)
    requires arg < Limit(k)
    ensures var s := [initial] + Be(arg, k);
            |s| == 1 + k && s[0] == initial && BigEndian(s, 1, k) == arg
  {
    hide Be, Limit, FromBe;
    var s := [initial] + Be(arg, k);
    BigEndianIs(s, 1, k);
    assert s[1..1 + k] == Be(arg, k);
    BeRoundTrip(arg, k);
  }

  /** Section 2.1 of RFC 7049: the argument in the initial byte below 24, and else in 1, 2, 4 or 8 bytes behind it. */
  lemma HeadBytes(major: nat, arg: uint64)
    requires major < 8
    ensures var s := Head(major, arg);
            && s[0] / 32 == major
            && s[0] % 32 == (if arg < 24 then arg else if arg < 0x100 then 24 else if arg < 0x1_0000 then 25
                             else if arg < 0x1_0000_0000 then 26 else 27)
            && |s| == (if arg < 24 then 1 else if arg < 0x100 then 2 else if arg < 0x1_0000 then 3
                       else if arg < 0x1_0000_0000 then 5 else 9)
            && (arg >= 24 ==> BigEndian(s, 1, |s| - 1) == arg)
  {
    hide Be, Limit, BigEndian;
    Limits();
    if arg < 24 {
    } else if arg < 0x100 {
      WideBytes(32 * major + 24, arg, 1);
    } else if arg < 0x1_0000 {
      WideBytes(32 * major + 25, arg, 2);
    } else if arg < TWO_TO_THE_32 {
      WideBytes(32 * major + 26, arg, 4);
    } else {
      WideBytes(32 * major + 27, arg, 8);
    }
  }

  // ---------- items ----------

  datatype Item =
    | Unsigned(n: uint64)
    | Negative(n: uint64)
    | ByteString(bytes: seq<byte>)
    | TextString(bytes: seq<byte>)
    | Array(items: seq<Item>)
    | Map(keysAndValues: seq<Item>)
    | Double(bits: uint64)

  /** Lengths the encoder can pass on: its counts are 32 bits wide, and a map has pairs. */
  predicate Encodable(item: Item) {
    match item
    case ByteString(bytes) => |bytes| < TWO_TO_THE_32
    case TextString(bytes) => |bytes| < TWO_TO_THE_32
    case Array(items) => |items| < TWO_TO_THE_32 && forall i :: 0 <= i < |items| ==> Encodable(items[i])
    case Map(items) =>
      |items| % 2 == 0 && |items| / 2 < TWO_TO_THE_32 && forall i :: 0 <= i < |items| ==> Encodable(items[i])
    case _ => true
  }

  function Encode(item: Item): (s: seq<byte>)
    requires Encodable(item)
    ensures s != []
    decreases item, 0
  {
    match item
    case Unsigned(n) => Head(MAJOR_UNSIGNED, n)
    case Negative(n) => Head(MAJOR_NEGATIVE, n)
    case ByteString(bytes) => Head(MAJOR_BYTES, |bytes|) + bytes
    case TextString(bytes) => Head(MAJOR_TEXT, |bytes|) + bytes
    case Array(items) => Head(MAJOR_ARRAY, |items|) + EncodeAll(items)
    case Map(items) => Head(MAJOR_MAP, |items| / 2) + EncodeAll(items)
    case Double(bits) => [32 * MAJOR_SIMPLE + 27] + Be(bits, 8)
  }

  function EncodeAll(items: seq<Item>): seq<byte>
    requires forall i :: 0 <= i < |items| ==> Encodable(items[i])
    decreases items
  {
    if items == [] then [] else Encode(items[0]) + EncodeAll(items[1..])
  }

  datatype Decoded<T> = Malformed | Decoded(value: T, rest: seq<byte>)

  function DecodeItem(s: seq<byte>): (r: Decoded<Item>)
    ensures r.Decoded? ==> |r.rest| < |s|
    decreases |s|, 0
  {
    match DecodeHead(s)
    case NoHead => Malformed
    case SomeHead(major, wide, arg, rest) =>
      if arg >= TWO_TO_THE_64 then Malformed
      else if major == MAJOR_UNSIGNED then Decoded(Unsigned(arg), rest)
      else if major == MAJOR_NEGATIVE then Decoded(Negative(arg), rest)
      else if major == MAJOR_BYTES && arg <= |rest| then Decoded(ByteString(rest[..arg]), rest[arg..])
      else if major == MAJOR_TEXT && arg <= |rest| then Decoded(TextString(rest[..arg]), rest[arg..])
      else if major == MAJOR_ARRAY then
        match DecodeItems(rest, arg)
        case Malformed => Malformed
        case Decoded(items, after) => Decoded(Array(items), after)
      else if major == MAJOR_MAP then
        match DecodeItems(rest, 2 * arg)
        case Malformed => Malformed
        case Decoded(items, after) => Decoded(Map(items), after)
      else if major == MAJOR_SIMPLE && wide then Decoded(Double(arg), rest)
      else Malformed
  }

  function DecodeItems(s: seq<byte>, count: nat): (r: Decoded<seq<Item>>)
    ensures r.Decoded? ==> |r.rest| <= |s|
    decreases |s|, count + 1
  {
    if count == 0 then Decoded([], s)
    else
      match DecodeItem(s)
      case Malformed => Malformed
      case Decoded(item, rest) =>
        match DecodeItems(rest, count - 1)
        case Malformed => Malformed
        case Decoded(items, after) => Decoded([item] + items, after)
  }

  /** Every kind of item has the initial byte that section 2.1 of RFC 7049 gives it, and what follows its head. */
  lemma EncodedBytes(item: Item)
    requires Encodable(item)
    ensures var s := Encode(item);
            match item
            case Unsigned(n) => s == Head(0, n)
            case Negative(n) => s == Head(1, n)
            case ByteString(bytes) => s == Head(2, |bytes|) + bytes
            case TextString(bytes) => s == Head(3, |bytes|) + bytes
            case Array(items) => s == Head(4, |items|) + EncodeAll(items)
            case Map(items) => s == Head(5, |items| / 2) + EncodeAll(items)
            case Double(bits) => |s| == 9 && s[0] == 0xFB && BigEndian(s, 1, 8) == bits
  {
    hide Head, Be, Limit, BigEndian;
    if item.Double? {
      Limits();
      WideBytes(0xFB, item.bits, 8);
    }
  }

  /** Examples of appendix A of RFC 7049. */
  lemma Examples()
    ensures Encode(Unsigned(10)) == [0x0A] && Encode(Unsigned(24)) == [0x18, 0x18]
    ensures Encode(Unsigned(1000)) == [0x19, 0x03, 0xE8] && Encode(Unsigned(1000000)) == [0x1A, 0x00, 0x0F, 0x42, 0x40]
    ensures Encode(Negative(0)) == [0x20] && Encode(Negative(99)) == [0x38, 0x63]
  {
    ExampleBytes();
    hide Be;
  }

  lemma ExamplesOfStrings()
    ensures Encode(ByteString([1, 2, 3, 4])) == [0x44, 1, 2, 3, 4]
    ensures Encode(TextString([0x49, 0x45, 0x54, 0x46])) == [0x64, 0x49, 0x45, 0x54, 0x46]
    ensures Encode(Array([])) == [0x80] && Encode(Map([])) == [0xA0]
  {
    hide Be;
  }

  lemma ExampleBytes()
    ensures Be(24, 1) == [24] && Be(99, 1) == [99]
    ensures Be(1000, 2) == [3, 0xE8] && Be(1000000, 4) == [0, 0x0F, 0x42, 0x40]
  {
    assert Be(1000, 2) == Be(3, 1) + [0xE8] && Be(3, 1) == Be(0, 0) + [3];
    assert Be(1000000, 4) == Be(3906, 3) + [0x40];
    assert Be(3906, 3) == Be(15, 2) + [0x42];
    assert Be(15, 2) == Be(0, 1) + [0x0F] && Be(0, 1) == Be(0, 0) + [0];
    assert Be(24, 1) == Be(0, 0) + [24] && Be(99, 1) == Be(0, 0) + [99];
  }

  /** Decoding an encoded item followed by any bytes gives the item and exactly those bytes. */
  lemma {:induction false} ItemRoundTrip(item: Item, rest: seq<byte>)
    requires Encodable(item)
    ensures DecodeItem(Encode(item) + rest) == Decoded(item, rest)
    decreases item, 0
  {
    hide DecodeHead, Head, Be, Limit, EncodeAll, DecodeItems, Width;
    match item
    case Unsigned(n) => HeadRoundTrip(MAJOR_UNSIGNED, n, rest);
    case Negative(n) => HeadRoundTrip(MAJOR_NEGATIVE, n, rest);
    case ByteString(bytes) =>
      StringRoundTrip(MAJOR_BYTES, bytes, rest);
    case TextString(bytes) =>
      StringRoundTrip(MAJOR_TEXT, bytes, rest);
    case Array(items) =>
      HeadRoundTrip(MAJOR_ARRAY, |items|, EncodeAll(items) + rest);
      assert Encode(item) + rest == Head(MAJOR_ARRAY, |items|) + (EncodeAll(items) + rest);
      ItemsRoundTrip(items, rest);
    case Map(items) =>
      HeadRoundTrip(MAJOR_MAP, |items| / 2, EncodeAll(items) + rest);
      assert Encode(item) + rest == Head(MAJOR_MAP, |items| / 2) + (EncodeAll(items) + rest);
      ItemsRoundTrip(items, rest);
    case Double(bits) =>
      DoubleRoundTrip(bits, rest);
  }

  lemma DoubleRoundTrip(bits: uint64, rest: seq<byte>)
    ensures DecodeHead([32 * MAJOR_SIMPLE + 27] + Be(bits, 8) + rest) == SomeHead(MAJOR_SIMPLE, true, bits, rest)
  {
    hide DecodeHead, Be, Limit;
    Limits();
    assert Width((32 * MAJOR_SIMPLE + 27) % 32) == 8;
    DecodeWide(32 * MAJOR_SIMPLE + 27, bits, 8, rest);
  }

  lemma StringRoundTrip(major: nat, bytes: seq<byte>, rest: seq<byte>)
    requires major < 8 && |bytes| < TWO_TO_THE_32
    ensures DecodeHead(Head(major, |bytes|) + bytes + rest) == SomeHead(major, false, |bytes|, bytes + rest)
    ensures (bytes + rest)[..|bytes|] == bytes && (bytes + rest)[|bytes|..] == rest
  {
    HeadRoundTrip(major, |bytes|, bytes + rest);
    assert Head(major, |bytes|) + bytes + rest == Head(major, |bytes|) + (bytes + rest);
  }

  lemma {:induction false} ItemsRoundTrip(items: seq<Item>, rest: seq<byte>)
    requires forall i :: 0 <= i < |items| ==> Encodable(items[i])
    ensures DecodeItems(EncodeAll(items) + rest, |items|) == Decoded(items, rest)
    decreases items
  {
    if items == [] {
      assert EncodeAll(items) + rest == rest;
    } else {
      var after := EncodeAll(items[1..]) + rest;
      assert EncodeAll(items) + rest == Encode(items[0]) + after;
      ItemRoundTrip(items[0], after);
      ItemsRoundTrip(items[1..], rest);
      assert [items[0]] + items[1..] == items;
    }
  }

  /** The string encoder's head holds the length in 32 bits, so it reads back exactly when the length fits. */
  function StringBytes(text: seq<byte>): seq<byte> {
    Head(MAJOR_TEXT, |text| % TWO_TO_THE_32) + text
  }

  lemma StringReadsBackIffShort(text: seq<byte>, rest: seq<byte>)
    ensures DecodeItem(StringBytes(text) + rest) == Decoded(TextString(text), rest) <==> |text| < TWO_TO_THE_32
  {
    var n := |text| % TWO_TO_THE_32;
    HeadRoundTrip(MAJOR_TEXT, n, text + rest);
    assert StringBytes(text) + rest == Head(MAJOR_TEXT, n) + (text + rest);
    assert |text| < TWO_TO_THE_32 ==> n == |text|;
    assert (text + rest)[..|text|] == text && (text + rest)[|text|..] == rest;
  }
}
