/** The metadata note of a core dump: a CBOR map with seven entries. */
module Metadata {
  import opened Bytes
  import opened CborFormat
  import opened Cbor
  import opened ElfNote

  /** "Ticos" */
  const NOTE_NAME: seq<byte> := [0x54, 0x69, 0x63, 0x6F, 0x73]
  const NOTE_TYPE: uint32 := 0x4154454D
  const SCHEMA_VERSION_V1: uint32 := 1

  const KEY_SCHEMA_VERSION: uint32 := 1
  const KEY_LINUX_SDK_VERSION: uint32 := 2
  const KEY_CAPTURED_TIME: uint32 := 3
  const KEY_DEVICE_SERIAL: uint32 := 4
  const KEY_HARDWARE_VERSION: uint32 := 5
  const KEY_SOFTWARE_TYPE: uint32 := 6
  const KEY_SOFTWARE_VERSION: uint32 := 7

  datatype Metadata = Metadata(
    linuxSdkVersion: seq<byte>,
    capturedTime: uint32,
    deviceSerial: seq<byte>,
    hardwareVersion: seq<byte>,
    softwareType: seq<byte>,
    softwareVersion: seq<byte>)

  // ---------- writing ----------

  function NumberChunks(key: uint32, value: uint32): seq<seq<byte>> {
    [Encode(Unsigned(key)), Encode(Unsigned(value))]
  }

  function TextEntryChunks(key: uint32, text: seq<byte>): seq<seq<byte>> {
    [Encode(Unsigned(key))] + TextChunks(text)
  }

  /** The entries in the order they are written, as the pieces handed to the encoder. */
  function Entries(m: Metadata): seq<seq<seq<byte>>> {
    [
      [Head(MAJOR_MAP, 7)],
      NumberChunks(KEY_SCHEMA_VERSION, SCHEMA_VERSION_V1),
      TextEntryChunks(KEY_LINUX_SDK_VERSION, m.linuxSdkVersion),
      NumberChunks(KEY_CAPTURED_TIME, m.capturedTime),
      TextEntryChunks(KEY_DEVICE_SERIAL, m.deviceSerial),
      TextEntryChunks(KEY_HARDWARE_VERSION, m.hardwareVersion),
      TextEntryChunks(KEY_SOFTWARE_TYPE, m.softwareType),
      TextEntryChunks(KEY_SOFTWARE_VERSION, m.softwareVersion)
    ]
  }

  function Flat(entries: seq<seq<seq<byte>>>): seq<seq<byte>>
    decreases |entries|
  {
    if entries == [] then [] else entries[0] + Flat(entries[1..])
  }

  function Chunks(m: Metadata): seq<seq<byte>> {
    Flat(Entries(m))
  }

  /** The note's description. */
  function Description(m: Metadata): seq<byte> {
    Joined(Chunks(m))
  }

  method AddNumber(encoder: Encoder, key: uint32, value: uint32) returns (ok: bool)
    requires encoder.Valid()
    modifies encoder, encoder.target
    ensures encoder.Valid() && (encoder.Abs(), ok) == AddAll(old(encoder.Abs()), NumberChunks(key, value))
  {
    TwoChunks(encoder.Abs(), Encode(Unsigned(key)), Encode(Unsigned(value)));
    ok := encoder.EncodeUnsignedInteger(key);
    if ok {
      ok := encoder.EncodeUnsignedInteger(value);
    }
  }

  method AddText(encoder: Encoder, key: uint32, text: seq<byte>) returns (ok: bool)
    requires encoder.Valid()
    modifies encoder, encoder.target
    ensures encoder.Valid() && (encoder.Abs(), ok) == AddAll(old(encoder.Abs()), TextEntryChunks(key, text))
  {
    OneThenMore(encoder.Abs(), Encode(Unsigned(key)), TextChunks(text));
    ok := encoder.EncodeUnsignedInteger(key);
    if ok {
      ok := encoder.EncodeString(text);
    }
  }

  lemma OneThenMore(k: Sink, a: seq<byte>, more: seq<seq<byte>>)
    ensures AddAll(k, [a] + more) == if Add(k, a).1 then AddAll(Add(k, a).0, more) else Add(k, a)
  {
    assert ([a] + more)[1..] == more;
  }

  /** What adding the entries from the `i`-th on still has to do. */
  lemma AddEntry(k: Sink, entries: seq<seq<seq<byte>>>, i: nat)
    requires i < |entries|
    ensures AddAll(k, Flat(entries[i..]))
            == if AddAll(k, entries[i]).1 then AddAll(AddAll(k, entries[i]).0, Flat(entries[i + 1..])) else AddAll(k, entries[i])
  {
    var rest := entries[i..];
    assert rest[0] == entries[i] && rest[1..] == entries[i + 1..];
    AddAllConcat(k, rest[0], Flat(rest[1..]));
  }

  lemma EntriesInOrder(m: Metadata)
    ensures var e := Entries(m);
            && |e| == 8
            && e[0] == [Head(MAJOR_MAP, 7)]
            && e[1] == NumberChunks(KEY_SCHEMA_VERSION, SCHEMA_VERSION_V1)
            && e[2] == TextEntryChunks(KEY_LINUX_SDK_VERSION, m.linuxSdkVersion)
            && e[3] == NumberChunks(KEY_CAPTURED_TIME, m.capturedTime)
            && e[4] == TextEntryChunks(KEY_DEVICE_SERIAL, m.deviceSerial)
            && e[5] == TextEntryChunks(KEY_HARDWARE_VERSION, m.hardwareVersion)
            && e[6] == TextEntryChunks(KEY_SOFTWARE_TYPE, m.softwareType)
            && e[7] == TextEntryChunks(KEY_SOFTWARE_VERSION, m.softwareVersion)
  {
  }

  /** Adds the map's head and its entries until one does not fit. */
  method AddCborMetadata(encoder: Encoder, m: Metadata) returns (ok: bool)
    requires encoder.Valid()
    modifies encoder, encoder.target
    ensures encoder.Valid() && (encoder.Abs(), ok) == AddAll(old(encoder.Abs()), Chunks(m))
  {
    hide Add, AddAll, Head, Encode, TextChunks, Flat, NumberChunks, TextEntryChunks, Encoder.Valid, Entries;
    ghost var e := Entries(m);
    EntriesInOrder(m);
    ghost var all := AddAll(encoder.Abs(), Flat(e));
    assert e[0..] == e && e[8..] == [];
    OneChunk(encoder.Abs(), Head(MAJOR_MAP, 7));
    AddEntry(encoder.Abs(), e, 0);
    ok := encoder.EncodeDictionaryBegin(7);
    if !ok {
      return;
    }
    assert AddAll(encoder.Abs(), Flat(e[1..])) == all;
    AddEntry(encoder.Abs(), e, 1);
    ok := AddNumber(encoder, KEY_SCHEMA_VERSION, SCHEMA_VERSION_V1);
    if !ok {
      return;
    }
    assert AddAll(encoder.Abs(), Flat(e[2..])) == all;
    AddEntry(encoder.Abs(), e, 2);
    ok := AddText(encoder, KEY_LINUX_SDK_VERSION, m.linuxSdkVersion);
    if !ok {
      return;
    }
    assert AddAll(encoder.Abs(), Flat(e[3..])) == all;
    AddEntry(encoder.Abs(), e, 3);
    ok := AddNumber(encoder, KEY_CAPTURED_TIME, m.capturedTime);
    if !ok {
      return;
    }
    assert AddAll(encoder.Abs(), Flat(e[4..])) == all;
    AddEntry(encoder.Abs(), e, 4);
    ok := AddText(encoder, KEY_DEVICE_SERIAL, m.deviceSerial);
    if !ok {
      return;
    }
    assert AddAll(encoder.Abs(), Flat(e[5..])) == all;
    AddEntry(encoder.Abs(), e, 5);
    ok := AddText(encoder, KEY_HARDWARE_VERSION, m.hardwareVersion);
    if !ok {
      return;
    }
    assert AddAll(encoder.Abs(), Flat(e[6..])) == all;
    AddEntry(encoder.Abs(), e, 6);
    ok := AddText(encoder, KEY_SOFTWARE_TYPE, m.softwareType);
    if !ok {
      return;
    }
    assert AddAll(encoder.Abs(), Flat(e[7..])) == all;
    AddEntry(encoder.Abs(), e, 7);
    ok := AddText(encoder, KEY_SOFTWARE_VERSION, m.softwareVersion);
    NothingMore(encoder.Abs());
  }

  lemma OneChunk(k: Sink, a: seq<byte>)
    ensures AddAll(k, [a]) == Add(k, a)
  {
    assert [a][1..] == [];
  }

  lemma NothingMore(k: Sink)
    ensures AddAll(k, Flat([])) == (k, true)
  {
  }

  /** Runs the writing code against a sink that only counts. */
  method CborCalculateSize(m: Metadata) returns (size: nat)
    ensures size == |Description(m)|
  {
    var encoder := new Encoder.SizeOnly();
    PassesAgree(Chunks(m), 0);
    var ok := AddCborMetadata(encoder, m);
    size := encoder.encodedSize;
  }

  method NoteCalculateSize(m: Metadata) returns (size: nat)
    ensures size == NoteSize(NOTE_NAME, |Description(m)|)
  {
    var descriptionSize := CborCalculateSize(m);
    size := NoteSize(NOTE_NAME, descriptionSize);
  }

  function DescriptionAt(): nat { 20 }

  /**
   * Into a buffer of at least the calculated size (the callback's offsets reach 32 bits far) the note is always
   * written completely, and nothing behind it changes.
   */
  method NoteWrite(m: Metadata, buffer: array<byte>) returns (ok: bool)
    requires NoteSize(NOTE_NAME, |Description(m)|) <= buffer.Length
    requires buffer.Length - DescriptionAt() <= TWO_TO_THE_32
    modifies buffer
    ensures ok
    ensures buffer[..] == NoteBytes(NOTE_NAME, Description(m), NOTE_TYPE)
                          + old(buffer[NoteSize(NOTE_NAME, |Description(m)|)..])
  {
    hide AddAll, Joined, Chunks, Zeros, NoteBytes, OwnerName, AlignUp4, Encoder.Valid;
    ghost var d := Description(m);
    NameTakesEight();
    var descriptionSize := CborCalculateSize(m);
    var at := NoteInit(buffer, NOTE_NAME, descriptionSize, NOTE_TYPE);
    ghost var blank := buffer[..];
    var encoder := new Encoder.ToBuffer(buffer, at, buffer.Length - at);
    PassesAgree(Chunks(m), buffer.Length - at);
    ok := AddCborMetadata(encoder, m);
    encoder.TargetBytes();
    assert buffer[..] == blank[..at] + d + blank[at + |d|..];
    Described(blank, old(buffer[..]), d);
  }

  lemma NameTakesEight()
    ensures |OwnerName(NOTE_NAME)| == 6 && AlignUp4(|OwnerName(NOTE_NAME)|) == 8
  {
  }

  lemma Described(blank: seq<byte>, before: seq<byte>, d: seq<byte>)
    requires NoteSize(NOTE_NAME, |d|) <= |before|
    requires blank == NoteBytes(NOTE_NAME, Zeros(|d|), NOTE_TYPE) + before[NoteSize(NOTE_NAME, |d|)..]
    ensures blank[..DescriptionAt()] + d + blank[DescriptionAt() + |d|..]
            == NoteBytes(NOTE_NAME, d, NOTE_TYPE) + before[NoteSize(NOTE_NAME, |d|)..]
  {
    hide NoteHeader, OwnerName, AlignUp4;
    NameTakesEight();
  }

  // ---------- reading back ----------

  predicate AllShort(m: Metadata) {
    && |m.linuxSdkVersion| < TWO_TO_THE_32
    && |m.deviceSerial| < TWO_TO_THE_32
    && |m.hardwareVersion| < TWO_TO_THE_32
    && |m.softwareType| < TWO_TO_THE_32
    && |m.softwareVersion| < TWO_TO_THE_32
  }

  /** The map that a reader of the note's description should see. */
  function AsItem(m: Metadata): Item {
    Map([
      Unsigned(KEY_SCHEMA_VERSION), Unsigned(SCHEMA_VERSION_V1),
      Unsigned(KEY_LINUX_SDK_VERSION), TextString(m.linuxSdkVersion),
      Unsigned(KEY_CAPTURED_TIME), Unsigned(m.capturedTime),
      Unsigned(KEY_DEVICE_SERIAL), TextString(m.deviceSerial),
      Unsigned(KEY_HARDWARE_VERSION), TextString(m.hardwareVersion),
      Unsigned(KEY_SOFTWARE_TYPE), TextString(m.softwareType),
      Unsigned(KEY_SOFTWARE_VERSION), TextString(m.softwareVersion)
    ])
  }

  datatype Value = Missing | Present(item: Item)

  /** The value at a number key of a map. */
  function Find(keysAndValues: seq<Item>, key: uint32): Value {
    if |keysAndValues| < 2 then Missing
    else if keysAndValues[0] == Unsigned(key) then Present(keysAndValues[1])
    else Find(keysAndValues[2..], key)
  }

  /** The metadata in a decoded map, wherever its entries stand. */
  function FromItem(item: Item): Reading {
    if !item.Map? then NotMetadata
    else
      var kv := item.keysAndValues;
      match (Find(kv, KEY_SCHEMA_VERSION), Find(kv, KEY_LINUX_SDK_VERSION), Find(kv, KEY_CAPTURED_TIME),
             Find(kv, KEY_DEVICE_SERIAL), Find(kv, KEY_HARDWARE_VERSION), Find(kv, KEY_SOFTWARE_TYPE),
             Find(kv, KEY_SOFTWARE_VERSION))
      case (Present(Unsigned(v)), Present(TextString(sdk)), Present(Unsigned(time)), Present(TextString(serial)),
            Present(TextString(hw)), Present(TextString(ty)), Present(TextString(sw))) =>
        if v == SCHEMA_VERSION_V1 && time < TWO_TO_THE_32 then IsMetadata(Metadata(sdk, time, serial, hw, ty, sw))
        else NotMetadata
      case _ => NotMetadata
  }

  datatype Reading = NotMetadata | IsMetadata(m: Metadata)

  lemma JoinedTwo(a: seq<byte>, b: seq<byte>)
    ensures Joined([a, b]) == a + b
    ensures Joined([a]) == a
  {
    JoinedOne(a);
    JoinedOne(b);
    assert [a, b][1..] == [b];
  }

  lemma JoinedOne(a: seq<byte>)
    ensures Joined([a]) == a
  {
    assert [a][1..] == [] && a + [] == a;
  }

  lemma EntryJoined(key: uint32, value: Item)
    requires Encodable(value)
    ensures EncodeAll([Unsigned(key), value]) == Encode(Unsigned(key)) + Encode(value)
    ensures value.Unsigned? && value.n < TWO_TO_THE_32 ==>
              Joined(NumberChunks(key, value.n)) == EncodeAll([Unsigned(key), value])
    ensures value.TextString? ==> Joined(TextEntryChunks(key, value.bytes)) == EncodeAll([Unsigned(key), value])
  {
    hide Head;
    EncodeTwo(Unsigned(key), value);
    if value.TextString? {
      JoinedTwo(Head(MAJOR_TEXT, |value.bytes|), value.bytes);
      JoinedConcat([Encode(Unsigned(key))], TextChunks(value.bytes));
      JoinedTwo(Encode(Unsigned(key)), []);
    } else if value.Unsigned? && value.n < TWO_TO_THE_32 {
      JoinedTwo(Encode(Unsigned(key)), Encode(value));
    }
  }

  lemma EncodeTwo(a: Item, b: Item)
    requires Encodable(a) && Encodable(b)
    ensures EncodeAll([a, b]) == Encode(a) + Encode(b)
  {
    hide Head;
    assert [a, b][1..] == [b] && [b][1..] == [];
    assert EncodeAll([b]) == Encode(b) + [];
  }

  /** The items of the map from the `i`-th entry on, and the pieces written for them, are the same bytes. */
  lemma {:induction false} DescriptionFrom(m: Metadata, i: nat)
    requires AllShort(m) && 1 <= i <= 8
    ensures forall j :: 0 <= j < 14 ==> Encodable(AsItem(m).keysAndValues[j])
    ensures Joined(Flat(Entries(m)[i..])) == EncodeAll(AsItem(m).keysAndValues[2 * (i - 1)..])
    decreases 8 - i
  {
    hide Head, Encode, TextChunks, NumberChunks, TextEntryChunks, EncodeAll, Joined;
    var kv, e := AsItem(m).keysAndValues, Entries(m);
    if i < 8 {
      DescriptionFrom(m, i + 1);
      EntryMatches(m, i);
      assert e[i..][0] == e[i] && e[i..][1..] == e[i + 1..];
      JoinedConcat(e[i], Flat(e[i + 1..]));
      EncodeAllFrom(kv, 2 * (i - 1));
    } else {
      assert e[8..] == [] && kv[14..] == [];
      JoinedNothing();
    }
  }

  lemma JoinedNothing()
    ensures Joined([]) == EncodeAll([])
  {
  }

  lemma EncodeAllFrom(kv: seq<Item>, i: nat)
    requires i + 2 <= |kv| && forall j :: 0 <= j < |kv| ==> Encodable(kv[j])
    ensures EncodeAll(kv[i..]) == EncodeAll([kv[i], kv[i + 1]]) + EncodeAll(kv[i + 2..])
  {
    hide Head, Encode;
    EncodeTwo(kv[i], kv[i + 1]);
    assert kv[i..][1..] == kv[i + 1..] && kv[i + 1..][1..] == kv[i + 2..];
  }

  lemma EntryMatches(m: Metadata, i: nat)
    requires AllShort(m) && 1 <= i < 8
    ensures var kv := AsItem(m).keysAndValues;
            && Encodable(kv[2 * (i - 1)]) && Encodable(kv[2 * (i - 1) + 1])
            && Joined(Entries(m)[i]) == EncodeAll([kv[2 * (i - 1)], kv[2 * (i - 1) + 1]])
  {
    hide Head, Encode, TextChunks, NumberChunks, TextEntryChunks, EncodeAll, Joined;
    var kv := AsItem(m).keysAndValues;
    EntryJoined(kv[2 * (i - 1)].n, kv[2 * (i - 1) + 1]);
  }

  /** The description is the encoding of the seven-entry map. */
  lemma DescriptionIsMap(m: Metadata)
    requires AllShort(m)
    ensures Encodable(AsItem(m)) && Description(m) == Encode(AsItem(m))
  {
    hide Head, TextChunks, NumberChunks, TextEntryChunks, EncodeAll, Joined;
    var e, kv := Entries(m), AsItem(m).keysAndValues;
    DescriptionFrom(m, 1);
    JoinedConcat(e[0], Flat(e[1..]));
    JoinedTwo(Head(MAJOR_MAP, 7), []);
    assert kv[0..] == kv;
  }

  /** The entries are found again under their keys. */
  lemma FoundAgain(m: Metadata)
    ensures FromItem(AsItem(m)) == IsMetadata(m)
  {
    hide Find;
    FoundKey(m, 0);
    FoundKey(m, 1);
    FoundKey(m, 2);
    FoundKey(m, 3);
    FoundKey(m, 4);
    FoundKey(m, 5);
    FoundKey(m, 6);
  }

  lemma KeyAt(m: Metadata, i: nat)
    requires i < 7
    ensures AsItem(m).Map? && |AsItem(m).keysAndValues| == 14 && AsItem(m).keysAndValues[2 * i] == Unsigned(i + 1)
  {
  }

  /** The note's fixed parts and the number under which each of the metadata stands, in ascending order. */
  lemma MetadataNumbers(m: Metadata)
    ensures NOTE_NAME == [0x54, 0x69, 0x63, 0x6F, 0x73] && NOTE_TYPE == 0x4154454D
    ensures AsItem(m).Map? && |AsItem(m).keysAndValues| == 14
    ensures forall i :: 0 <= i < 7 ==> AsItem(m).keysAndValues[2 * i] == Unsigned(i + 1)
    ensures var kv := AsItem(m).keysAndValues;
            && Find(kv, 1) == Present(Unsigned(1))
            && Find(kv, 2) == Present(TextString(m.linuxSdkVersion))
            && Find(kv, 3) == Present(Unsigned(m.capturedTime))
            && Find(kv, 4) == Present(TextString(m.deviceSerial))
            && Find(kv, 5) == Present(TextString(m.hardwareVersion))
            && Find(kv, 6) == Present(TextString(m.softwareType))
            && Find(kv, 7) == Present(TextString(m.softwareVersion))
  {
    hide Find;
    FoundKey(m, 0);
    FoundKey(m, 1);
    FoundKey(m, 2);
    FoundKey(m, 3);
    FoundKey(m, 4);
    FoundKey(m, 5);
    FoundKey(m, 6);
  }

  lemma FoundKey(m: Metadata, i: nat)
    requires i < 7
    ensures |AsItem(m).keysAndValues| == 14
    ensures Find(AsItem(m).keysAndValues, i + 1) == Present(AsItem(m).keysAndValues[2 * i + 1])
  {
    hide Find, AsItem;
    KeyAt(m, i);
    forall j | 0 <= j < i
      ensures AsItem(m).keysAndValues[2 * j] != Unsigned(i + 1)
    {
      KeyAt(m, j);
    }
    FindAt(AsItem(m).keysAndValues, i + 1, i);
  }

  lemma {:induction false} FindAt(kv: seq<Item>, key: uint32, i: nat)
    requires 2 * i + 1 < |kv| && kv[2 * i] == Unsigned(key)
    requires forall j :: 0 <= j < i ==> kv[2 * j] != Unsigned(key)
    ensures Find(kv, key) == Present(kv[2 * i + 1])
    decreases i
  {
    if i > 0 {
      assert kv[2 * 0] != Unsigned(key);
      var tail := kv[2..];
      forall j | 0 <= j < i - 1
        ensures tail[2 * j] != Unsigned(key)
      {
        assert tail[2 * j] == kv[2 * (j + 1)];
      }
      FindAt(tail, key, i - 1);
    }
  }

  /**
   * A reader of the note gets the owner name, the type and all seven fields back, exactly when the description's
   * size fits the note's 32-bit field.
   */
  lemma NoteReadsBack(m: Metadata)
    requires AllShort(m)
    ensures var note := ParseNote(NoteBytes(NOTE_NAME, Description(m), NOTE_TYPE));
            (note == Note([0x54, 0x69, 0x63, 0x6F, 0x73, 0], 0x4154454D, Description(m))
             <==> |Description(m)| < TWO_TO_THE_32)
    ensures DecodeItem(Description(m)) == Decoded(AsItem(m), [])
    ensures FromItem(AsItem(m)) == IsMetadata(m)
  {
    NameTakesEight();
    NoteReadsBackIffShort(NOTE_NAME, Description(m), NOTE_TYPE);
    DescriptionIsMap(m);
    ItemRoundTrip(AsItem(m), []);
    assert Encode(AsItem(m)) + [] == Encode(AsItem(m));
    FoundAgain(m);
  }
}
