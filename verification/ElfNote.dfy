/** ELF notes: header, owner name and description, each padded to words of four bytes. */
module ElfNote {
  import opened Bytes

  function AlignUp4(n: nat): (r: nat)
    ensures n <= r < n + 4 && r % 4 == 0
  {
    (n + 3) / 4 * 4
  }

  /** A present name is followed by a NUL; without a name nothing is stored. */
  function OwnerName(name: seq<byte>): seq<byte> {
    if name == [] then [] else name + [0]
  }

  function NoteSize(name: seq<byte>, descriptionSize: nat): nat {
    12 + AlignUp4(|OwnerName(name)|) + AlignUp4(descriptionSize)
  }

  function Padded(s: seq<byte>): (r: seq<byte>)
    ensures |r| == AlignUp4(|s|)
  {
    s + Zeros(AlignUp4(|s|) - |s|)
  }

  function NoteHeader(name: seq<byte>, descriptionSize: nat, noteType: uint32): (s: seq<byte>)
    ensures |s| == 12
  {
    Le32(|OwnerName(name)| % TWO_TO_THE_32) + Le32(descriptionSize % TWO_TO_THE_32) + Le32(noteType)
  }

  function NoteBytes(name: seq<byte>, description: seq<byte>, noteType: uint32): (s: seq<byte>)
    ensures |s| == NoteSize(name, |description|)
  {
    NoteHeader(name, |description|, noteType) + Padded(OwnerName(name)) + Padded(description)
  }

  /** Fills in everything but the description, and says where that goes. */
  method NoteInit(buffer: array<byte>, name: seq<byte>, descriptionSize: nat, noteType: uint32)
    returns (descriptionAt: nat)
    requires NoteSize(name, descriptionSize) <= buffer.Length
    modifies buffer
    ensures descriptionAt == 12 + AlignUp4(|OwnerName(name)|)
    ensures buffer[..] == NoteBytes(name, Zeros(descriptionSize), noteType)
                          + old(buffer[NoteSize(name, descriptionSize)..])
  {
    hide AlignUp4, NoteHeader, OwnerName, Zeros;
    var owner := OwnerName(name);
    var size := NoteSize(name, descriptionSize);
    descriptionAt := 12 + AlignUp4(|owner|);
    Fill(buffer, 0, NoteHeader(name, descriptionSize, noteType));
    Fill(buffer, 12, Zeros(AlignUp4(|owner|) + AlignUp4(descriptionSize)));
    Fill(buffer, 12, owner);
    Assembled(buffer[..], old(buffer[..]), name, descriptionSize, noteType);
  }

  /** Bytes that agree with the header, then the owner, then zeros up to the note's size make up the note. */
  lemma Assembled(b: seq<byte>, before: seq<byte>, name: seq<byte>, descriptionSize: nat, noteType: uint32)
    requires |b| == |before| && NoteSize(name, descriptionSize) <= |b|
    requires forall i :: 0 <= i < 12 ==> b[i] == NoteHeader(name, descriptionSize, noteType)[i]
    requires forall i :: 0 <= i < |OwnerName(name)| ==> b[12 + i] == OwnerName(name)[i]
    requires forall i :: 12 + |OwnerName(name)| <= i < NoteSize(name, descriptionSize) ==> b[i] == 0
    requires forall i :: NoteSize(name, descriptionSize) <= i < |b| ==> b[i] == before[i]
    ensures b == NoteBytes(name, Zeros(descriptionSize), noteType) + before[NoteSize(name, descriptionSize)..]
  {
    hide AlignUp4, NoteHeader, OwnerName, Zeros;
    var size, at := NoteSize(name, descriptionSize), 12 + AlignUp4(|OwnerName(name)|);
    assert b[..12] == NoteHeader(name, descriptionSize, noteType);
    assert b[12..at] == Padded(OwnerName(name));
    assert b[at..size] == Padded(Zeros(descriptionSize));
    assert b[size..] == before[size..];
    assert b == b[..12] + b[12..at] + b[at..size] + b[size..];
  }

  method Fill(buffer: array<byte>, at: nat, data: seq<byte>)
    requires at + |data| <= buffer.Length
    modifies buffer
    ensures forall i :: 0 <= i < buffer.Length ==>
              buffer[i] == if at <= i < at + |data| then data[i - at] else old(buffer[i])
  {
    for j := 0 to |data|
      invariant forall i :: 0 <= i < buffer.Length ==>
                  buffer[i] == if at <= i < at + j then data[i - at] else old(buffer[i])
    {
      buffer[at + j] := data[j];
    }
  }

  // ---------- reading a note back, as chapter 5 of the System V gABI lays it out ----------

  datatype Note = BadNote | Note(owner: seq<byte>, noteType: uint32, description: seq<byte>)

  function ParseNote(s: seq<byte>): Note {
    if |s| < 12 then BadNote
    else
      var nameSize, descriptionSize := Get32(s, 0), Get32(s, 4);
      var at := 12 + AlignUp4(nameSize);
      if at + descriptionSize > |s| then BadNote
      else Note(s[12..12 + nameSize], Get32(s, 8), s[at..at + descriptionSize])
  }

  lemma HeaderFields(name: seq<byte>, descriptionSize: nat, noteType: uint32, rest: seq<byte>)
    ensures var s := NoteHeader(name, descriptionSize, noteType) + rest;
            && Get32(s, 0) == |OwnerName(name)| % TWO_TO_THE_32
            && Get32(s, 4) == descriptionSize % TWO_TO_THE_32
            && Get32(s, 8) == noteType
  {
    var a, b, c := |OwnerName(name)| % TWO_TO_THE_32, descriptionSize % TWO_TO_THE_32, noteType;
    Le32At([], a, Le32(b) + Le32(c) + rest);
    Le32At(Le32(a), b, Le32(c) + rest);
    Le32At(Le32(a) + Le32(b), c, rest);
    var s := NoteHeader(name, descriptionSize, noteType) + rest;
    assert s == [] + Le32(a) + (Le32(b) + Le32(c) + rest);
    assert s == Le32(a) + Le32(b) + (Le32(c) + rest);
    assert s == (Le32(a) + Le32(b)) + Le32(c) + rest;
  }

  /** A note reads back as its owner, type and description exactly when the description's size fits its field. */
  lemma NoteReadsBackIffShort(name: seq<byte>, description: seq<byte>, noteType: uint32)
    requires |OwnerName(name)| < TWO_TO_THE_32
    ensures ParseNote(NoteBytes(name, description, noteType))
            == Note(if name == [] then [] else name + [0], noteType, description)
            <==> |description| < TWO_TO_THE_32
  {
    OwnerEndsWithNul(name);
    hide NoteHeader, OwnerName, AlignUp4;
    var s, at := NoteBytes(name, description, noteType), 12 + AlignUp4(|OwnerName(name)|);
    NoteParts(name, description, noteType);
    if |description| < TWO_TO_THE_32 {
      SmallModulus(|description|);
    }
    SmallModulus(|OwnerName(name)|);
  }

  lemma OwnerEndsWithNul(name: seq<byte>)
    ensures OwnerName(name) == if name == [] then [] else name + [0]
  {
  }

  /** A note byte by byte: three little-endian numbers, the owner with its NUL, and the description, padded with zeros. */
  lemma NoteBytesMean(name: seq<byte>, description: seq<byte>, noteType: uint32)
    requires |name| < TWO_TO_THE_32 - 1 && |description| < TWO_TO_THE_32
    ensures var s, owner := NoteBytes(name, description, noteType), if name == [] then [] else name + [0];
            && LittleEndian(s, 0, 4) == |owner|
            && LittleEndian(s, 4, 4) == |description|
            && LittleEndian(s, 8, 4) == noteType
            && s[12..] == owner + Zeros((4 - |owner| % 4) % 4) + description + Zeros((4 - |description| % 4) % 4)
  {
    OwnerEndsWithNul(name);
    NoteFields(name, description, noteType);
    PaddingLength(|OwnerName(name)|);
    PaddingLength(|description|);
    hide NoteHeader, OwnerName, AlignUp4, LittleEndian, Zeros;
    assert NoteBytes(name, description, noteType)[12..] == Padded(OwnerName(name)) + Padded(description);
  }

  lemma NoteFields(name: seq<byte>, description: seq<byte>, noteType: uint32)
    requires |OwnerName(name)| < TWO_TO_THE_32 && |description| < TWO_TO_THE_32
    ensures var s := NoteBytes(name, description, noteType);
            && LittleEndian(s, 0, 4) == |OwnerName(name)|
            && LittleEndian(s, 4, 4) == |description|
            && LittleEndian(s, 8, 4) == noteType
  {
    hide NoteBytes, OwnerName, Get32, LittleEndian;
    var s := NoteBytes(name, description, noteType);
    NoteParts(name, description, noteType);
    SmallModulus(|OwnerName(name)|);
    SmallModulus(|description|);
    FourBytes(s, 0);
    FourBytes(s, 4);
    FourBytes(s, 8);
  }

  lemma PaddingLength(n: nat)
    ensures AlignUp4(n) - n == (4 - n % 4) % 4
  {
  }

  lemma SmallModulus(n: nat)
    requires n < TWO_TO_THE_32
    ensures n % TWO_TO_THE_32 == n
  {
  }

  lemma NoteParts(name: seq<byte>, description: seq<byte>, noteType: uint32)
    ensures var s, owner := NoteBytes(name, description, noteType), OwnerName(name);
            var at := 12 + AlignUp4(|owner|);
            && Get32(s, 0) == |owner| % TWO_TO_THE_32
            && Get32(s, 4) == |description| % TWO_TO_THE_32
            && Get32(s, 8) == noteType
            && s[12..12 + |owner|] == owner
            && s[at..at + |description|] == description
  {
    hide NoteHeader, OwnerName, AlignUp4, Zeros, Get32;
    var s, owner := NoteBytes(name, description, noteType), OwnerName(name);
    HeaderFields(name, |description|, noteType, Padded(owner) + Padded(description));
    assert s == NoteHeader(name, |description|, noteType) + (Padded(owner) + Padded(description));
  }
}
