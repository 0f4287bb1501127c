/** Copies a core dump: notes as they come by, memory from the process, and a note of its own at the end. */
module Transformer {
  import opened Bytes
  import opened ElfFormat
  import opened ElfLayout
  import opened ElfIo
  import opened ElfReader
  import opened ElfWriter
  import opened ElfNote
  import opened Metadata

  // ---------- what is read from the dump ----------

  function ParseTable(s: seq<byte>, at: nat, n: nat): (hs: seq<Phdr>)
    requires at + PHDR_SIZE * n <= |s|
    ensures |hs| == n
    decreases n
  {
    if n == 0 then [] else [ParsePhdr(s, at)] + ParseTable(s, at + PHDR_SIZE, n - 1)
  }

  /** The segments that are passed on, and the stream after reading the notes among them. */
  function Collected(hs: seq<Phdr>, s: Source): (r: (seq<Segment>, Source))
    requires IsSource(s)
    ensures IsSource(r.1) && r.1.stream == s.stream
    decreases |hs|
  {
    if hs == [] then ([], s)
    else
      var h := hs[0];
      if h.kind == PT_NOTE then
        var (data, next) := SegmentRead(s, h.offset, h.filesz);
        var (rest, end) := Collected(hs[1..], next);
        ((if |data| == h.filesz then [Segment(h, Buffer(data))] else []) + rest, end)
      else
        var (rest, end) := Collected(hs[1..], s);
        ((if h.kind == PT_LOAD then [Segment(h, Callback)] else []) + rest, end)
  }

  /** Either nothing to write, or a core dump's header fields and the segments to pass on. */
  datatype Core = NoCore | Core(machine: uint16, flags: uint32, segments: seq<Segment>)

  /** What comes of the stream when the segment table is next. */
  function FromTable(header: seq<byte>, s: Source): Core
    requires |header| == EHDR_SIZE && IsSource(s)
  {
    var size := PHDR_SIZE * PhNum(header);
    var (table, next) := Gathered(s, size);
    if |table| < size then NoCore
    else Core(Machine(header), Flags(header), Collected(ParseTable(table, 0, PhNum(header)), next).0)
  }

  /** What comes of it when the header has been read. */
  function FromHeader(header: seq<byte>, s: Source): Core
    requires |header| == EHDR_SIZE && IsSource(s) && s.pos <= PhOff(header)
  {
    var size := PhOff(header) - s.pos;
    var (skipped, next) := Gathered(s, size);
    if |skipped| < size then NoCore else FromTable(header, next)
  }

  function ReadCore(s: Source): Core
    requires IsSource(s)
  {
    var (header, next) := Gathered(s, EHDR_SIZE);
    if |header| < EHDR_SIZE || !IsValidCoreElf(header) || PhOff(header) < next.pos then NoCore
    else FromHeader(header, next)
  }

  // ---------- what is written ----------

  function MetadataNote(m: Metadata): seq<byte> {
    NoteBytes(NOTE_NAME, Description(m), NOTE_TYPE)
  }

  function MetadataSegment(m: Metadata): Segment
    requires |MetadataNote(m)| < TWO_TO_THE_64
  {
    Segment(Phdr(PT_NOTE, 0, 0, 0, 0, |MetadataNote(m)|, 0, 0), Buffer(MetadataNote(m)))
  }

  /**
   * The dumps considered: few enough segments for the header's count, sizes within 64 bits, and metadata whose
   * description fits a note.
   */
  ghost predicate Reasonable(core: Core, m: Metadata, memory: Memory) {
    && |Description(m)| < TWO_TO_THE_32
    && |MetadataNote(m)| < TWO_TO_THE_64
    && (core.Core? ==> Writable(BlocksOf(core.segments + [MetadataSegment(m)], memory, 0)))
  }

  /** The file that comes out. */
  ghost function Output(core: Core, m: Metadata, memory: Memory): seq<byte>
    requires core.Core? && Reasonable(core, m, memory)
  {
    Image(core.machine, core.flags, BlocksOf(core.segments + [MetadataSegment(m)], memory, 0))
  }

  datatype Action = ReadElfHeader | SkipToSegmentHeaders | PrepareSegmentHeaders | ReadSegmentHeaders | Done

  function ActionsLeft(action: Action): nat {
    match action
    case ReadElfHeader => 4
    case SkipToSegmentHeaders => 3
    case PrepareSegmentHeaders => 2
    case ReadSegmentHeaders => 1
    case Done => 0
  }

  class Transformer {
    const reader: Reader
    const writer: Writer
    const metadata: Metadata
    var action: Action
    var elfHeader: seq<byte>
    var writeSuccess: bool

    constructor (input: ReadIO, output: WriteIO, metadata: Metadata, memory: Memory)
      requires input.Valid() && input.pos == 0
      ensures reader.io == input && writer.io == output && writer.memory == memory && this.metadata == metadata
      ensures fresh(reader) && fresh(writer)
      ensures Ready() && action == ReadElfHeader
    {
      reader := new Reader(input);
      writer := new Writer(output, memory);
      this.metadata := metadata;
      action, elfHeader, writeSuccess := ReadElfHeader, [], false;
    }

    method ProcessNoteSegment(header: Phdr)
      requires reader.Valid()
      modifies reader, reader.io, writer`segments
      ensures reader.Valid()
      ensures var (data, next) := SegmentRead(old(reader.io.Abs()), header.offset, header.filesz);
              && reader.io.Abs() == next
              && writer.segments
                 == old(writer.segments) + (if |data| == header.filesz then [Segment(header, Buffer(data))] else [])
    {
      var data := reader.ReadSegmentData(header.offset, header.filesz);
      if |data| != header.filesz {
        return;
      }
      writer.AddSegmentWithBuffer(header, data);
    }

    method AppendMetadataNote()
      requires |Description(metadata)| < TWO_TO_THE_32 && |MetadataNote(metadata)| < TWO_TO_THE_64
      modifies writer`segments
      ensures writer.segments == old(writer.segments) + [MetadataSegment(metadata)]
    {
      hide NoteBytes, Description, OwnerName, AlignUp4;
      var size := NoteCalculateSize(metadata);
      var buffer := new byte[size];
      NameTakesEight();
      var ok := NoteWrite(metadata, buffer);
      assert buffer[..] == MetadataNote(metadata);
      writer.AddSegmentWithBuffer(Phdr(PT_NOTE, 0, 0, 0, 0, size, 0, 0), buffer[..]);
    }

    method CollectSegments(headers: seq<Phdr>)
      requires reader.Valid() && writer.segments == []
      modifies reader, reader.io, writer`segments
      ensures reader.Valid()
      ensures (writer.segments, reader.io.Abs()) == Collected(headers, old(reader.io.Abs()))
    {
      hide SegmentRead, Collected;
      ghost var all := Collected(headers, reader.io.Abs());
      var i := 0;
      assert headers[0..] == headers && [] + all.0 == all.0;
      while i < |headers|
        invariant i <= |headers| && reader.Valid()
        invariant var (rest, end) := Collected(headers[i..], reader.io.Abs());
                  all == (writer.segments + rest, end)
      {
        var header := headers[i];
        assert headers[i..][0] == header && headers[i..][1..] == headers[i + 1..];
        ghost var before, rest := writer.segments, Collected(headers[i..], reader.io.Abs()).0;
        CollectedStep(headers[i..], reader.io.Abs());
        if header.kind == PT_NOTE {
          ProcessNoteSegment(header);
        } else if header.kind == PT_LOAD {
          writer.AddSegmentWithCallback(header);
        } else {
        }
        assert before + rest == writer.segments + Collected(headers[i + 1..], reader.io.Abs()).0;
        i := i + 1;
      }
      assert headers[i..] == [] && writer.segments + [] == writer.segments;
      CollectedNothing(reader.io.Abs());
    }

    /** Nothing has been collected or written yet. */
    ghost predicate Ready()
      reads this, reader, reader.io, writer
    {
      && reader.Valid()
      && writer.segments == [] && writer.writeOffset == 0 && writer.memoryCalls == 0
      && !writeSuccess
      && (action != ReadElfHeader && action != Done ==>
            && |elfHeader| == EHDR_SIZE
            && writer.machine == Machine(elfHeader) && writer.flags == Flags(elfHeader))
      && (action == SkipToSegmentHeaders ==> reader.streamPos <= PhOff(elfHeader))
    }

    /** What is still to come of the stream, by the action that is next. */
    ghost function Ahead(): Core
      requires Ready()
      reads this, reader, reader.io, writer
    {
      match action
      case ReadElfHeader => ReadCore(reader.io.Abs())
      case SkipToSegmentHeaders => FromHeader(elfHeader, reader.io.Abs())
      case PrepareSegmentHeaders => FromTable(elfHeader, reader.io.Abs())
      case ReadSegmentHeaders => FromTable(elfHeader, reader.io.Abs())
      case Done => NoCore
    }

    method ActionReadElfHeader()
      requires Ready() && action == ReadElfHeader
      modifies `action, `elfHeader, reader, reader.io, writer`machine, writer`flags
      ensures Ready() && Ahead() == old(Ahead()) && ActionsLeft(action) < 4
    {
      hide Gathered, IsValidCoreElf, Machine, Flags, PhOff, PhNum, FromTable;
      elfHeader := reader.ReadAll(EHDR_SIZE);
      if |elfHeader| < EHDR_SIZE {
        action := Done;
        return;
      }
      if !IsValidCoreElf(elfHeader) {
        action := Done;
        return;
      }
      writer.SetElfHeaderFields(Machine(elfHeader), Flags(elfHeader));
      if PhOff(elfHeader) == reader.streamPos {
        NothingGathered(reader.io.Abs());
        action := PrepareSegmentHeaders;
      } else if PhOff(elfHeader) > reader.streamPos {
        action := SkipToSegmentHeaders;
      } else {
        action := Done;
      }
    }

    method ActionSkipToSegmentHeaders()
      requires Ready() && action == SkipToSegmentHeaders
      modifies `action, reader, reader.io
      ensures Ready() && Ahead() == old(Ahead()) && ActionsLeft(action) < 3
    {
      hide Gathered, IsValidCoreElf, Machine, Flags, PhOff, PhNum, FromTable;
      var skipSize := PhOff(elfHeader) - reader.streamPos;
      var skipped := reader.ReadAll(skipSize);
      if |skipped| < skipSize {
        action := Done;
        return;
      }
      action := PrepareSegmentHeaders;
    }

    /** The outcome, for an output stream that held `before`: the whole file, or as much of it as could be written. */
    ghost predicate Finished(core: Core, before: seq<byte>, reliable: bool)
      requires Reasonable(core, metadata, writer.memory)
      reads this, writer, writer.io
    {
      if core.NoCore? then !writeSuccess && writer.io.output == before
      else
        && Partly(before, writer.io.output, Output(core, metadata, writer.memory))
        && (writeSuccess ==> writer.io.output == before + Output(core, metadata, writer.memory))
        && (reliable ==> (writeSuccess <==> writer.io.canSync))
    }

    method ActionReadSegmentHeaders()
      requires Ready() && action == ReadSegmentHeaders && Reasonable(Ahead(), metadata, writer.memory)
      modifies this, reader, reader.io, writer, writer.io
      ensures action == Done && Finished(old(Ahead()), old(writer.io.output), old(writer.io.Reliable()))
    {
      hide Gathered, Machine, Flags, PhOff, PhNum, Reasonable, Output, ParseTable, Collected;
      var n := PhNum(elfHeader);
      var table := reader.ReadAll(n * PHDR_SIZE);
      if |table| == n * PHDR_SIZE {
        HandleSegments(ParseTable(table, 0, n));
      } else {
      }
      action := Done;
    }

    /** Collects the segments, adds the metadata note and writes the file. */
    method HandleSegments(headers: seq<Phdr>)
      requires reader.Valid() && writer.segments == [] && writer.writeOffset == 0 && writer.memoryCalls == 0
      requires Reasonable(Core(writer.machine, writer.flags, Collected(headers, reader.io.Abs()).0), metadata, writer.memory)
      modifies `writeSuccess, reader, reader.io, writer, writer.io
      ensures Finished(Core(old(writer.machine), old(writer.flags), Collected(headers, old(reader.io.Abs())).0),
                       old(writer.io.output), old(writer.io.Reliable()))
    {
      hide Collected, MetadataNote, Description, Image, Writable, BlocksOf, MetadataSegment;
      ghost var source := reader.io.Abs();
      CollectSegments(headers);
      AppendMetadataNote();
      OutputAreSegments(headers, source, metadata);
      writeSuccess := writer.Write();
    }

    /** Runs the reader's actions to the end. */
    method Run() returns (ok: bool)
      requires Ready() && action == ReadElfHeader && Reasonable(Ahead(), metadata, writer.memory)
      modifies this, reader, reader.io, writer, writer.io
      ensures ok == writeSuccess
      ensures Finished(old(Ahead()), old(writer.io.output), old(writer.io.Reliable()))
    {
      hide Reasonable, Output, ReadCore, FromHeader, FromTable;
      ghost var core := Ahead();
      while action != Done
        invariant Reasonable(core, metadata, writer.memory)
        invariant if action == Done then Finished(core, old(writer.io.output), old(writer.io.Reliable()))
                  else Ready() && Ahead() == core && writer.io.output == old(writer.io.output)
                       && writer.io.Reliable() == old(writer.io.Reliable())
        decreases ActionsLeft(action)
      {
        match action
        case ReadElfHeader => ActionReadElfHeader();
        case SkipToSegmentHeaders => ActionSkipToSegmentHeaders();
        case PrepareSegmentHeaders => action := ReadSegmentHeaders;
        case ReadSegmentHeaders => ActionReadSegmentHeaders();
      }
      ok := writeSuccess;
    }
  }

  lemma CollectedStep(hs: seq<Phdr>, s: Source)
    requires IsSource(s) && hs != []
    ensures var h := hs[0];
            Collected(hs, s) ==
            if h.kind == PT_NOTE then
              var (data, next) := SegmentRead(s, h.offset, h.filesz);
              var (rest, end) := Collected(hs[1..], next);
              ((if |data| == h.filesz then [Segment(h, Buffer(data))] else []) + rest, end)
            else
              var (rest, end) := Collected(hs[1..], s);
              ((if h.kind == PT_LOAD then [Segment(h, Callback)] else []) + rest, end)
  {
    hide SegmentRead;
  }

  lemma CollectedNothing(s: Source)
    requires IsSource(s)
    ensures Collected([], s) == ([], s)
  {
  }

  lemma NothingGathered(s: Source)
    requires IsSource(s)
    ensures Gathered(s, 0) == ([], s)
  {
  }

  lemma {:induction false} CollectedAreSegments(hs: seq<Phdr>, s: Source)
    requires IsSource(s)
    ensures forall seg :: seg in Collected(hs, s).0 ==> IsSegment(seg)
    decreases |hs|
  {
    hide SegmentRead;
    if hs != [] {
      var h := hs[0];
      CollectedAreSegments(hs[1..], if h.kind == PT_NOTE then SegmentRead(s, h.offset, h.filesz).1 else s);
    }
  }

  lemma OutputAreSegments(hs: seq<Phdr>, s: Source, m: Metadata)
    requires IsSource(s) && |MetadataNote(m)| < TWO_TO_THE_64
    ensures var out := Collected(hs, s).0 + [MetadataSegment(m)]; forall i :: 0 <= i < |out| ==> IsSegment(out[i])
  {
    hide Collected, MetadataNote;
    CollectedAreSegments(hs, s);
    var kept := Collected(hs, s).0;
    forall i | 0 <= i < |kept| + 1
      ensures IsSegment((kept + [MetadataSegment(m)])[i])
    {
      if i < |kept| {
        assert kept[i] in kept;
      }
    }
  }

  // ---------- what the stream's way of answering can change ----------

  predicate IsReadableCore(s: seq<byte>) {
    && IsValidCoreElf(s)
    && PhOff(s) >= EHDR_SIZE
    && PhOff(s) + PHDR_SIZE * PhNum(s) <= |s|
  }

  function Headers(s: seq<byte>): seq<Phdr>
    requires IsReadableCore(s)
  {
    ParseTable(s, PhOff(s), PhNum(s))
  }

  /** The segments that a stream has to pass on when it has come to `pos`. */
  function Kept(hs: seq<Phdr>, stream: seq<byte>, pos: nat): seq<Segment>
    requires pos <= |stream|
    decreases |hs|
  {
    if hs == [] then []
    else
      var h := hs[0];
      if h.kind == PT_NOTE then
        var (data, next) := SegmentData(stream, pos, h.offset, h.filesz);
        (if |data| == h.filesz then [Segment(h, Buffer(data))] else []) + Kept(hs[1..], stream, next)
      else if h.kind == PT_LOAD then [Segment(h, Callback)] + Kept(hs[1..], stream, pos)
      else Kept(hs[1..], stream, pos)
  }

  function CoreOf(s: seq<byte>): Core {
    if IsReadableCore(s) then Core(Machine(s), Flags(s), Kept(Headers(s), s, PhOff(s) + PHDR_SIZE * PhNum(s))) else NoCore
  }

  lemma HeaderIsPrefix(s: seq<byte>, header: seq<byte>)
    requires EHDR_SIZE <= |s| && header == s[..EHDR_SIZE]
    ensures Machine(header) == Machine(s) && Flags(header) == Flags(s) && PhOff(header) == PhOff(s)
    ensures PhNum(header) == PhNum(s) && (IsValidCoreElf(header) <==> IsValidCoreElf(s))
  {
    assert forall i :: 0 <= i < EHDR_SIZE ==> header[i] == s[i];
  }

  lemma PhdrOfSlice(s: seq<byte>, from: nat, to: nat, i: nat)
    requires from <= to <= |s| && from + i + PHDR_SIZE <= to
    ensures ParsePhdr(s[from..to], i) == ParsePhdr(s, from + i)
  {
    var t := s[from..to];
    assert forall j :: 0 <= j < |t| ==> t[j] == s[from + j];
  }

  lemma {:induction false} TableOfSlice(s: seq<byte>, from: nat, to: nat, i: nat, n: nat)
    requires from <= to <= |s| && from + i + PHDR_SIZE * n <= to
    ensures ParseTable(s[from..to], i, n) == ParseTable(s, from + i, n)
    decreases n
  {
    hide ParsePhdr;
    if n > 0 {
      PhdrOfSlice(s, from, to, i);
      TableOfSlice(s, from, to, i + PHDR_SIZE, n - 1);
    }
  }

  lemma {:induction false} CollectedIsKept(hs: seq<Phdr>, s: Source)
    requires IsSource(s) && IsReliable(s)
    ensures Collected(hs, s).0 == Kept(hs, s.stream, s.pos)
    decreases |hs|
  {
    hide SegmentRead, SegmentData, IsReliable;
    if hs != [] {
      var h := hs[0];
      if h.kind == PT_NOTE {
        SegmentIsThere(s, h.offset, h.filesz);
        CollectedIsKept(hs[1..], SegmentRead(s, h.offset, h.filesz).1);
      } else {
        CollectedIsKept(hs[1..], s);
      }
    }
  }

  /** However a reliable stream splits its bytes up, what is read depends on the bytes alone. */
  lemma CoreOfReliable(s: Source)
    requires IsSource(s) && IsReliable(s) && s.pos == 0
    ensures ReadCore(s) == CoreOf(s.stream)
  {
    hide Gathered, IsReliable, IsValidCoreElf, Machine, Flags, PhOff, PhNum, ParseTable, Collected, Kept;
    SplittingDoesNotMatter(s, EHDR_SIZE);
    var (header, s1) := Gathered(s, EHDR_SIZE);
    if |s.stream| >= EHDR_SIZE {
      assert header == s.stream[..EHDR_SIZE];
      HeaderIsPrefix(s.stream, header);
      if PhOff(header) >= EHDR_SIZE {
        SplittingDoesNotMatter(s1, PhOff(header) - EHDR_SIZE);
        var (skipped, s2) := Gathered(s1, PhOff(header) - EHDR_SIZE);
        if |skipped| == PhOff(header) - EHDR_SIZE {
          TableOfReliable(s2, header);
        }
      }
    } else {
      ShortIsNoCore(s.stream);
    }
  }

  lemma ShortIsNoCore(s: seq<byte>)
    requires |s| < EHDR_SIZE
    ensures !IsValidCoreElf(s)
  {
  }

  lemma TableOfReliable(s: Source, header: seq<byte>)
    requires IsSource(s) && IsReliable(s) && |header| == EHDR_SIZE
    ensures var size := PHDR_SIZE * PhNum(header);
            FromTable(header, s) ==
            if s.pos + size > |s.stream| then NoCore
            else Core(Machine(header), Flags(header),
                      Kept(ParseTable(s.stream, s.pos, PhNum(header)), s.stream, s.pos + size))
  {
    hide Gathered, IsReliable, Machine, Flags, PhOff, PhNum, ParseTable, Collected, Kept;
    var size := PHDR_SIZE * PhNum(header);
    SplittingDoesNotMatter(s, size);
    var (table, next) := Gathered(s, size);
    if |table| == size {
      TableOfSlice(s.stream, s.pos, s.pos + size, 0, PhNum(header));
      CollectedIsKept(ParseTable(table, 0, PhNum(header)), next);
    }
  }

  lemma {:induction false} TableEntry(s: seq<byte>, at: nat, n: nat, i: nat)
    requires at + PHDR_SIZE * n <= |s| && i < n
    ensures ParseTable(s, at, n)[i] == ParsePhdr(s, at + 56 * i)
    decreases n
  {
    hide ParsePhdr;
    if i > 0 {
      TableEntry(s, at + PHDR_SIZE, n - 1, i - 1);
    }
  }

  /** Where the stream has come to before the `i`-th header's segment: behind the notes that it had not passed. */
  function Reached(hs: seq<Phdr>, stream: seq<byte>, from: nat, i: nat): (pos: nat)
    requires from <= |stream| && i <= |hs|
    ensures pos <= |stream|
    decreases i
  {
    if i == 0 then from
    else
      var pos, h := Reached(hs, stream, from, i - 1), hs[i - 1];
      if h.kind == 4 && h.offset >= pos then Min(h.offset + h.filesz, |stream|) else pos
  }

  /** What becomes of the `i`-th header: memory is always passed on, a note if its bytes are still to come or none. */
  function Passed(hs: seq<Phdr>, stream: seq<byte>, from: nat, i: nat): seq<Segment>
    requires from <= |stream| && i < |hs|
  {
    var h := hs[i];
    if h.kind == 1 then [Segment(h, Callback)]
    else if h.kind == 4 && h.filesz == 0 then [Segment(h, Buffer([]))]
    else if h.kind == 4 && Reached(hs, stream, from, i) <= h.offset && h.offset + h.filesz <= |stream| then
      [Segment(h, Buffer(stream[h.offset..h.offset + h.filesz]))]
    else []
  }

  function AllPassed(hs: seq<Phdr>, stream: seq<byte>, from: nat, n: nat): seq<Segment>
    requires from <= |stream| && n <= |hs|
  {
    if n == 0 then [] else AllPassed(hs, stream, from, n - 1) + Passed(hs, stream, from, n - 1)
  }

  lemma {:induction false} ReachedLater(hs: seq<Phdr>, stream: seq<byte>, from: nat, i: nat)
    requires from <= |stream| && i < |hs|
    ensures Reached(hs, stream, from, i + 1) == Reached(hs[1..], stream, Reached(hs, stream, from, 1), i)
    decreases i
  {
    if i > 0 {
      ReachedLater(hs, stream, from, i - 1);
    }
  }

  lemma PassedLater(hs: seq<Phdr>, stream: seq<byte>, from: nat, i: nat)
    requires from <= |stream| && i + 1 < |hs|
    ensures Passed(hs, stream, from, i + 1) == Passed(hs[1..], stream, Reached(hs, stream, from, 1), i)
  {
    hide Reached;
    ReachedLater(hs, stream, from, i);
  }

  lemma {:induction false} AllPassedLater(hs: seq<Phdr>, stream: seq<byte>, from: nat, n: nat)
    requires from <= |stream| && n < |hs|
    ensures AllPassed(hs, stream, from, n + 1)
            == Passed(hs, stream, from, 0) + AllPassed(hs[1..], stream, Reached(hs, stream, from, 1), n)
    decreases n
  {
    hide Reached, Passed, AllPassed;
    AllPassedStep(hs, stream, from, n + 1);
    AllPassedStep(hs[1..], stream, Reached(hs, stream, from, 1), n);
    if n > 0 {
      AllPassedLater(hs, stream, from, n - 1);
      PassedLater(hs, stream, from, n - 1);
    } else {
      AllPassedStep(hs, stream, from, 0);
      assert [] + Passed(hs, stream, from, 0) == Passed(hs, stream, from, 0) + [];
    }
  }

  lemma AllPassedStep(hs: seq<Phdr>, stream: seq<byte>, from: nat, n: nat)
    requires from <= |stream| && n <= |hs|
    ensures AllPassed(hs, stream, from, n)
            == if n == 0 then [] else AllPassed(hs, stream, from, n - 1) + Passed(hs, stream, from, n - 1)
  {
    hide Passed;
  }

  lemma {:induction false} KeptIsPassed(hs: seq<Phdr>, stream: seq<byte>, from: nat)
    requires from <= |stream|
    ensures Kept(hs, stream, from) == AllPassed(hs, stream, from, |hs|)
    decreases |hs|
  {
    if hs != [] {
      hide AllPassed, Reached;
      var next := Reached(hs, stream, from, 1);
      FirstPassed(hs, stream, from);
      AllPassedLater(hs, stream, from, |hs| - 1);
      KeptIsPassed(hs[1..], stream, next);
    }
  }

  lemma FirstPassed(hs: seq<Phdr>, stream: seq<byte>, from: nat)
    requires from <= |stream| && hs != []
    ensures Kept(hs, stream, from) == Passed(hs, stream, from, 0) + Kept(hs[1..], stream, Reached(hs, stream, from, 1))
    ensures Reached(hs, stream, from, 0) == from
  {
    assert Reached(hs, stream, from, 0) == from;
  }

  /**
   * Which reliable streams are dumps, by their bytes, and what of them is passed on: of the table's headers, in order,
   * memory, empty notes, and the notes whose bytes are there and had not been passed.
   */
  lemma WhatIsTransformed(s: Source)
    requires IsSource(s) && IsReliable(s) && s.pos == 0
    ensures var t := s.stream;
            ReadCore(s).Core? <==>
            && |t| >= 64
            && t[0] == 0x7F && t[1] == 0x45 && t[2] == 0x4C && t[3] == 0x46 && t[4] == 2
            && LittleEndian(t, 16, 2) == 4 && LittleEndian(t, 20, 4) == 1
            && LittleEndian(t, 52, 2) == 64 && LittleEndian(t, 54, 2) == 56
            && 64 <= LittleEndian(t, 32, 8) && LittleEndian(t, 32, 8) + 56 * LittleEndian(t, 56, 2) <= |t|
    ensures ReadCore(s).Core? ==>
              && IsReadableCore(s.stream)
              && var t, hs := s.stream, Headers(s.stream);
              var table, n := LittleEndian(t, 32, 8), LittleEndian(t, 56, 2);
              && |hs| == n && (forall i :: 0 <= i < n ==> hs[i] == ParsePhdr(t, table + 56 * i))
              && ReadCore(s).machine == LittleEndian(t, 18, 2) && ReadCore(s).flags == LittleEndian(t, 48, 4)
              && ReadCore(s).segments == AllPassed(hs, t, table + 56 * n, n)
  {
    hide IsValidCoreElf, Machine, Flags, PhOff, PhNum, ParsePhdr, LittleEndian, ReadCore, Kept, AllPassed, ParseTable;
    var t := s.stream;
    CoreOfReliable(s);
    ValidCoreByBytes(t);
    if |t| >= 64 {
      FieldsByBytes(t);
    }
    if IsReadableCore(t) {
      KeptIsPassed(Headers(t), t, PhOff(t) + PHDR_SIZE * PhNum(t));
      forall i | 0 <= i < PhNum(t)
        ensures Headers(t)[i] == ParsePhdr(t, PhOff(t) + 56 * i)
      {
        TableEntry(t, PhOff(t), PhNum(t), i);
      }
    }
  }

  /** The segment that a header should become. */
  predicate Keeps(seg: Segment, h: Phdr, stream: seq<byte>) {
    && seg.header == h
    && (if h.kind == PT_NOTE then
          && seg.content.Buffer? && |seg.content.data| == h.filesz
          && (h.offset + h.filesz <= |stream| ==> seg.content.data == stream[h.offset..h.offset + h.filesz])
          && (h.filesz > 0 ==> h.offset + h.filesz <= |stream|)
        else h.kind == PT_LOAD && seg.content == Callback)
  }

  /** The segments are the headers' in order: every memory segment, and of the notes some, with exactly their bytes. */
  predicate Thinned(segs: seq<Segment>, hs: seq<Phdr>, stream: seq<byte>)
    decreases |hs|
  {
    if hs == [] then segs == []
    else
      || (segs != [] && Keeps(segs[0], hs[0], stream) && Thinned(segs[1..], hs[1..], stream))
      || (hs[0].kind != PT_LOAD && Thinned(segs, hs[1..], stream))
  }

  lemma {:induction false} CollectedIsThinned(hs: seq<Phdr>, s: Source)
    requires IsSource(s)
    ensures Thinned(Collected(hs, s).0, hs, s.stream)
    decreases |hs|
  {
    hide SegmentRead;
    if hs != [] {
      var h, segs := hs[0], Collected(hs, s).0;
      if h.kind == PT_NOTE {
        var (data, next) := SegmentRead(s, h.offset, h.filesz);
        CollectedIsThinned(hs[1..], next);
        if |data| == h.filesz {
          assert segs[1..] == Collected(hs[1..], next).0;
        } else {
          assert segs == Collected(hs[1..], next).0;
        }
      } else {
        CollectedIsThinned(hs[1..], s);
        if h.kind == PT_LOAD {
          assert segs[1..] == Collected(hs[1..], s).0;
        } else {
          assert segs == Collected(hs[1..], s).0;
        }
      }
    }
  }

  /** Whatever the calls answer, failures included: nothing is passed on but what the stream holds. */
  lemma ReadsAreHonest(s: Source)
    requires IsSource(s) && s.pos == 0 && ReadCore(s).Core?
    ensures IsReadableCore(s.stream)
    ensures var core := ReadCore(s);
            && core.machine == Machine(s.stream) && core.flags == Flags(s.stream)
            && Thinned(core.segments, Headers(s.stream), s.stream)
  {
    hide Gathered, IsValidCoreElf, Machine, Flags, PhOff, PhNum, ParseTable, Collected, Thinned;
    var (header, s1) := Gathered(s, EHDR_SIZE);
    HeaderIsPrefix(s.stream, header);
    var (skipped, s2) := Gathered(s1, PhOff(header) - EHDR_SIZE);
    var size := PHDR_SIZE * PhNum(header);
    var (table, s3) := Gathered(s2, size);
    TableOfSlice(s.stream, s2.pos, s2.pos + size, 0, PhNum(header));
    CollectedIsThinned(ParseTable(table, 0, PhNum(header)), s3);
  }

  // ---------- reading the transformed dump ----------

  /**
   * Only notes and memory, and the notes that have bytes lie one behind the other in what is still to come of the
   * stream. An empty note is always passed on, but its offset moves the stream as any other does.
   */
  predicate NotesInOrder(hs: seq<Phdr>, stream: seq<byte>, pos: nat)
    requires pos <= |stream|
    decreases |hs|
  {
    hs == [] ||
    var h := hs[0];
    if h.kind == PT_NOTE && h.filesz > 0 then
      pos <= h.offset && h.offset + h.filesz <= |stream| && NotesInOrder(hs[1..], stream, h.offset + h.filesz)
    else if h.kind == PT_NOTE then NotesInOrder(hs[1..], stream, SegmentData(stream, pos, h.offset, 0).1)
    else h.kind == PT_LOAD && NotesInOrder(hs[1..], stream, pos)
  }

  /** The bytes copied from call number `call` on: filler exactly where a call gives nothing, memory elsewhere. */
  ghost predicate MemoryWithGaps(data: seq<byte>, memory: Memory, address: nat, call: nat) {
    forall j :: 0 <= j < |data| ==>
      data[j] == if InGap(memory, |data|, call, j) then 0xEF else memory.bytes((address + j) % TWO_TO_THE_64)
  }

  /** No segment is left out exactly when the notes lie in order. */
  lemma {:induction false} KeptIffInOrder(hs: seq<Phdr>, stream: seq<byte>, pos: nat)
    requires pos <= |stream|
    ensures |Kept(hs, stream, pos)| <= |hs|
    ensures |Kept(hs, stream, pos)| == |hs| <==> NotesInOrder(hs, stream, pos)
    decreases |hs|
  {
    if hs != [] {
      var h := hs[0];
      var next := if h.kind == PT_NOTE then SegmentData(stream, pos, h.offset, h.filesz).1 else pos;
      KeptIffInOrder(hs[1..], stream, next);
    }
  }

  /** The segments are then the headers', one by one. */
  lemma {:induction false} KeptInOrder(hs: seq<Phdr>, stream: seq<byte>, pos: nat, i: nat)
    requires pos <= |stream| && NotesInOrder(hs, stream, pos) && i < |hs|
    ensures |Kept(hs, stream, pos)| == |hs|
    ensures Keeps(Kept(hs, stream, pos)[i], hs[i], stream)
    decreases |hs|
  {
    KeptIffInOrder(hs, stream, pos);
    if i > 0 {
      var h := hs[0];
      var next := if h.kind == PT_NOTE then SegmentData(stream, pos, h.offset, h.filesz).1 else pos;
      KeptInOrder(hs[1..], stream, next, i - 1);
    }
  }

  /** The number of the call that starts copying the `i`-th segment. */
  function CallOf(segs: seq<Segment>, memory: Memory, call: nat, i: nat): nat
    requires i < |segs|
    decreases i
  {
    if i == 0 then call else CallOf(segs[1..], memory, BytesOf(segs[0], memory, call).1, i - 1)
  }

  lemma {:induction false} BlockOf(segs: seq<Segment>, memory: Memory, call: nat, i: nat)
    requires i < |segs|
    ensures BlocksOf(segs, memory, call)[i] == Block(segs[i].header, BytesOf(segs[i], memory, CallOf(segs, memory, call, i)).0)
    decreases i
  {
    hide BytesOf;
    if i > 0 {
      BlockOf(segs[1..], memory, BytesOf(segs[0], memory, call).1, i - 1);
    }
  }

  /** A segment of the output: its header with a new offset, and the bytes there. */
  lemma OutputSegment(core: Core, m: Metadata, memory: Memory, i: nat)
    requires core.Core? && Reasonable(core, m, memory) && i <= |core.segments|
    ensures var out, seg := Output(core, m, memory), (core.segments + [MetadataSegment(m)])[i];
            && IsValidCoreElf(out) && Machine(out) == core.machine && Flags(out) == core.flags && PhOff(out) == EHDR_SIZE
            && PhNum(out) == |core.segments| + 1
            && EHDR_SIZE + PHDR_SIZE * i + PHDR_SIZE <= |out|
            && var p := ParsePhdr(out, EHDR_SIZE + PHDR_SIZE * i);
            && p == seg.header.(offset := p.offset)
            && At(out, p.offset, BytesOf(seg, memory, CallOf(core.segments + [MetadataSegment(m)], memory, 0, i)).0)
  {
    hide IsValidCoreElf, Machine, Flags, PhOff, PhNum, Image, Plan, PlanEnd, At, BytesOf, ParsePhdr, MetadataSegment;
    var segs := core.segments + [MetadataSegment(m)];
    BlockOf(segs, memory, 0, i);
    ImageReadsBack(core.machine, core.flags, BlocksOf(segs, memory, 0), i);
  }

  /** The number of the call that starts copying the `i`-th segment of the output. */
  function CopyStart(s: seq<byte>, m: Metadata, memory: Memory, i: nat): nat
    requires IsReadableCore(s) && |MetadataNote(m)| < TWO_TO_THE_64
    requires i <= |Kept(Headers(s), s, PhOff(s) + PHDR_SIZE * PhNum(s))|
  {
    CallOf(CoreOf(s).segments + [MetadataSegment(m)], memory, 0, i)
  }

  /**
   * Parsing the output gives the input's headers in order with only their offsets changed; a note's bytes are the
   * input's, those of a memory segment the process's, with filler exactly where they could not be copied; and one more
   * note follows, the metadata.
   */
  lemma TransformReadsBack(s: seq<byte>, m: Metadata, memory: Memory, i: nat)
    requires IsReadableCore(s) && Reasonable(CoreOf(s), m, memory)
    requires NotesInOrder(Headers(s), s, PhOff(s) + PHDR_SIZE * PhNum(s))
    requires i <= PhNum(s)
    ensures |Kept(Headers(s), s, PhOff(s) + PHDR_SIZE * PhNum(s))| == PhNum(s)
    ensures var out := Output(CoreOf(s), m, memory);
            && IsValidCoreElf(out) && Machine(out) == Machine(s) && Flags(out) == Flags(s)
            && PhOff(out) == EHDR_SIZE && PhNum(out) == PhNum(s) + 1
            && EHDR_SIZE + PHDR_SIZE * i + PHDR_SIZE <= |out|
            && var p := ParsePhdr(out, EHDR_SIZE + PHDR_SIZE * i);
            if i == PhNum(s) then
              p == Phdr(4, 0, p.offset, 0, 0, |MetadataNote(m)|, 0, 0) && At(out, p.offset, MetadataNote(m))
            else
              var h := Headers(s)[i];
              && p == h.(offset := p.offset)
              && p.offset + h.filesz <= |out|
              && (h.kind == 4 && h.filesz > 0 ==>
                    h.offset + h.filesz <= |s| && out[p.offset..p.offset + h.filesz] == s[h.offset..h.offset + h.filesz])
              && (h.kind != 4 ==>
                    && h.kind == 1
                    && MemoryWithGaps(out[p.offset..p.offset + h.filesz], memory, h.vaddr, CopyStart(s, m, memory, i)))
  {
    hide IsValidCoreElf, Machine, Flags, PhOff, PhNum, Output, Kept, NotesInOrder, ByteAt, ParsePhdr, ParseTable,
      Reasonable, MetadataNote, LoadData;
    var hs, pos := Headers(s), PhOff(s) + PHDR_SIZE * PhNum(s);
    KeptIffInOrder(hs, s, pos);
    if i < PhNum(s) {
      KeptInOrder(hs, s, pos, i);
    }
    NoteFits(CoreOf(s), m, memory);
    OutputSegment(CoreOf(s), m, memory, i);
    if i < PhNum(s) && hs[i].kind != PT_NOTE {
      LoadBytes(Output(CoreOf(s), m, memory), ParsePhdr(Output(CoreOf(s), m, memory), EHDR_SIZE + PHDR_SIZE * i).offset, memory,
                hs[i].vaddr, hs[i].filesz, CopyStart(s, m, memory, i));
    }
  }

  lemma NoteFits(core: Core, m: Metadata, memory: Memory)
    requires Reasonable(core, m, memory)
    ensures |MetadataNote(m)| < TWO_TO_THE_64
  {
  }

  lemma LoadBytes(out: seq<byte>, at: nat, memory: Memory, address: nat, size: nat, call: nat)
    requires At(out, at, LoadData(memory, address, size, call).0)
    ensures at + size <= |out| && MemoryWithGaps(out[at..at + size], memory, address, call)
  {
    hide LoadData, InGap;
    var data := out[at..at + size];
    forall j | 0 <= j < |data|
      ensures data[j] == if InGap(memory, size, call, j) then 0xEF else memory.bytes((address + j) % TWO_TO_THE_64)
    {
      LoadByte(memory, address, size, call, j);
    }
  }

  /** The output has all of the input's segments exactly when the notes lie in order. */
  lemma AllSegmentsIffInOrder(s: seq<byte>, m: Metadata, memory: Memory)
    requires IsReadableCore(s) && Reasonable(CoreOf(s), m, memory)
    ensures var out := Output(CoreOf(s), m, memory);
            && |out| >= EHDR_SIZE
            && (PhNum(out) == PhNum(s) + 1 <==> NotesInOrder(Headers(s), s, PhOff(s) + PHDR_SIZE * PhNum(s)))
  {
    hide IsValidCoreElf, Machine, Flags, PhOff, PhNum, Output, Kept, NotesInOrder, ParsePhdr, ParseTable,
      Reasonable, MetadataNote, BytesOf;
    KeptIffInOrder(Headers(s), s, PhOff(s) + PHDR_SIZE * PhNum(s));
    NoteFits(CoreOf(s), m, memory);
    OutputSegment(CoreOf(s), m, memory, 0);
  }
}
