/** Writes a core dump without ever seeking: offsets are fixed before the first segment's bytes are out. */
module ElfWriter {
  import opened Bytes
  import opened ElfFormat
  import opened ElfLayout
  import opened ElfIo

  const PADDING_WRITE_SIZE: nat := 4096

  /** A segment's bytes are at hand, or the transformer's callback copies them out of the process's memory. */
  datatype Content = Buffer(data: seq<byte>) | Callback

  datatype Segment = Segment(header: Phdr, content: Content)

  ghost predicate IsSegment(seg: Segment) {
    seg.content.Buffer? ==> |seg.content.data| == seg.header.filesz
  }

  /** A segment's bytes, when the next call to copy memory is number `call`. */
  function BytesOf(seg: Segment, memory: Memory, call: nat): (r: (seq<byte>, nat)) {
    match seg.content
    case Buffer(data) => (data, call)
    case Callback => LoadData(memory, seg.header.vaddr, seg.header.filesz, call)
  }

  function BlocksOf(segs: seq<Segment>, memory: Memory, call: nat): (bs: seq<Block>)
    ensures |bs| == |segs|
    ensures forall i :: 0 <= i < |segs| ==> bs[i].header == segs[i].header
    ensures forall i :: 0 <= i < |segs| ==> |bs[i].data| == |BytesOf(segs[i], memory, 0).0|
  {
    if segs == [] then []
    else
      var (data, next) := BytesOf(segs[0], memory, call);
      [Block(segs[0].header, data)] + BlocksOf(segs[1..], memory, next)
  }

  class Writer {
    const io: WriteIO
    const memory: Memory
    var memoryCalls: nat
    var segments: seq<Segment>
    var writeOffset: nat
    var machine: uint16
    var flags: uint32

    constructor (io: WriteIO, memory: Memory)
      ensures this.io == io && this.memory == memory
      ensures segments == [] && writeOffset == 0 && memoryCalls == 0
    {
      this.io, this.memory := io, memory;
      memoryCalls, segments, writeOffset, machine, flags := 0, [], 0, 0, 0;
    }

    method SetElfHeaderFields(machine: uint16, flags: uint32)
      modifies `machine, `flags
      ensures this.machine == machine && this.flags == flags
    {
      this.machine, this.flags := machine, flags;
    }

    method AddSegmentWithBuffer(header: Phdr, data: seq<byte>)
      modifies `segments
      ensures segments == old(segments) + [Segment(header, Buffer(data))]
    {
      segments := segments + [Segment(header, Buffer(data))];
    }

    method AddSegmentWithCallback(header: Phdr)
      modifies `segments
      ensures segments == old(segments) + [Segment(header, Callback)]
    {
      segments := segments + [Segment(header, Callback)];
    }

    method WriteAll(data: seq<byte>) returns (ok: bool)
      modifies `writeOffset, io
      ensures ok ==> io.output == old(io.output) + data && writeOffset == old(writeOffset) + |data|
      ensures Partly(old(io.output), io.output, data)
      ensures old(io.Reliable()) ==> ok && io.Reliable()
    {
      ok := IoWriteAll(io, data);
      if !ok {
        return false;
      }
      writeOffset := writeOffset + |data|;
    }

    method WritePadding(padSize: nat) returns (ok: bool)
      modifies `writeOffset, io
      ensures ok ==> io.output == old(io.output) + Zeros(padSize) && writeOffset == old(writeOffset) + padSize
      ensures Partly(old(io.output), io.output, Zeros(padSize))
      ensures old(io.Reliable()) ==> ok && io.Reliable()
    {
      hide Zeros, Partly;
      var written := 0;
      NoZeros(io.output);
      while written < padSize
        invariant written <= padSize
        invariant io.output == old(io.output) + Zeros(written)
        invariant writeOffset == old(writeOffset) + written
        invariant old(io.Reliable()) ==> io.Reliable()
      {
        var size := if padSize - written < PADDING_WRITE_SIZE then padSize - written else PADDING_WRITE_SIZE;
        ok := WriteAll(Zeros(size));
        if !ok {
          ZerosSplit(written, size, padSize);
          PartlyMore(old(io.output), io.output, Zeros(written), Zeros(size), Zeros(padSize - written - size), Zeros(padSize));
          return false;
        }
        MoreZeros(old(io.output), written, size);
        written := written + size;
      }
      PartlyAll(old(io.output), Zeros(padSize));
      return true;
    }

    /** One call to copy memory: what it copied, or nothing when it failed or found the end. */
    method CopyProcMem(address: nat, size: nat) returns (copied: int, buffer: seq<byte>)
      modifies `memoryCalls
      ensures memoryCalls == old(memoryCalls) + 1
      ensures copied == memory.reach(old(memoryCalls)) || copied == size
      ensures copied <= size
      ensures copied > 0 ==> buffer == Chunk(memory, address, size, old(memoryCalls)) && |buffer| == copied
      ensures copied <= 0 ==> memory.reach(old(memoryCalls)) <= 0 || size == 0
    {
      copied := memory.reach(memoryCalls);
      if copied > size {
        copied := size;
      }
      buffer := if copied > 0 then Copied(memory, address, copied) else [];
      memoryCalls := memoryCalls + 1;
    }

    method WriteChunk(address: nat, size: nat) returns (ok: bool, n: nat)
      requires size > 0
      modifies `writeOffset, `memoryCalls, io
      ensures var chunk := Chunk(memory, address, size, old(memoryCalls));
              n == |chunk| && memoryCalls == old(memoryCalls) + 1
              && (ok ==> io.output == old(io.output) + chunk && writeOffset == old(writeOffset) + n)
              && Partly(old(io.output), io.output, chunk)
      ensures old(io.Reliable()) ==> ok && io.Reliable()
    {
      hide Copied;
      var copied, buffer := CopyProcMem(address, size);
      if copied <= 0 {
        buffer := seq(size, _ => FILLER);
        copied := size;
      }
      n := copied;
      ok := WriteAll(buffer);
    }

    /** Copies a segment's bytes in pieces; where nothing can be copied, filler takes its place. */
    method WriteLoadSegmentData(header: Phdr) returns (ok: bool)
      modifies `writeOffset, `memoryCalls, io
      ensures ok ==>
                var (data, next) := LoadData(memory, header.vaddr, header.filesz, old(memoryCalls));
                && io.output == old(io.output) + data
                && writeOffset == old(writeOffset) + |data|
                && memoryCalls == next
      ensures Partly(old(io.output), io.output, LoadData(memory, header.vaddr, header.filesz, old(memoryCalls)).0)
      ensures old(io.Reliable()) ==> ok && io.Reliable()
    {
      hide LoadData, Chunk, Wrap, Partly;
      var address: nat, remaining: nat := header.vaddr, header.filesz;
      ghost var all := LoadData(memory, address, remaining, memoryCalls);
      ghost var sofar: seq<byte> := [];
      LoadStep(memory, address, remaining, memoryCalls);
      assert all.0 == sofar + all.0;
      while remaining > 0
        invariant var rest := LoadData(memory, address, remaining, memoryCalls);
                  all.0 == sofar + rest.0 && all.1 == rest.1
        invariant io.output == old(io.output) + sofar && writeOffset == old(writeOffset) + |sofar|
        invariant old(io.Reliable()) ==> io.Reliable()
      {
        LoadStep(memory, address, remaining, memoryCalls);
        ghost var chunk := Chunk(memory, address, FirstSize(remaining), memoryCalls);
        var n: nat;
        ok, n := WriteChunk(address, FirstSize(remaining));
        ghost var rest := LoadData(memory, Wrap(address + n), remaining - n, memoryCalls);
        assert sofar + (chunk + rest.0) == (sofar + chunk) + rest.0;
        if !ok {
          PartlyMore(old(io.output), io.output, sofar, chunk, rest.0, all.0);
          return false;
        }
        sofar := sofar + chunk;
        remaining := remaining - n;
        address := Wrap(address + n);
      }
      LoadStep(memory, address, remaining, memoryCalls);
      assert sofar + [] == sofar;
      PartlyAll(old(io.output), all.0);
      return true;
    }

    /** What `Write` writes: the segments as they are now, and the memory from the next call on. */
    ghost function Blocks(): seq<Block>
      reads this
    {
      BlocksOf(segments, memory, memoryCalls)
    }

    ghost predicate CanWrite()
      reads this
    {
      && writeOffset == 0
      && (forall i :: 0 <= i < |segments| ==> IsSegment(segments[i]))
      && Writable(Blocks())
    }

    /** Header, table and data; a failing stream is left with the start of the file. */
    method Write() returns (ok: bool)
      requires CanWrite()
      modifies this, io
      ensures Partly(old(io.output), io.output, Image(old(machine), old(flags), old(Blocks())))
      ensures ok ==> io.output == old(io.output) + Image(old(machine), old(flags), old(Blocks())) && io.canSync
      ensures old(io.Reliable()) && io.canSync ==> ok
    {
      hide Plan, PlanEnd, TableBytes, DataBytes, EhdrBytes, BlocksOf, Planned, AreBlocks, IsSegment, Partly, Image;
      ghost var segs, bs := segments, Blocks();
      ghost var header, table, data := EhdrBytes(Ehdr(machine, flags, |segments|)), TableBytes(Plan(bs, TableEnd(bs))),
                                       DataBytes(bs, TableEnd(bs));
      ghost var image := Image(machine, flags, bs);
      ImageParts(machine, flags, bs);
      assert image == [] + header + (table + data) == header + table + data == (header + table) + data + [];
      assert io.output + [] == io.output && io.output + header + table == io.output + (header + table);
      ok := WriteAll(EhdrBytes(Ehdr(machine, flags, |segments|)));
      if !ok {
        PartlyMore(old(io.output), io.output, [], header, table + data, image);
        return false;
      }
      ok := WriteTable(bs);
      if !ok {
        PartlyMore(old(io.output), io.output, header, table, data, image);
        return false;
      }
      ok := WriteData(segs, bs);
      PartlyMore(old(io.output), io.output, header + table, data, [], image);
      if !ok {
        return false;
      }
      FourParts(old(io.output), header, table, data);
      ok := io.Sync();
    }

    /** Fixes every segment's offset and writes its header. */
    method WriteTable(ghost bs: seq<Block>) returns (ok: bool)
      requires bs == Blocks() && AreBlocks(bs)
      requires PlanEnd(bs, writeOffset + PHDR_SIZE * |bs|) < TWO_TO_THE_64
      modifies `segments, `writeOffset, io
      ensures var hs := Plan(bs, old(writeOffset) + PHDR_SIZE * |bs|);
              ok ==>
                && io.output == old(io.output) + TableBytes(hs)
                && writeOffset == old(writeOffset) + PHDR_SIZE * |bs|
                && Planned(old(segments), segments, hs)
      ensures Partly(old(io.output), io.output, TableBytes(Plan(bs, old(writeOffset) + PHDR_SIZE * |bs|)))
      ensures old(io.Reliable()) ==> ok && io.Reliable()
    {
      hide Plan, PlanEnd, Padding, BlocksOf, PhdrBytes, TableBytes, Partly;
      ghost var segs := segments;
      ghost var start := writeOffset + PHDR_SIZE * |bs|;
      ghost var hs := Plan(bs, start);
      var offset: nat := writeOffset + PHDR_SIZE * |segments|;
      var i := 0;
      assert bs[0..] == bs && hs[0..] == hs;
      NoTable(io.output, hs);
      while i < |segments|
        invariant i <= |segments| == |segs| == |bs|
        invariant PlanEnd(bs[i..], offset) < TWO_TO_THE_64 && Plan(bs[i..], offset) == hs[i..]
        invariant forall j :: 0 <= j < |segs| ==>
                    segments[j] == if j < i then segs[j].(header := hs[j]) else segs[j]
        invariant io.output == old(io.output) + TableBytes(hs[..i])
        invariant writeOffset == old(writeOffset) + PHDR_SIZE * i
        invariant old(io.Reliable()) ==> io.Reliable()
      {
        PlanStep(bs, hs, i, offset);
        var pad := Padding(offset, segments[i].header.align);
        var header := segments[i].header.(offset := offset + pad);
        segments := segments[i := segments[i].(header := header)];
        offset := offset + header.filesz + pad;
        ok := WriteAll(PhdrBytes(header));
        if !ok {
          TableSplit(hs, i);
          PartlyMore(old(io.output), io.output, TableBytes(hs[..i]), PhdrBytes(hs[i]), TableBytes(hs[i + 1..]), TableBytes(hs));
          return false;
        }
        MoreTable(old(io.output), hs, i);
        i := i + 1;
      }
      assert hs[..i] == hs;
      PartlyAll(old(io.output), TableBytes(hs));
      return true;
    }

    /**
     * Pads up to the segment's offset and writes its bytes; the end is checked against the plan, and always agrees.
     */
    method WriteBlock(segment: Segment) returns (ok: bool)
      requires IsSegment(segment) && writeOffset <= segment.header.offset
      modifies `memoryCalls, `writeOffset, io
      ensures ok ==>
                var (data, next) := BytesOf(segment, memory, old(memoryCalls));
                && io.output == old(io.output) + Zeros(segment.header.offset - old(writeOffset)) + data
                && memoryCalls == next
                && writeOffset == segment.header.offset + segment.header.filesz
      ensures Partly(old(io.output), io.output,
                     Zeros(segment.header.offset - old(writeOffset)) + BytesOf(segment, memory, old(memoryCalls)).0)
      ensures old(io.Reliable()) ==> ok && io.Reliable()
    {
      hide Zeros, LoadData, Partly;
      var pad := segment.header.offset - writeOffset;
      ghost var data := BytesOf(segment, memory, memoryCalls).0;
      assert [] + Zeros(pad) + data == Zeros(pad) + data == Zeros(pad) + data + [];
      assert io.output + [] == io.output;
      ok := WritePadding(pad);
      if !ok {
        PartlyMore(old(io.output), io.output, [], Zeros(pad), data, Zeros(pad) + data);
        return false;
      }
      if segment.content.Callback? {
        ok := WriteLoadSegmentData(segment.header);
      } else {
        ok := WriteAll(segment.content.data);
      }
      PartlyMore(old(io.output), io.output, Zeros(pad), data, [], Zeros(pad) + data);
      if ok && writeOffset != segment.header.offset + segment.header.filesz {
        ok := false;
      }
    }

    method WriteData(ghost segs: seq<Segment>, ghost bs: seq<Block>) returns (ok: bool)
      requires AreBlocks(bs) && PlanEnd(bs, writeOffset) < TWO_TO_THE_64
      requires Planned(segs, segments, Plan(bs, writeOffset)) && bs == BlocksOf(segs, memory, memoryCalls)
      requires forall i :: 0 <= i < |segs| ==> IsSegment(segs[i])
      modifies `memoryCalls, `writeOffset, io
      ensures ok ==> io.output == old(io.output) + DataBytes(bs, old(writeOffset))
      ensures Partly(old(io.output), io.output, DataBytes(bs, old(writeOffset)))
      ensures old(io.Reliable()) ==> ok && io.Reliable()
    {
      hide Plan, PlanEnd, Padding, BlocksOf, BytesOf, DataBytes, IsSegment, AreBlocks, Zeros, Partly;
      ghost var start := writeOffset;
      ghost var hs := Plan(bs, start);
      ghost var sofar: seq<byte> := [];
      var i := 0;
      assert bs[0..] == bs && hs[0..] == hs && segs[0..] == segs;
      assert DataBytes(bs, start) == sofar + DataBytes(bs, start);
      while i < |segments|
        invariant i <= |segments| == |segs| == |bs|
        invariant PlanEnd(bs[i..], writeOffset) < TWO_TO_THE_64 && Plan(bs[i..], writeOffset) == hs[i..]
        invariant bs[i..] == BlocksOf(segs[i..], memory, memoryCalls)
        invariant AreBlocks(bs[i..]) && DataBytes(bs, start) == sofar + DataBytes(bs[i..], writeOffset)
        invariant io.output == old(io.output) + sofar
        invariant old(io.Reliable()) ==> io.Reliable()
      {
        PlanStep(bs, hs, i, writeOffset);
        DataStep(bs, i, writeOffset);
        BlocksStep(segs, memory, memoryCalls, bs, i);
        SameBytes(segs[i], segments[i], hs[i], memory, memoryCalls);
        ghost var pad := Padding(writeOffset, bs[i].header.align);
        ghost var rest := DataBytes(bs[i + 1..], writeOffset + pad + bs[i].header.filesz);
        ok := WriteBlock(segments[i]);
        if !ok {
          MoreData(old(io.output), sofar, Zeros(pad), bs[i].data, rest);
          PartlyMore(old(io.output), io.output, sofar, Zeros(pad) + bs[i].data, rest, DataBytes(bs, start));
          return false;
        }
        MoreData(old(io.output), sofar, Zeros(pad), bs[i].data, DataBytes(bs[i + 1..], writeOffset));
        sofar := sofar + Zeros(pad) + bs[i].data;
        i := i + 1;
      }
      assert bs[i..] == [];
      DataNothing(sofar, writeOffset);
      PartlyAll(old(io.output), DataBytes(bs, start));
      return true;
    }
  }

  lemma MoreData(s: seq<byte>, sofar: seq<byte>, zeros: seq<byte>, data: seq<byte>, rest: seq<byte>)
    ensures sofar + (zeros + data + rest) == sofar + zeros + data + rest == sofar + (zeros + data) + rest
    ensures s + sofar + zeros + data == s + (sofar + zeros + data)
  {
  }

  lemma DataNothing(sofar: seq<byte>, offset: nat)
    ensures sofar + DataBytes([], offset) == sofar
  {
  }

  /** Changing a segment's offset changes none of its bytes. */
  lemma SameBytes(seg: Segment, planned: Segment, header: Phdr, memory: Memory, call: nat)
    requires IsSegment(seg) && planned == seg.(header := header) && header == seg.header.(offset := header.offset)
    ensures IsSegment(planned) && BytesOf(planned, memory, call) == BytesOf(seg, memory, call)
  {
    hide LoadData;
  }

  lemma ImageParts(machine: uint16, flags: uint32, bs: seq<Block>)
    requires Writable(bs)
    ensures EhdrBytes(Ehdr(machine, flags, |bs|)) + TableBytes(Plan(bs, TableEnd(bs))) + DataBytes(bs, TableEnd(bs))
            == Image(machine, flags, bs)
  {
    hide EhdrBytes, TableBytes, Plan, DataBytes, PlanEnd, AreBlocks;
  }

  lemma FourParts(s: seq<byte>, a: seq<byte>, b: seq<byte>, c: seq<byte>)
    ensures s + a + b + c == s + (a + b + c)
  {
  }

  /** The same segments, with the planned headers. */
  ghost predicate Planned(before: seq<Segment>, after: seq<Segment>, hs: seq<Phdr>) {
    |before| == |after| == |hs|
    && forall i :: 0 <= i < |after| ==> after[i] == before[i].(header := hs[i])
  }

  lemma NoTable(s: seq<byte>, hs: seq<Phdr>)
    ensures s + TableBytes(hs[..0]) == s
  {
  }

  lemma {:induction false} TableAppend(hs: seq<Phdr>, h: Phdr)
    ensures TableBytes(hs + [h]) == TableBytes(hs) + PhdrBytes(h)
    decreases |hs|
  {
    hide PhdrBytes;
    if hs == [] {
      assert [h][1..] == [];
    } else {
      assert (hs + [h])[1..] == hs[1..] + [h];
      TableAppend(hs[1..], h);
    }
  }

  lemma MoreTable(s: seq<byte>, hs: seq<Phdr>, i: nat)
    requires i < |hs|
    ensures s + TableBytes(hs[..i]) + PhdrBytes(hs[i]) == s + TableBytes(hs[..i + 1])
  {
    hide TableBytes, PhdrBytes;
    TableAppend(hs[..i], hs[i]);
    assert hs[..i] + [hs[i]] == hs[..i + 1];
  }

  lemma TableSplit(hs: seq<Phdr>, i: nat)
    requires i < |hs|
    ensures TableBytes(hs) == TableBytes(hs[..i]) + PhdrBytes(hs[i]) + TableBytes(hs[i + 1..])
    decreases i
  {
    hide PhdrBytes;
    if i == 0 {
      assert hs[..0] == [] && TableBytes(hs[..0]) + PhdrBytes(hs[0]) == PhdrBytes(hs[0]);
    } else {
      TableSplit(hs[1..], i - 1);
      assert hs[..i][1..] == hs[1..][..i - 1] && hs[1..][i..] == hs[i + 1..];
    }
  }

  lemma PlanStep(bs: seq<Block>, hs: seq<Phdr>, i: nat, offset: nat)
    requires i < |bs| == |hs| && PlanEnd(bs[i..], offset) < TWO_TO_THE_64 && Plan(bs[i..], offset) == hs[i..]
    ensures var at := offset + Padding(offset, bs[i].header.align);
            var next := at + bs[i].header.filesz;
            && at < TWO_TO_THE_64 && hs[i] == bs[i].header.(offset := at)
            && PlanEnd(bs[i + 1..], next) < TWO_TO_THE_64 && Plan(bs[i + 1..], next) == hs[i + 1..]
  {
    hide Padding;
    assert bs[i..][1..] == bs[i + 1..];
    assert hs[i] == hs[i..][0] && hs[i + 1..] == hs[i..][1..];
  }

  lemma DataStep(bs: seq<Block>, i: nat, offset: nat)
    requires i < |bs| && AreBlocks(bs[i..])
    ensures var pad := Padding(offset, bs[i].header.align);
            && AreBlocks(bs[i + 1..]) && |bs[i].data| == bs[i].header.filesz
            && DataBytes(bs[i..], offset) == Zeros(pad) + bs[i].data + DataBytes(bs[i + 1..], offset + pad + bs[i].header.filesz)
  {
    hide Padding, Zeros;
    assert bs[i..][1..] == bs[i + 1..];
    assert IsBlock(bs[i..][0]);
  }

  lemma BlocksStep(segs: seq<Segment>, memory: Memory, call: nat, bs: seq<Block>, i: nat)
    requires i < |segs| == |bs| && bs[i..] == BlocksOf(segs[i..], memory, call)
    ensures var (data, next) := BytesOf(segs[i], memory, call);
            && bs[i] == Block(segs[i].header, data)
            && bs[i + 1..] == BlocksOf(segs[i + 1..], memory, next)
  {
    hide BytesOf;
    assert segs[i..][1..] == segs[i + 1..];
    assert bs[i] == bs[i..][0] && bs[i + 1..] == bs[i..][1..];
  }

  lemma NoZeros(s: seq<byte>)
    ensures s + Zeros(0) == s
  {
  }

  lemma ZerosSplit(a: nat, b: nat, n: nat)
    requires a + b <= n
    ensures Zeros(n) == Zeros(a) + Zeros(b) + Zeros(n - a - b)
  {
  }

  lemma MoreZeros(s: seq<byte>, n: nat, m: nat)
    ensures s + Zeros(n) + Zeros(m) == s + Zeros(n + m)
  {
  }

  lemma LoadStep(memory: Memory, address: nat, remaining: nat, call: nat)
    ensures LoadData(memory, address, remaining, call)
            == if remaining == 0 then ([], call)
               else
                 var chunk := Chunk(memory, address, FirstSize(remaining), call);
                 var rest := LoadData(memory, Wrap(address + |chunk|), remaining - |chunk|, call + 1);
                 (chunk + rest.0, rest.1)
    ensures remaining > 0 ==> 0 < |Chunk(memory, address, FirstSize(remaining), call)| <= FirstSize(remaining) <= remaining
  {
  }
}
