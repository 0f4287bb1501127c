/** Where the writer puts things: offsets planned in one pass, and the file that the other pass emits. */
module ElfLayout {
  import opened Bytes
  import opened ElfFormat

  // ---------- alignment ----------

  predicate IsPowerOfTwo(a: nat) {
    a == 1 || (a > 1 && a % 2 == 0 && IsPowerOfTwo(a / 2))
  }

  ghost predicate IsMultiple(n: nat, a: nat) {
    exists q: nat :: n == q * a
  }

  /** The bits of `x` that are not set in `m`. */
  function Mask(x: nat, m: nat): (r: nat)
    ensures r <= x <= r + m
  {
    if x == 0 then 0 else 2 * Mask(x / 2, m / 2) + (if m % 2 == 1 then 0 else x % 2)
  }

  /** Adding `a - 1` and masking out the bits of `a - 1`, whether or not `a` is a power of two. */
  function AlignUp(n: nat, a: nat): (r: nat)
    requires a > 0
    ensures n <= r < n + a
  {
    Mask(n + (a - 1), a - 1)
  }

  lemma {:induction false} MaskNothing(x: nat)
    ensures Mask(x, 0) == x
  {
    if x > 0 {
      MaskNothing(x / 2);
    }
  }

  lemma {:induction false} MaskItself(x: nat)
    ensures Mask(x, x) == 0
  {
    if x > 0 {
      MaskItself(x / 2);
    }
  }

  lemma {:induction false} MaskRounds(x: nat, a: nat)
    requires IsPowerOfTwo(a)
    ensures IsMultiple(Mask(x, a - 1), a)
    decreases a
  {
    if a == 1 {
      assert Mask(x, 0) == Mask(x, 0) * 1;
    } else if x == 0 {
      assert 0 == 0 * a;
    } else {
      MaskRounds(x / 2, a / 2);
      var q: nat :| Mask(x / 2, a / 2 - 1) == q * (a / 2);
      assert Mask(x, a - 1) == q * (a / 2) * 2;
      HalfTwice(q, a);
    }
  }

  lemma HalfTwice(q: nat, a: nat)
    requires a % 2 == 0
    ensures q * (a / 2) * 2 == q * a
  {
    assert a / 2 * 2 == a;
  }

  /** One bit is left of `a` itself: the lowest that is set. */
  lemma {:induction false} LowestBit(a: nat)
    requires a > 0 && !IsPowerOfTwo(a)
    ensures 0 < Mask(a, a - 1) < a
    decreases a
  {
    if a % 2 == 1 {
      MaskItself(a / 2);
    } else {
      LowestBit(a / 2);
    }
  }

  /** The masking aligns every offset exactly when the alignment is a power of two. */
  lemma AlignsIffPowerOfTwo(a: nat)
    requires a > 0
    ensures (forall n: nat :: IsMultiple(AlignUp(n, a), a)) <==> IsPowerOfTwo(a)
  {
    if IsPowerOfTwo(a) {
      forall n: nat ensures IsMultiple(AlignUp(n, a), a) {
        MaskRounds(n + (a - 1), a);
      }
    } else {
      LowestBit(a);
      var r := AlignUp(1, a);
      assert 0 < r < a;
      if IsMultiple(r, a) {
        var q: nat :| r == q * a;
        MulOrder(1, q, a);
      }
    }
  }

  lemma AlignUpIsLeast(n: nat, a: nat, m: nat)
    requires IsPowerOfTwo(a) && m >= n && IsMultiple(m, a)
    ensures AlignUp(n, a) <= m
  {
    hide Mask, IsMultiple;
    MaskRounds(n + (a - 1), a);
    MultiplesApart(AlignUp(n, a), m, a);
  }

  /** Two multiples of `a` less than `a` apart are the same. */
  lemma MultiplesApart(r: nat, m: nat, a: nat)
    requires IsMultiple(r, a) && IsMultiple(m, a) && r < m + a
    ensures r <= m
  {
    var q: nat :| r == q * a;
    var p: nat :| m == p * a;
    if p < q {
      MulOrder(p + 1, q, a);
      assert (p + 1) * a == p * a + a;
    }
  }

  lemma MulOrder(p: nat, q: nat, a: nat)
    requires p <= q
    ensures p * a <= q * a
  {
    assert q * a == p * a + (q - p) * a;
  }

  function Power(k: nat): (p: nat)
    ensures p > 0
  {
    if k == 0 then 1 else 2 * Power(k - 1)
  }

  lemma {:induction false} PowerOfSum(j: nat, k: nat)
    ensures Power(j + k) == Power(j) * Power(k)
    decreases j
  {
    if j > 0 {
      PowerOfSum(j - 1, k);
    }
  }

  lemma PowerFour()
    ensures Power(4) == 16
  {
  }

  lemma PowerSixtyFour()
    ensures Power(64) == TWO_TO_THE_64
  {
    hide Power;
    PowerFour();
    PowerOfSum(4, 4);
    PowerOfSum(8, 8);
    PowerOfSum(16, 16);
    PowerOfSum(32, 32);
  }

  lemma {:induction false} HighBitsStay(x: nat, m: nat, k: nat)
    requires m < Power(k) <= x
    ensures Mask(x, m) >= Power(k)
    decreases k
  {
    if k == 0 {
      MaskNothing(x);
    } else {
      HighBitsStay(x / 2, m / 2, k - 1);
    }
  }

  /** When the aligned offset fits in 64 bits, so does the sum on the way to it. */
  lemma AlignUpDoesNotWrap(n: nat, a: uint64)
    requires a > 0 && AlignUp(n, a) < TWO_TO_THE_64
    ensures n + (a - 1) < TWO_TO_THE_64
  {
    PowerSixtyFour();
    if n + (a - 1) >= TWO_TO_THE_64 {
      HighBitsStay(n + (a - 1), a - 1, 64);
    }
  }

  /** Alignments 0 and 1 ask for nothing. */
  function Padding(offset: nat, align: nat): nat {
    if align <= 1 then 0 else AlignUp(offset, align) - offset
  }

  // ---------- the plan ----------

  /** A segment to write: its header, whose offset is still open, and its `filesz` bytes. */
  datatype Block = Block(header: Phdr, data: seq<byte>)

  ghost predicate IsBlock(b: Block) {
    |b.data| == b.header.filesz
  }

  ghost predicate AreBlocks(bs: seq<Block>) {
    forall i :: 0 <= i < |bs| ==> IsBlock(bs[i])
  }

  /** Where the data starting at or after `offset` ends when each segment goes to the next aligned place. */
  function PlanEnd(bs: seq<Block>, offset: nat): (end: nat)
    ensures end >= offset
  {
    if bs == [] then offset
    else PlanEnd(bs[1..], offset + Padding(offset, bs[0].header.align) + bs[0].header.filesz)
  }

  /** The headers with the offsets filled in. */
  function Plan(bs: seq<Block>, offset: nat): (hs: seq<Phdr>)
    requires PlanEnd(bs, offset) < TWO_TO_THE_64
    ensures |hs| == |bs|
  {
    if bs == [] then []
    else
      var at := offset + Padding(offset, bs[0].header.align);
      assert PlanEnd(bs[1..], at + bs[0].header.filesz) >= at;
      [bs[0].header.(offset := at)] + Plan(bs[1..], at + bs[0].header.filesz)
  }

  function TableBytes(hs: seq<Phdr>): (s: seq<byte>)
    ensures |s| == PHDR_SIZE * |hs|
  {
    if hs == [] then [] else PhdrBytes(hs[0]) + TableBytes(hs[1..])
  }

  /** The data region that starts at `offset`: zeros up to each segment's place, then its bytes. */
  function DataBytes(bs: seq<Block>, offset: nat): (s: seq<byte>)
    requires AreBlocks(bs)
    ensures |s| == PlanEnd(bs, offset) - offset
  {
    if bs == [] then []
    else
      var pad := Padding(offset, bs[0].header.align);
      Zeros(pad) + bs[0].data + DataBytes(bs[1..], offset + pad + bs[0].header.filesz)
  }

  function TableEnd(bs: seq<Block>): nat {
    EHDR_SIZE + PHDR_SIZE * |bs|
  }

  ghost predicate Writable(bs: seq<Block>) {
    AreBlocks(bs) && |bs| < 0xFFFF && PlanEnd(bs, TableEnd(bs)) < TWO_TO_THE_64
  }

  /** The whole file. */
  ghost function Image(machine: uint16, flags: uint32, bs: seq<Block>): (s: seq<byte>)
    requires Writable(bs)
    ensures |s| == PlanEnd(bs, TableEnd(bs))
  {
    EhdrBytes(Ehdr(machine, flags, |bs|)) + TableBytes(Plan(bs, TableEnd(bs))) + DataBytes(bs, TableEnd(bs))
  }

  // ---------- what the plan guarantees ----------

  /** The end of the region before the `i`-th segment: the table's end or the previous segment's. */
  function Before(hs: seq<Phdr>, offset: nat, i: nat): nat
    requires i < |hs|
  {
    if i == 0 then offset else hs[i - 1].offset + hs[i - 1].filesz
  }

  /**
   * Only offsets are changed; each is aligned, and the least aligned one not below where the previous segment ends.
   */
  lemma {:induction false} PlanIsTight(bs: seq<Block>, offset: nat, i: nat)
    requires PlanEnd(bs, offset) < TWO_TO_THE_64 && i < |bs|
    ensures var hs := Plan(bs, offset);
            && hs[i] == bs[i].header.(offset := hs[i].offset)
            && Before(hs, offset, i) <= hs[i].offset
            && hs[i].offset == Before(hs, offset, i) + Padding(Before(hs, offset, i), hs[i].align)
            && hs[i].offset + hs[i].filesz <= PlanEnd(bs, offset)
    decreases i
  {
    var at := offset + Padding(offset, bs[0].header.align);
    var next := at + bs[0].header.filesz;
    if i > 0 {
      PlanIsTight(bs[1..], next, i - 1);
      assert Plan(bs, offset)[1..] == Plan(bs[1..], next);
      assert Before(Plan(bs, offset), offset, i) == Before(Plan(bs[1..], next), next, i - 1);
    }
  }

  lemma PaddedIsLeastAligned(offset: nat, align: nat, other: nat)
    requires align > 1 && IsPowerOfTwo(align) && offset <= other && IsMultiple(other, align)
    ensures offset + Padding(offset, align) <= other
  {
    AlignUpIsLeast(offset, align, other);
  }

  /** Offsets ascend and the segments do not overlap. */
  lemma {:induction false} PlanAscends(bs: seq<Block>, offset: nat, i: nat, j: nat)
    requires PlanEnd(bs, offset) < TWO_TO_THE_64 && i < j < |bs|
    ensures var hs := Plan(bs, offset); offset <= hs[i].offset && hs[i].offset + hs[i].filesz <= hs[j].offset
    decreases j
  {
    PlanIsTight(bs, offset, j);
    if i < j - 1 {
      PlanAscends(bs, offset, i, j - 1);
    } else {
      PlanBeyondTable(bs, offset, i);
    }
  }

  lemma {:induction false} PlanBeyondTable(bs: seq<Block>, offset: nat, i: nat)
    requires PlanEnd(bs, offset) < TWO_TO_THE_64 && i < |bs|
    ensures offset <= Plan(bs, offset)[i].offset
    decreases i
  {
    PlanIsTight(bs, offset, i);
    if i > 0 {
      PlanBeyondTable(bs, offset, i - 1);
    }
  }

  /**
   * The plan's promises together: behind the table, one segment behind the other with a gap below the alignment, and
   * for a power of two at the least aligned offset that is free.
   */
  lemma PlanIsSound(bs: seq<Block>, offset: nat, i: nat, j: nat)
    requires PlanEnd(bs, offset) < TWO_TO_THE_64 && i <= j < |bs|
    ensures var hs := Plan(bs, offset);
            && offset <= hs[i].offset && (i < j ==> hs[i].offset + hs[i].filesz <= hs[j].offset)
            && hs[j].offset + hs[j].filesz <= PlanEnd(bs, offset)
            && (hs[i].align <= 1 ==> hs[i].offset == Before(hs, offset, i))
            && (hs[i].align > 1 ==> hs[i].offset < Before(hs, offset, i) + hs[i].align)
            && (hs[i].align > 1 && IsPowerOfTwo(hs[i].align) ==>
                  && IsMultiple(hs[i].offset, hs[i].align)
                  && forall o: nat :: Before(hs, offset, i) <= o && IsMultiple(o, hs[i].align) ==> hs[i].offset <= o)
  {
    hide IsMultiple, Plan, PlanEnd, Padding, IsPowerOfTwo;
    var hs := Plan(bs, offset);
    var before, align := Before(hs, offset, i), hs[i].align;
    PlanIsTight(bs, offset, i);
    PlanIsTight(bs, offset, j);
    PlanBeyondTable(bs, offset, i);
    if i < j {
      PlanAscends(bs, offset, i, j);
    }
    SmallPadding(before, align);
    if align > 1 && IsPowerOfTwo(align) {
      forall o: nat | before <= o && IsMultiple(o, align)
        ensures hs[i].offset <= o
      {
        PaddedIsLeastAligned(before, align, o);
      }
      PaddedIsAligned(before, align);
    }
  }

  lemma SmallPadding(offset: nat, align: nat)
    ensures align <= 1 ==> Padding(offset, align) == 0
    ensures align > 1 ==> Padding(offset, align) < align
  {
  }

  lemma PaddedIsAligned(offset: nat, align: nat)
    requires align > 1 && IsPowerOfTwo(align)
    ensures IsMultiple(offset + Padding(offset, align), align)
  {
    MaskRounds(offset + (align - 1), align);
  }

  // ---------- reading the image back ----------

  lemma {:induction false} TableAt(s: seq<byte>, at: nat, hs: seq<Phdr>, i: nat)
    requires At(s, at, TableBytes(hs)) && i < |hs|
    ensures at + PHDR_SIZE * i + PHDR_SIZE <= |s| && ParsePhdr(s, at + PHDR_SIZE * i) == hs[i]
    decreases i
  {
    hide At, ParsePhdr, PhdrBytes;
    AtParts(s, at, PhdrBytes(hs[0]), TableBytes(hs[1..]));
    if i == 0 {
      PhdrAt(s, at, hs[0]);
      AtFits(s, at, PhdrBytes(hs[0]));
    } else {
      TableAt(s, at + PHDR_SIZE, hs[1..], i - 1);
    }
  }

  lemma AtFits(s: seq<byte>, i: nat, part: seq<byte>)
    requires At(s, i, part)
    ensures i + |part| <= |s| && s[i..i + |part|] == part
  {
  }

  /** Every segment's bytes stand at its planned offset, with zeros before them. */
  lemma {:induction false} DataAt(s: seq<byte>, bs: seq<Block>, offset: nat, i: nat)
    requires AreBlocks(bs) && PlanEnd(bs, offset) < TWO_TO_THE_64 && i < |bs|
    requires At(s, offset, DataBytes(bs, offset))
    ensures var hs := Plan(bs, offset);
            && At(s, hs[i].offset, bs[i].data)
            && hs[i].offset >= Before(hs, offset, i)
            && At(s, Before(hs, offset, i), Zeros(hs[i].offset - Before(hs, offset, i)))
    decreases i
  {
    hide At, Zeros;
    var pad := Padding(offset, bs[0].header.align);
    var next := offset + pad + bs[0].header.filesz;
    var hs := Plan(bs, offset);
    AtParts(s, offset, Zeros(pad) + bs[0].data, DataBytes(bs[1..], next));
    AtParts(s, offset, Zeros(pad), bs[0].data);
    if i > 0 {
      DataAt(s, bs[1..], next, i - 1);
      assert hs[1..] == Plan(bs[1..], next);
      assert Before(hs, offset, i) == Before(hs[1..], next, i - 1);
    }
  }

  /**
   * Parsing the file gives back the header fields, every segment's header with only its offset changed, and its bytes
   * at that offset.
   */
  lemma ImageReadsBack(machine: uint16, flags: uint32, bs: seq<Block>, i: nat)
    requires Writable(bs) && i < |bs|
    ensures var s, hs := Image(machine, flags, bs), Plan(bs, TableEnd(bs));
            && IsValidCoreElf(s)
            && Machine(s) == machine && Flags(s) == flags && PhOff(s) == EHDR_SIZE && PhNum(s) == |bs|
            && EHDR_SIZE + PHDR_SIZE * i + PHDR_SIZE <= |s|
            && ParsePhdr(s, EHDR_SIZE + PHDR_SIZE * i) == hs[i] == bs[i].header.(offset := hs[i].offset)
            && At(s, hs[i].offset, bs[i].data)
            && hs[i].offset >= Before(hs, TableEnd(bs), i)
            && At(s, Before(hs, TableEnd(bs), i), Zeros(hs[i].offset - Before(hs, TableEnd(bs), i)))
  {
    hide At, EhdrBytes, ParsePhdr, IsValidCoreElf, Zeros, Machine, Flags, PhOff, PhNum, Plan, PlanEnd, TableBytes,
      DataBytes, Padding;
    var s, hs := Image(machine, flags, bs), Plan(bs, TableEnd(bs));
    var h := Ehdr(machine, flags, |bs|);
    WholeIsAt(s);
    AtParts(s, 0, EhdrBytes(h) + TableBytes(hs), DataBytes(bs, TableEnd(bs)));
    AtParts(s, 0, EhdrBytes(h), TableBytes(hs));
    EhdrFields(s, h);
    WrittenHeaderIsValid(s, h);
    TableAt(s, EHDR_SIZE, hs, i);
    DataAt(s, bs, TableEnd(bs), i);
    PlanIsTight(bs, TableEnd(bs), i);
  }

  /** The first 64 bytes of every file that is written: what they mean is fixed apart from three fields. */
  lemma ImageHeader(machine: uint16, flags: uint32, bs: seq<Block>)
    requires Writable(bs)
    ensures var s := Image(machine, flags, bs);
            && |s| >= 64
            && s[0..16] == [0x7F, 0x45, 0x4C, 0x46, 2, 1, 1, 0, 0, 0, 0, 0, 0, 0, 0, 0]
            && LittleEndian(s, 16, 2) == 4 && LittleEndian(s, 18, 2) == machine && LittleEndian(s, 20, 4) == 1
            && LittleEndian(s, 24, 8) == 0 && LittleEndian(s, 32, 8) == (if bs == [] then 0 else 64)
            && LittleEndian(s, 40, 8) == 0 && LittleEndian(s, 48, 4) == flags && LittleEndian(s, 52, 2) == 64
            && LittleEndian(s, 54, 2) == (if bs == [] then 0 else 56) && LittleEndian(s, 56, 2) == |bs|
            && LittleEndian(s, 58, 2) == 0 && LittleEndian(s, 60, 2) == 0 && LittleEndian(s, 62, 2) == 0
  {
    hide At, EhdrBytes, Plan, PlanEnd, TableBytes, DataBytes, LittleEndian, AreBlocks;
    var s, h := Image(machine, flags, bs), Ehdr(machine, flags, |bs|);
    var table, data := TableBytes(Plan(bs, TableEnd(bs))), DataBytes(bs, TableEnd(bs));
    WholeIsAt(s);
    AtParts(s, 0, EhdrBytes(h) + table, data);
    AtParts(s, 0, EhdrBytes(h), table);
    EhdrBytesMean(s, h);
  }
}
