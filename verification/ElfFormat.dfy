/** The 64-bit, little-endian ELF structures that a core dump is made of. */
module ElfFormat {
  import opened Bytes

  const EHDR_SIZE: nat := 64
  const PHDR_SIZE: nat := 56
  const PT_LOAD: uint32 := 1
  const PT_NOTE: uint32 := 4
  const ET_CORE: nat := 4
  const EV_CURRENT: uint32 := 1
  /** Magic number, 64-bit class, little-endian data, current version. */
  const IDENT: seq<byte> := [0x7F, 0x45, 0x4C, 0x46, 2, 1, 1] + Zeros(9)

  type uint16 = x: int | 0 <= x < 0x1_0000

  function Le16(n: uint16): (s: seq<byte>)
    ensures |s| == 2
  {
    [n % 256, n / 256]
  }

  function Get16(s: seq<byte>, i: nat): (n: uint16)
    requires i + 2 <= |s|
  {
    (s[i] as int) + 256 * (s[i + 1] as int)
  }

  function Le64(n: uint64): (s: seq<byte>)
    ensures |s| == 8
  {
    Le32(n % TWO_TO_THE_32) + Le32(n / TWO_TO_THE_32)
  }

  function Get64(s: seq<byte>, i: nat): (n: uint64)
    requires i + 8 <= |s|
  {
    (Get32(s, i) as int) + TWO_TO_THE_32 * (Get32(s, i + 4) as int)
  }

  // ---------- numbers by their bytes ----------

  lemma TwoBytes(s: seq<byte>, i: nat)
    requires i + 2 <= |s|
    ensures LittleEndian(s, i, 2) == Get16(s, i)
  {
    assert LittleEndian(s, i + 1, 1) == s[i + 1] + 0x100 * LittleEndian(s, i + 2, 0);
  }

  lemma {:induction false} LittleEndianSplit(s: seq<byte>, i: nat, k: nat)
    requires i + 4 + k <= |s|
    ensures LittleEndian(s, i, 4 + k) == LittleEndian(s, i, 4) + TWO_TO_THE_32 * LittleEndian(s, i + 4, k)
  {
    var r := LittleEndian(s, i + 4, k);
    assert LittleEndian(s, i + 3, 1 + k) == s[i + 3] + 0x100 * r;
    assert LittleEndian(s, i + 2, 2 + k) == s[i + 2] + 0x100 * LittleEndian(s, i + 3, 1 + k);
    assert LittleEndian(s, i + 1, 3 + k) == s[i + 1] + 0x100 * LittleEndian(s, i + 2, 2 + k);
    assert LittleEndian(s, i, 4 + k) == s[i] + 0x100 * LittleEndian(s, i + 1, 3 + k);
    assert LittleEndian(s, i + 3, 1) == s[i + 3];
    assert LittleEndian(s, i + 2, 2) == s[i + 2] + 0x100 * LittleEndian(s, i + 3, 1);
    assert LittleEndian(s, i + 1, 3) == s[i + 1] + 0x100 * LittleEndian(s, i + 2, 2);
  }

  lemma EightBytes(s: seq<byte>, i: nat)
    requires i + 8 <= |s|
    ensures LittleEndian(s, i, 8) == Get64(s, i)
  {
    LittleEndianSplit(s, i, 4);
    FourBytes(s, i);
    FourBytes(s, i + 4);
  }

  // ---------- fields at a place in a longer sequence ----------

  /** The bytes `part` stand at `i` in `s`. */
  predicate At(s: seq<byte>, i: nat, part: seq<byte>) {
    i + |part| <= |s| && s[i..i + |part|] == part
  }

  lemma AtParts(s: seq<byte>, i: nat, a: seq<byte>, b: seq<byte>)
    ensures At(s, i, a + b) <==> At(s, i, a) && At(s, i + |a|, b)
  {
    if i + |a| + |b| <= |s| {
      var t := s[i..i + |a| + |b|];
      assert t[..|a|] == s[i..i + |a|] && t[|a|..] == s[i + |a|..i + |a| + |b|];
      if At(s, i, a) && At(s, i + |a|, b) {
        assert t == t[..|a|] + t[|a|..];
      }
      if t == a + b {
        assert t[..|a|] == a && t[|a|..] == b;
      }
    }
  }

  lemma At16(s: seq<byte>, i: nat, n: uint16)
    requires At(s, i, Le16(n))
    ensures Get16(s, i) == n
  {
    assert s[i] == s[i..i + 2][0] && s[i + 1] == s[i..i + 2][1];
  }

  lemma At32(s: seq<byte>, i: nat, n: uint32)
    requires At(s, i, Le32(n))
    ensures Get32(s, i) == n
  {
    var t := s[i..i + 4];
    assert s[i] == t[0] && s[i + 1] == t[1] && s[i + 2] == t[2] && s[i + 3] == t[3];
    Le32RoundTrip(n);
  }

  lemma At64(s: seq<byte>, i: nat, n: uint64)
    requires At(s, i, Le64(n))
    ensures Get64(s, i) == n
  {
    AtParts(s, i, Le32(n % TWO_TO_THE_32), Le32(n / TWO_TO_THE_32));
    At32(s, i, n % TWO_TO_THE_32);
    At32(s, i + 4, n / TWO_TO_THE_32);
  }

  // ---------- segment headers ----------

  datatype Phdr = Phdr(
    kind: uint32, flags: uint32, offset: uint64, vaddr: uint64, paddr: uint64, filesz: uint64, memsz: uint64, align: uint64)

  function PhdrBytes(p: Phdr): (s: seq<byte>)
    ensures |s| == PHDR_SIZE
  {
    Le32(p.kind) + Le32(p.flags)
    + (Le64(p.offset) + (Le64(p.vaddr) + (Le64(p.paddr) + (Le64(p.filesz) + (Le64(p.memsz) + Le64(p.align))))))
  }

  function ParsePhdr(s: seq<byte>, i: nat): Phdr
    requires i + PHDR_SIZE <= |s|
  {
    Phdr(Get32(s, i), Get32(s, i + 4), Get64(s, i + 8), Get64(s, i + 16), Get64(s, i + 24), Get64(s, i + 32),
         Get64(s, i + 40), Get64(s, i + 48))
  }

  lemma PhdrAt(s: seq<byte>, i: nat, p: Phdr)
    requires At(s, i, PhdrBytes(p))
    ensures ParsePhdr(s, i) == p
  {
    hide Le32, Le64, Get32, Get64, At;
    var t6 := Le64(p.align);
    var t5 := Le64(p.memsz) + t6;
    var t4 := Le64(p.filesz) + t5;
    var t3 := Le64(p.paddr) + t4;
    var t2 := Le64(p.vaddr) + t3;
    var t1 := Le64(p.offset) + t2;
    AtParts(s, i, Le32(p.kind) + Le32(p.flags), t1);
    AtParts(s, i, Le32(p.kind), Le32(p.flags));
    AtParts(s, i + 8, Le64(p.offset), t2);
    AtParts(s, i + 16, Le64(p.vaddr), t3);
    AtParts(s, i + 24, Le64(p.paddr), t4);
    AtParts(s, i + 32, Le64(p.filesz), t5);
    AtParts(s, i + 40, Le64(p.memsz), t6);
    At32(s, i, p.kind);
    At32(s, i + 4, p.flags);
    At64(s, i + 8, p.offset);
    At64(s, i + 16, p.vaddr);
    At64(s, i + 24, p.paddr);
    At64(s, i + 32, p.filesz);
    At64(s, i + 40, p.memsz);
    At64(s, i + 48, p.align);
  }

  /** A segment header's fields at their places, by their bytes. */
  lemma PhdrBytesMean(p: Phdr)
    ensures var s := PhdrBytes(p);
            && |s| == 56
            && LittleEndian(s, 0, 4) == p.kind && LittleEndian(s, 4, 4) == p.flags
            && LittleEndian(s, 8, 8) == p.offset && LittleEndian(s, 16, 8) == p.vaddr
            && LittleEndian(s, 24, 8) == p.paddr && LittleEndian(s, 32, 8) == p.filesz
            && LittleEndian(s, 40, 8) == p.memsz && LittleEndian(s, 48, 8) == p.align
  {
    hide PhdrBytes, At, LittleEndian, Get32, Get64;
    var s := PhdrBytes(p);
    assert At(s, 0, s) by { WholeIsAt(s); }
    PhdrAt(s, 0, p);
    FourBytes(s, 0);
    FourBytes(s, 4);
    EightBytes(s, 8);
    EightBytes(s, 16);
    EightBytes(s, 24);
    EightBytes(s, 32);
    EightBytes(s, 40);
    EightBytes(s, 48);
  }

  lemma WholeIsAt(s: seq<byte>)
    ensures At(s, 0, s)
  {
    assert s[0..|s|] == s;
  }

  // ---------- the file header ----------

  /** The fields the writer chooses; everything else in its header is fixed. */
  datatype Ehdr = Ehdr(machine: uint16, flags: uint32, segments: uint16)

  function EhdrBytes(h: Ehdr): (s: seq<byte>)
    ensures |s| == EHDR_SIZE
  {
    var phoff := if h.segments > 0 then EHDR_SIZE else 0;
    var phentsize := if h.segments > 0 then PHDR_SIZE else 0;
    IDENT
    + ((Le16(ET_CORE) + Le16(h.machine)) + Le32(EV_CURRENT)
       + ((Le64(0) + Le64(phoff)) + Le64(0)
          + (Le32(h.flags) + (Le16(EHDR_SIZE) + Le16(phentsize))
             + ((Le16(h.segments) + Le16(0)) + (Le16(0) + Le16(0))))))
  }

  /** What a reader looks at in the first 64 bytes. */
  function Machine(s: seq<byte>): uint16 requires |s| >= EHDR_SIZE { Get16(s, 18) }
  function Flags(s: seq<byte>): uint32 requires |s| >= EHDR_SIZE { Get32(s, 48) }
  function PhOff(s: seq<byte>): uint64 requires |s| >= EHDR_SIZE { Get64(s, 32) }
  function PhNum(s: seq<byte>): uint16 requires |s| >= EHDR_SIZE { Get16(s, 56) }

  predicate IsValidCoreElf(s: seq<byte>) {
    && |s| >= EHDR_SIZE
    && s[0] == 0x7F && s[1] == 0x45 && s[2] == 0x4C && s[3] == 0x46
    && s[4] == 2
    && Get32(s, 20) == EV_CURRENT
    && Get16(s, 52) == EHDR_SIZE
    && Get16(s, 54) == PHDR_SIZE
    && Get16(s, 16) == ET_CORE
  }

  /** Every part of the file header stands at its place. */
  lemma EhdrPlaces(s: seq<byte>, h: Ehdr)
    requires At(s, 0, EhdrBytes(h))
    ensures |s| >= EHDR_SIZE && At(s, 0, IDENT)
    ensures At(s, 16, Le16(ET_CORE)) && At(s, 18, Le16(h.machine)) && At(s, 20, Le32(EV_CURRENT))
    ensures At(s, 24, Le64(0)) && At(s, 32, Le64(if h.segments > 0 then EHDR_SIZE else 0)) && At(s, 40, Le64(0))
    ensures At(s, 48, Le32(h.flags)) && At(s, 52, Le16(EHDR_SIZE))
    ensures At(s, 54, Le16(if h.segments > 0 then PHDR_SIZE else 0)) && At(s, 56, Le16(h.segments))
    ensures At(s, 58, Le16(0)) && At(s, 60, Le16(0)) && At(s, 62, Le16(0))
  {
    hide Le16, Le32, Le64, Get16, Get32, Get64, At;
    var phoff := if h.segments > 0 then EHDR_SIZE else 0;
    var phentsize := if h.segments > 0 then PHDR_SIZE else 0;
    var c := (Le16(h.segments) + Le16(0)) + (Le16(0) + Le16(0));
    var b3 := Le32(h.flags) + (Le16(EHDR_SIZE) + Le16(phentsize));
    var b := b3 + c;
    var a2 := (Le64(0) + Le64(phoff)) + Le64(0);
    var a := a2 + b;
    var z := (Le16(ET_CORE) + Le16(h.machine)) + Le32(EV_CURRENT);
    AtParts(s, 0, IDENT, z + a);
    AtParts(s, 16, z, a);
    AtParts(s, 16, Le16(ET_CORE) + Le16(h.machine), Le32(EV_CURRENT));
    AtParts(s, 16, Le16(ET_CORE), Le16(h.machine));
    AtParts(s, 24, a2, b);
    AtParts(s, 24, Le64(0) + Le64(phoff), Le64(0));
    AtParts(s, 24, Le64(0), Le64(phoff));
    AtParts(s, 48, b3, c);
    AtParts(s, 48, Le32(h.flags), Le16(EHDR_SIZE) + Le16(phentsize));
    AtParts(s, 52, Le16(EHDR_SIZE), Le16(phentsize));
    AtParts(s, 56, Le16(h.segments) + Le16(0), Le16(0) + Le16(0));
    AtParts(s, 56, Le16(h.segments), Le16(0));
    AtParts(s, 60, Le16(0), Le16(0));
    EhdrFits(s, h);
  }

  lemma EhdrFields(s: seq<byte>, h: Ehdr)
    requires At(s, 0, EhdrBytes(h))
    ensures |s| >= EHDR_SIZE
    ensures Machine(s) == h.machine && Flags(s) == h.flags && PhNum(s) == h.segments
    ensures PhOff(s) == if h.segments > 0 then EHDR_SIZE else 0
    ensures Get16(s, 54) == if h.segments > 0 then PHDR_SIZE else 0
    ensures Get16(s, 16) == ET_CORE && Get32(s, 20) == EV_CURRENT && Get16(s, 52) == EHDR_SIZE
    ensures At(s, 0, IDENT)
  {
    hide Le16, Le32, Le64, Get16, Get32, Get64, At, EhdrBytes;
    EhdrPlaces(s, h);
    At16(s, 16, ET_CORE);
    At16(s, 18, h.machine);
    At32(s, 20, EV_CURRENT);
    At64(s, 32, if h.segments > 0 then EHDR_SIZE else 0);
    At32(s, 48, h.flags);
    At16(s, 52, EHDR_SIZE);
    At16(s, 54, if h.segments > 0 then PHDR_SIZE else 0);
    At16(s, 56, h.segments);
  }

  /** A written file header byte by byte, numbers by their bytes: everything that is not chosen is fixed. */
  lemma EhdrBytesMean(s: seq<byte>, h: Ehdr)
    requires At(s, 0, EhdrBytes(h))
    ensures |s| >= 64
    ensures s[0..16] == [0x7F, 0x45, 0x4C, 0x46, 2, 1, 1, 0, 0, 0, 0, 0, 0, 0, 0, 0]
    ensures LittleEndian(s, 16, 2) == 4 && LittleEndian(s, 18, 2) == h.machine && LittleEndian(s, 20, 4) == 1
    ensures LittleEndian(s, 24, 8) == 0
    ensures LittleEndian(s, 32, 8) == if h.segments > 0 then 64 else 0
    ensures LittleEndian(s, 40, 8) == 0 && LittleEndian(s, 48, 4) == h.flags && LittleEndian(s, 52, 2) == 64
    ensures LittleEndian(s, 54, 2) == if h.segments > 0 then 56 else 0
    ensures LittleEndian(s, 56, 2) == h.segments
    ensures LittleEndian(s, 58, 2) == 0 && LittleEndian(s, 60, 2) == 0 && LittleEndian(s, 62, 2) == 0
  {
    hide Le16, Le32, Le64, Get16, Get32, Get64, At, EhdrBytes, LittleEndian;
    EhdrPlaces(s, h);
    EhdrFields(s, h);
    AtIdent(s);
    At64(s, 24, 0);
    At64(s, 40, 0);
    At16(s, 58, 0);
    At16(s, 60, 0);
    At16(s, 62, 0);
    TwoBytes(s, 16);
    TwoBytes(s, 18);
    FourBytes(s, 20);
    EightBytes(s, 24);
    EightBytes(s, 32);
    EightBytes(s, 40);
    FourBytes(s, 48);
    TwoBytes(s, 52);
    TwoBytes(s, 54);
    TwoBytes(s, 56);
    TwoBytes(s, 58);
    TwoBytes(s, 60);
    TwoBytes(s, 62);
  }

  lemma AtIdent(s: seq<byte>)
    requires At(s, 0, IDENT)
    ensures |s| >= 16 && s[0..16] == [0x7F, 0x45, 0x4C, 0x46, 2, 1, 1, 0, 0, 0, 0, 0, 0, 0, 0, 0]
  {
  }

  /** What the reader takes for a core dump, and so what it rejects, by bytes. */
  lemma ValidCoreByBytes(s: seq<byte>)
    ensures IsValidCoreElf(s) <==>
            && |s| >= 64
            && s[0] == 0x7F && s[1] == 0x45 && s[2] == 0x4C && s[3] == 0x46 && s[4] == 2
            && LittleEndian(s, 16, 2) == 4 && LittleEndian(s, 20, 4) == 1
            && LittleEndian(s, 52, 2) == 64 && LittleEndian(s, 54, 2) == 56
  {
    hide LittleEndian, Get16, Get32;
    if |s| >= 64 {
      TwoBytes(s, 16);
      FourBytes(s, 20);
      TwoBytes(s, 52);
      TwoBytes(s, 54);
    }
  }

  /** Where the reader takes the other fields from. */
  lemma FieldsByBytes(s: seq<byte>)
    requires |s| >= 64
    ensures Machine(s) == LittleEndian(s, 18, 2) && Flags(s) == LittleEndian(s, 48, 4)
    ensures PhOff(s) == LittleEndian(s, 32, 8) && PhNum(s) == LittleEndian(s, 56, 2)
  {
    hide LittleEndian, Get16, Get32, Get64;
    TwoBytes(s, 18);
    FourBytes(s, 48);
    EightBytes(s, 32);
    TwoBytes(s, 56);
  }

  /** And a segment header's. */
  lemma PhdrByBytes(s: seq<byte>, i: nat)
    requires i + 56 <= |s|
    ensures var p := ParsePhdr(s, i);
            && p.kind == LittleEndian(s, i, 4) && p.flags == LittleEndian(s, i + 4, 4)
            && p.offset == LittleEndian(s, i + 8, 8) && p.vaddr == LittleEndian(s, i + 16, 8)
            && p.paddr == LittleEndian(s, i + 24, 8) && p.filesz == LittleEndian(s, i + 32, 8)
            && p.memsz == LittleEndian(s, i + 40, 8) && p.align == LittleEndian(s, i + 48, 8)
  {
    hide LittleEndian, Get32, Get64;
    FourBytes(s, i);
    FourBytes(s, i + 4);
    EightBytes(s, i + 8);
    EightBytes(s, i + 16);
    EightBytes(s, i + 24);
    EightBytes(s, i + 32);
    EightBytes(s, i + 40);
    EightBytes(s, i + 48);
  }

  lemma EhdrFits(s: seq<byte>, h: Ehdr)
    requires At(s, 0, EhdrBytes(h))
    ensures |s| >= EHDR_SIZE
  {
  }

  /** A header with at least one segment is one that the reader accepts. */
  lemma WrittenHeaderIsValid(s: seq<byte>, h: Ehdr)
    requires At(s, 0, EhdrBytes(h)) && h.segments > 0
    ensures IsValidCoreElf(s)
  {
    EhdrFields(s, h);
    assert s[0..16] == IDENT;
    assert s[0] == s[0..16][0] && s[1] == s[0..16][1] && s[2] == s[0..16][2] && s[3] == s[0..16][3] && s[4] == s[0..16][4];
  }
}
