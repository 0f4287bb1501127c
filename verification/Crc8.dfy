/** The 8-bit checksum of a payload: a shift register with feedback 0x91, least significant bit first. */
module Crc8 {
  import opened Bytes

  function Bits(b: byte): bv8 { b as bv8 }

  function Value(x: bv8): byte { x as int }

  function Plus(a: bv8, b: bv8): bv8 { a ^ b }

  /** One turn of the inner loop. */
  function Shift(crc: bv8): bv8 {
    (if crc & 1 == 1 then crc ^ 0x91 else crc) >> 1
  }

  function Shifts(crc: bv8, n: nat): bv8 {
    if n == 0 then crc else Shift(Shifts(crc, n - 1))
  }

  /** The register after all of `data`, starting from 0. */
  function Register(data: seq<byte>): bv8 {
    if data == [] then 0 else Shifts(Plus(Register(data[..|data| - 1]), Bits(data[|data| - 1])), 8)
  }

  function Checksum(data: seq<byte>): byte {
    Value(Register(data))
  }

  method Compute(data: seq<byte>) returns (sum: byte)
    ensures sum == Checksum(data)
  {
    var crc: bv8 := 0;
    for i := 0 to |data|
      invariant crc == Register(data[..i])
    {
      crc := crc ^ Bits(data[i]);
      ghost var start := crc;
      for j := 0 to 8
        invariant crc == Shifts(start, j)
      {
        if crc & 1 == 1 {
          crc := crc ^ 0x91;
        }
        crc := crc >> 1;
      }
      assert data[..i + 1][..i] == data[..i];
    }
    assert data[..|data|] == data;
    sum := Value(crc);
  }

  // ---------- the bit-level facts ----------

  lemma BitsValue(x: bv8)
    ensures Bits(Value(x)) == x
  {
  }

  lemma ValueSucc(x: bv8)
    requires x != 0xFF
    ensures Value(x + 1) == Value(x) + 1
  {
  }

  lemma ValueExtremes()
    ensures Value(0) == 0 && Value(0xFF) == 0xFF
  {
  }

  /** Every byte is the value of some bit pattern, found by counting up. */
  lemma {:induction false} Pattern(b: byte) returns (x: bv8)
    ensures Value(x) == b
  {
    hide Value;
    ValueExtremes();
    if b == 0 {
      x := 0;
    } else {
      x := Pattern(b - 1);
      ValueSucc(x);
      x := x + 1;
    }
  }

  lemma ValueBits(b: byte)
    ensures Value(Bits(b)) == b
  {
    hide Value, Bits;
    var x := Pattern(b);
    BitsValue(x);
  }

  lemma ValueSmall(x: bv8)
    requires x < 0x80
    ensures Value(x) < 0x80
  {
  }

  lemma ShiftLinear(a: bv8, b: bv8)
    ensures Shift(Plus(a, b)) == Plus(Shift(a), Shift(b))
  {
  }

  lemma PlusAssociates(a: bv8, b: bv8, c: bv8)
    ensures Plus(Plus(a, b), c) == Plus(a, Plus(b, c))
    ensures Plus(b, c) == Plus(c, b)
  {
  }

  lemma PlusSwap(a: bv8, b: bv8, c: bv8, d: bv8)
    ensures Plus(Plus(a, b), Plus(c, d)) == Plus(Plus(a, c), Plus(b, d))
  {
    hide Plus;
    calc {
      Plus(Plus(a, b), Plus(c, d));
      { PlusAssociates(a, b, Plus(c, d)); }
      Plus(a, Plus(b, Plus(c, d)));
      { PlusAssociates(b, c, d); PlusAssociates(a, b, c); PlusAssociates(c, b, d); }
      Plus(a, Plus(c, Plus(b, d)));
      { PlusAssociates(a, c, Plus(b, d)); }
      Plus(Plus(a, c), Plus(b, d));
    }
  }

  lemma PlusCancels(a: bv8, b: bv8, d: bv8)
    ensures Plus(Plus(a, d), Plus(b, d)) == Plus(a, b)
    ensures Plus(Plus(d, a), Plus(d, b)) == Plus(a, b)
    ensures Plus(a, b) == 0 <==> a == b
    ensures a < 0x80 && b < 0x80 ==> Plus(a, b) < 0x80
  {
  }

  lemma {:induction false} ShiftsLinear(a: bv8, b: bv8, n: nat)
    ensures Shifts(Plus(a, b), n) == Plus(Shifts(a, n), Shifts(b, n))
  {
    hide Plus, Shift;
    if n > 0 {
      ShiftsLinear(a, b, n - 1);
      ShiftLinear(Shifts(a, n - 1), Shifts(b, n - 1));
    }
  }

  lemma UnrollShifts(a: bv8)
    ensures Shifts(a, 8) == Shift(Shift(Shift(Shift(Shift(Shift(Shift(Shift(a))))))))
  {
    hide Shift;
    assert Shifts(a, 1) == Shift(a);
    assert Shifts(a, 3) == Shift(Shift(Shifts(a, 1)));
    assert Shifts(a, 5) == Shift(Shift(Shifts(a, 3)));
    assert Shifts(a, 7) == Shift(Shift(Shifts(a, 5)));
  }

  /** Eight shifts lose exactly one difference, 0x91, and leave the top bit clear. */
  lemma ShiftsKernel(a: bv8)
    ensures Shifts(a, 8) == 0 <==> a == 0 || a == 0x91
    ensures Shifts(a, 8) < 0x80
  {
    UnrollShifts(a);
  }

  lemma RegisterSmall(data: seq<byte>)
    ensures Register(data) < 0x80
  {
    hide Plus, Shift, Shifts, Bits;
    if data != [] {
      ShiftsKernel(Plus(Register(data[..|data| - 1]), Bits(data[|data| - 1])));
    }
  }

  // ---------- what the checksum guarantees ----------

  /** The top bit of a checksum is never set. */
  lemma ChecksumBelow(data: seq<byte>)
    ensures Checksum(data) < 0x80
  {
    RegisterSmall(data);
    ValueSmall(Register(data));
  }

  function Xor(a: byte, b: byte): byte {
    Value(Plus(Bits(a), Bits(b)))
  }

  function XorAll(a: seq<byte>, b: seq<byte>): (c: seq<byte>)
    requires |a| == |b|
    ensures |c| == |a|
    ensures forall i :: 0 <= i < |a| ==> c[i] == Xor(a[i], b[i])
  {
    seq(|a|, i requires 0 <= i < |a| => Xor(a[i], b[i]))
  }

  lemma {:induction false} RegisterLinear(a: seq<byte>, b: seq<byte>)
    requires |a| == |b|
    ensures Register(XorAll(a, b)) == Plus(Register(a), Register(b))
  {
    if a == [] {
      assert Plus(0, 0) == 0;
    } else {
      hide Plus, Shift, Shifts, Bits, Value;
      var n := |a| - 1;
      assert XorAll(a, b)[..n] == XorAll(a[..n], b[..n]);
      RegisterLinear(a[..n], b[..n]);
      BitsValue(Plus(Bits(a[n]), Bits(b[n])));
      PlusSwap(Register(a[..n]), Register(b[..n]), Bits(a[n]), Bits(b[n]));
      ShiftsLinear(Plus(Register(a[..n]), Bits(a[n])), Plus(Register(b[..n]), Bits(b[n])), 8);
    }
  }

  /** The checksum of an XOR is the XOR of the checksums, whatever the length. */
  lemma ChecksumIsXorLinear(a: seq<byte>, b: seq<byte>)
    requires |a| == |b|
    ensures Checksum(XorAll(a, b)) == Xor(Checksum(a), Checksum(b))
  {
    hide Plus, Bits, Value;
    RegisterLinear(a, b);
    BitsValue(Register(a));
    BitsValue(Register(b));
  }

  /** Registers that differ keep differing when the same byte follows, as long as both are below 0x80. */
  lemma AbsorbInjective(a: bv8, b: bv8, d: bv8)
    requires a < 0x80 && b < 0x80
    ensures Shifts(Plus(a, d), 8) == Shifts(Plus(b, d), 8) <==> a == b
  {
    hide Plus, Shift, Shifts;
    ShiftsLinear(Plus(a, d), Plus(b, d), 8);
    PlusCancels(a, b, d);
    ShiftsKernel(Plus(a, b));
    PlusCancels(Shifts(Plus(a, d), 8), Shifts(Plus(b, d), 8), 0);
  }

  lemma LastByte(r: bv8, x: bv8, y: bv8)
    ensures Shifts(Plus(r, x), 8) == Shifts(Plus(r, y), 8) <==> x == y || Plus(x, y) == 0x91
  {
    hide Plus, Shift, Shifts;
    ShiftsLinear(Plus(r, x), Plus(r, y), 8);
    PlusCancels(x, y, r);
    ShiftsKernel(Plus(x, y));
    PlusCancels(Shifts(Plus(r, x), 8), Shifts(Plus(r, y), 8), 0);
  }

  lemma {:induction false} RegisterCorruption(data: seq<byte>, i: nat, b: byte)
    requires i < |data|
    ensures Register(data[i := b]) == Register(data)
            <==> Bits(b) == Bits(data[i]) || Plus(Bits(b), Bits(data[i])) == 0x91
    decreases |data|
  {
    hide Plus, Shift, Shifts, Bits;
    var n := |data| - 1;
    var bad := data[i := b];
    if i < n {
      assert bad[..n] == data[..n][i := b];
      RegisterCorruption(data[..n], i, b);
      RegisterSmall(data[..n]);
      RegisterSmall(bad[..n]);
      AbsorbInjective(Register(bad[..n]), Register(data[..n]), Bits(data[n]));
    } else {
      assert bad[..n] == data[..n];
      LastByte(Register(data[..n]), Bits(b), Bits(data[n]));
    }
  }

  /** A single corrupted byte goes unnoticed exactly when it differs by 0x91 (or not at all). */
  lemma SingleByteCorruption(data: seq<byte>, i: nat, b: byte)
    requires i < |data|
    ensures Checksum(data[i := b]) == Checksum(data) <==> b == data[i] || Xor(b, data[i]) == 0x91
  {
    RegisterCorruption(data, i, b);
    BitsValue(Register(data));
    BitsValue(Register(data[i := b]));
    ValueBits(b);
    ValueBits(data[i]);
    BitsValue(Plus(Bits(b), Bits(data[i])));
    Difference();
    hide Plus, Shift, Shifts, Bits, Value;
  }

  lemma Difference()
    ensures Value(0x91) == 0x91 && Bits(0x91) == 0x91
  {
  }
}
