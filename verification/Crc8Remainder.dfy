/** The checksum as a polynomial remainder over the two-element field. */
module Crc8Remainder {
  import opened Bytes
  import opened Crc8

  /** The lowest `n` bits of a number, least significant first. */
  function LowestBits(v: nat, n: nat): (bits: seq<bool>)
    ensures |bits| == n
  {
    if n == 0 then [] else [v % 2 == 1] + LowestBits(v / 2, n - 1)
  }

  /** The payload as a polynomial: its bits in the order they are sent, the first being the highest coefficient. */
  function Polynomial(data: seq<byte>): (bits: seq<bool>)
    ensures |bits| == 8 * |data|
  {
    if data == [] then [] else LowestBits(data[0], 8) + Polynomial(data[1..])
  }

  const SEVEN_ZEROS: seq<bool> := [false, false, false, false, false, false, false]

  /** Seven coefficients, the highest first. */
  datatype Seven = Seven(c0: bool, c1: bool, c2: bool, c3: bool, c4: bool, c5: bool, c6: bool)

  /** x^7 + x^3 + 1 without its highest coefficient. */
  const GENERATOR_TAIL: Seven := Seven(false, false, false, true, false, false, true)

  const ZERO: Seven := Seven(false, false, false, false, false, false, false)

  function Subtract(a: Seven, b: Seven): Seven {
    Seven(a.c0 != b.c0, a.c1 != b.c1, a.c2 != b.c2, a.c3 != b.c3, a.c4 != b.c4, a.c5 != b.c5, a.c6 != b.c6)
  }

  function Moved(a: Seven, last: bool): Seven {
    Seven(a.c1, a.c2, a.c3, a.c4, a.c5, a.c6, last)
  }

  /** Long division by the generator: `first` are the highest coefficients of what is left, `rest` the others. */
  function Divide(first: Seven, rest: seq<bool>): Seven
    decreases |rest|
  {
    if rest == [] then first
    else if first.c0 then Divide(Subtract(Moved(first, rest[0]), GENERATOR_TAIL), rest[1..])
    else Divide(Moved(first, rest[0]), rest[1..])
  }

  function Remainder(bits: seq<bool>): Seven
    requires |bits| >= 7
  {
    Divide(FirstSeven(bits), bits[7..])
  }

  function FirstSeven(bits: seq<bool>): Seven
    requires |bits| >= 7
  {
    Seven(bits[0], bits[1], bits[2], bits[3], bits[4], bits[5], bits[6])
  }

  /** The number that has these bits, the lowest first. */
  function Number(bits: Seven): nat {
    (if bits.c0 then 1 else 0) + (if bits.c1 then 2 else 0) + (if bits.c2 then 4 else 0) + (if bits.c3 then 8 else 0)
    + (if bits.c4 then 16 else 0) + (if bits.c5 then 32 else 0) + (if bits.c6 then 64 else 0)
  }

  // ---------- a register that takes one bit at a time ----------

  function Turn(w: Seven, bit: bool): Seven {
    if w.c0 != bit then Subtract(Moved(w, false), GENERATOR_TAIL) else Moved(w, false)
  }

  function Feed(w: Seven, bits: seq<bool>): Seven
    decreases |bits|
  {
    if bits == [] then w else Feed(Turn(w, bits[0]), bits[1..])
  }

  lemma {:induction false} FeedConcat(w: Seven, a: seq<bool>, b: seq<bool>)
    ensures Feed(w, a + b) == Feed(Feed(w, a), b)
    decreases |a|
  {
    hide Turn;
    if a == [] {
      assert a + b == b;
    } else {
      assert (a + b)[1..] == a[1..] + b;
      FeedConcat(Turn(w, a[0]), a[1..], b);
    }
  }

  /** One step of the division, seen from the register. */
  lemma DivisionStep(m: Seven, next: bool, w: Seven)
    ensures var first := Subtract(m, w);
            (if first.c0 then Subtract(Moved(first, next), GENERATOR_TAIL) else Moved(first, next))
            == Subtract(Moved(m, next), Turn(w, m.c0))
  {
  }

  /** Feeding bits is dividing them, moved up by seven places and with the register's content in front. */
  lemma {:induction false} FeedIsDivision(w: Seven, bits: seq<bool>)
    ensures var moved := bits + SEVEN_ZEROS;
            Feed(w, bits) == Divide(Subtract(FirstSeven(moved), w), moved[7..])
    decreases |bits|
  {
    var moved := bits + SEVEN_ZEROS;
    if bits == [] {
      assert FirstSeven(moved) == ZERO && moved[7..] == [];
    } else {
      hide Turn, Subtract, Divide;
      var m := FirstSeven(moved);
      DivisionStep(m, moved[7], w);
      DivideFirst(Subtract(m, w), moved[7..]);
      FeedIsDivision(Turn(w, bits[0]), bits[1..]);
      assert moved[1..] == bits[1..] + SEVEN_ZEROS;
      assert FirstSeven(moved[1..]) == Moved(m, moved[7]);
      assert moved[7..][1..] == moved[1..][7..];
    }
  }

  lemma DivideFirst(first: Seven, rest: seq<bool>)
    requires rest != []
    ensures Divide(first, rest)
            == Divide(if first.c0 then Subtract(Moved(first, rest[0]), GENERATOR_TAIL) else Moved(first, rest[0]), rest[1..])
  {
  }

  // ---------- the register of the code ----------

  function Low(r: bv8): Seven {
    Seven(r & 1 == 1, r & 2 == 2, r & 4 == 4, r & 8 == 8, r & 16 == 16, r & 32 == 32, r & 64 == 64)
  }

  lemma TurnIsShift(r: bv8, b: bv8)
    requires r < 0x80 && b <= 1
    ensures Low(Shift(Plus(r, b))) == Turn(Low(r), b == 1)
    ensures Shift(Plus(r, b)) < 0x80
  {
  }

  /** A byte put into the register at once takes part bit by bit. */
  lemma PeelBit(r: bv8, x: bv8)
    ensures Shift(Plus(r, x)) == Plus(Shift(Plus(r, x & 1)), x >> 1)
    ensures x & 1 <= 1
  {
  }

  lemma {:induction false} ShiftFirst(a: bv8, n: nat)
    ensures Shifts(a, n + 1) == Shifts(Shift(a), n)
  {
    hide Shift;
    if n == 0 {
      assert Shifts(a, 1) == Shift(Shifts(a, 0));
    } else {
      ShiftFirst(a, n - 1);
    }
  }

  lemma HalfValue(x: bv8)
    ensures Value(x >> 1) == Value(x) / 2
    ensures x & 1 == 1 <==> Value(x) % 2 == 1
  {
  }

  function Power(n: nat): nat {
    if n == 0 then 1 else 2 * Power(n - 1)
  }

  lemma ZeroByValue(x: bv8)
    requires Value(x) == 0
    ensures x == 0
  {
    BitsValue(x);
    assert Bits(0) == 0;
  }

  lemma LowestBitFirst(v: nat, n: nat)
    requires n > 0
    ensures var bits := LowestBits(v, n);
            bits != [] && bits[0] == (v % 2 == 1) && bits[1..] == LowestBits(v / 2, n - 1)
  {
  }

  lemma FeedFirst(w: Seven, bits: seq<bool>)
    requires bits != []
    ensures Feed(w, bits) == Feed(Turn(w, bits[0]), bits[1..])
  {
  }

  lemma HalfBelow(v: nat, n: nat)
    requires n > 0 && v < Power(n)
    ensures v / 2 < Power(n - 1)
  {
  }

  lemma PeeledByte(r: bv8, x: bv8, n: nat)
    requires n > 0
    ensures Shifts(Plus(r, x), n) == Shifts(Plus(Shift(Plus(r, x & 1)), x >> 1), n - 1)
  {
    hide Shift, Plus, Shifts;
    ShiftFirst(Plus(r, x), n - 1);
    PeelBit(r, x);
  }

  lemma {:induction false} ShiftsAreTurns(r: bv8, x: bv8, n: nat)
    requires r < 0x80 && Value(x) < Power(n)
    ensures Low(Shifts(Plus(r, x), n)) == Feed(Low(r), LowestBits(Value(x), n))
    decreases n
  {
    if n == 0 {
      ZeroByValue(x);
      assert Plus(r, 0) == r;
    } else {
      hide Shift, Shifts, Plus, Turn, Low, Value, LowestBits, Feed, Power;
      PeeledByte(r, x, n);
      PeelBit(r, x);
      TurnIsShift(r, x & 1);
      HalfValue(x);
      HalfBelow(Value(x), n);
      ShiftsAreTurns(Shift(Plus(r, x & 1)), x >> 1, n - 1);
      LowestBitFirst(Value(x), n);
      FeedFirst(Low(r), LowestBits(Value(x), n));
    }
  }

  lemma PolynomialAppend(data: seq<byte>, b: byte)
    ensures Polynomial(data + [b]) == Polynomial(data) + LowestBits(b, 8)
    decreases |data|
  {
    if data == [] {
      assert ([] + [b])[1..] == [];
    } else {
      assert (data + [b])[1..] == data[1..] + [b];
      PolynomialAppend(data[1..], b);
    }
  }

  lemma {:induction false} RegisterIsFed(data: seq<byte>)
    ensures Low(Register(data)) == Feed(ZERO, Polynomial(data))
    decreases |data|
  {
    if data == [] {
      assert Low(0) == ZERO;
    } else {
      hide Shift, Shifts, Plus, Turn, Low, Bits, Value, LowestBits;
      var init, b := data[..|data| - 1], data[|data| - 1];
      assert data == init + [b];
      RegisterIsFed(init);
      RegisterSmall(init);
      ValueBits(b);
      PowerEight();
      ShiftsAreTurns(Register(init), Bits(b), 8);
      PolynomialAppend(init, b);
      FeedConcat(ZERO, Polynomial(init), LowestBits(b, 8));
    }
  }

  lemma PowerEight()
    ensures Power(8) == 256
  {
    assert Power(4) == 16;
  }

  lemma NumberOfLow(r: bv8)
    requires r < 0x80
    ensures Value(r) == Number(Low(r))
  {
  }

  /**
   * The checksum of any payload is the remainder of its polynomial, times x^7, on division by x^7 + x^3 + 1, the highest
   * coefficient being the lowest bit.
   */
  lemma ChecksumIsRemainder(data: seq<byte>)
    ensures Checksum(data) == Number(Remainder(Polynomial(data) + SEVEN_ZEROS))
  {
    hide Low, Register, Value, Number, Polynomial, Divide, Feed;
    RegisterIsFed(data);
    RegisterSmall(data);
    NumberOfLow(Register(data));
    FeedIsDivision(ZERO, Polynomial(data));
    var moved := Polynomial(data) + SEVEN_ZEROS;
    assert Subtract(FirstSeven(moved), ZERO) == FirstSeven(moved);
  }

  /** The payload of one byte 1 has the checksum 0x41: x^14 leaves x^6 + 1. */
  lemma ChecksumOfOne()
    ensures Checksum([1]) == 0x41
  {
    ChecksumIsRemainder([1]);
    var bits := Polynomial([1]) + SEVEN_ZEROS;
    assert Polynomial([1]) == LowestBits(1, 8) + Polynomial([]);
    OneBits();
    assert bits == [true, false, false, false, false, false, false, false] + SEVEN_ZEROS;
    assert FirstSeven(bits) == Seven(true, false, false, false, false, false, false);
    assert bits[7..] == [false] + SEVEN_ZEROS;
    DivideOne();
  }

  lemma OneBits()
    ensures LowestBits(1, 8) == [true, false, false, false, false, false, false, false]
  {
    assert LowestBits(0, 4) == [false, false, false, false];
    assert LowestBits(0, 7) == [false, false, false] + LowestBits(0, 4);
  }

  lemma DivideOne()
    ensures Divide(Seven(true, false, false, false, false, false, false), [false] + SEVEN_ZEROS)
            == Seven(true, false, false, false, false, false, true)
  {
    var eight := [false] + SEVEN_ZEROS;
    assert eight[1..] == SEVEN_ZEROS;
    var a := Seven(false, false, false, true, false, false, true);
    assert Divide(Seven(true, false, false, false, false, false, false), eight) == Divide(a, eight[1..]);
    var four: seq<bool> := [false, false, false, false];
    assert Divide(a, SEVEN_ZEROS) == Divide(Seven(true, false, false, true, false, false, false), four);
    var three: seq<bool> := [false, false, false];
    assert four[1..] == three;
    assert Divide(Seven(true, false, false, true, false, false, false), four)
           == Divide(Seven(false, false, true, true, false, false, true), three);
    var one: seq<bool> := [false];
    assert three[1..][1..] == one;
    assert Divide(Seven(false, false, true, true, false, false, true), three)
           == Divide(Seven(true, true, false, false, true, false, false), one);
    assert one[1..] == [];
  }
}
