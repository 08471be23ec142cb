/** The CRC-16 and CRC-8 of the utilities library (libraries/utilities/CheckSumUtils.c).

    A polynomial over the two-element field is a number with one bit per coefficient: adding is `XorBits`. */
module Checksums {
  import opened Bytes

  newtype word = x: int | 0 <= x < 0x1_0000

  /** The polynomial by which the CRC-16 divides; its leading coefficient lies just beyond the 16-bit register. */
  const GENERATOR: nat := 0x1_1021

  /** The register after one more message bit: shifted left, and reduced when its top bit falls out. */
  function ShiftIn(crc: word, bit: nat): word
    requires bit < 2
  {
    var shifted := 2 * (crc as nat) + bit;
    Powers();
    XorTop(0x1_0000, shifted, GENERATOR);
    if crc >= 0x8000 then XorBits(shifted, GENERATOR) as word else shifted as word
  }

  /** The register after all the bits behind the leading one of `marked`, most significant first. */
  function ShiftAll(crc: word, marked: nat): word {
    if marked <= 1 then crc else ShiftIn(ShiftAll(crc, marked / 2), marked % 2)
  }

  function UpdateByte(crc: word, b: byte): word {
    ShiftAll(crc, 0x100 + b as nat)
  }

  /** CRC16_Update */
  function Update(crc: word, data: seq<byte>): word
    decreases |data|
  {
    if data == [] then crc else Update(UpdateByte(crc, data[0]), data[1..])
  }

  /** CRC16_Final appends two zero bytes. */
  function Final(crc: word): word {
    Update(crc, Fill(2, 0))
  }

  function Crc16(data: seq<byte>): word {
    Final(Update(0, data))
  }

  /** UpdateCRC16, with registers that are wider than the checksum: what has left the lower half stays where it is. */
  method UpdateCRC16(crcIn: word, b: byte) returns (result: word)
    ensures result == UpdateByte(crcIn, b)
  {
    var crc, input := crcIn as nat, 0x100 + b as nat;
    ghost var high: nat, turns: nat := 0, 0;
    while input / 0x1_0000 % 2 == 0
      invariant turns <= 8 && input == Doubled(0x100 + b as nat, turns)
      invariant crc == 0x1_0000 * high + ShiftAll(crcIn, input / 0x100) as nat
      decreases 8 - turns
    {
      Marker(0x100 + b as nat, turns);
      NextBit(crcIn, input);
      ghost var register := ShiftAll(crcIn, input / 0x100);
      input := 2 * input;
      var bit := input / 0x100 % 2;
      crc := 2 * crc + bit;
      high := WideShift(register, bit, high, crc);
      if crc / 0x1_0000 % 2 == 1 {
        crc := XorBits(crc, 0x1021);
      }
      turns := turns + 1;
    }
    Marker(0x100 + b as nat, turns);
    Halves(high, UpdateByte(crcIn, b) as nat);
    return (crc % 0x1_0000) as word;
  }

  lemma Halves(high: nat, low: nat)
    requires low < 0x1_0000
    ensures (0x1_0000 * high + low) / 0x1_0000 == high && (0x1_0000 * high + low) % 0x1_0000 == low
  {}

  function Doubled(n: nat, times: nat): nat {
    if times == 0 then n else 2 * Doubled(n, times - 1)
  }

  /** The bit set in front of the byte tells when all of it is shifted out. */
  lemma Marker(marked: nat, turns: nat)
    requires turns <= 8 && 0x100 <= marked < 0x200
    ensures Doubled(marked, turns) >= 0x100
    ensures turns < 8 <==> Doubled(marked, turns) / 0x1_0000 % 2 == 0
    ensures turns == 8 ==> Doubled(marked, turns) / 0x100 == marked
  {
    assert Doubled(marked, 2) == 2 * Doubled(marked, 1) == 4 * Doubled(marked, 0);
    assert Doubled(marked, 4) == 2 * Doubled(marked, 3) == 0x10 * marked;
    assert Doubled(marked, 6) == 2 * Doubled(marked, 5) == 0x40 * marked;
    assert Doubled(marked, 8) == 2 * Doubled(marked, 7) == 0x100 * marked;
  }

  lemma NextBit(crc: word, input: nat)
    requires input >= 0x100
    ensures ShiftAll(crc, 2 * input / 0x100) == ShiftIn(ShiftAll(crc, input / 0x100), 2 * input / 0x100 % 2)
  {
    assert 2 * input / 0x100 / 2 == input / 0x100;
  }

  /** Shifting and reducing the lower half of a wide register. */
  lemma WideShift(register: word, bit: nat, high: nat, shifted: nat) returns (next: nat)
    requires bit < 2 && shifted == 0x2_0000 * high + (2 * (register as nat) + bit)
    ensures Wide(shifted) == 0x1_0000 * next + ShiftIn(register, bit) as nat
  {
    var low := 2 * (register as nat) + bit;
    ShiftCases(register, bit);
    if low < 0x1_0000 {
      WideEven(shifted, high, low);
      return 2 * high;
    } else {
      WideOdd(shifted, high, low);
      return 2 * high + 1;
    }
  }

  lemma ShiftCases(crc: word, bit: nat)
    requires bit < 2
    ensures var low := 2 * (crc as nat) + bit;
            ShiftIn(crc, bit) as nat == if low < 0x1_0000 then low else XorBits(low, GENERATOR)
  {}

  function Wide(shifted: nat): nat {
    if shifted / 0x1_0000 % 2 == 1 then XorBits(shifted, 0x1021) else shifted
  }

  lemma WideEven(shifted: nat, high: nat, low: nat)
    requires low < 0x1_0000 && shifted == 0x2_0000 * high + low
    ensures Wide(shifted) == 0x2_0000 * high + low
  {
    Halves(2 * high, low);
  }

  lemma WideOdd(shifted: nat, high: nat, low: nat)
    requires 0x1_0000 <= low < 0x2_0000 && shifted == 0x2_0000 * high + low
    ensures Wide(shifted) == 0x2_0000 * high + 0x1_0000 + XorBits(low, GENERATOR)
  {
    var top := 2 * high + 1;
    Halves(top, low - 0x1_0000);
    Reduced(top, low - 0x1_0000);
    assert shifted == 0x1_0000 * top + (low - 0x1_0000);
  }

  lemma Reduced(high: nat, low: nat)
    requires low < 0x1_0000
    ensures XorBits(0x1_0000 * high + low, 0x1021) == 0x1_0000 * high + XorBits(0x1_0000 + low, GENERATOR)
  {
    Powers();
    XorUpper(0x1_0000, high, low, 0x1021);
    XorBoth(0x1_0000, low, 0x1021);
  }

  /** A checksum may be taken chunk by chunk. */
  lemma {:induction false} UpdateConcat(crc: word, a: seq<byte>, b: seq<byte>)
    ensures Update(crc, a + b) == Update(Update(crc, a), b)
    decreases |a|
  {
    if a == [] {
      assert a + b == b;
    } else {
      assert (a + b)[1..] == a[1..] + b;
      UpdateConcat(UpdateByte(crc, a[0]), a[1..], b);
    }
  }

  /** Multiplication of polynomials. */
  function Times(q: nat, g: nat): nat {
    if q == 0 then 0 else XorBits(if q % 2 == 1 then g else 0, 2 * Times(q / 2, g))
  }

  /** A byte string as a polynomial, its first bit the leading coefficient. */
  function Poly(data: seq<byte>): nat
    decreases |data|
  {
    if data == [] then 0 else 0x100 * Poly(data[..|data| - 1]) + data[|data| - 1] as nat
  }

  /** `p` is a multiple of `g` and `r`. */
  ghost predicate Leaves(p: nat, g: nat, r: nat) {
    exists q: nat :: p == XorBits(Times(q, g), r)
  }

  /** `r` is what division of `p` by the generator leaves. */
  ghost predicate Remainder(p: nat, r: nat) {
    r < 0x1_0000 && Leaves(p, GENERATOR, r)
  }

  lemma ShiftRemainder(p: nat, crc: word, bit: nat)
    requires Remainder(p, crc as nat) && bit < 2
    ensures Remainder(2 * p + bit, ShiftIn(crc, bit) as nat)
  {
    var q: nat :| p == XorBits(Times(q, GENERATOR), crc as nat);
    var shifted := 2 * (crc as nat) + bit;
    XorDouble(Times(q, GENERATOR), crc as nat, 0, bit);
    TimesDoubled(q, shifted);
    ShiftCases(crc, bit);
    var q2 := if shifted < 0x1_0000 then 2 * q else 2 * q + 1;
    assert 2 * p + bit == XorBits(Times(q2, GENERATOR), ShiftIn(crc, bit) as nat);
  }

  /** The quotient takes in a zero bit, or a one bit that the remainder makes up for. */
  lemma TimesDoubled(q: nat, r: nat)
    ensures Times(2 * q, GENERATOR) == 2 * Times(q, GENERATOR)
    ensures XorBits(Times(2 * q + 1, GENERATOR), XorBits(r, GENERATOR)) == XorBits(2 * Times(q, GENERATOR), r)
  {
    var product := 2 * Times(q, GENERATOR);
    assert (2 * q + 1) / 2 == q && Times(2 * q + 1, GENERATOR) == XorBits(GENERATOR, product);
    XorCancel(GENERATOR, product, r);
  }

  lemma {:induction false} ShiftAllRemainder(p: nat, crc: word, marked: nat, w: nat, high: nat)
    requires Remainder(p, crc as nat) && PowerOfTwo(w) && w <= marked < 2 * w && high == w * p
    ensures Remainder(high + marked - w, ShiftAll(crc, marked) as nat)
    decreases w
  {
    if w > 1 {
      HalfProduct(w, p, high);
      ShiftAllRemainder(p, crc, marked / 2, w / 2, high / 2);
      ShiftRemainder(high / 2 + marked / 2 - w / 2, ShiftAll(crc, marked / 2), marked % 2);
    }
  }

  lemma {:induction false} UpdateRemainder(data: seq<byte>)
    ensures Remainder(Poly(data), Update(0, data) as nat)
    decreases |data|
  {
    if data == [] {
      assert 0 == XorBits(Times(0, GENERATOR), 0);
    } else {
      var front, last := data[..|data| - 1], data[|data| - 1];
      UpdateRemainder(front);
      assert data == front + [last];
      UpdateConcat(0, front, [last]);
      LastByte(Update(0, front), last);
      Powers();
      ShiftAllRemainder(Poly(front), Update(0, front), 0x100 + last as nat, 0x100,
                        0x100 * Poly(front));
    }
  }

  lemma LastByte(crc: word, b: byte)
    ensures Update(crc, [b]) == UpdateByte(crc, b)
  {
    assert [b][1..] == [];
  }

  /** Appending two bytes. */
  lemma PolyTwo(data: seq<byte>, hi: byte, lo: byte)
    ensures Poly(data + [hi, lo]) == 0x1_0000 * Poly(data) + 0x100 * hi as nat + lo as nat
  {
    var s := data + [hi, lo];
    assert s[..|s| - 1] == data + [hi];
    assert (data + [hi])[..|data|] == data;
  }

  /** A product that is not zero reaches beyond the register. */
  lemma {:induction false} ProductIsLarge(q: nat)
    requires q > 0
    ensures Times(q, GENERATOR) >= 0x1_0000
  {
    if q == 1 {
      assert Times(q, GENERATOR) == XorBits(GENERATOR, 0);
    } else {
      ProductIsLarge(q / 2);
      Powers();
      XorCommutes(GENERATOR, 2 * Times(q / 2, GENERATOR));
      XorTop(0x2_0000, 2 * Times(q / 2, GENERATOR), GENERATOR);
    }
  }

  lemma {:induction false} TimesAdds(q: nat, q': nat, g: nat)
    ensures Times(XorBits(q, q'), g) == XorBits(Times(q, g), Times(q', g))
    decreases q
  {
    if q > 0 && q' > 0 {
      XorHalves(q, q');
      TimesAdds(q / 2, q' / 2, g);
      var t, t' := Times(q / 2, g), Times(q' / 2, g);
      XorDouble(t, t', 0, 0);
      XorSwap(if q % 2 == 1 then g else 0, 2 * t, if q' % 2 == 1 then g else 0, 2 * t');
      XorSelf(g);
      XorCommutes(g, 0);
      TimesHalves(XorBits(q, q'), g);
    } else {
      XorCommutes(Times(q, g), 0);
      XorCommutes(q, 0);
    }
  }

  lemma TimesHalves(q: nat, g: nat)
    ensures Times(q, g) == XorBits(if q % 2 == 1 then g else 0, 2 * Times(q / 2, g))
  {}

  /** Division leaves one remainder only. */
  lemma RemainderUnique(p: nat, r: nat, r': nat)
    requires Remainder(p, r) && Remainder(p, r')
    ensures r == r'
  {
    var q: nat :| p == XorBits(Times(q, GENERATOR), r);
    var q': nat :| p == XorBits(Times(q', GENERATOR), r');
    XorSwap(Times(q, GENERATOR), r, Times(q', GENERATOR), r');
    XorSelf(p);
    TimesAdds(q, q', GENERATOR);
    var product, sum := Times(XorBits(q, q'), GENERATOR), XorBits(r, r');
    XorTwice(product, sum);
    assert product == sum;
    Powers();
    XorTop(0x1_0000, r, r');
    if XorBits(q, q') > 0 {
      ProductIsLarge(XorBits(q, q'));
    }
    XorTwice(r, r');
  }

  lemma CrcRemainder(data: seq<byte>)
    ensures Remainder(0x1_0000 * Poly(data), Crc16(data) as nat)
  {
    UpdateConcat(0, data, [0, 0]);
    UpdateRemainder(data + [0, 0]);
    PolyTwo(data, 0, 0);
    assert Fill(2, 0) == [0, 0];
  }

  /** The CRC-16 of a message is what division of the message, with sixteen zero bits behind it, by the polynomial
      x^16 + x^12 + x^5 + 1 leaves. */
  lemma CrcIsRemainder(data: seq<byte>, r: word)
    ensures r == Crc16(data) <==> Leaves(0x1_0000 * Poly(data), 0x1_0000 + 0x1000 + 0x20 + 1, r as nat)
  {
    CrcRemainder(data);
    if Leaves(0x1_0000 * Poly(data), GENERATOR, r as nat) {
      RemainderUnique(0x1_0000 * Poly(data), r as nat, Crc16(data) as nat);
    }
  }

  /** With two more bytes behind it a message is divisible if and only if they are its CRC-16, high byte first. */
  lemma Divisible(data: seq<byte>, hi: byte, lo: byte)
    ensures Update(0, data + [hi, lo]) == 0 <==> 0x100 * hi as nat + lo as nat == Crc16(data) as nat
  {
    var p, t, all := 0x1_0000 * Poly(data), 0x100 * hi as nat + lo as nat, data + [hi, lo];
    UpdateRemainder(all);
    PolyTwo(data, hi, lo);
    Powers();
    XorApart(0x1_0000, Poly(data), p, t);
    CrcRemainder(data);
    if t == Crc16(data) as nat {
      Multiple(p, t);
      RemainderUnique(Poly(all), Update(0, all) as nat, 0);
    }
    if Update(0, all) == 0 {
      Rest(p, t);
      RemainderUnique(p, t, Crc16(data) as nat);
    }
  }

  lemma Rest(p: nat, r: nat)
    requires r < 0x1_0000 && Remainder(XorBits(p, r), 0)
    ensures Remainder(p, r)
  {
    var q: nat :| XorBits(p, r) == XorBits(Times(q, GENERATOR), 0);
    XorCommutes(Times(q, GENERATOR), 0);
    XorTwice(p, r);
    assert p == XorBits(Times(q, GENERATOR), r);
  }

  /** Taking the remainder away leaves a multiple. */
  lemma Multiple(p: nat, r: nat)
    requires Remainder(p, r)
    ensures Remainder(XorBits(p, r), 0)
  {
    var q: nat :| p == XorBits(Times(q, GENERATOR), r);
    XorTwice(Times(q, GENERATOR), r);
    XorCommutes(Times(q, GENERATOR), 0);
    assert XorBits(p, r) == XorBits(Times(q, GENERATOR), 0);
  }

  lemma {:induction false} ZeroPoly(n: nat)
    ensures Poly(Fill(n, 0)) == 0
  {
    if n > 0 {
      assert Fill(n, 0)[..n - 1] == Fill(n - 1, 0);
      ZeroPoly(n - 1);
    }
  }

  /** A message of zeros has the checksum zero. */
  lemma CrcOfZeros(n: nat)
    ensures Crc16(Fill(n, 0)) == 0
  {
    ZeroPoly(n);
    CrcRemainder(Fill(n, 0));
    assert XorBits(Times(0, GENERATOR), 0) == 0;
    RemainderUnique(0, Crc16(Fill(n, 0)) as nat, 0);
  }

  /** mico_CRC8_Table, for whatever 256-entry table it is given. */
  function Crc8(table: seq<byte>, crc: byte, data: seq<byte>): byte
    requires |table| == 0x100
    decreases |data|
  {
    if data == [] then crc else Crc8(table, table[Crc8Index(crc, data[0])], data[1..])
  }

  function Crc8Index(crc: byte, b: byte): (r: nat)
    ensures r < 0x100
  {
    Powers();
    XorTop(0x100, crc as nat, b as nat);
    XorBits(crc as nat, b as nat)
  }

  lemma {:induction false} Crc8Concat(table: seq<byte>, crc: byte, a: seq<byte>, b: seq<byte>)
    requires |table| == 0x100
    ensures Crc8(table, crc, a + b) == Crc8(table, Crc8(table, crc, a), b)
    decreases |a|
  {
    if a == [] {
      assert a + b == b;
    } else {
      assert (a + b)[1..] == a[1..] + b;
      Crc8Concat(table, table[Crc8Index(crc, a[0])], a[1..], b);
    }
  }

  /** What the table says of one byte, and that a message with its checksum behind it comes out as the table's first
      entry. */
  lemma Crc8Closed(table: seq<byte>, data: seq<byte>, b: byte)
    requires |table| == 0x100
    ensures Crc8(table, 0, [b]) == table[b]
    ensures Crc8(table, 0, data + [Crc8(table, 0, data)]) == table[0]
  {
    var crc := Crc8(table, 0, data);
    Crc8Concat(table, 0, data, [crc]);
    XorSelf(crc as nat);
    assert [crc][1..] == [] && [b][1..] == [];
  }
}
