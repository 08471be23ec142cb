/** Bytes, fixed-width words and the byte strings built from them. */
module Bytes {

  newtype byte = x: int | 0 <= x < 0x100

  const ERASED: byte := 0xFF

  function Fill(n: nat, b: byte): (r: seq<byte>)
    ensures |r| == n
    ensures forall i :: 0 <= i < n ==> r[i] == b
  {
    seq(n, _ => b)
  }

  /** Bit i of a number, counted from the least significant one. */
  predicate Bit(n: nat, i: nat)
    decreases i
  {
    if i == 0 then n % 2 == 1 else Bit(n / 2, i - 1)
  }

  /** Bitwise conjunction. */
  function AndBits(a: nat, b: nat): (r: nat)
    ensures r <= b
    decreases b
  {
    if b == 0 then 0 else (if a % 2 == 1 && b % 2 == 1 then 1 else 0) + 2 * AndBits(a / 2, b / 2)
  }

  /** A flash cell can only lose bits when it is programmed. */
  function And(a: byte, b: byte): byte {
    AndBits(a as nat, b as nat) as byte
  }

  lemma {:induction false} AndOnes(ones: nat, b: nat, weight: nat)
    requires ones + 1 == weight && b < weight && PowerOfTwo(weight)
    ensures AndBits(ones, b) == b
    decreases b
  {
    if b > 0 {
      assert weight % 2 == 0 && ones % 2 == 1 && ones / 2 + 1 == weight / 2;
      AndOnes(ones / 2, b / 2, weight / 2);
    }
  }

  lemma {:induction false} AndIsBitwise(a: nat, b: nat, i: nat)
    ensures Bit(AndBits(a, b), i) == (Bit(a, i) && Bit(b, i))
    decreases i
  {
    if b == 0 {
      NoBits(i);
    } else if i > 0 {
      AndIsBitwise(a / 2, b / 2, i - 1);
    }
  }

  lemma {:induction false} NoBits(i: nat)
    ensures !Bit(0, i)
    decreases i
  {
    if i > 0 {
      NoBits(i - 1);
    }
  }

  predicate PowerOfTwo(n: nat) {
    n == 1 || (n > 1 && n % 2 == 0 && PowerOfTwo(n / 2))
  }

  /** Bitwise exclusive or. */
  function XorBits(a: nat, b: nat): nat
    decreases a + b
  {
    if a == 0 then b else if b == 0 then a
    else (if a % 2 == b % 2 then 0 else 1) + 2 * XorBits(a / 2, b / 2)
  }

  lemma {:induction false} XorIsBitwise(a: nat, b: nat, i: nat)
    ensures Bit(XorBits(a, b), i) == (Bit(a, i) != Bit(b, i))
    decreases i
  {
    if a == 0 || b == 0 {
      NoBits(i);
    } else if i > 0 {
      XorIsBitwise(a / 2, b / 2, i - 1);
    }
  }

  lemma {:induction false} XorCommutes(a: nat, b: nat)
    ensures XorBits(a, b) == XorBits(b, a)
    decreases a
  {
    if a > 0 && b > 0 {
      XorCommutes(a / 2, b / 2);
    }
  }

  lemma {:induction false} XorAssociates(a: nat, b: nat, c: nat)
    ensures XorBits(XorBits(a, b), c) == XorBits(a, XorBits(b, c))
    decreases a
  {
    if a > 0 && b > 0 && c > 0 {
      var ab, bc := XorBits(a, b), XorBits(b, c);
      XorHalves(a, b);
      XorHalves(b, c);
      XorHalves(ab, c);
      XorHalves(a, bc);
      XorAssociates(a / 2, b / 2, c / 2);
    }
  }

  lemma XorHalves(a: nat, b: nat)
    ensures XorBits(a, b) / 2 == XorBits(a / 2, b / 2)
    ensures XorBits(a, b) % 2 == if a % 2 == b % 2 then 0 else 1
  {}

  lemma {:induction false} XorSelf(a: nat)
    ensures XorBits(a, a) == 0
    decreases a
  {
    if a > 0 {
      XorSelf(a / 2);
    }
  }

  /** Doubling and the lowest bit. */
  lemma XorDouble(a: nat, b: nat, i: nat, j: nat)
    requires i < 2 && j < 2
    ensures XorBits(2 * a + i, 2 * b + j) == 2 * XorBits(a, b) + if i == j then 0 else 1
  {}

  /** The bits from `w` on: nothing comes out there but what went in. */
  lemma {:induction false} XorTop(w: nat, a: nat, b: nat)
    requires PowerOfTwo(w)
    ensures a < w && b < w ==> XorBits(a, b) < w
    ensures w <= a && b < w ==> XorBits(a, b) >= w
    ensures w <= a < 2 * w && w <= b < 2 * w ==> XorBits(a, b) < w
    ensures w <= a < 2 * w && b < w ==> XorBits(a, b) < 2 * w
    decreases w
  {
    if w > 1 {
      XorTop(w / 2, a / 2, b / 2);
    }
  }

  /** Where no bits meet, exclusive or is addition. */
  lemma {:induction false} XorApart(w: nat, p: nat, high: nat, a: nat)
    requires PowerOfTwo(w) && high == w * p && a < w
    ensures XorBits(high, a) == high + a
    decreases w
  {
    if w > 1 {
      HalfProduct(w, p, high);
      XorApart(w / 2, p, high / 2, a / 2);
      XorHalves(high, a);
    } else {
      XorCommutes(high, 0);
    }
  }

  lemma HalfProduct(w: nat, p: nat, high: nat)
    requires w % 2 == 0 && high == w * p
    ensures high % 2 == 0 && high / 2 == w / 2 * p
  {
    assert w * p == 2 * (w / 2 * p);
  }

  /** The bits from `w` on are left alone when what is added lies below it. */
  lemma XorUpper(w: nat, p: nat, a: nat, b: nat)
    requires PowerOfTwo(w) && a < w && b < w
    ensures XorBits(w * p + a, b) == w * p + XorBits(a, b)
  {
    XorTop(w, a, b);
    XorApart(w, p, w * p, a);
    XorApart(w, p, w * p, XorBits(a, b));
    XorAssociates(w * p, a, b);
  }

  /** Adding the same on both sides changes nothing. */
  lemma XorCancel(g: nat, a: nat, b: nat)
    ensures XorBits(XorBits(g, a), XorBits(b, g)) == XorBits(a, b)
  {
    XorAssociates(XorBits(g, a), g, b);
    XorCommutes(b, g);
    XorCommutes(g, a);
    XorAssociates(a, g, g);
    XorSelf(g);
    XorCommutes(a, 0);
  }

  lemma XorSwap(a: nat, b: nat, c: nat, d: nat)
    ensures XorBits(XorBits(a, b), XorBits(c, d)) == XorBits(XorBits(a, c), XorBits(b, d))
  {
    XorAssociates(XorBits(a, b), c, d);
    XorAssociates(a, b, c);
    XorCommutes(b, c);
    XorAssociates(a, c, b);
    XorAssociates(XorBits(a, c), b, d);
  }

  /** What was added once is taken away by adding it again. */
  lemma XorTwice(a: nat, b: nat)
    ensures XorBits(XorBits(a, b), b) == a
  {
    XorAssociates(a, b, b);
    XorSelf(b);
    XorCommutes(a, 0);
  }

  /** Two numbers with the same leading bit. */
  lemma XorBoth(w: nat, a: nat, b: nat)
    requires PowerOfTwo(w) && a < w && b < w
    ensures XorBits(w + a, w + b) == XorBits(a, b)
  {
    XorApart(w, 1, w, a);
    XorApart(w, 1, w, b);
    XorCommutes(w, b);
    XorCancel(w, a, b);
  }

  /** The bitwise complement of a byte. */
  function Complement(b: byte): byte {
    0xFF - b
  }

  lemma {:induction false} XorOnes(ones: nat, b: nat, weight: nat)
    requires ones + 1 == weight && b < weight && PowerOfTwo(weight)
    ensures XorBits(ones, b) == ones - b
    decreases b
  {
    if b > 0 {
      assert weight % 2 == 0 && ones % 2 == 1 && ones / 2 + 1 == weight / 2;
      XorOnes(ones / 2, b / 2, weight / 2);
    }
  }

  /** Complementing is the exclusive or with 0xFF. */
  lemma ComplementIsXor(b: byte)
    ensures Complement(b) as nat == XorBits(0xFF, b as nat)
  {
    Powers();
    XorOnes(0xFF, b as nat, 0x100);
  }

  lemma Powers()
    ensures PowerOfTwo(0x80) && PowerOfTwo(0x100)
    ensures PowerOfTwo(0x8000) && PowerOfTwo(0x1_0000) && PowerOfTwo(0x2_0000)
  {
    assert PowerOfTwo(4);
    assert PowerOfTwo(0x10);
    assert PowerOfTwo(0x40);
    assert PowerOfTwo(0x100);
    assert PowerOfTwo(0x400);
    assert PowerOfTwo(0x1000);
    assert PowerOfTwo(0x4000);
  }

  lemma AndErased(b: byte)
    ensures And(ERASED, b) == b
  {
    Powers();
    AndOnes(0xFF, b as nat, 0x100);
  }

  /** Multi-byte integers are stored least significant byte first. */
  function Le16(lo: byte, hi: byte): nat {
    lo as nat + 0x100 * hi as nat
  }

  function Le32(b0: byte, b1: byte, b2: byte, b3: byte): nat {
    b0 as nat + 0x100 * b1 as nat + 0x1_0000 * b2 as nat + 0x100_0000 * b3 as nat
  }
}
