/** Which texts Str2Int takes for numbers, and what they stand for (libraries/utilities/StringUtils.c). */
module YmodemNumerals {
  import opened Bytes
  import opened YmodemHeader

  predicate DecimalDigit(c: byte) {
    0x30 <= c <= 0x39
  }

  predicate HexDigit(c: byte) {
    DecimalDigit(c) || 0x41 <= c <= 0x46 || 0x61 <= c <= 0x66
  }

  /** '0'..'9', 'A'..'F', 'a'..'f' */
  function DigitValue(c: byte): nat {
    if 0x61 <= c then (c - 0x57) as nat else if 0x41 <= c then (c - 0x37) as nat
    else if 0x30 <= c then (c - 0x30) as nat else 0
  }

  /** The number that digits stand for. */
  function Value(base: nat, digits: seq<byte>): nat
    decreases |digits|
  {
    if digits == [] then 0 else base * Value(base, digits[..|digits| - 1]) + DigitValue(digits[|digits| - 1])
  }

  /** The suffixes k, K and m, M; a text may also simply end. */
  function Unit(c: byte): nat {
    if c == 0x6B || c == 0x4B then 1024 else if c == 0x6D || c == 0x4D then 1024 * 1024 else if c == 0 then 1 else 0
  }

  /** Up to ten decimal digits, none only if the text is empty, and an ending. */
  predicate DecimalUpTo(s: seq<byte>, k: nat) {
    && k < |s| && k <= 10 && (forall i :: 0 <= i < k ==> DecimalDigit(s[i]))
    && (s[k] == 0 || (k > 0 && Unit(s[k]) > 0))
  }

  /** 0x or 0X and one to eight hexadecimal digits. */
  predicate HexUpTo(s: seq<byte>, k: nat) {
    && 3 <= k < |s| && k <= 10 && s[0] == 0x30 && (s[1] == 0x78 || s[1] == 0x58)
    && (forall i :: 2 <= i < k ==> HexDigit(s[i])) && s[k] == 0
  }

  /** The value kept in 32 bits and read with a sign. */
  function Signed(v: nat): int {
    if v % 0x1_0000_0000 < 0x8000_0000 then v % 0x1_0000_0000 else v % 0x1_0000_0000 - 0x1_0000_0000
  }

  lemma ModStep(base: nat, v: nat, d: nat)
    requires base <= 16
    ensures (base * (v % WORD) + d) % WORD == (base * v + d) % WORD
  {
    var q, r := v / WORD, v % WORD;
    assert base * v == WORD * (base * q) + base * r by {
      assert v == WORD * q + r;
    }
    ModOf(base * q, base * r + d);
  }

  lemma ModOf(q: nat, r: nat)
    ensures (WORD * q + r) % WORD == r % WORD
  {
    var k := r / WORD;
    assert WORD * q + r == WORD * (q + k) + r % WORD;
  }

  lemma ModUnit(v: nat, unit: nat)
    ensures (v % WORD * unit) % WORD == (unit * v) % WORD
  {
    var q, r := v / WORD, v % WORD;
    assert unit * v == WORD * (unit * q) + r * unit by {
      assert v == WORD * q + r;
    }
    ModOf(unit * q, r * unit);
  }

  lemma Last(base: nat, digits: seq<byte>, c: byte)
    ensures Value(base, digits + [c]) == base * Value(base, digits) + DigitValue(c)
  {
    assert (digits + [c])[..|digits|] == digits;
  }

  /** Reading digits accumulates their value modulo 2^32. */
  lemma {:induction false} DecimalsRead(s: seq<byte>, i: nat, k: nat)
    requires i <= k < |s| && k <= 10 && forall j :: i <= j < k ==> DecimalDigit(s[j])
    ensures DecFrom(s, i, Value(10, s[..i]) % WORD) == DecFrom(s, k, Value(10, s[..k]) % WORD)
    decreases k - i
  {
    if i < k {
      assert s[..i + 1] == s[..i] + [s[i]];
      Last(10, s[..i], s[i]);
      ModStep(10, Value(10, s[..i]), DigitValue(s[i]));
      DecimalRead(s, i, Value(10, s[..i]) % WORD);
      DecimalsRead(s, i + 1, k);
    }
  }

  lemma DecimalRead(s: seq<byte>, i: nat, val: nat)
    requires i < |s| && i < 11 && DecimalDigit(s[i])
    ensures DecFrom(s, i, val) == DecFrom(s, i + 1, (10 * val + DigitValue(s[i])) % WORD)
  {}

  lemma {:induction false} HexRead(s: seq<byte>, i: nat, k: nat)
    requires 2 <= i <= k < |s| && k <= 10 && forall j :: i <= j < k ==> HexDigit(s[j])
    ensures HexFrom(s, i, Value(16, s[2..i]) % WORD) == HexFrom(s, k, Value(16, s[2..k]) % WORD)
    decreases k - i
  {
    if i < k {
      assert s[2..i + 1] == s[2..i] + [s[i]];
      Last(16, s[2..i], s[i]);
      ModStep(16, Value(16, s[2..i]), DigitValue(s[i]));
      OneHexRead(s, i, Value(16, s[2..i]) % WORD);
      HexRead(s, i + 1, k);
    }
  }

  lemma OneHexRead(s: seq<byte>, i: nat, val: nat)
    requires i < |s| && i < 11 && HexDigit(s[i])
    ensures HexFrom(s, i, val) == HexFrom(s, i + 1, (16 * val + DigitValue(s[i])) % WORD)
  {}

  /** The values of the two kinds of number. */
  lemma DecimalMeans(s: seq<byte>, k: nat)
    requires DecimalUpTo(s, k)
    ensures NumeralIn(s) == Number(Signed(Unit(s[k]) * Value(10, s[..k])))
  {
    DecimalFirst(s, k);
    DecimalBegins(s, k);
    DecimalEnds(s, k, Value(10, s[..k]) % WORD);
    ModUnit(Value(10, s[..k]), Unit(s[k]));
  }

  lemma DecimalBegins(s: seq<byte>, k: nat)
    requires DecimalUpTo(s, k)
    ensures DecFrom(s, 0, 0) == DecFrom(s, k, Value(10, s[..k]) % WORD)
  {
    assert s[..0] == [];
    DecimalsRead(s, 0, k);
  }

  lemma DecimalFirst(s: seq<byte>, k: nat)
    requires DecimalUpTo(s, k)
    ensures NumeralIn(s) == DecFrom(s, 0, 0)
  {
    assert k > 1 ==> DecimalDigit(s[1]);
  }

  lemma DecimalEnds(s: seq<byte>, k: nat, val: nat)
    requires DecimalUpTo(s, k)
    ensures DecFrom(s, k, val) == Number(Signed(val * Unit(s[k])))
  {}

  lemma HexMeans(s: seq<byte>, k: nat)
    requires HexUpTo(s, k)
    ensures NumeralIn(s) == Number(Signed(Value(16, s[2..k])))
  {
    HexFirst(s, k);
    HexBegins(s, k);
    HexEnds(s, k, Value(16, s[2..k]));
  }

  lemma HexFirst(s: seq<byte>, k: nat)
    requires HexUpTo(s, k)
    ensures NumeralIn(s) == HexFrom(s, 2, 0)
  {
    assert HexDigit(s[2]);
  }

  lemma HexBegins(s: seq<byte>, k: nat)
    requires HexUpTo(s, k)
    ensures HexFrom(s, 2, 0) == HexFrom(s, k, Value(16, s[2..k]) % WORD)
  {
    assert s[2..2] == [];
    HexRead(s, 2, k);
  }

  lemma HexEnds(s: seq<byte>, k: nat, v: nat)
    requires HexUpTo(s, k)
    ensures HexFrom(s, k, v % WORD) == Number(Signed(v))
  {}

  lemma {:induction false} DecimalOnly(s: seq<byte>, i: nat, val: nat) returns (k: nat)
    requires i <= |s| && (forall j :: 0 <= j < i ==> DecimalDigit(s[j])) && DecFrom(s, i, val).Number?
    ensures DecimalUpTo(s, k)
    decreases |s| - i
  {
    if DecimalDigit(s[i]) {
      k := DecimalOnly(s, i + 1, (10 * val + DigitValue(s[i])) % WORD);
    } else {
      k := i;
    }
  }

  lemma {:induction false} HexOnly(s: seq<byte>, i: nat, val: nat) returns (k: nat)
    requires 2 <= i <= |s| && (forall j :: 2 <= j < i ==> HexDigit(s[j])) && HexFrom(s, i, val).Number?
    requires s[0] == 0x30 && (s[1] == 0x78 || s[1] == 0x58) && |s| > 2 && s[2] != 0
    ensures HexUpTo(s, k)
    decreases |s| - i
  {
    if HexDigit(s[i]) {
      k := HexOnly(s, i + 1, (16 * val + DigitValue(s[i])) % WORD);
    } else {
      k := i;
    }
  }

  ghost predicate IsNumber(s: seq<byte>) {
    (exists k: nat :: DecimalUpTo(s, k)) || (exists k: nat :: HexUpTo(s, k))
  }

  /** Str2Int takes for numbers these texts and no others; of anything else it leaves the old value. */
  lemma NumbersExactly(s: seq<byte>, was: int)
    ensures NumeralIn(s).Number? <==> IsNumber(s)
    ensures forall k: nat :: DecimalUpTo(s, k) ==> NumberIn(s, was) == Signed(Unit(s[k]) * Value(10, s[..k]))
    ensures forall k: nat :: HexUpTo(s, k) ==> NumberIn(s, was) == Signed(Value(16, s[2..k]))
    ensures !IsNumber(s) ==> NumberIn(s, was) == was
  {
    forall k: nat | DecimalUpTo(s, k)
      ensures NumeralIn(s) == Number(Signed(Unit(s[k]) * Value(10, s[..k])))
    {
      DecimalMeans(s, k);
    }
    forall k: nat | HexUpTo(s, k)
      ensures NumeralIn(s) == Number(Signed(Value(16, s[2..k])))
    {
      HexMeans(s, k);
    }
    if NumeralIn(s).Number? {
      if |s| >= 3 && s[0] == 0x30 && (s[1] == 0x78 || s[1] == 0x58) {
        var k := HexOnly(s, 2, 0);
      } else {
        var k := DecimalOnly(s, 0, 0);
      }
    }
  }

  /** The text of a number stands for the number. */
  lemma {:induction false} DecimalIsValue(n: nat)
    ensures Value(10, Decimal(n)) == n
  {
    if n >= 10 {
      DecimalIsValue(n / 10);
      Last(10, Decimal(n / 10), Digit(n % 10));
    } else {
      assert Decimal(n)[..0] == [];
    }
  }
}
