/** The file-name block that opens a YMODEM transfer: Ymodem_PrepareIntialPacket, the header branch of Ymodem_Receive
    and the number conversions Int2Str and Str2Int behind them. */
module YmodemHeader {
  import opened Bytes
  import opened YmodemFraming

  const FILE_NAME_LENGTH: nat := 256
  const FILE_SIZE_LENGTH: nat := 16
  const SPACE: byte := 0x20
  const DIGIT0: byte := 0x30

  /** The part of a string before the first occurrence of `stop`. */
  function UpTo(s: seq<byte>, stop: byte): (r: seq<byte>)
    ensures r <= s && stop !in r
    ensures |r| < |s| ==> s[|r|] == stop
  {
    if s == [] || s[0] == stop then [] else [s[0]] + UpTo(s[1..], stop)
  }

  lemma {:induction false} UpToUnique(s: seq<byte>, stop: byte, r: seq<byte>)
    requires r <= s && stop !in r && (|r| == |s| || s[|r|] == stop)
    ensures UpTo(s, stop) == r
  {
    if r != [] {
      assert r[0] != stop;
      UpToUnique(s[1..], stop, r[1..]);
    }
  }

  lemma {:induction false} UpToPast(a: seq<byte>, b: seq<byte>, stop: byte)
    requires stop !in a
    ensures UpTo(a + b, stop) == a + UpTo(b, stop)
  {
    if a == [] {
      assert a + b == b;
    } else {
      assert (a + b)[1..] == a[1..] + b && (a + b)[0] == a[0] != stop;
      UpToPast(a[1..], b, stop);
    }
  }

  function Digit(d: nat): byte
    requires d < 10
  {
    (0x30 + d) as byte
  }

  predicate IsDigit(c: byte) {
    0x30 <= c <= 0x39
  }

  function Decimal(n: nat): (r: seq<byte>)
    ensures |r| > 0
    ensures forall i :: 0 <= i < |r| ==> IsDigit(r[i])
  {
    if n < 10 then [Digit(n)] else Decimal(n / 10) + [Digit(n % 10)]
  }

  function Power10(k: nat): (r: nat)
    ensures r > 0
  {
    if k == 0 then 1 else 10 * Power10(k - 1)
  }

  lemma {:induction false} DecimalLength(n: nat, k: nat)
    requires 0 < k && n < Power10(k)
    ensures |Decimal(n)| <= k
  {
    if n >= 10 {
      assert k > 1;
      DecimalLength(n / 10, k - 1);
    }
  }

  lemma {:induction false} NoLeadingZero(n: nat)
    requires n > 0
    ensures Decimal(n)[0] != DIGIT0
  {
    if n >= 10 {
      NoLeadingZero(n / 10);
    }
  }

  /** The digits of a number of which the leading part may be missing. */
  function DigitsOf(n: nat): seq<byte> {
    if n == 0 then [] else Decimal(n)
  }

  lemma DigitsStep(high: nat, d: nat)
    requires d < 10
    ensures DigitsOf(10 * high + d) == if high == 0 && d == 0 then [] else DigitsOf(high) + [Digit(d)]
  {
    assert (10 * high + d) / 10 == high && (10 * high + d) % 10 == d;
  }

  /** A number without its last `k` digits, and these. */
  function Drop(n: nat, k: nat): nat {
    if k == 0 then n else Drop(n / 10, k - 1)
  }

  function Keep(n: nat, k: nat): nat {
    if k == 0 then 0 else n % 10 + 10 * Keep(n / 10, k - 1)
  }

  lemma {:induction false} DropStep(n: nat, k: nat)
    ensures Drop(n, k) / 10 == Drop(n, k + 1)
  {
    if k > 0 {
      DropStep(n / 10, k - 1);
    }
  }

  lemma {:induction false} KeepStep(n: nat, k: nat)
    ensures Keep(n, k) < Power10(k) && Keep(n, k + 1) == Drop(n, k) % 10 * Power10(k) + Keep(n, k)
  {
    if k > 0 {
      KeepStep(n / 10, k - 1);
      TenTimes(Drop(n, k) % 10, Power10(k - 1));
    }
  }

  lemma TenTimes(d: nat, p: nat)
    ensures d * (10 * p) == 10 * (d * p)
  {}

  lemma {:induction false} KeepAll(n: nat, k: nat)
    requires n < Power10(k)
    ensures Drop(n, k) == 0 && Keep(n, k) == n
  {
    if k > 0 {
      KeepAll(n / 10, k - 1);
    }
  }

  /** One step of long division: the next digit and what is left. */
  lemma DivisionStep(n: nat, k: nat)
    ensures Keep(n, k + 1) / Power10(k) == Drop(n, k) % 10 && Keep(n, k + 1) % Power10(k) == Keep(n, k)
  {
    KeepStep(n, k);
    Quotient(Drop(n, k) % 10, Power10(k), Keep(n, k));
  }

  lemma Quotient(d: nat, p: nat, r: nat)
    requires r < p
    ensures (d * p + r) / p == d && (d * p + r) % p == r
  {
    var x := d * p + r;
    Divided(x, p);
    UniqueQuotient(p, x / p, x % p, d, r);
  }

  lemma Divided(x: nat, p: nat)
    requires p > 0
    ensures x == x / p * p + x % p
  {}

  lemma {:induction false} Multiple(q: nat, d: nat, p: nat)
    requires q < d
    ensures q * p + p <= d * p
    decreases d
  {
    assert d * p == (d - 1) * p + p;
    if q < d - 1 {
      Multiple(q, d - 1, p);
    }
  }

  lemma UniqueQuotient(p: nat, q: nat, m: nat, d: nat, r: nat)
    requires q * p + m == d * p + r && m < p && r < p
    ensures q == d && m == r
  {
    if q < d {
      Multiple(q, d, p);
    } else if d < q {
      Multiple(d, q, p);
    }
  }

  /** Storing at `j` extends a front of length `j`, or replaces a front of length one by another. */
  lemma StoreNext(s: seq<byte>, front: seq<byte>, before: seq<byte>, j: nat, c: byte)
    requires |s| == |before| && |front| <= |before| && s == front + before[|front|..]
    requires j < |s| && (j == |front| || (j == 0 && |front| == 1))
    ensures s[j := c] == front[..j] + [c] + before[j + 1..]
  {}

  method StoreDigit(str: array<byte>, j: nat, c: byte, ghost front: seq<byte>, ghost before: seq<byte>)
    requires |before| == str.Length && |front| <= |before| && str[..] == front + before[|front|..]
    requires j < str.Length && (j == |front| || (j == 0 && |front| == 1))
    modifies str
    ensures str[..] == front[..j] + [c] + before[j + 1..]
    ensures str[j] == c
  {
    StoreNext(str[..], front, before, j, c);
    ghost var was := str[..];
    str[j] := c;
    assert str[..] == was[j := c];
  }

  /** The front of the buffer once the digits of `high` are stored: leading zeros overwrite each other. */
  function Front(high: nat, i: nat): seq<byte> {
    if high > 0 then Decimal(high) else if i > 0 then [DIGIT0] else []
  }

  lemma FrontStep(high: nat, i: nat, d: nat, higher: nat)
    requires d < 10 && higher == 10 * high + d
    ensures Front(higher, i + 1) == Front(high, i)[..|DigitsOf(high)|] + [Digit(d)]
    ensures |DigitsOf(higher)| == if higher == 0 then 0 else |DigitsOf(high)| + 1
  {
    DigitsStep(high, d);
  }

  /** One turn of the loop of Int2Str: divide, and store the digit. */
  method StoreTurn(ghost n: nat, ghost k: nat, ghost before: seq<byte>, str: array<byte>, j: nat, left: nat, div: nat)
    returns (rest: nat)
    requires 0 < k <= 10 == str.Length == |before| && j == |DigitsOf(Drop(n, k))| <= 10 - k
    requires str[..] == Front(Drop(n, k), 10 - k) + before[|Front(Drop(n, k), 10 - k)|..]
    requires div == Power10(k - 1) && left == Keep(n, k)
    modifies str
    ensures rest == Keep(n, k - 1) && (Drop(n, k - 1) == 0 <==> Drop(n, k) == 0 && str[j] == DIGIT0)
    ensures j + 1 == |Front(Drop(n, k - 1), 11 - k)|
    ensures str[..] == Front(Drop(n, k - 1), 11 - k) + before[|Front(Drop(n, k - 1), 11 - k)|..]
    ensures |DigitsOf(Drop(n, k - 1))| == if Drop(n, k - 1) == 0 then 0 else j + 1
  {
    ghost var high, higher := Drop(n, k), Drop(n, k - 1);
    DivisionStep(n, k - 1);
    DropStep(n, k - 1);
    assert higher == 10 * high + higher % 10;
    FrontStep(high, 10 - k, higher % 10, higher);
    rest := left % div;
    StoreDigit(str, j, (left / div + 48) as byte, Front(high, 10 - k), before);
  }

  /** Int2Str: the decimal digits are stored at the front of the buffer; no terminator is stored behind them. */
  method Int2Str(str: array<byte>, n: nat)
    requires str.Length == 10 && n < 0x8000_0000
    modifies str
    ensures |Decimal(n)| <= 10
    ensures str[..] == Decimal(n) + old(str[..])[|Decimal(n)|..]
  {
    TenDigits(n);
    var div, j, status, i, left := 1_000_000_000, 0, 0, 0, n;
    ghost var before, k := str[..], 10;
    while i < 10
      invariant 0 <= i <= 10 && i + k == 10
      invariant left == Keep(n, k) && (k > 0 ==> div == Power10(k - 1))
      invariant j == |DigitsOf(Drop(n, k))| <= i && (status == 0 <==> Drop(n, k) == 0)
      invariant |Front(Drop(n, k), 10 - k)| <= 10
      invariant str[..] == Front(Drop(n, k), 10 - k) + before[|Front(Drop(n, k), 10 - k)|..]
    {
      left := StoreTurn(n, k, before, str, j, left, div);
      k := k - 1;
      j := j + 1;
      div := div / 10;
      if str[j - 1] == DIGIT0 && status == 0 {
        j := 0;
      } else {
        status := status + 1;
      }
      i := i + 1;
    }
  }

  lemma TenDigits(n: nat)
    requires n < 10_000_000_000
    ensures Power10(9) == 1_000_000_000 && |Decimal(n)| <= 10 && Drop(n, 10) == 0 && Keep(n, 10) == n
  {
    BillionIsPower();
    assert Power10(10) == 10 * Power10(9);
    DecimalLength(n, 10);
    KeepAll(n, 10);
  }

  const WORD: nat := 0x1_0000_0000

  function ToInt32(v: nat): int {
    if v % WORD >= 0x8000_0000 then v % WORD - WORD else v % WORD
  }

  predicate IsHexDigit(c: byte) {
    IsDigit(c) || 0x41 <= c <= 0x46 || 0x61 <= c <= 0x66
  }

  function HexValue(c: byte): nat
    requires IsHexDigit(c)
  {
    (if IsDigit(c) then c - 0x30 else if c <= 0x46 then c - 0x41 + 10 else c - 0x61 + 10) as nat
  }

  /** What a text stands for. */
  datatype Numeral = NoNumber | Number(value: int)

  /** The hexadecimal digits from position `i` on. */
  function HexFrom(s: seq<byte>, i: nat, val: nat): Numeral
    decreases |s| - i
  {
    if i >= 11 || i >= |s| then NoNumber
    else if s[i] == 0 then Number(ToInt32(val))
    else if IsHexDigit(s[i]) then HexFrom(s, i + 1, (16 * val + HexValue(s[i])) % WORD)
    else NoNumber
  }

  /** The decimal digits from position `i` on, with the suffixes k and m. */
  function DecFrom(s: seq<byte>, i: nat, val: nat): Numeral
    decreases |s| - i
  {
    if i >= 11 || i >= |s| then NoNumber
    else if s[i] == 0 then Number(ToInt32(val))
    else if (s[i] == 0x6B || s[i] == 0x4B) && i > 0 then Number(ToInt32(val * 0x400))
    else if (s[i] == 0x6D || s[i] == 0x4D) && i > 0 then Number(ToInt32(val * 0x10_0000))
    else if IsDigit(s[i]) then DecFrom(s, i + 1, (10 * val + (s[i] - 0x30) as nat) % WORD)
    else NoNumber
  }

  function NumeralIn(s: seq<byte>): Numeral {
    if |s| >= 3 && s[0] == DIGIT0 && (s[1] == 0x78 || s[1] == 0x58) then
      if s[2] == 0 then NoNumber else HexFrom(s, 2, 0)
    else DecFrom(s, 0, 0)
  }

  /** The number Str2Int leaves behind: the old one when the text is no number. */
  function NumberIn(s: seq<byte>, was: int): int {
    if NumeralIn(s).Number? then NumeralIn(s).value else was
  }

  /** Str2Int on a terminated string: whether it is a number, and what is left in the variable. */
  method Str2Int(s: seq<byte>, was: int) returns (res: nat, number: int)
    requires 0 in s
    ensures res == if NumeralIn(s).Number? then 1 else 0
    ensures number == NumberIn(s, was)
  {
    res, number := 0, was;
    var i: nat, val: nat := 0, 0;
    if |s| >= 3 && s[0] == DIGIT0 && (s[1] == 0x78 || s[1] == 0x58) {
      if s[2] == 0 {
        return;
      }
      i := 2;
      while i < 11 && i < |s|
        invariant 2 <= i <= 11 && res == 0 && number == was
        invariant HexFrom(s, i, val) == NumeralIn(s)
      {
        if s[i] == 0 {
          return 1, ToInt32(val);
        }
        if !IsHexDigit(s[i]) {
          return;
        }
        val := (16 * val + HexValue(s[i])) % WORD;
        i := i + 1;
      }
    } else {
      while i < 11 && i < |s|
        invariant 0 <= i <= 11 && res == 0 && number == was
        invariant DecFrom(s, i, val) == NumeralIn(s)
      {
        if s[i] == 0 {
          return 1, ToInt32(val);
        } else if (s[i] == 0x6B || s[i] == 0x4B) && i > 0 {
          return 1, ToInt32(val * 0x400);
        } else if (s[i] == 0x6D || s[i] == 0x4D) && i > 0 {
          return 1, ToInt32(val * 0x10_0000);
        } else if !IsDigit(s[i]) {
          return;
        }
        val := (10 * val + (s[i] - 0x30) as nat) % WORD;
        i := i + 1;
      }
    }
  }

  /** Reading the digits of a number accumulates the number. */
  lemma {:induction false} DigitsRead(n: nat, s: seq<byte>)
    requires n < WORD && Decimal(n) <= s && |Decimal(n)| <= 10
    ensures DecFrom(s, 0, 0) == DecFrom(s, |Decimal(n)|, n)
    decreases n
  {
    if n < 10 {
      assert Decimal(n) == [Digit(n)] && s[0] == Decimal(n)[0];
      DigitStep(s, 0, 0, n);
    } else {
      var k := |Decimal(n / 10)|;
      assert Decimal(n) == Decimal(n / 10) + [Digit(n % 10)];
      assert s[k] == Decimal(n)[k] && Decimal(n / 10) == Decimal(n)[..k];
      DigitsRead(n / 10, s);
      DigitStep(s, k, n / 10, n % 10);
    }
  }

  lemma DigitStep(s: seq<byte>, i: nat, val: nat, d: nat)
    requires i < |s| && i < 10 && d < 10 && s[i] == Digit(d) && 10 * val + d < WORD
    ensures DecFrom(s, i, val) == DecFrom(s, i + 1, 10 * val + d)
  {}

  /** What the header branch of the receiver reads out of the packet buffer behind the three header bytes. */
  function NameIn(h: seq<byte>): seq<byte>
    requires |h| >= FILE_NAME_LENGTH
  {
    UpTo(h[..FILE_NAME_LENGTH], 0)
  }

  function SizeTextIn(h: seq<byte>): seq<byte>
    requires |h| > FILE_NAME_LENGTH + FILE_SIZE_LENGTH
  {
    var at := |NameIn(h)| + 1;
    UpTo(h[at..at + FILE_SIZE_LENGTH], SPACE)
  }

  function SizeIn(h: seq<byte>, was: int): int
    requires |h| > FILE_NAME_LENGTH + FILE_SIZE_LENGTH
  {
    NumberIn(SizeTextIn(h) + [0], was)
  }

  /** The text of the size field as the sender finds it in its ten-byte buffer. */
  function SizeText(n: nat, scratch: seq<byte>): seq<byte> {
    UpTo(Decimal(n) + Leftover(n, scratch), 0)
  }

  /** What the buffer still holds behind the digits of a number. */
  function Leftover(n: nat, scratch: seq<byte>): seq<byte> {
    if |Decimal(n)| <= |scratch| then scratch[|Decimal(n)|..] else []
  }

  /** The payload of the opening block. */
  function HeaderPayload(name: seq<byte>, text: seq<byte>): seq<byte> {
    var used := name + [0] + text;
    if |used| >= PACKET_SIZE then used else used + Fill(PACKET_SIZE - |used|, 0)
  }

  lemma {:induction false} TerminatedLength(s: seq<byte>)
    requires 0 in s
    ensures |UpTo(s, 0)| < |s|
  {
    if s[0] != 0 {
      TerminatedLength(s[1..]);
    }
  }

  lemma PaddedPayload(name: seq<byte>, text: seq<byte>, k: nat)
    requires k == if |name| + 1 + |text| < PACKET_SIZE then PACKET_SIZE - (|name| + 1 + |text|) else 0
    ensures [SOH, 0, 0xFF] + name + [0] + text + Fill(k, 0) == [SOH, 0, 0xFF] + HeaderPayload(name, text)
  {}

  /** The copying loops of Ymodem_PrepareIntialPacket: store a string without its terminator. */
  method StoreString(data: array<byte>, at: nat, s: seq<byte>) returns (next: nat)
    requires at + |s| <= data.Length
    modifies data
    ensures next == at + |UpTo(s, 0)|
    ensures data[..next] == old(data[..at]) + UpTo(s, 0) && data[next..] == old(data[next..])
  {
    ghost var text := UpTo(s, 0);
    var j := 0;
    while j < |s| && s[j] != 0
      invariant 0 <= j <= |text|
      invariant data[..at + j] == old(data[..at]) + text[..j] && data[at + j..] == old(data[at + j..])
    {
      data[at + j] := s[j];
      j := j + 1;
    }
    assert text[..j] == text;
    return at + j;
  }

  method StoreZeros(data: array<byte>, at: nat, end: nat) returns (next: nat)
    requires at <= data.Length && end <= data.Length
    modifies data
    ensures next == if at < end then end else at
    ensures data[..next] == old(data[..at]) + Fill(next - at, 0) && data[next..] == old(data[next..])
  {
    next := at;
    while next < end
      invariant at <= next && (next <= end || next == at)
      invariant data[..next] == old(data[..at]) + Fill(next - at, 0) && data[next..] == old(data[next..])
    {
      data[next] := 0;
      next := next + 1;
    }
  }

  /** The three header bytes, the name and its terminator. */
  method StoreName(data: array<byte>, fileName: seq<byte>) returns (next: nat)
    requires data.Length == BUFFER && |fileName| == FILE_NAME_LENGTH
    modifies data
    ensures next == PACKET_HEADER + |UpTo(fileName, 0)| + 1 <= BUFFER
    ensures data[..next] == [SOH, 0, 0xFF] + UpTo(fileName, 0) + [0] && data[next..] == old(data[next..])
  {
    ghost var was := data[..];
    data[0] := SOH;
    data[1] := 0x00;
    data[2] := 0xff;
    assert data[..3] == [SOH, 0, 0xFF] && data[3..] == was[3..];
    ghost var headed := data[..];
    next := StoreString(data, PACKET_HEADER, fileName);
    TailKept(was, headed, PACKET_HEADER, next + 1);
    TailKept(headed, data[..], next, next + 1);
    ghost var out := data[..next];
    data[next] := 0x00;
    next := next + 1;
    assert data[..next] == out + [0];
  }

  /** What is unchanged behind a position is unchanged behind a later one. */
  lemma TailKept(was: seq<byte>, now: seq<byte>, from: nat, end: nat)
    requires |was| == |now| && from <= end <= |was| && now[from..] == was[from..]
    ensures now[end..] == was[end..]
  {
    assert now[end..] == now[from..][end - from..];
    assert was[end..] == was[from..][end - from..];
  }

  /** Ymodem_PrepareIntialPacket; `scratch` is its local size buffer with whatever the stack left in it. */
  method PrepareInitialPacket(data: array<byte>, fileName: seq<byte>, scratch: array<byte>, length: nat)
    requires data.Length == BUFFER && scratch.Length == 10 && data != scratch
    requires |fileName| == FILE_NAME_LENGTH && length < 0x8000_0000
    requires 0 in Leftover(length, scratch[..])
    modifies data, scratch
    ensures var payload := HeaderPayload(UpTo(fileName, 0), SizeText(length, old(scratch[..])));
            && data[..PACKET_HEADER + |payload|] == [SOH, 0, 0xFF] + payload
            && data[PACKET_HEADER + |payload|..] == old(data[PACKET_HEADER + |payload|..])
  {
    ghost var name, text := UpTo(fileName, 0), SizeText(length, scratch[..]);
    ghost var was := data[..];
    var i := StoreName(data, fileName);
    ghost var named, first := data[..], i;
    Int2Str(scratch, length);
    assert data[..] == named;
    i := FillUp(data, i, scratch[..]);
    ghost var k := i - (first + |text|);
    PaddedPayload(name, text, k);
    TailKept(was, named, first, i);
    assert data[..i] == [SOH, 0, 0xFF] + HeaderPayload(name, text);
  }

  /** The size text, and zeros to the end of the block. */
  method FillUp(data: array<byte>, at: nat, s: seq<byte>) returns (next: nat)
    requires data.Length == BUFFER && at + |s| <= BUFFER
    modifies data
    ensures var end := at + |UpTo(s, 0)|;
            && next == (if end < PACKET_SIZE + PACKET_HEADER then PACKET_SIZE + PACKET_HEADER else end) <= BUFFER
            && data[..next] == old(data[..at]) + UpTo(s, 0) + Fill(next - end, 0) && data[next..] == old(data[next..])
  {
    ghost var was := data[..];
    next := StoreString(data, at, s);
    ghost var stored, end := data[..], next;
    next := StoreZeros(data, next, PACKET_SIZE + PACKET_HEADER);
    TailKept(was, stored, end, next);
  }

  /** A name and a size text that fit, terminator included, into the opening block. */
  predicate Fits(name: seq<byte>, text: seq<byte>) {
    0 !in name && 0 !in text && |name| + 1 + |text| < PACKET_SIZE
  }

  /** The buffer positions the receiver looks at when a fitting header, followed by anything, was received. */
  lemma HeaderLayout(name: seq<byte>, text: seq<byte>, tail: seq<byte>)
    requires Fits(name, text) && |tail| >= FILE_NAME_LENGTH
    ensures var h := HeaderPayload(name, text) + tail;
            && |h| > FILE_NAME_LENGTH + FILE_SIZE_LENGTH && NameIn(h) == name
            && h[|name| + 1..|name| + 1 + |text|] == text && h[|name| + 1 + |text|] == 0
            && (forall i :: |name| + 1 + |text| <= i < 128 ==> h[i] == 0)
  {
    var p := HeaderPayload(name, text);
    assert p[..|name|] == name && p[|name|] == 0;
    assert p[|name| + 1..|name| + 1 + |text|] == text && p[|name| + 1 + |text|] == 0;
    var h := p + tail;
    assert h[..|name|] == name && h[|name|] == 0;
    UpToUnique(h[..FILE_NAME_LENGTH], 0, name);
    assert h[|name| + 1..|name| + 1 + |text|] == p[|name| + 1..|name| + 1 + |text|];
  }

  /** The size text the receiver copies out starts with the digits and the byte behind them, unless that is a space. */
  lemma SizeTextRead(digits: seq<byte>, c: byte, window: seq<byte>)
    requires SPACE !in digits && digits + [c] <= window
    ensures c == SPACE ==> UpTo(window, SPACE) == digits
    ensures c != SPACE ==> digits + [c] <= UpTo(window, SPACE)
  {
    var rest := window[|digits|..];
    assert window == digits + rest && rest[0] == c;
    UpToPast(digits, rest, SPACE);
  }

  lemma BillionIsPower()
    ensures Power10(9) == 1_000_000_000
  {
    assert Power10(4) == 10_000;
    assert Power10(6) == 1_000_000;
  }

  /** The number in a string that starts with terminated digits. */
  lemma NumberOfDigits(n: nat, s: seq<byte>, was: int)
    requires n < 1_000_000_000 && Decimal(n) + [0] <= s
    ensures NumberIn(s, was) == n && |Decimal(n)| <= 9
  {
    BillionIsPower();
    DecimalLength(n, 9);
    var k := |Decimal(n)|;
    assert Decimal(n) == s[..k] && s[k] == 0;
    DigitsRead(n, s);
    DecimalBranch(n, s);
  }

  lemma DecEnds(s: seq<byte>, k: nat, n: nat)
    requires k < |s| && k < 11 && s[k] == 0 && n < 0x8000_0000
    ensures DecFrom(s, k, n) == Number(n)
  {}

  lemma DecimalBranch(n: nat, s: seq<byte>)
    requires n < 0x8000_0000 && Decimal(n) <= s && |Decimal(n)| < 11
    requires |Decimal(n)| < |s| && s[|Decimal(n)|] == 0
    requires DecFrom(s, 0, 0) == DecFrom(s, |Decimal(n)|, n)
    ensures NumeralIn(s) == Number(n)
  {
    var k := |Decimal(n)|;
    DecEnds(s, k, n);
    assert s[0] == Decimal(n)[0];
    if n > 0 {
      NoLeadingZero(n);
    }
  }

  lemma PrefixInside(h: seq<byte>, at: nat, part: seq<byte>, whole: seq<byte>, n: nat)
    requires at + |whole| <= |h| && h[at..at + |whole|] == whole && part <= whole
    requires |part| <= n && at + n <= |h|
    ensures part <= h[at..at + n]
  {
    assert part == whole[..|part|];
  }

  /** What the receiver sees of the size field of a fitting header. */
  lemma SizeWindow(name: seq<byte>, digits: seq<byte>, left: seq<byte>, tail: seq<byte>)
    requires |tail| >= FILE_NAME_LENGTH && left != [] && 0 !in digits && |digits| <= 10
    requires Fits(name, UpTo(digits + left, 0))
    ensures var h := HeaderPayload(name, UpTo(digits + left, 0)) + tail;
            && |h| > FILE_NAME_LENGTH + FILE_SIZE_LENGTH && NameIn(h) == name
            && digits + [left[0]] <= h[|name| + 1..|name| + 1 + FILE_SIZE_LENGTH]
  {
    var text, at := UpTo(digits + left, 0), |name| + 1;
    HeaderLayout(name, text, tail);
    var h := HeaderPayload(name, text) + tail;
    UpToPast(digits, left, 0);
    assert text == digits + UpTo(left, 0);
    assert digits + [left[0]] <= text + [0];
    assert h[at..at + |text| + 1] == text + [0];
    PrefixInside(h, at, digits + [left[0]], text + [0], FILE_SIZE_LENGTH);
  }

  /** The receiver reads back the name and the size that were announced, whatever its packet buffer held before, if the
      byte the sender's stack left behind the digits is a terminator or a space. */
  lemma HeaderRoundTrip(name: seq<byte>, n: nat, scratch: seq<byte>, tail: seq<byte>, was: int)
    requires n < 1_000_000_000 && |tail| >= FILE_NAME_LENGTH
    requires Fits(name, SizeText(n, scratch))
    requires Leftover(n, scratch) != [] && (Leftover(n, scratch)[0] == 0 || Leftover(n, scratch)[0] == SPACE)
    ensures var h := HeaderPayload(name, SizeText(n, scratch)) + tail;
            && |h| > FILE_NAME_LENGTH + FILE_SIZE_LENGTH
            && NameIn(h) == name && SizeIn(h, was) == n
  {
    var digits, left := Decimal(n), Leftover(n, scratch);
    NumberOfDigits(n, digits + [0], was);
    SizeWindow(name, digits, left, tail);
    var h := HeaderPayload(name, SizeText(n, scratch)) + tail;
    SizeTextRead(digits, left[0], h[|name| + 1..|name| + 1 + FILE_SIZE_LENGTH]);
    NumberOfDigits(n, SizeTextIn(h) + [0], was);
  }

  /** The header with `c` left behind the digits of `n`. */
  function HeaderWith(name: seq<byte>, n: nat, c: byte): seq<byte> {
    HeaderPayload(name, UpTo(Decimal(n) + [c, 0], 0))
  }

  lemma LeftBehind(n: nat, rest: seq<byte>)
    ensures Leftover(n, Decimal(n) + rest) == rest
    ensures SizeText(n, Decimal(n) + rest) == UpTo(Decimal(n) + rest, 0)
  {
    assert (Decimal(n) + rest)[|Decimal(n)|..] == rest;
  }

  lemma ShortText(digits: seq<byte>, c: byte)
    requires 0 !in digits
    ensures |UpTo(digits + [c, 0], 0)| <= |digits| + 1
  {
    UpToPast(digits, [c, 0], 0);
    assert [c, 0][1..] == [0];
  }

  lemma HarmlessRead(name: seq<byte>, n: nat, c: byte, tail: seq<byte>)
    requires 0 !in name && |name| <= 116 && |tail| >= FILE_NAME_LENGTH && n < 1_000_000_000
    requires c == 0 || c == SPACE
    ensures SizeIn(HeaderWith(name, n, c) + tail, 0) == n
  {
    NumberOfDigits(n, Decimal(n) + [0], 0);
    LeftBehind(n, [c, 0]);
    ShortText(Decimal(n), c);
    HeaderRoundTrip(name, n, Decimal(n) + [c, 0], tail, 0);
  }

  lemma OneWith(name: seq<byte>, c: byte)
    requires c != 0
    ensures HeaderWith(name, 1, c) == HeaderPayload(name, [Digit(1), c])
  {
    var text := [Digit(1), c];
    UpToPast(text, [0], 0);
    assert Decimal(1) + [c, 0] == text + [0];
    assert UpTo(text + [0], 0) == text;
  }

  lemma HarmfulRead(name: seq<byte>, c: byte, tail: seq<byte>)
    requires 0 !in name && |name| <= 116 && |tail| >= FILE_NAME_LENGTH
    requires c != 0 && c != SPACE
    ensures SizeIn(HeaderWith(name, 1, c) + tail, 0) != 1
  {
    var text := [Digit(1), c];
    OneWith(name, c);
    HeaderLayout(name, text, tail);
    var h, at := HeaderPayload(name, text) + tail, |name| + 1;
    assert h[at..at + |text|] == text && h[at + |text|] == 0;
    assert h[at..at + |text + [0]|] == text + [0];
    PrefixInside(h, at, text + [0], text + [0], FILE_SIZE_LENGTH);
    SizeTextRead(text, 0, h[at..at + FILE_SIZE_LENGTH]);
    NotOne(SizeTextIn(h) + [0], c);
  }

  ghost predicate AlwaysRead(name: seq<byte>, c: byte, tail: seq<byte>)
    requires |tail| >= FILE_NAME_LENGTH
  {
    forall n: nat :: n < 1_000_000_000 ==> SizeIn(HeaderWith(name, n, c) + tail, 0) == n
  }

  /** Which leftover byte is harmless: the size of every file is read back if and only if it is a terminator or a
      space. */
  lemma HarmlessLeftover(name: seq<byte>, c: byte, tail: seq<byte>)
    requires 0 !in name && |name| <= 116 && |tail| >= FILE_NAME_LENGTH
    ensures AlwaysRead(name, c, tail) <==> c == 0 || c == SPACE
  {
    if c == 0 || c == SPACE {
      forall n: nat | n < 1_000_000_000
        ensures SizeIn(HeaderWith(name, n, c) + tail, 0) == n
      {
        HarmlessRead(name, n, c, tail);
      }
    } else {
      HarmfulRead(name, c, tail);
    }
  }

  lemma NotOne(s: seq<byte>, c: byte)
    requires c != 0 && [Digit(1), c, 0] <= s
    ensures NumberIn(s, 0) != 1
  {
    assert s[0] == Digit(1) && s[1] == c && s[2] == 0;
    assert DecFrom(s, 0, 0) == DecFrom(s, 1, 1);
    if IsDigit(c) {
      assert DecFrom(s, 1, 1) == DecFrom(s, 2, 10 + (c - 0x30) as nat);
    }
  }
}
