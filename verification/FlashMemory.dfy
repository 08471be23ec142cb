/** NOR flash under power cuts.

    A partition is a string of cells.  Programming clears bits, erasing sets whole sectors to 0xFF, and both work
    byte by byte in address order.  `power` is the number of bytes the medium can still program or erase before the
    supply fails; an operation that runs out is left half done and every later operation has no effect. */
module FlashMemory {
  import opened Bytes

  datatype Partition =
    | Bootloader | Application | RfFirmware | OtaTemp | Parameter1 | Parameter2
    | RfCopyTag | RfTemp

  datatype Status = NoErr | ParamErr | WriteErr | UnsupportedErr | NoMemoryErr | UnknownErr | PowerLost

  /** SPI flash sectors are 4 KB. */
  const SECTOR: nat := 0x1000

  datatype Medium = Medium(mem: map<Partition, seq<byte>>, power: nat, on: bool)

  function Program(cells: seq<byte>, off: nat, data: seq<byte>): (r: seq<byte>)
    requires off + |data| <= |cells|
    ensures |r| == |cells|
    ensures forall i :: 0 <= i < |cells| ==>
      r[i] == if off <= i < off + |data| then And(cells[i], data[i - off]) else cells[i]
  {
    seq(|cells|, i requires 0 <= i < |cells| =>
      if off <= i < off + |data| then And(cells[i], data[i - off]) else cells[i])
  }

  function Wipe(cells: seq<byte>, off: nat, n: nat): (r: seq<byte>)
    requires off + n <= |cells|
    ensures |r| == |cells|
    ensures forall i :: 0 <= i < |cells| ==> r[i] == if off <= i < off + n then ERASED else cells[i]
  {
    seq(|cells|, i requires 0 <= i < |cells| => if off <= i < off + n then ERASED else cells[i])
  }

  predicate AllErased(s: seq<byte>) {
    forall i :: 0 <= i < |s| ==> s[i] == ERASED
  }

  function Min(a: int, b: int): int {
    if a <= b then a else b
  }

  predicate InRange(m: Medium, p: Partition, off: nat, n: nat) {
    p in m.mem && off + n <= |m.mem[p]|
  }

  /** What a write of `data` at `off` leaves behind. */
  function Write(m: Medium, p: Partition, off: nat, data: seq<byte>): Medium {
    if !m.on || |data| == 0 || !InRange(m, p, off, |data|) then m
    else if |data| <= m.power then m.(mem := m.mem[p := Program(m.mem[p], off, data)], power := m.power - |data|)
    else Medium(m.mem[p := Program(m.mem[p], off, data[..m.power])], 0, false)
  }

  /** An erase covers every sector it touches, up to the end of the partition. */
  function SpanStart(off: nat): nat {
    off / SECTOR * SECTOR
  }

  function SpanEnd(off: nat, n: nat, len: nat): (r: nat)
    requires off + n <= len
    ensures off + n <= r <= len
  {
    Min((off + n + SECTOR - 1) / SECTOR * SECTOR, len)
  }

  function Erase(m: Medium, p: Partition, off: nat, n: nat): Medium {
    if !m.on || n == 0 || !InRange(m, p, off, n) then m
    else
      var a := SpanStart(off);
      var len := SpanEnd(off, n, |m.mem[p]|) - a;
      if len <= m.power then m.(mem := m.mem[p := Wipe(m.mem[p], a, len)], power := m.power - len)
      else Medium(m.mem[p := Wipe(m.mem[p], a, m.power)], 0, false)
  }

  /** What the caller of a flash operation is told. */
  function Verdict(before: Medium, after: Medium, p: Partition, off: nat, n: nat): Status {
    if n == 0 then NoErr
    else if !InRange(before, p, off, n) then ParamErr
    else if after.on then NoErr else PowerLost
  }

  /** The chunks in which the bootloader copies. */
  const CHUNK: nat := 4096

  /** The cells of a partition; a partition the board does not have is empty. */
  function Cells(m: Medium, p: Partition): seq<byte> {
    if p in m.mem then m.mem[p] else []
  }

  function PartLen(m: Medium, p: Partition): nat {
    |Cells(m, p)|
  }

  /** The result of a sequence of flash operations that is given up when one fails. */
  function Told(m: Medium): Status {
    if m.on then NoErr else PowerLost
  }

  /** The supply comes back, and lasts for so many bytes. */
  function PowerOn(m: Medium, power: nat): Medium {
    Medium(m.mem, power, true)
  }

  class Flash {
    var mem: map<Partition, seq<byte>>
    var power: nat
    var on: bool

    ghost function View(): Medium
      reads this
    {
      Medium(mem, power, on)
    }

    constructor (mem: map<Partition, seq<byte>>, power: nat)
      ensures View() == Medium(mem, power, true)
    {
      this.mem, this.power, on := mem, power, true;
    }

    /** Program `data` at `off`; the offset is left after the last byte that was asked for. */
    method WriteAt(p: Partition, off: nat, data: seq<byte>) returns (err: Status, next: nat)
      requires on
      modifies this
      ensures View() == Write(old(View()), p, off, data)
      ensures err == Verdict(old(View()), View(), p, off, |data|)
      ensures next == if err == NoErr then off + |data| else off
    {
      next := off;
      if |data| == 0 {
        return NoErr, next;
      }
      if p !in mem || |mem[p]| < off + |data| {
        return ParamErr, next;
      }
      var cells, i := mem[p], 0;
      while i < |data| && i < power
        invariant 0 <= i <= |data| && i <= power
        invariant |cells| == |mem[p]|
        invariant forall j :: 0 <= j < |cells| ==>
          cells[j] == if off <= j < off + i then And(mem[p][j], data[j - off]) else mem[p][j]
      {
        cells, i := cells[off + i := And(cells[off + i], data[i])], i + 1;
      }
      assert cells == Program(mem[p], off, data[..i]);
      mem, power, on := mem[p := cells], power - i, i == |data|;
      if !on {
        return PowerLost, next;
      }
      assert data[..i] == data;
      return NoErr, off + |data|;
    }

    method EraseAt(p: Partition, off: nat, n: nat) returns (err: Status)
      requires on
      modifies this
      ensures View() == Erase(old(View()), p, off, n)
      ensures err == Verdict(old(View()), View(), p, off, n)
    {
      if n == 0 {
        return NoErr;
      }
      if p !in mem || |mem[p]| < off + n {
        return ParamErr;
      }
      var first, last := off / SECTOR * SECTOR, SpanEnd(off, n, |mem[p]|);
      var cells, i := mem[p], 0;
      while first + i < last && i < power
        invariant 0 <= i <= last - first && i <= power
        invariant |cells| == |mem[p]|
        invariant forall j :: 0 <= j < |cells| ==> cells[j] == if first <= j < first + i then ERASED else mem[p][j]
      {
        cells, i := cells[first + i := ERASED], i + 1;
      }
      assert cells == Wipe(mem[p], first, i);
      mem, power, on := mem[p := cells], power - i, first + i == last;
      return if on then NoErr else PowerLost;
    }

    /** Read `n` bytes at `off`, advancing the offset. */
    method ReadAt(p: Partition, off: nat, n: nat) returns (err: Status, data: seq<byte>, next: nat)
      ensures err == if n == 0 || InRange(View(), p, off, n) then NoErr else ParamErr
      ensures err == NoErr && 0 < n ==> data == mem[p][off..off + n]
      ensures err == NoErr && n == 0 ==> data == []
      ensures next == if err == NoErr then off + n else off
    {
      data, next := [], off;
      if n == 0 {
        return NoErr, [], off;
      }
      if p !in mem || |mem[p]| < off + n {
        return ParamErr, [], off;
      }
      return NoErr, mem[p][off..off + n], off + n;
    }
  }

  /** Programming erased cells stores exactly the data. */
  lemma ProgramBlank(cells: seq<byte>, off: nat, data: seq<byte>)
    requires off + |data| <= |cells|
    requires forall i :: off <= i < off + |data| ==> cells[i] == ERASED
    ensures Program(cells, off, data)[off..off + |data|] == data
  {
    forall i | 0 <= i < |data|
      ensures And(cells[off + i], data[i]) == data[i]
    {
      AndErased(data[i]);
    }
  }

  lemma ProgramAppend(cells: seq<byte>, off: nat, a: seq<byte>, b: seq<byte>)
    requires off + |a| + |b| <= |cells|
    ensures Program(Program(cells, off, a), off + |a|, b) == Program(cells, off, a + b)
  {}

  /** Writing in two adjacent pieces is writing in one, wherever the power fails. */
  lemma WriteSplit(m: Medium, p: Partition, off: nat, a: seq<byte>, b: seq<byte>)
    requires InRange(m, p, off, |a| + |b|)
    ensures Write(Write(m, p, off, a), p, off + |a|, b) == Write(m, p, off, a + b)
  {
    if |a| == 0 || |b| == 0 {
      assert a + b == if |a| == 0 then b else a;
    } else if m.on && |a| <= m.power {
      var k := Min(|b|, m.power - |a|);
      var c := m.mem[p];
      assert (a + b)[..|a| + k] == a + b[..k];
      ProgramAppend(c, off, a, b[..k]);
      assert (a + b)[..|a| + |b|] == a + b && b[..|b|] == b;
      var m1 := Write(m, p, off, a);
      assert m1.mem[p := Program(c, off, a + b[..k])] == m.mem[p := Program(c, off, a + b[..k])];
    } else if m.on {
      assert (a + b)[..m.power] == a[..m.power];
    }
  }

  /** The cells an erase covers are those in the sectors of 4096 bytes that the request touches. */
  lemma SectorsTouched(off: nat, n: nat, len: nat, i: nat)
    requires 0 < n && off + n <= len && i < len
    ensures SpanStart(off) <= i < SpanEnd(off, n, len) <==> off / 4096 <= i / 4096 <= (off + n - 1) / 4096
  {
    assert i == 4096 * (i / 4096) + i % 4096;
    assert (off + n + 4095) / 4096 == (off + n - 1) / 4096 + 1;
  }

  lemma EraseTouches(m: Medium, p: Partition, off: nat, n: nat, i: nat)
    requires m.on && 0 < n && InRange(m, p, off, n) && i < |m.mem[p]| && Erase(m, p, off, n).on
    ensures Erase(m, p, off, n).mem[p][i]
            == if off / 4096 <= i / 4096 <= (off + n - 1) / 4096 then 0xFF else m.mem[p][i]
  {
    SectorsTouched(off, n, |m.mem[p]|, i);
  }

  // ---------------------------------------------------------------- what stays as it is

  ghost predicate SameBut(m: Medium, r: Medium, p: Partition) {
    && r.mem.Keys == m.mem.Keys
    && (forall q :: q in m.mem ==> |r.mem[q]| == |m.mem[q]|)
    && (forall q :: q in m.mem && q != p ==> r.mem[q] == m.mem[q])
    && (r.on ==> m.on)
  }

  lemma WriteFrame(m: Medium, p: Partition, off: nat, data: seq<byte>)
    ensures SameBut(m, Write(m, p, off, data), p)
  {}

  lemma EraseFrame(m: Medium, p: Partition, off: nat, n: nat)
    ensures SameBut(m, Erase(m, p, off, n), p)
  {}

  // ---------------------------------------------------------------- whole partitions

  /** An erase of a whole partition, cut or not, leaves an erased front of some length and the rest as it was. */
  lemma EraseAll(m: Medium, p: Partition)
    requires p in m.mem && m.on
    ensures var c, r := m.mem[p], Erase(m, p, 0, |m.mem[p]|);
            && r.mem[p] == Wipe(c, 0, Min(|c|, m.power))
            && (r.on <==> |c| <= m.power)
            && r.power == m.power - Min(|c|, m.power)
  {
    var c := m.mem[p];
    assert (|c| + 0xFFF) / 0x1000 * 0x1000 >= |c|;
    if |c| == 0 {
      assert Wipe(c, 0, 0) == c;
    }
  }

  /** Programming erased cells, cut or not, stores a front of the data. */
  lemma WriteErased(m: Medium, p: Partition, data: seq<byte>)
    requires p in m.mem && m.on && |data| <= |m.mem[p]| && AllErased(m.mem[p])
    ensures var c, r := m.mem[p], Write(m, p, 0, data);
            var k := Min(|data|, m.power);
            && r.mem[p] == data[..k] + c[k..]
            && (r.on <==> |data| <= m.power) && r.power == m.power - k
  {
    var k := Min(|data|, m.power);
    ProgramBlank(m.mem[p], 0, data[..k]);
    assert data[..|data|] == data;
    if |data| > 0 {
      assert Program(m.mem[p], 0, data[..k]) == data[..k] + m.mem[p][k..];
    }
  }

  /** Writing chunk after chunk is one long write. */
  lemma WriteNext(m: Medium, p: Partition, image: seq<byte>, from: nat, n: nat)
    requires p in m.mem && from + n <= |image| && from + n <= |m.mem[p]|
    ensures Write(Write(m, p, 0, image[..from]), p, from, image[from..from + n]) == Write(m, p, 0, image[..from + n])
  {
    assert image[..from + n] == image[..from] + image[from..from + n];
    WriteSplit(m, p, 0, image[..from], image[from..from + n]);
  }

  /** What is written on erased cells reads back. */
  lemma ReadsBack(m: Medium, p: Partition, data: seq<byte>)
    requires p in m.mem && m.on && AllErased(m.mem[p]) && |data| <= |m.mem[p]| && Write(m, p, 0, data).on
    ensures data <= Cells(Write(m, p, 0, data), p)
  {
    WriteErased(m, p, data);
    assert data[..|data|] == data;
  }

  /** A write that was cut would have been cut at the same byte if more had followed. */
  lemma CutWrite(m: Medium, p: Partition, a: seq<byte>, b: seq<byte>)
    requires p in m.mem && |b| <= |m.mem[p]| && a <= b && !Write(m, p, 0, a).on
    ensures Write(m, p, 0, a) == Write(m, p, 0, b)
  {
    assert b == a + b[|a|..];
    WriteSplit(m, p, 0, a, b[|a|..]);
  }
}
