/** What the checksum of a staged image is good for, and which records update() should not have believed. */
module OtaChecksum {
  import opened Bytes
  import opened Checksums
  import opened FlashMemory
  import opened OtaUpdate
  import opened OtaRestart
  import C = ConfigStore
  import R = ConfigRecovery

  // ---------------------------------------------------------------- the checksum does not matter

  /** The same medium with another checksum in its record. */
  function WithCrc(m: Medium, lo: byte, hi: byte): Medium
    requires Ready(m)
  {
    m.(mem := m.mem[Parameter1 := m.mem[Parameter1][18 := lo][19 := hi]])
  }

  /** As written, an image that can be read is asked for whatever checksum is recorded. */
  lemma ChecksumIgnored(m: Medium, board: Board, lo: byte, hi: byte)
    requires Ready(m) && !board.mended && LengthOf(RecordIn(m)) <= |m.mem[OtaTemp]|
    ensures Ready(WithCrc(m, lo, hi))
    ensures var a, b := LogIn(m, board), LogIn(WithCrc(m, lo, hi), board);
            (a.NeedUpdate? <==> b.NeedUpdate?) && (a.NeedUpdate? ==> a == b)
  {
    var rec, other := RecordIn(m), RecordIn(WithCrc(m, lo, hi));
    assert other == rec[18 := lo][19 := hi];
    assert other[TAG] == rec[TAG] && other[TYPE] == rec[TYPE];
    assert forall i :: 0 <= i < 8 ==> other[i] == rec[i];
    if rec[TAG] == 0x55 {
      assert rec[TAG] != ERASED && other[TAG] != ERASED;
    }
  }

  /** The same medium with other cells in one partition. */
  function With(m: Medium, q: Partition, cells: seq<byte>): Medium {
    m.(mem := m.mem[q := cells])
  }

  lemma UpdatesCommute(mem: map<Partition, seq<byte>>, p: Partition, a: seq<byte>, q: Partition, b: seq<byte>)
    requires p != q
    ensures mem[p := a][q := b] == mem[q := b][p := a]
  {}

  lemma WriteWith(m: Medium, p: Partition, off: nat, data: seq<byte>, q: Partition, cells: seq<byte>)
    requires p != q && p in m.mem && q in m.mem
    ensures Write(With(m, q, cells), p, off, data) == With(Write(m, p, off, data), q, cells)
  {
    if InRange(m, p, off, |data|) {
      var k := Min(|data|, m.power);
      UpdatesCommute(m.mem, p, Program(m.mem[p], off, data), q, cells);
      UpdatesCommute(m.mem, p, Program(m.mem[p], off, data[..k]), q, cells);
    }
  }

  lemma EraseWith(m: Medium, p: Partition, q: Partition, cells: seq<byte>)
    requires p != q && p in m.mem && q in m.mem
    ensures Erase(With(m, q, cells), p, 0, |m.mem[p]|) == With(Erase(m, p, 0, |m.mem[p]|), q, cells)
  {
    var len := SpanEnd(0, |m.mem[p]|, |m.mem[p]|);
    UpdatesCommute(m.mem, p, Wipe(m.mem[p], 0, len), q, cells);
    UpdatesCommute(m.mem, p, Wipe(m.mem[p], 0, Min(len, m.power)), q, cells);
  }

  lemma InstallWithCrc(m: Medium, dest: Partition, n: nat, lo: byte, hi: byte)
    requires Ready(m) && dest in m.mem && dest != OtaTemp && dest != Parameter1 && n <= |m.mem[OtaTemp]|
    ensures Ready(Install(m, dest, n)) && Install(WithCrc(m, lo, hi), dest, n) == WithCrc(Install(m, dest, n), lo, hi)
  {
    var cells := m.mem[Parameter1][18 := lo][19 := hi];
    EraseFrame(m, dest, 0, |m.mem[dest]|);
    InstallFrame(m, dest, n);
    EraseWith(m, dest, Parameter1, cells);
    WriteWith(Erase(m, dest, 0, |m.mem[dest]|), dest, 0, Cells(m, OtaTemp)[..n], Parameter1, cells);
  }

  lemma ClearWithCrc(m: Medium, lo: byte, hi: byte)
    requires Ready(m) && m.on && ClearRecord(m).on
    ensures ClearRecord(WithCrc(m, lo, hi)) == ClearRecord(m)
  {
    var c, d := m.mem[Parameter1], WithCrc(m, lo, hi).mem[Parameter1];
    assert Cleared(d) == Cleared(c);
    EraseAll(m, Parameter1);
    EraseAll(WithCrc(m, lo, hi), Parameter1);
    var e, f := Erase(m, Parameter1, 0, |c|), Erase(WithCrc(m, lo, hi), Parameter1, 0, |d|);
    assert Wipe(c, 0, |c|) == Wipe(d, 0, |d|);
    assert e.mem == f.mem;
    assert e == f;
  }

  /** As written, an uninterrupted run ends in the same state whatever checksum is recorded: what is installed does not
      depend on it. */
  lemma SameWhateverChecksum(m: Medium, board: Board, lo: byte, hi: byte)
    requires m.on && Requested(m, board) && !board.mended && !Overlong(m, board) && RunUpdate(m, board).0.on
    ensures RunUpdate(WithCrc(m, lo, hi), board) == RunUpdate(m, board)
  {
    RequestMeans(m, board);
    ChecksumIgnored(m, board, lo, hi);
    var dest, n := LogIn(m, board).dest, LengthOf(RecordIn(m));
    assert RecordIn(WithCrc(m, lo, hi)) == RecordIn(m)[18 := lo][19 := hi];
    InstallWithCrc(m, dest, n, lo, hi);
    InstallFrame(m, dest, n);
    ClearWithCrc(Install(m, dest, n), lo, hi);
  }

  /** The mended variant installs exactly those of them that have the recorded checksum, or 0xFFFF for none. */
  lemma ChecksumOfInstalled(m: Medium, start: Address)
    requires Ready(m) && LengthOf(RecordIn(m)) <= |m.mem[OtaTemp]|
    ensures LogIn(m, Board(start, true)).NeedUpdate?
            <==> LogIn(m, Board(start, false)).NeedUpdate?
                 && (CrcOf(RecordIn(m)) == 0xFFFF || Crc16(Image(m)) == CrcOf(RecordIn(m)))
  {}

  // ---------------------------------------------------------------- examples

  /** A record that asks for an application of `n` bytes. */
  function Record(start: Address, n: nat, crc: word): (rec: seq<byte>)
    requires n < 0x1_0000_0000
    ensures |rec| == RECORD
  {
    C.WordBytes(start) + C.WordBytes(n) + Fill(8, 0) + [0x41, 0x55] + C.CrcBytes(crc) + Fill(4, 0)
  }

  lemma RecordReads(start: Address, n: nat, crc: word)
    requires n < 0x1_0000_0000
    ensures var rec := Record(start, n, crc);
            && StartOf(rec) == start && LengthOf(rec) == n && CrcOf(rec) == crc && rec[TYPE] == 0x41 && rec[TAG] == 0x55
            && !AllErased(rec)
  {
    R.WordRoundTrip(start);
    R.WordRoundTrip(n);
    var rec := Record(start, n, crc);
    assert rec[0..4] == C.WordBytes(start) && rec[4..8] == C.WordBytes(n) && rec[18..20] == C.CrcBytes(crc);
    assert rec[0] == rec[0..4][0] && rec[1] == rec[0..4][1] && rec[2] == rec[0..4][2] && rec[3] == rec[0..4][3];
    assert rec[4] == rec[4..8][0] && rec[5] == rec[4..8][1] && rec[6] == rec[4..8][2] && rec[7] == rec[4..8][3];
    assert rec[18] == rec[18..20][0] && rec[19] == rec[18..20][1];
    assert rec[TAG] != ERASED;
  }

  /** An image staged for an application partition of its size, with that record and a supply that lasts. */
  function Staged(start: Address, image: seq<byte>, crc: word): Medium
    requires |image| < 0x1_0000_0000
  {
    Medium(map[OtaTemp := image, Parameter1 := Record(start, |image|, crc), Application := Fill(|image|, 0)],
           3 * |image| + 2 * RECORD, true)
  }

  lemma StagedIsRequest(start: Address, image: seq<byte>, crc: word)
    requires |image| < 0x1_0000_0000
    ensures var m := Staged(start, image, crc);
            && Ready(m) && RecordIn(m) == Record(start, |image|, crc) && Image(m) == image
            && LogIn(m, Board(start, false)) == NeedUpdate(Application)
  {
    RecordReads(start, |image|, crc);
  }

  lemma ClearPower(m: Medium)
    requires PartLen(m, Parameter1) >= RECORD && m.on && 2 * PartLen(m, Parameter1) <= m.power
    ensures ClearRecord(m).on && ClearRecord(m).power == m.power - 2 * PartLen(m, Parameter1)
  {
    EraseAll(m, Parameter1);
    var c := m.mem[Parameter1];
    var e := Erase(m, Parameter1, 0, |c|);
    assert e.mem[Parameter1] == Wipe(c, 0, |c|);
    WriteErased(e, Parameter1, Cleared(c));
  }

  lemma StagedLasts(start: Address, image: seq<byte>, crc: word)
    requires |image| < 0x1_0000_0000
    ensures RunUpdate(Staged(start, image, crc), Board(start, false)).0.on
  {
    var m := Staged(start, image, crc);
    StagedIsRequest(start, image, crc);
    RecordReads(start, |image|, crc);
    InstallPower(m, Application, |image|);
    InstallFrame(m, Application, |image|);
    var m1 := Install(m, Application, |image|);
    ClearPower(m1);
    ClearFrame(m1);
    EraseAll(ClearRecord(m1), OtaTemp);
  }

  /** Every image is installed under every wrong checksum; the mended variant installs none of them. */
  lemma WrongChecksumInstalled(start: Address, image: seq<byte>, crc: word)
    requires |image| < 0x1_0000_0000 && crc != Crc16(image) && crc != 0xFFFF
    ensures var m := Staged(start, image, crc);
            && Ready(m) && CrcOf(RecordIn(m)) != Crc16(Image(m))
            && RunUpdate(m, Board(start, false)).1 == NoErr
            && Cells(RunUpdate(m, Board(start, false)).0, Application) == image
            && Cells(RunUpdate(m, Board(start, true)).0, Application) == m.mem[Application]
  {
    var m := Staged(start, image, crc);
    StagedIsRequest(start, image, crc);
    StagedLasts(start, image, crc);
    RecordReads(start, |image|, crc);
    UninterruptedInstall(m, Board(start, false));
    SucceedsExactly(m, Board(start, false));
    ChecksumOfInstalled(m, start);
    OnlyThreePartitions(m, Board(start, true), Application);
  }

  /** The partition sizes of the MiCOKit-3165, and a record that asks for an application without a checksum. */
  function MicoKit(n: nat): Medium
    requires n < 0x1_0000_0000
  {
    Medium(map[OtaTemp := Fill(0x7_0000, 0), Application := Fill(0x7_4000, 0),
               Parameter1 := Record(0x4_0000, n, 0xFFFF) + Fill(0x1000 - RECORD, 0)], 0, true)
  }

  /** On that board there are overlong images: those larger than the staging area that the application partition would
      hold. */
  lemma MicoKitOverlong(n: nat, mended: bool)
    requires n < 0x1_0000_0000
    ensures Overlong(MicoKit(n), Board(0x4_0000, mended)) <==> 0x7_0000 < n <= 0x7_4000
  {
    var m := MicoKit(n);
    RecordReads(0x4_0000, n, 0xFFFF);
    assert RecordIn(m) == Record(0x4_0000, n, 0xFFFF);
  }
}
