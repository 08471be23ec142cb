/** Which records ask for which update, byte by byte, and what becomes of the partitions that they name. */
module OtaRequest {
  import opened Bytes
  import opened Checksums
  import opened FlashMemory
  import opened OtaUpdate
  import opened OtaRestart

  /** Four bytes of the record, least significant first. */
  function WordAt(m: Medium, at: nat): nat
    requires Ready(m) && at + 4 <= 24
  {
    var c := m.mem[Parameter1];
    c[at] as nat + 0x100 * c[at + 1] as nat + 0x1_0000 * c[at + 2] as nat + 0x100_0000 * c[at + 3] as nat
  }

  /** 'B', 'A' and 'D' */
  predicate Names(kind: byte, dest: Partition) {
    || (kind == 0x42 && dest == Bootloader)
    || (kind == 0x41 && dest == Application)
    || (kind == 0x44 && dest == RfFirmware)
  }

  /** The record carries the tag 'U' and the address of the staging area, names `dest`, gives a length that fits there,
      and a checksum of 0xFFFF or an image that can be read (and, in the mended variant, has that checksum). */
  predicate Asks(m: Medium, board: Board, dest: Partition) {
    Ready(m) &&
    var c, n := m.mem[Parameter1], WordAt(m, 4);
    && c[17] == 0x55 && WordAt(m, 0) == board.stagingStart && Names(c[16], dest)
    && (dest in m.mem ==> n <= |m.mem[dest]|) && (dest !in m.mem ==> n == 0)
    && (|| (c[18] == 0xFF && c[19] == 0xFF)
        || (n <= |m.mem[OtaTemp]|
            && (board.mended ==> Crc16(m.mem[OtaTemp][..n]) as nat == c[18] as nat + 0x100 * c[19] as nat)))
  }

  /** These records and no others ask for an update, and for this one. */
  lemma AsksExactly(m: Medium, board: Board, dest: Partition)
    requires Ready(m)
    ensures LogIn(m, board) == NeedUpdate(dest) <==> Asks(m, board, dest)
    ensures Asks(m, board, dest) ==> LengthOf(RecordIn(m)) == WordAt(m, 4)
  {
    var rec := RecordIn(m);
    assert rec[17] == 0x55 ==> !AllErased(rec);
    Lasts(rec[18], rec[19]);
  }

  lemma Lasts(lo: byte, hi: byte)
    ensures Le16(lo, hi) == 0xFFFF <==> lo == 0xFF && hi == 0xFF
  {}

  /** A record that asks for nothing is turned down for the first of these reasons. */
  lemma Refusals(m: Medium, board: Board)
    requires Ready(m)
    ensures var log, c := LogIn(m, board), m.mem[Parameter1];
            && (log == NotExist <==> forall i :: 0 <= i < 24 ==> c[i] == 0xFF)
            && (log == UpdateTagNotExist <==> c[17] != 0x55 && exists i :: 0 <= i < 24 && c[i] != 0xFF)
            && (log == StartAddressError <==> c[17] == 0x55 && WordAt(m, 0) != board.stagingStart)
            && (log == ContentTypeNotExist
                <==> c[17] == 0x55 && WordAt(m, 0) == board.stagingStart && c[16] !in [0x41, 0x42, 0x44])
            && (log == DataLengthOverflow
                <==> c[17] == 0x55 && WordAt(m, 0) == board.stagingStart
                     && exists dest :: Names(c[16], dest) && WordAt(m, 4) > PartLen(m, dest))
  {
    var rec, c := RecordIn(m), m.mem[Parameter1];
    assert rec[17] == 0x55 ==> !AllErased(rec);
    assert forall i :: 0 <= i < 24 ==> rec[i] == c[i];
    if c[16] in [0x41, 0x42, 0x44] {
      assert Names(c[16], DestOf(c[16]));
    }
  }

  /** The first `n` cells are those of the image, all others are erased. */
  ghost predicate HoldsOnly(cells: seq<byte>, image: seq<byte>, n: nat) {
    n <= |image| && n <= |cells| && cells[..n] == image[..n] && forall i :: n <= i < |cells| ==> cells[i] == 0xFF
  }

  lemma BearsIs(cells: seq<byte>, image: seq<byte>, n: nat)
    requires n <= |image| && Bears(cells, image[..n])
    ensures HoldsOnly(cells, image, n)
  {
    forall i | n <= i < |cells|
      ensures cells[i] == 0xFF
    {
      assert cells[n..][i - n] == ERASED;
    }
  }

  /** What an uncut update does to the partition that the record names, to its record, to the staging area, and to all
      the rest: nothing. */
  lemma InstallsWhatItNames(m: Medium, board: Board, dest: Partition)
    requires m.on && Asks(m, board, dest) && dest in m.mem && WordAt(m, 4) <= |m.mem[OtaTemp]|
    requires RunUpdate(m, board).0.on
    ensures var (r, err) := RunUpdate(m, board);
            && err == NoErr && r.mem.Keys == m.mem.Keys
            && HoldsOnly(r.mem[dest], m.mem[OtaTemp], WordAt(m, 4)) && |r.mem[dest]| == |m.mem[dest]|
            && r.mem[Parameter1] == Fill(24, 0xFF) + m.mem[Parameter1][24..]
            && (forall i :: 0 <= i < |r.mem[OtaTemp]| ==> r.mem[OtaTemp][i] == 0xFF)
            && (forall q :: q in m.mem && q != dest && q != Parameter1 && q != OtaTemp ==> r.mem[q] == m.mem[q])
  {
    AsksExactly(m, board, dest);
    UninterruptedInstall(m, board);
    SucceedsExactly(m, board);
    BearsIs(RunUpdate(m, board).0.mem[dest], m.mem[OtaTemp], WordAt(m, 4));
  }

  /** What makes update() fail: a partition that is not there, a record that cannot be read, an image longer than the
      staging area, or a cut. */
  lemma StatusExactly(m: Medium, board: Board)
    requires m.on
    ensures var (r, err) := RunUpdate(m, board);
            && (err == UnsupportedErr
                <==> OtaTemp !in m.mem || Parameter1 !in m.mem
                     || exists dest :: Asks(m, board, dest) && dest !in m.mem)
            && (err == ParamErr
                <==> OtaTemp in m.mem && Parameter1 in m.mem
                     && (|m.mem[Parameter1]| < 24
                         || (r.on && WordAt(m, 4) > |m.mem[OtaTemp]|
                             && exists dest :: Asks(m, board, dest) && dest in m.mem)))
            && (err == PowerLost <==> !r.on)
            && (err == NoErr || err == UnsupportedErr || err == ParamErr || err == PowerLost)
  {
    if Ready(m) {
      if LogIn(m, board).NeedUpdate? {
        RequestMeans(m, board);
        var dest := LogIn(m, board).dest;
        AsksExactly(m, board, dest);
        assert Asks(m, board, dest);
        OnlyOne(m, board, dest);
        if Overlong(m, board) {
          OverlongResult(m, board);
        } else if dest in m.mem {
          InstallImageFrame(m, dest, LengthOf(RecordIn(m)));
        }
      } else {
        DropStagingResult(m);
        NothingAsked(m, board);
      }
    }
  }

  lemma OnlyOne(m: Medium, board: Board, dest: Partition)
    requires Asks(m, board, dest)
    ensures forall q :: Asks(m, board, q) ==> q == dest
  {}

  lemma NothingAsked(m: Medium, board: Board)
    requires Ready(m) && !LogIn(m, board).NeedUpdate?
    ensures forall q :: !Asks(m, board, q)
  {
    forall q ensures !Asks(m, board, q) {
      AsksExactly(m, board, q);
    }
  }

  /** Without a request a blank staging area is left alone, so that an ordinary start wears no flash, and any other is
      erased. */
  lemma ErasesOnlyWhatIsUsed(m: Medium, board: Board)
    requires m.on && Ready(m) && forall dest :: !Asks(m, board, dest)
    ensures var (r, err) := RunUpdate(m, board);
            if forall i :: 0 <= i < |m.mem[OtaTemp]| ==> m.mem[OtaTemp][i] == 0xFF then r == m && err == NoErr
            else r.on ==> r.mem == m.mem[OtaTemp := Fill(|m.mem[OtaTemp]|, 0xFF)]
  {
    if LogIn(m, board).NeedUpdate? {
      AsksExactly(m, board, LogIn(m, board).dest);
      assert false;
    }
    EraseAll(m, OtaTemp);
    EraseFrame(m, OtaTemp, 0, |m.mem[OtaTemp]|);
    assert Wipe(m.mem[OtaTemp], 0, |m.mem[OtaTemp]|) == Fill(|m.mem[OtaTemp]|, 0xFF);
  }

  /** Which updates can be restarted: those of type 'A' and 'D' whose image is staged. */
  lemma RestartableExactly(m: Medium, board: Board)
    requires Ready(m)
    ensures Restartable(m, board)
            <==> exists dest :: Asks(m, board, dest) && dest in m.mem && WordAt(m, 4) <= |m.mem[OtaTemp]|
                                && (m.mem[Parameter1][16] == 0x41 || m.mem[Parameter1][16] == 0x44)
  {
    if Restartable(m, board) {
      AsksExactly(m, board, LogIn(m, board).dest);
    }
    if dest :| Asks(m, board, dest) {
      AsksExactly(m, board, dest);
    }
  }

  /** No partition but those three changes in any number of runs, cut anywhere. */
  lemma {:induction false} RestartsKeep(m0: Medium, board: Board, m: Medium, powers: seq<nat>, q: Partition)
    requires Restartable(m0, board) && OnTheWay(m0, board, m) && q in m.mem
    requires q != LogIn(m0, board).dest && q != Parameter1 && q != OtaTemp
    ensures Cells(Restarts(m, board, powers), q) == m.mem[q]
    decreases |powers|
  {
    if powers != [] {
      var s := PowerOn(m, powers[0]);
      AlwaysRestartable(m0, board, m, [powers[0]]);
      assert [powers[0]][1..] == [] && Restarts(m, board, [powers[0]]) == Restart(m, board, powers[0]);
      if Pending(m0, m) {
        assert LogIn(s, board) == LogIn(m0, board);
      } else {
        ErasedFirstByte(s, board);
      }
      OnlyThreePartitions(s, board, q);
      RestartsKeep(m0, board, Restart(m, board, powers[0]), powers[1..], q);
    }
  }

  /** A record of type 'A' or 'D': after any number of cuts, anywhere, and one run that is not cut, the partition that
      it names holds the image, and every other one is what it was, apart from record and staging area. */
  lemma NamedInTheEnd(m0: Medium, board: Board, dest: Partition, powers: seq<nat>, last: nat)
    requires Asks(m0, board, dest) && dest in m0.mem && WordAt(m0, 4) <= |m0.mem[OtaTemp]|
    requires m0.mem[Parameter1][16] == 0x41 || m0.mem[Parameter1][16] == 0x44
    requires Restarts(m0, board, powers + [last]).on
    ensures var r := Restarts(m0, board, powers + [last]);
            && HoldsOnly(Cells(r, dest), m0.mem[OtaTemp], WordAt(m0, 4))
            && (forall q :: q in m0.mem && q != dest && q != Parameter1 && q != OtaTemp ==> Cells(r, q) == m0.mem[q])
  {
    AsksExactly(m0, board, dest);
    RestartsLast(m0, board, powers, last);
    InstalledInTheEnd(m0, board, powers, last);
    BearsIs(Cells(Restarts(m0, board, powers + [last]), dest), m0.mem[OtaTemp], WordAt(m0, 4));
    forall q | q in m0.mem && q != dest && q != Parameter1 && q != OtaTemp
      ensures Cells(Restarts(m0, board, powers + [last]), q) == m0.mem[q]
    {
      RestartsKeep(m0, board, m0, powers + [last], q);
    }
  }

  lemma {:induction false} RestartsLast(m: Medium, board: Board, powers: seq<nat>, last: nat)
    ensures Restarts(m, board, powers + [last]) == Restart(Restarts(m, board, powers), board, last)
    decreases |powers|
  {
    if powers == [] {
      assert powers + [last] == [last] && [last][1..] == [];
    } else {
      assert (powers + [last])[1..] == powers[1..] + [last];
      RestartsLast(Restart(m, board, powers[0]), board, powers[1..], last);
    }
  }
}
