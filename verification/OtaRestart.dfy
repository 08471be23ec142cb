/** What an over-the-air update guarantees: restart after any number of power cuts, a blank staging area, and an
    untouched configuration. */
module OtaRestart {
  import opened Bytes
  import opened FlashMemory
  import opened OtaUpdate

  /** The board has what update() asks for. */
  predicate Ready(m: Medium) {
    OtaTemp in m.mem && Parameter1 in m.mem && |m.mem[Parameter1]| >= RECORD
  }

  function RecordIn(m: Medium): seq<byte>
    requires Ready(m)
  {
    m.mem[Parameter1][..RECORD]
  }

  function LogIn(m: Medium, board: Board): LogStatus
    requires Ready(m)
  {
    Check(m, board, RecordIn(m))
  }

  /** A record that asks for an update of a partition there is. */
  predicate Requested(m: Medium, board: Board) {
    Ready(m) && LogIn(m, board).NeedUpdate? && LogIn(m, board).dest in m.mem
  }

  /** The staged image, as far as it is there. */
  function Image(m: Medium): seq<byte>
    requires Ready(m)
  {
    m.mem[OtaTemp][..Min(LengthOf(RecordIn(m)), |m.mem[OtaTemp]|)]
  }

  /** A partition that holds an image and nothing else. */
  ghost predicate Bears(cells: seq<byte>, image: seq<byte>) {
    image <= cells && AllErased(cells[|image|..])
  }

  /** The three things a record can ask for, and what it takes. */
  lemma RequestMeans(m: Medium, board: Board)
    requires Ready(m) && LogIn(m, board).NeedUpdate?
    ensures var rec, dest := RecordIn(m), LogIn(m, board).dest;
            && (dest == Bootloader || dest == Application || dest == RfFirmware)
            && rec[TAG] == 0x55 && StartOf(rec) == board.stagingStart && LengthOf(rec) <= PartLen(m, dest)
            && (CrcOf(rec) == 0xFFFF || LengthOf(rec) <= |m.mem[OtaTemp]|)
  {}

  /** A record whose first byte is erased asks for nothing, whatever the rest says: its start address cannot be that of
      the staging area. */
  lemma ErasedFirstByte(m: Medium, board: Board)
    requires Ready(m) && m.mem[Parameter1][0] == ERASED
    ensures !LogIn(m, board).NeedUpdate?
  {
    var rec := RecordIn(m);
    assert StartOf(rec) % 0x100 == 0xFF;
  }

  // ---------------------------------------------------------------- results of a whole run

  lemma InstallImageFrame(m: Medium, dest: Partition, n: nat)
    requires Ready(m) && m.on && dest in m.mem && n <= |m.mem[dest]| && n <= |m.mem[OtaTemp]|
    requires dest != OtaTemp && dest != Parameter1
    ensures var (r, err) := InstallImage(m, dest, n);
            && err == Told(r) && r.mem.Keys == m.mem.Keys
            && (forall q :: q in m.mem && q != dest && q != Parameter1 && q != OtaTemp ==> r.mem[q] == m.mem[q])
            && (forall q :: q in m.mem ==> |r.mem[q]| == |m.mem[q]|)
  {
    var m1 := Install(m, dest, n);
    InstallFrame(m, dest, n);
    ClearFrame(m1);
    var m2 := ClearRecord(m1);
    EraseFrame(m2, OtaTemp, 0, PartLen(m2, OtaTemp));
  }

  lemma InstallImageResult(m: Medium, dest: Partition, n: nat)
    requires Ready(m) && m.on && dest in m.mem && n <= |m.mem[dest]| && n <= |m.mem[OtaTemp]|
    requires dest != OtaTemp && dest != Parameter1
    ensures InstallImage(m, dest, n).0.mem.Keys == m.mem.Keys
    ensures var r := InstallImage(m, dest, n).0;
            && (r.on ==> Bears(r.mem[dest], m.mem[OtaTemp][..n])
                         && r.mem[Parameter1] == Cleared(m.mem[Parameter1]) && AllErased(r.mem[OtaTemp]))
            && ((r.mem[Parameter1] == m.mem[Parameter1] && r.mem[OtaTemp] == m.mem[OtaTemp])
                || (Bears(r.mem[dest], m.mem[OtaTemp][..n]) && r.mem[Parameter1][0] == ERASED))
  {
    InstallFrame(m, dest, n);
    if Install(m, dest, n).on {
      InstallResult(m, dest, n);
      FinishResult(Install(m, dest, n));
    }
  }

  lemma FinishResult(m: Medium)
    requires Ready(m) && m.on
    ensures var r := Finish(m).0;
            && r.mem.Keys == m.mem.Keys
            && (forall q :: q in m.mem && q != Parameter1 && q != OtaTemp ==> r.mem[q] == m.mem[q])
            && (r.on ==> r.mem[Parameter1] == Cleared(m.mem[Parameter1]) && AllErased(r.mem[OtaTemp]))
            && ((r.mem[Parameter1] == m.mem[Parameter1] && r.mem[OtaTemp] == m.mem[OtaTemp])
                || r.mem[Parameter1][0] == ERASED)
  {
    ClearFrame(m);
    ClearResult(m);
    var r := ClearRecord(m);
    EraseFrame(r, OtaTemp, 0, PartLen(r, OtaTemp));
    if r.on {
      EraseAll(r, OtaTemp);
    }
  }

  lemma DropStagingResult(m: Medium)
    requires Ready(m) && m.on
    ensures var (r, err) := DropStaging(m);
            && SameBut(m, r, OtaTemp) && err == Told(r) && (err == NoErr ==> AllErased(r.mem[OtaTemp]))
  {
    EraseFrame(m, OtaTemp, 0, PartLen(m, OtaTemp));
    EraseAll(m, OtaTemp);
  }

  /** An image longer than the staging area. */
  predicate Overlong(m: Medium, board: Board) {
    Requested(m, board) && LengthOf(RecordIn(m)) > |m.mem[OtaTemp]|
  }

  /** Such an image destroys the destination and never gets installed: only its front is copied, and record and staging
      area stay as they are, so that the next run does the same. */
  lemma OverlongResult(m: Medium, board: Board)
    requires Overlong(m, board) && m.on
    ensures var (r, err) := RunUpdate(m, board);
            && SameBut(m, r, LogIn(m, board).dest) && (err == ParamErr || err == PowerLost)
            && (r.on ==>
                  && err == ParamErr && Overlong(r, board)
                  && var n := Copied(LengthOf(RecordIn(m)), |m.mem[OtaTemp]|);
                     Bears(Cells(r, LogIn(m, board).dest), m.mem[OtaTemp][..n]))
  {
    RequestMeans(m, board);
    var n, dest := Copied(LengthOf(RecordIn(m)), |m.mem[OtaTemp]|), LogIn(m, board).dest;
    InstallFrame(m, dest, n);
    if Install(m, dest, n).on {
      InstallResult(m, dest, n);
    }
  }

  /** Whenever update() reports success the staging area is blank. */
  lemma StagingBlank(m: Medium, board: Board)
    requires m.on && RunUpdate(m, board).1 == NoErr
    ensures Ready(m) && OtaTemp in RunUpdate(m, board).0.mem && AllErased(RunUpdate(m, board).0.mem[OtaTemp])
  {
    if LogIn(m, board).NeedUpdate? {
      RequestMeans(m, board);
      if Overlong(m, board) {
        OverlongResult(m, board);
      } else {
        InstallImageFrame(m, LogIn(m, board).dest, LengthOf(RecordIn(m)));
        InstallImageResult(m, LogIn(m, board).dest, LengthOf(RecordIn(m)));
      }
    } else {
      DropStagingResult(m);
    }
  }

  /** Exactly when an uninterrupted run succeeds: the partitions exist, and no record asks for an image longer than the
      staging area or for a partition the board does not have. */
  lemma SucceedsExactly(m: Medium, board: Board)
    requires m.on && RunUpdate(m, board).0.on
    ensures RunUpdate(m, board).1 == NoErr
            <==> Ready(m) && (LogIn(m, board).NeedUpdate? ==> Requested(m, board) && !Overlong(m, board))
  {
    if Ready(m) && LogIn(m, board).NeedUpdate? {
      RequestMeans(m, board);
      if Overlong(m, board) {
        OverlongResult(m, board);
      } else if Requested(m, board) {
        InstallImageFrame(m, LogIn(m, board).dest, LengthOf(RecordIn(m)));
        InstallImageResult(m, LogIn(m, board).dest, LengthOf(RecordIn(m)));
      }
    } else if Ready(m) {
      DropStagingResult(m);
    }
  }

  /** Only a record with checksum 0xFFFF can be overlong; others of that kind are dropped, like every other record that
      asks for nothing. */
  lemma OverlongIsUnchecked(m: Medium, board: Board)
    requires Overlong(m, board)
    ensures CrcOf(RecordIn(m)) == 0xFFFF
  {
    RequestMeans(m, board);
  }

  /** An uninterrupted install writes the image, clears the record, blanks the staging area and leaves everything else
      alone. */
  lemma UninterruptedInstall(m: Medium, board: Board)
    requires m.on && Requested(m, board) && !Overlong(m, board) && RunUpdate(m, board).0.on
    ensures var r, dest := RunUpdate(m, board).0, LogIn(m, board).dest;
            && r.mem.Keys == m.mem.Keys && |Image(m)| == LengthOf(RecordIn(m))
            && Bears(Cells(r, dest), Image(m)) && Cells(r, Parameter1) == Cleared(m.mem[Parameter1])
            && AllErased(Cells(r, OtaTemp))
            && (forall q :: q in m.mem ==> |r.mem[q]| == |m.mem[q]|)
            && (forall q :: q in m.mem && q != dest && q != Parameter1 && q != OtaTemp ==> r.mem[q] == m.mem[q])
  {
    RequestMeans(m, board);
    InstallImageFrame(m, LogIn(m, board).dest, LengthOf(RecordIn(m)));
    InstallImageResult(m, LogIn(m, board).dest, LengthOf(RecordIn(m)));
  }

  /** Cut or not, an update changes no partition but the destination, Parameter1 and the staging area; without a
      request, only the staging area. */
  lemma OnlyThreePartitions(m: Medium, board: Board, q: Partition)
    requires m.on && q in m.mem && q != OtaTemp
    requires Requested(m, board) ==> q != LogIn(m, board).dest && q != Parameter1
    ensures var r := RunUpdate(m, board).0; q in r.mem && r.mem[q] == m.mem[q]
  {
    if Overlong(m, board) {
      OverlongResult(m, board);
    } else if Requested(m, board) {
      RequestMeans(m, board);
      InstallImageFrame(m, LogIn(m, board).dest, LengthOf(RecordIn(m)));
    } else if Ready(m) {
      DropStagingResult(m);
    }
  }

  // ---------------------------------------------------------------- restart

  /** The update has not been completed: record and staged image are as they were at first. */
  ghost predicate Pending(m0: Medium, m: Medium)
    requires Ready(m0)
  {
    && Ready(m)
    && m.mem.Keys == m0.mem.Keys
    && (forall q :: q in m0.mem ==> |m.mem[q]| == |m0.mem[q]|)
    && m.mem[Parameter1] == m0.mem[Parameter1] && m.mem[OtaTemp] == m0.mem[OtaTemp]
  }

  /** The destination holds the image, and the record asks for nothing. */
  ghost predicate Installed(m0: Medium, dest: Partition, m: Medium)
    requires Ready(m0)
  {
    Ready(m) && dest in m.mem && m.mem[Parameter1][0] == ERASED && Bears(m.mem[dest], Image(m0))
  }

  /** A request of type 'A' or 'D' for a staged image; the code that would restart an update of type 'B' is what that
      update overwrites. */
  predicate Restartable(m: Medium, board: Board) {
    Requested(m, board) && !Overlong(m, board) && LogIn(m, board).dest != Bootloader
  }

  function Restart(m: Medium, board: Board, power: nat): Medium {
    RunUpdate(PowerOn(m, power), board).0
  }

  lemma FromPending(m0: Medium, board: Board, m: Medium, power: nat)
    requires Restartable(m0, board) && Pending(m0, m)
    ensures var r := Restart(m, board, power);
            && (Pending(m0, r) || Installed(m0, LogIn(m0, board).dest, r))
            && (r.on ==> Installed(m0, LogIn(m0, board).dest, r) && AllErased(r.mem[OtaTemp])
                         && r.mem[Parameter1] == Cleared(m0.mem[Parameter1]))
  {
    RequestMeans(m0, board);
    var s := PowerOn(m, power);
    assert LogIn(s, board) == LogIn(m0, board);
    InstallImageFrame(s, LogIn(m0, board).dest, LengthOf(RecordIn(m0)));
    InstallImageResult(s, LogIn(m0, board).dest, LengthOf(RecordIn(m0)));
  }

  lemma FromInstalled(m0: Medium, board: Board, m: Medium, power: nat)
    requires Restartable(m0, board)
    requires Installed(m0, LogIn(m0, board).dest, m)
    ensures var r := Restart(m, board, power);
            && Installed(m0, LogIn(m0, board).dest, r) && r.mem[Parameter1] == m.mem[Parameter1]
            && (r.on ==> AllErased(r.mem[OtaTemp]))
  {
    RequestMeans(m0, board);
    ErasedFirstByte(PowerOn(m, power), board);
    DropStagingResult(PowerOn(m, power));
  }

  /** Any number of runs, each with a supply that lasts for a given number of bytes. */
  function Restarts(m: Medium, board: Board, powers: seq<nat>): Medium
    decreases |powers|
  {
    if powers == [] then m else Restarts(Restart(m, board, powers[0]), board, powers[1..])
  }

  ghost predicate OnTheWay(m0: Medium, board: Board, m: Medium)
    requires Restartable(m0, board)
  {
    Pending(m0, m) || Installed(m0, LogIn(m0, board).dest, m)
  }

  /** At every crash point of every run either record and staged image are byte for byte what they were, or the
      destination holds the image and nothing asks for an update any more. */
  lemma {:induction false} AlwaysRestartable(m0: Medium, board: Board, m: Medium, powers: seq<nat>)
    requires Restartable(m0, board) && OnTheWay(m0, board, m)
    ensures OnTheWay(m0, board, Restarts(m, board, powers))
    decreases |powers|
  {
    if powers != [] {
      if Pending(m0, m) {
        FromPending(m0, board, m, powers[0]);
      } else {
        FromInstalled(m0, board, m, powers[0]);
      }
      AlwaysRestartable(m0, board, Restart(m, board, powers[0]), powers[1..]);
    }
  }

  /** Any number of crashes followed by one run that is not cut: the image is installed, the staging area is blank and
      the record asks for nothing. */
  lemma InstalledInTheEnd(m0: Medium, board: Board, powers: seq<nat>, last: nat)
    requires Restartable(m0, board)
    requires Restart(Restarts(m0, board, powers), board, last).on
    ensures var r, dest := Restart(Restarts(m0, board, powers), board, last), LogIn(m0, board).dest;
            && Ready(r) && |Image(m0)| == LengthOf(RecordIn(m0))
            && Bears(Cells(r, dest), Image(m0)) && AllErased(Cells(r, OtaTemp)) && !LogIn(r, board).NeedUpdate?
  {
    AlwaysRestartable(m0, board, m0, powers);
    var m := Restarts(m0, board, powers);
    if Pending(m0, m) {
      FromPending(m0, board, m, last);
    } else {
      FromInstalled(m0, board, m, last);
    }
    ErasedFirstByte(Restart(m, board, last), board);
  }

  // ---------------------------------------------------------------- the record

  /** What a cut leaves of the record when the supply lasts `k` bytes longer than the install: an erased front. */
  lemma TornRecord(m: Medium, board: Board, k: nat)
    requires Restartable(m, board) && m.on
    requires m.power == |m.mem[LogIn(m, board).dest]| + LengthOf(RecordIn(m)) + k
    ensures var r := RunUpdate(m, board).0;
            Ready(r) && RecordIn(r) == Wipe(RecordIn(m), 0, Min(k, RECORD))
  {
    RequestMeans(m, board);
    var n, dest := LengthOf(RecordIn(m)), LogIn(m, board).dest;
    InstallImageFrame(m, dest, n);
    InstallPower(m, dest, n);
    var m1 := Install(m, dest, n);
    InstallFrame(m, dest, n);
    TornClear(m1);
    var m2 := ClearRecord(m1);
    EraseFrame(m2, OtaTemp, 0, PartLen(m2, OtaTemp));
    assert RunUpdate(m, board).0.mem[Parameter1] == m2.mem[Parameter1];
    assert m1.power == k;
  }

  lemma TornClear(m: Medium)
    requires PartLen(m, Parameter1) >= RECORD && m.on
    ensures SameBut(m, ClearRecord(m), Parameter1)
    ensures ClearRecord(m).mem[Parameter1][..RECORD] == Wipe(m.mem[Parameter1][..RECORD], 0, Min(m.power, RECORD))
  {
    ClearFrame(m);
    ClearResult(m);
    var c, k := m.mem[Parameter1], m.power;
    if k < |c| {
      assert Wipe(c, 0, k)[..RECORD] == Wipe(c[..RECORD], 0, Min(k, RECORD));
    }
  }

  lemma InstallPower(m: Medium, dest: Partition, n: nat)
    requires dest in m.mem && m.on && n <= PartLen(m, OtaTemp) && n <= |m.mem[dest]| && |m.mem[dest]| + n <= m.power
    ensures Install(m, dest, n).on && Install(m, dest, n).power == m.power - |m.mem[dest]| - n
  {
    EraseAll(m, dest);
    assert Erase(m, dest, 0, |m.mem[dest]|).mem[dest] == Wipe(m.mem[dest], 0, |m.mem[dest]|);
    WriteErased(Erase(m, dest, 0, |m.mem[dest]|), dest, Cells(m, OtaTemp)[..n]);
  }

  /** Once the first byte of the record is erased, no later run changes Parameter1. */
  lemma {:induction false} RecordSettles(m: Medium, board: Board, powers: seq<nat>)
    requires Ready(m) && m.mem[Parameter1][0] == ERASED
    ensures Cells(Restarts(m, board, powers), Parameter1) == m.mem[Parameter1]
    decreases |powers|
  {
    if powers != [] {
      ErasedFirstByte(PowerOn(m, powers[0]), board);
      DropStagingResult(PowerOn(m, powers[0]));
      RecordSettles(Restart(m, board, powers[0]), board, powers[1..]);
    }
  }

  /** How many bytes a run needs before it comes to the record. */
  function BeforeRecord(m: Medium, board: Board): nat
    requires Requested(m, board)
  {
    |m.mem[LogIn(m, board).dest]| + LengthOf(RecordIn(m))
  }

  /** How far the first of the runs that comes to the record gets into Parameter1, or 0 if none does. */
  function Bite(need: nat, powers: seq<nat>): nat {
    if powers == [] then 0
    else if powers[0] > need then powers[0] - need
    else Bite(need, powers[1..])
  }

  lemma InstallCut(m: Medium, dest: Partition, n: nat)
    requires dest in m.mem && m.on && n <= PartLen(m, OtaTemp) && n <= |m.mem[dest]| && m.power < |m.mem[dest]| + n
    ensures !Install(m, dest, n).on
  {
    EraseAll(m, dest);
    if |m.mem[dest]| <= m.power {
      WriteErased(Erase(m, dest, 0, |m.mem[dest]|), dest, Cells(m, OtaTemp)[..n]);
    }
  }

  /** A run that does not come to the record leaves it, and the staged image, as they were. */
  lemma StillPending(m0: Medium, board: Board, m: Medium, power: nat)
    requires Restartable(m0, board) && Pending(m0, m) && power <= BeforeRecord(m0, board)
    ensures Pending(m0, Restart(m, board, power))
  {
    RequestMeans(m0, board);
    var s, n, dest := PowerOn(m, power), LengthOf(RecordIn(m0)), LogIn(m0, board).dest;
    assert LogIn(s, board) == LogIn(m0, board);
    FromPending(m0, board, m, power);
    if power == BeforeRecord(m0, board) {
      TornRecord(s, board, 0);
      NotErased(m0, board);
    } else {
      InstallCut(s, dest, n);
      InstallFrame(s, dest, n);
    }
  }

  lemma NotErased(m: Medium, board: Board)
    requires Requested(m, board)
    ensures m.mem[Parameter1][0] != ERASED
  {
    if m.mem[Parameter1][0] == ERASED {
      ErasedFirstByte(m, board);
    }
  }

  /** What any number of runs, cut anywhere, makes of the record: its front is erased as far as the first of them that
      came to it got, and nothing more ever is. */
  lemma {:induction false} RecordInTheEnd(m0: Medium, board: Board, m: Medium, powers: seq<nat>)
    requires Restartable(m0, board) && Pending(m0, m)
    ensures PartLen(Restarts(m, board, powers), Parameter1) >= RECORD
    ensures Cells(Restarts(m, board, powers), Parameter1)[..RECORD]
            == Wipe(RecordIn(m0), 0, Min(Bite(BeforeRecord(m0, board), powers), RECORD))
    decreases |powers|
  {
    if powers == [] {
      assert Wipe(RecordIn(m0), 0, 0) == RecordIn(m0);
    } else if powers[0] <= BeforeRecord(m0, board) {
      StillPending(m0, board, m, powers[0]);
      RecordInTheEnd(m0, board, Restart(m, board, powers[0]), powers[1..]);
    } else {
      var s, k := PowerOn(m, powers[0]), powers[0] - BeforeRecord(m0, board);
      assert LogIn(s, board) == LogIn(m0, board);
      TornRecord(s, board, k);
      var r := Restart(m, board, powers[0]);
      assert r.mem[Parameter1][0] == RecordIn(r)[0];
      RecordSettles(r, board, powers[1..]);
    }
  }

  /** So the record does not always end up blank.  It does if and only if everything behind the place where the first
      run that came to it was cut was blank already. */
  lemma BlankExactly(m0: Medium, board: Board, powers: seq<nat>)
    requires Restartable(m0, board)
    ensures PartLen(Restarts(m0, board, powers), Parameter1) >= RECORD
    ensures AllErased(Cells(Restarts(m0, board, powers), Parameter1)[..RECORD])
            <==> AllErased(RecordIn(m0)[Min(Bite(BeforeRecord(m0, board), powers), RECORD)..])
  {
    RecordInTheEnd(m0, board, m0, powers);
    WipedBlank(RecordIn(m0), Min(Bite(BeforeRecord(m0, board), powers), RECORD));
  }

  lemma WipedBlank(cells: seq<byte>, k: nat)
    requires k <= |cells|
    ensures AllErased(Wipe(cells, 0, k)) <==> AllErased(cells[k..])
  {
    forall i | k <= i < |cells|
      ensures Wipe(cells, 0, k)[i] == cells[k..][i - k]
    {}
    if AllErased(Wipe(cells, 0, k)) {
      forall j | 0 <= j < |cells[k..]|
        ensures cells[k..][j] == ERASED
      {
        assert Wipe(cells, 0, k)[k + j] == ERASED;
      }
    }
  }

  /** In particular a cut before the tag is erased leaves a torn record, for ever. */
  lemma TornForEver(m0: Medium, board: Board, powers: seq<nat>)
    requires Restartable(m0, board) && Bite(BeforeRecord(m0, board), powers) <= TAG
    ensures PartLen(Restarts(m0, board, powers), Parameter1) >= RECORD
    ensures !AllErased(Cells(Restarts(m0, board, powers), Parameter1)[..RECORD])
  {
    BlankExactly(m0, board, powers);
    RequestMeans(m0, board);
    var k := Bite(BeforeRecord(m0, board), powers);
    assert RecordIn(m0)[k..][TAG - k] == 0x55;
  }
}
