/** What an over-the-air update does to the configuration store, whose main copy shares a partition with the record. */
module OtaConfig {
  import opened Bytes
  import opened FlashMemory
  import opened OtaUpdate
  import opened OtaRestart
  import C = ConfigStore
  import R = ConfigRecovery
  import U = ConfigUser

  /** Clearing the record leaves the configuration behind it alone. */
  lemma ConfigKept(L: C.Layout, page: seq<byte>)
    requires C.Sane(L) && |page| == C.PAGE
    ensures var r := Cleared(page);
            && |r| == C.PAGE && C.ConfigIn(L, r) == C.ConfigIn(L, page) && C.StoredCrc(r) == C.StoredCrc(page)
            && (C.Valid(L, r) <==> C.Valid(L, page))
  {
    var r := Cleared(page);
    forall i | RECORD <= i < |page|
      ensures r[i] == page[i]
    {}
    assert r[C.BOOT_TABLE..C.BOOT_TABLE + L.sys] == page[C.BOOT_TABLE..C.BOOT_TABLE + L.sys];
    assert r[C.USER_OFFSET..C.USER_OFFSET + L.user] == page[C.USER_OFFSET..C.USER_OFFSET + L.user];
  }

  /** An update that is not cut does not change what the configuration store holds; a cut one leaves the backup alone.
      */
  lemma ConfigSurvives(L: C.Layout, m: Medium, board: Board)
    requires C.Sane(L) && C.Shaped(m) && m.on && Ready(m)
    ensures var r := RunUpdate(m, board).0;
            && C.Shaped(r) && r.mem[Parameter2] == m.mem[Parameter2]
            && (r.on ==>
                  && C.ConfigIn(L, r.mem[Parameter1]) == C.ConfigIn(L, m.mem[Parameter1])
                  && (C.Valid(L, r.mem[Parameter1]) <==> C.Valid(L, m.mem[Parameter1])))
  {
    if Overlong(m, board) {
      RequestMeans(m, board);
      OverlongResult(m, board);
    } else if Requested(m, board) {
      RequestMeans(m, board);
      InstallImageFrame(m, LogIn(m, board).dest, LengthOf(RecordIn(m)));
      InstallImageResult(m, LogIn(m, board).dest, LengthOf(RecordIn(m)));
      ConfigKept(L, m.mem[Parameter1]);
    } else {
      DropStagingResult(m);
    }
  }

  /** Wherever an update is cut, also while it clears the record and with it the main copy: the backup is still good,
      and what a boot would load is unchanged, if the torn main copy does not match its checksum by chance. */
  lemma CutKeepsLoaded(L: C.Layout, recovery: bool, m: Medium, board: Board)
    requires C.Sane(L) && C.Shaped(m) && m.on && Ready(m)
    requires C.Valid(L, m.mem[Parameter2]) && R.Agree(L, recovery, m)
    requires C.Shaped(RunUpdate(m, board).0)
    requires R.Detects(L, recovery, m.mem[Parameter1], R.HalfIn(L, recovery, m.mem[Parameter2]),
                       RunUpdate(m, board).0.mem[Parameter1])
    ensures var r := RunUpdate(m, board).0;
            R.Safe(L, r) && R.Loaded(L, recovery, r) == R.Loaded(L, recovery, m)
  {
    ConfigSurvives(L, m, board);
  }

  /** The boot after a cut update: it loads the configuration from before the update, the system half as written, both
      halves when the recovery also copies the user configuration. */
  lemma BootAfterUpdate(L: C.Layout, d: C.Defaults, recovery: bool, m: Medium, board: Board,
                         s: C.State)
    requires C.Sane(L) && C.Proper(L, d) && C.Shaped(m) && m.on && Ready(m)
    requires C.Valid(L, m.mem[Parameter2]) && R.Agree(L, recovery, m)
    requires C.Shaped(RunUpdate(m, board).0)
    requires R.Detects(L, recovery, m.mem[Parameter1], R.HalfIn(L, recovery, m.mem[Parameter2]),
                       RunUpdate(m, board).0.mem[Parameter1])
    requires C.Fits(L, s) && s.m.on && s.m.mem == RunUpdate(m, board).0.mem && R.RepairDetects(L, d, recovery, s)
    ensures var (t, err) := C.Repair(L, d, recovery, s);
            && R.Loaded(L, recovery, t.m) == R.Loaded(L, recovery, m)
            && (err == NoErr ==> R.HalfOf(recovery, t.ram) == R.Loaded(L, recovery, m))
  {
    CutKeepsLoaded(L, recovery, m, board);
    R.RepairLoads(L, d, recovery, s);
  }

  // ---------------------------------------------------------------- the user configuration, as written

  /** The user bytes of the main copy when the clearing of the record is cut: an erased front while the page is being
      erased, then a front of the bytes written back. */
  function UserLeft(L: C.Layout, page: seq<byte>, power: nat): (r: seq<byte>)
    requires C.Sane(L) && |page| == C.PAGE
    ensures |r| == L.user
  {
    if power < C.PAGE then U.UserIn(L, Wipe(page, 0, power))
    else
      var j := U.Clamp(power - C.PAGE - C.USER_OFFSET, L.user);
      U.UserIn(L, page)[..j] + Fill(L.user - j, ERASED)
  }

  lemma ClearLeaves(L: C.Layout, m: Medium)
    requires C.Sane(L) && PartLen(m, Parameter1) == C.PAGE && m.on
    ensures var r := ClearRecord(m);
            PartLen(r, Parameter1) == C.PAGE
            && U.UserIn(L, r.mem[Parameter1]) == UserLeft(L, m.mem[Parameter1], m.power)
  {
    var c := m.mem[Parameter1];
    ClearFrame(m);
    ClearResult(m);
    EraseAll(m, Parameter1);
    if C.PAGE <= m.power {
      var e := Erase(m, Parameter1, 0, |c|);
      assert e.mem[Parameter1] == Wipe(c, 0, |c|);
      WriteErased(e, Parameter1, Cleared(c));
      FrontLeft(L, c, Min(C.PAGE, e.power));
    }
  }

  /** A front of the page that is written back, on erased cells. */
  lemma FrontLeft(L: C.Layout, c: seq<byte>, k: nat)
    requires C.Sane(L) && |c| == C.PAGE && k <= C.PAGE
    ensures var r := Cleared(c)[..k] + Wipe(c, 0, |c|)[k..];
            var j := U.Clamp(k - C.USER_OFFSET, L.user);
            U.UserIn(L, r) == U.UserIn(L, c)[..j] + Fill(L.user - j, ERASED)
  {
    var r, j := Cleared(c)[..k] + Wipe(c, 0, |c|)[k..], U.Clamp(k - C.USER_OFFSET, L.user);
    var left, saved := U.UserIn(L, r), U.UserIn(L, c);
    forall i | 0 <= i < L.user
      ensures left[i] == if i < j then saved[i] else ERASED
    {
      assert left[i] == r[C.USER_OFFSET + i] && saved[i] == c[C.USER_OFFSET + i];
      assert Cleared(c)[C.USER_OFFSET + i] == c[C.USER_OFFSET + i];
    }
    assert left == saved[..j] + Fill(L.user - j, ERASED);
  }

  /** The user bytes after an update whose supply lasts so many bytes longer than the install. */
  lemma UserAfterCut(L: C.Layout, m: Medium, board: Board, power: nat)
    requires C.Sane(L) && C.Shaped(m) && m.on && Requested(m, board) && !Overlong(m, board)
    requires m.power == BeforeRecord(m, board) + power
    ensures var r := RunUpdate(m, board).0;
            C.Shaped(r) && U.UserIn(L, r.mem[Parameter1]) == UserLeft(L, m.mem[Parameter1], power)
  {
    RequestMeans(m, board);
    var n, dest := LengthOf(RecordIn(m)), LogIn(m, board).dest;
    ConfigSurvives(L, m, board);
    InstallPower(m, dest, n);
    InstallFrame(m, dest, n);
    var m1 := Install(m, dest, n);
    ClearLeaves(L, m1);
    var m2 := ClearRecord(m1);
    EraseFrame(m2, OtaTemp, 0, PartLen(m2, OtaTemp));
    assert RunUpdate(m, board).0.mem[Parameter1] == m2.mem[Parameter1];
  }

  /** Which cuts keep the user configuration: those in the erase, if it is blank as far as the erase got; those later,
      if it is blank behind what was written back. */
  ghost predicate Keeps(L: C.Layout, saved: seq<byte>, power: nat)
    requires C.Sane(L) && |saved| == L.user
  {
    if power < C.PAGE then forall i :: 0 <= i < L.user && C.USER_OFFSET + i < power ==> saved[i] == ERASED
    else forall i :: U.Clamp(power - C.PAGE - C.USER_OFFSET, L.user) <= i < L.user ==> saved[i] == ERASED
  }

  lemma KeepsExactly(L: C.Layout, page: seq<byte>, power: nat)
    requires C.Sane(L) && |page| == C.PAGE
    ensures UserLeft(L, page, power) == U.UserIn(L, page) <==> Keeps(L, U.UserIn(L, page), power)
  {
    var saved, left := U.UserIn(L, page), UserLeft(L, page, power);
    if power < C.PAGE {
      forall i | 0 <= i < L.user
        ensures left[i] == if C.USER_OFFSET + i < power then ERASED else saved[i]
      {}
    } else {
      var j := U.Clamp(power - C.PAGE - C.USER_OFFSET, L.user);
      forall i | 0 <= i < L.user
        ensures left[i] == if i < j then saved[i] else ERASED
      {}
    }
    if Keeps(L, saved, power) {
      assert forall i :: 0 <= i < L.user ==> left[i] == saved[i];
    }
  }

  /** As written, when the clearing of the record was cut so that the main copy is gone, the next boot combines the
      saved system configuration with these user bytes; and on a device whose copies held the same user configuration
      it brings that back if and only if the cut is one that keeps it. */
  lemma UserAfterUpdate(L: C.Layout, d: C.Defaults, m: Medium, board: Board, power: nat, s: C.State)
    requires C.Sane(L) && C.Proper(L, d) && C.Shaped(m) && m.on && Requested(m, board) && !Overlong(m, board)
    requires m.power == BeforeRecord(m, board) + power && C.Valid(L, m.mem[Parameter2])
    requires C.Fits(L, s) && s.m.on && s.m.mem == RunUpdate(m, board).0.mem && !C.Valid(L, s.m.mem[Parameter1])
    ensures var saved, ram := C.ConfigIn(L, m.mem[Parameter2]), C.Repair(L, d, false, s).0.ram;
            && ram == C.Content(Fill(C.BOOT_TABLE, 0), saved.sys, UserLeft(L, m.mem[Parameter1], power))
            && (U.UserIn(L, m.mem[Parameter1]) == saved.user ==>
                  (C.Config(ram.sys, ram.user) == saved <==> Keeps(L, saved.user, power)))
  {
    UserAfterCut(L, m, board, power);
    ConfigSurvives(L, m, board);
    R.RepairResult(L, d, false, s);
    KeepsExactly(L, m.mem[Parameter1], power);
  }
}
