/** What becomes of the user configuration when the power fails in the middle of an update and the next boot recovers,
    as the code is written, from the backup: it takes whatever user bytes the torn main copy holds. */
module ConfigUser {
  import opened Bytes
  import opened FlashMemory
  import opened ConfigStore
  import opened ConfigRecovery

  /** What an update programs and erases before the main copy is complete. */
  function MainCost(L: Layout): nat {
    PAGE + BOOT_TABLE + L.sys + L.user + 2
  }

  function Clamp(x: int, n: nat): (r: nat)
    ensures r <= n
  {
    if x < 0 then 0 else if x > n then n else x
  }

  function UserIn(L: Layout, page: seq<byte>): (r: seq<byte>)
    requires Sane(L) && |page| == PAGE
    ensures |r| == L.user && r == ConfigIn(L, page).user
  {
    page[USER_OFFSET..USER_OFFSET + L.user]
  }

  /** The user bytes of the main copy after an update that was cut: the old ones with an erased front while the page was
      being erased, then 0xFF, then a front of the new ones. */
  function UserLeft(L: Layout, main: seq<byte>, user: seq<byte>, power: nat): (r: seq<byte>)
    requires Sane(L) && |main| == PAGE && |user| == L.user
    ensures |r| == L.user
  {
    if power < PAGE then UserIn(L, Wipe(main, 0, power))
    else
      var j := Clamp(power - PAGE - BOOT_TABLE - L.sys, L.user);
      user[..j] + Fill(L.user - j, ERASED)
  }

  // ---------------------------------------------------------------- the single operations

  lemma EraseMain(m: Medium, n: nat)
    requires Shaped(m) && m.on && 0 < n <= PAGE
    ensures var r := Erase(m, Parameter1, 0, n);
            && Shaped(r) && (r.on <==> PAGE <= m.power)
            && (r.on ==> r.power == m.power - PAGE && r.mem[Parameter1] == Fill(PAGE, ERASED))
            && (!r.on ==> r.mem[Parameter1] == Wipe(m.mem[Parameter1], 0, m.power))
  {
    assert (n + 0xFFF) / 0x1000 == 1;
    EraseFrame(m, Parameter1, 0, n);
    if PAGE <= m.power {
      EraseDone(m, Parameter1, n);
    }
  }

  lemma WritePower(m: Medium, off: nat, data: seq<byte>)
    requires Shaped(m) && m.on && off + |data| <= PAGE
    ensures var r := Write(m, Parameter1, off, data);
            && Shaped(r) && (r.on <==> |data| <= m.power)
            && (r.on ==> r.power == m.power - |data|)
            && (!r.on ==> r.mem[Parameter1] == Program(m.mem[Parameter1], off, data[..m.power]))
  {
    WriteFrame(m, Parameter1, off, data);
  }

  /** Nothing happens without power. */
  lemma WriteOff(m: Medium, off: nat, data: seq<byte>)
    requires !m.on
    ensures Write(m, Parameter1, off, data) == m
  {}

  // ---------------------------------------------------------------- what a cut leaves

  /** Cut while the system configuration is being written. */
  lemma CutHead(L: Layout, c: Content, k: nat)
    requires Sized(L, c) && k <= BOOT_TABLE + L.sys
    ensures UserIn(L, Program(Fill(PAGE, ERASED), 0, (c.boot + c.sys)[..k])) == Fill(L.user, ERASED)
  {}

  /** Cut while the user configuration is being written. */
  lemma CutUser(L: Layout, c: Content, j: nat)
    requires Sized(L, c) && j <= L.user
    ensures UserIn(L, Program(AfterHead(L, c), USER_OFFSET, c.user[..j])) == c.user[..j] + Fill(L.user - j, ERASED)
  {
    var page := AfterHead(L, c);
    var r := Program(page, USER_OFFSET, c.user[..j]);
    forall i | 0 <= i < L.user
      ensures r[USER_OFFSET + i] == if i < j then c.user[i] else ERASED
    {
      assert page[USER_OFFSET + i] == ERASED;
      AndErased(c.user[i]);
    }
  }

  /** Cut while the checksum is being written. */
  lemma CutChecksum(L: Layout, c: Content, crc: seq<byte>)
    requires Sized(L, c) && |crc| <= 2
    ensures UserIn(L, Program(AfterUser(L, c), CRC_OFFSET, crc)) == c.user
  {
    var page := AfterUser(L, c);
    assert page[USER_OFFSET..USER_OFFSET + L.user] == c.user;
    var r := Program(page, CRC_OFFSET, crc);
    forall i | 0 <= i < L.user
      ensures r[USER_OFFSET + i] == c.user[i]
    {
      assert page[USER_OFFSET + i] == page[USER_OFFSET..USER_OFFSET + L.user][i];
    }
  }

  /** The three writes that follow the erase. */
  lemma CutWrites(L: Layout, m: Medium, c: Content, crc: seq<byte>)
    requires Sized(L, c) && Shaped(m) && m.on && m.mem[Parameter1] == Fill(PAGE, ERASED) && |crc| == 2
    requires m.power < BOOT_TABLE + L.sys + L.user + 2
    ensures var m2 := Write(m, Parameter1, 0, c.boot + c.sys);
            var m3 := Write(m2, Parameter1, USER_OFFSET, c.user);
            var r := Write(m3, Parameter1, CRC_OFFSET, crc);
            var j := Clamp(m.power - BOOT_TABLE - L.sys, L.user);
            !r.on && Shaped(r) && UserIn(L, r.mem[Parameter1]) == c.user[..j] + Fill(L.user - j, ERASED)
  {
    var head := c.boot + c.sys;
    var m2 := Write(m, Parameter1, 0, head);
    var m3 := Write(m2, Parameter1, USER_OFFSET, c.user);
    WritePower(m, 0, head);
    if !m2.on {
      CutHead(L, c, m.power);
      WriteOff(m2, USER_OFFSET, c.user);
      WriteOff(m2, CRC_OFFSET, crc);
      assert c.user[..0] == [];
    } else {
      HeadDone(L, m, Parameter1, c);
      WritePower(m2, USER_OFFSET, c.user);
      if !m3.on {
        CutUser(L, c, m2.power);
        WriteOff(m3, CRC_OFFSET, crc);
      } else {
        UserDone(L, m2, Parameter1, c);
        WritePower(m3, CRC_OFFSET, crc);
        CutChecksum(L, c, crc[..m3.power]);
        assert c.user[..L.user] == c.user;
      }
    }
  }

  /** At every point before the main copy is complete, a cut leaves the backup as it was, and these user bytes in the
      main copy. */
  lemma CutMain(L: Layout, s: State)
    requires Fits(L, s) && s.m.on && s.m.power < MainCost(L)
    ensures var t := InternalUpdate(L, s).0;
            && !t.m.on && t.m.mem[Parameter2] == s.m.mem[Parameter2]
            && UserIn(L, t.m.mem[Parameter1]) == UserLeft(L, s.m.mem[Parameter1], s.ram.user, s.m.power)
  {
    var crc, n := CrcOf(L, Config(s.ram.sys, s.ram.user)), SizeOfContent(L);
    var m1 := Erase(s.m, Parameter1, 0, n);
    EraseMain(s.m, n);
    SaveResult(L, s, Parameter1);
    if m1.on {
      CutWrites(L, m1, s.ram, CrcBytes(crc));
    } else {
      var head := s.ram.boot + s.ram.sys;
      WriteOff(m1, 0, head);
      WriteOff(m1, USER_OFFSET, s.ram.user);
      WriteOff(m1, CRC_OFFSET, CrcBytes(crc));
    }
    assert Save(L, s, Parameter1).m == Copy(L, s.m, Parameter1, n, s.ram, crc);
  }

  // ---------------------------------------------------------------- the next boot

  /** Wherever an update was cut before its main copy was complete, the next boot, as written, combines the system
      configuration of the backup with these user bytes. */
  lemma CutThenBoot(L: Layout, d: Defaults, s: State, next: State)
    requires Fits(L, s) && Proper(L, d) && s.m.on && s.m.power < MainCost(L) && Valid(L, s.m.mem[Parameter2])
    requires Fits(L, next) && next.m.on && next.m.mem == InternalUpdate(L, s).0.m.mem
    requires !Valid(L, next.m.mem[Parameter1])
    ensures Repair(L, d, false, next).0.ram
            == Content(Fill(BOOT_TABLE, 0), ConfigIn(L, s.m.mem[Parameter2]).sys,
                       UserLeft(L, s.m.mem[Parameter1], s.ram.user, s.m.power))
  {
    CutMain(L, s);
    RepairResult(L, d, false, next);
  }

  /** Which cuts keep a user configuration: those in the erase, if it is blank as far as the erase got; those later,
      if it agrees with the new one as far as that was written and is blank behind. */
  ghost predicate Keeps(L: Layout, saved: seq<byte>, user: seq<byte>, power: nat)
    requires Sane(L) && |saved| == |user| == L.user
  {
    if power < PAGE then forall i :: 0 <= i < L.user && USER_OFFSET + i < power ==> saved[i] == ERASED
    else
      var j := Clamp(power - PAGE - BOOT_TABLE - L.sys, L.user);
      forall i :: 0 <= i < L.user ==> saved[i] == if i < j then user[i] else ERASED
  }

  lemma KeepsExactly(L: Layout, main: seq<byte>, user: seq<byte>, power: nat)
    requires Sane(L) && |main| == PAGE && |user| == L.user
    ensures UserLeft(L, main, user, power) == UserIn(L, main) <==> Keeps(L, UserIn(L, main), user, power)
  {
    var saved, left := UserIn(L, main), UserLeft(L, main, user, power);
    if power < PAGE {
      forall i | 0 <= i < L.user
        ensures left[i] == if USER_OFFSET + i < power then ERASED else saved[i]
      {}
    } else {
      var j := Clamp(power - PAGE - BOOT_TABLE - L.sys, L.user);
      forall i | 0 <= i < L.user
        ensures left[i] == if i < j then user[i] else ERASED
      {}
    }
    if Keeps(L, saved, user, power) {
      assert forall i :: 0 <= i < L.user ==> left[i] == saved[i];
    }
  }

  /** On a device whose two copies held the same user configuration, the boot after a cut brings it back if and only
      if the cut is one that keeps it. */
  lemma UserBackExactly(L: Layout, d: Defaults, s: State, next: State)
    requires Fits(L, s) && Proper(L, d) && s.m.on && s.m.power < MainCost(L) && Valid(L, s.m.mem[Parameter2])
    requires UserIn(L, s.m.mem[Parameter1]) == UserIn(L, s.m.mem[Parameter2])
    requires Fits(L, next) && next.m.on && next.m.mem == InternalUpdate(L, s).0.m.mem
    requires !Valid(L, next.m.mem[Parameter1])
    ensures var saved, ram := ConfigIn(L, s.m.mem[Parameter2]), Repair(L, d, false, next).0.ram;
            Config(ram.sys, ram.user) == saved <==> Keeps(L, saved.user, s.ram.user, s.m.power)
  {
    CutThenBoot(L, d, s, next);
    KeepsExactly(L, s.m.mem[Parameter1], s.ram.user, s.m.power);
  }

  // ---------------------------------------------------------------- a mixture

  /** Cut just before the checksum the page holds everything else. */
  lemma CutBeforeChecksum(L: Layout, s: State)
    requires Fits(L, s) && s.m.on && s.m.power == MainCost(L) - 2
    ensures InternalUpdate(L, s).0.m.mem[Parameter1] == AfterUser(L, s.ram)
  {
    var crc, n, c := CrcOf(L, Config(s.ram.sys, s.ram.user)), SizeOfContent(L), s.ram;
    var m1 := Erase(s.m, Parameter1, 0, n);
    EraseMain(s.m, n);
    var m2 := Write(m1, Parameter1, 0, c.boot + c.sys);
    WritePower(m1, 0, c.boot + c.sys);
    HeadDone(L, m1, Parameter1, c);
    var m3 := Write(m2, Parameter1, USER_OFFSET, c.user);
    WritePower(m2, USER_OFFSET, c.user);
    UserDone(L, m2, Parameter1, c);
    WritePower(m3, CRC_OFFSET, CrcBytes(crc));
    assert Program(AfterUser(L, c), CRC_OFFSET, CrcBytes(crc)[..0]) == AfterUser(L, c);
    assert Save(L, s, Parameter1).m == Write(m3, Parameter1, CRC_OFFSET, CrcBytes(crc));
  }

  lemma ChecksumMissing(L: Layout, c: Content)
    requires Sized(L, c)
    ensures StoredCrc(AfterUser(L, c)) == 0xFFFF && ConfigIn(L, AfterUser(L, c)) == Config(c.sys, c.user)
  {
    var page := AfterUser(L, c);
    assert page[BOOT_TABLE..BOOT_TABLE + L.sys] == c.sys;
    assert page[USER_OFFSET..USER_OFFSET + L.user] == c.user;
    assert page[CRC_OFFSET] == ERASED && page[CRC_OFFSET + 1] == ERASED;
  }

  /** As written the promise of the old or the new configuration is broken: cut there, every update whose checksum is
      not 0xFFFF makes the next boot load the old system configuration with the new user configuration. */
  lemma OldSystemNewUser(L: Layout, d: Defaults, s: State, next: State)
    requires Fits(L, s) && Proper(L, d) && s.m.on && s.m.power == MainCost(L) - 2 && Valid(L, s.m.mem[Parameter2])
    requires CrcOf(L, Config(s.ram.sys, s.ram.user)) != 0xFFFF
    requires Fits(L, next) && next.m.on && next.m.mem == InternalUpdate(L, s).0.m.mem
    ensures Repair(L, d, false, next).0.ram
            == Content(Fill(BOOT_TABLE, 0), ConfigIn(L, s.m.mem[Parameter2]).sys, s.ram.user)
  {
    CutBeforeChecksum(L, s);
    ChecksumMissing(L, s.ram);
    CutThenBoot(L, d, s, next);
    assert s.ram.user[..L.user] == s.ram.user;
  }
}
