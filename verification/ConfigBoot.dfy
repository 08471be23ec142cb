/** What MICOReadConfiguration makes of the two copies, by the bytes that they hold. */
module ConfigBoot {
  import opened Bytes
  import opened Checksums
  import opened FlashMemory
  import opened ConfigStore
  import opened ConfigRecovery
  import opened ConfigUser

  /** A page with the boot table in its first 24 bytes and the system configuration behind it, the user configuration at
      0x400, the checksum at 0xE00, low byte first, and nothing else. */
  ghost predicate Laid(page: seq<byte>, boot: seq<byte>, sys: seq<byte>, user: seq<byte>, crc: word) {
    && |page| == 0x1000 && 24 + |sys| <= 0x400 && 0x400 + |user| <= 0xE00
    && page[..24] == boot && page[24..24 + |sys|] == sys && page[0x400..0x400 + |user|] == user
    && page[0xE00] as nat + 0x100 * page[0xE01] as nat == crc as nat
    && (forall i :: 24 + |sys| <= i < 0x400 ==> page[i] == 0xFF)
    && (forall i :: 0x400 + |user| <= i < 0xE00 ==> page[i] == 0xFF)
    && (forall i :: 0xE02 <= i < 0x1000 ==> page[i] == 0xFF)
  }

  function SysAt(L: Layout, page: seq<byte>): seq<byte>
    requires Sane(L) && |page| == 0x1000
  {
    page[24..24 + L.sys]
  }

  function UserAt(L: Layout, page: seq<byte>): seq<byte>
    requires Sane(L) && |page| == 0x1000
  {
    page[0x400..0x400 + L.user]
  }

  /** The checksum of what a copy holds. */
  function Sum(L: Layout, page: seq<byte>): word
    requires Sane(L) && |page| == 0x1000
  {
    L.sum(Config(SysAt(L, page), UserAt(L, page)))
  }

  /** It is stored with it, and not zero. */
  predicate Complete(L: Layout, page: seq<byte>)
    requires Sane(L) && |page| == 0x1000
  {
    Sum(L, page) != 0 && Sum(L, page) as nat == page[0xE00] as nat + 0x100 * page[0xE01] as nat
  }

  predicate InStep(L: Layout, main: seq<byte>, backup: seq<byte>)
    requires Sane(L) && |main| == |backup| == 0x1000
  {
    Complete(L, main) && Complete(L, backup) && Sum(L, main) == Sum(L, backup)
  }

  lemma Means(L: Layout, page: seq<byte>)
    requires Sane(L) && |page| == 0x1000
    ensures ConfigIn(L, page) == Config(SysAt(L, page), UserAt(L, page)) && BootIn(page) == page[..24]
    ensures StoredCrc(page) as nat == page[0xE00] as nat + 0x100 * page[0xE01] as nat
    ensures Valid(L, page) <==> Complete(L, page)
    ensures CrcOf(L, ConfigIn(L, page)) == Sum(L, page)
  {}

  lemma PageIsLaid(L: Layout, c: Content, crc: word)
    requires Sized(L, c)
    ensures Laid(Page(L, c, crc), c.boot, c.sys, c.user, crc)
  {
    PageHolds(L, c, crc);
    var page := Page(L, c, crc);
    Means(L, page);
    PageGaps(L, c, crc);
  }

  lemma PageGaps(L: Layout, c: Content, crc: word)
    requires Sized(L, c)
    ensures var page := Page(L, c, crc);
            && (forall i :: 24 + L.sys <= i < 0x400 ==> page[i] == 0xFF)
            && (forall i :: 0x400 + L.user <= i < 0xE00 ==> page[i] == 0xFF)
            && (forall i :: 0xE02 <= i < 0x1000 ==> page[i] == 0xFF)
  {
    var a := c.boot + c.sys;
    var b := a + Blanks(USER_OFFSET - BOOT_TABLE - L.sys) + c.user;
    var e := b + Blanks(CRC_OFFSET - USER_OFFSET - L.user) + CrcBytes(crc);
    assert |a| == 24 + L.sys && |b| == 0x400 + L.user && |e| == 0xE02;
    assert Page(L, c, crc) == e + Blanks(PAGE - CRC_OFFSET - 2);
  }

  lemma LaidMeans(L: Layout, page: seq<byte>, boot: seq<byte>, sys: seq<byte>, user: seq<byte>, crc: word)
    requires Sane(L) && Laid(page, boot, sys, user, crc) && |sys| == L.sys && |user| == L.user
    ensures SysAt(L, page) == sys && UserAt(L, page) == user && Sum(L, page) == L.sum(Config(sys, user))
    ensures Complete(L, page) <==> crc != 0 && crc == L.sum(Config(sys, user))
  {}

  /** Four bytes, least significant first. */
  function ValueAt(s: seq<byte>, at: nat): nat
    requires at + 4 <= |s|
  {
    s[at] as nat + 0x100 * s[at + 1] as nat + 0x1_0000 * s[at + 2] as nat + 0x100_0000 * s[at + 3] as nat
  }

  /** The restored configuration: an empty boot table, the defaults with the seed in the last four bytes of the system
      half, and the user half of an application that has defaults, or the old one. */
  ghost predicate IsDefault(L: Layout, d: Defaults, seedNum: int, user: seq<byte>, c: Content) {
    && |d.sys| == |c.sys| == L.sys && L.sys >= 8
    && c.boot == Fill(24, 0)
    && c.sys[..L.sys - 4] == d.sys[..L.sys - 4] && ValueAt(c.sys, L.sys - 4) == seedNum % 0x1_0000_0000
    && c.user == if d.app then d.user else user
  }

  lemma SeedStored(sys: seq<byte>, seed: int)
    requires |sys| >= 8
    ensures ValueAt(WithSeed(sys, seed), |sys| - 4) == seed % 0x1_0000_0000
  {
    var r, n := WithSeed(sys, seed), seed % 0x1_0000_0000;
    WordRoundTrip(n);
    assert r[|sys| - 4..] == WordBytes(n);
    forall i | 0 <= i < 4
      ensures r[|sys| - 4 + i] == WordBytes(n)[i]
    {
      assert r[|sys| - 4..][i] == r[|sys| - 4 + i];
    }
  }

  lemma RestoredIsDefault(L: Layout, d: Defaults, s: State)
    requires Fits(L, s) && Proper(L, d)
    ensures IsDefault(L, d, s.seedNum, s.ram.user, RestoreContent(L, d, s))
  {
    SeedStored(d.sys, s.seedNum);
  }

  ghost predicate BothHold(L: Layout, m: Medium, c: Content)
    requires Shaped(m)
  {
    var crc := L.sum(Config(c.sys, c.user));
    Laid(m.mem[Parameter1], c.boot, c.sys, c.user, crc) && Laid(m.mem[Parameter2], c.boot, c.sys, c.user, crc)
    && crc != 0
  }

  /** The first half of a boot, by the state of the two copies: what it loads, which copy it leaves alone, and what it
      writes over the other. */
  lemma RepairExactly(L: Layout, d: Defaults, mended: bool, s: State)
    requires Fits(L, s) && Proper(L, d) && s.m.on
    ensures var (t, err) := Repair(L, d, mended, s);
            var main, backup := s.m.mem[Parameter1], s.m.mem[Parameter2];
            var main', backup' := t.m.mem[Parameter1], t.m.mem[Parameter2];
            && t.seedNum == s.seedNum
            && (if Complete(L, main) then
                  && t.ram == Content(main[..24], SysAt(L, main), UserAt(L, main))
                  && (if InStep(L, main, backup) then err == NoErr && t.m == s.m
                      else && main' == main
                           && (err == NoErr ==> Laid(backup', t.ram.boot, t.ram.sys, t.ram.user, Sum(L, main))))
                else if Complete(L, backup) then
                  && t.ram == Content(Fill(24, 0), SysAt(L, backup), UserAt(L, if mended then backup else main))
                  && backup' == backup
                  && (err == NoErr ==> Laid(main', t.ram.boot, t.ram.sys, t.ram.user, Sum(L, backup)))
                else
                  && IsDefault(L, d, s.seedNum, UserAt(L, main), t.ram)
                  && (err == NoErr ==> BothHold(L, t.m, t.ram)))
  {
    Means(L, s.m.mem[Parameter1]);
    Means(L, s.m.mem[Parameter2]);
    if Complete(L, s.m.mem[Parameter1]) {
      FromMain(L, d, mended, s);
    } else if Complete(L, s.m.mem[Parameter2]) {
      FromBackup(L, d, mended, s);
    } else {
      FromNothing(L, d, mended, s);
    }
  }

  lemma FromMain(L: Layout, d: Defaults, mended: bool, s: State)
    requires Fits(L, s) && Proper(L, d) && s.m.on && Complete(L, s.m.mem[Parameter1])
    ensures var (t, err) := Repair(L, d, mended, s);
            var main, backup := s.m.mem[Parameter1], s.m.mem[Parameter2];
            && t.seedNum == s.seedNum && t.ram == Content(main[..24], SysAt(L, main), UserAt(L, main))
            && (if InStep(L, main, backup) then err == NoErr && t.m == s.m
                else && t.m.mem[Parameter1] == main
                     && (err == NoErr ==>
                           Laid(t.m.mem[Parameter2], t.ram.boot, t.ram.sys, t.ram.user, Sum(L, main))))
  {
    Means(L, s.m.mem[Parameter1]);
    Means(L, s.m.mem[Parameter2]);
    RepairResult(L, d, mended, s);
    var t := Repair(L, d, mended, s).0;
    PageIsLaid(L, t.ram, CrcOf(L, Config(t.ram.sys, t.ram.user)));
  }

  lemma FromBackup(L: Layout, d: Defaults, mended: bool, s: State)
    requires Fits(L, s) && Proper(L, d) && s.m.on
    requires !Complete(L, s.m.mem[Parameter1]) && Complete(L, s.m.mem[Parameter2])
    ensures var (t, err) := Repair(L, d, mended, s);
            var main, backup := s.m.mem[Parameter1], s.m.mem[Parameter2];
            && t.seedNum == s.seedNum && t.m.mem[Parameter2] == backup
            && t.ram == Content(Fill(24, 0), SysAt(L, backup), UserAt(L, if mended then backup else main))
            && (err == NoErr ==> Laid(t.m.mem[Parameter1], t.ram.boot, t.ram.sys, t.ram.user, Sum(L, backup)))
  {
    Means(L, s.m.mem[Parameter1]);
    Means(L, s.m.mem[Parameter2]);
    RepairResult(L, d, mended, s);
    PageIsLaid(L, Repair(L, d, mended, s).0.ram, Sum(L, s.m.mem[Parameter2]));
  }

  lemma FromNothing(L: Layout, d: Defaults, mended: bool, s: State)
    requires Fits(L, s) && Proper(L, d) && s.m.on
    requires !Complete(L, s.m.mem[Parameter1]) && !Complete(L, s.m.mem[Parameter2])
    ensures var (t, err) := Repair(L, d, mended, s);
            && t.seedNum == s.seedNum && IsDefault(L, d, s.seedNum, UserAt(L, s.m.mem[Parameter1]), t.ram)
            && (err == NoErr ==> BothHold(L, t.m, t.ram))
  {
    Means(L, s.m.mem[Parameter1]);
    Means(L, s.m.mem[Parameter2]);
    BothBad(L, d, mended, s);
    RestoredIsDefault(L, d, Load(L, s));
    var t := Repair(L, d, mended, s).0;
    PageIsLaid(L, t.ram, CrcOf(L, Config(t.ram.sys, t.ram.user)));
    RestoredHold(L, t);
  }

  lemma RestoredHold(L: Layout, t: State)
    requires Fits(L, t)
    ensures Valid(L, PageOf(L, t.ram)) ==> L.sum(Config(t.ram.sys, t.ram.user)) != 0
  {
    PageOfValid(L, t.ram, CrcOf(L, Config(t.ram.sys, t.ram.user)));
  }

  /** A 32-bit value read with a sign; the seed of erased cells counts as zero. */
  function SeedFrom(v: nat): int {
    if v == 0xFFFF_FFFF then 0 else if v < 0x8000_0000 then v else v - 0x1_0000_0000
  }

  /** The second half: the seed is taken from the last four bytes of the system configuration, and what has no magic
      number in the four before is replaced by the defaults, in RAM and in both copies. */
  lemma MagicExactly(L: Layout, d: Defaults, mended: bool, s: State)
    requires Fits(L, s) && Proper(L, d) && s.m.on && Repair(L, d, mended, s).1 == NoErr
    ensures var t := Repair(L, d, mended, s).0;
            var (r, err) := ReadConfiguration(L, d, mended, s);
            && r.seedNum == SeedFrom(ValueAt(t.ram.sys, L.sys - 4))
            && (if t.ram.sys[L.sys - 8..L.sys - 4] == [0x65, 0x21, 0x3E, 0xA4] then
                  err == NoErr && r.m == t.m && r.ram == t.ram
                else
                  && IsDefault(L, d, r.seedNum, t.ram.user, r.ram) && (err == NoErr ==> BothHold(L, r.m, r.ram)))
  {
    var t := Repair(L, d, mended, s).0;
    RepairIsOn(L, d, mended, s);
    MagicBytes(t.ram.sys);
    SeedBytes(t.ram.sys);
    if MagicIn(t.ram.sys) != MAGIC {
      var u := TakeSeed(L, t);
      RestoredIsDefault(L, d, u);
      var v := u.(ram := RestoreContent(L, d, u));
      UpdateResult(L, v);
      PageIsLaid(L, v.ram, CrcOf(L, Config(v.ram.sys, v.ram.user)));
      RestoredHold(L, v);
    }
  }

  lemma RepairIsOn(L: Layout, d: Defaults, mended: bool, s: State)
    requires Fits(L, s) && Proper(L, d) && s.m.on && Repair(L, d, mended, s).1 == NoErr
    ensures Repair(L, d, mended, s).0.m.on
  {
    if Safe(L, s.m) {
      RepairResult(L, d, mended, s);
    } else {
      BothBad(L, d, mended, s);
    }
  }

  lemma MagicBytes(sys: seq<byte>)
    requires |sys| >= 8
    ensures MagicIn(sys) == MAGIC <==> sys[|sys| - 8..|sys| - 4] == [0x65, 0x21, 0x3E, 0xA4]
  {
    var b := sys[|sys| - 8..|sys| - 4];
    assert b == [b[0], b[1], b[2], b[3]];
  }

  lemma SeedBytes(sys: seq<byte>)
    requires |sys| >= 8
    ensures SeedFrom(ValueAt(sys, |sys| - 4)) == if SeedIn(sys) == -1 then 0 else SeedIn(sys)
  {
    var b := sys[|sys| - 4..];
    assert forall i :: 0 <= i < 4 ==> b[i] == sys[|sys| - 4 + i];
  }

  /** Whatever the copies were: a boot that reports success leaves a complete backup, and a main copy that, if it is
      complete, has the same checksum. */
  lemma InStepAfterBoot(L: Layout, d: Defaults, mended: bool, s: State)
    requires Fits(L, s) && Proper(L, d) && s.m.on && ReadConfiguration(L, d, mended, s).1 == NoErr
    ensures var r := ReadConfiguration(L, d, mended, s).0;
            var main, backup := r.m.mem[Parameter1], r.m.mem[Parameter2];
            Complete(L, backup) && (Complete(L, main) ==> Sum(L, main) == Sum(L, backup))
  {
    RepairExactly(L, d, mended, s);
    MagicExactly(L, d, mended, s);
    var t := Repair(L, d, mended, s).0;
  }

  // ---------------------------------------------------------------- a cut between the copies

  /** What an update puts into RAM: the seed, counted up, in the last four bytes of the system half. */
  lemma CountedExactly(L: Layout, s: State)
    requires Fits(L, s) && -0x8000_0000 <= s.seedNum < 0x8000_0000
    ensures var u := Counted(L, s);
            && u.seedNum == (if s.seedNum == 0x7FFF_FFFF then -0x8000_0000 else s.seedNum + 1)
            && u.ram.boot == s.ram.boot && u.ram.user == s.ram.user && u.ram.sys[..L.sys - 4] == s.ram.sys[..L.sys - 4]
            && ValueAt(u.ram.sys, L.sys - 4) == (s.seedNum + 1) % 0x1_0000_0000
  {
    NextSeed(s.seedNum);
    SeedStored(s.ram.sys, Wrap32(s.seedNum + 1));
  }

  /** An update that is not cut and reports success has written this into both copies. */
  lemma SavedExactly(L: Layout, s: State)
    requires Fits(L, s) && s.m.on && ContextUpdate(L, s).1 == NoErr
    ensures var t := ContextUpdate(L, s).0;
            BothHold(L, t.m, t.ram) && t.ram == Counted(L, s).ram && t.seedNum == Counted(L, s).seedNum
  {
    var u := Counted(L, s);
    UpdateResult(L, u);
    PageIsLaid(L, u.ram, CrcOf(L, Config(u.ram.sys, u.ram.user)));
    RestoredHold(L, u);
  }

  lemma NextSeed(n: int)
    requires -0x8000_0000 <= n < 0x8000_0000
    ensures Wrap32(n + 1) == if n == 0x7FFF_FFFF then -0x8000_0000 else n + 1
    ensures Wrap32(n + 1) % 0x1_0000_0000 == (n + 1) % 0x1_0000_0000
  {}

  lemma MainWritten(L: Layout, s: State)
    requires Fits(L, s) && s.m.on && s.m.power >= MainCost(L)
    ensures Save(L, s, Parameter1).m.on && Save(L, s, Parameter1).m.power == s.m.power - MainCost(L)
  {
    var crc, n := CrcOf(L, Config(s.ram.sys, s.ram.user)), SizeOfContent(L);
    var m1 := Erase(s.m, Parameter1, 0, n);
    EraseMain(s.m, n);
    var m2 := Write(m1, Parameter1, 0, s.ram.boot + s.ram.sys);
    WritePower(m1, 0, s.ram.boot + s.ram.sys);
    var m3 := Write(m2, Parameter1, USER_OFFSET, s.ram.user);
    WritePower(m2, USER_OFFSET, s.ram.user);
    WritePower(m3, CRC_OFFSET, CrcBytes(crc));
    assert Save(L, s, Parameter1).m == Write(m3, Parameter1, CRC_OFFSET, CrcBytes(crc));
  }

  lemma NothingLeft(L: Layout, s: State)
    requires Fits(L, s) && s.m.on && s.m.power == 0
    ensures !Save(L, s, Parameter2).m.on && Save(L, s, Parameter2).m.mem == s.m.mem
  {
    var page, n := s.m.mem[Parameter2], SizeOfContent(L);
    assert Wipe(page, 0, 0) == page && s.m.mem[Parameter2 := page] == s.m.mem;
    assert (n + 0xFFF) / 0x1000 == 1;
    assert Erase(s.m, Parameter2, 0, n) == Medium(s.m.mem, 0, false);
  }

  /** An update whose supply lasts for the main copy and not a byte longer. */
  lemma CutBehindMain(L: Layout, s: State)
    requires Fits(L, s) && s.m.on && s.m.power == MainCost(L)
    requires L.sum(Config(s.ram.sys, s.ram.user)) != 0
    ensures var (t, err) := InternalUpdate(L, s);
            && err == PowerLost && !t.m.on && t.m.mem[Parameter1] == PageOf(L, s.ram)
            && t.m.mem[Parameter2] == s.m.mem[Parameter2]
  {
    MainWritten(L, s);
    UpdateResult(L, s);
    var s1 := Save(L, s, Parameter1);
    SaveResult(L, s, Parameter1);
    PageOfValid(L, s.ram, CrcOf(L, Config(s.ram.sys, s.ram.user)));
    NothingLeft(L, s1);
  }

  /** The next boot that is not cut brings the backup up to date: both copies hold the new configuration, unless the
      old backup has the checksum of the new one and is taken for it. */
  lemma ResyncedByBoot(L: Layout, d: Defaults, mended: bool, s: State, next: State)
    requires Fits(L, s) && Proper(L, d) && s.m.on && s.m.power == MainCost(L)
    requires L.sum(Config(s.ram.sys, s.ram.user)) != 0 && MagicIn(s.ram.sys) == MAGIC
    requires Fits(L, next) && next.m.on && next.m.mem == InternalUpdate(L, s).0.m.mem
    requires ReadConfiguration(L, d, mended, next).1 == NoErr
    ensures var r, old' := ReadConfiguration(L, d, mended, next).0, s.m.mem[Parameter2];
            var crc := L.sum(Config(s.ram.sys, s.ram.user));
            && InternalUpdate(L, s).1 == PowerLost && next.m.mem[Parameter2] == old'
            && r.ram == s.ram && Laid(r.m.mem[Parameter1], s.ram.boot, s.ram.sys, s.ram.user, crc)
            && if Complete(L, old') && Sum(L, old') == crc then r.m.mem[Parameter2] == old' else BothHold(L, r.m, s.ram)
  {
    CutBehindMain(L, s);
    var crc := L.sum(Config(s.ram.sys, s.ram.user));
    PageIsLaid(L, s.ram, crc);
    LaidMeans(L, PageOf(L, s.ram), s.ram.boot, s.ram.sys, s.ram.user, crc);
    RepairExactly(L, d, mended, next);
    MagicExactly(L, d, mended, next);
    MagicBytes(s.ram.sys);
  }
}
