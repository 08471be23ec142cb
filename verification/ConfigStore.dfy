/** The configuration store: two flash copies of the system and user configuration, each guarded by a CRC. */
module ConfigStore {
  import opened Bytes
  import opened Checksums
  import opened FlashMemory

  const BOOT_TABLE: nat := 24
  const USER_OFFSET: nat := 0x400
  const CRC_OFFSET: nat := 0xE00
  const PAGE: nat := 0x1000
  const MAGIC: nat := 0xA43E_2165

  /** The part of a copy that its checksum covers. */
  datatype Config = Config(sys: seq<byte>, user: seq<byte>)

  /** The sizes of the two configurations, and the checksum, of which nothing is used but that it is a function of
      them. */
  datatype Layout = Layout(sys: nat, user: nat, sum: Config -> word)

  /** The checksum of the original: CRC-16 in two pieces. */
  function ConfigCrc(c: Config): word {
    Final(Update(Update(0, c.sys), c.user))
  }

  lemma ConfigCrcIsCrc16(c: Config)
    ensures ConfigCrc(c) == Crc16(c.sys + c.user)
  {
    UpdateConcat(0, c.sys, c.user);
  }

  predicate Sane(L: Layout) {
    8 <= L.sys && BOOT_TABLE + L.sys <= 0x400 && L.user <= 0xA00
  }

  /** flashContentInRam, and the configuration of the application behind it. */
  datatype Content = Content(boot: seq<byte>, sys: seq<byte>, user: seq<byte>)

  predicate Sized(L: Layout, c: Content) {
    Sane(L) && |c.boot| == BOOT_TABLE && |c.sys| == L.sys && |c.user| == L.user
  }

  /** Both parameter partitions are one sector. */
  predicate Shaped(m: Medium) {
    Parameter1 in m.mem && Parameter2 in m.mem && |m.mem[Parameter1]| == PAGE && |m.mem[Parameter2]| == PAGE
  }

  function CrcOf(L: Layout, c: Config): word {
    L.sum(c)
  }

  function CrcBytes(crc: word): seq<byte> {
    [((crc as nat) % 0x100) as byte, ((crc as nat) / 0x100) as byte]
  }

  /** is_crc_match: a checksum of zero never matches. */
  predicate Match(crc1: word, crc2: word) {
    crc1 != 0 && crc2 != 0 && crc1 == crc2
  }

  // ---------------------------------------------------------------- reading a copy

  function BootIn(page: seq<byte>): seq<byte>
    requires |page| == PAGE
  {
    page[..BOOT_TABLE]
  }

  function ConfigIn(L: Layout, page: seq<byte>): Config
    requires Sane(L) && |page| == PAGE
  {
    Config(page[BOOT_TABLE..BOOT_TABLE + L.sys], page[USER_OFFSET..USER_OFFSET + L.user])
  }

  function StoredCrc(page: seq<byte>): word
    requires |page| == PAGE
  {
    Le16(page[CRC_OFFSET], page[CRC_OFFSET + 1]) as word
  }

  predicate Valid(L: Layout, page: seq<byte>)
    requires Sane(L) && |page| == PAGE
  {
    Match(CrcOf(L, ConfigIn(L, page)), StoredCrc(page))
  }

  /** A copy that was written completely. */
  predicate Holds(L: Layout, page: seq<byte>, c: Content, crc: word)
    requires Sized(L, c) && |page| == PAGE
  {
    BootIn(page) == c.boot && ConfigIn(L, page) == Config(c.sys, c.user) && StoredCrc(page) == crc
  }

  // ---------------------------------------------------------------- writing a copy

  /** Erase a partition, then write content, user configuration and checksum, in that order. */
  function Copy(L: Layout, m: Medium, p: Partition, n: nat, c: Content, crc: word): Medium {
    var m1 := Erase(m, p, 0, n);
    var m2 := Write(m1, p, 0, c.boot + c.sys);
    var m3 := Write(m2, p, USER_OFFSET, c.user);
    Write(m3, p, CRC_OFFSET, CrcBytes(crc))
  }

  /** Writing a copy touches its partition only. */
  lemma CopyFrame(L: Layout, m: Medium, p: Partition, n: nat, c: Content, crc: word)
    ensures SameBut(m, Copy(L, m, p, n, c, crc), p)
  {
    var m1 := Erase(m, p, 0, n);
    var m2 := Write(m1, p, 0, c.boot + c.sys);
    var m3 := Write(m2, p, USER_OFFSET, c.user);
    EraseFrame(m, p, 0, n);
    WriteFrame(m1, p, 0, c.boot + c.sys);
    WriteFrame(m2, p, USER_OFFSET, c.user);
    WriteFrame(m3, p, CRC_OFFSET, CrcBytes(crc));
  }

  /** An erase that is not cut leaves the whole page blank, also when only the content is asked for. */
  lemma EraseDone(m: Medium, p: Partition, n: nat)
    requires p in m.mem && |m.mem[p]| == PAGE && 0 < n <= PAGE && Erase(m, p, 0, n).on
    ensures Erase(m, p, 0, n).mem[p] == Fill(PAGE, ERASED)
  {
    assert (n + 0xFFF) / 0x1000 == 1;
  }

  /** A write that is not cut, on erased cells, stores the data and nothing else. */
  lemma WriteDone(m: Medium, p: Partition, off: nat, data: seq<byte>)
    requires p in m.mem && off + |data| <= |m.mem[p]| && Write(m, p, off, data).on
    requires forall i :: off <= i < off + |data| ==> m.mem[p][i] == ERASED
    ensures Write(m, p, off, data).mem[p] == m.mem[p][..off] + data + m.mem[p][off + |data|..]
  {
    if |data| > 0 {
      ProgramBlank(m.mem[p], off, data);
    }
  }

  function Blanks(n: int): seq<byte> {
    if n < 0 then [] else Fill(n, ERASED)
  }

  /** The whole page a completed copy leaves. */
  function Page(L: Layout, c: Content, crc: word): (page: seq<byte>)
    requires Sized(L, c)
    ensures |page| == PAGE
  {
    c.boot + c.sys + Blanks(USER_OFFSET - BOOT_TABLE - L.sys) + c.user + Blanks(CRC_OFFSET - USER_OFFSET - L.user)
    + CrcBytes(crc) + Blanks(PAGE - CRC_OFFSET - 2)
  }

  /** The page once the content is written, and once the user configuration is. */
  function AfterHead(L: Layout, c: Content): seq<byte>
    requires Sized(L, c)
  {
    c.boot + c.sys + Blanks(PAGE - BOOT_TABLE - L.sys)
  }

  function AfterUser(L: Layout, c: Content): seq<byte>
    requires Sized(L, c)
  {
    c.boot + c.sys + Blanks(USER_OFFSET - BOOT_TABLE - L.sys) + c.user + Blanks(PAGE - USER_OFFSET - L.user)
  }

  lemma HeadDone(L: Layout, m: Medium, p: Partition, c: Content)
    requires Sized(L, c) && p in m.mem && m.mem[p] == Fill(PAGE, ERASED) && Write(m, p, 0, c.boot + c.sys).on
    ensures Write(m, p, 0, c.boot + c.sys).mem[p] == AfterHead(L, c)
  {
    WriteDone(m, p, 0, c.boot + c.sys);
  }

  lemma UserDone(L: Layout, m: Medium, p: Partition, c: Content)
    requires Sized(L, c) && p in m.mem && m.mem[p] == AfterHead(L, c) && Write(m, p, USER_OFFSET, c.user).on
    ensures Write(m, p, USER_OFFSET, c.user).mem[p] == AfterUser(L, c)
  {
    WriteDone(m, p, USER_OFFSET, c.user);
    var page := AfterHead(L, c);
    assert page[..USER_OFFSET] == c.boot + c.sys + Blanks(USER_OFFSET - BOOT_TABLE - L.sys);
    assert page[USER_OFFSET + L.user..] == Blanks(PAGE - USER_OFFSET - L.user);
  }

  lemma ChecksumDone(L: Layout, m: Medium, p: Partition, c: Content, crc: word)
    requires Sized(L, c) && p in m.mem && m.mem[p] == AfterUser(L, c) && Write(m, p, CRC_OFFSET, CrcBytes(crc)).on
    ensures Write(m, p, CRC_OFFSET, CrcBytes(crc)).mem[p] == Page(L, c, crc)
  {
    var page := AfterUser(L, c);
    var front := c.boot + c.sys + Blanks(USER_OFFSET - BOOT_TABLE - L.sys) + c.user;
    assert page == front + Blanks(PAGE - USER_OFFSET - L.user) && |front| == USER_OFFSET + L.user;
    WriteDone(m, p, CRC_OFFSET, CrcBytes(crc));
    assert page[..CRC_OFFSET] == front + Blanks(CRC_OFFSET - USER_OFFSET - L.user);
    assert page[CRC_OFFSET + 2..] == Blanks(PAGE - CRC_OFFSET - 2);
  }

  /** A copy that is not cut leaves exactly this page, whatever the partition held. */
  lemma CopyDone(L: Layout, m: Medium, p: Partition, n: nat, c: Content, crc: word)
    requires Sized(L, c) && p in m.mem && |m.mem[p]| == PAGE && 0 < n <= PAGE && Copy(L, m, p, n, c, crc).on
    ensures Copy(L, m, p, n, c, crc).mem[p] == Page(L, c, crc)
  {
    var m1 := Erase(m, p, 0, n);
    var m2 := Write(m1, p, 0, c.boot + c.sys);
    var m3 := Write(m2, p, USER_OFFSET, c.user);
    WriteFrame(m1, p, 0, c.boot + c.sys);
    WriteFrame(m2, p, USER_OFFSET, c.user);
    WriteFrame(m3, p, CRC_OFFSET, CrcBytes(crc));
    EraseDone(m, p, n);
    HeadDone(L, m1, p, c);
    UserDone(L, m2, p, c);
    ChecksumDone(L, m3, p, c, crc);
  }

  lemma PageHolds(L: Layout, c: Content, crc: word)
    requires Sized(L, c)
    ensures Holds(L, Page(L, c, crc), c, crc)
  {
    var page := Page(L, c, crc);
    assert page[..BOOT_TABLE] == c.boot;
    assert page[BOOT_TABLE..BOOT_TABLE + L.sys] == c.sys;
    assert page[USER_OFFSET..USER_OFFSET + L.user] == c.user;
    assert page[CRC_OFFSET..CRC_OFFSET + 2] == CrcBytes(crc);
    assert page[CRC_OFFSET] == CrcBytes(crc)[0] && page[CRC_OFFSET + 1] == CrcBytes(crc)[1];
  }

  // ---------------------------------------------------------------- the operations

  function Word(b: seq<byte>): nat
    requires |b| == 4
  {
    Le32(b[0], b[1], b[2], b[3])
  }

  /** Magic number and seed are the last two fields of the system configuration. */
  function MagicIn(sys: seq<byte>): nat
    requires |sys| >= 8
  {
    Word(sys[|sys| - 8..|sys| - 4])
  }

  /** The value of a 32-bit signed counter. */
  function Wrap32(n: int): (r: int)
    ensures -0x8000_0000 <= r < 0x8000_0000
  {
    (n + 0x8000_0000) % 0x1_0000_0000 - 0x8000_0000
  }

  function SeedIn(sys: seq<byte>): int
    requires |sys| >= 8
  {
    Wrap32(Word(sys[|sys| - 4..]))
  }

  function WordBytes(n: nat): (r: seq<byte>)
    requires n < 0x1_0000_0000
    ensures |r| == 4
  {
    [(n % 0x100) as byte, (n / 0x100 % 0x100) as byte, (n / 0x1_0000 % 0x100) as byte, (n / 0x100_0000) as byte]
  }

  function WithSeed(sys: seq<byte>, seed: int): (r: seq<byte>)
    requires |sys| >= 8
    ensures |r| == |sys|
  {
    sys[..|sys| - 4] + WordBytes(seed % 0x1_0000_0000)
  }

  /** The defaults: those of the system, and those of an application that overrides appRestoreDefault_callback. */
  datatype Defaults = Defaults(sys: seq<byte>, app: bool, user: seq<byte>)

  predicate Proper(L: Layout, d: Defaults) {
    Sane(L) && |d.sys| == L.sys && |d.user| == L.user && MagicIn(d.sys) == MAGIC
  }

  datatype State = State(m: Medium, ram: Content, seedNum: int)

  predicate Fits(L: Layout, s: State) {
    Shaped(s.m) && Sized(L, s.ram)
  }

  function SizeOfContent(L: Layout): nat {
    BOOT_TABLE + L.sys
  }

  /** A copy of what is in RAM, with its checksum. */
  function Save(L: Layout, s: State, p: Partition): (r: State)
    requires Fits(L, s)
    ensures Fits(L, r)
  {
    var crc := CrcOf(L, Config(s.ram.sys, s.ram.user));
    CopyFrame(L, s.m, p, SizeOfContent(L), s.ram, crc);
    s.(m := Copy(L, s.m, p, SizeOfContent(L), s.ram, crc))
  }

  /** internal_update_config: both copies in turn, the backup only once the main copy is there. */
  function InternalUpdate(L: Layout, s: State): (r: (State, Status))
    requires Fits(L, s)
    ensures Fits(L, r.0)
  {
    var s1 := Save(L, s, Parameter1);
    if !s1.m.on then (s1, PowerLost)
    else if StoredCrc(s1.m.mem[Parameter1]) == 0 then (s1, WriteErr)
    else
      var s2 := Save(L, s1, Parameter2);
      (s2, Told(s2.m))
  }

  function RestoreContent(L: Layout, d: Defaults, s: State): (c: Content)
    requires Fits(L, s) && Proper(L, d)
    ensures Sized(L, c)
  {
    Content(Fill(BOOT_TABLE, 0), WithSeed(d.sys, s.seedNum), if d.app then d.user else s.ram.user)
  }

  /** mico_system_context_restore */
  function Restore(L: Layout, d: Defaults, s: State): (r: (State, Status))
    requires Fits(L, s) && Proper(L, d)
    ensures Fits(L, r.0)
  {
    InternalUpdate(L, s.(ram := RestoreContent(L, d, s)))
  }

  /** RAM once the change has been counted. */
  function Counted(L: Layout, s: State): (r: State)
    requires Fits(L, s)
    ensures Fits(L, r)
  {
    var seed := Wrap32(s.seedNum + 1);
    s.(seedNum := seed, ram := s.ram.(sys := WithSeed(s.ram.sys, seed)))
  }

  /** mico_system_context_update */
  function ContextUpdate(L: Layout, s: State): (r: (State, Status))
    requires Fits(L, s)
    ensures Fits(L, r.0)
  {
    InternalUpdate(L, Counted(L, s))
  }

  /** What MICOReadConfiguration reads first. */
  function Load(L: Layout, s: State): (r: State)
    requires Fits(L, s)
    ensures Fits(L, r)
  {
    var main := s.m.mem[Parameter1];
    s.(ram := Content(BootIn(main), ConfigIn(L, main).sys, ConfigIn(L, main).user))
  }

  /** The content the main copy is rebuilt from.  As written, the user configuration is the one read from the bad main
      copy; `mended` takes it from the backup. */
  function RecoveryContent(L: Layout, mended: bool, m: Medium): (c: Content)
    requires Shaped(m) && Sane(L)
    ensures Sized(L, c)
  {
    var main, backup := ConfigIn(L, m.mem[Parameter1]), ConfigIn(L, m.mem[Parameter2]);
    Content(Fill(BOOT_TABLE, 0), backup.sys, if mended then backup.user else main.user)
  }

  function RecoverMain(L: Layout, mended: bool, s: State): (r: (State, Status))
    requires Fits(L, s)
    ensures Fits(L, r.0)
  {
    var c, crc := RecoveryContent(L, mended, s.m), CrcOf(L, ConfigIn(L, s.m.mem[Parameter2]));
    CopyFrame(L, s.m, Parameter1, PAGE, c, crc);
    var m := Copy(L, s.m, Parameter1, PAGE, c, crc);
    (s.(m := m, ram := c), Told(m))
  }

  function RecoverBackup(L: Layout, s: State): (r: (State, Status))
    requires Fits(L, s)
    ensures Fits(L, r.0)
  {
    var crc := StoredCrc(s.m.mem[Parameter1]);
    CopyFrame(L, s.m, Parameter2, PAGE, s.ram, crc);
    var m := Copy(L, s.m, Parameter2, PAGE, s.ram, crc);
    (s.(m := m), Told(m))
  }

  /** The backup does not have to be rewritten. */
  predicate InSync(L: Layout, m: Medium)
    requires Shaped(m) && Sane(L)
  {
    var main, backup := m.mem[Parameter1], m.mem[Parameter2];
    Match(CrcOf(L, ConfigIn(L, main)), CrcOf(L, ConfigIn(L, backup))) && Valid(L, backup)
  }

  /** The first half of MICOReadConfiguration: repair the copies. */
  function Repair(L: Layout, d: Defaults, mended: bool, s: State): (r: (State, Status))
    requires Fits(L, s) && Proper(L, d)
    ensures Fits(L, r.0)
  {
    if !Valid(L, s.m.mem[Parameter1]) then
      if !Valid(L, s.m.mem[Parameter2]) then Restore(L, d, Load(L, s)) else RecoverMain(L, mended, Load(L, s))
    else if !InSync(L, s.m) then RecoverBackup(L, Load(L, s))
    else (Load(L, s), NoErr)
  }

  function TakeSeed(L: Layout, s: State): (r: State)
    requires Fits(L, s)
    ensures Fits(L, r)
  {
    var seed := SeedIn(s.ram.sys);
    s.(seedNum := if seed == -1 then 0 else seed)
  }

  /** The second half: take over the seed, and fall back to the defaults when the magic number is wrong. */
  function CheckMagic(L: Layout, d: Defaults, t: State): (r: (State, Status))
    requires Fits(L, t) && Proper(L, d)
    ensures Fits(L, r.0)
  {
    if MagicIn(t.ram.sys) != MAGIC then Restore(L, d, TakeSeed(L, t)) else (TakeSeed(L, t), NoErr)
  }

  /** MICOReadConfiguration */
  function ReadConfiguration(L: Layout, d: Defaults, mended: bool, s: State): (r: (State, Status))
    requires Fits(L, s) && Proper(L, d)
    ensures Fits(L, r.0)
  {
    var (t, err) := Repair(L, d, mended, s);
    if err != NoErr then (t, err) else CheckMagic(L, d, t)
  }

  // ---------------------------------------------------------------- the object

  /** mico_Context_t, as far as it is stored, with the seed counter. */
  class Context {
    const layout: Layout
    const defaults: Defaults
    const mended: bool
    const flash: Flash
    var boot: seq<byte>
    var sys: seq<byte>
    var user: seq<byte>
    var seedNum: int

    ghost function View(): State
      reads this, flash
    {
      State(flash.View(), Content(boot, sys, user), seedNum)
    }

    ghost predicate Ready()
      reads this, flash
    {
      Fits(layout, View()) && Proper(layout, defaults) && flash.on
    }

    constructor (layout: Layout, defaults: Defaults, mended: bool, flash: Flash)
      requires Shaped(flash.View()) && Proper(layout, defaults) && flash.on
      ensures Ready() && this.flash == flash
      ensures this.layout == layout && this.defaults == defaults && this.mended == mended
      ensures View() == State(flash.View(), Content(Fill(BOOT_TABLE, 0), Fill(layout.sys, 0), Fill(layout.user, 0)), 0)
    {
      this.layout, this.defaults, this.mended, this.flash := layout, defaults, mended, flash;
      boot, sys, user, seedNum := Fill(BOOT_TABLE, 0), Fill(layout.sys, 0), Fill(layout.user, 0), 0;
    }

    /** The erase and the three writes of a copy, given up as soon as one fails. */
    method WriteCopy(p: Partition, n: nat, crc: word) returns (err: Status)
      requires Ready() && (p == Parameter1 || p == Parameter2) && 0 < n <= PAGE
      modifies flash
      ensures flash.View() == Copy(layout, old(flash.View()), p, n, Content(boot, sys, user), crc)
      ensures err == Told(flash.View()) && Fits(layout, View())
    {
      ghost var m, c := flash.View(), Content(boot, sys, user);
      CopyFrame(layout, m, p, n, c, crc);
      EraseFrame(m, p, 0, n);
      err := flash.EraseAt(p, 0, n);
      if err != NoErr {
        return;
      }
      ghost var m1 := flash.View();
      WriteFrame(m1, p, 0, boot + sys);
      var offset;
      err, offset := flash.WriteAt(p, 0, boot + sys);
      if err != NoErr {
        return;
      }
      ghost var m2 := flash.View();
      WriteFrame(m2, p, USER_OFFSET, user);
      err, offset := flash.WriteAt(p, USER_OFFSET, user);
      if err != NoErr {
        return;
      }
      err, offset := flash.WriteAt(p, CRC_OFFSET, CrcBytes(crc));
    }

    method ReadChecksum(p: Partition) returns (crc: word)
      requires Shaped(flash.View()) && (p == Parameter1 || p == Parameter2)
      ensures crc == StoredCrc(flash.mem[p])
    {
      var err, stored, offset := flash.ReadAt(p, CRC_OFFSET, 2);
      crc := Le16(stored[0], stored[1]) as word;
    }

    method SaveTo(p: Partition, crc: word) returns (err: Status)
      requires Ready() && (p == Parameter1 || p == Parameter2) && crc == CrcOf(layout, Config(sys, user))
      modifies flash
      ensures View() == Save(layout, old(View()), p) && err == Told(flash.View())
    {
      err := WriteCopy(p, BOOT_TABLE + |sys|, crc);
    }

    /** internal_update_config */
    method InternalUpdateConfig() returns (err: Status)
      requires Ready()
      modifies flash
      ensures (View(), err) == InternalUpdate(layout, old(View()))
    {
      var crc := CrcOf(layout, Config(sys, user));
      err := SaveTo(Parameter1, crc);
      if err != NoErr {
        return;
      }
      var readback := ReadChecksum(Parameter1);
      if readback == 0 {
        return WriteErr;
      }
      err := SaveTo(Parameter2, crc);
    }

    /** mico_system_context_restore */
    method ContextRestore() returns (err: Status)
      requires Ready()
      modifies this, flash
      ensures (View(), err) == Restore(layout, defaults, old(View()))
    {
      boot := Fill(BOOT_TABLE, 0);
      sys := WithSeed(defaults.sys, seedNum);
      if defaults.app {
        user := defaults.user;
      }
      err := InternalUpdateConfig();
    }

    /** mico_system_context_update */
    method Update() returns (err: Status)
      requires Ready()
      modifies this, flash
      ensures (View(), err) == ContextUpdate(layout, old(View()))
    {
      seedNum := Wrap32(seedNum + 1);
      sys := WithSeed(sys, seedNum);
      err := InternalUpdateConfig();
    }

    /** Content, configuration and checksum of a partition. */
    method ReadCopy(p: Partition) returns (boot': seq<byte>, config: Config, crc: word)
      requires Ready() && (p == Parameter1 || p == Parameter2)
      ensures var page := flash.mem[p];
              boot' == BootIn(page) && config == ConfigIn(layout, page) && crc == StoredCrc(page)
    {
      var err, content, offset, user';
      err, content, offset := flash.ReadAt(p, 0, BOOT_TABLE + layout.sys);
      err, user', offset := flash.ReadAt(p, USER_OFFSET, layout.user);
      boot', config := content[..BOOT_TABLE], Config(content[BOOT_TABLE..], user');
      crc := ReadChecksum(p);
    }

    /** Main copy bad, backup good. */
    method RebuildMain(backup: Config, crcBackupResult: word) returns (err: Status)
      requires Ready() && user == ConfigIn(layout, flash.mem[Parameter1]).user
      requires backup == ConfigIn(layout, flash.mem[Parameter2]) && crcBackupResult == CrcOf(layout, backup)
      modifies this, flash
      ensures (View(), err) == RecoverMain(layout, mended, old(View()))
    {
      boot, sys := Fill(BOOT_TABLE, 0), backup.sys;
      if mended {
        user := backup.user;
      }
      err := WriteCopy(Parameter1, PAGE, crcBackupResult);
    }

    /** Main copy good, backup bad or different. */
    method RebuildBackup(crcTarget: word) returns (err: Status)
      requires Ready() && crcTarget == StoredCrc(flash.mem[Parameter1])
      modifies flash
      ensures (View(), err) == RecoverBackup(layout, old(View()))
    {
      err := WriteCopy(Parameter2, PAGE, crcTarget);
    }

    /** The repair half of MICOReadConfiguration. */
    method RepairCopies() returns (err: Status)
      requires Ready()
      modifies this, flash
      ensures (View(), err) == Repair(layout, defaults, mended, old(View()))
    {
      var main, backup, crcTarget, crcBackupTarget, backupBoot;
      boot, main, crcTarget := ReadCopy(Parameter1);
      sys, user := main.sys, main.user;
      backupBoot, backup, crcBackupTarget := ReadCopy(Parameter2);
      var crcResult, crcBackupResult := CrcOf(layout, main), CrcOf(layout, backup);
      assert View() == Load(layout, old(View()));
      if !Match(crcResult, crcTarget) {
        if !Match(crcBackupResult, crcBackupTarget) {
          err := ContextRestore();
        } else {
          err := RebuildMain(backup, crcBackupResult);
        }
      } else if !Match(crcResult, crcBackupResult) || !Match(crcBackupResult, crcBackupTarget) {
        err := RebuildBackup(crcTarget);
      } else {
        err := NoErr;
      }
    }

    /** MICOReadConfiguration; `memory` tells whether both buffers for the backup can be allocated. */
    method MICOReadConfiguration(memory: bool) returns (err: Status)
      requires Ready()
      modifies this, flash
      ensures (View(), err)
              == if memory then ReadConfiguration(layout, defaults, mended, old(View())) else (old(View()), NoMemoryErr)
    {
      if !memory {
        return NoMemoryErr;
      }
      err := RepairCopies();
      if err == NoErr {
        err := CheckMagicNumber();
      }
    }

    method CheckMagicNumber() returns (err: Status)
      requires Ready()
      modifies this, flash
      ensures (View(), err) == CheckMagic(layout, defaults, old(View()))
    {
      seedNum := SeedIn(sys);
      if seedNum == -1 {
        seedNum := 0;
      }
      if MagicIn(sys) != MAGIC {
        err := ContextRestore();
      } else {
        err := NoErr;
      }
    }
  }
}
