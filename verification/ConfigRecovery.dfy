/** What the configuration store survives: power cuts at any byte of an update and of the recovery itself. */
module ConfigRecovery {
  import opened Bytes
  import opened Checksums
  import opened FlashMemory
  import opened ConfigStore

  /** At least one copy is complete. */
  ghost predicate Safe(L: Layout, m: Medium)
    requires Shaped(m) && Sane(L)
  {
    Valid(L, m.mem[Parameter1]) || Valid(L, m.mem[Parameter2])
  }

  /** The page a completed save leaves. */
  function PageOf(L: Layout, c: Content): (page: seq<byte>)
    requires Sized(L, c)
    ensures |page| == PAGE
  {
    Page(L, c, CrcOf(L, Config(c.sys, c.user)))
  }

  lemma PageOfValid(L: Layout, c: Content, crc: word)
    requires Sized(L, c)
    ensures ConfigIn(L, Page(L, c, crc)) == Config(c.sys, c.user) && BootIn(Page(L, c, crc)) == c.boot
    ensures StoredCrc(Page(L, c, crc)) == crc
    ensures Valid(L, Page(L, c, crc)) <==> crc != 0 && CrcOf(L, Config(c.sys, c.user)) == crc
  {
    PageHolds(L, c, crc);
  }

  lemma SaveResult(L: Layout, s: State, p: Partition)
    requires Fits(L, s) && (p == Parameter1 || p == Parameter2)
    ensures var t := Save(L, s, p);
            && t == s.(m := t.m)
            && (t.m.on ==> t.m.mem[p] == PageOf(L, s.ram))
            && (t.m.on ==> s.m.on)
            && (p == Parameter1 ==> t.m.mem[Parameter2] == s.m.mem[Parameter2])
            && (p == Parameter2 ==> t.m.mem[Parameter1] == s.m.mem[Parameter1])
  {
    var crc := CrcOf(L, Config(s.ram.sys, s.ram.user));
    CopyFrame(L, s.m, p, SizeOfContent(L), s.ram, crc);
    if Save(L, s, p).m.on {
      CopyDone(L, s.m, p, SizeOfContent(L), s.ram, crc);
    }
  }

  /** What an update leaves, wherever the power fails: both copies; or, when the checksum is zero, the backup as it was;
      or, when cut, the backup as it was or a complete main copy. */
  lemma UpdateResult(L: Layout, s: State)
    requires Fits(L, s) && s.m.on
    ensures var (t, err) := InternalUpdate(L, s);
            var done := PageOf(L, s.ram);
            && t == s.(m := t.m)
            && (err == NoErr ==> t.m.on && Valid(L, done) && t.m.mem[Parameter1] == done && t.m.mem[Parameter2] == done)
            && (err == WriteErr ==> t.m.on && !Valid(L, done) && t.m.mem[Parameter1] == done
                                    && t.m.mem[Parameter2] == s.m.mem[Parameter2])
            && (err == PowerLost <==> !t.m.on)
            && (err == PowerLost ==> t.m.mem[Parameter2] == s.m.mem[Parameter2]
                                     || (t.m.mem[Parameter1] == done && Valid(L, done)))
            && (err == NoErr || err == WriteErr || err == PowerLost)
  {
    PageOfValid(L, s.ram, CrcOf(L, Config(s.ram.sys, s.ram.user)));
    SaveResult(L, s, Parameter1);
    SaveResult(L, Save(L, s, Parameter1), Parameter2);
  }

  /** What the repair at boot leaves: a good main copy is not touched, a good backup behind a bad main copy neither. */
  lemma RepairResult(L: Layout, d: Defaults, mended: bool, s: State)
    requires Fits(L, s) && Proper(L, d) && s.m.on && Safe(L, s.m)
    ensures var (t, err) := Repair(L, d, mended, s);
            && err == Told(t.m)
            && (Valid(L, s.m.mem[Parameter1]) ==>
                  && t.m.mem[Parameter1] == s.m.mem[Parameter1]
                  && t.ram == Load(L, s).ram
                  && (t.m.mem[Parameter2] == s.m.mem[Parameter2] || !InSync(L, s.m))
                  && (err == NoErr && !InSync(L, s.m) ==> t.m.mem[Parameter2] == PageOf(L, t.ram)))
            && (!Valid(L, s.m.mem[Parameter1]) ==>
                  && t.m.mem[Parameter2] == s.m.mem[Parameter2]
                  && t.ram == RecoveryContent(L, mended, s.m)
                  && (err == NoErr ==> t.m.mem[Parameter1]
                                       == Page(L, t.ram, CrcOf(L, ConfigIn(L, s.m.mem[Parameter2])))))
  {
    var loaded := Load(L, s);
    if !Valid(L, s.m.mem[Parameter1]) {
      var c, crc := RecoveryContent(L, mended, s.m), CrcOf(L, ConfigIn(L, s.m.mem[Parameter2]));
      CopyFrame(L, s.m, Parameter1, PAGE, c, crc);
      if Copy(L, s.m, Parameter1, PAGE, c, crc).on {
        CopyDone(L, s.m, Parameter1, PAGE, c, crc);
      }
    } else if !InSync(L, s.m) {
      var crc := StoredCrc(s.m.mem[Parameter1]);
      CopyFrame(L, s.m, Parameter2, PAGE, loaded.ram, crc);
      if Copy(L, s.m, Parameter2, PAGE, loaded.ram, crc).on {
        CopyDone(L, s.m, Parameter2, PAGE, loaded.ram, crc);
      }
    }
  }

  // ---------------------------------------------------------------- one copy always survives

  /** Main is only rewritten behind a complete backup, and the backup only behind a complete main copy. */
  ghost predicate Guarded(L: Layout, before: Medium, after: Medium)
    requires Shaped(before) && Shaped(after) && Sane(L)
  {
    && (after.mem[Parameter1] != before.mem[Parameter1] ==> Valid(L, before.mem[Parameter2]))
    && (after.mem[Parameter2] != before.mem[Parameter2] ==> Valid(L, after.mem[Parameter1]))
  }

  lemma UpdateIsSafe(L: Layout, s: State)
    requires Fits(L, s) && s.m.on && Valid(L, s.m.mem[Parameter2])
    ensures var (t, err) := InternalUpdate(L, s);
            && Safe(L, t.m) && Guarded(L, s.m, t.m)
            && (t.m.on ==> Valid(L, t.m.mem[Parameter2]))
  {
    UpdateResult(L, s);
  }

  lemma RepairIsSafe(L: Layout, d: Defaults, mended: bool, s: State)
    requires Fits(L, s) && Proper(L, d) && s.m.on && Safe(L, s.m)
    ensures var (t, err) := Repair(L, d, mended, s);
            && Safe(L, t.m) && Guarded(L, s.m, t.m)
            && (t.m.on ==> Valid(L, t.m.mem[Parameter2]))
  {
    RepairResult(L, d, mended, s);
    var t := Repair(L, d, mended, s).0;
    if Valid(L, s.m.mem[Parameter1]) {
      PageOfValid(L, t.ram, CrcOf(L, ConfigIn(L, s.m.mem[Parameter1])));
    }
  }

  /** A boot that is cut anywhere, also inside its own repairs, leaves a complete copy; one that is not cut leaves a
      complete backup. */
  lemma BootIsSafe(L: Layout, d: Defaults, mended: bool, s: State)
    requires Fits(L, s) && Proper(L, d) && s.m.on && Safe(L, s.m)
    ensures var (t, err) := ReadConfiguration(L, d, mended, s);
            Safe(L, t.m) && (t.m.on ==> Valid(L, t.m.mem[Parameter2]))
    ensures var (t, err) := Repair(L, d, mended, s);
            Guarded(L, s.m, t.m) && (t.m.on ==> Guarded(L, t.m, ReadConfiguration(L, d, mended, s).0.m))
  {
    RepairIsSafe(L, d, mended, s);
    RepairResult(L, d, mended, s);
    var (t, err) := Repair(L, d, mended, s);
    if err == NoErr && MagicIn(t.ram.sys) != MAGIC {
      var u := TakeSeed(L, t);
      UpdateIsSafe(L, u.(ram := RestoreContent(L, d, u)));
    }
  }

  /** Only when both copies are bad are the defaults restored, with an empty boot table, the seed at the end of the
      system half and the user bytes of the bad main copy unless the application has its own; and then both copies hold
      them. */
  lemma BothBad(L: Layout, d: Defaults, mended: bool, s: State)
    requires Fits(L, s) && Proper(L, d) && s.m.on && !Safe(L, s.m)
    ensures var (t, err) := Repair(L, d, mended, s);
            && t.ram.boot == Fill(24, 0) && |t.ram.sys| == L.sys && t.ram.sys[..L.sys - 4] == d.sys[..L.sys - 4]
            && Word(t.ram.sys[L.sys - 4..]) == s.seedNum % 0x1_0000_0000
            && t.ram.user == (if d.app then d.user else ConfigIn(L, s.m.mem[Parameter1]).user)
            && t.ram == RestoreContent(L, d, Load(L, s))
            && (err == NoErr ==>
                  && t.m.on && Valid(L, PageOf(L, t.ram))
                  && t.m.mem[Parameter1] == PageOf(L, t.ram) && t.m.mem[Parameter2] == PageOf(L, t.ram))
  {
    var u := Load(L, s);
    UpdateResult(L, u.(ram := RestoreContent(L, d, u)));
    WordRoundTrip(s.seedNum % 0x1_0000_0000);
  }

  // ---------------------------------------------------------------- what the next boot loads

  /** The half of a configuration that recovery preserves: as written only the system half, when mended both. */
  function Half(mended: bool, c: Config): Config {
    if mended then c else Config(c.sys, [])
  }

  function HalfIn(L: Layout, mended: bool, page: seq<byte>): Config
    requires Sane(L) && |page| == PAGE
  {
    Half(mended, ConfigIn(L, page))
  }

  /** What a boot loads when one copy is good. */
  function Loaded(L: Layout, mended: bool, m: Medium): Config
    requires Shaped(m) && Sane(L)
  {
    HalfIn(L, mended, m.mem[if Valid(L, m.mem[Parameter1]) then Parameter1 else Parameter2])
  }

  function HalfOf(mended: bool, c: Content): Config {
    Half(mended, Config(c.sys, c.user))
  }

  /** The copies agree as far as they are both good. */
  ghost predicate Agree(L: Layout, mended: bool, m: Medium)
    requires Shaped(m) && Sane(L)
  {
    Valid(L, m.mem[Parameter1]) && Valid(L, m.mem[Parameter2]) ==>
      HalfIn(L, mended, m.mem[Parameter1]) == HalfIn(L, mended, m.mem[Parameter2])
  }

  /** The checksum does its job on a copy: if it matches afterwards, the copy is the one before or the one being
      written. */
  ghost predicate Detects(L: Layout, mended: bool, before: seq<byte>, target: Config, after: seq<byte>)
    requires Sane(L) && |before| == PAGE && |after| == PAGE
  {
    Valid(L, after) ==> HalfIn(L, mended, after) == target
                        || (Valid(L, before) && HalfIn(L, mended, after) == HalfIn(L, mended, before))
  }

  ghost predicate DetectsBoth(L: Layout, mended: bool, before: Medium, target: Config, after: Medium)
    requires Shaped(before) && Shaped(after) && Sane(L)
  {
    && Detects(L, mended, before.mem[Parameter1], target, after.mem[Parameter1])
    && Detects(L, mended, before.mem[Parameter2], target, after.mem[Parameter2])
  }

  /** ... and between the copies: when both are good, equal checksums mean equal configurations. */
  ghost predicate Distinct(L: Layout, mended: bool, m: Medium)
    requires Shaped(m) && Sane(L)
  {
    var main, backup := m.mem[Parameter1], m.mem[Parameter2];
    Valid(L, main) && Valid(L, backup) && CrcOf(L, ConfigIn(L, main)) == CrcOf(L, ConfigIn(L, backup)) ==>
      Agree(L, mended, m)
  }

  /** The state of a device that has booted. */
  ghost predicate Up(L: Layout, mended: bool, s: State) {
    Fits(L, s) && s.m.on && Valid(L, s.m.mem[Parameter2]) && Agree(L, mended, s.m)
  }

  /** After an update, wherever it is cut, a boot would load the old configuration or the new one; the new one if the
      update reports success, the old one if it reports a write error. */
  lemma UpdateLoads(L: Layout, mended: bool, s: State)
    requires Up(L, mended, s)
    requires DetectsBoth(L, mended, s.m, HalfOf(mended, s.ram), InternalUpdate(L, s).0.m)
    ensures var (t, err) := InternalUpdate(L, s);
            && Loaded(L, mended, t.m) in {Loaded(L, mended, s.m), HalfOf(mended, s.ram)}
            && (err == NoErr ==> Loaded(L, mended, t.m) == HalfOf(mended, s.ram))
            && (err == WriteErr ==> Loaded(L, mended, t.m) == Loaded(L, mended, s.m))
            && (t.m.on ==> Up(L, mended, t))
  {
    UpdateResult(L, s);
    PageOfValid(L, s.ram, CrcOf(L, Config(s.ram.sys, s.ram.user)));
  }

  ghost predicate RepairDetects(L: Layout, d: Defaults, mended: bool, s: State)
    requires Fits(L, s) && Proper(L, d)
  {
    && Distinct(L, mended, s.m)
    && DetectsBoth(L, mended, s.m, Loaded(L, mended, s.m), Repair(L, d, mended, s).0.m)
  }

  /** Repairs, cut or not, do not change what is loaded. */
  lemma RepairLoads(L: Layout, d: Defaults, mended: bool, s: State)
    requires Fits(L, s) && Proper(L, d) && s.m.on && Safe(L, s.m) && RepairDetects(L, d, mended, s)
    ensures var (t, err) := Repair(L, d, mended, s);
            && Loaded(L, mended, t.m) == Loaded(L, mended, s.m)
            && (err == NoErr ==> Up(L, mended, t) && HalfOf(mended, t.ram) == Loaded(L, mended, t.m))
  {
    RepairResult(L, d, mended, s);
    RepairIsSafe(L, d, mended, s);
    var t := Repair(L, d, mended, s).0;
    PageOfValid(L, t.ram, CrcOf(L, ConfigIn(L, s.m.mem[Parameter1])));
    PageOfValid(L, t.ram, CrcOf(L, ConfigIn(L, s.m.mem[Parameter2])));
  }

  /** What is assumed of the checksum is about torn copies only: it holds of every update and every repair that is not
      cut. */
  lemma UncutUpdateDetects(L: Layout, mended: bool, s: State)
    requires Fits(L, s) && s.m.on && InternalUpdate(L, s).0.m.on
    ensures DetectsBoth(L, mended, s.m, HalfOf(mended, s.ram), InternalUpdate(L, s).0.m)
  {
    UpdateResult(L, s);
    PageOfValid(L, s.ram, CrcOf(L, Config(s.ram.sys, s.ram.user)));
  }

  lemma UncutRepairDetects(L: Layout, d: Defaults, mended: bool, s: State)
    requires Fits(L, s) && Proper(L, d) && s.m.on && Safe(L, s.m) && Repair(L, d, mended, s).0.m.on
    ensures DetectsBoth(L, mended, s.m, Loaded(L, mended, s.m), Repair(L, d, mended, s).0.m)
  {
    RepairResult(L, d, mended, s);
    var t := Repair(L, d, mended, s).0;
    PageOfValid(L, t.ram, CrcOf(L, ConfigIn(L, s.m.mem[Parameter1])));
    PageOfValid(L, t.ram, CrcOf(L, ConfigIn(L, s.m.mem[Parameter2])));
  }

  /** The state in which a boot restores the defaults because the magic number is wrong. */
  function BeforeRestore(L: Layout, d: Defaults, t: State): (u: State)
    requires Fits(L, t) && Proper(L, d)
    ensures Fits(L, u)
  {
    var u := TakeSeed(L, t);
    u.(ram := RestoreContent(L, d, u))
  }

  predicate Restores(L: Layout, t: State, err: Status)
    requires Fits(L, t)
  {
    err == NoErr && MagicIn(t.ram.sys) != MAGIC
  }

  ghost predicate BootDetects(L: Layout, d: Defaults, mended: bool, s: State)
    requires Fits(L, s) && Proper(L, d)
  {
    && RepairDetects(L, d, mended, s)
    && var (t, err) := Repair(L, d, mended, s);
       Restores(L, t, err) ==>
         var u := BeforeRestore(L, d, t);
         DetectsBoth(L, mended, u.m, HalfOf(mended, u.ram), InternalUpdate(L, u).0.m)
  }

  /** What a boot may load: what the medium holds, or the defaults if that has no magic number. */
  function Loadable(L: Layout, d: Defaults, mended: bool, s: State): (r: set<Config>)
    requires Fits(L, s) && Proper(L, d)
  {
    var (t, err) := Repair(L, d, mended, s);
    {Loaded(L, mended, s.m)} + if Restores(L, t, err) then {HalfOf(mended, BeforeRestore(L, d, t).ram)} else {}
  }

  lemma BootLoads(L: Layout, d: Defaults, mended: bool, s: State)
    requires Fits(L, s) && Proper(L, d) && s.m.on && Safe(L, s.m) && BootDetects(L, d, mended, s)
    ensures var (t, err) := ReadConfiguration(L, d, mended, s);
            && Loaded(L, mended, t.m) in Loadable(L, d, mended, s)
            && (err == NoErr ==> Up(L, mended, t) && HalfOf(mended, t.ram) == Loaded(L, mended, t.m))
  {
    RepairLoads(L, d, mended, s);
    RepairResult(L, d, mended, s);
    var (t, err) := Repair(L, d, mended, s);
    if Restores(L, t, err) {
      UpdateLoads(L, mended, BeforeRestore(L, d, t));
      UpdateResult(L, BeforeRestore(L, d, t));
    }
  }

  // ---------------------------------------------------------------- runs

  /** A power-up with a supply that lasts for so many bytes, or a change of the configuration that the application
      saves. */
  datatype Event = PowerUp(power: nat) | Change(content: Content)

  /** `known` is what the outside world can expect: the last configuration that was saved or loaded with success, and
      those whose saving was interrupted since. */
  datatype Device = Device(s: State, up: bool, known: set<Config>)

  function Boot(s: State, power: nat): State {
    s.(m := Medium(s.m.mem, power, true), seedNum := 0)
  }

  function OnPowerUp(L: Layout, d: Defaults, mended: bool, dev: Device, power: nat): (r: Device)
    requires Fits(L, dev.s) && Proper(L, d)
    ensures Fits(L, r.s)
  {
    var s := Boot(dev.s, power);
    var (t, err) := ReadConfiguration(L, d, mended, s);
    Device(t, err == NoErr, if err == NoErr then {HalfOf(mended, t.ram)} else dev.known + Loadable(L, d, mended, s))
  }

  function OnChange(L: Layout, mended: bool, dev: Device, c: Content): (r: Device)
    requires Fits(L, dev.s)
    ensures Fits(L, r.s)
  {
    if !dev.up || !Sized(L, c) then dev
    else
      var (t, err) := ContextUpdate(L, dev.s.(ram := c));
      var saved := HalfOf(mended, t.ram);
      Device(t, t.m.on, if err == NoErr then {saved} else if err == WriteErr then dev.known else dev.known + {saved})
  }

  function Step(L: Layout, d: Defaults, mended: bool, dev: Device, e: Event): (r: Device)
    requires Fits(L, dev.s) && Proper(L, d)
    ensures Fits(L, r.s)
  {
    match e
    case PowerUp(power) => OnPowerUp(L, d, mended, dev, power)
    case Change(content) => OnChange(L, mended, dev, content)
  }

  ghost predicate StepDetects(L: Layout, d: Defaults, mended: bool, dev: Device, e: Event)
    requires Fits(L, dev.s) && Proper(L, d)
  {
    match e
    case PowerUp(power) => BootDetects(L, d, mended, Boot(dev.s, power))
    case Change(content) =>
      dev.up && Sized(L, content) ==>
        var u := Counted(L, dev.s.(ram := content));
        DetectsBoth(L, mended, u.m, HalfOf(mended, u.ram), InternalUpdate(L, u).0.m)
  }

  function Run(L: Layout, d: Defaults, mended: bool, dev: Device, events: seq<Event>): (r: Device)
    requires Fits(L, dev.s) && Proper(L, d)
    ensures Fits(L, r.s)
    decreases |events|
  {
    if events == [] then dev else Run(L, d, mended, Step(L, d, mended, dev, events[0]), events[1..])
  }

  ghost predicate RunDetects(L: Layout, d: Defaults, mended: bool, dev: Device, events: seq<Event>)
    requires Fits(L, dev.s) && Proper(L, d)
    decreases |events|
  {
    events == [] || (StepDetects(L, d, mended, dev, events[0])
                     && RunDetects(L, d, mended, Step(L, d, mended, dev, events[0]), events[1..]))
  }

  /** Without any assumption on the checksum. */
  ghost predicate Alive(L: Layout, dev: Device) {
    && Fits(L, dev.s) && Safe(L, dev.s.m)
    && (dev.up ==> dev.s.m.on && Valid(L, dev.s.m.mem[Parameter2]))
  }

  lemma PowerUpKeepsAlive(L: Layout, d: Defaults, mended: bool, dev: Device, power: nat)
    requires Alive(L, dev) && Proper(L, d)
    ensures Alive(L, OnPowerUp(L, d, mended, dev, power))
  {
    BootIsSafe(L, d, mended, Boot(dev.s, power));
    BootStatus(L, d, mended, Boot(dev.s, power));
  }

  lemma ChangeKeepsAlive(L: Layout, mended: bool, dev: Device, c: Content)
    requires Alive(L, dev)
    ensures Alive(L, OnChange(L, mended, dev, c))
  {
    if dev.up && Sized(L, c) {
      UpdateIsSafe(L, Counted(L, dev.s.(ram := c)));
    }
  }

  lemma StepKeepsAlive(L: Layout, d: Defaults, mended: bool, dev: Device, e: Event)
    requires Alive(L, dev) && Proper(L, d)
    ensures Alive(L, Step(L, d, mended, dev, e))
  {
    match e
    case PowerUp(power) => PowerUpKeepsAlive(L, d, mended, dev, power);
    case Change(content) => ChangeKeepsAlive(L, mended, dev, content);
  }

  lemma BootStatus(L: Layout, d: Defaults, mended: bool, s: State)
    requires Fits(L, s) && Proper(L, d) && s.m.on && Safe(L, s.m)
    ensures var (t, err) := ReadConfiguration(L, d, mended, s); err == NoErr ==> t.m.on
  {
    RepairResult(L, d, mended, s);
    var (t, err) := Repair(L, d, mended, s);
    if Restores(L, t, err) {
      UpdateResult(L, BeforeRestore(L, d, t));
    }
  }

  /** Over every run of power-ups, changes and power cuts at any byte, one copy is always complete, and the backup is
      whenever the device is up. */
  lemma {:induction false} AlwaysOneCopy(L: Layout, d: Defaults, mended: bool, dev: Device, events: seq<Event>)
    requires Alive(L, dev) && Proper(L, d)
    ensures Alive(L, Run(L, d, mended, dev, events))
    decreases |events|
  {
    if events != [] {
      StepKeepsAlive(L, d, mended, dev, events[0]);
      AlwaysOneCopy(L, d, mended, Step(L, d, mended, dev, events[0]), events[1..]);
    }
  }

  ghost predicate Faithful(L: Layout, mended: bool, dev: Device) {
    && Fits(L, dev.s) && Safe(L, dev.s.m) && Loaded(L, mended, dev.s.m) in dev.known
    && (dev.up ==> Up(L, mended, dev.s))
  }

  lemma PowerUpKeepsFaithful(L: Layout, d: Defaults, mended: bool, dev: Device, power: nat)
    requires Faithful(L, mended, dev) && Proper(L, d) && BootDetects(L, d, mended, Boot(dev.s, power))
    ensures Faithful(L, mended, OnPowerUp(L, d, mended, dev, power))
  {
    BootIsSafe(L, d, mended, Boot(dev.s, power));
    BootLoads(L, d, mended, Boot(dev.s, power));
  }

  lemma ChangeKeepsFaithful(L: Layout, mended: bool, dev: Device, c: Content)
    requires Faithful(L, mended, dev) && dev.up && Sized(L, c)
    requires var u := Counted(L, dev.s.(ram := c));
             DetectsBoth(L, mended, u.m, HalfOf(mended, u.ram), InternalUpdate(L, u).0.m)
    ensures Faithful(L, mended, OnChange(L, mended, dev, c))
  {
    var u := Counted(L, dev.s.(ram := c));
    UpdateIsSafe(L, u);
    UpdateLoads(L, mended, u);
    UpdateStatus(L, u);
  }

  lemma UpdateStatus(L: Layout, s: State)
    requires Fits(L, s) && s.m.on
    ensures var (t, err) := InternalUpdate(L, s);
            && (err == NoErr || err == WriteErr || err == PowerLost)
            && (err == PowerLost <==> !t.m.on) && t.ram == s.ram
  {
    UpdateResult(L, s);
  }

  lemma StepKeepsFaithful(L: Layout, d: Defaults, mended: bool, dev: Device, e: Event)
    requires Faithful(L, mended, dev) && Proper(L, d) && StepDetects(L, d, mended, dev, e)
    ensures Faithful(L, mended, Step(L, d, mended, dev, e))
  {
    match e
    case PowerUp(power) => PowerUpKeepsFaithful(L, d, mended, dev, power);
    case Change(content) => if dev.up && Sized(L, content) { ChangeKeepsFaithful(L, mended, dev, content); }
  }

  /** A run may start from what a successful save has left. */
  lemma SavedIsFaithful(L: Layout, mended: bool, s: State, c: Content)
    requires Fits(L, s) && Sized(L, c) && Valid(L, PageOf(L, c))
    requires s.m.mem[Parameter1] == PageOf(L, c) && s.m.mem[Parameter2] == PageOf(L, c)
    ensures var dev := Device(s, s.m.on, {HalfOf(mended, c)}); Faithful(L, mended, dev) && Alive(L, dev)
  {
    PageOfValid(L, c, CrcOf(L, Config(c.sys, c.user)));
  }

  /** Over every run in which checksums do not collide, what a boot would load is the configuration last saved or loaded
      with success, or one whose saving was interrupted since: never a mixture, never an older one. */
  lemma {:induction false} NeverAMixture(L: Layout, d: Defaults, mended: bool, dev: Device, events: seq<Event>)
    requires Faithful(L, mended, dev) && Proper(L, d) && RunDetects(L, d, mended, dev, events)
    ensures Faithful(L, mended, Run(L, d, mended, dev, events))
    decreases |events|
  {
    if events != [] {
      StepKeepsFaithful(L, d, mended, dev, events[0]);
      NeverAMixture(L, d, mended, Step(L, d, mended, dev, events[0]), events[1..]);
    }
  }

  // ---------------------------------------------------------------- booting twice

  lemma WordRoundTrip(n: nat)
    requires n < 0x1_0000_0000
    ensures Word(WordBytes(n)) == n
  {
    var q := n / 0x100;
    assert n / 0x1_0000 == q / 0x100 && n / 0x100_0000 == q / 0x100 / 0x100;
  }

  lemma Signed(seed: int)
    requires -0x8000_0000 <= seed < 0x8000_0000
    ensures Wrap32(seed % 0x1_0000_0000) == seed
  {}

  lemma SeedRoundTrip(sys: seq<byte>, seed: int)
    requires |sys| >= 8 && -0x8000_0000 <= seed < 0x8000_0000
    ensures SeedIn(WithSeed(sys, seed)) == seed
    ensures MagicIn(WithSeed(sys, seed)) == MagicIn(sys)
  {
    WordRoundTrip(seed % 0x1_0000_0000);
    Signed(seed);
    var k, r := |sys| - 4, WithSeed(sys, seed);
    assert r[k..] == WordBytes(seed % 0x1_0000_0000);
    assert r[k - 4..k] == sys[k - 4..k];
  }

  /** A boot that finds both copies as a successful save left them loads them and writes nothing. */
  lemma BootAfterSave(L: Layout, d: Defaults, mended: bool, s: State, c: Content)
    requires Fits(L, s) && Proper(L, d) && s.m.on && Sized(L, c) && MagicIn(c.sys) == MAGIC
    requires Valid(L, PageOf(L, c)) && s.m.mem[Parameter1] == PageOf(L, c) && s.m.mem[Parameter2] == PageOf(L, c)
    ensures ReadConfiguration(L, d, mended, s) == (TakeSeed(L, s.(ram := c)), NoErr)
  {
    PageOfValid(L, c, CrcOf(L, Config(c.sys, c.user)));
    assert Load(L, s).ram == c;
  }

  lemma SavedThenBoot(L: Layout, d: Defaults, mended: bool, u: State, next: State)
    requires Fits(L, u) && Proper(L, d) && u.m.on && MagicIn(u.ram.sys) == MAGIC && InternalUpdate(L, u).1 == NoErr
    requires Fits(L, next) && next.m.on && next.m.mem == InternalUpdate(L, u).0.m.mem
    ensures ReadConfiguration(L, d, mended, next) == (TakeSeed(L, next.(ram := u.ram)), NoErr)
  {
    UpdateResult(L, u);
    BootAfterSave(L, d, mended, next, u.ram);
  }

  lemma CountedSeed(L: Layout, s: State)
    requires Fits(L, s)
    ensures var u := Counted(L, s);
            && SeedIn(u.ram.sys) == Wrap32(s.seedNum + 1) == u.seedNum && MagicIn(u.ram.sys) == MagicIn(s.ram.sys)
            && u.ram.boot == s.ram.boot && u.ram.user == s.ram.user
            && u.ram.sys[..L.sys - 4] == s.ram.sys[..L.sys - 4]
  {
    SeedRoundTrip(s.ram.sys, Wrap32(s.seedNum + 1));
  }

  /** A successful save is what the next boot loads, boot table and system and user configuration with the seed counted
      up; and that boot writes nothing. */
  lemma UpdateThenBoot(L: Layout, d: Defaults, mended: bool, s: State, next: State)
    requires Fits(L, s) && Proper(L, d) && s.m.on && MagicIn(s.ram.sys) == MAGIC && ContextUpdate(L, s).1 == NoErr
    requires Fits(L, next) && next.m.on && next.m.mem == ContextUpdate(L, s).0.m.mem
    ensures var u := Counted(L, s);
            ReadConfiguration(L, d, mended, next) == (TakeSeed(L, next.(ram := u.ram)), NoErr)
  {
    CountedSeed(L, s);
    SavedThenBoot(L, d, mended, Counted(L, s), next);
  }

  /** A restore leaves copies of what is in RAM. */
  lemma RestoreResult(L: Layout, d: Defaults, s: State)
    requires Fits(L, s) && Proper(L, d) && s.m.on && -0x8000_0000 <= s.seedNum < 0x8000_0000
    requires Restore(L, d, s).1 == NoErr
    ensures var t := Restore(L, d, s).0;
            && t.m.on && Valid(L, PageOf(L, t.ram)) && t.m.mem[Parameter1] == PageOf(L, t.ram) == t.m.mem[Parameter2]
            && SeedIn(t.ram.sys) == s.seedNum == t.seedNum && MagicIn(t.ram.sys) == MAGIC
  {
    UpdateResult(L, s.(ram := RestoreContent(L, d, s)));
    SeedRoundTrip(d.sys, s.seedNum);
  }

  /** A repair that started from a good main copy leaves two good copies of what is in RAM. */
  lemma RepairedState(L: Layout, d: Defaults, mended: bool, s: State)
    requires Fits(L, s) && Proper(L, d) && s.m.on && Valid(L, s.m.mem[Parameter1])
    requires Repair(L, d, mended, s).1 == NoErr
    ensures var t := Repair(L, d, mended, s).0;
            t.m.on && Valid(L, t.m.mem[Parameter1]) && InSync(L, t.m) && Load(L, t) == t && t.seedNum == s.seedNum
  {
    RepairResult(L, d, mended, s);
    var t := Repair(L, d, mended, s).0;
    PageOfValid(L, t.ram, CrcOf(L, ConfigIn(L, s.m.mem[Parameter1])));
  }

  /** A boot that finds the copies good and equal. */
  lemma QuietBoot(L: Layout, d: Defaults, mended: bool, s: State)
    requires Fits(L, s) && Proper(L, d) && Valid(L, s.m.mem[Parameter1]) && InSync(L, s.m)
    requires MagicIn(Load(L, s).ram.sys) == MAGIC
    ensures ReadConfiguration(L, d, mended, s) == (TakeSeed(L, Load(L, s)), NoErr)
  {}

  lemma SecondBootRestored(L: Layout, d: Defaults, mended: bool, s: State)
    requires Fits(L, s) && Proper(L, d) && s.m.on && -0x8000_0000 <= s.seedNum < 0x8000_0000
    requires Restore(L, d, s).1 == NoErr
    ensures var t := Restore(L, d, s).0;
            var u := TakeSeed(L, t);
            && ReadConfiguration(L, d, mended, u) == (u, NoErr) && MagicIn(t.ram.sys) == MAGIC
            && (s.seedNum != -1 ==> u == t)
  {
    RestoreResult(L, d, s);
    var t := Restore(L, d, s).0;
    BootAfterSave(L, d, mended, TakeSeed(L, t), t.ram);
  }

  lemma TakenSeed(L: Layout, s: State)
    requires Fits(L, s)
    ensures -0x8000_0000 <= TakeSeed(L, s).seedNum < 0x8000_0000 && TakeSeed(L, s).seedNum != -1
  {}

  lemma SecondBootMain(L: Layout, d: Defaults, mended: bool, s: State)
    requires Fits(L, s) && Proper(L, d) && s.m.on && Valid(L, s.m.mem[Parameter1])
    requires Repair(L, d, mended, s).1 == NoErr && MagicIn(Repair(L, d, mended, s).0.ram.sys) == MAGIC
    ensures var u := TakeSeed(L, Repair(L, d, mended, s).0);
            ReadConfiguration(L, d, mended, u) == (u, NoErr)
  {
    RepairedState(L, d, mended, s);
    QuietBoot(L, d, mended, TakeSeed(L, Repair(L, d, mended, s).0));
  }

  /** A second boot after one that found a good main copy, or restored the defaults, loads the same and writes
      nothing. */
  lemma SecondBoot(L: Layout, d: Defaults, mended: bool, s: State)
    requires Fits(L, s) && Proper(L, d) && s.m.on && -0x8000_0000 <= s.seedNum < 0x8000_0000
    requires Valid(L, s.m.mem[Parameter1]) || !Valid(L, s.m.mem[Parameter2])
    requires ReadConfiguration(L, d, mended, s).1 == NoErr
    ensures var t := ReadConfiguration(L, d, mended, s).0;
            ReadConfiguration(L, d, mended, t) == (t, NoErr)
  {
    var (t, err) := Repair(L, d, mended, s);
    if !Valid(L, s.m.mem[Parameter1]) {
      SecondBootRestored(L, d, mended, Load(L, s));
    } else if Restores(L, t, err) {
      RepairedState(L, d, mended, s);
      TakenSeed(L, t);
      SecondBootRestored(L, d, mended, TakeSeed(L, t));
    } else {
      SecondBootMain(L, d, mended, s);
    }
  }

  /** After a recovery from the backup as written, the rebuilt main copy is good if and only if the user configuration
      of the bad main copy gives the checksum of the backup. */
  lemma RecoveryHeals(L: Layout, d: Defaults, mended: bool, s: State)
    requires Fits(L, s) && Proper(L, d) && s.m.on
    requires !Valid(L, s.m.mem[Parameter1]) && Valid(L, s.m.mem[Parameter2])
    requires Repair(L, d, mended, s).1 == NoErr
    ensures var t := Repair(L, d, mended, s).0;
            var main, backup := ConfigIn(L, s.m.mem[Parameter1]), ConfigIn(L, s.m.mem[Parameter2]);
            Valid(L, t.m.mem[Parameter1]) <==>
              mended || CrcOf(L, Config(backup.sys, main.user)) == CrcOf(L, backup)
  {
    RepairResult(L, d, mended, s);
    PageOfValid(L, Repair(L, d, mended, s).0.ram, CrcOf(L, ConfigIn(L, s.m.mem[Parameter2])));
  }

  /** Any number of power-ups, each with a supply that lasts for so many bytes. */
  function Boots(L: Layout, d: Defaults, mended: bool, s: State, powers: seq<nat>): (r: State)
    requires Fits(L, s) && Proper(L, d)
    ensures Fits(L, r)
    decreases |powers|
  {
    if powers == [] then s else Boots(L, d, mended, ReadConfiguration(L, d, mended, Boot(s, powers[0])).0, powers[1..])
  }

  /** None of them is cut or fails. */
  ghost predicate AllBoot(L: Layout, d: Defaults, mended: bool, s: State, powers: seq<nat>)
    requires Fits(L, s) && Proper(L, d)
    decreases |powers|
  {
    powers == [] ||
    (var (t, err) := ReadConfiguration(L, d, mended, Boot(s, powers[0]));
     err == NoErr && AllBoot(L, d, mended, t, powers[1..]))
  }

  /** A bad main copy in front of a good backup that has a magic number. */
  ghost predicate MainLost(L: Layout, m: Medium)
    requires Shaped(m) && Sane(L)
  {
    && !Valid(L, m.mem[Parameter1]) && Valid(L, m.mem[Parameter2])
    && MagicIn(ConfigIn(L, m.mem[Parameter2]).sys) == MAGIC
  }

  /** The checksum of what recovery puts together. */
  function Mixture(L: Layout, mended: bool, m: Medium): word
    requires Shaped(m) && Sane(L)
  {
    var c := RecoveryContent(L, mended, m);
    CrcOf(L, Config(c.sys, c.user))
  }

  /** One boot after which the main copy is as bad as before, and puts together the same again. */
  lemma LostAgain(L: Layout, d: Defaults, mended: bool, s: State)
    requires Fits(L, s) && Proper(L, d) && s.m.on && MainLost(L, s.m)
    requires ReadConfiguration(L, d, mended, s).1 == NoErr
    requires Mixture(L, mended, s.m) != CrcOf(L, ConfigIn(L, s.m.mem[Parameter2]))
    ensures var t := ReadConfiguration(L, d, mended, s).0;
            && MainLost(L, t.m) && t.m.mem[Parameter2] == s.m.mem[Parameter2]
            && Mixture(L, mended, t.m) == Mixture(L, mended, s.m)
  {
    RepairResult(L, d, mended, s);
    PageOfValid(L, Repair(L, d, mended, s).0.ram, CrcOf(L, ConfigIn(L, s.m.mem[Parameter2])));
  }

  lemma Healed(L: Layout, d: Defaults, mended: bool, s: State)
    requires Fits(L, s) && Proper(L, d) && s.m.on && MainLost(L, s.m)
    requires ReadConfiguration(L, d, mended, s).1 == NoErr
    requires Mixture(L, mended, s.m) == CrcOf(L, ConfigIn(L, s.m.mem[Parameter2]))
    ensures Good(L, ReadConfiguration(L, d, mended, s).0.m)
  {
    RepairResult(L, d, mended, s);
    PageOfValid(L, Repair(L, d, mended, s).0.ram, CrcOf(L, ConfigIn(L, s.m.mem[Parameter2])));
  }

  /** Two good copies in step, with a magic number. */
  ghost predicate Good(L: Layout, m: Medium)
    requires Shaped(m) && Sane(L)
  {
    && Valid(L, m.mem[Parameter1]) && InSync(L, m) && MagicIn(ConfigIn(L, m.mem[Parameter1]).sys) == MAGIC
  }

  lemma {:induction false} StaysGood(L: Layout, d: Defaults, mended: bool, s: State, powers: seq<nat>)
    requires Fits(L, s) && Proper(L, d) && Good(L, s.m)
    ensures Good(L, Boots(L, d, mended, s, powers).m)
    decreases |powers|
  {
    if powers != [] {
      QuietBoot(L, d, mended, Boot(s, powers[0]));
      StaysGood(L, d, mended, ReadConfiguration(L, d, mended, Boot(s, powers[0])).0, powers[1..]);
    }
  }

  lemma {:induction false} StaysLost(L: Layout, d: Defaults, mended: bool, s: State, powers: seq<nat>)
    requires Fits(L, s) && Proper(L, d) && MainLost(L, s.m) && AllBoot(L, d, mended, s, powers)
    requires Mixture(L, mended, s.m) != CrcOf(L, ConfigIn(L, s.m.mem[Parameter2]))
    ensures MainLost(L, Boots(L, d, mended, s, powers).m)
    decreases |powers|
  {
    if powers != [] {
      LostAgain(L, d, mended, Boot(s, powers[0]));
      StaysLost(L, d, mended, ReadConfiguration(L, d, mended, Boot(s, powers[0])).0, powers[1..]);
    }
  }

  /** A backup without a magic number is replaced by the defaults at once. */
  lemma Replaced(L: Layout, d: Defaults, mended: bool, s: State)
    requires Fits(L, s) && Proper(L, d) && s.m.on
    requires !Valid(L, s.m.mem[Parameter1]) && Valid(L, s.m.mem[Parameter2])
    requires MagicIn(ConfigIn(L, s.m.mem[Parameter2]).sys) != MAGIC && ReadConfiguration(L, d, mended, s).1 == NoErr
    ensures Good(L, ReadConfiguration(L, d, mended, s).0.m)
  {
    RepairResult(L, d, mended, s);
    var (t, err) := Repair(L, d, mended, s);
    TakenSeed(L, t);
    RestoreResult(L, d, TakeSeed(L, t));
    var c := Restore(L, d, TakeSeed(L, t)).0.ram;
    PageOfValid(L, c, CrcOf(L, Config(c.sys, c.user)));
  }

  /** After any number of boots since the main copy was lost, it is good again if and only if what recovery puts
      together has the checksum of the backup, or the backup has no magic number and the defaults have taken its
      place.  As written the former takes the right user bytes in the bad main copy; otherwise every boot finds it bad
      and recovers again. */
  lemma HealsExactly(L: Layout, d: Defaults, mended: bool, s: State, powers: seq<nat>)
    requires Fits(L, s) && Proper(L, d) && powers != [] && AllBoot(L, d, mended, s, powers)
    requires !Valid(L, s.m.mem[Parameter1]) && Valid(L, s.m.mem[Parameter2])
    ensures var main, backup := ConfigIn(L, s.m.mem[Parameter1]), ConfigIn(L, s.m.mem[Parameter2]);
            Valid(L, Boots(L, d, mended, s, powers).m.mem[Parameter1])
            <==> mended || MagicIn(backup.sys) != MAGIC || CrcOf(L, Config(backup.sys, main.user)) == CrcOf(L, backup)
  {
    var t := ReadConfiguration(L, d, mended, Boot(s, powers[0])).0;
    if MagicIn(ConfigIn(L, s.m.mem[Parameter2]).sys) != MAGIC {
      Replaced(L, d, mended, Boot(s, powers[0]));
      StaysGood(L, d, mended, t, powers[1..]);
    } else if Mixture(L, mended, s.m) == CrcOf(L, ConfigIn(L, s.m.mem[Parameter2])) {
      Healed(L, d, mended, Boot(s, powers[0]));
      StaysGood(L, d, mended, t, powers[1..]);
    } else {
      StaysLost(L, d, mended, s, powers);
    }
  }

  /** As written, a boot that recovers from the backup loads the user configuration that was saved if and only if the
      bad main copy still holds it. */
  lemma RecoveredUser(L: Layout, d: Defaults, mended: bool, s: State)
    requires Fits(L, s) && Proper(L, d) && s.m.on
    requires !Valid(L, s.m.mem[Parameter1]) && Valid(L, s.m.mem[Parameter2])
    ensures var t := Repair(L, d, mended, s).0;
            var main, backup := ConfigIn(L, s.m.mem[Parameter1]), ConfigIn(L, s.m.mem[Parameter2]);
            Config(t.ram.sys, t.ram.user) == backup <==> mended || main.user == backup.user
  {
    RepairResult(L, d, mended, s);
  }

  /** A device on which an update is cut just behind the erase of the main copy. */
  lemma CutBehindErase(L: Layout, s: State)
    requires Fits(L, s) && s.m.on && s.m.power == PAGE
    ensures var (t, err) := InternalUpdate(L, s);
            && err == PowerLost && t.m.mem[Parameter1] == Fill(PAGE, ERASED)
            && t.m.mem[Parameter2] == s.m.mem[Parameter2]
  {
    var crc, n := CrcOf(L, Config(s.ram.sys, s.ram.user)), SizeOfContent(L);
    var m1 := Erase(s.m, Parameter1, 0, n);
    assert (n + 0xFFF) / 0x1000 == 1;
    EraseDone(s.m, Parameter1, n);
    EraseFrame(s.m, Parameter1, 0, n);
    assert m1.power == 0 && m1.on;
    NoPower(m1, Parameter1, 0, s.ram.boot + s.ram.sys);
    var m2 := Write(m1, Parameter1, 0, s.ram.boot + s.ram.sys);
    assert Save(L, s, Parameter1).m == m2;
  }

  lemma NoPower(m: Medium, p: Partition, off: nat, data: seq<byte>)
    requires m.on && m.power == 0 && data != [] && InRange(m, p, off, |data|)
    ensures Write(m, p, off, data) == m.(on := false)
  {
    assert Program(m.mem[p], off, data[..0]) == m.mem[p];
    assert m.mem[p := m.mem[p]] == m.mem;
  }

  lemma BlankContent(L: Layout, mended: bool, m: Medium, c: Content)
    requires Shaped(m) && Sized(L, c)
    requires m.mem[Parameter1] == Fill(PAGE, ERASED) && m.mem[Parameter2] == PageOf(L, c)
    ensures RecoveryContent(L, mended, m)
            == Content(Fill(BOOT_TABLE, 0), c.sys, if mended then c.user else Fill(L.user, ERASED))
  {
    PageOfValid(L, c, CrcOf(L, Config(c.sys, c.user)));
    assert ConfigIn(L, Fill(PAGE, ERASED)).user == Fill(L.user, ERASED);
  }

  /** Of a saved configuration the user half can be lost as the code is written: there is always a moment, the one
      just after the erase of the main copy, at which a power cut makes the next boot load the old system
      configuration with a blank user configuration. */
  lemma UserHalfLost(L: Layout, d: Defaults, s: State, c: Content, next: State)
    requires Fits(L, s) && Proper(L, d) && s.m.on && s.m.power == PAGE && Sized(L, c)
    requires Valid(L, PageOf(L, c)) && s.m.mem[Parameter2] == PageOf(L, c)
    requires !Valid(L, Fill(PAGE, ERASED))
    requires Fits(L, next) && next.m.on && next.m.mem == InternalUpdate(L, s).0.m.mem
    ensures Repair(L, d, false, next).0.ram == Content(Fill(BOOT_TABLE, 0), c.sys, Fill(L.user, ERASED))
    ensures Repair(L, d, true, next).0.ram == Content(Fill(BOOT_TABLE, 0), c.sys, c.user)
  {
    CutBehindErase(L, s);
    RepairResult(L, d, false, next);
    RepairResult(L, d, true, next);
    BlankContent(L, false, next.m, c);
    BlankContent(L, true, next.m, c);
  }
}
