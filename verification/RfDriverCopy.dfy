/** The copy of the RF driver that the bootloader of the MiCOKit-3165 makes at its first start: from a temporary place
    in the internal flash to its partition, checked by a CRC-8, and marked as done by erasing a tag. */
module RfDriverCopy {
  import opened Bytes
  import opened Checksums
  import opened FlashMemory

  /** `Hung`: the checksum is wrong and the bootloader loops for ever. */
  datatype Outcome = Idle | Done | Hung | Cut

  predicate Ready(m: Medium) {
    && RfCopyTag in m.mem && RfTemp in m.mem && RfFirmware in m.mem
    && 0 < |m.mem[RfCopyTag]| && 0 < |m.mem[RfTemp]| && |m.mem[RfFirmware]| <= |m.mem[RfTemp]|
  }

  predicate Wanted(m: Medium)
    requires Ready(m)
  {
    m.mem[RfCopyTag][0] == 0
  }

  /** The driver in its temporary place, and the checksum stored at the very end of that place. */
  function Driver(m: Medium): seq<byte>
    requires Ready(m)
  {
    m.mem[RfTemp][..|m.mem[RfFirmware]|]
  }

  function Expected(m: Medium): byte
    requires Ready(m)
  {
    m.mem[RfTemp][|m.mem[RfTemp]| - 1]
  }

  function Copied(m: Medium): (r: Medium)
    requires Ready(m)
  {
    Write(Erase(m, RfFirmware, 0, |m.mem[RfFirmware]|), RfFirmware, 0, Driver(m))
  }

  /** Only the RF partition changes. */
  lemma CopiedFrame(m: Medium)
    requires Ready(m)
    ensures var r := Copied(m);
            && Ready(r) && r.mem[RfTemp] == m.mem[RfTemp] && r.mem[RfCopyTag] == m.mem[RfCopyTag]
            && |r.mem[RfFirmware]| == |m.mem[RfFirmware]|
  {}

  /** init_platform_bootloader, the part about the flash */
  function RunCopy(table: seq<byte>, m: Medium): (Medium, Outcome)
    requires |table| == 0x100 && Ready(m)
  {
    if !Wanted(m) then (m, Idle)
    else
      CopiedFrame(m);
      var m1 := Copied(m);
      if !m1.on then (m1, Cut)
      else if Crc8(table, 0, m1.mem[RfFirmware]) != Expected(m) then (m1, Hung)
      else
        var m2 := Erase(m1, RfCopyTag, 0, 1);
        (m2, if m2.on then Done else Cut)
  }

  /** A driver with the checksum it should have. */
  predicate Sound(table: seq<byte>, m: Medium)
    requires |table| == 0x100 && Ready(m)
  {
    Crc8(table, 0, Driver(m)) == Expected(m)
  }

  /** A copy that is not cut reproduces the driver. */
  lemma CopiedResult(m: Medium)
    requires Ready(m) && m.on && Copied(m).on
    ensures Ready(Copied(m)) && Copied(m).mem[RfFirmware] == Driver(m)
  {
    CopiedFrame(m);
    EraseAll(m, RfFirmware);
    ReadsBack(Erase(m, RfFirmware, 0, |m.mem[RfFirmware]|), RfFirmware, Driver(m));
  }

  /** Erasing the tag, cut or not, either leaves it as it was or clears it. */
  lemma TagErased(m: Medium)
    requires Ready(m) && m.on
    ensures var r := Erase(m, RfCopyTag, 0, 1);
            && Ready(r) && r.mem[RfFirmware] == m.mem[RfFirmware] && r.mem[RfTemp] == m.mem[RfTemp]
            && (r.mem[RfCopyTag] == m.mem[RfCopyTag] || r.mem[RfCopyTag][0] == ERASED)
            && (r.on ==> r.mem[RfCopyTag][0] == ERASED)
  {
    if m.power == 0 {
      assert Wipe(m.mem[RfCopyTag], 0, 0) == m.mem[RfCopyTag];
    }
  }

  /** Wherever the power fails the temporary driver is untouched, and the tag is either untouched too, or the RF
      partition holds the driver and its checksum is right.  What is not cut is done exactly when the checksum is
      right. */
  lemma CopyResult(table: seq<byte>, m: Medium)
    requires |table| == 0x100 && Ready(m) && m.on && Wanted(m)
    ensures var (r, outcome) := RunCopy(table, m);
            && Ready(r) && r.mem[RfTemp] == m.mem[RfTemp] && |r.mem[RfFirmware]| == |m.mem[RfFirmware]|
            && (r.mem[RfCopyTag] == m.mem[RfCopyTag]
                || (r.mem[RfCopyTag][0] == ERASED && r.mem[RfFirmware] == Driver(m) && Sound(table, m)))
            && (outcome == Cut <==> !r.on)
            && (r.on ==> outcome == if Sound(table, m) then Done else Hung)
            && (outcome == Done ==> !Wanted(r) && r.mem[RfFirmware] == Driver(m))
            && (outcome == Hung ==> r.mem[RfCopyTag] == m.mem[RfCopyTag])
  {
    CopiedFrame(m);
    if Copied(m).on {
      CopiedResult(m);
      TagErased(Copied(m));
    }
  }

  /** Power-ups, each with a supply that lasts for so many bytes. */
  function Starts(table: seq<byte>, m: Medium, powers: seq<nat>): Medium
    requires |table| == 0x100
    decreases |powers|
  {
    if powers == [] || !Ready(m) then m else Starts(table, RunCopy(table, PowerOn(m, powers[0])).0, powers[1..])
  }

  /** The source is untouched, and so is the tag, or it is erased and the copy complete. */
  ghost predicate OnTheWay(table: seq<byte>, m0: Medium, m: Medium)
    requires |table| == 0x100 && Ready(m0)
  {
    && Ready(m) && m.mem[RfTemp] == m0.mem[RfTemp] && |m.mem[RfFirmware]| == |m0.mem[RfFirmware]|
    && (m.mem[RfCopyTag] == m0.mem[RfCopyTag]
        || (m.mem[RfCopyTag][0] == ERASED && m.mem[RfFirmware] == Driver(m0) && Sound(table, m0)))
  }

  lemma StartOnTheWay(table: seq<byte>, m0: Medium, m: Medium, power: nat)
    requires |table| == 0x100 && Ready(m0) && OnTheWay(table, m0, m)
    ensures OnTheWay(table, m0, RunCopy(table, PowerOn(m, power)).0)
  {
    var s := PowerOn(m, power);
    if Wanted(m) {
      CopyResult(table, s);
      assert Driver(s) == Driver(m0) && Expected(s) == Expected(m0);
    }
  }

  lemma {:induction false} AlwaysOnTheWay(table: seq<byte>, m0: Medium, m: Medium, powers: seq<nat>)
    requires |table| == 0x100 && Ready(m0) && OnTheWay(table, m0, m)
    ensures OnTheWay(table, m0, Starts(table, m, powers))
    decreases |powers|
  {
    if powers != [] {
      StartOnTheWay(table, m0, m, powers[0]);
      AlwaysOnTheWay(table, m0, RunCopy(table, PowerOn(m, powers[0])).0, powers[1..]);
    }
  }

  /** After any number of power cuts, a start that is not cut leaves the driver in place and the tag cleared if its
      checksum is right, and hangs without clearing the tag if not. */
  lemma CopiedInTheEnd(table: seq<byte>, m0: Medium, powers: seq<nat>, last: nat)
    requires |table| == 0x100 && Ready(m0) && Wanted(m0)
    ensures Ready(Starts(table, m0, powers))
    ensures var (r, outcome) := RunCopy(table, PowerOn(Starts(table, m0, powers), last));
            && Ready(r)
            && (r.on ==> (Sound(table, m0) <==> !Wanted(r)) && (Sound(table, m0) <==> outcome != Hung)
                         && (!Wanted(r) ==> r.mem[RfFirmware] == Driver(m0)))
  {
    AlwaysOnTheWay(table, m0, m0, powers);
    var m := Starts(table, m0, powers);
    var s := PowerOn(m, last);
    assert Driver(s) == Driver(m0) && Expected(s) == Expected(m0);
    if Wanted(m) {
      CopyResult(table, s);
    }
  }

  /** The temporary place as it is laid out: the driver at its front, the checksum in its last byte. */
  predicate LaidOut(m: Medium, driver: seq<byte>, filler: seq<byte>, sum: byte) {
    && RfCopyTag in m.mem && RfTemp in m.mem && RfFirmware in m.mem
    && m.mem[RfCopyTag] != [] && |m.mem[RfFirmware]| == |driver| && m.mem[RfTemp] == driver + filler + [sum]
  }

  lemma LaidOutMeans(table: seq<byte>, m: Medium, driver: seq<byte>, filler: seq<byte>, sum: byte)
    requires |table| == 0x100 && LaidOut(m, driver, filler, sum)
    ensures Ready(m) && Driver(m) == driver && Expected(m) == sum
  {
    assert (driver + filler + [sum])[..|driver|] == driver;
  }

  /** In these terms: the copy is asked for by a first tag byte of zero, and after any number of power cuts a start that
      is not cut either has the driver in its partition and the tag erased, or, when the last byte of the temporary
      place is not the driver's checksum, hangs with the tag still zero. */
  lemma CopiedAsLaidOut(table: seq<byte>, m0: Medium, driver: seq<byte>, filler: seq<byte>, sum: byte,
                        powers: seq<nat>, last: nat)
    requires |table| == 0x100 && LaidOut(m0, driver, filler, sum)
    ensures var m := Starts(table, m0, powers);
            && LaidOut(m, driver, filler, sum)
            && var (r, outcome) := RunCopy(table, PowerOn(m, last));
               && LaidOut(r, driver, filler, sum)
               && (m0.mem[RfCopyTag][0] != 0 ==> outcome == Idle && r.mem == m0.mem)
               && (m0.mem[RfCopyTag][0] == 0 && r.on ==>
                     if Crc8(table, 0, driver) == sum
                     then outcome != Hung && r.mem[RfFirmware] == driver && r.mem[RfCopyTag][0] == 0xFF
                     else outcome == Hung && r.mem[RfCopyTag][0] == 0)
  {
    LaidOutMeans(table, m0, driver, filler, sum);
    AlwaysOnTheWay(table, m0, m0, powers);
    var m := Starts(table, m0, powers);
    StartOnTheWay(table, m0, m, last);
    if Wanted(m0) {
      CopiedInTheEnd(table, m0, powers, last);
    } else {
      NotWanted(table, m0, powers);
    }
  }

  lemma {:induction false} NotWanted(table: seq<byte>, m: Medium, powers: seq<nat>)
    requires |table| == 0x100 && Ready(m) && !Wanted(m)
    ensures Starts(table, m, powers).mem == m.mem
    decreases |powers|
  {
    if powers != [] {
      NotWanted(table, PowerOn(m, powers[0]), powers[1..]);
    }
  }

  // ---------------------------------------------------------------- the program

  class Copier {
    const flash: Flash
    const data: array<byte>
    const table: seq<byte>

    predicate Valid() {
      data.Length == CHUNK && |table| == 0x100
    }

    constructor (flash: Flash, table: seq<byte>)
      requires |table| == 0x100
      ensures Valid() && this.flash == flash && this.table == table && fresh(data)
    {
      this.flash, this.table := flash, table;
      data := new byte[CHUNK];
    }

    /** Read the next chunk into the buffer. */
    method ReadChunk(p: Partition, off: nat, n: nat) returns (next: nat)
      requires Valid() && p in flash.mem && 0 < n <= CHUNK && off + n <= |flash.mem[p]|
      modifies data
      ensures next == off + n && data[..n] == flash.mem[p][off..off + n]
    {
      var err, bytes;
      err, bytes, next := flash.ReadAt(p, off, n);
      forall i | 0 <= i < n {
        data[i] := bytes[i];
      }
    }

    /** The copy loop. */
    method CopyChunks(totalLength: nat) returns (err: Status)
      requires Valid() && flash.on && Ready(flash.View()) && totalLength == |flash.mem[RfFirmware]|
      modifies flash, data
      ensures flash.View() == Write(old(flash.View()), RfFirmware, 0, Driver(old(flash.View())))
      ensures err == if flash.on then NoErr else PowerLost
    {
      ghost var m, driver := flash.View(), Driver(flash.View());
      assert driver[..|driver|] == driver;
      var i, source, target := 0, 0, 0;
      err := NoErr;
      while i <= totalLength / 4096
        invariant 0 <= i <= totalLength / 4096 + 1 && err == NoErr && flash.on
        invariant source == target == (if i <= totalLength / 4096 then 4096 * i else totalLength)
        invariant source <= totalLength
        invariant flash.View() == Write(m, RfFirmware, 0, driver[..source])
      {
        var copyLength := CHUNK;
        if i == totalLength / 4096 {
          if totalLength % 4096 == 0 {
            break;
          }
          copyLength := totalLength % 4096;
        }
        err, source, target := CopyNext(m, source, target, copyLength);
        if err != NoErr {
          return;
        }
        i := i + 1;
      }
      assert driver[..source] == driver;
    }

    /** One chunk; a copy that is cut in it is the whole copy cut at that byte. */
    method CopyNext(ghost m: Medium, source: nat, target: nat, n: nat)
      returns (err: Status, nextSource: nat, nextTarget: nat)
      requires Valid() && flash.on && Ready(m)
      requires source == target && 0 < n <= CHUNK && source + n <= |m.mem[RfFirmware]|
      requires flash.View() == Write(m, RfFirmware, 0, Driver(m)[..source])
      modifies flash, data
      ensures err == if flash.on then NoErr else PowerLost
      ensures flash.View() == Write(m, RfFirmware, 0, Driver(m)[..if flash.on then source + n else |Driver(m)|])
      ensures err == NoErr ==> nextSource == nextTarget == source + n
    {
      ghost var driver := Driver(m);
      WriteNext(m, RfFirmware, driver, source, n);
      assert driver[..|driver|] == driver;
      if !Write(m, RfFirmware, 0, driver[..source + n]).on {
        CutWrite(m, RfFirmware, driver[..source + n], driver);
      }
      assert flash.mem[RfTemp] == m.mem[RfTemp] && |flash.mem[RfFirmware]| == |driver|;
      ghost var chunk := driver[source..source + n];
      assert chunk == m.mem[RfTemp][source..source + n];
      nextSource := ReadChunk(RfTemp, source, n);
      assert data[..n] == chunk;
      err, nextTarget := flash.WriteAt(RfFirmware, target, data[..n]);
    }

    /** The verification loop: the chunk-by-chunk checksum is that of the whole partition. */
    method SumUp(totalLength: nat) returns (crc: byte)
      requires Valid() && RfFirmware in flash.mem && totalLength == |flash.mem[RfFirmware]|
      modifies data
      ensures crc == Crc8(table, 0, flash.mem[RfFirmware])
    {
      ghost var cells := flash.mem[RfFirmware];
      var i, offset := 0, 0;
      crc := 0;
      while i <= totalLength / 4096
        invariant 0 <= i <= totalLength / 4096 + 1
        invariant offset == (if i <= totalLength / 4096 then 4096 * i else totalLength) && offset <= totalLength
        invariant crc == Crc8(table, 0, cells[..offset])
      {
        var copyLength := CHUNK;
        if i == totalLength / 4096 {
          if totalLength % 4096 == 0 {
            break;
          }
          copyLength := totalLength % 4096;
        }
        ghost var from := offset;
        offset := ReadChunk(RfFirmware, offset, copyLength);
        assert cells[..offset] == cells[..from] + cells[from..offset];
        Crc8Concat(table, 0, cells[..from], cells[from..offset]);
        crc := Crc8(table, crc, data[..copyLength]);
        i := i + 1;
      }
      assert cells[..offset] == cells;
    }

    /** init_platform_bootloader */
    method InitPlatformBootloader() returns (outcome: Outcome)
      requires Valid() && flash.on && Ready(flash.View())
      modifies flash, data
      ensures (flash.View(), outcome) == RunCopy(table, old(flash.View()))
    {
      var isDriverNeedCopy, crcResult := flash.mem[RfCopyTag][0], flash.mem[RfTemp][|flash.mem[RfTemp]| - 1];
      if isDriverNeedCopy != 0 {
        return Idle;
      }
      ghost var m := flash.View();
      CopiedFrame(m);
      var totalLength := |flash.mem[RfFirmware]|;
      var err := flash.EraseAt(RfFirmware, 0, totalLength);
      if err != NoErr {
        return Cut;
      }
      err := CopyChunks(totalLength);
      if err != NoErr {
        return Cut;
      }
      var targetCrcResult := SumUp(totalLength);
      if crcResult != targetCrcResult {
        return Hung;
      }
      err := flash.EraseAt(RfCopyTag, 0, 1);
      return if err == NoErr then Done else Cut;
    }
  }
}
