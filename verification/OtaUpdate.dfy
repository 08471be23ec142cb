/** The over-the-air update that the bootloader installs: a staged image is copied over its destination, the record that
    asked for it is cleared, and the staging area is erased. */
module OtaUpdate {
  import opened Bytes
  import opened Checksums
  import opened FlashMemory

  const RECORD: nat := 24
  const RAM_COPY: nat := 16 * 1024

  /** Addresses have 32 bits; a partition does not start at the last byte of a 256-byte page. */
  type Address = a: nat | a < 0x1_0000_0000 && a % 0x100 != 0xFF

  /** Where the staging partition starts in the address space; `mended` is the variant that refuses wrong checksums. */
  datatype Board = Board(stagingStart: Address, mended: bool)

  // ---------------------------------------------------------------- the record

  datatype LogStatus =
    | NotExist | UpdateTagNotExist | StartAddressError | ContentTypeNotExist | DataLengthOverflow | CrcError
    | NeedUpdate(dest: Partition)

  function StartOf(rec: seq<byte>): nat
    requires |rec| == RECORD
  {
    Le32(rec[0], rec[1], rec[2], rec[3])
  }

  function LengthOf(rec: seq<byte>): nat
    requires |rec| == RECORD
  {
    Le32(rec[4], rec[5], rec[6], rec[7])
  }

  function CrcOf(rec: seq<byte>): word
    requires |rec| == RECORD
  {
    Le16(rec[18], rec[19]) as word
  }

  const TYPE: nat := 16
  const TAG: nat := 17

  /** checkcrc: an image is turned down when it cannot be read; as written, not when its checksum is wrong, which
      `mended` adds.  A recorded checksum of 0xFFFF skips everything. */
  predicate CrcAccepted(m: Medium, board: Board, crc: word, n: nat) {
    crc == 0xFFFF || (n <= PartLen(m, OtaTemp) && (!board.mended || Crc16(Cells(m, OtaTemp)[..n]) == crc))
  }

  function DestOf(kind: byte): Partition {
    if kind == 0x42 then Bootloader
    else if kind == 0x41 then Application
    else if kind == 0x44 then RfFirmware
    else OtaTemp
  }

  /** updateLogCheck */
  function Check(m: Medium, board: Board, rec: seq<byte>): LogStatus
    requires |rec| == RECORD
  {
    if AllErased(rec) then NotExist
    else if rec[TAG] != 0x55 then UpdateTagNotExist
    else if StartOf(rec) != board.stagingStart then StartAddressError
    else if rec[TYPE] != 0x42 && rec[TYPE] != 0x41 && rec[TYPE] != 0x44 then ContentTypeNotExist
    else if LengthOf(rec) > PartLen(m, DestOf(rec[TYPE])) then DataLengthOverflow
    else if !CrcAccepted(m, board, CrcOf(rec), LengthOf(rec)) then CrcError
    else NeedUpdate(DestOf(rec[TYPE]))
  }

  // ---------------------------------------------------------------- what update() does to the flash

  /** Everything copied: the image, or as many whole chunks of it as can be read. */
  function Copied(n: nat, available: nat): (r: nat)
    ensures r <= n && r <= available
  {
    if n <= available then n else available / 4096 * 4096
  }

  /** Erase the destination and program the first `n` staged bytes. */
  function Install(m: Medium, dest: Partition, n: nat): Medium
    requires n <= PartLen(m, OtaTemp)
  {
    Write(Erase(m, dest, 0, PartLen(m, dest)), dest, 0, Cells(m, OtaTemp)[..n])
  }

  /** Parameter1 with the record erased. */
  function Cleared(cells: seq<byte>): seq<byte>
    requires |cells| >= RECORD
  {
    Fill(RECORD, ERASED) + cells[RECORD..]
  }

  function ClearRecord(m: Medium): Medium
    requires PartLen(m, Parameter1) >= RECORD
  {
    Write(Erase(m, Parameter1, 0, PartLen(m, Parameter1)), Parameter1, 0, Cleared(m.mem[Parameter1]))
  }

  function EraseStaging(m: Medium): Medium {
    Erase(m, OtaTemp, 0, PartLen(m, OtaTemp))
  }

  /** Without a record that asks for an update, the staging area is erased unless it is blank. */
  function DropStaging(m: Medium): (Medium, Status) {
    var r := if AllErased(Cells(m, OtaTemp)) then m else EraseStaging(m);
    (r, Told(r))
  }

  /** Once the image is in place: clear the record, erase the staging area. */
  function Finish(m: Medium): (Medium, Status)
    requires PartLen(m, Parameter1) >= RECORD
  {
    var r := ClearRecord(m);
    if !r.on then (r, PowerLost) else (EraseStaging(r), Told(EraseStaging(r)))
  }

  function InstallImage(m: Medium, dest: Partition, n: nat): (Medium, Status)
    requires n <= PartLen(m, dest) && PartLen(m, Parameter1) >= RECORD
  {
    var m1 := Install(m, dest, Copied(n, PartLen(m, OtaTemp)));
    InstallFrame(m, dest, Copied(n, PartLen(m, OtaTemp)));
    if !m1.on then (m1, PowerLost)
    else if n > PartLen(m, OtaTemp) then (m1, ParamErr)
    else Finish(m1)
  }

  function RunUpdate(m: Medium, board: Board): (Medium, Status) {
    if OtaTemp !in m.mem || Parameter1 !in m.mem then (m, UnsupportedErr)
    else if |m.mem[Parameter1]| < RECORD then (m, ParamErr)
    else
      var rec := m.mem[Parameter1][..RECORD];
      var log := Check(m, board, rec);
      if !log.NeedUpdate? then DropStaging(m)
      else if log.dest !in m.mem then (m, UnsupportedErr)
      else InstallImage(m, log.dest, LengthOf(rec))
  }

  // ---------------------------------------------------------------- frames

  lemma InstallFrame(m: Medium, dest: Partition, n: nat)
    requires n <= PartLen(m, OtaTemp)
    ensures SameBut(m, Install(m, dest, n), dest)
    ensures PartLen(Install(m, dest, n), Parameter1) == PartLen(m, Parameter1)
  {
    EraseFrame(m, dest, 0, PartLen(m, dest));
    WriteFrame(Erase(m, dest, 0, PartLen(m, dest)), dest, 0, Cells(m, OtaTemp)[..n]);
  }

  lemma ClearFrame(m: Medium)
    requires PartLen(m, Parameter1) >= RECORD
    ensures SameBut(m, ClearRecord(m), Parameter1)
  {
    EraseFrame(m, Parameter1, 0, PartLen(m, Parameter1));
    WriteFrame(Erase(m, Parameter1, 0, PartLen(m, Parameter1)), Parameter1, 0, Cleared(m.mem[Parameter1]));
  }

  // ---------------------------------------------------------------- results of the parts

  function Erased(n: nat): seq<byte> {
    Fill(n, ERASED)
  }

  /** Installing, when it is not cut, leaves the image on erased cells. */
  lemma InstallResult(m: Medium, dest: Partition, n: nat)
    requires dest in m.mem && dest != OtaTemp && m.on && n <= PartLen(m, OtaTemp) && n <= |m.mem[dest]|
    requires Install(m, dest, n).on
    ensures Install(m, dest, n).mem[dest] == Cells(m, OtaTemp)[..n] + Erased(|m.mem[dest]| - n)
  {
    EraseAll(m, dest);
    var m1 := Erase(m, dest, 0, |m.mem[dest]|);
    WriteFrame(m1, dest, 0, Cells(m, OtaTemp)[..n]);
    assert m1.mem[dest] == Erased(|m.mem[dest]|);
    WriteErased(m1, dest, Cells(m, OtaTemp)[..n]);
  }

  /** What clearing the record leaves of Parameter1: as it was when no byte could be erased; otherwise a first byte of
      0xFF, and, when not cut, the record erased and the rest as it was. */
  lemma ClearResult(m: Medium)
    requires PartLen(m, Parameter1) >= RECORD && m.on
    ensures var c, r := m.mem[Parameter1], ClearRecord(m);
            && (r.mem[Parameter1] == c || r.mem[Parameter1][0] == ERASED)
            && (r.on ==> r.mem[Parameter1] == Cleared(c))
            && (m.power < |c| ==> r.mem[Parameter1] == Wipe(c, 0, m.power))
            && (m.power >= |c| ==> r.mem[Parameter1][..RECORD] == Erased(RECORD))
  {
    var c := m.mem[Parameter1];
    EraseAll(m, Parameter1);
    var m1 := Erase(m, Parameter1, 0, |c|);
    if m1.on {
      assert m1.mem[Parameter1] == Erased(|c|);
      WriteErased(m1, Parameter1, Cleared(c));
    } else if m.power == 0 {
      assert Wipe(c, 0, 0) == c;
    }
  }

  // ---------------------------------------------------------------- the program

  /** A flash with two chunk buffers: `data` and `newData`. */
  class Updater {
    const flash: Flash
    const data: array<byte>
    const newData: array<byte>
    const board: Board

    ghost predicate Valid() {
      data.Length == CHUNK && newData.Length == CHUNK && data != newData
    }

    constructor (flash: Flash, board: Board)
      ensures Valid() && this.flash == flash && this.board == board && fresh(data) && fresh(newData)
    {
      this.flash, this.board := flash, board;
      data, newData := new byte[CHUNK](_ => ERASED), new byte[CHUNK](_ => ERASED);
    }

    /** Read into the front of a buffer; a read of nothing, and one that fails, leave the buffer as it is. */
    method ReadInto(p: Partition, off: nat, buf: array<byte>, n: nat) returns (err: Status, next: nat)
      requires n <= buf.Length
      modifies buf
      ensures err == if n == 0 || InRange(flash.View(), p, off, n) then NoErr else ParamErr
      ensures next == if err == NoErr then off + n else off
      ensures err == NoErr && n > 0 ==> buf[..n] == flash.mem[p][off..off + n] && buf[n..] == old(buf[n..])
      ensures err != NoErr || n == 0 ==> buf[..] == old(buf[..])
    {
      var bytes;
      err, bytes, next := flash.ReadAt(p, off, n);
      if err == NoErr {
        forall i | 0 <= i < n {
          buf[i] := bytes[i];
        }
      }
    }

    /** The part of the read buffer that no read from a staging area shorter than a chunk can reach is still erased. */
    ghost predicate StaleErased()
      reads flash, data
    {
      var n := PartLen(flash.View(), OtaTemp);
      data.Length == CHUNK && (n < CHUNK ==> AllErased(data[n..]))
    }

    /** Read the next chunk of the image and add it to the sum. */
    method SumChunk(offset: nat, len: nat, crc: word) returns (err: Status, next: nat, sum: word)
      requires Valid() && StaleErased() && OtaTemp in flash.mem && 0 < len <= CHUNK && offset <= |flash.mem[OtaTemp]|
      requires crc == Checksums.Update(0, flash.mem[OtaTemp][..offset])
      modifies data
      ensures StaleErased()
      ensures err == NoErr <==> offset + len <= |flash.mem[OtaTemp]|
      ensures err == NoErr ==> next == offset + len && sum == Checksums.Update(0, flash.mem[OtaTemp][..next])
    {
      ghost var staging, stale := flash.mem[OtaTemp], data[..];
      err, next := ReadInto(OtaTemp, offset, data, len);
      sum := crc;
      if err == NoErr {
        assert |staging| < CHUNK ==> data[|staging|..] == stale[|staging|..] by {
          if |staging| < CHUNK {
            assert data[|staging|..] == data[len..][|staging| - len..];
          }
        }
        UpdateConcat(0, staging[..offset], staging[offset..next]);
        assert staging[..next] == staging[..offset] + staging[offset..next];
        sum := Checksums.Update(crc, data[..len]);
      }
    }

    /** Read the image chunk by chunk and sum it up. */
    method SumImage(totalLen: nat) returns (err: Status, crc: word)
      requires Valid() && StaleErased() && OtaTemp in flash.mem
      modifies data
      ensures StaleErased()
      ensures err == NoErr <==> totalLen <= |flash.mem[OtaTemp]|
      ensures err == NoErr ==> crc == Checksums.Update(0, flash.mem[OtaTemp][..totalLen])
    {
      var offset, left := 0, totalLen;
      err, crc := NoErr, 0;
      while left > 0
        invariant 0 <= left && offset + left == totalLen && offset <= |flash.mem[OtaTemp]|
        invariant StaleErased() && err == NoErr && crc == Checksums.Update(0, flash.mem[OtaTemp][..offset])
      {
        var len := if CHUNK < left then CHUNK else left;
        err, offset, crc := SumChunk(offset, len, crc);
        if err != NoErr {
          return;
        }
        left := left - len;
      }
    }

    /** checkcrc */
    method CheckCrc(crcIn: word, totalLen: nat) returns (err: Status)
      requires Valid() && StaleErased() && OtaTemp in flash.mem
      modifies data
      ensures StaleErased()
      ensures err == NoErr <==> CrcAccepted(flash.View(), board, crcIn, totalLen)
    {
      if crcIn == 0xFFFF {
        return NoErr;
      }
      var crc;
      err, crc := SumImage(totalLen);
      if err == NoErr {
        err := CompareCrc(crc, crcIn, flash.mem[OtaTemp][..totalLen]);
      }
    }

    method CompareCrc(sum: word, crcIn: word, ghost image: seq<byte>) returns (err: Status)
      requires sum == Checksums.Update(0, image)
      ensures err == NoErr <==> !board.mended || Crc16(image) == crcIn
    {
      var crc := Final(sum);
      err := if board.mended && crc != crcIn then UnknownErr else NoErr;
    }

    method UpdateLogCheck(rec: seq<byte>) returns (log: LogStatus)
      requires Valid() && StaleErased() && OtaTemp in flash.mem && |rec| == RECORD
      modifies data
      ensures StaleErased()
      ensures log == Check(flash.View(), board, rec)
    {
      var i := 0;
      while i < RECORD && rec[i] == ERASED
        invariant 0 <= i <= RECORD && AllErased(rec[..i])
      {
        i := i + 1;
      }
      if i == RECORD {
        assert rec[..i] == rec;
        return NotExist;
      }
      if rec[TAG] != 0x55 {
        return UpdateTagNotExist;
      }
      if StartOf(rec) != board.stagingStart {
        return StartAddressError;
      }
      if rec[TYPE] != 0x42 && rec[TYPE] != 0x41 && rec[TYPE] != 0x44 {
        return ContentTypeNotExist;
      }
      var dest := DestOf(rec[TYPE]);
      if LengthOf(rec) > (if dest in flash.mem then |flash.mem[dest]| else 0) {
        return DataLengthOverflow;
      }
      var err := CheckCrc(CrcOf(rec), LengthOf(rec));
      return if err != NoErr then CrcError else NeedUpdate(dest);
    }

    /** Is any byte of the read buffer not erased? */
    method BufferUsed() returns (used: bool)
      requires Valid()
      ensures used == !AllErased(data[..])
    {
      var j := 0;
      while j < CHUNK
        invariant 0 <= j <= CHUNK && AllErased(data[..j])
      {
        if data[j] != ERASED {
          return true;
        }
        j := j + 1;
      }
      assert data[..j] == data[..];
      return false;
    }

    /** Look for anything in the staging area; the last, short read leaves older bytes behind it in the buffer. */
    method StagingUsed() returns (err: Status, used: bool)
      requires Valid() && StaleErased() && OtaTemp in flash.mem
      modifies data
      ensures err == NoErr && used == !AllErased(flash.mem[OtaTemp])
    {
      ghost var staging := flash.mem[OtaTemp];
      var len := |flash.mem[OtaTemp]|;
      var size, i, offset := len / 4096, 0, 0;
      used := false;
      while i <= size
        invariant 0 <= i <= size + 1 && offset == (if i <= size then 4096 * i else len)
        invariant AllErased(staging[..offset])
        invariant if i == 0 then StaleErased() else AllErased(data[..])
      {
        var n := if i == size then len % 4096 else CHUNK;
        ghost var from, stale := offset, data[..];
        err, offset := ReadInto(OtaTemp, offset, data, n);
        ScannedChunk(staging, from, n, stale, data[..]);
        used := BufferUsed();
        if used {
          return NoErr, true;
        }
        i := i + 1;
      }
      assert staging[..offset] == staging;
      err := NoErr;
    }

    /** No record that asks for an update: erase the staging area if anything is in it. */
    method ClearStaging() returns (err: Status)
      requires Valid() && StaleErased() && OtaTemp in flash.mem && flash.on
      modifies data, flash
      ensures (flash.View(), err) == DropStaging(old(flash.View()))
    {
      var used;
      err, used := StagingUsed();
      if used {
        err := flash.EraseAt(OtaTemp, 0, |flash.mem[OtaTemp]|);
      }
    }

    /** Copy one chunk: read it, write it, go back, read it again and compare. */
    method CopyChunk(dest: Partition, source: nat, target: nat, n: nat)
      returns (err: Status, nextSource: nat, nextTarget: nat)
      requires Valid() && flash.on && OtaTemp in flash.mem && dest in flash.mem && dest != OtaTemp
      requires 0 < n <= CHUNK && target + n <= |flash.mem[dest]|
      modifies flash, data, newData
      ensures err == ParamErr <==> source + n > PartLen(old(flash.View()), OtaTemp)
      ensures err == ParamErr ==> flash.View() == old(flash.View())
      ensures source + n <= PartLen(old(flash.View()), OtaTemp) ==>
                && flash.View() == Write(old(flash.View()), dest, target, old(flash.mem[OtaTemp][source..source + n]))
                && (err == PowerLost <==> !flash.on)
                && (err == NoErr || err == WriteErr || err == PowerLost)
                && (err == NoErr ==> nextSource == source + n && nextTarget == target + n)
                && (flash.on ==> (err == NoErr <==>
                      Cells(flash.View(), dest)[target..target + n] == old(flash.mem[OtaTemp][source..source + n])))
    {
      nextTarget := target;
      err, nextSource := ReadInto(OtaTemp, source, data, n);
      if err != NoErr {
        return;
      }
      ghost var m, chunk := flash.View(), data[..n];
      assert chunk == flash.mem[OtaTemp][source..source + n];
      WriteFrame(m, dest, target, chunk);
      err, nextTarget := flash.WriteAt(dest, target, data[..n]);
      if err != NoErr {
        return;
      }
      nextTarget := nextTarget - n;
      err, nextTarget := ReadInto(dest, nextTarget, newData, n);
      assert data[..n] == chunk;
      if data[..n] != newData[..n] {
        err := WriteErr;
      }
    }

    /** Continue a copy onto erased cells that has come as far as `source`. */
    method CopyNext(ghost m: Medium, dest: Partition, source: nat, target: nat, n: nat)
      returns (err: Status, nextSource: nat, nextTarget: nat)
      requires Valid() && flash.on && OtaTemp in m.mem && dest in m.mem && dest != OtaTemp
      requires m.on && AllErased(m.mem[dest]) && source == target <= |m.mem[OtaTemp]|
      requires 0 < n <= CHUNK && target + n <= |m.mem[dest]|
      requires flash.View() == Write(m, dest, 0, m.mem[OtaTemp][..source])
      modifies flash, data, newData
      ensures err == if source + n > |m.mem[OtaTemp]| then ParamErr else Told(flash.View())
      ensures flash.View() == Write(m, dest, 0, m.mem[OtaTemp][..if err == ParamErr then source else source + n])
      ensures err == NoErr ==> nextSource == nextTarget == source + n
    {
      ghost var staging := m.mem[OtaTemp];
      WriteFrame(m, dest, 0, staging[..source]);
      if source + n <= |staging| {
        WriteNext(m, dest, staging, source, n);
        if Write(m, dest, 0, staging[..source + n]).on {
          ReadsBack(m, dest, staging[..source + n]);
        }
      }
      err, nextSource, nextTarget := CopyChunk(dest, source, target, n);
    }

    /** The copy loop. */
    method CopyImage(dest: Partition, length: nat) returns (err: Status)
      requires Valid() && flash.on && OtaTemp in flash.mem && dest in flash.mem && dest != OtaTemp
      requires length <= |flash.mem[dest]| && AllErased(flash.mem[dest])
      modifies flash, data, newData
      ensures flash.View() == Write(old(flash.View()), dest, 0,
                                    old(flash.mem[OtaTemp][..Copied(length, |flash.mem[OtaTemp]|)]))
      ensures err == if !flash.on then PowerLost
                     else if length > PartLen(old(flash.View()), OtaTemp) then ParamErr
                     else NoErr
    {
      ghost var m, staging := flash.View(), flash.mem[OtaTemp];
      var size, i, source, target := length / 4096, 0, 0, 0;
      err := NoErr;
      while i <= size
        invariant 0 <= i <= size + 1 && err == NoErr && flash.on
        invariant source == target == (if i <= size then 4096 * i else length) && source <= |staging|
        invariant flash.View() == Write(m, dest, 0, staging[..source])
      {
        var copyLength := CHUNK;
        if i == size {
          if length % 4096 == 0 {
            break;
          }
          copyLength := length % 4096;
        }
        ghost var end := source + copyLength;
        ChunkEnds(length, |staging|, i, copyLength);
        err, source, target := CopyNext(m, dest, source, target, copyLength);
        if err != NoErr {
          if end <= |staging| {
            CutWrite(m, dest, staging[..end], staging[..Copied(length, |staging|)]);
          }
          return;
        }
        i := i + 1;
      }
    }

    /** Everything of Parameter1 but the record is written back. */
    method ClearBootRecord() returns (err: Status)
      requires Parameter1 in flash.mem && RECORD <= |flash.mem[Parameter1]| <= RAM_COPY && flash.on
      modifies flash
      ensures flash.View() == ClearRecord(old(flash.View())) && err == Told(flash.View())
    {
      ghost var m := flash.View();
      var len := |flash.mem[Parameter1]|;
      var paraSaveInRam, offset;
      err, paraSaveInRam, offset := flash.ReadAt(Parameter1, 0, len);
      paraSaveInRam := Fill(RECORD, ERASED) + paraSaveInRam[RECORD..];
      assert paraSaveInRam == Cleared(m.mem[Parameter1]);
      EraseFrame(m, Parameter1, 0, len);
      err := flash.EraseAt(Parameter1, 0, len);
      if err == NoErr {
        err, offset := flash.WriteAt(Parameter1, 0, paraSaveInRam);
      }
    }

    /** Erase the destination and copy. */
    method EraseAndCopy(dest: Partition, length: nat) returns (err: Status)
      requires Valid() && flash.on && OtaTemp in flash.mem && dest in flash.mem && dest != OtaTemp
      requires length <= |flash.mem[dest]|
      modifies flash, data, newData
      ensures flash.View() == Install(old(flash.View()), dest, Copied(length, PartLen(old(flash.View()), OtaTemp)))
      ensures err == if !flash.on then PowerLost
                     else if length > PartLen(old(flash.View()), OtaTemp) then ParamErr
                     else NoErr
    {
      ghost var m := flash.View();
      EraseFrame(m, dest, 0, |m.mem[dest]|);
      EraseAll(m, dest);
      err := flash.EraseAt(dest, 0, |flash.mem[dest]|);
      if err == NoErr {
        err := CopyImage(dest, length);
      }
    }

    /** Erase, copy, clear, erase. */
    method InstallFrom(dest: Partition, length: nat) returns (err: Status)
      requires Valid() && flash.on && OtaTemp in flash.mem && dest in flash.mem && dest != OtaTemp && dest != Parameter1
      requires length <= |flash.mem[dest]|
      requires Parameter1 in flash.mem && RECORD <= |flash.mem[Parameter1]| <= RAM_COPY
      modifies flash, data, newData
      ensures (flash.View(), err) == InstallImage(old(flash.View()), dest, length)
    {
      InstallFrame(flash.View(), dest, Copied(length, |flash.mem[OtaTemp]|));
      err := EraseAndCopy(dest, length);
      if err != NoErr {
        return;
      }
      err := FinishInstall();
    }

    method FinishInstall() returns (err: Status)
      requires flash.on && OtaTemp in flash.mem
      requires Parameter1 in flash.mem && RECORD <= |flash.mem[Parameter1]| <= RAM_COPY
      modifies flash
      ensures (flash.View(), err) == Finish(old(flash.View()))
    {
      ClearFrame(flash.View());
      err := ClearBootRecord();
      if err == NoErr {
        err := flash.EraseAt(OtaTemp, 0, |flash.mem[OtaTemp]|);
      }
    }

    /** update() */
    method Update() returns (err: Status)
      requires Valid() && flash.on && (Parameter1 in flash.mem ==> |flash.mem[Parameter1]| <= RAM_COPY)
      modifies flash, data, newData
      ensures (flash.View(), err) == RunUpdate(old(flash.View()), board)
    {
      if OtaTemp !in flash.mem || Parameter1 !in flash.mem {
        return UnsupportedErr;
      }
      forall i | 0 <= i < data.Length {
        data[i] := ERASED;
      }
      forall i | 0 <= i < newData.Length {
        newData[i] := ERASED;
      }
      var updateLog, offset;
      err, updateLog, offset := flash.ReadAt(Parameter1, 0, RECORD);
      if err != NoErr {
        return;
      }
      var log := UpdateLogCheck(updateLog);
      match log
      case NeedUpdate(dest) =>
        if dest !in flash.mem {
          return UnsupportedErr;
        }
        err := InstallFrom(dest, LengthOf(updateLog));
      case _ =>
        err := ClearStaging();
    }
  }

  /** Where a chunk of the copy loop ends, and what was copied if it cannot be read. */
  lemma ChunkEnds(length: nat, available: nat, i: nat, n: nat)
    requires i <= length / 4096 && 4096 * i <= available
    requires 0 < n == if i == length / 4096 then length % 4096 else 4096
    ensures 4096 * i + n <= length
    ensures if 4096 * i + n <= available then 4096 * i + n <= Copied(length, available)
            else length > available && Copied(length, available) == 4096 * i
  {}

  /** One chunk of the scan: the buffer is all erased exactly when the chunk is, because what is left behind it is. */
  lemma ScannedChunk(staging: seq<byte>, from: nat, n: nat, stale: seq<byte>, now: seq<byte>)
    requires |stale| == |now| == CHUNK && n <= CHUNK && from + n <= |staging| && AllErased(staging[..from])
    requires n > 0 ==> now[..n] == staging[from..from + n] && now[n..] == stale[n..]
    requires n == 0 ==> now == stale
    requires AllErased(stale[n..])
    ensures AllErased(now) <==> AllErased(staging[..from + n])
    ensures !AllErased(now) ==> !AllErased(staging)
  {
    assert staging[..from + n] == staging[..from] + staging[from..from + n];
    assert now == now[..n] + now[n..];
  }
}
