/** Whether a file arrives intact: the room the receiver erases, and what is beyond it. */
module YmodemRoom {
  import opened Bytes
  import opened FlashMemory
  import opened YmodemFraming
  import opened YmodemHeader
  import opened YmodemLink
  import opened YmodemTheorems
  import S = YmodemSender
  import R = YmodemReceiver

  /** How far the erased room reaches: to the end of the last sector it touches, or nowhere if the request is refused.
      */
  function ErasedEnd(dest: nat, max: nat, device: nat): nat {
    if max == 0 || dest + max > device then dest else SpanEnd(dest, max, device)
  }

  /** What a cell holds that is programmed without having been erased. */
  lemma {:induction false} AndZero(b: nat)
    ensures AndBits(0, b) == 0
    decreases b
  {
    if b > 0 {
      AndZero(b / 2);
    }
  }

  lemma AndWithZero(a: nat)
    ensures AndBits(a, 0) == 0
  {}

  /** The part of the flash where the blocks of a file were written. */
  function Written(cells: seq<byte>, dest: nat, max: nat, data: seq<byte>): seq<byte>
    requires dest + |data| <= |cells|
  {
    Program(R.EraseArea(cells, dest, max), dest, data)[dest..dest + |data|]
  }

  lemma WrittenCell(cells: seq<byte>, dest: nat, max: nat, data: seq<byte>, i: nat)
    requires dest + |data| <= |cells| && i < |data|
    ensures Written(cells, dest, max, data)[i]
            == if dest + i < ErasedEnd(dest, max, |cells|) then data[i] else And(cells[dest + i], data[i])
  {
    AndErased(data[i]);
  }

  /** Everything beyond the erased room is zero. */
  ghost predicate RoomFor(file: seq<byte>, dest: nat, max: nat, device: nat) {
    forall i :: 0 <= i < |Padded(file)| && ErasedEnd(dest, max, device) <= dest + i ==> Padded(file)[i] == 0
  }

  lemma RoomSuffices(file: seq<byte>, dest: nat, max: nat, cells: seq<byte>)
    requires dest + |Padded(file)| <= |cells| && RoomFor(file, dest, max, |cells|)
    ensures Written(cells, dest, max, Padded(file)) == Padded(file)
  {
    forall i | 0 <= i < |Padded(file)|
      ensures Written(cells, dest, max, Padded(file))[i] == Padded(file)[i]
    {
      WrittenCell(cells, dest, max, Padded(file), i);
      AndWithZero(cells[dest + i] as nat);
    }
  }

  lemma NoRoom(file: seq<byte>, dest: nat, max: nat, device: nat)
    requires dest + |Padded(file)| <= device && !RoomFor(file, dest, max, device)
    ensures Written(Fill(device, 0), dest, max, Padded(file)) != Padded(file)
  {
    var data := Padded(file);
    var i :| 0 <= i < |data| && ErasedEnd(dest, max, device) <= dest + i && data[i] != 0;
    WrittenCell(Fill(device, 0), dest, max, data, i);
    AndZero(data[i] as nat);
  }

  /** The file arrives over every former content of the flash if and only if everything beyond the erased room is
      zero. */
  lemma RoomForFile(file: seq<byte>, dest: nat, max: nat, device: nat)
    requires dest + |Padded(file)| <= device
    ensures (forall cells: seq<byte> :: |cells| == device ==> Written(cells, dest, max, Padded(file)) == Padded(file))
            <==> RoomFor(file, dest, max, device)
  {
    if RoomFor(file, dest, max, device) {
      forall cells: seq<byte> | |cells| == device
        ensures Written(cells, dest, max, Padded(file)) == Padded(file)
      {
        RoomSuffices(file, dest, max, cells);
      }
    } else {
      NoRoom(file, dest, max, device);
      assert |Fill(device, 0)| == device;
    }
  }

  // ---------------------------------------------------------------- runs

  /** The flash holds the file followed by fewer than 128 bytes of 0x1A. */
  ghost predicate Holds(l: Link, dest: nat, file: seq<byte>) {
    var cells, n := l.receiver.cells, |file|;
    && dest + n + PadLength(n) <= |cells| && cells[dest..dest + n] == file
    && PadLength(n) < 128 && cells[dest + n..dest + n + PadLength(n)] == Fill(PadLength(n), 0x1A)
  }

  lemma HoldsPadded(l: Link, dest: nat, file: seq<byte>)
    requires dest + |Padded(file)| <= |l.receiver.cells|
    ensures Holds(l, dest, file) <==> l.receiver.cells[dest..dest + |Padded(file)|] == Padded(file)
  {
    var cells, n, k := l.receiver.cells, |file|, PadLength(|file|);
    assert cells[dest..dest + n + k] == cells[dest..dest + n] + cells[dest + n..dest + n + k];
    assert Padded(file)[..n] == file && Padded(file)[n..] == Fill(k, PADDING);
    if cells[dest..dest + n + k] == Padded(file) {
      assert cells[dest..dest + n] == cells[dest..dest + n + k][..n];
      assert cells[dest + n..dest + n + k] == cells[dest..dest + n + k][n..];
    }
  }

  /** In every run, whatever is lost on the way, the flash holds the file and the receiver its name and size once
      Ymodem_Transmit has returned 0, if everything beyond the erased room is zero; in particular if the blocks end
      inside it. */
  lemma FileArrives(job: S.Job, site: Site, buf: seq<byte>, events: seq<Event>)
    requires |buf| == BUFFER && site.dest <= |site.cells| && Announced(job)
    requires RoomFor(job.file, site.dest, site.max, |site.cells|)
    ensures var l := Run(job, Start(site, buf), events);
            Succeeded(l) ==>
              && Holds(l, site.dest, job.file) && l.receiver.size == |job.file|
              && (0 in job.header ==> l.receiver.name == UpTo(job.header, 0))
  {
    TransferCorrect(job, site, buf, events);
    var l := Run(job, Start(site, buf), events);
    if Succeeded(l) {
      RoomSuffices(job.file, site.dest, site.max, site.cells);
      HoldsPadded(l, site.dest, job.file);
    }
  }

  ghost predicate ArrivesIn(job: S.Job, site: Site, buf: seq<byte>, events: seq<Event>)
    requires |buf| == BUFFER
  {
    var l := Run(job, Start(site, buf), events);
    Succeeded(l) ==> Holds(l, site.dest, job.file)
  }

  /** Over every former content of the flash and in every run. */
  ghost predicate AlwaysArrives(job: S.Job, dest: nat, max: nat, device: nat, buf: seq<byte>)
    requires |buf| == BUFFER
  {
    forall cells: seq<byte>, events: seq<Event> ::
      |cells| == device ==> ArrivesIn(job, Site(cells, dest, max), buf, events)
  }

  /** A transfer always leaves the file in the flash if and only if there is room for it, or it is never accepted. */
  lemma ArrivesExactly(job: S.Job, dest: nat, max: nat, device: nat, buf: seq<byte>)
    requires |buf| == BUFFER && dest <= device && Announced(job)
    ensures AlwaysArrives(job, dest, max, device, buf)
            <==> RoomFor(job.file, dest, max, device) || !Accepted(job, Site(Fill(device, 0), dest, max))
  {
    if RoomFor(job.file, dest, max, device) {
      forall cells: seq<byte>, events: seq<Event> | |cells| == device
        ensures ArrivesIn(job, Site(cells, dest, max), buf, events)
      {
        FileArrives(job, Site(cells, dest, max), buf, events);
      }
    } else if !Accepted(job, Site(Fill(device, 0), dest, max)) {
      forall cells: seq<byte>, events: seq<Event> | |cells| == device
        ensures ArrivesIn(job, Site(cells, dest, max), buf, events)
      {
        TransferCorrect(job, Site(cells, dest, max), buf, events);
      }
    } else {
      SomethingBroken(job, dest, max, device, buf);
    }
  }

  /** Without room there is a flash, all zeros, and a run without faults after which it does not hold the file. */
  lemma SomethingBroken(job: S.Job, dest: nat, max: nat, device: nat, buf: seq<byte>)
    requires |buf| == BUFFER && dest <= device && Announced(job)
    requires !RoomFor(job.file, dest, max, device) && Accepted(job, Site(Fill(device, 0), dest, max))
    ensures !AlwaysArrives(job, dest, max, device, buf)
  {
    var site := Site(Fill(device, 0), dest, max);
    FaultFreeTransfer(job, site, buf);
    var events :| Agreed(job, Run(job, Start(site, buf), events));
    TransferCorrect(job, site, buf, events);
    NoRoom(job.file, dest, max, device);
    HoldsPadded(Run(job, Start(site, buf), events), dest, job.file);
    assert !ArrivesIn(job, site, buf, events);
  }

  // ---------------------------------------------------------------- what that comes to

  /** For an accepted file and a room inside the device: the blocks end inside the erased room, or the file is one byte
      larger than the room, needs no padding, the room ends with a sector, and that byte is zero. */
  lemma RoomMeans(file: seq<byte>, dest: nat, max: nat, device: nat)
    requires 0 < max && dest + max <= device && |file| <= max + 1
    ensures var end := ErasedEnd(dest, max, device);
            RoomFor(file, dest, max, device)
            <==> dest + |Padded(file)| <= end
                 || (|file| == max + 1 && |file| % 128 == 0 && end == dest + max && file[max] == 0)
  {
    var data, end := Padded(file), ErasedEnd(dest, max, device);
    assert end >= dest + max;
    if dest + |data| > end {
      LastBeyond(file, dest, max, device);
    }
  }

  lemma LastBeyond(file: seq<byte>, dest: nat, max: nat, device: nat)
    requires 0 < max && dest + max <= device && |file| <= max + 1
    requires ErasedEnd(dest, max, device) < dest + |Padded(file)|
    ensures RoomFor(file, dest, max, device)
            <==> |file| == max + 1 && |file| % 128 == 0 && ErasedEnd(dest, max, device) == dest + max && file[max] == 0
  {
    var data := Padded(file);
    if PadLength(|file|) > 0 {
      assert data[|data| - 1] == PADDING;
      assert |file| % 128 != 0;
    } else {
      assert data == file && |file| % 128 == 0;
    }
  }

  lemma WholeSectorsEnd(dest: nat, max: nat, device: nat)
    requires dest % 0x1000 == 0 && max % 0x1000 == 0 && 0 < max && dest + max <= device
    ensures ErasedEnd(dest, max, device) == dest + max
  {
    var q, k := dest / 0x1000, max / 0x1000;
    assert dest == 0x1000 * q && max == 0x1000 * k;
    assert (dest + max + 0xFFF) / 0x1000 == q + k;
  }

  /** Padding to a multiple of 128 stays within a multiple of 128. */
  lemma PaddingFits(n: nat, max: nat)
    requires max % 0x1000 == 0
    ensures n <= max <==> n + PadLength(n) <= max
    ensures n == max + 1 ==> n % 128 == 1
  {
    var k := (n + PadLength(n)) / 128;
    assert n + PadLength(n) == 128 * k;
    var q := max / 0x1000;
    assert max == 128 * (32 * q);
  }

  /** With a room of whole sectors, as partitions are, this is simply that the file is no larger than the room: padding
      never hurts, and the extra byte that the receiver allows always does. */
  lemma RoomOfWholeSectors(file: seq<byte>, dest: nat, max: nat, device: nat)
    requires dest % 0x1000 == 0 && max % 0x1000 == 0 && 0 < max && dest + max <= device && |file| <= max + 1
    ensures RoomFor(file, dest, max, device) <==> |file| <= max
  {
    WholeSectorsEnd(dest, max, device);
    RoomMeans(file, dest, max, device);
    PaddingFits(|file|, max);
  }
}
