/** The receiving side of YMODEM: Ymodem_Receive as a machine driven by bursts, and as the object its local variables
    make up. */
module YmodemReceiver {
  import opened Bytes
  import opened FlashMemory
  import opened YmodemFraming
  import opened YmodemHeader

  const MAX_ERRORS: nat := 20

  datatype Result = Running | Stopped(code: int)

  /** `max` is the room the caller offers; `packets` counts within a file, `files` the ends of file seen. */
  datatype Receiver = Receiver(
    max: nat, packets: nat, files: nat, errors: nat, begun: bool, size: int, name: seq<byte>,
    cells: seq<byte>, dest: nat, buf: seq<byte>, result: Result)

  function NewReceiver(cells: seq<byte>, dest: nat, max: nat, buf: seq<byte>): Receiver {
    Receiver(max, 0, 0, 0, false, 0, [], cells, dest, buf, Running)
  }

  /** platform_flash_erase of the offered room: whole sectors; a request beyond the device is refused. */
  function EraseArea(cells: seq<byte>, dest: nat, max: nat): (r: seq<byte>)
    ensures |r| == |cells|
    ensures dest + max <= |cells| ==> forall i :: dest <= i < dest + max ==> r[i] == ERASED
  {
    if max == 0 || dest + max > |cells| then cells
    else Wipe(cells, SpanStart(dest), SpanEnd(dest, max, |cells|) - SpanStart(dest))
  }

  function Stop(r: Receiver, code: int): Receiver {
    r.(result := Stopped(code))
  }

  /** The opening block of a file. */
  function OnHeader(r: Receiver, payload: seq<byte>): (Receiver, seq<byte>)
    requires |r.buf| == BUFFER && |payload| > 0
  {
    if payload[0] == 0 then (Stop(r, r.size), [ACK])
    else
      var h := r.buf[PACKET_HEADER..];
      var named := r.(name := NameIn(h), size := SizeIn(h, r.size));
      if named.size > r.max + 1 then (Stop(named, -1), [CA, CA])
      else (named.(cells := EraseArea(r.cells, r.dest, r.max), packets := 1, begun := true), [ACK, CRC16])
  }

  /** A data block in its turn. */
  function OnData(r: Receiver, payload: seq<byte>): (Receiver, seq<byte>) {
    if r.dest + |payload| > |r.cells| then (Stop(r, -2), [CA, CA])
    else
      var s := r.(cells := Program(r.cells, r.dest, payload), dest := r.dest + |payload|);
      (s.(packets := r.packets + 1, begun := true), [ACK])
  }

  /** What the receiver makes of a burst, and the bytes it answers with. */
  function Step(r: Receiver, line: seq<byte>): (Receiver, seq<byte>)
    requires |r.buf| == BUFFER
  {
    if r.result != Running then (r, [])
    else
      var s := r.(buf := Buffered(line, r.buf), errors := 0);
      match Parse(line)
      case AbortedBySender => (Stop(s, 0), [ACK])
      case EndOfFile => (s.(packets := 0, files := r.files + 1), [ACK])
      case Block(seqNo, payload) =>
        if seqNo as nat != r.packets % 0x100 || |payload| == 0 then (s, [NAK])
        else if r.packets == 0 then OnHeader(s, payload)
        else OnData(s, payload)
      case AbortedByUser => (Stop(s.(errors := r.errors), -3), [CA, CA])
      case Garbled =>
        var e := if r.begun then r.errors + 1 else r.errors;
        if e > MAX_ERRORS then (Stop(s.(errors := e), 0), [CA, CA]) else (s.(errors := e), [CRC16])
  }

  lemma StepKeepsBuffer(r: Receiver, line: seq<byte>)
    requires |r.buf| == BUFFER
    ensures |Step(r, line).0.buf| == BUFFER
  {}

  /** A whole conversation, as far as the bursts go. */
  function Run(r: Receiver, lines: seq<seq<byte>>): (Receiver, seq<byte>)
    requires |r.buf| == BUFFER
    decreases |lines|
  {
    if lines == [] then (r, [])
    else
      StepKeepsBuffer(r, lines[0]);
      var (s, out) := Step(r, lines[0]);
      var (t, more) := Run(s, lines[1..]);
      (t, out + more)
  }

  lemma {:induction false} RunSplit(r: Receiver, lines: seq<seq<byte>>, k: nat)
    requires |r.buf| == BUFFER && k < |lines|
    ensures |Run(r, lines[..k]).0.buf| == BUFFER
    ensures var (s, out) := Run(r, lines[..k]);
            Run(r, lines[..k + 1]) == (Step(s, lines[k]).0, out + Step(s, lines[k]).1)
    decreases k
  {
    StepKeepsBuffer(r, lines[0]);
    var (s, out) := Step(r, lines[0]);
    if k == 0 {
      assert lines[..0] == [];
      assert lines[..1][0] == lines[0] && lines[..1][1..] == [];
      assert Run(s, []) == (s, []) && out + [] == out && [] + out == out;
      assert Run(r, lines[..1]) == (s, out + []);
    } else {
      assert lines[..k][1..] == lines[1..][..k - 1] && lines[..k + 1][1..] == lines[1..][..k];
      RunSplit(s, lines[1..], k - 1);
      var (t, more) := Run(s, lines[1..][..k - 1]);
      assert (out + more) + Step(t, lines[k]).1 == out + (more + Step(t, lines[k]).1);
    }
  }

  /** The local variables of Ymodem_Receive. */
  class Reception {
    const max: nat
    const flash: array<byte>
    const packetData: array<byte>
    var fileName: seq<byte>
    var size: int
    var packetsReceived: nat
    var errors: nat
    var sessionBegin: bool
    var flashDestination: nat
    var result: Result
    ghost var files: nat

    ghost predicate Valid()
      reads this
    {
      packetData.Length == BUFFER && flash != packetData
    }

    ghost function View(): Receiver
      reads this, flash, packetData
    {
      Receiver(max, packetsReceived, files, errors, sessionBegin, size, fileName,
               flash[..], flashDestination, packetData[..], result)
    }

    constructor (flash: array<byte>, packetData: array<byte>, dest: nat, max: nat)
      requires packetData.Length == BUFFER && flash != packetData
      ensures Valid() && this.flash == flash && this.packetData == packetData
      ensures View() == NewReceiver(flash[..], dest, max, packetData[..])
    {
      this.max, this.flash, this.packetData := max, flash, packetData;
      fileName, size, packetsReceived, errors, sessionBegin := [], 0, 0, 0, false;
      flashDestination, result, files := dest, Running, 0;
    }

    /** The file-name branch: read name and size, check the room, erase it. */
    method ReceiveHeader(ghost payload: seq<byte>) returns (replies: seq<byte>, sessionDone: bool)
      requires Valid() && result == Running
      requires |payload| > 0 && packetData[PACKET_HEADER] == payload[0] && packetsReceived == 0
      modifies this, flash
      ensures Valid() && (View(), replies) == OnHeader(old(View()), payload)
      ensures sessionDone == (payload[0] == 0)
    {
      if packetData[PACKET_HEADER] == 0 {
        result := Stopped(size);
        return [ACK], true;
      }
      ghost var buf := packetData[..];
      var h := packetData[PACKET_HEADER..];
      assert h == buf[PACKET_HEADER..];
      fileName := NameIn(h);
      var res;
      res, size := Str2Int(SizeTextIn(h) + [0], size);
      if size > max + 1 {
        result := Stopped(-1);
        return [CA, CA], false;
      }
      EraseRoom();
      packetsReceived, sessionBegin := 1, true;
      assert packetData[..] == buf;
      return [ACK, CRC16], false;
    }

    /** platform_flash_erase of the offered room */
    method EraseRoom()
      modifies flash
      ensures flash[..] == EraseArea(old(flash[..]), flashDestination, max)
    {
      if max > 0 && flashDestination + max <= flash.Length {
        ghost var cells := flash[..];
        var first, end := SpanStart(flashDestination), SpanEnd(flashDestination, max, flash.Length);
        forall i | first <= i < end {
          flash[i] := ERASED;
        }
        assert flash[..] == Wipe(cells, first, end - first);
      }
    }

    /** The data branch: write the block behind the ones before it. */
    method ReceiveData(length: nat) returns (replies: seq<byte>)
      requires Valid() && result == Running && PACKET_HEADER + length <= BUFFER
      modifies this, flash
      ensures Valid()
      ensures (View(), replies) == OnData(old(View()), old(packetData[PACKET_HEADER..PACKET_HEADER + length]))
    {
      if flashDestination + length > flash.Length {
        result := Stopped(-2);
        return [CA, CA];
      }
      ghost var cells, payload := flash[..], packetData[PACKET_HEADER..PACKET_HEADER + length];
      ghost var buf := packetData[..];
      forall i | 0 <= i < length {
        flash[flashDestination + i] := And(flash[flashDestination + i], packetData[PACKET_HEADER + i]);
      }
      assert flash[..] == Program(cells, flashDestination, payload);
      assert packetData[..] == buf;
      flashDestination, packetsReceived, sessionBegin := flashDestination + length, packetsReceived + 1, true;
      return [ACK];
    }

    /** One turn of the inner loop. */
    method Receive(line: seq<byte>) returns (replies: seq<byte>, fileDone: bool)
      requires Valid() && result == Running
      modifies this, flash, packetData
      ensures Valid() && (View(), replies) == Step(old(View()), line)
      ensures fileDone ==> packetsReceived == 0 || result != Running
    {
      var status, length := ReceivePacket(packetData, line);
      fileDone := false;
      if status == 0 {
        errors := 0;
        if length == -1 {
          result := Stopped(0);
          replies := [ACK];
        } else if length == 0 {
          packetsReceived, files, fileDone := 0, files + 1, true;
          replies := [ACK];
        } else if packetData[1] as nat != packetsReceived % 0x100 {
          replies := [NAK];
        } else if packetsReceived == 0 {
          replies, fileDone := ReceiveHeader(packetData[PACKET_HEADER..PACKET_HEADER + length]);
        } else {
          replies := ReceiveData(length);
        }
      } else if status == 1 {
        result := Stopped(-3);
        replies := [CA, CA];
      } else {
        if sessionBegin {
          errors := errors + 1;
        }
        if errors > MAX_ERRORS {
          result := Stopped(0);
          replies := [CA, CA];
        } else {
          replies := [CRC16];
        }
      }
    }

    /** Ymodem_Receive, for as long as there are bursts (an empty burst is a timeout). */
    method ReceiveAll(lines: seq<seq<byte>>) returns (replies: seq<byte>)
      requires Valid() && result == Running && packetsReceived == 0
      modifies this, flash, packetData
      ensures Valid() && |old(View()).buf| == BUFFER && (View(), replies) == Run(old(View()), lines)
    {
      ghost var before := View();
      var k := 0;
      replies := [];
      assert lines[..0] == [];
      while result == Running && k < |lines|
        invariant result == Running && k < |lines| ==> packetsReceived == 0
        invariant Valid() && 0 <= k <= |lines| && (View(), replies) == Run(before, lines[..k])
        decreases |lines| - k
      {
        packetsReceived := 0;
        var fileDone := false;
        var k0 := k;
        while !fileDone && result == Running && k < |lines|
          invariant Valid() && k0 <= k <= |lines| && (View(), replies) == Run(before, lines[..k])
          invariant fileDone || k == |lines| || result != Running ==> k > k0
          invariant k == k0 || fileDone ==> result == Running ==> packetsReceived == 0
          decreases |lines| - k
        {
          RunSplit(before, lines, k);
          var out;
          out, fileDone := Receive(lines[k]);
          replies, k := replies + out, k + 1;
        }
      }
      while k < |lines|
        invariant Valid() && 0 <= k <= |lines| && (View(), replies) == Run(before, lines[..k])
        invariant k < |lines| ==> result != Running
      {
        RunSplit(before, lines, k);
        assert replies + [] == replies;
        k := k + 1;
      }
      assert lines[..k] == lines;
    }
  }
}
