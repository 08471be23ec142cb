/** The sending side of YMODEM: Ymodem_Transmit as a machine that sends a burst, waits for a reply byte and goes on, and
    as the nested retry loops it is written in. */
module YmodemSender {
  import opened Bytes
  import opened Checksums
  import opened YmodemFraming
  import opened YmodemHeader

  datatype Reply = Silence | Got(b: byte)

  /** What is to be sent: the file and the payload of the block that announces it, with what checksum. */
  datatype Job = Job(file: seq<byte>, header: seq<byte>, sum: Checksum)

  /** Where the sender is.  `at` remembers how far a sender got that has returned. */
  datatype Phase =
    | Header
    | Drain
    | Data(rest: seq<byte>, blk: nat)
    | Eot
    | Last
    | LastEot
    | Returned(code: nat, at: nat)

  datatype Sender = Sender(phase: Phase, errors: nat)

  const START: Sender := Sender(Header, 0)

  const RETRIES: nat := 10

  /** Block numbers are kept in 16 bits and sent in 8. */
  function Wrap16(blk: nat): (r: nat)
    ensures r < 0x1_0000
  {
    blk % 0x1_0000
  }

  function PktNo(blk: nat): byte {
    (Wrap16(blk) % 0x100) as byte
  }

  /** blkNumber++ on an unsigned 16-bit counter. */
  method CountUp(blkNumber: nat, ghost blk: nat) returns (next: nat)
    requires blkNumber == Wrap16(blk)
    ensures next == Wrap16(blk + 1)
  {
    next := Wrap16(blkNumber + 1);
    assert blk == 0x1_0000 * (blk / 0x1_0000) + blkNumber;
    if blkNumber + 1 < 0x1_0000 {
      assert (blk + 1) / 0x1_0000 == blk / 0x1_0000;
    } else {
      assert blk + 1 == 0x1_0000 * (blk / 0x1_0000 + 1);
    }
  }

  function BlockCountOf(job: Job): nat {
    |Chunks(job.file)|
  }

  /** The position of a phase in the whole conversation: the index of the burst that it sends. */
  function Index(job: Job, phase: Phase): nat {
    match phase
    case Header => 0
    case Drain => 1
    case Data(_, blk) => blk
    case Eot => BlockCountOf(job) + 1
    case Last => BlockCountOf(job) + 2
    case LastEot => BlockCountOf(job) + 3
    case Returned(_, at) => at
  }

  predicate Speaks(phase: Phase) {
    !phase.Drain? && !phase.Returned?
  }

  /** The burst a phase sends. */
  function Burst(job: Job, phase: Phase): seq<byte> {
    match phase
    case Header => Frame(job.sum, 0, job.header)
    case Data(rest, blk) => Frame(job.sum, PktNo(blk), Payload(rest))
    case Eot => [EOT]
    case Last => Frame(job.sum, 0, Fill(PACKET_SIZE, 0))
    case LastEot => [EOT]
    case Drain => []
    case Returned(_, _) => []
  }

  function Fail(job: Job, s: Sender): Sender {
    if s.errors + 1 >= RETRIES then Sender(Returned(s.errors + 1, Index(job, s.phase)), s.errors + 1)
    else s.(errors := s.errors + 1)
  }

  /** How a reply, or the lack of one, moves the sender on. */
  function Next(job: Job, s: Sender, reply: Reply): Sender {
    match s.phase
    case Header =>
      if reply == Got(ACK) then Sender(Drain, 0) else if reply == Silence then Fail(job, s) else s
    case Drain =>
      if job.file == [] then Sender(Eot, 0) else Sender(Data(job.file, 1), 0)
    case Data(rest, blk) =>
      if reply != Got(ACK) then Fail(job, s)
      else if Beyond(rest) != [] then Sender(Data(Beyond(rest), blk + 1), 0)
      else Sender(Eot, 0)
    case Eot =>
      if reply == Got(ACK) then Sender(Last, 0) else Fail(job, s)
    case Last =>
      if reply == Got(ACK) then Sender(LastEot, s.errors) else if reply == Silence then Fail(job, s) else s
    case LastEot =>
      // the acknowledgement flag is still set: this loop is left after one turn, with the errors of the one before
      var errors := if reply == Got(ACK) then s.errors else s.errors + 1;
      Sender(Returned(if errors >= RETRIES then errors else 0, Index(job, s.phase)), errors)
    case Returned(_, _) => s
  }

  function First(replies: seq<Reply>): Reply {
    if replies == [] then Silence else replies[0]
  }

  function After(replies: seq<Reply>): seq<Reply> {
    if replies == [] then [] else replies[1..]
  }

  function Rank(phase: Phase): nat {
    match phase
    case Header => 6
    case Drain => 5
    case Data(_, _) => 4
    case Eot => 3
    case Last => 2
    case LastEot => 1
    case Returned(_, _) => 0
  }

  /** The return value of a sender that gets the given replies and then none, and the bursts it puts on the line. */
  function Run(job: Job, s: Sender, replies: seq<Reply>): (r: (nat, seq<seq<byte>>))
    decreases |replies|, Rank(s.phase), if s.errors < RETRIES then RETRIES - s.errors else 0
  {
    if s.phase.Returned? then (s.phase.code, [])
    else
      var later := Run(job, Next(job, s, First(replies)), After(replies));
      (later.0, (if Speaks(s.phase) then [Burst(job, s.phase)] else []) + later.1)
  }

  /** The number of data blocks put on the line, retransmissions included. */
  function DataBursts(job: Job, s: Sender, replies: seq<Reply>): nat
    decreases |replies|, Rank(s.phase), if s.errors < RETRIES then RETRIES - s.errors else 0
  {
    if s.phase.Returned? then 0
    else (if s.phase.Data? then 1 else 0) + DataBursts(job, Next(job, s, First(replies)), After(replies))
  }

  /** No block is sent more than ten times. */
  lemma {:induction false} DataBurstsBounded(job: Job, s: Sender, replies: seq<Reply>)
    requires s.phase.Data? ==> s.phase.rest != [] && s.errors < RETRIES
    ensures s.phase.Data? ==> DataBursts(job, s, replies) <= RETRIES * |Chunks(s.phase.rest)| - s.errors
    ensures s.phase.Header? || s.phase.Drain? ==> DataBursts(job, s, replies) <= RETRIES * |Chunks(job.file)|
    ensures s.phase.Eot? || s.phase.Last? || s.phase.LastEot? || s.phase.Returned? ==> DataBursts(job, s, replies) == 0
    decreases |replies|, Rank(s.phase), if s.errors < RETRIES then RETRIES - s.errors else 0
  {
    if !s.phase.Returned? {
      DataBurstsBounded(job, Next(job, s, First(replies)), After(replies));
    }
  }

  /** The data phase of a transfer, whatever the other side answers. */
  lemma TransferBursts(job: Job, replies: seq<Reply>)
    ensures DataBursts(job, START, replies) <= RETRIES * BlockCount(|job.file|)
  {
    DataBurstsBounded(job, START, replies);
    ChunksCount(job.file);
  }

  /** The payload of the opening block as it goes out. */
  function Announcement(fileName: seq<byte>, n: nat, scratch: seq<byte>): (p: seq<byte>)
    ensures |p| == PACKET_SIZE
  {
    HeaderPayload(UpTo(fileName, 0), SizeText(n, scratch))[..PACKET_SIZE]
  }

  /** One retry loop: whether the burst was acknowledged, the errors counted, the replies left and the bursts sent.  A
      strict loop counts every wrong reply as an error, the others only silence. */
  datatype Outcome = Outcome(acked: bool, errors: nat, left: seq<Reply>, sends: nat)

  function Retry(strict: bool, errors: nat, replies: seq<Reply>): Outcome
    requires errors < RETRIES
    decreases |replies|, RETRIES - errors
  {
    var reply, left := First(replies), After(replies);
    if reply == Got(ACK) then Outcome(true, errors, left, 1)
    else
      var e := if strict || reply == Silence then errors + 1 else errors;
      if e >= RETRIES then Outcome(false, e, left, 1)
      else
        var later := Retry(strict, e, left);
        later.(sends := later.sends + 1)
  }

  function Copies(n: nat, burst: seq<byte>): seq<seq<byte>> {
    if n == 0 then [] else [burst] + Copies(n - 1, burst)
  }

  lemma {:induction false} CopiesGrow(n: nat, burst: seq<byte>)
    ensures Copies(n, burst) + [burst] == Copies(n + 1, burst)
  {
    if n > 0 {
      CopiesGrow(n - 1, burst);
    }
  }

  predicate Strict(phase: Phase) {
    phase.Data? || phase.Eot?
  }

  /** What a run amounts to if it ended with too many errors after some bursts, or went on after them as another one. */
  ghost predicate Splits(run: (nat, seq<seq<byte>>), errors: nat, sent: seq<seq<byte>>, rest: (nat, seq<seq<byte>>)) {
    if errors >= RETRIES then run == (errors, sent) else run.0 == rest.0 && run.1 == sent + rest.1
  }

  /** A stretch of a run: it either ended with too many errors, or put out `sent` and reached `t`. */
  ghost predicate Stretch(job: Job, s: Sender, replies: seq<Reply>, errors: nat, sent: seq<seq<byte>>, t: Sender,
                          left: seq<Reply>)
  {
    Splits(Run(job, s, replies), errors, sent, Run(job, t, left))
  }

  lemma StretchJoin(job: Job, s: Sender, replies: seq<Reply>, sent1: seq<seq<byte>>, t1: Sender, left1: seq<Reply>,
                    errors: nat, sent2: seq<seq<byte>>, t2: Sender, left2: seq<Reply>)
    requires Stretch(job, s, replies, 0, sent1, t1, left1)
    requires Stretch(job, t1, left1, errors, sent2, t2, left2)
    ensures Stretch(job, s, replies, errors, sent1 + sent2, t2, left2)
  {
    assert (sent1 + sent2) + Run(job, t2, left2).1 == sent1 + (sent2 + Run(job, t2, left2).1);
  }

  /** One turn of the machine. */
  lemma StretchStep(job: Job, s: Sender, replies: seq<Reply>)
    requires !s.phase.Returned?
    ensures Stretch(job, s, replies, 0, if Speaks(s.phase) then [Burst(job, s.phase)] else [],
                    Next(job, s, First(replies)), After(replies))
  {}

  /** Anything but an acknowledgement keeps the sender in its phase until the errors run out. */
  lemma NotAcknowledged(job: Job, phase: Phase, errors: nat, reply: Reply)
    requires Speaks(phase) && !phase.LastEot? && errors < RETRIES && reply != Got(ACK)
    ensures var e := if Strict(phase) || reply == Silence then errors + 1 else errors;
            Next(job, Sender(phase, errors), reply)
            == Sender(if e >= RETRIES then Returned(e, Index(job, phase)) else phase, e)
  {}

  /** A retry loop is what the machine does while it stays in a phase. */
  lemma {:induction false} RetryIsRun(job: Job, phase: Phase, errors: nat, replies: seq<Reply>)
    requires Speaks(phase) && !phase.LastEot? && errors < RETRIES
    ensures var o := Retry(Strict(phase), errors, replies);
            && o.acked == (o.errors < RETRIES)
            && Stretch(job, Sender(phase, errors), replies, o.errors, Copies(o.sends, Burst(job, phase)),
                       Next(job, Sender(phase, o.errors), Got(ACK)), o.left)
    decreases |replies|, RETRIES - errors
  {
    if First(replies) == Got(ACK) {
      RetryAcknowledged(job, phase, errors, replies);
    } else {
      var e := if Strict(phase) || First(replies) == Silence then errors + 1 else errors;
      NotAcknowledged(job, phase, errors, First(replies));
      if e < RETRIES {
        RetryIsRun(job, phase, e, After(replies));
        var o := Retry(Strict(phase), e, After(replies));
        RetryAgain(Strict(phase), errors, replies, e, Burst(job, phase), Run(job, Sender(phase, errors), replies),
                   Run(job, Sender(phase, e), After(replies)),
                   Run(job, Next(job, Sender(phase, o.errors), Got(ACK)), o.left));
      } else {
        RetryFailed(job, phase, errors, replies, e);
      }
    }
  }

  lemma RetryAcknowledged(job: Job, phase: Phase, errors: nat, replies: seq<Reply>)
    requires Speaks(phase) && !phase.LastEot? && errors < RETRIES && First(replies) == Got(ACK)
    ensures var o := Retry(Strict(phase), errors, replies);
            && o == Outcome(true, errors, After(replies), 1)
            && Stretch(job, Sender(phase, errors), replies, 0, Copies(o.sends, Burst(job, phase)),
                       Next(job, Sender(phase, o.errors), Got(ACK)), o.left)
  {
    StretchStep(job, Sender(phase, errors), replies);
    assert Copies(1, Burst(job, phase)) == [Burst(job, phase)];
  }

  lemma RetryFailed(job: Job, phase: Phase, errors: nat, replies: seq<Reply>, e: nat)
    requires Speaks(phase) && !phase.LastEot? && errors < RETRIES <= e && First(replies) != Got(ACK)
    requires e == if Strict(phase) || First(replies) == Silence then errors + 1 else errors
    requires Next(job, Sender(phase, errors), First(replies)) == Sender(Returned(e, Index(job, phase)), e)
    ensures Retry(Strict(phase), errors, replies) == Outcome(false, e, After(replies), 1)
    ensures Run(job, Sender(phase, errors), replies) == (e, Copies(1, Burst(job, phase)))
  {
    assert Copies(1, Burst(job, phase)) == [Burst(job, phase)];
  }

  /** One more burst in front of a retry loop. */
  lemma RetryAgain(strict: bool, errors: nat, replies: seq<Reply>, e: nat, burst: seq<byte>, run: (nat, seq<seq<byte>>),
                   after: (nat, seq<seq<byte>>), rest: (nat, seq<seq<byte>>))
    requires errors < RETRIES && e < RETRIES && First(replies) != Got(ACK)
    requires e == if strict || First(replies) == Silence then errors + 1 else errors
    requires run == (after.0, [burst] + after.1)
    requires var o := Retry(strict, e, After(replies)); Splits(after, o.errors, Copies(o.sends, burst), rest)
    ensures var o, later := Retry(strict, errors, replies), Retry(strict, e, After(replies));
            o == later.(sends := later.sends + 1) && Splits(run, o.errors, Copies(o.sends, burst), rest)
  {
    var n := Retry(strict, e, After(replies)).sends;
    assert Copies(n + 1, burst) == [burst] + Copies(n, burst);
    assert [burst] + (Copies(n, burst) + rest.1) == ([burst] + Copies(n, burst)) + rest.1;
  }

  /** The loops that send one burst until it is acknowledged or the errors run out. */
  method SendUntilAck(burst: seq<byte>, strict: bool, replies: seq<Reply>)
    returns (ackReceived: bool, errors: nat, left: seq<Reply>, sent: seq<seq<byte>>)
    ensures Retry(strict, 0, replies) == Outcome(ackReceived, errors, left, |sent|)
    ensures sent == Copies(|sent|, burst)
  {
    ackReceived, errors, left, sent := false, 0, replies, [];
    ghost var whole := Retry(strict, 0, replies);
    while !ackReceived && errors < RETRIES
      invariant sent == Copies(|sent|, burst)
      invariant if ackReceived || errors >= RETRIES then whole == Outcome(ackReceived, errors, left, |sent|)
                else var later := Retry(strict, errors, left); whole == later.(sends := |sent| + later.sends)
      decreases |left|, if ackReceived then 0 else 1, RETRIES - errors
    {
      CopiesGrow(|sent|, burst);
      sent := sent + [burst];
      var reply := First(left);
      left := After(left);
      if reply == Got(ACK) {
        ackReceived := true;
      } else if strict || reply == Silence {
        errors := errors + 1;
      }
    }
  }

  /** The bytes of a prepared block with its two checksum bytes. */
  method SendPacket(sum: Checksum, data: array<byte>, pktSize: nat) returns (burst: seq<byte>)
    requires data.Length == BUFFER && PACKET_HEADER + pktSize <= BUFFER
    ensures burst == data[..PACKET_HEADER + pktSize] + Trailer(sum, data[PACKET_HEADER..PACKET_HEADER + pktSize])
  {
    burst := data[..PACKET_HEADER + pktSize] + Trailer(sum, data[PACKET_HEADER..PACKET_HEADER + pktSize]);
  }

  lemma BlockBurst(sum: Checksum, buf: seq<byte>, seqNo: byte, payload: seq<byte>)
    requires |buf| >= PACKET_HEADER + |payload|
    requires buf[..PACKET_HEADER + |payload|] == Head(seqNo, payload) + payload
    ensures buf[..PACKET_HEADER + |payload|] + Trailer(sum, buf[PACKET_HEADER..PACKET_HEADER + |payload|])
            == Frame(sum, seqNo, payload)
  {
    assert buf[PACKET_HEADER..PACKET_HEADER + |payload|] == payload;
  }

  /** The block that opens the conversation, prepared and checked. */
  method PrepareOpening(sum: Checksum, file: seq<byte>, fileName: seq<byte>, scratch: array<byte>,
                        packetData: array<byte>)
    returns (burst: seq<byte>)
    requires packetData.Length == BUFFER && scratch.Length == 10 && packetData != scratch
    requires |fileName| == FILE_NAME_LENGTH && |file| < 0x8000_0000
    requires 0 in Leftover(|file|, scratch[..])
    modifies packetData, scratch
    ensures burst == Frame(sum, 0, Announcement(fileName, |file|, old(scratch[..])))
  {
    ghost var payload := HeaderPayload(UpTo(fileName, 0), SizeText(|file|, scratch[..]));
    PrepareInitialPacket(packetData, fileName, scratch, |file|);
    burst := SendPacket(sum, packetData, PACKET_SIZE);
    assert packetData[..PACKET_HEADER + PACKET_SIZE]
           == packetData[..PACKET_HEADER + |payload|][..PACKET_HEADER + PACKET_SIZE];
    assert ([SOH, 0, 0xFF] + payload)[..PACKET_HEADER + PACKET_SIZE] == [SOH, 0, 0xFF] + payload[..PACKET_SIZE];
    BlockBurst(sum, packetData[..], 0, payload[..PACKET_SIZE]);
  }

  method PrepareData(sum: Checksum, rest: seq<byte>, packetData: array<byte>, blkNumber: nat, ghost blk: nat)
    returns (burst: seq<byte>)
    requires packetData.Length == BUFFER && blkNumber == Wrap16(blk)
    modifies packetData
    ensures burst == Frame(sum, PktNo(blk), Payload(rest))
  {
    PreparePacket(rest, packetData, (blkNumber % 0x100) as byte);
    burst := SendPacket(sum, packetData, if |rest| >= PACKET_1K_SIZE then PACKET_1K_SIZE else PACKET_SIZE);
    BlockBurst(sum, packetData[..], (blkNumber % 0x100) as byte, Payload(rest));
  }

  /** The empty block that ends the conversation. */
  method PrepareClosing(sum: Checksum, packetData: array<byte>) returns (burst: seq<byte>)
    requires packetData.Length == BUFFER
    modifies packetData
    ensures burst == Frame(sum, 0, Fill(PACKET_SIZE, 0))
  {
    packetData[0], packetData[1], packetData[2] := SOH, 0, 0xFF;
    forall i | PACKET_HEADER <= i < PACKET_SIZE + PACKET_HEADER {
      packetData[i] := 0;
    }
    burst := SendPacket(sum, packetData, PACKET_SIZE);
    assert packetData[..PACKET_HEADER + PACKET_SIZE] == Head(0, Fill(PACKET_SIZE, 0)) + Fill(PACKET_SIZE, 0);
    BlockBurst(sum, packetData[..], 0, Fill(PACKET_SIZE, 0));
  }

  /** The data loop of Ymodem_Transmit: the errors that ended it, or fewer than ten when everything was acknowledged. */
  method SendFile(ghost job: Job, sum: Checksum, file: seq<byte>, packetData: array<byte>, replies: seq<Reply>)
    returns (errors: nat, left: seq<Reply>, sent: seq<seq<byte>>)
    requires job.file == file && job.sum == sum && packetData.Length == BUFFER
    modifies packetData
    ensures Stretch(job, Next(job, Sender(Drain, 0), Silence), replies, errors, sent, Sender(Eot, 0), left)
  {
    var rest, blkNumber := file, 1;
    ghost var blk, s := 1, Next(job, Sender(Drain, 0), Silence);
    ghost var begin := s;
    errors, left, sent := 0, replies, [];
    while rest != []
      invariant blkNumber == Wrap16(blk)
      invariant s == if rest != [] then Sender(Data(rest, blk), 0) else Sender(Eot, 0)
      invariant Stretch(job, begin, replies, 0, sent, s, left)
      invariant errors < RETRIES
      decreases |rest|
    {
      var burst := PrepareData(sum, rest, packetData, blkNumber, blk);
      RetryIsRun(job, Data(rest, blk), 0, left);
      ghost var before := left;
      var ackReceived, more;
      ackReceived, errors, left, more := SendUntilAck(burst, true, left);
      ghost var t := Next(job, Sender(Data(rest, blk), errors), Got(ACK));
      StretchJoin(job, begin, replies, sent, s, before, errors, more, t, left);
      sent := sent + more;
      if errors >= RETRIES {
        return;
      }
      s := t;
      var pktSize := if |rest| >= PACKET_1K_SIZE then PACKET_1K_SIZE else PACKET_SIZE;
      if |rest| > pktSize {
        rest := rest[pktSize..];
        blkNumber := CountUp(blkNumber, blk);
        blk := blk + 1;
      } else {
        rest := [];
      }
    }
  }

  /** The two blocks and the end-of-file byte that close the conversation. */
  method SendEnding(ghost job: Job, sum: Checksum, packetData: array<byte>, replies: seq<Reply>)
    returns (code: nat, sent: seq<seq<byte>>)
    requires job.sum == sum && packetData.Length == BUFFER
    modifies packetData
    ensures (code, sent) == Run(job, Sender(Eot, 0), replies)
  {
    RetryIsRun(job, Eot, 0, replies);
    var ackReceived, errors, left, bursts := SendUntilAck([EOT], true, replies);
    if errors >= RETRIES {
      return errors, bursts;
    }
    sent := bursts;

    var burst := PrepareClosing(sum, packetData);
    ghost var before := left;
    RetryIsRun(job, Last, 0, left);
    ackReceived, errors, left, bursts := SendUntilAck(burst, false, left);
    StretchJoin(job, Sender(Eot, 0), replies, sent, Sender(Last, 0), before, errors, bursts, Sender(LastEot, errors),
                left);
    sent := sent + bursts;
    if errors >= RETRIES {
      return errors, sent;
    }

    // do { ... } while (!ackReceived && errors < 10), entered with the flag set
    StretchStep(job, Sender(LastEot, errors), left);
    assert Run(job, Sender(LastEot, errors), left).1 == [[EOT]];
    sent := sent + [[EOT]];
    if First(left) != Got(ACK) {
      errors := errors + 1;
    }
    return if errors >= RETRIES then errors else 0, sent;
  }

  /** The four parts of Ymodem_Transmit, once the opening block is prepared. */
  method Converse(ghost job: Job, sum: Checksum, file: seq<byte>, opening: seq<byte>, packetData: array<byte>,
                  replies: seq<Reply>)
    returns (code: nat, sent: seq<seq<byte>>)
    requires job.file == file && job.sum == sum && opening == Burst(job, Header) && packetData.Length == BUFFER
    modifies packetData
    ensures (code, sent) == Run(job, START, replies)
  {
    RetryIsRun(job, Header, 0, replies);
    var ackReceived, errors, left, bursts := SendUntilAck(opening, false, replies);
    if errors >= RETRIES {
      return errors, bursts;
    }
    sent := bursts;

    // one more byte, the 'C' of the receiver, is taken off the line
    StretchStep(job, Sender(Drain, 0), left);
    StretchJoin(job, START, replies, sent, Sender(Drain, 0), left, 0, [], Next(job, Sender(Drain, 0), Silence),
                After(left));
    assert sent + [] == sent;
    left := After(left);
    ghost var before := left;
    errors, left, bursts := SendFile(job, sum, file, packetData, left);
    StretchJoin(job, START, replies, sent, Next(job, Sender(Drain, 0), Silence), before, errors, bursts, Sender(Eot, 0),
                left);
    sent := sent + bursts;
    if errors >= RETRIES {
      return errors, sent;
    }

    code, bursts := SendEnding(job, sum, packetData, left);
    sent := sent + bursts;
  }

  /** Ymodem_Transmit.  `scratch` stands for the size buffer inside Ymodem_PrepareIntialPacket; `replies` is what each
      wait for a byte yields, followed by silence. */
  method Transmit(file: seq<byte>, fileName: seq<byte>, scratch: array<byte>, replies: seq<Reply>)
    returns (code: nat, sent: seq<seq<byte>>)
    requires scratch.Length == 10 && |fileName| == FILE_NAME_LENGTH && |file| < 0x8000_0000
    requires 0 in Leftover(|file|, scratch[..])
    modifies scratch
    ensures (code, sent) == Run(Job(file, Announcement(fileName, |file|, old(scratch[..])), Crc16), START, replies)
  {
    ghost var header := Announcement(fileName, |file|, scratch[..]);
    var packetData := new byte[BUFFER];
    var burst := PrepareOpening(Crc16, file, fileName, scratch, packetData);
    code, sent := Converse(Job(file, header, Crc16), Crc16, file, burst, packetData, replies);
  }
}
