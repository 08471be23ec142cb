/** What Ymodem_Transmit puts on the line and what it returns, in terms of the bytes that pass in either direction. */
module YmodemReturn {
  import opened Bytes
  import opened Checksums
  import opened YmodemFraming
  import opened YmodemSender

  /** A burst that a receiver of the protocol can read: an end of transmission, or a block of either size with its
      number complemented and a CRC-16 that comes out even. */
  predicate Readable(line: seq<byte>) {
    line == [0x04]
    || (&& |line| > 5
        && ((line[0] == 0x01 && |line| == 133) || (line[0] == 0x02 && |line| == 1029))
        && line[1] as nat + line[2] as nat == 0xFF
        && Update(0, line[3..]) == 0)
  }

  /** Whatever is answered, nothing else goes out. */
  lemma {:induction false} BurstsReadable(job: Job, s: Sender, replies: seq<Reply>)
    requires job.sum == Crc16 && |job.header| == PACKET_SIZE
    ensures forall i :: 0 <= i < |Run(job, s, replies).1| ==> Readable(Run(job, s, replies).1[i])
    decreases |replies|, Rank(s.phase), if s.errors < RETRIES then RETRIES - s.errors else 0
  {
    if !s.phase.Returned? {
      if Speaks(s.phase) {
        BurstReadable(job, s.phase);
      }
      BurstsReadable(job, Next(job, s, First(replies)), After(replies));
    }
  }

  lemma BurstReadable(job: Job, phase: Phase)
    requires job.sum == Crc16 && |job.header| == PACKET_SIZE && Speaks(phase)
    ensures Readable(Burst(job, phase))
  {
    match phase
    case Header => FrameChecks(0, job.header);
    case Data(rest, blk) => FrameChecks(PktNo(blk), Payload(rest));
    case Last => FrameChecks(0, Fill(PACKET_SIZE, 0));
    case _ =>
  }

  /** The block that ends the conversation, byte by byte. */
  lemma ClosingBlock(job: Job)
    requires job.sum == Crc16
    ensures Burst(job, Last) == [0x01, 0x00, 0xFF] + Fill(130, 0)
  {
    CrcOfZeros(128);
    assert Trailer(Crc16, Fill(128, 0)) == [0, 0] && Fill(128, 0) + [0, 0] == Fill(130, 0);
  }

  /** How many of the answers to one burst are errors: silence always, a wrong byte in a strict loop only. */
  function Failures(strict: bool, replies: seq<Reply>): nat
    decreases |replies|
  {
    if replies == [] then 0
    else (if strict || replies[0] == Silence then 1 else 0) + Failures(strict, replies[1..])
  }

  /** The first acknowledgement is answer `k`, and comes with fewer than `room` errors before it. */
  predicate AckedAt(strict: bool, room: nat, replies: seq<Reply>, k: nat) {
    && k < |replies| && replies[k] == Got(0x06) && (forall i :: 0 <= i < k ==> replies[i] != Got(0x06))
    && Failures(strict, replies[..k]) < room
  }

  /** An answer that is no acknowledgement moves the count on. */
  lemma AckedLater(strict: bool, room: nat, replies: seq<Reply>, k: nat)
    requires replies != [] && replies[0] != Got(0x06)
    ensures !AckedAt(strict, room, replies, 0)
    ensures var e := if strict || replies[0] == Silence then 1 else 0;
            && (k < |replies| - 1 ==> Failures(strict, replies[..k + 1]) == e + Failures(strict, replies[1..][..k]))
            && (room >= e ==> (AckedAt(strict, room, replies, k + 1) <==> AckedAt(strict, room - e, replies[1..], k)))
  {
    if k < |replies| - 1 {
      assert replies[..k + 1][1..] == replies[1..][..k];
    }
  }

  /** A retry loop with room for so many more errors ends behind the first acknowledgement if that comes in time. */
  lemma {:induction false} RetryAcked(strict: bool, errors: nat, room: nat, replies: seq<Reply>, k: nat)
    requires errors + room == 10 && AckedAt(strict, room, replies, k)
    ensures Retry(strict, errors, replies)
            == Outcome(true, errors + Failures(strict, replies[..k]), replies[k + 1..], k + 1)
    decreases k
  {
    if k == 0 {
      assert replies[..0] == [];
    } else {
      AckedLater(strict, room, replies, k - 1);
      var e := if strict || replies[0] == Silence then 1 else 0;
      RetryAcked(strict, errors + e, room - e, replies[1..], k - 1);
      assert replies[1..][k..] == replies[k + 1..];
    }
  }

  /** That is the only way for it to end well. */
  lemma {:induction false} RetryWell(strict: bool, errors: nat, room: nat, replies: seq<Reply>) returns (k: nat)
    requires errors + room == 10 && room > 0 && Retry(strict, errors, replies).acked
    ensures AckedAt(strict, room, replies, k)
    decreases |replies|, room
  {
    if First(replies) == Got(ACK) {
      assert replies[..0] == [];
      return 0;
    }
    var e := if strict || First(replies) == Silence then 1 else 0;
    RetryErrors(strict, errors, replies);
    k := RetryWell(strict, errors + e, room - e, After(replies));
    AckedLater(strict, room, replies, k);
    k := k + 1;
  }

  lemma {:induction false} RetryErrors(strict: bool, errors: nat, replies: seq<Reply>)
    requires errors < 10
    ensures var o := Retry(strict, errors, replies); o.errors <= 10 && (o.acked <==> o.errors < 10)
    ensures replies == [] ==> !Retry(strict, errors, replies).acked
    decreases |replies|, 10 - errors
  {
    var e := if strict || First(replies) == Silence then 1 else 0;
    if First(replies) != Got(ACK) && errors + e < 10 {
      RetryErrors(strict, errors + e, After(replies));
    }
  }

  /** The return value of a sender in some state. */
  function Code(job: Job, s: Sender, replies: seq<Reply>): nat {
    Run(job, s, replies).0
  }

  /** A loop is passed behind its first acknowledgement. */
  lemma LoopPassed(job: Job, phase: Phase, replies: seq<Reply>, k: nat)
    requires Speaks(phase) && !phase.LastEot? && AckedAt(Strict(phase), 10, replies, k)
    ensures Code(job, Sender(phase, 0), replies)
            == Code(job, Next(job, Sender(phase, Failures(Strict(phase), replies[..k])), Got(ACK)), replies[k + 1..])
  {
    RetryIsRun(job, phase, 0, replies);
    RetryAcked(Strict(phase), 0, 10, replies, k);
  }

  /** Or it makes the sender return ten. */
  lemma LoopEnds(job: Job, phase: Phase, replies: seq<Reply>) returns (k: nat)
    requires Speaks(phase) && !phase.LastEot?
    ensures AckedAt(Strict(phase), 10, replies, k) || Code(job, Sender(phase, 0), replies) == 10
  {
    RetryIsRun(job, phase, 0, replies);
    RetryErrors(Strict(phase), 0, replies);
    k := 0;
    if Retry(Strict(phase), 0, replies).acked {
      k := RetryWell(Strict(phase), 0, 10, replies);
    }
  }

  lemma OneAck(strict: bool, room: nat, replies: seq<Reply>, k: nat, j: nat)
    requires AckedAt(strict, room, replies, k) && AckedAt(strict, room, replies, j)
    ensures k == j
  {}

  /** The answers to the closing block, in which only silence is an error, and to the end of transmission behind it,
      which is sent once: it adds an error unless it is acknowledged. */
  predicate ClosesAt(replies: seq<Reply>, k: nat) {
    && AckedAt(false, 10, replies, k)
    && (Failures(false, replies[..k]) < 9 || First(replies[k + 1..]) == Got(0x06))
  }

  /** The answers to so many bursts for which anything but an acknowledgement is an error, and to the ending. */
  ghost predicate Finishes(bursts: nat, replies: seq<Reply>) {
    if bursts == 0 then exists k: nat :: ClosesAt(replies, k)
    else exists k: nat :: AckedAt(true, 10, replies, k) && Finishes(bursts - 1, replies[k + 1..])
  }

  lemma LastEotCode(job: Job, errors: nat, replies: seq<Reply>)
    requires errors < 10
    ensures Code(job, Sender(LastEot, errors), replies) == if errors < 9 || First(replies) == Got(0x06) then 0 else 10
  {
    var t := Next(job, Sender(LastEot, errors), First(replies));
    assert Run(job, t, After(replies)).0 == t.phase.code;
  }

  lemma ClosingCode(job: Job, replies: seq<Reply>, k: nat)
    requires AckedAt(false, 10, replies, k)
    ensures Code(job, Sender(Last, 0), replies) == if ClosesAt(replies, k) then 0 else 10
  {
    LoopPassed(job, Last, replies, k);
    LastEotCode(job, Failures(false, replies[..k]), replies[k + 1..]);
  }

  lemma ClosingExactly(job: Job, replies: seq<Reply>)
    ensures Code(job, Sender(Last, 0), replies) == if Finishes(0, replies) then 0 else 10
  {
    var k := LoopEnds(job, Last, replies);
    if AckedAt(false, 10, replies, k) {
      ClosingCode(job, replies, k);
    }
    if Finishes(0, replies) {
      var j: nat :| ClosesAt(replies, j);
      ClosingCode(job, replies, j);
    }
  }

  /** A state from which the sender returns zero exactly for these answers, and ten for all others. */
  ghost predicate Returns(job: Job, s: Sender, bursts: nat) {
    forall replies :: Code(job, s, replies) == if Finishes(bursts, replies) then 0 else 10
  }

  /** One strict burst, with so many behind it. */
  lemma StrictExactly(job: Job, phase: Phase, more: nat)
    requires phase.Data? || phase.Eot?
    requires Returns(job, Next(job, Sender(phase, 0), Got(ACK)), more)
    ensures Returns(job, Sender(phase, 0), more + 1)
  {
    forall replies ensures Code(job, Sender(phase, 0), replies) == if Finishes(more + 1, replies) then 0 else 10 {
      StrictCode(job, phase, more, replies);
    }
  }

  lemma StrictCode(job: Job, phase: Phase, more: nat, replies: seq<Reply>)
    requires phase.Data? || phase.Eot?
    requires Returns(job, Next(job, Sender(phase, 0), Got(ACK)), more)
    ensures Code(job, Sender(phase, 0), replies) == if Finishes(more + 1, replies) then 0 else 10
  {
    var k := LoopEnds(job, phase, replies);
    if AckedAt(true, 10, replies, k) {
      StrictAcked(job, phase, more, replies, k);
    }
    if j: nat :| AckedAt(true, 10, replies, j) && Finishes(more, replies[j + 1..]) {
      StrictAcked(job, phase, more, replies, j);
    }
  }

  lemma StrictAcked(job: Job, phase: Phase, more: nat, replies: seq<Reply>, k: nat)
    requires phase.Data? || phase.Eot?
    requires Returns(job, Next(job, Sender(phase, 0), Got(ACK)), more) && AckedAt(true, 10, replies, k)
    ensures Code(job, Sender(phase, 0), replies) == if Finishes(more, replies[k + 1..]) then 0 else 10
  {
    LoopPassed(job, phase, replies, k);
    assert Next(job, Sender(phase, Failures(true, replies[..k])), Got(ACK)) == Next(job, Sender(phase, 0), Got(ACK));
  }

  lemma {:induction false} DataExactly(job: Job, rest: seq<byte>, blk: nat)
    requires rest != []
    ensures Returns(job, Sender(Data(rest, blk), 0), |Chunks(rest)| + 1)
    decreases |rest|
  {
    var next := Next(job, Sender(Data(rest, blk), 0), Got(ACK));
    assert |Chunks(rest)| == |Chunks(Beyond(rest))| + 1;
    if Beyond(rest) != [] {
      DataExactly(job, Beyond(rest), blk + 1);
      assert next == Sender(Data(Beyond(rest), blk + 1), 0);
    } else {
      EotExactly(job);
      assert next == Sender(Eot, 0);
    }
    StrictExactly(job, Data(rest, blk), |Chunks(rest)|);
  }

  lemma EotExactly(job: Job)
    ensures Returns(job, Sender(Eot, 0), 1)
  {
    forall replies ensures Code(job, Sender(Last, 0), replies) == if Finishes(0, replies) then 0 else 10 {
      ClosingExactly(job, replies);
    }
    StrictExactly(job, Eot, 0);
  }

  /** The opening block is acknowledged by answer `k` before ten silences, one more byte is taken off the line, and then
      come the blocks, the end of transmission and the ending. */
  ghost predicate SucceedsAt(blocks: nat, replies: seq<Reply>, k: nat) {
    AckedAt(false, 10, replies, k) && Finishes(blocks + 1, After(replies[k + 1..]))
  }

  /** Ymodem_Transmit returns zero if and only if the answers take it through all of this, and ten otherwise. */
  lemma TransmitReturns(job: Job, replies: seq<Reply>)
    ensures Run(job, START, replies).0
            == if exists k: nat :: SucceedsAt(BlockCount(|job.file|), replies, k) then 0 else 10
  {
    ChunksCount(job.file);
    var k := LoopEnds(job, Header, replies);
    if AckedAt(false, 10, replies, k) {
      OpeningCode(job, replies, k);
    }
    if j: nat :| SucceedsAt(BlockCount(|job.file|), replies, j) {
      OpeningCode(job, replies, j);
    }
  }

  lemma OpeningCode(job: Job, replies: seq<Reply>, k: nat)
    requires AckedAt(false, 10, replies, k)
    ensures Code(job, START, replies) == if SucceedsAt(|Chunks(job.file)|, replies, k) then 0 else 10
  {
    LoopPassed(job, Header, replies, k);
    if job.file == [] {
      EotExactly(job);
    } else {
      DataExactly(job, job.file, 1);
    }
  }
}
