/** What a lost acknowledgement costs a YMODEM transfer. */
module YmodemLoss {
  import opened Bytes
  import opened YmodemFraming
  import opened YmodemLink
  import opened YmodemTheorems
  import S = YmodemSender
  import R = YmodemReceiver

  /** The receiver has the block that the sender is still sending, and no acknowledgement of it is on its way. */
  ghost predicate Ahead(job: S.Job, site: Site, l: Link) {
    && Common(job, site, l) && Transferring(job, site, l) && !l.sender.phase.Drain?
    && l.receiver.packets == Position(job, l) + 1 && Acks(l.replies) == 0
  }

  lemma NoAcks(replies: seq<byte>)
    requires Acks(replies) == 0 && replies != []
    ensures replies[0] != ACK && Acks(replies[1..]) == 0
  {}

  /** Without an acknowledgement the sender stays where it is, or gives up there. */
  lemma NextStays(job: S.Job, s: S.Sender, reply: S.Reply)
    requires PhaseOk(job, s.phase) && !s.phase.Drain? && reply != S.Got(ACK)
    requires S.Index(job, s.phase) <= |Chunks(job.file)|
    ensures var t := S.Next(job, s, reply);
            S.Index(job, t.phase) == S.Index(job, s.phase) && !t.phase.Drain? && PhaseOk(job, t.phase)
  {}

  lemma SenderStays(job: S.Job, site: Site, l: Link, reply: S.Reply, replies: seq<byte>)
    requires Ahead(job, site, l) && reply != S.Got(ACK) && Acks(replies) == 0
    ensures var m := l.(waiting := false, sender := S.Next(job, l.sender, reply), replies := replies);
            Ahead(job, site, m) && Position(job, m) == Position(job, l)
  {
    NextStays(job, l.sender, reply);
  }

  /** Whatever the receiver makes of a line that brings nothing new, it does not acknowledge it. */
  lemma Refused(job: S.Job, site: Site, l: Link, line: seq<byte>)
    requires Ahead(job, site, l) && |job.header| == PACKET_SIZE
    requires Parse(line) == Garbled || Parse(line) == AbortedByUser || line == Expected(job, Position(job, l))
    ensures Ahead(job, site, Receive(l, line)) && Position(job, Receive(l, line)) == Position(job, l)
  {
    var (t, out) := R.Step(l.receiver, line);
    if l.receiver.result == R.Running && line == Expected(job, Position(job, l)) {
      RepeatStep(job, l.receiver, line, Position(job, l));
    }
    AcksAppend(l.replies, out);
    AcksOf(NAK, CA);
    AcksOf(CRC16, CA);
    AcksOf(CA, CA);
  }

  /** Everything on the wire is the block that the receiver has. */
  lemma ArriveRefused(job: S.Job, site: Site, l: Link)
    requires Ahead(job, site, l) && Announced(job) && l.wire != []
    ensures Ahead(job, site, Step(job, l, Arrive)) && Position(job, Step(job, l, Arrive)) == Position(job, l)
  {
    var f := l.wire[0];
    assert f.index == Position(job, l) && f.bytes <= Expected(job, f.index);
    ParseExpected(job, f.index, f.bytes);
    var w := l.wire[1..];
    assert l.wire[..0] + l.wire[1..] == w;
    WireLose(job, l.wire, w, l.receiver.packets, Position(job, l), l.eots, 0);
    Refused(job, site, l.(wire := w), f.bytes);
  }

  lemma SendAhead(job: S.Job, site: Site, l: Link)
    requires Ahead(job, site, l)
    ensures Ahead(job, site, Step(job, l, Send)) && Position(job, Step(job, l, Send)) == Position(job, l)
  {
    if !l.waiting && S.Speaks(l.sender.phase) {
      BurstIsExpected(job, l.sender.phase);
      SpeaksAt(job, l.sender.phase);
      WireAppend(job, l.wire, l.receiver.packets, Position(job, l), l.eots, S.Burst(job, l.sender.phase));
    }
  }

  lemma ReplyAhead(job: S.Job, site: Site, l: Link)
    requires Ahead(job, site, l) && l.waiting && l.replies != []
    ensures Ahead(job, site, Step(job, l, Reply)) && Position(job, Step(job, l, Reply)) == Position(job, l)
  {
    NoAcks(l.replies);
    SenderStays(job, site, l, S.Got(l.replies[0]), l.replies[1..]);
  }

  lemma CutAhead(job: S.Job, site: Site, l: Link, i: nat, k: nat)
    requires Ahead(job, site, l) && i < |l.wire| && k <= |l.wire[i].bytes|
    ensures Ahead(job, site, Step(job, l, CutBurst(i, k)))
    ensures Position(job, Step(job, l, CutBurst(i, k))) == Position(job, l)
  {
    WireInStepCut(job, l.wire, l.receiver.packets, Position(job, l), l.eots, i, k);
  }

  lemma LoseAhead(job: S.Job, site: Site, l: Link, i: nat)
    requires Ahead(job, site, l) && i < |l.wire|
    ensures Ahead(job, site, Step(job, l, LoseBurst(i)))
    ensures Position(job, Step(job, l, LoseBurst(i))) == Position(job, l)
  {
    var w := l.wire[..i] + l.wire[i + 1..];
    WireLose(job, l.wire, w, l.receiver.packets, Position(job, l), l.eots, i);
  }

  lemma StepStays(job: S.Job, site: Site, l: Link, e: Event)
    requires Ahead(job, site, l) && Announced(job)
    ensures Ahead(job, site, Step(job, l, e)) && Position(job, Step(job, l, e)) == Position(job, l)
  {
    match e
    case Send => SendAhead(job, site, l);
    case Reply => if l.waiting && l.replies != [] { ReplyAhead(job, site, l); }
    case SenderTimeout => if l.waiting { SenderStays(job, site, l, S.Silence, l.replies); }
    case Arrive => if l.wire != [] { ArriveRefused(job, site, l); }
    case ReceiverTimeout => Refused(job, site, l, []);
    case UserAbort => Refused(job, site, l, [ABORT2]);
    case CutBurst(i, k) => if i < |l.wire| && k <= |l.wire[i].bytes| { CutAhead(job, site, l, i, k); }
    case LoseBurst(i) => if i < |l.wire| { LoseAhead(job, site, l, i); }
    case LoseReply(i) => if i < |l.replies| { AcksLose(l.replies, i); }
  }

  /** Once the receiver is a block ahead and its acknowledgement is gone, the transfer is lost: no continuation, however
      many of the ten retries it has, moves the sender on, and none succeeds. */
  lemma {:induction false} LostAckIsFatal(job: S.Job, site: Site, l: Link, events: seq<Event>)
    requires Ahead(job, site, l) && Announced(job)
    ensures var m := Run(job, l, events);
            Ahead(job, site, m) && Position(job, m) == Position(job, l) && !Succeeded(m)
    decreases |events|
  {
    if events != [] {
      StepStays(job, site, l, events[0]);
      LostAckIsFatal(job, site, Step(job, l, events[0]), events[1..]);
    }
  }

  // ---------------------------------------------------------------- how it comes to that

  lemma AcksWithout(a: seq<byte>, i: nat)
    requires i < |a| && a[i] == ACK
    ensures Acks(a[..i] + a[i + 1..]) == Acks(a) - 1
  {
    assert a == a[..i] + a[i..];
    AcksAppend(a[..i], a[i..]);
    AcksAppend(a[..i], a[i + 1..]);
    assert a[i..][1..] == a[i + 1..];
  }

  /** Losing the acknowledgement of an opening or data block is enough. */
  lemma LosingTheAck(job: S.Job, site: Site, l: Link, i: nat)
    requires Common(job, site, l) && Transferring(job, site, l) && !l.sender.phase.Drain?
    requires l.receiver.packets == Position(job, l) + 1 && i < |l.replies| && l.replies[i] == ACK
    ensures Ahead(job, site, Step(job, l, LoseReply(i)))
  {
    AcksWithout(l.replies, i);
  }

  /** It can happen to every file, with the very first block. */
  lemma OpeningAckLost(job: S.Job, site: Site, buf: seq<byte>, events: seq<Event>)
    requires |buf| == BUFFER && Announced(job) && Accepted(job, site)
    ensures !Succeeded(Run(job, Start(site, buf), [Send, Arrive] + [LoseReply(0)] + events))
  {
    var l := Start(site, buf);
    StartInvariant(job, site, buf);
    TwoEvents(job, l, Send, Arrive);
    KeepsRun(job, site, l, [Send, Arrive]);
    var l1 := Step(job, l, Send);
    BurstIsExpected(job, S.Header);
    HeaderStep(job, site, l.receiver, Expected(job, 0));
    ArriveIs(job, l1);
    var l2 := Run(job, l, [Send, Arrive]);
    RunConcat(job, l, [Send, Arrive], [LoseReply(0)]);
    RunConcat(job, l, [Send, Arrive] + [LoseReply(0)], events);
    LosingTheAck(job, site, l2, 0);
    assert [LoseReply(0)][1..] == [];
    assert Run(job, l2, [LoseReply(0)]) == Step(job, l2, LoseReply(0));
    LostAckIsFatal(job, site, Step(job, l2, LoseReply(0)), events);
  }
}
