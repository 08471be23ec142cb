/** What a YMODEM transfer guarantees, over every run of sender, line and receiver. */
module YmodemTheorems {
  import opened Bytes
  import opened FlashMemory
  import opened YmodemFraming
  import opened YmodemHeader
  import opened YmodemLink
  import S = YmodemSender
  import R = YmodemReceiver

  lemma StartInvariant(job: S.Job, site: Site, buf: seq<byte>)
    requires |buf| == BUFFER && site.dest <= |site.cells|
    ensures Invariant(job, site, Start(site, buf))
  {
    var l := Start(site, buf);
    assert InStep(job, site, 0, l.receiver, l.replies);
    assert WireInStep(job, l.wire, 0, 0, 0);
  }

  /** Until the end of the file, receiver and sender never drift apart by more than one block, the wire carries only
      the block the receiver waits for and its predecessor, and the flash is a gap-free, duplicate-free prefix of the
      blocks: eight bits of sequence number are enough for any number of blocks. */
  lemma InStepAlways(job: S.Job, site: Site, buf: seq<byte>, events: seq<Event>)
    requires |buf| == BUFFER && site.dest <= |site.cells| && Announced(job)
    ensures var l := Run(job, Start(site, buf), events);
            var r, s := l.receiver.packets, Position(job, l);
            l.receiver.files == 0 ==>
              && s <= r <= s + 1 && r <= |Chunks(job.file)| + 1
              && (forall i :: 0 <= i < |l.wire| ==> l.wire[i].index == r || l.wire[i].index + 1 == r)
              && l.receiver.cells == FlashAfter(job, site, r)
  {
    StartInvariant(job, site, buf);
    KeepsRun(job, site, Start(site, buf), events);
  }

  /** The final flash contents in terms of the file. */
  lemma FlashHoldsFile(job: S.Job, site: Site)
    requires site.dest + |Padded(job.file)| <= |site.cells|
    ensures var n := |Chunks(job.file)|;
            && Stream(job, n + 1) == Padded(job.file)
            && FlashAfter(job, site, n + 1)
               == Program(R.EraseArea(site.cells, site.dest, site.max), site.dest, Padded(job.file))
  {
    ChunksCover(job.file);
    assert Chunks(job.file)[..|Chunks(job.file)|] == Chunks(job.file);
  }

  lemma FlashFits(job: S.Job, site: Site)
    requires site.dest + |Stream(job, |Chunks(job.file)| + 1)| <= |site.cells|
    ensures site.dest + |Padded(job.file)| <= |site.cells|
  {
    ChunksCover(job.file);
    assert Chunks(job.file)[..|Chunks(job.file)|] == Chunks(job.file);
  }

  /** Ymodem_Transmit has returned 0. */
  ghost predicate Succeeded(l: Link) {
    l.sender.phase.Returned? && l.sender.phase.code == 0
  }

  /** A file that the receiver accepts and whose blocks fit into the device. */
  predicate Accepted(job: S.Job, site: Site) {
    |job.file| <= site.max + 1 && site.dest + |Padded(job.file)| <= |site.cells|
  }

  ghost predicate Delivered(job: S.Job, site: Site, l: Link) {
    && Accepted(job, site)
    && l.receiver.cells == Program(R.EraseArea(site.cells, site.dest, site.max), site.dest, Padded(job.file))
    && l.receiver.size == |job.file| && Named(job, l.receiver.name)
    && (l.eots == 1 ==> l.receiver.result == R.Stopped(|job.file|))
  }

  /** A sender that returned 0 has been through the whole conversation. */
  lemma SuccessIsDelivery(job: S.Job, site: Site, l: Link)
    requires Invariant(job, site, l) && Succeeded(l)
    ensures Delivered(job, site, l)
  {
    assert Position(job, l) == |Chunks(job.file)| + 3;
    assert !Transferring(job, site, l);
    FlashFits(job, site);
    FlashHoldsFile(job, site);
  }

  lemma AlwaysInvariant(job: S.Job, site: Site, buf: seq<byte>, events: seq<Event>)
    requires |buf| == BUFFER && site.dest <= |site.cells| && Announced(job)
    ensures Invariant(job, site, Run(job, Start(site, buf), events))
  {
    StartInvariant(job, site, buf);
    KeepsRun(job, site, Start(site, buf), events);
  }

  /** If Ymodem_Transmit returns 0, then, whatever was cut, lost, delayed or repeated on the way, the receiver's flash
      is the erased room with the padded file written into it; the receiver has noted the file's name and size; the
      file is inside the announced limit; and if the end of the file was announced only once, Ymodem_Receive has
      returned its size. */
  lemma TransferCorrect(job: S.Job, site: Site, buf: seq<byte>, events: seq<Event>)
    requires |buf| == BUFFER && site.dest <= |site.cells| && Announced(job)
    ensures var l := Run(job, Start(site, buf), events);
            Succeeded(l) ==> Delivered(job, site, l)
  {
    AlwaysInvariant(job, site, buf, events);
    var l := Run(job, Start(site, buf), events);
    if Succeeded(l) {
      SuccessIsDelivery(job, site, l);
    }
  }

  // ---------------------------------------------------------------- runs without faults

  /** The sender is about to send, nothing is on the way and the receiver is listening. */
  ghost predicate Quiet(l: Link, phase: S.Phase) {
    l.sender == S.Sender(phase, 0) && !l.waiting && l.wire == [] && l.replies == [] && l.receiver.result == R.Running
  }

  lemma {:induction false} RunConcat(job: S.Job, l: Link, a: seq<Event>, b: seq<Event>)
    requires HasBuffer(l)
    ensures Run(job, l, a + b) == Run(job, Run(job, l, a), b)
    decreases |a|
  {
    if a == [] {
      assert a + b == b;
    } else {
      assert (a + b)[1..] == a[1..] + b;
      RunConcat(job, Step(job, l, a[0]), a[1..], b);
    }
  }

  /** Send, deliver, acknowledge. */
  const ROUND: seq<Event> := [Send, Arrive, Reply]

  lemma RoundRuns(job: S.Job, l: Link)
    requires HasBuffer(l)
    ensures Run(job, l, ROUND) == Step(job, Step(job, Step(job, l, Send), Arrive), Reply)
  {
    assert ROUND[1..] == [Arrive, Reply] && [Arrive, Reply][1..] == [Reply] && [Reply][1..] == [];
    var l1 := Step(job, l, Send);
    var l2 := Step(job, l1, Arrive);
    assert Run(job, l2, [Reply]) == Step(job, l2, Reply);
    assert Run(job, l1, [Arrive, Reply]) == Run(job, l2, [Reply]);
  }

  /** A round on a quiet line comes down to what the receiver makes of the burst. */
  lemma RoundResult(job: S.Job, l: Link, phase: S.Phase, t: R.Receiver, out: seq<byte>)
    requires HasBuffer(l) && Quiet(l, phase) && S.Speaks(phase) && |t.buf| == BUFFER
    requires R.Step(l.receiver, S.Burst(job, phase)) == (t, out) && out != [] && out[0] == ACK
    ensures Run(job, l, ROUND)
            == Link(S.Next(job, l.sender, S.Got(ACK)), false, t, [], out[1..],
                    if phase.Eot? then l.eots + 1 else l.eots)
  {
    RoundRuns(job, l);
    var f := Flight(S.Index(job, phase), S.Burst(job, phase));
    var l1 := Step(job, l, Send);
    assert l1.wire == [f] && l1.wire[1..] == [];
    var l2 := Step(job, l1, Arrive);
    assert l2.receiver == t && l2.replies == [] + out == out;
  }

  lemma {:induction false} PrefixShorter(chunks: seq<seq<byte>>, k: nat)
    requires k <= |chunks|
    ensures |Concat(chunks[..k])| <= |Concat(chunks)|
    decreases |chunks|
  {
    if k == |chunks| {
      assert chunks[..k] == chunks;
    } else {
      assert chunks[..|chunks| - 1][..k] == chunks[..k];
      PrefixShorter(chunks[..|chunks| - 1], k);
    }
  }

  lemma RoomForBlock(job: S.Job, site: Site, j: nat)
    requires 1 <= j <= |Chunks(job.file)| && site.dest + |Padded(job.file)| <= |site.cells|
    ensures site.dest + |Stream(job, j)| + |PayloadAt(job, j)| <= |site.cells|
  {
    AppendBlock(job, site, j);
    PrefixShorter(Chunks(job.file), j);
    ChunksCover(job.file);
  }

  /** A fault-free round carries one block across. */
  lemma DataRound(job: S.Job, site: Site, l: Link, rest: seq<byte>, blk: nat)
    requires Invariant(job, site, l) && |job.header| == PACKET_SIZE && Quiet(l, S.Data(rest, blk))
    requires Transferring(job, site, l) && l.receiver.packets == blk
    requires site.dest + |Padded(job.file)| <= |site.cells|
    ensures var m := Run(job, l, ROUND);
            && m.receiver.packets == blk + 1 && m.receiver.files == 0 && m.eots == l.eots
            && Quiet(m, S.Next(job, l.sender, S.Got(ACK)).phase)
  {
    BurstIsExpected(job, l.sender.phase);
    var line := Expected(job, blk);
    DataStep(job, l.receiver, line, blk);
    RoomForBlock(job, site, blk);
    R.StepKeepsBuffer(l.receiver, line);
    var (t, out) := R.Step(l.receiver, line);
    DataRoundResult(job, l, rest, blk, t, out);
  }

  lemma DataRoundResult(job: S.Job, l: Link, rest: seq<byte>, blk: nat, t: R.Receiver, out: seq<byte>)
    requires HasBuffer(l) && Quiet(l, S.Data(rest, blk)) && |t.buf| == BUFFER
    requires R.Step(l.receiver, S.Burst(job, S.Data(rest, blk))) == (t, out) && out == [ACK]
    requires t.result == R.Running
    ensures var m := Run(job, l, ROUND);
            m.receiver == t && m.eots == l.eots && Quiet(m, S.Next(job, l.sender, S.Got(ACK)).phase)
  {
    RoundResult(job, l, S.Data(rest, blk), t, out);
  }

  /** Fault-free rounds carry the rest of the file across. */
  lemma {:induction false} DataRounds(job: S.Job, site: Site, l: Link, rest: seq<byte>, blk: nat)
    requires Invariant(job, site, l) && Announced(job) && Quiet(l, S.Data(rest, blk)) && l.eots == 0
    requires Transferring(job, site, l) && l.receiver.packets == blk
    requires site.dest + |Padded(job.file)| <= |site.cells|
    ensures exists events :: AtEndOfFile(job, site, Run(job, l, events))
    decreases |rest|
  {
    DataRound(job, site, l, rest, blk);
    KeepsRun(job, site, l, ROUND);
    var m := Run(job, l, ROUND);
    if m.sender.phase.Data? {
      DataRounds(job, site, m, m.sender.phase.rest, blk + 1);
      var events :| AtEndOfFile(job, site, Run(job, m, events));
      RunConcat(job, l, ROUND, events);
      assert AtEndOfFile(job, site, Run(job, l, ROUND + events));
    } else {
      assert AtEndOfFile(job, site, m);
    }
  }

  /** Everything has been received, and the sender is about to say so. */
  ghost predicate AtEndOfFile(job: S.Job, site: Site, l: Link) {
    && Quiet(l, S.Eot) && Invariant(job, site, l) && l.receiver.files == 0
    && l.receiver.packets == |Chunks(job.file)| + 1 && l.eots == 0
  }

  const OPENING: seq<Event> := [Send, Arrive, Reply, Send, Reply]

  /** The fault-free opening: block, acknowledgement, the 'C' that follows it. */
  lemma OpeningRound(job: S.Job, site: Site, buf: seq<byte>)
    requires |buf| == BUFFER && site.dest <= |site.cells| && Announced(job) && |job.file| <= site.max + 1
    ensures var m := Run(job, Start(site, buf), OPENING);
            && Quiet(m, if job.file == [] then S.Eot else S.Data(job.file, 1))
            && m.receiver.packets == 1 && m.receiver.files == 0 && m.eots == 0
  {
    var l := Start(site, buf);
    BurstIsExpected(job, S.Header);
    HeaderStep(job, site, l.receiver, Expected(job, 0));
    R.StepKeepsBuffer(l.receiver, Expected(job, 0));
    var (t, out) := R.Step(l.receiver, Expected(job, 0));
    RoundResult(job, l, S.Header, t, out);
    assert OPENING == ROUND + [Send, Reply];
    RunConcat(job, l, ROUND, [Send, Reply]);
    DrainRound(job, Run(job, l, ROUND));
  }

  lemma DrainRound(job: S.Job, l: Link)
    requires HasBuffer(l) && l.sender == S.Sender(S.Drain, 0) && !l.waiting && |l.replies| == 1
    ensures Run(job, l, [Send, Reply]) == l.(sender := S.Next(job, l.sender, S.Got(l.replies[0])), replies := [])
  {
    var l1 := Step(job, l, Send);
    var l2 := Step(job, l1, Reply);
    assert [Send, Reply][1..] == [Reply] && [Reply][1..] == [];
    assert Run(job, l1, [Reply]) == l2;
    assert l2.replies == [];
  }

  lemma ReachesEndOfFile(job: S.Job, site: Site, buf: seq<byte>)
    requires |buf| == BUFFER && Announced(job) && |job.file| <= site.max + 1
    requires site.dest + |Padded(job.file)| <= |site.cells|
    ensures exists events :: AtEndOfFile(job, site, Run(job, Start(site, buf), events))
  {
    var l := Start(site, buf);
    StartInvariant(job, site, buf);
    OpeningRound(job, site, buf);
    KeepsRun(job, site, l, OPENING);
    var m := Run(job, l, OPENING);
    if job.file == [] {
      assert AtEndOfFile(job, site, m);
    } else {
      DataRounds(job, site, m, job.file, 1);
      var events :| AtEndOfFile(job, site, Run(job, m, events));
      RunConcat(job, l, OPENING, events);
      assert AtEndOfFile(job, site, Run(job, l, OPENING + events));
    }
  }

  /** The closing exchange on a quiet line: end of file, empty block, one more end of file that nobody answers. */
  const CLOSING: seq<Event> := ROUND + ROUND + [Send, SenderTimeout]

  lemma ClosingRound(job: S.Job, site: Site, l: Link)
    requires AtEndOfFile(job, site, l) && |job.header| == PACKET_SIZE
    ensures var m := Run(job, l, CLOSING);
            && m.sender.phase.Returned? && m.sender.phase.code == 0
            && m.receiver.result == R.Stopped(|job.file|)
  {
    var n := |Chunks(job.file)|;
    EndOfFileStep(job, site, n + 1, l.receiver, l.replies);
    EofRound(job, site, l);
    var m := Run(job, l, ROUND);
    BurstIsExpected(job, S.Last);
    EndingStep(job, site, m.receiver, Expected(job, n + 2), n + 2);
    R.StepKeepsBuffer(m.receiver, Expected(job, n + 2));
    var (t, out) := R.Step(m.receiver, Expected(job, n + 2));
    RoundResult(job, m, S.Last, t, out);
    RunConcat(job, l, ROUND, ROUND);
    RunConcat(job, l, ROUND + ROUND, [Send, SenderTimeout]);
    LastTurn(job, Run(job, m, ROUND));
  }

  /** The end of the file on a quiet line. */
  lemma EofRound(job: S.Job, site: Site, l: Link)
    requires AtEndOfFile(job, site, l)
    ensures var m := Run(job, l, ROUND);
            && Quiet(m, S.Last) && HasBuffer(m) && Received(job, site, m.receiver) && m.receiver.max == l.receiver.max
  {
    EndOfFileStep(job, site, |Chunks(job.file)| + 1, l.receiver, l.replies);
    R.StepKeepsBuffer(l.receiver, [EOT]);
    var (t, out) := R.Step(l.receiver, [EOT]);
    assert out == [ACK];
    RoundResult(job, l, S.Eot, t, out);
  }

  lemma TwoEvents(job: S.Job, l: Link, a: Event, b: Event)
    requires HasBuffer(l)
    ensures Run(job, l, [a, b]) == Step(job, Step(job, l, a), b)
  {
    assert [a, b][1..] == [b] && [b][1..] == [];
    assert Run(job, Step(job, l, a), [b]) == Step(job, Step(job, l, a), b);
  }

  /** After the closing block is acknowledged the sender returns 0, answered or not. */
  lemma LastTurn(job: S.Job, l: Link)
    requires HasBuffer(l) && l.sender == S.Sender(S.LastEot, 0) && !l.waiting
    ensures var m := Run(job, l, [Send, SenderTimeout]);
            m.sender.phase == S.Returned(0, |Chunks(job.file)| + 3) && m.receiver == l.receiver && m.eots == l.eots
  {
    TwoEvents(job, l, Send, SenderTimeout);
  }

  /** Transfers do succeed: over a line without faults every announced file that fits gets across, and both sides
      agree. */
  lemma FaultFreeTransfer(job: S.Job, site: Site, buf: seq<byte>)
    requires |buf| == BUFFER && Announced(job) && |job.file| <= site.max + 1
    requires site.dest + |Padded(job.file)| <= |site.cells|
    ensures exists events :: Agreed(job, Run(job, Start(site, buf), events))
  {
    var l := Start(site, buf);
    ReachesEndOfFile(job, site, buf);
    var events :| AtEndOfFile(job, site, Run(job, l, events));
    ClosingRound(job, site, Run(job, l, events));
    RunConcat(job, l, events, CLOSING);
    assert Agreed(job, Run(job, l, events + CLOSING));
  }

  ghost predicate Agreed(job: S.Job, l: Link) {
    Succeeded(l) && l.receiver.result == R.Stopped(|job.file|)
  }

  // ---------------------------------------------------------------- the opening block

  /** Everything above applies to what Ymodem_PrepareIntialPacket prepares for a non-empty name and a size of up to nine
      digits that fit into the block. */
  lemma PreparedHeaderAnnounces(file: seq<byte>, fileName: seq<byte>, scratch: seq<byte>,
                                sum: Checksum)
    requires |file| < 1_000_000_000 && UpTo(fileName, 0) != []
    requires Fits(UpTo(fileName, 0), SizeText(|file|, scratch))
    requires var left := Leftover(|file|, scratch); left != [] && (left[0] == 0 || left[0] == SPACE)
    ensures Announced(S.Job(file, S.Announcement(fileName, |file|, scratch), sum))
    ensures 0 in S.Announcement(fileName, |file|, scratch)
    ensures UpTo(S.Announcement(fileName, |file|, scratch), 0) == UpTo(fileName, 0)
  {
    var name, text := UpTo(fileName, 0), SizeText(|file|, scratch);
    var payload := HeaderPayload(name, text);
    assert |payload| == PACKET_SIZE && payload[..PACKET_SIZE] == payload && payload[0] == name[0];
    assert payload[|name|] == 0 && payload[..|name|] == name;
    UpToUnique(payload, 0, name);
    forall tail: seq<byte>, was: int | |tail| == BUFFER - PACKET_HEADER - PACKET_SIZE
      ensures SizeIn(payload + tail, was) == |file|
    {
      HeaderRoundTrip(name, |file|, scratch, tail, was);
    }
  }
}
