/** Sender and receiver at the two ends of an unreliable line.

    Bursts travel to the receiver and reply bytes back, each in order.  The line may cut the tail off a burst, swallow a
    burst or a reply, and delay everything for as long as it likes; the sender and the receiver may time out at any
    moment, and the user may abort. */
module YmodemLink {
  import opened Bytes
  import opened FlashMemory
  import opened YmodemFraming
  import opened YmodemHeader
  import S = YmodemSender
  import R = YmodemReceiver

  /** `index` is bookkeeping: the position in the conversation of the burst, which neither side can see. */
  datatype Flight = Flight(index: nat, bytes: seq<byte>)

  /** `eots` is bookkeeping too: how often the sender has announced the end of the file. */
  datatype Link = Link(
    sender: S.Sender, waiting: bool, receiver: R.Receiver, wire: seq<Flight>, replies: seq<byte>, eots: nat)

  datatype Event =
    | Send | Reply | SenderTimeout
    | Arrive | ReceiverTimeout | UserAbort
    | CutBurst(i: nat, k: nat) | LoseBurst(i: nat) | LoseReply(i: nat)

  predicate HasBuffer(l: Link) {
    |l.receiver.buf| == BUFFER
  }

  function Receive(l: Link, line: seq<byte>): (r: Link)
    requires HasBuffer(l)
    ensures HasBuffer(r)
  {
    R.StepKeepsBuffer(l.receiver, line);
    var (receiver, out) := R.Step(l.receiver, line);
    l.(receiver := receiver, replies := l.replies + out)
  }

  /** What an event does; an event that cannot happen changes nothing. */
  function Step(job: S.Job, l: Link, e: Event): (r: Link)
    requires HasBuffer(l)
    ensures HasBuffer(r)
  {
    var phase := l.sender.phase;
    match e
    case Send =>
      if l.waiting || phase.Returned? then l
      else if !S.Speaks(phase) then l.(waiting := true)
      else l.(waiting := true, wire := l.wire + [Flight(S.Index(job, phase), S.Burst(job, phase))],
              eots := if phase.Eot? then l.eots + 1 else l.eots)
    case Reply =>
      if !l.waiting || l.replies == [] then l
      else l.(waiting := false, sender := S.Next(job, l.sender, S.Got(l.replies[0])), replies := l.replies[1..])
    case SenderTimeout =>
      if !l.waiting then l else l.(waiting := false, sender := S.Next(job, l.sender, S.Silence))
    case Arrive => if l.wire == [] then l else Receive(l.(wire := l.wire[1..]), l.wire[0].bytes)
    case ReceiverTimeout => Receive(l, [])
    case UserAbort => Receive(l, [ABORT2])
    case CutBurst(i, k) =>
      if i < |l.wire| && k <= |l.wire[i].bytes|
      then l.(wire := l.wire[i := l.wire[i].(bytes := l.wire[i].bytes[..k])])
      else l
    case LoseBurst(i) => if i < |l.wire| then l.(wire := l.wire[..i] + l.wire[i + 1..]) else l
    case LoseReply(i) => if i < |l.replies| then l.(replies := l.replies[..i] + l.replies[i + 1..]) else l
  }

  function Run(job: S.Job, l: Link, events: seq<Event>): (r: Link)
    requires HasBuffer(l)
    ensures HasBuffer(r)
    decreases |events|
  {
    if events == [] then l else Run(job, Step(job, l, events[0]), events[1..])
  }

  /** The room the receiver was given and what its flash held. */
  datatype Site = Site(cells: seq<byte>, dest: nat, max: nat)

  function Start(site: Site, buf: seq<byte>): Link {
    Link(S.START, false, R.NewReceiver(site.cells, site.dest, site.max, buf), [], [], 0)
  }

  /** The opening block announces the file: it has a name, and its size field reads back as the size of the file
      whatever is behind the block in the packet buffer. */
  ghost predicate Announced(job: S.Job) {
    && |job.header| == PACKET_SIZE && job.header[0] != 0
    && forall tail: seq<byte>, was: int :: |tail| == BUFFER - PACKET_HEADER - PACKET_SIZE ==>
      SizeIn(job.header + tail, was) == |job.file|
  }

  /** The name in front of the first zero byte of the opening block. */
  predicate Named(job: S.Job, name: seq<byte>) {
    0 in job.header ==> name == UpTo(job.header, 0)
  }

  /** The burst at each position of the conversation. */
  function Expected(job: S.Job, j: nat): seq<byte> {
    var chunks := Chunks(job.file);
    if j == 0 then Frame(job.sum, 0, job.header)
    else if j <= |chunks| then Frame(job.sum, S.PktNo(j), chunks[j - 1])
    else if j == |chunks| + 2 then Frame(job.sum, 0, Fill(PACKET_SIZE, 0))
    else [EOT]
  }

  /** The data in the first `r` blocks, of which the opening block carries none. */
  function Stream(job: S.Job, r: nat): seq<byte>
    requires r <= |Chunks(job.file)| + 1
  {
    if r == 0 then [] else Concat(Chunks(job.file)[..r - 1])
  }

  function FlashAfter(job: S.Job, site: Site, r: nat): (cells: seq<byte>)
    requires r <= |Chunks(job.file)| + 1
    ensures |cells| == |site.cells|
  {
    var data := Stream(job, r);
    if r == 0 || site.dest + |data| > |site.cells| then site.cells
    else Program(R.EraseArea(site.cells, site.dest, site.max), site.dest, data)
  }

  function Acks(replies: seq<byte>): nat {
    if replies == [] then 0 else (if replies[0] == ACK then 1 else 0) + Acks(replies[1..])
  }

  ghost predicate PhaseOk(job: S.Job, phase: S.Phase) {
    match phase
    case Data(rest, blk) => rest != [] && 1 <= blk <= |Chunks(job.file)| && Chunks(rest) == Chunks(job.file)[blk - 1..]
    case Returned(code, at) => at <= |Chunks(job.file)| + 3 && (code == 0 ==> at == |Chunks(job.file)| + 3)
    case _ => true
  }

  ghost predicate WireOk(job: S.Job, wire: seq<Flight>, lo: nat, hi: nat) {
    && (forall i :: 0 <= i < |wire| ==> lo <= wire[i].index <= hi && wire[i].bytes <= Expected(job, wire[i].index))
    && (forall i, j :: 0 <= i < j < |wire| ==> wire[i].index <= wire[j].index)
  }

  function Position(job: S.Job, l: Link): nat {
    S.Index(job, l.sender.phase)
  }

  /** Before the receiver has seen the end of the file, with the sender at position `s`: the receiver is in step with
      the sender or one block ahead, in which case its acknowledgement may be on the way, and its flash holds the blocks
      it has counted. */
  ghost predicate InStep(job: S.Job, site: Site, s: nat, receiver: R.Receiver, replies: seq<byte>) {
    var r, n := receiver.packets, |Chunks(job.file)|;
    && receiver.files == 0 && s <= n + 1 && s <= r <= s + 1 && r <= n + 1
    && Acks(replies) <= r - s
    && site.dest + |Stream(job, r)| <= |site.cells|
    && receiver.cells == FlashAfter(job, site, r) && receiver.dest == site.dest + |Stream(job, r)|
    && (r > 0 ==> receiver.size == |job.file| && |job.file| <= site.max + 1 && Named(job, receiver.name))
  }

  /** Everything on the wire is the block the receiver waits for or the one before. */
  ghost predicate WireInStep(job: S.Job, wire: seq<Flight>, r: nat, s: nat, eots: nat) {
    var n := |Chunks(job.file)|;
    && WireOk(job, wire, if r == 0 then 0 else r - 1, s)
    && (eots > 0 ==> s == n + 1)
    && (eots == 0 ==> forall i :: 0 <= i < |wire| ==> wire[i].index <= n)
    && (eots == 1 ==> forall i :: 0 <= i < |wire| - 1 ==> wire[i].index <= n)
  }

  ghost predicate Transferring(job: S.Job, site: Site, l: Link) {
    && InStep(job, site, Position(job, l), l.receiver, l.replies)
    && WireInStep(job, l.wire, l.receiver.packets, Position(job, l), l.eots)
  }

  /** After the end of the file the flash is complete. */
  ghost predicate Received(job: S.Job, site: Site, receiver: R.Receiver) {
    var n := |Chunks(job.file)|;
    && receiver.files > 0 && receiver.packets == 0
    && site.dest + |Stream(job, n + 1)| <= |site.cells|
    && receiver.cells == FlashAfter(job, site, n + 1) && receiver.size == |job.file| <= site.max + 1
    && Named(job, receiver.name)
  }

  /** Nothing on the wire can change it any more; and if the end of the file was announced only once, an acknowledged
      closing block is one that the receiver has seen. */
  ghost predicate WireEnding(job: S.Job, wire: seq<Flight>, s: nat, eots: nat, result: R.Result, acks: nat) {
    var n := |Chunks(job.file)|;
    && n + 1 <= s <= n + 3 && eots > 0
    && WireOk(job, wire, n + 1, s)
    && (eots == 1 && s == n + 1 ==> wire == [] && acks <= 1)
    && (eots == 1 && s == n + 2 ==> result == R.Stopped(|job.file|)
                                    || (acks == 0 && forall i :: 0 <= i < |wire| ==> wire[i].index == n + 2))
    && (eots == 1 && s == n + 3 ==> result == R.Stopped(|job.file|))
  }

  ghost predicate Complete(job: S.Job, site: Site, l: Link) {
    && Received(job, site, l.receiver)
    && WireEnding(job, l.wire, Position(job, l), l.eots, l.receiver.result, Acks(l.replies))
  }

  ghost predicate Common(job: S.Job, site: Site, l: Link) {
    HasBuffer(l) && l.receiver.max == site.max && PhaseOk(job, l.sender.phase)
  }

  ghost predicate Invariant(job: S.Job, site: Site, l: Link) {
    Common(job, site, l) && (Transferring(job, site, l) || Complete(job, site, l))
  }

  // ---------------------------------------------------------------- bursts

  /** The sequence number on the wire is the position modulo 256, also when the 16-bit block counter has wrapped. */
  lemma PktNoIsPosition(j: nat)
    ensures S.PktNo(j) as nat == j % 0x100
  {
    assert j == 0x1_0000 * (j / 0x1_0000) + j % 0x1_0000;
  }

  function PayloadAt(job: S.Job, j: nat): seq<byte>
    requires j <= |Chunks(job.file)|
  {
    if j == 0 then job.header else Chunks(job.file)[j - 1]
  }

  lemma ParseExpected(job: S.Job, j: nat, bytes: seq<byte>)
    requires |job.header| == PACKET_SIZE && bytes <= Expected(job, j)
    ensures var n := |Chunks(job.file)|;
            Parse(bytes) == if |bytes| < |Expected(job, j)| then Garbled
                            else if j <= n then Block((j % 0x100) as byte, PayloadAt(job, j))
                            else if j == n + 2 then Block(0, Fill(PACKET_SIZE, 0))
                            else EndOfFile
    ensures j <= |Chunks(job.file)| ==> IsPayload(PayloadAt(job, j))
  {
    var n := |Chunks(job.file)|;
    ChunksArePayloads(job.file);
    PktNoIsPosition(j);
    if |bytes| == |Expected(job, j)| {
      assert bytes == Expected(job, j);
    } else {
      assert bytes == Expected(job, j)[..|bytes|];
    }
    if j <= n {
      var q := if j == 0 then 0 else S.PktNo(j);
      assert Expected(job, j) == Frame(job.sum, q, PayloadAt(job, j));
      ParseFrame(job.sum, q, PayloadAt(job, j));
      if |bytes| < |Expected(job, j)| {
        ParseCutFrame(job.sum, q, PayloadAt(job, j), |bytes|);
      }
    } else if j == n + 2 {
      ParseFrame(job.sum, 0, Fill(PACKET_SIZE, 0));
      if |bytes| < |Expected(job, j)| {
        ParseCutFrame(job.sum, 0, Fill(PACKET_SIZE, 0), |bytes|);
      }
    }
  }

  /** What a phase sends is what its position calls for. */
  lemma BurstIsExpected(job: S.Job, phase: S.Phase)
    requires PhaseOk(job, phase) && S.Speaks(phase)
    ensures S.Burst(job, phase) == Expected(job, S.Index(job, phase))
  {
    if phase.Data? {
      assert Chunks(phase.rest)[0] == Payload(phase.rest);
      assert Chunks(phase.rest)[0] == Chunks(job.file)[phase.blk - 1];
    }
  }

  // ---------------------------------------------------------------- channels

  lemma {:induction false} AcksAppend(a: seq<byte>, b: seq<byte>)
    ensures Acks(a + b) == Acks(a) + Acks(b)
  {
    if a == [] {
      assert a + b == b;
    } else {
      assert (a + b)[1..] == a[1..] + b;
      AcksAppend(a[1..], b);
    }
  }

  lemma AcksLose(a: seq<byte>, i: nat)
    requires i < |a|
    ensures Acks(a[..i] + a[i + 1..]) <= Acks(a)
  {
    assert a == a[..i] + a[i..];
    AcksAppend(a[..i], a[i..]);
    AcksAppend(a[..i], a[i + 1..]);
    assert a[i..][1..] == a[i + 1..];
  }

  lemma AcksOf(c: byte, d: byte)
    ensures Acks([c]) == (if c == ACK then 1 else 0)
    ensures Acks([c, d]) == (if c == ACK then 1 else 0) + (if d == ACK then 1 else 0)
  {
    assert [c, d][1..] == [d] && [d][1..] == [] && [c][1..] == [];
  }

  lemma NextKeepsPhaseOk(job: S.Job, s: S.Sender, reply: S.Reply)
    requires PhaseOk(job, s.phase)
    ensures PhaseOk(job, S.Next(job, s, reply).phase)
    ensures var at, at' := S.Index(job, s.phase), S.Index(job, S.Next(job, s, reply).phase);
            at' == at || (reply == S.Got(ACK) && at' == at + 1) || (s.phase.Drain? && at' == at)
  {
    if s.phase.Data? && reply == S.Got(ACK) {
      var chunks := Chunks(job.file);
      assert Chunks(s.phase.rest) == [Payload(s.phase.rest)] + Chunks(Beyond(s.phase.rest));
      assert chunks[s.phase.blk - 1..][1..] == chunks[s.phase.blk..];
      assert Chunks(Beyond(s.phase.rest)) == chunks[s.phase.blk..];
    } else if s.phase.Drain? && job.file != [] {
      assert Chunks(job.file)[0..] == Chunks(job.file);
    }
  }

  // ---------------------------------------------------------------- every event keeps the invariant

  lemma WireAppend(job: S.Job, wire: seq<Flight>, r: nat, s: nat, eots: nat, bytes: seq<byte>)
    requires bytes == Expected(job, s) && s <= |Chunks(job.file)| + 1
    requires WireInStep(job, wire, r, s, eots) && r <= s + 1
    ensures WireInStep(job, wire + [Flight(s, bytes)], r, s, if s == |Chunks(job.file)| + 1 then eots + 1 else eots)
  {}

  lemma WireEndingAppend(job: S.Job, wire: seq<Flight>, s: nat, eots: nat, result: R.Result, acks: nat,
                         bytes: seq<byte>)
    requires bytes == Expected(job, s)
    requires WireEnding(job, wire, s, eots, result, acks)
    ensures var eots' := if s == |Chunks(job.file)| + 1 then eots + 1 else eots;
            WireEnding(job, wire + [Flight(s, bytes)], s, eots', result, acks)
  {}

  lemma KeepsSend(job: S.Job, site: Site, l: Link)
    requires Invariant(job, site, l)
    ensures Invariant(job, site, Step(job, l, Send))
  {
    var phase, s := l.sender.phase, Position(job, l);
    if !l.waiting && S.Speaks(phase) {
      BurstIsExpected(job, phase);
      SpeaksAt(job, phase);
      if Transferring(job, site, l) {
        WireAppend(job, l.wire, l.receiver.packets, s, l.eots, S.Burst(job, phase));
      } else {
        WireEndingAppend(job, l.wire, s, l.eots, l.receiver.result, Acks(l.replies), S.Burst(job, phase));
      }
    }
  }

  lemma SpeaksAt(job: S.Job, phase: S.Phase)
    requires S.Speaks(phase) && PhaseOk(job, phase)
    ensures phase.Eot? <==> S.Index(job, phase) == |Chunks(job.file)| + 1
  {}

  /** Taking an acknowledgement off the line moves a sender one position on. */
  lemma ReplyInStep(job: S.Job, site: Site, l: Link, s': nat)
    requires Transferring(job, site, l) && l.replies != []
    requires s' == Position(job, l) || (l.replies[0] == ACK && s' == Position(job, l) + 1)
    ensures InStep(job, site, s', l.receiver, l.replies[1..])
    ensures WireInStep(job, l.wire, l.receiver.packets, s', l.eots)
  {
    assert Acks(l.replies) == (if l.replies[0] == ACK then 1 else 0) + Acks(l.replies[1..]);
  }

  lemma ReplyEnding(job: S.Job, site: Site, l: Link, s': nat)
    requires Complete(job, site, l) && l.replies != []
    requires s' == Position(job, l) || (l.replies[0] == ACK && s' == Position(job, l) + 1 <= |Chunks(job.file)| + 3)
    ensures WireEnding(job, l.wire, s', l.eots, l.receiver.result, Acks(l.replies[1..]))
  {
    assert Acks(l.replies) == (if l.replies[0] == ACK then 1 else 0) + Acks(l.replies[1..]);
  }

  lemma KeepsReply(job: S.Job, site: Site, l: Link)
    requires Invariant(job, site, l) && l.waiting && l.replies != []
    ensures Invariant(job, site, Step(job, l, Reply))
  {
    NextKeepsPhaseOk(job, l.sender, S.Got(l.replies[0]));
    var s' := Position(job, Step(job, l, Reply));
    if Transferring(job, site, l) {
      ReplyInStep(job, site, l, s');
    } else {
      ReplyEnding(job, site, l, s');
    }
  }

  lemma KeepsSenderTimeout(job: S.Job, site: Site, l: Link)
    requires Invariant(job, site, l)
    ensures Invariant(job, site, Step(job, l, SenderTimeout))
  {
    NextKeepsPhaseOk(job, l.sender, S.Silence);
  }

  function Cut(wire: seq<Flight>, i: nat, k: nat): seq<Flight>
    requires i < |wire| && k <= |wire[i].bytes|
  {
    wire[i := wire[i].(bytes := wire[i].bytes[..k])]
  }

  lemma WireCut(job: S.Job, wire: seq<Flight>, lo: nat, hi: nat, i: nat, k: nat)
    requires WireOk(job, wire, lo, hi) && i < |wire| && k <= |wire[i].bytes|
    ensures WireOk(job, Cut(wire, i, k), lo, hi)
  {}

  lemma WireInStepCut(job: S.Job, wire: seq<Flight>, r: nat, s: nat, eots: nat, i: nat, k: nat)
    requires WireInStep(job, wire, r, s, eots) && i < |wire| && k <= |wire[i].bytes|
    ensures WireInStep(job, Cut(wire, i, k), r, s, eots)
  {
    WireCut(job, wire, if r == 0 then 0 else r - 1, s, i, k);
  }

  lemma WireEndingCut(job: S.Job, wire: seq<Flight>, s: nat, eots: nat, result: R.Result, acks: nat, i: nat, k: nat)
    requires WireEnding(job, wire, s, eots, result, acks) && i < |wire| && k <= |wire[i].bytes|
    ensures WireEnding(job, Cut(wire, i, k), s, eots, result, acks)
  {
    WireCut(job, wire, |Chunks(job.file)| + 1, s, i, k);
  }

  lemma KeepsCutBurst(job: S.Job, site: Site, l: Link, i: nat, k: nat)
    requires Invariant(job, site, l) && i < |l.wire| && k <= |l.wire[i].bytes|
    ensures Invariant(job, site, Step(job, l, CutBurst(i, k)))
  {
    var s := Position(job, l);
    assert Step(job, l, CutBurst(i, k)) == l.(wire := Cut(l.wire, i, k));
    if Transferring(job, site, l) {
      WireInStepCut(job, l.wire, l.receiver.packets, s, l.eots, i, k);
    } else {
      WireEndingCut(job, l.wire, s, l.eots, l.receiver.result, Acks(l.replies), i, k);
    }
  }

  lemma Without(wire: seq<Flight>, i: nat)
    requires i < |wire|
    ensures var w := wire[..i] + wire[i + 1..];
            forall j :: 0 <= j < |w| ==> w[j] == wire[if j < i then j else j + 1]
  {}

  lemma WireLose(job: S.Job, wire: seq<Flight>, w: seq<Flight>, r: nat, s: nat, eots: nat, i: nat)
    requires i < |wire| && w == wire[..i] + wire[i + 1..]
    requires WireInStep(job, wire, r, s, eots)
    ensures WireInStep(job, w, r, s, eots)
  {
    Without(wire, i);
  }

  lemma WireEndingLose(job: S.Job, wire: seq<Flight>, w: seq<Flight>, s: nat, eots: nat, result: R.Result, acks: nat,
                       i: nat)
    requires i < |wire| && w == wire[..i] + wire[i + 1..]
    requires WireEnding(job, wire, s, eots, result, acks)
    ensures WireEnding(job, w, s, eots, result, acks)
  {
    Without(wire, i);
  }

  lemma KeepsLoseBurst(job: S.Job, site: Site, l: Link, i: nat)
    requires Invariant(job, site, l) && i < |l.wire|
    ensures Invariant(job, site, Step(job, l, LoseBurst(i)))
  {
    var s, w := Position(job, l), l.wire[..i] + l.wire[i + 1..];
    if Transferring(job, site, l) {
      WireLose(job, l.wire, w, l.receiver.packets, s, l.eots, i);
    } else {
      WireEndingLose(job, l.wire, w, s, l.eots, l.receiver.result, Acks(l.replies), i);
    }
  }

  lemma KeepsLoseReply(job: S.Job, site: Site, l: Link, i: nat)
    requires Invariant(job, site, l) && i < |l.replies|
    ensures Invariant(job, site, Step(job, l, LoseReply(i)))
  {
    AcksLose(l.replies, i);
    if Transferring(job, site, l) {
      assert Transferring(job, site, Step(job, l, LoseReply(i)));
    } else {
      assert Complete(job, site, Step(job, l, LoseReply(i)));
    }
  }

  /** A burst that is no block, no end of file: a timeout, an abort or a cut burst. */
  lemma KeepsNonBlock(job: S.Job, site: Site, l: Link, line: seq<byte>)
    requires Invariant(job, site, l)
    requires Parse(line) == Garbled || Parse(line) == AbortedByUser
    ensures Invariant(job, site, Receive(l, line))
  {
    var out := R.Step(l.receiver, line).1;
    AcksAppend(l.replies, out);
    AcksOf(CRC16, CA);
    AcksOf(CA, CA);
  }

  /** The opening block, in its turn, is handed to the header branch with the announced size in the buffer. */
  lemma HeaderTurn(job: S.Job, receiver: R.Receiver, line: seq<byte>)
    requires |receiver.buf| == BUFFER && Announced(job)
    requires receiver.result == R.Running && receiver.packets == 0 && line == Expected(job, 0)
    ensures R.Step(receiver, line)
            == R.OnHeader(receiver.(buf := Buffered(line, receiver.buf), errors := 0), job.header)
  {
    ParseExpected(job, 0, line);
  }

  /** The size and the name the receiver finds in its buffer behind the opening block. */
  lemma HeaderSize(job: S.Job, buf: seq<byte>, line: seq<byte>, was: int)
    requires |buf| == BUFFER && Announced(job) && line == Expected(job, 0)
    ensures SizeIn(Buffered(line, buf)[PACKET_HEADER..], was) == |job.file|
    ensures Named(job, NameIn(Buffered(line, buf)[PACKET_HEADER..]))
  {
    var b := Buffered(line, buf);
    var tail := b[PACKET_HEADER + PACKET_SIZE..];
    assert b[PACKET_HEADER..] == job.header + tail;
    if 0 in job.header {
      TerminatedLength(job.header);
      UpToUnique((job.header + tail)[..FILE_NAME_LENGTH], 0, UpTo(job.header, 0));
    }
  }

  /** What the receiver does with the opening block. */
  lemma HeaderStep(job: S.Job, site: Site, receiver: R.Receiver, line: seq<byte>)
    requires |receiver.buf| == BUFFER && receiver.max == site.max && Announced(job)
    requires receiver.result == R.Running && receiver.packets == 0 && line == Expected(job, 0)
    ensures var (t, out) := R.Step(receiver, line);
            && t.files == receiver.files && t.dest == receiver.dest && t.max == receiver.max
            && (if |job.file| > site.max + 1 then t.packets == 0 && t.cells == receiver.cells && out == [CA, CA]
                else t.packets == 1 && out == [ACK, CRC16] && t.size == |job.file| && t.result == R.Running
                     && Named(job, t.name) && t.cells == R.EraseArea(receiver.cells, receiver.dest, site.max))
  {
    HeaderTurn(job, receiver, line);
    HeaderSize(job, receiver.buf, line, receiver.size);
  }

  /** What the receiver does with a data block. */
  lemma DataStep(job: S.Job, receiver: R.Receiver, line: seq<byte>, j: nat)
    requires |receiver.buf| == BUFFER && |job.header| == PACKET_SIZE && receiver.result == R.Running
    requires 1 <= j == receiver.packets <= |Chunks(job.file)| && line == Expected(job, j)
    ensures var (t, out) := R.Step(receiver, line);
            && t.files == receiver.files && t.max == receiver.max && t.size == receiver.size && t.name == receiver.name
            && (if receiver.dest + |PayloadAt(job, j)| > |receiver.cells|
                then t.packets == j && t.cells == receiver.cells && t.dest == receiver.dest && out == [CA, CA]
                else t.packets == j + 1 && out == [ACK] && t.dest == receiver.dest + |PayloadAt(job, j)|
                     && t.result == R.Running && t.cells == Program(receiver.cells, receiver.dest, PayloadAt(job, j)))
  {
    ParseExpected(job, j, line);
  }

  /** A repetition of the block before the one the receiver waits for is refused. */
  lemma RepeatStep(job: S.Job, receiver: R.Receiver, line: seq<byte>, j: nat)
    requires |receiver.buf| == BUFFER && |job.header| == PACKET_SIZE && receiver.result == R.Running
    requires j + 1 == receiver.packets && j <= |Chunks(job.file)| && line == Expected(job, j)
    ensures R.Step(receiver, line) == (receiver.(errors := 0, buf := Buffered(line, receiver.buf)), [NAK])
  {
    ParseExpected(job, j, line);
    NeighboursDiffer(j);
  }

  /** Eight bits tell a block from the one before it. */
  lemma NeighboursDiffer(j: nat)
    ensures ((j % 0x100) as byte) as nat != (j + 1) % 0x100
  {
    assert j == 0x100 * (j / 0x100) + j % 0x100;
  }

  /** Writing the next block extends what the flash holds. */
  lemma AppendBlock(job: S.Job, site: Site, j: nat)
    requires 1 <= j <= |Chunks(job.file)|
    ensures Stream(job, j + 1) == Stream(job, j) + PayloadAt(job, j)
    ensures site.dest + |Stream(job, j + 1)| <= |site.cells| ==>
      FlashAfter(job, site, j + 1) == Program(FlashAfter(job, site, j), site.dest + |Stream(job, j)|, PayloadAt(job, j))
  {
    var chunks := Chunks(job.file);
    assert chunks[..j][..j - 1] == chunks[..j - 1];
    if site.dest + |Stream(job, j + 1)| <= |site.cells| {
      ProgramAppend(R.EraseArea(site.cells, site.dest, site.max), site.dest, Stream(job, j), PayloadAt(job, j));
    }
  }

  /** The opening block carries no data. */
  lemma OpeningBlock(job: S.Job, site: Site)
    requires site.dest <= |site.cells|
    ensures Stream(job, 1) == [] == Stream(job, 0)
    ensures FlashAfter(job, site, 1) == R.EraseArea(site.cells, site.dest, site.max)
  {
    assert Chunks(job.file)[..0] == [];
  }

  lemma InStepHeader(job: S.Job, site: Site, s: nat, receiver: R.Receiver, replies: seq<byte>, line: seq<byte>)
    requires |receiver.buf| == BUFFER && receiver.max == site.max && Announced(job)
    requires InStep(job, site, s, receiver, replies) && receiver.result == R.Running
    requires receiver.packets == 0 && line == Expected(job, 0)
    ensures var (t, out) := R.Step(receiver, line);
            InStep(job, site, s, t, replies + out) && t.max == site.max && t.packets <= 1
  {
    HeaderStep(job, site, receiver, line);
    var (t, out) := R.Step(receiver, line);
    InStepOpened(job, site, s, receiver, replies, t, out);
  }

  lemma InStepOpened(job: S.Job, site: Site, s: nat, receiver: R.Receiver, replies: seq<byte>, t: R.Receiver,
                     out: seq<byte>)
    requires InStep(job, site, s, receiver, replies) && receiver.packets == 0
    requires t.files == receiver.files && t.dest == receiver.dest
    requires if |job.file| > site.max + 1 then t.packets == 0 && t.cells == receiver.cells && out == [CA, CA]
             else t.packets == 1 && out == [ACK, CRC16] && t.size == |job.file| && Named(job, t.name)
                  && t.cells == R.EraseArea(receiver.cells, receiver.dest, site.max)
    ensures InStep(job, site, s, t, replies + out)
  {
    OpeningBlock(job, site);
    AcksAppend(replies, out);
    AcksOf(CA, CA);
    AcksOf(ACK, CRC16);
  }

  lemma DataFlash(job: S.Job, site: Site, cells: seq<byte>, dest: nat, j: nat)
    requires 1 <= j <= |Chunks(job.file)| && dest == site.dest + |Stream(job, j)|
    requires dest <= |site.cells| && cells == FlashAfter(job, site, j)
    ensures dest + |PayloadAt(job, j)| == site.dest + |Stream(job, j + 1)|
    ensures dest + |PayloadAt(job, j)| <= |cells| ==>
      Program(cells, dest, PayloadAt(job, j)) == FlashAfter(job, site, j + 1)
  {
    AppendBlock(job, site, j);
  }

  lemma AcksOfData(replies: seq<byte>)
    ensures Acks(replies + [CA, CA]) == Acks(replies) && Acks(replies + [ACK]) == Acks(replies) + 1
  {
    AcksAppend(replies, [CA, CA]);
    AcksAppend(replies, [ACK]);
    AcksOf(CA, CA);
    AcksOf(ACK, CA);
  }

  lemma InStepData(job: S.Job, site: Site, s: nat, receiver: R.Receiver, replies: seq<byte>, line: seq<byte>, j: nat)
    requires |receiver.buf| == BUFFER && receiver.max == site.max && |job.header| == PACKET_SIZE
    requires InStep(job, site, s, receiver, replies) && receiver.result == R.Running
    requires 1 <= j == receiver.packets <= |Chunks(job.file)| && j <= s && line == Expected(job, j)
    ensures var (t, out) := R.Step(receiver, line);
            InStep(job, site, s, t, replies + out) && t.max == site.max && j <= t.packets <= j + 1
  {
    DataStep(job, receiver, line, j);
    DataFlash(job, site, receiver.cells, receiver.dest, j);
    AcksOfData(replies);
  }

  lemma InStepRepeat(job: S.Job, site: Site, s: nat, receiver: R.Receiver, replies: seq<byte>, line: seq<byte>, j: nat)
    requires |receiver.buf| == BUFFER && receiver.max == site.max && |job.header| == PACKET_SIZE
    requires InStep(job, site, s, receiver, replies) && receiver.result == R.Running
    requires j + 1 == receiver.packets && j <= |Chunks(job.file)| && line == Expected(job, j)
    ensures var (t, out) := R.Step(receiver, line);
            InStep(job, site, s, t, replies + out) && t.max == site.max && t.packets == j + 1
  {
    RepeatStep(job, receiver, line, j);
    AcksAppend(replies, [NAK]);
    AcksOf(NAK, CA);
  }

  /** A block before the end of the file: the next one or a repetition. */
  lemma InStepBlock(job: S.Job, site: Site, s: nat, receiver: R.Receiver, replies: seq<byte>, line: seq<byte>, j: nat)
    requires |receiver.buf| == BUFFER && receiver.max == site.max && Announced(job)
    requires InStep(job, site, s, receiver, replies) && receiver.result == R.Running
    requires j <= s && j <= |Chunks(job.file)| && line == Expected(job, j)
    requires j == receiver.packets || j + 1 == receiver.packets
    ensures var (t, out) := R.Step(receiver, line);
            && InStep(job, site, s, t, replies + out) && t.max == site.max
            && (t.packets == receiver.packets || t.packets == j + 1)
  {
    if j + 1 == receiver.packets {
      InStepRepeat(job, site, s, receiver, replies, line, j);
    } else if j == 0 {
      InStepHeader(job, site, s, receiver, replies, line);
    } else {
      InStepData(job, site, s, receiver, replies, line, j);
    }
  }

  /** The end of the file, seen for the first time. */
  lemma EndOfFileStep(job: S.Job, site: Site, s: nat, receiver: R.Receiver, replies: seq<byte>)
    requires |receiver.buf| == BUFFER && receiver.result == R.Running
    requires InStep(job, site, s, receiver, replies) && s == |Chunks(job.file)| + 1
    ensures var (t, out) := R.Step(receiver, [EOT]);
            && Received(job, site, t) && t.max == receiver.max && t.result == R.Running
            && Acks(replies + out) == 1
  {
    EotStep(receiver);
    AllReceived(job, site, s, receiver, replies, R.Step(receiver, [EOT]).0);
    AcksOfData(replies);
  }

  lemma EotStep(receiver: R.Receiver)
    requires |receiver.buf| == BUFFER && receiver.result == R.Running
    ensures R.Step(receiver, [EOT]) == (receiver.(errors := 0, packets := 0, files := receiver.files + 1), [ACK])
  {}

  lemma AllReceived(job: S.Job, site: Site, s: nat, receiver: R.Receiver, replies: seq<byte>, t: R.Receiver)
    requires InStep(job, site, s, receiver, replies) && s == |Chunks(job.file)| + 1
    requires t == receiver.(errors := 0, packets := 0, files := receiver.files + 1)
    ensures Received(job, site, t) && Acks(replies) == 0
  {}

  /** Whatever arrives after the end of the file: it leaves the flash alone. */
  lemma EndingStep(job: S.Job, site: Site, receiver: R.Receiver, line: seq<byte>, j: nat)
    requires |receiver.buf| == BUFFER && receiver.result == R.Running && Received(job, site, receiver)
    requires |Chunks(job.file)| + 1 <= j && |job.header| == PACKET_SIZE && line == Expected(job, j)
    ensures var (t, out) := R.Step(receiver, line);
            && Received(job, site, t) && t.max == receiver.max && out == [ACK]
            && t.result == (if j == |Chunks(job.file)| + 2 then R.Stopped(|job.file|) else R.Running)
  {
    ParseExpected(job, j, line);
  }

  /** The wire without its first burst. */
  lemma WireTail(job: S.Job, wire: seq<Flight>, lo: nat, hi: nat, lo': nat)
    requires WireOk(job, wire, lo, hi) && wire != [] && lo <= lo' <= wire[0].index
    ensures WireOk(job, wire[1..], lo', hi)
  {
    assert forall i :: 0 <= i < |wire[1..]| ==> wire[1..][i] == wire[i + 1];
  }

  lemma ArriveBlock(job: S.Job, site: Site, l: Link)
    requires Common(job, site, l) && Transferring(job, site, l) && Announced(job)
    requires l.wire != [] && l.receiver.result == R.Running && l.wire[0].bytes == Expected(job, l.wire[0].index)
    requires l.wire[0].index <= |Chunks(job.file)|
    ensures var (t, out) := R.Step(l.receiver, l.wire[0].bytes);
            && InStep(job, site, Position(job, l), t, l.replies + out) && t.max == site.max
            && WireInStep(job, l.wire[1..], t.packets, Position(job, l), l.eots)
  {
    var f, s, r := l.wire[0], Position(job, l), l.receiver.packets;
    InStepBlock(job, site, s, l.receiver, l.replies, f.bytes, f.index);
    var t := R.Step(l.receiver, f.bytes).0;
    WireTail(job, l.wire, if r == 0 then 0 else r - 1, s, if t.packets == 0 then 0 else t.packets - 1);
    assert forall i :: 0 <= i < |l.wire[1..]| ==> l.wire[1..][i] == l.wire[i + 1];
  }

  lemma ArriveEndOfFile(job: S.Job, site: Site, l: Link)
    requires Common(job, site, l) && Transferring(job, site, l)
    requires l.wire != [] && l.receiver.result == R.Running && l.wire[0].bytes == [EOT]
    requires l.wire[0].index == |Chunks(job.file)| + 1
    ensures var (t, out) := R.Step(l.receiver, [EOT]);
            && Received(job, site, t) && t.max == site.max
            && WireEnding(job, l.wire[1..], Position(job, l), l.eots, t.result, Acks(l.replies + out))
  {
    var n, s, r := |Chunks(job.file)|, Position(job, l), l.receiver.packets;
    EndOfFileStep(job, site, s, l.receiver, l.replies);
    WireTail(job, l.wire, if r == 0 then 0 else r - 1, s, n + 1);
    assert forall i :: 0 <= i < |l.wire[1..]| ==> l.wire[1..][i] == l.wire[i + 1];
  }

  lemma ArriveIs(job: S.Job, l: Link)
    requires HasBuffer(l) && l.wire != []
    ensures var (t, out) := R.Step(l.receiver, l.wire[0].bytes);
            Step(job, l, Arrive) == l.(wire := l.wire[1..], receiver := t, replies := l.replies + out)
  {}

  lemma KeepsArriveInStep(job: S.Job, site: Site, l: Link)
    requires Common(job, site, l) && Transferring(job, site, l) && Announced(job)
    requires l.wire != [] && l.receiver.result == R.Running && l.wire[0].bytes == Expected(job, l.wire[0].index)
    ensures Invariant(job, site, Step(job, l, Arrive))
  {
    ArriveIs(job, l);
    if l.wire[0].index <= |Chunks(job.file)| {
      ArriveBlock(job, site, l);
      assert Transferring(job, site, Step(job, l, Arrive));
    } else {
      ArriveEndOfFile(job, site, l);
      assert Complete(job, site, Step(job, l, Arrive));
    }
  }

  lemma KeepsArriveEnding(job: S.Job, site: Site, l: Link)
    requires Common(job, site, l) && Complete(job, site, l) && |job.header| == PACKET_SIZE
    requires l.wire != [] && l.receiver.result == R.Running && l.wire[0].bytes == Expected(job, l.wire[0].index)
    ensures Invariant(job, site, Step(job, l, Arrive))
  {
    var f, n, s := l.wire[0], |Chunks(job.file)|, Position(job, l);
    var m := Step(job, l, Arrive);
    ArriveIs(job, l);
    EndingStep(job, site, l.receiver, f.bytes, f.index);
    WireTail(job, l.wire, n + 1, s, n + 1);
    assert WireEnding(job, m.wire, s, m.eots, m.receiver.result, Acks(m.replies));
  }

  /** Taking a burst off the wire without looking at it. */
  lemma KeepsDropFirst(job: S.Job, site: Site, l: Link)
    requires Invariant(job, site, l) && l.wire != []
    ensures Invariant(job, site, l.(wire := l.wire[1..]))
  {
    var s, w := Position(job, l), l.wire[1..];
    assert l.wire[..0] + l.wire[1..] == w;
    if Transferring(job, site, l) {
      WireLose(job, l.wire, w, l.receiver.packets, s, l.eots, 0);
    } else {
      WireEndingLose(job, l.wire, w, s, l.eots, l.receiver.result, Acks(l.replies), 0);
    }
  }

  lemma KeepsArrive(job: S.Job, site: Site, l: Link)
    requires Invariant(job, site, l) && Announced(job) && l.wire != []
    ensures Invariant(job, site, Step(job, l, Arrive))
  {
    var f := l.wire[0];
    assert f.bytes <= Expected(job, f.index);
    ParseExpected(job, f.index, f.bytes);
    if l.receiver.result != R.Running {
      KeepsDropFirst(job, site, l);
      assert l.replies + [] == l.replies;
      assert Step(job, l, Arrive) == l.(wire := l.wire[1..]);
    } else if |f.bytes| < |Expected(job, f.index)| {
      KeepsDropFirst(job, site, l);
      KeepsNonBlock(job, site, l.(wire := l.wire[1..]), f.bytes);
    } else if Transferring(job, site, l) {
      KeepsArriveInStep(job, site, l);
    } else {
      KeepsArriveEnding(job, site, l);
    }
  }

  lemma KeepsStep(job: S.Job, site: Site, l: Link, e: Event)
    requires Invariant(job, site, l) && Announced(job)
    ensures Invariant(job, site, Step(job, l, e))
  {
    match e
    case Send => KeepsSend(job, site, l);
    case Reply => if l.waiting && l.replies != [] { KeepsReply(job, site, l); }
    case SenderTimeout => KeepsSenderTimeout(job, site, l);
    case Arrive => if l.wire != [] { KeepsArrive(job, site, l); }
    case ReceiverTimeout => KeepsNonBlock(job, site, l, []);
    case UserAbort => KeepsNonBlock(job, site, l, [ABORT2]);
    case CutBurst(i, k) => if i < |l.wire| && k <= |l.wire[i].bytes| { KeepsCutBurst(job, site, l, i, k); }
    case LoseBurst(i) => if i < |l.wire| { KeepsLoseBurst(job, site, l, i); }
    case LoseReply(i) => if i < |l.replies| { KeepsLoseReply(job, site, l, i); }
  }

  lemma {:induction false} KeepsRun(job: S.Job, site: Site, l: Link, events: seq<Event>)
    requires Invariant(job, site, l) && Announced(job)
    ensures Invariant(job, site, Run(job, l, events))
    decreases |events|
  {
    if events != [] {
      KeepsStep(job, site, l, events[0]);
      KeepsRun(job, site, Step(job, l, events[0]), events[1..]);
    }
  }
}
