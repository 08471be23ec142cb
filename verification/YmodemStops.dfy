/** How Ymodem_Receive ends: what it returns, what it answers and what it leaves in flash, over every conversation and
    by the bytes that have arrived. */
module YmodemStops {
  import opened Bytes
  import opened FlashMemory
  import opened YmodemFraming
  import opened YmodemHeader
  import opened YmodemReceiver

  /** A block of either size, complete and with its number complemented. */
  predicate IsBlock(line: seq<byte>) {
    && |line| > 2 && ((line[0] == 0x01 && |line| >= 133) || (line[0] == 0x02 && |line| >= 1029))
    && line[1] as nat + line[2] as nat == 0xFF
  }

  function DataSize(line: seq<byte>): nat
    requires IsBlock(line)
  {
    if line[0] == 0x01 then 128 else 1024
  }

  predicate IsCancel(line: seq<byte>) {
    |line| > 1 && line[0] == 0x18 && line[1] == 0x18
  }

  predicate IsUserAbort(line: seq<byte>) {
    |line| > 0 && (line[0] == 0x41 || line[0] == 0x61)
  }

  predicate IsEndOfFile(line: seq<byte>) {
    |line| > 0 && line[0] == 0x04
  }

  /** Everything else, silence included, is a damaged burst. */
  predicate IsDamaged(line: seq<byte>) {
    !IsBlock(line) && !IsCancel(line) && !IsUserAbort(line) && !IsEndOfFile(line)
  }

  lemma Reads(line: seq<byte>)
    ensures Parse(line) == if IsBlock(line) then Block(line[1], line[3..3 + DataSize(line)])
                           else if IsCancel(line) then AbortedBySender
                           else if IsUserAbort(line) then AbortedByUser
                           else if IsEndOfFile(line) then EndOfFile
                           else Garbled
  {}

  /** The number of damaged bursts at the end of a conversation. */
  function DamagedInARow(lines: seq<seq<byte>>): nat
    decreases |lines|
  {
    if lines == [] || !IsDamaged(lines[|lines| - 1]) then 0 else 1 + DamagedInARow(lines[..|lines| - 1])
  }

  /** The receiver after the first bursts of a conversation. */
  function After(start: Receiver, lines: seq<seq<byte>>): Receiver
    requires |start.buf| == BUFFER
  {
    Run(start, lines).0
  }

  /** A block numbered 0 where the receiver waits for the opening block of a file. */
  predicate Opens(s: Receiver, line: seq<byte>) {
    s.packets == 0 && IsBlock(line) && line[1] == 0
  }

  /** Where such a block carries name and size.  They may run on into the two checksum bytes and into what the packet
      buffer held before. */
  function Announcement(s: Receiver, line: seq<byte>): (text: seq<byte>)
    requires IsBlock(line) && |s.buf| == BUFFER
    ensures |text| == 1026
  {
    var n := DataSize(line) + 5;
    line[3..n] + s.buf[n..]
  }

  function NameAnnounced(s: Receiver, line: seq<byte>): seq<byte>
    requires IsBlock(line) && |s.buf| == BUFFER
  {
    UpTo(Announcement(s, line)[..256], 0)
  }

  /** The number in the sixteen bytes behind the name, up to a space. */
  function SizeAnnounced(s: Receiver, line: seq<byte>): int
    requires IsBlock(line) && |s.buf| == BUFFER
  {
    var at := |NameAnnounced(s, line)| + 1;
    NumberIn(UpTo(Announcement(s, line)[at..at + 16], 0x20) + [0], s.size)
  }

  /** An opening block with a name and a size that fits the room. */
  predicate Accepts(s: Receiver, line: seq<byte>)
    requires |s.buf| == BUFFER
  {
    s.result == Running && Opens(s, line) && line[3] != 0 && SizeAnnounced(s, line) <= s.max + 1
  }

  /** The causes for which Ymodem_Receive stops. */
  predicate Ends(s: Receiver, begun: bool, damaged: nat, line: seq<byte>, code: int)
    requires |s.buf| == BUFFER
  {
    s.result == Running &&
    (|| (IsCancel(line) && code == 0)
     || (IsUserAbort(line) && code == -3)
     || (IsDamaged(line) && begun && damaged == 20 && code == 0)
     || (Opens(s, line) && line[3] == 0 && code == s.size)
     || (Opens(s, line) && line[3] != 0 && SizeAnnounced(s, line) > s.max + 1 && code == -1)
     || (s.packets > 0 && IsBlock(line) && line[1] as nat == s.packets % 0x100
         && s.dest + DataSize(line) > |s.cells| && code == -2))
  }

  /** Whether the receiver has accepted an opening block. */
  predicate Begun(start: Receiver, lines: seq<seq<byte>>)
    requires |start.buf| == BUFFER
    decreases |lines|
  {
    lines != [] &&
    var front := lines[..|lines| - 1];
    StepsKeepBuffer(start, front);
    Begun(start, front) || Accepts(After(start, front), lines[|lines| - 1])
  }

  lemma {:induction false} StepsKeepBuffer(r: Receiver, lines: seq<seq<byte>>)
    requires |r.buf| == BUFFER
    ensures |After(r, lines).buf| == BUFFER
    decreases |lines|
  {
    if lines != [] {
      StepKeepsBuffer(r, lines[0]);
      StepsKeepBuffer(Step(r, lines[0]).0, lines[1..]);
    }
  }

  /** What a burst does to a receiver that is at work, as far as ending is concerned. */
  lemma StepEnds(s: Receiver, line: seq<byte>, code: int)
    requires |s.buf| == BUFFER && s.result == Running && s.errors <= 20 && (!s.begun ==> s.errors == 0 == s.packets)
    ensures Step(s, line).0.result == Stopped(code) <==> Ends(s, s.begun, s.errors, line, code)
  {
    Reads(line);
    if IsBlock(line) {
      HeaderText(s, line);
    }
  }

  /** Where the receiver looks for name and size. */
  lemma HeaderText(s: Receiver, line: seq<byte>)
    requires IsBlock(line) && |s.buf| == BUFFER
    ensures var h := Buffered(line, s.buf)[PACKET_HEADER..];
            NameIn(h) == NameAnnounced(s, line) && SizeIn(h, s.size) == SizeAnnounced(s, line)
  {
    assert Buffered(line, s.buf)[PACKET_HEADER..] == Announcement(s, line);
  }

  /** A receiver at work, in terms of what has arrived. */
  ghost predicate AtWork(start: Receiver, lines: seq<seq<byte>>, s: Receiver)
    requires |start.buf| == BUFFER
  {
    && s.max == start.max && |s.cells| == |start.cells| && |s.buf| == BUFFER
    && s.begun == Begun(start, lines) && s.errors == (if s.begun then DamagedInARow(lines) else 0) && s.errors <= 20
    && (!s.begun ==> s.packets == 0 && s.cells == start.cells && s.dest == start.dest)
  }

  lemma StepWorks(s: Receiver, line: seq<byte>)
    requires |s.buf| == BUFFER && s.result == Running && s.errors <= 20 && (!s.begun ==> s.errors == 0 == s.packets)
    requires Step(s, line).0.result == Running
    ensures var t := Step(s, line).0;
            && t.max == s.max && |t.cells| == |s.cells| && |t.buf| == BUFFER
            && t.begun == (s.begun || Accepts(s, line))
            && t.errors == (if s.begun && IsDamaged(line) then s.errors + 1 else 0) && t.errors <= 20
            && (!t.begun ==> t.packets == 0 && t.cells == s.cells && t.dest == s.dest)
  {
    Reads(line);
    if IsBlock(line) {
      HeaderText(s, line);
    }
  }

  /** One more burst. */
  lemma RunLast(start: Receiver, lines: seq<seq<byte>>)
    requires |start.buf| == BUFFER && lines != []
    ensures var front, last := lines[..|lines| - 1], lines[|lines| - 1];
            && |After(start, front).buf| == BUFFER
            && Run(start, lines)
               == (Step(After(start, front), last).0, Run(start, front).1 + Step(After(start, front), last).1)
  {
    RunSplit(start, lines, |lines| - 1);
    assert lines[..|lines|] == lines;
  }

  predicate Fresh(start: Receiver) {
    |start.buf| == BUFFER && start.result == Running && !start.begun && start.errors == 0 == start.packets
  }

  lemma {:induction false} WorksOn(start: Receiver, lines: seq<seq<byte>>)
    requires Fresh(start) && After(start, lines).result == Running
    ensures AtWork(start, lines, After(start, lines))
    decreases |lines|
  {
    if lines != [] {
      var front, last := lines[..|lines| - 1], lines[|lines| - 1];
      RunLast(start, lines);
      WorksOn(start, front);
      StepWorks(After(start, front), last);
    }
  }

  /** Burst `k` of the conversation makes Ymodem_Receive return `code`: the other side or the user aborts, the
      twenty-first damaged burst in a row arrives after an accepted opening block, an empty opening block ends the
      session, the announced file is too large, or a block reaches beyond the device. */
  ghost predicate EndsAt(start: Receiver, lines: seq<seq<byte>>, k: nat, code: int)
    requires |start.buf| == BUFFER
  {
    k < |lines| &&
    var s := After(start, lines[..k]);
    |s.buf| == BUFFER && Ends(s, Begun(start, lines[..k]), DamagedInARow(lines[..k]), lines[k], code)
  }

  /** Ymodem_Receive returns for these reasons and for no other. */
  lemma {:induction false} ReceiveReturns(start: Receiver, lines: seq<seq<byte>>, code: int)
    requires Fresh(start)
    ensures After(start, lines).result == Stopped(code) <==> exists k: nat :: EndsAt(start, lines, k, code)
    decreases |lines|
  {
    if lines != [] {
      var front, n := lines[..|lines| - 1], |lines| - 1;
      RunLast(start, lines);
      ReceiveReturns(start, front, code);
      LastEnds(start, lines, code);
      if k: nat :| EndsAt(start, front, k, code) {
        assert front[..k] == lines[..k];
        assert EndsAt(start, lines, k, code);
      }
      if k: nat :| EndsAt(start, lines, k, code) && k < n {
        assert front[..k] == lines[..k];
        assert EndsAt(start, front, k, code);
      }
    }
  }

  lemma LastEnds(start: Receiver, lines: seq<seq<byte>>, code: int)
    requires Fresh(start) && lines != []
    ensures var s := After(start, lines[..|lines| - 1]);
            After(start, lines).result == Stopped(code)
            <==> s.result == Stopped(code) || EndsAt(start, lines, |lines| - 1, code)
  {
    var front, last := lines[..|lines| - 1], lines[|lines| - 1];
    RunLast(start, lines);
    if After(start, front).result == Running {
      WorksOn(start, front);
      StepEnds(After(start, front), last, code);
    }
  }

  lemma {:induction false} StoppedStays(start: Receiver, lines: seq<seq<byte>>, k: nat)
    requires |start.buf| == BUFFER && k <= |lines| && |After(start, lines[..k]).buf| == BUFFER
    requires After(start, lines[..k]).result != Running
    ensures Run(start, lines) == Run(start, lines[..k])
    decreases |lines|
  {
    if k < |lines| {
      var front := lines[..|lines| - 1];
      assert front[..k] == lines[..k];
      StoppedStays(start, front, k);
      RunLast(start, lines);
      assert Run(start, front).1 + [] == Run(start, front).1;
    } else {
      assert lines[..k] == lines;
    }
  }

  /** Whatever makes it stop, the flash stays as it was and one or two bytes are the last that it sends: an
      acknowledgement for the other side's abort and for the empty opening block, two cancels otherwise. */
  lemma EndingLeaves(start: Receiver, lines: seq<seq<byte>>, k: nat, code: int)
    requires Fresh(start) && EndsAt(start, lines, k, code)
    ensures var (s, before) := Run(start, lines[..k]);
            var (r, out) := Run(start, lines);
            && r.result == Stopped(code) && r.cells == s.cells && r.dest == s.dest
            && (code == -1 && !Begun(start, lines[..k]) ==> r.cells == start.cells)
            && out == before + if IsCancel(lines[k]) || (Opens(s, lines[k]) && lines[k][3] == 0) then [0x06]
                              else [0x18, 0x18]
  {
    var now := lines[..k + 1];
    assert now[..k] == lines[..k] && now[k] == lines[k];
    RunLast(start, now);
    WorksOn(start, lines[..k]);
    var s := After(start, lines[..k]);
    StepEnds(s, lines[k], code);
    EndingAnswer(s, lines[k], code);
    StepKeepsBuffer(s, lines[k]);
    StoppedStays(start, lines, k + 1);
  }

  lemma EndingAnswer(s: Receiver, line: seq<byte>, code: int)
    requires |s.buf| == BUFFER && Ends(s, s.begun, s.errors, line, code) && Step(s, line).0.result == Stopped(code)
    ensures Step(s, line).0.cells == s.cells && Step(s, line).0.dest == s.dest
    ensures Step(s, line).1
            == if IsCancel(line) || (Opens(s, line) && line[3] == 0) then [0x06] else [0x18, 0x18]
  {
    Reads(line);
    if IsBlock(line) {
      HeaderText(s, line);
    }
  }

  /** Neither flash nor file changes. */
  predicate Keeps(s: Receiver, t: Receiver) {
    t.cells == s.cells && t.dest == s.dest && t.name == s.name && t.size == s.size
  }

  /** What a burst that does not end the session changes, and the answer to it. */
  predicate Takes(s: Receiver, t: Receiver, line: seq<byte>, answer: seq<byte>)
    requires |s.buf| == BUFFER
  {
    if IsDamaged(line) then answer == [0x43] && Keeps(s, t) && t.packets == s.packets
    else if IsEndOfFile(line) then answer == [0x06] && Keeps(s, t) && t.packets == 0
    else if !IsBlock(line) then false
    else if line[1] as nat != s.packets % 0x100 then answer == [0x15] && Keeps(s, t) && t.packets == s.packets
    else if s.packets > 0 then
      && answer == [0x06] && t.packets == s.packets + 1 && t.dest == s.dest + DataSize(line) <= |s.cells|
      && t.cells == Program(s.cells, s.dest, line[3..3 + DataSize(line)]) && t.name == s.name && t.size == s.size
    else
      && Accepts(s, line) && answer == [0x06, 0x43] && t.packets == 1 && t.dest == s.dest
      && t.cells == EraseArea(s.cells, s.dest, s.max) && t.size == SizeAnnounced(s, line)
      && t.name == NameAnnounced(s, line)
  }

  /** As long as Ymodem_Receive goes on, the latest burst has done this. */
  lemma ReceiveGoesOn(start: Receiver, lines: seq<seq<byte>>)
    requires Fresh(start) && lines != [] && After(start, lines).result == Running
    ensures var (s, before) := Run(start, lines[..|lines| - 1]);
            var (t, out) := Run(start, lines);
            && |s.buf| == BUFFER
            && exists answer :: out == before + answer && Takes(s, t, lines[|lines| - 1], answer)
  {
    var front, last := lines[..|lines| - 1], lines[|lines| - 1];
    RunLast(start, lines);
    var s := After(start, front);
    StepTakes(s, last);
    assert Takes(s, After(start, lines), last, Step(s, last).1);
  }

  lemma StepTakes(s: Receiver, line: seq<byte>)
    requires |s.buf| == BUFFER && s.result == Running && Step(s, line).0.result == Running
    ensures Takes(s, Step(s, line).0, line, Step(s, line).1)
  {
    Reads(line);
    if IsBlock(line) {
      HeaderText(s, line);
    }
  }

  /** The accepted opening block erases the sectors that the room touches, and none if the room is not all there. */
  lemma RoomErased(cells: seq<byte>, dest: nat, max: nat, i: nat)
    requires i < |cells|
    ensures EraseArea(cells, dest, max)[i]
            == if 0 < max && dest + max <= |cells| && dest / 4096 <= i / 4096 <= (dest + max - 1) / 4096 then 0xFF
               else cells[i]
  {
    if 0 < max && dest + max <= |cells| {
      SectorsTouched(dest, max, |cells|, i);
    }
  }
}
