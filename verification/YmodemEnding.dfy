/** When both ends of a YMODEM transfer agree that it is over. */
module YmodemEnding {
  import opened Bytes
  import opened YmodemFraming
  import opened YmodemLink
  import opened YmodemTheorems
  import S = YmodemSender
  import R = YmodemReceiver

  // ---------------------------------------------------------------- how often the end of the file is announced

  ghost predicate EotsOk(l: Link) {
    match l.sender.phase
    case Header => l.eots == 0
    case Drain => l.eots == 0
    case Data(_, _) => l.eots == 0
    case Eot => l.sender.errors < S.RETRIES && l.eots <= l.sender.errors + if l.waiting then 1 else 0
    case _ => l.eots <= S.RETRIES
  }

  lemma SenderKeepsEots(job: S.Job, l: Link, reply: S.Reply)
    requires EotsOk(l) && l.waiting
    ensures EotsOk(l.(waiting := false, sender := S.Next(job, l.sender, reply)))
  {}

  lemma StepKeepsEots(job: S.Job, l: Link, e: Event)
    requires HasBuffer(l) && EotsOk(l)
    ensures EotsOk(Step(job, l, e))
  {
    match e
    case Reply => if l.waiting && l.replies != [] { SenderKeepsEots(job, l, S.Got(l.replies[0])); }
    case SenderTimeout => if l.waiting { SenderKeepsEots(job, l, S.Silence); }
    case _ =>
  }

  /** The end of the file is announced at most ten times. */
  lemma {:induction false} EotsBounded(job: S.Job, l: Link, events: seq<Event>)
    requires HasBuffer(l) && EotsOk(l)
    ensures EotsOk(Run(job, l, events))
    decreases |events|
  {
    if events != [] {
      StepKeepsEots(job, l, events[0]);
      EotsBounded(job, Step(job, l, events[0]), events[1..]);
    }
  }

  // ---------------------------------------------------------------- late acknowledgements

  function Eots(job: S.Job, n: nat): seq<Flight> {
    seq(n, _ => Flight(|Chunks(job.file)| + 1, [EOT]))
  }

  /** The end of the file was announced `n` times, and nothing has arrived yet. */
  ghost predicate Late(job: S.Job, l: Link, n: nat) {
    && HasBuffer(l) && l.sender == S.Sender(S.Eot, n) && !l.waiting && l.replies == []
    && l.receiver.result == R.Running && l.wire == Eots(job, n) && l.eots == n
  }

  function LateTurns(n: nat): seq<Event> {
    if n == 0 then [] else LateTurns(n - 1) + [Send, SenderTimeout]
  }

  lemma LateTurn(job: S.Job, l: Link, n: nat)
    requires Late(job, l, n) && n + 1 < S.RETRIES
    ensures Late(job, Run(job, l, [Send, SenderTimeout]), n + 1)
  {
    TwoEvents(job, l, Send, SenderTimeout);
    assert Eots(job, n) + [Flight(|Chunks(job.file)| + 1, [EOT])] == Eots(job, n + 1);
  }

  lemma {:induction false} ManyLateTurns(job: S.Job, l: Link, n: nat)
    requires Late(job, l, 0) && n < S.RETRIES
    ensures Late(job, Run(job, l, LateTurns(n)), n)
  {
    if n > 0 {
      ManyLateTurns(job, l, n - 1);
      RunConcat(job, l, LateTurns(n - 1), [Send, SenderTimeout]);
      LateTurn(job, Run(job, l, LateTurns(n - 1)), n - 1);
    }
  }

  /** The receiver takes an end of file at any time. */
  lemma TakeEot(r: R.Receiver)
    requires |r.buf| == BUFFER && r.result == R.Running
    ensures R.Step(r, [EOT]).1 == [ACK] && R.Step(r, [EOT]).0.result == R.Running
  {}

  lemma ArriveEot(job: S.Job, l: Link, n: nat)
    requires HasBuffer(l) && l.receiver.result == R.Running && n > 0 && l.wire == Eots(job, n)
    ensures var m := Step(job, l, Arrive);
            && HasBuffer(m) && m.receiver.result == R.Running && m.wire == Eots(job, n - 1)
            && m.replies == l.replies + [ACK] && m.sender == l.sender && m.waiting == l.waiting && m.eots == l.eots
  {
    TakeEot(l.receiver);
    assert Eots(job, n)[1..] == Eots(job, n - 1);
  }

  /** One more announcement, of which the first acknowledgement comes in time. */
  lemma SentAgain(job: S.Job, l: Link, n: nat)
    requires Late(job, l, n)
    ensures var m := Run(job, l, [Send, Arrive]);
            && HasBuffer(m) && m.sender == l.sender && m.waiting && m.replies == [ACK]
            && m.receiver.result == R.Running && m.wire == Eots(job, n) && m.eots == n + 1
  {
    TwoEvents(job, l, Send, Arrive);
    assert Eots(job, n) + [Flight(|Chunks(job.file)| + 1, [EOT])] == Eots(job, n + 1);
    ArriveEot(job, Step(job, l, Send), n + 1);
    assert [] + [ACK] == [ACK];
  }

  /** The sender has gone on to the closing block while an acknowledgement of the end of the file is on its way. */
  ghost predicate Closing(job: S.Job, l: Link, n: nat) {
    && HasBuffer(l) && l.sender == S.Sender(S.Last, 0) && !l.waiting && l.replies == [ACK]
    && l.receiver.result == R.Running && l.wire == Eots(job, n)
  }

  lemma AnsweredTwice(job: S.Job, l: Link, n: nat)
    requires HasBuffer(l) && l.sender.phase == S.Eot && l.waiting && l.replies == [ACK]
    requires l.receiver.result == R.Running && n > 0 && l.wire == Eots(job, n)
    ensures var m := Run(job, l, [Arrive, Reply]); Closing(job, m, n - 1) && m.eots == l.eots
  {
    TwoEvents(job, l, Arrive, Reply);
    ArriveEot(job, l, n);
    assert [ACK] + [ACK] == [ACK, ACK] && [ACK, ACK][1..] == [ACK];
  }

  /** The closing block is lost, and the acknowledgement of the end of the file is taken for its own. */
  lemma LostClosing(job: S.Job, l: Link, n: nat)
    requires Closing(job, l, n)
    ensures var m := Run(job, l, [Send, LoseBurst(n)] + [Reply]);
            && HasBuffer(m) && m.sender == S.Sender(S.LastEot, 0) && !m.waiting && m.receiver == l.receiver
            && m.eots == l.eots
  {
    RunConcat(job, l, [Send, LoseBurst(n)], [Reply]);
    TwoEvents(job, l, Send, LoseBurst(n));
    var m := Run(job, l, [Send, LoseBurst(n)]);
    assert [Reply][1..] == [];
    assert Run(job, m, [Reply]) == Step(job, m, Reply);
  }

  /** The end of the file is announced `k` times; two of the announcements are acknowledged in the end. */
  function LateEnding(k: nat): seq<Event>
    requires k >= 2
  {
    LateTurns(k - 1)
    + (([Send, Arrive] + [Arrive, Reply]) + (([Send, LoseBurst(k - 2)] + [Reply]) + [Send, SenderTimeout]))
  }

  /** The sender believes the transfer is over, the receiver is still waiting for the closing block. */
  ghost predicate Disagreed(l: Link, k: nat) {
    Succeeded(l) && l.eots == k && l.receiver.result == R.Running
  }

  lemma LateClosing(job: S.Job, l: Link, k: nat)
    requires Late(job, l, k) && 0 < k
    ensures var m := Run(job, l, [Send, Arrive] + [Arrive, Reply]); Closing(job, m, k - 1) && m.eots == k + 1
  {
    RunConcat(job, l, [Send, Arrive], [Arrive, Reply]);
    SentAgain(job, l, k);
    AnsweredTwice(job, Run(job, l, [Send, Arrive]), k);
  }

  lemma FinishAlone(job: S.Job, site: Site, l: Link, k: nat)
    requires AtEndOfFile(job, site, l) && 2 <= k <= S.RETRIES
    ensures Disagreed(Run(job, l, LateEnding(k)), k)
  {
    assert Late(job, l, 0);
    ManyLateTurns(job, l, k - 1);
    var l1 := Run(job, l, LateTurns(k - 1));
    LateClosing(job, l1, k - 1);
    var l2 := Run(job, l1, [Send, Arrive] + [Arrive, Reply]);
    LostClosing(job, l2, k - 2);
    LastTurn(job, Run(job, l2, [Send, LoseBurst(k - 2)] + [Reply]));
    RunConcat(job, l2, [Send, LoseBurst(k - 2)] + [Reply], [Send, SenderTimeout]);
    RunConcat(job, l1, [Send, Arrive] + [Arrive, Reply], ([Send, LoseBurst(k - 2)] + [Reply]) + [Send, SenderTimeout]);
    RunConcat(job, l, LateTurns(k - 1),
              ([Send, Arrive] + [Arrive, Reply]) + (([Send, LoseBurst(k - 2)] + [Reply]) + [Send, SenderTimeout]));
  }

  /** Whatever the file, and for every number of announcements from two to ten, Ymodem_Transmit can return 0 while
      Ymodem_Receive has not returned. */
  lemma SenderCanFinishAlone(job: S.Job, site: Site, buf: seq<byte>, k: nat)
    requires |buf| == BUFFER && Announced(job) && Accepted(job, site) && 2 <= k <= S.RETRIES
    ensures exists events :: Disagreed(Run(job, Start(site, buf), events), k)
  {
    var l := Start(site, buf);
    ReachesEndOfFile(job, site, buf);
    var events :| AtEndOfFile(job, site, Run(job, l, events));
    FinishAlone(job, site, Run(job, l, events), k);
    RunConcat(job, l, events, LateEnding(k));
    assert Disagreed(Run(job, l, events + LateEnding(k)), k);
  }

  // ---------------------------------------------------------------- the exact condition

  /** In every run in which Ymodem_Transmit returns 0 after `k` announcements of the end of the file, Ymodem_Receive has
      returned the size of the file. */
  ghost predicate AlwaysAgree(job: S.Job, site: Site, buf: seq<byte>, k: nat)
    requires |buf| == BUFFER
  {
    forall events :: AgreesIn(job, Run(job, Start(site, buf), events), k)
  }

  ghost predicate AgreesIn(job: S.Job, l: Link, k: nat) {
    Succeeded(l) && l.eots == k ==> l.receiver.result == R.Stopped(|job.file|)
  }

  /** This is so exactly when `k` is none of two to ten, or the file is one that is never transferred. */
  lemma AgreementExactly(job: S.Job, site: Site, buf: seq<byte>, k: nat)
    requires |buf| == BUFFER && site.dest <= |site.cells| && Announced(job)
    ensures AlwaysAgree(job, site, buf, k) <==> !(2 <= k <= S.RETRIES && Accepted(job, site))
  {
    if 2 <= k <= S.RETRIES && Accepted(job, site) {
      SenderCanFinishAlone(job, site, buf, k);
      var events :| Disagreed(Run(job, Start(site, buf), events), k);
      assert !AgreesIn(job, Run(job, Start(site, buf), events), k);
    } else {
      forall events
        ensures AgreesIn(job, Run(job, Start(site, buf), events), k)
      {
        SuccessWithFew(job, site, buf, events);
      }
    }
  }

  /** A success has announced the end of the file between one and ten times, and after one both sides agree. */
  lemma SuccessWithFew(job: S.Job, site: Site, buf: seq<byte>, events: seq<Event>)
    requires |buf| == BUFFER && site.dest <= |site.cells| && Announced(job)
    ensures var l := Run(job, Start(site, buf), events);
            Succeeded(l) ==>
              && Accepted(job, site) && 1 <= l.eots <= S.RETRIES
              && (l.eots == 1 ==> l.receiver.result == R.Stopped(|job.file|))
  {
    var l := Run(job, Start(site, buf), events);
    EotsBounded(job, Start(site, buf), events);
    AlwaysInvariant(job, site, buf, events);
    if Succeeded(l) {
      SuccessIsDelivery(job, site, l);
    }
  }
}
