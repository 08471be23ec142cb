/** What each client of the bridge gets to read: its own bounded queue of the messages sent since it joined, whatever
    the other clients do. */
module SppDelivery {
  import opened Bytes
  import opened Tables
  import opened SppBridge
  import opened SppMemory

  // ---------------------------------------------------------------- a bounded queue on its own

  /** The serial numbers offered, those still queued, and those taken out. */
  function Offers(ops: seq<Op>): seq<nat> {
    if ops == [] then []
    else
      var last := ops[|ops| - 1];
      Offers(ops[..|ops| - 1]) + if last.Offer? then [last.serial] else []
  }

  function QueueAfter(ops: seq<Op>): seq<nat> {
    if ops == [] then []
    else
      var queue := QueueAfter(ops[..|ops| - 1]);
      match ops[|ops| - 1]
      case Offer(x) => if |queue| < 8 then queue + [x] else queue
      case Take => if queue == [] then [] else queue[1..]
  }

  function TakenBy(ops: seq<Op>): seq<nat> {
    if ops == [] then []
    else
      var queue, out := QueueAfter(ops[..|ops| - 1]), TakenBy(ops[..|ops| - 1]);
      if ops[|ops| - 1].Take? && queue != [] then out + [queue[0]] else out
  }

  /** Everything accepted, in order. */
  function Accepted(ops: seq<Op>): seq<nat> {
    TakenBy(ops) + QueueAfter(ops)
  }

  lemma AcceptedStep(ops: seq<Op>)
    requires ops != []
    ensures var front, last := ops[..|ops| - 1], ops[|ops| - 1];
            Accepted(ops) == Accepted(front)
                             + if last.Offer? && |QueueAfter(front)| < 8 then [last.serial] else []
  {
    var queue := QueueAfter(ops[..|ops| - 1]);
    if queue != [] {
      assert queue == [queue[0]] + queue[1..];
    }
  }

  /** The offers of a client are the messages sent since it joined, without a gap. */
  ghost predicate Consecutive(xs: seq<nat>, since: nat) {
    forall i :: 0 <= i < |xs| ==> xs[i] == since + i
  }

  lemma LastOffer(ops: seq<Op>, since: nat)
    requires ops != [] && Consecutive(Offers(ops), since)
    ensures var front, last := Offers(ops[..|ops| - 1]), ops[|ops| - 1];
            && Consecutive(front, since)
            && (last.Offer? ==> last.serial == since + |front| && |Offers(ops)| == |front| + 1)
            && (!last.Offer? ==> Offers(ops) == front)
  {
    var front, last := Offers(ops[..|ops| - 1]), ops[|ops| - 1];
    if last.Offer? {
      assert Offers(ops) == front + [last.serial];
      assert Offers(ops)[|front|] == last.serial;
      assert forall i :: 0 <= i < |front| ==> front[i] == Offers(ops)[i];
    } else {
      assert Offers(ops) == front;
    }
  }

  /** What a queue lets through is in order, without duplicates, and offered. */
  lemma {:induction false} FifoOrder(ops: seq<Op>, since: nat)
    requires Consecutive(Offers(ops), since)
    ensures forall i, j :: 0 <= i < j < |Accepted(ops)| ==> Accepted(ops)[i] < Accepted(ops)[j]
    ensures forall i :: 0 <= i < |Accepted(ops)| ==> since <= Accepted(ops)[i] < since + |Offers(ops)|
  {
    if ops != [] {
      var front := ops[..|ops| - 1];
      LastOffer(ops, since);
      FifoOrder(front, since);
      AcceptedStep(ops);
    }
  }

  /** A message finds the queue full. */
  ghost predicate TurnedAway(ops: seq<Op>, x: nat) {
    exists k :: 0 <= k < |ops| && RefusedAt(ops, x, k)
  }

  ghost predicate RefusedAt(ops: seq<Op>, x: nat, k: nat)
    requires k < |ops|
  {
    ops[k] == Offer(x) && |QueueAfter(ops[..k])| == 8
  }

  lemma {:induction false} QueueBounded(ops: seq<Op>)
    ensures |QueueAfter(ops)| <= 8
  {
    if ops != [] {
      QueueBounded(ops[..|ops| - 1]);
    }
  }

  lemma {:induction false} OfferCounted(ops: seq<Op>, since: nat, k: nat)
    requires Consecutive(Offers(ops), since) && k < |ops| && ops[k].Offer?
    ensures since <= ops[k].serial < since + |Offers(ops)|
  {
    var front := ops[..|ops| - 1];
    LastOffer(ops, since);
    if k < |front| {
      OfferCounted(front, since, k);
      assert front[k] == ops[k];
    }
  }

  lemma TurnedAwayStep(ops: seq<Op>, x: nat)
    requires ops != []
    ensures var n := |ops| - 1;
            TurnedAway(ops, x) <==> TurnedAway(ops[..n], x) || RefusedAt(ops, x, n)
  {
    var n := |ops| - 1;
    var front := ops[..n];
    forall k | 0 <= k < n
      ensures RefusedAt(front, x, k) <==> RefusedAt(ops, x, k)
    {
      assert front[..k] == ops[..k];
    }
    if TurnedAway(front, x) {
      var k :| 0 <= k < |front| && RefusedAt(front, x, k);
      assert RefusedAt(ops, x, k);
    }
  }

  /** A message is missed if and only if the client's own queue was full when its turn came. */
  lemma {:induction false} MissedExactly(ops: seq<Op>, since: nat, x: nat)
    requires Consecutive(Offers(ops), since) && since <= x < since + |Offers(ops)|
    ensures x !in Accepted(ops) <==> TurnedAway(ops, x)
  {
    var n := |ops| - 1;
    var front, last := ops[..n], ops[n];
    LastOffer(ops, since);
    AcceptedStep(ops);
    TurnedAwayStep(ops, x);
    QueueBounded(front);
    if x < since + |Offers(front)| {
      MissedExactly(front, since, x);
    } else {
      FifoOrder(front, since);
      if TurnedAway(front, x) {
        var k :| 0 <= k < |front| && RefusedAt(front, x, k);
        OfferCounted(front, since, k);
        assert false;
      }
    }
  }

  // ---------------------------------------------------------------- the queues of the bridge

  /** Messages are what was sent under their serial numbers. */
  ghost predicate ContentAt(heap: seq<Cell>, a: nat, sent: seq<seq<byte>>, u: Uart) {
    IsLive(heap, a) && u != Fresh(a) ==> heap[a].msg.serial < |sent| && heap[a].msg.data == sent[heap[a].msg.serial]
  }

  ghost predicate ContentOk(s: State) {
    && (forall a: nat :: ContentAt(s.heap, a, s.sent, s.uart))
    && (Locked(s.uart) ==> |s.sent| > 0 && (IsLive(s.heap, s.uart.a) ==> s.heap[s.uart.a].msg.serial == |s.sent| - 1))
  }

  /** Slots and registered queues belong to each other. */
  ghost predicate SlotsOk(s: State) {
    && |s.slots| == 6
    && (forall p :: 0 <= p < |s.slots| && s.slots[p].Some? ==>
          && s.slots[p].value < |s.clients|
          && s.clients[s.slots[p].value].stage.Registered? && s.clients[s.slots[p].value].slot == p)
    && (forall q :: 0 <= q < |s.clients| && s.clients[q].stage.Registered? ==>
          s.clients[q].slot < |s.slots| && s.slots[s.clients[q].slot] == Some(q))
    && (s.uart.Taken? || s.uart.Refused? ==> s.uart.i < |s.slots| && s.slots[s.uart.i].Some?)
  }

  /** How many messages have been offered to the queue in slot `p`. */
  function Due(sent: nat, u: Uart, p: nat): int {
    match u
    case At(_, i) => if p < i then sent else sent - 1
    case Taken(_, i) => if p < i then sent else sent - 1
    case Refused(_, i) => if p <= i then sent else sent - 1
    case _ => sent
  }

  /** The history of a client accounts for every message since it joined. */
  ghost predicate OffersOk(c: Client, sent: nat, u: Uart) {
    && Consecutive(Offers(c.ops), c.since) && c.since + |Offers(c.ops)| <= sent
    && (c.stage.Registered? ==> c.since + |Offers(c.ops)| == Due(sent, u, c.slot))
  }

  /** A queue holds what its history says, and what was read is what was sent. */
  ghost predicate QueueOk(heap: seq<Cell>, sent: seq<seq<byte>>, c: Client) {
    && |c.queue| == |QueueAfter(c.ops)|
    && (forall i :: 0 <= i < |c.queue| ==>
          IsLive(heap, c.queue[i]) && heap[c.queue[i]].msg.serial == QueueAfter(c.ops)[i])
    && |c.read| == |TakenBy(c.ops)|
    && (forall i :: 0 <= i < |c.read| ==> TakenBy(c.ops)[i] < |sent| && c.read[i] == sent[TakenBy(c.ops)[i]])
  }

  ghost predicate ClientsOk(s: State) {
    forall q :: 0 <= q < |s.clients| ==>
      OffersOk(s.clients[q], |s.sent|, s.uart) && QueueOk(s.heap, s.sent, s.clients[q])
  }

  ghost predicate DeliveryOk(s: State) {
    MemoryOk(s) && ContentOk(s) && SlotsOk(s) && ClientsOk(s)
  }

  // ---------------------------------------------------------------- steps that leave the queues alone

  /** A heap that still has the live messages of another one in the same places. */
  ghost predicate Keeps(heap: seq<Cell>, heap': seq<Cell>, c: Client) {
    forall i :: 0 <= i < |c.queue| && IsLive(heap, c.queue[i]) ==>
      IsLive(heap', c.queue[i]) && heap'[c.queue[i]].msg.serial == heap[c.queue[i]].msg.serial
  }

  lemma QueueKept(heap: seq<Cell>, heap': seq<Cell>, sent: seq<seq<byte>>, sent': seq<seq<byte>>, c: Client)
    requires QueueOk(heap, sent, c) && Keeps(heap, heap', c) && sent <= sent'
    ensures QueueOk(heap', sent', c)
  {}

  lemma AppendOp(c: Client, op: Op)
    ensures (c.ops + [op])[..|c.ops|] == c.ops && (c.ops + [op])[|c.ops|] == op && |c.ops + [op]| == |c.ops| + 1
  {}

  /** A heap change in which every message that stays live stays the same. */
  ghost predicate SameMessages(heap: seq<Cell>, heap': seq<Cell>) {
    forall a: nat :: SameAt(heap, heap', a)
  }

  ghost predicate SameAt(heap: seq<Cell>, heap': seq<Cell>, a: nat) {
    IsLive(heap', a) ==>
      IsLive(heap, a) && heap'[a].msg.serial == heap[a].msg.serial && heap'[a].msg.data == heap[a].msg.data
  }

  lemma RetainSame(heap: seq<Cell>, b: nat)
    ensures SameMessages(heap, Retain(heap, b))
  {}

  lemma ReleaseSame(heap: seq<Cell>, used: int, b: nat)
    ensures SameMessages(heap, Release(heap, used, b).0)
  {}

  /** Steps that only take or free references. */
  lemma HeapStep(s: State, t: State)
    requires DeliveryOk(s) && MemoryOk(t) && SameMessages(s.heap, t.heap)
    requires s.sent == t.sent && |s.clients| == |t.clients|
    requires forall q :: 0 <= q < |s.clients| ==> t.clients[q] == s.clients[q].(held := t.clients[q].held)
    requires s.uart.Fresh? || t.uart.Fresh? ==> s.uart == t.uart
    requires forall q :: 0 <= q < |s.clients| && s.clients[q].stage.Registered? ==>
      Due(|s.sent|, t.uart, s.clients[q].slot) == Due(|s.sent|, s.uart, s.clients[q].slot)
    ensures ClientsOk(t) && forall a: nat :: ContentAt(t.heap, a, t.sent, t.uart)
  {
    forall a: nat
      ensures ContentAt(t.heap, a, t.sent, t.uart)
    {
      assert SameAt(s.heap, t.heap, a) && ContentAt(s.heap, a, s.sent, s.uart);
    }
    forall q | 0 <= q < |t.clients|
      ensures OffersOk(t.clients[q], |t.sent|, t.uart) && QueueOk(t.heap, t.sent, t.clients[q])
    {
      var c := s.clients[q];
      assert t.clients[q].queue == c.queue;
      forall i | 0 <= i < |c.queue| && IsLive(s.heap, c.queue[i])
        ensures IsLive(t.heap, c.queue[i]) && t.heap[c.queue[i]].msg.serial == s.heap[c.queue[i]].msg.serial
      {
        ReachableIsLive(t, q, c.queue[i]);
        assert SameAt(s.heap, t.heap, c.queue[i]);
      }
      QueueKept(s.heap, t.heap, s.sent, t.sent, c);
    }
  }

  lemma SlotDelivery(s: State)
    requires DeliveryOk(s) && s.uart.At?
    ensures DeliveryOk(OnSlot(s))
  {
    SlotKeeps(s);
    UartIsLive(s);
    var b, t := s.uart.a, OnSlot(s);
    RetainSame(s.heap, b);
    ReleaseSame(s.heap, s.used, b);
    HeapStep(s, t);
  }

  lemma RefusedDelivery(s: State)
    requires DeliveryOk(s) && s.uart.Refused?
    ensures DeliveryOk(OnRefused(s))
  {
    RefusedKeeps(s);
    UartIsLive(s);
    ReleaseSame(s.heap, s.used, s.uart.a);
    HeapStep(s, OnRefused(s));
    UartIsLive(OnRefused(s));
  }

  lemma DoneDelivery(s: State, q: nat)
    requires DeliveryOk(s)
    ensures DeliveryOk(OnDone(s, q))
  {
    DoneKeeps(s, q);
    var t := OnDone(s, q);
    if q < |s.clients| && s.clients[q].held != None {
      ReleaseSame(s.heap, s.used, s.clients[q].held.value);
      HeapStep(s, t);
      if Locked(s.uart) {
        UartIsLive(t);
        assert SameAt(s.heap, t.heap, s.uart.a);
      }
    }
  }

  // ---------------------------------------------------------------- steps that bring in a message

  lemma ReceiveDelivery(s: State, data: seq<byte>, cell: Option<nat>)
    requires DeliveryOk(s)
    ensures DeliveryOk(OnReceive(s, data, cell))
  {
    ReceiveKeeps(s, data, cell);
    var t := OnReceive(s, data, cell);
    if t.uart != s.uart {
      forall a: nat
        ensures ContentAt(t.heap, a, t.sent, t.uart)
      {
        assert ContentAt(s.heap, a, s.sent, s.uart);
      }
      forall q | 0 <= q < |t.clients|
        ensures OffersOk(t.clients[q], |t.sent|, t.uart) && QueueOk(t.heap, t.sent, t.clients[q])
      {
        assert OffersOk(s.clients[q], |s.sent|, s.uart);
        QueueKept(s.heap, t.heap, s.sent, t.sent, s.clients[q]);
      }
    }
  }

  /** What the UART thread has just allocated is in no queue. */
  lemma FreshInNoQueue(s: State, q: nat)
    requires MemoryOk(s) && s.uart.Fresh? && q < |s.clients|
    ensures s.uart.a !in s.clients[q].queue
  {
    RefsAtLeast(s.clients, q, s.uart.a);
    assert CellOk(s.heap, s.uart.a, Count(s.clients, s.uart, s.uart.a), s.uart == Fresh(s.uart.a));
  }

  lemma LockDelivery(s: State)
    requires DeliveryOk(s) && s.uart.Fresh?
    ensures DeliveryOk(OnLock(s))
  {
    LockKeeps(s);
    UartIsLive(s);
    var t := OnLock(s);
    assert t.sent[..|s.sent|] == s.sent;
    forall a: nat
      ensures ContentAt(t.heap, a, t.sent, t.uart)
    {
      assert ContentAt(s.heap, a, s.sent, s.uart);
    }
    forall q | 0 <= q < |t.clients|
      ensures OffersOk(t.clients[q], |t.sent|, t.uart) && QueueOk(t.heap, t.sent, t.clients[q])
    {
      assert OffersOk(s.clients[q], |s.sent|, s.uart);
      FreshInNoQueue(s, q);
      QueueKept(s.heap, t.heap, s.sent, t.sent, s.clients[q]);
    }
  }

  // ---------------------------------------------------------------- steps on one queue

  /** The queue in the slot at hand is offered the newest message. */
  lemma OfferedOk(s: State, q: nat, c: Client, u: Uart)
    requires DeliveryOk(s) && s.uart.Taken? && s.slots[s.uart.i] == Some(q) && IsLive(s.heap, s.uart.a)
    requires c == Offered(s.clients[q], s.uart.a, s.heap[s.uart.a].msg.serial)
    requires u == Refused(s.uart.a, s.uart.i) || u == At(s.uart.a, s.uart.i + 1)
    ensures OffersOk(c, |s.sent|, u) && QueueOk(s.heap, s.sent, c)
  {
    var d, serial := s.clients[q], s.heap[s.uart.a].msg.serial;
    assert OffersOk(d, |s.sent|, s.uart) && QueueOk(s.heap, s.sent, d);
    AppendOp(d, Offer(serial));
    assert Offers(c.ops) == Offers(d.ops) + [serial];
  }

  /** The other queues are not affected by the turn of a slot. */
  lemma OtherSlot(s: State, q: nat, r: nat, u: Uart)
    requires DeliveryOk(s) && s.uart.Taken? && s.slots[s.uart.i] == Some(q) && r < |s.clients| && r != q
    requires u == Refused(s.uart.a, s.uart.i) || u == At(s.uart.a, s.uart.i + 1)
    ensures OffersOk(s.clients[r], |s.sent|, u) && QueueOk(s.heap, s.sent, s.clients[r])
  {
    assert OffersOk(s.clients[r], |s.sent|, s.uart);
  }

  lemma PushDelivery(s: State)
    requires DeliveryOk(s) && s.uart.Taken?
    ensures DeliveryOk(OnPush(s))
  {
    PushKeeps(s);
    UartIsLive(s);
    var t, q := OnPush(s), s.slots[s.uart.i].value;
    forall a: nat
      ensures ContentAt(t.heap, a, t.sent, t.uart)
    {
      assert ContentAt(s.heap, a, s.sent, s.uart);
    }
    OfferedOk(s, q, t.clients[q], t.uart);
    forall r | 0 <= r < |t.clients|
      ensures OffersOk(t.clients[r], |t.sent|, t.uart) && QueueOk(t.heap, t.sent, t.clients[r])
    {
      if r != q {
        OtherSlot(s, q, r, t.uart);
      }
    }
  }

  lemma TakenOk(s: State, q: nat, c: Client)
    requires DeliveryOk(s) && q < |s.clients| && s.clients[q].queue != []
    requires c == OnPop(s, q).clients[q] && OnPop(s, q) != s
    ensures OffersOk(c, |s.sent|, s.uart) && QueueOk(s.heap, s.sent, c)
  {
    var d := s.clients[q];
    var a := d.queue[0];
    assert OffersOk(d, |s.sent|, s.uart) && QueueOk(s.heap, s.sent, d);
    ReachableIsLive(s, q, a);
    RefsAtLeast(s.clients, q, a);
    assert CellOk(s.heap, a, Count(s.clients, s.uart, a), s.uart == Fresh(a)) && ContentAt(s.heap, a, s.sent, s.uart);
    AppendOp(d, Take);
    assert Offers(c.ops) == Offers(d.ops);
    assert QueueAfter(c.ops) == QueueAfter(d.ops)[1..];
    assert TakenBy(c.ops) == TakenBy(d.ops) + [QueueAfter(d.ops)[0]];
  }

  /** Changing one client, and nothing else that matters to the others. */
  lemma ClientStep(s: State, t: State, q: nat)
    requires DeliveryOk(s) && MemoryOk(t) && q < |s.clients| == |t.clients|
    requires t == s.(clients := s.clients[q := t.clients[q]])
    requires OffersOk(t.clients[q], |s.sent|, s.uart) && QueueOk(s.heap, s.sent, t.clients[q])
    requires t.clients[q].stage == s.clients[q].stage && t.clients[q].slot == s.clients[q].slot
    ensures DeliveryOk(t)
  {}

  lemma PopDelivery(s: State, q: nat)
    requires DeliveryOk(s)
    ensures DeliveryOk(OnPop(s, q))
  {
    PopKeeps(s, q);
    if OnPop(s, q) != s {
      TakenOk(s, q, OnPop(s, q).clients[q]);
      ClientStep(s, OnPop(s, q), q);
    }
  }

  // ---------------------------------------------------------------- joining and leaving

  lemma CreateSlots(s: State)
    requires DeliveryOk(s)
    ensures SlotsOk(OnCreate(s))
  {
    assert FirstFree(s.slots) < |s.slots| ==> s.slots[FirstFree(s.slots)] == None;
  }

  lemma CreateDelivery(s: State)
    requires DeliveryOk(s)
    ensures DeliveryOk(OnCreate(s))
  {
    CreateKeeps(s);
    CreateSlots(s);
    var t := OnCreate(s);
    if t != s {
      forall a: nat
        ensures ContentAt(t.heap, a, t.sent, t.uart)
      {
        assert ContentAt(s.heap, a, s.sent, s.uart);
      }
      forall q | 0 <= q < |t.clients|
        ensures OffersOk(t.clients[q], |t.sent|, t.uart) && QueueOk(t.heap, t.sent, t.clients[q])
      {
        if q < |s.clients| {
          assert t.clients[q] == s.clients[q];
          assert OffersOk(s.clients[q], |s.sent|, s.uart) && QueueOk(s.heap, s.sent, s.clients[q]);
        }
      }
    }
  }

  lemma LeaveDelivery(s: State, q: nat)
    requires DeliveryOk(s)
    ensures DeliveryOk(OnDelete(s, q)) && DeliveryOk(OnDeinit(s, q))
  {
    DeleteKeeps(s, q);
    if OnDelete(s, q) != s {
      StageOnly(s, OnDelete(s, q), q);
    }
    if OnDeinit(s, q) != s {
      StageOnly(s, OnDeinit(s, q), q);
    }
  }

  lemma StageOnly(s: State, t: State, q: nat)
    requires DeliveryOk(s) && q < |s.clients|
    requires t == OnDelete(s, q) || t == OnDeinit(s, q)
    requires |t.clients| == |s.clients| && t == s.(slots := t.slots, clients := s.clients[q := t.clients[q]])
    requires t.clients[q] == s.clients[q].(stage := t.clients[q].stage) && !t.clients[q].stage.Registered?
    ensures ContentOk(t) && ClientsOk(t)
  {
    forall r | 0 <= r < |t.clients|
      ensures OffersOk(t.clients[r], |t.sent|, t.uart) && QueueOk(t.heap, t.sent, t.clients[r])
    {
      assert OffersOk(s.clients[r], |s.sent|, s.uart) && QueueOk(s.heap, s.sent, s.clients[r]);
    }
  }

  lemma StepKeepsDelivery(s: State, e: Event)
    requires DeliveryOk(s)
    ensures DeliveryOk(Step(s, e))
  {
    match e
    case Receive(data, cell) => ReceiveDelivery(s, data, cell);
    case UartStep => UartDelivery(s);
    case Create => CreateDelivery(s);
    case Pop(q) => PopDelivery(s, q);
    case Done(q) => DoneDelivery(s, q);
    case Delete(q) => LeaveDelivery(s, q);
    case Deinit(q) => LeaveDelivery(s, q);
  }

  lemma UartDelivery(s: State)
    requires DeliveryOk(s)
    ensures DeliveryOk(OnUart(s))
  {
    match s.uart
    case Idle =>
    case Fresh(_) => LockDelivery(s);
    case At(_, _) => SlotDelivery(s);
    case Taken(_, _) => PushDelivery(s);
    case Refused(_, _) => RefusedDelivery(s);
  }

  lemma InitDelivery()
    ensures DeliveryOk(Init())
  {}

  lemma {:induction false} DeliveryAlwaysOk(s: State, events: seq<Event>)
    requires DeliveryOk(s)
    ensures DeliveryOk(Run(s, events))
    decreases |events|
  {
    if events != [] {
      StepKeepsDelivery(s, events[0]);
      DeliveryAlwaysOk(Step(s, events[0]), events[1..]);
    }
  }

  /** In every run, what a client has read are messages that were sent since it joined, in order and without
      duplicates, followed by those in its queue; and of the messages that were sent it misses one if and only if its
      own queue was full when its turn came.  Messages for which the bytes or the memory did not suffice were never
      sent. */
  lemma ClientReads(events: seq<Event>, q: nat)
    ensures var s := Run(Init(), events);
            q < |s.clients| ==>
              var c := s.clients[q];
              var got := Accepted(c.ops);
              && |c.read| + |c.queue| == |got| && |c.queue| <= 8
              && (forall i :: 0 <= i < |got| ==> c.since <= got[i] < |s.sent|)
              && (forall i, j :: 0 <= i < j < |got| ==> got[i] < got[j])
              && (forall i :: 0 <= i < |c.read| ==> c.read[i] == s.sent[got[i]])
              && (forall x :: c.since <= x < c.since + |Offers(c.ops)| ==> (x !in got <==> TurnedAway(c.ops, x)))
              && (c.stage.Registered? && !Locked(s.uart) ==> c.since + |Offers(c.ops)| == |s.sent|)
  {
    InitDelivery();
    DeliveryAlwaysOk(Init(), events);
    var s := Run(Init(), events);
    if q < |s.clients| {
      var c := s.clients[q];
      assert OffersOk(c, |s.sent|, s.uart) && QueueOk(s.heap, s.sent, c);
      FifoOrder(c.ops, c.since);
      QueueBounded(c.ops);
      forall x | c.since <= x < c.since + |Offers(c.ops)|
        ensures x !in Accepted(c.ops) <==> TurnedAway(c.ops, x)
      {
        MissedExactly(c.ops, c.since, x);
      }
    }
  }
}
