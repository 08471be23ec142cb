/** What the byte budget of the bridge costs the clients: a message that arrives while it is used up is dropped for all
    of them, whoever holds the bytes. */
module SppBudget {
  import opened Bytes
  import opened Tables
  import opened SppBridge
  import opened SppMemory
  import opened SppDelivery
  import opened SppProtocol

  /** A message from the UART that finds the thread idle and a queue registered: how many bytes were in use, and whether
      there was memory for it. */
  datatype Arrival = Arrival(data: seq<byte>, used: int, memory: bool)

  predicate Comes(s: State, e: Event) {
    e.Receive? && s.uart.Idle? && !NoQueue(s.slots)
  }

  predicate Memory(s: State, cell: Option<nat>) {
    cell.Some? && Available(s.heap, cell.value)
  }

  function Arrivals(s: State, events: seq<Event>): seq<Arrival>
    decreases |events|
  {
    if events == [] then []
    else
      var e := events[0];
      (if Comes(s, e) then [Arrival(e.data, s.used, Memory(s, e.cell))] else []) + Arrivals(Step(s, e), events[1..])
  }

  predicate Admits(a: Arrival) {
    a.used <= 10240 && a.memory
  }

  function AdmittedData(arrivals: seq<Arrival>): seq<seq<byte>> {
    if arrivals == [] then []
    else (if Admits(arrivals[0]) then [arrivals[0].data] else []) + AdmittedData(arrivals[1..])
  }

  lemma AdmittedFirst(a: Arrival, rest: seq<Arrival>)
    ensures AdmittedData([a] + rest) == (if Admits(a) then [a.data] else []) + AdmittedData(rest)
  {
    assert ([a] + rest)[1..] == rest;
  }

  /** The message that has been allocated but not yet sent. */
  function Waiting(s: State): seq<seq<byte>> {
    if s.uart.Fresh? && IsLive(s.heap, s.uart.a) then [s.heap[s.uart.a].msg.data] else []
  }

  function Out(s: State): seq<seq<byte>> {
    s.sent + Waiting(s)
  }

  /** What a step lets in. */
  function Entering(s: State, e: Event): seq<seq<byte>> {
    if Comes(s, e) && s.used <= 10240 && Memory(s, e.cell) then [e.data] else []
  }

  /** What a step adds to the messages sent and the one waiting: an arrival that is admitted, and nothing else. */
  lemma StepSends(s: State, e: Event)
    requires DeliveryOk(s)
    ensures Out(Step(s, e)) == Out(s) + Entering(s, e)
  {
    if s.uart.Fresh? {
      StepFromFresh(s, e);
    } else if e.Receive? {
      ReceiveSends(s, e.data, e.cell);
    } else if e.UartStep? {
      UartSends(s);
    }
  }

  lemma ReceiveSends(s: State, data: seq<byte>, cell: Option<nat>)
    requires !s.uart.Fresh?
    ensures Out(OnReceive(s, data, cell)) == Out(s) + Entering(s, Receive(data, cell))
  {}

  lemma UartSends(s: State)
    requires !s.uart.Fresh?
    ensures Out(OnUart(s)) == Out(s)
  {}

  lemma StepFromFresh(s: State, e: Event)
    requires DeliveryOk(s) && s.uart.Fresh?
    ensures Out(Step(s, e)) == Out(s)
  {
    var t := Step(s, e);
    UartIsLive(s);
    StepKeepsMemory(s, e);
    if e.Done? && t != s {
      UartIsLive(t);
      ReleaseSame(s.heap, s.used, s.clients[e.q].held.value);
      assert SameAt(s.heap, t.heap, s.uart.a);
    }
  }

  lemma {:induction false} SentIsAdmitted(s: State, events: seq<Event>)
    requires DeliveryOk(s)
    ensures Out(Run(s, events)) == Out(s) + AdmittedData(Arrivals(s, events))
    decreases |events|
  {
    if events != [] {
      var e, rest := events[0], events[1..];
      StepSends(s, e);
      StepKeepsDelivery(s, e);
      SentIsAdmitted(Step(s, e), rest);
      ArrivalsStep(s, events);
      Regroup(Out(s), Entering(s, e), AdmittedData(Arrivals(Step(s, e), rest)));
    }
  }

  lemma Regroup(a: seq<seq<byte>>, b: seq<seq<byte>>, c: seq<seq<byte>>)
    ensures (a + b) + c == a + (b + c)
  {}

  lemma ArrivalsStep(s: State, events: seq<Event>)
    requires events != []
    ensures AdmittedData(Arrivals(s, events))
            == Entering(s, events[0]) + AdmittedData(Arrivals(Step(s, events[0]), events[1..]))
  {
    var e, more := events[0], Arrivals(Step(s, events[0]), events[1..]);
    if Comes(s, e) {
      AdmittedFirst(Arrival(e.data, s.used, Memory(s, e.cell)), more);
    } else {
      assert [] + more == more;
    }
  }

  /** In every run the messages sent to the queues are exactly those that came while no more than 10 KB were in use and
      there was memory, in order. */
  lemma SentExactly(events: seq<Event>)
    ensures var t := Run(Init(), events);
            t.sent + Waiting(t) == AdmittedData(Arrivals(Init(), events))
  {
    InitDelivery();
    SentIsAdmitted(Init(), events);
    assert Out(Init()) == [];
  }

  // ---------------------------------------------------------------- what one client gets

  lemma {:induction false} ClientStays(s: State, events: seq<Event>, q: nat)
    requires q < |s.clients|
    ensures var t := Run(s, events); q < |t.clients| && t.clients[q].since == s.clients[q].since
    decreases |events|
  {
    if events != [] {
      ClientStays(Step(s, events[0]), events[1..], q);
    }
  }

  predicate Admitted(s: State, cell: Option<nat>) {
    s.used <= 10240 && Memory(s, cell)
  }

  /** A message that comes while a client has its queue registered, and what has become of it when the UART thread is
      idle again and the queue is still registered: it was dropped without a trace if the budget was used up or there
      was no memory; otherwise it was sent, and the client has read it or has it in its queue if and only if that
      queue was not full when its turn came. */
  lemma ArrivalReaches(before: seq<Event>, data: seq<byte>, cell: Option<nat>, after: seq<Event>, q: nat)
    requires var s := Run(Init(), before);
             s.uart.Idle? && q < |s.clients| && s.clients[q].stage.Registered?
    requires var t := Run(Init(), before + [Receive(data, cell)] + after);
             t.uart.Idle? && q < |t.clients| && t.clients[q].stage.Registered?
    ensures var s, t := Run(Init(), before), Run(Init(), before + [Receive(data, cell)] + after);
            if Admitted(s, cell)
            then |s.sent| < |t.sent| && t.sent[|s.sent|] == data
                 && (|s.sent| in Accepted(t.clients[q].ops) <==> !TurnedAway(t.clients[q].ops, |s.sent|))
            else t == Run(Init(), before + after)
  {
    var s := Run(Init(), before);
    RunConcat(Init(), before, [Receive(data, cell)]);
    RunConcat(Init(), before + [Receive(data, cell)], after);
    RunConcat(Init(), before, after);
    RunOne(s, Receive(data, cell));
    InitDelivery();
    DeliveryAlwaysOk(Init(), before);
    if Admitted(s, cell) {
      AdmittedReaches(s, data, cell, after, q);
    }
  }

  lemma AdmittedReaches(s: State, data: seq<byte>, cell: Option<nat>, after: seq<Event>, q: nat)
    requires DeliveryOk(s) && s.uart.Idle? && q < |s.clients| && s.clients[q].stage.Registered? && Admitted(s, cell)
    requires var t := Run(Step(s, Receive(data, cell)), after);
             t.uart.Idle? && q < |t.clients| && t.clients[q].stage.Registered?
    ensures var t := Run(Step(s, Receive(data, cell)), after);
            && |s.sent| < |t.sent| && t.sent[|s.sent|] == data
            && (|s.sent| in Accepted(t.clients[q].ops) <==> !TurnedAway(t.clients[q].ops, |s.sent|))
  {
    var s1, x := Step(s, Receive(data, cell)), |s.sent|;
    AdmittedIsSent(s, data, cell, after, q);
    ClientStays(s1, after, q);
    JoinedBefore(s, q);
    StepKeepsDelivery(s, Receive(data, cell));
    DeliveryAlwaysOk(s1, after);
    SentOrMissed(Run(s1, after), q, x);
  }

  lemma AdmittedIsSent(s: State, data: seq<byte>, cell: Option<nat>, after: seq<Event>, q: nat)
    requires DeliveryOk(s) && s.uart.Idle? && q < |s.clients| && s.clients[q].stage.Registered? && Admitted(s, cell)
    requires Run(Step(s, Receive(data, cell)), after).uart.Idle?
    ensures var t := Run(Step(s, Receive(data, cell)), after);
            |s.sent| < |t.sent| && t.sent[|s.sent|] == data
  {
    var s1 := Step(s, Receive(data, cell));
    StepKeepsDelivery(s, Receive(data, cell));
    SomeQueue(s, q);
    ReceiveSends(s, data, cell);
    SentIsAdmitted(s1, after);
    assert Out(s1) == s.sent + [data];
    assert Run(s1, after).sent == s.sent + [data] + AdmittedData(Arrivals(s1, after));
  }

  lemma SomeQueue(s: State, q: nat)
    requires SlotsOk(s) && q < |s.clients| && s.clients[q].stage.Registered?
    ensures !NoQueue(s.slots)
  {
    assert s.slots[s.clients[q].slot] == Some(q);
  }

  lemma JoinedBefore(s: State, q: nat)
    requires DeliveryOk(s) && q < |s.clients|
    ensures s.clients[q].since <= |s.sent|
  {
    assert OffersOk(s.clients[q], |s.sent|, s.uart);
  }

  /** A registered client has been offered everything sent since it joined. */
  lemma SentOrMissed(t: State, q: nat, x: nat)
    requires DeliveryOk(t) && t.uart.Idle? && q < |t.clients| && t.clients[q].stage.Registered?
    requires t.clients[q].since <= x < |t.sent|
    ensures x in Accepted(t.clients[q].ops) <==> !TurnedAway(t.clients[q].ops, x)
  {
    assert OffersOk(t.clients[q], |t.sent|, t.uart);
    MissedExactly(t.clients[q].ops, t.clients[q].since, x);
  }

  // ---------------------------------------------------------------- when the budget is enough

  /** The places in which a client can keep messages, and the messages there. */
  function Places(clients: seq<Client>): nat {
    if clients == [] then 0
    else |clients[0].queue| + (if clients[0].held.Some? then 1 else 0) + Places(clients[1..])
  }

  function Elements(clients: seq<Client>): set<nat> {
    if clients == [] then {}
    else ElementsOf(clients[0]) + Elements(clients[1..])
  }

  function ElementsOf(c: Client): set<nat> {
    Members(c.queue) + if c.held.Some? then {c.held.value} else {}
  }

  lemma UnionSize(a: set<nat>, b: set<nat>)
    ensures |a + b| <= |a| + |b|
  {
    assert a + b == a + (b - a);
    Subset(b - a, b);
  }

  function Members(queue: seq<nat>): set<nat> {
    set a | a in queue
  }

  lemma {:induction false} QueueSize(queue: seq<nat>)
    ensures |Members(queue)| <= |queue|
  {
    if queue == [] {
      assert Members(queue) == {};
    } else {
      QueueSize(queue[1..]);
      assert Members(queue) == {queue[0]} + Members(queue[1..]);
      UnionSize({queue[0]}, Members(queue[1..]));
    }
  }

  lemma {:induction false} ElementsFit(clients: seq<Client>)
    ensures |Elements(clients)| <= Places(clients)
  {
    if clients != [] {
      var c := clients[0];
      QueueSize(c.queue);
      UnionSize(Members(c.queue), if c.held.Some? then {c.held.value} else {});
      UnionSize(ElementsOf(c), Elements(clients[1..]));
      ElementsFit(clients[1..]);
    }
  }

  lemma {:induction false} ReferredTo(clients: seq<Client>, a: nat)
    requires Refs(clients, a) > 0
    ensures a in Elements(clients)
  {
    var c := clients[0];
    if RefsOf(c, a) == 0 {
      ReferredTo(clients[1..], a);
    } else {
      assert a in c.queue || c.held == Some(a);
    }
  }

  /** The clients that have not gone. */
  function Active(clients: seq<Client>): nat {
    if clients == [] then 0 else (if clients[0].stage.Gone? then 0 else 1) + Active(clients[1..])
  }

  /** A queue has eight places, the client one more; those that have gone hold nothing. */
  ghost predicate PlacesOk(c: Client) {
    |c.queue| <= 8 && (c.stage.Gone? ==> c.queue == [] && c.held == None)
  }

  lemma {:induction false} NinePlaces(clients: seq<Client>)
    requires forall q :: 0 <= q < |clients| ==> PlacesOk(clients[q])
    ensures Places(clients) <= 9 * Active(clients)
  {
    if clients != [] {
      assert forall q :: 0 <= q < |clients[1..]| ==> clients[1..][q] == clients[q + 1];
      NinePlaces(clients[1..]);
      assert PlacesOk(clients[0]);
    }
  }

  ghost predicate AllPlacesOk(s: State) {
    forall q :: 0 <= q < |s.clients| ==> PlacesOk(s.clients[q])
  }

  lemma StepKeepsPlaces(s: State, e: Event)
    requires AllPlacesOk(s) && SlotsOk(s)
    ensures AllPlacesOk(Step(s, e))
  {
    var t := Step(s, e);
    forall q | 0 <= q < |t.clients|
      ensures PlacesOk(t.clients[q])
    {
      if q < |s.clients| {
        assert PlacesOk(s.clients[q]);
      }
    }
  }

  lemma {:induction false} PlacesAlwaysOk(s: State, events: seq<Event>)
    requires AllPlacesOk(s) && DeliveryOk(s)
    ensures AllPlacesOk(Run(s, events))
    decreases |events|
  {
    if events != [] {
      StepKeepsPlaces(s, events[0]);
      StepKeepsDelivery(s, events[0]);
      PlacesAlwaysOk(Step(s, events[0]), events[1..]);
    }
  }

  ghost predicate AllShort(heap: seq<Cell>, longest: nat) {
    forall a :: 0 <= a < |heap| && heap[a].Live? ==> |heap[a].msg.data| <= longest
  }

  lemma {:induction false} AlwaysShort(s: State, events: seq<Event>, longest: nat)
    requires AllShort(s.heap, longest) && forall i :: 0 <= i < |events| ==> Short(events[i], longest)
    ensures AllShort(Run(s, events).heap, longest)
    decreases |events|
  {
    if events != [] {
      AlwaysShort(Step(s, events[0]), events[1..], longest);
    }
  }

  function LiveBelow(heap: seq<Cell>, n: nat): set<nat>
    requires n <= |heap|
  {
    set a: nat | a < n && heap[a].Live?
  }

  lemma OneMoreCell(heap: seq<Cell>, n: nat)
    requires n < |heap|
    ensures |LiveBelow(heap, n + 1)| == |LiveBelow(heap, n)| + if heap[n].Live? then 1 else 0
  {
    var live := LiveBelow(heap, n);
    assert LiveBelow(heap, n + 1) == if heap[n].Live? then live + {n} else live;
  }

  lemma Distribute(k: nat, n: nat)
    ensures k * (n + 1) == k * n + k
  {}

  lemma {:induction false} TotalBound(heap: seq<Cell>, n: nat, longest: nat)
    requires n <= |heap| && AllShort(heap, longest)
    ensures Total(heap[..n]) <= (11 + longest) * |LiveBelow(heap, n)|
  {
    if n > 0 {
      TotalBound(heap, n - 1, longest);
      TotalAppend(heap[..n - 1], heap[n - 1]);
      assert heap[..n] == heap[..n - 1] + [heap[n - 1]];
      OneMoreCell(heap, n - 1);
      Distribute(11 + longest, |LiveBelow(heap, n - 1)|);
    } else {
      assert heap[..0] == [];
    }
  }

  /** While the UART thread is idle the bytes in use are at most nine messages for every client that has not gone. */
  lemma UsedBound(events: seq<Event>, longest: nat)
    requires forall i :: 0 <= i < |events| ==> Short(events[i], longest)
    ensures var s := Run(Init(), events);
            s.uart.Idle? ==> s.used <= (11 + longest) * (9 * Active(s.clients))
  {
    var s := Run(Init(), events);
    InitMemory();
    InitDelivery();
    MemoryAlwaysOk(Init(), events);
    PlacesAlwaysOk(Init(), events);
    AlwaysShort(Init(), events, longest);
    if s.uart.Idle? {
      LiveHeld(s);
      var live := LiveBelow(s.heap, |s.heap|);
      TotalBound(s.heap, |s.heap|, longest);
      assert s.heap[..|s.heap|] == s.heap;
      ElementsFit(s.clients);
      NinePlaces(s.clients);
      Monotone(11 + longest, |live|, 9 * Active(s.clients));
    }
  }

  lemma LiveHeld(s: State)
    requires MemoryOk(s) && s.uart.Idle?
    ensures |LiveBelow(s.heap, |s.heap|)| <= |Elements(s.clients)|
  {
    var live := LiveBelow(s.heap, |s.heap|);
    forall a | a in live
      ensures a in Elements(s.clients)
    {
      assert CellOk(s.heap, a, Count(s.clients, s.uart, a), s.uart == Fresh(a));
      ReferredTo(s.clients, a);
    }
    Subset(live, Elements(s.clients));
  }

  lemma Subset(a: set<nat>, b: set<nat>)
    requires a <= b
    ensures |a| <= |b|
  {
    assert b == a + (b - a);
  }

  lemma Monotone(k: nat, a: nat, b: nat)
    requires a <= b
    ensures k * a <= k * b
  {
    assert k * b == k * a + k * (b - a);
  }

  /** With messages of a bounded length no message is ever refused for the budget as long as there are few enough
      clients. */
  lemma BudgetSuffices(events: seq<Event>, longest: nat, clients: nat)
    requires forall i :: 0 <= i < |events| ==> Short(events[i], longest)
    requires (11 + longest) * (9 * clients) <= 10240
    ensures var s := Run(Init(), events);
            s.uart.Idle? && Active(s.clients) <= clients ==> s.used <= 10240
  {
    UsedBound(events, longest);
    var n := Active(Run(Init(), events).clients);
    if n <= clients {
      Monotone(11 + longest, 9 * n, 9 * clients);
    }
  }

  /** The length of a package from the UART. */
  const UART_ONE_PACKAGE_LENGTH: nat := 1024

  /** For packages from the UART that is one client: alone it gets every message unless its own queue is full or there
      is no memory. */
  lemma OneClientIsNeverRefused(events: seq<Event>, cell: Option<nat>)
    requires forall i :: 0 <= i < |events| ==> Short(events[i], UART_ONE_PACKAGE_LENGTH)
    ensures var s := Run(Init(), events);
            s.uart.Idle? && Active(s.clients) <= 1 ==> (Admitted(s, cell) <==> Memory(s, cell))
  {
    BudgetSuffices(events, UART_ONE_PACKAGE_LENGTH, 1);
  }

  // ---------------------------------------------------------------- when it is not

  lemma RunNext(s: State, events: seq<Event>, e: Event, t: State)
    requires Step(Run(s, events), e) == t
    ensures Run(s, events + [e]) == t
  {
    RunConcat(s, events, [e]);
    RunOne(Run(s, events), e);
  }

  function Joined(slot: nat): Client {
    Client(Registered, [], None, slot, 0, [], [])
  }

  /** Two clients, and one message with a number of references. */
  function Shared(data: seq<byte>, refs: int, first: Client, second: Client, u: Uart): State {
    var slots := [Some(0), Some(1), None, None, None, None];
    State([Live(Msg(refs, data, 0))], 11 + |data|, slots, [first, second], u, [data])
  }

  lemma TwoJoin()
    ensures Run(Init(), [Create, Create])
            == State([], 0, [Some(0), Some(1), None, None, None, None], [Joined(0), Joined(1)], Idle, [])
  {
    var one := State([], 0, [Some(0), None, None, None, None, None], [Joined(0)], Idle, []);
    FirstFreeIs(Init().slots, 0);
    FirstFreeIs(one.slots, 1);
    assert Step(Init(), Create) == one;
    RunOne(Init(), Create);
    RunNext(Init(), [Create], Create,
            State([], 0, [Some(0), Some(1), None, None, None, None], [Joined(0), Joined(1)], Idle, []));
    assert [Create] + [Create] == [Create, Create];
  }

  /** The queue that was offered the message. */
  function Holding(slot: nat): Client {
    Offered(Joined(slot), 0, 0)
  }

  lemma FirstHalf(data: seq<byte>)
    ensures Run(Init(), [Create, Create] + [Receive(data, Some(0))] + UartSteps(3))
            == Shared(data, 2, Holding(0), Joined(1), At(0, 1))
  {
    TwoJoin();
    var s := Run(Init(), [Create, Create]);
    var unseen := State([Live(Msg(0, data, 0))], 11 + |data|, s.slots, s.clients, Fresh(0), []);
    assert s.slots[0] == Some(0);
    RunNext(Init(), [Create, Create], Receive(data, Some(0)), unseen);
    RunConcat(Init(), [Create, Create] + [Receive(data, Some(0))], UartSteps(3));
    var s1 := Shared(data, 1, Joined(0), Joined(1), At(0, 0));
    assert OnLock(unseen) == s1;
    var s2 := Shared(data, 2, Joined(0), Joined(1), Taken(0, 0));
    assert OnSlot(s1) == s2;
    assert OnPush(s2) == Shared(data, 2, Holding(0), Joined(1), At(0, 1));
    ThreeSteps(unseen);
  }

  lemma ThreeSteps(s: State)
    ensures Run(s, UartSteps(3)) == OnUart(OnUart(OnUart(s)))
  {
    OneUartStep(s);
    OneUartStep(OnUart(s));
    OneUartStep(OnUart(OnUart(s)));
    MoreUartSteps(s, 1, 1);
    MoreUartSteps(s, 2, 1);
  }

  lemma SecondHalf(data: seq<byte>)
    ensures Run(Shared(data, 2, Holding(0), Joined(1), At(0, 1)), UartSteps(7))
            == Shared(data, 2, Holding(0), Holding(1), Idle)
  {
    var s := Shared(data, 2, Holding(0), Joined(1), At(0, 1));
    var s1 := Shared(data, 3, Holding(0), Joined(1), Taken(0, 1));
    var s2 := Shared(data, 3, Holding(0), Holding(1), At(0, 2));
    assert OnSlot(s) == s1;
    assert OnPush(s1) == s2;
    assert OnSlot(s2) == s2.(uart := At(0, 3));
    ThreeSteps(s);
    assert OnSlot(s2.(uart := At(0, 3))) == s2.(uart := At(0, 4));
    assert OnSlot(s2.(uart := At(0, 4))) == s2.(uart := At(0, 5));
    assert OnSlot(s2.(uart := At(0, 5))) == s2.(uart := At(0, 6));
    ThreeSteps(s2.(uart := At(0, 3)));
    MoreUartSteps(s, 3, 3);
    assert OnSlot(s2.(uart := At(0, 6))) == Shared(data, 2, Holding(0), Holding(1), Idle);
    OneUartStep(s2.(uart := At(0, 6)));
    MoreUartSteps(s, 6, 1);
  }

  /** What the first client has become once it has read the message and freed it. */
  function HasRead(data: seq<byte>): Client {
    Client(Registered, [], None, 0, 0, [Offer(0), Take], [data])
  }

  lemma ReadAndFreed(data: seq<byte>)
    ensures Step(Step(Shared(data, 2, Holding(0), Holding(1), Idle), Pop(0)), Done(0))
            == Shared(data, 1, HasRead(data), Holding(1), Idle)
  {
    var c := Holding(0);
    var s := Shared(data, 2, c, Holding(1), Idle);
    assert c.queue == [0] && c.queue[1..] == [] && c.ops == [Offer(0)] && c.ops + [Take] == [Offer(0), Take];
    assert c.read + [data] == [data];
    var popped := Client(Registered, [], Some(0), 0, 0, [Offer(0), Take], [data]);
    assert Step(s, Pop(0)) == s.(clients := [popped, Holding(1)]);
    assert s.clients[0 := popped] == [popped, Holding(1)];
    assert s.heap[0 := Live(Msg(1, data, 0))] == [Live(Msg(1, data, 0))];
    var u := s.(clients := [popped, Holding(1)]);
    assert u.clients[0 := HasRead(data)] == [HasRead(data), Holding(1)];
  }

  /** The run: both clients join, a message comes, and only the first of them reads it. */
  function OneLags(data: seq<byte>): seq<Event> {
    [Create, Create] + [Receive(data, Some(0))] + UartSteps(3) + UartSteps(7) + [Pop(0)] + [Done(0)]
  }

  /** Other clients do matter: after it the first client has an empty queue and there is memory, and yet the next
      message is dropped for it too, because the second client still holds more than the budget. */
  lemma OthersMatter(data: seq<byte>, next: seq<byte>)
    requires 11 + |data| > 10240
    ensures var s := Run(Init(), OneLags(data));
            && s.uart.Idle? && |s.clients| == 2
            && s.clients[0].stage.Registered? && s.clients[0].queue == [] && s.clients[0].held == None
            && Memory(s, Some(1)) && Step(s, Receive(next, Some(1))) == s
  {
    var events := [Create, Create] + [Receive(data, Some(0))] + UartSteps(3);
    FirstHalf(data);
    SecondHalf(data);
    RunConcat(Init(), events, UartSteps(7));
    var s := Shared(data, 2, Holding(0), Holding(1), Idle);
    RunNext(Init(), events + UartSteps(7), Pop(0), Step(s, Pop(0)));
    ReadAndFreed(data);
    RunNext(Init(), events + UartSteps(7) + [Pop(0)], Done(0), Shared(data, 1, HasRead(data), Holding(1), Idle));
  }
}
