/** Reference counts and the byte budget of the bridge: what every step keeps. */
module SppMemory {
  import opened Bytes
  import opened Tables
  import opened SppBridge

  // ---------------------------------------------------------------- counting

  function Occurs(queue: seq<nat>, a: nat): nat {
    multiset(queue)[a]
  }

  /** The references of one client: the places of its queue, and what it holds. */
  function RefsOf(c: Client, a: nat): nat {
    Occurs(c.queue, a) + if c.held == Some(a) then 1 else 0
  }

  function Refs(clients: seq<Client>, a: nat): nat {
    if clients == [] then 0 else RefsOf(clients[0], a) + Refs(clients[1..], a)
  }

  /** The references of the UART thread. */
  function UartRefs(u: Uart, a: nat): nat {
    match u
    case Idle => 0
    case Fresh(_) => 0
    case At(b, _) => if a == b then 1 else 0
    case Taken(b, _) => if a == b then 2 else 0
    case Refused(b, _) => if a == b then 2 else 0
  }

  function Count(clients: seq<Client>, u: Uart, a: nat): nat {
    Refs(clients, a) + UartRefs(u, a)
  }

  function Total(heap: seq<Cell>): int {
    if heap == [] then 0 else (if heap[0].Live? then 11 + |heap[0].msg.data| else 0) + Total(heap[1..])
  }

  function SizeOf(cell: Cell): nat {
    if cell.Live? then Size(cell.msg) else 0
  }

  lemma {:induction false} RefsUpdate(clients: seq<Client>, q: nat, c: Client, a: nat)
    requires q < |clients|
    ensures Refs(clients[q := c], a) == Refs(clients, a) - RefsOf(clients[q], a) + RefsOf(c, a)
  {
    if q == 0 {
      assert clients[q := c][1..] == clients[1..];
    } else {
      assert clients[q := c][1..] == clients[1..][q - 1 := c];
      RefsUpdate(clients[1..], q - 1, c, a);
    }
  }

  lemma {:induction false} RefsAppend(clients: seq<Client>, c: Client, a: nat)
    ensures Refs(clients + [c], a) == Refs(clients, a) + RefsOf(c, a)
  {
    if clients == [] {
      assert clients + [c] == [c];
    } else {
      assert (clients + [c])[1..] == clients[1..] + [c];
      RefsAppend(clients[1..], c, a);
    }
  }

  lemma {:induction false} RefsAtLeast(clients: seq<Client>, q: nat, a: nat)
    requires q < |clients|
    ensures Refs(clients, a) >= RefsOf(clients[q], a)
  {
    if q > 0 {
      RefsAtLeast(clients[1..], q - 1, a);
    }
  }

  lemma {:induction false} NoRefs(clients: seq<Client>, a: nat)
    requires forall q :: 0 <= q < |clients| ==> RefsOf(clients[q], a) == 0
    ensures Refs(clients, a) == 0
  {
    if clients != [] {
      assert forall q :: 0 <= q < |clients[1..]| ==> clients[1..][q] == clients[q + 1];
      NoRefs(clients[1..], a);
    }
  }

  lemma {:induction false} TotalUpdate(heap: seq<Cell>, a: nat, cell: Cell)
    requires a < |heap|
    ensures Total(heap[a := cell]) == Total(heap) - SizeOf(heap[a]) + SizeOf(cell)
  {
    if a == 0 {
      assert heap[a := cell][1..] == heap[1..];
    } else {
      assert heap[a := cell][1..] == heap[1..][a - 1 := cell];
      TotalUpdate(heap[1..], a - 1, cell);
    }
  }

  lemma {:induction false} TotalAppend(heap: seq<Cell>, cell: Cell)
    ensures Total(heap + [cell]) == Total(heap) + SizeOf(cell)
  {
    if heap == [] {
      assert heap + [cell] == [cell];
    } else {
      assert (heap + [cell])[1..] == heap[1..] + [cell];
      TotalAppend(heap[1..], cell);
    }
  }

  lemma {:induction false} NothingLive(heap: seq<Cell>)
    requires forall a: nat :: !IsLive(heap, a)
    ensures Total(heap) == 0
  {
    if heap != [] {
      assert !IsLive(heap, 0);
      forall a: nat
        ensures !IsLive(heap[1..], a)
      {
        assert !IsLive(heap, a + 1);
      }
      NothingLive(heap[1..]);
    }
  }

  // ---------------------------------------------------------------- the invariant

  /** A live message has as many references as its count says, and none exactly when it is the one the UART thread has
      just allocated; what is not live has none. */
  ghost predicate CellOk(heap: seq<Cell>, a: nat, count: nat, unseen: bool) {
    if IsLive(heap, a) then heap[a].msg.ref == count && (count == 0 <==> unseen) else count == 0 && !unseen
  }

  ghost predicate RefsOk(heap: seq<Cell>, clients: seq<Client>, u: Uart) {
    forall a: nat :: CellOk(heap, a, Count(clients, u, a), u == Fresh(a))
  }

  ghost predicate MemoryOk(s: State) {
    RefsOk(s.heap, s.clients, s.uart) && s.used == Total(s.heap)
  }

  /** What a client can reach is live. */
  lemma ReachableIsLive(s: State, q: nat, a: nat)
    requires RefsOk(s.heap, s.clients, s.uart) && q < |s.clients|
    requires a in s.clients[q].queue || s.clients[q].held == Some(a)
    ensures IsLive(s.heap, a)
  {
    RefsAtLeast(s.clients, q, a);
    assert CellOk(s.heap, a, Count(s.clients, s.uart, a), s.uart == Fresh(a));
  }

  lemma UartIsLive(s: State)
    requires RefsOk(s.heap, s.clients, s.uart) && !s.uart.Idle?
    ensures IsLive(s.heap, s.uart.a)
  {
    var a := s.uart.a;
    assert CellOk(s.heap, a, Count(s.clients, s.uart, a), s.uart == Fresh(a));
  }

  // ---------------------------------------------------------------- what take and free do

  lemma RetainKeeps(heap: seq<Cell>, b: nat, clients: seq<Client>, u: Uart, u': Uart)
    requires RefsOk(heap, clients, u) && IsLive(heap, b)
    requires forall a: nat :: UartRefs(u', a) == UartRefs(u, a) + if a == b then 1 else 0
    requires !u'.Fresh? && (u.Fresh? ==> u == Fresh(b))
    ensures RefsOk(Retain(heap, b), clients, u') && Total(Retain(heap, b)) == Total(heap)
  {
    TotalUpdate(heap, b, Live(heap[b].msg.(ref := heap[b].msg.ref + 1)));
    forall a: nat
      ensures CellOk(Retain(heap, b), a, Count(clients, u', a), false)
    {
      assert CellOk(heap, a, Count(clients, u, a), u == Fresh(a));
    }
  }

  /** Freeing gives up one reference; the last one frees the message and its bytes. */
  lemma ReleaseKeeps(heap: seq<Cell>, used: int, b: nat, clients: seq<Client>, u: Uart, clients': seq<Client>, u': Uart)
    requires RefsOk(heap, clients, u) && used == Total(heap) && IsLive(heap, b)
    requires forall a: nat :: Count(clients', u', a) == Count(clients, u, a) - if a == b then 1 else 0
    requires (u.Fresh? || u'.Fresh?) ==> u == u' && u != Fresh(b)
    ensures var (heap', used') := Release(heap, used, b); RefsOk(heap', clients', u') && used' == Total(heap')
  {
    var (heap', used') := Release(heap, used, b);
    var m := heap[b].msg;
    TotalUpdate(heap, b, Cell.Free);
    TotalUpdate(heap, b, Live(m.(ref := m.ref - 1)));
    forall a: nat
      ensures CellOk(heap', a, Count(clients', u', a), u' == Fresh(a))
    {
      assert CellOk(heap, a, Count(clients, u, a), u == Fresh(a));
    }
  }

  /** A step that moves references about without making or dropping any. */
  lemma SameCounts(heap: seq<Cell>, clients: seq<Client>, u: Uart, clients': seq<Client>, u': Uart)
    requires RefsOk(heap, clients, u)
    requires forall a: nat :: Count(clients', u', a) == Count(clients, u, a)
    requires (u.Fresh? || u'.Fresh?) ==> u == u'
    ensures RefsOk(heap, clients', u')
  {
    forall a: nat
      ensures CellOk(heap, a, Count(clients', u', a), u' == Fresh(a))
    {
      assert CellOk(heap, a, Count(clients, u, a), u == Fresh(a));
    }
  }

  // ---------------------------------------------------------------- every step keeps it

  lemma ReceiveKeeps(s: State, data: seq<byte>, cell: Option<nat>)
    requires MemoryOk(s)
    ensures MemoryOk(OnReceive(s, data, cell))
  {
    var t := OnReceive(s, data, cell);
    if t.uart != s.uart {
      var b, m := cell.value, Msg(0, data, 0);
      if b == |s.heap| {
        TotalAppend(s.heap, Live(m));
      } else {
        TotalUpdate(s.heap, b, Live(m));
      }
      forall a: nat
        ensures CellOk(t.heap, a, Count(t.clients, t.uart, a), t.uart == Fresh(a))
      {
        assert CellOk(s.heap, a, Count(s.clients, s.uart, a), s.uart == Fresh(a));
      }
    }
  }

  lemma LockKeeps(s: State)
    requires MemoryOk(s) && s.uart.Fresh?
    ensures MemoryOk(OnLock(s))
  {
    UartIsLive(s);
    var b := s.uart.a;
    var named := s.heap[b := Live(s.heap[b].msg.(serial := |s.sent|))];
    TotalUpdate(s.heap, b, named[b]);
    forall a: nat
      ensures CellOk(named, a, Count(s.clients, s.uart, a), s.uart == Fresh(a))
    {
      assert CellOk(s.heap, a, Count(s.clients, s.uart, a), s.uart == Fresh(a));
    }
    RetainKeeps(named, b, s.clients, s.uart, At(b, 0));
  }

  lemma SlotKeeps(s: State)
    requires MemoryOk(s) && s.uart.At?
    ensures MemoryOk(OnSlot(s))
  {
    UartIsLive(s);
    var b, i := s.uart.a, s.uart.i;
    if i >= |s.slots| {
      ReleaseKeeps(s.heap, s.used, b, s.clients, s.uart, s.clients, Idle);
    } else if s.slots[i] == None {
      SameCounts(s.heap, s.clients, s.uart, s.clients, At(b, i + 1));
    } else {
      RetainKeeps(s.heap, b, s.clients, s.uart, Taken(b, i));
    }
  }

  lemma OfferedRefs(c: Client, b: nat, serial: nat, a: nat)
    ensures RefsOf(Offered(c, b, serial), a) == RefsOf(c, a) + if a == b && |c.queue| < MAX_QUEUE_LENGTH then 1 else 0
  {}

  lemma PushKeeps(s: State)
    requires MemoryOk(s) && s.uart.Taken?
    ensures MemoryOk(OnPush(s))
  {
    var b, i, t := s.uart.a, s.uart.i, OnPush(s);
    if t.uart != s.uart {
      var q := s.slots[i].value;
      forall a: nat
        ensures Count(t.clients, t.uart, a) == Count(s.clients, s.uart, a)
      {
        RefsUpdate(s.clients, q, t.clients[q], a);
        OfferedRefs(s.clients[q], b, s.heap[b].msg.serial, a);
      }
      SameCounts(s.heap, s.clients, s.uart, t.clients, t.uart);
    }
  }

  lemma RefusedKeeps(s: State)
    requires MemoryOk(s) && s.uart.Refused?
    ensures MemoryOk(OnRefused(s))
  {
    UartIsLive(s);
    ReleaseKeeps(s.heap, s.used, s.uart.a, s.clients, s.uart, s.clients, At(s.uart.a, s.uart.i + 1));
  }

  lemma CreateKeeps(s: State)
    requires MemoryOk(s)
    ensures MemoryOk(OnCreate(s))
  {
    var t := OnCreate(s);
    if t != s {
      var c := t.clients[|s.clients|];
      forall a: nat
        ensures Count(t.clients, t.uart, a) == Count(s.clients, s.uart, a)
      {
        RefsAppend(s.clients, c, a);
      }
      SameCounts(s.heap, s.clients, s.uart, t.clients, t.uart);
    }
  }

  /** Changing a client without changing its references. */
  lemma ClientKeeps(s: State, q: nat, c: Client)
    requires MemoryOk(s) && q < |s.clients|
    requires forall a: nat :: RefsOf(c, a) == RefsOf(s.clients[q], a)
    ensures RefsOk(s.heap, s.clients[q := c], s.uart)
  {
    forall a: nat
      ensures Count(s.clients[q := c], s.uart, a) == Count(s.clients, s.uart, a)
    {
      RefsUpdate(s.clients, q, c, a);
    }
    SameCounts(s.heap, s.clients, s.uart, s.clients[q := c], s.uart);
  }

  lemma PopKeeps(s: State, q: nat)
    requires MemoryOk(s)
    ensures MemoryOk(OnPop(s, q))
  {
    var t := OnPop(s, q);
    if t != s {
      var queue := s.clients[q].queue;
      assert queue == [queue[0]] + queue[1..];
      ClientKeeps(s, q, t.clients[q]);
    }
  }

  lemma DoneKeeps(s: State, q: nat)
    requires MemoryOk(s)
    ensures MemoryOk(OnDone(s, q))
  {
    if q < |s.clients| && s.clients[q].held != None {
      var b := s.clients[q].held.value;
      var c := s.clients[q].(held := None);
      ReachableIsLive(s, q, b);
      RefsAtLeast(s.clients, q, b);
      assert CellOk(s.heap, b, Count(s.clients, s.uart, b), s.uart == Fresh(b));
      forall a: nat
        ensures Count(s.clients[q := c], s.uart, a) == Count(s.clients, s.uart, a) - if a == b then 1 else 0
      {
        RefsUpdate(s.clients, q, c, a);
      }
      ReleaseKeeps(s.heap, s.used, b, s.clients, s.uart, s.clients[q := c], s.uart);
    }
  }

  lemma DeleteKeeps(s: State, q: nat)
    requires MemoryOk(s)
    ensures MemoryOk(OnDelete(s, q)) && MemoryOk(OnDeinit(s, q))
  {
    if OnDelete(s, q) != s {
      ClientKeeps(s, q, OnDelete(s, q).clients[q]);
    }
    if OnDeinit(s, q) != s {
      ClientKeeps(s, q, OnDeinit(s, q).clients[q]);
    }
  }

  lemma UartKeeps(s: State)
    requires MemoryOk(s)
    ensures MemoryOk(OnUart(s))
  {
    match s.uart
    case Idle =>
    case Fresh(_) => LockKeeps(s);
    case At(_, _) => SlotKeeps(s);
    case Taken(_, _) => PushKeeps(s);
    case Refused(_, _) => RefusedKeeps(s);
  }

  lemma StepKeepsMemory(s: State, e: Event)
    requires MemoryOk(s)
    ensures MemoryOk(Step(s, e))
  {
    match e
    case Receive(data, cell) => ReceiveKeeps(s, data, cell);
    case UartStep => UartKeeps(s);
    case Create => CreateKeeps(s);
    case Pop(q) => PopKeeps(s, q);
    case Done(q) => DoneKeeps(s, q);
    case Delete(q) => DeleteKeeps(s, q);
    case Deinit(q) => DeleteKeeps(s, q);
  }

  lemma InitMemory()
    ensures MemoryOk(Init())
  {}

  /** In every reachable state the count of a live message is the number of queue places that hold it plus the threads
      that do, nothing freed can be reached, and `used` is the sum over the live messages. */
  lemma {:induction false} MemoryAlwaysOk(s: State, events: seq<Event>)
    requires MemoryOk(s)
    ensures MemoryOk(Run(s, events))
    decreases |events|
  {
    if events != [] {
      StepKeepsMemory(s, events[0]);
      MemoryAlwaysOk(Step(s, events[0]), events[1..]);
    }
  }

  /** Nothing freed can be reached, by a client or by the UART thread. */
  lemma NeverDangling(events: seq<Event>, q: nat, a: nat)
    ensures var s := Run(Init(), events);
            && (q < |s.clients| && (a in s.clients[q].queue || s.clients[q].held == Some(a)) ==> IsLive(s.heap, a))
            && (!s.uart.Idle? ==> IsLive(s.heap, s.uart.a))
  {
    InitMemory();
    MemoryAlwaysOk(Init(), events);
    var s := Run(Init(), events);
    if q < |s.clients| && (a in s.clients[q].queue || s.clients[q].held == Some(a)) {
      ReachableIsLive(s, q, a);
    }
    if !s.uart.Idle? {
      UartIsLive(s);
    }
  }

  /** Nobody refers to anything. */
  predicate Quiet(s: State) {
    s.uart.Idle? && forall q :: 0 <= q < |s.clients| ==> s.clients[q].queue == [] && s.clients[q].held == None
  }

  /** Once all queues are empty and nothing is held, every message has been freed and the byte count is back at zero. */
  lemma NoLeak(events: seq<Event>)
    ensures var s := Run(Init(), events);
            Quiet(s) ==> s.used == 0 && forall a: nat :: !IsLive(s.heap, a)
  {
    InitMemory();
    MemoryAlwaysOk(Init(), events);
    var s := Run(Init(), events);
    if Quiet(s) {
      forall a: nat
        ensures !IsLive(s.heap, a)
      {
        NoRefs(s.clients, a);
        assert CellOk(s.heap, a, Count(s.clients, s.uart, a), s.uart == Fresh(a));
      }
      NothingLive(s.heap);
    }
  }

  // ---------------------------------------------------------------- the budget

  predicate Short(e: Event, longest: nat) {
    e.Receive? ==> |e.data| <= longest
  }

  lemma StepKeepsBudget(s: State, e: Event, longest: nat)
    requires MemoryOk(s) && Short(e, longest) && s.used <= 10240 + 11 + longest
    ensures Step(s, e).used <= 10240 + 11 + longest
  {
    if e.UartStep? && !s.uart.Idle? {
      UartIsLive(s);
    }
  }

  /** The budget is exceeded by at most one message. */
  lemma {:induction false} BudgetKept(s: State, events: seq<Event>, longest: nat)
    requires MemoryOk(s) && s.used <= 10240 + 11 + longest
    requires forall i :: 0 <= i < |events| ==> Short(events[i], longest)
    ensures Run(s, events).used <= 10240 + 11 + longest
    decreases |events|
  {
    if events != [] {
      StepKeepsMemory(s, events[0]);
      StepKeepsBudget(s, events[0], longest);
      BudgetKept(Step(s, events[0]), events[1..], longest);
    }
  }
}
