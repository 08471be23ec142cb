/** The UART-to-socket bridge: every message from the UART is shared, with a reference count, by up to six bounded
    client queues.

    The UART thread and the client threads interleave; the atomic steps are the take, the free, the push, the pop and
    the critical sections of the queue mutex. */
module SppBridge {
  import opened Bytes
  import opened Tables

  const MAX_QUEUE_NUM: nat := 6
  const MAX_QUEUE_LENGTH: nat := 8
  const MAX_SOCK_MSG_LEN: int := 10 * 1024
  const HEADER: nat := 11

  /** `serial` is bookkeeping: the position of the message among all that were sent. */
  datatype Msg = Msg(ref: int, data: seq<byte>, serial: nat)

  datatype Cell = Free | Live(msg: Msg)

  /** What happened to one queue, in order: it was offered a message, or a message was taken from it. */
  datatype Op = Offer(serial: nat) | Take

  /** A client has its queue in a slot, or is emptying it after having taken it out of the slot, or has gone. */
  datatype Stage = Registered | Draining | Gone

  /** `held` is a message popped and not yet freed.  The rest is bookkeeping: the slot it was given, the number of
      messages sent before that, the history of the queue, and the data of the messages popped. */
  datatype Client = Client(
    stage: Stage, queue: seq<nat>, held: Option<nat>, slot: nat, since: nat, ops: seq<Op>, read: seq<seq<byte>>)

  /** Where the UART thread is in sppUartCommandProcess: waiting for the mutex with a fresh message; at slot `i`; with a
      reference taken for the queue in slot `i`; or turned down by that queue. */
  datatype Uart = Idle | Fresh(a: nat) | At(a: nat, i: nat) | Taken(a: nat, i: nat) | Refused(a: nat, i: nat)

  datatype State = State(
    heap: seq<Cell>, used: int, slots: seq<Option<nat>>, clients: seq<Client>, uart: Uart, sent: seq<seq<byte>>)

  function Init(): State {
    State([], 0, [None, None, None, None, None, None], [], Idle, [])
  }

  function Size(m: Msg): nat {
    HEADER + |m.data|
  }

  predicate IsLive(heap: seq<Cell>, a: nat) {
    a < |heap| && heap[a].Live?
  }

  /** socket_msg_take */
  function Retain(heap: seq<Cell>, a: nat): (r: seq<Cell>)
    ensures |r| == |heap|
  {
    if IsLive(heap, a) then heap[a := Live(heap[a].msg.(ref := heap[a].msg.ref + 1))] else heap
  }

  /** socket_msg_free: the heap and the bytes in use. */
  function Release(heap: seq<Cell>, used: int, a: nat): (seq<Cell>, int) {
    if !IsLive(heap, a) then (heap, used)
    else
      var m := heap[a].msg;
      if m.ref - 1 == 0 then (heap[a := Free], used - Size(m)) else (heap[a := Live(m.(ref := m.ref - 1))], used)
  }

  predicate Locked(u: Uart) {
    u.At? || u.Taken? || u.Refused?
  }

  predicate NoQueue(slots: seq<Option<nat>>) {
    forall i :: 0 <= i < |slots| ==> slots[i] == None
  }

  /** malloc may give any free cell, and may fail. */
  predicate Available(heap: seq<Cell>, a: nat) {
    a == |heap| || (a < |heap| && heap[a].Free?)
  }

  function Put(heap: seq<Cell>, a: nat, m: Msg): seq<Cell>
    requires Available(heap, a)
  {
    if a == |heap| then heap + [Live(m)] else heap[a := Live(m)]
  }

  datatype Event =
    | Receive(data: seq<byte>, cell: Option<nat>) | UartStep
    | Create | Pop(q: nat) | Done(q: nat) | Delete(q: nat) | Deinit(q: nat)

  /** A message arrives. */
  function OnReceive(s: State, data: seq<byte>, cell: Option<nat>): State {
    if s.uart != Idle || NoQueue(s.slots) || MAX_SOCK_MSG_LEN < s.used then s
    else if cell == None || !Available(s.heap, cell.value) then s
    else
      s.(heap := Put(s.heap, cell.value, Msg(0, data, 0)), used := s.used + HEADER + |data|, uart := Fresh(cell.value))
  }

  /** The mutex is taken, and the first reference. */
  function OnLock(s: State): State
    requires s.uart.Fresh?
  {
    var a := s.uart.a;
    if !IsLive(s.heap, a) then s
    else
      s.(heap := Retain(s.heap[a := Live(s.heap[a].msg.(serial := |s.sent|))], a), uart := At(a, 0),
         sent := s.sent + [s.heap[a].msg.data])
  }

  /** The next slot, or the end: the last reference is given up and the mutex released. */
  function OnSlot(s: State): State
    requires s.uart.At?
  {
    var a, i := s.uart.a, s.uart.i;
    if i >= |s.slots| then
      var (heap, used) := Release(s.heap, s.used, a);
      s.(heap := heap, used := used, uart := Idle)
    else if s.slots[i] == None then s.(uart := At(a, i + 1))
    else s.(heap := Retain(s.heap, a), uart := Taken(a, i))
  }

  /** mico_rtos_push_to_queue without waiting */
  function Offered(c: Client, a: nat, serial: nat): Client {
    c.(queue := if |c.queue| < MAX_QUEUE_LENGTH then c.queue + [a] else c.queue, ops := c.ops + [Offer(serial)])
  }

  function OnPush(s: State): State
    requires s.uart.Taken?
  {
    var a, i := s.uart.a, s.uart.i;
    if i >= |s.slots| || s.slots[i] == None || s.slots[i].value >= |s.clients| || !IsLive(s.heap, a) then s
    else
      var q := s.slots[i].value;
      s.(clients := s.clients[q := Offered(s.clients[q], a, s.heap[a].msg.serial)],
         uart := if |s.clients[q].queue| < MAX_QUEUE_LENGTH then At(a, i + 1) else Refused(a, i))
  }

  function OnRefused(s: State): State
    requires s.uart.Refused?
  {
    var (heap, used) := Release(s.heap, s.used, s.uart.a);
    s.(heap := heap, used := used, uart := At(s.uart.a, s.uart.i + 1))
  }

  function OnUart(s: State): State {
    match s.uart
    case Idle => s
    case Fresh(_) => OnLock(s)
    case At(_, _) => OnSlot(s)
    case Taken(_, _) => OnPush(s)
    case Refused(_, _) => OnRefused(s)
  }

  /** socket_queue_create */
  function OnCreate(s: State): State {
    if Locked(s.uart) then s
    else
      var i := FirstFree(s.slots);
      if i == |s.slots| then s.(clients := s.clients + [Client(Gone, [], None, i, |s.sent|, [], [])])
      else
        s.(clients := s.clients + [Client(Registered, [], None, i, |s.sent|, [], [])],
           slots := s.slots[i := Some(|s.clients|)])
  }

  /** mico_rtos_pop_from_queue */
  function OnPop(s: State, q: nat): State {
    if q >= |s.clients| || s.clients[q].stage.Gone? || s.clients[q].held != None || s.clients[q].queue == [] then s
    else
      var c := s.clients[q];
      var a := c.queue[0];
      var data := if IsLive(s.heap, a) then s.heap[a].msg.data else [];
      s.(clients := s.clients[q :=
        c.(queue := c.queue[1..], held := Some(a), ops := c.ops + [Take], read := c.read + [data])])
  }

  /** The client frees what it popped. */
  function OnDone(s: State, q: nat): State {
    if q >= |s.clients| || s.clients[q].held == None then s
    else
      var (heap, used) := Release(s.heap, s.used, s.clients[q].held.value);
      s.(heap := heap, used := used, clients := s.clients[q := s.clients[q].(held := None)])
  }

  function Without(slots: seq<Option<nat>>, q: nat): (r: seq<Option<nat>>)
    ensures |r| == |slots|
  {
    seq(|slots|, i requires 0 <= i < |slots| => if slots[i] == Some(q) then None else slots[i])
  }

  /** socket_queue_delete, the part under the mutex; what follows are pops and frees. */
  function OnDelete(s: State, q: nat): State {
    if Locked(s.uart) || q >= |s.clients| || !s.clients[q].stage.Registered? || s.clients[q].held != None then s
    else s.(slots := Without(s.slots, q), clients := s.clients[q := s.clients[q].(stage := Draining)])
  }

  function OnDeinit(s: State, q: nat): State {
    if q >= |s.clients| || !s.clients[q].stage.Draining? || s.clients[q].queue != [] || s.clients[q].held != None then s
    else s.(clients := s.clients[q := s.clients[q].(stage := Gone)])
  }

  function Step(s: State, e: Event): State {
    match e
    case Receive(data, cell) => OnReceive(s, data, cell)
    case UartStep => OnUart(s)
    case Create => OnCreate(s)
    case Pop(q) => OnPop(s, q)
    case Done(q) => OnDone(s, q)
    case Delete(q) => OnDelete(s, q)
    case Deinit(q) => OnDeinit(s, q)
  }

  function Run(s: State, events: seq<Event>): State
    decreases |events|
  {
    if events == [] then s else Run(Step(s, events[0]), events[1..])
  }
}
