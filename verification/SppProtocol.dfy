/** The functions of SppProtocol.c as they run when no other thread gets in between: each is a sequence of the atomic
    steps of the bridge. */
module SppProtocol {
  import opened Bytes
  import opened Tables
  import opened SppBridge
  import opened SppMemory
  import opened SppDelivery

  lemma {:induction false} RunConcat(s: State, a: seq<Event>, b: seq<Event>)
    ensures Run(s, a + b) == Run(Run(s, a), b)
    decreases |a|
  {
    if a == [] {
      assert a + b == b;
    } else {
      assert (a + b)[1..] == a[1..] + b;
      RunConcat(Step(s, a[0]), a[1..], b);
    }
  }

  lemma RunOne(s: State, e: Event)
    ensures Run(s, [e]) == Step(s, e)
  {
    assert [e][1..] == [];
  }

  function UartSteps(n: nat): seq<Event> {
    seq(n, _ => UartStep)
  }

  lemma MoreUartSteps(s: State, n: nat, k: nat)
    ensures Run(Run(s, UartSteps(n)), UartSteps(k)) == Run(s, UartSteps(n + k))
  {
    assert UartSteps(n) + UartSteps(k) == UartSteps(n + k);
    RunConcat(s, UartSteps(n), UartSteps(k));
  }

  lemma OneUartStep(s: State)
    ensures Run(s, UartSteps(1)) == OnUart(s)
  {
    assert UartSteps(1) == [UartStep];
    RunOne(s, UartStep);
  }

  class Bridge {
    var heap: seq<Cell>
    var sockmsgLen: int
    var socketOutQueue: seq<Option<nat>>
    var clients: seq<Client>
    ghost var uart: Uart
    var sent: seq<seq<byte>>

    ghost function View(): State
      reads this
    {
      State(heap, sockmsgLen, socketOutQueue, clients, uart, sent)
    }

    /** sppProtocolInit */
    constructor ()
      ensures View() == Init()
    {
      heap, sockmsgLen, socketOutQueue := [], 0, [None, None, None, None, None, None];
      clients, uart, sent := [], Idle, [];
    }

    /** socket_msg_take */
    method SocketMsgTake(a: nat)
      requires IsLive(heap, a)
      modifies this`heap
      ensures heap == Retain(old(heap), a)
    {
      var m := heap[a].msg;
      heap := heap[a := Live(m.(ref := m.ref + 1))];
    }

    /** socket_msg_free */
    method SocketMsgFree(a: nat)
      requires IsLive(heap, a)
      modifies this`heap, this`sockmsgLen
      ensures (heap, sockmsgLen) == Release(old(heap), old(sockmsgLen), a)
    {
      var m := heap[a].msg.(ref := heap[a].msg.ref - 1);
      heap := heap[a := Live(m)];
      if m.ref == 0 {
        sockmsgLen := sockmsgLen - (HEADER + |m.data|);
        heap := heap[a := Cell.Free];
        assert heap == old(heap)[a := Cell.Free];
      }
    }

    /** mico_rtos_push_to_queue, without waiting */
    method PushToQueue(q: nat, a: nat) returns (ok: bool)
      requires q < |clients| && IsLive(heap, a)
      modifies this`clients
      ensures clients == old(clients)[q := Offered(old(clients)[q], a, heap[a].msg.serial)]
      ensures ok == (|old(clients)[q].queue| < MAX_QUEUE_LENGTH)
    {
      var c := clients[q];
      ok := |c.queue| < MAX_QUEUE_LENGTH;
      c := c.(ops := c.ops + [Offer(heap[a].msg.serial)]);
      clients := clients[q := if ok then c.(queue := c.queue + [a]) else c];
    }

    // The single steps of the UART thread.

    /** A slot in use: take a reference for its queue. */
    method TakeFor(i: nat, a: nat)
      requires uart == At(a, i) && i < |socketOutQueue| && socketOutQueue[i] != None && IsLive(heap, a)
      modifies this`heap, this`uart
      ensures View() == OnUart(old(View())) && uart == Taken(a, i)
    {
      SocketMsgTake(a);
      uart := Taken(a, i);
    }

    method SkipSlot(i: nat, a: nat)
      requires uart == At(a, i) && i < |socketOutQueue| && socketOutQueue[i] == None
      modifies this`uart
      ensures View() == OnUart(old(View())) && uart == At(a, i + 1)
    {
      uart := At(a, i + 1);
    }

    method Push(i: nat, a: nat, q: nat) returns (ok: bool)
      requires uart == Taken(a, i) && i < |socketOutQueue| && socketOutQueue[i] == Some(q)
      requires q < |clients| && IsLive(heap, a)
      modifies this`clients, this`uart
      ensures View() == OnUart(old(View())) && uart == if ok then At(a, i + 1) else Refused(a, i)
    {
      ok := PushToQueue(q, a);
      uart := if ok then At(a, i + 1) else Refused(a, i);
    }

    /** The queue was full: its reference is given up again. */
    method FreeRefused(i: nat, a: nat)
      requires uart == Refused(a, i) && IsLive(heap, a)
      modifies this`heap, this`sockmsgLen, this`uart
      ensures View() == OnUart(old(View())) && uart == At(a, i + 1)
    {
      SocketMsgFree(a);
      uart := At(a, i + 1);
    }

    method Lock(a: nat)
      requires uart == Fresh(a) && IsLive(heap, a)
      modifies this`heap, this`sent, this`uart
      ensures View() == OnUart(old(View())) && uart == At(a, 0)
    {
      heap := heap[a := Live(heap[a].msg.(serial := |sent|))];
      sent := sent + [heap[a].msg.data];
      SocketMsgTake(a);
      uart := At(a, 0);
    }

    method Unlock(i: nat, a: nat)
      requires uart == At(a, i) && i >= |socketOutQueue| && IsLive(heap, a)
      modifies this`heap, this`sockmsgLen, this`uart
      ensures View() == OnUart(old(View())) && uart == Idle
    {
      SocketMsgFree(a);
      uart := Idle;
    }

    /** One turn of the fan-out loop. */
    method OfferTo(i: nat, a: nat) returns (ghost steps: nat)
      requires DeliveryOk(View()) && uart == At(a, i) && i < |socketOutQueue|
      modifies this
      ensures View() == Run(old(View()), UartSteps(steps)) && DeliveryOk(View())
      ensures uart == At(a, i + 1) && socketOutQueue == old(socketOutQueue)
    {
      ghost var s := View();
      UartFacts(s);
      steps := 1;
      var pQueue := socketOutQueue[i];
      if pQueue == None {
        SkipSlot(i, a);
      } else {
        TakeFor(i, a);
        steps := PushOrFree(i, a, pQueue.value);
        MoreUartSteps(s, 1, steps);
        steps := 1 + steps;
      }
    }

    method PushOrFree(i: nat, a: nat, q: nat) returns (ghost steps: nat)
      requires DeliveryOk(View()) && uart == Taken(a, i) && i < |socketOutQueue| && socketOutQueue[i] == Some(q)
      modifies this
      ensures View() == Run(old(View()), UartSteps(steps)) && DeliveryOk(View())
      ensures uart == At(a, i + 1) && socketOutQueue == old(socketOutQueue)
    {
      ghost var s := View();
      UartFacts(s);
      steps := 1;
      var ok := Push(i, a, q);
      if !ok {
        UartFacts(View());
        FreeRefused(i, a);
        MoreUartSteps(s, 1, 1);
        steps := 2;
      }
    }

    /** The fan-out loop. */
    method OfferAll(a: nat) returns (ghost steps: nat)
      requires DeliveryOk(View()) && uart == At(a, 0) && |socketOutQueue| == MAX_QUEUE_NUM
      modifies this
      ensures View() == Run(old(View()), UartSteps(steps)) && DeliveryOk(View())
      ensures uart == At(a, MAX_QUEUE_NUM) && socketOutQueue == old(socketOutQueue)
    {
      ghost var s := View();
      assert UartSteps(0) == [];
      steps := 0;
      var i := 0;
      while i < MAX_QUEUE_NUM
        invariant 0 <= i <= MAX_QUEUE_NUM && uart == At(a, i) && socketOutQueue == old(socketOutQueue)
        invariant View() == Run(s, UartSteps(steps)) && DeliveryOk(View())
      {
        ghost var more := OfferTo(i, a);
        MoreUartSteps(s, steps, more);
        steps := steps + more;
        i := i + 1;
      }
    }

    /** The part of sppUartCommandProcess under the mutex. */
    method FanOut(a: nat) returns (ghost steps: nat)
      requires DeliveryOk(View()) && uart == Fresh(a)
      modifies this
      ensures View() == Run(old(View()), UartSteps(steps)) && DeliveryOk(View())
      ensures uart == Idle
    {
      ghost var s := View();
      UartFacts(s);
      Lock(a);
      steps := OfferAll(a);
      MoreUartSteps(s, 1, steps);
      UartFacts(View());
      Unlock(MAX_QUEUE_NUM, a);
      MoreUartSteps(s, 1 + steps, 1);
      steps := steps + 2;
    }

    method AnyQueue() returns (found: bool)
      ensures found == !NoQueue(socketOutQueue)
    {
      var i := 0;
      found := false;
      while i < |socketOutQueue|
        invariant 0 <= i <= |socketOutQueue| && !found
        invariant forall j :: 0 <= j < i ==> socketOutQueue[j] == None
      {
        if socketOutQueue[i] != None {
          return true;
        }
        i := i + 1;
      }
    }

    /** sppUartCommandProcess; `cell` is what malloc returns. */
    method SppUartCommandProcess(inBuf: seq<byte>, cell: Option<nat>) returns (ok: bool, ghost steps: nat)
      requires DeliveryOk(View()) && uart == Idle && (cell.Some? ==> Available(heap, cell.value))
      modifies this
      ensures View() == Run(old(View()), [Receive(inBuf, cell)] + UartSteps(steps))
      ensures DeliveryOk(View()) && uart == Idle
      ensures ok <==> NoQueue(old(socketOutQueue)) || (old(sockmsgLen) <= 10240 && cell.Some?)
    {
      ghost var s := View();
      ReceiveDelivery(s, inBuf, cell);
      RunOne(s, Receive(inBuf, cell));
      steps := 0;
      assert [Receive(inBuf, cell)] + UartSteps(0) == [Receive(inBuf, cell)];
      var found := AnyQueue();
      if !found {
        return true, 0;
      }
      if MAX_SOCK_MSG_LEN < sockmsgLen || cell == None {
        return false, 0;
      }
      heap := Put(heap, cell.value, Msg(0, inBuf, 0));
      sockmsgLen := sockmsgLen + HEADER + |inBuf|;
      uart := Fresh(cell.value);
      assert View() == OnReceive(s, inBuf, cell);
      steps := FanOut(cell.value);
      RunConcat(s, [Receive(inBuf, cell)], UartSteps(steps));
      ok := true;
    }

    /** socket_queue_create; `ready` tells whether the operating system provides the queue. */
    method SocketQueueCreate(ready: bool) returns (ret: int, q: nat)
      requires DeliveryOk(View()) && uart == Idle
      modifies this
      ensures View() == (if ready then OnCreate(old(View())) else old(View())) && DeliveryOk(View())
      ensures ret == if ready && None in old(socketOutQueue) then 0 else -1
      ensures q == |old(clients)|
      ensures if ret == 0
              then (exists i :: 0 <= i < 6 && socketOutQueue == old(socketOutQueue)[i := Some(q)]
                                && old(socketOutQueue)[i] == None
                                && forall j :: 0 <= j < i ==> old(socketOutQueue)[j] != None)
                   && clients == old(clients) + [Client(Registered, [], None, clients[q].slot, |sent|, [], [])]
              else socketOutQueue == old(socketOutQueue)
    {
      ghost var s := View();
      q := |clients|;
      if !ready {
        return -1, q;
      }
      CreateDelivery(s);
      var i := 0;
      while i < |socketOutQueue| && socketOutQueue[i] != None
        invariant 0 <= i <= |socketOutQueue|
        invariant forall j :: 0 <= j < i ==> socketOutQueue[j] != None
      {
        i := i + 1;
      }
      FirstFreeIs(socketOutQueue, i);
      ret := if i < |socketOutQueue| then 0 else -1;
      clients := clients + [Client(if ret == 0 then Registered else Gone, [], None, i, |sent|, [], [])];
      if ret == 0 {
        socketOutQueue := socketOutQueue[i := Some(q)];
      }
    }

    /** mico_rtos_pop_from_queue, without waiting; `ok` tells whether there was a message. */
    method PopFromQueue(q: nat) returns (ok: bool, a: nat)
      requires q < |clients| && !clients[q].stage.Gone? && clients[q].held == None
      requires clients[q].queue != [] ==> IsLive(heap, clients[q].queue[0])
      modifies this`clients
      ensures View() == OnPop(old(View()), q) && |clients| == |old(clients)|
      ensures ok == (old(clients)[q].queue != []) && clients[q].stage == old(clients)[q].stage
      ensures ok ==> clients[q].held == Some(a) && clients[q].queue == old(clients)[q].queue[1..]
      ensures !ok ==> clients == old(clients)
    {
      var c := clients[q];
      if c.queue == [] {
        return false, 0;
      }
      a := c.queue[0];
      c := c.(queue := c.queue[1..], held := Some(a), ops := c.ops + [Take], read := c.read + [heap[a].msg.data]);
      clients := clients[q := c];
      ok := true;
    }

    /** What a client does when it is done with a message. */
    method FreeHeld(q: nat, a: nat)
      requires q < |clients| && clients[q].held == Some(a) && IsLive(heap, a)
      modifies this`heap, this`sockmsgLen, this`clients
      ensures View() == OnDone(old(View()), q) && clients == old(clients)[q := old(clients)[q].(held := None)]
    {
      SocketMsgFree(a);
      clients := clients[q := clients[q].(held := None)];
    }

    /** One turn of the draining loop. */
    method PopAndFree(q: nat) returns (ok: bool)
      requires DeliveryOk(View()) && q < |clients| && clients[q].stage.Draining? && clients[q].held == None
      modifies this
      ensures DeliveryOk(View()) && socketOutQueue == old(socketOutQueue) && uart == old(uart)
      ensures q < |clients| && clients[q].stage.Draining? && clients[q].held == None
      ensures ok == (old(clients)[q].queue != [])
      ensures if ok then View() == OnDone(OnPop(old(View()), q), q) && clients[q].queue == old(clients)[q].queue[1..]
              else View() == old(View())
    {
      ghost var s := View();
      PopFacts(s, q);
      var a;
      ok, a := PopFromQueue(q);
      if ok {
        FreeHeld(q, a);
      }
    }

    /** The draining loop of socket_queue_delete. */
    method Drain(q: nat) returns (ghost events: seq<Event>)
      requires DeliveryOk(View()) && q < |clients| && clients[q].stage.Draining? && clients[q].held == None
      modifies this
      ensures View() == Run(old(View()), events) && DeliveryOk(View())
      ensures q < |clients| && clients[q].stage.Draining? && clients[q].held == None && clients[q].queue == []
      ensures socketOutQueue == old(socketOutQueue) && uart == old(uart)
    {
      ghost var s := View();
      events := [];
      var more := true;
      while more
        invariant View() == Run(s, events) && DeliveryOk(View())
        invariant q < |clients| && clients[q].stage.Draining? && clients[q].held == None
        invariant socketOutQueue == old(socketOutQueue) && uart == old(uart)
        invariant !more ==> clients[q].queue == []
        decreases |clients[q].queue|, if more then 1 else 0
      {
        more := PopAndFree(q);
        if more {
          TwoMore(s, events, Pop(q), Done(q));
          events := events + [Pop(q), Done(q)];
        }
      }
    }

    /** The loop of socket_queue_delete under the mutex. */
    method RemoveQueue(q: nat) returns (ret: int)
      modifies this`socketOutQueue
      ensures socketOutQueue == Without(old(socketOutQueue), q)
      ensures ret == if Some(q) in old(socketOutQueue) then 0 else -1
    {
      ret := -1;
      var slots := socketOutQueue;
      var i := 0;
      while i < |slots|
        invariant 0 <= i <= |slots| == |socketOutQueue|
        invariant forall j :: 0 <= j < |slots| ==>
          socketOutQueue[j] == if j < i && slots[j] == Some(q) then None else slots[j]
        invariant ret == if Some(q) in slots[..i] then 0 else -1
      {
        if socketOutQueue[i] == Some(q) {
          socketOutQueue := socketOutQueue[i := None];
          ret := 0;
        }
        i := i + 1;
      }
      assert slots[..i] == slots;
    }

    /** The part of socket_queue_delete under the mutex. */
    method Unregister(q: nat) returns (ret: int)
      requires !Locked(uart) && q < |clients| && !clients[q].stage.Gone? && clients[q].held == None
      requires clients[q].stage.Registered? <==> Some(q) in socketOutQueue
      modifies this`socketOutQueue, this`clients
      ensures View() == OnDelete(old(View()), q)
      ensures ret == if Some(q) in old(socketOutQueue) then 0 else -1
      ensures Some(q) !in socketOutQueue && q < |clients| && clients[q].stage.Draining? && clients[q].held == None
    {
      ret := RemoveQueue(q);
      if !clients[q].stage.Registered? {
        assert socketOutQueue == old(socketOutQueue);
        assert clients == clients[q := clients[q].(stage := Draining)];
      }
      clients := clients[q := clients[q].(stage := Draining)];
    }

    method Retire(q: nat)
      requires q < |clients| && clients[q].stage.Draining? && clients[q].queue == [] && clients[q].held == None
      modifies this`clients
      ensures View() == OnDeinit(old(View()), q)
      ensures q < |clients| && clients[q].stage.Gone? && clients[q].queue == [] && clients[q].held == None
    {
      clients := clients[q := clients[q].(stage := Gone)];
    }

    /** socket_queue_delete; a queue that is in no slot is emptied all the same. */
    method SocketQueueDelete(q: nat) returns (ret: int, ghost events: seq<Event>)
      requires DeliveryOk(View()) && !Locked(uart) && q < |clients|
      requires !clients[q].stage.Gone? && clients[q].held == None
      modifies this
      ensures View() == Run(old(View()), events) && DeliveryOk(View())
      ensures ret == if Some(q) in old(socketOutQueue) then 0 else -1
      ensures Some(q) !in socketOutQueue && q < |clients| && clients[q].stage.Gone?
      ensures clients[q].queue == [] && clients[q].held == None
    {
      ghost var s := View();
      DeleteFacts(s, q);
      ret := Unregister(q);
      ghost var drained := Drain(q);
      ghost var t := View();
      LeaveDelivery(t, q);
      Retire(q);
      DeleteRun(s, q, drained, t);
      events := [Delete(q)] + drained + [Deinit(q)];
    }
  }

  /** What a step of the UART thread can rely on. */
  lemma UartFacts(s: State)
    requires DeliveryOk(s) && !s.uart.Idle?
    ensures IsLive(s.heap, s.uart.a) && DeliveryOk(OnUart(s)) && Run(s, UartSteps(1)) == OnUart(s)
    ensures |s.slots| == MAX_QUEUE_NUM && |OnUart(s).slots| == MAX_QUEUE_NUM
    ensures s.uart.Taken? ==>
      s.uart.i < |s.slots| && s.slots[s.uart.i].Some? && s.slots[s.uart.i].value < |s.clients|
  {
    UartIsLive(s);
    UartDelivery(s);
    OneUartStep(s);
  }

  lemma PopFacts(s: State, q: nat)
    requires DeliveryOk(s) && q < |s.clients|
    ensures DeliveryOk(OnPop(s, q)) && DeliveryOk(OnDone(OnPop(s, q), q))
    ensures s.clients[q].queue != [] ==> IsLive(s.heap, s.clients[q].queue[0])
  {
    PopDelivery(s, q);
    DoneDelivery(OnPop(s, q), q);
    if s.clients[q].queue != [] {
      ReachableIsLive(s, q, s.clients[q].queue[0]);
    }
  }

  lemma DeleteFacts(s: State, q: nat)
    requires DeliveryOk(s) && q < |s.clients|
    ensures DeliveryOk(OnDelete(s, q))
    ensures s.clients[q].stage.Registered? <==> Some(q) in s.slots
  {
    LeaveDelivery(s, q);
    if s.clients[q].stage.Registered? {
      assert s.slots[s.clients[q].slot] == Some(q);
    }
  }

  lemma DeleteRun(s: State, q: nat, drained: seq<Event>, t: State)
    requires t == Run(OnDelete(s, q), drained)
    ensures Run(s, [Delete(q)] + drained + [Deinit(q)]) == OnDeinit(t, q)
  {
    RunOne(s, Delete(q));
    RunConcat(s, [Delete(q)], drained);
    RunConcat(s, [Delete(q)] + drained, [Deinit(q)]);
    RunOne(t, Deinit(q));
  }

  lemma TwoMore(s: State, events: seq<Event>, e: Event, f: Event)
    ensures Run(s, events + [e, f]) == Step(Step(Run(s, events), e), f)
  {
    RunConcat(s, events, [e, f]);
    assert [e, f][1..] == [f];
    RunOne(Step(Run(s, events), e), f);
  }
}
