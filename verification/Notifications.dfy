/** The notification registry: twenty linked lists of callbacks. */
module Notifications {

  const NUMBER_OF_LISTS: nat := 20

  datatype Status = NoErr | NoMemoryErr | DeletedErr | NotFoundErr

  /** A callback and its argument. */
  datatype Entry = Entry(callback: nat, arg: nat)

  // ---------------------------------------------------------------- one list as a sequence

  predicate Has(entries: seq<Entry>, callback: nat) {
    exists i :: 0 <= i < |entries| && entries[i].callback == callback
  }

  function Registered(entries: seq<Entry>, e: Entry): seq<Entry> {
    if Has(entries, e.callback) then entries else entries + [e]
  }

  function Removed(entries: seq<Entry>, callback: nat): seq<Entry> {
    if entries == [] then []
    else if entries[0].callback == callback then entries[1..]
    else [entries[0]] + Removed(entries[1..], callback)
  }

  ghost predicate Distinct(entries: seq<Entry>) {
    forall i, j :: 0 <= i < j < |entries| ==> entries[i].callback != entries[j].callback
  }

  lemma {:induction false} RemovedAt(entries: seq<Entry>, callback: nat, k: nat)
    requires k < |entries| && entries[k].callback == callback
    requires forall i :: 0 <= i < k ==> entries[i].callback != callback
    ensures Removed(entries, callback) == entries[..k] + entries[k + 1..]
  {
    if k > 0 {
      RemovedAt(entries[1..], callback, k - 1);
      assert entries[..k] == [entries[0]] + entries[1..][..k - 1];
      assert entries[1..][k - 1 + 1..] == entries[k + 1..];
    }
  }

  lemma {:induction false} RemovedNothing(entries: seq<Entry>, callback: nat)
    requires !Has(entries, callback)
    ensures Removed(entries, callback) == entries
  {
    if entries != [] {
      assert entries[0].callback != callback;
      forall i | 0 <= i < |entries[1..]|
        ensures entries[1..][i].callback != callback
      {
        assert entries[1..][i] == entries[i + 1];
      }
      RemovedNothing(entries[1..], callback);
    }
  }

  function Skip(i: nat, k: nat): nat {
    if i < k then i else i + 1
  }

  /** `r` is `entries` without the entry at `k`, which is that of the callback; `k` is past the end if there is none. */
  ghost predicate Without(entries: seq<Entry>, callback: nat, k: nat, r: seq<Entry>) {
    && k <= |entries| && |r| == (if k < |entries| then |entries| - 1 else |entries|)
    && (k < |entries| ==> entries[k].callback == callback)
    && (forall i :: 0 <= i < |entries| && i != k ==> entries[i].callback != callback)
    && (forall i :: 0 <= i < |r| ==> r[i] == entries[Skip(i, k)])
  }

  lemma CutAt(entries: seq<Entry>, callback: nat, k: nat)
    requires Distinct(entries) && k < |entries| && entries[k].callback == callback
    ensures Without(entries, callback, k, entries[..k] + entries[k + 1..])
  {}

  lemma RemovedShape(entries: seq<Entry>, callback: nat) returns (k: nat)
    requires Distinct(entries)
    ensures Without(entries, callback, k, Removed(entries, callback)) && (k < |entries| <==> Has(entries, callback))
  {
    if Has(entries, callback) {
      k :| 0 <= k < |entries| && entries[k].callback == callback;
      CutAt(entries, callback, k);
      RemovedAt(entries, callback, k);
    } else {
      k := |entries|;
      RemovedNothing(entries, callback);
    }
  }

  lemma Kept(entries: seq<Entry>, callback: nat, i: nat)
    requires Distinct(entries) && i < |entries| && entries[i].callback != callback
    ensures entries[i] in Removed(entries, callback)
  {
    var k := RemovedShape(entries, callback);
    assert Removed(entries, callback)[if i < k then i else i - 1] == entries[i];
  }

  /** Removing takes out exactly the entry of the callback. */
  lemma RemovedMembers(entries: seq<Entry>, callback: nat)
    requires Distinct(entries)
    ensures var r := Removed(entries, callback);
            && Distinct(r) && !Has(r, callback)
            && forall e :: e in r <==> e in entries && e.callback != callback
  {
    var k := RemovedShape(entries, callback);
    forall i | 0 <= i < |entries| && entries[i].callback != callback
      ensures entries[i] in Removed(entries, callback)
    {
      Kept(entries, callback, i);
    }
  }

  /** Removing undoes registering. */
  lemma RegisterThenRemove(entries: seq<Entry>, e: Entry)
    requires !Has(entries, e.callback)
    ensures Removed(Registered(entries, e), e.callback) == entries
  {
    RemovedAt(entries + [e], e.callback, |entries|);
  }

  // ---------------------------------------------------------------- runs

  datatype Op = Register(e: Entry) | Remove(callback: nat) | RemoveAll

  function Apply(entries: seq<Entry>, op: Op): seq<Entry> {
    match op
    case Register(e) => Registered(entries, e)
    case Remove(f) => Removed(entries, f)
    case RemoveAll => []
  }

  function After(ops: seq<Op>): seq<Entry> {
    if ops == [] then [] else Apply(After(ops[..|ops| - 1]), ops[|ops| - 1])
  }

  /** When a callback was registered that has not been removed since, or -1. */
  function Since(ops: seq<Op>, callback: nat): (at: int)
    ensures -1 <= at < |ops|
  {
    if ops == [] then -1
    else
      var before := Since(ops[..|ops| - 1], callback);
      match ops[|ops| - 1]
      case Register(e) => if e.callback == callback && before == -1 then |ops| - 1 else before
      case Remove(f) => if f == callback then -1 else before
      case RemoveAll => -1
  }

  /** The list holds exactly the callbacks that are registered, in the order in which they were, each with the
      argument it was registered with. */
  ghost predicate InOrder(ops: seq<Op>, entries: seq<Entry>) {
    && (forall i :: 0 <= i < |entries| ==>
          Since(ops, entries[i].callback) >= 0 && ops[Since(ops, entries[i].callback)] == Register(entries[i]))
    && (forall i, j :: 0 <= i < j < |entries| ==> Since(ops, entries[i].callback) < Since(ops, entries[j].callback))
    && (forall f :: Since(ops, f) >= 0 ==> Has(entries, f))
  }

  lemma {:induction false} ListIsInOrder(ops: seq<Op>)
    ensures InOrder(ops, After(ops)) && Distinct(After(ops))
  {
    if ops != [] {
      var n := |ops| - 1;
      var front, entries := ops[..n], After(ops[..n]);
      ListIsInOrder(front);
      match ops[n]
      case Register(e) => RegisterInOrder(ops, entries, e);
      case Remove(f) => RemoveInOrder(ops, entries, f);
      case RemoveAll =>
    }
  }

  lemma SinceRegister(ops: seq<Op>, e: Entry, f: nat)
    requires ops != [] && ops[|ops| - 1] == Register(e)
    ensures var before := Since(ops[..|ops| - 1], f);
            Since(ops, f) == if e.callback == f && before == -1 then |ops| - 1 else before
  {}

  lemma SinceRemove(ops: seq<Op>, callback: nat, f: nat)
    requires ops != [] && ops[|ops| - 1] == Remove(callback)
    ensures Since(ops, f) == if f == callback then -1 else Since(ops[..|ops| - 1], f)
  {}

  lemma RegisterInOrder(ops: seq<Op>, entries: seq<Entry>, e: Entry)
    requires ops != [] && ops[|ops| - 1] == Register(e)
    requires InOrder(ops[..|ops| - 1], entries) && Distinct(entries)
    ensures InOrder(ops, Registered(entries, e)) && Distinct(Registered(entries, e))
  {
    var front := ops[..|ops| - 1];
    HasIsSince(front, entries, e.callback);
    forall f
      ensures Since(ops, f) == if f == e.callback && !Has(entries, f) then |ops| - 1 else Since(front, f)
    {
      SinceRegister(ops, e, f);
    }
    if Has(entries, e.callback) {
      StillInOrder(ops, front, entries);
    } else {
      AppendedInOrder(ops, front, entries, e);
    }
  }

  lemma HasIsSince(ops: seq<Op>, entries: seq<Entry>, f: nat)
    requires InOrder(ops, entries)
    ensures Has(entries, f) <==> Since(ops, f) != -1
  {
    if Has(entries, f) {
      var i :| 0 <= i < |entries| && entries[i].callback == f;
      assert Since(ops, entries[i].callback) >= 0;
    }
  }

  lemma StillInOrder(ops: seq<Op>, front: seq<Op>, entries: seq<Entry>)
    requires front <= ops && InOrder(front, entries)
    requires forall f :: Since(ops, f) == Since(front, f)
    ensures InOrder(ops, entries)
  {}

  lemma AppendedInOrder(ops: seq<Op>, front: seq<Op>, entries: seq<Entry>, e: Entry)
    requires ops == front + [Register(e)] && InOrder(front, entries) && Distinct(entries) && !Has(entries, e.callback)
    requires forall f :: Since(ops, f) == if f == e.callback then |front| else Since(front, f)
    ensures InOrder(ops, entries + [e]) && Distinct(entries + [e])
  {
    var r := entries + [e];
    forall i | 0 <= i < |entries|
      ensures r[i].callback != e.callback && Since(ops, r[i].callback) == Since(front, r[i].callback) < |front|
    {
      assert entries[i].callback != e.callback;
    }
    assert Since(ops, r[|entries|].callback) == |front| && ops[|front|] == Register(e);
    forall i | 0 <= i < |r|
      ensures Since(ops, r[i].callback) >= 0 && ops[Since(ops, r[i].callback)] == Register(r[i])
    {
      if i < |entries| {
        assert r[i] == entries[i] && front[Since(front, entries[i].callback)] == Register(entries[i]);
      }
    }
    forall f | Since(ops, f) >= 0
      ensures Has(r, f)
    {
      if f == e.callback {
        assert r[|entries|].callback == f;
      } else {
        var i :| 0 <= i < |entries| && entries[i].callback == f;
        assert r[i].callback == f;
      }
    }
  }

  lemma RemoveInOrder(ops: seq<Op>, entries: seq<Entry>, callback: nat)
    requires ops != [] && ops[|ops| - 1] == Remove(callback)
    requires InOrder(ops[..|ops| - 1], entries) && Distinct(entries)
    ensures InOrder(ops, Removed(entries, callback)) && Distinct(Removed(entries, callback))
  {
    var front, r := ops[..|ops| - 1], Removed(entries, callback);
    var k := RemovedShape(entries, callback);
    forall i | 0 <= i < |r|
      ensures Since(ops, r[i].callback) == Since(front, entries[Skip(i, k)].callback)
    {
      SinceRemove(ops, callback, r[i].callback);
    }
    forall f | Since(ops, f) >= 0
      ensures Has(r, f)
    {
      SinceRemove(ops, callback, f);
      StillThere(entries, callback, k, r, f);
    }
    KeptInOrder(ops, front, entries, callback, k, r);
  }

  lemma StillThere(entries: seq<Entry>, callback: nat, k: nat, r: seq<Entry>, f: nat)
    requires Without(entries, callback, k, r) && Has(entries, f) && f != callback
    ensures Has(r, f)
  {
    var i :| 0 <= i < |entries| && entries[i].callback == f;
    assert r[if i < k then i else i - 1].callback == f;
  }

  lemma KeptInOrder(ops: seq<Op>, front: seq<Op>, entries: seq<Entry>, callback: nat, k: nat, r: seq<Entry>)
    requires Without(entries, callback, k, r) && front <= ops && InOrder(front, entries) && Distinct(entries)
    requires forall i :: 0 <= i < |r| ==> Since(ops, r[i].callback) == Since(front, entries[Skip(i, k)].callback)
    requires forall f :: Since(ops, f) >= 0 ==> Has(r, f)
    ensures InOrder(ops, r) && Distinct(r)
  {
    forall i, j | 0 <= i < j < |r|
      ensures Since(ops, r[i].callback) < Since(ops, r[j].callback) && r[i].callback != r[j].callback
    {
      assert Skip(i, k) < Skip(j, k) < |entries|;
    }
  }

  // ---------------------------------------------------------------- the linked lists

  class Node {
    const callback: nat
    const arg: nat
    ghost const home: nat
    var next: Node?

    /** `home` is the list the node is meant for. */
    constructor (callback: nat, arg: nat, ghost home: nat)
      ensures this.callback == callback && this.arg == arg && this.home == home && next == null
    {
      this.callback, this.arg, this.home, next := callback, arg, home, null;
    }

    function Value(): Entry {
      Entry(callback, arg)
    }
  }

  function Values(chain: seq<Node>): (r: seq<Entry>)
    ensures |r| == |chain|
    ensures forall i :: 0 <= i < |chain| ==> r[i] == chain[i].Value()
  {
    seq(|chain|, i requires 0 <= i < |chain| => chain[i].Value())
  }

  function NextOf(chain: seq<Node>, k: nat): Node?
    requires k < |chain|
  {
    if k + 1 < |chain| then chain[k + 1] else null
  }

  /** A list is a chain of nodes that starts at its head and ends in null. */
  ghost predicate IsList(head: Node?, chain: seq<Node>)
    reads chain
  {
    && head == (if chain == [] then null else chain[0])
    && forall k {:trigger chain[k].next} :: 0 <= k < |chain| ==> chain[k].next == NextOf(chain, k)
  }

  lemma TailIsList(head: Node?, chain: seq<Node>)
    requires IsList(head, chain) && chain != []
    ensures head != null && IsList(head.next, chain[..0] + chain[1..])
  {
    var tail := chain[..0] + chain[1..];
    assert head.next == NextOf(chain, 0);
    forall k | 0 <= k < |tail|
      ensures tail[k].next == NextOf(tail, k)
    {
      assert tail[k] == chain[k + 1] && chain[k + 1].next == NextOf(chain, k + 1);
    }
  }

  /** A list around one of whose nodes there is a shortcut is a list without it. */
  lemma ShortcutIsList(head: Node?, chain: seq<Node>, k: nat)
    requires 0 < k < |chain| && head == chain[0] && chain[k - 1].next == NextOf(chain, k)
    requires forall j :: 0 <= j < |chain| && j != k - 1 ==> chain[j].next == NextOf(chain, j)
    ensures IsList(head, chain[..k] + chain[k + 1..])
  {
    var rest := chain[..k] + chain[k + 1..];
    forall j | 0 <= j < |rest|
      ensures rest[j].next == NextOf(rest, j)
    {
      assert rest[j] == chain[if j < k then j else j + 1];
    }
  }

  /** Its nodes are allocated, and different from each other and from those of other lists. */
  ghost predicate Belongs(chain: seq<Node>, t: nat, owned: set<Node>) {
    && (forall k :: 0 <= k < |chain| ==> chain[k] in owned && chain[k].home == t)
    && Distinct(Values(chain))
  }

  lemma NodesDiffer(chain: seq<Node>, t: nat, owned: set<Node>, i: nat, j: nat)
    requires Belongs(chain, t, owned) && i < j < |chain|
    ensures chain[i] != chain[j]
  {
    assert Values(chain)[i].callback != Values(chain)[j].callback;
  }

  /** A node with a new callback may join a list. */
  lemma JoinBelongs(chain: seq<Node>, t: nat, owned: set<Node>, n: Node)
    requires Belongs(chain, t, owned) && n in owned && n.home == t && !Has(Values(chain), n.callback)
    ensures Belongs(chain + [n], t, owned) && Values(chain + [n]) == Values(chain) + [n.Value()]
    ensures n !in chain
  {
    forall i | 0 <= i < |chain|
      ensures chain[i].callback != n.callback
    {
      assert Values(chain)[i].callback != n.callback;
    }
  }

  /** A list without one of its nodes. */
  lemma LeaveBelongs(chain: seq<Node>, t: nat, owned: set<Node>, k: nat)
    requires Belongs(chain, t, owned) && k < |chain|
    ensures var rest := chain[..k] + chain[k + 1..];
            && Belongs(rest, t, owned) && chain[k] !in rest
            && Values(rest) == Values(chain)[..k] + Values(chain)[k + 1..]
            && Dropped(chain, rest) == {chain[k]}
  {
    var rest := chain[..k] + chain[k + 1..];
    assert Values(rest) == Values(chain)[..k] + Values(chain)[k + 1..];
    forall i | 0 <= i < |rest|
      ensures rest[i] != chain[k]
    {
      NodesDiffer(chain, t, owned, if i < k then i else k, if i < k then k else i + 1);
    }
    forall i | 0 <= i < |chain| && i != k
      ensures chain[i] in rest
    {
      assert rest[if i < k then i else i - 1] == chain[i];
    }
  }

  lemma DroppedNext(chain: seq<Node>, k: nat)
    requires k < |chain|
    ensures Dropped(chain[..k + 1], []) == Dropped(chain[..k], []) + {chain[k]}
  {
    assert chain[..k + 1] == chain[..k] + [chain[k]];
  }

  /** The nodes that are in one chain and not in another. */
  ghost function Dropped(chain: seq<Node>, rest: seq<Node>): set<Node> {
    set n | n in chain && n !in rest
  }

  /** Notify_list.  `owned` are the nodes that malloc has given and free has not taken back. */
  class Registry {
    const notifyList: array<Node?>
    ghost var chains: seq<seq<Node>>
    ghost var owned: set<Node>

    ghost predicate Valid()
      reads this, notifyList, owned
    {
      && notifyList.Length == |chains| == NUMBER_OF_LISTS
      && forall t :: 0 <= t < |chains| ==> Belongs(chains[t], t, owned) && IsList(notifyList[t], chains[t])
    }

    /** The callbacks of a list, in order. */
    ghost function Entries(t: nat): seq<Entry>
      requires t < |chains|
      reads this
    {
      Values(chains[t])
    }

    constructor ()
      ensures Valid() && fresh(notifyList)
      ensures owned == {} && forall t :: 0 <= t < NUMBER_OF_LISTS ==> Entries(t) == []
    {
      notifyList := new Node?[NUMBER_OF_LISTS](_ => null);
      chains, owned := seq(NUMBER_OF_LISTS, _ => []), {};
    }

    /** Is the callback in a list that is not empty?  If not, the last node of the list. */
    method Find(t: nat, callback: nat) returns (found: bool, last: Node)
      requires Valid() && t < NUMBER_OF_LISTS && chains[t] != []
      ensures found <==> Has(Entries(t), callback)
      ensures last in chains[t] && (!found ==> last == chains[t][|chains[t]| - 1])
    {
      var temp := notifyList[t];
      ghost var chain := chains[t];
      last := temp;
      if temp.callback == callback {
        assert Entries(t)[0].callback == callback;
        return true, last;
      }
      ghost var k := 0;
      while last.next != null
        invariant 0 <= k < |chain| && last == chain[k]
        invariant forall j :: 0 <= j <= k ==> chain[j].callback != callback
        decreases |chain| - k
      {
        last, k := last.next, k + 1;
        if last.callback == callback {
          assert Entries(t)[k].callback == callback;
          return true, last;
        }
      }
      found := false;
    }

    /** Put a node at the end of a list. */
    method LinkLast(t: nat, notify: Node, last: Node)
      requires Valid() && t < NUMBER_OF_LISTS && chains[t] != [] && last == chains[t][|chains[t]| - 1]
      requires notify in owned && notify.home == t && notify.next == null && !Has(Entries(t), notify.callback)
      modifies this`chains, last
      ensures Valid() && chains == old(chains)[t := old(chains[t]) + [notify]]
    {
      ghost var chain, before := chains[t], chains;
      JoinBelongs(chain, t, owned, notify);
      forall k | 0 <= k < |chain| - 1
        ensures chain[k] != last
      {
        NodesDiffer(chain, t, owned, k, |chain| - 1);
      }
      forall u | 0 <= u < |chains| && u != t
        ensures last !in before[u]
      {
        assert Belongs(before[u], u, owned);
      }
      last.next := notify;
      assert forall u :: 0 <= u < |chains| && u != t ==> IsList(notifyList[u], before[u]);
      chains := chains[t := chain + [notify]];
      assert IsList(notifyList[t], chain + [notify]);
    }

    /** malloc and initialise a node */
    method NewNode(t: nat, callback: nat, arg: nat) returns (notify: Node)
      requires Valid()
      modifies this`owned
      ensures Valid() && fresh(notify)
      ensures notify.Value() == Entry(callback, arg) && notify.home == t && notify.next == null
      ensures owned == old(owned) + {notify} && |owned - old(owned)| == 1
    {
      notify := new Node(callback, arg, t);
      ghost var before := owned;
      owned := owned + {notify};
      assert owned - before == {notify};
    }

    /** mico_system_notify_register; `memory` tells whether malloc succeeds. */
    method NotifyRegister(t: nat, callback: nat, arg: nat, memory: bool) returns (err: Status)
      requires Valid() && t < NUMBER_OF_LISTS
      modifies this, notifyList, owned
      ensures Valid()
      ensures err == if memory then NoErr else NoMemoryErr
      ensures Entries(t) == if memory then Registered(old(Entries(t)), Entry(callback, arg)) else old(Entries(t))
      ensures forall u :: 0 <= u < NUMBER_OF_LISTS && u != t ==> chains[u] == old(chains[u])
      ensures owned >= old(owned) && fresh(owned - old(owned))
      ensures |owned - old(owned)| == if memory then 1 else 0
      // a node for a callback that is there already is lost
      ensures forall n :: n in owned - old(owned) ==> (n in chains[t] <==> !Has(old(Entries(t)), callback))
    {
      if !memory {
        assert owned - owned == {};
        return NoMemoryErr;
      }
      var notify := NewNode(t, callback, arg);
      if notifyList[t] == null {
        LinkFirst(t, notify);
      } else {
        var found, last := Find(t, callback);
        if !found {
          LinkLast(t, notify, last);
        }
      }
      err := NoErr;
    }

    method LinkFirst(t: nat, notify: Node)
      requires Valid() && t < NUMBER_OF_LISTS && chains[t] == []
      requires notify in owned && notify.home == t && notify.next == null
      modifies this`chains, notifyList
      ensures Valid() && chains == old(chains)[t := old(chains[t]) + [notify]]
    {
      JoinBelongs([], t, owned, notify);
      notifyList[t] := notify;
      chains := chains[t := chains[t] + [notify]];
    }

    /** The search of mico_system_notify_remove: the node of the callback and the one before it. */
    method Locate(t: nat, callback: nat) returns (found: bool, node: Node, before: Node?, ghost k: nat)
      requires Valid() && t < NUMBER_OF_LISTS && chains[t] != []
      ensures found <==> Has(Entries(t), callback)
      ensures k < |chains[t]| && node == chains[t][k]
      ensures found ==> node.callback == callback && (forall j :: 0 <= j < k ==> chains[t][j].callback != callback)
      ensures found && k > 0 ==> before == chains[t][k - 1]
      ensures found ==> (node == notifyList[t] <==> k == 0)
    {
      node, before, k := notifyList[t], null, 0;
      ghost var chain := chains[t];
      found := false;
      while node.callback != callback
        invariant 0 <= k < |chain| && node == chain[k] && (k > 0 ==> before == chain[k - 1])
        invariant forall j :: 0 <= j < k ==> chain[j].callback != callback
        decreases |chain| - k
      {
        if node.next == null {
          return;
        }
        before := node;
        node, k := node.next, k + 1;
      }
      assert Entries(t)[k].callback == callback;
      if k > 0 {
        NodesDiffer(chain, t, owned, 0, k);
      }
      found := true;
    }

    /** Take a node out of the middle or the end of a list. */
    method Unlink(t: nat, node: Node, before: Node, ghost k: nat)
      requires Valid() && t < NUMBER_OF_LISTS && 0 < k < |chains[t]|
      requires node == chains[t][k] && before == chains[t][k - 1]
      modifies this`chains, before
      ensures Valid() && chains == old(chains)[t := old(chains[t])[..k] + old(chains[t])[k + 1..]]
    {
      ghost var chain, was := chains[t], chains;
      LeaveBelongs(chain, t, owned, k);
      forall j | 0 <= j < |chain| && j != k - 1
        ensures chain[j] != before
      {
        NodesDiffer(chain, t, owned, if j < k - 1 then j else k - 1, if j < k - 1 then k - 1 else j);
      }
      forall u | 0 <= u < |chains| && u != t
        ensures before !in was[u]
      {
        assert Belongs(was[u], u, owned);
      }
      before.next := node.next;
      assert forall u :: 0 <= u < |chains| && u != t ==> IsList(notifyList[u], was[u]);
      ShortcutIsList(notifyList[t], chain, k);
      chains := chains[t := chain[..k] + chain[k + 1..]];
    }

    /** mico_system_notify_remove */
    method NotifyRemove(t: nat, callback: nat) returns (err: Status)
      requires Valid() && t < NUMBER_OF_LISTS
      modifies this, notifyList, owned
      ensures Valid()
      ensures err == if old(Entries(t)) == [] then DeletedErr
                     else if Has(old(Entries(t)), callback) then NoErr else NotFoundErr
      ensures Entries(t) == Removed(old(Entries(t)), callback)
      ensures forall u :: 0 <= u < NUMBER_OF_LISTS && u != t ==> chains[u] == old(chains[u])
      ensures owned == old(owned) - Dropped(old(chains[t]), chains[t])
    {
      ghost var chain := chains[t];
      if notifyList[t] == null {
        return DeletedErr;
      }
      var found, node, before, k := Locate(t, callback);
      if !found {
        RemovedNothing(Entries(t), callback);
        return NotFoundErr;
      }
      RemovedAt(Entries(t), callback, k);
      LeaveBelongs(chain, t, owned, k);
      if node == notifyList[t] {
        UnlinkFirst(t);
      } else {
        Unlink(t, node, before, k);
      }
      Free(t, node);
      err := NoErr;
    }

    method UnlinkFirst(t: nat)
      requires Valid() && t < NUMBER_OF_LISTS && chains[t] != []
      modifies this`chains, notifyList
      ensures Valid() && chains == old(chains)[t := old(chains[t])[..0] + old(chains[t])[1..]]
    {
      ghost var chain := chains[t];
      LeaveBelongs(chain, t, owned, 0);
      TailIsList(notifyList[t], chain);
      notifyList[t] := notifyList[t].next;
      chains := chains[t := chain[..0] + chain[1..]];
      assert IsList(notifyList[t], chains[t]);
    }

    method Free(t: nat, node: Node)
      requires Valid() && t < NUMBER_OF_LISTS && node.home == t && node !in chains[t]
      modifies this`owned
      ensures Valid() && owned == old(owned) - {node}
    {
      forall u | 0 <= u < |chains|
        ensures node !in chains[u]
      {
        assert Belongs(chains[u], u, owned);
      }
      owned := owned - {node};
    }

    method FreeFirst(t: nat)
      requires Valid() && t < NUMBER_OF_LISTS && chains[t] != []
      modifies this, notifyList
      ensures Valid() && chains == old(chains)[t := old(chains[t])[1..]] && owned == old(owned) - {old(chains[t][0])}
    {
      var temp := notifyList[t];
      LeaveBelongs(chains[t], t, owned, 0);
      assert chains[t][..0] + chains[t][1..] == chains[t][1..];
      UnlinkFirst(t);
      Free(t, temp);
    }

    /** mico_system_notify_remove_all */
    method NotifyRemoveAll(t: nat)
      requires Valid() && t < NUMBER_OF_LISTS
      modifies this, notifyList, owned
      ensures Valid() && Entries(t) == []
      ensures forall u :: 0 <= u < NUMBER_OF_LISTS && u != t ==> chains[u] == old(chains[u])
      ensures owned == old(owned) - Dropped(old(chains[t]), [])
    {
      ghost var chain, k := chains[t], 0;
      var temp := notifyList[t];
      while temp != null
        invariant Valid() && temp == notifyList[t] && k <= |chain| && chains[t] == chain[k..]
        invariant forall u :: 0 <= u < NUMBER_OF_LISTS && u != t ==> chains[u] == old(chains[u])
        invariant owned == old(owned) - Dropped(chain[..k], [])
        decreases |chain| - k
      {
        DroppedNext(chain, k);
        FreeFirst(t);
        assert chain[k..][1..] == chain[k + 1..] && chain[k..][0] == chain[k];
        temp, k := notifyList[t], k + 1;
      }
      assert chain[..k] == chain;
    }

    /** The dispatch loops: every callback of a list is called once, in order. */
    method Dispatch(t: nat) returns (calls: seq<Entry>)
      requires Valid() && t < NUMBER_OF_LISTS
      ensures calls == Entries(t)
    {
      calls := [];
      var temp := notifyList[t];
      ghost var chain := chains[t];
      while temp != null
        invariant |calls| <= |chain| && temp == (if |calls| < |chain| then chain[|calls|] else null)
        invariant calls == Entries(t)[..|calls|]
        decreases |chain| - |calls|
      {
        calls := calls + [temp.Value()];
        temp := temp.next;
      }
    }
  }
}
