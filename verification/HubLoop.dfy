/** The hub's own code, in place: the three cases of its event loop and the clients' topic sets.  Each
    method is a run of the steps of Hub; the other goroutines' steps may come in between. */
module HubLoop {
  import opened Options
  import opened Hub

  /** The steps that dispatch the next message to these clients, in this order. */
  function DispatchEvents(msg: Message, order: seq<ClientId>): seq<Event> {
    if msg.encodes then [Take] + Offers(order) + [Finish] else [Take]
  }

  function Offers(order: seq<ClientId>): seq<Event> {
    seq(|order|, i requires 0 <= i < |order| => OfferTo(order[i]))
  }

  /** order visits every registered client once. */
  ghost predicate Visits(order: seq<ClientId>, clients: set<ClientId>) {
    && (forall c :: c in clients ==> c in order)
    && (forall i :: 0 <= i < |order| ==> order[i] in clients)
    && (forall i, j :: 0 <= i < j < |order| ==> order[i] != order[j])
  }

  /** The clients still to be visited are those from place i on. */
  ghost predicate ToVisit(order: seq<ClientId>, i: nat, remaining: set<ClientId>)
    requires i <= |order|
  {
    && (forall j :: i <= j < |order| ==> order[j] in remaining)
    && (forall c :: c in remaining ==> c in order[i..])
    && (forall j, k :: 0 <= j < k < |order| ==> order[j] != order[k])
  }

  lemma NoneVisited(order: seq<ClientId>, clients: set<ClientId>)
    requires Visits(order, clients)
    ensures ToVisit(order, 0, clients)
  {
    assert order[0..] == order;
  }

  lemma VisitOne(order: seq<ClientId>, i: nat, remaining: set<ClientId>)
    requires i < |order| && ToVisit(order, i, remaining)
    ensures order[i] in remaining && ToVisit(order, i + 1, remaining - {order[i]})
  {
    assert order[i..] == [order[i]] + order[i + 1..];
  }

  lemma AllVisited(order: seq<ClientId>, remaining: set<ClientId>)
    requires ToVisit(order, |order|, remaining)
    ensures remaining == {}
  {
    forall c ensures c !in remaining {
      assert c !in order[|order|..];
    }
    assert remaining <= {};
  }

  class EventLoop {
    var conns: map<ClientId, Client>
    var registering: set<ClientId>
    var clients: set<ClientId>
    var waiting: multiset<ClientId>
    var queue: seq<Message>
    var current: Option<Delivery>
    var dispatched: seq<Message>
    var panicked: bool

    ghost function View(): State
      reads this
    {
      State(conns, registering, clients, waiting, queue, current, dispatched, panicked)
    }

    constructor ()
      ensures View() == INITIAL
    {
      conns, registering, clients, waiting := map[], {}, {}, multiset{};
      queue, current, dispatched, panicked := [], None, [], false;
    }

    /** case client := <-h.register */
    method TakeRegister(c: ClientId)
      requires Enabled(View(), Register(c))
      modifies this
      ensures View() == Step(old(View()), Register(c))
    {
      registering := registering - {c};
      clients := clients + {c};
      conns := conns[c := conns[c].(reader := Reading, joined := Some(|dispatched|))];
    }

    /** case client := <-h.unregister */
    method TakeUnregister(c: ClientId)
      requires Enabled(View(), Unregister(c))
      modifies this
      ensures View() == Step(old(View()), Unregister(c))
    {
      waiting := waiting - multiset{c};
      if c in clients {
        var client := conns[c];
        clients := clients - {c};
        panicked := panicked || client.closes > 0;
        conns := conns[c := client.(closes := client.closes + 1, left := Some(|dispatched|))];
      }
    }

    /** case msg := <-h.broadcast: the clients are visited in any order. */
    method TakeBroadcast(order: seq<ClientId>)
      requires Enabled(View(), Take) && Visits(order, clients) && clients <= conns.Keys
      modifies this
      ensures Possible(old(View()), DispatchEvents(old(queue[0]), order))
      ensures View() == Run(old(View()), DispatchEvents(old(queue[0]), order))
    {
      ghost var s, msg := View(), queue[0];
      BeginDispatch();
      RunOne(s, Take);
      if current.None? { return; }
      hide Step, Enabled, Run, Possible, ToVisit;
      assert ToVisit(order, 0, clients) by { NoneVisited(order, clients); }
      ghost var es := [Take];
      for i := 0 to |order|
        invariant current.Some? && current.value.remaining <= conns.Keys
        invariant ToVisit(order, i, current.value.remaining)
        invariant es == [Take] + Offers(order[..i])
        invariant Possible(s, es) && View() == Run(s, es)
      {
        VisitOne(order, i, current.value.remaining);
        OfferClient(order[i]);
        RunSnoc(s, es, OfferTo(order[i]));
        es := es + [OfferTo(order[i])];
      }
      assert order[..|order|] == order;
      AllVisited(order, current.value.remaining);
      EndDispatch();
      RunSnoc(s, es, Finish);
    }

    /** Takes a message off the channel; one that does not encode is logged and forgotten. */
    method BeginDispatch()
      requires Enabled(View(), Take)
      modifies this
      ensures View() == Step(old(View()), Take)
      ensures current == if old(queue[0]).encodes then Some(Delivery(old(queue[0]), clients)) else None
      ensures clients == old(clients) && conns == old(conns)
    {
      var msg := queue[0];
      queue := queue[1..];
      if msg.encodes {
        dispatched := dispatched + [msg];
        current := Some(Delivery(msg, clients));
      }
    }

    method EndDispatch()
      requires current.Some? && current.value.remaining == {}
      modifies this`current
      ensures Enabled(old(View()), Finish) && View() == Step(old(View()), Finish)
    {
      current := None;
    }

    /** One turn of the loop over the clients. */
    method OfferClient(c: ClientId)
      requires current.Some? && c in current.value.remaining && c in conns
      modifies this
      ensures Enabled(old(View()), OfferTo(c)) && View() == Step(old(View()), OfferTo(c))
      ensures current == Some(old(current.value).(remaining := old(current.value.remaining) - {c}))
      ensures conns.Keys == old(conns.Keys)
    {
      hide IsSubscribed;
      var msg, client := current.value.msg, conns[c];
      var logged := client.(offers := client.offers + [Offer(msg, client.topics, |client.send| < BUFFER)]);
      current := Some(Delivery(msg, current.value.remaining - {c}));
      if IsSubscribed(client.topics, msg.topic) {
        if |client.send| < BUFFER {
          panicked := panicked || client.closes > 0;
          logged := logged.(send := client.send + [msg]);
        } else {
          waiting := waiting + multiset{c};
        }
      }
      conns := conns[c := logged];
    }

    /** Client.subscribe */
    method SubscribeTo(c: ClientId, topic: string)
      requires Enabled(View(), Subscribe(c, topic))
      modifies this`conns
      ensures View() == Step(old(View()), Subscribe(c, topic))
    {
      conns := conns[c := conns[c].(topics := conns[c].topics + {topic})];
    }

    /** Client.unsubscribe */
    method UnsubscribeFrom(c: ClientId, topic: string)
      requires Enabled(View(), Unsubscribe(c, topic))
      modifies this`conns
      ensures View() == Step(old(View()), Unsubscribe(c, topic))
    {
      conns := conns[c := conns[c].(topics := conns[c].topics - {topic})];
    }

    /** Hub.Broadcast: dropped when the channel is full. */
    method Send(msg: Message)
      modifies this`queue
      ensures View() == Step(old(View()), Broadcast(msg))
    {
      if |queue| < BUFFER { queue := queue + [msg]; }
    }
  }

  lemma RunOne(s: State, e: Event)
    requires Enabled(s, e)
    ensures Possible(s, [e]) && Run(s, [e]) == Step(s, e)
  {
    assert [e][1..] == [];
  }

  lemma {:induction false} RunSnoc(s: State, es: seq<Event>, e: Event)
    requires Possible(s, es) && Enabled(Run(s, es), e)
    ensures Possible(s, es + [e]) && Run(s, es + [e]) == Step(Run(s, es), e)
    decreases |es|
  {
    if es == [] {
      RunOne(s, e);
      assert es + [e] == [e];
    } else {
      hide Step, Enabled;
      RunSnoc(Step(s, es[0]), es[1..], e);
      assert (es + [e])[1..] == es[1..] + [e];
    }
  }
}
