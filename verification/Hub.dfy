/** The WebSocket hub: one event loop, a reader and a writer goroutine per client, bounded buffers.
    Each send, receive, lock-protected update or goroutine exit is one step; any enabled step may be
    next, so a run is one interleaving of all goroutines. */
module Hub {
  import opened Options

  const BUFFER: nat := 256  // capacity of a client's send channel and of the broadcast channel

  type ClientId = int

  /** `encodes` is false for a message json.Marshal rejects. */
  datatype Message = Message(topic: string, body: string, encodes: bool)

  // ---------- topic matching ----------

  /** The index of the first colon, or the length. */
  function FirstColon(topic: string): (i: nat)
    ensures i <= |topic|
    ensures forall j :: 0 <= j < i ==> topic[j] != ':'
    ensures i < |topic| ==> topic[i] == ':'
  {
    if topic == "" || topic[0] == ':' then 0 else 1 + FirstColon(topic[1..])
  }

  /** Client.isSubscribed */
  predicate IsSubscribed(topics: set<string>, topic: string) {
    || topic in topics
    || (var i := FirstColon(topic); 0 < i < |topic| && topic[..i] in topics)
  }

  /** A topic matches a subscription to itself or to the non-empty text before its first colon. */
  lemma IsSubscribedExact(topics: set<string>, topic: string)
    ensures IsSubscribed(topics, topic) <==>
            topic in topics ||
            exists p :: p in topics && p != "" && ':' !in p && p + ":" <= topic
  {
    var i := FirstColon(topic);
    if 0 < i < |topic| && topic[..i] in topics {
      assert topic[..i] + ":" <= topic;
    }
    if p :| p in topics && p != "" && ':' !in p && p + ":" <= topic {
      assert topic[|p|] == (p + ":")[|p|] == ':';
      assert forall j :: 0 <= j < |p| ==> topic[j] == (p + ":")[j] == p[j];
      assert i == |p|;
      assert topic[..i] == p;
    }
  }

  // ---------- state ----------

  /** What happened when a dispatched message reached a client: its subscriptions and whether its
      buffer had room at that moment. */
  datatype Offer = Offer(msg: Message, topics: set<string>, room: bool) {
    predicate Matches() { IsSubscribed(topics, msg.topic) }
  }

  datatype Reader = NotStarted | Reading | Gone

  /** `offers`, `joined`, `left`, `closes` and `drained` record the client's history:
      joined and left are positions in the log of dispatched messages. */
  datatype Client = Client(
    topics: set<string>,
    send: seq<Message>,
    reader: Reader,
    closes: nat,
    drained: seq<Message>,
    offers: seq<Offer>,
    joined: Option<nat>,
    left: Option<nat>)

  /** A message under dispatch and the registered clients it has not yet been offered to. */
  datatype Delivery = Delivery(msg: Message, remaining: set<ClientId>)

  /** waiting: the goroutines blocked on sending a client to the unregister channel.
      panicked: a goroutine sent on or closed an already closed channel. */
  datatype State = State(
    conns: map<ClientId, Client>,
    registering: set<ClientId>,
    clients: set<ClientId>,
    waiting: multiset<ClientId>,
    queue: seq<Message>,
    current: Option<Delivery>,
    dispatched: seq<Message>,
    panicked: bool)

  const INITIAL := State(map[], {}, {}, multiset{}, [], None, [], false)
  const NEW_CLIENT := Client({}, [], NotStarted, 0, [], [], None, None)

  // ---------- steps ----------

  datatype Event =
    | Connect(c: ClientId)                      // HandleWS creates a client and offers it to the loop
    | Register(c: ClientId)                     // the loop takes it; its pumps start
    | Subscribe(c: ClientId, topic: string)     // readPump
    | Unsubscribe(c: ClientId, topic: string)   // readPump
    | ReaderExit(c: ClientId)                   // readPump returns and asks to unregister
    | Unregister(c: ClientId)                   // the loop takes an unregister request
    | Broadcast(msg: Message)                   // any goroutine
    | Take                                      // the loop takes a broadcast
    | OfferTo(c: ClientId)                      // one iteration of the loop over clients
    | Finish                                    // the loop over clients ends
    | Drain(c: ClientId)                        // writePump receives a message

  /** Whether a step can happen now.  The loop handles one request at a time. */
  predicate Enabled(s: State, e: Event) {
    match e
    case Connect(c) => c !in s.conns
    case Register(c) => s.current.None? && c in s.registering && c in s.conns
    case Subscribe(c, _) => c in s.conns && s.conns[c].reader.Reading?
    case Unsubscribe(c, _) => c in s.conns && s.conns[c].reader.Reading?
    case ReaderExit(c) => c in s.conns && s.conns[c].reader.Reading?
    case Unregister(c) => s.current.None? && c in s.waiting && c in s.conns
    case Broadcast(_) => true
    case Take => s.current.None? && s.queue != []
    case OfferTo(c) => s.current.Some? && c in s.current.value.remaining && c in s.conns
    case Finish => s.current.Some? && s.current.value.remaining == {}
    case Drain(c) => c in s.conns && s.conns[c].send != []
  }

  function Step(s: State, e: Event): State
    requires Enabled(s, e)
  {
    match e
    case Connect(c) =>
      s.(conns := s.conns[c := NEW_CLIENT], registering := s.registering + {c})
    case Register(c) =>
      s.(conns := s.conns[c := s.conns[c].(reader := Reading, joined := Some(|s.dispatched|))],
         registering := s.registering - {c},
         clients := s.clients + {c})
    case Subscribe(c, t) =>
      s.(conns := s.conns[c := s.conns[c].(topics := s.conns[c].topics + {t})])
    case Unsubscribe(c, t) =>
      s.(conns := s.conns[c := s.conns[c].(topics := s.conns[c].topics - {t})])
    case ReaderExit(c) =>
      s.(conns := s.conns[c := s.conns[c].(reader := Gone)], waiting := s.waiting + multiset{c})
    case Unregister(c) => UnregisterStep(s, c)
    case Broadcast(m) =>
      if |s.queue| < BUFFER then s.(queue := s.queue + [m]) else s
    case Take =>
      var m := s.queue[0];
      if m.encodes then
        s.(queue := s.queue[1..], current := Some(Delivery(m, s.clients)), dispatched := s.dispatched + [m])
      else
        s.(queue := s.queue[1..])
    case OfferTo(c) => OfferStep(s, c)
    case Finish => s.(current := None)
    case Drain(c) =>
      var k := s.conns[c];
      s.(conns := s.conns[c := k.(send := k.send[1..], drained := k.drained + [k.send[0]])])
  }

  /** delete(h.clients, client); close(client.send), if the client is still registered */
  function UnregisterStep(s: State, c: ClientId): State
    requires c in s.conns && c in s.waiting
  {
    var t := s.(waiting := s.waiting - multiset{c});
    if c !in s.clients then t
    else
      var k := s.conns[c];
      t.(clients := s.clients - {c},
         conns := s.conns[c := k.(closes := k.closes + 1, left := Some(|s.dispatched|))],
         panicked := s.panicked || k.closes > 0)
  }

  /** if subscribed: send without blocking, or request eviction when the buffer is full */
  function OfferStep(s: State, c: ClientId): State
    requires s.current.Some? && c in s.current.value.remaining && c in s.conns
  {
    var d := s.current.value;
    var k := s.conns[c];
    var o := Offer(d.msg, k.topics, |k.send| < BUFFER);
    var logged := k.(offers := k.offers + [o]);
    var t := s.(current := Some(d.(remaining := d.remaining - {c})));
    if !o.Matches() then
      t.(conns := s.conns[c := logged])
    else if o.room then
      t.(conns := s.conns[c := logged.(send := k.send + [d.msg])], panicked := s.panicked || k.closes > 0)
    else
      t.(conns := s.conns[c := logged], waiting := s.waiting + multiset{c})
  }

  /** A sequence of events each enabled when it happens. */
  predicate Possible(s: State, es: seq<Event>)
    decreases |es|
  {
    es == [] || (Enabled(s, es[0]) && Possible(Step(s, es[0]), es[1..]))
  }

  function Run(s: State, es: seq<Event>): State
    requires Possible(s, es)
    decreases |es|
  {
    if es == [] then s else Run(Step(s, es[0]), es[1..])
  }
}
