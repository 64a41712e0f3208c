/** What every interleaving of the hub keeps. */
module HubSafety {
  import opened Options
  import opened Hub

  /** The messages a client accepted, by its offers: those that matched while the buffer had room. */
  function Accepts(offers: seq<Offer>): seq<Message> {
    if offers == [] then []
    else
      var o := offers[|offers| - 1];
      Accepts(offers[..|offers| - 1]) + if o.Matches() && o.room then [o.msg] else []
  }

  function Messages(offers: seq<Offer>): seq<Message> {
    seq(|offers|, i requires 0 <= i < |offers| => offers[i].msg)
  }

  /** The messages that matched the client's subscriptions when they were dispatched. */
  function Wanted(offers: seq<Offer>): seq<Message> {
    if offers == [] then []
    else
      var o := offers[|offers| - 1];
      Wanted(offers[..|offers| - 1]) + if o.Matches() then [o.msg] else []
  }

  // ---------- the invariant ----------

  /** Registration: a client is first registering, then registered, then closed, exactly once each. */
  ghost predicate LifecycleOk(s: State, c: ClientId)
    requires c in s.conns
  {
    var k := s.conns[c];
    && (c in s.registering <==> k.joined.None?)
    && (c in s.clients <==> k.joined.Some? && k.left.None?)
    && (k.left.Some? ==> k.joined.Some?)
    && k.closes == (if k.left.Some? then 1 else 0)
    && (k.reader.NotStarted? <==> k.joined.None?)
  }

  /** Delivery: the buffer is bounded and holds, after what was drained, exactly what was accepted. */
  ghost predicate BufferOk(k: Client) {
    && |k.send| <= BUFFER
    && k.drained + k.send == Accepts(k.offers)
  }

  /** How many dispatched messages a client has been offered or has missed by leaving. */
  ghost function Offered(s: State, c: ClientId): int
    requires c in s.conns
  {
    if s.conns[c].left.Some? then s.conns[c].left.value
    else if s.current.Some? && c in s.current.value.remaining then |s.dispatched| - 1
    else |s.dispatched|
  }

  /** A client is offered every message dispatched between joining and leaving, in order. */
  ghost predicate SegmentOk(s: State, c: ClientId)
    requires c in s.conns
  {
    var k := s.conns[c];
    if k.joined.None? then k.offers == []
    else
      && k.joined.value <= Offered(s, c) <= |s.dispatched|
      && Messages(k.offers) == s.dispatched[k.joined.value..Offered(s, c)]
  }

  /** A client that missed a message, or whose reader is gone, is closed or about to be. */
  ghost predicate EvictionOk(s: State, c: ClientId)
    requires c in s.conns
  {
    var k := s.conns[c];
    (k.reader.Gone? || exists o :: o in k.offers && o.Matches() && !o.room) ==> c in s.waiting || k.left.Some?
  }

  ghost predicate LoopOk(s: State) {
    && !s.panicked
    && s.registering <= s.conns.Keys && s.clients <= s.conns.Keys
    && |s.queue| <= BUFFER
    && (forall c :: c in s.waiting ==> c in s.conns)
    && (s.current.Some? ==>
          && s.current.value.remaining <= s.clients
          && s.dispatched != [] && s.dispatched[|s.dispatched| - 1] == s.current.value.msg)
  }

  ghost predicate ClientOk(s: State, c: ClientId)
    requires c in s.conns
  {
    LifecycleOk(s, c) && BufferOk(s.conns[c]) && SegmentOk(s, c) && EvictionOk(s, c)
  }

  ghost predicate Inv(s: State) {
    LoopOk(s) && forall c :: c in s.conns ==> ClientOk(s, c)
  }

  // ---------- preservation ----------

  /** A step that leaves a client and its place in the log alone keeps what is known of it. */
  lemma Frame(s: State, t: State, c: ClientId)
    requires c in s.conns && c in t.conns && t.conns[c] == s.conns[c] && ClientOk(s, c)
    requires (c in s.registering <==> c in t.registering) && (c in s.clients <==> c in t.clients)
    requires c in s.waiting ==> c in t.waiting
    requires s.dispatched <= t.dispatched
    requires s.conns[c].joined.None? || Offered(s, c) == Offered(t, c)
    ensures ClientOk(t, c)
  {
    hide BufferOk;
  }

  lemma OfferKeepsBuffer(s: State, c: ClientId)
    requires Enabled(s, OfferTo(c)) && BufferOk(s.conns[c])
    ensures BufferOk(OfferStep(s, c).conns[c])
  {
    hide IsSubscribed, Accepts;
    var k, k' := s.conns[c], OfferStep(s, c).conns[c];
    var o := Offer(s.current.value.msg, k.topics, |k.send| < BUFFER);
    assert k'.offers == k.offers + [o];
    SnocAccepts(k.offers, o);
    assert k.drained + (k.send + [o.msg]) == (k.drained + k.send) + [o.msg];
  }

  lemma OfferKeepsSegment(s: State, c: ClientId)
    requires Enabled(s, OfferTo(c)) && LoopOk(s) && LifecycleOk(s, c) && SegmentOk(s, c)
    ensures SegmentOk(OfferStep(s, c), c)
  {
    hide IsSubscribed;
    var t := OfferStep(s, c);
    var k, k', n := s.conns[c], t.conns[c], |s.dispatched|;
    assert c in s.clients;
    assert Offered(s, c) == n - 1 && Offered(t, c) == n;
    assert k'.offers[..|k.offers|] == k.offers;
    assert Messages(k'.offers) == Messages(k.offers) + [s.dispatched[n - 1]];
    assert s.dispatched[k.joined.value..n] == s.dispatched[k.joined.value..n - 1] + [s.dispatched[n - 1]];
  }

  lemma OfferKeepsEviction(s: State, c: ClientId)
    requires Enabled(s, OfferTo(c)) && EvictionOk(s, c)
    ensures EvictionOk(OfferStep(s, c), c)
  {
    hide IsSubscribed;
  }

  lemma OfferKeeps(s: State, c: ClientId)
    requires Inv(s) && Enabled(s, OfferTo(c))
    ensures Inv(Step(s, OfferTo(c)))
  {
    hide BufferOk, SegmentOk, EvictionOk, IsSubscribed;
    var t := OfferStep(s, c);
    assert ClientOk(s, c);
    OfferKeepsBuffer(s, c);
    OfferKeepsSegment(s, c);
    OfferKeepsEviction(s, c);
    forall d | d in t.conns && d != c ensures ClientOk(t, d) {
      Frame(s, t, d);
    }
  }

  /** The step that closes a client's channel. */
  lemma CloseKeeps(s: State, c: ClientId)
    requires LoopOk(s) && Enabled(s, Unregister(c)) && ClientOk(s, c)
    ensures ClientOk(UnregisterStep(s, c), c) && !UnregisterStep(s, c).panicked
  {
    hide IsSubscribed, Accepts;
  }

  lemma UnregisterKeeps(s: State, c: ClientId)
    requires Inv(s) && Enabled(s, Unregister(c))
    ensures Inv(Step(s, Unregister(c)))
  {
    hide SegmentOk, BufferOk, EvictionOk;
    var t := UnregisterStep(s, c);
    assert ClientOk(s, c);
    CloseKeeps(s, c);
    forall d | d in t.conns && d != c ensures ClientOk(t, d) {
      Frame(s, t, d);
    }
  }

  lemma TakeKeeps(s: State)
    requires Inv(s) && Enabled(s, Take)
    ensures Inv(Step(s, Take))
  {
    hide SegmentOk, BufferOk, EvictionOk;
    var t := Step(s, Take);
    forall d | d in t.conns ensures ClientOk(t, d) {
      assert ClientOk(s, d);
      Frame(s, t, d);
    }
  }

  /** Steps of one client's goroutines, and its registration. */
  lemma ClientStepKeeps(s: State, e: Event)
    requires Inv(s) && Enabled(s, e)
    requires e.Connect? || e.Register? || e.Subscribe? || e.Unsubscribe? || e.ReaderExit? || e.Drain?
    ensures Inv(Step(s, e))
  {
    hide SegmentOk, BufferOk, EvictionOk;
    var t := Step(s, e);
    OwnStepKeeps(s, e);
    forall d | d in t.conns && d != e.c ensures ClientOk(t, d) {
      assert ClientOk(s, d);
      Frame(s, t, d);
    }
  }

  lemma OwnStepKeeps(s: State, e: Event)
    requires Enabled(s, e) && LoopOk(s)
    requires e.Connect? || e.Register? || e.Subscribe? || e.Unsubscribe? || e.ReaderExit? || e.Drain?
    requires e.c in s.conns ==> ClientOk(s, e.c)
    ensures ClientOk(Step(s, e), e.c)
  {
    match e
    case Connect(c) => JoiningKeeps(s, e);
    case Register(c) => JoiningKeeps(s, e);
    case Drain(c) => DrainKeeps(s, c);
    case _ => ReaderKeeps(s, e);
  }

  lemma JoiningKeeps(s: State, e: Event)
    requires Enabled(s, e) && LoopOk(s) && (e.Connect? || e.Register?)
    requires e.c in s.conns ==> ClientOk(s, e.c)
    ensures ClientOk(Step(s, e), e.c)
  {
    hide IsSubscribed;
    var k := Step(s, e).conns[e.c];
    assert k.offers == [] && Messages(k.offers) == [];
    assert k.send == (if e.Register? then s.conns[e.c].send else []);
  }

  lemma ReaderKeeps(s: State, e: Event)
    requires Enabled(s, e) && LoopOk(s) && (e.Subscribe? || e.Unsubscribe? || e.ReaderExit?)
    requires ClientOk(s, e.c)
    ensures ClientOk(Step(s, e), e.c)
  {
    hide IsSubscribed, Accepts;
  }

  lemma DrainKeeps(s: State, c: ClientId)
    requires Enabled(s, Drain(c)) && LoopOk(s) && ClientOk(s, c)
    ensures ClientOk(Step(s, Drain(c)), c)
  {
    hide IsSubscribed, Accepts;
    var k := s.conns[c];
    assert k.drained + [k.send[0]] + k.send[1..] == k.drained + k.send;
  }

  /** Steps that touch only the queue or end a dispatch. */
  lemma LoopOnlyKeeps(s: State, e: Event)
    requires Inv(s) && Enabled(s, e) && (e.Broadcast? || e.Finish?)
    ensures Inv(Step(s, e))
  {
    hide SegmentOk, BufferOk, EvictionOk;
    forall d | d in s.conns ensures ClientOk(Step(s, e), d) {
      assert ClientOk(s, d);
      Frame(s, Step(s, e), d);
    }
  }

  lemma StepKeeps(s: State, e: Event)
    requires Inv(s) && Enabled(s, e)
    ensures Inv(Step(s, e))
  {
    hide Inv, Step, Enabled;
    match e
    case Take => TakeKeeps(s);
    case OfferTo(c) => OfferKeeps(s, c);
    case Unregister(c) => UnregisterKeeps(s, c);
    case Broadcast(m) => LoopOnlyKeeps(s, e);
    case Finish => LoopOnlyKeeps(s, e);
    case _ => ClientStepKeeps(s, e);
  }

  lemma {:induction false} RunKeeps(s: State, es: seq<Event>)
    requires Inv(s) && Possible(s, es)
    ensures Inv(Run(s, es))
    decreases |es|
  {
    hide Inv, Enabled, Step;
    if es != [] {
      StepKeeps(s, es[0]);
      RunKeeps(Step(s, es[0]), es[1..]);
    }
  }

  // ---------- whole runs ----------

  /** Channel safety, over every interleaving: nothing is sent on or closed after a close, a channel is
      closed at most once and exactly when its client has registered and left, and no channel
      overflows. */
  lemma ChannelsSafe(es: seq<Event>)
    requires Possible(INITIAL, es)
    ensures var s := Run(INITIAL, es);
            && !s.panicked
            && |s.queue| <= BUFFER
            && forall c :: c in s.conns ==>
                 && |s.conns[c].send| <= BUFFER
                 && s.conns[c].closes <= 1
                 && (s.conns[c].closes == 1 <==> c !in s.registering && c !in s.clients)
  {
    RunKeeps(INITIAL, es);
    var s := Run(INITIAL, es);
    forall c | c in s.conns
      ensures |s.conns[c].send| <= BUFFER && s.conns[c].closes <= 1
      ensures s.conns[c].closes == 1 <==> c !in s.registering && c !in s.clients
    {
      assert ClientOk(s, c);
    }
  }

  /** The messages of the broadcasts that found fewer than 256 waiting. */
  function Posted(s: State, es: seq<Event>): seq<Message>
    requires Possible(s, es)
    decreases |es|
  {
    if es == [] then []
    else
      (if es[0].Broadcast? && |s.queue| < 256 then [es[0].msg] else []) + Posted(Step(s, es[0]), es[1..])
  }

  /** Those that encode. */
  function Encoded(ms: seq<Message>): seq<Message> {
    if ms == [] then []
    else Encoded(ms[..|ms| - 1]) + if ms[|ms| - 1].encodes then [ms[|ms| - 1]] else []
  }

  lemma {:induction false} EncodedConcat(a: seq<Message>, b: seq<Message>)
    ensures Encoded(a + b) == Encoded(a) + Encoded(b)
  {
    if b == [] {
      assert a + b == a;
    } else {
      assert (a + b)[..|a + b| - 1] == a + b[..|b| - 1];
      EncodedConcat(a, b[..|b| - 1]);
    }
  }

  lemma EncodedOne(m: Message)
    ensures Encoded([m]) == if m.encodes then [m] else []
  {
    assert [m][..0] == [];
  }

  lemma StepPosts(s: State, e: Event)
    requires Enabled(s, e)
    ensures var t := Step(s, e);
            t.dispatched + Encoded(t.queue) ==
              s.dispatched + Encoded(s.queue + if e.Broadcast? && |s.queue| < 256 then [e.msg] else [])
  {
    hide IsSubscribed, Encoded;
    match e
    case Take =>
      EncodedConcat([s.queue[0]], s.queue[1..]);
      EncodedOne(s.queue[0]);
      assert s.queue == [s.queue[0]] + s.queue[1..];
    case _ => assert s.queue + [] == s.queue;
  }

  /** Over every run, what was dispatched followed by what waits is what was broadcast, in that order, less
      the messages that met a full channel and those that do not encode. */
  lemma {:induction false} DispatchedInOrder(s: State, es: seq<Event>)
    requires Possible(s, es)
    ensures Run(s, es).dispatched + Encoded(Run(s, es).queue) == s.dispatched + Encoded(s.queue + Posted(s, es))
    decreases |es|
  {
    hide Step, Enabled, Encoded;
    if es == [] {
      assert s.queue + [] == s.queue;
    } else {
      var t, now := Step(s, es[0]), if es[0].Broadcast? && |s.queue| < 256 then [es[0].msg] else [];
      StepPosts(s, es[0]);
      DispatchedInOrder(t, es[1..]);
      EncodedConcat(t.queue, Posted(t, es[1..]));
      EncodedConcat(s.queue + now, Posted(t, es[1..]));
      assert s.queue + Posted(s, es) == s.queue + now + Posted(t, es[1..]);
      var rest := Encoded(Posted(t, es[1..]));
      assert t.dispatched + (Encoded(t.queue) + rest) == t.dispatched + Encoded(t.queue) + rest;
      assert s.dispatched + (Encoded(s.queue + now) + rest) == s.dispatched + Encoded(s.queue + now) + rest;
    }
  }

  function TopicsOf(s: State, c: ClientId): set<string> {
    if c in s.conns then s.conns[c].topics else {}
  }

  /** What one of the client's own messages does to its topics. */
  function Told(topics: set<string>, e: Event, c: ClientId): set<string> {
    match e
    case Subscribe(d, t) => if d == c then topics + {t} else topics
    case Unsubscribe(d, t) => if d == c then topics - {t} else topics
    case _ => topics
  }

  function Replay(topics: set<string>, es: seq<Event>, c: ClientId): set<string>
    decreases |es|
  {
    if es == [] then topics else Replay(Told(topics, es[0], c), es[1..], c)
  }

  lemma OfferLeaves(s: State, d: ClientId, c: ClientId)
    requires Enabled(s, OfferTo(d)) && c in s.conns
    ensures c in OfferStep(s, d).conns
    ensures var k, k' := s.conns[c], OfferStep(s, d).conns[c];
            k'.topics == k.topics && k'.drained == k.drained && (c != d ==> k' == k)
  {
    hide IsSubscribed;
  }

  lemma UnregisterLeaves(s: State, d: ClientId, c: ClientId)
    requires Enabled(s, Unregister(d)) && c in s.conns
    ensures c in UnregisterStep(s, d).conns
    ensures var k, k' := s.conns[c], UnregisterStep(s, d).conns[c];
            k'.topics == k.topics && k'.drained == k.drained && k'.send == k.send
  {
  }

  lemma NobodyAdded(s: State, e: Event, c: ClientId)
    requires Enabled(s, e) && c !in s.conns && c in Step(s, e).conns
    ensures e == Connect(c)
  {
    hide IsSubscribed;
  }

  lemma OthersTellNothing(s: State, e: Event, c: ClientId)
    requires Enabled(s, e) && !e.Subscribe? && !e.Unsubscribe?
    ensures TopicsOf(Step(s, e), c) == TopicsOf(s, c)
  {
    hide OfferStep, UnregisterStep;
    if c in s.conns {
      match e
      case OfferTo(d) => OfferLeaves(s, d, c);
      case Unregister(d) => UnregisterLeaves(s, d, c);
      case _ =>
    } else if c in Step(s, e).conns {
      NobodyAdded(s, e, c);
    }
  }

  lemma StepTells(s: State, e: Event, c: ClientId)
    requires Enabled(s, e)
    ensures TopicsOf(Step(s, e), c) == Told(TopicsOf(s, c), e, c)
  {
    if !e.Subscribe? && !e.Unsubscribe? {
      hide Step;
      OthersTellNothing(s, e, c);
    }
  }

  /** Whatever else happens in between, a client's subscriptions are what its own messages made them. */
  lemma {:induction false} TopicsAreReplayed(s: State, es: seq<Event>, c: ClientId)
    requires Possible(s, es)
    ensures TopicsOf(Run(s, es), c) == Replay(TopicsOf(s, c), es, c)
    decreases |es|
  {
    hide Step, Enabled, Told, TopicsOf;
    if es != [] {
      StepTells(s, es[0], c);
      TopicsAreReplayed(Step(s, es[0]), es[1..], c);
    }
  }

  // ---------- what a client receives ----------

  /** What was put into a client's channel, drained or not. */
  function Received(s: State, c: ClientId): seq<Message> {
    if c in s.conns then s.conns[c].drained + s.conns[c].send else []
  }

  /** The client is offered a message that it has subscribed to. */
  predicate Reaches(s: State, e: Event, c: ClientId) {
    e == OfferTo(c) && s.current.Some? && IsSubscribed(TopicsOf(s, c), s.current.value.msg.topic)
  }

  function Waiting(s: State, c: ClientId): nat {
    if c in s.conns then |s.conns[c].send| else 0
  }

  /** The message, if there are fewer than 256 in the client's channel. */
  function Given(s: State, e: Event, c: ClientId): seq<Message> {
    if Reaches(s, e, c) && Waiting(s, c) < 256 then [s.current.value.msg] else []
  }

  function Due(s: State, es: seq<Event>, c: ClientId): seq<Message>
    requires Possible(s, es)
    decreases |es|
  {
    if es == [] then [] else Given(s, es[0], c) + Due(Step(s, es[0]), es[1..], c)
  }

  lemma OfferGives(s: State, c: ClientId)
    requires Enabled(s, OfferTo(c))
    ensures Received(OfferStep(s, c), c) == Received(s, c) + Given(s, OfferTo(c), c)
    ensures OfferStep(s, c).waiting ==
              s.waiting + if Reaches(s, OfferTo(c), c) && Waiting(s, c) >= 256 then multiset{c} else multiset{}
  {
    hide IsSubscribed;
    var k, m := s.conns[c], s.current.value.msg;
    assert k.drained + (k.send + [m]) == k.drained + k.send + [m];
    assert OfferStep(s, c).conns[c].drained == k.drained;
  }

  lemma DrainGivesNothing(s: State, c: ClientId)
    requires Enabled(s, Drain(c))
    ensures Received(Step(s, Drain(c)), c) == Received(s, c)
  {
    var k := s.conns[c];
    assert k.drained + [k.send[0]] + k.send[1..] == k.drained + k.send;
  }

  /** One step puts into a client's channel the message given to it and nothing else. */
  lemma StepGives(s: State, e: Event, c: ClientId)
    requires Enabled(s, e)
    ensures Received(Step(s, e), c) == Received(s, c) + Given(s, e, c)
  {
    hide IsSubscribed;
    if e == OfferTo(c) {
      OfferGives(s, c);
    } else {
      assert Given(s, e, c) == [];
      if e == Drain(c) { DrainGivesNothing(s, c); } else { OthersGiveNothing(s, e, c); }
    }
  }

  lemma OthersGiveNothing(s: State, e: Event, c: ClientId)
    requires Enabled(s, e) && e != OfferTo(c) && e != Drain(c)
    ensures Received(Step(s, e), c) == Received(s, c)
  {
    hide OfferStep, UnregisterStep;
    if c in s.conns {
      match e
      case OfferTo(d) => OfferLeaves(s, d, c);
      case Unregister(d) => UnregisterLeaves(s, d, c);
      case _ =>
    } else if c in Step(s, e).conns {
      NobodyAdded(s, e, c);
    }
  }

  /** Over every run a client receives, in order, exactly the messages that reach it, by the subscriptions it
      has then, while fewer than 256 are in its channel. */
  lemma {:induction false} ReceivesExactly(s: State, es: seq<Event>, c: ClientId)
    requires Possible(s, es)
    ensures Received(Run(s, es), c) == Received(s, c) + Due(s, es, c)
    decreases |es|
  {
    hide Step, Enabled, Received, Given;
    if es != [] {
      StepGives(s, es[0], c);
      ReceivesExactly(Step(s, es[0]), es[1..], c);
    }
  }

  ghost predicate Subsequence(a: seq<Message>, b: seq<Message>) {
    if b == [] then a == []
    else
      Subsequence(a, b[..|b| - 1]) ||
      (a != [] && a[|a| - 1] == b[|b| - 1] && Subsequence(a[..|a| - 1], b[..|b| - 1]))
  }

  lemma {:induction false} AcceptsOrdered(offers: seq<Offer>)
    ensures Subsequence(Accepts(offers), Messages(offers))
    ensures Subsequence(Accepts(offers), Wanted(offers))
  {
    if offers != [] {
      var n := |offers| - 1;
      var o := offers[n];
      assert offers == offers[..n] + [o];
      AcceptsOrdered(offers[..n]);
      var a, m, w := Accepts(offers), Messages(offers), Wanted(offers);
      var a0, m0, w0 := Accepts(offers[..n]), Messages(offers[..n]), Wanted(offers[..n]);
      assert m[..n] == m0 && m[n] == o.msg;
      if o.Matches() {
        assert w == w0 + [o.msg] && w[..|w| - 1] == w0;
        if o.room {
          assert a == a0 + [o.msg] && a[..|a| - 1] == a0;
        } else {
          assert a == a0;
        }
      } else {
        assert a == a0 && w == w0;
      }
    }
  }

  /** Delivery, over every interleaving: a client is offered exactly the messages dispatched between
      joining and leaving; what it accepted (drained, then buffered) is an in-order subsequence of
      those that matched its subscriptions when dispatched, and all of them exactly when its buffer had
      room at each of these; and a client that missed one is closed or has a pending unregister request. */
  lemma DeliveryExact(es: seq<Event>, c: ClientId)
    requires Possible(INITIAL, es) && c in Run(INITIAL, es).conns
    requires Run(INITIAL, es).conns[c].joined.Some?
    ensures var s := Run(INITIAL, es);
            var k := s.conns[c];
            var accepted := k.drained + k.send;
            && k.joined.value <= Offered(s, c) <= |s.dispatched|
            && Messages(k.offers) == s.dispatched[k.joined.value..Offered(s, c)]
            && Subsequence(accepted, Messages(k.offers))
            && Subsequence(accepted, Wanted(k.offers))
            && (accepted == Wanted(k.offers) <==> forall o :: o in k.offers && o.Matches() ==> o.room)
            && (accepted != Wanted(k.offers) ==> c in s.waiting || k.closes == 1)
  {
    RunKeeps(INITIAL, es);
    var s := Run(INITIAL, es);
    var k := s.conns[c];
    assert ClientOk(s, c);
    AcceptsOrdered(k.offers);
    AcceptsAllWanted(k.offers);
  }

  /** All that matched was accepted exactly when there was room for each. */
  lemma {:induction false} AcceptsAllWanted(offers: seq<Offer>)
    ensures |Accepts(offers)| <= |Wanted(offers)|
    ensures Accepts(offers) == Wanted(offers) <==> forall o :: o in offers && o.Matches() ==> o.room
  {
    hide IsSubscribed;
    if offers != [] {
      var n := |offers| - 1;
      var o := offers[n];
      assert offers == offers[..n] + [o];
      AcceptsAllWanted(offers[..n]);
      SnocAccepts(offers[..n], o);
      var a, w := Accepts(offers[..n]), Wanted(offers[..n]);
      if o.Matches() && o.room && a + [o.msg] == w + [o.msg] {
        assert a == (a + [o.msg])[..|a|] == (w + [o.msg])[..|w|] == w;
      }
    }
  }

  lemma SnocAccepts(offers: seq<Offer>, o: Offer)
    ensures Accepts(offers + [o]) == if o.Matches() && o.room then Accepts(offers) + [o.msg] else Accepts(offers)
    ensures Wanted(offers + [o]) == if o.Matches() then Wanted(offers) + [o.msg] else Wanted(offers)
  {
    hide IsSubscribed;
    assert (offers + [o])[..|offers|] == offers;
  }
}
