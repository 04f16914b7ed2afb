/** The data connection of one replica: matching responses to pending requests by sequence number,
    clean-up after a client error, and the timeout accounting that several connections share.
 */
module DataConn {
  import opened Integers

  datatype Kind = Read | Write | Unmap | Ping

  /** A request as its caller holds it; `id` is its identity. */
  datatype Request = Request(id: nat, kind: Kind)

  /** What a caller waiting for its request receives. */
  datatype Reply = Answer(sequence: nat, payload: seq<int>) | Error(error: string)

  datatype ClientError = NoError | Failed(error: string)

  const SEQ_LIMIT: nat := U32
  const RW_TIMEOUT: string := "r/w timeout"

  type Table = map<nat, Request>

  predicate CountsAsIO(r: Request) {
    r.kind != Ping
  }

  /** The sequence numbers of pending reads, writes and unmaps. */
  function PendingIO(messages: Table): set<nat> {
    set q | q in messages && CountsAsIO(messages[q])
  }

  function NextSeq(sequence: nat): nat {
    (sequence + 1) % SEQ_LIMIT
  }

  /** The state of one client loop. `replies` logs what every issued request has received so far and
      `numbers` the sequence number it was sent under; `lastActivity` is 0 while it is unset. */
  datatype Conn = Conn(
    sequence: nat,
    messages: Table,
    error: ClientError,
    ioInflight: int,
    lastActivity: nat,
    decremented: bool,
    replies: map<nat, seq<Reply>>,
    numbers: map<nat, nat>)

  const FRESH := Conn(0, map[], NoError, 0, 0, false, map[], map[])

  datatype Event =
    | Asked(req: Request, now: nat)
    | Answered(sequence: nat, payload: seq<int>, now: nat)
    | Broke(error: string)
    | Ticked(now: nat)

  predicate Waiting(c: Conn, id: nat) {
    id in c.numbers && c.numbers[id] in c.messages && c.messages[c.numbers[id]].id == id
  }

  /** The one reply carries the request's own number, or is an error. */
  predicate OwnReply(c: Conn, id: nat)
    requires id in c.replies
  {
    && |c.replies[id]| == 1
    && (c.replies[id][0].Answer? ==> id in c.numbers && c.replies[id][0].sequence == c.numbers[id])
  }

  /** A request is pending, under its own number and without a reply, or it has exactly one reply. */
  ghost predicate Matched(c: Conn) {
    && c.numbers.Keys <= c.replies.Keys
    && (forall q | q in c.messages :: c.messages[q].id in c.numbers && c.numbers[c.messages[q].id] == q)
    && (forall id | id in c.replies :: if Waiting(c, id) then c.replies[id] == [] else OwnReply(c, id))
  }

  ghost predicate ConnOk(c: Conn) {
    && Matched(c)
    && c.ioInflight == |PendingIO(c.messages)|
    && (c.ioInflight != 0 ==> c.lastActivity != 0)
    && (c.error.Failed? ==> c.messages == map[])
    && (c.decremented ==> c.error.Failed?)
  }

  // ----- one event of the loop -----

  /** Everything pending receives the error. */
  function CleanUp(c: Conn, error: string): Conn {
    c.(messages := map[], error := Failed(error), ioInflight := 0, lastActivity := 0,
       replies := map id | id in c.replies :: if Waiting(c, id) then c.replies[id] + [Error(error)] else c.replies[id])
  }

  function Register(c: Conn, req: Request, now: nat): Conn {
    var q := NextSeq(c.sequence);
    c.(sequence := q, messages := c.messages[q := req],
       ioInflight := if CountsAsIO(req) then c.ioInflight + 1 else c.ioInflight,
       lastActivity := if CountsAsIO(req) && c.ioInflight == 0 then now else c.lastActivity,
       replies := c.replies[req.id := []], numbers := c.numbers[req.id := q])
  }

  function Complete(c: Conn, q: nat, reply: Reply, now: nat): Conn
    requires q in c.messages && c.messages[q].id in c.replies
  {
    var req := c.messages[q];
    c.(messages := c.messages - {q},
       ioInflight := if CountsAsIO(req) then c.ioInflight - 1 else c.ioInflight,
       lastActivity := if CountsAsIO(req) then now else c.lastActivity,
       replies := c.replies[req.id := c.replies[req.id] + [reply]])
  }

  /** The short timeout only counts while another consumer is left to wait for the long one. */
  predicate Expires(consumers: int, short: nat, long: nat, elapsed: int) {
    elapsed > long || (elapsed > short && consumers > 1)
  }

  predicate TimesOut(c: Conn, consumers: int, short: nat, long: nat, now: nat) {
    c.lastActivity != 0 && c.ioInflight != 0 && Expires(consumers, short, long, now - c.lastActivity)
  }

  /** What may happen: identities are unique, time is set, and no pending request is so old that its
      number comes round again. */
  predicate Possible(c: Conn, e: Event) {
    match e
    case Asked(req, now) =>
      req.id !in c.replies && now > 0 && (c.error == NoError ==> NextSeq(c.sequence) !in c.messages)
    case Answered(_, _, now) => now > 0
    case _ => true
  }

  /** One turn of the loop; `timedOut` says whether a tick found the timeout exceeded. */
  function Handle(c: Conn, e: Event, timedOut: bool): Conn
    requires ConnOk(c)
  {
    match e
    case Asked(req, now) =>
      if c.error.Failed? then c.(replies := c.replies[req.id := [Error(c.error.error)]]) else Register(c, req, now)
    case Answered(q, payload, now) =>
      if q !in c.messages then c else Complete(c, q, Answer(q, payload), now)
    case Broke(error) => CleanUp(c, error)
    case Ticked(_) => if timedOut then CleanUp(c, RW_TIMEOUT).(decremented := true) else c
  }

  // ----- what every event keeps -----

  lemma RegisterKeeps(c: Conn, req: Request, now: nat)
    requires ConnOk(c) && c.error == NoError && Possible(c, Asked(req, now))
    ensures ConnOk(Register(c, req, now))
  {
    var c' := Register(c, req, now);
    var q := c'.sequence;
    assert PendingIO(c'.messages) == if CountsAsIO(req) then PendingIO(c.messages) + {q} else PendingIO(c.messages);
    forall id | id in c'.replies ensures if Waiting(c', id) then c'.replies[id] == [] else OwnReply(c', id) {
      if id != req.id {
        assert Waiting(c', id) <==> Waiting(c, id);
      }
    }
  }

  lemma CompleteKeeps(c: Conn, q: nat, reply: Reply, now: nat)
    requires ConnOk(c) && q in c.messages && now > 0 && (reply.Answer? ==> reply.sequence == q)
    ensures ConnOk(Complete(c, q, reply, now))
  {
    var c' := Complete(c, q, reply, now);
    var req := c.messages[q];
    assert Waiting(c, req.id);
    assert PendingIO(c'.messages) == if CountsAsIO(req) then PendingIO(c.messages) - {q} else PendingIO(c.messages);
    forall id | id in c'.replies ensures if Waiting(c', id) then c'.replies[id] == [] else OwnReply(c', id) {
      if id != req.id {
        assert Waiting(c', id) <==> Waiting(c, id);
      }
    }
  }

  lemma CleanUpKeeps(c: Conn, error: string)
    requires ConnOk(c)
    ensures ConnOk(CleanUp(c, error))
  {
    assert PendingIO(CleanUp(c, error).messages) == {};
  }

  /** Clean-up in progress: the requests no longer in the table have received the error. */
  ghost predicate PartlyReplied(was: Conn, messages: Table, replies: map<nat, seq<Reply>>, error: string) {
    && Matched(was)
    && (forall q | q in messages :: q in was.messages && messages[q] == was.messages[q])
    && replies.Keys == was.replies.Keys
    && (forall id | id in replies ::
          replies[id] == if Waiting(was, id) && was.numbers[id] !in messages
                         then was.replies[id] + [Error(error)] else was.replies[id])
  }

  lemma PartlyStep(was: Conn, messages: Table, replies: map<nat, seq<Reply>>, error: string, q: nat)
    requires PartlyReplied(was, messages, replies, error) && q in messages
    ensures messages[q].id in replies && |(messages - {q}).Keys| < |messages.Keys|
    ensures PartlyReplied(was, messages - {q}, replies[messages[q].id := replies[messages[q].id] + [Error(error)]],
                          error)
  {
    assert (messages - {q}).Keys == messages.Keys - {q};
    assert Waiting(was, was.messages[q].id);
  }

  lemma PartlyEnds(was: Conn, messages: Table, replies: map<nat, seq<Reply>>, error: string)
    ensures Matched(was) && messages == was.messages && replies == was.replies ==>
              PartlyReplied(was, messages, replies, error)
    ensures PartlyReplied(was, messages, replies, error) && messages == map[] ==> replies == CleanUp(was, error).replies
  {
  }

  /** Replies already received stay as they are. */
  ghost predicate Settled(c: Conn, c': Conn) {
    forall id | id in c.replies :: id in c'.replies && c.replies[id] <= c'.replies[id]
  }

  /** Every event keeps the matching, the in-flight count and the empty table after an error. */
  lemma HandleKeeps(c: Conn, e: Event, timedOut: bool)
    requires ConnOk(c) && Possible(c, e)
    ensures ConnOk(Handle(c, e, timedOut)) && Settled(c, Handle(c, e, timedOut))
    ensures c.error.Failed? ==> Handle(c, e, timedOut).error.Failed?
  {
    match e
    case Asked(req, now) =>
      if c.error == NoError { RegisterKeeps(c, req, now); }
    case Answered(q, payload, now) =>
      if q in c.messages { CompleteKeeps(c, q, Answer(q, payload), now); }
    case Broke(error) => CleanUpKeeps(c, error);
    case Ticked(_) => CleanUpKeeps(c, RW_TIMEOUT);
  }

  /** What a request does: after an error it is answered with it; otherwise it is sent under the next number, and the
      clock starts if nothing was in flight. */
  lemma AskedEffect(c: Conn, req: Request, now: nat)
    requires ConnOk(c) && Possible(c, Asked(req, now))
    ensures var c' := Handle(c, Asked(req, now), false);
            && (forall id | id in c.replies :: id in c'.replies && c'.replies[id] == c.replies[id])
            && c'.replies.Keys == c.replies.Keys + {req.id} && c'.error == c.error && c'.decremented == c.decremented
            && (c.error.Failed? ==> c'.replies[req.id] == [Error(c.error.error)] && c'.messages == map[])
            && (c.error == NoError ==>
                  && c'.sequence == (c.sequence + 1) % 0x1_0000_0000 && c'.messages == c.messages[c'.sequence := req]
                  && c'.numbers == c.numbers[req.id := c'.sequence] && c'.replies[req.id] == []
                  && c'.lastActivity == if req.kind != Ping && PendingIO(c.messages) == {} then now
                                        else c.lastActivity)
  {
  }

  /** What a response does: the request pending under its number receives its data, all others are left alone. */
  lemma AnsweredEffect(c: Conn, q: nat, payload: seq<int>, now: nat)
    requires ConnOk(c) && now > 0
    ensures var c' := Handle(c, Answered(q, payload, now), false);
            && (q !in c.messages ==> c' == c)
            && (q in c.messages ==>
                  && c'.messages == c.messages - {q} && c.messages[q].id in c.replies
                  && c'.replies == c.replies[c.messages[q].id := [Answer(q, payload)]]
                  && c'.lastActivity == (if c.messages[q].kind != Ping then now else c.lastActivity)
                  && c'.error == c.error && c'.numbers == c.numbers && c'.sequence == c.sequence)
  {
    if q in c.messages {
      assert Waiting(c, c.messages[q].id);
      assert c.replies[c.messages[q].id] + [Answer(q, payload)] == [Answer(q, payload)];
    }
  }

  /** What an error does: exactly the pending requests receive it, and nothing is pending. */
  lemma BrokenEffect(c: Conn, e: Event, timedOut: bool)
    requires ConnOk(c) && (e.Broke? || (e.Ticked? && timedOut))
    ensures var c', m := Handle(c, e, timedOut), if e.Broke? then e.error else RW_TIMEOUT;
            && c'.error == Failed(m) && c'.messages == map[] && c'.lastActivity == 0
            && c'.replies.Keys == c.replies.Keys
            && (forall q | q in c.messages :: c'.replies[c.messages[q].id] == [Error(m)])
            && (forall id | id in c.replies && c.replies[id] != [] :: c'.replies[id] == c.replies[id])
            && c'.decremented == (c.decremented || e.Ticked?)
  {
    forall q | q in c.messages ensures Waiting(c, c.messages[q].id) {
    }
  }

  lemma NothingPending(c: Conn)
    requires ConnOk(c) && c.error.Failed?
    ensures c.messages == map[]
  {
  }

  // ----- whole runs of a loop -----

  /** A run of one loop from its start; `expired[k]` says whether the tick at `k` found the timeout exceeded. */
  ghost predicate IsRun(cs: seq<Conn>, es: seq<Event>, expired: seq<bool>) {
    && |cs| == |es| + 1 && |expired| == |es| && cs[0] == FRESH
    && forall k | 0 <= k < |es| ::
         ConnOk(cs[k]) ==> Possible(cs[k], es[k]) && cs[k + 1] == Handle(cs[k], es[k], expired[k])
  }

  lemma {:induction false} RunOk(cs: seq<Conn>, es: seq<Event>, expired: seq<bool>, i: nat)
    requires IsRun(cs, es, expired) && i < |cs|
    ensures ConnOk(cs[i])
  {
    hide ConnOk, Handle;
    if i == 0 {
      FreshOk();
    } else {
      RunOk(cs, es, expired, i - 1);
      HandleKeeps(cs[i - 1], es[i - 1], expired[i - 1]);
    }
  }

  /** The event explains the reply: it is the data of a response to this request, the error that ended it, or the
      error recorded before it was made. */
  ghost predicate Explains(c: Conn, e: Event, expired: bool, id: nat, reply: Reply) {
    match reply
    case Answer(q, payload) =>
      Waiting(c, id) && c.numbers[id] == q && e.Answered? && e.sequence == q && e.payload == payload
    case Error(m) =>
      || (Waiting(c, id) && (e == Broke(m) || (e.Ticked? && expired && m == RW_TIMEOUT)))
      || (e.Asked? && e.req.id == id && c.error == Failed(m))
  }

  lemma ReplyExplained(c: Conn, e: Event, expired: bool, id: nat)
    requires ConnOk(c) && Possible(c, e)
    requires var c' := Handle(c, e, expired);
             id in c'.replies && c'.replies[id] != [] && (id in c.replies ==> c.replies[id] == [])
    ensures |Handle(c, e, expired).replies[id]| == 1
    ensures Explains(c, e, expired, id, Handle(c, e, expired).replies[id][0])
  {
    HandleKeeps(c, e, expired);
  }

  lemma OneReply(c: Conn, id: nat)
    requires ConnOk(c) && id in c.replies && c.replies[id] != []
    ensures |c.replies[id]| == 1
  {
  }

  /** Every reply comes from the wire: in every run, whatever a request has received was brought by one event, a
      response under its own number while it was pending or the error that ended it. */
  lemma {:induction false} RepliesExplained(cs: seq<Conn>, es: seq<Event>, expired: seq<bool>, i: nat, id: nat)
    requires IsRun(cs, es, expired) && i < |cs| && id in cs[i].replies && cs[i].replies[id] != []
    ensures |cs[i].replies[id]| == 1
    ensures exists k :: 0 <= k < i && Explains(cs[k], es[k], expired[k], id, cs[i].replies[id][0])
  {
    hide ConnOk, Handle, Explains;
    RunOk(cs, es, expired, i);
    OneReply(cs[i], id);
    if i > 0 {
      RunOk(cs, es, expired, i - 1);
      var c := cs[i - 1];
      HandleKeeps(c, es[i - 1], expired[i - 1]);
      if id in c.replies && c.replies[id] != [] {
        RepliesExplained(cs, es, expired, i - 1, id);
      } else {
        ReplyExplained(c, es[i - 1], expired[i - 1], id);
      }
    }
  }

  /** Registering a request leaves every pending one waiting if and only if its number is free. */
  lemma RegisterKeepsAllIff(c: Conn, req: Request, now: nat)
    requires ConnOk(c) && req.id !in c.replies
    ensures (forall id | Waiting(c, id) :: Waiting(Register(c, req, now), id)) <==> NextSeq(c.sequence) !in c.messages
  {
    var q := NextSeq(c.sequence);
    if q in c.messages {
      assert Waiting(c, c.messages[q].id);
      assert !Waiting(Register(c, req, now), c.messages[q].id);
    }
  }

  lemma FreshOk()
    ensures ConnOk(FRESH)
  {
    assert PendingIO(FRESH.messages) == {};
  }

  // ----- the loop's own state -----

  class SharedTimeouts {
    const longTimeout: nat
    const shortTimeout: nat
    var numConsumers: int

    constructor (short: nat, long: nat)
      ensures shortTimeout == short && longTimeout == long && numConsumers == 0
    {
      shortTimeout, longTimeout, numConsumers := short, long, 0;
    }

    method Increment()
      modifies this
      ensures numConsumers == old(numConsumers) + 1
    {
      numConsumers := numConsumers + 1;
    }

    method Decrement()
      modifies this
      ensures numConsumers == old(numConsumers) - 1
    {
      numConsumers := numConsumers - 1;
    }

    /** The timeout that `duration` exceeds, or 0; a consumer whose timeout expires is no longer counted. */
    method CheckAndDecrement(duration: int) returns (exceeded: nat)
      modifies this
      ensures var expired := Expires(old(numConsumers), shortTimeout, longTimeout, duration);
              && numConsumers == old(numConsumers) - (if expired then 1 else 0)
              && exceeded == if duration > longTimeout then longTimeout else if expired then shortTimeout else 0
    {
      if duration > longTimeout {
        numConsumers := numConsumers - 1;
        return longTimeout;
      }
      if duration > shortTimeout {
        if numConsumers > 1 {
          numConsumers := numConsumers - 1;
          return shortTimeout;
        }
      }
      return 0;
    }
  }

  class Client {
    var sequence: nat
    var messages: Table
    var clientError: ClientError
    var ioInflight: int
    var lastActivity: nat
    var decremented: bool
    ghost var replies: map<nat, seq<Reply>>
    ghost var numbers: map<nat, nat>

    ghost function Model(): (c: Conn)
      reads this
    {
      Conn(sequence, messages, clientError, ioInflight, lastActivity, decremented, replies, numbers)
    }

    constructor (shared: SharedTimeouts)
      modifies shared
      ensures Model() == FRESH && ConnOk(Model())
      ensures shared.numConsumers == old(shared.numConsumers) + 1
    {
      sequence, messages, clientError, ioInflight, lastActivity, decremented := 0, map[], NoError, 0, 0, false;
      replies, numbers := map[], map[];
      new;
      shared.Increment();
    }

    /** Ends a request that is in the table with an error. */
    method ReplyError(q: nat, error: string)
      requires q in messages && messages[q].id in replies
      modifies this`messages, this`replies
      ensures messages == old(messages) - {q}
      ensures replies == old(replies)[old(messages)[q].id := old(replies)[old(messages)[q].id] + [Error(error)]]
    {
      replies := replies[messages[q].id := replies[messages[q].id] + [Error(error)]];
      messages := messages - {q};
    }

    /** Records the error and ends everything that is pending with it. */
    method HandleClientError(error: string)
      requires ConnOk(Model())
      modifies this`messages, this`replies, this`clientError, this`ioInflight, this`lastActivity
      ensures ConnOk(Model()) && Model() == CleanUp(old(Model()), error)
      ensures messages == map[] && clientError == Failed(error)
      ensures forall q | q in old(messages) ::
                old(messages)[q].id in replies && replies[old(messages)[q].id] == [Error(error)]
      ensures forall id | id in old(replies) && old(replies)[id] != [] ::
                id in replies && replies[id] == old(replies)[id]
    {
      BrokenEffect(Model(), Broke(error), false);
      CleanUpKeeps(Model(), error);
      clientError := Failed(error);
      ReplyAll(error, old(Model()));
      ioInflight := 0;
      lastActivity := 0;
    }

    /** Ends every pending request with the error, in whatever order. */
    method ReplyAll(error: string, ghost was: Conn)
      requires Matched(was) && was.messages == messages && was.replies == replies
      modifies this`messages, this`replies
      ensures messages == map[] && replies == CleanUp(was, error).replies
    {
      hide PartlyReplied, CleanUp;
      PartlyEnds(was, messages, replies, error);
      while messages != map[]
        invariant PartlyReplied(was, messages, replies, error)
        decreases |messages.Keys|
      {
        var q :| q in messages.Keys;
        PartlyStep(was, messages, replies, error, q);
        ReplyError(q, error);
      }
      PartlyEnds(was, messages, replies, error);
    }

    method OnRequest(req: Request, now: nat)
      requires ConnOk(Model()) && Possible(Model(), Asked(req, now))
      modifies this
      ensures ConnOk(Model()) && Model() == Handle(old(Model()), Asked(req, now), false)
      ensures clientError == old(clientError)
      ensures clientError.Failed? ==>
                messages == map[] && replies == old(replies)[req.id := [Error(clientError.error)]]
      ensures clientError == NoError ==>
                && sequence == (old(sequence) + 1) % 0x1_0000_0000 && messages == old(messages)[sequence := req]
                && replies == old(replies)[req.id := []]
    {
      hide ConnOk, Waiting;
      AskedEffect(Model(), req, now);
      HandleKeeps(Model(), Asked(req, now), false);
      if clientError.Failed? {
        replies := replies[req.id := [Error(clientError.error)]];
        return;
      }
      if CountsAsIO(req) {
        if ioInflight == 0 {
          lastActivity := now;
        }
        ioInflight := ioInflight + 1;
      }
      sequence := NextSeq(sequence);
      messages := messages[sequence := req];
      replies, numbers := replies[req.id := []], numbers[req.id := sequence];
    }

    method OnResponse(q: nat, payload: seq<int>, now: nat)
      requires ConnOk(Model()) && now > 0
      modifies this
      ensures ConnOk(Model()) && Model() == Handle(old(Model()), Answered(q, payload, now), false)
      ensures q !in old(messages) ==> Model() == old(Model())
      ensures q in old(messages) ==>
                && messages == old(messages) - {q}
                && replies == old(replies)[old(messages)[q].id := [Answer(q, payload)]]
                && lastActivity == if old(messages)[q].kind != Ping then now else old(lastActivity)
    {
      hide ConnOk, Waiting;
      HandleKeeps(Model(), Answered(q, payload, now), false);
      AnsweredEffect(Model(), q, payload, now);
      if q !in messages {
        return;
      }
      if CountsAsIO(messages[q]) {
        ioInflight := ioInflight - 1;
        lastActivity := now;
      }
      if clientError.Failed? {
        // The table is empty by now, so no request can be found.
        assert false by { NothingPending(old(Model())); }
      }
      replies := replies[messages[q].id := replies[messages[q].id] + [Answer(q, payload)]];
      messages := messages - {q};
    }

    /** The ticker: a timeout ends everything in flight and gives the consumer back. */
    method OnTick(shared: SharedTimeouts, now: nat)
      requires ConnOk(Model()) && 0 < shared.shortTimeout && 0 < shared.longTimeout
      modifies this, shared
      ensures var expired := TimesOut(old(Model()), old(shared.numConsumers), shared.shortTimeout, shared.longTimeout,
                                      now);
              && ConnOk(Model()) && Model() == Handle(old(Model()), Ticked(now), expired)
              && shared.numConsumers == old(shared.numConsumers) - (if expired then 1 else 0)
              && (!expired ==> Model() == old(Model()))
              && (expired ==>
                    && messages == map[] && clientError == Failed(RW_TIMEOUT) && decremented
                    && forall q | q in old(messages) ::
                         old(messages)[q].id in replies && replies[old(messages)[q].id] == [Error(RW_TIMEOUT)])
    {
      hide ConnOk;
      HandleKeeps(Model(), Ticked(now),
                  TimesOut(Model(), shared.numConsumers, shared.shortTimeout, shared.longTimeout, now));
      if lastActivity == 0 || ioInflight == 0 {
        return;
      }
      var exceeded := shared.CheckAndDecrement(now - lastActivity);
      if exceeded > 0 {
        HandleClientError(RW_TIMEOUT);
        decremented := true;
      }
    }

    /** The loop is over: the consumer is given back unless a timeout already did so. */
    method OnEnd(shared: SharedTimeouts)
      modifies shared
      ensures shared.numConsumers == old(shared.numConsumers) - if decremented then 0 else 1
    {
      if !decremented {
        shared.Decrement();
      }
    }
  }

  // ----- any number of loops sharing the timeouts -----

  /** A client loop and how often it has decremented the shared count. */
  datatype Loop = Loop(conn: Conn, ended: bool, decrements: nat)

  datatype Pool = Pool(consumers: int, loops: map<nat, Loop>)

  datatype PoolEvent = Start(i: nat) | Turn(i: nat, event: Event) | End(i: nat)

  predicate PossibleNext(p: Pool, e: PoolEvent) {
    match e
    case Start(i) => i !in p.loops
    case Turn(i, event) => i in p.loops && !p.loops[i].ended && Possible(p.loops[i].conn, event)
    case End(i) => i in p.loops && !p.loops[i].ended
  }

  function Next(p: Pool, e: PoolEvent, short: nat, long: nat): Pool
    requires PoolOk(p) && PossibleNext(p, e)
  {
    match e
    case Start(i) => Pool(p.consumers + 1, p.loops[i := Loop(FRESH, false, 0)])
    case Turn(i, event) =>
      var l := p.loops[i];
      var expired := event.Ticked? && TimesOut(l.conn, p.consumers, short, long, event.now);
      var gone := if expired then 1 else 0;
      Pool(p.consumers - gone, p.loops[i := Loop(Handle(l.conn, event, expired), false, l.decrements + gone)])
    case End(i) =>
      var l := p.loops[i];
      var gone := if l.conn.decremented then 0 else 1;
      Pool(p.consumers - gone, p.loops[i := Loop(l.conn, true, l.decrements + gone)])
  }

  /** The loops that have yet to decrement. */
  function Open(loops: map<nat, Loop>): set<nat> {
    set i | i in loops && loops[i].decrements == 0
  }

  ghost predicate LoopOk(l: Loop) {
    ConnOk(l.conn) && l.decrements == if l.conn.decremented || l.ended then 1 else 0
  }

  /** The consumer count is the number of loops that have not decremented yet. */
  ghost predicate PoolOk(p: Pool) {
    p.consumers == |Open(p.loops)| && forall i | i in p.loops :: LoopOk(p.loops[i])
  }

  lemma OpenAfter(loops: map<nat, Loop>, i: nat, l: Loop)
    requires i in loops ==> loops[i].decrements <= l.decrements
    requires i !in loops ==> l.decrements == 0
    ensures |Open(loops[i := l])| == |Open(loops)|
              + (if i !in loops then 1 else if loops[i].decrements == 0 && l.decrements > 0 then -1 else 0)
  {
    var after := loops[i := l];
    if i !in loops {
      assert Open(after) == Open(loops) + {i};
    } else if loops[i].decrements == 0 && l.decrements > 0 {
      assert Open(after) == Open(loops) - {i};
    } else {
      assert Open(after) == Open(loops);
    }
  }

  /** One turn of one loop: it decrements only if it has not done so before. */
  lemma TurnKeeps(l: Loop, event: Event, expired: bool)
    requires LoopOk(l) && !l.ended && Possible(l.conn, event)
    requires expired ==> event.Ticked? && l.conn.ioInflight != 0
    ensures LoopOk(Loop(Handle(l.conn, event, expired), false, l.decrements + if expired then 1 else 0))
    ensures Settled(l.conn, Handle(l.conn, event, expired))
    ensures expired ==> l.decrements == 0
  {
    HandleKeeps(l.conn, event, expired);
    if l.conn.decremented {
      assert PendingIO(l.conn.messages) == {};
    }
  }

  ghost predicate PoolSettled(p: Pool, p': Pool) {
    forall i | i in p.loops :: i in p'.loops && Settled(p.loops[i].conn, p'.loops[i].conn)
  }

  /** Every event keeps the accounting, and a short timeout never takes the count to zero. */
  lemma PoolStep(p: Pool, e: PoolEvent, short: nat, long: nat)
    requires PoolOk(p) && PossibleNext(p, e)
    ensures PoolOk(Next(p, e, short, long)) && PoolSettled(p, Next(p, e, short, long))
    ensures var p' := Next(p, e, short, long);
            e.Turn? && p'.consumers < p.consumers && p'.consumers == 0
            ==> e.event.Ticked? && e.event.now - p.loops[e.i].conn.lastActivity > long
    ensures var p' := Next(p, e, short, long);
            && p'.loops == p.loops[e.i := p'.loops[e.i]]
            && (e.End? ==> p'.loops[e.i].ended && p'.loops[e.i].conn == p.loops[e.i].conn)
            && (e.Start? ==> p'.loops[e.i].conn == FRESH)
            && (e.Turn? ==>
                  var c, c' := p.loops[e.i].conn, p'.loops[e.i].conn;
                  var elapsed := if e.event.Ticked? then e.event.now - c.lastActivity else 0;
                  && c' == Handle(c, e.event, p'.consumers < p.consumers)
                  && (p'.consumers < p.consumers <==>
                        && e.event.Ticked? && c.lastActivity != 0 && c.ioInflight != 0
                        && (elapsed > long || (elapsed > short && p.consumers > 1))))
  {
    hide ConnOk, Handle, Settled, Open;
    var p' := Next(p, e, short, long);
    if e.Turn? {
      var c := p.loops[e.i].conn;
      TurnKeeps(p.loops[e.i], e.event, e.event.Ticked? && TimesOut(c, p.consumers, short, long, e.event.now));
    }
    FreshOk();
    OpenAfter(p.loops, e.i, p'.loops[e.i]);
    assert LoopOk(p'.loops[e.i]);
    if e.End? {
      SettledSame(p.loops[e.i].conn);
    }
    OtherLoops(p.loops, e.i, p'.loops[e.i], p'.loops);
  }

  lemma SettledSame(c: Conn)
    ensures Settled(c, c)
  {
  }

  lemma OtherLoops(loops: map<nat, Loop>, i: nat, l: Loop, loops': map<nat, Loop>)
    requires loops' == loops[i := l] && forall j | j in loops :: LoopOk(loops[j])
    requires LoopOk(l) && (i in loops ==> Settled(loops[i].conn, l.conn))
    ensures forall j | j in loops' :: LoopOk(loops'[j])
    ensures forall j | j in loops :: j in loops' && Settled(loops[j].conn, loops'[j].conn)
  {
    hide LoopOk, Settled;
    forall j | j in loops && j != i ensures Settled(loops[j].conn, loops'[j].conn) {
      SettledSame(loops[j].conn);
    }
  }

  ghost predicate PossibleRun(p: Pool, es: seq<PoolEvent>, short: nat, long: nat)
    requires PoolOk(p)
    decreases |es|
  {
    es == [] || (PossibleNext(p, es[0])
                 && (PoolStep(p, es[0], short, long); PossibleRun(Next(p, es[0], short, long), es[1..], short, long)))
  }

  ghost function PoolAfter(p: Pool, es: seq<PoolEvent>, short: nat, long: nat): Pool
    requires PoolOk(p) && PossibleRun(p, es, short, long)
    decreases |es|
  {
    if es == [] then p else
      PoolStep(p, es[0], short, long);
      PoolAfter(Next(p, es[0], short, long), es[1..], short, long)
  }

  /** For any number of loops and any schedule of requests, responses, transport errors, ticks and ends:
      every request is pending or has had exactly one reply, its own or an error, which never changes;
      no loop decrements twice and an ended one has decremented; the count is the number of loops that
      have yet to decrement. */
  lemma {:induction false} PoolRuns(p: Pool, es: seq<PoolEvent>, short: nat, long: nat)
    requires PoolOk(p) && PossibleRun(p, es, short, long)
    ensures var r := PoolAfter(p, es, short, long);
            && PoolOk(r) && PoolSettled(p, r) && r.consumers >= 0
            && forall i | i in r.loops ::
                r.loops[i].decrements <= 1 && (r.loops[i].ended ==> r.loops[i].decrements == 1)
    decreases |es|
  {
    if es != [] {
      var next := Next(p, es[0], short, long);
      PoolStep(p, es[0], short, long);
      PoolRuns(next, es[1..], short, long);
      SettledTransitive(p, next, PoolAfter(p, es, short, long));
    }
  }

  lemma SettledTransitive(p: Pool, q: Pool, r: Pool)
    requires PoolSettled(p, q) && PoolSettled(q, r)
    ensures PoolSettled(p, r)
  {
  }
}
