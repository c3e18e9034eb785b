/**
 * The Trusty session as a transition system: any number of client threads running trusty_cmd, interleaved
 * with the application that serves the message channel between them.
 *
 * The channel queues messages in both directions.  A call whose read fails leaves its reply to come, and
 * since nothing in a reply says which request it answers, later calls read the replies of earlier ones.
 */
module TrustyProtocol {
  import opened Common
  import opened Transports
  import TrustyEvents

  /** Where a client thread stands inside trusty_cmd. */
  datatype Pc = Idle | Locking | Writing | Reading | Done(status: int)

  /**
   * One thread: its call's arguments and what `out` held when the call began.  `mine` numbers its request among
   * all requests written, `owed` is what the session owed when it was written, and `turn` numbers the reply it
   * took among all replies taken.
   */
  datatype Client = Client(pc: Pc, request: Buffer, before: Buffer, out: Buffer, mine: nat, owed: nat, turn: nat)

  /** A finished trusty_cmd. */
  datatype Entry = Entry(
    client: nat, request: Buffer, before: Buffer, status: int, after: Buffer, mine: nat, owed: nat, turn: nat)

  /**
   * Behind the channel stands its history: `asked` lists every request written, `fates` what became of those the
   * application took up, `taken` counts the replies read and `misses` the reads that failed after a write.
   */
  datatype State<!D> = State(
    owner: Option<nat>,
    clients: seq<Client>,
    ch: Channel<D>,
    asked: seq<Buffer>,
    fates: seq<Fate>,
    taken: nat,
    misses: nat,
    log: seq<Entry>)

  datatype Event =
    | Call(i: nat, request: Buffer)
    | Acquire(i: nat)
    | Write(i: nat)
    | WriteFail(i: nat)
    | ReadFull(i: nat)
    | ReadShort(i: nat, got: nat)
    | ReadFail(i: nat)
    | Release(i: nat)
    | Serve(fate: Fate)

  predicate Critical(pc: Pc) {
    pc.Writing? || pc.Reading? || pc.Done?
  }

  predicate At<D>(s: State<D>, i: nat) {
    i < |s.clients|
  }

  predicate Enabled<D>(s: State<D>, e: Event) {
    match e
    case Call(i, request) => At(s, i) && s.clients[i].pc == Idle && |request| == IN_BUF_LEN
    case Acquire(i) => At(s, i) && s.clients[i].pc == Locking && s.owner == None
    case Write(i) => At(s, i) && s.clients[i].pc == Writing
    case WriteFail(i) => At(s, i) && s.clients[i].pc == Writing
    case ReadFull(i) => At(s, i) && s.clients[i].pc == Reading && s.ch.unread != []
    case ReadShort(i, got) => At(s, i) && s.clients[i].pc == Reading && s.ch.unread != [] && 0 < got < OUT_BUF_LEN
    case ReadFail(i) => At(s, i) && s.clients[i].pc == Reading
    case Release(i) => At(s, i) && s.clients[i].pc.Done?
    case Serve(_) => s.ch.inbox != []
  }

  ghost predicate Shape<D>(s: State<D>) {
    && ChannelFits(s.ch)
    && forall i | 0 <= i < |s.clients| ::
         |s.clients[i].request| == IN_BUF_LEN && |s.clients[i].before| == |s.clients[i].out| == OUT_BUF_LEN
  }

  ghost function Set<D>(s: State<D>, i: nat, c: Client): State<D>
    requires At(s, i)
  {
    s.(clients := s.clients[i := c])
  }

  /** The front reply leaves the channel. */
  ghost function Take<D>(s: State<D>): State<D>
    requires s.ch.unread != []
  {
    s.(ch := s.ch.(unread := s.ch.unread[1..]), taken := s.taken + 1)
  }

  ghost function Apply<D(!new)>(route: Router<D>, s: State<D>, e: Event): State<D>
    requires Enabled(s, e) && Shape(s)
  {
    match e
    case Call(i, request) =>
      var c := s.clients[i];
      Set(s, i, c.(pc := Locking, request := request, before := c.out))
    case Acquire(i) => Set(s, i, s.clients[i].(pc := Writing)).(owner := Some(i))
    case Write(i) =>
      var c := s.clients[i];
      Set(s, i, c.(pc := Reading, mine := |s.asked|, owed := Owed(s.ch))).(
        ch := s.ch.(inbox := s.ch.inbox + [c.request]), asked := s.asked + [c.request])
    case WriteFail(i) => Set(s, i, s.clients[i].(pc := Done(GENERIC_ERR)))
    case ReadFull(i) =>
      Set(Take(s), i, s.clients[i].(pc := Done(GENERIC_OK), out := s.ch.unread[0], turn := s.taken))
    case ReadShort(i, got) =>
      var c := s.clients[i];
      Set(Take(s), i, c.(pc := Done(GENERIC_ERR), out := s.ch.unread[0][..got] + c.out[got..], turn := s.taken))
    case ReadFail(i) => Set(s, i, s.clients[i].(pc := Done(GENERIC_ERR))).(misses := s.misses + 1)
    case Release(i) =>
      var c := s.clients[i];
      Set(s, i, c.(pc := Idle)).(
        owner := None, log := s.log + [Entry(i, c.request, c.before, c.pc.status, c.out, c.mine, c.owed, c.turn)])
    case Serve(fate) => s.(ch := ServeOne(route, s.ch, fate), fates := s.fates + [fate])
  }

  lemma ApplyKeepsShape<D(!new)>(route: Router<D>, s: State<D>, e: Event)
    requires Fits(route) && Shape(s) && Enabled(s, e)
    ensures Shape(Apply(route, s, e)) && |Apply(route, s, e).clients| == |s.clients|
  {
  }

  ghost predicate Run<D(!new)>(route: Router<D>, s: State<D>, es: seq<Event>)
    requires Fits(route) && Shape(s)
    decreases |es|
  {
    es == [] ||
    (Enabled(s, es[0]) && (ApplyKeepsShape(route, s, es[0]); Run(route, Apply(route, s, es[0]), es[1..])))
  }

  ghost function Exec<D(!new)>(route: Router<D>, s: State<D>, es: seq<Event>): (t: State<D>)
    requires Fits(route) && Shape(s) && Run(route, s, es)
    ensures Shape(t) && |t.clients| == |s.clients|
    decreases |es|
  {
    if es == [] then s
    else ApplyKeepsShape(route, s, es[0]); Exec(route, Apply(route, s, es[0]), es[1..])
  }

  /** A fresh session: no call has begun and nothing is queued; buffers and device state are arbitrary. */
  ghost predicate Init<D>(s: State<D>) {
    && Shape(s) && s.owner == None && s.log == [] && s.asked == [] && s.fates == [] && s.taken == s.misses == 0
    && Owed(s.ch) == 0 && forall i | 0 <= i < |s.clients| :: s.clients[i].pc == Idle
  }

  // ------------------------------------------------------------------ the sequential specification

  /** Device state and reply buffer after the first requests met their fates, one after the other. */
  ghost function After<D(!new)>(route: Router<D>, d0: D, o0: Buffer, asked: seq<Buffer>, fates: seq<Fate>): (D, Buffer)
    requires |fates| <= |asked|
  {
    if fates == [] then (d0, o0)
    else
      var n := |fates| - 1;
      var base := After(route, d0, o0, asked, fates[..n]);
      if fates[n] == Dropped then base else Routed(route, base.0, asked[n], base.1)
  }

  /** The reply to request number `t`. */
  ghost function Answer<D(!new)>(route: Router<D>, d0: D, o0: Buffer, asked: seq<Buffer>, fates: seq<Fate>, t: nat): Buffer
    requires t < |fates| <= |asked|
  {
    After(route, d0, o0, asked, fates[..t + 1]).1
  }

  /** The requests that were not dropped, each with whether its reply went out. */
  function NotDropped(asked: seq<Buffer>, fates: seq<Fate>): (taken: seq<(Buffer, bool)>)
    requires |fates| <= |asked|
  {
    if fates == [] then []
    else
      var n := |fates| - 1;
      NotDropped(asked, fates[..n]) + if fates[n] == Dropped then [] else [(asked[n], fates[n] == Sent)]
  }

  /** One by one: a dropped request adds nothing. */
  lemma NotDroppedExactly(asked: seq<Buffer>, fates: seq<Fate>, fate: Fate)
    requires |fates| < |asked|
    ensures NotDropped(asked, []) == []
    ensures NotDropped(asked, fates + [fate]) == NotDropped(asked, fates) +
            match fate
            case Dropped => []
            case Unsent => [(asked[|fates|], false)]
            case Sent => [(asked[|fates|], true)]
  {
    assert (fates + [fate])[..|fates|] == fates;
  }

  /** They are what the event loop calls serviceable: serving them in order leads to the same state and reply. */
  lemma {:induction false} AfterIsServed<D(!new)>(route: Router<D>, d0: D, o0: Buffer, asked: seq<Buffer>, fates: seq<Fate>)
    requires |fates| <= |asked|
    ensures After(route, d0, o0, asked, fates) == TrustyEvents.Served(route, d0, o0, NotDropped(asked, fates))
    decreases |fates|
  {
    if fates != [] {
      var n := |fates| - 1;
      AfterIsServed(route, d0, o0, asked, fates[..n]);
      var before, next := NotDropped(asked, fates[..n]), (asked[n], fates[n] == Sent);
      assert before + [] == before && (before + [next])[..|before|] == before;
    }
  }

  /** The numbers of the requests whose replies went out, in order. */
  function Answered(fates: seq<Fate>): (tags: seq<nat>)
    ensures |tags| <= |fates|
    ensures forall k | 0 <= k < |tags| :: tags[k] < |fates| && fates[tags[k]] == Sent
    ensures forall j, k | 0 <= j < k < |tags| :: tags[j] < tags[k]
  {
    if fates == [] then []
    else
      var n := |fates| - 1;
      Answered(fates[..n]) + if fates[n] == Sent then [n] else []
  }

  predicate AllSent(fates: seq<Fate>) {
    forall k | 0 <= k < |fates| :: fates[k] == Sent
  }

  lemma AnsweredSnoc(fates: seq<Fate>, fate: Fate)
    ensures Answered(fates + [fate]) == Answered(fates) + if fate == Sent then [|fates|] else []
  {
    assert (fates + [fate])[..|fates|] == fates;
  }

  /** If every reply goes out, they answer the requests one by one. */
  lemma {:induction false} AnsweredAll(fates: seq<Fate>)
    requires AllSent(fates)
    ensures |Answered(fates)| == |fates| && forall k | 0 <= k < |fates| :: Answered(fates)[k] == k
  {
    if fates != [] {
      AnsweredAll(fates[..|fates| - 1]);
    }
  }

  /** How many replies went out to requests before number `m`. */
  function SentBefore(fates: seq<Fate>, m: nat): nat {
    |Answered(if m < |fates| then fates[..m] else fates)|
  }

  lemma {:induction false} AnsweredPrefix(fates: seq<Fate>, m: nat)
    requires m <= |fates|
    ensures Answered(fates[..m]) <= Answered(fates)
    ensures forall k | |Answered(fates[..m])| <= k < |Answered(fates)| :: m <= Answered(fates)[k]
  {
    if m == |fates| {
      assert fates[..m] == fates;
    } else {
      var n := |fates| - 1;
      AnsweredPrefix(fates[..n], m);
      assert fates[..n][..m] == fates[..m];
      assert forall k | 0 <= k < |Answered(fates[..n])| :: Answered(fates)[k] == Answered(fates[..n])[k];
    }
  }

  /** A reply that answers request `m` or an earlier one answers `m` exactly if the replies before it answer all earlier ones. */
  lemma OwnTurnExactly(fates: seq<Fate>, turn: nat, m: nat)
    requires turn < |Answered(fates)| && Answered(fates)[turn] <= m
    ensures Answered(fates)[turn] == m <==> turn == SentBefore(fates, m)
  {
    var tags := Answered(fates);
    if m < |fates| {
      AnsweredPrefix(fates, m);
      var n := SentBefore(fates, m);
      if turn < n {
        assert tags[turn] == Answered(fates[..m])[turn];
      } else if n < |tags| {
        assert m <= tags[n];
      }
    }
  }

  // ------------------------------------------------------------------ what calls rely on

  /**
   * What a finished call may rely on, whatever failed: if it succeeded, it wrote its request, and it holds the
   * answer to that or to an earlier request, in its turn.  If nothing was owed when it wrote, the answer is
   * its own; and if every reply went out, it is that to the request `owed` places before its own.
   */
  ghost predicate Explained<D(!new)>(route: Router<D>, d0: D, o0: Buffer, asked: seq<Buffer>, fates: seq<Fate>,
                                     request: Buffer, status: int, after: Buffer, mine: nat, owed: nat, turn: nat)
    requires |fates| <= |asked|
  {
    status == GENERIC_OK ==>
      && mine < |asked| && asked[mine] == request && turn < |Answered(fates)|
      && var t := Answered(fates)[turn];
      && t <= mine && after == Answer(route, d0, o0, asked, fates, t)
      && (owed == 0 ==> t == mine)
      && (AllSent(fates) ==> t + owed == mine)
  }

  ghost predicate ExplainedClient<D(!new)>(route: Router<D>, d0: D, o0: Buffer, asked: seq<Buffer>, fates: seq<Fate>, c: Client)
    requires |fates| <= |asked| && c.pc.Done?
  {
    Explained(route, d0, o0, asked, fates, c.request, c.pc.status, c.out, c.mine, c.owed, c.turn)
  }

  ghost predicate ExplainedEntry<D(!new)>(route: Router<D>, d0: D, o0: Buffer, asked: seq<Buffer>, fates: seq<Fate>, e: Entry)
    requires |fates| <= |asked|
  {
    Explained(route, d0, o0, asked, fates, e.request, e.status, e.after, e.mine, e.owed, e.turn)
  }

  // ------------------------------------------------------------------ the invariant

  ghost predicate LockInv<D>(s: State<D>) {
    && (s.owner.Some? ==> At(s, s.owner.value))
    && forall i | 0 <= i < |s.clients| :: Critical(s.clients[i].pc) <==> s.owner == Some(i)
  }

  predicate IsReading<D>(s: State<D>) {
    s.owner.Some? && At(s, s.owner.value) && s.clients[s.owner.value].pc == Reading
  }

  /** What waits is the end of the history, and the application stands where the rest of it leads. */
  ghost predicate HistoryInv<D(!new)>(route: Router<D>, d0: D, o0: Buffer, s: State<D>) {
    && |s.fates| <= |s.asked| && s.ch.inbox == s.asked[|s.fates|..]
    && (s.ch.dev, s.ch.window) == After(route, d0, o0, s.asked, s.fates)
  }

  /** `unread` holds the answers that were sent, but for the first `taken` of them. */
  ghost predicate Unread<D(!new)>(route: Router<D>, d0: D, o0: Buffer, asked: seq<Buffer>, fates: seq<Fate>,
                                  taken: nat, unread: seq<Buffer>)
    requires |fates| <= |asked|
  {
    && |Answered(fates)| == taken + |unread|
    && forall k | 0 <= k < |unread| :: unread[k] == Answer(route, d0, o0, asked, fates, Answered(fates)[taken + k])
  }

  ghost predicate RepliesInv<D(!new)>(route: Router<D>, d0: D, o0: Buffer, s: State<D>)
    requires |s.fates| <= |s.asked|
  {
    Unread(route, d0, o0, s.asked, s.fates, s.taken, s.ch.unread)
  }

  /** What is owed comes from failed reads and from the call that is reading. */
  ghost predicate OwedInv<D>(s: State<D>) {
    && Owed(s.ch) <= s.misses + (if IsReading(s) then 1 else 0)
    && (AllSent(s.fates) ==> Owed(s.ch) == s.misses + (if IsReading(s) then 1 else 0))
  }

  ghost predicate QueueInv<D(!new)>(route: Router<D>, d0: D, o0: Buffer, s: State<D>) {
    HistoryInv(route, d0, o0, s) && RepliesInv(route, d0, o0, s) && OwedInv(s)
  }

  /** The call that is reading wrote the last request; the rest of what is owed was owed before it. */
  ghost predicate ReaderInv<D>(s: State<D>, c: Client)
    requires |s.fates| <= |s.asked| && |Answered(s.fates)| == s.taken + |s.ch.unread|
  {
    && |s.asked| > 0 && c.mine == |s.asked| - 1 && s.asked[c.mine] == c.request
    && c.owed <= s.misses && Owed(s.ch) <= c.owed + 1 && (AllSent(s.fates) ==> Owed(s.ch) == c.owed + 1 && c.owed == s.misses)
    && (c.owed == 0 && s.ch.unread != [] ==> Answered(s.fates)[s.taken] == c.mine)
  }

  ghost predicate HolderInv<D(!new)>(route: Router<D>, d0: D, o0: Buffer, s: State<D>, c: Client)
    requires |s.fates| <= |s.asked| && |Answered(s.fates)| == s.taken + |s.ch.unread|
  {
    match c.pc
    case Reading => ReaderInv(s, c)
    case Done(_) => ExplainedClient(route, d0, o0, s.asked, s.fates, c)
    case _ => true
  }

  ghost predicate LogInv<D(!new)>(route: Router<D>, d0: D, o0: Buffer, s: State<D>)
    requires |s.fates| <= |s.asked|
  {
    forall k | 0 <= k < |s.log| :: ExplainedEntry(route, d0, o0, s.asked, s.fates, s.log[k])
  }

  ghost predicate Inv<D(!new)>(route: Router<D>, d0: D, o0: Buffer, s: State<D>) {
    && Shape(s) && LockInv(s) && QueueInv(route, d0, o0, s) && LogInv(route, d0, o0, s)
    && (s.owner.Some? ==> HolderInv(route, d0, o0, s, s.clients[s.owner.value]))
  }

  // ------------------------------------------------------------------ preservation

  /** A request's answer depends on what came before it only. */
  lemma {:induction false} AfterStays<D(!new)>(route: Router<D>, d0: D, o0: Buffer, asked: seq<Buffer>, more: seq<Buffer>, fates: seq<Fate>)
    requires |fates| <= |asked|
    ensures After(route, d0, o0, asked + more, fates) == After(route, d0, o0, asked, fates)
    decreases |fates|
  {
    if fates != [] {
      AfterStays(route, d0, o0, asked, more, fates[..|fates| - 1]);
    }
  }

  lemma AnswerStays<D(!new)>(route: Router<D>, d0: D, o0: Buffer, asked: seq<Buffer>, fates: seq<Fate>,
                             more: seq<Buffer>, later: seq<Fate>, t: nat)
    requires t < |fates| <= |asked| && |fates + later| <= |asked + more|
    ensures Answer(route, d0, o0, asked + more, fates + later, t) == Answer(route, d0, o0, asked, fates, t)
  {
    assert (fates + later)[..t + 1] == fates[..t + 1];
    AfterStays(route, d0, o0, asked, more, fates[..t + 1]);
  }

  /** One more request, or one more fate, leaves everything explained. */
  lemma ExplainedStays<D(!new)>(route: Router<D>, d0: D, o0: Buffer, asked: seq<Buffer>, fates: seq<Fate>,
                                more: seq<Buffer>, later: seq<Fate>,
                                request: Buffer, status: int, after: Buffer, mine: nat, owed: nat, turn: nat)
    requires |fates| <= |asked| && |fates + later| <= |asked + more| && |later| <= 1
    requires Explained(route, d0, o0, asked, fates, request, status, after, mine, owed, turn)
    ensures Explained(route, d0, o0, asked + more, fates + later, request, status, after, mine, owed, turn)
  {
    if status == GENERIC_OK {
      AnsweredStays(fates, later);
      AnswerStays(route, d0, o0, asked, fates, more, later, Answered(fates)[turn]);
      assert AllSent(fates + later) ==> AllSent(fates) by {
        assert forall k | 0 <= k < |fates| :: (fates + later)[k] == fates[k];
      }
    }
  }

  lemma AnsweredStays(fates: seq<Fate>, later: seq<Fate>)
    requires |later| <= 1
    ensures Answered(fates) <= Answered(fates + later)
  {
    if later == [] {
      assert fates + later == fates;
    } else {
      AnsweredSnoc(fates, later[0]);
      assert later == [later[0]];
    }
  }

  lemma LogStays<D(!new)>(route: Router<D>, d0: D, o0: Buffer, s: State<D>, more: seq<Buffer>, later: seq<Fate>)
    requires |s.fates| <= |s.asked| && |s.fates + later| <= |s.asked + more| && |later| <= 1 && LogInv(route, d0, o0, s)
    ensures forall k | 0 <= k < |s.log| :: ExplainedEntry(route, d0, o0, s.asked + more, s.fates + later, s.log[k])
  {
    forall k | 0 <= k < |s.log| ensures ExplainedEntry(route, d0, o0, s.asked + more, s.fates + later, s.log[k]) {
      var e := s.log[k];
      ExplainedStays(route, d0, o0, s.asked, s.fates, more, later, e.request, e.status, e.after, e.mine, e.owed, e.turn);
    }
  }

  lemma LockInvStep<D(!new)>(route: Router<D>, s: State<D>, e: Event)
    requires Fits(route) && Shape(s) && LockInv(s) && Enabled(s, e)
    ensures LockInv(Apply(route, s, e))
  {
  }

  lemma UnreadAfterWrite<D(!new)>(route: Router<D>, d0: D, o0: Buffer, asked: seq<Buffer>, fates: seq<Fate>,
                                  taken: nat, unread: seq<Buffer>, next: Buffer)
    requires |fates| <= |asked| && Unread(route, d0, o0, asked, fates, taken, unread)
    ensures Unread(route, d0, o0, asked + [next], fates, taken, unread)
  {
    assert fates + [] == fates;
    forall k | 0 <= k < |unread|
      ensures unread[k] == Answer(route, d0, o0, asked + [next], fates, Answered(fates)[taken + k])
    {
      AnswerStays(route, d0, o0, asked, fates, [next], [], Answered(fates)[taken + k]);
    }
  }

  lemma UnreadAfterServe<D(!new)>(route: Router<D>, d0: D, o0: Buffer, asked: seq<Buffer>, fates: seq<Fate>,
                                  taken: nat, unread: seq<Buffer>, fate: Fate)
    requires |fates| < |asked| && Unread(route, d0, o0, asked, fates, taken, unread)
    ensures var sent := if fate == Sent then [Answer(route, d0, o0, asked, fates + [fate], |fates|)] else [];
      Unread(route, d0, o0, asked, fates + [fate], taken, unread + sent)
  {
    var sent := if fate == Sent then [Answer(route, d0, o0, asked, fates + [fate], |fates|)] else [];
    var now := unread + sent;
    AnsweredSnoc(fates, fate);
    assert asked + [] == asked;
    forall k | 0 <= k < |now|
      ensures now[k] == Answer(route, d0, o0, asked, fates + [fate], Answered(fates + [fate])[taken + k])
    {
      if k < |unread| {
        AnswerStays(route, d0, o0, asked, fates, [], [fate], Answered(fates)[taken + k]);
      }
    }
  }

  lemma UnreadAfterTake<D(!new)>(route: Router<D>, d0: D, o0: Buffer, asked: seq<Buffer>, fates: seq<Fate>,
                                 taken: nat, unread: seq<Buffer>)
    requires |fates| <= |asked| && Unread(route, d0, o0, asked, fates, taken, unread) && unread != []
    ensures Unread(route, d0, o0, asked, fates, taken + 1, unread[1..])
  {
    forall k | 0 <= k < |unread| - 1
      ensures unread[1..][k] == Answer(route, d0, o0, asked, fates, Answered(fates)[taken + 1 + k])
    {
      assert unread[1..][k] == unread[k + 1];
    }
  }

  lemma WriteKeepsHistory<D(!new)>(route: Router<D>, d0: D, o0: Buffer, s: State<D>, i: nat)
    requires Shape(s) && HistoryInv(route, d0, o0, s) && Enabled(s, Write(i))
    ensures HistoryInv(route, d0, o0, Apply(route, s, Write(i)))
  {
    var next := s.clients[i].request;
    assert (s.asked + [next])[|s.fates|..] == s.asked[|s.fates|..] + [next];
    AfterStays(route, d0, o0, s.asked, [next], s.fates);
  }

  lemma WriteKeepsOwed<D(!new)>(route: Router<D>, s: State<D>, i: nat)
    requires Shape(s) && LockInv(s) && OwedInv(s) && Enabled(s, Write(i))
    ensures OwedInv(Apply(route, s, Write(i)))
  {
    assert !IsReading(s) && IsReading(Apply(route, s, Write(i)));
  }

  lemma WriteKeepsInv<D(!new)>(route: Router<D>, d0: D, o0: Buffer, s: State<D>, i: nat)
    requires Fits(route) && Inv(route, d0, o0, s) && Enabled(s, Write(i))
    ensures Inv(route, d0, o0, Apply(route, s, Write(i)))
  {
    ApplyKeepsShape(route, s, Write(i));
    LockInvStep(route, s, Write(i));
    var next := s.clients[i].request;
    WriteKeepsHistory(route, d0, o0, s, i);
    UnreadAfterWrite(route, d0, o0, s.asked, s.fates, s.taken, s.ch.unread, next);
    WriteKeepsOwed(route, s, i);
    LogStays(route, d0, o0, s, [next], []);
    assert s.fates + [] == s.fates;
  }

  lemma ServeKeepsHistory<D(!new)>(route: Router<D>, d0: D, o0: Buffer, s: State<D>, fate: Fate)
    requires Shape(s) && HistoryInv(route, d0, o0, s) && Enabled(s, Serve(fate))
    ensures HistoryInv(route, d0, o0, Apply(route, s, Serve(fate)))
    ensures fate != Dropped ==>
      Apply(route, s, Serve(fate)).ch.window == Answer(route, d0, o0, s.asked, s.fates + [fate], |s.fates|)
  {
    var t, n := Apply(route, s, Serve(fate)), |s.fates|;
    assert s.ch.inbox[0] == s.asked[n] && t.ch.inbox == s.asked[n + 1..];
    assert t.fates[..n] == s.fates && t.fates[..n + 1] == t.fates;
  }

  lemma ServeKeepsReplies<D(!new)>(route: Router<D>, d0: D, o0: Buffer, s: State<D>, fate: Fate)
    requires Shape(s) && HistoryInv(route, d0, o0, s) && RepliesInv(route, d0, o0, s) && Enabled(s, Serve(fate))
    ensures |s.fates| < |s.asked| && RepliesInv(route, d0, o0, Apply(route, s, Serve(fate)))
  {
    ServeKeepsHistory(route, d0, o0, s, fate);
    UnreadAfterServe(route, d0, o0, s.asked, s.fates, s.taken, s.ch.unread, fate);
    if fate != Sent {
      assert s.ch.unread + [] == s.ch.unread;
    }
  }

  lemma ServeKeepsOwed<D(!new)>(route: Router<D>, s: State<D>, fate: Fate)
    requires Shape(s) && LockInv(s) && OwedInv(s) && Enabled(s, Serve(fate))
    ensures OwedInv(Apply(route, s, Serve(fate)))
  {
    var t := Apply(route, s, Serve(fate));
    assert IsReading(t) == IsReading(s);
    if AllSent(t.fates) {
      AllSentSnoc(s.fates, fate);
    }
  }

  lemma AllSentSnoc(fates: seq<Fate>, fate: Fate)
    requires AllSent(fates + [fate])
    ensures AllSent(fates) && fate == Sent
  {
    assert forall k | 0 <= k < |fates| :: (fates + [fate])[k] == fates[k];
    assert (fates + [fate])[|fates|] == fate;
  }

  lemma ServeKeepsReader<D(!new)>(route: Router<D>, d0: D, o0: Buffer, s: State<D>, fate: Fate, c: Client)
    requires Shape(s) && QueueInv(route, d0, o0, s) && Enabled(s, Serve(fate)) && ReaderInv(s, c)
    requires var t := Apply(route, s, Serve(fate)); |t.fates| <= |t.asked| && |Answered(t.fates)| == t.taken + |t.ch.unread|
    ensures ReaderInv(Apply(route, s, Serve(fate)), c)
  {
    var t := Apply(route, s, Serve(fate));
    AnsweredSnoc(s.fates, fate);
    if AllSent(t.fates) {
      AllSentSnoc(s.fates, fate);
    }
    if c.owed == 0 {
      assert s.ch.unread == [] && |s.fates| == |s.asked| - 1;
    }
  }

  lemma ServeKeepsHolder<D(!new)>(route: Router<D>, d0: D, o0: Buffer, s: State<D>, fate: Fate, c: Client)
    requires Shape(s) && QueueInv(route, d0, o0, s) && Enabled(s, Serve(fate)) && HolderInv(route, d0, o0, s, c)
    requires var t := Apply(route, s, Serve(fate)); |t.fates| <= |t.asked| && |Answered(t.fates)| == t.taken + |t.ch.unread|
    ensures HolderInv(route, d0, o0, Apply(route, s, Serve(fate)), c)
  {
    if c.pc == Reading {
      ServeKeepsReader(route, d0, o0, s, fate, c);
    } else if c.pc.Done? {
      assert s.asked + [] == s.asked;
      ExplainedStays(route, d0, o0, s.asked, s.fates, [], [fate], c.request, c.pc.status, c.out, c.mine, c.owed, c.turn);
    }
  }

  lemma ServeKeepsInv<D(!new)>(route: Router<D>, d0: D, o0: Buffer, s: State<D>, fate: Fate)
    requires Fits(route) && Inv(route, d0, o0, s) && Enabled(s, Serve(fate))
    ensures Inv(route, d0, o0, Apply(route, s, Serve(fate)))
  {
    ApplyKeepsShape(route, s, Serve(fate));
    LockInvStep(route, s, Serve(fate));
    ServeKeepsHistory(route, d0, o0, s, fate);
    ServeKeepsReplies(route, d0, o0, s, fate);
    ServeKeepsOwed(route, s, fate);
    assert s.asked + [] == s.asked;
    LogStays(route, d0, o0, s, [], [fate]);
    if s.owner.Some? {
      ServeKeepsHolder(route, d0, o0, s, fate, s.clients[s.owner.value]);
    }
  }

  /** The reply that a reading call finds at the front. */
  lemma FrontReply<D(!new)>(route: Router<D>, d0: D, o0: Buffer, s: State<D>, c: Client)
    requires QueueInv(route, d0, o0, s) && ReaderInv(s, c) && s.ch.unread != []
    ensures Explained(route, d0, o0, s.asked, s.fates, c.request, GENERIC_OK, s.ch.unread[0], c.mine, c.owed, s.taken)
  {
    var t := Answered(s.fates)[s.taken];
    assert s.ch.unread[0] == Answer(route, d0, o0, s.asked, s.fates, t);
    if AllSent(s.fates) {
      AnsweredAll(s.fates);
    }
  }

  lemma ReadKeepsOwed<D(!new)>(route: Router<D>, s: State<D>, e: Event)
    requires Shape(s) && LockInv(s) && OwedInv(s) && Enabled(s, e) && (e.ReadFull? || e.ReadShort?)
    ensures OwedInv(Apply(route, s, e))
  {
    assert s.owner == Some(e.i) && IsReading(s) && !IsReading(Apply(route, s, e));
  }

  lemma ReadExplains<D(!new)>(route: Router<D>, d0: D, o0: Buffer, s: State<D>, e: Event)
    requires Shape(s) && LockInv(s) && QueueInv(route, d0, o0, s) && Enabled(s, e) && (e.ReadFull? || e.ReadShort?)
    requires ReaderInv(s, s.clients[e.i])
    ensures ExplainedClient(route, d0, o0, s.asked, s.fates, Apply(route, s, e).clients[e.i])
  {
    FrontReply(route, d0, o0, s, s.clients[e.i]);
  }

  lemma TakeKeepsQueue<D(!new)>(route: Router<D>, d0: D, o0: Buffer, s: State<D>, t: State<D>)
    requires QueueInv(route, d0, o0, s) && s.ch.unread != [] && OwedInv(t)
    requires t.ch == s.ch.(unread := s.ch.unread[1..]) && t.asked == s.asked && t.fates == s.fates && t.taken == s.taken + 1
    ensures QueueInv(route, d0, o0, t)
  {
    UnreadAfterTake(route, d0, o0, s.asked, s.fates, s.taken, s.ch.unread);
  }

  lemma ReadKeepsInv<D(!new)>(route: Router<D>, d0: D, o0: Buffer, s: State<D>, e: Event)
    requires Fits(route) && Inv(route, d0, o0, s) && Enabled(s, e) && (e.ReadFull? || e.ReadShort?)
    ensures Inv(route, d0, o0, Apply(route, s, e))
  {
    ApplyKeepsShape(route, s, e);
    LockInvStep(route, s, e);
    ReadKeepsOwed(route, s, e);
    TakeKeepsQueue(route, d0, o0, s, Apply(route, s, e));
    ReadExplains(route, d0, o0, s, e);
    assert LogInv(route, d0, o0, Apply(route, s, e));
  }

  /** Events that leave channel and history alone. */
  lemma ControlKeepsOwed<D(!new)>(route: Router<D>, s: State<D>, e: Event)
    requires Shape(s) && LockInv(s) && OwedInv(s) && Enabled(s, e)
    requires e.Call? || e.Acquire? || e.WriteFail? || e.ReadFail? || e.Release?
    ensures var t := Apply(route, s, e);
      OwedInv(t) && t.ch == s.ch && t.asked == s.asked && t.fates == s.fates && t.taken == s.taken
  {
    if e.ReadFail? {
      assert IsReading(s) && !IsReading(Apply(route, s, e));
    } else {
      assert IsReading(Apply(route, s, e)) == IsReading(s);
    }
  }

  lemma ControlKeepsInv<D(!new)>(route: Router<D>, d0: D, o0: Buffer, s: State<D>, e: Event)
    requires Fits(route) && Inv(route, d0, o0, s) && Enabled(s, e)
    requires e.Call? || e.Acquire? || e.WriteFail? || e.ReadFail? || e.Release?
    ensures Inv(route, d0, o0, Apply(route, s, e))
  {
    ApplyKeepsShape(route, s, e);
    LockInvStep(route, s, e);
    ControlKeepsOwed(route, s, e);
  }

  lemma StepKeepsInv<D(!new)>(route: Router<D>, d0: D, o0: Buffer, s: State<D>, e: Event)
    requires Fits(route) && Inv(route, d0, o0, s) && Enabled(s, e)
    ensures Inv(route, d0, o0, Apply(route, s, e))
  {
    match e {
      case Write(i) => WriteKeepsInv(route, d0, o0, s, i);
      case Serve(fate) => ServeKeepsInv(route, d0, o0, s, fate);
      case ReadFull(_) => ReadKeepsInv(route, d0, o0, s, e);
      case ReadShort(_, _) => ReadKeepsInv(route, d0, o0, s, e);
      case _ => ControlKeepsInv(route, d0, o0, s, e);
    }
  }

  // ------------------------------------------------------------------ order

  /** Successful calls take the replies in order, each at most once. */
  predicate InOrder(log: seq<Entry>) {
    forall j, k | 0 <= j < k < |log| && log[j].status == GENERIC_OK && log[k].status == GENERIC_OK :: log[j].turn < log[k].turn
  }

  predicate TookBefore(log: seq<Entry>, turn: nat) {
    forall k | 0 <= k < |log| && log[k].status == GENERIC_OK :: log[k].turn < turn
  }

  /** What successful calls found owed. */
  predicate OwedAtMost(log: seq<Entry>, owed: nat) {
    forall k | 0 <= k < |log| && log[k].status == GENERIC_OK :: log[k].owed <= owed
  }

  predicate NeverFalls(log: seq<Entry>) {
    forall j, k | 0 <= j < k < |log| && log[j].status == GENERIC_OK && log[k].status == GENERIC_OK :: log[j].owed <= log[k].owed
  }

  ghost predicate OrderInv<D>(s: State<D>) {
    && InOrder(s.log) && TookBefore(s.log, s.taken) && OwedAtMost(s.log, s.misses) && (AllSent(s.fates) ==> NeverFalls(s.log))
    && (s.owner.Some? && At(s, s.owner.value) ==>
          var c := s.clients[s.owner.value];
          && (c.pc == Reading ==> c.owed <= s.misses && (AllSent(s.fates) ==> c.owed == s.misses))
          && (c.pc == Done(GENERIC_OK) ==>
                && c.turn < s.taken && TookBefore(s.log, c.turn) && c.owed <= s.misses
                && (AllSent(s.fates) ==> OwedAtMost(s.log, c.owed))))
  }

  lemma OrderRelease<D(!new)>(route: Router<D>, s: State<D>, i: nat)
    requires Shape(s) && LockInv(s) && OrderInv(s) && Enabled(s, Release(i))
    ensures OrderInv(Apply(route, s, Release(i)))
  {
    var t, c := Apply(route, s, Release(i)), s.clients[i];
    assert s.owner == Some(i) && t.log[|s.log|].turn == c.turn && t.log[|s.log|].owed == c.owed;
    assert forall k | 0 <= k < |s.log| :: t.log[k] == s.log[k];
  }

  lemma OrderServe<D(!new)>(route: Router<D>, s: State<D>, fate: Fate)
    requires Shape(s) && OrderInv(s) && Enabled(s, Serve(fate))
    ensures OrderInv(Apply(route, s, Serve(fate)))
  {
    if AllSent(s.fates + [fate]) {
      AllSentSnoc(s.fates, fate);
    }
  }

  lemma OrderStep<D(!new)>(route: Router<D>, s: State<D>, e: Event)
    requires Shape(s) && LockInv(s) && OwedInv(s) && OrderInv(s) && Enabled(s, e)
    ensures OrderInv(Apply(route, s, e))
  {
    if e.Release? {
      OrderRelease(route, s, e.i);
    } else if e.Serve? {
      OrderServe(route, s, e.fate);
    } else {
      assert Apply(route, s, e).log == s.log && Apply(route, s, e).fates == s.fates;
    }
  }

  /** The reads that failed in a run. */
  function Failures(es: seq<Event>): nat {
    if es == [] then 0 else (if es[0].ReadFail? then 1 else 0) + Failures(es[1..])
  }

  lemma {:induction false} RunKeepsInv<D(!new)>(route: Router<D>, d0: D, o0: Buffer, s: State<D>, es: seq<Event>)
    requires Fits(route) && Inv(route, d0, o0, s) && OrderInv(s) && Run(route, s, es)
    ensures var t := Exec(route, s, es);
      && Inv(route, d0, o0, t) && OrderInv(t)
      && t.misses == s.misses + Failures(es) && |s.log| <= |t.log|
    decreases |es|
  {
    if es != [] {
      var e := es[0];
      ApplyKeepsShape(route, s, e);
      OrderStep(route, s, e);
      StepKeepsInv(route, d0, o0, s, e);
      RunKeepsInv(route, d0, o0, Apply(route, s, e), es[1..]);
    }
  }

  // ------------------------------------------------------------------ safety over whole runs

  lemma InitInv<D(!new)>(route: Router<D>, s: State<D>)
    requires Init(s)
    ensures Inv(route, s.ch.dev, s.ch.window, s) && OrderInv(s)
  {
    assert s.asked[0..] == [];
  }

  /**
   * trusty_cmd in every run: any number of threads, whatever writes, reads and replies fail and whatever the
   * application drops.  One thread at a time is between lock and unlock.  Each successful call holds the answer
   * to its own or to an earlier request, the answers are taken in order and each at most once, and it is its
   * own exactly if all replies sent to earlier requests had been taken.
   */
  lemma RepliesInEveryRun<D(!new)>(route: Router<D>, s: State<D>, es: seq<Event>)
    requires Fits(route) && Init(s) && Run(route, s, es)
    ensures var t := Exec(route, s, es);
      && |t.fates| <= |t.asked| && InOrder(t.log)
      && (forall j, k | 0 <= j < |t.clients| && 0 <= k < |t.clients| &&
            Critical(t.clients[j].pc) && Critical(t.clients[k].pc) :: j == k)
      && forall k | 0 <= k < |t.log| && t.log[k].status == GENERIC_OK ::
           var e := t.log[k];
           && e.mine < |t.asked| && t.asked[e.mine] == e.request && e.turn < |Answered(t.fates)|
           && var tag := Answered(t.fates)[e.turn];
              && tag <= e.mine && e.after == Answer(route, s.ch.dev, s.ch.window, t.asked, t.fates, tag)
              && (tag == e.mine <==> e.turn == SentBefore(t.fates, e.mine))
  {
    InitInv(route, s);
    RunKeepsInv(route, s.ch.dev, s.ch.window, s, es);
    var t := Exec(route, s, es);
    forall k | 0 <= k < |t.log| && t.log[k].status == GENERIC_OK
      ensures Answered(t.fates)[t.log[k].turn] == t.log[k].mine <==> t.log[k].turn == SentBefore(t.fates, t.log[k].mine)
    {
      assert ExplainedEntry(route, s.ch.dev, s.ch.window, t.asked, t.fates, t.log[k]);
      OwnTurnExactly(t.fates, t.log[k].turn, t.log[k].mine);
    }
  }

  /** The answer to a request that was sent: the router's reply to it in the state the earlier ones left. */
  lemma AnswerIsRouted<D(!new)>(route: Router<D>, d0: D, o0: Buffer, asked: seq<Buffer>, fates: seq<Fate>, t: nat)
    requires t < |fates| <= |asked| && fates[t] == Sent
    ensures var base := After(route, d0, o0, asked, fates[..t]);
      Answer(route, d0, o0, asked, fates, t) == Routed(route, base.0, asked[t], base.1).1
  {
    assert fates[..t + 1][..t] == fates[..t];
  }

  /**
   * As long as no read fails, trusty_cmd is linearizable: every successful call got the router's reply to its
   * own request, in the execution that takes the requests one at a time in the order written.  Failing writes,
   * short reads, replies the application could not send and requests it dropped do not disturb this.
   */
  lemma TrustyLinearizable<D(!new)>(route: Router<D>, s: State<D>, es: seq<Event>)
    requires Fits(route) && Init(s) && Run(route, s, es) && Failures(es) == 0
    ensures var t := Exec(route, s, es);
      && |t.fates| <= |t.asked|
      && (t.ch.dev, t.ch.window) == After(route, s.ch.dev, s.ch.window, t.asked, t.fates)
      && forall k | 0 <= k < |t.log| && t.log[k].status == GENERIC_OK ::
           var e := t.log[k];
           && e.mine < |t.fates| && t.asked[e.mine] == e.request
           && var base := After(route, s.ch.dev, s.ch.window, t.asked, t.fates[..e.mine]);
              e.after == Routed(route, base.0, e.request, base.1).1
  {
    InitInv(route, s);
    RunKeepsInv(route, s.ch.dev, s.ch.window, s, es);
    var t := Exec(route, s, es);
    forall k | 0 <= k < |t.log| && t.log[k].status == GENERIC_OK
      ensures var e := t.log[k];
        && e.mine < |t.fates| && t.asked[e.mine] == e.request
        && var base := After(route, s.ch.dev, s.ch.window, t.asked, t.fates[..e.mine]);
           e.after == Routed(route, base.0, e.request, base.1).1
    {
      assert ExplainedEntry(route, s.ch.dev, s.ch.window, t.asked, t.fates, t.log[k]);
      AnswerIsRouted(route, s.ch.dev, s.ch.window, t.asked, t.fates, t.log[k].mine);
    }
  }

  /**
   * For runs in which the application sends every reply: a successful call holds the reply to the request as
   * many places before its own as reads had failed when it wrote - so its own if and only if none had - and
   * this never decreases from one successful call to the next: a session that has got out of step stays so,
   * for every thread.
   */
  lemma RepliesShiftExactly<D(!new)>(route: Router<D>, s: State<D>, es: seq<Event>)
    requires Fits(route) && Init(s) && Run(route, s, es) && AllSent(Exec(route, s, es).fates)
    ensures var t := Exec(route, s, es);
      && |t.fates| <= |t.asked| && NeverFalls(t.log) && OwedAtMost(t.log, Failures(es))
      && Owed(t.ch) == Failures(es) + (if IsReading(t) then 1 else 0)
      && forall k | 0 <= k < |t.log| && t.log[k].status == GENERIC_OK ::
           var e := t.log[k];
           && e.owed <= e.mine < |t.asked| && t.asked[e.mine] == e.request && e.mine - e.owed < |t.fates|
           && e.after == Answer(route, s.ch.dev, s.ch.window, t.asked, t.fates, e.mine - e.owed)
  {
    InitInv(route, s);
    RunKeepsInv(route, s.ch.dev, s.ch.window, s, es);
    var t := Exec(route, s, es);
    forall k | 0 <= k < |t.log| && t.log[k].status == GENERIC_OK
      ensures ExplainedEntry(route, s.ch.dev, s.ch.window, t.asked, t.fates, t.log[k])
    {
    }
  }

  // ------------------------------------------------------------------ the log against the events

  /** The last request thread `i` called with. */
  function Called(es: seq<Event>, i: nat): Option<Buffer> {
    if es == [] then None
    else
      match es[|es| - 1]
      case Call(j, request) => if j == i then Some(request) else Called(es[..|es| - 1], i)
      case _ => Called(es[..|es| - 1], i)
  }

  /** What the last write or read of thread `i` came to: the status, and how many bytes of `out` it reached. */
  function Outcome(es: seq<Event>, i: nat): (int, nat) {
    if es == [] then (0, 0)
    else
      var init := es[..|es| - 1];
      match es[|es| - 1]
      case WriteFail(j) => if j == i then (-1, 0) else Outcome(init, i)
      case ReadFail(j) => if j == i then (-1, 0) else Outcome(init, i)
      case ReadShort(j, got) => if j == i then (-1, got) else Outcome(init, i)
      case ReadFull(j) => if j == i then (0, 32820) else Outcome(init, i)
      case _ => Outcome(init, i)
  }

  /** Who returned, with which request and to what end, told from the events alone. */
  function Account(es: seq<Event>): seq<(nat, Option<Buffer>, (int, nat))> {
    if es == [] then []
    else
      var init := es[..|es| - 1];
      match es[|es| - 1]
      case Release(i) => Account(init) + [(i, Called(init, i), Outcome(init, i))]
      case _ => Account(init)
  }

  /** What thread `i` has in `out` after the logged calls, if it had `out0` before them. */
  function LastOut(log: seq<Entry>, i: nat, out0: Buffer): Buffer {
    if log == [] then out0
    else
      var e := log[|log| - 1];
      if e.client == i then e.after else LastOut(log[..|log| - 1], i, out0)
  }

  /** `after` differs from `before` in its first `n` bytes only. */
  predicate ReachedOnly(before: Buffer, after: Buffer, n: nat) {
    |before| == |after| && forall k | n <= k < |before| :: after[k] == before[k]
  }

  ghost predicate EntryIs(log: seq<Entry>, k: nat, outs: seq<Buffer>, account: (nat, Option<Buffer>, (int, nat)))
    requires k < |log|
  {
    var e := log[k];
    && account.0 == e.client < |outs| && account.1 == Some(e.request) && account.2.0 == e.status
    && e.before == LastOut(log[..k], e.client, outs[e.client]) && ReachedOnly(e.before, e.after, account.2.1)
    && |e.before| == 32820
  }

  /** A state that the events `past` explain. */
  ghost predicate Explains<D>(past: seq<Event>, outs: seq<Buffer>, s: State<D>) {
    && |outs| == |s.clients| && |s.log| == |Account(past)|
    && (forall k | 0 <= k < |s.log| :: EntryIs(s.log, k, outs, Account(past)[k]))
    && forall i | 0 <= i < |s.clients| :: ExplainsClient(past, outs, s, i)
  }

  ghost predicate ExplainsClient<D>(past: seq<Event>, outs: seq<Buffer>, s: State<D>, i: nat)
    requires i < |outs| == |s.clients|
  {
    var c, last := s.clients[i], LastOut(s.log, i, outs[i]);
    if c.pc == Idle then c.out == last
    else
      && Called(past, i) == Some(c.request) && c.before == last
      && (if c.pc.Done? then c.pc.status == Outcome(past, i).0 && ReachedOnly(c.before, c.out, Outcome(past, i).1)
          else c.out == c.before)
  }

  lemma AccountSnoc(past: seq<Event>, e: Event)
    ensures Account(past + [e]) == Account(past) + if e.Release? then [(e.i, Called(past, e.i), Outcome(past, e.i))] else []
    ensures forall i :: Called(past + [e], i) == if e.Call? && e.i == i then Some(e.request) else Called(past, i)
    ensures forall i :: (
      Outcome(past + [e], i) ==
      if (e.WriteFail? || e.ReadFail?) && e.i == i then (-1, 0)
      else if e.ReadShort? && e.i == i then (-1, e.got)
      else if e.ReadFull? && e.i == i then (0, 32820)
      else Outcome(past, i))
  {
    assert (past + [e])[..|past|] == past;
  }

  lemma {:induction false} ExplainsRelease<D(!new)>(route: Router<D>, past: seq<Event>, outs: seq<Buffer>, s: State<D>, i: nat)
    requires Shape(s) && Explains(past, outs, s) && Enabled(s, Release(i))
    ensures Explains(past + [Release(i)], outs, Apply(route, s, Release(i)))
  {
    AccountSnoc(past, Release(i));
    var t := Apply(route, s, Release(i));
    assert t.log[..|s.log|] == s.log && ExplainsClient(past, outs, s, i);
    forall k | 0 <= k < |t.log| ensures EntryIs(t.log, k, outs, Account(past + [Release(i)])[k]) {
      if k < |s.log| {
        assert t.log[..k] == s.log[..k] && EntryIs(s.log, k, outs, Account(past)[k]);
      }
    }
    forall j | 0 <= j < |t.clients| ensures ExplainsClient(past + [Release(i)], outs, t, j) {
      assert ExplainsClient(past, outs, s, j);
    }
  }

  lemma {:induction false} ExplainsStep<D(!new)>(route: Router<D>, past: seq<Event>, outs: seq<Buffer>, s: State<D>, e: Event)
    requires Shape(s) && Explains(past, outs, s) && Enabled(s, e)
    ensures Explains(past + [e], outs, Apply(route, s, e))
  {
    AccountSnoc(past, e);
    var t := Apply(route, s, e);
    if e.Release? {
      ExplainsRelease(route, past, outs, s, e.i);
    } else {
      assert t.log == s.log && Account(past + [e]) == Account(past);
      forall i | 0 <= i < |t.clients| ensures ExplainsClient(past + [e], outs, t, i) {
        assert ExplainsClient(past, outs, s, i);
      }
    }
  }

  lemma {:induction false} ExplainsRun<D(!new)>(route: Router<D>, past: seq<Event>, outs: seq<Buffer>, s: State<D>, es: seq<Event>)
    requires Fits(route) && Shape(s) && Explains(past, outs, s) && Run(route, s, es)
    ensures Explains(past + es, outs, Exec(route, s, es))
    decreases |es|
  {
    if es == [] {
      assert past + es == past;
    } else {
      ApplyKeepsShape(route, s, es[0]);
      ExplainsStep(route, past, outs, s, es[0]);
      ExplainsRun(route, past + [es[0]], outs, Apply(route, s, es[0]), es[1..]);
      assert past + [es[0]] + es[1..] == past + es;
    }
  }

  /**
   * The log is what happened, in every run: each return is logged once, with the thread that called, the request
   * it called with, and OK exactly after a full read; failed writes and reads leave `out` alone, and a short read
   * reaches only the bytes it got.
   */
  lemma LogIsHistory<D(!new)>(route: Router<D>, s: State<D>, es: seq<Event>)
    requires Fits(route) && Init(s) && Run(route, s, es)
    ensures var log := Exec(route, s, es).log;
      && |log| == |Account(es)|
      && forall k | 0 <= k < |log| ::
           var (client, request, (status, reached)) := Account(es)[k];
           && log[k].client == client < |s.clients| && Some(log[k].request) == request && log[k].status == status
           && log[k].before == LastOut(log[..k], client, s.clients[client].out)
           && |log[k].before| == |log[k].after| == 32820
           && forall j | reached <= j < 32820 :: log[k].after[j] == log[k].before[j]
  {
    var outs := seq(|s.clients|, i requires 0 <= i < |s.clients| => s.clients[i].out);
    assert Explains([], outs, s);
    ExplainsRun(route, [], outs, s, es);
    assert [] + es == es;
    var log := Exec(route, s, es).log;
    forall k | 0 <= k < |log|
      ensures var (client, request, (status, reached)) := Account(es)[k];
        && log[k].client == client < |s.clients| && Some(log[k].request) == request && log[k].status == status
        && log[k].before == LastOut(log[..k], client, s.clients[client].out)
        && |log[k].before| == |log[k].after| == 32820
        && forall j | reached <= j < 32820 :: log[k].after[j] == log[k].before[j]
    {
      assert EntryIs(log, k, outs, Account(es)[k]);
    }
  }

  // ------------------------------------------------------------------ when a failed read does harm

  lemma {:induction false} RunSnoc<D(!new)>(route: Router<D>, s: State<D>, es: seq<Event>, e: Event)
    requires Fits(route) && Shape(s) && Run(route, s, es) && Enabled(Exec(route, s, es), e)
    ensures Run(route, s, es + [e]) && Exec(route, s, es + [e]) == Apply(route, Exec(route, s, es), e)
    ensures Failures(es + [e]) == Failures(es) + if e.ReadFail? then 1 else 0
    decreases |es|
  {
    if es == [] {
      assert [e][1..] == [] && es + [e] == [e];
      ApplyKeepsShape(route, s, e);
      assert Run(route, Apply(route, s, e), []);
    } else {
      ApplyKeepsShape(route, s, es[0]);
      RunSnoc(route, Apply(route, s, es[0]), es[1..], e);
      assert (es + [e])[0] == es[0] && (es + [e])[1..] == es[1..] + [e];
    }
  }

  /** One more event at the end of a run without failed reads. */
  lemma Then<D(!new)>(route: Router<D>, s: State<D>, es: seq<Event>, t: State<D>, e: Event)
    returns (next: seq<Event>, u: State<D>)
    requires Fits(route) && Shape(s) && Run(route, s, es) && Exec(route, s, es) == t && Enabled(t, e)
    requires Failures(es) == 0 && !e.ReadFail?
    ensures next == es + [e] && Run(route, s, next) && Exec(route, s, next) == u && Shape(u) && Failures(next) == 0
    ensures Shape(t) && u == Apply(route, t, e)
  {
    RunSnoc(route, s, es, e);
    next, u := es + [e], Apply(route, t, e);
  }

  /** A call that succeeds after state `s`, in a run without failed reads, with an answer that is not its own. */
  ghost predicate Misdelivers<D(!new)>(route: Router<D>, s: State<D>, es: seq<Event>, k: nat)
    requires Fits(route) && Shape(s)
  {
    && Failures(es) == 0 && Run(route, s, es)
    && var t := Exec(route, s, es);
       && |s.log| <= k < |t.log| && t.log[k].status == GENERIC_OK && t.log[k].turn < |Answered(t.fates)|
       && Answered(t.fates)[t.log[k].turn] != t.log[k].mine
  }

  /** From a call that has just failed, the same thread calls again and writes. */
  lemma CallAndWrite<D(!new)>(route: Router<D>, s: State<D>, i: nat, request: Buffer)
    returns (es: seq<Event>, t: State<D>)
    requires Fits(route) && Shape(s) && LockInv(s) && At(s, i) && s.clients[i].pc == Done(GENERIC_ERR) && |request| == IN_BUF_LEN
    ensures Run(route, s, es) && Exec(route, s, es) == t && Failures(es) == 0
    ensures At(t, i) && t.clients[i].pc == Reading && t.clients[i].owed == Owed(s.ch) && t.clients[i].mine == |s.asked|
    ensures t.ch == s.ch.(inbox := s.ch.inbox + [request]) && t.asked == s.asked + [request] && t.fates == s.fates
    ensures |t.log| == |s.log| + 1
  {
    var u;
    es, u := [], s;
    es, u := Then(route, s, es, u, Release(i));
    es, u := Then(route, s, es, u, Call(i, request));
    es, u := Then(route, s, es, u, Acquire(i));
    es, t := Then(route, s, es, u, Write(i));
  }

  /** It reads what comes first, and returns. */
  lemma ReadAndReturn<D(!new)>(route: Router<D>, s: State<D>, before: seq<Event>, u: State<D>, i: nat)
    returns (es: seq<Event>, t: State<D>)
    requires Fits(route) && Shape(s) && Run(route, s, before) && Exec(route, s, before) == u && Failures(before) == 0
    requires At(u, i) && u.clients[i].pc == Reading && u.ch.unread != []
    ensures Run(route, s, es) && Exec(route, s, es) == t && Failures(es) == 0
    ensures t.fates == u.fates && |t.log| == |u.log| + 1
    ensures var e, c := t.log[|u.log|], u.clients[i];
      e.status == GENERIC_OK && e.mine == c.mine && e.turn == u.taken
  {
    var v;
    es, v := Then(route, s, before, u, ReadFull(i));
    es, t := Then(route, s, es, v, Release(i));
  }

  /** The oldest reply that is or will be unread answers a request before number `m`. */
  lemma FrontIsOld<D(!new)>(route: Router<D>, d0: D, o0: Buffer, s: State<D>, m: nat)
    requires Inv(route, d0, o0, s) && s.ch.unread != [] && |s.fates| <= m
    ensures s.taken < |Answered(s.fates)| && Answered(s.fates)[s.taken] < m
  {
  }

  /** What is still owed after a failed read can be read by the next call of the same thread. */
  lemma OwedMisdelivers<D(!new)>(route: Router<D>, d0: D, o0: Buffer, s: State<D>, i: nat, request: Buffer)
    returns (es: seq<Event>)
    requires Fits(route) && Inv(route, d0, o0, s) && OrderInv(s) && 0 < Owed(s.ch)
    requires At(s, i) && s.clients[i].pc == Done(GENERIC_ERR) && |request| == IN_BUF_LEN
    ensures Misdelivers(route, s, es, |s.log| + 1)
  {
    var u, t;
    es, u := CallAndWrite(route, s, i, request);
    RunKeepsInv(route, d0, o0, s, es);
    if u.ch.unread == [] {
      var n := |s.fates|;
      var v;
      es, v := Then(route, s, es, u, Serve(Sent));
      assert v.fates == s.fates + [Sent] && |v.fates| <= |s.asked|;
      u := v;
    }
    RunKeepsInv(route, d0, o0, s, es);
    FrontIsOld(route, d0, o0, u, |s.asked|);
    es, t := ReadAndReturn(route, s, es, u, i);
  }

  /** From a state in which nothing is owed, calls that begin to write later are in step while no read fails. */
  ghost predicate InStep<D>(s: State<D>, from: nat) {
    && Owed(s.ch) <= (if IsReading(s) then 1 else 0)
    && (forall k | from <= k < |s.log| && s.log[k].status == GENERIC_OK :: s.log[k].owed == 0)
    && (s.owner.Some? && At(s, s.owner.value) ==>
          var c := s.clients[s.owner.value];
          c.pc == Reading || c.pc == Done(GENERIC_OK) ==> c.owed == 0)
  }

  lemma {:induction false} StaysInStep<D(!new)>(route: Router<D>, s: State<D>, es: seq<Event>, from: nat)
    requires Fits(route) && Shape(s) && LockInv(s) && InStep(s, from) && Run(route, s, es) && Failures(es) == 0
    ensures InStep(Exec(route, s, es), from)
    decreases |es|
  {
    if es != [] {
      ApplyKeepsShape(route, s, es[0]);
      LockInvStep(route, s, es[0]);
      StepStaysInStep(route, s, es[0], from);
      StaysInStep(route, Apply(route, s, es[0]), es[1..], from);
    }
  }

  lemma StepStaysInStep<D(!new)>(route: Router<D>, s: State<D>, e: Event, from: nat)
    requires Fits(route) && Shape(s) && LockInv(s) && InStep(s, from) && Enabled(s, e) && !e.ReadFail?
    ensures InStep(Apply(route, s, e), from)
  {
    var t := Apply(route, s, e);
    if e.Release? {
      assert s.owner == Some(e.i) && forall k | 0 <= k < |s.log| :: t.log[k] == s.log[k];
    } else {
      assert t.log == s.log;
    }
  }

  lemma LaterIsOwn<D(!new)>(route: Router<D>, d0: D, o0: Buffer, s: State<D>, es: seq<Event>, k: nat)
    requires Fits(route) && Inv(route, d0, o0, s) && OrderInv(s) && InStep(s, |s.log|)
    requires Run(route, s, es) && Failures(es) == 0
    requires |s.log| <= k < |Exec(route, s, es).log| && Exec(route, s, es).log[k].status == GENERIC_OK
    ensures var t := Exec(route, s, es);
      t.log[k].turn < |Answered(t.fates)| && Answered(t.fates)[t.log[k].turn] == t.log[k].mine
  {
    StaysInStep(route, s, es, |s.log|);
    RunKeepsInv(route, d0, o0, s, es);
    var t := Exec(route, s, es);
    assert ExplainedEntry(route, d0, o0, t.asked, t.fates, t.log[k]);
  }

  /**
   * A failed read, whatever the run before it, can make a later call return another's answer - with no further
   * read failing - if and only if the session still owes something at that moment.
   */
  lemma FailedReadHarmsExactly<D(!new)>(route: Router<D>, d0: D, o0: Buffer, s: State<D>, i: nat)
    requires Fits(route) && Inv(route, d0, o0, s) && OrderInv(s) && At(s, i) && s.clients[i].pc == Reading
    ensures var t := Apply(route, s, ReadFail(i));
      Shape(t) && ((exists es, k :: Misdelivers(route, t, es, k)) <==> 0 < Owed(s.ch))
  {
    var t := Apply(route, s, ReadFail(i));
    StepKeepsInv(route, d0, o0, s, ReadFail(i));
    OrderStep(route, s, ReadFail(i));
    if 0 < Owed(s.ch) {
      var es := OwedMisdelivers(route, d0, o0, t, i, s.clients[i].request);
      assert Misdelivers(route, t, es, |t.log| + 1);
    } else {
      forall es, k | Misdelivers(route, t, es, k) ensures false {
        LaterIsOwn(route, d0, o0, t, es, k);
      }
    }
  }
}
