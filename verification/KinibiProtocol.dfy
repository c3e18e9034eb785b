/**
 * The Kinibi request/reply protocol as a transition system: any number of client threads running
 * kinibi_cmd, interleaved with the trusted application's service loop.
 *
 * Nothing larger than one byte moves atomically: the three memcpy calls are modelled byte by byte, so
 * a client and the trusted application can meet in the middle of a copy.  Only the router is one step.
 */
module KinibiProtocol {
  import opened Common

  /**
   * What the protocol does not fix: the two window lengths, and what the router computes from the
   * device state, the request and the old contents of the reply window it writes into.
   */
  datatype Config<!D> = Config(inLen: nat, outLen: nat, route: (D, Buffer, Buffer) -> (D, Buffer))

  /** The router fills the reply window and does not resize it. */
  ghost predicate RouterFits<D(!new)>(cfg: Config<D>) {
    forall d: D, request: Buffer, reply: Buffer | |request| == cfg.inLen && |reply| == cfg.outLen ::
      |cfg.route(d, request, reply).1| == cfg.outLen
  }

  /** Where a client thread stands inside kinibi_cmd. */
  datatype Pc =
    | Idle
    | Locking
    | CopyIn(done: nat)
    | Waiting
    | CopyOut(done: nat)
    | Failed(err: int)

  /** One thread: its call's arguments, and what `out` held when the call began. */
  datatype Client = Client(pc: Pc, request: Buffer, before: Buffer, out: Buffer)

  /** Where the trusted application stands inside its service loop. */
  datatype TaPc = TaIdle | TaCopy(done: nat) | TaDone

  /** A finished kinibi_cmd: who called, with what, and how `out` looked before and after. */
  datatype Entry = Entry(client: nat, request: Buffer, before: Buffer, status: int, after: Buffer)

  datatype State<D> = State(
    owner: Option<nat>,
    clients: seq<Client>,
    memIn: Buffer,
    memOut: Buffer,
    toTa: nat,
    toClient: nat,
    ta: TaPc,
    taIn: Buffer,
    dev: D,
    log: seq<Entry>)

  datatype Event =
    | Call(i: nat, request: Buffer)
    | Acquire(i: nat)
    | StoreByte(i: nat)
    | NotifyOk(i: nat)
    | NotifyFail(i: nat, err: int)
    | WaitOk(i: nat)
    | WaitFail(i: nat, err: int)
    | LoadByte(i: nat)
    | Release(i: nat)
    | TaWake
    | TaCopyByte
    | TaRoute
    | TaReply

  /** Between pthread_mutex_lock and pthread_mutex_unlock. */
  predicate Critical(pc: Pc) {
    pc.CopyIn? || pc.Waiting? || pc.CopyOut? || pc.Failed?
  }

  predicate At<D>(s: State<D>, i: nat) {
    i < |s.clients|
  }

  predicate Enabled<D>(cfg: Config<D>, s: State<D>, e: Event) {
    match e
    case Call(i, request) => At(s, i) && s.clients[i].pc == Idle && |request| == cfg.inLen
    case Acquire(i) => At(s, i) && s.clients[i].pc == Locking && s.owner == None
    case StoreByte(i) => At(s, i) && s.clients[i].pc.CopyIn? && s.clients[i].pc.done < cfg.inLen
    case NotifyOk(i) => At(s, i) && s.clients[i].pc == CopyIn(cfg.inLen)
    case NotifyFail(i, err) => At(s, i) && s.clients[i].pc == CopyIn(cfg.inLen) && err != 0
    case WaitOk(i) => At(s, i) && s.clients[i].pc == Waiting && 0 < s.toClient
    case WaitFail(i, err) => At(s, i) && s.clients[i].pc == Waiting && err != 0
    case LoadByte(i) => At(s, i) && s.clients[i].pc.CopyOut? && s.clients[i].pc.done < cfg.outLen
    case Release(i) => At(s, i) && (s.clients[i].pc == CopyOut(cfg.outLen) || s.clients[i].pc.Failed?)
    case TaWake => s.ta == TaIdle && 0 < s.toTa
    case TaCopyByte => s.ta.TaCopy? && s.ta.done < cfg.inLen
    case TaRoute => s.ta == TaCopy(cfg.inLen)
    case TaReply => s.ta == TaDone
  }

  /** Buffers keep their declared sizes and copies stay inside them. */
  ghost predicate Shape<D>(cfg: Config<D>, s: State<D>) {
    && |s.memIn| == cfg.inLen && |s.memOut| == cfg.outLen && |s.taIn| == cfg.inLen
    && (s.ta.TaCopy? ==> s.ta.done <= cfg.inLen)
    && forall i | 0 <= i < |s.clients| :: ClientShape(cfg, s.clients[i])
  }

  ghost predicate ClientShape<D>(cfg: Config<D>, c: Client) {
    && |c.request| == cfg.inLen && |c.before| == cfg.outLen && |c.out| == cfg.outLen
    && (c.pc == Locking ==> c.out == c.before)
    && (c.pc.CopyIn? ==> c.pc.done <= cfg.inLen)
    && (c.pc.CopyOut? ==> c.pc.done <= cfg.outLen)
  }

  ghost function Set<D>(s: State<D>, i: nat, c: Client): State<D>
    requires At(s, i)
  {
    s.(clients := s.clients[i := c])
  }

  ghost function Apply<D>(cfg: Config<D>, s: State<D>, e: Event): State<D>
    requires Enabled(cfg, s, e) && Shape(cfg, s)
  {
    match e
    case Call(i, request) =>
      var c := s.clients[i];
      Set(s, i, c.(pc := Locking, request := request, before := c.out))
    case Acquire(i) => Set(s, i, s.clients[i].(pc := CopyIn(0))).(owner := Some(i))
    case StoreByte(i) =>
      var c := s.clients[i];
      Set(s, i, c.(pc := CopyIn(c.pc.done + 1))).(memIn := s.memIn[c.pc.done := c.request[c.pc.done]])
    case NotifyOk(i) => Set(s, i, s.clients[i].(pc := Waiting)).(toTa := s.toTa + 1)
    case NotifyFail(i, err) => Set(s, i, s.clients[i].(pc := Failed(err)))
    case WaitOk(i) => Set(s, i, s.clients[i].(pc := CopyOut(0))).(toClient := s.toClient - 1)
    case WaitFail(i, err) => Set(s, i, s.clients[i].(pc := Failed(err)))
    case LoadByte(i) =>
      var c := s.clients[i];
      Set(s, i, c.(pc := CopyOut(c.pc.done + 1), out := c.out[c.pc.done := s.memOut[c.pc.done]]))
    case Release(i) =>
      var c := s.clients[i];
      var status := if c.pc.Failed? then c.pc.err else 0;
      Set(s, i, c.(pc := Idle)).(
        owner := None, log := s.log + [Entry(i, c.request, c.before, status, c.out)])
    case TaWake => s.(ta := TaCopy(0), toTa := s.toTa - 1)
    case TaCopyByte =>
      s.(ta := TaCopy(s.ta.done + 1), taIn := s.taIn[s.ta.done := s.memIn[s.ta.done]])
    case TaRoute =>
      var r := cfg.route(s.dev, s.taIn, s.memOut);
      s.(ta := TaDone, dev := r.0, memOut := r.1)
    case TaReply => s.(ta := TaIdle, toClient := s.toClient + 1)
  }

  lemma ApplyKeepsShape<D(!new)>(cfg: Config<D>, s: State<D>, e: Event)
    requires RouterFits(cfg) && Shape(cfg, s) && Enabled(cfg, s, e)
    ensures Shape(cfg, Apply(cfg, s, e)) && |Apply(cfg, s, e).clients| == |s.clients|
  {
  }

  /** `es` is a run from `s`: every event is enabled where it happens. */
  ghost predicate Run<D(!new)>(cfg: Config<D>, s: State<D>, es: seq<Event>)
    requires RouterFits(cfg) && Shape(cfg, s)
    decreases |es|
  {
    es == [] ||
    (Enabled(cfg, s, es[0]) && (ApplyKeepsShape(cfg, s, es[0]); Run(cfg, Apply(cfg, s, es[0]), es[1..])))
  }

  ghost function Exec<D(!new)>(cfg: Config<D>, s: State<D>, es: seq<Event>): (t: State<D>)
    requires RouterFits(cfg) && Shape(cfg, s) && Run(cfg, s, es)
    ensures Shape(cfg, t) && |t.clients| == |s.clients|
    decreases |es|
  {
    if es == [] then s
    else ApplyKeepsShape(cfg, s, es[0]); Exec(cfg, Apply(cfg, s, es[0]), es[1..])
  }

  /** A fresh session: no call has begun, nothing is pending; memory contents are arbitrary. */
  ghost predicate Init<D>(cfg: Config<D>, s: State<D>) {
    && Shape(cfg, s) && Quiet(s) && s.owner == None && s.log == []
    && forall i | 0 <= i < |s.clients| :: s.clients[i].pc == Idle
  }

  /** No wait has expired, or failed in any other way, during the run. */
  ghost predicate NoExpiry(es: seq<Event>) {
    forall k | 0 <= k < |es| :: !es[k].WaitFail?
  }

  /** Nothing is on its way in either direction and the trusted application waits. */
  predicate Quiet<D>(s: State<D>) {
    s.toTa == 0 && s.toClient == 0 && s.ta == TaIdle
  }

  // ------------------------------------------------------------------ the atomic specification

  /**
   * Device state and reply window after executing the logged calls one after the other, each as one
   * atomic router call if it succeeded and not at all if it failed.
   */
  ghost function After<D>(cfg: Config<D>, d0: D, o0: Buffer, log: seq<Entry>): (D, Buffer)
  {
    if log == [] then (d0, o0)
    else
      var base := After(cfg, d0, o0, log[..|log| - 1]);
      var e := log[|log| - 1];
      if e.status == 0 then cfg.route(base.0, e.request, base.1) else base
  }

  /** Every logged call returned what the atomic execution of the log returns to it. */
  ghost predicate Legal<D>(cfg: Config<D>, d0: D, o0: Buffer, log: seq<Entry>)
  {
    log == [] ||
    (Legal(cfg, d0, o0, log[..|log| - 1]) &&
     var e := log[|log| - 1];
     e.after == if e.status == 0 then After(cfg, d0, o0, log).1 else e.before)
  }

  // ------------------------------------------------------------------ invariants

  ghost predicate LockInv<D>(s: State<D>) {
    && (s.owner.Some? ==> At(s, s.owner.value))
    && forall i | 0 <= i < |s.clients| :: Critical(s.clients[i].pc) <==> s.owner == Some(i)
  }

  /** The one outstanding request is in exactly one of the five places it can be. */
  ghost predicate InFlight<D>(cfg: Config<D>, s: State<D>, request: Buffer, base: (D, Buffer)) {
    var here := (s.dev, s.memOut);
    match s.ta
    case TaIdle =>
      || (s.toTa == 1 && s.toClient == 0 && here == base)
      || (s.toTa == 0 && s.toClient == 1 && here == cfg.route(base.0, request, base.1))
    case TaCopy(p) =>
      s.toTa == 0 && s.toClient == 0 && here == base && p <= |s.taIn| && p <= |request| && s.taIn[..p] == request[..p]
    case TaDone =>
      s.toTa == 0 && s.toClient == 0 && here == cfg.route(base.0, request, base.1)
  }

  /** What the lock holder's position says about the shared memory. */
  ghost predicate HolderInv<D>(cfg: Config<D>, s: State<D>, c: Client, base: (D, Buffer))
    requires Shape(cfg, s) && ClientShape(cfg, c)
  {
    var here := (s.dev, s.memOut);
    match c.pc
    case CopyIn(p) => Quiet(s) && here == base && s.memIn[..p] == c.request[..p] && c.out == c.before
    case Waiting => s.memIn == c.request && InFlight(cfg, s, c.request, base) && c.out == c.before
    case CopyOut(p) =>
      Quiet(s) && here == cfg.route(base.0, c.request, base.1) && c.out[..p] == s.memOut[..p]
    case Failed(err) => err != 0 && Quiet(s) && here == base && c.out == c.before
    case _ => false
  }

  ghost predicate Clean<D>(cfg: Config<D>, d0: D, o0: Buffer, s: State<D>) {
    && Shape(cfg, s) && LockInv(s)
    && Legal(cfg, d0, o0, s.log)
    && var base := After(cfg, d0, o0, s.log);
    if s.owner == None then Quiet(s) && (s.dev, s.memOut) == base
    else HolderInv(cfg, s, s.clients[s.owner.value], base)
  }

  // ------------------------------------------------------------------ preservation

  lemma LockInvStep<D>(cfg: Config<D>, s: State<D>, e: Event)
    requires Shape(cfg, s) && LockInv(s) && Enabled(cfg, s, e)
    ensures LockInv(Apply(cfg, s, e))
  {
  }

  lemma TaStepKeepsClean<D(!new)>(cfg: Config<D>, d0: D, o0: Buffer, s: State<D>, e: Event)
    requires RouterFits(cfg) && Clean(cfg, d0, o0, s) && Enabled(cfg, s, e)
    requires e.TaWake? || e.TaCopyByte? || e.TaRoute? || e.TaReply?
    ensures Clean(cfg, d0, o0, Apply(cfg, s, e))
  {
    ApplyKeepsShape(cfg, s, e);
    LockInvStep(cfg, s, e);
    var t := Apply(cfg, s, e);
    if e.TaCopyByte? {
      assert t.taIn[..t.ta.done] == s.taIn[..s.ta.done] + [s.memIn[s.ta.done]];
    } else if e.TaRoute? && s.owner.Some? {
      var request := s.clients[s.owner.value].request;
      assert s.taIn[..cfg.inLen] == s.taIn && request[..cfg.inLen] == request;
    }
  }

  lemma CopyStepKeepsClean<D(!new)>(cfg: Config<D>, d0: D, o0: Buffer, s: State<D>, e: Event)
    requires RouterFits(cfg) && Clean(cfg, d0, o0, s) && Enabled(cfg, s, e)
    requires e.StoreByte? || e.LoadByte?
    ensures Clean(cfg, d0, o0, Apply(cfg, s, e))
  {
    ApplyKeepsShape(cfg, s, e);
    LockInvStep(cfg, s, e);
    var t := Apply(cfg, s, e);
    var c := s.clients[e.i];
    if e.StoreByte? {
      assert t.memIn[..c.pc.done + 1] == s.memIn[..c.pc.done] + [c.request[c.pc.done]];
    } else {
      assert t.clients[e.i].out[..c.pc.done + 1] == c.out[..c.pc.done] + [s.memOut[c.pc.done]];
    }
  }

  /** What one more finished call means for the sequential execution of the log. */
  lemma LogGrows<D>(cfg: Config<D>, d0: D, o0: Buffer, log: seq<Entry>, e: Entry)
    requires Legal(cfg, d0, o0, log)
    ensures var base := After(cfg, d0, o0, log);
      && After(cfg, d0, o0, log + [e]) == (if e.status == 0 then cfg.route(base.0, e.request, base.1) else base)
      && (e.after == (if e.status == 0 then After(cfg, d0, o0, log + [e]).1 else e.before) ==> Legal(cfg, d0, o0, log + [e]))
  {
    assert (log + [e])[..|log|] == log;
  }

  lemma ReleaseKeepsClean<D(!new)>(cfg: Config<D>, d0: D, o0: Buffer, s: State<D>, i: nat)
    requires RouterFits(cfg) && Clean(cfg, d0, o0, s) && Enabled(cfg, s, Release(i))
    ensures Clean(cfg, d0, o0, Apply(cfg, s, Release(i)))
  {
    ApplyKeepsShape(cfg, s, Release(i));
    LockInvStep(cfg, s, Release(i));
    var t, c := Apply(cfg, s, Release(i)), s.clients[i];
    var e := t.log[|s.log|];
    assert t.log == s.log + [e];
    if c.pc.CopyOut? {
      assert c.out[..cfg.outLen] == c.out && s.memOut[..cfg.outLen] == s.memOut;
    }
    LogGrows(cfg, d0, o0, s.log, e);
  }

  lemma ControlStepKeepsClean<D(!new)>(cfg: Config<D>, d0: D, o0: Buffer, s: State<D>, e: Event)
    requires RouterFits(cfg) && Clean(cfg, d0, o0, s) && Enabled(cfg, s, e)
    requires e.Call? || e.Acquire? || e.NotifyOk? || e.NotifyFail? || e.WaitOk?
    ensures Clean(cfg, d0, o0, Apply(cfg, s, e))
  {
    ApplyKeepsShape(cfg, s, e);
    LockInvStep(cfg, s, e);
  }

  lemma StepKeepsClean<D(!new)>(cfg: Config<D>, d0: D, o0: Buffer, s: State<D>, e: Event)
    requires RouterFits(cfg) && Clean(cfg, d0, o0, s) && Enabled(cfg, s, e) && !e.WaitFail?
    ensures Clean(cfg, d0, o0, Apply(cfg, s, e))
  {
    if e.TaWake? || e.TaCopyByte? || e.TaRoute? || e.TaReply? {
      TaStepKeepsClean(cfg, d0, o0, s, e);
    } else if e.StoreByte? || e.LoadByte? {
      CopyStepKeepsClean(cfg, d0, o0, s, e);
    } else if e.Release? {
      ReleaseKeepsClean(cfg, d0, o0, s, e.i);
    } else {
      ControlStepKeepsClean(cfg, d0, o0, s, e);
    }
  }

  lemma RunKeepsClean<D(!new)>(cfg: Config<D>, d0: D, o0: Buffer, s: State<D>, es: seq<Event>)
    requires RouterFits(cfg) && Clean(cfg, d0, o0, s) && Run(cfg, s, es) && NoExpiry(es)
    ensures Clean(cfg, d0, o0, Exec(cfg, s, es))
    decreases |es|
  {
    if es != [] {
      assert !es[0].WaitFail?;
      ApplyKeepsShape(cfg, s, es[0]);
      StepKeepsClean(cfg, d0, o0, s, es[0]);
      RunKeepsClean(cfg, d0, o0, Apply(cfg, s, es[0]), es[1..]);
    }
  }

  // ------------------------------------------------------------------ safety over whole runs

  function Acquires(es: seq<Event>, i: nat): nat {
    if es == [] then 0 else (if es[0] == Acquire(i) then 1 else 0) + Acquires(es[1..], i)
  }

  function Releases(es: seq<Event>, i: nat): nat {
    if es == [] then 0 else (if es[0] == Release(i) then 1 else 0) + Releases(es[1..], i)
  }

  function Routings(es: seq<Event>): nat {
    if es == [] then 0 else (if es[0].TaRoute? then 1 else 0) + Routings(es[1..])
  }

  function Successes(log: seq<Entry>): nat {
    if log == [] then 0
    else Successes(log[..|log| - 1]) + if log[|log| - 1].status == 0 then 1 else 0
  }

  /** Calls of client `i` that have returned, whatever they returned. */
  function Returned(log: seq<Entry>, i: nat): nat {
    if log == [] then 0
    else Returned(log[..|log| - 1], i) + if log[|log| - 1].client == i then 1 else 0
  }

  lemma LockStep<D>(cfg: Config<D>, s: State<D>, e: Event, i: nat)
    requires Shape(cfg, s) && LockInv(s) && Enabled(cfg, s, e)
    ensures var u := Apply(cfg, s, e);
      && LockInv(u)
      && (if e == Acquire(i) then 1 else 0) + (if s.owner == Some(i) then 1 else 0)
         == (if e == Release(i) then 1 else 0) + (if u.owner == Some(i) then 1 else 0)
      && Returned(u.log, i) == Returned(s.log, i) + if e == Release(i) then 1 else 0
  {
    LockInvStep(cfg, s, e);
    var u := Apply(cfg, s, e);
    if e.Release? {
      assert u.log[..|u.log| - 1] == s.log;
    } else {
      assert u.log == s.log;
    }
  }

  /**
   * Lock safety, expired waits included: at most one client is between lock and unlock, and every lock
   * a client took has been released exactly once, by the return of the call that took it.
   */
  lemma {:induction false} LockSafety<D(!new)>(cfg: Config<D>, s: State<D>, es: seq<Event>, i: nat)
    requires RouterFits(cfg) && Shape(cfg, s) && LockInv(s) && Run(cfg, s, es)
    ensures var t := Exec(cfg, s, es);
      && LockInv(t)
      && (forall j, k | 0 <= j < |t.clients| && 0 <= k < |t.clients| &&
            Critical(t.clients[j].pc) && Critical(t.clients[k].pc) :: j == k)
      && Acquires(es, i) + (if s.owner == Some(i) then 1 else 0)
         == Releases(es, i) + (if t.owner == Some(i) then 1 else 0)
      && Returned(t.log, i) == Returned(s.log, i) + Releases(es, i)
    decreases |es|
  {
    if es != [] {
      ApplyKeepsShape(cfg, s, es[0]);
      LockStep(cfg, s, es[0], i);
      LockSafety(cfg, Apply(cfg, s, es[0]), es[1..], i);
    }
  }

  /** The router has run for the call in flight but the call has not been logged yet. */
  ghost predicate RoutedInFlight<D>(s: State<D>) {
    s.owner.Some? && At(s, s.owner.value) &&
    var pc := s.clients[s.owner.value].pc;
    pc.CopyOut? || (pc == Waiting && (s.ta == TaDone || 0 < s.toClient))
  }

  /** What one event adds to the router calls, the successes and the call in flight. */
  ghost predicate RoutedBalance<D>(s: State<D>, u: State<D>, e: Event) {
    (if e.TaRoute? then 1 else 0) + Successes(s.log) + (if RoutedInFlight(s) then 1 else 0)
    == Successes(u.log) + if RoutedInFlight(u) then 1 else 0
  }

  lemma RoutedRelease<D(!new)>(cfg: Config<D>, d0: D, o0: Buffer, s: State<D>, i: nat)
    requires RouterFits(cfg) && Clean(cfg, d0, o0, s) && Enabled(cfg, s, Release(i))
    ensures RoutedBalance(s, Apply(cfg, s, Release(i)), Release(i))
  {
    var u := Apply(cfg, s, Release(i));
    assert u.log[..|u.log| - 1] == s.log && !RoutedInFlight(u);
  }

  lemma RoutedByTa<D(!new)>(cfg: Config<D>, d0: D, o0: Buffer, s: State<D>, e: Event)
    requires RouterFits(cfg) && Clean(cfg, d0, o0, s) && Enabled(cfg, s, e)
    requires e.TaWake? || e.TaCopyByte? || e.TaRoute? || e.TaReply?
    ensures RoutedBalance(s, Apply(cfg, s, e), e)
  {
    assert Apply(cfg, s, e).log == s.log && s.owner.Some?;
  }

  lemma RoutedByClient<D(!new)>(cfg: Config<D>, d0: D, o0: Buffer, s: State<D>, e: Event)
    requires RouterFits(cfg) && Clean(cfg, d0, o0, s) && Enabled(cfg, s, e)
    requires e.Call? || e.Acquire? || e.StoreByte? || e.NotifyOk? || e.NotifyFail? || e.WaitOk? || e.LoadByte?
    ensures RoutedBalance(s, Apply(cfg, s, e), e)
  {
    assert Apply(cfg, s, e).log == s.log;
  }

  lemma RoutedStep<D(!new)>(cfg: Config<D>, d0: D, o0: Buffer, s: State<D>, e: Event)
    requires RouterFits(cfg) && Clean(cfg, d0, o0, s) && Enabled(cfg, s, e) && !e.WaitFail?
    ensures RoutedBalance(s, Apply(cfg, s, e), e)
  {
    if e.Release? {
      RoutedRelease(cfg, d0, o0, s, e.i);
    } else if e.TaWake? || e.TaCopyByte? || e.TaRoute? || e.TaReply? {
      RoutedByTa(cfg, d0, o0, s, e);
    } else {
      RoutedByClient(cfg, d0, o0, s, e);
    }
  }

  lemma {:induction false} RoutedOncePerSuccess<D(!new)>(cfg: Config<D>, d0: D, o0: Buffer, s: State<D>, es: seq<Event>)
    requires RouterFits(cfg) && Clean(cfg, d0, o0, s) && Run(cfg, s, es) && NoExpiry(es)
    ensures var t := Exec(cfg, s, es);
      Routings(es) + Successes(s.log) + (if RoutedInFlight(s) then 1 else 0)
      == Successes(t.log) + if RoutedInFlight(t) then 1 else 0
    decreases |es|
  {
    if es != [] {
      var e := es[0];
      ApplyKeepsShape(cfg, s, e);
      var u := Apply(cfg, s, e);
      StepKeepsClean(cfg, d0, o0, s, e);
      RoutedStep(cfg, d0, o0, s, e);
      RoutedOncePerSuccess(cfg, d0, o0, u, es[1..]);
    }
  }

  lemma {:induction false} LegalEntry<D>(cfg: Config<D>, d0: D, o0: Buffer, log: seq<Entry>, k: nat)
    requires Legal(cfg, d0, o0, log) && k < |log|
    ensures var base := After(cfg, d0, o0, log[..k]);
      log[k].after ==
        if log[k].status == 0 then cfg.route(base.0, log[k].request, base.1).1 else log[k].before
    decreases |log|
  {
    if k < |log| - 1 {
      var shorter := log[..|log| - 1];
      assert shorter[..k] == log[..k];
      LegalEntry(cfg, d0, o0, shorter, k);
    }
  }

  /**
   * Linearizability of kinibi_cmd.  Whatever the interleaving and whichever notifications fail, as long
   * as no wait expires: the calls that have returned are explained by executing them one at a time in
   * the order they returned.  Each successful one got exactly the router's reply to its own request in
   * that execution, each failed one left `out` alone and had no effect, and the router ran once per
   * successful call and never otherwise.
   */
  lemma Linearizable<D(!new)>(cfg: Config<D>, s: State<D>, es: seq<Event>)
    requires RouterFits(cfg) && Init(cfg, s) && Run(cfg, s, es) && NoExpiry(es)
    ensures var t := Exec(cfg, s, es);
      && (forall k | 0 <= k < |t.log| ::
            var base := After(cfg, s.dev, s.memOut, t.log[..k]);
            t.log[k].after ==
              if t.log[k].status == 0 then cfg.route(base.0, t.log[k].request, base.1).1
              else t.log[k].before)
      && (t.owner == None ==>
            && (t.dev, t.memOut) == After(cfg, s.dev, s.memOut, t.log)
            && Routings(es) == Successes(t.log))
  {
    assert Clean(cfg, s.dev, s.memOut, s);
    RunKeepsClean(cfg, s.dev, s.memOut, s, es);
    RoutedOncePerSuccess(cfg, s.dev, s.memOut, s, es);
    var t := Exec(cfg, s, es);
    forall k | 0 <= k < |t.log|
      ensures var base := After(cfg, s.dev, s.memOut, t.log[..k]);
        t.log[k].after ==
          if t.log[k].status == 0 then cfg.route(base.0, t.log[k].request, base.1).1
          else t.log[k].before
    {
      LegalEntry(cfg, s.dev, s.memOut, t.log, k);
    }
  }

  /** The router runs only for a caller that holds the lock and waits, and on that caller's request. */
  lemma RouterRunsUnderLock<D(!new)>(cfg: Config<D>, s: State<D>, es: seq<Event>)
    requires RouterFits(cfg) && Init(cfg, s) && Run(cfg, s, es) && NoExpiry(es)
    ensures var t := Exec(cfg, s, es);
      t.ta != TaIdle ==>
        && t.owner.Some? && At(t, t.owner.value)
        && t.clients[t.owner.value].pc == Waiting
        && t.memIn == t.clients[t.owner.value].request
        && (Enabled(cfg, t, TaRoute) ==> t.taIn == t.clients[t.owner.value].request)
  {
    assert Clean(cfg, s.dev, s.memOut, s);
    RunKeepsClean(cfg, s.dev, s.memOut, s, es);
    var t := Exec(cfg, s, es);
    if Enabled(cfg, t, TaRoute) {
      var request := t.clients[t.owner.value].request;
      assert t.taIn[..cfg.inLen] == t.taIn && request[..cfg.inLen] == request;
    }
  }

  // ------------------------------------------------------------------ the log against the events

  /** The last request thread `i` called with. */
  function Asked(es: seq<Event>, i: nat): Option<Buffer> {
    if es == [] then None
    else
      match es[|es| - 1]
      case Call(j, request) => if j == i then Some(request) else Asked(es[..|es| - 1], i)
      case _ => Asked(es[..|es| - 1], i)
  }

  /** The last code the vendor returned to thread `i` from a failed notification or from a wait. */
  function Code(es: seq<Event>, i: nat): int {
    if es == [] then 0
    else
      var init := es[..|es| - 1];
      match es[|es| - 1]
      case NotifyFail(j, err) => if j == i then err else Code(init, i)
      case WaitFail(j, err) => if j == i then err else Code(init, i)
      case WaitOk(j) => if j == i then 0 else Code(init, i)
      case _ => Code(init, i)
  }

  /** Who returned, with which request and which code, told from the events alone. */
  function Account(es: seq<Event>): seq<(nat, Option<Buffer>, int)> {
    if es == [] then []
    else
      var init := es[..|es| - 1];
      match es[|es| - 1]
      case Release(i) => Account(init) + [(i, Asked(init, i), Code(init, i))]
      case _ => Account(init)
  }

  /** What thread `i` has in `out` after the logged calls, if it had `out0` before them. */
  function LastOut(log: seq<Entry>, i: nat, out0: Buffer): Buffer {
    if log == [] then out0
    else
      var e := log[|log| - 1];
      if e.client == i then e.after else LastOut(log[..|log| - 1], i, out0)
  }

  ghost predicate EntryIs(log: seq<Entry>, k: nat, outs: seq<Buffer>, account: (nat, Option<Buffer>, int))
    requires k < |log|
  {
    var e := log[k];
    && account == (e.client, Some(e.request), e.status) && e.client < |outs|
    && e.before == LastOut(log[..k], e.client, outs[e.client])
  }

  /** A state that the events `past` explain. */
  ghost predicate Explains<D>(past: seq<Event>, outs: seq<Buffer>, s: State<D>) {
    && |outs| == |s.clients|
    && |s.log| == |Account(past)|
    && (forall k | 0 <= k < |s.log| :: EntryIs(s.log, k, outs, Account(past)[k]))
    && forall i | 0 <= i < |s.clients| :: ExplainsClient(past, outs, s, i)
  }

  ghost predicate ExplainsClient<D>(past: seq<Event>, outs: seq<Buffer>, s: State<D>, i: nat)
    requires i < |outs| == |s.clients|
  {
    var c, last := s.clients[i], LastOut(s.log, i, outs[i]);
    if c.pc == Idle then c.out == last
    else
      && Asked(past, i) == Some(c.request) && c.before == last
      && (c.pc.Failed? ==> c.pc.err == Code(past, i)) && (c.pc.CopyOut? ==> Code(past, i) == 0)
  }

  lemma AccountSnoc(past: seq<Event>, e: Event)
    ensures Account(past + [e]) == Account(past) + if e.Release? then [(e.i, Asked(past, e.i), Code(past, e.i))] else []
    ensures forall i :: Asked(past + [e], i) == if e.Call? && e.i == i then Some(e.request) else Asked(past, i)
    ensures forall i :: (
      Code(past + [e], i) ==
      if (e.NotifyFail? || e.WaitFail?) && e.i == i then e.err else if e.WaitOk? && e.i == i then 0 else Code(past, i))
  {
    assert (past + [e])[..|past|] == past;
  }

  lemma {:induction false} ExplainsStep<D>(cfg: Config<D>, past: seq<Event>, outs: seq<Buffer>, s: State<D>, e: Event)
    requires Shape(cfg, s) && Explains(past, outs, s) && Enabled(cfg, s, e)
    ensures Explains(past + [e], outs, Apply(cfg, s, e))
  {
    AccountSnoc(past, e);
    var t := Apply(cfg, s, e);
    if e.Release? {
      ExplainsRelease(cfg, past, outs, s, e.i);
    } else {
      assert t.log == s.log && Account(past + [e]) == Account(past);
      assert forall k | 0 <= k < |t.log| :: t.log[k] == s.log[k] && Account(past + [e])[k] == Account(past)[k];
      forall i | 0 <= i < |t.clients| ensures ExplainsClient(past + [e], outs, t, i) {
        ExplainsOne(cfg, past, outs, s, e, i);
      }
    }
  }

  lemma ExplainsOne<D>(cfg: Config<D>, past: seq<Event>, outs: seq<Buffer>, s: State<D>, e: Event, i: nat)
    requires Shape(cfg, s) && i < |outs| == |s.clients| && ExplainsClient(past, outs, s, i) && Enabled(cfg, s, e) && !e.Release?
    ensures var t := Apply(cfg, s, e); |t.clients| == |outs| && ExplainsClient(past + [e], outs, t, i)
  {
    AccountSnoc(past, e);
  }

  lemma {:induction false} ExplainsRelease<D>(cfg: Config<D>, past: seq<Event>, outs: seq<Buffer>, s: State<D>, i: nat)
    requires Shape(cfg, s) && Explains(past, outs, s) && Enabled(cfg, s, Release(i))
    ensures Explains(past + [Release(i)], outs, Apply(cfg, s, Release(i)))
  {
    AccountSnoc(past, Release(i));
    var t := Apply(cfg, s, Release(i));
    assert t.log[..|s.log|] == s.log && ExplainsClient(past, outs, s, i);
    forall k | 0 <= k < |t.log| ensures EntryIs(t.log, k, outs, Account(past + [Release(i)])[k]) {
      if k < |s.log| {
        assert t.log[..k] == s.log[..k] && EntryIs(s.log, k, outs, Account(past)[k]);
      }
    }
    forall j | 0 <= j < |t.clients| ensures ExplainsClient(past + [Release(i)], outs, t, j) {
      assert ExplainsClient(past, outs, s, j);
    }
  }

  lemma {:induction false} ExplainsRun<D(!new)>(cfg: Config<D>, past: seq<Event>, outs: seq<Buffer>, s: State<D>, es: seq<Event>)
    requires RouterFits(cfg) && Shape(cfg, s) && Explains(past, outs, s) && Run(cfg, s, es)
    ensures Explains(past + es, outs, Exec(cfg, s, es))
    decreases |es|
  {
    if es == [] {
      assert past + es == past;
    } else {
      ApplyKeepsShape(cfg, s, es[0]);
      ExplainsStep(cfg, past, outs, s, es[0]);
      ExplainsRun(cfg, past + [es[0]], outs, Apply(cfg, s, es[0]), es[1..]);
      assert past + [es[0]] + es[1..] == past + es;
    }
  }

  /**
   * The log is what happened, in every run: each return is logged once, with the thread that called, the request
   * it called with, the very code the vendor returned to it - 0 for a good wait - and what it had in `out` before.
   */
  lemma LogIsHistory<D(!new)>(cfg: Config<D>, s: State<D>, es: seq<Event>)
    requires RouterFits(cfg) && Init(cfg, s) && Run(cfg, s, es)
    ensures var log := Exec(cfg, s, es).log;
      && |log| == |Account(es)|
      && forall k | 0 <= k < |log| ::
           && Account(es)[k] == (log[k].client, Some(log[k].request), log[k].status)
           && log[k].client < |s.clients|
           && log[k].before == LastOut(log[..k], log[k].client, s.clients[log[k].client].out)
  {
    var outs := seq(|s.clients|, i requires 0 <= i < |s.clients| => s.clients[i].out);
    assert Explains([], outs, s);
    ExplainsRun(cfg, [], outs, s, es);
    assert [] + es == es;
  }

  // ------------------------------------------------------------------ building runs

  /** `es` leads from `s` to `t`, and no wait fails on the way. */
  ghost predicate Leads<D(!new)>(cfg: Config<D>, s: State<D>, es: seq<Event>, t: State<D>)
    requires RouterFits(cfg) && Shape(cfg, s)
  {
    NoExpiry(es) && Run(cfg, s, es) && Exec(cfg, s, es) == t
  }

  lemma {:induction false} RunConcat<D(!new)>(cfg: Config<D>, s: State<D>, a: seq<Event>, b: seq<Event>)
    requires RouterFits(cfg) && Shape(cfg, s) && Run(cfg, s, a) && Run(cfg, Exec(cfg, s, a), b)
    ensures Run(cfg, s, a + b) && Exec(cfg, s, a + b) == Exec(cfg, Exec(cfg, s, a), b)
    decreases |a|
  {
    if a == [] {
      assert a + b == b;
    } else {
      ApplyKeepsShape(cfg, s, a[0]);
      var u := Apply(cfg, s, a[0]);
      assert Run(cfg, u, a[1..]) && Exec(cfg, s, a) == Exec(cfg, u, a[1..]);
      RunConcat(cfg, u, a[1..], b);
      assert (a + b)[0] == a[0] && (a + b)[1..] == a[1..] + b;
    }
  }

  lemma LeadsConcat<D(!new)>(cfg: Config<D>, s: State<D>, a: seq<Event>, t: State<D>, b: seq<Event>, u: State<D>)
    requires RouterFits(cfg) && Shape(cfg, s) && Leads(cfg, s, a, t) && Leads(cfg, t, b, u)
    ensures Leads(cfg, s, a + b, u)
  {
    RunConcat(cfg, s, a, b);
  }

  lemma OneStep<D(!new)>(cfg: Config<D>, s: State<D>, e: Event) returns (t: State<D>)
    requires RouterFits(cfg) && Shape(cfg, s) && Enabled(cfg, s, e)
    ensures Shape(cfg, t) && t == Apply(cfg, s, e) && Run(cfg, s, [e]) && Exec(cfg, s, [e]) == t
    ensures !e.WaitFail? ==> Leads(cfg, s, [e], t)
  {
    ApplyKeepsShape(cfg, s, e);
    t := Apply(cfg, s, e);
    assert [e][1..] == [];
    assert Run(cfg, t, []) && Exec(cfg, t, []) == t;
  }

  lemma {:induction false} DriveTaCopy<D(!new)>(cfg: Config<D>, s: State<D>) returns (es: seq<Event>, t: State<D>)
    requires RouterFits(cfg) && Shape(cfg, s) && s.ta.TaCopy?
    ensures Leads(cfg, s, es, t)
    ensures t == s.(ta := TaCopy(cfg.inLen), taIn := s.taIn[..s.ta.done] + s.memIn[s.ta.done..])
    decreases cfg.inLen - s.ta.done
  {
    if s.ta.done == cfg.inLen {
      es, t := [], s;
    } else {
      var u := OneStep(cfg, s, TaCopyByte);
      var rest;
      rest, t := DriveTaCopy(cfg, u);
      es := [TaCopyByte] + rest;
      LeadsConcat(cfg, s, [TaCopyByte], u, rest, t);
    }
  }

  lemma {:induction false} DriveStore<D(!new)>(cfg: Config<D>, s: State<D>, i: nat) returns (es: seq<Event>, t: State<D>)
    requires RouterFits(cfg) && Shape(cfg, s) && At(s, i) && s.clients[i].pc.CopyIn?
    ensures Leads(cfg, s, es, t)
    ensures var c := s.clients[i];
      t == Set(s, i, c.(pc := CopyIn(cfg.inLen))).(memIn := s.memIn[..c.pc.done] + c.request[c.pc.done..])
    decreases cfg.inLen - s.clients[i].pc.done
  {
    if s.clients[i].pc.done == cfg.inLen {
      es, t := [], s;
    } else {
      var u := OneStep(cfg, s, StoreByte(i));
      var rest;
      rest, t := DriveStore(cfg, u, i);
      es := [StoreByte(i)] + rest;
      LeadsConcat(cfg, s, [StoreByte(i)], u, rest, t);
    }
  }

  lemma {:induction false} DriveLoad<D(!new)>(cfg: Config<D>, s: State<D>, i: nat) returns (es: seq<Event>, t: State<D>)
    requires RouterFits(cfg) && Shape(cfg, s) && At(s, i) && s.clients[i].pc.CopyOut?
    ensures Leads(cfg, s, es, t)
    ensures var c := s.clients[i];
      t == Set(s, i, c.(pc := CopyOut(cfg.outLen), out := c.out[..c.pc.done] + s.memOut[c.pc.done..]))
    decreases cfg.outLen - s.clients[i].pc.done
  {
    if s.clients[i].pc.done == cfg.outLen {
      es, t := [], s;
      var c := s.clients[i];
      assert c.out[..c.pc.done] + s.memOut[c.pc.done..] == c.out;
      assert s.clients[i := c] == s.clients;
    } else {
      var u := OneStep(cfg, s, LoadByte(i));
      var rest;
      rest, t := DriveLoad(cfg, u, i);
      var c, d := s.clients[i], u.clients[i];
      assert d.out[..d.pc.done] + s.memOut[d.pc.done..] == c.out[..c.pc.done] + s.memOut[c.pc.done..];
      es := [LoadByte(i)] + rest;
      LeadsConcat(cfg, s, [LoadByte(i)], u, rest, t);
    }
  }

  /** From wherever the request in flight is, the trusted application can finish and notify. */
  lemma DriveTa<D(!new)>(cfg: Config<D>, s: State<D>, request: Buffer, base: (D, Buffer))
    returns (es: seq<Event>, t: State<D>)
    requires RouterFits(cfg) && Shape(cfg, s)
    requires s.memIn == request && InFlight(cfg, s, request, base)
    ensures Leads(cfg, s, es, t) && Shape(cfg, t)
    ensures var r := cfg.route(base.0, request, base.1);
      t == s.(ta := TaIdle, toTa := 0, toClient := 1, taIn := t.taIn, dev := r.0, memOut := r.1)
  {
    es, t := [], s;
    if t.ta == TaIdle && t.toTa == 1 {
      var u := OneStep(cfg, t, TaWake);
      es, t := [TaWake], u;
    }
    if t.ta.TaCopy? {
      var copy, u := DriveTaCopy(cfg, t);
      assert u.taIn == request by {
        assert t.taIn[..t.ta.done] == request[..t.ta.done];
      }
      LeadsConcat(cfg, s, es, t, copy, u);
      es, t := es + copy, u;
      u := OneStep(cfg, t, TaRoute);
      LeadsConcat(cfg, s, es, t, [TaRoute], u);
      es, t := es + [TaRoute], u;
    }
    if t.ta == TaDone {
      var u := OneStep(cfg, t, TaReply);
      LeadsConcat(cfg, s, es, t, [TaReply], u);
      es, t := es + [TaReply], u;
    }
  }

  /** From a posted notification, a waiting client can collect the reply window and return success. */
  lemma DriveCollect<D(!new)>(cfg: Config<D>, s: State<D>, i: nat) returns (es: seq<Event>, t: State<D>)
    requires RouterFits(cfg) && Shape(cfg, s)
    requires At(s, i) && s.clients[i].pc == Waiting && 0 < s.toClient
    ensures Leads(cfg, s, es, t) && t.owner == None && t.dev == s.dev
    ensures var c := s.clients[i];
      t.log == s.log + [Entry(i, c.request, c.before, 0, s.memOut)]
  {
    var u := OneStep(cfg, s, WaitOk(i));
    var load, v := DriveLoad(cfg, u, i);
    assert v.clients[i].out == s.memOut;
    LeadsConcat(cfg, s, [WaitOk(i)], u, load, v);
    t := OneStep(cfg, v, Release(i));
    es := [WaitOk(i)] + load + [Release(i)];
    LeadsConcat(cfg, s, [WaitOk(i)] + load, v, [Release(i)], t);
  }

  /**
   * No deadlock: after any run in which no wait expired, a waiting call can still finish, without
   * further calls, and then returns success with the router's reply to its own request.
   */
  lemma WaitingCallCanFinish<D(!new)>(cfg: Config<D>, d0: D, o0: Buffer, s: State<D>, i: nat)
    returns (es: seq<Event>, t: State<D>)
    requires RouterFits(cfg) && Clean(cfg, d0, o0, s)
    requires At(s, i) && s.clients[i].pc == Waiting
    ensures Leads(cfg, s, es, t) && t.owner == None && Clean(cfg, d0, o0, t)
    ensures var c := s.clients[i]; var base := After(cfg, d0, o0, s.log);
      t.log == s.log + [Entry(i, c.request, c.before, 0, cfg.route(base.0, c.request, base.1).1)]
  {
    var base := After(cfg, d0, o0, s.log);
    var finish, u := DriveTa(cfg, s, s.clients[i].request, base);
    var collect;
    collect, t := DriveCollect(cfg, u, i);
    es := finish + collect;
    LeadsConcat(cfg, s, finish, u, collect, t);
    RunKeepsClean(cfg, d0, o0, s, es);
  }

  /** With a stale notification pending, a whole call can go by without the router running. */
  lemma DriveStaleCall<D(!new)>(cfg: Config<D>, s: State<D>, i: nat, request: Buffer)
    returns (es: seq<Event>, t: State<D>)
    requires RouterFits(cfg) && Shape(cfg, s)
    requires At(s, i) && s.clients[i].pc == Idle && s.owner == None && 0 < s.toClient && |request| == cfg.inLen
    ensures Leads(cfg, s, es, t) && t.owner == None && t.dev == s.dev
    ensures t.log == s.log + [Entry(i, request, s.clients[i].out, 0, s.memOut)]
  {
    var u1 := OneStep(cfg, s, Call(i, request));
    var u2 := OneStep(cfg, u1, Acquire(i));
    LeadsConcat(cfg, s, [Call(i, request)], u1, [Acquire(i)], u2);
    es := [Call(i, request)] + [Acquire(i)];
    var store, u3 := DriveStore(cfg, u2, i);
    LeadsConcat(cfg, s, es, u2, store, u3);
    es := es + store;
    var u4 := OneStep(cfg, u3, NotifyOk(i));
    LeadsConcat(cfg, s, es, u3, [NotifyOk(i)], u4);
    es := es + [NotifyOk(i)];
    var collect;
    collect, t := DriveCollect(cfg, u4, i);
    LeadsConcat(cfg, s, es, u4, collect, t);
    es := es + collect;
  }

  /**
   * The proviso of Linearizable is needed at every single wait: whenever a wait fails, whatever the run
   * before it, a continuation exists in which no further wait fails, the same thread calls again with
   * any request `second`, and is told success while holding the reply to its abandoned first request.
   * The router has not seen `second` at all when that call returns.
   */
  lemma EveryExpiryCanMisdeliver<D(!new)>(
      cfg: Config<D>, d0: D, o0: Buffer, s: State<D>, i: nat, err: int, second: Buffer)
    returns (es: seq<Event>, t: State<D>)
    requires RouterFits(cfg) && Clean(cfg, d0, o0, s)
    requires At(s, i) && s.clients[i].pc == Waiting && err != 0 && |second| == cfg.inLen
    ensures Run(cfg, s, [WaitFail(i, err)] + es) && Exec(cfg, s, [WaitFail(i, err)] + es) == t
    ensures NoExpiry(es) && t.owner == None && |t.log| == |s.log| + 2
    ensures t.log[|s.log|].request == s.clients[i].request && t.log[|s.log|].status == err
    ensures var stale := t.log[|s.log| + 1];
      var base := After(cfg, d0, o0, s.log);
      && stale.request == second && stale.status == 0
      && stale.after == cfg.route(base.0, s.clients[i].request, base.1).1
      && t.dev == cfg.route(base.0, s.clients[i].request, base.1).0
  {
    var first := s.clients[i].request;
    var failed := OneStep(cfg, s, WaitFail(i, err));
    var finish, u := DriveTa(cfg, failed, first, After(cfg, d0, o0, s.log));
    var v := OneStep(cfg, u, Release(i));
    LeadsConcat(cfg, failed, finish, u, [Release(i)], v);
    var again;
    again, t := DriveStaleCall(cfg, v, i, second);
    es := finish + [Release(i)] + again;
    LeadsConcat(cfg, failed, finish + [Release(i)], v, again, t);
    RunConcat(cfg, s, [WaitFail(i, err)], es);
  }

  /**
   * A run that goes wrong, from any fresh session with a client: one request, an expired wait, a second
   * request by the same thread, which is answered with the reply to the first.
   */
  lemma StaleReplyRun<D(!new)>(cfg: Config<D>, s: State<D>, err: int, first: Buffer, second: Buffer)
    returns (es: seq<Event>, t: State<D>)
    requires RouterFits(cfg) && Init(cfg, s) && |s.clients| != 0 && err != 0
    requires |first| == cfg.inLen && |second| == cfg.inLen
    ensures Run(cfg, s, es) && Exec(cfg, s, es) == t && |t.log| == 2
    ensures t.log[0].request == first && t.log[0].status == err
    ensures t.log[1].request == second && t.log[1].status == 0
    ensures t.log[1].after == cfg.route(s.dev, first, s.memOut).1
  {
    var u1 := OneStep(cfg, s, Call(0, first));
    var u2 := OneStep(cfg, u1, Acquire(0));
    LeadsConcat(cfg, s, [Call(0, first)], u1, [Acquire(0)], u2);
    var a := [Call(0, first)] + [Acquire(0)];
    var store, u3 := DriveStore(cfg, u2, 0);
    LeadsConcat(cfg, s, a, u2, store, u3);
    a := a + store;
    var u4 := OneStep(cfg, u3, NotifyOk(0));
    LeadsConcat(cfg, s, a, u3, [NotifyOk(0)], u4);
    a := a + [NotifyOk(0)];
    assert Clean(cfg, s.dev, s.memOut, s);
    RunKeepsClean(cfg, s.dev, s.memOut, s, a);
    es, t := EveryExpiryCanMisdeliver(cfg, s.dev, s.memOut, u4, 0, err, second);
    RunConcat(cfg, s, a, [WaitFail(0, err)] + es);
    es := a + ([WaitFail(0, err)] + es);
  }
}
