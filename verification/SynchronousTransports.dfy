/** The three transports whose call into the application is synchronous, under interleaving. */
module SynchronousTransports {
  import opened Common
  import opened Transports
  import opened CriticalSection

  /** How far a call has got, its request, its reply window and its status. */
  datatype Local = Local(stage: nat, request: Buffer, out: Buffer, status: int)

  // ------------------------------------------------------------------ QSEE: one vendor call on the caller's own windows

  /** The one step of qsee_cmd between lock and unlock. */
  datatype Send = Send(transport: int, served: bool)

  function SendAct<D(!new)>(route: Router<D>, dev: D, l: Local, e: Send): (D, Local) {
    var now := l.(stage := l.stage + 1, status := e.transport);
    if !e.served then (dev, now)
    else
      var r := Routed(route, dev, l.request, l.out);
      (r.0, now.(out := r.1))
  }

  ghost function SendBody<D(!new)>(route: Router<D>): Body<D, Local, Send> {
    Body((dev: D, l: Local, e: Send) => SendAct(route, dev, l, e),
         (l: Local, e: Send) => l.stage == 0 && (e.transport == 0 ==> e.served),
         (l: Local) => l.stage == 0,
         (l: Local) => l.stage == 1)
  }

  /** A call that ran alone: one router call if it reached the application, nothing if it did not. */
  ghost predicate SendSpec<D(!new)>(route: Router<D>, before: D, after: D, e: CriticalSection.Entry<Local, Send>) {
    && |e.steps| == 1 && var served := e.steps[0].served;
    && e.end.status == e.steps[0].transport && (e.end.status == 0 ==> served)
    && (after, e.end.out) == if served then Routed(route, before, e.start.request, e.start.out) else (before, e.start.out)
  }

  lemma SendAlone<D(!new)>(route: Router<D>, dev: D, e: CriticalSection.Entry<Local, Send>)
    requires Alone(SendBody(route), dev, e)
    ensures SendSpec(route, dev, Replay(SendBody(route), dev, e.start, e.steps).0, e)
  {
    var body, n := SendBody(route), |e.steps|;
    SendStages(route, dev, e.start, e.steps);
    assert e.steps[..0] == [];
    assert Replay(body, dev, e.start, e.steps[..0]) == (dev, e.start);
  }

  lemma {:induction false} SendStages<D(!new)>(route: Router<D>, dev: D, start: Local, steps: seq<Send>)
    ensures Replay(SendBody(route), dev, start, steps).1.stage == start.stage + |steps|
  {
    if steps != [] {
      SendStages(route, dev, start, steps[..|steps| - 1]);
    }
  }

  /** qsee_cmd with any number of threads: each call is atomic. */
  lemma SendsAreAtomic<D(!new)>(route: Router<D>, s: CriticalSection.State<D, Local, Send>, evs: seq<CriticalSection.Event<Local, Send>>)
    requires CriticalSection.Init(s) && Run(SendBody(route), s, evs)
    ensures var body, log := SendBody(route), Exec(SendBody(route), s, evs).log;
      forall k | 0 <= k < |log| ::
        SendSpec(route, After(body, s.shared, log[..k]), After(body, s.shared, log[..k + 1]), log[k])
  {
    var body, log := SendBody(route), Exec(SendBody(route), s, evs).log;
    Serializable(body, s.shared, s, evs, 0);
    forall k | 0 <= k < |log|
      ensures SendSpec(route, After(body, s.shared, log[..k]), After(body, s.shared, log[..k + 1]), log[k])
    {
      AfterLast(body, s.shared, log, k);
      SendAlone(route, After(body, s.shared, log[..k]), log[k]);
    }
  }

  // ------------------------------------------------------------------ iSee: the command header is shared

  /**
   * What the header's pointer leads to: the request and the reply window of the caller whose `in` is at `at`.
   * Neither changes while that caller is in its call, except by the ioctl.
   */
  datatype Target = Target(at: nat, request: Buffer, window: Buffer)

  /** Device state and the global header, whose fields still hold what the previous call put there. */
  datatype Headed<!D> = Headed(dev: D, target: Target, length: nat)

  datatype IseeStep = StoreAddress | StoreLength | Ioctl(transport: int, served: bool)

  /** A caller: where its `in` is, and how far it has got. */
  datatype Caller = Caller(at: nat, local: Local)

  /**
   * One step of isee_cmd.  The ioctl goes through the header: it routes the request the header leads to, and
   * writes the reply behind that request - which the caller sees if it is its own.
   */
  function IseeAct<D(!new)>(route: Router<D>, s: Headed<D>, c: Caller, e: IseeStep): (Headed<D>, Caller) {
    var now := c.local.(stage := c.local.stage + 1);
    match e
    case StoreAddress => (s.(target := Target(c.at, c.local.request, c.local.out)), c.(local := now))
    case StoreLength => (s.(length := IN_BUF_LEN + OUT_BUF_LEN), c.(local := now))
    case Ioctl(transport, served) =>
      if !served || s.length != IN_BUF_LEN + OUT_BUF_LEN then (s, c.(local := now.(status := transport)))
      else
        var r := Routed(route, s.dev, s.target.request, s.target.window);
        (Headed(r.0, s.target.(window := r.1), s.length),
         c.(local := now.(status := transport, out := if s.target.at == c.at then r.1 else c.local.out)))
  }

  predicate IseeNext(c: Caller, e: IseeStep) {
    match e
    case StoreAddress => c.local.stage == 0
    case StoreLength => c.local.stage == 1
    case Ioctl(transport, served) => c.local.stage == 2 && (transport == 0 ==> served)
  }

  ghost function IseeBody<D(!new)>(route: Router<D>): Body<Headed<D>, Caller, IseeStep> {
    Body((s: Headed<D>, c: Caller, e: IseeStep) => IseeAct(route, s, c, e),
         (c: Caller, e: IseeStep) => IseeNext(c, e),
         (c: Caller) => c.local.stage == 0,
         (c: Caller) => c.local.stage == 3)
  }

  /** A call that ran alone: at most one router call, on its own request and into its own window. */
  ghost predicate IseeSpec<D(!new)>(route: Router<D>, s: Headed<D>, t: Headed<D>, e: CriticalSection.Entry<Caller, IseeStep>) {
    && |e.steps| == 3 && e.steps[2].Ioctl? && var served := e.steps[2].served;
    && e.end.local.status == e.steps[2].transport && (e.end.local.status == 0 ==> served)
    && (t.dev, e.end.local.out)
       == if served then Routed(route, s.dev, e.start.local.request, e.start.local.out) else (s.dev, e.start.local.out)
  }

  lemma {:induction false} IseeStages<D(!new)>(route: Router<D>, s: Headed<D>, start: Caller, steps: seq<IseeStep>)
    ensures var r := Replay(IseeBody(route), s, start, steps).1;
      r.local.stage == start.local.stage + |steps| && r.at == start.at && r.local.request == start.local.request
  {
    if steps != [] {
      IseeStages(route, s, start, steps[..|steps| - 1]);
    }
  }

  lemma IseeAlone<D(!new)>(route: Router<D>, s: Headed<D>, e: CriticalSection.Entry<Caller, IseeStep>)
    requires Alone(IseeBody(route), s, e)
    ensures IseeSpec(route, s, Replay(IseeBody(route), s, e.start, e.steps).0, e)
  {
    var body, steps := IseeBody(route), e.steps;
    IseeStages(route, s, e.start, steps);
    assert |steps| == 3;
    var one, two := steps[..1], steps[..2];
    assert two[..1] == one && one[..0] == [] && steps[..|steps| - 1] == two;
    IseeStages(route, s, e.start, one);
    IseeStages(route, s, e.start, two);
    assert Performed(body, s, e.start, two) && IseeNext(Replay(body, s, e.start, two).1, steps[2]);
    assert Performed(body, s, e.start, one) && IseeNext(Replay(body, s, e.start, one).1, steps[1]);
    assert Replay(body, s, e.start, []) == (s, e.start);
    assert IseeNext(e.start, steps[0]);
    assert Replay(body, s, e.start, one).0 == s.(target := Target(e.start.at, e.start.local.request, e.start.local.out));
  }

  /** isee_cmd with any number of threads: each call is atomic, and its reply is that to its own request. */
  lemma IseeCallsAreAtomic<D(!new)>(route: Router<D>, s: CriticalSection.State<Headed<D>, Caller, IseeStep>,
                                    evs: seq<CriticalSection.Event<Caller, IseeStep>>)
    requires CriticalSection.Init(s) && Run(IseeBody(route), s, evs)
    ensures var body, log := IseeBody(route), Exec(IseeBody(route), s, evs).log;
      forall k | 0 <= k < |log| ::
        IseeSpec(route, After(body, s.shared, log[..k]), After(body, s.shared, log[..k + 1]), log[k])
  {
    var body, log := IseeBody(route), Exec(IseeBody(route), s, evs).log;
    Serializable(body, s.shared, s, evs, 0);
    forall k | 0 <= k < |log|
      ensures IseeSpec(route, After(body, s.shared, log[..k]), After(body, s.shared, log[..k + 1]), log[k])
    {
      AfterLast(body, s.shared, log, k);
      IseeAlone(route, After(body, s.shared, log[..k]), log[k]);
    }
  }

  /**
   * What the mutex prevents: if another caller stores its address between the first caller's stores and its
   * ioctl, the first is told success, the router has seen the other's request, and its own window is untouched.
   */
  lemma HeaderRace<D(!new)>(route: Router<D>, s: Headed<D>, first: Caller, second: Caller)
    requires first.local.stage == second.local.stage == 0 && first.at != second.at
    ensures var (s1, f1) := IseeAct(route, s, first, StoreAddress);
      var (s2, f2) := IseeAct(route, s1, f1, StoreLength);
      var (s3, g1) := IseeAct(route, s2, second, StoreAddress);
      var (s4, f3) := IseeAct(route, s3, f2, Ioctl(0, true));
      && IseeNext(first, StoreAddress) && IseeNext(f1, StoreLength) && IseeNext(second, StoreAddress) && IseeNext(f2, Ioctl(0, true))
      && f3.local.stage == 3 && f3.local.status == 0 && f3.local.out == first.local.out
      && s4.dev == Routed(route, s.dev, second.local.request, second.local.out).0
  {
  }

  // ------------------------------------------------------------------ GlobalPlatform: both windows are shared

  /** Device state and the two registered memories. */
  datatype Registered<!D> = Registered(dev: D, inMem: Buffer, outMem: Buffer)

  datatype GpStep = CopyIn | Invoke(transport: int, served: bool) | CopyOut

  function GpAct<D(!new)>(route: Router<D>, s: Registered<D>, l: Local, e: GpStep): (Registered<D>, Local) {
    var now := l.(stage := l.stage + 1);
    match e
    case CopyIn => (s.(inMem := l.request), now)
    case Invoke(transport, served) =>
      if !served then (s, now.(status := transport))
      else
        var r := Routed(route, s.dev, s.inMem, s.outMem);
        (Registered(r.0, s.inMem, r.1), now.(status := transport))
    case CopyOut => (s, now.(out := s.outMem))
  }

  predicate GpNext(l: Local, e: GpStep) {
    match e
    case CopyIn => l.stage == 0
    case Invoke(transport, served) => l.stage == 1 && (transport == 0 ==> served)
    case CopyOut => l.stage == 2
  }

  ghost function GpBody<D(!new)>(route: Router<D>): Body<Registered<D>, Local, GpStep> {
    Body((s: Registered<D>, l: Local, e: GpStep) => GpAct(route, s, l, e),
         (l: Local, e: GpStep) => GpNext(l, e),
         (l: Local) => l.stage == 0,
         (l: Local) => l.stage == 3)
  }

  /** A call that ran alone: at most one router call, and whatever the status the reply window comes back. */
  ghost predicate GpSpec<D(!new)>(route: Router<D>, s: Registered<D>, t: Registered<D>, e: CriticalSection.Entry<Local, GpStep>) {
    && |e.steps| == 3 && e.steps[1].Invoke? && var served := e.steps[1].served;
    && e.end.status == e.steps[1].transport && (e.end.status == 0 ==> served)
    && (t.dev, t.outMem) == (if served then Routed(route, s.dev, e.start.request, s.outMem) else (s.dev, s.outMem))
    && e.end.out == t.outMem
  }

  lemma {:induction false} GpStages<D(!new)>(route: Router<D>, s: Registered<D>, start: Local, steps: seq<GpStep>)
    ensures var r := Replay(GpBody(route), s, start, steps).1;
      r.stage == start.stage + |steps| && r.request == start.request
  {
    if steps != [] {
      GpStages(route, s, start, steps[..|steps| - 1]);
    }
  }

  lemma GpAlone<D(!new)>(route: Router<D>, s: Registered<D>, e: CriticalSection.Entry<Local, GpStep>)
    requires Alone(GpBody(route), s, e)
    ensures GpSpec(route, s, Replay(GpBody(route), s, e.start, e.steps).0, e)
  {
    var body, steps := GpBody(route), e.steps;
    GpStages(route, s, e.start, steps);
    assert |steps| == 3;
    var one, two := steps[..1], steps[..2];
    assert two[..1] == one && one[..0] == [] && steps[..|steps| - 1] == two;
    GpStages(route, s, e.start, one);
    GpStages(route, s, e.start, two);
    assert Performed(body, s, e.start, two) && GpNext(Replay(body, s, e.start, two).1, steps[2]);
    assert Performed(body, s, e.start, one) && GpNext(Replay(body, s, e.start, one).1, steps[1]);
    assert Replay(body, s, e.start, []) == (s, e.start);
    assert GpNext(e.start, steps[0]);
    assert Replay(body, s, e.start, one).0 == s.(inMem := e.start.request);
  }

  /** gp_cmd with any number of threads: each call is atomic, and its reply is that to its own request. */
  lemma GpCallsAreAtomic<D(!new)>(route: Router<D>, s: CriticalSection.State<Registered<D>, Local, GpStep>,
                                  evs: seq<CriticalSection.Event<Local, GpStep>>)
    requires CriticalSection.Init(s) && Run(GpBody(route), s, evs)
    ensures var body, log := GpBody(route), Exec(GpBody(route), s, evs).log;
      forall k | 0 <= k < |log| ::
        GpSpec(route, After(body, s.shared, log[..k]), After(body, s.shared, log[..k + 1]), log[k])
  {
    var body, log := GpBody(route), Exec(GpBody(route), s, evs).log;
    Serializable(body, s.shared, s, evs, 0);
    forall k | 0 <= k < |log|
      ensures GpSpec(route, After(body, s.shared, log[..k]), After(body, s.shared, log[..k + 1]), log[k])
    {
      AfterLast(body, s.shared, log, k);
      GpAlone(route, After(body, s.shared, log[..k]), log[k]);
    }
  }
}
