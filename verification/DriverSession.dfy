/** The driver's commands arriving at the trusted application: what holds there over a whole session. */
module DriverSession {
  import opened Common
  import opened Vendor
  import opened TrustedApp
  import opened StoreTheory
  import opened Words
  import Driver

  /** Before turn `k` the device structure is allocated. */
  ghost predicate LiveBefore(p: Platform, wide: bool, st: TaState, out: Out, turns: seq<Turn>, k: nat)
    requires OutFits(out) && StoreFits(st.files) && k < |turns|
  {
    RunFits(p, wide, st, out, turns[..k]) && RunSpec(p, wide, st, out, turns[..k]).0.live
  }

  /** No router call uses a freed structure, in the whole of a run, exactly when RELEASE comes last or not at all. */
  lemma LiveAtEveryCall(p: Platform, wide: bool, st: TaState, out: Out, turns: seq<Turn>)
    requires OutFits(out) && StoreFits(st.files) && RunFits(p, wide, st, out, turns)
    ensures (forall k | 0 <= k < |turns| :: LiveBefore(p, wide, st, out, turns, k)) <==> ReleasedLast(st, turns)
  {
    forall k | 0 <= k < |turns|
      ensures LiveBefore(p, wide, st, out, turns, k)
              <==> st.live && forall j | 0 <= j < k :: turns[j].req.cmd != TEE_CMD_RELEASE
    {
      RunFitsPrefix(p, wide, st, out, turns, k);
      LiveExactly(p, wide, st, out, turns[..k]);
      assert forall j | 0 <= j < k :: turns[..k][j] == turns[j];
    }
    if turns != [] && LiveBefore(p, wide, st, out, turns, |turns| - 1) {
      assert ReleasedLast(st, turns);
    }
  }

  predicate Bounded(files: Files, n: nat) {
    forall name | name in files :: |files[name]| <= n
  }

  lemma TurnKeepsBound(p: Platform, wide: bool, st: TaState, out: Out, turn: Turn, n: nat)
    requires OutFits(out) && StoreFits(st.files) && RequestFits(turn.req) && PlanFits(turn.plan, st.fds)
    requires Bounded(st.files, n) && (turn.req.cmd == TEE_CMD_WRITE_TEST ==> turn.req.bufLen <= n)
    ensures Bounded(RouterSpec(p, wide, st, out, turn.req, turn.plan).0.files, n)
  {
  }

  /**
   * On every platform a store never holds a file longer than the longest payload offered to it, or than
   * what it held at the start.  With the driver's payloads of at most 32736 bytes and an empty store, every
   * file fits the reply payload for the whole session.
   */
  lemma {:induction false} FilesStayBounded(p: Platform, wide: bool, st: TaState, out: Out, turns: seq<Turn>, n: nat)
    requires OutFits(out) && StoreFits(st.files) && RunFits(p, wide, st, out, turns) && Bounded(st.files, n)
    requires forall k | 0 <= k < |turns| :: turns[k].req.cmd == TEE_CMD_WRITE_TEST ==> turns[k].req.bufLen <= n
    ensures Bounded(RunSpec(p, wide, st, out, turns).0.files, n)
    decreases |turns|
  {
    if turns != [] {
      var init, last := turns[..|turns| - 1], turns[|turns| - 1];
      RunSpecLast(p, wide, st, out, turns);
      FilesStayBounded(p, wide, st, out, init, n);
      var before := RunSpec(p, wide, st, out, init);
      TurnKeepsBound(p, wide, before.0, before.1, last, n);
    }
  }

  // ------------------------------------------------------------------ driver and router as one system

  /**
   * What becomes of one call: it never reaches the router, or the router serves it with the vendor outcomes
   * `plan`, and its reply may or may not get back into the driver's buffer.
   */
  datatype Leg = Lost | Served(plan: Plan, delivered: bool)

  predicate Answered(leg: Leg) {
    leg.Served? && leg.delivered
  }

  function RequestOf(r: Driver.Round): (req: Request)
    requires Driver.RoundFits(r)
    ensures RequestFits(req)
  {
    AsRequest(Driver.PacketOf(r))
  }

  /** What the router makes of a request that gets through. */
  function AsRequest(q: Driver.Packet): Request {
    Request(q.cmd, q.name, q.bufLen, q.payload)
  }

  /** What the router sees of the first `n` rounds: the calls that reached it, in order. */
  function ServedTurns(rounds: seq<Driver.Round>, legs: seq<Leg>, n: nat): (turns: seq<Turn>)
    requires Driver.AllFit(rounds) && n <= |rounds| && n <= |legs|
  {
    if n == 0 then []
    else
      ServedTurns(rounds, legs, n - 1) + ServedBy(RequestOf(rounds[n - 1]), legs[n - 1])
  }

  function ServedBy(req: Request, leg: Leg): (turns: seq<Turn>)
    ensures |turns| == if leg.Served? then 1 else 0
  {
    match leg
    case Lost => []
    case Served(plan, _) => [Turn(req, plan)]
  }

  /** Round `k` was told the truth: the reply that came back, if one did, is the router's. */
  ghost predicate Told(p: Platform, wide: bool, st: TaState, out: Out, rounds: seq<Driver.Round>, legs: seq<Leg>, k: nat)
    requires OutFits(out) && StoreFits(st.files) && Driver.AllFit(rounds) && k < |rounds| && k < |legs|
  {
    var turns := ServedTurns(rounds, legs, k + 1);
    && RunFits(p, wide, st, out, turns)
    && rounds[k].reply == if Answered(legs[k]) then Some(RunSpec(p, wide, st, out, turns).1.ok) else None
  }

  /** The driver and the router as one system, for the first `n` rounds. */
  ghost predicate Closed(p: Platform, wide: bool, st: TaState, out: Out, rounds: seq<Driver.Round>, legs: seq<Leg>, n: nat) {
    && OutFits(out) && StoreFits(st.files) && Driver.AllFit(rounds) && n <= |rounds| && n <= |legs|
    && forall k | 0 <= k < n :: Told(p, wide, st, out, rounds, legs, k)
  }

  lemma ClosedFits(p: Platform, wide: bool, st: TaState, out: Out, rounds: seq<Driver.Round>, legs: seq<Leg>, n: nat)
    requires Closed(p, wide, st, out, rounds, legs, n)
    ensures RunFits(p, wide, st, out, ServedTurns(rounds, legs, n))
  {
    if n > 0 {
      assert Told(p, wide, st, out, rounds, legs, n - 1);
    }
  }

  // ------------------------------------------------------------------ the first read of a session

  predicate NoReads(turns: seq<Turn>) {
    forall k | 0 <= k < |turns| :: turns[k].req.cmd != TEE_CMD_READ_TEST
  }

  lemma {:induction false} ServedNoReads(rounds: seq<Driver.Round>, legs: seq<Leg>, n: nat)
    requires Driver.AllFit(rounds) && n <= |rounds| && n <= |legs|
    requires forall k | 0 <= k < n :: Driver.Cmd(rounds[k]) != TEE_CMD_READ_TEST
    ensures NoReads(ServedTurns(rounds, legs, n))
  {
    if n > 0 {
      ServedNoReads(rounds, legs, n - 1);
    }
  }

  /** A successful SPI transfer. */
  predicate Transferred(p: Platform, turn: Turn) {
    && (turn.req.cmd == TEE_CMD_SPI_TEST || turn.req.cmd == TEE_CMD_READ_ID)
    && (p == Qsee ==> turn.plan.spiOpen == 0) && turn.plan.spiXfer == 0
  }

  /** What the latest successful SPI transfer of a run brought. */
  function LastRx(p: Platform, turns: seq<Turn>): Option<Buffer> {
    if turns == [] then None
    else
      var last := turns[|turns| - 1];
      if Transferred(p, last) then Some(last.plan.rx) else LastRx(p, turns[..|turns| - 1])
  }

  /** The reply payload while nothing has been read: only SPI transfers touch it, always its first two bytes. */
  lemma {:induction false} PayloadBeforeReads(p: Platform, wide: bool, st: TaState, out: Out, turns: seq<Turn>)
    requires OutFits(out) && StoreFits(st.files) && RunFits(p, wide, st, out, turns) && NoReads(turns)
    ensures var r, rx := RunSpec(p, wide, st, out, turns).1, LastRx(p, turns);
      && r.bufLen == out.bufLen
      && (rx.Some? ==> |rx.value| == 2)
      && r.buf == if rx.Some? then Moved(out.buf, rx.value) else out.buf
    decreases |turns|
  {
    if turns != [] {
      var init, last := turns[..|turns| - 1], turns[|turns| - 1];
      RunSpecLast(p, wide, st, out, turns);
      PayloadBeforeReads(p, wide, st, out, init);
      assert last.req.cmd != TEE_CMD_READ_TEST;
    }
  }

  lemma ValueIsZeroExactly(b: Buffer)
    requires |b| == 4
    ensures Value(b) == 0 <==> b == [0, 0, 0, 0]
  {
    LeOfValue(b);
    FourZeros();
  }

  /** The first four bytes of the payload as the first read finds it, from the payload at the start. */
  function HeadBefore(p: Platform, buf: Buffer, turns: seq<Turn>): (head: Buffer)
    requires |buf| == BUF_LEN
  {
    match LastRx(p, turns)
    case Some(rx) => rx + buf[2..4]
    case None => buf[..4]
  }

  /** The vendor performs a read of the file, of which there is something to read. */
  predicate ReadPerformed(p: Platform, plan: Plan, content: Buffer) {
    && Reaches(p, plan) && 0 <= plan.size && content != []
    && if p == Qsee then |content| <= plan.io else 0 <= plan.io
  }

  /** The capacity a first read finds: the reply length as it was, and, where size_t is wide, the bytes behind it. */
  predicate FirstReadFits(p: Platform, wide: bool, out: Out, turns: seq<Turn>, content: Buffer)
    requires OutFits(out)
  {
    |content| <= out.bufLen || (wide && HeadBefore(p, out.buf, turns) != [0, 0, 0, 0])
  }

  lemma CapacityExactly(out: Out, wide: bool, content: Buffer)
    requires OutFits(out) && |content| <= BUF_LEN
    ensures |content| <= Capacity(out, wide) <==> |content| <= out.bufLen || (wide && Value(out.buf[..4]) != 0)
  {
  }

  /** The capacity before the first read. */
  lemma FirstCapacity(p: Platform, wide: bool, st: TaState, out: Out, turns: seq<Turn>, content: Buffer)
    requires OutFits(out) && StoreFits(st.files) && |content| <= BUF_LEN
    requires RunFits(p, wide, st, out, turns) && NoReads(turns)
    ensures |content| <= Capacity(RunSpec(p, wide, st, out, turns).1, wide) <==> FirstReadFits(p, wide, out, turns, content)
  {
    var now := RunSpec(p, wide, st, out, turns).1;
    PayloadBeforeReads(p, wide, st, out, turns);
    var head := HeadBefore(p, out.buf, turns);
    assert now.buf[..4] == head;
    ValueIsZeroExactly(head);
    CapacityExactly(now, wide, content);
  }

  /**
   * The first read of a run, whatever the reply buffer holds at the start: it succeeds exactly when the vendor
   * performs it and the file is no longer than the reply length, or size_t is wide and the four payload bytes
   * behind the length are not all zero.
   */
  lemma FirstReadExactly(p: Platform, wide: bool, st: TaState, out: Out, turns: seq<Turn>, read: Turn)
    requires OutFits(out) && StoreFits(st.files)
    requires RunFits(p, wide, st, out, turns) && NoReads(turns) && read.req.cmd == TEE_CMD_READ_TEST
    requires RequestFits(read.req) && PlanFits(read.plan, RunSpec(p, wide, st, out, turns).0.fds)
    ensures var now := RunSpec(p, wide, st, out, turns);
      var content := ContentOf(now.0.files, read.req.name);
      RouterSpec(p, wide, now.0, now.1, read.req, read.plan).1.ok
      <==> ReadPerformed(p, read.plan, content) && FirstReadFits(p, wide, out, turns, content)
  {
    var now := RunSpec(p, wide, st, out, turns);
    if Reaches(p, read.plan) {
      var content := ContentOf(now.0.files, read.req.name);
      FirstCapacity(p, wide, st, out, turns, content);
      ReadIsFetchOfContent(p, wide, now.0, now.1, read);
      FetchExactly(now.1.(ok := true), content, SizeRet(p, read.plan, content), read.plan.io, p == Qsee, wide);
    }
  }

  /** A routed read of any file, existing or not, that gets it open. */
  lemma ReadIsFetchOfContent(p: Platform, wide: bool, st: TaState, out: Out, read: Turn)
    requires OutFits(out) && StoreFits(st.files) && RequestFits(read.req) && PlanFits(read.plan, st.fds)
    requires read.req.cmd == TEE_CMD_READ_TEST && Reaches(p, read.plan)
    ensures var content := ContentOf(st.files, read.req.name);
      |content| <= BUF_LEN &&
      RouterSpec(p, wide, st, out, read.req, read.plan).1
      == Fetch(out.(ok := true), content, SizeRet(p, read.plan, content), read.plan.io, p == Qsee, wide)
  {
  }

  // ------------------------------------------------------------------ how a session ends

  const READ := TEE_CMD_READ_TEST

  /** Round `f` is the first to read, all before it left status OK, and its own reply comes back. */
  predicate FirstRead(rounds: seq<Driver.Round>, legs: seq<Leg>, f: nat)
    requires Driver.AllFit(rounds)
  {
    && f < |rounds| && f < |legs| && f <= Driver.Kept(true, rounds)
    && Driver.Cmd(rounds[f]) == READ && Answered(legs[f])
    && forall k | 0 <= k < f :: Driver.Cmd(rounds[k]) != READ
  }

  /** Status after an answered round is what the answer says. */
  lemma KeptBeyondExactly(rounds: seq<Driver.Round>, f: nat)
    requires f < |rounds| && f <= Driver.Kept(true, rounds) && rounds[f].reply.Some?
    ensures f < Driver.Kept(true, rounds) <==> rounds[f].reply.value
  {
    Driver.KeptExactly(true, rounds, Driver.Kept(true, rounds));
    assert Driver.StatusAfter(true, rounds[..f + 1]) == rounds[f].reply.value;
  }

  /** The test loop gets past its first read exactly when that read succeeds. */
  lemma FirstReadKeptExactly(p: Platform, wide: bool, st: TaState, out: Out, rounds: seq<Driver.Round>, legs: seq<Leg>, f: nat)
    requires Closed(p, wide, st, out, rounds, legs, f + 1) && FirstRead(rounds, legs, f)
    ensures var turns := ServedTurns(rounds, legs, f);
      && RunFits(p, wide, st, out, turns)
      && var content := ContentOf(RunSpec(p, wide, st, out, turns).0.files, Driver.TEST_FILE);
         (f < Driver.Kept(true, rounds)
          <==> ReadPerformed(p, legs[f].plan, content) && FirstReadFits(p, wide, out, turns, content))
  {
    var turns, read := ServedTurns(rounds, legs, f), Turn(RequestOf(rounds[f]), legs[f].plan);
    var next := ServedTurns(rounds, legs, f + 1);
    assert Told(p, wide, st, out, rounds, legs, f);
    assert next[..|next| - 1] == turns && next[|next| - 1] == read;
    RunSpecLast(p, wide, st, out, next);
    ServedNoReads(rounds, legs, f);
    FirstReadExactly(p, wide, st, out, turns, read);
    KeptBeyondExactly(rounds, f);
  }

  lemma {:induction false} FindFirstRead(rounds: seq<Driver.Round>, k: nat) returns (f: nat)
    requires Driver.AllFit(rounds) && k < |rounds| && Driver.Cmd(rounds[k]) == READ
    ensures f <= k && Driver.Cmd(rounds[f]) == READ && forall j | 0 <= j < f :: Driver.Cmd(rounds[j]) != READ
  {
    if j :| 0 <= j < k && Driver.Cmd(rounds[j]) == READ {
      f := FindFirstRead(rounds, j);
    } else {
      f := k;
    }
  }

  lemma {:induction false} OccursExactly(rounds: seq<Driver.Round>, c: nat)
    requires Driver.AllFit(rounds)
    ensures Driver.Samples(rounds, c) != [] <==> exists k :: 0 <= k < |rounds| && Driver.Cmd(rounds[k]) == c
  {
    if rounds != [] {
      var init := rounds[..|rounds| - 1];
      OccursExactly(init, c);
      assert rounds == init + [rounds[|init|]];
    }
  }

  /**
   * Where size_t has 32 bits and the router's reply length is zero at the start, a session in which the replies
   * to reads come back keeps no read at all: the loop ends at the first.  So READ_TEST never occurs in the
   * statistics, print_data divides by zero, and RELEASE is not sent, whatever the vendor does and although the
   * statistics table is bound.  On QSEE and iSee init leaves the length at zero; on Trusty the router's reply
   * buffer is memory the application never clears.
   */
  lemma NarrowSessionNeverEnds(p: Platform, st: TaState, out: Out, rounds: seq<Driver.Round>, legs: seq<Leg>)
    requires Driver.AllFit(rounds) && Closed(p, false, st, out, rounds, legs, Driver.Issued(true, true, rounds))
    requires out.bufLen == 0
    requires forall k | 0 <= k < Driver.Kept(true, rounds) && Driver.Cmd(rounds[k]) == READ :: Answered(legs[k])
    ensures forall k | 0 <= k < Driver.Kept(true, rounds) :: Driver.Cmd(rounds[k]) != READ
    ensures !Driver.AllOccur(rounds[..Driver.Kept(true, rounds)])
  {
    var kept := Driver.Kept(true, rounds);
    forall k | 0 <= k < kept ensures Driver.Cmd(rounds[k]) != READ {
      if Driver.Cmd(rounds[k]) == READ {
        var f := FindFirstRead(rounds, k);
        FirstReadKeptExactly(p, false, st, out, rounds, legs, f);
        assert false;
      }
    }
    OccursExactly(rounds[..kept], READ);
  }

  lemma {:induction false} NoBadStatus(rounds: seq<Driver.Round>)
    requires forall k | 0 <= k < |rounds| :: rounds[k].reply != Some(false)
    ensures Driver.StatusAfter(true, rounds) && Driver.Kept(true, rounds) == |rounds|
  {
    if rounds != [] {
      NoBadStatus(rounds[..|rounds| - 1]);
    }
  }

  /**
   * The proviso on replies is needed: the driver ignores what tee_cmd returns, so a transport over which
   * nothing ever gets through passes the test, every command counted and every status OK.
   */
  lemma DeadTransportPasses(p: Platform, wide: bool, st: TaState, out: Out, rounds: seq<Driver.Round>, legs: seq<Leg>)
    requires OutFits(out) && StoreFits(st.files) && Driver.AllFit(rounds) && |legs| == |rounds|
    requires forall k | 0 <= k < |rounds| :: legs[k] == Lost && rounds[k].reply == None
    ensures Closed(p, wide, st, out, rounds, legs, |rounds|)
    ensures Driver.Kept(true, rounds) == |rounds| && ServedTurns(rounds, legs, |rounds|) == []
  {
    NoBadStatus(rounds);
    forall k | 0 <= k <= |rounds| ensures ServedTurns(rounds, legs, k) == [] {
      NothingServed(rounds, legs, k);
    }
  }

  lemma {:induction false} NothingServed(rounds: seq<Driver.Round>, legs: seq<Leg>, n: nat)
    requires Driver.AllFit(rounds) && n <= |rounds| && n <= |legs| && forall k | 0 <= k < n :: legs[k] == Lost
    ensures ServedTurns(rounds, legs, n) == []
  {
    if n > 0 {
      NothingServed(rounds, legs, n - 1);
    }
  }

  // ------------------------------------------------------------------ whole sessions

  /** What the router sees of a whole session: the rounds that reached it, then the RELEASE if it did. */
  function SessionTurns(rounds: seq<Driver.Round>, legs: seq<Leg>, n: nat, ended: bool): (turns: seq<Turn>)
    requires Driver.AllFit(rounds) && n <= |rounds| && |legs| == n + (if ended then 1 else 0) && (ended ==> 0 < n)
  {
    ServedTurns(rounds, legs, n) +
    if ended then ServedBy(AsRequest(Driver.ReleaseAfter(rounds, n)), legs[n]) else []
  }

  /** The requests among `sent` that reached the router. */
  function Reached(sent: seq<Driver.Packet>, legs: seq<Leg>): seq<Request>
    requires |sent| == |legs|
  {
    if sent == [] then []
    else
      var n := |sent| - 1;
      Reached(sent[..n], legs[..n]) + if legs[n].Served? then [AsRequest(sent[n])] else []
  }

  lemma ReachedSnoc(sent: seq<Driver.Packet>, q: Driver.Packet, legs: seq<Leg>)
    requires |legs| == |sent| + 1
    ensures Reached(sent + [q], legs) == Reached(sent, legs[..|sent|]) + if legs[|sent|].Served? then [AsRequest(q)] else []
  {
    assert (sent + [q])[..|sent|] == sent;
  }

  function TurnRequests(turns: seq<Turn>): (reqs: seq<Request>)
    ensures |reqs| == |turns| && forall k | 0 <= k < |turns| :: reqs[k] == turns[k].req
  {
    seq(|turns|, i requires 0 <= i < |turns| => turns[i].req)
  }

  lemma TurnRequestsAppend(turns: seq<Turn>, req: Request, leg: Leg)
    ensures TurnRequests(turns + ServedBy(req, leg)) == TurnRequests(turns) + if leg.Served? then [req] else []
  {
  }

  lemma {:induction false} RoundsReached(rounds: seq<Driver.Round>, legs: seq<Leg>, n: nat)
    requires Driver.AllFit(rounds) && n <= |rounds| && n == |legs|
    ensures TurnRequests(ServedTurns(rounds, legs, n)) == Reached(Driver.Packets(rounds, n), legs)
  {
    if n > 0 {
      var m := n - 1;
      var sent := Driver.Packets(rounds, n);
      assert sent[..m] == Driver.Packets(rounds, m) && sent[m] == Driver.PacketOf(rounds[m]);
      RoundsReached(rounds, legs[..m], m);
      ServedByPrefix(rounds, legs, legs[..m], m);
      TurnRequestsAppend(ServedTurns(rounds, legs, m), RequestOf(rounds[m]), legs[m]);
    }
  }

  lemma {:induction false} ServedByPrefix(rounds: seq<Driver.Round>, a: seq<Leg>, b: seq<Leg>, n: nat)
    requires Driver.AllFit(rounds) && n <= |rounds| && n <= |a| && n <= |b| && a[..n] == b[..n]
    ensures ServedTurns(rounds, a, n) == ServedTurns(rounds, b, n)
  {
    if n > 0 {
      assert a[..n - 1] == a[..n][..n - 1] == b[..n - 1] && a[n - 1] == a[..n][n - 1] == b[n - 1];
      ServedByPrefix(rounds, a, b, n - 1);
    }
  }

  /** What a session sends: the requests of its rounds and, if it ends, a RELEASE. */
  function SentBy(rounds: seq<Driver.Round>, n: nat, ended: bool): (sent: seq<Driver.Packet>)
    requires Driver.AllFit(rounds) && n <= |rounds| && (ended ==> 0 < n)
    ensures |sent| == n + if ended then 1 else 0
  {
    Driver.Packets(rounds, n) + if ended then [Driver.ReleaseAfter(rounds, n)] else []
  }

  /** The turns of a session are those of its requests that got through, names, lengths and payloads included. */
  lemma SessionReached(rounds: seq<Driver.Round>, legs: seq<Leg>, n: nat, ended: bool)
    requires Driver.AllFit(rounds) && n <= |rounds| && |legs| == n + (if ended then 1 else 0) && (ended ==> 0 < n)
    ensures TurnRequests(SessionTurns(rounds, legs, n, ended)) == Reached(SentBy(rounds, n, ended), legs)
  {
    RoundsReached(rounds, legs[..n], n);
    ServedByPrefix(rounds, legs, legs[..n], n);
    if ended {
      var last := Driver.ReleaseAfter(rounds, n);
      ReachedSnoc(Driver.Packets(rounds, n), last, legs);
      TurnRequestsAppend(ServedTurns(rounds, legs, n), AsRequest(last), legs[n]);
    } else {
      assert legs[..n] == legs && SentBy(rounds, n, ended) == Driver.Packets(rounds, n);
      assert SessionTurns(rounds, legs, n, ended) == ServedTurns(rounds, legs, n);
    }
  }

  /**
   * A request carries what a round drew: the command, the name test.txt, the length, and in the payload each
   * draw as four bytes, the last draw first.
   */
  predicate Carries(req: Request, r: Driver.Round)
    requires Driver.RoundFits(r)
  {
    && req.cmd == r.rands[0] % 5 && req.name == "test.txt" && req.bufLen == r.rands[1] % 1024 * 32
    && |req.buf| == 32768
    && forall j | 0 <= j < 8192 :: req.buf[4 * j..4 * j + 4] == Le(r.rands[8193 - j], 4)
  }

  /** Every write the router serves carries what the round it comes from drew. */
  ghost predicate WritesCarried(turns: seq<Turn>, rounds: seq<Driver.Round>, legs: seq<Leg>)
    requires Driver.AllFit(rounds)
  {
    forall k | 0 <= k < |turns| && turns[k].req.cmd == TEE_CMD_WRITE_TEST ::
      exists i | 0 <= i < |rounds| && i < |legs| && legs[i].Served? :: Carries(turns[k].req, rounds[i])
  }

  lemma SessionCarries(rounds: seq<Driver.Round>, legs: seq<Leg>, n: nat, ended: bool)
    requires Driver.AllFit(rounds) && n <= |rounds| && |legs| == n + (if ended then 1 else 0) && (ended ==> 0 < n)
    ensures WritesCarried(SessionTurns(rounds, legs, n, ended), rounds, legs)
  {
    var turns := SessionTurns(rounds, legs, n, ended);
    forall k | 0 <= k < |turns| && turns[k].req.cmd == TEE_CMD_WRITE_TEST
      ensures exists i | 0 <= i < |rounds| && i < |legs| && legs[i].Served? :: Carries(turns[k].req, rounds[i])
    {
      var i := ServedWriteExactly(rounds, legs, n, k);
      assert Carries(turns[k].req, rounds[i]);
    }
  }

  lemma {:induction false} ServedWriteExactly(rounds: seq<Driver.Round>, legs: seq<Leg>, n: nat, k: nat) returns (i: nat)
    requires Driver.AllFit(rounds) && n <= |rounds| && n <= |legs| && k < |ServedTurns(rounds, legs, n)|
    ensures i < n && legs[i].Served? && Carries(ServedTurns(rounds, legs, n)[k].req, rounds[i])
  {
    if k < |ServedTurns(rounds, legs, n - 1)| {
      i := ServedWriteExactly(rounds, legs, n - 1, k);
    } else {
      i := n - 1;
      forall j | 0 <= j < 8192
        ensures RequestOf(rounds[i]).buf[4 * j..4 * j + 4] == Le(rounds[i].rands[8193 - j], 4)
      {
        Driver.PacketExactly(rounds[i], j);
      }
      Driver.PacketExactly(rounds[i], 0);
    }
  }

  lemma {:induction false} ServedRounds(rounds: seq<Driver.Round>, legs: seq<Leg>, n: nat)
    requires Driver.AllFit(rounds) && n <= |rounds| && n <= |legs|
    ensures forall k | 0 <= k < |ServedTurns(rounds, legs, n)| ::
      var req := ServedTurns(rounds, legs, n)[k].req; req.cmd < TEE_CMD_RELEASE && req.bufLen <= Driver.MAX_PAYLOAD
  {
    if n > 0 {
      ServedRounds(rounds, legs, n - 1);
    }
  }

  /**
   * The driver's session as the router sees it, on every platform, whatever the vendor does and whichever calls
   * get through: the device structure is live at every router call, it is freed exactly if a RELEASE got
   * through, and no file in the initially empty store ever outgrows the longest payload.
   */
  lemma DriverSessionIsSafe(p: Platform, wide: bool, st: TaState, out: Out,
                            rounds: seq<Driver.Round>, legs: seq<Leg>, n: nat, ended: bool)
    requires OutFits(out) && st.live && st.files == map[]
    requires Driver.AllFit(rounds) && n <= |rounds| && |legs| == n + (if ended then 1 else 0) && (ended ==> 0 < n)
    requires RunFits(p, wide, st, out, SessionTurns(rounds, legs, n, ended))
    ensures var turns := SessionTurns(rounds, legs, n, ended);
      var last := RunSpec(p, wide, st, out, turns).0;
      && (forall k | 0 <= k < |turns| :: LiveBefore(p, wide, st, out, turns, k))
      && (last.live <==> !(ended && legs[n].Served?))
      && Bounded(last.files, Driver.MAX_PAYLOAD)
  {
    var turns := SessionTurns(rounds, legs, n, ended);
    ServedRounds(rounds, legs, n);
    LiveAtEveryCall(p, wide, st, out, turns);
    LiveExactly(p, wide, st, out, turns);
    if ended && legs[n].Served? {
      assert turns[|turns| - 1].req.cmd == TEE_CMD_RELEASE;
    }
    FilesStayBounded(p, wide, st, out, turns, Driver.MAX_PAYLOAD);
  }

  lemma ReleaseServedExactly(rounds: seq<Driver.Round>, legs: seq<Leg>, n: nat, ended: bool)
    requires Driver.AllFit(rounds) && n <= |rounds| && |legs| == n + (if ended then 1 else 0) && (ended ==> 0 < n)
    ensures ReleaseServed(SessionTurns(rounds, legs, n, ended)) <==> ended && legs[n].Served?
  {
    var turns := SessionTurns(rounds, legs, n, ended);
    ServedRounds(rounds, legs, n);
    if ended && legs[n].Served? {
      assert turns[|turns| - 1].req.cmd == TEE_CMD_RELEASE;
    }
  }

  predicate ReleaseServed(turns: seq<Turn>) {
    exists k :: 0 <= k < |turns| && turns[k].req.cmd == TEE_CMD_RELEASE
  }

  /** What has to be known of the calls of a session: one leg for each round issued, and one for a RELEASE. */
  ghost predicate SessionFits(p: Platform, wide: bool, st: TaState, out: Out, rounds: seq<Driver.Round>, legs: seq<Leg>) {
    && Driver.AllFit(rounds) && 0 < |rounds| < 0x8000_0000 && |legs| == Driver.Issued(true, true, rounds) + 1
    && Closed(p, wide, st, out, rounds, legs, |legs| - 1) && st.live && st.files == map[]
    && RunFits(p, wide, st, out, SessionTurns(rounds, legs, |legs| - 1, true))
  }

  /** What a session that sent `sent` has done to the trusted application. */
  ghost predicate Safe(p: Platform, wide: bool, st: TaState, out: Out, sent: seq<Driver.Packet>, legs: seq<Leg>, turns: seq<Turn>)
    requires OutFits(out) && StoreFits(st.files)
  {
    && |sent| == |legs| && TurnRequests(turns) == Reached(sent, legs) && RunFits(p, wide, st, out, turns)
    && (forall k | 0 <= k < |turns| :: LiveBefore(p, wide, st, out, turns, k))
    && (RunSpec(p, wide, st, out, turns).0.live <==> !ReleaseServed(turns))
  }

  lemma SessionIsSafe(p: Platform, wide: bool, st: TaState, out: Out, rounds: seq<Driver.Round>, legs: seq<Leg>, ended: bool)
    requires SessionFits(p, wide, st, out, rounds, legs)
    ensures var n := |legs| - 1;
      var used := if ended then legs else legs[..n];
      Safe(p, wide, st, out, SentBy(rounds, n, ended), used, SessionTurns(rounds, used, n, ended))
  {
    var n := |legs| - 1;
    var used := if ended then legs else legs[..n];
    SessionReached(rounds, used, n, ended);
    if !ended {
      UnendedFits(p, wide, st, out, rounds, legs, n);
    }
    DriverSessionIsSafe(p, wide, st, out, rounds, used, n, ended);
    ReleaseServedExactly(rounds, used, n, ended);
  }

  lemma UnendedFits(p: Platform, wide: bool, st: TaState, out: Out, rounds: seq<Driver.Round>, legs: seq<Leg>, n: nat)
    requires Closed(p, wide, st, out, rounds, legs, n)
    ensures RunFits(p, wide, st, out, SessionTurns(rounds, legs[..n], n, false))
  {
    ClosedFits(p, wide, st, out, rounds, legs, n);
    ServedByPrefix(rounds, legs, legs[..n], n);
    assert SessionTurns(rounds, legs[..n], n, false) == ServedTurns(rounds, legs, n);
  }

  /** Replies to the reads among the kept rounds come back. */
  predicate ReadsAnswered(rounds: seq<Driver.Round>, legs: seq<Leg>)
    requires Driver.AllFit(rounds) && Driver.Kept(true, rounds) <= |legs|
  {
    forall k | 0 <= k < Driver.Kept(true, rounds) && Driver.Cmd(rounds[k]) == READ :: Answered(legs[k])
  }

  /**
   * main, with the statistics table bound, against the router.  What it sends determines what is served; the
   * device structure is safe throughout; and with a 32-bit size_t and answered reads it never gets to RELEASE.
   */
  method MainAgainstRouter(ghost p: Platform, ghost wide: bool, ghost st: TaState, ghost out: Out,
                           rounds: seq<Driver.Round>, ghost legs: seq<Leg>)
    returns (e: Driver.Ending, sent: seq<Driver.Packet>)
    requires SessionFits(p, wide, st, out, rounds, legs)
    ensures e.Printed? <==> Driver.AllOccur(rounds[..Driver.Kept(true, rounds)])
    ensures e.Printed? <==> Driver.Released(sent)
    ensures sent == SentBy(rounds, |legs| - 1, e.Printed?)
    ensures var n := |legs| - 1;
      var used := if e.Printed? then legs else legs[..n];
      WritesCarried(SessionTurns(rounds, used, n, e.Printed?), rounds, used)
    ensures var n := |legs| - 1;
      var used := if e.Printed? then legs else legs[..n];
      Safe(p, wide, st, out, sent, used, SessionTurns(rounds, used, n, e.Printed?))
    ensures !wide && out.bufLen == 0 && ReadsAnswered(rounds, legs) ==> !e.Printed?
  {
    var table;
    e, sent, table := Driver.MainCorrected(rounds);
    Driver.NoRelease(rounds, |legs| - 1);
    SessionIsSafe(p, wide, st, out, rounds, legs, e.Printed?);
    SessionCarries(rounds, if e.Printed? then legs else legs[..|legs| - 1], |legs| - 1, e.Printed?);
    assert sent == SentBy(rounds, |legs| - 1, e.Printed?);
    if e.Printed? {
      assert sent[|sent| - 1].cmd == TEE_CMD_RELEASE;
    }
    if !wide && out.bufLen == 0 && ReadsAnswered(rounds, legs) {
      NarrowSessionNeverEnds(p, st, out, rounds, legs);
    }
  }

  // ------------------------------------------------------------------ sessions that do end

  /** A session of `rounds` in which every command occurs and is answered, from an empty store. */
  ghost predicate Ends(p: Platform, wide: bool, st: TaState, out: Out, rounds: seq<Driver.Round>, legs: seq<Leg>) {
    && Driver.AllFit(rounds) && Closed(p, wide, st, out, rounds, legs, Driver.Issued(true, true, rounds))
    && ReadsAnswered(rounds, legs) && Driver.AllOccur(rounds[..Driver.Kept(true, rounds)])
  }

  /** Vendor outcomes that are good on every platform; one byte at a time is moved, and SPI brings one that is not zero. */
  const GOOD := Plan(0, 0, 0, 1, true, 0, 0, [1, 0])

  predicate AllGood(turns: seq<Turn>) {
    forall k | 0 <= k < |turns| :: turns[k].plan == GOOD && RequestFits(turns[k].req)
  }

  lemma {:induction false} GoodRunFits(p: Platform, wide: bool, st: TaState, out: Out, turns: seq<Turn>)
    requires OutFits(out) && StoreFits(st.files) && st.fds == {} && AllGood(turns)
    ensures RunFits(p, wide, st, out, turns) && RunSpec(p, wide, st, out, turns).0.fds == {}
    decreases |turns|
  {
    if turns != [] {
      GoodRunFits(p, wide, st, out, turns[..|turns| - 1]);
    }
  }

  /** A turn with good outcomes, reads apart, succeeds; only writes touch the store, and one writes one byte. */
  lemma GoodTurnSucceeds(p: Platform, wide: bool, st: TaState, out: Out, turn: Turn)
    requires OutFits(out) && st.files == map[] && RequestFits(turn.req) && PlanFits(turn.plan, st.fds)
    requires turn.plan == GOOD && turn.req.cmd < TEE_CMD_RELEASE && turn.req.cmd != READ && turn.req.bufLen == 32
    ensures var r := RouterSpec(p, wide, st, out, turn.req, turn.plan);
      && r.1.ok
      && if turn.req.cmd == TEE_CMD_WRITE_TEST then |ContentOf(r.0.files, turn.req.name)| == 1 else r.0.files == map[]
  {
    assert |Payload(turn.req)| == 32;
  }

  /** One round of each command, SPI first and the read last, after a write; all answered OK. */
  predicate OneOfEach(rounds: seq<Driver.Round>) {
    && |rounds| == 5 && Driver.AllFit(rounds)
    && Driver.Cmd(rounds[0]) == TEE_CMD_READ_ID && Driver.Cmd(rounds[1]) == TEE_CMD_SPI_TEST
    && Driver.Cmd(rounds[2]) == TEE_CMD_I2C_TEST && Driver.Cmd(rounds[3]) == TEE_CMD_WRITE_TEST
    && Driver.Cmd(rounds[4]) == READ
    && forall k | 0 <= k < 5 :: rounds[k].reply == Some(true) && RequestOf(rounds[k]).bufLen == 32
  }

  lemma GoodRound(cmd: nat) returns (r: Driver.Round)
    requires cmd < TEE_CMD_RELEASE
    ensures Driver.RoundFits(r) && Driver.Cmd(r) == cmd && RequestOf(r).bufLen == 32 && r.reply == Some(true)
  {
    var rands := [cmd, 1] + seq(Driver.DATA_LEN, _ => 0);
    assert rands[0] == cmd && rands[1] == 1;
    r := Driver.Round(rands, Driver.Time(0, 0), Driver.Time(0, 0), Some(true));
    assert Driver.PayloadLen(r.rands[1]) == 32;
  }

  lemma SomeOneOfEach() returns (rounds: seq<Driver.Round>)
    ensures OneOfEach(rounds)
  {
    var a := GoodRound(TEE_CMD_READ_ID);
    var b := GoodRound(TEE_CMD_SPI_TEST);
    var c := GoodRound(TEE_CMD_I2C_TEST);
    var d := GoodRound(TEE_CMD_WRITE_TEST);
    var e := GoodRound(READ);
    rounds := [a, b, c, d, e];
  }

  predicate AllServedGood(legs: seq<Leg>) {
    |legs| == 5 && forall k | 0 <= k < 5 :: legs[k] == Served(GOOD, true)
  }

  lemma {:induction false} GoodTurns(rounds: seq<Driver.Round>, legs: seq<Leg>, n: nat)
    requires OneOfEach(rounds) && AllServedGood(legs) && n <= 5
    ensures var turns := ServedTurns(rounds, legs, n);
      |turns| == n && AllGood(turns) && forall j | 0 <= j < n :: turns[j].req == RequestOf(rounds[j])
  {
    if n > 0 {
      GoodTurns(rounds, legs, n - 1);
    }
  }

  /** After the first `n` rounds, none of them the read. */
  lemma {:induction false} GoodSoFar(p: Platform, wide: bool, st: TaState, out: Out, rounds: seq<Driver.Round>, legs: seq<Leg>, n: nat)
    requires OutFits(out) && st.files == map[] && st.fds == {} && OneOfEach(rounds) && AllServedGood(legs) && n <= 4
    ensures var turns := ServedTurns(rounds, legs, n);
      && RunFits(p, wide, st, out, turns)
      && var r := RunSpec(p, wide, st, out, turns);
      && (n > 0 ==> r.1.ok)
      && if n == 4 then |ContentOf(r.0.files, Driver.TEST_FILE)| == 1 else r.0.files == map[]
  {
    var turns := ServedTurns(rounds, legs, n);
    GoodTurns(rounds, legs, n);
    GoodRunFits(p, wide, st, out, turns);
    if n > 0 {
      GoodSoFar(p, wide, st, out, rounds, legs, n - 1);
      assert turns[..n - 1] == ServedTurns(rounds, legs, n - 1);
      RunSpecLast(p, wide, st, out, turns);
      var before := RunSpec(p, wide, st, out, turns[..n - 1]);
      GoodTurnSucceeds(p, wide, before.0, before.1, turns[n - 1]);
    }
  }

  lemma SpiSeen(p: Platform, turns: seq<Turn>)
    requires |turns| == 4 && AllGood(turns) && turns[1].req.cmd == TEE_CMD_SPI_TEST
    requires turns[2].req.cmd == TEE_CMD_I2C_TEST && turns[3].req.cmd == TEE_CMD_WRITE_TEST
    ensures LastRx(p, turns) == Some([1, 0])
  {
    assert turns[..3][..2][1] == turns[1];
    assert LastRx(p, turns[..3][..2]) == Some([1, 0]);
  }

  lemma HeadNotZero(p: Platform, buf: Buffer, turns: seq<Turn>)
    requires |buf| == BUF_LEN && LastRx(p, turns) == Some([1, 0])
    ensures HeadBefore(p, buf, turns) != [0, 0, 0, 0]
  {
    assert HeadBefore(p, buf, turns)[0] == 1;
  }

  /** The fifth round: the read succeeds. */
  lemma ReadAfterWrite(p: Platform, wide: bool, st: TaState, out: Out, rounds: seq<Driver.Round>, legs: seq<Leg>)
    requires OutFits(out) && (wide || 0 < out.bufLen) && st.files == map[] && st.fds == {}
    requires OneOfEach(rounds) && AllServedGood(legs)
    ensures Told(p, wide, st, out, rounds, legs, 4)
  {
    var turns, all := ServedTurns(rounds, legs, 4), ServedTurns(rounds, legs, 5);
    GoodTurns(rounds, legs, 5);
    GoodRunFits(p, wide, st, out, all);
    assert all[..4] == turns;
    RunSpecLast(p, wide, st, out, all);
    FileFits(p, wide, st, out, rounds, legs);
    FirstReadExactly(p, wide, st, out, turns, all[4]);
  }

  /** Before it: there is one byte to read, and room for it. */
  lemma FileFits(p: Platform, wide: bool, st: TaState, out: Out, rounds: seq<Driver.Round>, legs: seq<Leg>)
    requires OutFits(out) && (wide || 0 < out.bufLen) && st.files == map[] && st.fds == {}
    requires OneOfEach(rounds) && AllServedGood(legs)
    ensures var turns := ServedTurns(rounds, legs, 4);
      && NoReads(turns) && RunFits(p, wide, st, out, turns)
      && var content := ContentOf(RunSpec(p, wide, st, out, turns).0.files, Driver.TEST_FILE);
         |content| == 1 && FirstReadFits(p, wide, out, turns, content)
  {
    GoodSoFar(p, wide, st, out, rounds, legs, 4);
    GoodTurns(rounds, legs, 4);
    var turns := ServedTurns(rounds, legs, 4);
    SpiSeen(p, turns);
    HeadNotZero(p, out.buf, turns);
  }

  lemma SomeSessionEnds(p: Platform, wide: bool, st: TaState, out: Out) returns (rounds: seq<Driver.Round>, legs: seq<Leg>)
    requires OutFits(out) && (wide || 0 < out.bufLen) && st.files == map[] && st.fds == {}
    ensures |rounds| == 5 && Ends(p, wide, st, out, rounds, legs)
  {
    rounds := SomeOneOfEach();
    legs := seq(5, _ => Served(GOOD, true));
    AllKeptAndOccur(rounds);
    forall k | 0 <= k < 5 ensures Told(p, wide, st, out, rounds, legs, k) {
      if k < 4 {
        ToldSoFar(p, wide, st, out, rounds, legs, k);
      } else {
        ReadAfterWrite(p, wide, st, out, rounds, legs);
      }
    }
  }

  lemma AllKeptAndOccur(rounds: seq<Driver.Round>)
    requires OneOfEach(rounds)
    ensures Driver.Kept(true, rounds) == 5 && rounds[..5] == rounds && Driver.AllOccur(rounds)
  {
    NoBadStatus(rounds);
    forall c | 0 <= c < TEE_CMD_RELEASE ensures Driver.Samples(rounds, c) != [] {
      OccursExactly(rounds, c);
    }
  }

  lemma ToldSoFar(p: Platform, wide: bool, st: TaState, out: Out, rounds: seq<Driver.Round>, legs: seq<Leg>, k: nat)
    requires OutFits(out) && st.files == map[] && st.fds == {} && OneOfEach(rounds) && AllServedGood(legs) && k < 4
    ensures Told(p, wide, st, out, rounds, legs, k)
  {
    GoodSoFar(p, wide, st, out, rounds, legs, k + 1);
  }

  /**
   * From an empty store, on each platform: some session with answered reads ends as intended if and only if
   * size_t has 64 bits or the router's reply length is not zero at the start.  The latter is possible on Trusty,
   * whose reply buffer the application allocates and does not clear.
   */
  lemma SessionCanEndExactly(p: Platform, wide: bool, st: TaState, out: Out)
    requires OutFits(out) && st.files == map[] && st.fds == {}
    ensures (exists rounds, legs :: Ends(p, wide, st, out, rounds, legs)) <==> wide || out.bufLen != 0
  {
    if wide || out.bufLen != 0 {
      var rounds, legs := SomeSessionEnds(p, wide, st, out);
      assert Ends(p, wide, st, out, rounds, legs);
    } else {
      forall rounds, legs ensures !Ends(p, wide, st, out, rounds, legs) {
        if Ends(p, wide, st, out, rounds, legs) {
          NarrowSessionNeverEnds(p, st, out, rounds, legs);
          assert false;
        }
      }
    }
  }
}
