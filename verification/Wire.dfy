/**
 * The router on the wire: requests and replies as bytes.  Here the transports and event loops, which move
 * opaque bytes, meet the storage commands, which work on fields.
 */
module Wire {
  import opened Common
  import opened Words
  import opened Transports
  import opened Vendor
  import opened TrustedApp
  import opened StoreTheory
  import opened Layout
  import TrustyEvents

  /** The outcomes one command will meet, and the text it would leave in the error line. */
  datatype Service = Service(plan: Plan, errLine: Buffer)

  /** The state behind the router, with the outcomes in store for the commands to come. */
  datatype World = World(st: TaState, services: seq<Service>)

  /** Vendor return codes are 32-bit integers. */
  predicate ServiceFits(s: Service) {
    && |s.errLine| == STR_LEN && |s.plan.rx| == 2
    && Int32(s.plan.session) && Int32(s.plan.open) && Int32(s.plan.size) && Int32(s.plan.io)
    && Int32(s.plan.spiOpen) && Int32(s.plan.spiXfer)
  }

  /** The C string in `str`. */
  function NameOf(str: Buffer): string {
    if str == [] || str[0] == 0 then [] else [(str[0] as int) as char] + NameOf(str[1..])
  }

  /** It ends before the first zero, or with the array, and its characters are the bytes before that. */
  lemma {:induction false} NameOfExactly(str: Buffer)
    ensures var name := NameOf(str);
      && |name| <= |str| && (|name| < |str| ==> str[|name|] == 0)
      && forall k | 0 <= k < |name| :: str[k] != 0 && name[k] as int == str[k] as int
  {
    if str != [] && str[0] != 0 {
      NameOfExactly(str[1..]);
    }
  }

  /** Two requests mean the same file exactly if the bytes before their first zeros are the same. */
  lemma SameNameExactly(a: Buffer, b: Buffer, m: nat, n: nat)
    requires m <= |a| && (m < |a| ==> a[m] == 0) && forall k | 0 <= k < m :: a[k] != 0
    requires n <= |b| && (n < |b| ==> b[n] == 0) && forall k | 0 <= k < n :: b[k] != 0
    ensures NameOf(a) == NameOf(b) <==> a[..m] == b[..n]
  {
    NameOfExactly(a);
    NameOfExactly(b);
    assert |NameOf(a)| == m && |NameOf(b)| == n;
    if NameOf(a) == NameOf(b) {
      forall k | 0 <= k < m ensures a[k] == b[k] {
        assert NameOf(a)[k] as int == NameOf(b)[k] as int;
        SameByte(a[k], b[k]);
      }
    } else if a[..m] == b[..n] {
      forall k | 0 <= k < m ensures NameOf(a)[k] == NameOf(b)[k] {
        assert a[k] == a[..m][k] == b[..n][k] == b[k];
      }
      assert false;
    }
  }

  function ToRequest(x: InBuf): Request {
    Request(x.cmd, NameOf(x.str), x.bufLen, x.buf)
  }

  /** The request the router acts on, read off the bytes. */
  lemma RequestOnWire(b: Buffer)
    requires |b| == 32816
    ensures var req := ToRequest(DecodeIn(b));
      && req.cmd == Value(b[0..4]) && req.name == NameOf(b[4..36]) && req.bufLen == Value(b[44..48]) && req.buf == b[48..]
  {
  }

  /** What the program defines: the device structure is live, the payload length and the store are in bounds. */
  predicate Defined(w: World, req: Request) {
    && w.services != [] && ServiceFits(w.services[0])
    && w.st.live && StoreFits(w.st.files) && RequestFits(req) && PlanFits(w.services[0].plan, w.st.fds)
  }

  /** ta_router as a function of bytes; where the program defines nothing, the reply is left alone. */
  function ByteRoute(p: Platform, wide: bool, w: World, request: Buffer, reply: Buffer): (r: (World, Buffer))
    ensures |reply| == OUT_BUF_LEN ==> |r.1| == OUT_BUF_LEN
  {
    if |request| != IN_BUF_LEN || |reply| != OUT_BUF_LEN then (w, reply)
    else
      var req, x := ToRequest(DecodeIn(request)), DecodeOut(reply);
      if !Defined(w, req) then (w, reply)
      else
        var r := RouterSpec(p, wide, w.st, View(x), req, w.services[0].plan);
        (World(r.0, w.services[1..]), EncodeOut(Store(x, r.1, w.services[0].errLine)))
  }

  function Wired(p: Platform, wide: bool): Router<World> {
    (w, request, reply) => ByteRoute(p, wide, w, request, reply)
  }

  lemma WiredFits(p: Platform, wide: bool)
    ensures Fits(Wired(p, wide))
  {
  }

  /** The router leaves a 32-bit error code whenever it found one and met 32-bit return codes. */
  lemma ErrorCodeFits(p: Platform, wide: bool, st: TaState, out: Out, req: Request, plan: Plan)
    requires OutFits(out) && Int32(out.sysErr) && RequestFits(req) && StoreFits(st.files) && PlanFits(plan, st.fds)
    requires Int32(plan.session) && Int32(plan.open) && Int32(plan.size) && Int32(plan.io)
    requires Int32(plan.spiOpen) && Int32(plan.spiXfer)
    ensures Int32(RouterSpec(p, wide, st, out, req, plan).1.sysErr)
  {
  }

  /** On the wire, one router call is the call on fields, seen through the two layouts. */
  lemma WireAgrees(p: Platform, wide: bool, w: World, x: InBuf, y: OutBuf)
    requires InFits(x) && OutBufFits(y) && Defined(w, ToRequest(x))
    ensures var r := ByteRoute(p, wide, w, EncodeIn(x), EncodeOut(y));
      var spec := RouterSpec(p, wide, w.st, View(y), ToRequest(x), w.services[0].plan);
      && r.0 == World(spec.0, w.services[1..])
      && View(DecodeOut(r.1)) == spec.1
  {
    InRoundTrip(x);
    OutRoundTrip(y);
    var spec := RouterSpec(p, wide, w.st, View(y), ToRequest(x), w.services[0].plan);
    ErrorCodeFits(p, wide, w.st, View(y), ToRequest(x), w.services[0].plan);
    var stored := Store(y, spec.1, w.services[0].errLine);
    ViewOfStore(y, spec.1, w.services[0].errLine);
    OutRoundTrip(stored);
  }

  lemma WireAgreesOnBytes(p: Platform, wide: bool, w: World, x: InBuf, reply: Buffer)
    requires InFits(x) && |reply| == OUT_BUF_LEN && Defined(w, ToRequest(x))
    ensures var r := Routed(Wired(p, wide), w, EncodeIn(x), reply);
      var spec := RouterSpec(p, wide, w.st, View(DecodeOut(reply)), ToRequest(x), w.services[0].plan);
      && r == ByteRoute(p, wide, w, EncodeIn(x), reply) && r.0 == World(spec.0, w.services[1..])
      && |r.1| == OUT_BUF_LEN && View(DecodeOut(r.1)) == spec.1
  {
    OutBytesRoundTrip(reply);
    WireAgrees(p, wide, w, x, DecodeOut(reply));
  }

  /** The reply it leaves, byte by byte. */
  lemma ReplyOnWire(p: Platform, wide: bool, w: World, x: InBuf, reply: Buffer)
    requires InFits(x) && |reply| == OUT_BUF_LEN && Defined(w, ToRequest(x))
    ensures var r := Routed(Wired(p, wide), w, EncodeIn(x), reply).1;
      var out := RouterSpec(p, wide, w.st, View(DecodeOut(reply)), ToRequest(x), w.services[0].plan).1;
      Rewritten(reply, r, out, w.services[0].errLine)
  {
    var y := DecodeOut(reply);
    InRoundTrip(x);
    OutBytesRoundTrip(reply);
    var out := RouterSpec(p, wide, w.st, View(y), ToRequest(x), w.services[0].plan).1;
    ErrorCodeFits(p, wide, w.st, View(y), ToRequest(x), w.services[0].plan);
    StoreExactly(y, out, w.services[0].errLine);
  }

  // ------------------------------------------------------------------ whole runs

  /** The turns a world's outcomes and a list of requests amount to. */
  function Turns(requests: seq<InBuf>, services: seq<Service>): (turns: seq<Turn>)
    requires |requests| <= |services|
    ensures |turns| == |requests|
  {
    seq(|requests|, i requires 0 <= i < |requests| => Turn(ToRequest(requests[i]), services[i].plan))
  }

  /** World and reply window after serving encoded requests in order. */
  ghost function ServeBytes(p: Platform, wide: bool, w: World, reply: Buffer, requests: seq<InBuf>): (World, Buffer)
    requires forall k | 0 <= k < |requests| :: InFits(requests[k])
  {
    if requests == [] then (w, reply)
    else
      var before := ServeBytes(p, wide, w, reply, requests[..|requests| - 1]);
      ByteRoute(p, wide, before.0, EncodeIn(requests[|requests| - 1]), before.1)
  }

  /** World and reply window as bytes show the state and reply `run`, with `n` of the outcomes used up. */
  ghost predicate Shows(services: seq<Service>, n: nat, now: (World, Buffer), run: (TaState, Out))
    requires n <= |services|
  {
    now.0 == World(run.0, services[n..]) && |now.1| == OUT_BUF_LEN && View(DecodeOut(now.1)) == run.1
  }

  lemma ServeNext(p: Platform, wide: bool, services: seq<Service>, n: nat, now: (World, Buffer), run: (TaState, Out), x: InBuf)
    requires n < |services| && InFits(x) && ServiceFits(services[n]) && Shows(services, n, now, run)
    requires run.0.live && StoreFits(run.0.files) && RequestFits(ToRequest(x)) && PlanFits(services[n].plan, run.0.fds)
    ensures OutFits(run.1)
    ensures Shows(services, n + 1, ByteRoute(p, wide, now.0, EncodeIn(x), now.1),
                  RouterSpec(p, wide, run.0, run.1, ToRequest(x), services[n].plan))
  {
    assert now.0.services[0] == services[n] && now.0.services[1..] == services[n + 1..];
    WireAgreesOnBytes(p, wide, now.0, x, now.1);
  }

  /**
   * Any number of requests served as bytes leaves the state and, in the reply window, the fields that the
   * run of the commands specifies.
   */
  lemma {:induction false} ServeBytesIsRun(p: Platform, wide: bool, w: World, y: OutBuf, requests: seq<InBuf>)
    requires OutBufFits(y) && StoreFits(w.st.files)
    requires forall k | 0 <= k < |requests| :: InFits(requests[k])
    requires |requests| <= |w.services| && forall k | 0 <= k < |w.services| :: ServiceFits(w.services[k])
    requires RunFits(p, wide, w.st, View(y), Turns(requests, w.services)) && ReleasedLast(w.st, Turns(requests, w.services))
    ensures Shows(w.services, |requests|, ServeBytes(p, wide, w, EncodeOut(y), requests),
                  RunSpec(p, wide, w.st, View(y), Turns(requests, w.services)))
    decreases |requests|
  {
    if requests == [] {
      OutRoundTrip(y);
      assert w.services[0..] == w.services;
    } else {
      var n := |requests| - 1;
      var turns := Turns(requests, w.services);
      assert turns[..n] == Turns(requests[..n], w.services);
      RunSpecLast(p, wide, w.st, View(y), turns);
      LiveExactly(p, wide, w.st, View(y), turns[..n]);
      ServeBytesIsRun(p, wide, w, y, requests[..n]);
      ServeNext(p, wide, w.services, n, ServeBytes(p, wide, w, EncodeOut(y), requests[..n]),
                RunSpec(p, wide, w.st, View(y), turns[..n]), requests[n]);
    }
  }
}
