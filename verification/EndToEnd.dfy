/** Clients, transports, layouts, router and store put together on the two platforms whose router reaches a store. */
module EndToEnd {
  import opened Common
  import opened Align
  import opened Transports
  import opened Vendor
  import opened TrustedApp
  import opened StoreTheory
  import opened Words
  import opened Layout
  import opened Wire
  import Driver
  import DriverSession
  import TrustyEvents

  // ------------------------------------------------------------------ Trusty: the event loop in front of the store

  function Decoded(messages: seq<(Buffer, bool)>): (requests: seq<InBuf>)
    requires TrustyEvents.Sized(messages)
    ensures |requests| == |messages| && forall k | 0 <= k < |requests| :: InFits(requests[k])
  {
    seq(|messages|, i requires 0 <= i < |messages| => DecodeIn(messages[i].0))
  }

  lemma WiredIsByteRoute(p: Platform, wide: bool, w: World, request: Buffer, reply: Buffer)
    ensures Routed(Wired(p, wide), w, request, reply) == ByteRoute(p, wide, w, request, reply)
  {
  }

  lemma {:induction false} ServedIsServeBytes(p: Platform, wide: bool, w: World, reply: Buffer, messages: seq<(Buffer, bool)>)
    requires TrustyEvents.Sized(messages)
    ensures TrustyEvents.Served(Wired(p, wide), w, reply, messages) == ServeBytes(p, wide, w, reply, Decoded(messages))
    decreases |messages|
  {
    if messages != [] {
      var n := |messages| - 1;
      ServedIsServeBytes(p, wide, w, reply, messages[..n]);
      assert Decoded(messages)[..n] == Decoded(messages[..n]);
      InBytesRoundTrip(messages[n].0);
      assert EncodeIn(Decoded(messages)[n]) == messages[n].0;
      var before := ServeBytes(p, wide, w, reply, Decoded(messages)[..n]);
      WiredIsByteRoute(p, wide, before.0, messages[n].0, before.1);
    }
  }

  lemma {:induction false} FirstTurns(services: seq<Service>, messages: seq<(Buffer, bool)>, n: nat)
    requires TrustyEvents.Sized(messages) && n <= |messages| <= |services|
    ensures TrustyEvents.Sized(messages[..n])
    ensures Turns(Decoded(messages), services)[..n] == Turns(Decoded(messages[..n]), services)
  {
    assert Decoded(messages)[..n] == Decoded(messages[..n]);
  }

  /** Serving the first messages of a run, as bytes, is running the first commands. */
  lemma {:induction false} ServedPrefix(p: Platform, wide: bool, w: World, reply: Buffer, messages: seq<(Buffer, bool)>, n: nat)
    requires TrustyEvents.Sized(messages) && n <= |messages| <= |w.services| && |reply| == OUT_BUF_LEN
    requires StoreFits(w.st.files) && forall i | 0 <= i < |w.services| :: ServiceFits(w.services[i])
    requires RunFits(p, wide, w.st, View(DecodeOut(reply)), Turns(Decoded(messages), w.services))
    requires ReleasedLast(w.st, Turns(Decoded(messages), w.services))
    ensures var turns := Turns(Decoded(messages), w.services)[..n];
      var r := TrustyEvents.Served(Wired(p, wide), w, reply, messages[..n]).1;
      && RunFits(p, wide, w.st, View(DecodeOut(reply)), turns)
      && |r| == OUT_BUF_LEN
      && View(DecodeOut(r)) == RunSpec(p, wide, w.st, View(DecodeOut(reply)), turns).1
  {
    var y, first := DecodeOut(reply), messages[..n];
    RunFitsPrefix(p, wide, w.st, View(y), Turns(Decoded(messages), w.services), n);
    FirstTurns(w.services, messages, n);
    ServedIsServeBytes(p, wide, w, reply, first);
    OutBytesRoundTrip(reply);
    ServeBytesIsRun(p, wide, w, y, Decoded(first));
  }

  /**
   * The intended Trusty application, from messages to files: the `k`-th correctly sized message served after
   * the connection was accepted is answered with the reply that running the first k + 1 commands against the
   * store specifies - whatever other events occur and whichever vendor calls fail.
   */
  lemma TrustyAnswersFromStore(wide: bool, s: TrustyEvents.Server<World>, evs: seq<TrustyEvents.Event>, k: nat)
    requires TrustyEvents.AllFit(evs) && |s.gIn| == IN_BUF_LEN && |s.gOut| == OUT_BUF_LEN && s.replies == []
    requires k < |TrustyEvents.Requests(evs)| <= |s.dev.services|
    requires StoreFits(s.dev.st.files) && forall i | 0 <= i < |s.dev.services| :: ServiceFits(s.dev.services[i])
    requires RunFits(Trusty, wide, s.dev.st, View(DecodeOut(s.gOut)),
                     Turns(Decoded(TrustyEvents.Requests(evs)), s.dev.services))
    requires ReleasedLast(s.dev.st, Turns(Decoded(TrustyEvents.Requests(evs)), s.dev.services))
    ensures var turns := Turns(Decoded(TrustyEvents.Requests(evs)), s.dev.services);
      var replies := TrustyEvents.Run(Wired(Trusty, wide), true, s, evs).1.replies;
      && |replies| == |turns| && |replies[k].bytes| == OUT_BUF_LEN
      && RunFits(Trusty, wide, s.dev.st, View(DecodeOut(s.gOut)), turns[..k + 1])
      && View(DecodeOut(replies[k].bytes))
         == RunSpec(Trusty, wide, s.dev.st, View(DecodeOut(s.gOut)), turns[..k + 1]).1
  {
    TrustyEvents.EachMessageAnsweredOnce(Wired(Trusty, wide), s, evs);
    ServedPrefix(Trusty, wide, s.dev, s.gOut, TrustyEvents.Requests(evs), k + 1);
  }

  // ------------------------------------------------------------------ QSEE: a client stores a file and fetches it

  /** A write the vendor performs in full, on QSEE. */
  predicate SmoothWrite(x: InBuf, plan: Plan) {
    x.cmd == TEE_CMD_WRITE_TEST && 0 < x.bufLen <= BUF_LEN <= |x.buf| && 0 <= plan.open && x.bufLen <= plan.io
  }

  /** What the written file then holds: the new bytes, and what stuck out behind them before. */
  function Written(st: TaState, x: InBuf): Buffer
    requires x.bufLen <= |x.buf|
  {
    Overlay(ContentOf(st.files, NameOf(x.str)), x.buf[..x.bufLen])
  }

  lemma WriteThenReadTwice(wide: bool, st: TaState, out: Out, write: InBuf, read: InBuf, plans: seq<Plan>)
    requires OutFits(out) && StoreFits(st.files) && InFits(write) && InFits(read) && |plans| == 3
    requires forall k | 0 <= k < 3 :: PlanFits(plans[k], st.fds)
    requires SmoothWrite(write, plans[0]) && read.cmd == TEE_CMD_READ_TEST && NameOf(read.str) == NameOf(write.str)
    requires read.bufLen <= BUF_LEN && Reaches(Qsee, plans[1]) && 0 <= plans[1].size
    requires SmoothRead(Qsee, plans[2], |Written(st, write)|)
    ensures var r0 := RouterSpec(Qsee, wide, st, out, ToRequest(write), plans[0]);
      StoreFits(r0.0.files) && r0.0.live == st.live && r0.0.fds == st.fds
      && var r1 := RouterSpec(Qsee, wide, r0.0, r0.1, ToRequest(read), plans[1]);
         r1.0 == r0.0 && StoreFits(r1.0.files)
         && var r2 := RouterSpec(Qsee, wide, r1.0, r1.1, ToRequest(read), plans[2]);
            var content := Written(st, write);
            && |content| <= BUF_LEN
            && r2.1.ok && r2.1.bufLen == |content| && (Delivered(r2.1, content) <==> !wide || ZeroHead(content))
  {
    var name, data := NameOf(write.str), write.buf[..write.bufLen];
    RouterKeepsStoreFits(Qsee, wide, st, out, ToRequest(write), plans[0]);
    var r0 := RouterSpec(Qsee, wide, st, out, ToRequest(write), plans[0]);
    assert data[..|data|] == data;
    assert r0.0 == st.(files := Touch(st.files, name)[name := Written(st, write)]);
    var first, second := Turn(ToRequest(read), plans[1]), Turn(ToRequest(read), plans[2]);
    ReadIsFetch(Qsee, wide, r0.0, r0.1, first);
    var r1 := RouterSpec(Qsee, wide, r0.0, r0.1, ToRequest(read), plans[1]);
    assert r1.0 == r0.0;
    SecondReadSucceeds(Qsee, wide, r0.0, r0.1, first, [], second);
  }

  /** Place a request where the client's `in` points. */
  method Put(c: Client<World>, inAt: nat, outAt: nat, x: InBuf)
    requires c.Valid() && c.Buffers(inAt, outAt) && InFits(x)
    modifies c.mem
    ensures c.Valid() && c.Request(inAt) == EncodeIn(x) && c.Reply(outAt) == old(c.Reply(outAt))
  {
    var b := EncodeIn(x);
    forall k | 0 <= k < IN_BUF_LEN {
      c.mem[inAt + k] := b[k];
    }
    assert c.Request(inAt) == b;
  }

  /** One command through qsee_cmd: the reply and the device are what the router's specification makes of it. */
  method QseeCommand(c: Client<World>, ghost wide: bool, inAt: nat, outAt: nat, x: InBuf)
    requires c.Valid() && c.ta.route == Wired(Qsee, wide) && c.Buffers(inAt, outAt)
    requires inAt + QSEE_IN_LEN <= c.mem.Length && outAt + QSEE_OUT_LEN <= c.mem.Length
    requires InFits(x) && Defined(c.ta.dev, ToRequest(x))
    modifies c.mutex, c.mem, c.ta`dev, c.ta.gIn
    ensures c.Valid()
    ensures var w := old(c.ta.dev);
      var spec := RouterSpec(Qsee, wide, w.st, View(DecodeOut(old(c.Reply(outAt)))), ToRequest(x), w.services[0].plan);
      c.ta.dev == World(spec.0, w.services[1..]) && View(DecodeOut(c.Reply(outAt))) == spec.1
  {
    WireAgreesOnBytes(Qsee, wide, c.ta.dev, x, c.Reply(outAt));
    Put(c, inAt, outAt, x);
    var status := c.QseeCmd(inAt, outAt, 0, true);
  }

  // ------------------------------------------------------------------ the driver's requests on the wire

  /** A character array of single-byte characters. */
  predicate Narrow(str: seq<char>) {
    forall k | 0 <= k < |str| :: str[k] as int < 0x100
  }

  function Chars(str: seq<char>): (b: Buffer)
    requires Narrow(str)
    ensures |b| == |str| && forall k | 0 <= k < |b| :: b[k] as int == str[k] as int
  {
    seq(|str|, i requires 0 <= i < |str| => Byte(str[i] as int))
  }

  lemma {:induction false} NameOfChars(str: seq<char>)
    requires Narrow(str)
    ensures NameOf(Chars(str)) == Driver.CString(str)
  {
    if str != [] {
      assert Chars(str)[0] as int == str[0] as int;
      assert Chars(str)[1..] == Chars(str[1..]) by {
        forall k | 0 <= k < |str| - 1 ensures Chars(str)[1..][k] == Chars(str[1..])[k] {
          SameByte(Chars(str)[1..][k], Chars(str[1..])[k]);
        }
      }
      if str[0] != '\0' {
        NameOfChars(str[1..]);
      }
    }
  }

  /** What the driver's buffer holds arrives at the router as the request it stands for. */
  lemma PacketCrosses(q: Driver.Packet, str: seq<char>)
    requires Narrow(str) && |str| == STR_LEN && q.name == Driver.CString(str)
    requires q.cmd < WORD && q.spiNum < WORD && q.i2cNum < WORD && q.bufLen < WORD && |q.payload| == BUF_LEN
    ensures var x := InBuf(q.cmd, Chars(str), q.spiNum, q.i2cNum, q.bufLen, q.payload);
      InFits(x) && ToRequest(DecodeIn(EncodeIn(x))) == DriverSession.AsRequest(q)
  {
    InRoundTrip(InBuf(q.cmd, Chars(str), q.spiNum, q.i2cNum, q.bufLen, q.payload));
    NameOfChars(str);
  }

  /** The driver's own name, with whatever follows its terminator. */
  lemma DriverNameCrosses(str: seq<char>)
    requires Narrow(str) && 8 < |str| && str[..8] == "test.txt" && str[8] == '\0'
    ensures NameOf(Chars(str)) == "test.txt"
  {
    NameOfChars(str);
    Driver.NameIsTerminated(str);
  }

  /** A client device on QSEE, as a successful init leaves it. */
  method Connect(wide: bool, w: World, garbage: Garbage) returns (c: Client<World>)
    requires GarbageFits(garbage)
    ensures c.Valid() && c.ta.route == Wired(Qsee, wide) && c.ta.dev == w && c.Buffers(IN_AT, OUT_AT)
    ensures IN_AT + QSEE_IN_LEN <= c.mem.Length && OUT_AT + QSEE_OUT_LEN <= c.mem.Length
    ensures View(DecodeOut(c.Reply(OUT_AT))).bufLen == 0
    ensures fresh(c) && fresh(c.mutex) && fresh(c.mem) && fresh(c.ta) && fresh(c.ta.gIn)
  {
    WiredFits(Qsee, wide);
    var status, client := Init(true, 0, 0, w, Wired(Qsee, wide), garbage);
    c := client;
    ZeroLength(c.Reply(OUT_AT));
  }

  /** In a zeroed reply buffer the length word is zero. */
  lemma ZeroLength(reply: Buffer)
    requires reply == seq(OUT_BUF_LEN, _ => 0)
    ensures DecodeOut(reply).bufLen == 0
  {
    FourZeros();
    assert reply[LEN_AT..LEN_AT + 4] == [0, 0, 0, 0];
  }

  /**
   * A QSEE client writes a file and reads it twice, all through qsee_cmd: whatever the reply buffer held and
   * whether or not the first read was refused for lack of capacity, the last reply carries the file - the new
   * bytes and whatever the file held beyond them.
   */
  method QseeStoreAndFetch(c: Client<World>, ghost wide: bool, inAt: nat, outAt: nat, write: InBuf, read: InBuf)
    requires c.Valid() && c.ta.route == Wired(Qsee, wide) && c.Buffers(inAt, outAt)
    requires inAt + QSEE_IN_LEN <= c.mem.Length && outAt + QSEE_OUT_LEN <= c.mem.Length
    requires InFits(write) && InFits(read)
    requires var w := c.ta.dev;
      && 3 <= |w.services| && w.st.live && StoreFits(w.st.files)
      && (forall k | 0 <= k < 3 :: ServiceFits(w.services[k]) && PlanFits(w.services[k].plan, w.st.fds))
      && SmoothWrite(write, w.services[0].plan)
      && read.cmd == TEE_CMD_READ_TEST && NameOf(read.str) == NameOf(write.str) && read.bufLen <= BUF_LEN
      && Reaches(Qsee, w.services[1].plan) && 0 <= w.services[1].plan.size
      && SmoothRead(Qsee, w.services[2].plan, |Written(w.st, write)|)
    modifies c.mutex, c.mem, c.ta`dev, c.ta.gIn
    ensures c.Valid()
    ensures var content := Written(old(c.ta.dev.st), write);
      var out := View(DecodeOut(c.Reply(outAt)));
      && |content| <= BUF_LEN && content[..write.bufLen] == write.buf[..write.bufLen]
      && out.ok && out.bufLen == |content|
      && (Delivered(out, content) <==> !wide || ZeroHead(content))
  {
    ghost var w := c.ta.dev;
    WriteThenReadTwice(wide, w.st, View(DecodeOut(c.Reply(outAt))), write, read,
                       [w.services[0].plan, w.services[1].plan, w.services[2].plan]);
    QseeCommand(c, wide, inAt, outAt, write);
    QseeCommand(c, wide, inAt, outAt, read);
    QseeCommand(c, wide, inAt, outAt, read);
  }
}
