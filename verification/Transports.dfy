/**
 * The five client transports and the trusted-application entry points they reach, seen by one thread.
 * What other threads can do meanwhile is the subject of KinibiProtocol, TrustyProtocol and CriticalSection.
 * Client memory is one array; `in` and `out` are offsets into it, so that their placement can be expressed.
 */
module Transports {
  import opened Common
  import opened Align

  const TEE_SUCCESS := 0
  const TEE_ERROR_GENERIC := 0xFFFF0000
  const GP_CMD := 0xbeef

  /** What the router computes from device state, request and old reply window. */
  type Router<!D> = (D, Buffer, Buffer) -> (D, Buffer)

  ghost predicate Fits<D(!new)>(route: Router<D>) {
    forall d: D, request: Buffer, reply: Buffer | |request| == IN_BUF_LEN && |reply| == OUT_BUF_LEN ::
      |Routed(route, d, request, reply).1| == OUT_BUF_LEN
  }

  function Routed<D(!new)>(route: Router<D>, d: D, request: Buffer, reply: Buffer): (D, Buffer) {
    route(d, request, reply)
  }

  /** The `n` bytes of `s` at offset `at`. */
  function Window(s: Buffer, at: nat, n: nat): (w: Buffer)
    requires at + n <= |s|
    ensures |w| == n
  {
    s[at..at + n]
  }

  /** `s` with the bytes at offset `at` replaced by `w`. */
  function Splice(s: Buffer, at: nat, w: Buffer): (r: Buffer)
    requires at + |w| <= |s|
    ensures |r| == |s| && Window(r, at, |w|) == w
  {
    s[..at] + w + s[at + |w|..]
  }

  /** Byte by byte: a window shows the bytes at its place, and a splice changes those and no others. */
  lemma WindowAndSpliceExactly(s: Buffer, at: nat, w: Buffer, k: nat)
    requires at + |w| <= |s| && k < |s|
    ensures k < |w| ==> Window(s, at, |w|)[k] == s[at + k]
    ensures Splice(s, at, w)[k] == if at <= k < at + |w| then w[k - at] else s[k]
  {
  }

  lemma SpliceElsewhere(s: Buffer, at: nat, w: Buffer, other: nat, n: nat)
    requires at + |w| <= |s| && other + n <= |s|
    requires other + n <= at || at + |w| <= other
    ensures Window(Splice(s, at, w), other, n) == Window(s, other, n)
  {
  }

  lemma OtherWindowKept(was: Buffer, now: Buffer, changed: nat, outAt: nat)
    requires changed + OUT_BUF_LEN <= |was| == |now| && outAt + OUT_BUF_LEN <= |now|
    requires now == Splice(was, changed, Window(now, changed, OUT_BUF_LEN))
    ensures outAt >= changed + OUT_BUF_LEN || outAt + OUT_BUF_LEN <= changed ==>
      Window(now, outAt, OUT_BUF_LEN) == Window(was, outAt, OUT_BUF_LEN)
  {
    if outAt >= changed + OUT_BUF_LEN || outAt + OUT_BUF_LEN <= changed {
      SpliceElsewhere(was, changed, Window(now, changed, OUT_BUF_LEN), outAt, OUT_BUF_LEN);
    }
  }

  /** Overwriting a prefix of a window changes that prefix and nothing outside the window. */
  lemma SplicePrefix(s: Buffer, at: nat, w: Buffer, n: nat)
    requires |w| <= n && at + n <= |s|
    ensures var r := Splice(s, at, w);
      Window(r, at, n) == w + Window(s, at, n)[|w|..] && r == Splice(s, at, Window(r, at, n))
  {
    var r := Splice(s, at, w);
    assert Window(r, at, n) == w + Window(s, at, n)[|w|..];
    assert r[..at] == s[..at] && r[at + n..] == s[at + n..];
    assert r == r[..at] + Window(r, at, n) + r[at + n..];
  }

  method Memcpy(dst: array<byte>, dstAt: nat, src: array<byte>, srcAt: nat, n: nat)
    requires dst != src && dstAt + n <= dst.Length && srcAt + n <= src.Length
    modifies dst
    ensures dst[..] == Splice(old(dst[..]), dstAt, Window(src[..], srcAt, n))
    ensures forall k | dstAt <= k < dstAt + n :: dst[k] == src[srcAt + (k - dstAt)]
    ensures forall k | 0 <= k < dst.Length && !(dstAt <= k < dstAt + n) :: dst[k] == old(dst[k])
  {
    forall k | 0 <= k < n {
      dst[dstAt + k] := src[srcAt + k];
    }
  }

  /** What that is. */
  lemma AtomicExactly<D(!new)>(route: Router<D>, d0: D, request: Buffer, reply0: Buffer, d1: D, reply1: Buffer)
    ensures Atomic(route, d0, request, reply0, d1, reply1) <==> d1 == route(d0, request, reply0).0 && reply1 == route(d0, request, reply0).1
  {
  }

  /** One atomic router call: the only thing a successful command may have done. */
  ghost predicate Atomic<D(!new)>(
    route: Router<D>, d0: D, request: Buffer, reply0: Buffer, d1: D, reply1: Buffer)
  {
    (d1, reply1) == Routed(route, d0, request, reply0)
  }

  // ------------------------------------------------------------------ the Trusty message channel

  /**
   * A Trusty session: the application's device state and reply buffer, the requests written but not yet
   * served, and the replies sent but not yet read.  Both queues are first in, first out.
   */
  datatype Channel<!D> = Channel(dev: D, window: Buffer, inbox: seq<Buffer>, unread: seq<Buffer>)

  ghost predicate ChannelFits<D>(ch: Channel<D>) {
    && |ch.window| == OUT_BUF_LEN
    && (forall k | 0 <= k < |ch.inbox| :: |ch.inbox[k]| == IN_BUF_LEN)
    && (forall k | 0 <= k < |ch.unread| :: |ch.unread[k]| == OUT_BUF_LEN)
  }

  /**
   * What becomes of a request the application takes up: routed, and its reply sent or not; or, if it could not
   * be put back, dropped without being routed.
   */
  datatype Fate = Sent | Unsent | Dropped

  /** The application takes up its oldest request. */
  function ServeOne<D(!new)>(route: Router<D>, ch: Channel<D>, fate: Fate): (r: Channel<D>)
    requires ch.inbox != []
    ensures |r.inbox| == |ch.inbox| - 1
  {
    if fate == Dropped then ch.(inbox := ch.inbox[1..])
    else
      var r := Routed(route, ch.dev, ch.inbox[0], ch.window);
      Channel(r.0, r.1, ch.inbox[1..], if fate == Sent then ch.unread + [r.1] else ch.unread)
  }

  /** Fate by fate: only a request that is routed touches the application, and only a reply that is sent arrives. */
  lemma ServeOneExactly<D(!new)>(route: Router<D>, ch: Channel<D>, fate: Fate)
    requires ch.inbox != []
    ensures var r, (dev, reply) := ServeOne(route, ch, fate), route(ch.dev, ch.inbox[0], ch.window);
      && r.inbox == ch.inbox[1..]
      && (fate.Dropped? ==> r.dev == ch.dev && r.window == ch.window && r.unread == ch.unread)
      && (fate.Unsent? ==> r.dev == dev && r.window == reply && r.unread == ch.unread)
      && (fate.Sent? ==> r.dev == dev && r.window == reply && r.unread == ch.unread + [reply])
  {
  }

  /** It takes up as many requests as `fates` lists. */
  function ServeMany<D(!new)>(route: Router<D>, ch: Channel<D>, fates: seq<Fate>): (r: Channel<D>)
    requires |fates| <= |ch.inbox|
    ensures |r.inbox| == |ch.inbox| - |fates|
  {
    if fates == [] then ch
    else ServeOne(route, ServeMany(route, ch, fates[..|fates| - 1]), fates[|fates| - 1])
  }

  lemma {:induction false} ServeManyFits<D(!new)>(route: Router<D>, ch: Channel<D>, fates: seq<Fate>)
    requires Fits(route) && ChannelFits(ch) && |fates| <= |ch.inbox|
    ensures ChannelFits(ServeMany(route, ch, fates))
  {
    if fates != [] {
      ServeManyFits(route, ch, fates[..|fates| - 1]);
    }
  }

  /** Serving never takes back a reply, so the oldest unread one stays the oldest. */
  lemma {:induction false} ServeManyKeepsUnread<D(!new)>(route: Router<D>, ch: Channel<D>, fates: seq<Fate>)
    requires |fates| <= |ch.inbox|
    ensures ch.unread <= ServeMany(route, ch, fates).unread
  {
    if fates != [] {
      ServeManyKeepsUnread(route, ch, fates[..|fates| - 1]);
    }
  }

  /** If no reply is lost, the first one to go out is that to the oldest request. */
  lemma {:induction false} ServeManyStarts<D(!new)>(route: Router<D>, ch: Channel<D>, fates: seq<Fate>)
    requires 0 < |fates| <= |ch.inbox| && fates[0] == Sent
    ensures ch.unread + [Routed(route, ch.dev, ch.inbox[0], ch.window).1] <= ServeMany(route, ch, fates).unread
  {
    var n := |fates| - 1;
    if n == 0 {
      assert fates[..0] == [];
      assert ServeMany(route, ch, fates[..0]) == ch;
    } else {
      ServeManyStarts(route, ch, fates[..n]);
    }
  }

  /** After `request` was written and the application ran. */
  function AfterWrite<D(!new)>(route: Router<D>, ch: Channel<D>, request: Buffer, fates: seq<Fate>): (r: Channel<D>)
    requires |fates| <= |ch.inbox| + 1
  {
    ServeMany(route, ch.(inbox := ch.inbox + [request]), fates)
  }

  /** What the session owes its clients: requests to serve and replies to read. */
  function Owed<D>(ch: Channel<D>): nat {
    |ch.inbox| + |ch.unread|
  }

  /**
   * Whose reply a call that reads one in full gets.  If nothing was owed when it began, the router's reply to
   * its own request, and nothing is owed after it.  Otherwise, if no reply is lost, the oldest one owed, which
   * answers an earlier request; so it is its own if and only if nothing was owed, up to equal replies.
   */
  lemma OwnReplyExactly<D(!new)>(route: Router<D>, ch: Channel<D>, request: Buffer, fates: seq<Fate>)
    requires |fates| <= |ch.inbox| + 1
    requires var after := AfterWrite(route, ch, request, fates); after.unread != []
    ensures var after := AfterWrite(route, ch, request, fates);
      && (Owed(ch) == 0 ==>
            && fates == [Sent] && Owed(after) == 1
            && (after.dev, after.unread[0]) == Routed(route, ch.dev, request, ch.window))
      && (ch.unread != [] ==> after.unread[0] == ch.unread[0])
      && (ch.unread == [] && ch.inbox != [] && fates != [] && fates[0] == Sent ==>
            after.unread[0] == Routed(route, ch.dev, ch.inbox[0], ch.window).1)
  {
    var began := ch.(inbox := ch.inbox + [request]);
    ServeManyKeepsUnread(route, began, fates);
    if Owed(ch) == 0 {
      assert fates != [];
      assert fates[..0] == [] && fates == [fates[0]];
      assert ServeMany(route, began, []) == began;
    } else if fates != [] && fates[0] == Sent {
      ServeManyStarts(route, began, fates);
      assert began.inbox[0] == if ch.inbox != [] then ch.inbox[0] else request;
    }
  }

  // ------------------------------------------------------------------ objects

  class Mutex {
    var locked: bool
    var locks: nat
    var unlocks: nat

    constructor ()
      ensures !locked && locks == unlocks == 0
    {
      locked, locks, unlocks := false, 0, 0;
    }

    method Lock()
      requires !locked
      modifies this
      ensures locked && locks == old(locks) + 1 && unlocks == old(unlocks)
    {
      locked, locks := true, locks + 1;
    }

    method Unlock()
      requires locked
      modifies this
      ensures !locked && locks == old(locks) && unlocks == old(unlocks) + 1
    {
      locked, unlocks := false, unlocks + 1;
    }
  }

  /** Free before and after, and taken and released exactly once in between. */
  twostate predicate OnceLocked(m: Mutex)
    reads m
  {
    && !old(m.locked) && !m.locked
    && m.locks == old(m.locks) + 1 && m.unlocks == old(m.unlocks) + 1
  }

  /** What memory holds that is allocated and not cleared: both sides' shared and private buffers. */
  datatype Garbage = Garbage(gIn: Buffer, gMem: Buffer, gInMem: Buffer, gOutMem: Buffer, taOut: Buffer)

  predicate GarbageFits(g: Garbage) {
    && |g.gIn| == |g.gInMem| == IN_BUF_LEN && |g.gOutMem| == |g.taOut| == OUT_BUF_LEN
    && |g.gMem| == IN_BUF_LEN + OUT_BUF_LEN
  }

  /** What it says, spelled out. */
  twostate lemma OnceLockedExactly(m: Mutex)
    ensures OnceLocked(m) <==>
      old(m.locked) == m.locked == false && m.locks - old(m.locks) == 1 && m.unlocks - old(m.unlocks) == 1
  {
  }

  /** The trusted application: device state and the private copy of the request. */
  class Ta<D(!new)> {
    var dev: D
    const gIn: array<byte>
    const route: Router<D>

    ghost predicate Valid() reads this {
      gIn.Length == IN_BUF_LEN && Fits(route)
    }

    constructor (dev: D, route: Router<D>, garbage: Garbage)
      requires Fits(route) && GarbageFits(garbage)
      ensures Valid() && fresh(gIn) && this.dev == dev && this.route == route && gIn[..] == garbage.gIn
    {
      this.dev, this.route := dev, route;
      this.gIn := new byte[IN_BUF_LEN](i requires 0 <= i < IN_BUF_LEN && |garbage.gIn| == IN_BUF_LEN => garbage.gIn[i]);
    }

    /** ta_router with g_out pointing at offset `at` of `out`. */
    method TaRouter(out: array<byte>, at: nat)
      requires Valid() && out != gIn && at + OUT_BUF_LEN <= out.Length
      modifies this`dev, out
      ensures Atomic(route, old(dev), gIn[..], Window(old(out[..]), at, OUT_BUF_LEN), dev, Window(out[..], at, OUT_BUF_LEN))
      ensures out[..] == Splice(old(out[..]), at, Window(out[..], at, OUT_BUF_LEN))
    {
      var r := Routed(route, dev, gIn[..], Window(out[..], at, OUT_BUF_LEN));
      dev := r.0;
      forall k | 0 <= k < OUT_BUF_LEN {
        out[at + k] := r.1[k];
      }
      assert Window(out[..], at, OUT_BUF_LEN) == r.1;
      assert gIn[..] == old(gIn[..]) && (r.0, r.1) == (dev, Window(out[..], at, OUT_BUF_LEN));
    }

    /** Copy the request at `inAt` of `mem`, then route into `outAt`: the core of every entry point. */
    method Serve(mem: array<byte>, inAt: nat, rsp: array<byte>, outAt: nat)
      requires Valid() && mem != gIn && rsp != gIn
      requires inAt + IN_BUF_LEN <= mem.Length && outAt + OUT_BUF_LEN <= rsp.Length
      modifies this`dev, gIn, rsp
      ensures Atomic(route, old(dev), old(Window(mem[..], inAt, IN_BUF_LEN)), Window(old(rsp[..]), outAt, OUT_BUF_LEN),
                     dev, Window(rsp[..], outAt, OUT_BUF_LEN))
      ensures rsp[..] == Splice(old(rsp[..]), outAt, Window(rsp[..], outAt, OUT_BUF_LEN))
    {
      Memcpy(gIn, 0, mem, inAt, IN_BUF_LEN);
      assert gIn[..] == old(Window(mem[..], inAt, IN_BUF_LEN));
      TaRouter(rsp, outAt);
    }

    /** Trusty: the request is read out of the message channel. */
    method ServeMessage(message: Buffer, out: array<byte>)
      requires Valid() && out != gIn && out.Length == OUT_BUF_LEN && |message| == IN_BUF_LEN
      modifies this`dev, gIn, out
      ensures Atomic(route, old(dev), message, old(out[..]), dev, out[..])
    {
      forall k | 0 <= k < IN_BUF_LEN {
        gIn[k] := message[k];
      }
      assert gIn[..] == message;
      ghost var dev0, reply0 := dev, out[..];
      assert Window(reply0, 0, OUT_BUF_LEN) == reply0 == old(out[..]);
      TaRouter(out, 0);
      assert Window(out[..], 0, OUT_BUF_LEN) == out[..];
      assert Atomic(route, dev0, message, reply0, dev, Window(out[..], 0, OUT_BUF_LEN));
    }

    /** QSEE: the request is handled exactly when both lengths suffice and neither pointer is null. */
    method TzAppCmdHandler(cmd: array?<byte>, cmdAt: nat, cmdlen: nat, rsp: array?<byte>, rspAt: nat, rsplen: nat)
      returns (handled: bool)
      requires Valid() && cmd != gIn && rsp != gIn
      requires cmd != null ==> cmdAt + cmdlen <= cmd.Length
      requires rsp != null ==> rspAt + rsplen <= rsp.Length
      modifies this`dev, gIn, rsp
      ensures handled <==> IN_BUF_LEN <= cmdlen && OUT_BUF_LEN <= rsplen && cmd != null && rsp != null
      ensures !handled ==> dev == old(dev) && (rsp != null ==> rsp[..] == old(rsp[..]))
      ensures handled ==>
        && Atomic(route, old(dev), old(Window(cmd[..], cmdAt, IN_BUF_LEN)), Window(old(rsp[..]), rspAt, OUT_BUF_LEN),
                  dev, Window(rsp[..], rspAt, OUT_BUF_LEN))
        && rsp[..] == Splice(old(rsp[..]), rspAt, Window(rsp[..], rspAt, OUT_BUF_LEN))
    {
      if cmdlen < IN_BUF_LEN || rsplen < OUT_BUF_LEN {
        return false;
      }
      if cmd == null || rsp == null {
        return false;
      }
      Serve(cmd, cmdAt, rsp, rspAt);
      handled := true;
    }

    /** GlobalPlatform: sizes must be exact, and the parameter types and the command number must fit. */
    method InvokeCommandEntryPoint(commandID: nat, typesMatch: bool, inMem: array<byte>, inSize: nat, outMem: array<byte>, outSize: nat)
      returns (result: int)
      requires Valid() && inMem != gIn && outMem != gIn
      requires inSize <= inMem.Length && outSize <= outMem.Length
      modifies this`dev, gIn, outMem
      ensures result == if inSize == 32816 && outSize == 32820 && typesMatch && commandID == 0xbeef then 0 else 0xFFFF0000
      ensures result != TEE_SUCCESS ==> dev == old(dev) && outMem[..] == old(outMem[..])
      ensures result == TEE_SUCCESS ==>
        && Atomic(route, old(dev), old(Window(inMem[..], 0, IN_BUF_LEN)), Window(old(outMem[..]), 0, OUT_BUF_LEN),
                  dev, Window(outMem[..], 0, OUT_BUF_LEN))
        && outMem[..] == Splice(old(outMem[..]), 0, Window(outMem[..], 0, OUT_BUF_LEN))
    {
      if inSize != IN_BUF_LEN || outSize != OUT_BUF_LEN {
        return TEE_ERROR_GENERIC;
      }
      if !typesMatch {
        return TEE_ERROR_GENERIC;
      }
      if commandID != GP_CMD {
        return TEE_ERROR_GENERIC;
      }
      Serve(inMem, 0, outMem, 0);
      result := TEE_SUCCESS;
    }

    /** iSee: one buffer, with the reply window right behind the request. */
    method UtPfFpInvokeCommand(data: array<byte>, at: nat, paramLength: nat) returns (result: int)
      requires Valid() && data != gIn && at + paramLength <= data.Length
      modifies this`dev, gIn, data
      ensures result == if paramLength == 65636 then 0 else 0xFFFF0000
      ensures result != TEE_SUCCESS ==> dev == old(dev) && data[..] == old(data[..])
      ensures result == TEE_SUCCESS ==>
        && Atomic(route, old(dev), Window(old(data[..]), at, IN_BUF_LEN), Window(old(data[..]), at + IN_BUF_LEN, OUT_BUF_LEN),
                  dev, Window(data[..], at + IN_BUF_LEN, OUT_BUF_LEN))
        && data[..] == Splice(old(data[..]), at + IN_BUF_LEN, Window(data[..], at + IN_BUF_LEN, OUT_BUF_LEN))
    {
      if paramLength != IN_BUF_LEN + OUT_BUF_LEN {
        return TEE_ERROR_GENERIC;
      }
      Serve(data, at, data, at + IN_BUF_LEN);
      result := TEE_SUCCESS;
    }
  }

  /**
   * The client device: its mutex, the memory that holds both buffers of a call, and the trusted
   * application at the other end.  `mem` is the world the caller's pointers point into.
   */
  class Client<D(!new)> {
    const mutex: Mutex
    const mem: array<byte>
    const ta: Ta<D>

    /** Kinibi's g_mem: request window, then reply window. */
    const gMem: array<byte>

    /** GlobalPlatform's registered shared memory. */
    const gInMem: array<byte>
    const gOutMem: array<byte>

    /** The reply buffer inside the Trusty application's device structure. */
    const taOut: array<byte>

    /** iSee's g_cmd: where the request is, and how long request and reply are. */
    var cmdBuf: nat
    var cmdLength: nat

    /** The two directions of the Trusty session. */
    var inbox: seq<Buffer>
    var unread: seq<Buffer>

    ghost predicate Valid() reads this, mutex, ta {
      Sound() && !mutex.locked
    }

    /** The part of it that also holds in the middle of a call. */
    ghost predicate Sound() reads this, ta {
      && ta.Valid()
      && gMem.Length == IN_BUF_LEN + OUT_BUF_LEN
      && gInMem.Length == IN_BUF_LEN && gOutMem.Length == OUT_BUF_LEN && taOut.Length == OUT_BUF_LEN
      && mem != ta.gIn && mem != gMem && mem != gInMem && mem != gOutMem && mem != taOut
      && gMem != ta.gIn && gInMem != ta.gIn && gOutMem != ta.gIn && taOut != ta.gIn
      && gInMem != gOutMem
      && (forall k | 0 <= k < |inbox| :: |inbox[k]| == IN_BUF_LEN)
      && (forall k | 0 <= k < |unread| :: |unread[k]| == OUT_BUF_LEN)
    }

    /** The client's own memory is zeroed, the rest is as it was found. */
    constructor (size: nat, dev: D, route: Router<D>, garbage: Garbage)
      requires Fits(route) && GarbageFits(garbage)
      ensures Valid() && mem.Length == size && ta.dev == dev && ta.route == route
      ensures inbox == unread == [] && mem[..] == seq(size, _ => 0)
      ensures gMem[..] == garbage.gMem && taOut[..] == garbage.taOut
      ensures gInMem[..] == garbage.gInMem && gOutMem[..] == garbage.gOutMem
      ensures fresh(mutex) && fresh(mem) && fresh(ta) && fresh(ta.gIn) && fresh(gMem) && fresh(gInMem) && fresh(gOutMem) && fresh(taOut)
    {
      mutex := new Mutex();
      inbox, unread := [], [];
      cmdBuf, cmdLength := 0, 0;
      ta := new Ta(dev, route, garbage);
      mem := new byte[size](_ => 0);
      gMem := new byte[IN_BUF_LEN + OUT_BUF_LEN](i requires 0 <= i < |garbage.gMem| => garbage.gMem[i]);
      gInMem := new byte[IN_BUF_LEN](i requires 0 <= i < |garbage.gInMem| => garbage.gInMem[i]);
      gOutMem := new byte[OUT_BUF_LEN](i requires 0 <= i < |garbage.gOutMem| => garbage.gOutMem[i]);
      taOut := new byte[OUT_BUF_LEN](i requires 0 <= i < |garbage.taOut| => garbage.taOut[i]);
    }

    /** The two buffers of a call lie inside client memory and do not overlap. */
    predicate Buffers(inAt: nat, outAt: nat) {
      && inAt + IN_BUF_LEN <= mem.Length && outAt + OUT_BUF_LEN <= mem.Length
      && (inAt + IN_BUF_LEN <= outAt || outAt + OUT_BUF_LEN <= inAt)
    }

    ghost function Request(inAt: nat): Buffer
      requires inAt + IN_BUF_LEN <= mem.Length
      reads mem
    {
      Window(mem[..], inAt, IN_BUF_LEN)
    }

    ghost function Reply(outAt: nat): Buffer
      requires outAt + OUT_BUF_LEN <= mem.Length
      reads mem
    {
      Window(mem[..], outAt, OUT_BUF_LEN)
    }

    /** Only the reply window of the call has changed in client memory. */
    twostate predicate OnlyReplyChanged(outAt: nat)
      requires outAt + OUT_BUF_LEN <= mem.Length
      reads mem
    {
      mem[..] == Splice(old(mem[..]), outAt, Window(mem[..], outAt, OUT_BUF_LEN))
    }

    /** Byte by byte: everything outside the window is as it was. */
    twostate lemma OnlyReplyChangedExactly(outAt: nat)
      requires outAt + OUT_BUF_LEN <= mem.Length
      ensures OnlyReplyChanged(outAt) <==>
        forall k | 0 <= k < mem.Length && !(outAt <= k < outAt + OUT_BUF_LEN) :: mem[k] == old(mem[k])
    {
      var was, now := old(mem[..]), mem[..];
      var w := Window(now, outAt, OUT_BUF_LEN);
      if forall k | 0 <= k < mem.Length && !(outAt <= k < outAt + OUT_BUF_LEN) :: mem[k] == old(mem[k]) {
        assert now == Splice(was, outAt, w);
      } else {
        var k :| 0 <= k < mem.Length && !(outAt <= k < outAt + OUT_BUF_LEN) && mem[k] != old(mem[k]);
        assert now[k] != was[k] == Splice(was, outAt, w)[k];
      }
    }

    /** The bytes of a call's two windows. */
    lemma WindowsExactly(at: nat, k: nat)
      ensures at + IN_BUF_LEN <= mem.Length && k < 32816 ==> Request(at)[k] == mem[at + k]
      ensures at + OUT_BUF_LEN <= mem.Length && k < 32820 ==> Reply(at)[k] == mem[at + k]
    {
    }

    /**
     * kinibi_cmd.  `notifyRet` and `waitRet` are the driver's return codes; `served` says whether the
     * trusted application got to run, as it must have if the wait succeeded.
     */
    method KinibiCmd(inAt: nat, outAt: nat, notifyRet: int, waitRet: int, served: bool) returns (status: int)
      requires Valid() && Buffers(inAt, outAt)
      requires notifyRet != 0 ==> !served
      requires notifyRet == 0 && waitRet == 0 ==> served
      modifies mutex, mem, gMem, ta`dev, ta.gIn
      ensures Valid() && OnceLocked(mutex) && OnlyReplyChanged(outAt)
      ensures status == if notifyRet != 0 then notifyRet else waitRet
      ensures Request(inAt) == old(Request(inAt))
      ensures status != 0 ==> mem[..] == old(mem[..])
      ensures !served ==> ta.dev == old(ta.dev) && gMem[IN_BUF_LEN..] == old(gMem[IN_BUF_LEN..])
      ensures served ==>
        Atomic(ta.route, old(ta.dev), old(Request(inAt)), old(gMem[IN_BUF_LEN..]), ta.dev, gMem[IN_BUF_LEN..])
      ensures status == 0 ==> Reply(outAt) == gMem[IN_BUF_LEN..]
    {
      mutex.Lock();
      Memcpy(gMem, 0, mem, inAt, IN_BUF_LEN);
      assert gMem[IN_BUF_LEN..] == old(gMem[IN_BUF_LEN..]);
      assert Window(gMem[..], 0, IN_BUF_LEN) == old(Request(inAt));
      assert Window(gMem[..], IN_BUF_LEN, OUT_BUF_LEN) == old(gMem[IN_BUF_LEN..]);
      status := notifyRet;
      if status == 0 {
        if served {
          ta.Serve(gMem, 0, gMem, IN_BUF_LEN);
          assert Window(gMem[..], IN_BUF_LEN, OUT_BUF_LEN) == gMem[IN_BUF_LEN..];
        }
        status := waitRet;
        if status == 0 {
          Memcpy(mem, outAt, gMem, IN_BUF_LEN, OUT_BUF_LEN);
          SpliceElsewhere(old(mem[..]), outAt, gMem[IN_BUF_LEN..], inAt, IN_BUF_LEN);
        }
      }
      mutex.Unlock();
    }

    /**
     * gp_cmd.  `transport` is what the vendor's client library returns and `served` whether the trusted
     * application got to run, as it must have if the library reports success.
     */
    method GpCmd(inAt: nat, outAt: nat, transport: int, served: bool) returns (status: int)
      requires Valid() && Buffers(inAt, outAt)
      requires transport == 0 ==> served
      modifies mutex, mem, gInMem, gOutMem, ta`dev, ta.gIn
      ensures Valid() && OnceLocked(mutex) && OnlyReplyChanged(outAt)
      ensures status == transport
      ensures Request(inAt) == old(Request(inAt))
      ensures !served ==> ta.dev == old(ta.dev) && gOutMem[..] == old(gOutMem[..])
      ensures served ==>
        Atomic(ta.route, old(ta.dev), old(Request(inAt)), old(gOutMem[..]), ta.dev, gOutMem[..])
      // The reply window is copied out whatever the status.
      ensures Reply(outAt) == gOutMem[..]
    {
      mutex.Lock();
      Memcpy(gInMem, 0, mem, inAt, IN_BUF_LEN);
      assert Window(gInMem[..], 0, IN_BUF_LEN) == old(Request(inAt));
      assert Window(gOutMem[..], 0, OUT_BUF_LEN) == gOutMem[..];
      status := transport;
      if served {
        var result := ta.InvokeCommandEntryPoint(GP_CMD, true, gInMem, IN_BUF_LEN, gOutMem, OUT_BUF_LEN);
        assert result == TEE_SUCCESS;
      }
      assert Window(gOutMem[..], 0, OUT_BUF_LEN) == gOutMem[..];
      Memcpy(mem, outAt, gOutMem, 0, OUT_BUF_LEN);
      SpliceElsewhere(old(mem[..]), outAt, gOutMem[..], inAt, IN_BUF_LEN);
      mutex.Unlock();
    }

    /** The ioctl of isee_cmd that gets through: it goes where the header points; `outAt` is any other window. */
    method Ioctl(outAt: nat)
      requires Sound() && cmdLength == IN_BUF_LEN + OUT_BUF_LEN && cmdBuf + cmdLength <= mem.Length
      requires outAt + OUT_BUF_LEN <= mem.Length
      modifies mem, ta`dev, ta.gIn
      ensures Sound() && OnlyReplyChanged(cmdBuf + IN_BUF_LEN)
      ensures Request(cmdBuf) == old(Request(cmdBuf))
      ensures Atomic(ta.route, old(ta.dev), old(Request(cmdBuf)), old(Reply(cmdBuf + IN_BUF_LEN)),
                     ta.dev, Reply(cmdBuf + IN_BUF_LEN))
      ensures outAt >= cmdBuf + IN_BUF_LEN + OUT_BUF_LEN || outAt + OUT_BUF_LEN <= cmdBuf ==> Reply(outAt) == old(Reply(outAt))
    {
      var result := ta.UtPfFpInvokeCommand(mem, cmdBuf, cmdLength);
      assert result == TEE_SUCCESS;
      SpliceElsewhere(old(mem[..]), cmdBuf + IN_BUF_LEN, Reply(cmdBuf + IN_BUF_LEN), cmdBuf, IN_BUF_LEN);
      OtherWindowKept(old(mem[..]), mem[..], cmdBuf + IN_BUF_LEN, outAt);
    }

    /**
     * isee_cmd hands over `in` alone and never looks at `out`: the reply is written right behind the
     * request.  The caller sees it in `out` exactly because init placed `out` there.
     */
    method IseeCmd(inAt: nat, outAt: nat, transport: int, served: bool) returns (status: int)
      requires Valid() && Buffers(inAt, outAt) && inAt + IN_BUF_LEN + OUT_BUF_LEN <= mem.Length
      requires transport == 0 ==> served
      modifies this`cmdBuf, this`cmdLength, mutex, mem, ta`dev, ta.gIn
      ensures Valid() && OnceLocked(mutex) && OnlyReplyChanged(inAt + IN_BUF_LEN)
      ensures status == transport && cmdBuf == inAt && cmdLength == IN_BUF_LEN + OUT_BUF_LEN
      ensures Request(inAt) == old(Request(inAt))
      ensures !served ==> ta.dev == old(ta.dev) && mem[..] == old(mem[..])
      ensures served ==>
        Atomic(ta.route, old(ta.dev), old(Request(inAt)), old(Reply(inAt + IN_BUF_LEN)), ta.dev, Reply(inAt + IN_BUF_LEN))
      ensures served && outAt == inAt + IN_BUF_LEN ==>
        Atomic(ta.route, old(ta.dev), old(Request(inAt)), old(Reply(outAt)), ta.dev, Reply(outAt))
      ensures outAt >= inAt + IN_BUF_LEN + OUT_BUF_LEN || outAt + OUT_BUF_LEN <= inAt ==> Reply(outAt) == old(Reply(outAt))
    {
      mutex.Lock();
      cmdBuf := inAt;
      cmdLength := IN_BUF_LEN + OUT_BUF_LEN;
      status := transport;
      if served {
        Ioctl(outAt);
      }
      mutex.Unlock();
    }

    /** qsee_cmd: both windows are rounded up to 64 bytes, which client memory has to have room for. */
    method QseeCmd(inAt: nat, outAt: nat, transport: int, served: bool) returns (status: int)
      requires Valid() && Buffers(inAt, outAt)
      requires inAt + QSEE_IN_LEN <= mem.Length && outAt + QSEE_OUT_LEN <= mem.Length
      requires transport == 0 ==> served
      modifies mutex, mem, ta`dev, ta.gIn
      ensures Valid() && OnceLocked(mutex) && OnlyReplyChanged(outAt)
      ensures status == transport
      ensures Request(inAt) == old(Request(inAt))
      ensures !served ==> ta.dev == old(ta.dev) && mem[..] == old(mem[..])
      ensures served ==>
        Atomic(ta.route, old(ta.dev), old(Request(inAt)), old(Reply(outAt)), ta.dev, Reply(outAt))
    {
      mutex.Lock();
      status := transport;
      if served {
        QseeLengths();
        var handled := ta.TzAppCmdHandler(mem, inAt, QSEE_IN_LEN, mem, outAt, QSEE_OUT_LEN);
        assert handled;
        SpliceElsewhere(old(mem[..]), outAt, Reply(outAt), inAt, IN_BUF_LEN);
      }
      mutex.Unlock();
    }

    ghost function Session(): (ch: Channel<D>)
      reads this, ta, taOut
    {
      Channel(ta.dev, taOut[..], inbox, unread)
    }

    /** The Trusty application runs: it takes up as many waiting requests as `fates` lists. */
    method AppRuns(fates: seq<Fate>)
      requires Sound() && |fates| <= |inbox|
      modifies this`inbox, this`unread, taOut, ta`dev, ta.gIn
      ensures Sound() && Session() == ServeMany(ta.route, old(Session()), fates)
      ensures ChannelFits(Session())
    {
      ghost var start := Session();
      var i := 0;
      assert fates[..0] == [];
      while i < |fates|
        invariant 0 <= i <= |fates| && Sound() && |inbox| == |start.inbox| - i
        invariant Session() == ServeMany(ta.route, start, fates[..i]) && ChannelFits(Session())
      {
        assert fates[..i + 1][..i] == fates[..i];
        if fates[i] != Dropped {
          ta.ServeMessage(inbox[0], taOut);
        }
        inbox := inbox[1..];
        if fates[i] == Sent {
          unread := unread + [taOut[..]];
        }
        i := i + 1;
      }
      assert fates[..i] == fates;
    }

    /** read(2): the oldest unread reply is taken off the channel, and its first `got` bytes arrive. */
    method ReadReply(inAt: nat, outAt: nat, got: nat)
      requires Buffers(inAt, outAt) && got <= OUT_BUF_LEN && unread != [] && |unread[0]| == OUT_BUF_LEN
      modifies this`unread, mem
      ensures OnlyReplyChanged(outAt) && Request(inAt) == old(Request(inAt))
      ensures Reply(outAt) == old(unread)[0][..got] + old(Reply(outAt))[got..]
      ensures unread == old(unread)[1..]
    {
      var reply := unread[0][..got];
      unread := unread[1..];
      forall k | 0 <= k < got {
        mem[outAt + k] := reply[k];
      }
      assert mem[..] == Splice(old(mem[..]), outAt, reply);
      SplicePrefix(old(mem[..]), outAt, reply, OUT_BUF_LEN);
      SpliceElsewhere(old(mem[..]), outAt, reply, inAt, IN_BUF_LEN);
    }

    /** What a call does to the session. */
    ghost function AfterCall(request: Buffer, written: int, fates: seq<Fate>): (ch: Channel<D>)
      requires written == IN_BUF_LEN ==> |fates| <= |inbox| + 1
      reads this, ta, taOut
    {
      if written == IN_BUF_LEN then AfterWrite(ta.route, Session(), request, fates) else Session()
    }

    /**
     * trusty_cmd.  `written` and `got` are what write and read return, and `fates` tells how far the
     * application gets in between.  A read takes the oldest unread reply, whoever it was meant for, and can
     * only succeed if there is one.  Whose reply a successful call returns, OwnReplyExactly says.
     */
    method TrustyCmd(inAt: nat, outAt: nat, written: int, fates: seq<Fate>, got: int) returns (status: int)
      requires Valid() && Buffers(inAt, outAt) && got <= OUT_BUF_LEN
      requires written == IN_BUF_LEN ==> |fates| <= |inbox| + 1
      requires written == IN_BUF_LEN && 0 < got ==> AfterCall(Request(inAt), written, fates).unread != []
      modifies this`inbox, this`unread, mutex, mem, taOut, ta`dev, ta.gIn
      ensures Valid() && OnceLocked(mutex) && OnlyReplyChanged(outAt)
      ensures status == if written == IN_BUF_LEN && got == OUT_BUF_LEN then GENERIC_OK else GENERIC_ERR
      ensures Request(inAt) == old(Request(inAt))
      ensures var ch := old(AfterCall(Request(inAt), written, fates));
        if written == IN_BUF_LEN && 0 < got then
          && ch.unread != [] && |ch.unread[0]| == OUT_BUF_LEN && Session() == ch.(unread := ch.unread[1..])
          && Reply(outAt) == ch.unread[0][..got] + old(Reply(outAt))[got..]
        else
          Session() == ch && mem[..] == old(mem[..])
    {
      mutex.Lock();
      status := GENERIC_OK;
      if written != IN_BUF_LEN {
        status := GENERIC_ERR;
      } else {
        var request := new byte[IN_BUF_LEN](_ => 0);
        Memcpy(request, 0, mem, inAt, IN_BUF_LEN);
        assert request[..] == Request(inAt);
        inbox := inbox + [request[..]];
        AppRuns(fates);
        if 0 < got {
          ReadReply(inAt, outAt, got);
        }
        if got != OUT_BUF_LEN {
          status := GENERIC_ERR;
        }
      }
      mutex.Unlock();
    }

    /** On a session that owes nothing, a successful call is one atomic router call, and owes nothing either. */
    method TrustyCmdInStep(inAt: nat, outAt: nat, fates: seq<Fate>) returns (status: int)
      requires Valid() && Buffers(inAt, outAt) && inbox == unread == [] && |fates| <= 1
      requires AfterCall(Request(inAt), IN_BUF_LEN, fates).unread != []
      modifies this`inbox, this`unread, mutex, mem, taOut, ta`dev, ta.gIn
      ensures Valid() && OnceLocked(mutex) && OnlyReplyChanged(outAt) && status == GENERIC_OK
      ensures Request(inAt) == old(Request(inAt)) && inbox == unread == []
      ensures Atomic(ta.route, old(ta.dev), old(Request(inAt)), old(taOut[..]), ta.dev, Reply(outAt))
    {
      ghost var ch := AfterCall(Request(inAt), IN_BUF_LEN, fates);
      OwnReplyExactly(ta.route, Session(), Request(inAt), fates);
      status := TrustyCmd(inAt, outAt, IN_BUF_LEN, fates, OUT_BUF_LEN);
      assert Reply(outAt) == ch.unread[0];
    }

    /**
     * Two calls that show what an abandoned reply does: the application answers the first call, whose read
     * fails; the second call reports success and returns the reply to the first.
     */
    method TrustyCmdOutOfStep(inAt: nat, outAt: nat, err: int) returns (first: int, second: int)
      requires Valid() && Buffers(inAt, outAt) && inbox == unread == [] && err < 0
      modifies this`inbox, this`unread, mutex, mem, taOut, ta`dev, ta.gIn
      ensures Valid() && first == GENERIC_ERR && second == GENERIC_OK && |unread| == 1
      ensures Reply(outAt) == Routed(ta.route, old(ta.dev), old(Request(inAt)), old(taOut[..])).1
    {
      ghost var ch, request := Session(), Request(inAt);
      assert ch.unread == [];
      ServedOnce(ta.route, ch, request);
      first := TrustyCmd(inAt, outAt, IN_BUF_LEN, [Sent], err);
      ghost var owed := Session();
      ServedOnce(ta.route, owed, request);
      second := TrustyCmd(inAt, outAt, IN_BUF_LEN, [Sent], OUT_BUF_LEN);
    }
  }

  /** One request written and served at once. */
  lemma ServedOnce<D(!new)>(route: Router<D>, ch: Channel<D>, request: Buffer)
    requires ch.inbox == []
    ensures var r := Routed(route, ch.dev, request, ch.window);
      AfterWrite(route, ch, request, [Sent]) == Channel(r.0, r.1, [], ch.unread + [r.1])
  {
    var began := ch.(inbox := [request]);
    assert ch.inbox + [request] == [request];
    assert [Sent][..0] == [];
    assert ServeMany(route, began, []) == began;
  }

  // ------------------------------------------------------------------ init

  /** Where init points `in` and `out` in the device's buffer, and how much memory follows that buffer. */
  const IN_AT: nat := 0
  const OUT_AT: nat := IN_BUF_LEN
  const PERF_LEN: nat := TEE_CMD_RELEASE * 16

  /**
   * init.  `openRet` and `initRet` are what opening the platform and the transport return.  Both buffers are
   * zeroed, unlike the memory behind the transports, and satisfy what every transport asks of them: they are
   * apart, `out` lies right behind `in` as isee_cmd needs, and QSEE's rounded windows stay inside the device
   * structure.
   */
  method Init<D(!new)>(obtained: bool, openRet: int, initRet: int, dev: D, route: Router<D>, garbage: Garbage)
    returns (status: int, c: Client?<D>)
    requires Fits(route) && GarbageFits(garbage)
    ensures status == if obtained && openRet == 0 && initRet == 0 then GENERIC_OK else GENERIC_ERR
    ensures c != null <==> obtained
    ensures c != null ==>
      && c.Valid() && fresh(c) && fresh(c.mutex) && fresh(c.mem) && fresh(c.ta) && fresh(c.ta.gIn) && fresh(c.taOut)
      && c.ta.dev == dev && c.ta.route == route && c.inbox == c.unread == []
      && c.gMem[..] == garbage.gMem && c.taOut[..] == garbage.taOut
      && c.Buffers(IN_AT, OUT_AT) && OUT_AT == IN_AT + IN_BUF_LEN
      && IN_AT + QSEE_IN_LEN <= c.mem.Length && OUT_AT + QSEE_OUT_LEN <= c.mem.Length
      && c.Request(IN_AT) == seq(IN_BUF_LEN, _ => 0) && c.Reply(OUT_AT) == seq(OUT_BUF_LEN, _ => 0)
  {
    if !obtained {
      return GENERIC_ERR, null;
    }
    c := new Client(IN_BUF_LEN + OUT_BUF_LEN + PERF_LEN, dev, route, garbage);
    QseeLengths();
    if openRet != 0 || initRet != 0 {
      return GENERIC_ERR, c;
    }
    status := GENERIC_OK;
  }
}
