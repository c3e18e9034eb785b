/**
 * The Trusty event loop: accepting a connection, then serving messages.  In the source the handler is
 * passed by value, so trusty_accept cannot install trusty_router; `passesBack` tells that program
 * (false) from the one that was meant (true).
 */
module TrustyEvents {
  import opened Common
  import opened Transports

  /** One return of wait_any, with the results of every call its handling can make. */
  datatype Event = Event(
    wait: int, ready: bool, msg: bool,
    accept: int, getMsg: int, payload: Buffer, read: int, putMsg: int, sendMsg: int)

  datatype Handler = Accepting | Routing

  /** A reply that was attempted, and whether send_msg took it. */
  datatype Reply = Reply(bytes: Buffer, sent: bool)

  /** The application's buffers and device state, its replies, and the messages it has got but not put back. */
  datatype Server<!D> = Server(dev: D, gIn: Buffer, gOut: Buffer, replies: seq<Reply>, held: nat)

  /** A read yields bytes of the message, and messages are at most as long as the request buffer. */
  predicate EventFits(ev: Event) {
    |ev.payload| <= IN_BUF_LEN && ev.read <= |ev.payload|
  }

  predicate AllFit(evs: seq<Event>) {
    forall k | 0 <= k < |evs| :: EventFits(evs[k])
  }

  /** A correctly sized message that was got, read and put back. */
  predicate Serviceable(ev: Event) {
    ev.msg && ev.getMsg == 0 && ev.read == IN_BUF_LEN && ev.putMsg == 0
  }

  predicate Accepted(ev: Event) {
    ev.ready && 0 <= ev.accept
  }

  // ------------------------------------------------------------------ specification by events

  /** trusty_router on one event. */
  function Route<D(!new)>(route: Router<D>, s: Server<D>, ev: Event): (t: Server<D>)
    requires EventFits(ev) && |s.gIn| == IN_BUF_LEN
    ensures |t.gIn| == IN_BUF_LEN
  {
    if !ev.msg || ev.getMsg != 0 then s
    else
      var n := if ev.read < 0 then 0 else ev.read;
      var got := s.(gIn := ev.payload[..n] + s.gIn[n..]);
      if ev.read != IN_BUF_LEN || ev.putMsg != 0 then got.(held := s.held + 1)
      else
        var r := Routed(route, s.dev, got.gIn, s.gOut);
        got.(dev := r.0, gOut := r.1, replies := s.replies + [Reply(r.1, 0 <= ev.sendMsg)])
  }

  /** The whole loop up to the first failing wait: the handler it ends with, and what it has served. */
  function Run<D(!new)>(route: Router<D>, passesBack: bool, s: Server<D>, evs: seq<Event>): (r: (Handler, Server<D>))
    requires AllFit(evs) && |s.gIn| == IN_BUF_LEN
    ensures |r.1.gIn| == IN_BUF_LEN
  {
    if evs == [] then (Accepting, s)
    else
      var before := Run(route, passesBack, s, evs[..|evs| - 1]);
      var ev := evs[|evs| - 1];
      match before.0
      case Accepting => (if passesBack && Accepted(ev) then Routing else Accepting, before.1)
      case Routing => (Routing, Route(route, before.1, ev))
  }

  /** The events in front of the first wait that fails. */
  function Waited(evs: seq<Event>): (w: seq<Event>)
    ensures |w| <= |evs| && w == evs[..|w|]
    ensures forall k | 0 <= k < |w| :: w[k].wait == 0
    ensures |w| < |evs| ==> evs[|w|].wait != 0
  {
    if evs == [] || evs[0].wait != 0 then [] else [evs[0]] + Waited(evs[1..])
  }

  // ------------------------------------------------------------------ specification by messages

  /** The serviceable messages after the first accepted connection, with whether their reply was taken. */
  function Requests(evs: seq<Event>): (requests: seq<(Buffer, bool)>)
    requires AllFit(evs)
    ensures Sized(requests)
  {
    if evs == [] then []
    else
      var init, ev := evs[..|evs| - 1], evs[|evs| - 1];
      if Connected(init) && Serviceable(ev) then Requests(init) + [(ev.payload[..IN_BUF_LEN], 0 <= ev.sendMsg)]
      else Requests(init)
  }

  /**
   * One event at a time: an event adds a request exactly if some event before it was ready and accepted, and it
   * brought a message that was got, read in full and put back.
   */
  lemma {:induction false} RequestsExactly(evs: seq<Event>, ev: Event)
    requires AllFit(evs) && EventFits(ev)
    ensures AllFit(evs + [ev]) && Requests([]) == []
    ensures Requests(evs + [ev]) == Requests(evs) +
            if (exists k :: 0 <= k < |evs| && evs[k].ready && 0 <= evs[k].accept)
               && ev.msg && ev.getMsg == 0 && ev.read == 32816 && ev.putMsg == 0
            then [(ev.payload[..32816], 0 <= ev.sendMsg)] else []
  {
    assert forall k | 0 <= k < |evs| :: (evs + [ev])[k] == evs[k];
    assert (evs + [ev])[|evs|] == ev && (evs + [ev])[..|evs|] == evs;
    if Connected(evs) {
      var k :| 0 <= k < |evs| && Accepted(evs[k]);
      assert evs[k].ready && 0 <= evs[k].accept;
    }
    if k :| 0 <= k < |evs| && evs[k].ready && 0 <= evs[k].accept {
      assert Accepted(evs[k]);
    }
  }

  predicate Sized(requests: seq<(Buffer, bool)>) {
    forall k | 0 <= k < |requests| :: |requests[k].0| == IN_BUF_LEN
  }

  predicate Connected(evs: seq<Event>) {
    exists k :: 0 <= k < |evs| && Accepted(evs[k])
  }

  /** Device state and reply buffer after serving the requests in order, one router call each. */
  function Served<D(!new)>(route: Router<D>, d0: D, o0: Buffer, requests: seq<(Buffer, bool)>): (D, Buffer) {
    if requests == [] then (d0, o0)
    else
      var before := Served(route, d0, o0, requests[..|requests| - 1]);
      Routed(route, before.0, requests[|requests| - 1].0, before.1)
  }

  /** The `k`-th reply carries what the router returned for the `k`-th request, given all before it. */
  ghost predicate Answers<D(!new)>(route: Router<D>, d0: D, o0: Buffer, requests: seq<(Buffer, bool)>, replies: seq<Reply>) {
    && |replies| == |requests|
    && forall k | 0 <= k < |replies| ::
         replies[k] == Reply(Served(route, d0, o0, requests[..k + 1]).1, requests[k].1)
  }

  // ------------------------------------------------------------------ theorems

  lemma ConnectedLast(evs: seq<Event>)
    requires evs != []
    ensures Connected(evs) <==> Connected(evs[..|evs| - 1]) || Accepted(evs[|evs| - 1])
  {
    var init := evs[..|evs| - 1];
    if Connected(init) {
      var k :| 0 <= k < |init| && Accepted(init[k]);
      assert Accepted(evs[k]);
    }
    if Connected(evs) {
      var k :| 0 <= k < |evs| && Accepted(evs[k]);
      if k < |init| {
        assert Accepted(init[k]);
      }
    }
  }

  lemma AnswersNext<D(!new)>(route: Router<D>, d0: D, o0: Buffer, requests: seq<(Buffer, bool)>, replies: seq<Reply>,
                             next: (Buffer, bool), reply: Reply)
    requires Answers(route, d0, o0, requests, replies)
    requires reply == Reply(Served(route, d0, o0, requests + [next]).1, next.1)
    ensures Answers(route, d0, o0, requests + [next], replies + [reply])
  {
    var all := requests + [next];
    forall k | 0 <= k < |all|
      ensures (replies + [reply])[k] == Reply(Served(route, d0, o0, all[..k + 1]).1, all[k].1)
    {
      if k < |requests| {
        assert all[..k + 1] == requests[..k + 1];
      } else {
        assert all[..k + 1] == all;
      }
    }
  }

  /**
   * The intended program: over any event sequence, every correctly sized message that is got, read and put
   * back after a connection was accepted gets exactly one reply attempt, in order of arrival, carrying the
   * router's result for that message in the state the earlier ones left; nothing else is ever replied to.
   */
  lemma {:induction false} EachMessageAnsweredOnce<D(!new)>(route: Router<D>, s: Server<D>, evs: seq<Event>)
    requires AllFit(evs) && |s.gIn| == IN_BUF_LEN && s.replies == []
    ensures var r := Run(route, true, s, evs);
      && (r.0 == Routing <==> Connected(evs))
      && Answers(route, s.dev, s.gOut, Requests(evs), r.1.replies)
      && (r.1.dev, r.1.gOut) == Served(route, s.dev, s.gOut, Requests(evs))
    decreases |evs|
  {
    if evs != [] {
      var init, ev := evs[..|evs| - 1], evs[|evs| - 1];
      EachMessageAnsweredOnce(route, s, init);
      ConnectedLast(evs);
      var before := Run(route, true, s, init).1;
      if Connected(init) && Serviceable(ev) {
        var next := (ev.payload[..IN_BUF_LEN], 0 <= ev.sendMsg);
        var got := ev.payload[..IN_BUF_LEN] + before.gIn[IN_BUF_LEN..];
        assert got == ev.payload[..IN_BUF_LEN];
        assert (Requests(init) + [next])[..|Requests(init)|] == Requests(init);
        AnswersNext(route, s.dev, s.gOut, Requests(init), before.replies, next,
                    Reply(Served(route, s.dev, s.gOut, Requests(evs)).1, next.1));
      }
    }
  }

  /** The program as it stands never leaves the accepting state, serves nothing and replies to nothing. */
  lemma {:induction false} AsWrittenServesNothing<D(!new)>(route: Router<D>, s: Server<D>, evs: seq<Event>)
    requires AllFit(evs) && |s.gIn| == IN_BUF_LEN
    ensures Run(route, false, s, evs) == (Accepting, s)
    decreases |evs|
  {
    if evs != [] {
      AsWrittenServesNothing(route, s, evs[..|evs| - 1]);
    }
  }

  /** It therefore does what was meant exactly for the event sequences that contain nothing to serve. */
  lemma AsWrittenAnswersExactly<D(!new)>(route: Router<D>, s: Server<D>, evs: seq<Event>)
    requires AllFit(evs) && |s.gIn| == IN_BUF_LEN && s.replies == []
    ensures Run(route, false, s, evs).1.replies == Run(route, true, s, evs).1.replies <==> Requests(evs) == []
  {
    AsWrittenServesNothing(route, s, evs);
    EachMessageAnsweredOnce(route, s, evs);
  }

  /** A message the loop got and did not put back: one of the wrong size, or whose put failed. */
  predicate Kept(ev: Event) {
    ev.msg && ev.getMsg == 0 && (ev.read != IN_BUF_LEN || ev.putMsg != 0)
  }

  function CountKept(evs: seq<Event>): nat {
    if evs == [] then 0
    else
      var init := evs[..|evs| - 1];
      CountKept(init) + if Connected(init) && Kept(evs[|evs| - 1]) then 1 else 0
  }

  /** Every message got is answered or held for good: the return after a wrong size skips the put. */
  lemma {:induction false} MessagesHeldExactly<D(!new)>(route: Router<D>, s: Server<D>, evs: seq<Event>)
    requires AllFit(evs) && |s.gIn| == IN_BUF_LEN && s.replies == []
    ensures Run(route, true, s, evs).1.held == s.held + CountKept(evs)
    decreases |evs|
  {
    if evs != [] {
      var init := evs[..|evs| - 1];
      MessagesHeldExactly(route, s, init);
      EachMessageAnsweredOnce(route, s, init);
    }
  }

  // ------------------------------------------------------------------ the code

  class TrustyTa<D(!new)> {
    const route: Router<D>
    var dev: D
    const gIn: array<byte>
    const gOut: array<byte>
    var replies: seq<Reply>
    var held: nat

    ghost predicate Valid() reads this {
      gIn.Length == IN_BUF_LEN && gOut.Length == OUT_BUF_LEN && gIn != gOut && Fits(route)
    }

    ghost function State(): Server<D> reads this, gIn, gOut {
      Server(dev, gIn[..], gOut[..], replies, held)
    }

    /** Both buffers lie in memory that is allocated and not cleared. */
    constructor (route: Router<D>, dev: D, in0: Buffer, out0: Buffer)
      requires Fits(route) && |in0| == IN_BUF_LEN && |out0| == OUT_BUF_LEN
      ensures Valid() && fresh(gIn) && fresh(gOut) && this.route == route && State() == Server(dev, in0, out0, [], 0)
    {
      this.route, this.dev, replies, held := route, dev, [], 0;
      gIn := new byte[IN_BUF_LEN](i requires 0 <= i < |in0| => in0[i]);
      gOut := new byte[OUT_BUF_LEN](i requires 0 <= i < |out0| => out0[i]);
    }

    /** read_msg into g_in: `read` bytes of the message arrive. */
    method ReadMsg(ev: Event) returns (rc: int)
      requires Valid() && EventFits(ev)
      modifies gIn
      ensures rc == ev.read
      ensures var n := if ev.read < 0 then 0 else ev.read; gIn[..] == ev.payload[..n] + old(gIn[..])[n..]
    {
      rc := ev.read;
      forall k | 0 <= k < rc {
        gIn[k] := ev.payload[k];
      }
    }

    method TrustyRouter(ev: Event)
      requires Valid() && EventFits(ev)
      modifies this`dev, this`replies, this`held, gIn, gOut
      ensures Valid() && State() == Route(route, old(State()), ev)
      ensures replies == old(replies) +
        if ev.msg && ev.getMsg == 0 && ev.read == 32816 && ev.putMsg == 0 then [Reply(gOut[..], 0 <= ev.sendMsg)] else []
      ensures held == old(held) + if ev.msg && ev.getMsg == 0 && (ev.read != 32816 || ev.putMsg != 0) then 1 else 0
      ensures ev.msg && ev.getMsg == 0 && ev.read == 32816 && ev.putMsg == 0 ==>
        (dev, gOut[..]) == route(old(dev), ev.payload[..32816], old(gOut[..]))
    {
      if !ev.msg {
        return;
      }
      if ev.getMsg != 0 {
        return;
      }
      held := held + 1;
      var rc := ReadMsg(ev);
      if rc != IN_BUF_LEN {
        return;
      }
      if ev.putMsg != 0 {
        return;
      }
      held := held - 1;
      assert gIn[..] == ev.payload[..32816];
      var r := Routed(route, dev, gIn[..], gOut[..]);
      dev := r.0;
      forall k | 0 <= k < OUT_BUF_LEN {
        gOut[k] := r.1[k];
      }
      assert gOut[..] == r.1;
      replies := replies + [Reply(gOut[..], 0 <= ev.sendMsg)];
    }

    /** trusty_accept: the handler it settles on, which its caller may or may not learn. */
    method TrustyAccept(ev: Event) returns (h: Handler)
      ensures h == if ev.ready && 0 <= ev.accept then Routing else Accepting
    {
      h := Accepting;
      if ev.ready {
        if 0 <= ev.accept {
          h := Routing;
        }
      }
    }

    method MainLoop(evs: seq<Event>, passesBack: bool) returns (h: Handler)
      requires Valid() && AllFit(evs)
      modifies this`dev, this`replies, this`held, gIn, gOut
      ensures Valid() && (h, State()) == Run(route, passesBack, old(State()), Waited(evs))
    {
      h := Accepting;
      var i := 0;
      ghost var start, w := State(), Waited(evs);
      while i < |evs| && evs[i].wait == 0
        invariant 0 <= i <= |w| && Valid()
        invariant (h, State()) == Run(route, passesBack, start, w[..i])
      {
        assert i < |w| && w[..i + 1][..i] == w[..i];
        match h {
          case Accepting =>
            var installed := TrustyAccept(evs[i]);
            if passesBack {
              h := installed;
            }
          case Routing =>
            TrustyRouter(evs[i]);
        }
        i := i + 1;
      }
      assert w[..i] == w;
    }
  }
}
