/**
 * What the device's mutex gives every transport: calls whose steps between lock and unlock touch shared
 * state behave, under every interleaving of any number of threads, as if each had run alone.
 */
module CriticalSection {
  import opened Common

  /** What a call does between lock and unlock: its steps, which of them may come next, and when it is through. */
  datatype Body<!S, !L, !E> = Body(
    act: (S, L, E) -> (S, L), allowed: (L, E) -> bool, begins: L -> bool, finished: L -> bool)

  datatype Thread<L, E> = Outside | Queued(start: L) | Inside(start: L, steps: seq<E>, local: L)

  /** A finished call: what it began with, the steps it made and what it ended with. */
  datatype Entry<L, E> = Entry(thread: nat, start: L, steps: seq<E>, end: L)

  datatype State<S, L, E> = State(owner: Option<nat>, threads: seq<Thread<L, E>>, shared: S, log: seq<Entry<L, E>>)

  datatype Event<L, E> = Call(i: nat, start: L) | Acquire(i: nat) | Act(i: nat, e: E) | Release(i: nat)

  predicate At<S, L, E>(s: State<S, L, E>, i: nat) {
    i < |s.threads|
  }

  ghost predicate Enabled<S, L, E>(body: Body<S, L, E>, s: State<S, L, E>, ev: Event<L, E>) {
    match ev
    case Call(i, start) => At(s, i) && s.threads[i].Outside? && body.begins(start)
    case Acquire(i) => At(s, i) && s.threads[i].Queued? && s.owner == None
    case Act(i, e) => At(s, i) && s.threads[i].Inside? && body.allowed(s.threads[i].local, e)
    case Release(i) => At(s, i) && s.threads[i].Inside? && body.finished(s.threads[i].local)
  }

  ghost function Apply<S, L, E>(body: Body<S, L, E>, s: State<S, L, E>, ev: Event<L, E>): State<S, L, E>
    requires Enabled(body, s, ev)
  {
    match ev
    case Call(i, start) => s.(threads := s.threads[i := Queued(start)])
    case Acquire(i) =>
      var start := s.threads[i].start;
      s.(threads := s.threads[i := Inside(start, [], start)], owner := Some(i))
    case Act(i, e) =>
      var t := s.threads[i];
      var r := body.act(s.shared, t.local, e);
      s.(threads := s.threads[i := Inside(t.start, t.steps + [e], r.1)], shared := r.0)
    case Release(i) =>
      var t := s.threads[i];
      s.(threads := s.threads[i := Outside], owner := None, log := s.log + [Entry(i, t.start, t.steps, t.local)])
  }

  ghost predicate Run<S, L, E>(body: Body<S, L, E>, s: State<S, L, E>, evs: seq<Event<L, E>>)
    decreases |evs|
  {
    evs == [] || (Enabled(body, s, evs[0]) && Run(body, Apply(body, s, evs[0]), evs[1..]))
  }

  ghost function Exec<S, L, E>(body: Body<S, L, E>, s: State<S, L, E>, evs: seq<Event<L, E>>): State<S, L, E>
    requires Run(body, s, evs)
    decreases |evs|
  {
    if evs == [] then s else Exec(body, Apply(body, s, evs[0]), evs[1..])
  }

  ghost predicate Init<S, L, E>(s: State<S, L, E>) {
    s.owner == None && s.log == [] && forall i | 0 <= i < |s.threads| :: s.threads[i].Outside?
  }

  // ------------------------------------------------------------------ the sequential specification

  /** The steps of one call, with nobody in between. */
  ghost function Replay<S, L, E>(body: Body<S, L, E>, shared: S, start: L, steps: seq<E>): (S, L) {
    if steps == [] then (shared, start)
    else
      var before := Replay(body, shared, start, steps[..|steps| - 1]);
      body.act(before.0, before.1, steps[|steps| - 1])
  }

  /** Every one of those steps was allowed where it was made. */
  ghost predicate Performed<S, L, E>(body: Body<S, L, E>, shared: S, start: L, steps: seq<E>) {
    steps == [] ||
    (var init := steps[..|steps| - 1];
     Performed(body, shared, start, init) && body.allowed(Replay(body, shared, start, init).1, steps[|steps| - 1]))
  }

  /** The shared state after the logged calls, one after the other. */
  ghost function After<S, L, E>(body: Body<S, L, E>, shared: S, log: seq<Entry<L, E>>): S {
    if log == [] then shared
    else
      var e := log[|log| - 1];
      Replay(body, After(body, shared, log[..|log| - 1]), e.start, e.steps).0
  }

  /** Call `e`, begun on the shared state `base`, ran alone and to its end. */
  ghost predicate Alone<S, L, E>(body: Body<S, L, E>, base: S, e: Entry<L, E>) {
    && body.begins(e.start) && Performed(body, base, e.start, e.steps)
    && e.end == Replay(body, base, e.start, e.steps).1 && body.finished(e.end)
  }

  /** What the last call of a log did to the shared state. */
  lemma AfterLast<S, L, E>(body: Body<S, L, E>, shared: S, log: seq<Entry<L, E>>, k: nat)
    requires k < |log|
    ensures After(body, shared, log[..k + 1])
            == Replay(body, After(body, shared, log[..k]), log[k].start, log[k].steps).0
  {
    assert log[..k + 1][..k] == log[..k];
  }

  ghost predicate Legal<S, L, E>(body: Body<S, L, E>, shared: S, log: seq<Entry<L, E>>) {
    forall k | 0 <= k < |log| :: Alone(body, After(body, shared, log[..k]), log[k])
  }

  // ------------------------------------------------------------------ the invariant

  ghost predicate LockInv<S, L, E>(s: State<S, L, E>) {
    && (s.owner.Some? ==> At(s, s.owner.value))
    && forall i | 0 <= i < |s.threads| :: s.threads[i].Inside? <==> s.owner == Some(i)
  }

  ghost predicate Inv<S, L, E>(body: Body<S, L, E>, shared: S, s: State<S, L, E>) {
    && LockInv(s) && Legal(body, shared, s.log)
    && (forall i | 0 <= i < |s.threads| && !s.threads[i].Outside? :: body.begins(s.threads[i].start))
    && var base := After(body, shared, s.log);
    if s.owner == None then s.shared == base
    else
      var t := s.threads[s.owner.value];
      Performed(body, base, t.start, t.steps) && (s.shared, t.local) == Replay(body, base, t.start, t.steps)
  }

  lemma ActKeepsInv<S, L, E>(body: Body<S, L, E>, shared: S, s: State<S, L, E>, i: nat, e: E)
    requires Inv(body, shared, s) && Enabled(body, s, Act(i, e))
    ensures Inv(body, shared, Apply(body, s, Act(i, e)))
  {
    var t := s.threads[i];
    assert (t.steps + [e])[..|t.steps|] == t.steps;
  }

  lemma ReleaseKeepsInv<S, L, E>(body: Body<S, L, E>, shared: S, s: State<S, L, E>, i: nat)
    requires Inv(body, shared, s) && Enabled(body, s, Release(i))
    ensures Inv(body, shared, Apply(body, s, Release(i)))
  {
    var t := s.threads[i];
    var log := Apply(body, s, Release(i)).log;
    assert log[..|s.log|] == s.log;
    forall k | 0 <= k < |log| ensures Alone(body, After(body, shared, log[..k]), log[k]) {
      if k < |s.log| {
        assert log[..k] == s.log[..k];
      }
    }
  }

  lemma ControlKeepsInv<S, L, E>(body: Body<S, L, E>, shared: S, s: State<S, L, E>, ev: Event<L, E>)
    requires Inv(body, shared, s) && Enabled(body, s, ev) && (ev.Call? || ev.Acquire?)
    ensures Inv(body, shared, Apply(body, s, ev))
  {
  }

  // ------------------------------------------------------------------ theorems

  function Count<L, E(==)>(evs: seq<Event<L, E>>, i: nat, acquire: bool): nat {
    if evs == [] then 0
    else
      (if (if acquire then evs[0].Acquire? else evs[0].Release?) && evs[0].i == i then 1 else 0) + Count(evs[1..], i, acquire)
  }

  /**
   * Mutual exclusion and serializability, for every body of calls: at most one thread is between lock and
   * unlock; each thread's locks and unlocks balance; and every finished call has the end it has when the
   * finished calls run one at a time, in the order in which they released the lock.
   */
  lemma {:induction false} Serializable<S, L, E>(body: Body<S, L, E>, shared: S, s: State<S, L, E>, evs: seq<Event<L, E>>, i: nat)
    requires Inv(body, shared, s) && Run(body, s, evs)
    ensures var t := Exec(body, s, evs);
      && Inv(body, shared, t)
      && (forall j, k | 0 <= j < |t.threads| && 0 <= k < |t.threads| && t.threads[j].Inside? && t.threads[k].Inside? :: j == k)
      && Count(evs, i, true) + (if s.owner == Some(i) then 1 else 0)
         == Count(evs, i, false) + (if t.owner == Some(i) then 1 else 0)
    decreases |evs|
  {
    if evs != [] {
      var ev := evs[0];
      match ev {
        case Act(j, e) => ActKeepsInv(body, shared, s, j, e);
        case Release(j) => ReleaseKeepsInv(body, shared, s, j);
        case _ => ControlKeepsInv(body, shared, s, ev);
      }
      Serializable(body, shared, Apply(body, s, ev), evs[1..], i);
    }
  }

  // ------------------------------------------------------------------ the log against the events

  /** What thread `i` last called with, and the steps it has made since it last took the lock. */
  function Steps<L, E>(evs: seq<Event<L, E>>, i: nat): (Option<L>, seq<E>) {
    if evs == [] then (None, [])
    else
      var before := Steps(evs[..|evs| - 1], i);
      match evs[|evs| - 1]
      case Call(j, start) => if j == i then (Some(start), before.1) else before
      case Acquire(j) => if j == i then (before.0, []) else before
      case Act(j, e) => if j == i then (before.0, before.1 + [e]) else before
      case Release(_) => before
  }

  /** Who returned, from which call and by which steps, told from the events alone. */
  function Account<L, E>(evs: seq<Event<L, E>>): seq<(nat, (Option<L>, seq<E>))> {
    if evs == [] then []
    else
      var init := evs[..|evs| - 1];
      match evs[|evs| - 1]
      case Release(i) => Account(init) + [(i, Steps(init, i))]
      case _ => Account(init)
  }

  /** A state that the events `past` explain. */
  ghost predicate Explains<S, L, E>(past: seq<Event<L, E>>, s: State<S, L, E>) {
    && |s.log| == |Account(past)|
    && (forall k | 0 <= k < |s.log| :: Account(past)[k] == (s.log[k].thread, (Some(s.log[k].start), s.log[k].steps)))
    && forall i | 0 <= i < |s.threads| :: ExplainsThread(past, s.threads[i], i)
  }

  ghost predicate ExplainsThread<L, E>(past: seq<Event<L, E>>, t: Thread<L, E>, i: nat) {
    match t
    case Outside => true
    case Queued(start) => Steps(past, i).0 == Some(start)
    case Inside(start, steps, _) => Steps(past, i) == (Some(start), steps)
  }

  lemma ExplainsStep<S, L, E>(body: Body<S, L, E>, past: seq<Event<L, E>>, s: State<S, L, E>, ev: Event<L, E>)
    requires Explains(past, s) && Enabled(body, s, ev)
    ensures Explains(past + [ev], Apply(body, s, ev))
  {
    assert (past + [ev])[..|past|] == past;
    var t := Apply(body, s, ev);
    forall i | 0 <= i < |t.threads| ensures ExplainsThread(past + [ev], t.threads[i], i) {
      assert ExplainsThread(past, s.threads[i], i);
    }
  }

  /** The log is what happened, in every run: each return is logged once, with its thread, its call and its steps. */
  lemma {:induction false} LogIsHistory<S, L, E>(body: Body<S, L, E>, past: seq<Event<L, E>>, s: State<S, L, E>, evs: seq<Event<L, E>>)
    requires Explains(past, s) && Run(body, s, evs)
    ensures var log, account := Exec(body, s, evs).log, Account(past + evs);
      && |log| == |account|
      && forall k | 0 <= k < |log| :: account[k] == (log[k].thread, (Some(log[k].start), log[k].steps))
    decreases |evs|
  {
    if evs == [] {
      assert past + evs == past;
    } else {
      ExplainsStep(body, past, s, evs[0]);
      LogIsHistory(body, past + [evs[0]], Apply(body, s, evs[0]), evs[1..]);
      assert past + [evs[0]] + evs[1..] == past + evs;
    }
  }

  lemma FreshIsExplained<S, L, E>(s: State<S, L, E>)
    requires Init(s)
    ensures Explains([], s)
  {
  }
}
