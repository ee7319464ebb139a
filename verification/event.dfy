/**
 * The cooperative event queue of lib/rhuidean/event.rb: a FIFO of named
 * events and a map from event name to the handlers registered for it, in
 * registration order.  Handlers are opaque ids; what a handler posts while
 * it runs is given by an `effect` function, so a pass of `run` can be
 * described by the trace of handler invocations it makes.
 */
module Events {
  import opened Text

  // Throughout, `effect(h, e)` is the list of events handler `h` posts when it
  // is called on `e`.

  /** Ruby's `:exit`, the event that ends the client's thread. */
  const ExitName: string := "exit"

  datatype Event<A> = Event(name: string, args: A)

  /** One invocation of a handler on a dequeued event. */
  datatype Call<H, A> = Call(handler: H, event: Event<A>)

  datatype EventQueue<H, A> = EventQueue(queue: seq<Event<A>>, handlers: map<string, seq<H>>)

  function NewQueue<H, A>(): (eq: EventQueue<H, A>)
    ensures eq.queue == [] && eq.handlers == map[]
  {
    EventQueue([], map[])
  }

  predicate Queued<A>(q: seq<Event<A>>, name: string) {
    exists i :: 0 <= i < |q| && q[i].name == name
  }

  /** No two queued events share a name. */
  predicate UniqueNames<A>(q: seq<Event<A>>) {
    forall i, j :: 0 <= i < j < |q| ==> q[i].name != q[j].name
  }

  /** `EventQueue#post`: an event whose name is already queued is dropped,
      together with its arguments; otherwise it joins the tail. */
  function Post<A>(q: seq<Event<A>>, name: string, args: A): (r: seq<Event<A>>)
    ensures Queued(r, name)
    ensures Queued(q, name) ==> r == q
    ensures !Queued(q, name) ==> |r| == |q| + 1 && r[..|q|] == q && r[|q|] == Event(name, args)
    ensures UniqueNames(q) ==> UniqueNames(r)
  {
    if Queued(q, name) then q
    else
      var r := q + [Event(name, args)];
      assert r[|q|].name == name;
      r
  }

  /** Posts `evs` one after the other. */
  function PostAll<A>(q: seq<Event<A>>, evs: seq<Event<A>>): (r: seq<Event<A>>)
    ensures q <= r
    ensures |r| <= |q| + |evs|
    ensures UniqueNames(q) ==> UniqueNames(r)
    ensures forall i :: 0 <= i < |evs| ==> Queued(r, evs[i].name)
    decreases |evs|
  {
    if |evs| == 0 then q
    else
      var q1 := Post(q, evs[0].name, evs[0].args);
      var r := PostAll(q1, evs[1..]);
      assert forall i :: 1 <= i < |evs| ==> evs[i] == evs[1..][i - 1];
      QueuedGrows(q1, r, evs[0].name);
      r
  }

  lemma QueuedGrows<A>(q: seq<Event<A>>, r: seq<Event<A>>, name: string)
    requires q <= r && Queued(q, name)
    ensures Queued(r, name)
  {
    var i :| 0 <= i < |q| && q[i].name == name;
    assert r[i] == q[i];
  }

  /** The first of several posts under one name is the one that stays
      queued; the later ones are dropped with their arguments. */
  lemma {:induction false} PostAllKeepsFirst<A>(q: seq<Event<A>>, evs: seq<Event<A>>, i: nat)
    requires UniqueNames(q) && i < |evs| && !Queued(q, evs[i].name)
    requires forall k :: 0 <= k < i ==> evs[k].name != evs[i].name
    ensures OnlyUnder(PostAll(q, evs), evs[i])
    decreases |evs|
  {
    if i == 0 {
      FirstPostStays(q, evs);
    } else {
      KeepsFirstTail(q, evs, i);
      PostAllKeepsFirst(Post(q, evs[0].name, evs[0].args), evs[1..], i - 1);
      KeepsFirstLifts(q, evs, i);
    }
  }

  /** After the first post, the rest of the events still meet the
      requirements, one index down. */
  lemma KeepsFirstTail<A>(q: seq<Event<A>>, evs: seq<Event<A>>, i: nat)
    requires UniqueNames(q) && 0 < i < |evs| && !Queued(q, evs[i].name)
    requires forall k :: 0 <= k < i ==> evs[k].name != evs[i].name
    ensures var q1 := Post(q, evs[0].name, evs[0].args);
            UniqueNames(q1) && i - 1 < |evs[1..]| && !Queued(q1, evs[1..][i - 1].name)
            && forall k :: 0 <= k < i - 1 ==> evs[1..][k].name != evs[1..][i - 1].name
  {
    NotQueuedAfter(q, evs[0], evs[i].name);
    assert evs[1..][i - 1] == evs[i];
    forall k | 0 <= k < i - 1 ensures evs[1..][k].name != evs[i].name {
      assert evs[1..][k] == evs[k + 1];
    }
  }

  lemma KeepsFirstLifts<A>(q: seq<Event<A>>, evs: seq<Event<A>>, i: nat)
    requires 0 < i < |evs|
    requires OnlyUnder(PostAll(Post(q, evs[0].name, evs[0].args), evs[1..]), evs[1..][i - 1])
    ensures OnlyUnder(PostAll(q, evs), evs[i])
  {
    PostAllStep(q, evs);
    assert evs[1..][i - 1] == evs[i];
  }

  /** A fresh first post is the only event under its name afterwards. */
  lemma FirstPostStays<A>(q: seq<Event<A>>, evs: seq<Event<A>>)
    requires UniqueNames(q) && |evs| > 0 && !Queued(q, evs[0].name)
    ensures OnlyUnder(PostAll(q, evs), evs[0])
  {
    PostAllStep(q, evs);
    var q1 := Post(q, evs[0].name, evs[0].args);
    var r := PostAll(q1, evs[1..]);
    assert q1 <= r && |q| < |q1|;
    assert r[|q|] == q1[|q|] == evs[0];
    UniqueAt(r, |q|);
  }

  /** Posting under another name does not queue `name`. */
  lemma NotQueuedAfter<A>(q: seq<Event<A>>, e: Event<A>, name: string)
    requires !Queued(q, name) && e.name != name && UniqueNames(q)
    ensures !Queued(Post(q, e.name, e.args), name) && UniqueNames(Post(q, e.name, e.args))
  {
  }

  /** `e` is the only event of `r` under its name. */
  ghost predicate OnlyUnder<A>(r: seq<Event<A>>, e: Event<A>) {
    forall j :: 0 <= j < |r| && r[j].name == e.name ==> r[j] == e
  }

  lemma PostAllStep<A>(q: seq<Event<A>>, evs: seq<Event<A>>)
    requires |evs| > 0
    ensures PostAll(q, evs) == PostAll(Post(q, evs[0].name, evs[0].args), evs[1..])
  {
  }

  lemma UniqueAt<A>(r: seq<Event<A>>, k: nat)
    requires UniqueNames(r) && k < |r|
    ensures OnlyUnder(r, r[k])
  {
  }

  function HandlersOf<H, A>(eq: EventQueue<H, A>, name: string): seq<H> {
    if name in eq.handlers then eq.handlers[name] else []
  }

  /** `EventQueue#handle`: the handler is appended to the name's list. */
  function Handle<H, A>(eq: EventQueue<H, A>, name: string, h: H): (r: EventQueue<H, A>)
    ensures r.queue == eq.queue
    ensures name in r.handlers && r.handlers[name] == HandlersOf(eq, name) + [h]
    ensures forall n :: n in eq.handlers && n != name ==> n in r.handlers && r.handlers[n] == eq.handlers[n]
    ensures r.handlers.Keys == eq.handlers.Keys + {name}
  {
    eq.(handlers := eq.handlers[name := HandlersOf(eq, name) + [h]])
  }

  /** `EventQueue#needs_ran?`. */
  function NeedsRan<H, A>(eq: EventQueue<H, A>): (r: bool)
    ensures r <==> eq.queue != []
  {
    |eq.queue| > 0
  }

  /** The calls made when the handlers `hs` run on `e`, in order. */
  function Calls<H, A>(hs: seq<H>, e: Event<A>): (r: seq<Call<H, A>>)
    ensures |r| == |hs|
    ensures forall i :: 0 <= i < |hs| ==> r[i] == Call(hs[i], e)
  {
    seq(|hs|, i requires 0 <= i < |hs| => Call(hs[i], e))
  }

  /** `@handlers[e.event].each { |block| block.call(*e.args) }`: the handlers
      run in registration order, and whatever each posts goes through `post`. */
  function Invoke<H, A>(hs: seq<H>, e: Event<A>, effect: (H, Event<A>) -> seq<Event<A>>, q: seq<Event<A>>)
    : (r: (seq<Event<A>>, seq<Call<H, A>>))
    ensures r.1 == Calls(hs, e)
    ensures q <= r.0
    ensures UniqueNames(q) ==> UniqueNames(r.0)
    ensures (forall i :: 0 <= i < |hs| ==> effect(hs[i], e) == []) ==> r.0 == q
    decreases |hs|
  {
    if |hs| == 0 then (q, [])
    else
      var q1 := PostAll(q, effect(hs[0], e));
      var rest := Invoke(hs[1..], e, effect, q1);
      CallsCons(hs, e, rest.1);
      SilentTail(hs, e, effect);
      (rest.0, [Call(hs[0], e)] + rest.1)
  }

  lemma CallsCons<H, A>(hs: seq<H>, e: Event<A>, tail: seq<Call<H, A>>)
    requires |hs| > 0 && tail == Calls(hs[1..], e)
    ensures [Call(hs[0], e)] + tail == Calls(hs, e)
  {
    var r := [Call(hs[0], e)] + tail;
    forall i | 1 <= i < |hs| ensures r[i] == Call(hs[i], e) {
      assert hs[1..][i - 1] == hs[i];
    }
  }

  /** When no handler posts anything, neither does the first one nor any of
      the rest. */
  lemma SilentTail<H, A>(hs: seq<H>, e: Event<A>, effect: (H, Event<A>) -> seq<Event<A>>)
    requires |hs| > 0
    ensures (forall i :: 0 <= i < |hs| ==> effect(hs[i], e) == []) ==>
              effect(hs[0], e) == [] && forall i :: 0 <= i < |hs[1..]| ==> effect(hs[1..][i], e) == []
  {
    if forall i :: 0 <= i < |hs| ==> effect(hs[i], e) == [] {
      forall i | 0 <= i < |hs[1..]| ensures effect(hs[1..][i], e) == [] {
        assert hs[1..][i] == hs[i + 1];
      }
    }
  }

  /** The handlers of every call are registered for the call's event. */
  ghost predicate Registered<H, A>(handlers: map<string, seq<H>>, trace: seq<Call<H, A>>) {
    forall i :: 0 <= i < |trace| ==>
      trace[i].event.name in handlers && trace[i].handler in handlers[trace[i].event.name]
  }

  predicate NoExitCalls<H, A>(trace: seq<Call<H, A>>) {
    forall i :: 0 <= i < |trace| ==> trace[i].event.name != ExitName
  }

  /** Calls on `:exit` come after every other call, and all of them receive
      the same exit event. */
  ghost predicate ExitCallsLast<H, A>(trace: seq<Call<H, A>>) {
    && (forall i, j :: 0 <= i < j < |trace| && trace[i].event.name == ExitName ==> trace[j].event.name == ExitName)
    && (forall i, j :: 0 <= i < j < |trace| && trace[i].event.name == ExitName ==> trace[j].event == trace[i].event)
  }

  /** What the `while e = @queue.shift` loop of `run` leaves: the calls it
      made and the last handled `:exit` it set aside.  The queue itself is
      empty when the loop ends. */
  datatype Pass<H, A> = Pass(trace: seq<Call<H, A>>, exit: Option<Event<A>>)

  /** The loop of `EventQueue#run` (lib/rhuidean/event.rb:92-103).  An event
      with no handler entry is dropped; a handled `:exit` is set aside, a later
      one replacing an earlier one; any other event runs its handlers.  Handlers
      may keep posting, so a pass need not end: `fuel` bounds the number of
      events dequeued and `None` means it ran out. */
  function Drain<H, A>(handlers: map<string, seq<H>>, effect: (H, Event<A>) -> seq<Event<A>>, q: seq<Event<A>>, fuel: nat)
    : (r: Option<Pass<H, A>>)
    ensures r.Some? ==> NoExitCalls(r.value.trace) && Registered(handlers, r.value.trace)
    ensures r.Some? && r.value.exit.Some? ==> r.value.exit.value.name == ExitName && ExitName in handlers
    decreases fuel
  {
    if |q| == 0 then Some(Pass([], None))
    else if fuel == 0 then None
    else
      var e := q[0];
      if e.name !in handlers then Drain(handlers, effect, q[1..], fuel - 1)
      else if e.name == ExitName then
        match Drain(handlers, effect, q[1..], fuel - 1)
        case None => None
        case Some(p) => Some(if p.exit.Some? then p else Pass(p.trace, Some(e)))
      else
        var (q', calls) := Invoke(handlers[e.name], e, effect, q[1..]);
        match Drain(handlers, effect, q', fuel - 1)
        case None => None
        case Some(p) =>
          assert Registered(handlers, calls);
          Some(Pass(calls + p.trace, p.exit))
  }

  datatype RunResult<H, A> = RunResult(eq: EventQueue<H, A>, trace: seq<Call<H, A>>)

  /** `EventQueue#run`: drain the queue, then run the `:exit` handlers on the
      exit event that was set aside.  Events the exit handlers post stay queued. */
  function Run<H, A>(eq: EventQueue<H, A>, effect: (H, Event<A>) -> seq<Event<A>>, fuel: nat): (r: Option<RunResult<H, A>>)
    ensures r.Some? ==> r.value.eq.handlers == eq.handlers
    ensures r.Some? ==> Registered(eq.handlers, r.value.trace) && ExitCallsLast(r.value.trace)
    ensures r.Some? ==>
              ((forall i :: 0 <= i < |r.value.trace| && r.value.trace[i].event.name == ExitName
                  ==> effect(r.value.trace[i].handler, r.value.trace[i].event) == [])
               ==> r.value.eq.queue == [])
  {
    match Drain(eq.handlers, effect, eq.queue, fuel)
    case None => None
    case Some(p) =>
      if p.exit.None? then Some(RunResult(eq.(queue := []), p.trace))
      else
        var x := p.exit.value;
        var hs := eq.handlers[ExitName];
        var (q', calls) := Invoke(hs, x, effect, []);
        var trace := p.trace + calls;
        assert forall i :: 0 <= i < |hs| ==> trace[|p.trace| + i] == Call(hs[i], x);
        assert forall i :: 0 <= i < |trace| ==> (trace[i].event.name == ExitName <==> i >= |p.trace|);
        Some(RunResult(eq.(queue := q'), trace))
  }

  // ---------------------------------------------------------------------
  // Reference behaviour when no handler posts anything

  /** The calls a pass over `q` makes for its non-exit events when handlers
      post nothing: every handled event, in queue order, runs all its handlers. */
  function ExpectedCalls<H, A>(handlers: map<string, seq<H>>, q: seq<Event<A>>): seq<Call<H, A>>
    decreases |q|
  {
    if |q| == 0 then []
    else
      var e := q[0];
      (if e.name in handlers && e.name != ExitName then Calls(handlers[e.name], e) else [])
        + ExpectedCalls(handlers, q[1..])
  }

  /** The last `:exit` event in `q`, if `:exit` has a handler entry. */
  function LastHandledExit<H, A>(handlers: map<string, seq<H>>, q: seq<Event<A>>): (r: Option<Event<A>>)
    ensures r.Some? ==> r.value in q && r.value.name == ExitName && ExitName in handlers
    decreases |q|
  {
    if |q| == 0 then None
    else match LastHandledExit(handlers, q[1..])
      case Some(x) => Some(x)
      case None => if q[0].name == ExitName && ExitName in handlers then Some(q[0]) else None
  }

  function ExpectedTrace<H, A>(eq: EventQueue<H, A>): seq<Call<H, A>> {
    ExpectedCalls(eq.handlers, eq.queue) +
      match LastHandledExit(eq.handlers, eq.queue)
      case None => []
      case Some(x) => Calls(eq.handlers[ExitName], x)
  }

  lemma {:induction false} DrainSilent<H, A>(handlers: map<string, seq<H>>, effect: (H, Event<A>) -> seq<Event<A>>, q: seq<Event<A>>, fuel: nat)
    requires forall h, e :: effect(h, e) == []
    requires fuel >= |q|
    ensures Drain(handlers, effect, q, fuel) == Some(Pass(ExpectedCalls(handlers, q), LastHandledExit(handlers, q)))
    decreases |q|
  {
    if |q| > 0 {
      var e := q[0];
      DrainSilent(handlers, effect, q[1..], fuel - 1);
      var rest := Drain(handlers, effect, q[1..], fuel - 1);
      if e.name in handlers && e.name != ExitName {
        var hs := handlers[e.name];
        assert forall i :: 0 <= i < |hs| ==> effect(hs[i], e) == [];
        assert Invoke(hs, e, effect, q[1..]) == (q[1..], Calls(hs, e));
        assert ExpectedCalls(handlers, q) == Calls(hs, e) + ExpectedCalls(handlers, q[1..]);
        assert Drain(handlers, effect, q, fuel) == Some(Pass(Calls(hs, e) + rest.value.trace, rest.value.exit));
      } else {
        assert ExpectedCalls(handlers, q) == ExpectedCalls(handlers, q[1..]);
      }
    }
  }

  /** With handlers that post nothing, one `run` dispatches the queued events
      in FIFO order, each to all its handlers in registration order with the
      event's own arguments, drops events that have no handler entry, runs
      the `:exit` handlers last on the last queued `:exit`, and leaves the
      queue empty. */
  lemma RunSilent<H, A>(eq: EventQueue<H, A>, effect: (H, Event<A>) -> seq<Event<A>>, fuel: nat)
    requires forall h, e :: effect(h, e) == []
    requires fuel >= |eq.queue|
    ensures Run(eq, effect, fuel) == Some(RunResult(eq.(queue := []), ExpectedTrace(eq)))
  {
    DrainSilent(eq.handlers, effect, eq.queue, fuel);
    var calls := ExpectedCalls(eq.handlers, eq.queue);
    var x := LastHandledExit(eq.handlers, eq.queue);
    if x.Some? {
      var hs := eq.handlers[ExitName];
      assert forall i :: 0 <= i < |hs| ==> effect(hs[i], x.value) == [];
      assert Invoke(hs, x.value, effect, []) == ([], Calls(hs, x.value));
      assert ExpectedTrace(eq) == calls + Calls(hs, x.value);
      assert Run(eq, effect, fuel) == Some(RunResult(eq.(queue := []), calls + Calls(hs, x.value)));
    } else {
      assert ExpectedTrace(eq) == calls + [];
      assert calls + [] == calls;
      assert Run(eq, effect, fuel) == Some(RunResult(eq.(queue := []), calls));
    }
  }

  /** Posting a fresh name after `handle` and running once calls the new
      handler after the earlier ones, on the posted arguments. */
  lemma HandleThenRun<H, A>(eq: EventQueue<H, A>, name: string, h: H, args: A, effect: (H, Event<A>) -> seq<Event<A>>)
    requires forall g, e :: effect(g, e) == []
    requires eq.queue == [] && name != ExitName
    ensures var eq1 := Handle(eq, name, h);
            var eq2 := eq1.(queue := Post(eq1.queue, name, args));
            Run(eq2, effect, 1) == Some(RunResult(eq1, Calls(HandlersOf(eq, name) + [h], Event(name, args))))
  {
    var eq1 := Handle(eq, name, h);
    var eq2 := eq1.(queue := Post(eq1.queue, name, args));
    assert eq2.queue == [Event(name, args)];
    RunSilent(eq2, effect, 1);
    var calls := Calls(HandlersOf(eq, name) + [h], Event(name, args));
    assert ExpectedCalls(eq2.handlers, eq2.queue[1..]) == [];
    assert ExpectedCalls(eq2.handlers, eq2.queue) == calls + [];
    assert LastHandledExit(eq2.handlers, eq2.queue) == None;
    assert ExpectedTrace(eq2) == calls + [] + [];
    assert calls + [] + [] == calls;
  }
}
