/**
 * The older event queue of lib/irc/event.rb.  `post`, `handle` and
 * `needs_ran?` are the same code as in the rhuidean copy and are shared with
 * module Events; `run` differs in how it treats `:exit`: a handled `:exit`
 * that still has events behind it is put back at the tail and the pass ends
 * at once, so exit handlers only ever run on an `:exit` that was last.
 */
module LegacyEvents {
  import opened Text
  import opened Events

  datatype LegacyPass<H, A> = LegacyPass(queue: seq<Event<A>>, trace: seq<Call<H, A>>)

  /** The loop of the legacy `EventQueue#run` (lib/irc/event.rb:96-107);
      `fuel` bounds the number of events dequeued. */
  function DrainLegacy<H, A>(handlers: map<string, seq<H>>, effect: (H, Event<A>) -> seq<Event<A>>,
                             q: seq<Event<A>>, fuel: nat): (r: Option<LegacyPass<H, A>>)
    ensures r.Some? ==> Registered(handlers, r.value.trace)
    ensures r.Some? && r.value.queue != [] ==> Last(r.value.queue).name == ExitName && ExitName in handlers
    decreases fuel
  {
    if |q| == 0 then Some(LegacyPass([], []))
    else if fuel == 0 then None
    else
      var e := q[0];
      if e.name !in handlers then DrainLegacy(handlers, effect, q[1..], fuel - 1)
      else if e.name == ExitName && |q| > 1 then Some(LegacyPass(q[1..] + [e], []))
      else
        var (q', calls) := Invoke(handlers[e.name], e, effect, q[1..]);
        match DrainLegacy(handlers, effect, q', fuel - 1)
        case None => None
        case Some(p) =>
          assert Registered(handlers, calls);
          Some(LegacyPass(p.queue, calls + p.trace))
  }

  /** Legacy `EventQueue#run`.  A handled `:exit` at the head with other
      events behind it goes back to the tail, and nothing runs. */
  function RunLegacy<H, A>(eq: EventQueue<H, A>, effect: (H, Event<A>) -> seq<Event<A>>, fuel: nat)
    : (r: Option<RunResult<H, A>>)
    ensures r.Some? ==> r.value.eq.handlers == eq.handlers && Registered(eq.handlers, r.value.trace)
    ensures r.Some? && r.value.eq.queue != [] ==> Last(r.value.eq.queue).name == ExitName
    ensures (|eq.queue| > 1 && eq.queue[0].name == ExitName && ExitName in eq.handlers && fuel > 0)
              ==> r == Some(RunResult(eq.(queue := eq.queue[1..] + [eq.queue[0]]), []))
  {
    match DrainLegacy(eq.handlers, effect, eq.queue, fuel)
    case None => None
    case Some(p) => Some(RunResult(eq.(queue := p.queue), p.trace))
  }

  // ---------------------------------------------------------------------
  // Reference behaviour when no handler posts anything

  predicate HandledExit<H, A>(handlers: map<string, seq<H>>, e: Event<A>) {
    e.name == ExitName && ExitName in handlers
  }

  /** Every handled event of `q`, `:exit` included, runs all its handlers. */
  function HandledCalls<H, A>(handlers: map<string, seq<H>>, q: seq<Event<A>>): seq<Call<H, A>>
    decreases |q|
  {
    if |q| == 0 then []
    else (if q[0].name in handlers then Calls(handlers[q[0].name], q[0]) else []) + HandledCalls(handlers, q[1..])
  }

  /** The first handled `:exit` that is not the last queued event. */
  function FirstEarlyExit<H, A>(handlers: map<string, seq<H>>, q: seq<Event<A>>): (r: Option<nat>)
    ensures r.Some? ==> r.value < |q| - 1 && HandledExit(handlers, q[r.value])
    ensures r.Some? ==> forall j :: 0 <= j < r.value ==> !HandledExit(handlers, q[j])
    ensures r.None? ==> forall j :: 0 <= j < |q| - 1 ==> !HandledExit(handlers, q[j])
    decreases |q|
  {
    if |q| <= 1 then None
    else if HandledExit(handlers, q[0]) then Some(0)
    else match FirstEarlyExit(handlers, q[1..])
      case None => None
      case Some(i) => Some(i + 1)
  }

  /** One legacy pass with silent handlers: everything before the first
      early `:exit` is dispatched and that `:exit` moves behind the rest;
      with no early `:exit` the whole queue is dispatched. */
  function LegacyExpected<H, A>(eq: EventQueue<H, A>): RunResult<H, A> {
    match FirstEarlyExit(eq.handlers, eq.queue)
    case None => RunResult(eq.(queue := []), HandledCalls(eq.handlers, eq.queue))
    case Some(i) =>
      RunResult(eq.(queue := eq.queue[i + 1..] + [eq.queue[i]]), HandledCalls(eq.handlers, eq.queue[..i]))
  }

  lemma {:induction false} DrainLegacySilent<H, A>(handlers: map<string, seq<H>>, effect: (H, Event<A>) -> seq<Event<A>>,
                                                 q: seq<Event<A>>, fuel: nat)
    requires forall h, e :: effect(h, e) == []
    requires fuel >= |q|
    ensures DrainLegacy(handlers, effect, q, fuel) ==
              match FirstEarlyExit(handlers, q)
              case None => Some(LegacyPass([], HandledCalls(handlers, q)))
              case Some(i) => Some(LegacyPass(q[i + 1..] + [q[i]], HandledCalls(handlers, q[..i])))
    decreases |q|
  {
    if |q| > 0 {
      var e := q[0];
      if HandledExit(handlers, e) && |q| > 1 {
        assert FirstEarlyExit(handlers, q) == Some(0);
        assert HandledCalls(handlers, q[..0]) == [];
      } else {
        DrainLegacySilent(handlers, effect, q[1..], fuel - 1);
        DrainSilentHead(handlers, effect, q, fuel);
        EarlyExitTail(handlers, q);
      }
    }
  }

  /** The calls the handlers of one event make when they post nothing. */
  function HeadCalls<H, A>(handlers: map<string, seq<H>>, e: Event<A>): seq<Call<H, A>> {
    if e.name in handlers then Calls(handlers[e.name], e) else []
  }

  /** Dequeuing an event that is not an early `:exit` adds its handlers'
      calls in front of the rest of the pass. */
  lemma DrainSilentHead<H, A>(handlers: map<string, seq<H>>, effect: (H, Event<A>) -> seq<Event<A>>,
                              q: seq<Event<A>>, fuel: nat)
    requires forall h, e :: effect(h, e) == []
    requires 0 < |q| && 0 < fuel && !(HandledExit(handlers, q[0]) && |q| > 1)
    requires DrainLegacy(handlers, effect, q[1..], fuel - 1).Some?
    ensures var rest := DrainLegacy(handlers, effect, q[1..], fuel - 1).value;
            DrainLegacy(handlers, effect, q, fuel) == Some(LegacyPass(rest.queue, HeadCalls(handlers, q[0]) + rest.trace))
    ensures HandledCalls(handlers, q) == HeadCalls(handlers, q[0]) + HandledCalls(handlers, q[1..])
  {
    var e := q[0];
    var rest := DrainLegacy(handlers, effect, q[1..], fuel - 1).value;
    if e.name in handlers {
      var hs := handlers[e.name];
      assert forall i :: 0 <= i < |hs| ==> effect(hs[i], e) == [];
      assert Invoke(hs, e, effect, q[1..]) == (q[1..], Calls(hs, e));
    } else {
      assert HeadCalls(handlers, e) + rest.trace == rest.trace;
    }
  }

  /** Past a first event that is not an early `:exit`, the first early
      `:exit` and the slices around it shift by one. */
  lemma EarlyExitTail<H, A>(handlers: map<string, seq<H>>, q: seq<Event<A>>)
    requires 0 < |q| && !(HandledExit(handlers, q[0]) && |q| > 1)
    ensures FirstEarlyExit(handlers, q[1..]).None? ==> FirstEarlyExit(handlers, q).None?
    ensures FirstEarlyExit(handlers, q[1..]).Some? ==>
              var i := FirstEarlyExit(handlers, q[1..]).value;
              FirstEarlyExit(handlers, q) == Some(i + 1) && q[i + 1] == q[1..][i] && q[i + 2..] == q[1..][i + 1..]
              && HandledCalls(handlers, q[..i + 1]) == HeadCalls(handlers, q[0]) + HandledCalls(handlers, q[1..][..i])
  {
    if FirstEarlyExit(handlers, q[1..]).Some? {
      var i := FirstEarlyExit(handlers, q[1..]).value;
      assert q[..i + 1][1..] == q[1..][..i];
      assert q[i + 2..] == q[1..][i + 1..];
    }
  }

  /** With silent handlers, one legacy pass is `LegacyExpected`. */
  lemma RunLegacySilent<H, A>(eq: EventQueue<H, A>, effect: (H, Event<A>) -> seq<Event<A>>, fuel: nat)
    requires forall h, e :: effect(h, e) == []
    requires fuel >= |eq.queue|
    ensures RunLegacy(eq, effect, fuel) == Some(LegacyExpected(eq))
  {
    DrainLegacySilent(eq.handlers, effect, eq.queue, fuel);
  }

  lemma {:induction false} ExpectedCallsAppend<H, A>(handlers: map<string, seq<H>>, a: seq<Event<A>>, b: seq<Event<A>>)
    ensures ExpectedCalls(handlers, a + b) == ExpectedCalls(handlers, a) + ExpectedCalls(handlers, b)
    decreases |a|
  {
    if |a| == 0 {
      assert a + b == b;
    } else {
      assert (a + b)[1..] == a[1..] + b;
      ExpectedCallsAppend(handlers, a[1..], b);
    }
  }

  /** Without a handled `:exit`, both views of a pass agree. */
  lemma {:induction false} HandledCallsNoExit<H, A>(handlers: map<string, seq<H>>, q: seq<Event<A>>)
    requires forall j :: 0 <= j < |q| ==> !HandledExit(handlers, q[j])
    ensures HandledCalls(handlers, q) == ExpectedCalls(handlers, q)
    decreases |q|
  {
    if |q| > 0 {
      HandledCallsNoExit(handlers, q[1..]);
    }
  }

  lemma {:induction false} LastHandledExitUnique<H, A>(handlers: map<string, seq<H>>, q: seq<Event<A>>, i: nat)
    requires i < |q| && HandledExit(handlers, q[i])
    requires forall j :: 0 <= j < |q| && j != i ==> !HandledExit(handlers, q[j])
    ensures LastHandledExit(handlers, q) == Some(q[i])
    decreases |q|
  {
    if i > 0 {
      LastHandledExitUnique(handlers, q[1..], i - 1);
    } else if |q| > 1 {
      LastHandledExitNone(handlers, q[1..]);
    }
  }

  lemma {:induction false} LastHandledExitNone<H, A>(handlers: map<string, seq<H>>, q: seq<Event<A>>)
    requires forall j :: 0 <= j < |q| ==> !HandledExit(handlers, q[j])
    ensures LastHandledExit(handlers, q) == None
    decreases |q|
  {
    if |q| > 0 {
      LastHandledExitNone(handlers, q[1..]);
    }
  }

  /** The two copies defer `:exit` differently, yet with silent handlers and
      a duplicate-free queue (which `post` guarantees) two legacy passes make
      exactly the calls of one rhuidean pass: the events before `:exit`, the
      events after it, then the exit handlers. */
  lemma LegacyTwoPassesMatchDeferred<H, A>(eq: EventQueue<H, A>, effect: (H, Event<A>) -> seq<Event<A>>)
    requires forall h, e :: effect(h, e) == []
    requires UniqueNames(eq.queue)
    ensures var p1 := LegacyExpected(eq);
            var p2 := LegacyExpected(p1.eq);
            RunLegacy(eq, effect, |eq.queue|) == Some(p1)
            && RunLegacy(p1.eq, effect, |p1.eq.queue|) == Some(p2)
            && p2.eq.queue == []
            && p1.trace + p2.trace == ExpectedTrace(eq)
  {
    var p1 := LegacyExpected(eq);
    RunLegacySilent(eq, effect, |eq.queue|);
    RunLegacySilent(p1.eq, effect, |p1.eq.queue|);
    if FirstEarlyExit(eq.handlers, eq.queue).None? {
      NoEarlyExitPasses(eq);
    } else {
      EarlyExitPasses(eq);
    }
  }

  lemma NoEarlyExitPasses<H, A>(eq: EventQueue<H, A>)
    requires FirstEarlyExit(eq.handlers, eq.queue).None?
    ensures var p1 := LegacyExpected(eq);
            var p2 := LegacyExpected(p1.eq);
            p2.eq.queue == [] && p1.trace + p2.trace == ExpectedTrace(eq)
  {
    var hs := eq.handlers;
    var q := eq.queue;
    var p1 := LegacyExpected(eq);
    assert p1.eq.queue == [];
    var p2 := LegacyExpected(p1.eq);
    assert p2.trace == [] && p2.eq.queue == [];
    assert p1.trace + p2.trace == HandledCalls(hs, q);
    if exists j :: 0 <= j < |q| && HandledExit(hs, q[j]) {
      var j :| 0 <= j < |q| && HandledExit(hs, q[j]);
      assert j == |q| - 1;
      var front := q[..j];
      assert q == front + [q[j]];
      HandledCallsNoExit(hs, front);
      HandledCallsAppend(hs, front, [q[j]]);
      ExpectedCallsAppend(hs, front, [q[j]]);
      assert HandledCalls(hs, [q[j]]) == Calls(hs[ExitName], q[j]) + [];
      assert ExpectedCalls(hs, [q[j]]) == [] + [];
      LastHandledExitUnique(hs, q, j);
    } else {
      HandledCallsNoExit(hs, q);
      LastHandledExitNone(hs, q);
      assert ExpectedTrace(eq) == ExpectedCalls(hs, q) + [];
    }
  }

  lemma EarlyExitPasses<H, A>(eq: EventQueue<H, A>)
    requires FirstEarlyExit(eq.handlers, eq.queue).Some?
    requires UniqueNames(eq.queue)
    ensures var p1 := LegacyExpected(eq);
            var p2 := LegacyExpected(p1.eq);
            p2.eq.queue == [] && p1.trace + p2.trace == ExpectedTrace(eq)
  {
    var hs := eq.handlers;
    var q := eq.queue;
    var i := FirstEarlyExit(hs, q).value;
    var x := q[i];
    var front := q[..i];
    var back := q[i + 1..];
    OnlyExit(hs, q, i);
    var q1 := back + [x];
    assert forall j :: 0 <= j < |q1| - 1 ==> !HandledExit(hs, q1[j]) by {
      forall j | 0 <= j < |q1| - 1 ensures !HandledExit(hs, q1[j]) {
        assert q1[j] == q[i + 1 + j];
      }
    }
    FirstEarlyExitNone(hs, q1);
    var p1 := LegacyExpected(eq);
    var p2 := LegacyExpected(p1.eq);
    assert p1.trace == HandledCalls(hs, front);
    assert p2.eq.queue == [] && p2.trace == HandledCalls(hs, q1);
    var cx := Calls(hs[ExitName], x);
    ExitLastCalls(hs, back, x);
    assert p2.trace == ExpectedCalls(hs, back) + cx;
    assert forall j :: 0 <= j < |front| ==> !HandledExit(hs, front[j]);
    HandledCallsNoExit(hs, front);
    SplitAtExit(hs, q, i);
    LastHandledExitUnique(hs, q, i);
    assert ExpectedTrace(eq) == ExpectedCalls(hs, front) + ExpectedCalls(hs, back) + cx;
  }

  /** In a duplicate-free queue, a handled `:exit` is the only one. */
  lemma OnlyExit<H, A>(hs: map<string, seq<H>>, q: seq<Event<A>>, i: nat)
    requires UniqueNames(q) && i < |q| && HandledExit(hs, q[i])
    ensures forall j :: 0 <= j < |q| && j != i ==> !HandledExit(hs, q[j])
  {
  }

  lemma {:induction false} FirstEarlyExitNone<H, A>(hs: map<string, seq<H>>, q: seq<Event<A>>)
    requires forall j :: 0 <= j < |q| - 1 ==> !HandledExit(hs, q[j])
    ensures FirstEarlyExit(hs, q) == None
    decreases |q|
  {
    if |q| > 1 {
      assert forall j :: 0 <= j < |q[1..]| - 1 ==> q[1..][j] == q[j + 1];
      FirstEarlyExitNone(hs, q[1..]);
    }
  }

  /** Calls of a queue whose only handled `:exit` is last. */
  lemma ExitLastCalls<H, A>(hs: map<string, seq<H>>, back: seq<Event<A>>, x: Event<A>)
    requires forall j :: 0 <= j < |back| ==> !HandledExit(hs, back[j])
    requires HandledExit(hs, x)
    ensures HandledCalls(hs, back + [x]) == ExpectedCalls(hs, back) + Calls(hs[ExitName], x)
  {
    HandledCallsNoExit(hs, back);
    HandledCallsAppend(hs, back, [x]);
    assert HandledCalls(hs, [x]) == Calls(hs[ExitName], x) + HandledCalls(hs, []);
  }

  /** The non-exit calls of a queue split around its handled `:exit`. */
  lemma SplitAtExit<H, A>(hs: map<string, seq<H>>, q: seq<Event<A>>, i: nat)
    requires i < |q| && HandledExit(hs, q[i])
    ensures ExpectedCalls(hs, q) == ExpectedCalls(hs, q[..i]) + ExpectedCalls(hs, q[i + 1..])
  {
    assert q == q[..i] + [q[i]] + q[i + 1..];
    ExpectedCallsAppend(hs, q[..i] + [q[i]], q[i + 1..]);
    ExpectedCallsAppend(hs, q[..i], [q[i]]);
    assert ExpectedCalls(hs, [q[i]]) == [] + ExpectedCalls(hs, []);
  }

  lemma {:induction false} HandledCallsAppend<H, A>(handlers: map<string, seq<H>>, a: seq<Event<A>>, b: seq<Event<A>>)
    ensures HandledCalls(handlers, a + b) == HandledCalls(handlers, a) + HandledCalls(handlers, b)
    decreases |a|
  {
    if |a| == 0 {
      assert a + b == b;
    } else {
      assert (a + b)[1..] == a[1..] + b;
      HandledCallsAppend(handlers, a[1..], b);
    }
  }
}
