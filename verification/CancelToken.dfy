// Cancel tokens, src/core/CancelToken.cpp, and the client's CancelSubscription on top of them,
// src/client/McpClient.cpp: one step per critical section or handler call, in any interleaving.
module CancelToken {
  import opened Bytes

  // A handler is named by a number; an empty std::function is not callable.
  datatype Handler = Handler(number: nat, callable: bool)

  datatype Token = Token(cancelled: bool, reason: bytes, nextId: nat, handlers: map<nat, Handler>)

  const FRESH := Token(false, [], 1, map[])

  // ---- Critical sections --------------------------------------------------------------------------

  function CancelSection(t: Token, reason: bytes): Token {
    if t.cancelled then t else Token(true, reason, t.nextId, map[])
  }

  // AddCancelHandler: the token and the id, 0 meaning that the caller must run the handler itself.
  function AddSection(t: Token, h: Handler): (Token, nat) {
    if t.cancelled then (t, 0) else (t.(nextId := t.nextId + 1, handlers := t.handlers[t.nextId := h]), t.nextId)
  }

  function RemoveSection(t: Token, id: nat): Token {
    t.(handlers := t.handlers - {id})
  }

  // A call, with the id the handler was registered under, or 0.
  datatype Invocation = Invocation(id: nat, number: nat, reason: bytes)

  // The calls for a table of handlers, in any order.
  ghost predicate CallsAll(calls: seq<Invocation>, handlers: map<nat, Handler>, reason: bytes) {
    && (forall c :: c in calls ==> c.id in handlers && handlers[c.id] == Handler(c.number, true) && c.reason == reason)
    && (forall id :: id in handlers && handlers[id].callable ==> Invocation(id, handlers[id].number, reason) in calls)
    && (forall i, j :: 0 <= i < j < |calls| ==> calls[i].id != calls[j].id)
  }

  class CancelTokenState {
    var cancelled: bool
    var reason: bytes
    var nextId: nat
    var handlers: map<nat, Handler>
    var calls: seq<Invocation>

    constructor ()
      ensures Contents() == FRESH && calls == []
    {
      cancelled, reason, nextId, handlers, calls := false, [], 1, map[], [];
    }

    ghost function Contents(): Token
      reads this
    {
      Token(cancelled, reason, nextId, handlers)
    }

    method Cancel(why: bytes)
      modifies this
      ensures Contents() == CancelSection(old(Contents()), why)
      ensures old(cancelled) ==> calls == old(calls)
      ensures !old(cancelled) ==>
                exists made :: calls == old(calls) + made && CallsAll(made, old(handlers), why)
    {
      if cancelled { return; }
      cancelled, reason := true, why;
      var taken := handlers;
      handlers := map[];
      var made := InvokeAll(taken, why);
      calls := calls + made;
    }

    static method InvokeAll(taken: map<nat, Handler>, why: bytes) returns (made: seq<Invocation>)
      ensures CallsAll(made, taken, why)
    {
      made := [];
      var left := taken.Keys;
      ghost var done: map<nat, Handler> := map[];
      while left != {}
        invariant left <= taken.Keys && done == map id | id in taken && id !in left :: taken[id]
        invariant CallsAll(made, done, why)
        decreases left
      {
        var id :| id in left;
        left := left - {id};
        if taken[id].callable { made := made + [Invocation(id, taken[id].number, why)]; }
        done := done[id := taken[id]];
      }
      assert done == taken;
    }

    method AddCancelHandler(h: Handler) returns (id: nat)
      modifies this
      ensures (Contents(), id) == AddSection(old(Contents()), h)
      ensures calls == old(calls) + if old(cancelled) && h.callable then [Invocation(0, h.number, old(reason))] else []
    {
      if !cancelled {
        id := nextId;
        nextId := nextId + 1;
        handlers := handlers[id := h];
        return;
      }
      if h.callable { calls := calls + [Invocation(0, h.number, reason)]; }
      return 0;
    }

    method RemoveCancelHandler(id: nat)
      modifies this
      ensures Contents() == RemoveSection(old(Contents()), id) && calls == old(calls)
    {
      handlers := handlers - {id};
    }
  }

  // ---- Runs ---------------------------------------------------------------------------------------

  // Call(n): a thread that has to run handler `n`, after Cancel or after a late Add, runs it.
  datatype Step =
    | Add(callable: bool)
    | Remove(id: nat)
    | Cancel(reason: bytes)
    | Call(number: nat)

  datatype Registration = Registration(callable: bool, calls: seq<bytes>)

  // `due`: handlers some thread has taken out of the lock to run, with the reason it read there.
  datatype World = World(token: Token, regs: seq<Registration>, due: map<nat, bytes>)

  const START := World(FRESH, [], map[])

  predicate Enabled(w: World, step: Step) {
    step.Call? ==> step.number in w.due && step.number < |w.regs|
  }

  function Apply(w: World, step: Step): World
    requires Enabled(w, step)
  {
    match step
    case Add(callable) =>
      var n := |w.regs|;
      World(AddSection(w.token, Handler(n, callable)).0, w.regs + [Registration(callable, [])],
            if w.token.cancelled && callable then w.due[n := w.token.reason] else w.due)
    case Remove(id) => w.(token := RemoveSection(w.token, id))
    case Cancel(reason) =>
      w.(token := CancelSection(w.token, reason),
         due := if w.token.cancelled then w.due
                else map n | n in w.due.Keys + TakenBy(w.token) :: if n in TakenBy(w.token) then reason else w.due[n])
    case Call(n) =>
      w.(regs := w.regs[n := w.regs[n].(calls := w.regs[n].calls + [w.due[n]])], due := w.due - {n})
  }

  function TakenBy(t: Token): set<nat> {
    set id | id in t.handlers && t.handlers[id].callable :: t.handlers[id].number
  }

  ghost predicate IsRun(steps: seq<Step>)
    decreases |steps|, 0
  {
    steps != [] ==> IsRun(steps[..|steps| - 1]) && Enabled(After(steps[..|steps| - 1]), steps[|steps| - 1])
  }

  ghost function After(steps: seq<Step>): World
    requires IsRun(steps)
    decreases |steps|, 1
  {
    if steps == [] then START else Apply(After(steps[..|steps| - 1]), steps[|steps| - 1])
  }

  // ---- What should happen, by the steps alone -------------------------------------------------------

  function AddCount(steps: seq<Step>): nat {
    if steps == [] then 0 else AddCount(steps[..|steps| - 1]) + if steps[|steps| - 1].Add? then 1 else 0
  }

  function FirstReason(steps: seq<Step>): Option<bytes> {
    if steps == [] then None
    else
      var before := FirstReason(steps[..|steps| - 1]);
      if before.None? && steps[|steps| - 1].Cancel? then Some(steps[|steps| - 1].reason) else before
  }

  datatype Fate = Absent | Registered | Removed | MustRun

  // Handler `n` must run if it is registered when the first Cancel comes, or added after it. The
  // handlers added before are registered under the ids 1, 2, 3, ...
  function FateOf(steps: seq<Step>, n: nat): Fate {
    if steps == [] then Absent
    else
      var before, last := steps[..|steps| - 1], steps[|steps| - 1];
      var fate := FateOf(before, n);
      match last
      case Add(_) => if AddCount(before) != n then fate else if FirstReason(before).None? then Registered else MustRun
      case Remove(id) => if fate.Registered? && id == n + 1 then Removed else fate
      case Cancel(_) => if fate.Registered? then MustRun else fate
      case Call(_) => fate
  }

  // ---- Every run does it ----------------------------------------------------------------------------

  ghost predicate TokenOk(w: World, steps: seq<Step>) {
    && |w.regs| == AddCount(steps)
    && w.token.cancelled == FirstReason(steps).Some?
    && (w.token.cancelled ==> FirstReason(steps) == Some(w.token.reason) && w.token.handlers == map[])
    && (!w.token.cancelled ==> w.token.nextId == |w.regs| + 1)
    && (forall id :: id in w.token.handlers ==>
          1 <= id <= |w.regs| && w.token.handlers[id] == Handler(id - 1, w.regs[id - 1].callable))
  }

  ghost predicate HandlerOk(w: World, steps: seq<Step>, n: nat) {
    && (n >= |w.regs| ==> FateOf(steps, n).Absent? && n !in w.due)
    && (n < |w.regs| ==> !FateOf(steps, n).Absent?)
    && (n + 1 in w.token.handlers <==> FateOf(steps, n).Registered?)
    && (n in w.due ==> Some(w.due[n]) == FirstReason(steps))
    && (n < |w.regs| ==>
          var must := FateOf(steps, n).MustRun? && w.regs[n].callable;
          && (n in w.due ==> must)
          && w.regs[n].calls == if must && n !in w.due && FirstReason(steps).Some? then [FirstReason(steps).value]
            else [])
    && (FateOf(steps, n).MustRun? ==> FirstReason(steps).Some?)
  }

  ghost predicate Ok(w: World, steps: seq<Step>) {
    TokenOk(w, steps) && forall n: nat :: HandlerOk(w, steps, n)
  }

  lemma StepTokenOk(w: World, steps: seq<Step>, step: Step)
    requires Ok(w, steps) && Enabled(w, step)
    ensures TokenOk(Apply(w, step), steps + [step])
  {
    hide HandlerOk;
    assert (steps + [step])[..|steps|] == steps;
  }

  lemma FateMore(steps: seq<Step>, step: Step, n: nat)
    ensures FirstReason(steps + [step]) == if FirstReason(steps).None? && step.Cancel? then Some(step.reason)
            else FirstReason(steps)
    ensures var fate := FateOf(steps, n);
            FateOf(steps + [step], n) ==
            match step
            case Add(_) => if AddCount(steps) != n then fate else if FirstReason(steps).None? then Registered
              else MustRun
            case Remove(id) => if fate.Registered? && id == n + 1 then Removed else fate
            case Cancel(_) => if fate.Registered? then MustRun else fate
            case Call(_) => fate
  {
    assert (steps + [step])[..|steps|] == steps;
  }

  lemma StepHandlerOk(w: World, steps: seq<Step>, step: Step, n: nat)
    requires TokenOk(w, steps) && HandlerOk(w, steps, n) && Enabled(w, step)
    ensures HandlerOk(Apply(w, step), steps + [step], n)
  {
    FateMore(steps, step, n);
    hide FateOf, FirstReason, AddCount;
    TakenHandler(w, steps, n);
    hide TakenBy;
  }

  lemma TakenHandler(w: World, steps: seq<Step>, n: nat)
    requires TokenOk(w, steps)
    ensures n in TakenBy(w.token) <==> n + 1 in w.token.handlers && w.token.handlers[n + 1].callable
  {
    if n in TakenBy(w.token) {
      var id :| id in w.token.handlers && w.token.handlers[id].callable && w.token.handlers[id].number == n;
      assert id == n + 1;
    }
    if n + 1 in w.token.handlers { assert w.token.handlers[n + 1].number == n; }
  }

  lemma {:induction false} RunOk(steps: seq<Step>)
    requires IsRun(steps)
    ensures Ok(After(steps), steps)
  {
    hide TokenOk, HandlerOk, FateOf, Apply, Enabled;
    if steps == [] {
      StartOk();
    } else {
      var before, step := steps[..|steps| - 1], steps[|steps| - 1];
      RunOk(before);
      StepTokenOk(After(before), before, step);
      forall n: nat ensures HandlerOk(Apply(After(before), step), before + [step], n) {
        StepHandlerOk(After(before), before, step, n);
      }
      assert before + [step] == steps;
    }
  }

  lemma StartOk()
    ensures Ok(START, [])
  {
  }

  // In every run a handler is called at most once and only with the first reason; and once nobody
  // is left to run it, it was called exactly when it had to be.
  lemma HandlersRunOnce(steps: seq<Step>, n: nat)
    requires IsRun(steps) && n < |After(steps).regs|
    ensures var r := After(steps).regs[n];
            && |r.calls| <= 1
            && (forall reason :: reason in r.calls ==> FirstReason(steps) == Some(reason))
            && (n !in After(steps).due ==> (|r.calls| == 1 <==> r.callable && FateOf(steps, n) == MustRun))
  {
    RunOk(steps);
    hide IsRun, After, FateOf, FirstReason, TokenOk;
    assert HandlerOk(After(steps), steps, n);
  }

  // ---- Subscriptions --------------------------------------------------------------------------------

  // Where the thread in Attach stands: before, with the id it got, about to remove it, finished;
  // and the thread in Complete: before, about to remove an id, finished.
  datatype Attaching = NotAttached | GotId(id: nat) | RemoveNow(id: nat) | Attached

  datatype Completing = NotCompleted | RemoveTaken(id: nat) | Completed

  datatype Subscription = Subscription(attach: Attaching, complete: Completing, handlerId: Option<nat>, completed: bool,
                                       own: nat)

  datatype Subscriptions = Subscriptions(token: Token, subs: seq<Subscription>)

  datatype SubStep =
    | Create
    | Attach(sub: nat, h: Handler)
    | Record(sub: nat)
    | RemoveAttached(sub: nat)
    | Complete(sub: nat)
    | RemoveCompleted(sub: nat)
    | OtherAdd(h: Handler)
    | OtherRemove(id: nat)
    | OtherCancel(reason: bytes)

  predicate SubEnabled(w: Subscriptions, step: SubStep) {
    match step
    case Attach(s, _) => s < |w.subs| && w.subs[s].attach.NotAttached?
    case Record(s) => s < |w.subs| && w.subs[s].attach.GotId?
    case RemoveAttached(s) => s < |w.subs| && w.subs[s].attach.RemoveNow?
    case Complete(s) => s < |w.subs| && w.subs[s].complete.NotCompleted?
    case RemoveCompleted(s) => s < |w.subs| && w.subs[s].complete.RemoveTaken?
    case _ => true
  }

  function SubApply(w: Subscriptions, step: SubStep): Subscriptions
    requires SubEnabled(w, step)
  {
    match step
    case Create => w.(subs := w.subs + [Subscription(NotAttached, NotCompleted, None, false, 0)])
    case Attach(s, h) =>
      var (token, id) := AddSection(w.token, h);
      Subscriptions(token, w.subs[s := w.subs[s].(attach := GotId(id), own := id)])
    case Record(s) =>
      var sub := w.subs[s];
      w.(subs := w.subs[s :=
        if sub.completed then sub.(attach := if sub.attach.id != 0 then RemoveNow(sub.attach.id) else Attached)
        else if sub.attach.id != 0 then sub.(attach := Attached, handlerId := Some(sub.attach.id))
        else sub.(attach := Attached)])
    case RemoveAttached(s) =>
      Subscriptions(RemoveSection(w.token, w.subs[s].attach.id), w.subs[s := w.subs[s].(attach := Attached)])
    case Complete(s) =>
      var sub := w.subs[s];
      w.(subs := w.subs[s := sub.(completed := true, handlerId := None,
                                  complete := if sub.handlerId.Some? then RemoveTaken(sub.handlerId.value)
                                    else Completed)])
    case RemoveCompleted(s) =>
      Subscriptions(RemoveSection(w.token, w.subs[s].complete.id), w.subs[s := w.subs[s].(complete := Completed)])
    case OtherAdd(h) => w.(token := AddSection(w.token, h).0)
    case OtherRemove(id) => w.(token := RemoveSection(w.token, id))
    case OtherCancel(reason) => w.(token := CancelSection(w.token, reason))
  }

  // Whoever may still have to take the handler out knows its id.
  predicate SubOk(t: Token, sub: Subscription) {
    && sub.own < t.nextId
    && (sub.attach.NotAttached? ==> sub.own == 0)
    && (sub.attach.NotAttached? || sub.attach.GotId? ==> sub.handlerId.None? && !sub.complete.RemoveTaken?)
    && (sub.attach.GotId? ==> sub.attach.id == sub.own)
    && (sub.attach.RemoveNow? ==> sub.attach.id == sub.own)
    && (sub.complete.RemoveTaken? ==> sub.complete.id == sub.own)
    && (sub.completed <==> !sub.complete.NotCompleted?)
    && (sub.handlerId.Some? ==> sub.handlerId.value == sub.own)
    && (sub.own in t.handlers && !sub.attach.GotId? && !sub.attach.RemoveNow? ==>
          (sub.completed ==> sub.complete.RemoveTaken?) && (!sub.completed ==> sub.handlerId.Some?))
  }

  ghost predicate SubsOk(w: Subscriptions) {
    && (forall id :: id in w.token.handlers ==> 1 <= id < w.token.nextId) && w.token.nextId >= 1
    && forall s :: 0 <= s < |w.subs| ==> SubOk(w.token, w.subs[s])
  }

  lemma SubStepOk(w: Subscriptions, step: SubStep)
    requires SubsOk(w) && SubEnabled(w, step)
    ensures SubsOk(SubApply(w, step))
  {
    var w' := SubApply(w, step);
    forall s | 0 <= s < |w'.subs| ensures SubOk(w'.token, w'.subs[s]) {
      assert s < |w.subs| ==> SubOk(w.token, w.subs[s]);
    }
  }

  ghost predicate IsSubRun(w: Subscriptions, steps: seq<SubStep>)
    decreases |steps|
  {
    steps != [] ==> SubEnabled(w, steps[0]) && IsSubRun(SubApply(w, steps[0]), steps[1..])
  }

  ghost function SubAfter(w: Subscriptions, steps: seq<SubStep>): Subscriptions
    requires IsSubRun(w, steps)
    decreases |steps|
  {
    if steps == [] then w else SubAfter(SubApply(w, steps[0]), steps[1..])
  }

  lemma {:induction false} SubRunOk(w: Subscriptions, steps: seq<SubStep>)
    requires SubsOk(w) && IsSubRun(w, steps)
    ensures SubsOk(SubAfter(w, steps))
    decreases |steps|
  {
    hide SubsOk, SubApply, SubEnabled;
    if steps != [] {
      SubStepOk(w, steps[0]);
      SubRunOk(SubApply(w, steps[0]), steps[1..]);
    }
  }

  // However Attach and Complete interleave with each other and with everybody else using the
  // token: when both have finished, the handler is not registered any more.
  lemma NoHandlerStays(steps: seq<SubStep>, s: nat)
    requires IsSubRun(Subscriptions(FRESH, []), steps)
    requires var w := SubAfter(Subscriptions(FRESH, []), steps);
             s < |w.subs| && w.subs[s].attach.Attached? && w.subs[s].complete.Completed?
    ensures var w := SubAfter(Subscriptions(FRESH, []), steps);
            w.subs[s].own !in w.token.handlers
  {
    assert SubsOk(Subscriptions(FRESH, []));
    SubRunOk(Subscriptions(FRESH, []), steps);
    hide IsSubRun, SubAfter;
    assert SubOk(SubAfter(Subscriptions(FRESH, []), steps).token, SubAfter(Subscriptions(FRESH, []), steps).subs[s]);
  }
}
