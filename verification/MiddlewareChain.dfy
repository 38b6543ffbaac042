/** The middleware chain around a tool call: hooks before and after, retries and fallbacks. */
module MiddlewareChain {
  import opened Wrappers
  import opened Sequences
  import Nonlinear

  // ----- errors

  /** A typed tool failure, or any other exception, of which only its transience matters. */
  datatype Error =
    | Elite(code: string, message: string, retryable: bool, fallbacks: seq<string>)
    | Foreign(transient: bool)

  predicate Retryable(e: Error) {
    match e
    case Elite(_, _, retryable, _) => retryable
    case Foreign(transient) => transient
  }

  function Joined(names: seq<string>): string {
    if names == [] then "" else if |names| == 1 then names[0] else names[0] + ", " + Joined(names[1..])
  }

  function WithFallbacks(e: Error, tools: seq<string>): Error
    requires e.Elite?
  {
    if tools == [] then e
    else Elite(e.code, e.message + " Try: " + Joined(tools) + ".", e.retryable, tools)
  }

  /** What the caller gets to see of an exception. */
  function Safe(e: Error, toolName: string): (safe: Error)
    ensures safe.Elite? && safe.retryable == Retryable(e)
  {
    if e.Elite? then e
    else
      Elite("tool_execution_failed",
            "Tool `" + toolName + "` failed safely. Inspect local diagnostics for details.", e.transient, [])
  }

  // ----- middlewares

  datatype Context = Context(toolName: string, args: map<string, string>, sessionId: string,
                             metadata: map<string, string>, retryAttempts: Option<nat>)

  datatype CallResult = CallResult(value: string, shortCircuited: bool, augmentations: seq<string>)

  /** How a before-hook ended. */
  datatype Verdict = Proceeds | Fails | Early(result: CallResult)

  /** How an after-hook ended. */
  datatype Reply = Returns(result: CallResult) | Raises

  datatype Kind =
    | Plain
    | Retry(maxRetries: int, initialDelay: real, backoffFactor: real)
    | Fallback(registry: map<string, seq<string>>)

  datatype Scope = AllTools | Only(tools: set<string>)

  /** A hook may change the context whether or not it fails afterwards. */
  datatype Middleware = Middleware(
    name: string, appliesTo: Scope, kind: Kind,
    before: Context -> (Context, Verdict),
    after: (Context, CallResult) -> (Context, Reply))
  {
    predicate Matches(toolName: string) {
      appliesTo.AllTools? || toolName in appliesTo.tools
    }
  }

  function FirstRetry(ms: seq<Middleware>): (retry: Option<Kind>)
    ensures retry.Some? ==> retry.value.Retry?
  {
    if ms == [] then None else if ms[0].kind.Retry? then Some(ms[0].kind) else FirstRetry(ms[1..])
  }

  function FirstFallback(ms: seq<Middleware>): (fallback: Option<Kind>)
    ensures fallback.Some? ==> fallback.value.Fallback?
  {
    if ms == [] then None else if ms[0].kind.Fallback? then Some(ms[0].kind) else FirstFallback(ms[1..])
  }

  function FallbacksFor(registry: map<string, seq<string>>, toolName: string): seq<string> {
    if toolName in registry then registry[toolName] else []
  }

  function Failure(e: Error, toolName: string, ms: seq<Middleware>): Error {
    match FirstFallback(ms)
    case None => Safe(e, toolName)
    case Some(f) => WithFallbacks(Safe(e, toolName), FallbacksFor(f.registry, toolName))
  }

  // ----- one call

  datatype Event = Before(name: string) | Run(attempt: nat) | Sleep(delay: real) | After(name: string)

  datatype Outcome = Value(value: string) | Raised(error: Error)

  datatype Response = Done(result: CallResult) | Short(result: CallResult) | Failed(error: Error)

  datatype Ended = Ended(ctx: Context, response: Response, trace: seq<Event>)

  /** What the tool does with these arguments on its k-th run. */
  type Tool = (map<string, string>, nat) -> Outcome

  predicate ShouldRetry(ms: seq<Middleware>, e: Error, attempt: nat) {
    var retry := FirstRetry(ms);
    retry.Some? && attempt < retry.value.maxRetries && Retryable(e)
  }

  function DelayFor(retry: Kind, attempt: nat): real
    requires retry.Retry?
  {
    retry.initialDelay * Nonlinear.Power(retry.backoffFactor, attempt)
  }

  /** Run k fails and the failure is to be retried. */
  ghost predicate Again(tool: Tool, args: map<string, string>, ms: seq<Middleware>, k: nat) {
    tool(args, k).Raised? && ShouldRetry(ms, tool(args, k).error, k)
  }

  /** The number of the last run, when run k is made. */
  ghost function LastRun(tool: Tool, args: map<string, string>, ms: seq<Middleware>, k: nat): (n: nat)
    ensures n >= k && !Again(tool, args, ms, n)
    ensures forall i :: k <= i < n ==> Again(tool, args, ms, i)
    decreases (if FirstRetry(ms).Some? then FirstRetry(ms).value.maxRetries else 0) - k
  {
    if Again(tool, args, ms, k) then LastRun(tool, args, ms, k + 1) else k
  }

  /** Runs 0 to n with the pauses between them. */
  function Runs(ms: seq<Middleware>, n: nat): seq<Event>
    requires n > 0 ==> FirstRetry(ms).Some?
  {
    if n == 0 then [Run(0)] else Runs(ms, n - 1) + [Sleep(DelayFor(FirstRetry(ms).value, n - 1)), Run(n)]
  }

  /** What running the tool alone comes to. */
  ghost function Core(toolName: string, tool: Tool, ms: seq<Middleware>, ctx: Context): Ended {
    var n := LastRun(tool, ctx.args, ms, 0);
    assert n > 0 ==> Again(tool, ctx.args, ms, 0);
    match tool(ctx.args, n)
    case Value(v) =>
      Ended(if n > 0 then ctx.(retryAttempts := Some(n)) else ctx, Done(CallResult(v, false, [])), Runs(ms, n))
    case Raised(e) =>
      Ended(ctx, Failed(Failure(e, toolName, ms)), Runs(ms, n))
  }

  /** Runs the tool until it succeeds or its failure is not to be retried. */
  method Execute(toolName: string, tool: Tool, ctx: Context, ms: seq<Middleware>) returns (ended: Ended)
    ensures ended == Core(toolName, tool, ms, ctx)
  {
    var retry, attempt, trace := FirstRetry(ms), 0, [Run(0)];
    while true
      invariant LastRun(tool, ctx.args, ms, 0) == LastRun(tool, ctx.args, ms, attempt)
      invariant attempt > 0 ==> retry.Some? && attempt <= retry.value.maxRetries
      invariant trace == Runs(ms, attempt)
      decreases (if retry.Some? then retry.value.maxRetries else 0) - attempt
    {
      var outcome := tool(ctx.args, attempt);
      if outcome.Value? {
        ended := Ended(if attempt > 0 then ctx.(retryAttempts := Some(attempt)) else ctx,
                       Done(CallResult(outcome.value, false, [])), trace);
        return;
      }
      if !ShouldRetry(ms, outcome.error, attempt) {
        ended := Ended(ctx, Failed(Failure(outcome.error, toolName, ms)), trace);
        return;
      }
      trace := trace + [Sleep(DelayFor(retry.value, attempt)), Run(attempt + 1)];
      attempt := attempt + 1;
    }
  }

  // ----- the chain as layers

  /** The after-hook of one layer: it sees a success only, and when it fails the result stays. */
  function Finish(m: Middleware, e: Ended): Ended {
    if e.response.Done? then
      var (ctx, reply) := m.after(e.ctx, e.response.result);
      Ended(ctx, if reply.Returns? then Done(reply.result) else e.response, e.trace + [After(m.name)])
    else e
  }

  function Enter(m: Middleware, e: Ended): Ended {
    e.(trace := [Before(m.name)] + e.trace)
  }

  /** The chain as nested layers, the first middleware outermost: its before-hook, then
      everything inside it, then its after-hook. */
  function Layers(ms: seq<Middleware>, core: Context -> Ended, ctx: Context): Ended {
    if ms == [] then core(ctx)
    else
      var (c, verdict) := ms[0].before(ctx);
      if verdict.Early? then
        Ended(c, Short(verdict.result.(shortCircuited := true)), [Before(ms[0].name)])
      else Enter(ms[0], Finish(ms[0], Layers(ms[1..], core, c)))
  }

  /** Leaving the layers ms from the innermost, the last, outwards. */
  function Leave(ms: seq<Middleware>, e: Ended): Ended {
    if ms == [] then e
    else Leave(ms[..|ms| - 1], Enter(ms[|ms| - 1], Finish(ms[|ms| - 1], e)))
  }

  function Befores(ms: seq<Middleware>): seq<Event> {
    if ms == [] then [] else Befores(ms[..|ms| - 1]) + [Before(ms[|ms| - 1].name)]
  }

  lemma BeforesLast(ms: seq<Middleware>, m: Middleware)
    ensures Befores(ms + [m]) == Befores(ms) + [Before(m.name)]
  {
    assert (ms + [m])[..|ms|] == ms;
  }

  lemma LeaveLast(ms: seq<Middleware>, m: Middleware, e: Ended)
    ensures Leave(ms + [m], e) == Leave(ms, Enter(m, Finish(m, e)))
  {
    assert (ms + [m])[..|ms|] == ms;
  }

  /** Nothing but a success meets an after-hook on its way out. */
  lemma {:induction false} LeaveUntouched(ms: seq<Middleware>, e: Ended)
    requires !e.response.Done?
    ensures Leave(ms, e) == e.(trace := Befores(ms) + e.trace)
  {
    if ms == [] {
      assert [] + e.trace == e.trace;
    } else {
      var init, m := ms[..|ms| - 1], ms[|ms| - 1];
      LeaveUntouched(init, Enter(m, e));
      assert Befores(init) + ([Before(m.name)] + e.trace) == Befores(ms) + e.trace;
    }
  }

  /** The before-hooks in order; stops at the first that returns a result of its own. */
  method RunBefores(ms: seq<Middleware>, start: Context, ghost core: Context -> Ended)
      returns (ctx: Context, early: Option<CallResult>, trace: seq<Event>)
    ensures early.Some? ==> Layers(ms, core, start) == Ended(ctx, Short(early.value), trace)
    ensures early.None? ==> Layers(ms, core, start) == Leave(ms, core(ctx)) && trace == Befores(ms)
  {
    ctx, early, trace := start, None, [];
    for i := 0 to |ms|
      invariant early.None? && trace == Befores(ms[..i])
      invariant Layers(ms, core, start) == Leave(ms[..i], Layers(ms[i..], core, ctx))
    {
      assert ms[..i + 1] == ms[..i] + [ms[i]] && ms[i..][1..] == ms[i + 1..];
      BeforesLast(ms[..i], ms[i]);
      var (c, verdict) := ms[i].before(ctx);
      trace := trace + [Before(ms[i].name)];
      if verdict.Early? {
        var result := verdict.result.(shortCircuited := true);
        LeaveUntouched(ms[..i], Ended(c, Short(result), [Before(ms[i].name)]));
        ctx, early := c, Some(result);
        return;
      }
      LeaveLast(ms[..i], ms[i], Layers(ms[i + 1..], core, c));
      ctx := c;
    }
    assert ms[..|ms|] == ms && ms[|ms|..] == [];
  }

  /** Leaving one more layer after a success. */
  lemma LeaveOne(ms: seq<Middleware>, i: nat, e: Ended)
    requires i < |ms| && e.response.Done?
    ensures var m := ms[i];
      var (c, reply) := m.after(e.ctx, e.response.result);
      var e' := Enter(m, Finish(m, e));
      && Leave(ms[..i + 1], e) == Leave(ms[..i], e')
      && e'.ctx == c && e'.response == (if reply.Returns? then Done(reply.result) else e.response)
      && Befores(ms[..i]) + e'.trace == Befores(ms[..i + 1]) + e.trace + [After(m.name)]
  {
    var m := ms[i];
    assert ms[..i + 1] == ms[..i] + [m];
    LeaveLast(ms[..i], m, e);
    BeforesLast(ms[..i], m);
    Surround(Befores(ms[..i]), [Before(m.name)], e.trace, [After(m.name)], []);
    var front, mine, done := Befores(ms[..i]), [Before(m.name)], [After(m.name)];
    assert front + (mine + (e.trace + done)) == (front + mine) + e.trace + done;
  }

  /** The after-hooks in reverse order; one that fails is passed over. */
  method RunAfters(ms: seq<Middleware>, inner: Ended) returns (ended: Ended)
    requires inner.response.Done?
    ensures ended == Leave(ms, inner)
  {
    var ctx, result, trace := inner.ctx, inner.response.result, Befores(ms) + inner.trace;
    ghost var e := inner;
    var i := |ms|;
    assert ms[..|ms|] == ms;
    while i > 0
      invariant 0 <= i <= |ms|
      invariant Leave(ms, inner) == Leave(ms[..i], e)
      invariant e.ctx == ctx && e.response == Done(result) && trace == Befores(ms[..i]) + e.trace
    {
      i := i - 1;
      var m := ms[i];
      LeaveOne(ms, i, e);
      e := Enter(m, Finish(m, e));
      var (c, reply) := m.after(ctx, result);
      ctx := c;
      if reply.Returns? { result := reply.result; }
      trace := trace + [After(m.name)];
    }
    ended := Ended(ctx, Done(result), trace);
  }

  ghost function CoreOf(toolName: string, tool: Tool, ms: seq<Middleware>): Context -> Ended {
    ctx => Core(toolName, tool, ms, ctx)
  }

  // ----- the chain

  function Relevant(ms: seq<Middleware>, toolName: string): seq<Middleware> {
    Filter(ms, (m: Middleware) => m.Matches(toolName))
  }

  function Start(toolName: string, kwargs: map<string, string>): Context {
    Context(toolName, kwargs - {"_session_id"},
            if "_session_id" in kwargs then kwargs["_session_id"] else "default", map[], None)
  }

  /** Hooks and tool see every argument but the reserved one, which names the session. */
  lemma StartsClean(toolName: string, kwargs: map<string, string>, name: string)
    ensures var c := Start(toolName, kwargs);
      && c.toolName == toolName && c.retryAttempts == None && c.metadata == map[]
      && (name in c.args <==> name in kwargs && name != "_session_id")
      && (name in c.args ==> c.args[name] == kwargs[name])
      && ("_session_id" in kwargs ==> c.sessionId == kwargs["_session_id"])
      && ("_session_id" !in kwargs ==> c.sessionId == "default")
  {}

  /** A tool wrapped by the middlewares registered, and relevant to it, at that time. */
  class WrappedTool {
    const toolName: string
    const relevant: seq<Middleware>

    constructor (toolName: string, relevant: seq<Middleware>)
      ensures this.toolName == toolName && this.relevant == relevant
    {
      this.toolName, this.relevant := toolName, relevant;
    }

    /** The three loops of a call come to the nested layers. */
    method Call(kwargs: map<string, string>, tool: Tool) returns (ended: Ended)
      ensures ended == Layers(relevant, CoreOf(toolName, tool, relevant), Start(toolName, kwargs))
      ensures CallEnds(relevant, toolName, tool, Start(toolName, kwargs), ended)
    {
      CallMeaning(relevant, toolName, tool, Start(toolName, kwargs));
      var start := Start(toolName, kwargs);
      var ctx, early, trace := RunBefores(relevant, start, CoreOf(toolName, tool, relevant));
      if early.Some? {
        return Ended(ctx, Short(early.value), trace);
      }
      var inner := Execute(toolName, tool, ctx, relevant);
      if inner.response.Failed? {
        LeaveUntouched(relevant, inner);
        return inner.(trace := trace + inner.trace);
      }
      ended := RunAfters(relevant, inner);
    }
  }

  class Chain {
    var middlewares: seq<Middleware>

    constructor ()
      ensures middlewares == []
    {
      middlewares := [];
    }

    method Use(m: Middleware)
      modifies this
      ensures middlewares == old(middlewares) + [m]
    {
      middlewares := middlewares + [m];
    }

    method Wrap(toolName: string) returns (wrapped: WrappedTool)
      ensures fresh(wrapped) && wrapped.toolName == toolName
      ensures wrapped.relevant == Relevant(middlewares, toolName)
      ensures forall m :: m in wrapped.relevant <==>
        m in middlewares && (m.appliesTo == AllTools || (m.appliesTo.Only? && toolName in m.appliesTo.tools))
    {
      FilterSubsequence(middlewares, (m: Middleware) => m.Matches(toolName));
      wrapped := new WrappedTool(toolName, Relevant(middlewares, toolName));
    }
  }

  // ----- runs, retries and pauses

  /** The tool stops at its first success, first failure not worth a retry, or last allowed run. */
  lemma {:induction false} StopsExactly(tool: Tool, args: map<string, string>, ms: seq<Middleware>, k: nat)
    ensures k == LastRun(tool, args, ms, 0) <==>
      (forall i :: 0 <= i < k ==> Again(tool, args, ms, i)) && !Again(tool, args, ms, k)
  {
    var n := LastRun(tool, args, ms, 0);
    if (forall i :: 0 <= i < k ==> Again(tool, args, ms, i)) && !Again(tool, args, ms, k) {
      var last, given := Again(tool, args, ms, n), Again(tool, args, ms, k);
      assert !last && !given;
    }
  }

  /** An error that says of itself that another try may help. */
  predicate WorthRetrying(e: Error) { (e.Elite? && e.retryable) || (e.Foreign? && e.transient) }

  /** The same without the loop's own test: the runs before the last raised something worth a retry,
      none is made beyond the allowance, and the last one leaves no reason for another. */
  lemma LastRunExactly(tool: Tool, args: map<string, string>, ms: seq<Middleware>, k: nat)
    ensures k == LastRun(tool, args, ms, 0) <==>
      && k <= Allowance(ms)
      && (forall i :: 0 <= i < k ==> tool(args, i).Raised? && WorthRetrying(tool(args, i).error))
      && (tool(args, k).Value? || !WorthRetrying(tool(args, k).error) || k == Allowance(ms))
  {
    StopsExactly(tool, args, ms, k);
    assert forall i: nat :: Again(tool, args, ms, i) <==>
      tool(args, i).Raised? && WorthRetrying(tool(args, i).error) && i < Allowance(ms);
    if k == LastRun(tool, args, ms, 0) && k > 0 { assert Again(tool, args, ms, k - 1); }
  }

  /** The retry policy of a chain is that of its first retry middleware. */
  lemma {:induction false} FirstRetryIs(ms: seq<Middleware>, i: nat)
    requires i <= |ms| && forall j :: 0 <= j < i ==> !ms[j].kind.Retry?
    requires i < |ms| ==> ms[i].kind.Retry?
    ensures FirstRetry(ms) == if i < |ms| then Some(ms[i].kind) else None
  {
    if i > 0 { FirstRetryIs(ms[1..], i - 1); }
  }

  lemma {:induction false} FirstFallbackIs(ms: seq<Middleware>, i: nat)
    requires i <= |ms| && forall j :: 0 <= j < i ==> !ms[j].kind.Fallback?
    requires i < |ms| ==> ms[i].kind.Fallback?
    ensures FirstFallback(ms) == if i < |ms| then Some(ms[i].kind) else None
  {
    if i > 0 { FirstFallbackIs(ms[1..], i - 1); }
  }

  /** Runs and pauses take turns. */
  lemma {:induction false} RunsTakeTurns(ms: seq<Middleware>, n: nat)
    requires n > 0 ==> FirstRetry(ms).Some?
    ensures |Runs(ms, n)| == 2 * n + 1
    ensures forall i :: 0 <= i <= n ==> Runs(ms, n)[2 * i] == Run(i)
    ensures forall i :: 0 <= i < n ==> Runs(ms, n)[2 * i + 1] == Sleep(DelayFor(FirstRetry(ms).value, i))
  {
    if n > 0 { RunsTakeTurns(ms, n - 1); }
  }

  function RunCount(trace: seq<Event>): nat {
    if trace == [] then 0 else RunCount(trace[..|trace| - 1]) + if trace[|trace| - 1].Run? then 1 else 0
  }

  function TotalSleep(trace: seq<Event>): real {
    if trace == [] then 0.0
    else TotalSleep(trace[..|trace| - 1]) + if trace[|trace| - 1].Sleep? then trace[|trace| - 1].delay else 0.0
  }

  /** Retries allowed beyond the first run. */
  function Allowance(ms: seq<Middleware>): nat {
    var retry := FirstRetry(ms);
    if retry.Some? && retry.value.maxRetries > 0 then retry.value.maxRetries else 0
  }

  lemma RunsLast(ms: seq<Middleware>, n: nat)
    requires n > 0 && FirstRetry(ms).Some?
    ensures RunCount(Runs(ms, n)) == RunCount(Runs(ms, n - 1)) + 1
    ensures TotalSleep(Runs(ms, n)) == TotalSleep(Runs(ms, n - 1)) + DelayFor(FirstRetry(ms).value, n - 1)
  {
    var front, pause := Runs(ms, n - 1), Sleep(DelayFor(FirstRetry(ms).value, n - 1));
    var all := Runs(ms, n);
    assert all == (front + [pause]) + [Run(n)];
    assert all[..|all| - 1] == front + [pause];
    assert (front + [pause])[..|front|] == front;
  }

  lemma GeometricStep(f: real, initial: real, total: real, power: real, total': real, power': real)
    requires (f - 1.0) * total == initial * (power - 1.0)
    requires total' == total + initial * power && power' == f * power
    ensures (f - 1.0) * total' == initial * (power' - 1.0)
  {
    Nonlinear.Distribute(f - 1.0, total, initial * power);
    Regroup(f - 1.0, initial, power);
    Nonlinear.Distribute(initial, power - 1.0, (f - 1.0) * power);
  }

  lemma Regroup(a: real, b: real, c: real)
    ensures a * (b * c) == b * (a * c)
  {}

  lemma {:induction false} RunsCounted(ms: seq<Middleware>, n: nat)
    requires n > 0 ==> FirstRetry(ms).Some?
    ensures RunCount(Runs(ms, n)) == n + 1
  {
    if n == 0 {
      assert Runs(ms, 0)[..0] == [];
    } else {
      RunsCounted(ms, n - 1);
      RunsLast(ms, n);
    }
  }

  /** Total pause before the n-th retry. */
  function Pause(ms: seq<Middleware>, n: nat): real
    requires FirstRetry(ms).Some?
  {
    TotalSleep(Runs(ms, n))
  }

  lemma PauseStep(ms: seq<Middleware>, n: nat)
    requires FirstRetry(ms).Some?
    ensures Pause(ms, 0) == 0.0
    ensures n > 0 ==> Pause(ms, n) == Pause(ms, n - 1) + DelayFor(FirstRetry(ms).value, n - 1)
  {
    var first := Runs(ms, 0);
    assert first == [Run(0)] && first[..0] == [];
    assert TotalSleep(first) == TotalSleep(first[..0]) + 0.0;
    if n > 0 { RunsLast(ms, n); }
  }

  /** The pauses before the n-th retry add up to a geometric sum. */
  lemma {:induction false} BackoffIsGeometric(ms: seq<Middleware>, n: nat)
    requires FirstRetry(ms).Some?
    ensures var retry := FirstRetry(ms).value;
      (retry.backoffFactor - 1.0) * Pause(ms, n) == retry.initialDelay * (Nonlinear.Power(retry.backoffFactor, n) - 1.0)
  {
    var f, initial := FirstRetry(ms).value.backoffFactor, FirstRetry(ms).value.initialDelay;
    PauseStep(ms, n);
    if n > 0 {
      BackoffIsGeometric(ms, n - 1);
      GeometricStep(f, initial, Pause(ms, n - 1), Nonlinear.Power(f, n - 1), Pause(ms, n), Nonlinear.Power(f, n));
    }
  }

  /** Without growth the pauses are all the same. */
  lemma {:induction false} ConstantBackoff(ms: seq<Middleware>, n: nat)
    requires FirstRetry(ms).Some? && FirstRetry(ms).value.backoffFactor == 1.0
    ensures Pause(ms, n) == n as real * FirstRetry(ms).value.initialDelay
  {
    PauseStep(ms, n);
    if n > 0 {
      ConstantBackoff(ms, n - 1);
      PowerOfOne(n - 1);
      Nonlinear.Distribute(FirstRetry(ms).value.initialDelay, (n - 1) as real, 1.0);
    }
  }

  lemma {:induction false} PowerOfOne(n: nat)
    ensures Nonlinear.Power(1.0, n) == 1.0
  {
    if n > 0 { PowerOfOne(n - 1); }
  }

  /** Never more than max_retries + 1 runs; a failure still worth a retry is reported only when
      all of them were made. */
  lemma RunsBounded(toolName: string, tool: Tool, ctx: Context, ms: seq<Middleware>)
    ensures var n := LastRun(tool, ctx.args, ms, 0);
      && n <= Allowance(ms)
      && RunCount(Core(toolName, tool, ms, ctx).trace) == n + 1
      && (tool(ctx.args, n).Value? <==> Core(toolName, tool, ms, ctx).response.Done?)
    ensures var e := Core(toolName, tool, ms, ctx);
      e.response.Failed? && e.response.error.Elite? && e.response.error.retryable ==>
        RunCount(e.trace) == Allowance(ms) + 1
  {
    var n := LastRun(tool, ctx.args, ms, 0);
    if n > 0 {
      assert Again(tool, ctx.args, ms, n - 1);
    }
    RunsCounted(ms, n);
  }

  lemma DefaultPauses(ms: seq<Middleware>)
    requires FirstRetry(ms) == Some(Retry(2, 0.5, 2.0))
    ensures Pause(ms, 0) == 0.0 && Pause(ms, 1) == 0.5 && Pause(ms, 2) == 1.5
  {
    PauseStep(ms, 1);
    PauseStep(ms, 2);
    assert Nonlinear.Power(2.0, 0) == 1.0 && Nonlinear.Power(2.0, 1) == 2.0;
  }

  /** With the default policy a call pauses for at most a second and a half in all. */
  lemma DefaultPause(toolName: string, tool: Tool, ctx: Context, ms: seq<Middleware>)
    requires FirstRetry(ms) == Some(Retry(2, 0.5, 2.0))
    ensures TotalSleep(Core(toolName, tool, ms, ctx).trace) in [0.0, 0.5, 1.5]
  {
    RunsBounded(toolName, tool, ctx, ms);
    DefaultPauses(ms);
    assert TotalSleep(Core(toolName, tool, ms, ctx).trace) == Pause(ms, LastRun(tool, ctx.args, ms, 0));
  }

  /** The alternatives registered for a tool. */
  function Alternatives(ms: seq<Middleware>, toolName: string): seq<string> {
    var fallback := FirstFallback(ms);
    if fallback.Some? && toolName in fallback.value.registry then fallback.value.registry[toolName] else []
  }

  /** What the caller learns of an exception: a typed error with its code, its worth of a retry, and
      the registered alternatives, or the error's own where none are registered. */
  ghost predicate Describes(seen: Error, e: Error, toolName: string, alternatives: seq<string>) {
    && seen.Elite? && seen.retryable == WorthRetrying(e)
    && seen.code == (if e.Elite? then e.code else "tool_execution_failed")
    && seen.fallbacks == (if alternatives != [] then alternatives else if e.Elite? then e.fallbacks else [])
    && seen.message == (if e.Elite? then e.message
                        else "Tool `" + toolName + "` failed safely. Inspect local diagnostics for details.")
                     + (if alternatives != [] then " Try: " + Joined(alternatives) + "." else "")
  }

  lemma FailureMeaning(e: Error, toolName: string, ms: seq<Middleware>)
    ensures Describes(Failure(e, toolName, ms), e, toolName, Alternatives(ms, toolName))
  {
    var safe := Safe(e, toolName);
    assert safe.message + "" == safe.message;
  }

  // ----- the order of hooks

  function Afters(ms: seq<Middleware>): seq<Event> {
    if ms == [] then [] else [After(ms[|ms| - 1].name)] + Afters(ms[..|ms| - 1])
  }

  lemma {:induction false} BeforesFirst(m: Middleware, ms: seq<Middleware>)
    ensures Befores([m] + ms) == [Before(m.name)] + Befores(ms)
  {
    if ms == [] {
      BeforesLast([], m);
      assert [] + [m] == [m] + ms;
    } else {
      var init, last := ms[..|ms| - 1], ms[|ms| - 1];
      assert ms == init + [last] && [m] + ms == ([m] + init) + [last];
      BeforesFirst(m, init);
      BeforesLast([m] + init, last);
      BeforesLast(init, last);
      AppendAssociates([Before(m.name)], Befores(init), [Before(last.name)]);
    }
  }

  lemma AftersLast(ms: seq<Middleware>, m: Middleware)
    ensures Afters(ms + [m]) == [After(m.name)] + Afters(ms)
  {
    assert (ms + [m])[..|ms|] == ms;
  }

  lemma {:induction false} AftersFirst(m: Middleware, ms: seq<Middleware>)
    ensures Afters([m] + ms) == Afters(ms) + [After(m.name)]
  {
    if ms == [] {
      AftersLast([], m);
      assert [] + [m] == [m] + ms;
    } else {
      var init, last := ms[..|ms| - 1], ms[|ms| - 1];
      assert ms == init + [last] && [m] + ms == ([m] + init) + [last];
      AftersFirst(m, init);
      AftersLast([m] + init, last);
      AftersLast(init, last);
      AppendAssociates([After(last.name)], Afters(init), [After(m.name)]);
    }
  }

  /** The first before-hook that returns a result, or the number of hooks. */
  function FirstEarly(ms: seq<Middleware>, ctx: Context): (j: nat)
    ensures j <= |ms|
  {
    if ms == [] then 0
    else
      var (c, verdict) := ms[0].before(ctx);
      if verdict.Early? then 0 else 1 + FirstEarly(ms[1..], c)
  }

  /** The context in which the tool runs. */
  function Reached(ms: seq<Middleware>, ctx: Context): Context {
    if ms == [] then ctx else Reached(ms[1..], ms[0].before(ctx).0)
  }

  /** The i-th before-hook, given what those before it made of the context, returns a result. */
  predicate EarlyAt(ms: seq<Middleware>, ctx: Context, i: nat)
    requires i < |ms|
  {
    ms[i].before(Reached(ms[..i], ctx)).1.Early?
  }

  lemma {:induction false} FirstEarlyIs(ms: seq<Middleware>, ctx: Context)
    ensures forall i :: 0 <= i < FirstEarly(ms, ctx) ==> !EarlyAt(ms, ctx, i)
    ensures FirstEarly(ms, ctx) < |ms| ==> EarlyAt(ms, ctx, FirstEarly(ms, ctx))
  {
    if ms != [] {
      var c, rest := ms[0].before(ctx).0, ms[1..];
      FirstEarlyIs(rest, c);
      forall i | 0 < i < |ms| ensures EarlyAt(ms, ctx, i) == EarlyAt(rest, c, i - 1) {
        ReachedFirst(ms, ctx, i);
      }
    }
  }

  lemma ReachedFirst(ms: seq<Middleware>, ctx: Context, i: nat)
    requires 0 < i <= |ms|
    ensures Reached(ms[..i], ctx) == Reached(ms[1..][..i - 1], ms[0].before(ctx).0)
  {
    assert ms[..i][1..] == ms[1..][..i - 1];
  }

  lemma {:induction false} ShortExactly(ms: seq<Middleware>, core: Context -> Ended, ctx: Context)
    requires forall c :: !core(c).response.Short?
    ensures Layers(ms, core, ctx).response.Short? <==> FirstEarly(ms, ctx) < |ms|
  {
    if ms != [] { ShortExactly(ms[1..], core, ms[0].before(ctx).0); }
  }

  /** What the first before-hook to return a result does. */
  function EarlyHook(ms: seq<Middleware>, ctx: Context): (Context, Verdict)
    requires FirstEarly(ms, ctx) < |ms|
  {
    var j := FirstEarly(ms, ctx);
    ms[j].before(Reached(ms[..j], ctx))
  }

  /** A short circuit is the result of the first before-hook to return one, marked as such. */
  lemma {:induction false} ShortResult(ms: seq<Middleware>, core: Context -> Ended, ctx: Context)
    requires FirstEarly(ms, ctx) < |ms|
    ensures var (c, verdict) := EarlyHook(ms, ctx);
      && verdict.Early? && Layers(ms, core, ctx).ctx == c
      && Layers(ms, core, ctx).response == Short(CallResult(verdict.result.value, true, verdict.result.augmentations))
  {
    if !ms[0].before(ctx).1.Early? {
      ShortResult(ms[1..], core, ms[0].before(ctx).0);
      EarlyHookOutwards(ms, ctx);
      ShortOutwards(ms, core, ctx);
    }
  }

  /** It runs neither the tool nor any after-hook. */
  lemma {:induction false} ShortCircuit(ms: seq<Middleware>, core: Context -> Ended, ctx: Context)
    requires FirstEarly(ms, ctx) < |ms|
    ensures Layers(ms, core, ctx).response.Short?
    ensures Layers(ms, core, ctx).trace == Befores(ms[..FirstEarly(ms, ctx) + 1])
  {
    var (c, verdict) := ms[0].before(ctx);
    if verdict.Early? {
      BeforesOne(ms);
    } else {
      var j := FirstEarly(ms[1..], c);
      ShortCircuit(ms[1..], core, c);
      ShortOutwards(ms, core, ctx);
      BeforesPrefix(ms, j);
      assert FirstEarly(ms, ctx) == j + 1;
    }
  }

  lemma BeforesOne(ms: seq<Middleware>)
    requires ms != []
    ensures Befores(ms[..1]) == [Before(ms[0].name)]
  {
    assert ms[..1] == [] + [ms[0]];
    BeforesLast([], ms[0]);
  }

  lemma EarlyHookOutwards(ms: seq<Middleware>, ctx: Context)
    requires FirstEarly(ms, ctx) < |ms| && !ms[0].before(ctx).1.Early?
    ensures FirstEarly(ms, ctx) == 1 + FirstEarly(ms[1..], ms[0].before(ctx).0)
    ensures EarlyHook(ms, ctx) == EarlyHook(ms[1..], ms[0].before(ctx).0)
  {
    ReachedFirst(ms, ctx, FirstEarly(ms, ctx));
  }

  lemma ShortOutwards(ms: seq<Middleware>, core: Context -> Ended, ctx: Context)
    requires ms != [] && !ms[0].before(ctx).1.Early?
    requires Layers(ms[1..], core, ms[0].before(ctx).0).response.Short?
    ensures Layers(ms, core, ctx) == Enter(ms[0], Layers(ms[1..], core, ms[0].before(ctx).0))
  {}

  lemma BeforesPrefix(ms: seq<Middleware>, j: nat)
    requires j + 1 < |ms|
    ensures Befores(ms[..j + 2]) == [Before(ms[0].name)] + Befores(ms[1..][..j + 1])
  {
    BeforesFirst(ms[0], ms[1..][..j + 1]);
    assert ms[..j + 2] == [ms[0]] + ms[1..][..j + 1];
  }

  /** Otherwise every before-hook ran once in order of registration, then the tool, and after a
      success every after-hook once in the opposite order; after a failure none. */
  lemma {:induction false} HookOrder(ms: seq<Middleware>, core: Context -> Ended, ctx: Context)
    requires FirstEarly(ms, ctx) == |ms|
    ensures var inner := core(Reached(ms, ctx));
      && Layers(ms, core, ctx).trace ==
         Befores(ms) + inner.trace + (if inner.response.Done? then Afters(ms) else [])
      && (Layers(ms, core, ctx).response.Done? <==> inner.response.Done?)
      && (!inner.response.Done? ==> Layers(ms, core, ctx).response == inner.response)
  {
    var inner := core(Reached(ms, ctx));
    if ms == [] {
      assert [] + inner.trace + [] == inner.trace;
    } else {
      var c := ms[0].before(ctx).0;
      HookOrder(ms[1..], core, c);
      BeforesFirst(ms[0], ms[1..]);
      AftersFirst(ms[0], ms[1..]);
      assert ms == [ms[0]] + ms[1..];
      var front, back := Befores(ms[1..]), if inner.response.Done? then Afters(ms[1..]) else [];
      Surround([Before(ms[0].name)], front, inner.trace, back, [After(ms[0].name)]);
    }
  }

  // ----- what a call returns

  /** The after-hooks from the innermost, the last, outwards: each is given what the one before it
      left, and one that fails leaves the result as it was. */
  function Processed(ms: seq<Middleware>, ctx: Context, result: CallResult): (Context, CallResult) {
    if ms == [] then (ctx, result)
    else
      var (c, inner) := Processed(ms[1..], ctx, result);
      var (c', reply) := ms[0].after(c, inner);
      (c', if reply.Returns? then reply.result else inner)
  }

  lemma {:induction false} ResultOutwards(ms: seq<Middleware>, core: Context -> Ended, ctx: Context)
    requires FirstEarly(ms, ctx) == |ms| && core(Reached(ms, ctx)).response.Done?
    ensures var inner := core(Reached(ms, ctx));
      var (c, result) := Processed(ms, inner.ctx, inner.response.result);
      Layers(ms, core, ctx).ctx == c && Layers(ms, core, ctx).response == Done(result)
  {
    if ms != [] { ResultOutwards(ms[1..], core, ms[0].before(ctx).0); }
  }

  lemma {:induction false} FailureOutwards(ms: seq<Middleware>, core: Context -> Ended, ctx: Context)
    requires FirstEarly(ms, ctx) == |ms| && !core(Reached(ms, ctx)).response.Done?
    ensures Layers(ms, core, ctx).ctx == core(Reached(ms, ctx)).ctx
    ensures Layers(ms, core, ctx).response == core(Reached(ms, ctx)).response
  {
    if ms != [] { FailureOutwards(ms[1..], core, ms[0].before(ctx).0); }
  }

  /** How a call ends. The first before-hook that returns a result decides it, marked as a short
      circuit. Otherwise the tool's last run does: what it returned goes, without augmentations, to
      the after-hooks, and the retries it took into the context; what it raised is described. */
  ghost predicate CallEnds(ms: seq<Middleware>, toolName: string, tool: Tool, ctx: Context, e: Ended) {
    if FirstEarly(ms, ctx) < |ms| then
      var (c, verdict) := EarlyHook(ms, ctx);
      && verdict.Early? && e.ctx == c
      && e.response == Short(CallResult(verdict.result.value, true, verdict.result.augmentations))
    else
      var c := Reached(ms, ctx);
      var n := LastRun(tool, c.args, ms, 0);
      match tool(c.args, n)
      case Value(v) =>
        var (c', result) := Processed(ms, if n > 0 then c.(retryAttempts := Some(n)) else c, CallResult(v, false, []));
        e.ctx == c' && e.response == Done(result)
      case Raised(error) =>
        e.ctx == c && e.response.Failed? && Describes(e.response.error, error, toolName, Alternatives(ms, toolName))
  }

  lemma CallMeaning(ms: seq<Middleware>, toolName: string, tool: Tool, ctx: Context)
    ensures CallEnds(ms, toolName, tool, ctx, Layers(ms, CoreOf(toolName, tool, ms), ctx))
  {
    var core, c := CoreOf(toolName, tool, ms), Reached(ms, ctx);
    if FirstEarly(ms, ctx) < |ms| {
      ShortResult(ms, core, ctx);
    } else if core(c).response.Done? {
      ResultOutwards(ms, core, ctx);
    } else {
      FailureOutwards(ms, core, ctx);
      FailureMeaning(tool(c.args, LastRun(tool, c.args, ms, 0)).error, toolName, ms);
    }
  }

  /** An after-hook that hands on what it was given. */
  ghost predicate Passive(m: Middleware) {
    forall ctx, result :: m.after(ctx, result) == (ctx, Returns(result)) || m.after(ctx, result) == (ctx, Raises)
  }

  lemma {:induction false} ProcessedByPassive(ms: seq<Middleware>, ctx: Context, result: CallResult)
    requires forall m :: m in ms ==> Passive(m)
    ensures Processed(ms, ctx, result) == (ctx, result)
  {
    if ms != [] {
      ProcessedByPassive(ms[1..], ctx, result);
      assert Passive(ms[0]);
    }
  }

  /** Behind passive after-hooks a call returns exactly what the tool returned, and tells of the
      retries exactly when there were any. */
  lemma ResultUnchanged(ms: seq<Middleware>, toolName: string, tool: Tool, ctx: Context)
    requires forall m :: m in ms ==> Passive(m)
    requires FirstEarly(ms, ctx) == |ms| && Reached(ms, ctx).retryAttempts == None
    ensures var e := Layers(ms, CoreOf(toolName, tool, ms), ctx);
      var args := Reached(ms, ctx).args;
      var n := LastRun(tool, args, ms, 0);
      tool(args, n).Value? ==>
        && e.response == Done(CallResult(tool(args, n).value, false, []))
        && e.ctx.retryAttempts == if n > 0 then Some(n) else None
  {
    CallMeaning(ms, toolName, tool, ctx);
    var c := Reached(ms, ctx);
    var n := LastRun(tool, c.args, ms, 0);
    if tool(c.args, n).Value? {
      ProcessedByPassive(ms, if n > 0 then c.(retryAttempts := Some(n)) else c, CallResult(tool(c.args, n).value, false, []));
    }
  }

  lemma Surround(a: seq<Event>, b: seq<Event>, c: seq<Event>, d: seq<Event>, e: seq<Event>)
    ensures a + ((b + c + d) + e) == (a + b) + c + (d + e)
    ensures a + (b + c + d) == (a + b) + c + d
  {}

  /** Two chains one after the other are the second nested in the first. */
  lemma {:induction false} ChainsNest(a: seq<Middleware>, b: seq<Middleware>, core: Context -> Ended, ctx: Context)
    ensures Layers(a + b, core, ctx) == Layers(a, c => Layers(b, core, c), ctx)
  {
    if a == [] {
      assert a + b == b;
    } else {
      var (c, verdict) := a[0].before(ctx);
      assert (a + b)[0] == a[0] && (a + b)[1..] == a[1..] + b;
      ChainsNest(a[1..], b, core, c);
    }
  }

  // ----- hooks that always fail

  /** A plain middleware both of whose hooks fail without touching anything. */
  ghost predicate Broken(m: Middleware) {
    && m.kind.Plain?
    && (forall ctx :: m.before(ctx) == (ctx, Fails))
    && (forall ctx, result :: m.after(ctx, result) == (ctx, Raises))
  }

  /** The same end of the call, but for the trace. */
  ghost predicate SameEnd(e: Ended, f: Ended) { e.ctx == f.ctx && e.response == f.response }

  lemma {:induction false} LayersWithBroken(a: seq<Middleware>, m: Middleware, b: seq<Middleware>,
      core: Context -> Ended, core': Context -> Ended, ctx: Context)
    requires Broken(m) && forall c :: core(c) == core'(c)
    ensures SameEnd(Layers(a + [m] + b, core, ctx), Layers(a + b, core', ctx))
  {
    var with, without := a + [m] + b, a + b;
    if a == [] {
      assert with[0] == m && with[1..] == b && without == b;
      SameCore(b, core, core', ctx);
    } else {
      assert with[0] == a[0] == without[0];
      assert with[1..] == a[1..] + [m] + b && without[1..] == a[1..] + b;
      LayersWithBroken(a[1..], m, b, core, core', a[0].before(ctx).0);
    }
  }

  lemma {:induction false} SameCore(ms: seq<Middleware>, core: Context -> Ended, core': Context -> Ended, ctx: Context)
    requires forall c :: core(c) == core'(c)
    ensures Layers(ms, core, ctx) == Layers(ms, core', ctx)
  {
    if ms != [] { SameCore(ms[1..], core, core', ms[0].before(ctx).0); }
  }

  lemma {:induction false} PlainIsNoPolicy(a: seq<Middleware>, m: Middleware, b: seq<Middleware>)
    requires m.kind.Plain?
    ensures FirstRetry(a + [m] + b) == FirstRetry(a + b) && FirstFallback(a + [m] + b) == FirstFallback(a + b)
  {
    var with, without := a + [m] + b, a + b;
    if a == [] {
      assert with[0] == m && with[1..] == b && without == b;
    } else {
      assert with[0] == a[0] == without[0];
      assert with[1..] == a[1..] + [m] + b && without[1..] == a[1..] + b;
      PlainIsNoPolicy(a[1..], m, b);
    }
  }

  lemma {:induction false} SameRuns(ms: seq<Middleware>, ms': seq<Middleware>, n: nat)
    requires FirstRetry(ms) == FirstRetry(ms') && (n > 0 ==> FirstRetry(ms).Some?)
    ensures Runs(ms, n) == Runs(ms', n)
  {
    if n > 0 { SameRuns(ms, ms', n - 1); }
  }

  lemma SamePolicy(toolName: string, tool: Tool, ms: seq<Middleware>, ms': seq<Middleware>, ctx: Context)
    requires FirstRetry(ms) == FirstRetry(ms') && FirstFallback(ms) == FirstFallback(ms')
    ensures Core(toolName, tool, ms, ctx) == Core(toolName, tool, ms', ctx)
  {
    var n := LastRun(tool, ctx.args, ms, 0);
    assert forall k :: Again(tool, ctx.args, ms, k) <==> Again(tool, ctx.args, ms', k);
    StopsExactly(tool, ctx.args, ms', n);
    assert n > 0 ==> Again(tool, ctx.args, ms, 0);
    SameRuns(ms, ms', n);
  }

  /** A middleware whose hooks always fail changes nothing: every call ends as it would without it. */
  lemma BrokenIsHarmless(a: seq<Middleware>, m: Middleware, b: seq<Middleware>, toolName: string,
      tool: Tool, ctx: Context)
    requires Broken(m)
    ensures SameEnd(Layers(a + [m] + b, CoreOf(toolName, tool, a + [m] + b), ctx), Layers(a + b, CoreOf(toolName, tool, a + b), ctx))
  {
    PlainIsNoPolicy(a, m, b);
    forall c ensures CoreOf(toolName, tool, a + [m] + b)(c) == CoreOf(toolName, tool, a + b)(c) {
      SamePolicy(toolName, tool, a + [m] + b, a + b, c);
    }
    LayersWithBroken(a, m, b, CoreOf(toolName, tool, a + [m] + b), CoreOf(toolName, tool, a + b), ctx);
  }
}
