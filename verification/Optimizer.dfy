/** The optimisation loop: threshold triggers with a cooldown, over any run of ticks. */
module Optimizer {
  import opened Wrappers

  datatype Direction = Above | Below

  datatype Trigger = Trigger(name: string, threshold: real, direction: Direction, cooldownHours: real)

  /** What a tick sees for one trigger: the metric, and the clock when the cooldown is
      checked and when the firing is stamped. */
  datatype Moment = Moment(value: Option<real>, checkedAt: real, firedAt: real)

  datatype Event = Event(trigger: Trigger, value: real, checkedAt: real, firedAt: real)

  const CHECK_INTERVAL := 10

  predicate Breached(t: Trigger, value: real) {
    (t.direction == Below && value < t.threshold) || (t.direction == Above && value > t.threshold)
  }

  predicate InCooldown(t: Trigger, lastFired: map<string, real>, now: real) {
    t.name in lastFired && (now - lastFired[t.name]) / 3600.0 < t.cooldownHours
  }

  predicate Fires(t: Trigger, m: Moment, lastFired: map<string, real>) {
    !InCooldown(t, lastFired, m.checkedAt) && m.value.Some? && Breached(t, m.value.value)
  }

  /** The clock never runs backwards within or between the moments. */
  ghost predicate Monotone(moments: seq<Moment>, since: real) {
    && (forall i :: 0 <= i < |moments| ==> since <= moments[i].checkedAt <= moments[i].firedAt)
    && (forall i, j :: 0 <= i < j < |moments| ==> moments[i].firedAt <= moments[j].checkedAt)
  }

  /** Two firings under one name are at least the later trigger's cooldown apart. */
  ghost predicate Spaced(history: seq<Event>) {
    forall i, j :: 0 <= i < j < |history| && history[i].trigger.name == history[j].trigger.name ==>
      history[j].checkedAt - history[i].firedAt >= history[j].trigger.cooldownHours * 3600.0
  }

  /** lastFired holds, for every name that ever fired, its latest stamp. */
  ghost predicate Remembers(lastFired: map<string, real>, history: seq<Event>) {
    && (forall i :: 0 <= i < |history| ==>
          history[i].trigger.name in lastFired && history[i].firedAt <= lastFired[history[i].trigger.name])
    && (forall name :: name in lastFired ==>
          exists i :: 0 <= i < |history| && history[i].trigger.name == name && history[i].firedAt == lastFired[name])
  }

  /** The stamps after the first k triggers of one tick. */
  function Stamps(triggers: seq<Trigger>, moments: seq<Moment>, lastFired: map<string, real>, k: nat): map<string, real>
    requires k <= |triggers| == |moments|
  {
    if k == 0 then lastFired
    else
      var before := Stamps(triggers, moments, lastFired, k - 1);
      if Fires(triggers[k - 1], moments[k - 1], before)
      then before[triggers[k - 1].name := moments[k - 1].firedAt]
      else before
  }

  /** The firings among the first k triggers of one tick. */
  function Fired(triggers: seq<Trigger>, moments: seq<Moment>, lastFired: map<string, real>, k: nat): seq<Event>
    requires k <= |triggers| == |moments|
  {
    if k == 0 then []
    else
      Fired(triggers, moments, lastFired, k - 1) +
      if Fires(triggers[k - 1], moments[k - 1], Stamps(triggers, moments, lastFired, k - 1))
      then [EventOf(triggers[k - 1], moments[k - 1])]
      else []
  }

  function EventOf(t: Trigger, m: Moment): Event {
    Event(t, if m.value.Some? then m.value.value else 0.0, m.checkedAt, m.firedAt)
  }

  /** Everything a run of ticks keeps: spaced firings, each a real breach, none in the future. */
  ghost predicate Consistent(lastFired: map<string, real>, history: seq<Event>, clock: real) {
    && Spaced(history) && Remembers(lastFired, history)
    && (forall i :: 0 <= i < |history| ==> history[i].firedAt <= clock)
    && (forall i :: 0 <= i < |history| ==> Breached(history[i].trigger, history[i].value))
  }

  lemma ConsistentStep(lastFired: map<string, real>, history: seq<Event>, clock: real, t: Trigger, m: Moment)
    requires Consistent(lastFired, history, clock) && clock <= m.checkedAt <= m.firedAt
    ensures if Fires(t, m, lastFired)
            then Consistent(lastFired[t.name := m.firedAt], history + [EventOf(t, m)], m.firedAt)
            else Consistent(lastFired, history, m.firedAt)
  {
    if Fires(t, m, lastFired) { FiringKeepsSpacing(lastFired, history, EventOf(t, m)); }
  }

  lemma CooldownElapsed(now: real, last: real, hours: real)
    requires (now - last) / 3600.0 >= hours
    ensures now - last >= hours * 3600.0
  {}

  /** One firing outside its cooldown keeps the whole history spaced and remembered. */
  lemma FiringKeepsSpacing(lastFired: map<string, real>, history: seq<Event>, e: Event)
    requires Spaced(history) && Remembers(lastFired, history)
    requires !InCooldown(e.trigger, lastFired, e.checkedAt) && e.checkedAt <= e.firedAt
    requires forall i :: 0 <= i < |history| ==> history[i].firedAt <= e.checkedAt
    ensures Spaced(history + [e]) && Remembers(lastFired[e.trigger.name := e.firedAt], history + [e])
  {
    var name := e.trigger.name;
    if name in lastFired { CooldownElapsed(e.checkedAt, lastFired[name], e.trigger.cooldownHours); }
    var h, stamps := history + [e], lastFired[name := e.firedAt];
    assert h[|history|] == e;
    forall other | other in stamps
      ensures exists i :: 0 <= i < |h| && h[i].trigger.name == other && h[i].firedAt == stamps[other]
    {
      if other != name {
        var i :| 0 <= i < |history| && history[i].trigger.name == other && history[i].firedAt == lastFired[other];
        assert h[i] == history[i];
      }
    }
  }

  lemma {:induction false} TickConsistent(triggers: seq<Trigger>, moments: seq<Moment>, lastFired: map<string, real>,
                                          history: seq<Event>, clock: real, later: real, k: nat)
    requires k <= |triggers| == |moments| && Consistent(lastFired, history, clock) && Monotone(moments, clock)
    requires later >= if k == 0 then clock else moments[k - 1].firedAt
    decreases k
    ensures Consistent(Stamps(triggers, moments, lastFired, k), history + Fired(triggers, moments, lastFired, k), later)
  {
    if k == 0 {
      assert history + [] == history;
    } else {
      var t, m := triggers[k - 1], moments[k - 1];
      TickConsistent(triggers, moments, lastFired, history, clock, m.checkedAt, k - 1);
      var before := history + Fired(triggers, moments, lastFired, k - 1);
      ConsistentStep(Stamps(triggers, moments, lastFired, k - 1), before, m.checkedAt, t, m);
      assert before + [EventOf(t, m)] == history + (Fired(triggers, moments, lastFired, k - 1) + [EventOf(t, m)]);
      assert before == history + (Fired(triggers, moments, lastFired, k - 1) + []);
    }
  }

  // ----- what a tick fires

  /** The metric is on the wrong side of the threshold: above an upper one or below a lower one. */
  ghost predicate Crosses(t: Trigger, m: Moment) {
    m.value.Some? && match t.direction
      case Above => m.value.value > t.threshold
      case Below => m.value.value < t.threshold
  }

  /** Every one of these firings of the same name is at least a cooldown ago. */
  ghost predicate Rested(t: Trigger, now: real, firings: seq<Event>) {
    forall i :: 0 <= i < |firings| && firings[i].trigger.name == t.name ==> now - firings[i].firedAt >= t.cooldownHours * 3600.0
  }

  /** A trigger fires exactly when its metric crosses its threshold and it has rested since every
      firing of its name that ever was. */
  lemma FiresExactly(t: Trigger, m: Moment, lastFired: map<string, real>, history: seq<Event>)
    requires Remembers(lastFired, history)
    ensures Fires(t, m, lastFired) <==> Crosses(t, m) && Rested(t, m.checkedAt, history)
  {
    CooldownExactly(t, m.checkedAt, lastFired, history);
  }

  lemma CooldownExactly(t: Trigger, now: real, lastFired: map<string, real>, history: seq<Event>)
    requires Remembers(lastFired, history)
    ensures InCooldown(t, lastFired, now) <==> !Rested(t, now, history)
  {
    if t.name in lastFired {
      HoursExactly(now, lastFired[t.name], t.cooldownHours);
      var i :| 0 <= i < |history| && history[i].trigger.name == t.name && history[i].firedAt == lastFired[t.name];
      assert Rested(t, now, history) ==> now - history[i].firedAt >= t.cooldownHours * 3600.0;
    }
  }

  lemma HoursExactly(now: real, last: real, hours: real)
    ensures (now - last) / 3600.0 < hours <==> now - last < hours * 3600.0
  {}

  /** The event of this trigger at this moment. */
  ghost predicate IsFiring(t: Trigger, m: Moment, e: Event) {
    e.trigger == t && m.value == Some(e.value) && e.checkedAt == m.checkedAt && e.firedAt == m.firedAt
  }

  /** The firings of the first k triggers of a tick: those at these positions, in order. A trigger
      fires if its metric crosses its threshold and it has rested since every firing of its name in
      the earlier ticks, and in this one before it. */
  ghost predicate FiredAt(triggers: seq<Trigger>, moments: seq<Moment>, history: seq<Event>, events: seq<Event>, k: nat,
      at: seq<nat>)
    requires k <= |triggers| == |moments|
  {
    && |at| == |events| && (forall i, j :: 0 <= i < j < |at| ==> at[i] < at[j])
    && (forall i :: 0 <= i < |at| ==> at[i] < k && IsFiring(triggers[at[i]], moments[at[i]], events[i]))
    && (forall n :: 0 <= n < k ==> (n in at <==> Due(triggers[n], moments[n], history, events, at, n)))
  }

  ghost predicate Due(t: Trigger, m: Moment, history: seq<Event>, events: seq<Event>, at: seq<nat>, n: nat)
    requires |at| == |events|
  {
    Crosses(t, m) && Rested(t, m.checkedAt, history) && RestedWithin(t, m.checkedAt, events, at, n)
  }

  /** Rested since the firings of this tick at positions before n. */
  ghost predicate RestedWithin(t: Trigger, now: real, events: seq<Event>, at: seq<nat>, n: nat)
    requires |at| == |events|
  {
    forall i :: 0 <= i < |at| && at[i] < n && events[i].trigger.name == t.name ==>
      now - events[i].firedAt >= t.cooldownHours * 3600.0
  }

  lemma {:induction false} TickFiresExactly(triggers: seq<Trigger>, moments: seq<Moment>, lastFired: map<string, real>,
      history: seq<Event>, clock: real, k: nat) returns (at: seq<nat>)
    requires k <= |triggers| == |moments| && Consistent(lastFired, history, clock) && Monotone(moments, clock)
    ensures FiredAt(triggers, moments, history, Fired(triggers, moments, lastFired, k), k, at)
  {
    at := [];
    if k > 0 {
      at := TickFiresExactly(triggers, moments, lastFired, history, clock, k - 1);
      var before := Fired(triggers, moments, lastFired, k - 1);
      LastIsDue(triggers, moments, lastFired, history, clock, k, at);
      if Fires(triggers[k - 1], moments[k - 1], Stamps(triggers, moments, lastFired, k - 1)) {
        FiredNext(triggers, moments, history, before, k, at, EventOf(triggers[k - 1], moments[k - 1]));
        at := at + [k - 1];
      } else {
        NotFiredNext(triggers, moments, history, before, k, at);
        assert before + [] == before;
      }
    }
  }

  lemma NotFiredNext(triggers: seq<Trigger>, moments: seq<Moment>, history: seq<Event>, before: seq<Event>, k: nat,
      at: seq<nat>)
    requires 0 < k <= |triggers| == |moments| && FiredAt(triggers, moments, history, before, k - 1, at)
    requires !Due(triggers[k - 1], moments[k - 1], history, before, at, k - 1)
    ensures FiredAt(triggers, moments, history, before, k, at)
  {
    assert forall i :: 0 <= i < |at| ==> at[i] != k - 1;
  }

  lemma LastIsDue(triggers: seq<Trigger>, moments: seq<Moment>, lastFired: map<string, real>, history: seq<Event>,
      clock: real, k: nat, at: seq<nat>)
    requires 0 < k <= |triggers| == |moments| && Consistent(lastFired, history, clock) && Monotone(moments, clock)
    requires FiredAt(triggers, moments, history, Fired(triggers, moments, lastFired, k - 1), k - 1, at)
    ensures Fires(triggers[k - 1], moments[k - 1], Stamps(triggers, moments, lastFired, k - 1)) <==>
      Due(triggers[k - 1], moments[k - 1], history, Fired(triggers, moments, lastFired, k - 1), at, k - 1)
  {
    var t, m, before := triggers[k - 1], moments[k - 1], Fired(triggers, moments, lastFired, k - 1);
    TickConsistent(triggers, moments, lastFired, history, clock, m.checkedAt, k - 1);
    FiresExactly(t, m, Stamps(triggers, moments, lastFired, k - 1), history + before);
    RestedSplits(t, m.checkedAt, history, before);
    assert Rested(t, m.checkedAt, before) <==> RestedWithin(t, m.checkedAt, before, at, k - 1);
  }

  lemma RestedSplits(t: Trigger, now: real, history: seq<Event>, events: seq<Event>)
    ensures Rested(t, now, history + events) <==> Rested(t, now, history) && Rested(t, now, events)
  {
    var all := history + events;
    if Rested(t, now, all) {
      forall i | 0 <= i < |history| && history[i].trigger.name == t.name
        ensures now - history[i].firedAt >= t.cooldownHours * 3600.0
      {
        assert all[i] == history[i];
      }
      forall i | 0 <= i < |events| && events[i].trigger.name == t.name
        ensures now - events[i].firedAt >= t.cooldownHours * 3600.0
      {
        assert all[|history| + i] == events[i];
      }
    }
  }

  lemma FiredNext(triggers: seq<Trigger>, moments: seq<Moment>, history: seq<Event>, before: seq<Event>, k: nat,
      at: seq<nat>, e: Event)
    requires 0 < k <= |triggers| == |moments| && FiredAt(triggers, moments, history, before, k - 1, at)
    requires Due(triggers[k - 1], moments[k - 1], history, before, at, k - 1) && e == EventOf(triggers[k - 1], moments[k - 1])
    ensures FiredAt(triggers, moments, history, before + [e], k, at + [k - 1])
  {
    var events, at' := before + [e], at + [k - 1];
    forall n | 0 <= n < k ensures n in at' <==> Due(triggers[n], moments[n], history, events, at', n) {
      LaterFiringsIgnored(triggers[n], moments[n].checkedAt, before, at, e, k - 1, n);
      assert at'[|at|] == k - 1;
    }
  }

  lemma LaterFiringsIgnored(t: Trigger, now: real, before: seq<Event>, at: seq<nat>, e: Event, last: nat, n: nat)
    requires |at| == |before| && n <= last
    ensures RestedWithin(t, now, before + [e], at + [last], n) <==> RestedWithin(t, now, before, at, n)
  {
    var events, at' := before + [e], at + [last];
    assert forall i :: 0 <= i < |at| ==> at'[i] == at[i] && events[i] == before[i];
    if RestedWithin(t, now, events, at', n) {
      forall i | 0 <= i < |at| && at[i] < n && before[i].trigger.name == t.name
        ensures now - before[i].firedAt >= t.cooldownHours * 3600.0
      {
        assert at'[i] < n && events[i] == before[i];
      }
    }
  }

  class OptimizationLoop {
    const triggers: seq<Trigger>
    var lastFired: map<string, real>
    var callCount: nat
    ghost var history: seq<Event>   // every firing so far
    ghost var clock: real           // latest clock reading so far

    ghost predicate Valid()
      reads this
    {
      Consistent(lastFired, history, clock)
    }

    constructor (triggers: seq<Trigger>, start: real)
      ensures Valid() && this.triggers == triggers && lastFired == map[] && callCount == 0
      ensures history == [] && clock == start
    {
      this.triggers, lastFired, callCount, history, clock := triggers, map[], 0, [], start;
    }

    /** True on every tenth call. */
    method ShouldCheck() returns (due: bool)
      requires Valid()
      modifies this`callCount
      ensures Valid() && callCount == old(callCount) + 1
      ensures due <==> exists k: nat :: callCount == CHECK_INTERVAL * k
    {
      callCount := callCount + 1;
      due := callCount % CHECK_INTERVAL == 0;
      if due { assert callCount == CHECK_INTERVAL * (callCount / CHECK_INTERVAL); }
    }

    method Tick(moments: seq<Moment>, ghost endOfTick: real) returns (events: seq<Event>)
      requires Valid() && |moments| == |triggers| && Monotone(moments, clock)
      requires clock <= endOfTick && forall i :: 0 <= i < |moments| ==> moments[i].firedAt <= endOfTick
      modifies this`lastFired, this`history, this`clock
      ensures Valid() && clock == endOfTick
      ensures events == Fired(triggers, moments, old(lastFired), |triggers|)
      ensures lastFired == Stamps(triggers, moments, old(lastFired), |triggers|)
      ensures history == old(history) + events
      ensures exists at :: FiredAt(triggers, moments, old(history), events, |triggers|, at)
    {
      events := [];
      for k := 0 to |triggers|
        invariant history == old(history) && clock == old(clock)
        invariant events == Fired(triggers, moments, old(lastFired), k)
        invariant lastFired == Stamps(triggers, moments, old(lastFired), k)
      {
        var t, m := triggers[k], moments[k];
        if !InCooldown(t, lastFired, m.checkedAt) && m.value.Some? && Breached(t, m.value.value) {
          events := events + [Event(t, m.value.value, m.checkedAt, m.firedAt)];
          lastFired := lastFired[t.name := m.firedAt];
        }
      }
      TickConsistent(triggers, moments, old(lastFired), history, clock, endOfTick, |triggers|);
      ghost var at := TickFiresExactly(triggers, moments, old(lastFired), history, clock, |triggers|);
      history := history + events;
      clock := endOfTick;
    }
  }
}
