/**
 * The expert advisor's runtime: its lifecycle flags, the order in which it calls
 * the configure and tick hooks of itself and its enabled components, and the
 * queue and lock around tick processing.
 *
 * Every hook (a component's configure/onTick/onLateTick, the advisor's own
 * configure/onTick/onStart/onStop) is code the runtime does not see. Each call
 * is wrapped in its own try/catch, so all the runtime observes of a hook is
 * whether it threw; that is the parameter `throws`. A call's trace records each
 * hook called, in order, with whether it threw.
 */
module ExpertAdvisors {
  import opened Wrappers
  import opened Seqs
  import opened BrokerOrders
  import opened BrokerPositions
  import opened AdvisorViews
  import opened TickSerializer

  datatype Hook =
    | ComponentConfigure(component: Component)
    | AdvisorConfigure
    | ComponentOnTick(component: Component, tick: Tick)
    | ComponentOnLateTick(component: Component, tick: Tick)
    | AdvisorOnTick(tick: Tick)
    | OnStart
    | OnStop

  datatype HookCall = HookCall(hook: Hook, threw: bool)

  const StartEvent := "start"
  const StopEvent := "stop"

  /** The hooks that configuring calls: each enabled component's, then the advisor's own. */
  function ConfigurePlan(components: seq<Component>): seq<Hook>
  {
    var enabled := EnabledComponents(components);
    seq(|enabled|, i requires 0 <= i < |enabled| => ComponentConfigure(enabled[i])) + [AdvisorConfigure]
  }

  /**
   * The component list as a hook can leave it: the list itself is fixed at
   * construction, so only each component's own state (its `enabled` flag) may
   * change, never which components are registered or their order.
   */
  predicate SameRegistrations(before: seq<Component>, after: seq<Component>)
  {
    |after| == |before| && forall i :: 0 <= i < |before| ==> after[i].name == before[i].name
  }

  /**
   * The hooks that processing `tick` calls: the onTick of every component
   * enabled in `before`, then the onLateTick of every component enabled in
   * `after`, then the advisor's onTick. `before` is the component list when the
   * tick's processing starts and `after` the list as the onTick hooks leave it,
   * since the second loop reads the enabled components again.
   */
  function TickPlan(before: seq<Component>, after: seq<Component>, tick: Tick): seq<Hook>
  {
    var early, late := EnabledComponents(before), EnabledComponents(after);
    seq(|early|, i requires 0 <= i < |early| => ComponentOnTick(early[i], tick))
    + seq(|late|, i requires 0 <= i < |late| => ComponentOnLateTick(late[i], tick))
    + [AdvisorOnTick(tick)]
  }

  /** `trace` calls the hooks of `plan` one by one, in order, each recording whether it threw. */
  ghost predicate Runs(trace: seq<HookCall>, plan: seq<Hook>, throws: Hook -> bool)
  {
    && |trace| == |plan|
    && forall i :: 0 <= i < |trace| ==> trace[i] == HookCall(plan[i], throws(plan[i]))
  }

  /** Running two plans one after the other runs their concatenation. */
  lemma RunsAppend(t1: seq<HookCall>, p1: seq<Hook>, t2: seq<HookCall>, p2: seq<Hook>, throws: Hook -> bool)
    requires Runs(t1, p1, throws) && Runs(t2, p2, throws)
    ensures Runs(t1 + t2, p1 + p2, throws)
  {
  }

  /**
   * Configuring calls configure on exactly the enabled components, once each,
   * and the advisor's own configure once, last.
   */
  lemma ConfigurePlanShape(components: seq<Component>)
    ensures |ConfigurePlan(components)| == |EnabledComponents(components)| + 1
    ensures ConfigurePlan(components)[|ConfigurePlan(components)| - 1] == AdvisorConfigure
    ensures forall i :: 0 <= i < |ConfigurePlan(components)| - 1 ==> ConfigurePlan(components)[i].ComponentConfigure?
    ensures forall c :: ComponentConfigure(c) in ConfigurePlan(components) <==> c in components && c.enabled
  {
    var enabled, plan := EnabledComponents(components), ConfigurePlan(components);
    EnabledComponentsMembership(components);
    forall c | ComponentConfigure(c) in plan ensures c in enabled {
      var i :| 0 <= i < |plan| && plan[i] == ComponentConfigure(c);
      assert plan[i] == ComponentConfigure(enabled[i]);
    }
    forall c | c in enabled ensures ComponentConfigure(c) in plan {
      var i :| 0 <= i < |enabled| && enabled[i] == c;
      assert plan[i] == ComponentConfigure(c);
    }
  }

  /** Where each hook sits in the tick plan. */
  lemma TickPlanAt(before: seq<Component>, after: seq<Component>, tick: Tick)
    ensures |TickPlan(before, after, tick)| == |EnabledComponents(before)| + |EnabledComponents(after)| + 1
    ensures forall i :: 0 <= i < |EnabledComponents(before)| ==>
      TickPlan(before, after, tick)[i] == ComponentOnTick(EnabledComponents(before)[i], tick)
    ensures forall i :: 0 <= i < |EnabledComponents(after)| ==>
      TickPlan(before, after, tick)[|EnabledComponents(before)| + i] == ComponentOnLateTick(EnabledComponents(after)[i], tick)
    ensures TickPlan(before, after, tick)[|EnabledComponents(before)| + |EnabledComponents(after)|] == AdvisorOnTick(tick)
    ensures forall i :: 0 <= i < |TickPlan(before, after, tick)| ==>
      && (TickPlan(before, after, tick)[i].ComponentOnTick? <==> i < |EnabledComponents(before)|)
      && (TickPlan(before, after, tick)[i].ComponentOnLateTick? <==>
            |EnabledComponents(before)| <= i < |EnabledComponents(before)| + |EnabledComponents(after)|)
  {
    var plan, n, m := TickPlan(before, after, tick), |EnabledComponents(before)|, |EnabledComponents(after)|;
    forall i | 0 <= i < |plan|
      ensures (plan[i].ComponentOnTick? <==> i < n) && (plan[i].ComponentOnLateTick? <==> n <= i < n + m)
    {
      if n <= i < n + m {
        assert plan[n + (i - n)] == plan[i];
      }
    }
  }

  /**
   * Processing a tick hands that tick to every hook; every onTick runs before
   * any onLateTick; the advisor's onTick runs once, last.
   */
  lemma TickPlanOrder(before: seq<Component>, after: seq<Component>, tick: Tick)
    ensures TickPlan(before, after, tick)[|TickPlan(before, after, tick)| - 1] == AdvisorOnTick(tick)
    ensures forall i :: 0 <= i < |TickPlan(before, after, tick)| - 1 ==> !TickPlan(before, after, tick)[i].AdvisorOnTick?
    ensures forall h :: h in TickPlan(before, after, tick) ==>
      (h.ComponentOnTick? || h.ComponentOnLateTick? || h.AdvisorOnTick?) && h.tick == tick
    ensures forall i, j :: 0 <= i < |TickPlan(before, after, tick)| && 0 <= j < |TickPlan(before, after, tick)| ==>
      (TickPlan(before, after, tick)[i].ComponentOnTick? && TickPlan(before, after, tick)[j].ComponentOnLateTick? ==> i < j)
  {
    var plan := TickPlan(before, after, tick);
    var n, m := |EnabledComponents(before)|, |EnabledComponents(after)|;
    TickPlanAt(before, after, tick);
    forall i | 0 <= i < |plan|
      ensures (plan[i].ComponentOnTick? <==> i < n) && (plan[i].ComponentOnLateTick? <==> n <= i < n + m)
      ensures (plan[i].ComponentOnTick? || plan[i].ComponentOnLateTick? || plan[i].AdvisorOnTick?) && plan[i].tick == tick
    {
      if n <= i < n + m {
        assert plan[n + (i - n)] == plan[i];
      }
    }
  }

  /** Exactly the components enabled when the tick's processing starts see it in onTick. */
  lemma TickPlanOnTickMembers(before: seq<Component>, after: seq<Component>, tick: Tick)
    ensures forall c :: ComponentOnTick(c, tick) in TickPlan(before, after, tick) <==> c in before && c.enabled
  {
    var enabled, plan := EnabledComponents(before), TickPlan(before, after, tick);
    var n := |enabled|;
    TickPlanAt(before, after, tick);
    assert forall c :: ComponentOnTick(c, tick) in plan <==> c in enabled by {
      forall c | ComponentOnTick(c, tick) in plan ensures c in enabled {
        var i :| 0 <= i < |plan| && plan[i] == ComponentOnTick(c, tick);
        assert plan[i] == ComponentOnTick(enabled[i], tick);
      }
      forall c | c in enabled ensures ComponentOnTick(c, tick) in plan {
        var i :| 0 <= i < n && enabled[i] == c;
        assert plan[i] == ComponentOnTick(c, tick);
      }
    }
    EnabledComponentsMembership(before);
  }

  /**
   * Exactly the components enabled once the onTick hooks have run see the tick
   * in onLateTick: a component an onTick hook disables gets no onLateTick.
   */
  lemma TickPlanLateTickMembers(before: seq<Component>, after: seq<Component>, tick: Tick)
    ensures forall c :: ComponentOnLateTick(c, tick) in TickPlan(before, after, tick) <==> c in after && c.enabled
  {
    var late, plan := EnabledComponents(after), TickPlan(before, after, tick);
    var n, m := |EnabledComponents(before)|, |late|;
    TickPlanAt(before, after, tick);
    assert forall c :: ComponentOnLateTick(c, tick) in plan <==> c in late by {
      forall c | ComponentOnLateTick(c, tick) in plan ensures c in late {
        var i :| 0 <= i < |plan| && plan[i] == ComponentOnLateTick(c, tick);
        assert plan[n + (i - n)] == plan[i];
      }
      forall c | c in late ensures ComponentOnLateTick(c, tick) in plan {
        var i :| 0 <= i < m && late[i] == c;
        assert plan[n + i] == ComponentOnLateTick(c, tick);
      }
    }
    EnabledComponentsMembership(after);
  }

  /**
   * Only registered components see a tick in onLateTick: each one is, at the
   * same position, a component that was registered when the tick arrived.
   */
  lemma LateTickOnlyRegistered(before: seq<Component>, after: seq<Component>, tick: Tick, c: Component)
    requires SameRegistrations(before, after)
    requires ComponentOnLateTick(c, tick) in TickPlan(before, after, tick)
    ensures exists i :: 0 <= i < |before| && after[i] == c && before[i].name == c.name
  {
    TickPlanLateTickMembers(before, after, tick);
    var i :| 0 <= i < |after| && after[i] == c;
    assert before[i].name == c.name;
  }

  /** The loop of the enabled-components view: keep the enabled components, in order. */
  method CollectEnabled(components: seq<Component>) returns (enabled: seq<Component>)
    ensures enabled == EnabledComponents(components)
  {
    enabled := [];
    for i := 0 to |components|
      invariant enabled == Filter(components[..i], IsEnabled)
    {
      FilterPrefixStep(components, i, IsEnabled);
      if IsEnabled(components[i]) {
        enabled := enabled + [components[i]];
      }
    }
    assert components[..|components|] == components;
  }

  /** The loop of the open-positions view: keep the open positions, in order. */
  method CollectOpen(ps: seq<Position>) returns (open: seq<Position>)
    ensures open == Filter(ps, IsOpen)
  {
    open := [];
    for i := 0 to |ps|
      invariant open == Filter(ps[..i], IsOpen)
    {
      FilterPrefixStep(ps, i, IsOpen);
      if IsOpen(ps[i]) {
        open := open + [ps[i]];
      }
    }
    assert ps[..|ps|] == ps;
  }

  class ExpertAdvisor {
    var isOperative: bool
    var orders: seq<BrokerOrder>
    var capturedTicks: seq<Tick>
    var tickEventQueue: seq<Tick>
    var isTickEventLocked: bool
    var isConfigured: bool
    var components: seq<Component>
    /** The tick processings that have begun and not ended. */
    ghost var inFlight: multiset<Tick>
    /** The ticks whose processing has begun, in order. */
    ghost var started: seq<Tick>
    /** The event types the advisor has notified its listeners of, in order. */
    ghost var notifications: seq<string>

    /** The tick bookkeeping, as the state that TickSerializer describes. */
    ghost function Serializer(): State
      reads this`tickEventQueue, this`isTickEventLocked, this`inFlight, this`started
    {
      State(tickEventQueue, isTickEventLocked, inFlight, started)
    }

    /**
     * The tick invariant: the captured ticks are those whose processing has
     * begun followed by those waiting in the queue, and at most the last one
     * begun is being processed (see TickSerializer.Serialized).
     */
    ghost predicate Valid()
      reads this`tickEventQueue, this`isTickEventLocked, this`inFlight, this`started, this`capturedTicks
    {
      Serialized(Serializer(), capturedTicks)
    }

    /** A new advisor: not operative, not configured, idle, with nothing recorded. */
    constructor ()
      ensures !isOperative && !isConfigured
      ensures orders == [] && components == [] && capturedTicks == []
      ensures Serializer() == Idle
      ensures notifications == []
      ensures Valid()
    {
      isOperative := false;
      orders := [];
      capturedTicks := [];
      tickEventQueue := [];
      isTickEventLocked := false;
      isConfigured := false;
      components := [];
      inFlight := multiset{};
      started := [];
      notifications := [];
    }

    /** The enabled components, in registration order. */
    method ListEnabledComponents() returns (r: seq<Component>)
      ensures r == EnabledComponents(components)
    {
      r := CollectEnabled(components);
    }

    /** The orders with status FILLED, collected by one pass over the orders. */
    method ListFilledOrders() returns (r: seq<BrokerOrder>)
      ensures r == FilledOrders(orders)
    {
      r := [];
      for i := 0 to |orders|
        invariant r == FilledOrders(orders[..i])
      {
        assert orders[..i + 1] == orders[..i] + [orders[i]];
        FilledOrdersSnoc(orders[..i], orders[i]);
        if orders[i].status == Filled {
          r := r + [orders[i]];
        }
      }
      assert orders[..|orders|] == orders;
    }

    /** The deals of the filled orders, appended order by order. */
    method ListFilledOrdersDeals() returns (r: seq<Deal>)
      ensures r == FilledOrdersDeals(orders)
    {
      var filled := ListFilledOrders();
      r := [];
      for i := 0 to |filled|
        invariant r == ConcatDeals(filled[..i])
      {
        assert filled[..i + 1][..i] == filled[..i];
        r := r + filled[i].deals;
      }
      assert filled[..|filled|] == filled;
    }

    /**
     * The positions of the filled orders, through a Map keyed by position id;
     * `None` where reading the id of a missing position throws.
     */
    method ListPositions() returns (r: Option<seq<Position>>)
      ensures r == GetPositions(orders)
    {
      var filled := ListFilledOrders();
      var entries: seq<Position> := [];
      for i := 0 to |filled|
        invariant FilledPositions(filled[..i]).Some?
        invariant entries == PositionMap(FilledPositions(filled[..i]).value)
      {
        var prefix, next := filled[..i], filled[..i + 1];
        assert next[..i] == prefix && next[i] == filled[i];
        var position := ResolvePosition(filled[i].positionGetter);
        if position.None? {
          assert filled[i] in filled;
          return None;
        }
        var ps := FilledPositions(prefix).value;
        assert FilledPositions(next) == Some(ps + [position.value]);
        assert (ps + [position.value])[..|ps|] == ps;
        entries := SetPosition(entries, position.value);
      }
      assert filled[..|filled|] == filled;
      r := Some(entries);
    }

    /** The open positions among ListPositions, in its order. */
    method ListOpenPositions() returns (r: Option<seq<Position>>)
      ensures r == OpenPositions(orders)
    {
      var positions := ListPositions();
      if positions.None? {
        return None;
      }
      var open := CollectOpen(positions.value);
      r := Some(open);
    }

    /**
     * Configures every enabled component, then the advisor itself; a hook that
     * throws is logged and the next one still runs.
     */
    method Configure(throws: Hook -> bool) returns (trace: seq<HookCall>)
      ensures Runs(trace, ConfigurePlan(components), throws)
    {
      var enabled := ListEnabledComponents();
      trace := [];
      for i := 0 to |enabled|
        invariant |trace| == i
        invariant forall k :: 0 <= k < i ==> trace[k] == HookCall(ComponentConfigure(enabled[k]), throws(ComponentConfigure(enabled[k])))
      {
        var hook := ComponentConfigure(enabled[i]);
        trace := trace + [HookCall(hook, throws(hook))];
      }
      trace := trace + [HookCall(AdvisorConfigure, throws(AdvisorConfigure))];
    }

    /**
     * The hooks that process `tick`, between taking the lock and releasing it:
     * each enabled component's onTick, then each one's onLateTick, then the
     * advisor's onTick; a hook that throws is logged and the next one still runs.
     * The onTick hooks may enable or disable components (`after` is the list
     * as they leave it), and the second loop reads the enabled components again.
     */
    method RunTickHooks(tick: Tick, throws: Hook -> bool, after: seq<Component>) returns (trace: seq<HookCall>)
      requires SameRegistrations(components, after)
      modifies this`components
      ensures components == after
      ensures Runs(trace, TickPlan(old(components), after, tick), throws)
    {
      var enabled := ListEnabledComponents();
      var n := |enabled|;
      var early := [];
      for i := 0 to n
        invariant Runs(early, seq(i, k requires 0 <= k < i => ComponentOnTick(enabled[k], tick)), throws)
      {
        var hook := ComponentOnTick(enabled[i], tick);
        early := early + [HookCall(hook, throws(hook))];
      }
      components := after;
      var late := ListEnabledComponents();
      var m := |late|;
      var lateTrace := [];
      for i := 0 to m
        invariant Runs(lateTrace, seq(i, k requires 0 <= k < i => ComponentOnLateTick(late[k], tick)), throws)
      {
        var hook := ComponentOnLateTick(late[i], tick);
        lateTrace := lateTrace + [HookCall(hook, throws(hook))];
      }
      var advisor := AdvisorOnTick(tick);
      RunsAppend(early, seq(n, k requires 0 <= k < n => ComponentOnTick(enabled[k], tick)),
                 lateTrace, seq(m, k requires 0 <= k < m => ComponentOnLateTick(late[k], tick)), throws);
      RunsAppend(early + lateTrace, seq(n, k requires 0 <= k < n => ComponentOnTick(enabled[k], tick))
                   + seq(m, k requires 0 <= k < m => ComponentOnLateTick(late[k], tick)),
                 [HookCall(advisor, throws(advisor))], [advisor], throws);
      trace := early + lateTrace + [HookCall(advisor, throws(advisor))];
    }

    /**
     * Makes the advisor operative. An operative advisor is left as it is.
     * Otherwise it is configured the first time only, becomes operative, runs
     * onStart, and notifies "start" unless onStart threw; an onStart that throws
     * still leaves it operative.
     */
    method Start(throws: Hook -> bool) returns (trace: seq<HookCall>)
      modifies this`isOperative, this`isConfigured, this`notifications
      ensures old(isOperative) ==> trace == [] && isConfigured == old(isConfigured) && notifications == old(notifications)
      ensures !old(isOperative) ==>
        && isOperative && isConfigured
        && (old(isConfigured) ==> trace == [HookCall(OnStart, throws(OnStart))])
        && (!old(isConfigured) ==>
              |trace| == |ConfigurePlan(components)| + 1
              && Runs(trace[..|trace| - 1], ConfigurePlan(components), throws)
              && trace[|trace| - 1] == HookCall(OnStart, throws(OnStart)))
        && notifications == old(notifications) + (if throws(OnStart) then [] else [StartEvent])
      ensures isOperative
    {
      trace := [];
      if isOperative {
        return;
      }
      if !isConfigured {
        trace := Configure(throws);
        isConfigured := true;
      }
      isOperative := true;
      var threw := throws(OnStart);
      trace := trace + [HookCall(OnStart, threw)];
      if threw {
        return;
      }
      notifications := notifications + [StartEvent];
    }

    /**
     * Makes the advisor not operative. A non-operative advisor is left as it is.
     * Otherwise it stops being operative and runs onStop; "stop" is notified only
     * when onStop throws, because the try block returns as soon as onStop
     * completes.
     */
    method Stop(throws: Hook -> bool) returns (trace: seq<HookCall>)
      modifies this`isOperative, this`notifications
      ensures !isOperative
      ensures !old(isOperative) ==> trace == [] && notifications == old(notifications)
      ensures old(isOperative) ==>
        && trace == [HookCall(OnStop, throws(OnStop))]
        && notifications == old(notifications) + (if throws(OnStop) then [StopEvent] else [])
    {
      trace := [];
      if !isOperative {
        return;
      }
      isOperative := false;
      var threw := throws(OnStop);
      trace := [HookCall(OnStop, threw)];
      if !threw {
        return;
      }
      notifications := notifications + [StopEvent];
    }

    /**
     * A tick from the market watcher. A non-operative advisor ignores it;
     * otherwise it is captured and its processing begins, or waits in the
     * queue while another tick is being processed (`proceed` says which).
     */
    method OnTick(tick: Tick) returns (proceed: bool)
      requires Valid()
      modifies this`capturedTicks, this`tickEventQueue, this`isTickEventLocked, this`inFlight, this`started
      ensures Valid()
      ensures !old(isOperative) ==> !proceed && capturedTicks == old(capturedTicks) && Serializer() == old(Serializer())
      ensures old(isOperative) ==>
        && capturedTicks == old(capturedTicks) + [tick]
        && Serializer() == BeginFixed(old(Serializer()), tick)
        && proceed == !old(isTickEventLocked)
    {
      if !isOperative {
        return false;
      }
      BeginFixedSerialized(Serializer(), capturedTicks, tick);
      capturedTicks := capturedTicks + [tick];
      proceed := BeginTick(tick);
    }

    /**
     * The synchronous start of a tick's processing, corrected (see README,
     * Findings): a tick that finds the lock held is queued and goes no further;
     * otherwise it takes the lock and its processing goes on to the hooks.
     */
    method BeginTick(tick: Tick) returns (proceed: bool)
      modifies this`tickEventQueue, this`isTickEventLocked, this`inFlight, this`started
      ensures Serializer() == BeginFixed(old(Serializer()), tick)
      ensures proceed == !old(isTickEventLocked)
      ensures isTickEventLocked
      ensures tickEventQueue == if old(isTickEventLocked) then old(tickEventQueue) + [tick] else old(tickEventQueue)
    {
      if isTickEventLocked {
        tickEventQueue := tickEventQueue + [tick];
        return false;
      }
      isTickEventLocked := true;
      inFlight := inFlight + multiset{tick};
      started := started + [tick];
      proceed := true;
    }

    /**
     * The end of the processing of `finished`, after the advisor's onTick: the
     * oldest queued tick is taken off the queue and its processing begins with
     * the lock handed over to it; with nothing queued the lock is released.
     * `next` is the tick taken, if any. On the states the class reaches this is
     * both the end as written and the corrected end.
     */
    method EndTick(ghost finished: Tick) returns (next: Option<Tick>)
      requires Valid() && finished in inFlight
      modifies this`tickEventQueue, this`isTickEventLocked, this`inFlight, this`started
      ensures Valid()
      ensures Serializer() == EndFixed(old(Serializer()), finished)
      ensures Serializer() == End(old(Serializer()), finished)
      ensures next == if old(tickEventQueue) == [] then None else Some(old(tickEventQueue)[0])
      ensures isTickEventLocked <==> next.Some?
    {
      EndFixedSerialized(Serializer(), capturedTicks, finished);
      EndFixedAgreesWhenSerialized(Serializer(), capturedTicks, finished);
      inFlight := inFlight - multiset{finished};
      if tickEventQueue == [] {
        next := None;
        isTickEventLocked := false;
      } else {
        next := Some(tickEventQueue[0]);
        tickEventQueue := tickEventQueue[1..];
        inFlight := inFlight + multiset{next.value};
        started := started + [next.value];
      }
    }
  }
}
