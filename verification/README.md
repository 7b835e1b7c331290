# Mida expert-advisor runtime and broker order, in Dafny

This project models two parts of the Mida trading framework (TypeScript): the
broker order and the expert advisor's runtime.

**The broker order** (`MidaBrokerOrder`) is a mutable record. The class
`BrokerOrders.BrokerOrder` models it with the record's fields:
- status, requested volume, limit and stop price, the deal list, the position
  reference and the stop-out flag;
- a ghost log `events` of every `(event name, descriptor)` pair that the
  order's emitter is asked to notify.

The four mutators that a broker driver calls are methods with `modifies`
clauses: the status transition, the pending price change, the pending volume
change and a new deal. Each one states the new record and the events it
appends. The getters are module-level functions of the fields:
- `IsExecuted`, `IsRejected`, `IsOpening`, `IsClosing`;
- `FilledVolume`, `GetFillType`, `ExecutionPrice`, `GetExecutionType`;
- `ResolvePosition`, for the value-or-function position reference.

Lemmas relate these to each other and to the mutators. Examples:
- a repeated transition emits nothing more;
- recording a deal grows the filled volume by exactly the executed volume;
- when every executed deal has a positive volume, the execution price of an
  executed order lies between its lowest and highest executed deal price.

**The expert advisor** (`MidaExpertAdvisor`) is the class
`ExpertAdvisors.ExpertAdvisor`, with the advisor's own fields:
- `isOperative`, `isConfigured`, `orders`, `components`, `capturedTicks`;
- `tickEventQueue` and `isTickEventLocked`.

Its derived views (enabled components, filled orders, their deals, positions,
open positions) are loops in the source. Here they are methods whose
postconditions tie them to pure functions in `AdvisorViews`. The properties of
those functions are proved as lemmas:
- filtering keeps the order of the input;
- the positions view deduplicates by position id as a JavaScript `Map` does.
  Each id gets one entry, placed where the id was first seen, holding the
  position seen last.

The user-supplied hooks cannot be seen by the runtime:
- each component's `configure`, `onTick` and `onLateTick`;
- the advisor's own `configure`, `onTick`, `onStart` and `onStop`.

Each call is wrapped in its own `try`/`catch`, so all the runtime observes of a
hook is whether it threw. That is the parameter `throws: Hook -> bool`. The
configure and tick methods return the trace of hooks called, and the
postconditions state that trace as a plan: which hooks run, in which order,
each one running whether or not an earlier one threw.

**Tick processing** is asynchronous in the source. JavaScript runs the code
between two `await`s without interruption, so one tick's processing has two
atomic ends:
- the start (`MidaExpertAdvisor.ts:228-232`): queue the tick if the lock is
  held, then take the lock;
- the end (`MidaExpertAdvisor.ts:261-266`): take the oldest queued tick,
  release the lock, and begin processing the tick taken.

`TickSerializer` describes these ends as pure transitions. It adds two ghost
observations:
- the multiset of processings that have begun and not ended;
- the ticks whose processing has begun, in order.

As written, a tick that arrives while another is being processed is queued and
is also processed at once. It is processed a second time when it is dequeued
(see Findings). `TickSerializer` models these transitions as written, and the
lemmas about them exhibit the double processing. It also holds the evidently
intended version, in which a queued tick only waits in the queue. Only the
start changes: on every state the corrected version can reach, the end as
written already hands the lock straight to the oldest queued tick. The class's
`BeginTick` implements the corrected start, and its `EndTick` is the end as
written. For the corrected version,
`TickSerializer` proves that every interleaving of arrivals and completions
satisfies three things:
- at most one tick is processed at a time;
- ticks are processed in arrival order;
- each tick is processed exactly once once the queue drains.

The class keeps this as its invariant `Valid()`: the captured ticks are the
ticks whose processing has begun followed by the ticks waiting in the queue.

Points where the code behaves unexpectedly; the model follows the code:
- `stop()` notifies `"stop"` only when `onStop` throws, because the `try` block
  returns as soon as `onStop` completes (`src/core/advisors/MidaExpertAdvisor.ts:158-167`).
  `start()` does the opposite: it notifies `"start"` only when `onStart`
  succeeds (`:139-148`). The asymmetry looks unintended.
  `ExpertAdvisors.ExpertAdvisor.Stop` states the behaviour as written.
- Nothing in the code makes limit and stop prices mutually exclusive. A set
  limit price wins both for the execution type and for the pending price
  change.
- No code enforces `filledVolume <= requestedVolume`, so it is not an
  invariant of the model.
- The advisor's filled-orders view selects orders whose status is `FILLED`,
  while an order reaches `EXECUTED` on execution. The model keeps both
  statuses distinct. A transition into `FILLED` emits only the generic
  `status-change` event, because that status has no case in the transition's
  `switch`.

Modules, one per file:
- `Wrappers`: `Option`, the model of `undefined`.
- `Seqs`: order-preserving filtering, the shape of every "push the matching
  elements" loop.
- `BrokerPositions`: the position as the advisor sees it.
- `BrokerOrders`: the order.
- `AdvisorViews`: the advisor's derived views.
- `TickSerializer`: the queue and lock.
- `ExpertAdvisors`: the advisor class and its hook plans.

Volumes and prices are exact `real`s. An omitted optional property is `None`.

## Model

| member | source | states |
|---|---|---|
| BrokerOrders.BrokerOrder.constructor | src/core/orders/MidaBrokerOrder.ts:60-95 | every field is copied from the parameters; omitted deals default to the empty list and an omitted stop-out flag to false; nothing has been emitted yet |
| BrokerOrders.StatusEventName | src/core/orders/MidaBrokerOrder.ts:289-320 | every status but FILLED has a status-specific event name, and none of them is the generic `status-change` |
| BrokerOrders.StatusEventNamesDistinct | src/core/orders/MidaBrokerOrder.ts:289-320 | two different statuses are announced under different event names |
| BrokerOrders.StatusTransitionEvents | src/core/orders/MidaBrokerOrder.ts:281-323 | staying in a status emits nothing; moving to a new status emits the status-specific event (none for FILLED) followed by `status-change` carrying the new and the previous status |
| BrokerOrders.StatusTransitionIdempotent | src/core/orders/MidaBrokerOrder.ts:281-284 | repeating a transition adds no events: the events of p to s and then s to s are those of p to s |
| BrokerOrders.BrokerOrder.OnStatusChange | src/core/orders/MidaBrokerOrder.ts:281-323 | the status becomes the argument and the transition's events are appended to the log; with an unchanged status the log is unchanged; nothing else changes |
| BrokerOrders.BrokerOrder.OnPendingPriceChange | src/core/orders/MidaBrokerOrder.ts:325-334 | the limit price is replaced if set, else the stop price if set, else neither; the execution type is unchanged; exactly one `pending-price-change` event carrying the price is appended |
| BrokerOrders.BrokerOrder.OnPendingVolumeChange | src/core/orders/MidaBrokerOrder.ts:336-344 | the requested volume becomes the argument; exactly one `pending-volume-change` event is appended when it changed, none when it was equal |
| BrokerOrders.BrokerOrder.OnDeal | src/core/orders/MidaBrokerOrder.ts:346-349 | the deal is appended after the earlier deals; the status is untouched; the filled volume grows by the deal's volume iff the deal is executed; exactly one `deal` event is appended |
| BrokerOrders.ExecuteAnnouncedIffExecuted | src/core/orders/MidaBrokerOrder.ts:185-187 | a transition announces `execute` iff it leaves the order executed |
| BrokerOrders.RejectAnnouncedIffRejected | src/core/orders/MidaBrokerOrder.ts:247-249 | a transition announces `reject` iff it leaves the order rejected |
| BrokerOrders.ExecutedDealsSelects | src/core/orders/MidaBrokerOrder.ts:161-163 | the executed deals are the deals marked executed, each as often as it was reported, in the order reported |
| BrokerOrders.FilledVolume | src/core/orders/MidaBrokerOrder.ts:189-197 | the filled volume is the summed volume of the executed deals: each reported deal contributes its volume if executed and nothing otherwise |
| BrokerOrders.FilledVolumeAppend | src/core/orders/MidaBrokerOrder.ts:189-197 | the filled volume of deals reported in two batches is the sum of the two batches' filled volumes |
| BrokerOrders.FilledVolumeAfterDeal | src/core/orders/MidaBrokerOrder.ts:189-197 | the filled volume after recording a deal is the previous filled volume plus the deal's volume if it is executed, unchanged otherwise |
| BrokerOrders.GetFillType | src/core/orders/MidaBrokerOrder.ts:199-209 | the fill type is undefined iff the order is not executed; FULL iff executed with filled volume equal to the requested volume; PARTIAL iff executed with any other filled volume |
| BrokerOrders.FillTypeAfterDeal | src/core/orders/MidaBrokerOrder.ts:199-209 | a recorded deal makes an executed order's fill FULL exactly when it brings the filled volume to the requested volume; a deal not executed leaves the fill type unchanged |
| BrokerOrders.ExecutionPrice | src/core/orders/MidaBrokerOrder.ts:211-225 | the price is defined iff the order is executed with a nonzero filled volume, and then times the filled volume it equals the summed price-times-volume of the executed deals |
| BrokerOrders.ExecutionPriceWithinDealPrices | src/core/orders/MidaBrokerOrder.ts:211-225 | when at least one deal is executed and every executed deal has a positive volume and a price in [lo, hi], the execution price of an executed order is defined and lies in [lo, hi] |
| BrokerOrders.NotionalBetween | src/core/orders/MidaBrokerOrder.ts:216-222 | for deals with non-negative volumes and prices in [lo, hi], the summed price-times-volume lies between lo and hi times the summed volume |
| BrokerOrders.FullFillExample | src/core/orders/MidaBrokerOrder.ts:189-225 | executed deals of 4 at 1.10 and 6 at 1.12 give a filled volume of 10, a FULL fill against 10 requested, and an execution price of 1.112 |
| BrokerOrders.GetExecutionType | src/core/orders/MidaBrokerOrder.ts:235-245 | LIMIT iff a limit price is set (whether or not a stop price is), STOP iff only a stop price is set, MARKET iff neither is |
| BrokerOrders.ResolvePosition | src/core/orders/MidaBrokerOrder.ts:251-257 | a position is returned iff a reference is stored: the stored position, or what the stored function produces |
| BrokerOrders.LazyPositionTransparent | src/core/orders/MidaBrokerOrder.ts:251-257 | storing a function or the position it produces is indistinguishable to readers of the position |
| Seqs.FilterSelects | src/core/advisors/MidaExpertAdvisor.ts:67-77 | a filtering loop keeps only matching elements, and every matching element as often as the input holds it |
| Seqs.FilterIsSubsequence | src/core/advisors/MidaExpertAdvisor.ts:67-77 | a filtering loop keeps the elements in their input order |
| AdvisorViews.EnabledComponentsMembership | src/core/advisors/MidaExpertAdvisor.ts:67-77 | a component is among the enabled components iff it is registered and enabled, and they come in registration order |
| AdvisorViews.FilledOrdersSelects | src/core/advisors/MidaExpertAdvisor.ts:79-89 | the filled orders are orders with status FILLED, and each FILLED order appears as often as in the order list |
| AdvisorViews.FilledOrdersInOrder | src/core/advisors/MidaExpertAdvisor.ts:79-89 | the filled orders keep the order of the order list |
| AdvisorViews.FilledOrdersAppend | src/core/advisors/MidaExpertAdvisor.ts:79-89 | the filled orders of two concatenated order lists are the filled orders of each, concatenated |
| AdvisorViews.ConcatDeals | src/core/advisors/MidaExpertAdvisor.ts:94-96 | a deal is in the concatenation iff it belongs to one of the orders |
| AdvisorViews.FilledOrdersDeals | src/core/advisors/MidaExpertAdvisor.ts:91-99 | a deal is among the filled orders' deals iff it belongs to an order whose status is FILLED |
| AdvisorViews.FilledOrdersDealsAppend | src/core/advisors/MidaExpertAdvisor.ts:91-99 | the filled-order deals of two concatenated order lists are those of each, concatenated, so deals come order by order |
| AdvisorViews.KeySlot | src/core/advisors/MidaExpertAdvisor.ts:107 | the Map's key lookup: the slot holding the id, or -1 when no slot holds it |
| AdvisorViews.SetPosition | src/core/advisors/MidaExpertAdvisor.ts:107 | `Map.set` by position id keeps ids distinct: a present id keeps its slot and takes the new position, and every other slot is unchanged; a new id is appended last |
| AdvisorViews.PositionMapDeduplicates | src/core/advisors/MidaExpertAdvisor.ts:101-111 | filling the Map in order yields one entry per distinct id and no other, ordered by each id's first occurrence, each holding the last position seen with that id |
| AdvisorViews.FilledPositions | src/core/advisors/MidaExpertAdvisor.ts:104-105 | the filled orders' positions are defined iff every filled order has a position reference, and then they are the resolved positions, one per order, in order |
| AdvisorViews.GetPositions | src/core/advisors/MidaExpertAdvisor.ts:101-111 | the positions view fails (reading `id` of undefined) iff some FILLED order has no position |
| AdvisorViews.FilledOrdersMissingPosition | src/core/advisors/MidaExpertAdvisor.ts:104-105 | a filled order lacks a position iff some order with status FILLED lacks one |
| AdvisorViews.GetPositionsDeduplicates | src/core/advisors/MidaExpertAdvisor.ts:101-111 | the positions view is the filled orders' positions deduplicated by id, as the Map does it |
| AdvisorViews.OpenPositions | src/core/advisors/MidaExpertAdvisor.ts:113-124 | the open positions view fails iff the positions view does; it holds only OPEN positions and every OPEN position of the positions view |
| AdvisorViews.OpenPositionsInOrder | src/core/advisors/MidaExpertAdvisor.ts:113-124 | the open positions keep the order of the positions view |
| ExpertAdvisors.ConfigurePlanShape | src/core/advisors/MidaExpertAdvisor.ts:278-293 | configuring calls configure on exactly the enabled components, then the advisor's own configure once, last |
| ExpertAdvisors.TickPlanAt | src/core/advisors/MidaExpertAdvisor.ts:234-259 | the tick plan holds the onTick of each component enabled at the start, then the onLateTick of each component enabled once the onTick hooks have run, then the advisor's onTick last |
| ExpertAdvisors.TickPlanOrder | src/core/advisors/MidaExpertAdvisor.ts:234-259 | every hook of a tick receives that tick; every onTick precedes every onLateTick; the advisor's onTick runs once, last |
| ExpertAdvisors.TickPlanOnTickMembers | src/core/advisors/MidaExpertAdvisor.ts:235-242 | a component's onTick runs for the tick iff the component is registered and enabled when the tick's processing starts |
| ExpertAdvisors.TickPlanLateTickMembers | src/core/advisors/MidaExpertAdvisor.ts:244-251 | a component's onLateTick runs for the tick iff it is registered and enabled once the onTick hooks have run, so a component an onTick hook disables gets no onLateTick |
| ExpertAdvisors.CollectEnabled | src/core/advisors/MidaExpertAdvisor.ts:68-76 | the loop over the components collects exactly the enabled ones, in order |
| ExpertAdvisors.CollectOpen | src/core/advisors/MidaExpertAdvisor.ts:117-121 | the loop over the positions collects exactly the OPEN ones, in order |
| ExpertAdvisors.ExpertAdvisor.constructor | src/core/advisors/MidaExpertAdvisor.ts:30-41 | a new advisor is not operative and not configured, holds no orders, components or captured ticks, has an empty queue and a free lock, has notified nothing, and satisfies the tick invariant |
| ExpertAdvisors.ExpertAdvisor.ListEnabledComponents | src/core/advisors/MidaExpertAdvisor.ts:67-77 | the loop returns the enabled components (see EnabledComponentsMembership) |
| ExpertAdvisors.ExpertAdvisor.ListFilledOrders | src/core/advisors/MidaExpertAdvisor.ts:79-89 | the loop returns the filled orders (see FilledOrdersSelects and FilledOrdersInOrder) |
| ExpertAdvisors.ExpertAdvisor.ListFilledOrdersDeals | src/core/advisors/MidaExpertAdvisor.ts:91-99 | the loop returns the filled orders' deals, order by order (see FilledOrdersDeals) |
| ExpertAdvisors.ExpertAdvisor.ListPositions | src/core/advisors/MidaExpertAdvisor.ts:101-111 | the loop through the Map returns the deduplicated positions, or fails where the source throws (see GetPositionsDeduplicates) |
| ExpertAdvisors.ExpertAdvisor.ListOpenPositions | src/core/advisors/MidaExpertAdvisor.ts:113-124 | the loop returns the open positions (see OpenPositions) |
| ExpertAdvisors.ExpertAdvisor.Configure | src/core/advisors/MidaExpertAdvisor.ts:278-293 | the hooks called are exactly the configure plan, in order, each called whether or not an earlier one threw |
| ExpertAdvisors.ExpertAdvisor.RunTickHooks | src/core/advisors/MidaExpertAdvisor.ts:234-259 | the hooks called for a tick are exactly the tick plan for the components at the start and the components as the onTick hooks leave them, in order, each called whether or not an earlier one threw; the enabled components are read again for the second loop; the onTick hooks may only enable or disable registered components, so the list after them holds the same components in the same order |
| ExpertAdvisors.LateTickOnlyRegistered | src/core/advisors/MidaExpertAdvisor.ts:244-251 | every component that receives onLateTick sits at the position of a component that was registered when the tick arrived, under the same name; no component that was never registered sees the tick |
| ExpertAdvisors.ExpertAdvisor.Start | src/core/advisors/MidaExpertAdvisor.ts:126-149 | an operative advisor is left as it is; otherwise configuration runs only the first time, the advisor becomes operative and configured, onStart runs, `start` is notified iff onStart did not throw, and the advisor stays operative either way |
| ExpertAdvisors.ExpertAdvisor.Stop | src/core/advisors/MidaExpertAdvisor.ts:151-168 | a non-operative advisor is left as it is; otherwise it stops being operative, onStop runs, and `stop` is notified iff onStop threw |
| ExpertAdvisors.ExpertAdvisor.OnTick | src/core/advisors/MidaExpertAdvisor.ts:218-225 | a non-operative advisor drops the tick and changes nothing; an operative one appends it to the captured ticks exactly once and begins its processing or queues it; the tick invariant is kept |
| ExpertAdvisors.ExpertAdvisor.BeginTick | src/core/advisors/MidaExpertAdvisor.ts:227-232 | corrected per Findings: the tick is queued iff the lock was held, the lock is held afterwards, and the tick's processing proceeds to the hooks iff the lock was free |
| ExpertAdvisors.ExpertAdvisor.EndTick | src/core/advisors/MidaExpertAdvisor.ts:261-266 | the end as written, which is also the corrected end on the states the class reaches: the oldest queued tick is taken off the queue, returned, and begun with the lock handed to it; with an empty queue the lock is released; the tick invariant is kept |
| TickSerializer.BeginQueuesIffLocked | src/core/advisors/MidaExpertAdvisor.ts:227-232 | as written, beginning a tick always leaves the lock set, queues the tick iff the lock was already set, and starts its processing either way |
| TickSerializer.EndDequeuesOldest | src/core/advisors/MidaExpertAdvisor.ts:261-266 | as written, with an empty queue the end releases the lock and begins nothing; otherwise it removes the oldest queued tick and begins it |
| TickSerializer.AsWrittenTwoArrivals | src/core/advisors/MidaExpertAdvisor.ts:227-232 | as written, a second tick that arrives during the first's processing is queued and also begun, so two processings overlap |
| TickSerializer.AsWrittenProcessesQueuedTickTwice | src/core/advisors/MidaExpertAdvisor.ts:227-266 | as written, after ticks t1 and t2 arrive and t1's processing ends, t2 has been begun twice although it was submitted once |
| TickSerializer.BeginFixedAgreesWhenUnlocked | src/core/advisors/MidaExpertAdvisor.ts:227-232 | the corrected start behaves as written for a tick that finds the lock free |
| TickSerializer.EndFixedAgreesWhenSerialized | src/core/advisors/MidaExpertAdvisor.ts:261-266 | on every state satisfying the serializer invariant, the corrected end equals the end as written, so the correction changes only the start |
| TickSerializer.BeginFixedSerialized | src/core/advisors/MidaExpertAdvisor.ts:227-232 | under the correction, a tick's arrival preserves the serializer invariant |
| TickSerializer.EndFixedSerialized | src/core/advisors/MidaExpertAdvisor.ts:261-266 | under the correction, the end of the processing in flight preserves the serializer invariant |
| TickSerializer.StepFixedSerialized | src/core/advisors/MidaExpertAdvisor.ts:227-266 | under the correction, every arrival or completion preserves the serializer invariant |
| TickSerializer.RunFixedSerialized | src/core/advisors/MidaExpertAdvisor.ts:227-266 | under the correction, every run from idle ends in a state satisfying the serializer invariant for the ticks it submitted |
| TickSerializer.FixedSerializerIsFifo | src/core/advisors/MidaExpertAdvisor.ts:227-266 | under the correction, whatever the interleaving, at most one tick is in flight, ticks begin in arrival order and each at most once, and when idle every submitted tick has begun exactly once |

## Left out

- Broker account, creation and last-update dates, time in force, rejection type, and the advisor's market watcher: opaque to the behaviour modelled, so they are not fields of the model.
- The protected setters of the order (`id`, `creationDate`, `lastUpdateDate`, `position`, `rejectionType`) and the abstract `cancel()`: nothing in the modelled code calls them.
- The getters that return a field or a copy of a field: in the model they are the fields themselves.
- `on` and `removeEventListener` of both classes, and the emitter library behind them: event emission is modelled only as the ghost logs `BrokerOrder.events` and `ExpertAdvisor.notifications`. The advisor's notifications record the event type only, because it passes no descriptor.
- `placeOrder`, `addOrder`, `#configureListeners` and `#onPeriodClose` of the advisor. They are network I/O, an empty hook and subscriptions to the market watcher. `addOrder` is empty and nothing shown registers components. So no modelled method changes `orders`, and only `RunTickHooks` changes `components`: the private list is `readonly` and filled once (`src/core/advisors/MidaExpertAdvisor.ts:27`, `:39`), so a hook can only enable or disable a registered component, which `RunTickHooks` requires of `after` (`SameRegistrations`).
- Console logging of caught hook errors.
- The bodies of the user hooks: each one is only whether it throws (`throws`). The one effect of a hook on the advisor's state that the model takes is the component list as the onTick hooks leave it (`RunTickHooks`'s `after`: the same components in the same order, each possibly enabled or disabled), because the second loop reads it again. Other changes a hook makes to the advisor's state are not modelled.
- The interleaving of asynchronous activations: only the two atomic ends of a tick's processing and the hooks between them (`RunTickHooks`) are modelled, not a scheduler that resumes them. The unawaited recursive call that processes the dequeued tick is `EndTick` beginning it. That processing's hooks are left to the caller.
- Aliasing of the deal list: the constructor stores the caller's `deals` array itself (`src/core/orders/MidaBrokerOrder.ts:90`), and `onDeal` pushes into that same array (`:347`), so the caller's array and the order's deals stay one object. The model's `deals` is a value, so a deal recorded by `onDeal` does not show in the caller's array, and a change to the caller's array does not show in the order.
- `MidaBrokerPosition`: only a position's id and status are modelled. `MidaBrokerDealUtilities.filterExecutedDeals` is not part of this model: a deal is executed when its `executed` flag is set.
- The strategy advisor `MidaPrincepsAdvisor`: strategy logic on indicators and broker queries, outside the runtime.
- Floating point: volumes and prices are exact reals, and equality of volumes is exact.
- BrokerOrders.ExecutionPrice: with a zero filled volume the source divides the summed price-times-volume by 0. The result is NaN when that sum is 0. It is ±Infinity otherwise, which is possible because volumes are unconstrained: e.g. executed deals of 1.0 at 2.0 and -1.0 at 1.0. The model returns `None` for every zero filled volume, so neither the NaN nor the ±Infinity result is modelled. Every executed deal is also taken to have a price (`Deal.executionPrice` is a `real`), while the source casts a possibly undefined price at `src/core/orders/MidaBrokerOrder.ts:219`; the NaN that an executed deal without a price produces at `:221` is not modelled.
- BrokerOrders.IsOpening: a single comparison of the order's constant `purpose` with OPEN (`src/core/orders/MidaBrokerOrder.ts:227-229`); no property beyond that definition is stated, and no modelled operation uses it.
- BrokerOrders.IsClosing: a single comparison of the order's constant `purpose` with CLOSE (`src/core/orders/MidaBrokerOrder.ts:231-233`); no property beyond that definition is stated, and no modelled operation uses it.
- BrokerOrders.GetExecutionType: `Number.isFinite` also treats NaN and infinite prices as absent. The model has only set (`Some`) and absent (`None`) prices, so the non-finite cases are not modelled.

## Findings

| source | as written | input that shows it | evidently intended | confidence | as-written member | corrected member |
|---|---|---|---|---|---|---|
| src/core/advisors/MidaExpertAdvisor.ts:227-266 | a tick that arrives while the lock is held is pushed onto the queue, but the function goes on to take the lock and run the hooks for it at once; when the running tick ends, the queued tick is shifted off and processed again | tick t1 arrives, tick t2 arrives during t1's hooks, and t1's processing ends: t2 is processed twice, once overlapping t1 | a tick that finds the lock held only waits in the queue (a return after the push at :229); with that one change, the end as written (shift the oldest queued tick and restart it) hands the lock straight to that tick, so ticks are processed one at a time, in order, each exactly once | not executed | TickSerializer.AsWrittenProcessesQueuedTickTwice | TickSerializer.FixedSerializerIsFifo |
