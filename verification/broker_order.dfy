/**
 * One broker order: its mutable record, the four mutators a broker driver calls
 * when the broker reports a change, and the facts derived from the record
 * (filled volume, fill type, execution price, execution type, position).
 */
module BrokerOrders {
  import opened Wrappers
  import opened Seqs
  import BrokerPositions

  datatype OrderStatus = Pending | Accepted | Executed | Rejected | Cancelled | Expired | Filled
  datatype OrderDirection = Buy | Sell
  datatype OrderPurpose = Open | Close
  datatype FillType = Full | Partial
  datatype ExecutionType = Market | Limit | Stop

  /** An execution reported by the broker; only executed deals contribute to the fill. */
  datatype Deal = Deal(id: string, volume: real, executionPrice: real, executed: bool)

  /** The link to the order's position: a value, or a function that produces it on demand. */
  datatype PositionRef =
    | Resolved(position: BrokerPositions.Position)
    | Lazy(resolve: () -> BrokerPositions.Position)

  /** What an order is constructed from; `None` is an omitted (undefined) property. */
  datatype OrderParameters = OrderParameters(
    id: Option<string>,
    symbol: string,
    requestedVolume: real,
    direction: OrderDirection,
    purpose: OrderPurpose,
    limitPrice: Option<real>,
    stopPrice: Option<real>,
    status: OrderStatus,
    deals: Option<seq<Deal>>,
    position: Option<PositionRef>,
    isStopOut: Option<bool>)

  /** The descriptor passed to listeners along with an event name. */
  datatype Descriptor =
    | NoDescriptor
    | StatusChange(status: OrderStatus, previousStatus: OrderStatus)
    | PriceChange(price: real)
    | VolumeChange(volume: real)
    | DealDescriptor(deal: Deal)

  /** One call of the order's emitter: an event name and its descriptor. */
  datatype OrderEvent = OrderEvent(name: string, descriptor: Descriptor)

  const StatusChangeEvent := "status-change"

  /**
   * The event a transition into `status` emits before the generic status-change
   * event. FILLED has no case in the transition's switch, so it has no such event.
   */
  function StatusEventName(status: OrderStatus): (name: Option<string>)
    ensures name.None? <==> status == Filled
    ensures name != Some(StatusChangeEvent)
  {
    match status
    case Rejected => Some("reject")
    case Accepted => Some("accept")
    case Pending => Some("pending")
    case Cancelled => Some("cancel")
    case Executed => Some("execute")
    case Expired => Some("expire")
    case Filled => None
  }

  /** Different statuses announce themselves under different names. */
  lemma StatusEventNamesDistinct(a: OrderStatus, b: OrderStatus)
    requires a != b
    ensures StatusEventName(a) != StatusEventName(b)
  {
  }

  /** The events of one call of the transition from `previous` to `status`. */
  function StatusTransitionEvents(previous: OrderStatus, status: OrderStatus): (events: seq<OrderEvent>)
    ensures previous == status ==> events == []
    ensures previous != status ==>
      && |events| == (if status == Filled then 1 else 2)
      && events[|events| - 1] == OrderEvent(StatusChangeEvent, StatusChange(status, previous))
      && (status != Filled ==> events[0] == OrderEvent(StatusEventName(status).value, NoDescriptor))
  {
    if previous == status then []
    else
      var specific := match StatusEventName(status)
        case Some(name) => [OrderEvent(name, NoDescriptor)]
        case None => [];
      specific + [OrderEvent(StatusChangeEvent, StatusChange(status, previous))]
  }

  /** Repeating a transition emits nothing more: the events of p -> s -> s are those of p -> s. */
  lemma StatusTransitionIdempotent(previous: OrderStatus, status: OrderStatus)
    ensures StatusTransitionEvents(previous, status) + StatusTransitionEvents(status, status)
         == StatusTransitionEvents(previous, status)
  {
  }

  predicate IsExecuted(status: OrderStatus) { status == Executed }

  predicate IsRejected(status: OrderStatus) { status == Rejected }

  /**
   * An order announces `execute` in a transition exactly when the transition
   * leaves it executed.
   */
  lemma ExecuteAnnouncedIffExecuted(previous: OrderStatus, status: OrderStatus)
    requires previous != status
    ensures OrderEvent("execute", NoDescriptor) in StatusTransitionEvents(previous, status) <==> IsExecuted(status)
  {
    var events := StatusTransitionEvents(previous, status);
    if OrderEvent("execute", NoDescriptor) in events {
      var i :| 0 <= i < |events| && events[i] == OrderEvent("execute", NoDescriptor);
      assert i == 0;
    }
  }

  /**
   * An order announces `reject` in a transition exactly when the transition
   * leaves it rejected.
   */
  lemma RejectAnnouncedIffRejected(previous: OrderStatus, status: OrderStatus)
    requires previous != status
    ensures OrderEvent("reject", NoDescriptor) in StatusTransitionEvents(previous, status) <==> IsRejected(status)
  {
    var events := StatusTransitionEvents(previous, status);
    if OrderEvent("reject", NoDescriptor) in events {
      var i :| 0 <= i < |events| && events[i] == OrderEvent("reject", NoDescriptor);
      assert i == 0;
    }
  }

  predicate IsOpening(purpose: OrderPurpose) { purpose == Open }

  predicate IsClosing(purpose: OrderPurpose) { purpose == Close }

  predicate IsExecutedDeal(d: Deal) { d.executed }

  /** The executed deals, in the order the broker reported them. */
  function ExecutedDeals(deals: seq<Deal>): seq<Deal>
  {
    Filter(deals, IsExecutedDeal)
  }

  /**
   * The executed deals are exactly the deals marked executed, each as often as
   * it was reported, in the order the broker reported them.
   */
  lemma ExecutedDealsSelects(deals: seq<Deal>)
    ensures IsSubsequence(ExecutedDeals(deals), deals)
    ensures multiset(ExecutedDeals(deals)) <= multiset(deals)
    ensures forall d :: d in ExecutedDeals(deals) ==> d.executed
    ensures forall d :: d in deals && d.executed ==> multiset(ExecutedDeals(deals))[d] == multiset(deals)[d]
  {
    FilterIsSubsequence(deals, IsExecutedDeal);
    FilterSelects(deals, IsExecutedDeal);
  }

  /** Sum of the deals' volumes, accumulated front to back. */
  function TotalVolume(deals: seq<Deal>): real
  {
    if deals == [] then 0.0 else TotalVolume(deals[..|deals| - 1]) + deals[|deals| - 1].volume
  }

  /** Sum of price times volume over the deals, accumulated front to back. */
  function TotalNotional(deals: seq<Deal>): real
  {
    if deals == [] then 0.0
    else TotalNotional(deals[..|deals| - 1]) + deals[|deals| - 1].executionPrice * deals[|deals| - 1].volume
  }

  /**
   * The reference definition of the filled volume: every deal reported
   * contributes its volume if it is executed and nothing otherwise.
   */
  ghost function ExecutedVolume(deals: seq<Deal>): real
  {
    if deals == [] then 0.0
    else
      var last := deals[|deals| - 1];
      ExecutedVolume(deals[..|deals| - 1]) + (if last.executed then last.volume else 0.0)
  }

  lemma {:induction false} ExecutedDealsVolume(deals: seq<Deal>)
    ensures TotalVolume(ExecutedDeals(deals)) == ExecutedVolume(deals)
    decreases |deals|
  {
    if deals != [] {
      var init, last := deals[..|deals| - 1], deals[|deals| - 1];
      var executed := ExecutedDeals(init);
      ExecutedDealsVolume(init);
      FilterSnoc(init, last, IsExecutedDeal);
      assert init + [last] == deals;
      if last.executed {
        assert (executed + [last])[..|executed|] == executed;
      }
    }
  }

  /** The volume filled so far: the summed volume of the executed deals. */
  function FilledVolume(deals: seq<Deal>): (v: real)
    ensures v == ExecutedVolume(deals)
  {
    ExecutedDealsVolume(deals);
    TotalVolume(ExecutedDeals(deals))
  }

  /** The filled volume of deals reported in two batches is the sum of the two. */
  lemma {:induction false} FilledVolumeAppend(a: seq<Deal>, b: seq<Deal>)
    ensures FilledVolume(a + b) == FilledVolume(a) + FilledVolume(b)
    decreases |b|
  {
    if b == [] {
      assert a + b == a;
    } else {
      var init := b[..|b| - 1];
      FilledVolumeAppend(a, init);
      assert (a + b)[..|a + b| - 1] == a + init;
      assert (a + b)[|a + b| - 1] == b[|b| - 1];
    }
  }

  /** Recording a deal adds its volume to the filled volume iff it is executed. */
  lemma FilledVolumeAfterDeal(deals: seq<Deal>, deal: Deal)
    ensures FilledVolume(deals + [deal]) == FilledVolume(deals) + (if deal.executed then deal.volume else 0.0)
  {
    var executed := ExecutedDeals(deals);
    FilterSnoc(deals, deal, IsExecutedDeal);
    if deal.executed {
      assert (executed + [deal])[..|executed|] == executed;
    }
  }

  /**
   * Undefined unless the order is executed; FULL exactly when the filled volume
   * equals the requested volume, PARTIAL otherwise.
   */
  function GetFillType(status: OrderStatus, deals: seq<Deal>, requestedVolume: real): (r: Option<FillType>)
    ensures r.None? <==> !IsExecuted(status)
    ensures r == Some(Full) <==> IsExecuted(status) && FilledVolume(deals) == requestedVolume
    ensures r == Some(Partial) <==> IsExecuted(status) && FilledVolume(deals) != requestedVolume
  {
    if !IsExecuted(status) then None
    else if FilledVolume(deals) == requestedVolume then Some(Full)
    else Some(Partial)
  }

  /**
   * Recording a deal makes an executed order's fill FULL exactly when the deal
   * brings the filled volume to the requested volume; a deal not executed
   * leaves the fill type as it was.
   */
  lemma FillTypeAfterDeal(deals: seq<Deal>, deal: Deal, requestedVolume: real)
    ensures GetFillType(Executed, deals + [deal], requestedVolume) == Some(Full) <==>
      FilledVolume(deals) + (if deal.executed then deal.volume else 0.0) == requestedVolume
    ensures !deal.executed ==>
      GetFillType(Executed, deals + [deal], requestedVolume) == GetFillType(Executed, deals, requestedVolume)
  {
    FilledVolumeAfterDeal(deals, deal);
  }

  /**
   * Undefined unless the order is executed; otherwise the volume-weighted average
   * price of the executed deals. A zero filled volume has no average (see README).
   */
  function ExecutionPrice(status: OrderStatus, deals: seq<Deal>): (r: Option<real>)
    ensures r.Some? <==> IsExecuted(status) && FilledVolume(deals) != 0.0
    ensures r.Some? ==> r.value * FilledVolume(deals) == TotalNotional(ExecutedDeals(deals))
  {
    if !IsExecuted(status) then None
    else
      var volume := FilledVolume(deals);
      if volume == 0.0 then None
      else Some(TotalNotional(ExecutedDeals(deals)) / volume)
  }

  lemma {:induction false} TotalVolumePositive(deals: seq<Deal>)
    requires deals != []
    requires forall d :: d in deals ==> d.volume > 0.0
    ensures TotalVolume(deals) > 0.0
    decreases |deals|
  {
    var init := deals[..|deals| - 1];
    if init != [] {
      assert forall d :: d in init ==> d in deals;
      TotalVolumePositive(init);
    }
  }

  /** Every deal has a non-negative volume and a price in [lo, hi]. */
  ghost predicate DealsWithin(deals: seq<Deal>, lo: real, hi: real)
  {
    forall d :: d in deals ==> d.volume >= 0.0 && lo <= d.executionPrice <= hi
  }

  /** How far the notional exceeds `lo` times the volume, summed deal by deal. */
  ghost function SurplusOver(deals: seq<Deal>, lo: real): real
  {
    if deals == [] then 0.0
    else SurplusOver(deals[..|deals| - 1], lo) + (deals[|deals| - 1].executionPrice - lo) * deals[|deals| - 1].volume
  }

  lemma ProductNonnegative(a: real, b: real)
    requires a >= 0.0 && b >= 0.0
    ensures a * b >= 0.0
  {
  }

  lemma ProductDistributes(k: real, a: real, b: real, p: real, v: real)
    ensures k * (a + b) == k * a + k * b
    ensures (p - k) * v == p * v - k * v
  {
  }

  /** The surplus is what the notional exceeds `lo` times the volume by. */
  lemma {:induction false} SurplusOverIsExcess(deals: seq<Deal>, lo: real)
    ensures SurplusOver(deals, lo) == TotalNotional(deals) - lo * TotalVolume(deals)
    decreases |deals|
  {
    if deals != [] {
      var init, last := deals[..|deals| - 1], deals[|deals| - 1];
      SurplusOverIsExcess(init, lo);
      ProductDistributes(lo, TotalVolume(init), last.volume, last.executionPrice, last.volume);
    }
  }

  /** Deals priced at or above `lo` have no negative surplus over it. */
  lemma {:induction false} SurplusOverNonnegative(deals: seq<Deal>, lo: real)
    requires forall d :: d in deals ==> d.volume >= 0.0 && lo <= d.executionPrice
    ensures SurplusOver(deals, lo) >= 0.0
    decreases |deals|
  {
    if deals != [] {
      var init, last := deals[..|deals| - 1], deals[|deals| - 1];
      assert last in deals;
      assert forall d :: d in init ==> d in deals;
      SurplusOverNonnegative(init, lo);
      ProductNonnegative(last.executionPrice - lo, last.volume);
    }
  }

  /** How far `hi` times the volume exceeds the notional, summed deal by deal. */
  ghost function ShortfallUnder(deals: seq<Deal>, hi: real): real
  {
    if deals == [] then 0.0
    else ShortfallUnder(deals[..|deals| - 1], hi) + (hi - deals[|deals| - 1].executionPrice) * deals[|deals| - 1].volume
  }

  /** The shortfall is what `hi` times the volume exceeds the notional by. */
  lemma {:induction false} ShortfallUnderIsDeficit(deals: seq<Deal>, hi: real)
    ensures ShortfallUnder(deals, hi) == hi * TotalVolume(deals) - TotalNotional(deals)
    decreases |deals|
  {
    if deals != [] {
      var init, last := deals[..|deals| - 1], deals[|deals| - 1];
      ShortfallUnderIsDeficit(init, hi);
      ProductDistributes(hi, TotalVolume(init), last.volume, last.executionPrice, last.volume);
      assert (hi - last.executionPrice) * last.volume == hi * last.volume - last.executionPrice * last.volume;
    }
  }

  /** Deals priced at or below `hi` leave no negative shortfall under it. */
  lemma {:induction false} ShortfallUnderNonnegative(deals: seq<Deal>, hi: real)
    requires forall d :: d in deals ==> d.volume >= 0.0 && d.executionPrice <= hi
    ensures ShortfallUnder(deals, hi) >= 0.0
    decreases |deals|
  {
    if deals != [] {
      var init, last := deals[..|deals| - 1], deals[|deals| - 1];
      assert last in deals;
      assert forall d :: d in init ==> d in deals;
      ShortfallUnderNonnegative(init, hi);
      ProductNonnegative(hi - last.executionPrice, last.volume);
    }
  }

  /** The notional of deals within [lo, hi] lies between lo and hi times their volume. */
  lemma NotionalBetween(deals: seq<Deal>, lo: real, hi: real)
    requires DealsWithin(deals, lo, hi)
    ensures lo * TotalVolume(deals) <= TotalNotional(deals) <= hi * TotalVolume(deals)
  {
    SurplusOverIsExcess(deals, lo);
    SurplusOverNonnegative(deals, lo);
    ShortfallUnderIsDeficit(deals, hi);
    ShortfallUnderNonnegative(deals, hi);
  }

  /** A quotient n / v with v > 0 and lo * v <= n <= hi * v lies in [lo, hi]. */
  lemma AverageBetween(n: real, v: real, lo: real, hi: real)
    requires v > 0.0 && lo * v <= n <= hi * v
    ensures lo <= n / v <= hi
  {
    var q := n / v;
    assert q * v == n;
    assert (q - lo) * v >= 0.0;
    assert (hi - q) * v >= 0.0;
  }

  /**
   * The execution price is an average: when every executed deal has a positive
   * volume and a price in [lo, hi], and at least one deal is executed, the
   * execution price of an executed order is defined and lies in [lo, hi].
   */
  lemma ExecutionPriceWithinDealPrices(status: OrderStatus, deals: seq<Deal>, lo: real, hi: real)
    requires IsExecuted(status)
    requires exists d :: d in deals && d.executed
    requires forall d :: d in deals && d.executed ==> d.volume > 0.0 && lo <= d.executionPrice <= hi
    ensures ExecutionPrice(status, deals).Some?
    ensures lo <= ExecutionPrice(status, deals).value <= hi
  {
    var executed := ExecutedDeals(deals);
    ExecutedDealsWithin(deals, lo, hi);
    var v, n := TotalVolume(executed), TotalNotional(executed);
    assert v > 0.0 by { TotalVolumePositive(executed); }
    assert lo <= n / v <= hi by {
      NotionalBetween(executed, lo, hi);
      AverageBetween(n, v, lo, hi);
    }
    assert ExecutionPrice(status, deals) == Some(n / v);
  }

  /** The executed deals inherit the bounds the executed deals of the order satisfy. */
  lemma ExecutedDealsWithin(deals: seq<Deal>, lo: real, hi: real)
    requires exists d :: d in deals && d.executed
    requires forall d :: d in deals && d.executed ==> d.volume > 0.0 && lo <= d.executionPrice <= hi
    ensures ExecutedDeals(deals) != []
    ensures forall e :: e in ExecutedDeals(deals) ==> e.volume > 0.0
    ensures DealsWithin(ExecutedDeals(deals), lo, hi)
  {
    var executed := ExecutedDeals(deals);
    ExecutedDealsSelects(deals);
    var d :| d in deals && d.executed;
    assert multiset(executed)[d] == multiset(deals)[d] > 0;
    forall e | e in executed ensures e in deals && e.executed {
      assert multiset(executed)[e] > 0;
    }
  }

  /** The worked case: deals of 4 at 1.10 and 6 at 1.12 fill 10 fully at 1.112. */
  lemma FullFillExample()
    ensures var deals := [Deal("a", 4.0, 1.10, true), Deal("b", 6.0, 1.12, true)];
      && FilledVolume(deals) == 10.0
      && GetFillType(Executed, deals, 10.0) == Some(Full)
      && ExecutionPrice(Executed, deals) == Some(1.112)
  {
    var deals := [Deal("a", 4.0, 1.10, true), Deal("b", 6.0, 1.12, true)];
    assert deals[..1] == [deals[0]];
    assert deals[..1][..0] == [];
    assert ExecutedDeals(deals) == deals by {
      FilterSnoc([], deals[0], IsExecutedDeal);
      assert [] + [deals[0]] == deals[..1];
      FilterSnoc(deals[..1], deals[1], IsExecutedDeal);
      assert deals[..1] + [deals[1]] == deals;
    }
    assert TotalVolume(deals[..1]) == 4.0;
    assert TotalVolume(deals) == 10.0;
    assert TotalNotional(deals[..1]) == 4.4;
    assert TotalNotional(deals) == 11.12;
  }

  /**
   * LIMIT whenever a limit price is set (even with a stop price too), STOP when
   * only a stop price is set, MARKET when neither is.
   */
  function GetExecutionType(limitPrice: Option<real>, stopPrice: Option<real>): (r: ExecutionType)
    ensures r == Limit <==> limitPrice.Some?
    ensures r == Stop <==> limitPrice.None? && stopPrice.Some?
    ensures r == Market <==> limitPrice.None? && stopPrice.None?
  {
    if limitPrice.Some? then Limit
    else if stopPrice.Some? then Stop
    else Market
  }

  /** The order's position: the stored value, or what the stored function produces. */
  function ResolvePosition(getter: Option<PositionRef>): (r: Option<BrokerPositions.Position>)
    ensures r.Some? <==> getter.Some?
    ensures getter.Some? && getter.value.Resolved? ==> r == Some(getter.value.position)
    ensures getter.Some? && getter.value.Lazy? ==> r == Some(getter.value.resolve())
  {
    match getter
    case None => None
    case Some(Resolved(p)) => Some(p)
    case Some(Lazy(f)) => Some(f())
  }

  /** Storing a function or the value it produces is indistinguishable to readers. */
  lemma LazyPositionTransparent(f: () -> BrokerPositions.Position)
    ensures ResolvePosition(Some(Lazy(f))) == ResolvePosition(Some(Resolved(f())))
  {
  }

  class BrokerOrder {
    var id: Option<string>
    const symbol: string
    var requestedVolume: real
    const direction: OrderDirection
    const purpose: OrderPurpose
    var limitPrice: Option<real>
    var stopPrice: Option<real>
    var status: OrderStatus
    var deals: seq<Deal>
    var positionGetter: Option<PositionRef>
    const isStopOut: bool
    /** Everything the order's emitter has been asked to notify, oldest first. */
    ghost var events: seq<OrderEvent>

    /** Copies the parameters; missing deals default to none, a missing stop-out flag to false. */
    constructor (parameters: OrderParameters)
      ensures id == parameters.id && symbol == parameters.symbol
      ensures requestedVolume == parameters.requestedVolume
      ensures direction == parameters.direction && purpose == parameters.purpose
      ensures limitPrice == parameters.limitPrice && stopPrice == parameters.stopPrice
      ensures status == parameters.status
      ensures deals == parameters.deals.GetOr([])
      ensures positionGetter == parameters.position
      ensures isStopOut == parameters.isStopOut.GetOr(false)
      ensures events == []
    {
      id := parameters.id;
      symbol := parameters.symbol;
      requestedVolume := parameters.requestedVolume;
      direction := parameters.direction;
      purpose := parameters.purpose;
      limitPrice := parameters.limitPrice;
      stopPrice := parameters.stopPrice;
      status := parameters.status;
      deals := parameters.deals.GetOr([]);
      positionGetter := parameters.position;
      isStopOut := parameters.isStopOut.GetOr(false);
      events := [];
    }

    /**
     * Moves the order to `newStatus`. Nothing happens when it is already there;
     * otherwise the status-specific event and then the status-change event,
     * carrying the new and the previous status, are emitted.
     */
    method OnStatusChange(newStatus: OrderStatus)
      modifies this`status, this`events
      ensures status == newStatus
      ensures events == old(events) + StatusTransitionEvents(old(status), newStatus)
      ensures old(status) == newStatus ==> events == old(events)
    {
      if status == newStatus {
        return;
      }
      var previousStatus := status;
      status := newStatus;
      match StatusEventName(newStatus) {
        case Some(name) => events := events + [OrderEvent(name, NoDescriptor)];
        case None =>
      }
      events := events + [OrderEvent(StatusChangeEvent, StatusChange(newStatus, previousStatus))];
    }

    /**
     * Moves the pending price: the limit price if one is set, else the stop price
     * if one is set, else neither. The execution type is unchanged, and one
     * pending-price-change event is always emitted.
     */
    method OnPendingPriceChange(price: real)
      modifies this`limitPrice, this`stopPrice, this`events
      ensures limitPrice == if old(limitPrice).Some? then Some(price) else old(limitPrice)
      ensures stopPrice == if old(limitPrice).None? && old(stopPrice).Some? then Some(price) else old(stopPrice)
      ensures GetExecutionType(limitPrice, stopPrice) == GetExecutionType(old(limitPrice), old(stopPrice))
      ensures events == old(events) + [OrderEvent("pending-price-change", PriceChange(price))]
    {
      if limitPrice.Some? {
        limitPrice := Some(price);
      } else if stopPrice.Some? {
        stopPrice := Some(price);
      }
      events := events + [OrderEvent("pending-price-change", PriceChange(price))];
    }

    /** Sets the requested volume; nothing happens, and nothing is emitted, when it is unchanged. */
    method OnPendingVolumeChange(volume: real)
      modifies this`requestedVolume, this`events
      ensures requestedVolume == volume
      ensures events == old(events) + (if old(requestedVolume) == volume then [] else [OrderEvent("pending-volume-change", VolumeChange(volume))])
    {
      if requestedVolume == volume {
        return;
      }
      requestedVolume := volume;
      events := events + [OrderEvent("pending-volume-change", VolumeChange(volume))];
    }

    /**
     * Records a deal at the end of the deal list and emits one deal event; the
     * status is untouched, and the filled volume grows by the deal's volume iff
     * the deal is executed.
     */
    method OnDeal(deal: Deal)
      modifies this`deals, this`events
      ensures deals == old(deals) + [deal]
      ensures FilledVolume(deals) == FilledVolume(old(deals)) + (if deal.executed then deal.volume else 0.0)
      ensures events == old(events) + [OrderEvent("deal", DealDescriptor(deal))]
    {
      FilledVolumeAfterDeal(deals, deal);
      deals := deals + [deal];
      events := events + [OrderEvent("deal", DealDescriptor(deal))];
    }
  }
}
