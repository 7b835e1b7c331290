/**
 * The advisor's derived views: fresh arrays (and one insertion-ordered Map)
 * computed by loops over its component list and its orders, which they only read.
 */
module AdvisorViews {
  import opened Wrappers
  import opened Seqs
  import opened BrokerOrders
  import opened BrokerPositions

  /** A pluggable strategy component; only its enabled flag matters to the runtime. */
  datatype Component = Component(name: string, enabled: bool)

  predicate IsEnabled(c: Component) { c.enabled }

  /** The enabled components, in registration order. */
  function EnabledComponents(components: seq<Component>): seq<Component>
  {
    Filter(components, IsEnabled)
  }

  /**
   * A component takes part in the runtime's loops iff it is registered and
   * enabled, and the loops visit them in registration order.
   */
  lemma EnabledComponentsMembership(components: seq<Component>)
    ensures IsSubsequence(EnabledComponents(components), components)
    ensures forall c :: c in EnabledComponents(components) <==> c in components && c.enabled
  {
    FilterIsSubsequence(components, IsEnabled);
    FilterSelects(components, IsEnabled);
    var r := EnabledComponents(components);
    forall c | c in r ensures c in components {
      assert multiset(r)[c] > 0;
    }
    forall c | c in components && c.enabled ensures c in r {
      assert multiset(r)[c] == multiset(components)[c] > 0;
    }
  }

  /**
   * The orders whose status is FILLED, in their order. FILLED is a status of its
   * own, distinct from the EXECUTED that an order reaches on execution.
   */
  function FilledOrders(orders: seq<BrokerOrder>): seq<BrokerOrder>
    reads orders
  {
    if orders == [] then []
    else
      var init, last := orders[..|orders| - 1], orders[|orders| - 1];
      assert forall i :: 0 <= i < |init| ==> init[i] == orders[i];
      var r0 := FilledOrders(init);
      if last.status == Filled then r0 + [last] else r0
  }

  /**
   * FilledOrders keeps the order of `orders`, holds only FILLED orders, and holds
   * each FILLED order as often as `orders` does.
   */
  lemma {:induction false} FilledOrdersSelects(orders: seq<BrokerOrder>)
    ensures multiset(FilledOrders(orders)) <= multiset(orders)
    ensures forall o :: o in FilledOrders(orders) ==> o in orders && o.status == Filled
    ensures forall o :: o in orders && o.status == Filled ==> multiset(FilledOrders(orders))[o] == multiset(orders)[o]
    decreases |orders|
  {
    if orders != [] {
      var init, last := orders[..|orders| - 1], orders[|orders| - 1];
      FilledOrdersSelects(init);
      assert orders == init + [last];
    }
  }

  /** FilledOrders keeps the order of `orders`. */
  lemma {:induction false} FilledOrdersInOrder(orders: seq<BrokerOrder>)
    ensures IsSubsequence(FilledOrders(orders), orders)
    decreases |orders|
  {
    if orders != [] {
      var init, last := orders[..|orders| - 1], orders[|orders| - 1];
      var r0 := FilledOrders(init);
      FilledOrdersInOrder(init);
      FilledOrdersSelects(init);
      assert orders == init + [last];
      if last.status == Filled {
        var r := r0 + [last];
        assert r[..|r| - 1] == r0;
      } else {
        assert r0 != [] ==> r0[|r0| - 1] in r0;
      }
    }
  }

  /** Every filled order is one of the orders, by index, for the frames of functions that read them. */
  lemma FilledOrdersWithin(orders: seq<BrokerOrder>)
    ensures forall i :: 0 <= i < |FilledOrders(orders)| ==> FilledOrders(orders)[i] in orders
  {
    var filled: seq<BrokerOrder> := FilledOrders(orders);
    FilledOrdersSelects(orders);
    forall i | 0 <= i < |filled| ensures filled[i] in orders {
      assert filled[i] in filled;
    }
  }

  lemma FilledOrdersSnoc(orders: seq<BrokerOrder>, o: BrokerOrder)
    ensures FilledOrders(orders + [o]) == FilledOrders(orders) + (if o.status == Filled then [o] else [])
  {
    assert (orders + [o])[..|orders|] == orders;
  }

  lemma {:induction false} FilledOrdersAppend(a: seq<BrokerOrder>, b: seq<BrokerOrder>)
    ensures FilledOrders(a + b) == FilledOrders(a) + FilledOrders(b)
    decreases |b|
  {
    if b == [] {
      assert a + b == a;
    } else {
      var init, last := b[..|b| - 1], b[|b| - 1];
      var tail := if last.status == Filled then [last] else [];
      calc == {
        FilledOrders(a + b);
        { assert a + b == (a + init) + [last]; }
        FilledOrders((a + init) + [last]);
        { FilledOrdersSnoc(a + init, last); }
        FilledOrders(a + init) + tail;
        { FilledOrdersAppend(a, init); }
        FilledOrders(a) + FilledOrders(init) + tail;
        FilledOrders(a) + (FilledOrders(init) + tail);
        FilledOrders(a) + FilledOrders(b);
      }
    }
  }

  /** The deal lists of the orders, concatenated in order. */
  function ConcatDeals(orders: seq<BrokerOrder>): (r: seq<Deal>)
    reads orders
    ensures forall d :: d in r <==> exists o :: o in orders && d in o.deals
  {
    if orders == [] then []
    else
      var init, last := orders[..|orders| - 1], orders[|orders| - 1];
      assert orders == init + [last];
      assert forall o :: o in init ==> o in orders;
      ConcatDeals(init) + last.deals
  }

  lemma {:induction false} ConcatDealsAppend(a: seq<BrokerOrder>, b: seq<BrokerOrder>)
    ensures ConcatDeals(a + b) == ConcatDeals(a) + ConcatDeals(b)
    decreases |b|
  {
    if b == [] {
      assert a + b == a;
    } else {
      var init, last := b[..|b| - 1], b[|b| - 1];
      assert (a + b)[..|a + b| - 1] == a + init;
      assert (a + b)[|a + b| - 1] == last;
      ConcatDealsAppend(a, init);
    }
  }

  /** Every deal of every filled order, order by order. */
  function FilledOrdersDeals(orders: seq<BrokerOrder>): (r: seq<Deal>)
    reads orders
    ensures forall d :: d in r <==> exists o :: o in orders && o.status == Filled && d in o.deals
  {
    var filled: seq<BrokerOrder> := FilledOrders(orders);
    FilledOrdersSelects(orders);
    FilledOrdersWithin(orders);
    assert forall o :: o in orders && o.status == Filled ==> o in filled by {
      forall o: BrokerOrder | o in orders && o.status == Filled ensures o in filled {
        assert multiset(filled)[o] == multiset(orders)[o] > 0;
      }
    }
    ConcatDeals(filled)
  }

  /** The deals of a longer order list are those of its parts, in order. */
  lemma FilledOrdersDealsAppend(a: seq<BrokerOrder>, b: seq<BrokerOrder>)
    ensures FilledOrdersDeals(a + b) == FilledOrdersDeals(a) + FilledOrdersDeals(b)
  {
    FilledOrdersAppend(a, b);
    ConcatDealsAppend(FilledOrders(a), FilledOrders(b));
  }

  ghost predicate HasId(ps: seq<Position>, id: string)
  {
    exists i :: 0 <= i < |ps| && ps[i].id == id
  }

  ghost predicate DistinctIds(ps: seq<Position>)
  {
    forall i, j :: 0 <= i < j < |ps| ==> ps[i].id != ps[j].id
  }

  /** Where `id` first occurs in `ps`. */
  ghost function FirstIndex(ps: seq<Position>, id: string): (k: nat)
    requires HasId(ps, id)
    ensures k < |ps| && ps[k].id == id
    ensures forall j :: 0 <= j < k ==> ps[j].id != id
  {
    var init := ps[..|ps| - 1];
    if HasId(init, id) then FirstIndex(init, id) else |ps| - 1
  }

  /** Where `id` last occurs in `ps`. */
  ghost function LastIndex(ps: seq<Position>, id: string): (k: nat)
    requires HasId(ps, id)
    ensures k < |ps| && ps[k].id == id
    ensures forall j :: k < j < |ps| ==> ps[j].id != id
  {
    if ps[|ps| - 1].id == id then |ps| - 1
    else
      var init := ps[..|ps| - 1];
      assert HasId(init, id) by {
        var i :| 0 <= i < |ps| && ps[i].id == id;
        assert init[i].id == id;
      }
      LastIndex(init, id)
  }

  /** The slot holding `id`, or -1: the Map's key lookup. */
  function KeySlot(entries: seq<Position>, id: string): (k: int)
    ensures -1 <= k < |entries|
    ensures k >= 0 ==> entries[k].id == id
    ensures k < 0 ==> forall i :: 0 <= i < |entries| ==> entries[i].id != id
  {
    if entries == [] then -1
    else if entries[|entries| - 1].id == id then |entries| - 1
    else KeySlot(entries[..|entries| - 1], id)
  }

  /**
   * `Map.set(p.id, p)` on a Map from position id to position, kept as its values
   * in insertion order: a key already present keeps its slot and takes the new
   * value; a new key goes last.
   */
  function SetPosition(entries: seq<Position>, p: Position): (r: seq<Position>)
    requires DistinctIds(entries)
    ensures DistinctIds(r)
    ensures HasId(entries, p.id) ==>
      |r| == |entries| && forall i :: 0 <= i < |r| ==> r[i] == if entries[i].id == p.id then p else entries[i]
    ensures !HasId(entries, p.id) ==> r == entries + [p]
  {
    var k := KeySlot(entries, p.id);
    if k >= 0 then
      assert HasId(entries, p.id);
      entries[k := p]
    else
      assert !HasId(entries, p.id);
      entries + [p]
  }

  /** The Map's values after setting each position in turn, in insertion order. */
  function PositionMap(ps: seq<Position>): (r: seq<Position>)
    ensures DistinctIds(r)
  {
    if ps == [] then [] else SetPosition(PositionMap(ps[..|ps| - 1]), ps[|ps| - 1])
  }

  /**
   * `r` indexes `ps` by position id the way a Map filled in the order of `ps`
   * does: one entry per distinct id of `ps` and no other, ordered by where each
   * id first occurs in `ps`, each entry the position that occurs last with its id.
   */
  ghost predicate IsDeduplication(r: seq<Position>, ps: seq<Position>)
  {
    && DistinctIds(r)
    && (forall k :: 0 <= k < |ps| ==> HasId(r, ps[k].id))
    && (forall i :: 0 <= i < |r| ==> HasId(ps, r[i].id))
    && (forall i :: 0 <= i < |r| ==> r[i] == ps[LastIndex(ps, r[i].id)])
    && (forall i, j :: 0 <= i < j < |r| ==> FirstIndex(ps, r[i].id) < FirstIndex(ps, r[j].id))
  }

  /** The Map's values are the positions deduplicated by id (see IsDeduplication). */
  lemma {:induction false} PositionMapDeduplicates(ps: seq<Position>)
    ensures IsDeduplication(PositionMap(ps), ps)
    decreases |ps|
  {
    if ps != [] {
      var init, p := ps[..|ps| - 1], ps[|ps| - 1];
      PositionMapDeduplicates(init);
      assert init + [p] == ps;
      if HasId(PositionMap(init), p.id) {
        SetExistingKeepsDeduplication(PositionMap(init), init, p);
      } else {
        SetNewKeepsDeduplication(PositionMap(init), init, p);
      }
    }
  }

  lemma IndicesAfterSnoc(init: seq<Position>, p: Position)
    ensures forall id :: HasId(init, id) ==> HasId(init + [p], id)
    ensures HasId(init + [p], p.id) && LastIndex(init + [p], p.id) == |init|
    ensures forall id :: HasId(init, id) ==> FirstIndex(init + [p], id) == FirstIndex(init, id)
    ensures forall id :: HasId(init, id) && id != p.id ==> LastIndex(init + [p], id) == LastIndex(init, id)
    ensures !HasId(init, p.id) ==> FirstIndex(init + [p], p.id) == |init|
  {
    var ps := init + [p];
    assert ps[..|ps| - 1] == init;
    assert ps[|init|].id == p.id;
    forall id | HasId(init, id) ensures HasId(ps, id) {
      var i :| 0 <= i < |init| && init[i].id == id;
      assert ps[i].id == id;
    }
  }

  /** Setting a present id keeps every slot's id. */
  lemma SetExistingKeepsIds(r0: seq<Position>, p: Position)
    requires DistinctIds(r0) && HasId(r0, p.id)
    ensures |SetPosition(r0, p)| == |r0|
    ensures forall i :: 0 <= i < |r0| ==> SetPosition(r0, p)[i].id == r0[i].id
  {
  }

  lemma SetExistingCovers(r0: seq<Position>, init: seq<Position>, p: Position)
    requires DistinctIds(r0) && HasId(r0, p.id)
    requires forall k :: 0 <= k < |init| ==> HasId(r0, init[k].id)
    ensures forall k :: 0 <= k < |init + [p]| ==> HasId(SetPosition(r0, p), (init + [p])[k].id)
  {
    var ps, r := init + [p], SetPosition(r0, p);
    SetExistingKeepsIds(r0, p);
    forall k | 0 <= k < |ps| ensures HasId(r, ps[k].id) {
      if k < |init| {
        assert ps[k] == init[k];
      }
      var i :| 0 <= i < |r0| && r0[i].id == ps[k].id;
      assert r[i].id == ps[k].id;
    }
  }

  lemma SetExistingTakesLast(r0: seq<Position>, init: seq<Position>, p: Position)
    requires DistinctIds(r0) && HasId(r0, p.id)
    requires forall i :: 0 <= i < |r0| ==> HasId(init, r0[i].id)
    requires forall i :: 0 <= i < |r0| ==> r0[i] == init[LastIndex(init, r0[i].id)]
    ensures forall i :: 0 <= i < |SetPosition(r0, p)| ==> HasId(init + [p], SetPosition(r0, p)[i].id)
    ensures forall i :: 0 <= i < |SetPosition(r0, p)| ==>
      SetPosition(r0, p)[i] == (init + [p])[LastIndex(init + [p], SetPosition(r0, p)[i].id)]
  {
    var ps, r := init + [p], SetPosition(r0, p);
    IndicesAfterSnoc(init, p);
    forall i | 0 <= i < |r| ensures HasId(ps, r[i].id) && r[i] == ps[LastIndex(ps, r[i].id)] {
      if r0[i].id != p.id {
        assert ps[LastIndex(init, r0[i].id)] == init[LastIndex(init, r0[i].id)];
      }
    }
  }

  lemma SetExistingKeepsOrder(r0: seq<Position>, init: seq<Position>, p: Position)
    requires DistinctIds(r0) && HasId(r0, p.id)
    requires forall i :: 0 <= i < |r0| ==> HasId(init, r0[i].id)
    requires forall i, j :: 0 <= i < j < |r0| ==> FirstIndex(init, r0[i].id) < FirstIndex(init, r0[j].id)
    ensures forall i :: 0 <= i < |SetPosition(r0, p)| ==> HasId(init + [p], SetPosition(r0, p)[i].id)
    ensures forall i, j :: 0 <= i < j < |SetPosition(r0, p)| ==>
      FirstIndex(init + [p], SetPosition(r0, p)[i].id) < FirstIndex(init + [p], SetPosition(r0, p)[j].id)
  {
    IndicesAfterSnoc(init, p);
    SetExistingKeepsIds(r0, p);
  }

  /** Setting a position whose id is already present replaces its entry in place. */
  lemma SetExistingKeepsDeduplication(r0: seq<Position>, init: seq<Position>, p: Position)
    requires IsDeduplication(r0, init)
    requires HasId(r0, p.id)
    ensures IsDeduplication(SetPosition(r0, p), init + [p])
  {
    SetExistingCovers(r0, init, p);
    SetExistingTakesLast(r0, init, p);
    SetExistingKeepsOrder(r0, init, p);
  }

  lemma SetNewCovers(r0: seq<Position>, init: seq<Position>, p: Position)
    requires forall k :: 0 <= k < |init| ==> HasId(r0, init[k].id)
    ensures forall k :: 0 <= k < |init + [p]| ==> HasId(r0 + [p], (init + [p])[k].id)
  {
    var ps, r := init + [p], r0 + [p];
    forall k | 0 <= k < |ps| ensures HasId(r, ps[k].id) {
      if k < |init| {
        assert ps[k] == init[k];
        var i :| 0 <= i < |r0| && r0[i].id == ps[k].id;
        assert r[i].id == ps[k].id;
      } else {
        assert r[|r0|].id == ps[k].id;
      }
    }
  }

  lemma SetNewTakesLast(r0: seq<Position>, init: seq<Position>, p: Position)
    requires !HasId(init, p.id)
    requires forall i :: 0 <= i < |r0| ==> HasId(init, r0[i].id)
    requires forall i :: 0 <= i < |r0| ==> r0[i] == init[LastIndex(init, r0[i].id)]
    ensures forall i :: 0 <= i < |r0 + [p]| ==> HasId(init + [p], (r0 + [p])[i].id)
    ensures forall i :: 0 <= i < |r0 + [p]| ==> (r0 + [p])[i] == (init + [p])[LastIndex(init + [p], (r0 + [p])[i].id)]
  {
    var ps, r := init + [p], r0 + [p];
    IndicesAfterSnoc(init, p);
    forall i | 0 <= i < |r| ensures HasId(ps, r[i].id) && r[i] == ps[LastIndex(ps, r[i].id)] {
      if i < |r0| {
        assert r[i] == r0[i];
        assert r0[i].id != p.id;
        assert ps[LastIndex(init, r0[i].id)] == init[LastIndex(init, r0[i].id)];
      }
    }
  }

  lemma SetNewKeepsOrder(r0: seq<Position>, init: seq<Position>, p: Position)
    requires !HasId(init, p.id)
    requires forall i :: 0 <= i < |r0| ==> HasId(init, r0[i].id)
    requires forall i, j :: 0 <= i < j < |r0| ==> FirstIndex(init, r0[i].id) < FirstIndex(init, r0[j].id)
    ensures forall i :: 0 <= i < |r0 + [p]| ==> HasId(init + [p], (r0 + [p])[i].id)
    ensures forall i, j :: 0 <= i < j < |r0 + [p]| ==>
      FirstIndex(init + [p], (r0 + [p])[i].id) < FirstIndex(init + [p], (r0 + [p])[j].id)
  {
    var ps, r := init + [p], r0 + [p];
    IndicesAfterSnoc(init, p);
    forall i | 0 <= i < |r| ensures HasId(ps, r[i].id) {
      if i < |r0| {
        assert r[i] == r0[i];
      }
    }
    forall i, j | 0 <= i < j < |r| ensures FirstIndex(ps, r[i].id) < FirstIndex(ps, r[j].id) {
      assert r[i] == r0[i];
      if j < |r0| {
        assert r[j] == r0[j];
      }
    }
  }

  /** Setting a position with a new id appends an entry. */
  lemma SetNewKeepsDeduplication(r0: seq<Position>, init: seq<Position>, p: Position)
    requires IsDeduplication(r0, init)
    requires !HasId(r0, p.id)
    ensures IsDeduplication(SetPosition(r0, p), init + [p])
  {
    assert !HasId(init, p.id) by {
      forall k | 0 <= k < |init| ensures init[k].id != p.id {
        assert HasId(r0, init[k].id);
      }
    }
    SetNewCovers(r0, init, p);
    SetNewTakesLast(r0, init, p);
    SetNewKeepsOrder(r0, init, p);
  }

  /**
   * The resolved positions of the filled orders, in order; `None` when one of
   * them has no position, where the source reads `.id` of undefined and throws.
   */
  function FilledPositions(filled: seq<BrokerOrder>): (r: Option<seq<Position>>)
    reads filled
    ensures r.Some? <==> forall o :: o in filled ==> o.positionGetter.Some?
    ensures r.Some? ==>
      |r.value| == |filled| && forall i :: 0 <= i < |filled| ==> Some(r.value[i]) == ResolvePosition(filled[i].positionGetter)
  {
    if filled == [] then Some([])
    else
      var init, last := filled[..|filled| - 1], filled[|filled| - 1];
      assert filled == init + [last];
      assert forall o :: o in init ==> o in filled;
      match FilledPositions(init)
      case None => None
      case Some(ps) =>
        match ResolvePosition(last.positionGetter)
        case None => None
        case Some(p) => Some(ps + [p])
  }

  /**
   * The positions of the filled orders, through a Map keyed by position id;
   * `None` when a filled order has no position, where reading its id throws.
   */
  function GetPositions(orders: seq<BrokerOrder>): (r: Option<seq<Position>>)
    reads orders
    ensures r.None? <==> exists o :: o in orders && o.status == Filled && o.positionGetter.None?
  {
    var filled: seq<BrokerOrder> := FilledOrders(orders);
    FilledOrdersWithin(orders);
    FilledOrdersMissingPosition(orders);
    match FilledPositions(filled)
    case None => None
    case Some(ps) => Some(PositionMap(ps))
  }

  /** A filled order lacks a position iff some order is FILLED and lacks one. */
  lemma FilledOrdersMissingPosition(orders: seq<BrokerOrder>)
    ensures (exists o :: o in FilledOrders(orders) && o.positionGetter.None?) <==>
      exists o :: o in orders && o.status == Filled && o.positionGetter.None?
  {
    var filled: seq<BrokerOrder> := FilledOrders(orders);
    FilledOrdersSelects(orders);
    forall o: BrokerOrder | o in orders && o.status == Filled ensures o in filled {
      assert multiset(filled)[o] == multiset(orders)[o] > 0;
    }
  }

  /**
   * The positions are those of the filled orders, one per position id, ordered
   * by where each id first occurs, each the one the last order with that id holds.
   */
  lemma GetPositionsDeduplicates(orders: seq<BrokerOrder>)
    ensures GetPositions(orders).Some? ==>
      FilledPositions(FilledOrders(orders)).Some? &&
      IsDeduplication(GetPositions(orders).value, FilledPositions(FilledOrders(orders)).value)
  {
    FilledOrdersWithin(orders);
    if GetPositions(orders).Some? {
      PositionMapDeduplicates(FilledPositions(FilledOrders(orders)).value);
    }
  }

  predicate IsOpen(p: Position) { p.status == PositionStatus.Open }

  /** The open positions among GetPositions, in the same order; `None` when that throws. */
  function OpenPositions(orders: seq<BrokerOrder>): (r: Option<seq<Position>>)
    reads orders
    ensures r.Some? <==> GetPositions(orders).Some?
    ensures r.Some? ==> forall p :: p in r.value ==> p.status == PositionStatus.Open
    ensures r.Some? ==> forall p :: p in GetPositions(orders).value && p.status == PositionStatus.Open ==> p in r.value
  {
    match GetPositions(orders)
    case None => None
    case Some(ps) =>
      var open := Filter(ps, IsOpen);
      FilterSelects(ps, IsOpen);
      assert forall p :: p in ps && p.status == PositionStatus.Open ==> p in open by {
        forall p | p in ps && p.status == PositionStatus.Open ensures p in open {
          assert multiset(open)[p] == multiset(ps)[p] > 0;
        }
      }
      Some(open)
  }

  /** The open positions keep the order of the positions. */
  lemma OpenPositionsInOrder(orders: seq<BrokerOrder>)
    ensures OpenPositions(orders).Some? ==> IsSubsequence(OpenPositions(orders).value, GetPositions(orders).value)
  {
    if GetPositions(orders).Some? {
      FilterIsSubsequence(GetPositions(orders).value, IsOpen);
    }
  }
}
