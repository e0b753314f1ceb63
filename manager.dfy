/**
 * `OrderBookManager`: the six fields guarded by the manager's lock and one method per
 * `with self._lock:` section. Each method is one atomic step; what the threads do between
 * steps (polling, placing, cancelling) arrives as parameters. Every method states its new
 * state as the matching function of `Bookkeeping`, where the guarantees are proved.
 */
module Manager {
  import opened Wrappers
  import opened OrderBooks
  import opened Reconciliation
  import Bookkeeping

  class OrderBookManager<B, D(==)> {
    var state: Option<Snapshot<B, D>>
    var refreshCount: nat
    var placingCount: int
    var ordersPlaced: seq<Order<D>>
    var cancelling: set<int>
    var cancelled: set<int>

    /** The guarded fields as one value. */
    function Current(): Bookkeeping.ManagerState<B, D>
      reads this
    {
      Bookkeeping.ManagerState(state, refreshCount, placingCount, ordersPlaced, cancelling, cancelled)
    }

    constructor ()
      ensures Current() == Bookkeeping.Init()
    {
      state := None;
      refreshCount := 0;
      placingCount := 0;
      ordersPlaced := [];
      cancelling := {};
      cancelled := {};
    }

    /**
     * `get_order_book`, once a first poll has succeeded: append the placed orders whose
     * id is not yet in the list, then drop every order being or already cancelled.
     */
    method GetOrderBook() returns (book: OrderBook<B, D>)
      requires state.Some?
      ensures book == Bookkeeping.View(Current())
    {
      var orders := state.value.orders;
      var i := 0;
      while i < |ordersPlaced|
        invariant 0 <= i <= |ordersPlaced|
        invariant orders == Amend(state.value.orders, ordersPlaced[..i])
      {
        var order := ordersPlaced[i];
        assert ordersPlaced[..i + 1] == ordersPlaced[..i] + [order];
        if order.orderId !in Ids(orders) {
          orders := orders + [order];
        }
        i := i + 1;
      }
      assert ordersPlaced[..i] == ordersPlaced;
      orders := Hide(orders, cancelling + cancelled);
      book := OrderBook(orders, state.value.balances, placingCount > 0, |cancelling| > 0);
    }

    // -------------------------------------------------------------------------------
    // The refresher.

    /** First lock section of a cycle: copy C0 and P0. */
    method RefreshBegin() returns (c: Bookkeeping.Capture<D>)
      ensures c == Bookkeeping.CaptureOf(Current())
    {
      c := Bookkeeping.Capture(cancelled, Elems(ordersPlaced));
    }

    /**
     * Second lock section of a cycle, with the poll's outcome (`None` when a collaborator
     * raised). Removes each captured order from the placed list the way `list.remove` does.
     */
    method RefreshEnd(c: Bookkeeping.Capture<D>, poll: Option<Snapshot<B, D>>)
      requires poll.Some? ==> c.placedBefore <= Elems(ordersPlaced)
      modifies this
      ensures Current() == Bookkeeping.RefreshEnd(old(Current()), c, poll)
    {
      if poll.Some? {
        cancelled := cancelled - c.cancelledBefore;
        var remaining := c.placedBefore;
        while remaining != {}
          invariant forall o :: o in remaining ==> o in ordersPlaced
          invariant Retire(ordersPlaced, remaining) == Retire(old(ordersPlaced), c.placedBefore)
          invariant state == old(state) && refreshCount == old(refreshCount)
          invariant placingCount == old(placingCount) && cancelling == old(cancelling)
          invariant cancelled == old(cancelled) - c.cancelledBefore
          decreases remaining
        {
          var order :| order in remaining;
          RetireStep(ordersPlaced, remaining, order);
          ordersPlaced := RemoveFirst(ordersPlaced, order);
          remaining := remaining - {order};
        }
        RetireNothing(ordersPlaced);
        state := poll;
        refreshCount := refreshCount + 1;
      }
    }

    // -------------------------------------------------------------------------------
    // Placement.

    /** `place_order`: count the placement in flight before its thread starts. */
    method PlaceOrder()
      modifies this
      ensures Current() == Bookkeeping.PlaceLaunch(old(Current()))
    {
      placingCount := placingCount + 1;
    }

    /** The placement thread's first lock section: the placer returned an order. */
    method PlaceRecord(order: Order<D>)
      modifies this
      ensures Current() == Bookkeeping.PlaceRecord(old(Current()), order)
    {
      ordersPlaced := ordersPlaced + [order];
    }

    /** The placement thread's `finally` lock section. */
    method PlaceRelease()
      modifies this
      ensures Current() == Bookkeeping.PlaceRelease(old(Current()))
    {
      placingCount := placingCount - 1;
    }

    /** The placement thread once the placer has returned `result` (`None` also for a raised error). */
    method PlaceFinish(result: Option<Order<D>>)
      modifies this
      ensures Current() == Bookkeeping.PlaceFinish(old(Current()), result)
    {
      if result.Some? {
        PlaceRecord(result.value);
      }
      PlaceRelease();
    }

    // -------------------------------------------------------------------------------
    // Cancellation.

    /** `cancel_order`: hide the id before its thread starts. */
    method CancelOrder(id: int)
      modifies this
      ensures Current() == Bookkeeping.CancelLaunch(old(Current()), id)
    {
      cancelling := cancelling + {id};
    }

    /**
     * The cancellation thread's first lock section, after the canceller reported success.
     * `keyError` tells whether the strict removal raised because the id was already gone.
     */
    method CancelConfirm(id: int) returns (keyError: bool)
      modifies this
      ensures Current() == Bookkeeping.CancelConfirm(old(Current()), id)
      ensures keyError <==> id !in old(cancelling)
    {
      cancelled := cancelled + {id};
      keyError := id !in cancelling;
      if !keyError {
        cancelling := cancelling - {id};
      }
    }

    /** The cancellation thread's `finally` lock section: remove the id, ignoring its absence. */
    method CancelRelease(id: int)
      modifies this
      ensures Current() == Bookkeeping.CancelRelease(old(Current()), id)
    {
      if id in cancelling {
        cancelling := cancelling - {id};
      }
    }

    /**
     * The cancellation thread once the canceller has returned `success` (`false` also for
     * a raised error). A `KeyError` from the strict removal escapes the thread only after
     * the `finally` section has run.
     */
    method CancelFinish(id: int, success: bool) returns (keyError: bool)
      modifies this
      ensures Current() == Bookkeeping.CancelFinish(old(Current()), id, success)
      ensures keyError <==> success && id !in old(cancelling)
    {
      keyError := false;
      if success {
        keyError := CancelConfirm(id);
      }
      CancelRelease(id);
    }
  }

  /**
   * The race of a cancellation that completes while a poll is in flight, written as the
   * calls the threads make: the id stays hidden after the refresh.
   */
  method MidPollCancellation<B, D(==)>(m: OrderBookManager<B, D>, id: int, polled: Snapshot<B, D>)
    requires id !in m.cancelled
    modifies m
    ensures m.state == Some(polled) && id in m.cancelled
    ensures id !in Ids(Bookkeeping.View(m.Current()).orders)
  {
    var c := m.RefreshBegin();
    m.CancelOrder(id);
    var keyError := m.CancelFinish(id, true);
    m.RefreshEnd(c, Some(polled));
    var book := m.GetOrderBook();
    forall o | o in book.orders
      ensures o.orderId != id
    {
    }
  }

  /**
   * A placement confirmed while a poll is in flight survives the refresh and is shown
   * unless the poll already carried its id or a cancellation hides it.
   */
  method MidPollPlacement<B, D(==)>(m: OrderBookManager<B, D>, order: Order<D>, polled: Snapshot<B, D>)
    modifies m
    ensures m.state == Some(polled) && order in m.ordersPlaced
    ensures order.orderId !in m.cancelling + m.cancelled ==>
              order.orderId in Ids(Bookkeeping.View(m.Current()).orders)
  {
    var c := m.RefreshBegin();
    m.PlaceOrder();
    m.PlaceFinish(Some(order));
    ghost var before := old(m.ordersPlaced);
    assert m.ordersPlaced == before + [order];
    RetireAppend(before, [order], c.placedBefore);
    m.RefreshEnd(c, Some(polled));
    assert m.ordersPlaced == Retire(before, c.placedBefore) + [order];
    var book := m.GetOrderBook();
    if order.orderId !in m.cancelling + m.cancelled {
      var amended := Amend(polled.orders, m.ordersPlaced);
      IdsConcat(polled.orders, [order]);
      IdsConcat(Retire(before, c.placedBefore), [order]);
      assert order.orderId in Ids(amended);
      HideKeepsIds(amended, m.cancelling + m.cancelled, order.orderId);
      Bookkeeping.ViewUnfolds(m.Current());
    }
  }
}
