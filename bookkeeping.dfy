/**
 * The state of `OrderBookManager` as a value, one function per `with self._lock:` section,
 * the compositor `get_order_book` as a function of that state, and runs that interleave
 * the refresher's cycles with the steps of placement and cancellation threads.
 */
module Bookkeeping {
  import opened Wrappers
  import opened OrderBooks
  import opened Reconciliation

  /**
   * The six fields the manager guards with its lock: the last polled snapshot (absent
   * until the first successful poll), the refresh counter, the number of placements in
   * flight, the placed-but-unconfirmed orders, and the ids being and already cancelled.
   */
  datatype ManagerState<B, D> = ManagerState(
    state: Option<Snapshot<B, D>>,
    refreshCount: nat,
    placingCount: int,
    ordersPlaced: seq<Order<D>>,
    cancelling: set<int>,
    cancelled: set<int>)

  /** What the refresher copies under the lock before it polls (C0 and P0). */
  datatype Capture<D(==)> = Capture(cancelledBefore: set<int>, placedBefore: set<Order<D>>)

  /** The state right after construction. */
  function Init<B, D>(): ManagerState<B, D>
  {
    ManagerState(None, 0, 0, [], {}, {})
  }

  // ---------------------------------------------------------------------------------
  // The refresher's two lock sections.

  /** First lock section of a refresh cycle: copy the confirmed cancellations and the placed list. */
  function CaptureOf<B, D(==)>(s: ManagerState<B, D>): Capture<D>
  {
    Capture(s.cancelled, Elems(s.ordersPlaced))
  }

  /**
   * Second lock section of a refresh cycle. A failed poll (either collaborator raised)
   * changes nothing. A successful one drops exactly the captured cancellations and the
   * captured placed orders, installs the polled snapshot and bumps the counter. Every
   * captured order must still be in the list, as `list.remove` would raise otherwise;
   * only this section removes from the list, so that always holds (see `CycleSubtractsOnlyCapture`).
   */
  function RefreshEnd<B, D(==)>(s: ManagerState<B, D>, c: Capture<D>, poll: Option<Snapshot<B, D>>): ManagerState<B, D>
    requires poll.Some? ==> c.placedBefore <= Elems(s.ordersPlaced)
  {
    match poll
    case None => s
    case Some(snapshot) =>
      s.(cancelled := s.cancelled - c.cancelledBefore,
         ordersPlaced := Retire(s.ordersPlaced, c.placedBefore),
         state := Some(snapshot),
         refreshCount := s.refreshCount + 1)
  }

  // ---------------------------------------------------------------------------------
  // Placement: the launcher's lock section and the two of the placement thread.

  /** `place_order`: one more placement in flight. */
  function PlaceLaunch<B, D>(s: ManagerState<B, D>): ManagerState<B, D>
  {
    s.(placingCount := s.placingCount + 1)
  }

  /** The placement thread got an order back: remember it until a poll confirms it. */
  function PlaceRecord<B, D>(s: ManagerState<B, D>, order: Order<D>): ManagerState<B, D>
  {
    s.(ordersPlaced := s.ordersPlaced + [order])
  }

  /** The placement thread's `finally`: one placement fewer in flight. */
  function PlaceRelease<B, D>(s: ManagerState<B, D>): ManagerState<B, D>
  {
    s.(placingCount := s.placingCount - 1)
  }

  /** The whole placement thread after the placer returned (`None` also stands for a raised error). */
  function PlaceFinish<B, D>(s: ManagerState<B, D>, result: Option<Order<D>>): ManagerState<B, D>
  {
    PlaceRelease(if result.Some? then PlaceRecord(s, result.value) else s)
  }

  // ---------------------------------------------------------------------------------
  // Cancellation: the launcher's lock section and the two of the cancellation thread.

  /** `cancel_order`: hide the id while it is being cancelled. */
  function CancelLaunch<B, D>(s: ManagerState<B, D>, id: int): ManagerState<B, D>
  {
    s.(cancelling := s.cancelling + {id})
  }

  /**
   * The canceller reported success: the id is confirmed cancelled and no longer being
   * cancelled. When the id is already gone from the cancelling set the strict `remove`
   * raises after the `add`; the state is the same either way.
   */
  function CancelConfirm<B, D>(s: ManagerState<B, D>, id: int): ManagerState<B, D>
  {
    s.(cancelled := s.cancelled + {id}, cancelling := s.cancelling - {id})
  }

  /** The cancellation thread's `finally`: remove the id, doing nothing when it is absent. */
  function CancelRelease<B, D>(s: ManagerState<B, D>, id: int): ManagerState<B, D>
  {
    s.(cancelling := s.cancelling - {id})
  }

  /** The whole cancellation thread after the canceller returned (`false` also stands for a raised error). */
  function CancelFinish<B, D>(s: ManagerState<B, D>, id: int, success: bool): ManagerState<B, D>
  {
    CancelRelease(if success then CancelConfirm(s, id) else s, id)
  }

  // ---------------------------------------------------------------------------------
  // The compositor and the exit conditions of the wait loops.

  /** The ids the view must not show. */
  function Hidden<B, D>(s: ManagerState<B, D>): set<int>
  {
    s.cancelling + s.cancelled
  }

  /**
   * `get_order_book`: the polled orders amended with the placed ones, minus every order
   * whose id is being or has been cancelled; balances pass through from the snapshot.
   */
  function View<B, D(==)>(s: ManagerState<B, D>): (v: OrderBook<B, D>)
    requires s.state.Some?
    ensures forall o :: o in v.orders ==> o.orderId !in s.cancelling && o.orderId !in s.cancelled
    ensures forall o :: o in v.orders ==> o in s.state.value.orders || o in s.ordersPlaced
    ensures forall o :: o in s.state.value.orders && o.orderId !in Hidden(s) ==> o in v.orders
    ensures var shown := Hide(s.state.value.orders, Hidden(s));
            |shown| <= |v.orders| && v.orders[..|shown|] == shown
    ensures DistinctIds(s.state.value.orders) ==> DistinctIds(v.orders)
    ensures v.balances == s.state.value.balances
    ensures v.ordersBeingPlaced <==> s.placingCount > 0
    ensures v.ordersBeingCancelled <==> |s.cancelling| > 0
  {
    var polled := s.state.value.orders;
    var amended := Amend(polled, s.ordersPlaced);
    assert amended == polled + amended[|polled|..];
    HideConcat(polled, amended[|polled|..], Hidden(s));
    HideDistinct(amended, Hidden(s));
    OrderBook(Hide(amended, Hidden(s)), s.state.value.balances, s.placingCount > 0, |s.cancelling| > 0)
  }

  /** Exit condition of `wait_for_order_cancellation`. */
  predicate CancellationsSettled<B, D>(s: ManagerState<B, D>)
  {
    |s.cancelling| == 0
  }

  /** Exit condition of `wait_for_order_book_refresh`, given the counter read on entry. */
  predicate RefreshedSince<B, D>(s: ManagerState<B, D>, before: nat)
  {
    s.refreshCount > before
  }

  /** Exit condition of `wait_for_stable_order_book`, read off the view. */
  predicate Stable<B, D(==)>(s: ManagerState<B, D>)
    requires s.state.Some?
  {
    !View(s).ordersBeingCancelled && !View(s).ordersBeingPlaced
  }

  // ---------------------------------------------------------------------------------
  // Interleavings: one refresher thread and any number of placement/cancellation threads.

  /** One lock section of a placement or cancellation (the launcher's or its thread's). */
  datatype TaskStep<D> =
    | LaunchPlacement
    | RecordPlacement(order: Order<D>)
    | ReleasePlacement
    | LaunchCancellation(id: int)
    | ConfirmCancellation(id: int)
    | ReleaseCancellation(id: int)

  function ApplyTask<B, D>(s: ManagerState<B, D>, t: TaskStep<D>): ManagerState<B, D>
  {
    match t
    case LaunchPlacement => PlaceLaunch(s)
    case RecordPlacement(order) => PlaceRecord(s, order)
    case ReleasePlacement => PlaceRelease(s)
    case LaunchCancellation(id) => CancelLaunch(s, id)
    case ConfirmCancellation(id) => CancelConfirm(s, id)
    case ReleaseCancellation(id) => CancelRelease(s, id)
  }

  function RunTasks<B, D>(s: ManagerState<B, D>, ts: seq<TaskStep<D>>): ManagerState<B, D>
    decreases |ts|
  {
    if ts == [] then s else RunTasks(ApplyTask(s, ts[0]), ts[1..])
  }

  /** The orders the placement threads append during `ts`, in order. */
  function Recorded<D>(ts: seq<TaskStep<D>>): seq<Order<D>>
  {
    if ts == [] then []
    else (if ts[0].RecordPlacement? then [ts[0].order] else []) + Recorded(ts[1..])
  }

  function Launches<D>(ts: seq<TaskStep<D>>): nat
  {
    if ts == [] then 0 else (if ts[0].LaunchPlacement? then 1 else 0) + Launches(ts[1..])
  }

  function Releases<D>(ts: seq<TaskStep<D>>): nat
  {
    if ts == [] then 0 else (if ts[0].ReleasePlacement? then 1 else 0) + Releases(ts[1..])
  }

  /**
   * Placement and cancellation threads only ever append to the placed list, never touch
   * the snapshot or the counter, and move the placing count by launches minus releases.
   */
  lemma {:induction false} TasksOnlyAppend<B, D>(s: ManagerState<B, D>, ts: seq<TaskStep<D>>)
    ensures RunTasks(s, ts).ordersPlaced == s.ordersPlaced + Recorded(ts)
    ensures RunTasks(s, ts).state == s.state
    ensures RunTasks(s, ts).refreshCount == s.refreshCount
    ensures RunTasks(s, ts).placingCount == s.placingCount + Launches(ts) - Releases(ts)
    decreases |ts|
  {
    if ts != [] {
      var next := ApplyTask(s, ts[0]);
      TasksOnlyAppend(next, ts[1..]);
      assert next.ordersPlaced == s.ordersPlaced + (if ts[0].RecordPlacement? then [ts[0].order] else []);
    }
  }

  /**
   * A whole refresh cycle: capture under the lock, let the threads in `during` run while
   * the collaborators are being polled, then reconcile with the poll's outcome.
   */
  function RefreshCycle<B, D(==)>(s: ManagerState<B, D>, during: seq<TaskStep<D>>, poll: Option<Snapshot<B, D>>): ManagerState<B, D>
  {
    var c := CaptureOf(s);
    var mid := RunTasks(s, during);
    TasksOnlyAppend(s, during);
    assert c.placedBefore <= Elems(mid.ordersPlaced);
    RefreshEnd(mid, c, poll)
  }

  datatype Step<B, D> =
    | Task(task: TaskStep<D>)
    | Refresh(during: seq<TaskStep<D>>, poll: Option<Snapshot<B, D>>)

  function Apply<B, D(==)>(s: ManagerState<B, D>, step: Step<B, D>): ManagerState<B, D>
  {
    match step
    case Task(t) => ApplyTask(s, t)
    case Refresh(during, poll) => RefreshCycle(s, during, poll)
  }

  /** Any interleaving of the refresher's cycles with the other threads' lock sections. */
  function Run<B, D(==)>(s: ManagerState<B, D>, steps: seq<Step<B, D>>): ManagerState<B, D>
    decreases |steps|
  {
    if steps == [] then s else Run(Apply(s, steps[0]), steps[1..])
  }

  function SuccessfulPolls<B, D>(steps: seq<Step<B, D>>): nat
  {
    if steps == [] then 0
    else (if steps[0].Refresh? && steps[0].poll.Some? then 1 else 0) + SuccessfulPolls(steps[1..])
  }

  // ---------------------------------------------------------------------------------
  // Properties of reconciliation.

  /**
   * A successful cycle removes exactly what was captured before the poll: ids confirmed
   * cancelled during the poll stay confirmed, ids confirmed before it are dropped, and
   * orders placed during the poll stay in the placed list behind what is left of the old one.
   */
  lemma CycleSubtractsOnlyCapture<B, D>(s: ManagerState<B, D>, during: seq<TaskStep<D>>, snapshot: Snapshot<B, D>)
    ensures var mid := RunTasks(s, during);
            var r := RefreshCycle(s, during, Some(snapshot));
            && r.cancelled == mid.cancelled - s.cancelled
            && r.ordersPlaced == Retire(s.ordersPlaced, Elems(s.ordersPlaced)) + Recorded(during)
            && r.cancelling == mid.cancelling
            && r.placingCount == mid.placingCount
            && r.state == Some(snapshot)
            && r.refreshCount == s.refreshCount + 1
  {
    TasksOnlyAppend(s, during);
    RetireAppend(s.ordersPlaced, Recorded(during), Elems(s.ordersPlaced));
  }

  /** A failed poll contributes nothing: only the threads that ran meanwhile changed the state. */
  lemma FailedPollKeepsState<B, D>(s: ManagerState<B, D>, during: seq<TaskStep<D>>)
    ensures RefreshCycle(s, during, None) == RunTasks(s, during)
    ensures RefreshCycle(s, [], None) == s
  {
  }

  /**
   * The race the before/after capture exists for: a cancellation of `id` launched and
   * confirmed while the poll is in flight survives the reconciliation, so the id stays
   * hidden from the view even if the poll still returned the order.
   */
  lemma MidPollCancellationStaysHidden<B, D>(s: ManagerState<B, D>, id: int, snapshot: Snapshot<B, D>)
    requires id !in s.cancelled
    ensures var r := RefreshCycle(s, [LaunchCancellation(id), ConfirmCancellation(id), ReleaseCancellation(id)], Some(snapshot));
            id in r.cancelled && id !in Ids(View(r).orders)
  {
    var during: seq<TaskStep<D>> := [LaunchCancellation(id), ConfirmCancellation(id), ReleaseCancellation(id)];
    var launched := CancelLaunch(s, id);
    var confirmed := CancelConfirm(launched, id);
    assert during[1..][1..][1..] == [];
    assert RunTasks(s, during) == RunTasks(launched, during[1..]) == RunTasks(confirmed, during[1..][1..])
        == RunTasks(CancelRelease(confirmed, id), []);
    CycleSubtractsOnlyCapture(s, during, snapshot);
    assert id in RunTasks(s, during).cancelled;
  }

  /** An order recorded while the poll is in flight is still pending after the reconciliation. */
  lemma PlacedDuringPollSurvives<B, D>(s: ManagerState<B, D>, during: seq<TaskStep<D>>, snapshot: Snapshot<B, D>, order: Order<D>)
    requires order in Recorded(during)
    ensures order in RefreshCycle(s, during, Some(snapshot)).ordersPlaced
  {
    CycleSubtractsOnlyCapture(s, during, snapshot);
  }

  /**
   * No pending entry is permanent: a successful cycle with no other thread active
   * forgets every confirmed cancellation and removes one copy of every placed order, so
   * a non-empty placed list strictly shrinks.
   */
  lemma QuietPollRetires<B, D>(s: ManagerState<B, D>, snapshot: Snapshot<B, D>)
    ensures RefreshCycle(s, [], Some(snapshot)).cancelled == {}
    ensures var r := RefreshCycle(s, [], Some(snapshot));
            |r.ordersPlaced| == |s.ordersPlaced| - |Elems(s.ordersPlaced)|
    ensures s.ordersPlaced != [] ==> |RefreshCycle(s, [], Some(snapshot)).ordersPlaced| < |s.ordersPlaced|
  {
    CycleSubtractsOnlyCapture(s, [], snapshot);
    assert Recorded<D>([]) == [];
    RetireMultiset(s.ordersPlaced, Elems(s.ordersPlaced));
    if s.ordersPlaced != [] {
      assert s.ordersPlaced[0] in Elems(s.ordersPlaced);
    }
  }

  // ---------------------------------------------------------------------------------
  // The refresh counter and the wait for a refresh.

  /** The counter grows by exactly one per successful poll, whatever else interleaves. */
  lemma {:induction false} RefreshCountCountsPolls<B, D>(s: ManagerState<B, D>, steps: seq<Step<B, D>>)
    ensures Run(s, steps).refreshCount == s.refreshCount + SuccessfulPolls(steps)
    decreases |steps|
  {
    if steps != [] {
      var next := Apply(s, steps[0]);
      RefreshCountCountsPolls(next, steps[1..]);
      match steps[0]
      case Task(t) =>
        TasksOnlyAppend(s, [t]);
        assert RunTasks(s, [t]) == RunTasks(ApplyTask(s, t), []);
      case Refresh(during, poll) =>
        TasksOnlyAppend(s, during);
    }
  }

  /**
   * `wait_for_order_book_refresh` returns after a run exactly when the run held a
   * successful poll; with a poll that always fails it never returns.
   */
  lemma WaitForRefreshNeedsSuccessfulPoll<B, D>(s: ManagerState<B, D>, steps: seq<Step<B, D>>)
    ensures RefreshedSince(Run(s, steps), s.refreshCount) <==> SuccessfulPolls(steps) > 0
  {
    RefreshCountCountsPolls(s, steps);
  }

  // ---------------------------------------------------------------------------------
  // Placement.

  /**
   * A launch and its thread restore the placing count whatever the placer returned, and
   * append the order only when there was one; nothing else changes.
   */
  lemma PlacementLifecycle<B, D>(s: ManagerState<B, D>, result: Option<Order<D>>)
    ensures PlaceLaunch(s).placingCount == s.placingCount + 1
    ensures var r := PlaceFinish(PlaceLaunch(s), result);
            && r.placingCount == s.placingCount
            && r.ordersPlaced == s.ordersPlaced + (if result.Some? then [result.value] else [])
            && r.(ordersPlaced := s.ordersPlaced) == s
  {
  }

  /**
   * With no other placement in flight, a launched placement is flagged in the view, and
   * once the placer has returned an order its id is shown and the flag is down again.
   */
  lemma PlacedOrderShown<B, D>(s: ManagerState<B, D>, order: Order<D>)
    requires s.state.Some? && s.placingCount == 0
    requires order.orderId !in Hidden(s)
    ensures View(PlaceLaunch(s)).ordersBeingPlaced
    ensures var r := PlaceFinish(PlaceLaunch(s), Some(order));
            order.orderId in Ids(View(r).orders) && !View(r).ordersBeingPlaced
  {
  }

  /**
   * An order that is the first of its id in the placed list and whose id neither the
   * snapshot carries nor a cancellation hides is in the view.
   */
  lemma ViewShowsPlaced<B, D>(s: ManagerState<B, D>, i: int)
    requires s.state.Some?
    requires 0 <= i < |s.ordersPlaced| && FirstWithId(s.ordersPlaced, i)
    requires s.ordersPlaced[i].orderId !in Ids(s.state.value.orders)
    requires s.ordersPlaced[i].orderId !in Hidden(s)
    ensures s.ordersPlaced[i] in View(s).orders
  {
    AmendKeepsFirstOfId(s.state.value.orders, s.ordersPlaced, i);
  }

  /** Once a snapshot is installed no step removes it. */
  lemma {:induction false} RunKeepsSnapshot<B, D>(s: ManagerState<B, D>, steps: seq<Step<B, D>>)
    requires s.state.Some?
    ensures Run(s, steps).state.Some?
    decreases |steps|
  {
    if steps != [] {
      var next := Apply(s, steps[0]);
      if steps[0].Refresh? {
        TasksOnlyAppend(s, steps[0].during);
      }
      assert next.state.Some?;
      RunKeepsSnapshot(next, steps[1..]);
    }
  }

  /**
   * What `get_order_book` hands back. The orders are assembled under the lock from `s`,
   * but the balances and both flags are read after the lock is released, when the steps
   * `between` of the other threads may already have run.
   */
  function Returned<B, D(==)>(s: ManagerState<B, D>, between: seq<Step<B, D>>): (v: OrderBook<B, D>)
    requires s.state.Some?
    ensures between == [] ==> v == View(s)
    ensures v.orders == View(s).orders
    ensures forall o :: o in v.orders ==> o in s.state.value.orders || o in s.ordersPlaced
    ensures forall o :: o in v.orders ==> o.orderId !in Hidden(s)
    ensures DistinctIds(s.state.value.orders) ==> DistinctIds(v.orders)
    ensures var later := Run(s, between);
            later.state.Some? && v.balances == View(later).balances &&
            v.ordersBeingPlaced == View(later).ordersBeingPlaced &&
            v.ordersBeingCancelled == View(later).ordersBeingCancelled
  {
    RunKeepsSnapshot(s, between);
    var later := Run(s, between);
    OrderBook(View(s).orders, later.state.value.balances, later.placingCount > 0, |later.cancelling| > 0)
  }

  /**
   * The unlocked reads can miss a placement: when the only placement in flight records its
   * order and releases its count between the lock section and the flag read, the returned
   * book neither lists the order nor says that a placement is under way, although the very
   * next call lists it.
   */
  lemma ReturnedCanMissPlacement<B, D>(s: ManagerState<B, D>, order: Order<D>)
    requires s.state.Some? && s.placingCount == 1
    requires order.orderId !in Ids(s.state.value.orders) + Ids(s.ordersPlaced) + Hidden(s)
    ensures var between := [Task(RecordPlacement(order)), Task(ReleasePlacement)];
            var v := Returned(s, between);
            order !in v.orders && !v.ordersBeingPlaced &&
            Run(s, between).state.Some? && order in View(Run(s, between)).orders
  {
    var between: seq<Step<B, D>> := [Task(RecordPlacement(order)), Task(ReleasePlacement)];
    var later := PlaceRelease(PlaceRecord(s, order));
    assert Run(s, between) == later by {
      var mid := PlaceRecord(s, order);
      assert Apply(s, between[0]) == mid;
      assert between[1..][0] == Task(ReleasePlacement);
      assert Apply(mid, between[1..][0]) == later;
      assert between[1..][1..] == [];
      assert Run(later, between[1..][1..]) == later;
    }
    assert order !in s.state.value.orders && order !in s.ordersPlaced;
    var i := |s.ordersPlaced|;
    assert later.ordersPlaced[i] == order;
    assert FirstWithId(later.ordersPlaced, i) by {
      assert later.ordersPlaced[..i] == s.ordersPlaced;
    }
    ViewShowsPlaced(later, i);
  }

  // ---------------------------------------------------------------------------------
  // Cancellation.

  /** `cancel_order` hides the id at once, whether or not the order was shown before. */
  lemma CancelHidesImmediately<B, D>(s: ManagerState<B, D>, id: int)
    requires s.state.Some?
    ensures id !in Ids(View(CancelLaunch(s, id)).orders)
  {
  }

  /**
   * Whatever the outcome, the id leaves the cancelling set; it becomes confirmed
   * cancelled exactly when the canceller succeeded (or it already was); no other id moves.
   */
  lemma CancellationLifecycle<B, D>(s: ManagerState<B, D>, id: int, success: bool)
    ensures var r := CancelFinish(s, id, success);
            && id !in r.cancelling
            && (id in r.cancelled <==> success || id in s.cancelled)
            && (forall x :: x != id ==> (x in r.cancelling <==> x in s.cancelling))
            && (forall x :: x != id ==> (x in r.cancelled <==> x in s.cancelled))
            && r.(cancelling := s.cancelling, cancelled := s.cancelled) == s
  {
  }

  /** The `finally` removal of an id that is already gone is a no-op. */
  lemma ReleaseIsIdempotent<B, D>(s: ManagerState<B, D>, id: int)
    ensures id !in s.cancelling ==> CancelRelease(s, id) == s
    ensures CancelRelease(CancelRelease(s, id), id) == CancelRelease(s, id)
  {
  }

  /**
   * A cancellation that fails undoes its launch: the `finally` block takes the id back out
   * of the in-flight set and nothing else was touched.
   */
  lemma FailedCancellationRestores<B, D>(s: ManagerState<B, D>, id: int)
    requires id !in s.cancelling
    ensures CancelFinish(CancelLaunch(s, id), id, false) == s
  {
  }

  /**
   * Any order in the book, polled or still only recorded as placed, disappears while it is
   * being cancelled and reappears once the cancellation has failed; retrying is left to
   * the caller.
   */
  lemma FailedCancellationReappears<B, D>(s: ManagerState<B, D>, order: Order<D>)
    requires s.state.Some? && order in View(s).orders
    ensures order !in View(CancelLaunch(s, order.orderId)).orders
    ensures order in View(CancelFinish(CancelLaunch(s, order.orderId), order.orderId, false)).orders
  {
    FailedCancellationRestores(s, order.orderId);
  }

  /**
   * `wait_for_order_cancellation` blocks while a cancellation is in flight and, when it
   * was the only one, returns once its thread has finished, whatever the outcome.
   */
  lemma WaitForCancellationLifecycle<B, D>(s: ManagerState<B, D>, id: int, success: bool)
    requires CancellationsSettled(s)
    ensures !CancellationsSettled(CancelLaunch(s, id))
    ensures CancellationsSettled(CancelFinish(CancelLaunch(s, id), id, success))
  {
  }

  /** `wait_for_stable_order_book` returns exactly when nothing is being placed or cancelled. */
  lemma StableMeansNothingInFlight<B, D>(s: ManagerState<B, D>)
    requires s.state.Some?
    ensures Stable(s) <==> s.placingCount <= 0 && CancellationsSettled(s)
  {
  }

  /**
   * Two cancellations of one id whose lock sections interleave: the first thread's
   * `finally` removal takes away the marker the second launch put back, so the second
   * cancellation is no longer reported as in flight; the id stays hidden because the
   * first cancellation is already confirmed.
   */
  lemma RepeatedCancellationOfOneId<B, D>(s: ManagerState<B, D>, id: int)
    requires s.state.Some? && CancellationsSettled(s)
    ensures var first := CancelConfirm(CancelLaunch(s, id), id);
            var r := CancelRelease(CancelLaunch(first, id), id);
            && CancellationsSettled(r)
            && !View(r).ordersBeingCancelled
            && id in r.cancelled
            && id !in Ids(View(r).orders)
  {
  }

  // ---------------------------------------------------------------------------------
  // A complete scenario.

  /**
   * The poll returns orders 1 and 2; a placement of order 3 is shown before the next
   * poll; after a poll that returns all three, the view is the same three orders and no
   * placement is in flight.
   */
  lemma PlaceThenPollScenario<B, D>(o1: Order<D>, o2: Order<D>, o3: Order<D>, balances: Option<B>)
    requires o1.orderId == 1 && o2.orderId == 2 && o3.orderId == 3
    ensures var s1 := RefreshCycle(Init<B, D>(), [], Some(Snapshot([o1, o2], balances)));
            var s2 := PlaceFinish(PlaceLaunch(s1), Some(o3));
            var s3 := RefreshCycle(s2, [], Some(Snapshot([o1, o2, o3], balances)));
            && View(s2).orders == [o1, o2, o3]
            && View(s3).orders == [o1, o2, o3]
            && !View(s3).ordersBeingPlaced
            && s3.ordersPlaced == []
  {
    var polled := Snapshot([o1, o2], balances);
    FirstPollInstalls(polled);
    var s2 := PlaceFinish(PlaceLaunch(RefreshCycle(Init<B, D>(), [], Some(polled))), Some(o3));
    assert s2 == ManagerState(Some(polled), 1, 0, [o3], {}, {});
    PlacementShownBeforeRepoll(o1, o2, o3, balances);
    var repolled := Snapshot([o1, o2, o3], balances);
    RepollConfirmsPlacement(polled, repolled, o3);
    RepolledViewIsSnapshot(o1, o2, o3, balances);
  }

  lemma PlacementShownBeforeRepoll<B, D>(o1: Order<D>, o2: Order<D>, o3: Order<D>, balances: Option<B>)
    requires o1.orderId == 1 && o2.orderId == 2 && o3.orderId == 3
    ensures View(ManagerState(Some(Snapshot([o1, o2], balances)), 1, 0, [o3], {}, {})).orders == [o1, o2, o3]
  {
    var s2 := ManagerState(Some(Snapshot([o1, o2], balances)), 1, 0, [o3], {}, {});
    assert Hidden(s2) == {};
    assert o3.orderId !in Ids([o1, o2]);
    AmendFresh([o1, o2], o3);
    HideNothing([o1, o2, o3]);
    ViewUnfolds(s2);
  }

  lemma RepolledViewIsSnapshot<B, D>(o1: Order<D>, o2: Order<D>, o3: Order<D>, balances: Option<B>)
    ensures var s3 := ManagerState(Some(Snapshot([o1, o2, o3], balances)), 2, 0, [], {}, {});
            View(s3).orders == [o1, o2, o3] && !View(s3).ordersBeingPlaced
  {
    var s3 := ManagerState(Some(Snapshot([o1, o2, o3], balances)), 2, 0, [], {}, {});
    assert Hidden(s3) == {};
    assert Amend([o1, o2, o3], []) == [o1, o2, o3];
    HideNothing([o1, o2, o3]);
    ViewUnfolds(s3);
  }

  lemma FirstPollInstalls<B, D>(polled: Snapshot<B, D>)
    ensures RefreshCycle(Init<B, D>(), [], Some(polled)) == ManagerState(Some(polled), 1, 0, [], {}, {})
  {
  }

  lemma RepollConfirmsPlacement<B, D>(polled: Snapshot<B, D>, repolled: Snapshot<B, D>, order: Order<D>)
    ensures RefreshCycle(ManagerState(Some(polled), 1, 0, [order], {}, {}), [], Some(repolled))
         == ManagerState(Some(repolled), 2, 0, [], {}, {})
  {
    CycleSubtractsOnlyCapture(ManagerState(Some(polled), 1, 0, [order], {}, {}), [], repolled);
    assert Recorded<D>([]) == [];
    assert Elems([order]) == {order};
    assert Retire([order], {order}) == Retire([], {});
  }

  /** The view's orders, as the compositor builds them. */
  lemma ViewUnfolds<B, D>(s: ManagerState<B, D>)
    requires s.state.Some?
    ensures View(s).orders == Hide(Amend(s.state.value.orders, s.ordersPlaced), Hidden(s))
  {
  }

  /** Appending a single placed order whose id is new. */
  lemma AmendFresh<D>(base: seq<Order<D>>, order: Order<D>)
    requires order.orderId !in Ids(base)
    ensures Amend(base, [order]) == base + [order]
  {
    assert [order][..0] == [];
  }

  /** Nothing hidden, nothing filtered. */
  lemma {:induction false} HideNothing<D>(s: seq<Order<D>>)
    ensures Hide(s, {}) == s
  {
    if s != [] {
      HideNothing(s[1..]);
    }
  }
}
