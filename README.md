# Order book manager of the market maker keeper, in Dafny

This project models `OrderBookManager` from `market_maker_keeper/order_book.py`. The manager gives a
trading keeper a locally cached view of its own open orders. A background thread polls the exchange.
Orders the keeper places or cancels through the manager are reflected in the view at once, before a
poll confirms them.

The manager keeps six fields behind one lock:

- the last polled snapshot, absent until the first successful poll;
- the refresh counter;
- the number of placements in flight;
- the list of placed orders not yet confirmed by a poll;
- the set of ids being cancelled;
- the set of ids confirmed cancelled but not yet confirmed by a poll.

Every `with self._lock:` section is modelled as one atomic step. Three reads happen outside any lock
section:

- `get_order_book` tests `self._state is None` before taking the lock (line 140);
- `wait_for_order_cancellation` tests `len(self._order_ids_cancelling)` without the lock (line 207);
- the tail of `get_order_book` takes the balances and both flags after its lock is released
  (lines 169-172).

The first two each read a single field, so they are modelled as reads of one state: the requires
`state.Some?` of `GetOrderBook` and `View`, and the predicate `CancellationsSettled`.
`Bookkeeping.Returned` models the third as taken from a later state. The threads' remote calls happen
between steps, and their outcomes arrive as parameters. A run of the program is then a sequence of
steps, so the races between the refresher and the placement and cancellation threads become plain
sequences of calls.

Files and modules:

- `wrappers.dfy` (`Wrappers`): `Option`.
- `sequences.dfy` (`Sequences`): `IsSubsequence`, used to state that the compositor and the
  refresher keep the placed orders' relative order.
- `order_books.dfy` (`OrderBooks`): `Order`, `Snapshot` and the `OrderBook` view. It also holds the
  two list operations of `get_order_book`. `Amend` appends placed orders whose id is not yet present.
  `Hide` filters out hidden ids.
- `reconciliation.dfy` (`Reconciliation`): `RemoveFirst` is Python's `list.remove`. `Retire` is the
  list left after removing every order captured before the poll.
- `bookkeeping.dfy` (`Bookkeeping`): the six fields as a value (`ManagerState`) and one function per
  lock section. It also holds the compositor `View`, the exit conditions of the wait loops, and runs
  that interleave refresh cycles with placement and cancellation steps. The guarantees are proved here.
- `manager.dfy` (`Manager`): the class `OrderBookManager` with the six fields as mutable fields and one
  method per lock section. Each method ties its new state to the matching `Bookkeeping` function.
  `GetOrderBook` keeps the source's loop. `RefreshEnd` keeps the loop that removes captured orders.
  Two client methods write the mid-poll races as calls.

Each placement thread and each cancellation thread takes the lock twice: once when the remote call
succeeded, and once in its `finally`. Both are therefore split into two steps: `PlaceRecord` and
`PlaceRelease`, and `CancelConfirm` and `CancelRelease`. `PlaceFinish` and `CancelFinish` compose
them. Because the two cancellation sections are separate, two cancellations of one id can interleave.
Then the first thread's `finally` removes the marker that the second launch put back
(`RepeatedCancellationOfOneId`). The id stays hidden, but the view no longer reports the second
cancellation as in flight. This is the source's behaviour and it is modelled as written.

## Model

| member | source | states |
|---|---|---|
| OrderBooks.Amend | market_maker_keeper/order_book.py:158-161 | the polled orders stay a prefix; the ids are those of both lists; every entry comes from one of them; appended orders carry pairwise distinct ids, and distinct polled ids stay distinct; their order and the skip rule are stated by `AmendKeepsPlacedOrder` and `AmendAppendsFreshIds` |
| OrderBooks.AmendAppendsFreshIds | market_maker_keeper/order_book.py:158-161 | every appended order carries an id absent from everything before it, polled or placed, so a placed order whose id is already in the list being built is skipped even when the poll repeats an id |
| OrderBooks.AmendKeepsPlacedOrder | market_maker_keeper/order_book.py:158-161 | the appended orders are a subsequence of the placed list: they keep its order |
| OrderBooks.AmendKeepsFirstOfId | market_maker_keeper/order_book.py:158-161 | a placed order that is the first of its id, and whose id the poll lacks, is appended |
| OrderBooks.Hide | market_maker_keeper/order_book.py:163-165 | the result holds exactly the input orders whose id is not hidden |
| OrderBooks.HideConcat | market_maker_keeper/order_book.py:164-165 | filtering distributes over concatenation, so relative order is kept |
| OrderBooks.HideDistinct | market_maker_keeper/order_book.py:164-165 | filtering never creates a duplicate id |
| OrderBooks.HideKeepsIds | market_maker_keeper/order_book.py:164-165 | an id that is present and not hidden survives the filter |
| Reconciliation.Elems | market_maker_keeper/order_book.py:237 | the refresher's `set(self._orders_placed)` copy: the set of entries of the list |
| Reconciliation.Retire | market_maker_keeper/order_book.py:245-246 | the placed list left after the removal loop; `RetireStep` ties it to one `list.remove` per captured order |
| Reconciliation.FirstIndex | market_maker_keeper/order_book.py:246 | the position of the first entry equal to the one removed; no earlier entry equals it |
| Reconciliation.RemoveFirst | market_maker_keeper/order_book.py:246 | `list.remove` of a present entry deletes exactly its first occurrence; the entries before and after it keep their order; for an absent entry Python raises `ValueError`, and the model returns the list unchanged, a case the refresher's requires excludes |
| Reconciliation.RemoveFirstOneCopy | market_maker_keeper/order_book.py:246 | removing a present entry shortens the list by one and takes exactly one copy of it out of the multiset |
| Reconciliation.RetireStep | market_maker_keeper/order_book.py:245-246 | one iteration of the removal loop: removing one captured order, then the rest, equals removing all of them, in any order |
| Reconciliation.RetireAppend | market_maker_keeper/order_book.py:237-246 | orders appended after the capture are never removed |
| Reconciliation.RetireKeepsOrder | market_maker_keeper/order_book.py:245-246 | the orders left after the removal loop are a subsequence of the list, so they keep their relative order |
| Reconciliation.RetireMultiset | market_maker_keeper/order_book.py:245-246 | exactly one copy of each captured order leaves the list, and nothing else does |
| Bookkeeping.View | market_maker_keeper/order_book.py:158-172 | no shown order has a cancelling or cancelled id; shown orders come from the poll or the placed list; every visible polled order is shown, first and in polled order; distinct polled ids give distinct shown ids; balances pass through; both flags are set exactly when something is in flight |
| Bookkeeping.RunKeepsSnapshot | market_maker_keeper/order_book.py:248-257 | once a snapshot is installed, no interleaving of steps removes it |
| Bookkeeping.Returned | market_maker_keeper/order_book.py:144-172 | the book `get_order_book` returns: its orders are exactly those of the view of the locked state, so they come from the poll or the placed list, carry no id hidden there, and keep distinct polled ids distinct; its balances and both flags are those of the view of the later state; with no step in between it is exactly the view |
| Bookkeeping.ReturnedCanMissPlacement | market_maker_keeper/order_book.py:167-172 | when the only placement records and releases between the lock section and the flag read, the returned book neither lists the order nor flags a placement, while the next view lists it |
| Bookkeeping.ViewShowsPlaced | market_maker_keeper/order_book.py:158-165 | a placed order that is the first of its id, absent from the poll and not hidden, is shown |
| Bookkeeping.TasksOnlyAppend | market_maker_keeper/order_book.py:261-292 | placement and cancellation steps only append to the placed list; they leave the snapshot and counter alone; the placing count moves by launches minus releases |
| Bookkeeping.CycleSubtractsOnlyCapture | market_maker_keeper/order_book.py:234-252 | a successful cycle removes exactly the captured cancelled ids and placed orders; mid-poll confirmations and placements survive; the snapshot is installed and the counter goes up by one |
| Bookkeeping.FailedPollKeepsState | market_maker_keeper/order_book.py:256-257 | a failed poll leaves the state as the other threads left it |
| Bookkeeping.MidPollCancellationStaysHidden | market_maker_keeper/order_book.py:235-246 | a cancellation launched and confirmed during the poll stays confirmed, and its id stays hidden |
| Bookkeeping.PlacedDuringPollSurvives | market_maker_keeper/order_book.py:236-246 | an order recorded during the poll is still pending after it |
| Bookkeeping.QuietPollRetires | market_maker_keeper/order_book.py:243-246 | a successful cycle with no other thread active clears the confirmed cancellations; it removes one copy of each placed order, so a non-empty list shrinks |
| Bookkeeping.RefreshCountCountsPolls | market_maker_keeper/order_book.py:251-252 | over any interleaving the counter grows by exactly the number of successful polls |
| Bookkeeping.WaitForRefreshNeedsSuccessfulPoll | market_maker_keeper/order_book.py:210-222 | the refresh wait can exit after a run if and only if the run held a successful poll |
| Bookkeeping.PlacementLifecycle | market_maker_keeper/order_book.py:264-273 | a launch adds one to the placing count; its thread takes it back whatever the placer returned; it appends the order only when there was one; nothing else changes |
| Bookkeeping.PlacedOrderShown | market_maker_keeper/order_book.py:169-172 | with no other placement in flight, a launched placement raises the flag; after it returns an order, the order's id is shown and the flag is down |
| Bookkeeping.CancelHidesImmediately | market_maker_keeper/order_book.py:200-201 | right after `cancel_order` the id is not shown |
| Bookkeeping.CancellationLifecycle | market_maker_keeper/order_book.py:281-292 | after the thread the id is not being cancelled; it is confirmed cancelled if and only if the canceller succeeded or it already was; no other id moves |
| Bookkeeping.ReleaseIsIdempotent | market_maker_keeper/order_book.py:288-292 | the tolerant removal of an absent id changes nothing, and repeating it changes nothing |
| Bookkeeping.FailedCancellationRestores | market_maker_keeper/order_book.py:281-292 | a launched cancellation that fails leaves the whole state as it was before the launch |
| Bookkeeping.FailedCancellationReappears | market_maker_keeper/order_book.py:44-47 | any order in the book, polled or only recorded as placed, is hidden while it is being cancelled and shown again after the cancellation fails |
| Bookkeeping.WaitForCancellationLifecycle | market_maker_keeper/order_book.py:205-208 | the cancellation wait blocks while the only cancellation is in flight and can exit after its thread ends |
| Bookkeeping.StableMeansNothingInFlight | market_maker_keeper/order_book.py:224-230 | the stable-book wait can exit exactly when nothing is being placed or cancelled |
| Bookkeeping.RepeatedCancellationOfOneId | market_maker_keeper/order_book.py:281-292 | when two cancellations of one id interleave, the second one's marker is lost while the id stays confirmed and hidden |
| Bookkeeping.PlaceThenPollScenario | market_maker_keeper/order_book.py:157-172 | poll [1, 2], place 3: the view is [1, 2, 3]; a poll returning [1, 2, 3] keeps that view, lowers the flag and empties the placed list |
| Bookkeeping.FirstPollInstalls | market_maker_keeper/order_book.py:248-252 | the first successful poll from the initial state installs the snapshot with counter 1 and empty trackers |
| Bookkeeping.RepollConfirmsPlacement | market_maker_keeper/order_book.py:243-252 | a quiet poll retires the single pending placement |
| Bookkeeping.Init | market_maker_keeper/order_book.py:98-103 | the initial fields: no snapshot, counters at zero, empty trackers |
| Bookkeeping.CaptureOf | market_maker_keeper/order_book.py:235-237 | the refresher's copies of the confirmed-cancelled ids and of the placed orders |
| Bookkeeping.RefreshEnd | market_maker_keeper/order_book.py:243-252 | after a successful poll: remove the captured ids and orders, install the snapshot, count the poll; after a failed one: no change |
| Bookkeeping.RefreshCycle | market_maker_keeper/order_book.py:232-257 | one refresher cycle: capture, the other threads' steps during the poll, then reconciliation |
| Bookkeeping.PlaceLaunch | market_maker_keeper/order_book.py:182-183 | one more placement in flight |
| Bookkeeping.PlaceRecord | market_maker_keeper/order_book.py:268-270 | the placed order is appended to the placed list |
| Bookkeeping.PlaceRelease | market_maker_keeper/order_book.py:271-273 | one placement fewer in flight |
| Bookkeeping.PlaceFinish | market_maker_keeper/order_book.py:264-273 | the placement thread's two lock sections |
| Bookkeeping.CancelLaunch | market_maker_keeper/order_book.py:200-201 | the id is marked as being cancelled |
| Bookkeeping.CancelConfirm | market_maker_keeper/order_book.py:283-286 | the id is confirmed cancelled and unmarked |
| Bookkeeping.CancelRelease | market_maker_keeper/order_book.py:287-292 | the id is unmarked if it is still marked |
| Bookkeeping.CancelFinish | market_maker_keeper/order_book.py:281-292 | the cancellation thread's two lock sections |
| Bookkeeping.CancellationsSettled | market_maker_keeper/order_book.py:205-208 | exit condition of the cancellation wait: no id is being cancelled |
| Bookkeeping.RefreshedSince | market_maker_keeper/order_book.py:210-222 | exit condition of the refresh wait: the counter has passed the value read on entry |
| Bookkeeping.Stable | market_maker_keeper/order_book.py:224-230 | exit condition of the stable-book wait: the view flags nothing in flight |
| Manager.OrderBookManager.constructor | market_maker_keeper/order_book.py:97-103 | no snapshot, counters at zero, empty trackers |
| Manager.OrderBookManager.GetOrderBook | market_maker_keeper/order_book.py:144-172 | the loop and filter return exactly the `View` of the current fields |
| Manager.OrderBookManager.RefreshBegin | market_maker_keeper/order_book.py:235-237 | returns copies of the confirmed-cancelled ids and of the placed orders |
| Manager.OrderBookManager.RefreshEnd | market_maker_keeper/order_book.py:243-252 | the removal loop over the captured set leaves the fields as `Bookkeeping.RefreshEnd` says |
| Manager.OrderBookManager.PlaceOrder | market_maker_keeper/order_book.py:182-183 | one more placement in flight |
| Manager.OrderBookManager.PlaceRecord | market_maker_keeper/order_book.py:268-270 | the returned order is appended to the placed list |
| Manager.OrderBookManager.PlaceRelease | market_maker_keeper/order_book.py:271-273 | one placement fewer in flight |
| Manager.OrderBookManager.PlaceFinish | market_maker_keeper/order_book.py:264-273 | the placement thread body, both lock sections |
| Manager.OrderBookManager.CancelOrder | market_maker_keeper/order_book.py:200-201 | the id is marked as being cancelled |
| Manager.OrderBookManager.CancelConfirm | market_maker_keeper/order_book.py:283-286 | the id is confirmed cancelled and unmarked; reports whether the strict removal raised `KeyError` |
| Manager.OrderBookManager.CancelRelease | market_maker_keeper/order_book.py:287-292 | the id is unmarked, and an absent id is ignored |
| Manager.OrderBookManager.CancelFinish | market_maker_keeper/order_book.py:281-292 | the cancellation thread body, both lock sections; a `KeyError` is reported only for a success on an already unmarked id |
| Manager.MidPollCancellation | market_maker_keeper/order_book.py:232-252 | capture, cancel and confirm id, then reconcile: the id is confirmed and hidden |
| Manager.MidPollPlacement | market_maker_keeper/order_book.py:232-252 | capture, place and record, then reconcile: the order is still pending, and its id is shown unless it is being cancelled or confirmed cancelled |

## Left out

- Threads, the lock, `time.sleep`, `refresh_frequency` and the refresher's endless loop: each lock section is one atomic step, and interleavings are sequences of steps (`Bookkeeping.Run`). Only one refresher is modelled, assuming `start()` is called once: each call starts another refresher, and two of them could both remove the same captured order, making `list.remove` raise.
- The busy-wait loops `wait_for_order_cancellation`, `wait_for_order_book_refresh` and `wait_for_stable_order_book` are not modelled as loops. Their exit conditions are the predicates `CancellationsSettled`, `RefreshedSince` and `Stable`.
- Bookkeeping.Returned: takes the balances and both flags from one later state; the source reads them one after another (lines 170-172), so each can come from a different later state.
- Bookkeeping.View: takes the orders, balances and flags from one state. The source reads the balances and both flags after its lock is released (lines 167-172), so they can belong to a later state than the orders; `Bookkeeping.Returned` models that read, and `Bookkeeping.ReturnedCanMissPlacement` shows a placement it misses.
- Manager.OrderBookManager.GetOrderBook: returns the balances and flags of the same state as the orders, because the class model runs one call at a time; the later read is modelled by `Bookkeeping.Returned`.
- Manager.OrderBookManager.GetOrderBook: requires a snapshot to be present. The source instead sleeps until the first poll has succeeded (lines 140-142), and a sequential model cannot wait for another thread.
- The collaborators (`get_orders_function`, `get_balances_function`, place and cancel functions) and their configuration (`get_orders_with`, `get_balances_with`, `start`) are left out. A poll arrives as `Option<Snapshot>`, with `None` when either provider raised. Its balances are `None` when no balances function is configured. A placer's outcome arrives as `Option<Order>`, with `None` also for a raised error. A canceller's outcome arrives as a `bool`, with `false` also for a raised error.
- Logging and the `isinstance`/`callable` asserts carry no behaviour and are left out.
- Balances are an opaque type parameter and pass through unchanged; the source never reconciles them with pending operations.
- Orders are compared by value (`orderId` plus opaque details). Python's hashing of order objects in `set(self._orders_placed)` is not modelled.
- Manager.OrderBookManager.RefreshEnd: requires every captured order to still be in the placed list. Otherwise `list.remove` would raise part-way through reconciliation. Only the refresher removes from the list, so this always holds (`TasksOnlyAppend`, used by `RefreshCycle`).
- The placing count is an unbounded integer as in Python. Releases are not required to follow launches; `TasksOnlyAppend` gives its exact value as launches minus releases.
- The uncaught `KeyError` of a double cancellation ends its thread after the `finally` has run. It is reported as the `keyError` result; what happens to the thread afterwards is not modelled.
