/**
 * The values the order book manager hands around: orders, polled snapshots and the
 * composite `OrderBook` view, together with the two list operations the compositor
 * (`get_order_book`) is built from: appending placed orders without duplicating an id,
 * and filtering out ids that are being or have been cancelled.
 */
module OrderBooks {
  import opened Wrappers
  import opened Sequences

  /** An open order of the keeper. Only `orderId` is read; `details` passes through. */
  datatype Order<D> = Order(orderId: int, details: D)

  /** One successful poll: the orders and (optional) balances returned by the collaborators. */
  datatype Snapshot<B, D> = Snapshot(orders: seq<Order<D>>, balances: Option<B>)

  /** The externally visible view returned by `get_order_book`. */
  datatype OrderBook<B, D> = OrderBook(
    orders: seq<Order<D>>,
    balances: Option<B>,
    ordersBeingPlaced: bool,
    ordersBeingCancelled: bool)

  /** The ids carried by a list of orders. */
  function Ids<D(==)>(s: seq<Order<D>>): set<int>
  {
    set o | o in s :: o.orderId
  }

  /** No two entries of `s` carry the same id. */
  ghost predicate DistinctIds<D>(s: seq<Order<D>>)
  {
    forall i, j :: 0 <= i < j < |s| ==> s[i].orderId != s[j].orderId
  }

  /** Entry `i` of `s` is the first one carrying its id. */
  ghost predicate FirstWithId<D>(s: seq<Order<D>>, i: int)
    requires 0 <= i < |s|
  {
    forall j :: 0 <= j < i ==> s[j].orderId != s[i].orderId
  }

  lemma IdsAppend<D>(s: seq<Order<D>>, o: Order<D>)
    ensures Ids(s + [o]) == Ids(s) + {o.orderId}
  {
    assert o in s + [o];
    forall x | x in Ids(s)
      ensures x in Ids(s + [o])
    {
      var p :| p in s && p.orderId == x;
      assert p in s + [o];
    }
  }

  lemma IdsConcat<D>(a: seq<Order<D>>, b: seq<Order<D>>)
    ensures Ids(a + b) == Ids(a) + Ids(b)
  {
    forall x | x in Ids(a)
      ensures x in Ids(a + b)
    {
      var p :| p in a && p.orderId == x;
      assert p in a + b;
    }
    forall x | x in Ids(b)
      ensures x in Ids(a + b)
    {
      var p :| p in b && p.orderId == x;
      assert p in a + b;
    }
  }

  /**
   * The loop of `get_order_book` that starts from the polled orders and appends every
   * placed order whose id is not yet in the list being built. Defined on the last placed
   * order so that it follows the loop one iteration at a time.
   */
  function Amend<D(==)>(base: seq<Order<D>>, placed: seq<Order<D>>): (r: seq<Order<D>>)
    ensures |base| <= |r| && r[..|base|] == base
    ensures Ids(r) == Ids(base) + Ids(placed)
    ensures forall o :: o in r ==> o in base || o in placed
    ensures DistinctIds(base) ==> DistinctIds(r)
    ensures DistinctIds(r[|base|..])
    decreases |placed|
  {
    if placed == [] then
      base
    else
      var init := placed[..|placed| - 1];
      var o := placed[|placed| - 1];
      assert placed == init + [o];
      IdsAppend(init, o);
      var prev := Amend(base, init);
      if o.orderId in Ids(prev) then
        prev
      else
        IdsAppend(prev, o);
        AppendFreshId(prev, o);
        AppendFreshId(prev[|base|..], o);
        assert (prev + [o])[|base|..] == prev[|base|..] + [o];
        prev + [o]
  }

  /** From position `n` on, every entry carries an id that no earlier entry carries. */
  ghost predicate FreshFrom<D>(r: seq<Order<D>>, n: nat)
  {
    forall k :: n <= k < |r| ==> r[k].orderId !in Ids(r[..k])
  }

  /**
   * Each order `Amend` appends carries an id absent from everything before it, so a placed
   * order whose id the list being built already carries, polled or placed, is skipped.
   */
  lemma {:induction false} AmendAppendsFreshIds<D>(base: seq<Order<D>>, placed: seq<Order<D>>)
    ensures FreshFrom(Amend(base, placed), |base|)
    decreases |placed|
  {
    if placed != [] {
      var init := placed[..|placed| - 1];
      var o := placed[|placed| - 1];
      var prev := Amend(base, init);
      AmendAppendsFreshIds(base, init);
      if o.orderId !in Ids(prev) {
        var r := prev + [o];
        assert Amend(base, placed) == r;
        forall k | |base| <= k < |r|
          ensures r[k].orderId !in Ids(r[..k])
        {
          if k < |prev| {
            assert r[..k] == prev[..k] && r[k] == prev[k];
            assert FreshFrom(prev, |base|);
          } else {
            assert r[..k] == prev && r[k] == o;
          }
        }
      }
    }
  }

  /** The orders `Amend` appends are placed orders taken in the placed list's order. */
  lemma {:induction false} AmendKeepsPlacedOrder<D>(base: seq<Order<D>>, placed: seq<Order<D>>)
    ensures IsSubsequence(Amend(base, placed)[|base|..], placed)
    decreases |placed|
  {
    if placed == [] {
      assert Amend(base, placed)[|base|..] == [];
    } else {
      var init := placed[..|placed| - 1];
      var o := placed[|placed| - 1];
      assert placed == init + [o];
      var prev := Amend(base, init);
      AmendKeepsPlacedOrder(base, init);
      if o.orderId in Ids(prev) {
        SubsequenceExtend(prev[|base|..], init, o);
      } else {
        assert Amend(base, placed)[|base|..] == prev[|base|..] + [o];
        SubsequenceSnoc(prev[|base|..], init, o);
      }
    }
  }

  /** Appending an order whose id is not yet present keeps the ids distinct. */
  lemma AppendFreshId<D>(s: seq<Order<D>>, o: Order<D>)
    requires o.orderId !in Ids(s)
    ensures DistinctIds(s) ==> DistinctIds(s + [o])
  {
    forall i | 0 <= i < |s|
      ensures s[i].orderId != o.orderId
    {
      assert s[i] in s;
    }
  }

  /**
   * The filter of `get_order_book`: keeps, in order, the orders whose id is not hidden.
   */
  function Hide<D(==)>(s: seq<Order<D>>, hidden: set<int>): (r: seq<Order<D>>)
    ensures |r| <= |s|
    ensures forall o :: o in r ==> o in s && o.orderId !in hidden
    ensures forall o :: o in s && o.orderId !in hidden ==> o in r
  {
    if s == [] then
      []
    else if s[0].orderId in hidden then
      Hide(s[1..], hidden)
    else
      [s[0]] + Hide(s[1..], hidden)
  }

  /**
   * Filtering distributes over concatenation: whatever survives of `a` comes before
   * whatever survives of `b`, so the filter keeps the relative order of the orders.
   */
  lemma {:induction false} HideConcat<D>(a: seq<Order<D>>, b: seq<Order<D>>, hidden: set<int>)
    ensures Hide(a + b, hidden) == Hide(a, hidden) + Hide(b, hidden)
  {
    if a == [] {
      assert a + b == b;
    } else {
      assert (a + b)[0] == a[0];
      assert (a + b)[1..] == a[1..] + b;
      HideConcat(a[1..], b, hidden);
    }
  }

  /** Filtering never introduces a duplicate id. */
  lemma {:induction false} HideDistinct<D>(s: seq<Order<D>>, hidden: set<int>)
    ensures DistinctIds(s) ==> DistinctIds(Hide(s, hidden))
  {
    if s != [] && DistinctIds(s) {
      var tail := s[1..];
      assert DistinctIds(tail) by {
        forall i, j | 0 <= i < j < |tail|
          ensures tail[i].orderId != tail[j].orderId
        {
          assert tail[i] == s[i + 1] && tail[j] == s[j + 1];
        }
      }
      HideDistinct(tail, hidden);
      if s[0].orderId !in hidden {
        var rest := Hide(tail, hidden);
        assert s[0].orderId !in Ids(rest) by {
          forall o | o in rest
            ensures o.orderId != s[0].orderId
          {
            assert o in tail;
            var k :| 0 <= k < |tail| && tail[k] == o;
            assert s[k + 1] == o;
          }
        }
        AppendFreshIdFront(s[0], rest);
      }
    }
  }

  /** Putting an order in front of a list that lacks its id keeps the ids distinct. */
  lemma AppendFreshIdFront<D>(o: Order<D>, s: seq<Order<D>>)
    requires o.orderId !in Ids(s)
    requires DistinctIds(s)
    ensures DistinctIds([o] + s)
  {
    forall i, j | 0 <= i < j < |[o] + s|
      ensures ([o] + s)[i].orderId != ([o] + s)[j].orderId
    {
      if i == 0 {
        assert ([o] + s)[j] == s[j - 1];
        assert s[j - 1] in s;
      } else {
        assert ([o] + s)[i] == s[i - 1] && ([o] + s)[j] == s[j - 1];
      }
    }
  }

  /**
   * A placed order that is the first of its id in the placed list, and whose id the
   * base list does not carry, is appended.
   */
  lemma {:induction false} AmendKeepsFirstOfId<D>(base: seq<Order<D>>, placed: seq<Order<D>>, i: int)
    requires 0 <= i < |placed|
    requires FirstWithId(placed, i)
    requires placed[i].orderId !in Ids(base)
    ensures placed[i] in Amend(base, placed)
    decreases |placed|
  {
    var init := placed[..|placed| - 1];
    var o := placed[|placed| - 1];
    var prev := Amend(base, init);
    if i < |placed| - 1 {
      assert init[i] == placed[i];
      AmendKeepsFirstOfId(base, init, i);
      assert Amend(base, placed)[..|prev|] == prev;
    } else {
      assert placed[i] == o;
      assert o.orderId !in Ids(init) by {
        forall p | p in init
          ensures p.orderId != o.orderId
        {
          var k :| 0 <= k < |init| && init[k] == p;
          assert placed[k] == p;
        }
      }
      assert o.orderId !in Ids(prev);
      assert Amend(base, placed) == prev + [o];
    }
  }

  /** An id that is carried by some order and is not hidden is still carried after filtering. */
  lemma HideKeepsIds<D>(s: seq<Order<D>>, hidden: set<int>, x: int)
    requires x in Ids(s) && x !in hidden
    ensures x in Ids(Hide(s, hidden))
  {
    var o :| o in s && o.orderId == x;
    assert o in Hide(s, hidden);
  }
}
