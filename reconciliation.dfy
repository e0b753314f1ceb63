/**
 * The list bookkeeping of the refresher's second lock section: every order captured in
 * the before-poll set is removed from the placed-but-unconfirmed list with Python's
 * `list.remove`, which deletes the first equal entry.
 */
module Reconciliation {
  import opened Sequences

  /** The entries of a list, as the refresher's `set(self._orders_placed)` captures them. */
  function Elems<T(==)>(s: seq<T>): set<T>
  {
    set x | x in s
  }

  /** Where the first entry equal to `x` sits. */
  function FirstIndex<T(==)>(s: seq<T>, x: T): (k: nat)
    requires x in s
    ensures k < |s| && s[k] == x && x !in s[..k]
  {
    if s[0] == x then
      0
    else
      var k := FirstIndex(s[1..], x);
      assert s[..k + 1] == [s[0]] + s[1..][..k];
      k + 1
  }

  /**
   * `list.remove(x)`: delete the first entry equal to `x` and keep the others in order.
   * Python raises `ValueError` when there is no such entry; the refresher only removes
   * entries it captured from the list, so that never happens, and the model then leaves
   * the list as it is.
   */
  function RemoveFirst<T(==)>(s: seq<T>, x: T): (r: seq<T>)
    ensures x in s ==> r == s[..FirstIndex(s, x)] + s[FirstIndex(s, x) + 1..]
    ensures x !in s ==> r == s
    ensures forall y :: y in s && y != x ==> y in r
  {
    if s == [] then
      []
    else if s[0] == x then
      assert s == [x] + s[1..];
      s[1..]
    else
      var t := s[1..];
      assert s == [s[0]] + t;
      var rest := RemoveFirst(t, x);
      assert x in s ==> [s[0]] + rest == s[..FirstIndex(s, x)] + s[FirstIndex(s, x) + 1..] by {
        if x in s {
          var k := FirstIndex(t, x);
          assert FirstIndex(s, x) == k + 1;
          assert s[..k + 1] == [s[0]] + t[..k];
          assert s[k + 2..] == t[k + 1..];
        }
      }
      [s[0]] + rest
  }

  /** Removing a present entry removes exactly one copy of it. */
  lemma RemoveFirstOneCopy<T>(s: seq<T>, x: T)
    requires x in s
    ensures |RemoveFirst(s, x)| == |s| - 1
    ensures multiset(RemoveFirst(s, x)) == multiset(s) - multiset{x}
  {
    var k := FirstIndex(s, x);
    var r := RemoveFirst(s, x);
    assert r == s[..k] + s[k + 1..];
    assert s == s[..k] + ([x] + s[k + 1..]);
    assert multiset(s) == multiset(s[..k]) + multiset{x} + multiset(s[k + 1..]);
  }

  /**
   * The list left once the first entry equal to each member of `p` has been removed.
   * Removals of distinct values commute, so the result does not depend on the order in
   * which the loop over the captured set visits its members.
   */
  function Retire<T(==)>(s: seq<T>, p: set<T>): seq<T>
  {
    if s == [] then
      []
    else if s[0] in p then
      Retire(s[1..], p - {s[0]})
    else
      [s[0]] + Retire(s[1..], p)
  }

  /** Retiring nothing keeps the list. */
  lemma {:induction false} RetireNothing<T>(s: seq<T>)
    ensures Retire(s, {}) == s
  {
    if s != [] {
      RetireNothing(s[1..]);
    }
  }

  /**
   * One iteration of the refresher's loop: removing the first `x` and then the rest of
   * the set is the same as retiring the whole set.
   */
  lemma {:induction false} RetireStep<T>(s: seq<T>, p: set<T>, x: T)
    requires x in p && x in s
    ensures Retire(RemoveFirst(s, x), p - {x}) == Retire(s, p)
  {
    if s[0] != x {
      var t := RemoveFirst(s[1..], x);
      assert RemoveFirst(s, x) == [s[0]] + t;
      assert ([s[0]] + t)[0] == s[0] && ([s[0]] + t)[1..] == t;
      if s[0] in p {
        RetireStep(s[1..], p - {s[0]}, x);
        assert p - {x} - {s[0]} == p - {s[0]} - {x};
      } else {
        RetireStep(s[1..], p, x);
      }
    }
  }

  /**
   * Entries appended after the capture are never removed: when every captured order is
   * in `a`, retiring from `a + t` removes only from `a`.
   */
  lemma {:induction false} RetireAppend<T>(a: seq<T>, t: seq<T>, p: set<T>)
    requires forall x :: x in p ==> x in a
    ensures Retire(a + t, p) == Retire(a, p) + t
  {
    if a == [] {
      assert p == {};
      assert a + t == t;
      RetireNothing(t);
    } else {
      assert (a + t)[0] == a[0] && (a + t)[1..] == a[1..] + t;
      if a[0] in p {
        RetireAppend(a[1..], t, p - {a[0]});
      } else {
        RetireAppend(a[1..], t, p);
      }
    }
  }

  /** Exactly one copy of each captured order leaves the list, and nothing else does. */
  lemma {:induction false} RetireMultiset<T>(s: seq<T>, p: set<T>)
    requires forall x :: x in p ==> x in s
    ensures multiset(Retire(s, p)) == multiset(s) - multiset(p)
    ensures |Retire(s, p)| == |s| - |p|
  {
    if s == [] {
      assert p == {};
    } else {
      assert s == [s[0]] + s[1..];
      if s[0] in p {
        var q := p - {s[0]};
        RetireMultiset(s[1..], q);
        assert multiset(p) == multiset(q) + multiset{s[0]};
      } else {
        RetireMultiset(s[1..], p);
      }
    }
  }

  /** The entries the refresher does not remove keep their relative order. */
  lemma {:induction false} RetireKeepsOrder<T>(s: seq<T>, p: set<T>)
    ensures IsSubsequence(Retire(s, p), s)
  {
    if s != [] {
      if s[0] in p {
        RetireKeepsOrder(s[1..], p - {s[0]});
      } else {
        RetireKeepsOrder(s[1..], p);
        var r := [s[0]] + Retire(s[1..], p);
        assert r[0] == s[0] && r[1..] == Retire(s[1..], p);
      }
    }
  }
}
