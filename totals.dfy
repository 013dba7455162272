/**
 Pure definitions behind the emission totals of the Footprint store: the
 value store is a sparse map from (sector, use case, year) to the entered
 value, and a missing entry counts as 0.  Sums are defined by peeling the
 LAST element so that a forward loop keeps `total == Sum(prefix)`.
 */
module Totals {

  /** (sector, use case, year) */
  type Key = (string, string, int)

  /** No element occurs twice (true of the key list of a Python dict). */
  predicate Distinct<T(==)>(xs: seq<T>)
  {
    forall i, j | 0 <= i < j < |xs| :: xs[i] != xs[j]
  }

  /** The keys of `{x: ... for x in xs}`: each element of `xs` once. */
  function FirstOccurrences(xs: seq<string>): (r: seq<string>)
    ensures Distinct(r)
    ensures forall x :: x in r <==> x in xs
    ensures Distinct(xs) ==> r == xs
  {
    if xs == [] then []
    else
      var r := FirstOccurrences(xs[..|xs| - 1]);
      if xs[|xs| - 1] in r then r else r + [xs[|xs| - 1]]
  }

  /** The entered value of a use case for a year; a missing entry reads as 0. */
  function ValueOr0(values: map<Key, real>, s: string, u: string, y: int): real
  {
    if (s, u, y) in values then values[(s, u, y)] else 0.0
  }

  /** Sum over the use cases `us` of sector `s` of their values for year `y`. */
  function SectorSum(values: map<Key, real>, s: string, us: seq<string>, y: int): real
  {
    if us == [] then 0.0
    else SectorSum(values, s, us[..|us| - 1], y) + ValueOr0(values, s, us[|us| - 1], y)
  }

  /** Sum over the sectors `ss` (each with its use cases) of their values for year `y`. */
  function GrandSum(values: map<Key, real>, useCases: map<string, seq<string>>, ss: seq<string>, y: int): real
    requires forall s | s in ss :: s in useCases
  {
    if ss == [] then 0.0
    else GrandSum(values, useCases, ss[..|ss| - 1], y) + SectorSum(values, ss[|ss| - 1], useCases[ss[|ss| - 1]], y)
  }

  /** A sector with nothing recorded for `y` sums to 0. */
  lemma {:induction false} SectorSumNoEntries(values: map<Key, real>, s: string, us: seq<string>, y: int)
    requires forall u | u in us :: (s, u, y) !in values
    ensures SectorSum(values, s, us, y) == 0.0
  {
    if us != [] {
      SectorSumNoEntries(values, s, us[..|us| - 1], y);
    }
  }

  /** With nothing recorded for `y` anywhere, the grand total for `y` is 0. */
  lemma {:induction false} GrandSumNoEntries(values: map<Key, real>, useCases: map<string, seq<string>>, ss: seq<string>, y: int)
    requires forall s | s in ss :: s in useCases
    requires forall s, u :: (s, u, y) !in values
    ensures GrandSum(values, useCases, ss, y) == 0.0
  {
    if ss != [] {
      GrandSumNoEntries(values, useCases, ss[..|ss| - 1], y);
      SectorSumNoEntries(values, ss[|ss| - 1], useCases[ss[|ss| - 1]], y);
    }
  }

  /** A sector sum depends only on the values its own use cases have for `y`. */
  lemma {:induction false} SectorSumAgree(values: map<Key, real>, values': map<Key, real>, s: string, us: seq<string>, y: int)
    requires forall u | u in us :: ValueOr0(values, s, u, y) == ValueOr0(values', s, u, y)
    ensures SectorSum(values, s, us, y) == SectorSum(values', s, us, y)
  {
    if us != [] {
      SectorSumAgree(values, values', s, us[..|us| - 1], y);
    }
  }

  /** The grand total for `y` depends only on the year-`y` values of defined use cases. */
  lemma {:induction false} GrandSumAgree(values: map<Key, real>, values': map<Key, real>, useCases: map<string, seq<string>>, ss: seq<string>, y: int)
    requires forall s | s in ss :: s in useCases
    requires forall s, u | s in ss && u in useCases[s] :: ValueOr0(values, s, u, y) == ValueOr0(values', s, u, y)
    ensures GrandSum(values, useCases, ss, y) == GrandSum(values', useCases, ss, y)
  {
    if ss != [] {
      GrandSumAgree(values, values', useCases, ss[..|ss| - 1], y);
      var s := ss[|ss| - 1];
      SectorSumAgree(values, values', s, useCases[s], y);
    }
  }

  /**
   Overwriting the entry of `(s, u, y)` with `v` changes a sector sum by
   `v` minus the old value when `u` is one of the (distinct) use cases, and
   not at all otherwise: values are replaced, never accumulated.
   */
  lemma {:induction false} SectorSumUpdate(values: map<Key, real>, s: string, us: seq<string>, u: string, y: int, v: real)
    requires Distinct(us)
    ensures SectorSum(values[(s, u, y) := v], s, us, y)
         == SectorSum(values, s, us, y) + (if u in us then v - ValueOr0(values, s, u, y) else 0.0)
  {
    if us != [] {
      var init := us[..|us| - 1];
      assert Distinct(init);
      SectorSumUpdate(values, s, init, u, y, v);
      assert u in us <==> u in init || u == us[|us| - 1];
      assert u == us[|us| - 1] ==> u !in init;
    }
  }

  /** The same as SectorSumUpdate, for the grand total over distinct sectors. */
  lemma {:induction false} GrandSumUpdate(values: map<Key, real>, useCases: map<string, seq<string>>, ss: seq<string>, s: string, u: string, y: int, v: real)
    requires forall t | t in ss :: t in useCases
    requires Distinct(ss)
    requires s in useCases && Distinct(useCases[s])
    ensures GrandSum(values[(s, u, y) := v], useCases, ss, y)
         == GrandSum(values, useCases, ss, y) + (if s in ss && u in useCases[s] then v - ValueOr0(values, s, u, y) else 0.0)
  {
    if ss != [] {
      var init, last := ss[..|ss| - 1], ss[|ss| - 1];
      assert Distinct(init);
      GrandSumUpdate(values, useCases, init, s, u, y, v);
      if last == s {
        assert s !in init;
        SectorSumUpdate(values, s, useCases[s], u, y, v);
      } else {
        SectorSumAgree(values, values[(s, u, y) := v], last, useCases[last], y);
      }
    }
  }

  /** An entry for year `y` leaves the grand total of every other year as it was. */
  lemma GrandSumOtherYear(values: map<Key, real>, useCases: map<string, seq<string>>, ss: seq<string>, s: string, u: string, y: int, v: real, y': int)
    requires forall t | t in ss :: t in useCases
    requires y' != y
    ensures GrandSum(values[(s, u, y) := v], useCases, ss, y') == GrandSum(values, useCases, ss, y')
  {
    var values' := values[(s, u, y) := v];
    forall t, w | t in ss && w in useCases[t] ensures ValueOr0(values, t, w, y') == ValueOr0(values', t, w, y') {
      assert (t, w, y') != (s, u, y);
    }
    GrandSumAgree(values, values', useCases, ss, y');
  }

  /** Removing the element at `i` removes exactly its value from a sector sum. */
  lemma {:induction false} SectorSumRemoveAt(values: map<Key, real>, s: string, us: seq<string>, i: nat, y: int)
    requires i < |us|
    ensures SectorSum(values, s, us, y) == SectorSum(values, s, us[..i] + us[i + 1..], y) + ValueOr0(values, s, us[i], y)
  {
    var init := us[..|us| - 1];
    if i == |us| - 1 {
      assert us[..i] + us[i + 1..] == init;
    } else {
      SectorSumRemoveAt(values, s, init, i, y);
      assert us[..i] + us[i + 1..] == (init[..i] + init[i + 1..]) + [us[|us| - 1]];
    }
  }

  /**
   Summing over a distinct sub-list `a` of the distinct use cases `b`, in any
   order, gives the sum over all of `b` when the use cases left out have no
   entry for `y`.
   */
  lemma {:induction false} SectorSumOverSubset(values: map<Key, real>, s: string, a: seq<string>, b: seq<string>, y: int)
    requires Distinct(a) && Distinct(b)
    requires forall u | u in a :: u in b
    requires forall u | u in b && u !in a :: (s, u, y) !in values
    ensures SectorSum(values, s, a, y) == SectorSum(values, s, b, y)
    decreases |a|
  {
    if a == [] {
      SectorSumNoEntries(values, s, b, y);
    } else {
      var a', x := a[..|a| - 1], a[|a| - 1];
      assert a == a' + [x];
      assert Distinct(a');
      assert x in a && x in b;
      var i :| 0 <= i < |b| && b[i] == x;
      var b' := b[..i] + b[i + 1..];
      SectorSumRemoveAt(values, s, b, i, y);
      RemoveAtDistinct(b, i);
      forall u | u in a' ensures u in b' {
        assert u in a && u != x;
      }
      SectorSumOverSubset(values, s, a', b', y);
    }
  }

  /** Removing one element of a distinct list leaves exactly the other elements, still distinct. */
  lemma RemoveAtDistinct(a: seq<string>, i: nat)
    requires Distinct(a) && i < |a|
    ensures Distinct(a[..i] + a[i + 1..])
    ensures forall u :: u in a[..i] + a[i + 1..] <==> u in a && u != a[i]
  {
    var a' := a[..i] + a[i + 1..];
    assert forall k | 0 <= k < |a'| :: a'[k] == a[if k < i then k else k + 1];
    forall u | u in a && u != a[i] ensures u in a' {
      var k :| 0 <= k < |a| && a[k] == u;
      assert a'[if k < i then k else k - 1] == u;
    }
  }
}
