/** A walk over a store that does not change: what it returns and how many requests it takes. */
module WalkExact {
  import opened Wrappers
  import opened Oids
  import opened Asn1
  import opened Pdus
  import opened Lex
  import opened Sources
  import opened Responder
  import opened Walk

  /** The first position from `p` on that is outside the subtree or stores an end-of-view marker. */
  function LimitFrom(root: Oid, s: Snapshot, p: nat): (q: nat)
    requires Consistent(s) && p <= |s.oids|
    ensures p <= q <= |s.oids|
    ensures forall i :: p <= i < q ==> Within(root, s.oids[i]) && s.values[s.oids[i]] != Fixed(EndOfMibViewValue)
    ensures q < |s.oids| ==> !Within(root, s.oids[q]) || s.values[s.oids[q]] == Fixed(EndOfMibViewValue)
    decreases |s.oids| - p
  {
    if p == |s.oids| || !Within(root, s.oids[p]) || s.values[s.oids[p]] == Fixed(EndOfMibViewValue) then p
    else LimitFrom(root, s, p + 1)
  }

  /** Where the objects strictly below the root start in the list. */
  function First(root: Oid, s: Snapshot): (p: nat)
    ensures p <= |s.oids|
  {
    Rank(s.oids, root)
  }

  /** How many objects a walk of the subtree finds. */
  function Size(root: Oid, s: Snapshot): nat
    requires Consistent(s)
  {
    LimitFrom(root, s, First(root, s)) - First(root, s)
  }

  /** The walk after `t` lookups: the first `t` objects of the subtree, or all of them and stopped. */
  ghost predicate AfterLookups(root: Oid, s: Snapshot, w: Walker, t: nat)
    requires Consistent(s)
  {
    && WalkInv(root, w)
    && |w.results| == Min(t, Size(root, s))
    && First(root, s) + |w.results| <= |s.oids|
    && (forall i :: 0 <= i < |w.results| ==> w.results[i].oid == s.oids[First(root, s) + i])
    && (w.stopped <==> t > Size(root, s))
  }

  lemma OneMoreLookup(root: Oid, s: Snapshot, w: Walker, reading: Reading, request: nat, t: nat)
    requires Consistent(s) && AfterLookups(root, s, w, t) && !w.stopped
    ensures AfterLookups(root, s, Accept(root, w, NextVarbind(s, w.current, reading), request), t + 1)
  {
    hide Less, Within, WalkInv, Sorted, Rank;
    var r := First(root, s);
    LookupKeepsInv(root, w, s, reading, request);
    CurrentRank(root, s, w, t);
    var w' := Accept(root, w, NextVarbind(s, w.current, reading), request);
    forall i | 0 <= i < |w.results|
      ensures w'.results[i] == w.results[i]
    {
      assert w'.results[..|w.results|][i] == w'.results[i];
    }
    assert t < Size(root, s) ==> s.values[s.oids[r + t]] != Fixed(EndOfMibViewValue);
    LastBefore(root, s, w, t);
  }

  /** The lookup after `t` results asks for position `t` of the subtree. */
  lemma CurrentRank(root: Oid, s: Snapshot, w: Walker, t: nat)
    requires Consistent(s) && AfterLookups(root, s, w, t) && !w.stopped
    ensures |w.results| == t && Rank(s.oids, w.current) == First(root, s) + t
  {
    hide Less, Within, Rank;
    if t > 0 {
      RankOfElement(s.oids, First(root, s) + t - 1);
    }
  }

  lemma LastBefore(root: Oid, s: Snapshot, w: Walker, t: nat)
    requires Consistent(s) && AfterLookups(root, s, w, t) && !w.stopped
    ensures First(root, s) + t < |s.oids| && w.lastOid.Some? ==>
              Less(w.lastOid.value, s.oids[First(root, s) + t])
  {
  }

  lemma {:induction false} MoreLookups(root: Oid, s: Snapshot, w: Walker, readings: Readings, from: nat, count: nat,
                                       request: nat, t: nat)
    requires Consistent(s) && AfterLookups(root, s, w, t)
    ensures AfterLookups(root, s, Lookups(root, w, s, readings, from, count, request), t + count)
    decreases count
  {
    hide NextVarbind, WalkInv, Consistent, Accept;
    if count > 0 && !w.stopped {
      OneMoreLookup(root, s, w, readings(from), request, t);
      MoreLookups(root, s, Accept(root, w, NextVarbind(s, w.current, readings(from)), request), readings, from + 1,
                  count - 1, request, t + 1);
    }
  }

  lemma StartsAtZero(root: Oid, s: Snapshot)
    requires Consistent(s)
    ensures AfterLookups(root, s, Start(root), 0)
  {
  }

  predicate Unchanged(stores: seq<Snapshot>, s: Snapshot) {
    forall i :: 0 <= i < |stores| ==> stores[i] == s
  }

  lemma {:induction false} AfterRequests(plan: Plan, s: Snapshot, stores: seq<Snapshot>, readings: nat -> Readings)
    requires Consistent(s) && Unchanged(stores, s) && Cells(plan) > 0
    ensures AfterLookups(plan.root, s, Run(plan, stores, readings), |stores| * Cells(plan))
    decreases |stores|
  {
    hide AfterLookups, Step, Lookups, Cells, Consistent;
    if stores == [] {
      StartsAtZero(plan.root, s);
    } else {
      var n := |stores| - 1;
      AfterRequests(plan, s, stores[..n], readings);
      var w := Run(plan, stores[..n], readings);
      assert |stores| * Cells(plan) == n * Cells(plan) + Cells(plan);
      if w.stopped {
        StillStopped(plan.root, s, w, n * Cells(plan), Cells(plan));
      } else {
        StepIsLookups(plan, w, s, readings(n), n);
        MoreLookups(plan.root, s, w, readings(n), 0, Cells(plan), n, n * Cells(plan));
      }
    }
  }

  lemma StillStopped(root: Oid, s: Snapshot, w: Walker, t: nat, more: nat)
    requires Consistent(s) && AfterLookups(root, s, w, t) && w.stopped
    ensures AfterLookups(root, s, w, t + more)
  {
  }

  lemma ExceedsExactly(n: nat, m: nat, k: nat)
    requires m > 0
    ensures n * m > k <==> n >= k / m + 1
  {
    assert k == m * (k / m) + k % m;
    if n >= k / m + 1 {
      assert n * m >= (k / m + 1) * m;
    } else {
      assert n * m <= (k / m) * m;
    }
  }

  /** Walk exactness: a walk that asks for M varbinds at a time is finished after exactly
      floor(k / M) + 1 requests, k being the number of objects found, and it has then found exactly the
      consecutive stored objects from the root's rank on; these are all the objects strictly below
      the root if and only if none of them stores an end-of-view marker. */
  lemma WalkIsExact(plan: Plan, s: Snapshot, stores: seq<Snapshot>, readings: nat -> Readings)
    requires Consistent(s) && Unchanged(stores, s) && Cells(plan) > 0
    ensures var w := Run(plan, stores, readings);
            var k := Size(plan.root, s);
            && (w.stopped <==> |stores| >= k / Cells(plan) + 1)
            && (w.stopped ==>
                  && |w.results| == k
                  && First(plan.root, s) + k <= |s.oids|
                  && (forall i :: 0 <= i < k ==> w.results[i].oid == s.oids[First(plan.root, s) + i])
                  && Increasing(w.results)
                  && (forall i :: 0 <= i < k ==> StrictlyBelow(plan.root, w.results[i].oid))
                  && ((forall o <- s.values :: StrictlyBelow(plan.root, o) ==> Returned(w, o))
                      <==> NoMarkerBelow(plan.root, s)))
  {
    hide Run, Rank, Less, Within, Cells, LimitFrom;
    AfterRequests(plan, s, stores, readings);
    ExceedsExactly(|stores|, Cells(plan), Size(plan.root, s));
    var w := Run(plan, stores, readings);
    if w.stopped {
      if NoMarkerBelow(plan.root, s) {
        forall o <- s.values | StrictlyBelow(plan.root, o)
          ensures Returned(w, o)
        {
          WalkIsComplete(plan, stores, readings, o);
        }
      } else {
        var o :| o in s.values && StrictlyBelow(plan.root, o) && s.values[o] == Fixed(EndOfMibViewValue);
        MarkedNotReturned(plan.root, s, w, |stores| * Cells(plan), o);
      }
    }
  }

  /** The walk issues exactly floor(k / M) + 1 requests. */
  lemma RequestCount(plan: Plan, s: Snapshot, stores: seq<Snapshot>, readings: nat -> Readings)
    requires Consistent(s) && Unchanged(stores, s) && Cells(plan) > 0 && stores != []
    requires Run(plan, stores, readings).stopped && !Run(plan, stores[..|stores| - 1], readings).stopped
    ensures |stores| == Size(plan.root, s) / Cells(plan) + 1
    ensures var m := if plan.bulk then plan.maxRepetitions else 1;
            m > 0 && |stores| == Size(plan.root, s) / m + 1
    ensures |Run(plan, stores, readings).results| == Size(plan.root, s)
  {
    assert Cells(plan) == if plan.bulk then plan.maxRepetitions else 1;
    hide Run, Rank, Cells, Size, Consistent, NoMarkerBelow;
    WalkIsExact(plan, s, stores, readings);
    WalkIsExact(plan, s, stores[..|stores| - 1], readings);
  }

  lemma MarkedNotReturned(root: Oid, s: Snapshot, w: Walker, t: nat, o: Oid)
    requires Consistent(s) && AfterLookups(root, s, w, t)
    requires o in s.values && s.values[o] == Fixed(EndOfMibViewValue)
    ensures !Returned(w, o)
  {
    hide Rank, Less, Within;
    forall i | 0 <= i < |w.results|
      ensures w.results[i].oid != o
    {
      assert s.values[s.oids[First(root, s) + i]] != Fixed(EndOfMibViewValue);
    }
  }

  /** Finished walks of an unchanged store agree on the OIDs, whatever the request kind and the number
      of repetitions. */
  lemma BulkWalkEqualsNextWalk(a: Plan, b: Plan, s: Snapshot, as_: seq<Snapshot>, bs: seq<Snapshot>,
                               ra: nat -> Readings, rb: nat -> Readings)
    requires Consistent(s) && Unchanged(as_, s) && Unchanged(bs, s)
    requires a.root == b.root && Cells(a) > 0 && Cells(b) > 0
    requires Run(a, as_, ra).stopped && Run(b, bs, rb).stopped
    ensures var x, y := Run(a, as_, ra).results, Run(b, bs, rb).results;
            |x| == |y| && forall i :: 0 <= i < |x| ==> x[i].oid == y[i].oid
  {
    hide Run, Rank, Cells;
    WalkIsExact(a, s, as_, ra);
    WalkIsExact(b, s, bs, rb);
  }
}
