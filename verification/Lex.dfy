/** The order of OIDs, which is the order of Python tuples, and subtrees. */
module Lex {
  import opened Oids

  predicate Less(a: Oid, b: Oid) {
    if b == [] then false
    else if a == [] then true
    else a[0] < b[0] || (a[0] == b[0] && Less(a[1..], b[1..]))
  }

  lemma {:induction false} Irreflexive(a: Oid)
    ensures !Less(a, a)
  {
    if a != [] {
      Irreflexive(a[1..]);
    }
  }

  lemma {:induction false} Transitive(a: Oid, b: Oid, c: Oid)
    requires Less(a, b) && Less(b, c)
    ensures Less(a, c)
  {
    if a != [] && a[0] == b[0] && b[0] == c[0] {
      Transitive(a[1..], b[1..], c[1..]);
    }
  }

  lemma {:induction false} Total(a: Oid, b: Oid)
    ensures Less(a, b) || a == b || Less(b, a)
  {
    if a != [] && b != [] && a[0] == b[0] {
      Total(a[1..], b[1..]);
      assert a == [a[0]] + a[1..] && b == [b[0]] + b[1..];
    }
  }

  lemma Asymmetric(a: Oid, b: Oid)
    requires Less(a, b)
    ensures !Less(b, a) && a != b
  {
    Irreflexive(a);
    if Less(b, a) {
      Transitive(a, b, a);
    }
  }

  /** `is_within_subtree` of trishul_snmp/manager/walk.py. */
  predicate Within(root: Oid, oid: Oid) {
    |oid| >= |root| && oid[..|root|] == root
  }

  predicate StrictlyBelow(root: Oid, oid: Oid) {
    Within(root, oid) && oid != root
  }

  /** The identifiers strictly below the root are the ones of its subtree that come after it. */
  lemma {:induction false} BelowIsAfter(root: Oid, oid: Oid)
    requires Within(root, oid)
    ensures oid != root <==> Less(root, oid)
  {
    if root == [] {
    } else {
      assert root[0] == oid[..|root|][0] == oid[0];
      assert oid[1..][..|root| - 1] == oid[..|root|][1..] == root[1..];
      BelowIsAfter(root[1..], oid[1..]);
      assert root == [root[0]] + root[1..] && oid == [oid[0]] + oid[1..];
    }
  }

  /** Once the order has left a subtree it does not come back. */
  lemma {:induction false} SubtreeIsConvex(root: Oid, a: Oid, b: Oid)
    requires Less(root, a) && Less(a, b) && Within(root, b)
    ensures Within(root, a)
  {
    if root != [] {
      assert root[0] == b[..|root|][0] == b[0];
      assert a != [] && a[0] == root[0];
      assert b[1..][..|root| - 1] == b[..|root|][1..] == root[1..];
      SubtreeIsConvex(root[1..], a[1..], b[1..]);
      assert a[..|root|] == [a[0]] + a[1..][..|root| - 1];
    }
  }

  predicate Sorted(oids: seq<Oid>) {
    forall i, j :: 0 <= i < j < |oids| ==> Less(oids[i], oids[j])
  }

  /** How many of the OIDs do not come after `oid`: `bisect_right`. */
  function Rank(oids: seq<Oid>, oid: Oid): (r: nat)
    ensures r <= |oids|
  {
    if oids == [] || Less(oid, oids[0]) then 0 else 1 + Rank(oids[1..], oid)
  }

  /** In a sorted list the rank separates the OIDs up to the argument from those after it. */
  lemma {:induction false} RankSeparates(oids: seq<Oid>, oid: Oid)
    requires Sorted(oids)
    ensures forall i :: 0 <= i < Rank(oids, oid) ==> !Less(oid, oids[i])
    ensures forall i :: Rank(oids, oid) <= i < |oids| ==> Less(oid, oids[i])
  {
    if oids != [] {
      if Less(oid, oids[0]) {
        forall i | 0 < i < |oids|
          ensures Less(oid, oids[i])
        {
          Transitive(oid, oids[0], oids[i]);
        }
      } else {
        RankSeparates(oids[1..], oid);
        assert forall i :: 0 < i < |oids| ==> oids[i] == oids[1..][i - 1];
      }
    }
  }

  lemma RankUnique(oids: seq<Oid>, oid: Oid, r: nat)
    requires Sorted(oids) && r <= |oids|
    requires r > 0 ==> !Less(oid, oids[r - 1])
    requires r < |oids| ==> Less(oid, oids[r])
    ensures r == Rank(oids, oid)
  {
    RankSeparates(oids, oid);
  }

  lemma RankOfElement(oids: seq<Oid>, k: nat)
    requires Sorted(oids) && k < |oids|
    ensures Rank(oids, oids[k]) == k + 1
  {
    Irreflexive(oids[k]);
    RankUnique(oids, oids[k], k + 1);
  }

  /** Tuple order: at the first difference the smaller arc comes first, and a prefix before what it begins. */
  lemma {:induction false} LessExactly(a: Oid, b: Oid)
    ensures Less(a, b)
       <==> exists k :: 0 <= k <= |a| && k < |b| && a[..k] == b[..k] && (k == |a| || a[k] < b[k])
  {
    if b != [] && a != [] && a[0] == b[0] {
      LessExactly(a[1..], b[1..]);
      if Less(a[1..], b[1..]) {
        var k :| 0 <= k <= |a| - 1 && k < |b| - 1 && a[1..][..k] == b[1..][..k]
                 && (k == |a| - 1 || a[1..][k] < b[1..][k]);
        assert a[..k + 1] == [a[0]] + a[1..][..k] && b[..k + 1] == [b[0]] + b[1..][..k];
        assert k + 1 == |a| || a[k + 1] < b[k + 1];
      }
      if k :| 0 <= k <= |a| && k < |b| && a[..k] == b[..k] && (k == |a| || a[k] < b[k]) {
        assert k > 0;
        assert a[1..][..k - 1] == a[..k][1..] && b[1..][..k - 1] == b[..k][1..];
        assert k - 1 == |a| - 1 || a[1..][k - 1] < b[1..][k - 1];
      }
    } else if b != [] {
      assert a[..0] == b[..0];
      if k :| 0 <= k <= |a| && k < |b| && a[..k] == b[..k] && (k == |a| || a[k] < b[k]) {
        if a != [] && k > 0 {
          assert a[..k][0] == b[..k][0];
        }
      }
    }
  }

  /** A subtree is the root and whatever continues it. */
  lemma WithinExactly(root: Oid, oid: Oid)
    ensures Within(root, oid) <==> exists suffix: Oid :: oid == root + suffix
    ensures StrictlyBelow(root, oid) <==> exists suffix: Oid :: suffix != [] && oid == root + suffix
  {
    if Within(root, oid) {
      assert oid == root + oid[|root|..];
    }
  }
}
