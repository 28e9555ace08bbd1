/** The in-memory object source: trishul_snmp/responder/sources.py. */
module Sources {
  import opened Wrappers
  import opened Oids
  import opened Asn1
  import opened Lex

  /** A stored value, or a simulation rule, whose value is drawn anew at every read. */
  datatype Stored = Fixed(value: Value) | Rule

  /** What a rule may yield: rules build numbers, never the end-of-view marker. */
  type Reading = v: Value | v != EndOfMibViewValue witness NullValue

  function Read(stored: Stored, reading: Reading): Value {
    if stored.Fixed? then stored.value else reading
  }

  /** A value that reading the stored object can give. */
  predicate ReadsAs(stored: Stored, v: Value) {
    if stored.Fixed? then v == stored.value else v != EndOfMibViewValue
  }

  /** The two fields of the source at one moment. */
  datatype Snapshot = Snapshot(oids: seq<Oid>, values: map<Oid, Stored>)

  /** The list is strictly increasing and holds exactly the dictionary's keys. */
  ghost predicate Consistent(s: Snapshot) {
    && Sorted(s.oids)
    && forall k :: k in s.oids <==> k in s.values
  }

  /** The least stored OID after `oid`, or none when there is no greater one. */
  predicate IsNext(s: Snapshot, oid: Oid, next: Option<Oid>) {
    match next
    case None => forall k <- s.values :: !Less(oid, k)
    case Some(n) => n in s.values && Less(oid, n) && forall k <- s.values :: Less(oid, k) ==> k == n || Less(n, k)
  }

  function Next(s: Snapshot, oid: Oid): Option<Oid> {
    var r := Rank(s.oids, oid);
    if r < |s.oids| then Some(s.oids[r]) else None
  }

  lemma NextIsLeastGreater(s: Snapshot, oid: Oid)
    requires Consistent(s)
    ensures IsNext(s, oid, Next(s, oid))
  {
    RankSeparates(s.oids, oid);
    var r := Rank(s.oids, oid);
    forall k <- s.values
      ensures if r < |s.oids| then Less(oid, k) ==> k == s.oids[r] || Less(s.oids[r], k) else !Less(oid, k)
    {
      assert k in s.oids;
      var i :| 0 <= i < |s.oids| && s.oids[i] == k;
    }
  }

  function Inserted(oids: seq<Oid>, oid: Oid): seq<Oid> {
    var r := Rank(oids, oid);
    oids[..r] + [oid] + oids[r..]
  }

  function Removed(oids: seq<Oid>, oid: Oid): seq<Oid> {
    if oids == [] then [] else if oids[0] == oid then oids[1..] else [oids[0]] + Removed(oids[1..], oid)
  }

  lemma InsertedSorted(oids: seq<Oid>, oid: Oid)
    requires Sorted(oids) && oid !in oids
    ensures Sorted(Inserted(oids, oid))
    ensures forall k :: k in Inserted(oids, oid) <==> k in oids || k == oid
  {
    hide Less, Rank;
    RankSeparates(oids, oid);
    var r := Rank(oids, oid);
    var all := oids[..r] + [oid] + oids[r..];
    forall i | 0 <= i < r
      ensures Less(oids[i], oid)
    {
      Total(oids[i], oid);
    }
    forall i, j | 0 <= i < j < |all|
      ensures Less(all[i], all[j])
    {
      assert all[i] == if i < r then oids[i] else if i == r then oid else oids[i - 1];
      assert all[j] == if j < r then oids[j] else if j == r then oid else oids[j - 1];
    }
    forall k
      ensures k in all <==> k in oids || k == oid
    {
      assert oids == oids[..r] + oids[r..];
    }
  }

  lemma {:induction false} RemovedSorted(oids: seq<Oid>, oid: Oid)
    requires Sorted(oids)
    ensures Sorted(Removed(oids, oid))
    ensures forall k :: k in Removed(oids, oid) <==> k in oids && k != oid
  {
    if oids != [] {
      Irreflexive(oids[0]);
      assert forall k :: k in oids <==> k == oids[0] || k in oids[1..];
      if oids[0] != oid {
        RemovedSorted(oids[1..], oid);
        var rest := Removed(oids[1..], oid);
        forall j | 0 <= j < |rest|
          ensures Less(oids[0], rest[j])
        {
          assert rest[j] in oids[1..];
        }
      }
    }
  }

  class InMemoryObjectSource {
    var values: map<Oid, Stored>
    var sortedOids: seq<Oid>

    constructor ()
      ensures View() == Snapshot([], map[]) && Valid()
    {
      values, sortedOids := map[], [];
    }

    function View(): Snapshot
      reads this
    {
      Snapshot(sortedOids, values)
    }

    ghost predicate Valid()
      reads this
    {
      Consistent(View())
    }

    /** `bisect_right`, by binary search. */
    method BisectRight(oid: Oid) returns (lo: nat)
      requires Valid()
      ensures lo == Rank(sortedOids, oid)
    {
      lo := 0;
      var hi := |sortedOids|;
      while lo < hi
        invariant lo <= hi <= |sortedOids|
        invariant lo > 0 ==> !Less(oid, sortedOids[lo - 1])
        invariant hi < |sortedOids| ==> Less(oid, sortedOids[hi])
      {
        var mid := (lo + hi) / 2;
        if Less(oid, sortedOids[mid]) {
          hi := mid;
        } else {
          lo := mid + 1;
        }
      }
      RankUnique(sortedOids, oid, lo);
    }

    /** Finds exactly the OIDs on the list, although it reads the dictionary alone. */
    method LookupExact(oid: Oid, reading: Reading) returns (r: Option<Value>)
      ensures r == if oid in values then Some(Read(values[oid], reading)) else None
      ensures Valid() ==> (r.Some? <==> oid in sortedOids)
    {
      if oid !in values {
        return None;
      }
      r := Some(Read(values[oid], reading));
    }

    method LookupNext(oid: Oid, reading: Reading) returns (r: Option<(Oid, Value)>)
      requires Valid()
      ensures r.None? <==> Next(View(), oid).None?
      ensures r.Some? ==>
                && Next(View(), oid) == Some(r.value.0) && r.value.0 in values
                && r.value.1 == Read(values[r.value.0], reading)
      ensures IsNext(View(), oid, if r.None? then None else Some(r.value.0))
    {
      NextIsLeastGreater(View(), oid);
      var index := BisectRight(oid);
      if index >= |sortedOids| {
        return None;
      }
      var nextOid := sortedOids[index];
      r := Some((nextOid, Read(values[nextOid], reading)));
    }

    method SetObject(oid: Oid, value: Stored)
      requires Valid()
      modifies this
      ensures Valid()
      ensures values == old(values)[oid := value]
      ensures sortedOids == if oid in old(values) then old(sortedOids) else Inserted(old(sortedOids), oid)
    {
      if oid !in values {
        InsertedSorted(sortedOids, oid);
        var index := BisectRight(oid);
        sortedOids := sortedOids[..index] + [oid] + sortedOids[index..];
      }
      values := values[oid := value];
    }

    method DeleteObject(oid: Oid) returns (deleted: bool)
      requires Valid()
      modifies this
      ensures Valid()
      ensures deleted <==> oid in old(values)
      ensures values == old(values) - {oid}
      ensures sortedOids == Removed(old(sortedOids), oid)
    {
      RemovedSorted(sortedOids, oid);
      if oid !in values {
        RemoveAbsent(sortedOids, oid);
        return false;
      }
      values := values - {oid};
      RemoveOid(oid);
      return true;
    }

    /** `list.remove`: deletes the first occurrence. */
    method RemoveOid(oid: Oid)
      modifies this`sortedOids
      ensures sortedOids == Removed(old(sortedOids), oid)
    {
      var i := 0;
      ghost var all := sortedOids;
      while i < |sortedOids| && sortedOids[i] != oid
        invariant i <= |sortedOids| && sortedOids == all
        invariant Removed(all, oid) == all[..i] + Removed(all[i..], oid)
      {
        assert all[i..][1..] == all[i + 1..];
        assert all[..i] + ([all[i]] + Removed(all[i + 1..], oid)) == all[..i + 1] + Removed(all[i + 1..], oid);
        i := i + 1;
      }
      if i < |sortedOids| {
        assert all[i..][1..] == all[i + 1..];
        sortedOids := sortedOids[..i] + sortedOids[i + 1..];
      } else {
        assert all[..i] == all && all[i..] == [];
      }
    }

    method Clear()
      modifies this
      ensures Valid() && View() == Snapshot([], map[])
    {
      values, sortedOids := map[], [];
    }
  }

  lemma {:induction false} RemoveAbsent(oids: seq<Oid>, oid: Oid)
    requires oid !in oids
    ensures Removed(oids, oid) == oids
  {
    if oids != [] {
      RemoveAbsent(oids[1..], oid);
    }
  }

  // Runs of updates

  datatype Command = SetCommand(oid: Oid, stored: Stored) | DeleteCommand(target: Oid) | ClearCommand

  function Apply(s: Snapshot, c: Command): Snapshot {
    match c
    case SetCommand(oid, stored) =>
      Snapshot(if oid in s.values then s.oids else Inserted(s.oids, oid), s.values[oid := stored])
    case DeleteCommand(oid) => Snapshot(Removed(s.oids, oid), s.values - {oid})
    case ClearCommand => Snapshot([], map[])
  }

  function ApplyAll(s: Snapshot, commands: seq<Command>): Snapshot
    decreases |commands|
  {
    if commands == [] then s else ApplyAll(Apply(s, commands[0]), commands[1..])
  }

  lemma ApplyKeeps(s: Snapshot, c: Command)
    requires Consistent(s)
    ensures Consistent(Apply(s, c))
  {
    match c
    case SetCommand(oid, _) => if oid !in s.values { InsertedSorted(s.oids, oid); }
    case DeleteCommand(oid) => RemovedSorted(s.oids, oid);
    case ClearCommand =>
  }

  /** After any sequence of updates the list is strictly increasing and holds exactly the keys, and
      the successor lookup finds the least greater key or none. */
  lemma {:induction false} RunsKeep(s: Snapshot, commands: seq<Command>, oid: Oid)
    requires Consistent(s)
    ensures Consistent(ApplyAll(s, commands))
    ensures IsNext(ApplyAll(s, commands), oid, Next(ApplyAll(s, commands), oid))
    decreases |commands|
  {
    if commands == [] {
      NextIsLeastGreater(s, oid);
    } else {
      ApplyKeeps(s, commands[0]);
      RunsKeep(Apply(s, commands[0]), commands[1..], oid);
    }
  }
}
