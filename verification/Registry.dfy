/** The MIB registry: indexes, longest-prefix lookup and translation of trishul_snmp/mib/registry.py. */
module Registry {
  import opened Wrappers
  import opened Oids
  import T = Text

  datatype Node = Node(moduleName: string, name: string, oid: Oid, objectType: string, nodetype: Option<string>)

  /** A module with its objects and notifications, in iteration order. */
  datatype ModuleRecord = ModuleRecord(name: string, nodes: seq<Node>)

  /** A sidecar entry. */
  datatype Entry = Entry(moduleName: string, symbol: string)

  datatype Match = Match(oid: Oid, moduleName: string, symbol: string, matchedOid: Oid, suffix: Oid,
                         objectType: string, nodetype: Option<string>)

  datatype MibError = InvalidOid | UnknownSymbol | UnknownOid | TranslationError

  type Symbols = map<(string, string), Node>

  type Exact = map<Oid, Node>

  type Sidecar = map<Oid, Entry>

  datatype Indexes = Indexes(symbols: Symbols, exact: Exact, sidecar: Sidecar)

  // Building the indexes

  /** A node, under the name of the module that lists it. */
  datatype Listed = Listed(moduleName: string, node: Node)

  function ListNodes(moduleName: string, nodes: seq<Node>): seq<Listed> {
    if nodes == [] then []
    else ListNodes(moduleName, nodes[..|nodes| - 1]) + [Listed(moduleName, nodes[|nodes| - 1])]
  }

  /** All nodes of all modules, in the order in which they are indexed. */
  function ListAll(modules: seq<ModuleRecord>): seq<Listed> {
    if modules == [] then []
    else
      var last := modules[|modules| - 1];
      ListAll(modules[..|modules| - 1]) + ListNodes(last.name, last.nodes)
  }

  function WithNode(ix: Indexes, l: Listed): Indexes {
    ix.(symbols := ix.symbols[(l.moduleName, l.node.name) := l.node], exact := ix.exact[l.node.oid := l.node])
  }

  /** Later nodes replace earlier ones of the same module and name, and of the same OID. */
  function Index(listed: seq<Listed>, sidecar: Sidecar): Indexes {
    if listed == [] then Indexes(map[], map[], sidecar)
    else WithNode(Index(listed[..|listed| - 1], sidecar), listed[|listed| - 1])
  }

  ghost predicate HasNode(listed: seq<Listed>, node: Node) {
    exists l :: l in listed && l.node == node
  }

  /** What the two indexes say about the nodes they were built from. */
  ghost predicate Faithful(listed: seq<Listed>, ix: Indexes) {
    && (forall k <- ix.exact :: ix.exact[k].oid == k && HasNode(listed, ix.exact[k]))
    && (forall k <- ix.symbols :: ix.symbols[k].name == k.1 && Listed(k.0, ix.symbols[k]) in listed)
    && (forall l <- listed :: l.node.oid in ix.exact && (l.moduleName, l.node.name) in ix.symbols)
  }

  lemma HasNodeMore(listed: seq<Listed>, l: Listed)
    ensures forall node :: HasNode(listed, node) ==> HasNode(listed + [l], node)
    ensures HasNode(listed + [l], l.node)
  {
    forall node | HasNode(listed, node)
      ensures HasNode(listed + [l], node)
    {
      var x :| x in listed && x.node == node;
      assert x in listed + [l];
    }
    assert l in listed + [l];
  }

  lemma FaithfulNode(listed: seq<Listed>, l: Listed, ix: Indexes)
    requires Faithful(listed, ix)
    ensures Faithful(listed + [l], WithNode(ix, l))
  {
    hide HasNode;
    HasNodeMore(listed, l);
    assert forall x :: x in listed + [l] <==> x in listed || x == l;
  }

  lemma {:induction false} IndexIsFaithful(listed: seq<Listed>, sidecar: Sidecar)
    ensures Faithful(listed, Index(listed, sidecar))
    ensures Index(listed, sidecar).sidecar == sidecar
  {
    hide Faithful, WithNode;
    if listed == [] {
      EmptyIsFaithful(sidecar);
    } else {
      var n := |listed| - 1;
      IndexIsFaithful(listed[..n], sidecar);
      FaithfulNode(listed[..n], listed[n], Index(listed[..n], sidecar));
      SidecarKept(Index(listed[..n], sidecar), listed[n]);
      assert listed == listed[..n] + [listed[n]];
    }
  }

  lemma SidecarKept(ix: Indexes, l: Listed)
    ensures WithNode(ix, l).sidecar == ix.sidecar
  {
  }

  lemma EmptyIsFaithful(sidecar: Sidecar)
    ensures Faithful([], Indexes(map[], map[], sidecar))
  {
  }

  // Lookup

  function Accelerated(ix: Indexes, oid: Oid): Option<Node> {
    if oid !in ix.sidecar then None
    else
      var e := ix.sidecar[oid];
      if (e.moduleName, e.symbol) in ix.symbols then Some(ix.symbols[(e.moduleName, e.symbol)]) else None
  }

  /** The sidecar first, then the exact index. */
  function Find(ix: Indexes, oid: Oid): Option<Node> {
    var node := Accelerated(ix, oid);
    if node.Some? then node else if oid in ix.exact then Some(ix.exact[oid]) else None
  }

  /** The longest prefix of at most `n` arcs that is known, as its length; 0 when there is none. */
  function Longest(ix: Indexes, oid: Oid, n: nat): (k: nat)
    requires n <= |oid|
    ensures k <= n
    ensures k > 0 ==> Find(ix, oid[..k]).Some?
    ensures forall i :: k < i <= n ==> Find(ix, oid[..i]).None?
  {
    if n == 0 || Find(ix, oid[..n]).Some? then n else Longest(ix, oid, n - 1)
  }

  predicate ValidOid(oid: Oid) {
    oid != [] && forall i :: 0 <= i < |oid| ==> oid[i] >= 0
  }

  function MatchOf(oid: Oid, node: Node, k: nat): Match
    requires k <= |oid|
  {
    Match(oid, node.moduleName, node.name, node.oid, oid[k..], node.objectType, node.nodetype)
  }

  function Lookup(ix: Indexes, oid: Oid): Result<Match, MibError> {
    if !ValidOid(oid) then Failure(InvalidOid)
    else
      var k := Longest(ix, oid, |oid|);
      if k == 0 then Failure(UnknownOid) else Success(MatchOf(oid, Find(ix, oid[..k]).value, k))
  }

  class MibRegistry {
    var symbolIndex: Symbols
    var exactOidIndex: Exact
    const oidIndex: Sidecar

    function View(): Indexes
      reads this
    {
      Indexes(symbolIndex, exactOidIndex, oidIndex)
    }

    /** The two nested loops that fill the indexes. */
    constructor (modules: seq<ModuleRecord>, oidIndex: Sidecar)
      ensures View() == Index(ListAll(modules), oidIndex)
    {
      this.oidIndex := oidIndex;
      symbolIndex, exactOidIndex := map[], map[];
      new;
      for i := 0 to |modules|
        invariant View() == Index(ListAll(modules[..i]), oidIndex)
      {
        var m := modules[i];
        ghost var before := ListAll(modules[..i]);
        assert before + [] == before;
        for j := 0 to |m.nodes|
          invariant View() == Index(before + ListNodes(m.name, m.nodes[..j]), oidIndex)
        {
          var node := m.nodes[j];
          assert m.nodes[..j + 1][..j] == m.nodes[..j];
          ghost var sofar := before + ListNodes(m.name, m.nodes[..j]);
          assert before + ListNodes(m.name, m.nodes[..j + 1]) == sofar + [Listed(m.name, node)];
          assert (sofar + [Listed(m.name, node)])[..|sofar|] == sofar;
          symbolIndex := symbolIndex[(m.name, node.name) := node];
          exactOidIndex := exactOidIndex[node.oid := node];
        }
        assert m.nodes[..|m.nodes|] == m.nodes;
        assert modules[..i + 1][..i] == modules[..i];
      }
      assert modules[..|modules|] == modules;
    }

    method LookupExactFromAccelerator(oid: Oid) returns (node: Option<Node>)
      ensures node == Accelerated(View(), oid)
    {
      node := Accelerated(View(), oid);
    }

    /** The exact lookup, then the scan over ever shorter prefixes. */
    method LookupOid(oid: Oid) returns (r: Result<Match, MibError>)
      ensures r == Lookup(View(), oid)
    {
      if !ValidOid(oid) {
        return Failure(InvalidOid);
      }
      var node := LookupExactFromAccelerator(oid);
      if node.None? && oid in exactOidIndex {
        node := Some(exactOidIndex[oid]);
      }
      assert oid[..|oid|] == oid;
      if node.Some? {
        return Success(MatchOf(oid, node.value, |oid|));
      }
      var prefixLen := |oid| - 1;
      while prefixLen > 0
        invariant 0 <= prefixLen < |oid|
        invariant Longest(View(), oid, |oid|) == Longest(View(), oid, prefixLen)
      {
        var prefix := oid[..prefixLen];
        node := LookupExactFromAccelerator(prefix);
        if node.None? && prefix in exactOidIndex {
          node := Some(exactOidIndex[prefix]);
        }
        if node.Some? {
          return Success(MatchOf(oid, node.value, prefixLen));
        }
        prefixLen := prefixLen - 1;
      }
      return Failure(UnknownOid);
    }
  }

  /** The lookup fails exactly when no non-empty prefix is known, and otherwise splits the OID behind
      the longest known one and tells what is known of its node. */
  lemma LookupFindsLongestPrefix(ix: Indexes, oid: Oid)
    requires ValidOid(oid)
    ensures Lookup(ix, oid).Failure? <==> forall i :: 0 < i <= |oid| ==> Find(ix, oid[..i]).None?
    ensures Lookup(ix, oid).Success? ==>
              var m := Lookup(ix, oid).value;
              var k := |oid| - |m.suffix|;
              && 0 < k <= |oid| && m.suffix == oid[k..] && m.oid == oid
              && Find(ix, oid[..k]).Some?
              && var node := Find(ix, oid[..k]).value;
              && m.matchedOid == node.oid && m.moduleName == node.moduleName && m.symbol == node.name
              && m.objectType == node.objectType && m.nodetype == node.nodetype
              && forall i :: k < i <= |oid| ==> Find(ix, oid[..i]).None?
  {
    var k := Longest(ix, oid, |oid|);
    if k > 0 {
      assert Find(ix, oid[..k]).Some?;
    }
  }

  /** Every sidecar entry that resolves names a node at its own key. */
  predicate SidecarConsistent(ix: Indexes) {
    forall k <- ix.sidecar :: ValidOid(k) && Accelerated(ix, k).Some? ==> Accelerated(ix, k).value.oid == k
  }

  lemma FoundAtKey(listed: seq<Listed>, sidecar: Sidecar, oid: Oid)
    requires var ix := Index(listed, sidecar); SidecarConsistent(ix) && ValidOid(oid) && Find(ix, oid).Some?
    ensures Find(Index(listed, sidecar), oid).value.oid == oid
  {
    hide Index;
    IndexIsFaithful(listed, sidecar);
  }

  lemma PrefixValid(oid: Oid, k: nat)
    requires ValidOid(oid) && 0 < k <= |oid|
    ensures ValidOid(oid[..k]) && oid[..k] + oid[k..] == oid
  {
  }

  /** Matched OID and suffix make up the OID looked up, for every OID, if and only if the sidecar is consistent. */
  lemma LookupRecomposesExactly(listed: seq<Listed>, sidecar: Sidecar)
    ensures var ix := Index(listed, sidecar);
            SidecarConsistent(ix) <==>
            forall oid: Oid :: Lookup(ix, oid).Success? ==> Recomposes(oid, Lookup(ix, oid).value)
  {
    var ix := Index(listed, sidecar);
    if SidecarConsistent(ix) {
      forall oid: Oid | Lookup(ix, oid).Success?
        ensures Recomposes(oid, Lookup(ix, oid).value)
      {
        var k := Longest(ix, oid, |oid|);
        PrefixValid(oid, k);
        FoundAtKey(listed, sidecar, oid[..k]);
      }
    } else {
      var key :| key in ix.sidecar && ValidOid(key) && Accelerated(ix, key).Some?
                 && Accelerated(ix, key).value.oid != key;
      assert key[..|key|] == key && key[|key|..] == [];
      var m := Lookup(ix, key).value;
      assert m.matchedOid + [] == m.matchedOid;
      assert !Recomposes(key, m);
    }
  }

  predicate Recomposes(oid: Oid, m: Match) {
    m.matchedOid + m.suffix == oid
  }

  /** No two nodes share an OID. */
  predicate DistinctOids(listed: seq<Listed>) {
    forall a <- listed, b <- listed :: a.node.oid == b.node.oid ==> a.node == b.node
  }

  lemma SameOidSameNode(listed: seq<Listed>, a: Node, b: Node)
    requires DistinctOids(listed) && HasNode(listed, a) && HasNode(listed, b) && a.oid == b.oid
    ensures a == b
  {
    var x :| x in listed && x.node == a;
    var y :| y in listed && y.node == b;
  }

  /** A consistent sidecar changes no result: the same prefix is found with it and without, and the
      same node when no two nodes share an OID. */
  lemma AcceleratorAgrees(listed: seq<Listed>, sidecar: Sidecar, oid: Oid)
    requires SidecarConsistent(Index(listed, sidecar))
    ensures var with_, without := Lookup(Index(listed, sidecar), oid), Lookup(Index(listed, map[]), oid);
            && (with_.Success? <==> without.Success?)
            && (with_.Failure? ==> with_ == without)
            && (with_.Success? ==>
                  && with_.value.matchedOid == without.value.matchedOid
                  && with_.value.suffix == without.value.suffix
                  && (DistinctOids(listed) ==> with_ == without))
  {
    var a, b := Index(listed, sidecar), Index(listed, map[]);
    if ValidOid(oid) {
      forall i | 0 < i <= |oid|
        ensures Find(a, oid[..i]).Some? <==> Find(b, oid[..i]).Some?
        ensures Find(a, oid[..i]).Some? ==>
                  && Find(a, oid[..i]).value.oid == Find(b, oid[..i]).value.oid
                  && (DistinctOids(listed) ==> Find(a, oid[..i]) == Find(b, oid[..i]))
      {
        PrefixValid(oid, i);
        SameFound(listed, sidecar, oid[..i]);
      }
      SameLongest(a, b, oid, |oid|);
    }
  }

  lemma SameFound(listed: seq<Listed>, sidecar: Sidecar, oid: Oid)
    requires SidecarConsistent(Index(listed, sidecar)) && ValidOid(oid)
    ensures var x, y := Find(Index(listed, sidecar), oid), Find(Index(listed, map[]), oid);
            && (x.Some? <==> y.Some?)
            && (x.Some? ==> x.value.oid == y.value.oid && (DistinctOids(listed) ==> x == y))
  {
    var a, b := Index(listed, sidecar), Index(listed, map[]);
    IndexIsFaithful(listed, sidecar);
    IndexIsFaithful(listed, map[]);
    SameIndexes(listed, sidecar);
    hide Index, HasNode, DistinctOids;
    var hit := Accelerated(a, oid);
    if hit.Some? {
      var e := sidecar[oid];
      ListedHasNode(listed, Listed(e.moduleName, hit.value));
      if DistinctOids(listed) {
        SameOidSameNode(listed, hit.value, b.exact[oid]);
      }
    }
  }

  lemma ListedHasNode(listed: seq<Listed>, l: Listed)
    requires l in listed
    ensures HasNode(listed, l.node)
  {
  }

  lemma {:induction false} SameIndexes(listed: seq<Listed>, sidecar: Sidecar)
    ensures Index(listed, sidecar).exact == Index(listed, map[]).exact
    ensures Index(listed, sidecar).symbols == Index(listed, map[]).symbols
  {
    if listed != [] {
      SameIndexes(listed[..|listed| - 1], sidecar);
    }
  }

  lemma {:induction false} SameLongest(a: Indexes, b: Indexes, oid: Oid, n: nat)
    requires n <= |oid|
    requires forall i :: 0 < i <= n ==> (Find(a, oid[..i]).Some? <==> Find(b, oid[..i]).Some?)
    ensures Longest(a, oid, n) == Longest(b, oid, n)
  {
    if n > 0 {
      SameLongest(a, b, oid, n - 1);
    }
  }
}
