/** The server as every client sees it: a tree of nodes with data, data versions and a sequence
    counter per parent, changed only by atomic operations. */
module Zk {
  import opened Wrappers
  import opened GoStrings
  import opened Utf8
  import opened Paths
  import opened LockDriver

  /** A node's address: the names from the root down. */
  type Path = seq<Str>

  datatype ZNode = ZNode(data: Str, version: int)

  type Nodes = map<Path, ZNode>

  datatype Store = Store(nodes: Nodes, counters: map<Path, nat>)

  const ANY_VERSION := -1

  function Parent(p: Path): Path
    requires p != []
  {
    p[..|p| - 1]
  }

  /** Parent-closed, over valid names, with a root. */
  ghost predicate WellFormed(nodes: Nodes) {
    && [] in nodes
    && forall p :: p in nodes ==> ValidNames(p) && (p != [] ==> Parent(p) in nodes)
  }

  function Counter(s: Store, p: Path): nat {
    if p in s.counters then s.counters[p] else 0
  }

  function ChildNames(nodes: Nodes, p: Path): set<Str> {
    set q | q in nodes && |q| == |p| + 1 && p <= q :: q[|p|]
  }

  // ---------- operations ----------

  function CreateNode(s: Store, p: Path, data: Str): Result<Store, Error> {
    if p == [] then Err(NodeExists)
    else if Parent(p) !in s.nodes then Err(NoNode)
    else if p in s.nodes then Err(NodeExists)
    else Ok(Store(s.nodes[p := ZNode(data, 0)], s.counters[Parent(p) := Counter(s, Parent(p)) + 1]))
  }

  /** The path a sequential create will use: the counter of the parent, as ten digits, after the
      given name. */
  function SequentialPath(s: Store, p: Path): Path
    requires p != []
  {
    SequentialNode(p, Counter(s, Parent(p)))
  }

  function SequentialNode(p: Path, n: nat): Path
    requires p != []
  {
    Parent(p) + [p[|p| - 1] + Suffix(n)]
  }

  function CreateSequential(s: Store, p: Path, data: Str): Result<Store, Error> {
    if p == [] then Err(BadArguments)
    else if Counter(s, Parent(p)) >= SEQUENCE_LIMIT then Err(CounterExhausted)
    else CreateNode(s, SequentialPath(s, p), data)
  }

  function DeleteNode(s: Store, p: Path, version: int): Result<Store, Error> {
    if p == [] then Err(BadArguments)
    else if p !in s.nodes then Err(NoNode)
    else if version != ANY_VERSION && version != s.nodes[p].version then Err(BadVersion)
    else if ChildNames(s.nodes, p) != {} then Err(NotEmpty)
    else Ok(Store(s.nodes - {p}, s.counters - {p}))
  }

  /** A conditional write to one node: an absent node is reported, a stale version refused. */
  function SetData(node: Option<ZNode>, data: Str, version: int): Result<ZNode, Error> {
    match node
    case None => Err(NoNode)
    case Some(n) =>
      if version != ANY_VERSION && version != n.version then Err(BadVersion)
      else Ok(ZNode(data, n.version + 1))
  }

  /** An unconditional write to a node of the tree. */
  function WriteNode(s: Store, p: Path, data: Str): Result<Store, Error> {
    if p !in s.nodes then Err(NoNode)
    else Ok(s.(nodes := s.nodes[p := ZNode(data, s.nodes[p].version + 1)]))
  }

  // ---------- what the operations keep ----------

  lemma SuffixedNameIsValid(name: Str, n: nat)
    requires ValidName(name)
    ensures ValidName(name + Suffix(n))
  {
    var d := Suffix(n);
    forall i | 0 <= i < |d|
      ensures 0x30 <= d[i] <= 0x39
    {
      PadDigits(n, SUFFIX_WIDTH, i);
    }
    AsciiIsClean(d);
    CleanAppend(name, d);
  }

  lemma {:induction false} AncestorExists(nodes: Nodes, p: Path, k: nat)
    requires WellFormed(nodes) && p in nodes && k <= |p|
    ensures p[..k] in nodes
    decreases |p|
  {
    if k < |p| {
      AncestorExists(nodes, Parent(p), k);
      assert Parent(p)[..k] == p[..k];
    } else {
      assert p[..k] == p;
    }
  }

  /** Below a node there is something exactly when it has a child. */
  lemma ChildOnTheWay(nodes: Nodes, p: Path, q: Path)
    requires WellFormed(nodes) && q in nodes && p < q
    ensures p in nodes && q[|p|] in ChildNames(nodes, p) && ValidName(q[|p|])
  {
    AncestorExists(nodes, q, |p|);
    AncestorExists(nodes, q, |p| + 1);
    assert q[..|p|] == p && q[..|p| + 1][|p|] == q[|p|];
  }

  lemma ChildIsNode(nodes: Nodes, p: Path, name: Str)
    ensures name in ChildNames(nodes, p) <==> p + [name] in nodes
  {
    var q := p + [name];
    assert p <= q && q[|p|] == name;
    assert forall r :: r in nodes && |r| == |p| + 1 && p <= r && r[|p|] == name ==> r == q;
  }

  lemma CreateKeepsForm(s: Store, p: Path, data: Str)
    requires WellFormed(s.nodes) && ValidNames(p)
    ensures CreateNode(s, p, data).Ok? ==> WellFormed(CreateNode(s, p, data).value.nodes)
  {
  }

  lemma DeleteKeepsForm(s: Store, p: Path, version: int)
    requires WellFormed(s.nodes)
    ensures DeleteNode(s, p, version).Ok? ==>
              && WellFormed(DeleteNode(s, p, version).value.nodes)
              && forall q :: q in s.nodes && p <= q ==> q == p
  {
    if DeleteNode(s, p, version).Ok? {
      forall q | q in s.nodes && p <= q
        ensures q == p
      {
        if q != p {
          ChildOnTheWay(s.nodes, p, q);
        }
      }
      forall q | q in s.nodes && q != p && q != []
        ensures Parent(q) != p
      {
        assert Parent(q) <= q;
      }
    }
  }
}
