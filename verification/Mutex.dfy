/** The inter-process mutex as one client runs it: create a node, look, wait, and count. */
module Mutex {
  import opened Wrappers
  import opened GoStrings
  import opened Paths
  import Namespace
  import Retry
  import opened LockDriver
  import opened Zk
  import opened Connection
  import opened TreeOps

  // ---------- naming ----------

  /** The path a lock node of number `n` gets under `base`. */
  function NodePath(base: Str, n: nat): Str {
    Join(base, [LOCK]) + Suffix(n)
  }

  lemma LockIsAName()
    ensures ValidName(LOCK)
  {
  }

  lemma NodePathText(base: Str, n: nat)
    requires ValidPath(base)
    ensures NodePath(base, n) == Below(base, LockName(n)) == Join(base, [LockName(n)])
  {
    assert ValidName(LOCK) && ValidName(LockName(n)) by {
      LockIsAName();
      SuffixedNameIsValid(LOCK, n);
    }
    JoinText(base, LOCK);
    JoinText(base, LockName(n));
    Associative((if base == ROOT then [] else base) + ROOT, LOCK, Suffix(n));
  }

  lemma CutFront(base: Str, name: Str)
    requires base != [] && name != []
    ensures var path := (if base == ROOT then [] else base) + ROOT + name;
            && |base| + 1 <= |path|
            && (path[|base| + 1..] == name <==> base != ROOT)
            && (base == ROOT ==> path[|base| + 1..] == name[1..])
  {
    if base == ROOT {
      assert ([] + ROOT + name)[2..] == name[1..];
    } else {
      assert (base + ROOT + name)[|base + ROOT|..] == name;
    }
  }

  /** The created path names a child of the base path; cutting `len(base)+1` bytes off it leaves
      that child's name exactly when the base path is not the root. */
  lemma SlicedName(base: Str, n: nat)
    requires ValidPath(base)
    ensures |base| + 1 <= |NodePath(base, n)|
    ensures NodePath(base, n)[|base| + 1..] == Sliced(base == ROOT, LockName(n))
    ensures NodePath(base, n)[|base| + 1..] == LockName(n) <==> base != ROOT
  {
    NodePathText(base, n);
    CutFront(base, LockName(n));
  }

  lemma NodePathComponents(base: Str, n: nat)
    requires ValidPath(base)
    ensures ValidPath(NodePath(base, n)) && Components(NodePath(base, n)) == Components(base) + [LockName(n)]
  {
    NodePathText(base, n);
    LockIsAName();
    SuffixedNameIsValid(LOCK, n);
    JoinThenSplit(base, LockName(n));
  }

  lemma SameComponents(p: Str, q: Str)
    requires ValidPath(p) && ValidPath(q) && Components(p) == Components(q)
    ensures p == q
  {
    PathIsItsComponents(p);
    PathIsItsComponents(q);
  }

  lemma NamespacedLockPath(namespace: Str, base: Str)
    requires Namespace.Kept(namespace) && ValidPath(base)
    ensures var outer := Namespace.FixForNamespace(namespace, base);
            ValidPath(outer) && Namespace.FixForNamespace(namespace, Join(base, [LOCK])) == Join(outer, [LOCK])
  {
    var lockPath, outer := Join(base, [LOCK]), Namespace.FixForNamespace(namespace, base);
    var front := if namespace == [] then [] else Components(ROOT + namespace);
    assert ValidPath(lockPath) && Components(lockPath) == Components(base) + [LOCK] by {
      LockPathIsValid(base);
    }
    assert ValidPath(outer) && Components(outer) == front + Components(base) by {
      Namespace.NamespaceRoundTrip(namespace, base);
    }
    assert ValidPath(Join(outer, [LOCK])) && Components(Join(outer, [LOCK])) == Components(outer) + [LOCK] by {
      LockPathIsValid(outer);
    }
    Associative(front, Components(base), [LOCK]);
    var fixed := Namespace.FixForNamespace(namespace, lockPath);
    assert ValidPath(fixed) && Components(fixed) == front + Components(lockPath) by {
      Namespace.NamespaceRoundTrip(namespace, lockPath);
    }
    SameComponents(fixed, Join(outer, [LOCK]));
  }

  /** Through a client with a namespace: the server makes a child of the namespaced base path, and the
      name cut from the path the client gets back is that child's name. */
  lemma NamespacedSlice(namespace: Str, base: Str, n: nat)
    requires Namespace.Kept(namespace) && ValidPath(base)
    ensures var made := Namespace.FixForNamespace(namespace, Join(base, [LOCK])) + Suffix(n);
            var got := Namespace.UnfixForNamespace(namespace, made);
            && ValidPath(made) && Components(made) == Components(Namespace.FixForNamespace(namespace, base)) + [LockName(n)]
            && |base| + 1 <= |got| && (got[|base| + 1..] == LockName(n) <==> base != ROOT)
  {
    NamespacedLockPath(namespace, base);
    NodePathComponents(Namespace.FixForNamespace(namespace, base), n);
    LockPathIsValid(base);
    Namespace.UnfixKeepsSuffix(namespace, Join(base, [LOCK]), Suffix(n));
    SlicedName(base, n);
  }

  // ---------- one attempt ----------

  /** Create the sequential node, with its parents if they are missing, trying again as long as the failure
      is one to retry. While others only create, it is refused only when the numbers run out or the node's
      name is taken. */
  method CreatesTheLock(conn: Conn, base: Str, data: Str) returns (r: Result<Str, Error>, ghost n: nat)
    requires conn.Valid() && ValidPath(base)
    modifies conn
    ensures conn.Valid() && if old(conn.turns) == [] then conn.turns == [] else |conn.turns| < |old(conn.turns)|
    ensures r.Ok? ==>
              && n < SEQUENCE_LIMIT && r.value == NodePath(base, n)
              && Node(base, n) !in old(conn.owned) && conn.owned == old(conn.owned) + {Node(base, n)}
    ensures r.Err? ==> conn.owned == old(conn.owned) && !Retry.ShouldRetry(r.error)
    ensures CreatesOnly(old(conn.turns)) && r.Err? ==> LockRefused(r.error, conn.store, base, old(conn.turns))
  {
    while true
      invariant conn.Valid() && conn.owned == old(conn.owned) && |conn.turns| <= |old(conn.turns)|
      invariant NoFaults(old(conn.turns)) ==> NoFaults(conn.turns)
      invariant CreatesOnly(old(conn.turns)) ==> CreatesOnly(conn.turns)
      decreases |conn.turns|
    {
      r, n := CreateLockOnce(conn, base, data);
      if r.Ok? || !Retry.ShouldRetry(r.error) {
        return;
      }
    }
  }

  /** Why a lock node cannot be made: the name of the next number is taken, the numbers have run out, or a
      call failed on its way. */
  ghost predicate LockRefused(e: Error, s: Store, base: Str, turns: seq<Turn>) {
    var n := Counter(s, Components(base));
    match e
    case NodeExists => Node(base, n) in s.nodes
    case CounterExhausted => n >= SEQUENCE_LIMIT
    case _ => e.Fault? && !NoFaults(turns)
  }

  /** The node of number `n` under a base path. */
  function Node(base: Str, n: nat): Path {
    Components(base) + [LockName(n)]
  }

  /** What an attempt to create leaves: one node more, or nothing. */
  ghost predicate LockMade(r: Result<Str, Error>, base: Str, n: nat, before: set<Path>, after: set<Path>) {
    if r.Ok? then n < SEQUENCE_LIMIT && r.value == NodePath(base, n) && Node(base, n) !in before && after == before + {Node(base, n)}
    else after == before
  }

  method CreateLockOnce(conn: Conn, base: Str, data: Str) returns (r: Result<Str, Error>, ghost n: nat)
    requires conn.Valid() && ValidPath(base)
    modifies conn
    ensures conn.Valid() && FaultsUsed(ErrorOf(r), old(conn.turns), conn.turns)
    ensures if old(conn.turns) == [] then conn.turns == [] else |conn.turns| < |old(conn.turns)|
    ensures LockMade(r, base, n, old(conn.owned), conn.owned)
    ensures CreatesOnly(old(conn.turns)) ==> CreatesOnly(conn.turns) && (r.Err? ==> LockRefused(r.error, conn.store, base, old(conn.turns)))
  {
    LockPathIsValid(base);
    var lockPath := JoinPath(base, [LOCK]);
    r, n := CreateLockNode(conn, base, lockPath, data);
    if r == Err(NoNode) {
      r, n := MakeBaseAndCreate(conn, base, lockPath, data);
    }
  }

  method MakeBaseAndCreate(conn: Conn, base: Str, lockPath: Str, data: Str) returns (r: Result<Str, Error>, ghost n: nat)
    requires conn.Valid() && ValidPath(base) && lockPath == Join(base, [LOCK])
    modifies conn
    ensures conn.Valid() && FaultsUsed(ErrorOf(r), old(conn.turns), conn.turns)
    ensures LockMade(r, base, n, old(conn.owned), conn.owned)
    ensures CreatesOnly(old(conn.turns)) ==> CreatesOnly(conn.turns) && (r.Err? ==> LockRefused(r.error, conn.store, base, old(conn.turns)))
  {
    n := 0;
    LockPathIsValid(base);
    var err := MakeBase(conn, base, lockPath);
    if err.Some? {
      return Err(err.value), 0;
    }
    r, n := CreateLockNode(conn, base, lockPath, data);
  }

  /** The create call itself. */
  method CreateLockNode(conn: Conn, base: Str, lockPath: Str, data: Str) returns (r: Result<Str, Error>, ghost n: nat)
    requires conn.Valid() && ValidPath(base) && lockPath == Join(base, [LOCK])
    modifies conn
    ensures conn.Valid() && conn.turns == Later(old(conn.turns)) && FaultsUsed(ErrorOf(r), old(conn.turns), conn.turns)
    ensures LockMade(r, base, n, old(conn.owned), conn.owned)
    ensures r.Err? && r.error != NoNode ==> LockRefused(r.error, conn.store, base, old(conn.turns))
    ensures CreatesOnly(old(conn.turns)) ==>
              CreatesOnly(conn.turns) && (r == Err(NoNode) ==> Components(base) !in old(conn.store.nodes))
  {
    LockPathIsValid(base);
    r, n := conn.CreateEphemeralSequential(lockPath, data);
    LockNodeOf(base, Components(lockPath), n);
  }

  /** Make the parents of the lock node; while others only create, the base path is then there. */
  method MakeBase(conn: Conn, base: Str, lockPath: Str) returns (err: Option<Error>)
    requires conn.Valid() && ValidPath(base) && ValidPath(lockPath) && Components(lockPath) == Components(base) + [LOCK]
    modifies conn`store, conn`turns, conn`added
    ensures conn.Valid() && FaultsUsed(err, old(conn.turns), conn.turns)
    ensures CreatesOnly(old(conn.turns)) ==>
              CreatesOnly(conn.turns) && OnlyFaults(err, old(conn.turns)) && (err == None ==> Components(base) in conn.store.nodes)
  {
    ghost var made;
    ghost var nodes := conn.store.nodes;
    err, made := MakeDirs(conn, lockPath, false);
    LockNodeOf(base, Components(lockPath), 0);
    if err == None && CreatesOnly(old(conn.turns)) {
      PrefixExists(nodes, conn.store.nodes, conn.Others(|old(conn.added)|), Components(lockPath), made);
    }
  }

  lemma LockPathIsValid(base: Str)
    requires ValidPath(base)
    ensures var lockPath := Join(base, [LOCK]);
            ValidPath(lockPath) && lockPath != ROOT && Components(lockPath) == Components(base) + [LOCK]
  {
    LockIsAName();
    JoinThenSplit(base, LOCK);
  }

  lemma LockNodeOf(base: Str, p: Path, n: nat)
    requires p == Components(base) + [LOCK]
    ensures Parent(p) == Components(base) && SequentialNode(p, n) == Node(base, n)
    ensures p[..|Components(base)| + 1] == p
  {
  }

  /** The children in the order of the lock's sort. */
  method GetSortedChildren(conn: Conn, base: Str) returns (r: Result<seq<Str>, Error>)
    requires conn.Valid() && ValidPath(base)
    modifies conn`store, conn`turns, conn`added
    ensures conn.Valid() && conn.turns == Later(old(conn.turns))
    ensures r.Ok? ==> SortedListing(r.value, ChildNames(conn.store.nodes, Components(base)))
    ensures old(conn.turns) == [] ==>
              conn.store.nodes == old(conn.store.nodes) && (r.Ok? <==> Components(base) in conn.store.nodes)
  {
    r := conn.Children(base);
    if r.Ok? {
      var children := new Str[|r.value|](i requires 0 <= i < |r.value| => r.value[i]);
      assert children[..] == r.value;
      SortChildren(children);
      r := Ok(children[..]);
    }
  }

  /** However the children are numbered, `answer` is whether the name is listed with fewer than
      `maxLeases` earlier nodes. */
  ghost predicate AnswersRank(answer: bool, kids: set<Str>, name: Str, maxLeases: nat) {
    forall number :: Numbered(kids, number) ==> answer == (name in kids && |Earlier(kids, number, name)| < maxLeases)
  }

  lemma PositionAnswers(listing: seq<Str>, kids: set<Str>, name: Str, maxLeases: nat)
    requires SortedListing(listing, kids)
    ensures AnswersRank(0 <= Position(listing, name) < maxLeases, kids, name, maxLeases)
  {
    var i := Position(listing, name);
    assert name in kids <==> name in multiset(listing);
    forall number | Numbered(kids, number) && i >= 0
      ensures |Earlier(kids, number, name)| == i
    {
      PositionIsRank(listing, kids, number, i);
    }
  }

  /** The looking loop. The client is found running `started` more times; every error inside the
      loop is dropped with the variable that holds it, so the result is only a yes or a no, and
      the node is never deleted here. Undisturbed, the answer is the sliced name's rank. */
  method InternalLockLoop(conn: Conn, base: Str, path: Str, maxLeases: nat, started: nat)
    returns (haveTheLock: bool, ghost listing: seq<Str>)
    requires conn.Valid() && ValidPath(base) && |base| + 1 <= |path|
    modifies conn`store, conn`turns, conn`added
    ensures conn.Valid() && |conn.turns| <= |old(conn.turns)|
    ensures haveTheLock ==>
              && SortedListing(listing, ChildNames(conn.store.nodes, Components(base)))
              && 0 <= Position(listing, path[|base| + 1..]) < maxLeases
    ensures old(conn.turns) == [] ==> conn.store.nodes == old(conn.store.nodes)
    ensures old(conn.turns) == [] && started > 0 && Components(base) in conn.store.nodes ==>
              AnswersRank(haveTheLock, ChildNames(conn.store.nodes, Components(base)), path[|base| + 1..], maxLeases)
  {
    haveTheLock := false;
    listing := [];
    var left := started;
    ghost var kids := ChildNames(conn.store.nodes, Components(base));
    while left > 0 && !haveTheLock
      invariant conn.Valid() && |conn.turns| <= |old(conn.turns)| && !haveTheLock
      invariant old(conn.turns) == [] ==> conn.store.nodes == old(conn.store.nodes)
      invariant old(conn.turns) == [] && left < started ==> AnswersRank(false, kids, path[|base| + 1..], maxLeases)
    {
      left := left - 1;
      var children := GetSortedChildren(conn, base);
      if children.Err? {
        break;
      }
      var sequenceNodeName := path[|base| + 1..];
      var results := GetsTheLock(children.value, sequenceNodeName, maxLeases);
      PositionAnswers(children.value, ChildNames(conn.store.nodes, Components(base)), sequenceNodeName, maxLeases);
      if results.Err? {
        break;
      } else if results.value.getsTheLock {
        haveTheLock := true;
        listing := children.value;
        break;
      } else {
        Watch(conn);
      }
    }
  }

  /** The watch on the earlier node is one more call; its result is not looked at. */
  method Watch(conn: Conn)
    requires conn.Valid()
    modifies conn`store, conn`turns, conn`added
    ensures conn.Valid() && conn.turns == Later(old(conn.turns))
    ensures old(conn.turns) == [] ==> conn.store.nodes == old(conn.store.nodes)
  {
    var _ := conn.Turn();
  }

  /** One attempt. A node path means the lock is held: the node exists and, in the tree as it
      stands, its name is among the first `maxLeases`. The empty path means it was not obtained,
      and then the node that was created is still there. Undisturbed, the lock is obtained exactly
      when the node's rank allows it. */
  method AttemptLock(conn: Conn, base: Str, data: Str, maxLeases: nat, started: nat, allows: nat -> bool)
    returns (r: Result<Str, Error>, ghost n: nat, ghost listing: seq<Str>)
    requires conn.Valid() && ValidPath(base)
    modifies conn
    ensures conn.Valid()
    ensures r.Err? ==> conn.owned == old(conn.owned)
    ensures r.Ok? ==>
              n < SEQUENCE_LIMIT && Node(base, n) !in old(conn.owned) && conn.owned == old(conn.owned) + {Node(base, n)}
    ensures r.Ok? && r.value != [] ==>
              && r.value == NodePath(base, n) && |base| + 1 <= |r.value|
              && SortedListing(listing, ChildNames(conn.store.nodes, Components(base)))
              && 0 <= Position(listing, r.value[|base| + 1..]) < maxLeases
    ensures old(conn.turns) == [] && r.Ok? && started > 0 && base != ROOT ==>
              AnswersRank(r.value != [], ChildNames(conn.store.nodes, Components(base)), LockName(n), maxLeases)
    ensures CreatesOnly(old(conn.turns)) && r.Err? ==> LockRefused(r.error, conn.store, base, old(conn.turns))
    ensures r == Err(NoNode) ==> exists k: nat :: k > 0 && !allows(k)
  {
    var retryCount := 0;
    while true
      invariant conn.Valid() && conn.owned == old(conn.owned)
      invariant |conn.turns| <= |old(conn.turns)| && (CreatesOnly(old(conn.turns)) ==> conn.turns == old(conn.turns))
      decreases |conn.turns|
    {
      var ourPath;
      ourPath, n := CreatesTheLock(conn, base, data);
      if ourPath.Ok? {
        SlicedName(base, n);
        BaseExists(conn.store.nodes, base, n);
        var haveTheLock;
        haveTheLock, listing := InternalLockLoop(conn, base, ourPath.value, maxLeases, started);
        return Ok(if haveTheLock then ourPath.value else []), n, listing;
      }
      if ourPath.error == NoNode {
        retryCount := retryCount + 1;
        if allows(retryCount) {
          continue;
        }
      }
      return Err(ourPath.error), 0, [];
    }
  }

  lemma BaseExists(nodes: Nodes, base: Str, n: nat)
    requires WellFormed(nodes) && Node(base, n) in nodes
    ensures Components(base) in nodes
  {
    assert Parent(Node(base, n)) == Components(base);
  }

  /** With one lease, holding means that no child sorts before the own node. */
  lemma FirstOfAll(listing: seq<Str>, names: set<Str>, name: Str)
    requires SortedListing(listing, names) && Position(listing, name) == 0
    ensures name in names && forall x :: x in names ==> !Less(Key(x), Key(name))
  {
    assert listing[0] in multiset(listing);
    forall x | x in names
      ensures !Less(Key(x), Key(name))
    {
      assert x in multiset(listing);
      var j :| 0 <= j < |listing| && listing[j] == x;
      if j == 0 {
        if Less(Key(x), Key(x)) {
          LessAsymmetric(Key(x), Key(x));
        }
      }
    }
  }

  /** Under the root the sliced name lacks its first byte. It sorts after every lock node, the own one
      among them, so whatever else the root holds it is never first. */
  lemma RootNeverHolds(nodes: Nodes, n: nat, listing: seq<Str>)
    requires SortedListing(listing, ChildNames(nodes, [])) && Node(ROOT, n) in nodes && n < SEQUENCE_LIMIT
    ensures |ROOT| + 1 <= |NodePath(ROOT, n)| && Position(listing, NodePath(ROOT, n)[|ROOT| + 1..]) != 0
  {
    var own, cut := LockName(n), Sliced(true, LockName(n));
    SlicedName(ROOT, n);
    assert own in ChildNames(nodes, []) by {
      ChildIsNode(nodes, [], own);
      assert Node(ROOT, n) == [] + [own];
    }
    assert LockNode(own, n);
    CutNameIsLast(n, own, n);
    if Position(listing, cut) == 0 {
      FirstOfAll(listing, ChildNames(nodes, []), cut);
    }
  }

  // ---------- re-entrancy ----------

  const MAX_INT32 := 0x7FFF_FFFF

  function WrapInt32(n: int): int {
    if n > MAX_INT32 then n - 0x1_0000_0000 else n
  }

  /** What the server answered to an attempt: the lock, a place in the queue, or an error. */
  datatype Answer = Granted | Refused | Failed

  /** A call on one mutex, with what the world answered to it and the node an attempt made. */
  datatype Call = Acquire(answer: Answer, node: Path) | Release(deleted: bool)

  /** How a call changes the count of an owner. */
  function NextCount(count: int, call: Call): int {
    match call
    case Acquire(answer, _) => if count > 0 then WrapInt32(count + 1) else if answer.Granted? then 1 else count
    case Release(_) => if count > 0 then count - 1 else count
  }

  /** What can be counted about a call: it reported success, it left a node in the queue, its delete
      failed after the count went down, it drove the count over the top, it began anew from below. */
  datatype Event = Acquired | Released | LeftBehind | Lost | Wrapped | Restarted

  predicate Happens(count: int, call: Call, e: Event) {
    match e
    case Acquired => call.Acquire? && (count > 0 || call.answer.Granted?)
    case Released => call.Release? && (count > 1 || (count == 1 && call.deleted))
    case LeftBehind => call.Acquire? && call.answer.Refused? && count <= 0
    case Lost => call == Release(false) && count == 1
    case Wrapped => call.Acquire? && count == MAX_INT32
    case Restarted => call.Acquire? && call.answer.Granted? && count < 0
  }

  datatype MutexError = NotOwner | Server(error: Error)

  /** A child of the base path that no other child sorts before. */
  ghost predicate First(nodes: Nodes, base: Str, node: Path) {
    && node != [] && Parent(node) == Components(base) && node in nodes
    && forall x :: x in ChildNames(nodes, Components(base)) ==> !Less(Key(x), Key(node[|node| - 1]))
  }

  lemma HeldIsFirst(nodes: Nodes, base: Str, n: nat, listing: seq<Str>)
    requires ValidPath(base) && Node(base, n) in nodes && n < SEQUENCE_LIMIT && |base| + 1 <= |NodePath(base, n)|
    requires SortedListing(listing, ChildNames(nodes, Components(base)))
    requires Position(listing, NodePath(base, n)[|base| + 1..]) == 0
    ensures base != ROOT && First(nodes, base, Node(base, n))
  {
    if base == ROOT {
      RootNeverHolds(nodes, n, listing);
    } else {
      SlicedName(base, n);
      FirstOfAll(listing, ChildNames(nodes, Components(base)), LockName(n));
      assert Parent(Node(base, n)) == Components(base);
    }
  }

  function AnswerOf(r: Result<bool, Error>): Answer {
    if r.Err? then Failed else if r.value then Granted else Refused
  }

  /** The nodes of a mutex: the one it holds, those refused attempts left in the queue, and those its count
      let go of without a delete. */
  datatype MutexNodes = MutexNodes(held: set<Path>, left: set<Path>, lost: set<Path>) {
    function All(): set<Path> {
      held + left + lost
    }
  }

  function NextNodes(m: MutexNodes, count: int, call: Call): MutexNodes {
    match call
    case Acquire(answer, node) =>
      if count >= MAX_INT32 then MutexNodes({}, m.left, m.lost + m.held)
      else if count > 0 then m
      else if answer.Granted? then m.(held := {node})
      else if answer.Refused? then m.(left := m.left + {node})
      else m
    case Release(deleted) =>
      if count != 1 then m
      else if deleted then m.(held := {})
      else MutexNodes({}, m.left, m.lost + m.held)
  }

  class InterProcessMutex {
    const base: Str
    const conn: Conn
    var lockPath: Str
    var lockCount: int
    ghost var history: seq<Call>
    ghost var mine: MutexNodes

    /** Count and nodes are what the history of calls says, every attempt made a new node, and the session
        still owns every node the mutex made and did not delete. */
    ghost predicate Valid()
      reads this, conn
    {
      && conn.Valid() && ValidPath(base) && Kept(history)
      && lockCount == Count(history) && mine == NodesAfter(history) && mine.All() <= conn.owned
      && (lockCount > 0 ==> ValidPath(lockPath) && lockPath != ROOT && mine.held == {Components(lockPath)})
    }

    constructor (conn: Conn, base: Str)
      requires conn.Valid() && ValidPath(base)
      ensures Valid() && this.conn == conn && this.base == base && lockCount == 0 && history == []
    {
      this.conn, this.base := conn, base;
      lockPath, lockCount, history, mine := [], 0, [], MutexNodes({}, {}, {});
    }

    method InternalLock(data: Str, started: nat, allows: nat -> bool) returns (r: Result<bool, Error>, ghost call: Call)
      requires Valid()
      modifies this, conn
      ensures Valid() && history == old(history) + [call] && call.Acquire? && call.answer == AnswerOf(r)
      ensures lockCount == NextCount(old(lockCount), call) && (r == Ok(true) <==> Happens(old(lockCount), call, Acquired))
      ensures conn.owned - mine.All() == old(conn.owned - mine.All())
      ensures old(lockCount) > 0 ==> r == Ok(true) && lockPath == old(lockPath) && unchanged(conn)
      ensures old(lockCount) <= 0 && r == Ok(true) ==>
                Components(lockPath) !in old(conn.owned) && First(conn.store.nodes, base, Components(lockPath))
      ensures old(lockCount) <= 0 && base == ROOT ==> r != Ok(true)
      ensures CreatesOnly(old(conn.turns)) && r.Err? ==> LockRefused(r.error, conn.store, base, old(conn.turns))
      ensures old(lockCount) <= 0 && old(conn.turns) == [] ==>
                Undisturbed(ErrorOf(r), r == Ok(true), conn.store, base, call.node, started)
    {
      if lockCount > 0 {
        call := Acquire(Granted, []);
        Note(call);
        lockCount := WrapInt32(lockCount + 1);
        return Ok(true), call;
      }
      r, call := FirstLock(data, started, allows);
    }

    method FirstLock(data: Str, started: nat, allows: nat -> bool) returns (r: Result<bool, Error>, ghost call: Call)
      requires Valid() && lockCount <= 0
      modifies this, conn
      ensures Valid() && history == old(history) + [call] && call.Acquire? && call.answer == AnswerOf(r)
      ensures lockCount == NextCount(old(lockCount), call)
      ensures conn.owned - mine.All() == old(conn.owned - mine.All())
      ensures old(conn.turns) == [] ==> Undisturbed(ErrorOf(r), r == Ok(true), conn.store, base, call.node, started)
      ensures CreatesOnly(old(conn.turns)) && r.Err? ==> LockRefused(r.error, conn.store, base, old(conn.turns))
      ensures r == Ok(true) ==>
                && base != ROOT && Components(lockPath) !in old(conn.owned)
                && First(conn.store.nodes, base, Components(lockPath))
    {
      ghost var node;
      var attempt;
      attempt, node := AttemptFirst(conn, base, data, started, allows);
      OneMoreOwned(old(conn.owned), mine.All(), node);
      r, call := Settle(attempt, node);
    }

    /** What becomes of the answer to an attempt. */
    method Settle(attempt: Result<Str, Error>, ghost node: Path) returns (r: Result<bool, Error>, ghost call: Call)
      requires conn.Valid() && ValidPath(base) && Kept(history) && lockCount == Count(history) <= 0 && mine == NodesAfter(history)
      requires mine.All() <= conn.owned && (attempt.Ok? ==> node in conn.owned && node !in mine.All())
      requires attempt.Ok? && attempt.value != [] ==> ValidPath(attempt.value) && attempt.value != ROOT && Components(attempt.value) == node
      modifies this
      ensures Valid() && history == old(history) + [call] && call.Acquire? && call.answer == AnswerOf(r)
      ensures r == if attempt.Err? then Err(attempt.error) else Ok(attempt.value != [])
      ensures lockCount == NextCount(old(lockCount), call) && (r == Ok(true) ==> lockPath == attempt.value)
      ensures call.node == node && mine.All() == old(mine.All()) + if attempt.Ok? then {node} else {}
    {
      if attempt.Err? {
        call := Acquire(Failed, node);
        Note(call);
        return Err(attempt.error), call;
      }
      if |attempt.value| > 0 {
        call := Acquire(Granted, node);
        Obtain(attempt.value, node);
        return Ok(true), call;
      }
      call := Acquire(Refused, node);
      LeaveBehind(node);
      r := Ok(false);
    }

    /** A refused attempt leaves its node in the queue. */
    ghost method LeaveBehind(node: Path)
      requires conn.Valid() && ValidPath(base) && Kept(history) && lockCount == Count(history) <= 0 && mine == NodesAfter(history)
      requires node in conn.owned && node !in mine.All() && mine.All() <= conn.owned
      modifies this`history, this`mine
      ensures Valid() && history == old(history) + [Acquire(Refused, node)] && mine.All() == old(mine.All()) + {node}
    {
      Note(Acquire(Refused, node));
    }

    method Obtain(path: Str, ghost node: Path)
      requires conn.Valid() && ValidPath(base) && Kept(history) && lockCount == Count(history) <= 0 && mine == NodesAfter(history)
      requires ValidPath(path) && path != ROOT && Components(path) == node && node in conn.owned && node !in mine.All() && mine.All() <= conn.owned
      modifies this
      ensures Valid() && history == old(history) + [Acquire(Granted, node)] && lockPath == path
      ensures lockCount == 1 && mine.All() == old(mine.All()) + {node}
    {
      Note(Acquire(Granted, node));
      lockPath := path;
      lockCount := 1;
    }

    method Release() returns (err: Option<MutexError>)
      requires Valid()
      modifies this, conn
      ensures Valid() && lockPath == old(lockPath) && history == old(history) + [Call.Release(err == None)]
      ensures lockCount == NextCount(old(lockCount), Call.Release(err == None))
      ensures err == None <==> Happens(old(lockCount), Call.Release(err == None), Released)
      ensures conn.owned - mine.All() == old(conn.owned - mine.All())
      ensures old(lockCount) != 1 ==> unchanged(conn)
      ensures old(lockCount) == 1 ==> (err == None <==> Components(lockPath) !in conn.store.nodes)
      ensures err == Some(NotOwner) <==> old(lockCount) <= 0
      ensures err.Some? && err.value.Server? ==> DeleteFailed(err.value.error, conn.store.nodes, lockPath, old(conn.turns))
      ensures old(lockCount) == 1 && old(conn.turns) == [] ==>
                (err == None <==> ChildNames(old(conn.store.nodes), Components(lockPath)) == {})
    {
      if !(lockCount > 0) {
        Note(Call.Release(false));
        return Some(NotOwner);
      }
      lockCount := lockCount - 1;
      if lockCount > 0 {
        Note(Call.Release(true));
        return None;
      }
      var e := DeleteOurPath(conn, lockPath);
      err := if e == None then None else Some(Server(e.value));
      Note(Call.Release(err == None));
    }

    /** Enter a call in the history. */
    ghost method Note(call: Call)
      requires Kept(history) && mine == NodesAfter(history)
      requires MakesNode(Count(history), call) ==> call.node !in mine.All()
      modifies this`history, this`mine
      ensures history == old(history) + [call] && Kept(history) && mine == NodesAfter(history)
      ensures Count(history) == NextCount(Count(old(history)), call)
      ensures mine.All() == AllAfter(old(mine), Count(old(history)), call)
      ensures Count(history) > 0 ==> mine.held == if MakesNode(Count(old(history)), call) then {call.node} else old(mine.held)
    {
      OneMoreCall(history, call);
      NodesApart(history);
      Balance(history);
      NodesMove(mine, Count(history), call);
      if NextCount(Count(history), call) > 0 {
        NodesHeld(mine, Count(history), call);
      }
      mine := NextNodes(mine, Count(history), call);
      history := history + [call];
    }
  }

  lemma OneMoreOwned(owned: set<Path>, all: set<Path>, node: Path)
    ensures node !in owned ==> (owned + {node}) - (all + {node}) == owned - all
    ensures all + {} == all
  {
  }

  /** How an undisturbed first acquire ends: refused only for a taken name or an exhausted counter, and
      otherwise granted exactly when, however the children are numbered, none is before the new node. */
  ghost predicate Undisturbed(err: Option<Error>, granted: bool, s: Store, base: Str, node: Path, started: nat) {
    if err.Some? then LockRefused(err.value, s, base, [])
    else node != [] && (started > 0 && base != ROOT ==>
           AnswersRank(granted, ChildNames(s.nodes, Components(base)), node[|node| - 1], 1))
  }

  /** One attempt for the only lease: the node it made, and the node's path if it got the lock. */
  method AttemptFirst(conn: Conn, base: Str, data: Str, started: nat, allows: nat -> bool)
    returns (r: Result<Str, Error>, ghost node: Path)
    requires conn.Valid() && ValidPath(base)
    modifies conn
    ensures conn.Valid()
    ensures r.Err? ==> conn.owned == old(conn.owned)
    ensures r.Ok? ==> node !in old(conn.owned) && conn.owned == old(conn.owned) + {node}
    ensures r.Ok? && r.value != [] ==>
              && base != ROOT && ValidPath(r.value) && r.value != ROOT && Components(r.value) == node
              && First(conn.store.nodes, base, node)
    ensures old(conn.turns) == [] ==> Undisturbed(ErrorOf(r), r.Ok? && r.value != [], conn.store, base, node, started)
    ensures CreatesOnly(old(conn.turns)) && r.Err? ==> LockRefused(r.error, conn.store, base, old(conn.turns))
  {
    ghost var n, listing;
    r, n, listing := AttemptLock(conn, base, data, 1, started, allows);
    node := Node(base, n);
    if r.Ok? && r.value != [] {
      NodePathComponents(base, n);
      HeldIsFirst(conn.store.nodes, base, n, listing);
    }
  }

  /** Deleting a node that is already gone is no error; a failure that is one to retry is retried. Any other
      failure is true: somebody put a node below, or a call failed on its way. */
  method DeleteOurPath(conn: Conn, path: Str) returns (err: Option<Error>)
    requires conn.Valid() && ValidPath(path)
    modifies conn
    ensures conn.Valid() && (err.Some? ==> !Retry.ShouldRetry(err.value))
    ensures err == None ==> Components(path) !in conn.store.nodes && conn.owned == old(conn.owned) - {Components(path)}
    ensures err != None ==> conn.owned == old(conn.owned)
    ensures err.Some? ==> DeleteFailed(err.value, conn.store.nodes, path, old(conn.turns))
    ensures old(conn.turns) == [] && path != ROOT ==> (err == None <==> ChildNames(old(conn.store.nodes), Components(path)) == {})
  {
    if Components(path) !in conn.store.nodes {
      NoChildrenOfNothing(conn.store.nodes, Components(path));
    }
    PathIsItsComponents(path);
    while true
      invariant conn.Valid() && conn.owned == old(conn.owned)
      invariant NoFaults(old(conn.turns)) ==> NoFaults(conn.turns)
      invariant old(conn.turns) == [] ==> conn.turns == [] && conn.store.nodes == old(conn.store.nodes)
      decreases |conn.turns|
    {
      ghost var found;
      err, found := conn.Delete(path, ANY_VERSION);
      if err == Some(NoNode) {
        return None;
      }
      if err == None || !Retry.ShouldRetry(err.value) {
        return;
      }
    }
  }

  lemma NoChildrenOfNothing(nodes: Nodes, p: Path)
    requires WellFormed(nodes) && p !in nodes
    ensures ChildNames(nodes, p) == {}
  {
    forall name
      ensures name !in ChildNames(nodes, p)
    {
      ChildIsNode(nodes, p, name);
      assert Parent(p + [name]) == p;
    }
  }

  /** Why a delete of a node fails: it has children, it is the root, or a call failed on its way. */
  ghost predicate DeleteFailed(e: Error, nodes: Nodes, path: Str, turns: seq<Turn>) {
    match e
    case NotEmpty => ChildNames(nodes, Components(path)) != {}
    case BadArguments => path == ROOT
    case _ => e.Fault? && !NoFaults(turns)
  }

  // ---------- whole call sequences ----------

  function Count(calls: seq<Call>): int {
    if calls == [] then 0 else NextCount(Count(calls[..|calls| - 1]), calls[|calls| - 1])
  }

  /** How often something happened over a sequence of calls. */
  function Tally(calls: seq<Call>, e: Event): nat {
    if calls == [] then 0
    else
      var init, last := calls[..|calls| - 1], calls[|calls| - 1];
      Tally(init, e) + if Happens(Count(init), last, e) then 1 else 0
  }

  /** The nodes of a mutex after a sequence of calls. */
  function NodesAfter(calls: seq<Call>): MutexNodes {
    if calls == [] then MutexNodes({}, {}, {})
    else
      var init, last := calls[..|calls| - 1], calls[|calls| - 1];
      NextNodes(NodesAfter(init), Count(init), last)
  }

  predicate MakesNode(count: int, call: Call) {
    call.Acquire? && count <= 0 && !call.answer.Failed?
  }

  /** Every attempt that made a node made one the mutex did not have. */
  ghost predicate Kept(calls: seq<Call>) {
    forall k :: 0 <= k < |calls| && MakesNode(Count(calls[..k]), calls[k]) ==> calls[k].node !in NodesAfter(calls[..k]).All()
  }

  lemma OneMoreCall(calls: seq<Call>, call: Call)
    ensures Count(calls + [call]) == NextCount(Count(calls), call)
    ensures NodesAfter(calls + [call]) == NextNodes(NodesAfter(calls), Count(calls), call)
    ensures Kept(calls) && (MakesNode(Count(calls), call) ==> call.node !in NodesAfter(calls).All()) ==> Kept(calls + [call])
  {
    var more := calls + [call];
    assert forall k :: 0 <= k <= |calls| ==> more[..k] == calls[..k];
    assert calls[..|calls|] == calls;
  }

  /** Nothing is held, left behind and lost at once, and a node is held exactly while the count is positive. */
  ghost predicate Apart(m: MutexNodes, count: int) {
    m.held !! m.left && m.held !! m.lost && m.left !! m.lost && |m.held| == if count > 0 then 1 else 0
  }

  /** The only ways into and out of a mutex's nodes: an attempt that makes one, a last release that deletes
      one. */
  function AllAfter(m: MutexNodes, count: int, call: Call): set<Path> {
    if MakesNode(count, call) then m.All() + {call.node}
    else if call == Call.Release(true) && count == 1 then m.All() - m.held
    else m.All()
  }

  function One(b: bool): nat {
    if b then 1 else 0
  }

  /** The nodes are in order, and a call that makes a node makes a new one. */
  ghost predicate MayCall(m: MutexNodes, count: int, call: Call) {
    Apart(m, count) && count <= MAX_INT32 && (MakesNode(count, call) ==> call.node !in m.All())
  }

  lemma NodesStayApart(m: MutexNodes, count: int, call: Call)
    requires MayCall(m, count, call)
    ensures Apart(NextNodes(m, count, call), NextCount(count, call))
  {
  }

  lemma NodesMove(m: MutexNodes, count: int, call: Call)
    requires MayCall(m, count, call)
    ensures NextNodes(m, count, call).All() == AllAfter(m, count, call)
  {
    assert count <= 0 ==> m.held == {};
    forall p
      ensures p in NextNodes(m, count, call).All() <==> p in AllAfter(m, count, call)
    {
    }
  }

  lemma NodesHeld(m: MutexNodes, count: int, call: Call)
    requires MayCall(m, count, call) && NextCount(count, call) > 0
    ensures NextNodes(m, count, call).held == if MakesNode(count, call) then {call.node} else m.held
  {
  }

  lemma NodesGrow(m: MutexNodes, count: int, call: Call)
    requires MayCall(m, count, call)
    ensures var m' := NextNodes(m, count, call);
            && |m'.left| == |m.left| + One(Happens(count, call, LeftBehind))
            && |m'.lost| == |m.lost| + One(Happens(count, call, Lost)) + One(Happens(count, call, Wrapped))
  {
    assert |m.lost + m.held| == |m.lost| + |m.held|;
  }

  lemma {:induction false} NodesApart(calls: seq<Call>)
    requires Kept(calls)
    ensures Apart(NodesAfter(calls), Count(calls))
  {
    if calls != [] {
      var init := calls[..|calls| - 1];
      KeptBefore(calls);
      NodesApart(init);
      Balance(init);
      NodesStayApart(NodesAfter(init), Count(init), calls[|calls| - 1]);
    }
  }

  lemma KeptBefore(calls: seq<Call>)
    requires Kept(calls) && calls != []
    ensures var init := calls[..|calls| - 1];
            Kept(init) && (MakesNode(Count(init), calls[|calls| - 1]) ==> calls[|calls| - 1].node !in NodesAfter(init).All())
  {
    var init := calls[..|calls| - 1];
    assert forall k :: 0 <= k <= |init| ==> init[..k] == calls[..k];
  }

  /** Conservation: one node left behind for every refused attempt, and one lost for every last release
      whose delete failed and every acquire that went over the top. */
  lemma {:induction false} NodesCounted(calls: seq<Call>)
    requires Kept(calls)
    ensures |NodesAfter(calls).left| == Tally(calls, LeftBehind)
    ensures |NodesAfter(calls).lost| == Tally(calls, Lost) + Tally(calls, Wrapped)
  {
    if calls != [] {
      var init := calls[..|calls| - 1];
      KeptBefore(calls);
      NodesApart(init);
      NodesCounted(init);
      Balance(init);
      NodesGrow(NodesAfter(init), Count(init), calls[|calls| - 1]);
    } else {
      assert |NodesAfter(calls).left| == 0;
    }
  }

  /** For every call sequence: the count is the balance of successful calls less one for every last release
      whose delete failed, as long as no acquire went over the top of 32 bits; so it is the plain balance
      iff neither happened. */
  lemma {:induction false} Balance(calls: seq<Call>)
    ensures var wrapped, restarted := Tally(calls, Wrapped), Tally(calls, Restarted);
            && (if Count(calls) < 0 then Count(calls) == -0x8000_0000 && wrapped == restarted + 1
                else Count(calls) <= MAX_INT32 && wrapped == restarted)
            && Count(calls) == Tally(calls, Acquired) - Tally(calls, Released) - Tally(calls, Lost)
                               - 0x1_0000_0000 * wrapped + 0x8000_0000 * restarted
    ensures Count(calls) == Tally(calls, Acquired) - Tally(calls, Released) <==>
            Tally(calls, Lost) == 0 && Tally(calls, Wrapped) == 0
  {
    if calls != [] {
      Balance(calls[..|calls| - 1]);
    }
  }

  /** The count never goes negative iff no acquire is made at the top of 32 bits. */
  lemma {:induction false} NeverNegative(calls: seq<Call>)
    ensures (forall k :: 0 <= k <= |calls| ==> Count(calls[..k]) >= 0) <==> Tally(calls, Wrapped) == 0
  {
    assert calls[..|calls|] == calls;
    Balance(calls);
    if calls != [] {
      var init := calls[..|calls| - 1];
      NeverNegative(init);
      assert forall k :: 0 <= k <= |init| ==> calls[..k] == init[..k];
    }
  }

  /** One failed delete is enough to lose the balance. */
  lemma LostBalance(node: Path)
    ensures var calls := [Acquire(Granted, node), Release(false)];
            Count(calls) == 0 && Tally(calls, Acquired) - Tally(calls, Released) == 1
  {
    var one, calls := [Acquire(Granted, node)], [Acquire(Granted, node), Release(false)];
    assert one[..0] == [] && calls[..1] == one;
    assert Count(one) == 1 && Tally(one, Acquired) == 1 && Tally(one, Released) == 0;
  }
}
