/** The two procedures that change whole branches of the tree, and the create and delete calls
    that fall back on them. */
module TreeOps {
  import opened Wrappers
  import opened GoStrings
  import opened Paths
  import opened LockDriver
  import opened Zk
  import opened Connection
  import Retry

  // ---------- making parents ----------

  /** The first `k` prefixes of a path, the root left out. */
  ghost function Prefixes(cs: Path, k: nat): set<Path>
    requires k <= |cs|
  {
    set i | 1 <= i <= k :: cs[..i]
  }

  /** `b` is `a` with exactly `others` and `made` added; what nobody else made is empty and new. */
  ghost predicate Made(a: Nodes, b: Nodes, others: set<Path>, made: set<Path>) {
    && Grew(a, b, others + made)
    && forall p :: p in made && p !in a && p !in others ==> b[p] == ZNode([], 0)
  }

  /** Nothing went wrong but calls that failed on the way, and none at all without faults. */
  ghost predicate OnlyFaults(err: Option<Error>, turns: seq<Turn>) {
    err == None || (err.value.Fault? && !NoFaults(turns))
  }

  /** A call that fails on the way uses up its turn. */
  ghost predicate FaultsUsed(err: Option<Error>, before: seq<Turn>, after: seq<Turn>) {
    && |after| <= |before| && (NoFaults(before) ==> NoFaults(after))
    && (err.Some? && err.value.Fault? ==> |after| < |before| && !NoFaults(before))
  }

  function Offset(cs: Path, k: nat): nat
    requires k <= |cs|
  {
    |Render(cs[..k])|
  }

  lemma RenderStep(cs: Path, k: nat)
    requires k < |cs|
    ensures Render(cs[..k + 1]) == Render(cs[..k]) + [SLASH] + cs[k]
  {
    assert cs[..k + 1] == cs[..k] + [cs[k]];
    RenderSnoc(cs[..k], cs[k]);
  }

  lemma RenderAround(cs: Path, k: nat)
    requires k < |cs|
    ensures Render(cs) == Render(cs[..k + 1]) + Render(cs[k + 1..])
  {
    calc {
      Render(cs);
      { assert cs == cs[..k + 1] + cs[k + 1..]; }
      Render(cs[..k + 1] + cs[k + 1..]);
      { RenderAppend(cs[..k + 1], cs[k + 1..]); }
      Render(cs[..k + 1]) + Render(cs[k + 1..]);
    }
  }

  /** From inside the `k`-th name the next slash is the one that ends it. */
  lemma NextSlash(cs: Path, k: nat, q: nat)
    requires ValidNames(cs) && k < |cs| && Offset(cs, k) < q <= Offset(cs, k + 1)
    ensures Offset(cs, k + 1) <= |Render(cs)|
    ensures Index(Render(cs)[q..], SLASH) == if k + 1 < |cs| then Offset(cs, k + 1) - q else -1
    ensures Render(cs)[..Offset(cs, k + 1)] == Render(cs[..k + 1])
    ensures k + 1 == |cs| ==> Offset(cs, k + 1) == |Render(cs)|
  {
    var front, name, tail := Render(cs[..k]), cs[k], Render(cs[k + 1..]);
    var at := |front| + 1 + |name|;
    assert Render(cs) == front + [SLASH] + name + tail && Render(cs[..k + 1]) == front + [SLASH] + name by {
      RenderAround(cs, k);
      RenderStep(cs, k);
    }
    assert ValidName(name);
    assert k + 1 < |cs| ==> tail[0] == SLASH;
    assert k + 1 == |cs| ==> tail == [] by {
      assert k + 1 == |cs| ==> cs[k + 1..] == [];
    }
    SlashAfterName(front, name, tail, q);
  }

  lemma SlashAfterName(front: Str, name: Str, tail: Str, q: nat)
    requires SLASH !in name && |front| < q <= |front| + 1 + |name| && (tail != [] ==> tail[0] == SLASH)
    ensures Index((front + [SLASH] + name + tail)[q..], SLASH) == if tail == [] then -1 else |front| + 1 + |name| - q
    ensures (front + [SLASH] + name + tail)[..|front| + 1 + |name|] == front + [SLASH] + name
  {
    var path, at := front + [SLASH] + name + tail, |front| + 1 + |name|;
    var rest := path[q..];
    assert forall i :: 0 <= i < at - q ==> rest[i] == name[q + i - |front| - 1];
    assert tail != [] ==> rest[at - q] == SLASH;
  }

  /** One more prefix on top of the first `k`. */
  lemma MadeOneMore(a: Nodes, b: Nodes, c: Nodes, o: set<Path>, o': set<Path>, cs: Path, k: nat, ok: bool)
    requires k < |cs| && Made(a, b, o, Prefixes(cs, k)) && Made(b, c, o', if ok then {cs[..k + 1]} else {})
    ensures Made(a, c, o + o', Prefixes(cs, if ok then k + 1 else k))
  {
  }

  lemma PrefixExists(a: Nodes, b: Nodes, o: set<Path>, cs: Path, k: nat)
    requires k < |cs| && [] in a && Made(a, b, o, Prefixes(cs, k))
    ensures Parent(cs[..k + 1]) in b
  {
    assert Parent(cs[..k + 1]) == cs[..k];
    assert k > 0 ==> cs[..k] in Prefixes(cs, k);
  }

  /** One round of the loop below: create the node unless it exists or appears meanwhile. */
  method MakeOne(conn: Conn, path: Str) returns (err: Option<Error>)
    requires conn.Valid() && ValidPath(path) && path != ROOT
    modifies conn`store, conn`turns, conn`added
    ensures old(conn.turns) == [] ==> conn.added == old(conn.added)
    ensures conn.Valid()
    ensures old(conn.added) <= conn.added
    ensures CreatesOnly(old(conn.turns)) ==>
              && CreatesOnly(conn.turns)
              && Made(old(conn.store.nodes), conn.store.nodes, conn.Others(|old(conn.added)|),
                      if err == None then {Components(path)} else {})
    ensures FaultsUsed(err, old(conn.turns), conn.turns)
    ensures CreatesOnly(old(conn.turns)) && (Components(path) == [] || Parent(Components(path)) in old(conn.store.nodes)) ==>
              OnlyFaults(err, old(conn.turns))
  {
    ghost var a, n := conn.store.nodes, |conn.added|;
    var found := conn.Exists(path);
    ghost var b, added := conn.store.nodes, conn.added;
    if CreatesOnly(old(conn.turns)) {
      GrewIsMade(a, b, conn.Others(n), Components(path));
    }
    if found.Err? {
      return Some(found.error);
    }
    err := None;
    if !found.value {
      err := MakeMissing(conn, path);
      if CreatesOnly(old(conn.turns)) {
        LookThenMake(a, b, conn.store.nodes, n, added, conn.added, if err == None then {Components(path)} else {});
      }
    }
  }

  lemma GrewIsMade(a: Nodes, b: Nodes, others: set<Path>, p: Path)
    requires Grew(a, b, others)
    ensures Made(a, b, others, {}) && (p in b ==> Made(a, b, others, {p}))
  {
  }

  lemma LookThenMake(a: Nodes, b: Nodes, c: Nodes, n: nat, y: seq<Path>, z: seq<Path>, made: set<Path>)
    requires n <= |y| && y <= z && Grew(a, b, Since(y, n)) && Made(b, c, Since(z, |y|), made)
    ensures Made(a, c, Since(z, n), made)
  {
    SinceSince(y, z, n);
  }

  method MakeMissing(conn: Conn, path: Str) returns (err: Option<Error>)
    requires conn.Valid() && ValidPath(path) && path != ROOT
    modifies conn`store, conn`turns, conn`added
    ensures old(conn.turns) == [] ==> conn.added == old(conn.added)
    ensures conn.Valid()
    ensures old(conn.added) <= conn.added
    ensures CreatesOnly(old(conn.turns)) ==>
              && CreatesOnly(conn.turns)
              && Made(old(conn.store.nodes), conn.store.nodes, conn.Others(|old(conn.added)|),
                      if err == None then {Components(path)} else {})
    ensures FaultsUsed(err, old(conn.turns), conn.turns)
    ensures CreatesOnly(old(conn.turns)) && (Components(path) == [] || Parent(Components(path)) in old(conn.store.nodes)) ==>
              OnlyFaults(err, old(conn.turns))
  {
    var created := conn.Create(path, []);
    err := if created.Err? && created.error != NodeExists then Some(created.error) else None;
  }

  /** Where the loop stands after `k` names. */
  function LoopPos(cs: Path, k: nat): nat
    requires k <= |cs|
  {
    if k == 0 then 1 else Offset(cs, k)
  }

  lemma NextPos(cs: Path, k: nat)
    requires ValidNames(cs) && k < |cs|
    ensures LoopPos(cs, k) < LoopPos(cs, k + 1) <= |Render(cs)|
    ensures Index(Render(cs)[LoopPos(cs, k) + 1..], SLASH)
            == if k + 1 < |cs| then LoopPos(cs, k + 1) - LoopPos(cs, k) - 1 else -1
    ensures Render(cs)[..LoopPos(cs, k + 1)] == Render(cs[..k + 1])
    ensures k + 1 == |cs| ==> LoopPos(cs, k + 1) == |Render(cs)|
    ensures k + 1 < |cs| ==> LoopPos(cs, k + 1) < |Render(cs)|
    ensures ValidPath(Render(cs[..k + 1])) && Components(Render(cs[..k + 1])) == cs[..k + 1]
  {
    RenderStep(cs, k);
    assert ValidName(cs[k]);
    NextSlash(cs, k, LoopPos(cs, k) + 1);
    ComponentsOfPathOf(cs[..k + 1]);
    if k + 1 < |cs| {
      RenderAround(cs, k);
      assert Render(cs[k + 1..])[0] == SLASH;
    }
  }

  /** The end of the next prefix, or nothing when only the last name remains and is not wanted. */
  method NextPrefix(path: Str, pos: nat, makeLastNode: bool, ghost cs: Path, ghost k: nat) returns (next: Option<nat>)
    requires ValidNames(cs) && k < |cs| && path == Render(cs) && pos == LoopPos(cs, k)
    ensures next == None <==> k + 1 == |cs| && !makeLastNode
    ensures next.Some? ==>
              && next.value == LoopPos(cs, k + 1) <= |path|
              && (next.value < |path| <==> k + 1 < |cs|)
              && ValidPath(path[..next.value]) && Components(path[..next.value]) == cs[..k + 1]
  {
    NextPos(cs, k);
    var idx := Index(path[pos + 1..], SLASH);
    if idx != -1 {
      return Some(pos + idx + 1);
    }
    next := if makeLastNode then Some(|path|) else None;
  }

  /** How many prefixes a call is asked to make. */
  function Wanted(path: Str, makeLastNode: bool): (n: nat)
    ensures n <= |Components(path)|
  {
    var n := |Components(path)|;
    if makeLastNode || n == 0 then n else n - 1
  }

  /** After `k` rounds begun under the schedule `start`: while others only create, the tree has grown by
      theirs and the first `k` prefixes. */
  ghost predicate Underway(start: seq<Turn>, turns: seq<Turn>, before: Nodes, nodes: Nodes, others: set<Path>, cs: Path, k: nat)
    requires k <= |cs|
  {
    CreatesOnly(start) ==> CreatesOnly(turns) && Made(before, nodes, others, Prefixes(cs, k))
  }

  method MakeNext(conn: Conn, path: Str, ghost start: seq<Turn>, ghost before: Nodes, ghost n: nat, ghost cs: Path, ghost k: nat)
    returns (err: Option<Error>)
    requires conn.Valid() && k < |cs| && ValidPath(path) && path != ROOT && Components(path) == cs[..k + 1]
    requires n <= |conn.added| && [] in before
    requires Underway(start, conn.turns, before, conn.store.nodes, conn.Others(n), cs, k)
    modifies conn`store, conn`turns, conn`added
    ensures old(conn.turns) == [] ==> conn.added == old(conn.added)
    ensures conn.Valid() && old(conn.added) <= conn.added
    ensures Underway(start, conn.turns, before, conn.store.nodes, conn.Others(n), cs, if err == None then k + 1 else k)
    ensures FaultsUsed(err, old(conn.turns), conn.turns)
    ensures CreatesOnly(start) ==> OnlyFaults(err, old(conn.turns))
  {
    ghost var nodes, added := conn.store.nodes, conn.added;
    if CreatesOnly(start) {
      PrefixExists(before, nodes, conn.Others(n), cs, k);
    }
    err := MakeOne(conn, path);
    if CreatesOnly(start) {
      SinceSince(added, conn.added, n);
      MadeOneMore(before, nodes, conn.store.nodes, Since(added, n), conn.Others(|added|), cs, k, err == None);
    }
  }

  /** On success the tree is the old tree, plus what other clients created meanwhile, plus every
      proper prefix of the path (and the path itself when asked); on failure, the first `made` of
      those prefixes. */
  method MakeDirs(conn: Conn, path: Str, makeLastNode: bool) returns (err: Option<Error>, ghost made: nat)
    requires conn.Valid()
    modifies conn`store, conn`turns, conn`added
    ensures old(conn.turns) == [] ==> conn.added == old(conn.added)
    ensures conn.Valid() && old(conn.added) <= conn.added
    ensures !ValidPath(path) ==>
              && err == Some(InvalidPath) && conn.store == old(conn.store)
              && conn.turns == old(conn.turns) && conn.added == old(conn.added)
    ensures ValidPath(path) ==> made <= Wanted(path, makeLastNode) && (err == None ==> made == Wanted(path, makeLastNode))
    ensures ValidPath(path) && CreatesOnly(old(conn.turns)) ==>
              && CreatesOnly(conn.turns)
              && Made(old(conn.store.nodes), conn.store.nodes, conn.Others(|old(conn.added)|), Prefixes(Components(path), made))
    ensures ValidPath(path) && CreatesOnly(old(conn.turns)) ==> OnlyFaults(err, old(conn.turns))
    ensures FaultsUsed(err, old(conn.turns), conn.turns)
  {
    made := 0;
    var valid := Accepts(path);
    if !valid {
      return Some(InvalidPath), 0;
    }
    ghost var start, before, n := conn.turns, conn.store.nodes, |conn.added|;
    assert conn.Others(n) == {} && Prefixes(Components(path), 0) == {};
    err, made := MakePrefixes(conn, path, makeLastNode, start, before, n);
  }

  /** The loop over the slashes. */
  method MakePrefixes(conn: Conn, path: Str, makeLastNode: bool, ghost start: seq<Turn>, ghost before: Nodes, ghost n: nat)
    returns (err: Option<Error>, ghost made: nat)
    requires conn.Valid() && ValidPath(path) && n <= |conn.added| && [] in before
    requires Underway(start, conn.turns, before, conn.store.nodes, conn.Others(n), Components(path), 0)
    modifies conn`store, conn`turns, conn`added
    ensures old(conn.turns) == [] ==> conn.added == old(conn.added)
    ensures conn.Valid() && old(conn.added) <= conn.added
    ensures made <= Wanted(path, makeLastNode) && (err == None ==> made == Wanted(path, makeLastNode))
    ensures Underway(start, conn.turns, before, conn.store.nodes, conn.Others(n), Components(path), made)
    ensures FaultsUsed(err, old(conn.turns), conn.turns)
    ensures CreatesOnly(start) ==> OnlyFaults(err, old(conn.turns))
  {
    made := 0;
    ghost var cs := Components(path);
    PathIsItsComponents(path);
    var pos := 1;
    while pos < |path|
      invariant conn.Valid() && old(conn.added) <= conn.added && |conn.turns| <= |old(conn.turns)|
      invariant old(conn.turns) == [] ==> conn.added == old(conn.added)
      invariant made <= Wanted(path, makeLastNode) && pos == LoopPos(cs, made)
      invariant made < |cs| <==> pos < |path|
      invariant Underway(start, conn.turns, before, conn.store.nodes, conn.Others(n), cs, made)
      invariant NoFaults(old(conn.turns)) ==> NoFaults(conn.turns)
      decreases |cs| - made
    {
      var next := NextPrefix(path, pos, makeLastNode, cs, made);
      if next == None {
        return None, made;
      }
      pos := next.value;
      var subPath := path[..pos];
      err := MakeNext(conn, subPath, start, before, n, cs, made);
      if err.Some? {
        return;
      }
      made := made + 1;
    }
    err := None;
  }

  /** Ensuring a path once: the first call makes it; every later one, through any view that shares
      the helper, does nothing and reports success, also when the first call failed. */
  class EnsurePathHelper {
    var started: bool

    constructor ()
      ensures !started
    {
      started := false;
    }

    method Ensure(conn: Conn, path: Str, makeLastNode: bool) returns (err: Option<Error>, ghost made: nat)
      requires conn.Valid()
      modifies this, conn`store, conn`turns, conn`added
      ensures conn.Valid() && old(conn.added) <= conn.added && started
      ensures old(started) ==> err == None && unchanged(conn)
      ensures !old(started) && err.Some? ==> !Retry.ShouldRetry(err.value)
      ensures !old(started) && !ValidPath(path) ==> err == Some(InvalidPath) && unchanged(conn)
      ensures !old(started) && ValidPath(path) ==> made <= |Components(path)| && (err == None ==> made == Wanted(path, makeLastNode))
      ensures !old(started) && ValidPath(path) && CreatesOnly(old(conn.turns)) ==>
                && Made(old(conn.store.nodes), conn.store.nodes, conn.Others(|old(conn.added)|), Prefixes(Components(path), made))
                && OnlyFaults(err, old(conn.turns))
    {
      made := 0;
      if started {
        return None, 0;
      }
      err, made := MakeDirsRetrying(conn, path, makeLastNode);
      started := true;
    }
  }

  /** A failure is forgotten: for every invalid path the first call reports it and the second success. */
  method EnsureTwice(conn: Conn, path: Str, makeLastNode: bool) returns (first: Option<Error>, second: Option<Error>)
    requires conn.Valid() && !ValidPath(path)
    modifies conn`store, conn`turns, conn`added
    ensures first == Some(InvalidPath) && second == None && unchanged(conn)
  {
    var helper := new EnsurePathHelper();
    ghost var made;
    first, made := helper.Ensure(conn, path, makeLastNode);
    second, made := helper.Ensure(conn, path, makeLastNode);
  }

  /** Making the parents again and again, as long as the failure is one to retry. */
  method MakeDirsRetrying(conn: Conn, path: Str, makeLastNode: bool) returns (err: Option<Error>, ghost made: nat)
    requires conn.Valid()
    modifies conn`store, conn`turns, conn`added
    ensures conn.Valid() && old(conn.added) <= conn.added
    ensures err.Some? ==> !Retry.ShouldRetry(err.value)
    ensures !ValidPath(path) ==> err == Some(InvalidPath) && unchanged(conn)
    ensures ValidPath(path) ==> made <= |Components(path)| && (err == None ==> made == Wanted(path, makeLastNode))
    ensures ValidPath(path) && CreatesOnly(old(conn.turns)) ==>
              && Made(old(conn.store.nodes), conn.store.nodes, conn.Others(|old(conn.added)|), Prefixes(Components(path), made))
              && OnlyFaults(err, old(conn.turns))
  {
    made := 0;
    ghost var before, n, cs := conn.store.nodes, |conn.added|, Components(path);
    assert Prefixes(cs, 0) == {} && conn.Others(n) == {};
    while true
      invariant conn.Valid() && old(conn.added) <= conn.added && made <= Wanted(path, makeLastNode)
      invariant !ValidPath(path) ==> conn.store == old(conn.store) && conn.turns == old(conn.turns) && conn.added == old(conn.added)
      invariant |conn.turns| <= |old(conn.turns)| && (NoFaults(old(conn.turns)) ==> conn.turns == old(conn.turns))
      invariant Underway(old(conn.turns), conn.turns, before, conn.store.nodes, conn.Others(n), cs, made)
      decreases |conn.turns|
    {
      ghost var nodes, added, again := conn.store.nodes, conn.added, made;
      err, again := MakeDirs(conn, path, makeLastNode);
      if ValidPath(path) && CreatesOnly(old(conn.turns)) {
        MadeAgain(before, nodes, conn.store.nodes, n, added, conn.added, cs, made, again);
      }
      made := if again > made then again else made;
      if err == None || !Retry.ShouldRetry(err.value) {
        return;
      }
    }
  }

  lemma PrefixesNest(cs: Path, k: nat, m: nat)
    requires k <= |cs| && m <= |cs|
    ensures Prefixes(cs, k) + Prefixes(cs, m) == Prefixes(cs, if m > k then m else k)
  {
  }

  lemma MadeUnion(a: Nodes, b: Nodes, c: Nodes, o: set<Path>, m: set<Path>, o': set<Path>, m': set<Path>)
    requires Made(a, b, o, m) && Made(b, c, o', m')
    ensures Made(a, c, o + o', m + m')
  {
  }

  lemma MadeAgain(a: Nodes, b: Nodes, c: Nodes, n: nat, y: seq<Path>, z: seq<Path>, cs: Path, k: nat, m: nat)
    requires k <= |cs| && m <= |cs| && n <= |y| && y <= z
    requires Made(a, b, Since(y, n), Prefixes(cs, k)) && Made(b, c, Since(z, |y|), Prefixes(cs, m))
    ensures Made(a, c, Since(z, n), Prefixes(cs, if m > k then m else k))
  {
    assert Since(z, n) == Since(y, n) + Since(z, |y|) by {
      SinceSince(y, z, n);
    }
    PrefixesNest(cs, k, m);
    MadeUnion(a, b, c, Since(y, n), Prefixes(cs, k), Since(z, |y|), Prefixes(cs, m));
  }

  // ---------- deleting a branch ----------

  /** `b` is `a` plus `others`, with nothing removed or changed except at or below `p`. */
  ghost predicate Pruned(a: Nodes, b: Nodes, others: set<Path>, p: Path) {
    && (forall q :: q in b ==> q in a || q in others)
    && (forall q :: (q in a || q in others) && !(p <= q) ==> q in b)
    && (forall q :: q in a && q in b && (q !in others || !(p <= q)) ==> b[q] == a[q])
  }

  /** Everything strictly below `p` was put there by others. */
  ghost predicate Emptied(nodes: Nodes, others: set<Path>, p: Path) {
    forall q :: q in nodes && p < q ==> q in others
  }

  /** A node that was there is there still, as it was. */
  ghost predicate Stays(a: Nodes, b: Nodes, p: Path) {
    p in a ==> p in b && b[p] == a[p]
  }

  /** Without faults all that can go wrong is that a node was gone already. */
  ghost predicate OnlyGone(err: Option<Error>, before: seq<Turn>, after: seq<Turn>) {
    NoFaults(before) ==> NoFaults(after) && (err == None || err == Some(NoNode))
  }

  /** The next call goes through, and by then the others have removed the node. */
  ghost predicate AbsentWhenListed(s: Store, turns: seq<Turn>, owned: set<Path>, path: Str) {
    NextFault(turns) == None && Components(path) !in After(s, turns, owned).nodes
  }

  /** The listing finds a node without children. */
  ghost predicate ListedChildless(s: Store, turns: seq<Turn>, owned: set<Path>, path: Str) {
    var p, s' := Components(path), After(s, turns, owned);
    NextFault(turns) == None && p in s'.nodes && ChildNames(s'.nodes, p) == {}
  }

  /** The listing finds a childless node, and by the time of the delete the others have removed it. */
  ghost predicate AbsentWhenDeleted(s: Store, turns: seq<Turn>, owned: set<Path>, path: Str) {
    ListedChildless(s, turns, owned, path) && AbsentWhenListed(After(s, turns, owned), Later(turns), owned, path)
  }

  ghost predicate Gone(nodes: Nodes, p: Path) {
    forall q :: q in nodes ==> !(p <= q)
  }

  ghost function Under(nodes: Nodes, p: Path): set<Path> {
    set q | q in nodes && p <= q
  }

  lemma PrunedTwice(a: Nodes, b: Nodes, c: Nodes, o: set<Path>, o': set<Path>, p: Path, p1: Path, p2: Path)
    requires Pruned(a, b, o, p1) && Pruned(b, c, o', p2) && p <= p1 && p <= p2
    ensures Pruned(a, c, o + o', p)
  {
  }

  lemma ChildrenDiffer(p: Path, x: Str, y: Str)
    requires p + [x] <= p + [y]
    ensures x == y
  {
    assert (p + [x])[|p|] == (p + [y])[|p|];
  }

  lemma FewerUnderChild(nodes: Nodes, later: Nodes, p: Path, name: Str)
    requires p in nodes && later.Keys <= nodes.Keys
    ensures |Under(later, p + [name])| < |Under(nodes, p)|
  {
    var small, big := Under(later, p + [name]), Under(nodes, p);
    assert p <= p + [name];
    assert p in big && p !in small && small <= big - {p};
    SubsetCard(small, big - {p});
  }

  method DeleteChildren(conn: Conn, path: Str, deleteSelf: bool) returns (err: Option<Error>)
    requires conn.Valid()
    modifies conn
    ensures conn.Valid() && old(conn.added) <= conn.added
    ensures !ValidPath(path) ==>
              && err == Some(InvalidPath) && conn.store == old(conn.store) && conn.owned == old(conn.owned)
              && conn.turns == old(conn.turns) && conn.added == old(conn.added)
    ensures ValidPath(path) ==> if old(conn.turns) == [] then conn.turns == [] else |conn.turns| < |old(conn.turns)|
    ensures old(conn.turns) == [] ==> conn.added == old(conn.added)
    // whatever others do, success means the node and all below it are gone
    ensures ValidPath(path) && deleteSelf && err == None ==> Gone(conn.store.nodes, Components(path))
    // while others only create, nothing outside the branch is touched
    ensures ValidPath(path) && CreatesOnly(old(conn.turns)) ==>
              && CreatesOnly(conn.turns)
              && Pruned(old(conn.store.nodes), conn.store.nodes, conn.Others(|old(conn.added)|), Components(path))
    ensures ValidPath(path) && CreatesOnly(old(conn.turns)) && !deleteSelf && err == None ==>
              && Components(path) in conn.store.nodes
              && Emptied(conn.store.nodes, conn.Others(|old(conn.added)|), Components(path))
    ensures ValidPath(path) && CreatesOnly(old(conn.turns)) && (err.Some? || !deleteSelf) ==>
              Stays(old(conn.store.nodes), conn.store.nodes, Components(path))
    // what can stop it: while others only create, a fault; in any case without faults, a node that was gone
    ensures ValidPath(path) && CreatesOnly(old(conn.turns)) && Components(path) in old(conn.store.nodes) && (deleteSelf ==> path != ROOT) ==>
              OnlyFaults(err, old(conn.turns))
    ensures NoFaults(old(conn.turns)) ==> NoFaults(conn.turns)
    ensures ValidPath(path) && (deleteSelf ==> path != ROOT) ==> OnlyGone(err, old(conn.turns), conn.turns)
    ensures ValidPath(path) && AbsentWhenListed(old(conn.store), old(conn.turns), old(conn.owned), path) ==> err == Some(NoNode)
    ensures ValidPath(path) && deleteSelf && AbsentWhenDeleted(old(conn.store), old(conn.turns), old(conn.owned), path) ==> err == None
    decreases |conn.turns|, |Under(conn.store.nodes, Components(path))|, 2
  {
    var valid := Accepts(path);
    if !valid {
      return Some(InvalidPath);
    }
    err := EmptyOut(conn, path);
    if err.Some? || !deleteSelf {
      return;
    }
    ghost var nodes, added := conn.store.nodes, conn.added;
    err := RemoveNode(conn, path);
    Combine(old(conn.store.nodes), nodes, conn.store.nodes, old(conn.added), added, conn.added, Components(path));
    if err == Some(NoNode) {
      return None;
    } else if err == Some(NotEmpty) {
      ghost var nodes', added' := conn.store.nodes, conn.added;
      err := DeleteChildren(conn, path, true);
      Combine(old(conn.store.nodes), nodes', conn.store.nodes, old(conn.added), added', conn.added, Components(path));
    }
  }

  lemma Combine(a: Nodes, b: Nodes, c: Nodes, x: seq<Path>, y: seq<Path>, z: seq<Path>, p: Path)
    requires x <= y <= z
    ensures Pruned(a, b, Since(y, |x|), p) && Pruned(b, c, Since(z, |y|), p) ==> Pruned(a, c, Since(z, |x|), p)
  {
  }

  /** Delete one node, whatever its version. */
  method RemoveNode(conn: Conn, path: Str) returns (err: Option<Error>)
    requires conn.Valid() && ValidPath(path)
    modifies conn
    ensures conn.Valid() && old(conn.added) <= conn.added
    ensures conn.turns == Later(old(conn.turns))
    ensures old(conn.turns) == [] ==> conn.added == old(conn.added)
    ensures err == None || err == Some(NoNode) ==> Gone(conn.store.nodes, Components(path))
    ensures err == Some(NotEmpty) ==> Components(path) in conn.store.nodes
    ensures CreatesOnly(old(conn.turns)) ==>
              && CreatesOnly(conn.turns)
              && Pruned(old(conn.store.nodes), conn.store.nodes, conn.Others(|old(conn.added)|), Components(path))
    ensures old(conn.turns) == [] && Emptied(old(conn.store.nodes), {}, Components(path)) ==> err != Some(NotEmpty)
    ensures CreatesOnly(old(conn.turns)) && err.Some? ==> Stays(old(conn.store.nodes), conn.store.nodes, Components(path))
    ensures NoFaults(old(conn.turns)) ==> NoFaults(conn.turns)
    ensures path != ROOT && err.Some? && err != Some(NoNode) && err != Some(NotEmpty) ==> OnlyFaults(err, old(conn.turns))
    ensures AbsentWhenListed(old(conn.store), old(conn.turns), old(conn.owned), path) ==> err == Some(NoNode)
    ensures CreatesOnly(old(conn.turns)) && Components(path) in old(conn.store.nodes) ==> err != Some(NoNode)
  {
    ghost var p, found := Components(path), conn.store.nodes;
    PathIsItsComponents(path);
    err, found := conn.Delete(path, ANY_VERSION);
    if err == None || err == Some(NoNode) {
      GoneAfter(found, p);
      assert found - {p} == found || p in found;
    }
    if err == Some(NotEmpty) {
      ghost var name :| name in ChildNames(found, p);
      ChildIsNode(found, p, name);
      assert p < p + [name];
    }
  }

  /** A childless or absent node has nothing below it. */
  lemma GoneAfter(nodes: Nodes, p: Path)
    requires WellFormed(nodes) && (p in nodes ==> ChildNames(nodes, p) == {})
    ensures Gone(nodes - {p}, p)
  {
    forall q | q in nodes && p <= q
      ensures q == p
    {
      if q != p {
        ChildOnTheWay(nodes, p, q);
      }
    }
  }

  /** List the children and delete each of them. */
  method EmptyOut(conn: Conn, path: Str) returns (err: Option<Error>)
    requires conn.Valid() && ValidPath(path)
    modifies conn
    ensures conn.Valid() && old(conn.added) <= conn.added
    ensures if old(conn.turns) == [] then conn.turns == [] else |conn.turns| < |old(conn.turns)|
    ensures old(conn.turns) == [] ==> conn.added == old(conn.added)
    ensures CreatesOnly(old(conn.turns)) ==>
              && CreatesOnly(conn.turns)
              && Pruned(old(conn.store.nodes), conn.store.nodes, conn.Others(|old(conn.added)|), Components(path))
              && (err == None ==>
                    && Components(path) in conn.store.nodes
                    && Emptied(conn.store.nodes, conn.Others(|old(conn.added)|), Components(path)))
    ensures CreatesOnly(old(conn.turns)) ==> Stays(old(conn.store.nodes), conn.store.nodes, Components(path))
    ensures CreatesOnly(old(conn.turns)) && Components(path) in old(conn.store.nodes) ==> OnlyFaults(err, old(conn.turns))
    ensures OnlyGone(err, old(conn.turns), conn.turns)
    ensures AbsentWhenListed(old(conn.store), old(conn.turns), old(conn.owned), path) ==> err == Some(NoNode)
    ensures ListedChildless(old(conn.store), old(conn.turns), old(conn.owned), path) ==>
              && err == None && conn.store == After(old(conn.store), old(conn.turns), old(conn.owned))
              && conn.turns == Later(old(conn.turns)) && conn.owned == old(conn.owned)
    decreases |conn.turns|, |Under(conn.store.nodes, Components(path))|, 1
  {
    var children := conn.Children(path);
    if children.Err? {
      return Some(children.error);
    }
    ghost var nodes, added := conn.store.nodes, conn.added;
    assert old(conn.turns) == [] ==> Under(conn.store.nodes, Components(path)) == Under(old(conn.store.nodes), Components(path));
    assert ChildNames(nodes, Components(path)) == {} ==> |multiset(children.value)| == 0;
    err := DeleteEach(conn, path, children.value);
    Combine(old(conn.store.nodes), nodes, conn.store.nodes, old(conn.added), added, conn.added, Components(path));
    SinceSince(added, conn.added, |old(conn.added)|);
  }

  /** The loop over the listed children. */
  method DeleteEach(conn: Conn, path: Str, children: seq<Str>) returns (err: Option<Error>)
    requires conn.Valid() && ValidPath(path) && Components(path) in conn.store.nodes
    requires multiset(children) == multiset(ChildNames(conn.store.nodes, Components(path)))
    modifies conn
    ensures conn.Valid() && old(conn.added) <= conn.added
    ensures |conn.turns| <= |old(conn.turns)|
    ensures old(conn.turns) == [] ==> conn.added == old(conn.added)
    ensures CreatesOnly(old(conn.turns)) ==>
              && CreatesOnly(conn.turns)
              && Pruned(old(conn.store.nodes), conn.store.nodes, conn.Others(|old(conn.added)|), Components(path))
              && Components(path) in conn.store.nodes
              && (err == None ==> Emptied(conn.store.nodes, conn.Others(|old(conn.added)|), Components(path)))
    ensures CreatesOnly(old(conn.turns)) ==>
              OnlyFaults(err, old(conn.turns)) && Stays(old(conn.store.nodes), conn.store.nodes, Components(path))
    ensures OnlyGone(err, old(conn.turns), conn.turns)
    ensures children == [] ==>
              err == None && conn.store == old(conn.store) && conn.turns == old(conn.turns) && conn.owned == old(conn.owned)
    decreases |conn.turns|, |Under(conn.store.nodes, Components(path))|, 0
  {
    ghost var p, start, n := Components(path), conn.store.nodes, |conn.added|;
    assert conn.Others(n) == {};
    ListedChildren(start, p, children);
    var i := 0;
    while i < |children|
      invariant i <= |children| && conn.Valid() && old(conn.added) <= conn.added
      invariant i == 0 ==> conn.turns == old(conn.turns) && conn.store == old(conn.store) && conn.added == old(conn.added) && conn.owned == old(conn.owned)
      invariant i > 0 ==> old(conn.turns) == [] || |conn.turns| < |old(conn.turns)|
      invariant old(conn.turns) == [] ==> conn.turns == [] && conn.added == old(conn.added)
      invariant CreatesOnly(old(conn.turns)) ==> CreatesOnly(conn.turns) && Clearing(start, conn.store.nodes, conn.Others(n), p, children, i)
      invariant NoFaults(old(conn.turns)) ==> NoFaults(conn.turns)
    {
      ghost var nodes, added := conn.store.nodes, conn.added;
      FewerUnderChild(start, if nodes.Keys <= start.Keys then nodes else start, p, children[i]);
      err := DeleteChild(conn, path, children[i]);
      if CreatesOnly(old(conn.turns)) {
        SinceSince(added, conn.added, n);
        ChildDone(start, nodes, conn.store.nodes, Since(added, n), conn.Others(|added|), p, children, i, err == None);
      }
      if err.Some? {
        return;
      }
      i := i + 1;
    }
    if CreatesOnly(old(conn.turns)) {
      AllDone(start, conn.store.nodes, conn.Others(n), p, children);
    }
    err := None;
  }

  /** Delete one child and all below it. */
  method DeleteChild(conn: Conn, path: Str, child: Str) returns (err: Option<Error>)
    requires conn.Valid() && ValidPath(path) && ValidName(child)
    modifies conn
    ensures conn.Valid() && old(conn.added) <= conn.added
    ensures if old(conn.turns) == [] then conn.turns == [] else |conn.turns| < |old(conn.turns)|
    ensures old(conn.turns) == [] ==> conn.added == old(conn.added)
    ensures err == None ==> Gone(conn.store.nodes, Components(path) + [child])
    ensures CreatesOnly(old(conn.turns)) ==>
              && CreatesOnly(conn.turns)
              && Pruned(old(conn.store.nodes), conn.store.nodes, conn.Others(|old(conn.added)|), Components(path) + [child])
              && (Components(path) + [child] in old(conn.store.nodes) ==> OnlyFaults(err, old(conn.turns)))
    ensures OnlyGone(err, old(conn.turns), conn.turns)
    decreases |conn.turns|, |Under(conn.store.nodes, Components(path) + [child])|, 3
  {
    JoinThenSplit(path, child);
    var childPath := JoinPath(path, [child]);
    err := DeleteChildren(conn, childPath, true);
  }

  /** The first `i` listed children are done, the others are still there, and so is their parent. */
  ghost predicate Clearing(a: Nodes, b: Nodes, others: set<Path>, p: Path, children: seq<Str>, i: nat)
    requires i <= |children|
  {
    && Pruned(a, b, others, p) && p in b && Stays(a, b, p)
    && DoneUpTo(b, others, p, children, i) && PendingFrom(b, p, children, i)
  }

  ghost predicate DoneUpTo(nodes: Nodes, others: set<Path>, p: Path, children: seq<Str>, i: nat)
    requires i <= |children|
  {
    forall j, q :: 0 <= j < i && q in nodes && p + [children[j]] <= q ==> q in others
  }

  ghost predicate PendingFrom(nodes: Nodes, p: Path, children: seq<Str>, i: nat)
    requires i <= |children|
  {
    forall j :: i <= j < |children| ==> p + [children[j]] in nodes
  }

  ghost predicate Distinct(children: seq<Str>) {
    forall i, j :: 0 <= i < j < |children| ==> children[i] != children[j]
  }

  lemma ListedChildren(nodes: Nodes, p: Path, children: seq<Str>)
    requires WellFormed(nodes) && multiset(children) == multiset(ChildNames(nodes, p))
    ensures Distinct(children) && PendingFrom(nodes, p, children, 0)
    ensures forall j :: 0 <= j < |children| ==> ValidName(children[j])
  {
    forall i, j | 0 <= i < j < |children|
      ensures children[i] != children[j]
    {
      NoRepeats(children, ChildNames(nodes, p), i, j);
    }
    forall j | 0 <= j < |children|
      ensures p + [children[j]] in nodes && ValidName(children[j])
    {
      assert children[j] in multiset(children);
      ChildIsNode(nodes, p, children[j]);
      assert (p + [children[j]])[|p|] == children[j];
    }
  }

  lemma ChildDone(a: Nodes, b: Nodes, c: Nodes, o: set<Path>, o': set<Path>, p: Path, children: seq<Str>, i: nat, ok: bool)
    requires i < |children| && Distinct(children)
    requires Clearing(a, b, o, p, children, i) && Pruned(b, c, o', p + [children[i]])
    requires ok ==> Gone(c, p + [children[i]])
    ensures Pruned(a, c, o + o', p) && p in c && Stays(a, c, p)
    ensures ok ==> Clearing(a, c, o + o', p, children, i + 1)
  {
    PrunedTwice(a, b, c, o, o', p, p, p + [children[i]]);
    forall j | i < j < |children|
      ensures p + [children[j]] in c
    {
      if p + [children[i]] <= p + [children[j]] {
        ChildrenDiffer(p, children[i], children[j]);
      }
    }
  }

  lemma AllDone(a: Nodes, b: Nodes, o: set<Path>, p: Path, children: seq<Str>)
    requires WellFormed(a) && multiset(children) == multiset(ChildNames(a, p))
    requires Clearing(a, b, o, p, children, |children|)
    ensures Emptied(b, o, p)
  {
    forall q | q in b && p < q
      ensures q in o
    {
      if q in a {
        ChildOnTheWay(a, p, q);
        assert q[|p|] in multiset(children);
        var j :| 0 <= j < |children| && children[j] == q[|p|];
        assert p + [children[j]] <= q;
      }
    }
  }

  // ---------- create and delete ----------

  /** The error of a result. */
  function ErrorOf<T>(r: Result<T, Error>): Option<Error> {
    if r.Ok? then None else Some(r.error)
  }

  /** A create that makes missing parents adds exactly the parents and the node; a failed one adds
      at most the first `made` parents. Every refusal is true of the tree, and undisturbed the call succeeds
      exactly when the node can be made. */
  method CreatePath(conn: Conn, path: Str, data: Str, createParents: bool) returns (r: Result<Str, Error>, ghost made: nat)
    requires conn.Valid()
    modifies conn`store, conn`turns, conn`added
    ensures conn.Valid() && old(conn.added) <= conn.added
    ensures r.Ok? ==>
              && ValidPath(path) && path != ROOT && r.value == path
              && Components(path) in conn.store.nodes && conn.store.nodes[Components(path)] == ZNode(data, 0)
    ensures r.Err? ==> !Retry.ShouldRetry(r.error) && (r.error.Fault? ==> !NoFaults(old(conn.turns)))
    ensures made <= |Components(path)| && (r.Err? && made > 0 ==> createParents && made < |Components(path)|)
    ensures CreatesOnly(old(conn.turns)) ==>
              && Grew(old(conn.store.nodes), conn.store.nodes, conn.Others(|old(conn.added)|) + Prefixes(Components(path), made))
              && (r.Ok? ==> made == |Components(path)| && Components(path) !in old(conn.store.nodes))
    ensures r.Err? && (CreatesOnly(old(conn.turns)) || !createParents) ==>
              CreateRefused(r.error, conn.store.nodes, path, createParents, old(conn.turns))
    ensures old(conn.turns) == [] ==> (r.Ok? <==> Creatable(old(conn.store.nodes), path, createParents))
  {
    made := 0;
    ghost var before, n, cs := conn.store.nodes, |conn.added|, Components(path);
    assert Prefixes(cs, 0) == {} && conn.Others(n) == {};
    while true
      invariant conn.Valid() && old(conn.added) <= conn.added
      invariant made <= |cs| && (made > 0 ==> createParents && made < |cs|)
      invariant |conn.turns| <= |old(conn.turns)| && (NoFaults(old(conn.turns)) ==> NoFaults(conn.turns))
      invariant old(conn.turns) == [] ==> conn.turns == [] && conn.store.nodes == before
      invariant CreatesOnly(old(conn.turns)) ==>
                  CreatesOnly(conn.turns) && Grew(before, conn.store.nodes, conn.Others(n) + Prefixes(cs, made))
      decreases |conn.turns|
    {
      ghost var nodes, added, more := conn.store.nodes, conn.added, 0;
      r, more := CreateOnce(conn, path, data, createParents);
      if CreatesOnly(old(conn.turns)) {
        GrewAgain(before, nodes, conn.store.nodes, n, added, conn.added, cs, made, more);
      }
      made := if more > made then more else made;
      if r.Ok? || !Retry.ShouldRetry(r.error) {
        return;
      }
    }
  }

  lemma GrewAgain(a: Nodes, b: Nodes, c: Nodes, n: nat, y: seq<Path>, z: seq<Path>, cs: Path, k: nat, m: nat)
    requires k <= |cs| && m <= |cs| && n <= |y| && y <= z
    requires Grew(a, b, Since(y, n) + Prefixes(cs, k)) && Grew(b, c, Since(z, |y|) + Prefixes(cs, m))
    ensures Grew(a, c, Since(z, n) + Prefixes(cs, if m > k then m else k))
  {
    SinceSince(y, z, n);
    GrewTwice(a, b, c, Since(y, n) + Prefixes(cs, k), Since(z, |y|) + Prefixes(cs, m));
    PrefixesNest(cs, k, m);
    assert Since(y, n) + Prefixes(cs, k) + (Since(z, |y|) + Prefixes(cs, m))
           == (Since(y, n) + Since(z, |y|)) + (Prefixes(cs, k) + Prefixes(cs, m));
  }

  /** Why a create fails: the node is there, its parent is not and was not to be made, the path is invalid,
      or a call failed on its way. */
  ghost predicate CreateRefused(e: Error, nodes: Nodes, path: Str, createParents: bool, turns: seq<Turn>) {
    match e
    case NodeExists => ValidPath(path) && Components(path) in nodes
    case NoNode => !createParents && ValidPath(path) && path != ROOT && Parent(Components(path)) !in nodes
    case BadArguments => !ValidPath(path)
    case _ => e.Fault? && !NoFaults(turns)
  }

  /** What an undisturbed create needs: a valid path other than the root, absent, and a parent unless parents
      are to be made. */
  ghost predicate Creatable(nodes: Nodes, path: Str, createParents: bool) {
    && ValidPath(path) && path != ROOT && Components(path) !in nodes
    && (createParents || Parent(Components(path)) in nodes)
  }

  lemma CreatedUndisturbed(r: Result<Str, Error>, a: Nodes, b: Nodes, path: Str, createParents: bool, made: nat)
    requires WellFormed(b) && made <= |Components(path)| && Grew(a, b, Prefixes(Components(path), made))
    requires r.Ok? ==> ValidPath(path) && path != ROOT && Components(path) !in a && Components(path) in b
    requires r.Ok? && !createParents ==> Grew(a, b, {Components(path)})
    requires r.Err? ==> CreateRefused(r.error, b, path, createParents, []) && (made > 0 ==> made < |Components(path)|)
    ensures r.Ok? <==> Creatable(a, path, createParents)
  {
  }

  /** One attempt to create. */
  method CreateOnce(conn: Conn, path: Str, data: Str, createParents: bool) returns (r: Result<Str, Error>, ghost made: nat)
    requires conn.Valid()
    modifies conn`store, conn`turns, conn`added
    ensures conn.Valid() && old(conn.added) <= conn.added && FaultsUsed(ErrorOf(r), old(conn.turns), conn.turns)
    ensures r.Ok? ==>
              && ValidPath(path) && path != ROOT && r.value == path
              && Components(path) in conn.store.nodes && conn.store.nodes[Components(path)] == ZNode(data, 0)
    ensures made <= |Components(path)| && (r.Err? && made > 0 ==> createParents && made < |Components(path)|)
    ensures CreatesOnly(old(conn.turns)) ==>
              && CreatesOnly(conn.turns)
              && Grew(old(conn.store.nodes), conn.store.nodes, conn.Others(|old(conn.added)|) + Prefixes(Components(path), made))
              && (r.Ok? ==> made == |Components(path)| && Components(path) !in old(conn.store.nodes))
    ensures r.Err? && (CreatesOnly(old(conn.turns)) || !createParents) ==>
              CreateRefused(r.error, conn.store.nodes, path, createParents, old(conn.turns))
    ensures old(conn.turns) == [] ==> (r.Ok? <==> Creatable(old(conn.store.nodes), path, createParents))
  {
    r, made := CreateOrMakeParents(conn, path, data, createParents);
    if old(conn.turns) == [] {
      CreatedUndisturbed(r, old(conn.store.nodes), conn.store.nodes, path, createParents, made);
    }
  }

  /** The create and, for a missing parent, the fallback. */
  method CreateOrMakeParents(conn: Conn, path: Str, data: Str, createParents: bool) returns (r: Result<Str, Error>, ghost made: nat)
    requires conn.Valid()
    modifies conn`store, conn`turns, conn`added
    ensures old(conn.turns) == [] ==> conn.added == old(conn.added)
    ensures conn.Valid() && old(conn.added) <= conn.added && FaultsUsed(ErrorOf(r), old(conn.turns), conn.turns)
    ensures r.Ok? ==>
              && ValidPath(path) && path != ROOT && r.value == path
              && Components(path) in conn.store.nodes && conn.store.nodes[Components(path)] == ZNode(data, 0)
    ensures made <= |Components(path)| && (r.Err? && made > 0 ==> createParents && made < |Components(path)|)
    ensures CreatesOnly(old(conn.turns)) ==>
              && CreatesOnly(conn.turns)
              && Grew(old(conn.store.nodes), conn.store.nodes, conn.Others(|old(conn.added)|) + Prefixes(Components(path), made))
              && (r.Ok? ==> made == |Components(path)| && Components(path) !in old(conn.store.nodes))
    ensures r.Err? && (CreatesOnly(old(conn.turns)) || !createParents) ==>
              CreateRefused(r.error, conn.store.nodes, path, createParents, old(conn.turns))
    ensures CreatesOnly(old(conn.turns)) && r.Ok? && !createParents ==>
              Grew(old(conn.store.nodes), conn.store.nodes, conn.Others(|old(conn.added)|) + {Components(path)})
  {
    made := 0;
    r := conn.Create(path, data);
    assert Prefixes(Components(path), 0) == {};
    if r == Err(NoNode) && createParents {
      ghost var nodes, added := conn.store.nodes, conn.added;
      r, made := MakeParentsAndCreate(conn, path, data);
      if CreatesOnly(old(conn.turns)) {
        GrewBefore(old(conn.store.nodes), nodes, conn.store.nodes, |old(conn.added)|, added, conn.added,
                   Prefixes(Components(path), made));
      }
    } else if r.Ok? {
      made := |Components(path)|;
      if CreatesOnly(old(conn.turns)) {
        WholePath(old(conn.store.nodes), conn.store.nodes, conn.Others(|old(conn.added)|), Components(path));
      }
    }
  }

  lemma GrewBefore(a: Nodes, b: Nodes, c: Nodes, n: nat, y: seq<Path>, z: seq<Path>, more: set<Path>)
    requires n <= |y| && y <= z && Grew(a, b, Since(y, n)) && Grew(b, c, Since(z, |y|) + more)
    ensures Grew(a, c, Since(z, n) + more)
  {
    SinceSince(y, z, n);
    GrewTwice(a, b, c, Since(y, n), Since(z, |y|) + more);
    assert Since(y, n) + (Since(z, |y|) + more) == Since(z, n) + more;
  }

  /** A node that could be made had its parents already. */
  lemma WholePath(a: Nodes, b: Nodes, others: set<Path>, p: Path)
    requires WellFormed(b) && p != [] && Grew(a, b, others + {p})
    ensures Grew(a, b, others + Prefixes(p, |p|))
  {
    ParentsExist(b, p);
    PrefixesLast(p);
    assert a.Keys + (others + Prefixes(p, |p|)) == b.Keys;
  }

  /** The fallback: make the parents, then create again. */
  method MakeParentsAndCreate(conn: Conn, path: Str, data: Str) returns (r: Result<Str, Error>, ghost made: nat)
    requires conn.Valid() && ValidPath(path) && path != ROOT
    modifies conn`store, conn`turns, conn`added
    ensures old(conn.turns) == [] ==> conn.added == old(conn.added)
    ensures conn.Valid() && old(conn.added) <= conn.added && FaultsUsed(ErrorOf(r), old(conn.turns), conn.turns)
    ensures r.Ok? ==>
              && r.value == path
              && Components(path) in conn.store.nodes && conn.store.nodes[Components(path)] == ZNode(data, 0)
    ensures if r.Ok? then made == |Components(path)| else made < |Components(path)|
    ensures CreatesOnly(old(conn.turns)) ==>
              && CreatesOnly(conn.turns)
              && Grew(old(conn.store.nodes), conn.store.nodes, conn.Others(|old(conn.added)|) + Prefixes(Components(path), made))
              && (r.Ok? ==> Components(path) !in old(conn.store.nodes))
    ensures CreatesOnly(old(conn.turns)) && r.Err? && !r.error.Fault? ==>
              r.error == NodeExists && Components(path) in conn.store.nodes
  {
    ghost var p, n := Components(path), |conn.added|;
    PathIsItsComponents(path);
    var err;
    err, made := MakeDirs(conn, path, false);
    if err.Some? {
      return Err(err.value), made;
    }
    ghost var nodes, added := conn.store.nodes, conn.added;
    if CreatesOnly(old(conn.turns)) {
      ParentThere(old(conn.store.nodes), nodes, conn.Others(n), p);
    }
    r := conn.Create(path, data);
    if CreatesOnly(old(conn.turns)) {
      MadeThenCreated(old(conn.store.nodes), nodes, conn.store.nodes, n, added, conn.added, p, r.Ok?);
    }
    if r.Ok? {
      made := made + 1;
    }
  }

  lemma ParentThere(a: Nodes, b: Nodes, o: set<Path>, p: Path)
    requires p != [] && [] in a && Made(a, b, o, Prefixes(p, |p| - 1))
    ensures Parent(p) in b
  {
    PrefixExists(a, b, o, p, |p| - 1);
    assert p[..|p|] == p;
  }

  lemma MadeThenCreated(a: Nodes, b: Nodes, c: Nodes, n: nat, y: seq<Path>, z: seq<Path>, p: Path, ok: bool)
    requires p != [] && n <= |y| && y <= z
    requires Made(a, b, Since(y, n), Prefixes(p, |p| - 1)) && Grew(b, c, Since(z, |y|) + if ok then {p} else {})
    ensures Grew(a, c, Since(z, n) + Prefixes(p, if ok then |p| else |p| - 1))
  {
    var front, last := Prefixes(p, |p| - 1), if ok then {p} else {};
    assert Since(z, n) == Since(y, n) + Since(z, |y|) by {
      SinceSince(y, z, n);
    }
    GrewTwice(a, b, c, Since(y, n) + front, Since(z, |y|) + last);
    PrefixesLast(p);
    assert (Since(y, n) + front) + (Since(z, |y|) + last) == Since(z, n) + (front + last);
  }

  lemma PrefixesLast(p: Path)
    requires p != []
    ensures Prefixes(p, |p|) == Prefixes(p, |p| - 1) + {p}
  {
    assert p[..|p|] == p;
    assert forall i :: 1 <= i <= |p| ==> p[..i] in Prefixes(p, |p|);
  }

  lemma ParentsExist(nodes: Nodes, p: Path)
    requires WellFormed(nodes) && p in nodes
    ensures Prefixes(p, |p|) <= nodes.Keys
  {
    forall i | 1 <= i <= |p|
      ensures p[..i] in nodes
    {
      AncestorExists(nodes, p, i);
    }
  }

  /** A delete, tried again as long as the failure is one to retry, that takes the children along when the
      conditional delete finds some. */
  method DeletePath(conn: Conn, path: Str, version: int, deletingChildren: bool) returns (err: Option<Error>)
    requires conn.Valid()
    modifies conn
    ensures conn.Valid() && old(conn.added) <= conn.added
    ensures old(conn.turns) == [] ==> conn.added == old(conn.added)
    ensures err.Some? ==> !Retry.ShouldRetry(err.value)
    ensures err == None ==> ValidPath(path) && Gone(conn.store.nodes, Components(path))
    ensures CreatesOnly(old(conn.turns)) ==>
              Pruned(old(conn.store.nodes), conn.store.nodes, conn.Others(|old(conn.added)|), Components(path))
    ensures CreatesOnly(old(conn.turns)) && err != None && !deletingChildren ==>
              Grew(old(conn.store.nodes), conn.store.nodes, conn.Others(|old(conn.added)|))
    ensures old(conn.turns) == [] ==>
              (err == None <==> Removable(old(conn.store.nodes), path, version, deletingChildren))
    ensures CreatesOnly(old(conn.turns)) && Removable(old(conn.store.nodes), path, version, true) ==>
              OnlyFaults(err, old(conn.turns)) || (err == Some(NotEmpty) && !deletingChildren)
  {
    ghost var a, n, p := conn.store.nodes, |conn.added|, Components(path);
    assert conn.Others(n) == {};
    while true
      invariant conn.Valid() && old(conn.added) <= conn.added && |conn.turns| <= |old(conn.turns)|
      invariant old(conn.turns) == [] ==> conn.turns == [] && conn.added == old(conn.added) && conn.store.nodes == a
      invariant CreatesOnly(old(conn.turns)) ==>
                  && CreatesOnly(conn.turns) && Thinned(a, conn.store.nodes, conn.Others(n), p, !deletingChildren)
                  && Stays(a, conn.store.nodes, p)
      invariant NoFaults(old(conn.turns)) ==> NoFaults(conn.turns)
      decreases |conn.turns|
    {
      ghost var nodes, added := conn.store.nodes, conn.added;
      err := DeleteOnce(conn, path, version, deletingChildren);
      if CreatesOnly(old(conn.turns)) {
        ThinnedTwice(a, nodes, conn.store.nodes, n, added, conn.added, p, !deletingChildren, err != None);
      }
      if err == None || !Retry.ShouldRetry(err.value) {
        return;
      }
    }
  }

  /** Nothing changed outside the branch and, where only growth is allowed, nothing was removed. */
  ghost predicate Thinned(a: Nodes, b: Nodes, others: set<Path>, p: Path, growsOnly: bool) {
    Pruned(a, b, others, p) && (growsOnly ==> Grew(a, b, others))
  }

  lemma ThinnedTwice(a: Nodes, b: Nodes, c: Nodes, n: nat, y: seq<Path>, z: seq<Path>, p: Path, growsOnly: bool, failed: bool)
    requires n <= |y| && y <= z
    requires Thinned(a, b, Since(y, n), p, growsOnly) && Thinned(b, c, Since(z, |y|), p, growsOnly && failed)
    ensures Thinned(a, c, Since(z, n), p, growsOnly && failed)
  {
    SinceSince(y, z, n);
    PrunedTwice(a, b, c, Since(y, n), Since(z, |y|), p, p, p);
    if growsOnly && failed {
      GrewTwice(a, b, c, Since(y, n), Since(z, |y|));
    }
  }

  /** What an undisturbed delete needs: a valid path other than the root, present, of the version asked
      for, and without children unless they are to go too. */
  ghost predicate Removable(nodes: Nodes, path: Str, version: int, deletingChildren: bool) {
    var p := Components(path);
    && ValidPath(path) && path != ROOT && p in nodes && VersionFits(nodes[p], version)
    && (deletingChildren || ChildNames(nodes, p) == {})
  }

  /** One attempt to delete. */
  method DeleteOnce(conn: Conn, path: Str, version: int, deletingChildren: bool) returns (err: Option<Error>)
    requires conn.Valid()
    modifies conn
    ensures conn.Valid() && old(conn.added) <= conn.added
    ensures if old(conn.turns) == [] then conn.turns == [] && conn.added == old(conn.added) else |conn.turns| < |old(conn.turns)|
    ensures err == None ==> ValidPath(path) && Gone(conn.store.nodes, Components(path))
    ensures CreatesOnly(old(conn.turns)) ==>
              && CreatesOnly(conn.turns)
              && Pruned(old(conn.store.nodes), conn.store.nodes, conn.Others(|old(conn.added)|), Components(path))
    ensures CreatesOnly(old(conn.turns)) && err != None && !deletingChildren ==>
              Grew(old(conn.store.nodes), conn.store.nodes, conn.Others(|old(conn.added)|))
    ensures old(conn.turns) == [] ==>
              && (err == None <==> Removable(old(conn.store.nodes), path, version, deletingChildren))
              && (err.Some? ==> !err.value.Fault?)
    ensures NoFaults(old(conn.turns)) ==> NoFaults(conn.turns)
    ensures CreatesOnly(old(conn.turns)) && err.Some? ==> Stays(old(conn.store.nodes), conn.store.nodes, Components(path))
    ensures CreatesOnly(old(conn.turns)) && Removable(old(conn.store.nodes), path, version, true) ==>
              OnlyFaults(err, old(conn.turns)) || (err == Some(NotEmpty) && !deletingChildren)
  {
    err := DeleteHere(conn, path, version);
    if err == Some(NotEmpty) && deletingChildren {
      ghost var nodes, added := conn.store.nodes, conn.added;
      err := DeleteChildren(conn, path, true);
      Combine(old(conn.store.nodes), nodes, conn.store.nodes, old(conn.added), added, conn.added, Components(path));
    }
  }

  /** The conditional delete of the node alone. */
  method DeleteHere(conn: Conn, path: Str, version: int) returns (err: Option<Error>)
    requires conn.Valid()
    modifies conn
    ensures conn.Valid() && old(conn.added) <= conn.added && conn.turns == Later(old(conn.turns))
    ensures old(conn.turns) == [] ==> conn.added == old(conn.added) && (err.Some? ==> conn.store.nodes == old(conn.store.nodes))
    ensures err == None ==> ValidPath(path) && Gone(conn.store.nodes, Components(path))
    ensures err == Some(NotEmpty) ==> Removable(conn.store.nodes, path, version, true)
    ensures err.Some? && err.value.Fault? ==> !NoFaults(old(conn.turns))
    ensures CreatesOnly(old(conn.turns)) ==>
              && CreatesOnly(conn.turns)
              && Pruned(old(conn.store.nodes), conn.store.nodes, conn.Others(|old(conn.added)|), Components(path))
              && (err != None ==> Grew(old(conn.store.nodes), conn.store.nodes, conn.Others(|old(conn.added)|)))
    ensures CreatesOnly(old(conn.turns)) && Removable(old(conn.store.nodes), path, version, true) ==>
              OnlyFaults(err, old(conn.turns)) || err == Some(NotEmpty)
    ensures old(conn.turns) == [] ==> (err == None <==> Removable(old(conn.store.nodes), path, version, false))
  {
    ghost var found;
    ghost var p, a := Components(path), conn.store.nodes;
    err, found := conn.Delete(path, version);
    if err == None {
      GoneAfter(found, p);
    }
    AnswerMeans(err, found, path, version);
    if CreatesOnly(old(conn.turns)) {
      DeleteIsPruning(a, found, conn.store.nodes, conn.Others(|old(conn.added)|), p);
      RemovableGrows(a, found, conn.Others(|old(conn.added)|), path, version);
    }
  }

  /** What the server's answer to a delete says about the tree it met. */
  lemma AnswerMeans(err: Option<Error>, found: Nodes, path: Str, version: int)
    requires err == None ==> Deletable(found, path, version)
    ensures err == None ==> Removable(found, path, version, false)
    ensures err.Some? && DeleteRefused(err.value, found, path, version) ==>
              && !err.value.Fault? && !Removable(found, path, version, false)
              && (err == Some(NotEmpty) <==> Removable(found, path, version, true))
  {
  }

  lemma RemovableGrows(a: Nodes, b: Nodes, others: set<Path>, path: Str, version: int)
    requires Grew(a, b, others)
    ensures Removable(a, path, version, true) ==> Removable(b, path, version, true)
  {
  }

  lemma DeleteIsPruning(a: Nodes, found: Nodes, b: Nodes, others: set<Path>, p: Path)
    requires Grew(a, found, others) && (b == found || b == found - {p})
    ensures Pruned(a, b, others, p)
  {
  }

  /** Undisturbed, the tree after a successful delete is exactly the old tree outside the branch. */
  lemma ExactDelete(a: Nodes, b: Nodes, p: Path)
    requires Pruned(a, b, {}, p) && Gone(b, p)
    ensures b == map q | q in a && !(p <= q) :: a[q]
  {
  }
}
