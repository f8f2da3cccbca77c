/** One client's connection to the shared server. Between any two of its calls other clients act:
    `turns` holds what they will do before each coming call and whether that call fails on the
    way. It is arbitrary, so a result about a procedure holds for every such interference. */
module Connection {
  import opened Wrappers
  import opened GoStrings
  import opened Paths
  import opened LockDriver
  import opened Zk

  datatype Action = Create(path: Path, data: Str) | Write(path: Path, data: Str) | Delete(path: Path)

  datatype Turn = Turn(actions: seq<Action>, fault: Option<Cause>)

  /** Another client's action, refused where the server refuses it. Nobody else deletes a node of
      this client's own session. */
  function Act(s: Store, a: Action, owned: set<Path>): Store {
    var r := match a
      case Create(p, data) => if ValidNames(p) then CreateNode(s, p, data) else Err(BadArguments)
      case Write(p, data) => WriteNode(s, p, data)
      case Delete(p) => if p in owned then Err(BadArguments) else DeleteNode(s, p, ANY_VERSION);
    if r.Ok? then r.value else s
  }

  function ActAll(s: Store, actions: seq<Action>, owned: set<Path>): Store
    decreases |actions|
  {
    if actions == [] then s else ActAll(Act(s, actions[0], owned), actions[1..], owned)
  }

  /** The nodes those actions bring into being, in order. */
  ghost function Created(s: Store, actions: seq<Action>, owned: set<Path>): seq<Path>
    decreases |actions|
  {
    if actions == [] then []
    else
      var t := Act(s, actions[0], owned);
      (if actions[0].Create? && t != s then [actions[0].path] else []) + Created(t, actions[1..], owned)
  }

  function After(s: Store, turns: seq<Turn>, owned: set<Path>): Store {
    if turns == [] then s else ActAll(s, turns[0].actions, owned)
  }

  ghost function CreatedNext(s: Store, turns: seq<Turn>, owned: set<Path>): seq<Path> {
    if turns == [] then [] else Created(s, turns[0].actions, owned)
  }

  function NextFault(turns: seq<Turn>): Option<Error> {
    if turns == [] || turns[0].fault == None then None else Some(Fault(turns[0].fault.value))
  }

  function Later(turns: seq<Turn>): seq<Turn> {
    if turns == [] then [] else turns[1..]
  }

  /** What others do before a call they really do: create where there is a parent, write what is there, and
      delete what is childless and not this client's own. */
  lemma OthersReallyAct(s: Store, p: Path, data: Str, owned: set<Path>, fault: Option<Cause>)
    ensures ValidNames(p) && p != [] && Parent(p) in s.nodes && p !in s.nodes ==>
              After(s, [Turn([Create(p, data)], fault)], owned).nodes == s.nodes[p := ZNode(data, 0)]
    ensures p in s.nodes ==>
              After(s, [Turn([Write(p, data)], fault)], owned).nodes == s.nodes[p := ZNode(data, s.nodes[p].version + 1)]
    ensures p in s.nodes && p != [] && p !in owned && ChildNames(s.nodes, p) == {} ==>
              After(s, [Turn([Delete(p)], fault)], owned).nodes == s.nodes - {p}
  {
    forall a: Action
      ensures ActAll(s, [a], owned) == Act(s, a, owned)
    {
      assert [a][1..] == [];
    }
  }

  ghost predicate CreatesOnly(turns: seq<Turn>) {
    forall i, j :: 0 <= i < |turns| && 0 <= j < |turns[i].actions| ==> turns[i].actions[j].Create?
  }

  ghost predicate NoFaults(turns: seq<Turn>) {
    forall i :: 0 <= i < |turns| ==> turns[i].fault == None
  }

  /** `b` is `a` with exactly the nodes `more` added and every old node as it was. */
  ghost predicate Grew(a: Nodes, b: Nodes, more: set<Path>) {
    b.Keys == a.Keys + more && forall p :: p in a ==> b[p] == a[p]
  }

  lemma GrewTwice(a: Nodes, b: Nodes, c: Nodes, more: set<Path>, more': set<Path>)
    requires Grew(a, b, more) && Grew(b, c, more')
    ensures Grew(a, c, more + more')
  {
  }

  ghost function Elements(s: seq<Path>): set<Path> {
    set p | p in s
  }

  /** The nodes others created since the log had length `n`. */
  ghost function Since(added: seq<Path>, n: nat): set<Path>
    requires n <= |added|
  {
    Elements(added[n..])
  }

  lemma SinceSince(first: seq<Path>, last: seq<Path>, n: nat)
    requires n <= |first| && first <= last
    ensures Since(last, n) == Since(first, n) + Since(last, |first|)
  {
  }

  ghost predicate OwnedExist(s: Store, owned: set<Path>) {
    forall p :: p in owned ==> p in s.nodes
  }

  lemma {:induction false} ActAllKeepsForm(s: Store, actions: seq<Action>, owned: set<Path>)
    requires WellFormed(s.nodes) && OwnedExist(s, owned)
    ensures WellFormed(ActAll(s, actions, owned).nodes) && OwnedExist(ActAll(s, actions, owned), owned)
    decreases |actions|
  {
    if actions != [] {
      var t := Act(s, actions[0], owned);
      assert WellFormed(t.nodes) && OwnedExist(t, owned) by {
        match actions[0]
        case Create(p, data) => if ValidNames(p) { CreateKeepsForm(s, p, data); }
        case Write(p, data) =>
        case Delete(p) => DeleteKeepsForm(s, p, ANY_VERSION);
      }
      ActAllKeepsForm(t, actions[1..], owned);
    }
  }

  lemma {:induction false} ActAllGrows(s: Store, actions: seq<Action>, owned: set<Path>)
    requires forall j :: 0 <= j < |actions| ==> actions[j].Create?
    ensures Grew(s.nodes, ActAll(s, actions, owned).nodes, Elements(Created(s, actions, owned)))
    decreases |actions|
  {
    if actions != [] {
      var t := Act(s, actions[0], owned);
      ActAllGrows(t, actions[1..], owned);
      assert Grew(s.nodes, t.nodes, if t != s then {actions[0].path} else {});
    }
  }

  lemma AfterGrows(s: Store, turns: seq<Turn>, owned: set<Path>)
    requires CreatesOnly(turns)
    ensures Grew(s.nodes, After(s, turns, owned).nodes, Elements(CreatedNext(s, turns, owned)))
    ensures CreatesOnly(Later(turns))
  {
    if turns != [] {
      ActAllGrows(s, turns[0].actions, owned);
    }
  }

  class Conn {
    var store: Store
    var turns: seq<Turn>
    // the ephemeral nodes of this client's session
    var owned: set<Path>
    // every node other clients have created, in order
    ghost var added: seq<Path>

    ghost predicate Valid()
      reads this
    {
      WellFormed(store.nodes) && OwnedExist(store, owned)
    }

    /** The nodes other clients created since the log had length `n`. */
    ghost function Others(n: nat): set<Path>
      requires n <= |added|
      reads this
    {
      Since(added, n)
    }

    /** Let the other clients act; report whether the coming call fails before it takes effect. */
    method Turn() returns (fault: Option<Error>)
      requires Valid()
      modifies this`store, this`turns, this`added
      ensures Valid()
      ensures store == After(old(store), old(turns), owned)
      ensures turns == Later(old(turns)) && fault == NextFault(old(turns))
      ensures added == old(added) + CreatedNext(old(store), old(turns), owned)
      ensures CreatesOnly(old(turns)) ==>
                CreatesOnly(turns) && Grew(old(store.nodes), store.nodes, Others(|old(added)|))
    {
      fault := NextFault(turns);
      added := added + CreatedNext(store, turns, owned);
      if turns != [] {
        ActAllKeepsForm(store, turns[0].actions, owned);
      }
      if CreatesOnly(turns) {
        AfterGrows(store, turns, owned);
      }
      assert Others(|old(added)|) == Elements(CreatedNext(store, turns, owned));
      store := After(store, turns, owned);
      turns := Later(turns);
    }

    method Exists(path: Str) returns (r: Result<bool, Error>)
      requires Valid() && ValidPath(path)
      modifies this`store, this`turns, this`added
      ensures Valid()
      ensures turns == Later(old(turns)) && old(added) <= added
      ensures old(turns) == [] ==> added == old(added)
      ensures CreatesOnly(old(turns)) ==>
                CreatesOnly(turns) && Grew(old(store.nodes), store.nodes, Others(|old(added)|))
      ensures r == if NextFault(old(turns)).Some? then Err(NextFault(old(turns)).value)
                   else Ok(Components(path) in store.nodes)
    {
      var fault := Turn();
      if fault.Some? {
        return Err(fault.value);
      }
      r := Ok(Components(path) in store.nodes);
    }

    /** The names under a node, in no particular order. */
    method Children(path: Str) returns (r: Result<seq<Str>, Error>)
      requires Valid() && ValidPath(path)
      modifies this`store, this`turns, this`added
      ensures Valid()
      ensures turns == Later(old(turns)) && old(added) <= added && store == After(old(store), old(turns), owned)
      ensures old(turns) == [] ==> added == old(added)
      ensures CreatesOnly(old(turns)) ==>
                CreatesOnly(turns) && Grew(old(store.nodes), store.nodes, Others(|old(added)|))
      ensures r.Err? ==> r.error == if NextFault(old(turns)).Some? then NextFault(old(turns)).value else NoNode
      ensures r.Ok? <==> NextFault(old(turns)) == None && Components(path) in store.nodes
      ensures r.Ok? ==> multiset(r.value) == multiset(ChildNames(store.nodes, Components(path)))
    {
      var fault := Turn();
      if fault.Some? {
        return Err(fault.value);
      }
      if Components(path) !in store.nodes {
        return Err(NoNode);
      }
      var names := Listing(ChildNames(store.nodes, Components(path)));
      r := Ok(names);
    }

    method Create(path: Str, data: Str) returns (r: Result<Str, Error>)
      requires Valid()
      modifies this`store, this`turns, this`added
      ensures Valid()
      ensures turns == Later(old(turns)) && old(added) <= added
      ensures old(turns) == [] ==> added == old(added)
      ensures r.Ok? ==> ValidPath(path) && Components(path) != []
      ensures CreatesOnly(old(turns)) ==>
                && CreatesOnly(turns)
                && Grew(old(store.nodes), store.nodes, Others(|old(added)|) + if r.Ok? then {Components(path)} else {})
                && (r.Ok? ==> Components(path) !in old(store.nodes) && Components(path) !in Others(|old(added)|))
      ensures r.Ok? ==> r.value == path && Components(path) in store.nodes && store.nodes[Components(path)] == ZNode(data, 0)
      ensures NextFault(old(turns)).Some? ==> r == Err(NextFault(old(turns)).value)
      ensures r.Err? ==>
                match r.error
                case NodeExists => ValidPath(path) && Components(path) in store.nodes
                case NoNode => ValidPath(path) && Components(path) != [] && Parent(Components(path)) !in store.nodes
                case BadArguments => !ValidPath(path)
                case _ => NextFault(old(turns)) == Some(r.error)
    {
      var fault := Turn();
      if fault.Some? {
        return Err(fault.value);
      }
      if !ValidPath(path) {
        return Err(BadArguments);
      }
      PathIsItsComponents(path);
      CreateKeepsForm(store, Components(path), data);
      var c := CreateNode(store, Components(path), data);
      if c.Err? {
        return Err(c.error);
      }
      store := c.value;
      r := Ok(path);
    }

    /** An ephemeral sequential create; the new node joins the session's own. */
    method CreateEphemeralSequential(path: Str, data: Str) returns (r: Result<Str, Error>, ghost n: nat)
      requires Valid() && ValidPath(path) && path != ROOT
      modifies this
      ensures Valid()
      ensures turns == Later(old(turns)) && old(added) <= added
      ensures n == Counter(After(old(store), old(turns), old(owned)), Parent(Components(path)))
      ensures r.Ok? ==>
                var q := SequentialNode(Components(path), n);
                && n < SEQUENCE_LIMIT && r.value == path + Suffix(n)
                && owned == old(owned) + {q} && q !in old(owned) && store.nodes[q] == ZNode(data, 0)
      ensures r.Err? ==> owned == old(owned) && store == After(old(store), old(turns), old(owned))
      ensures NextFault(old(turns)).Some? ==> r == Err(NextFault(old(turns)).value)
      ensures CreatesOnly(old(turns)) ==> CreatesOnly(turns)
      ensures CreatesOnly(old(turns)) && r.Err? ==> Grew(old(store.nodes), store.nodes, Others(|old(added)|))
      ensures r.Err? ==> NextFault(old(turns)) == Some(r.error) || SequentialRefused(r.error, store.nodes, Components(path), n)
    {
      var fault := Turn();
      PathIsItsComponents(path);
      var p := Components(path);
      n := Counter(store, Parent(p));
      if fault.Some? {
        return Err(fault.value), n;
      }
      var c := CreateSequential(store, p, data);
      SequentialExplained(store, p, data);
      if c.Err? {
        return Err(c.error), n;
      }
      r := Ok(path + Suffix(Counter(store, Parent(p))));
      owned := owned + {SequentialPath(store, p)};
      store := c.value;
    }

    /** `found` is the tree the delete met, after the others had their turn. */
    method Delete(path: Str, version: int) returns (err: Option<Error>, ghost found: Nodes)
      requires Valid()
      modifies this
      ensures Valid() && WellFormed(found)
      ensures turns == Later(old(turns)) && old(added) <= added
      ensures old(turns) == [] ==> added == old(added)
      ensures found == After(old(store), old(turns), old(owned)).nodes
      ensures CreatesOnly(old(turns)) ==> CreatesOnly(turns) && Grew(old(store.nodes), found, Others(|old(added)|))
      ensures err == None ==>
                && Deletable(found, path, version) && store.nodes == found - {Components(path)}
                && owned == old(owned) - {Components(path)}
      ensures err != None ==> store.nodes == found && owned == old(owned)
      ensures NextFault(old(turns)).Some? ==> err == NextFault(old(turns))
      ensures err.Some? ==> NextFault(old(turns)) == err || DeleteRefused(err.value, found, path, version)
    {
      var fault := Turn();
      found := store.nodes;
      if fault.Some? {
        return fault, found;
      }
      if !ValidPath(path) {
        return Some(BadArguments), found;
      }
      DeleteKeepsForm(store, Components(path), version);
      var d := DeleteNode(store, Components(path), version);
      DeleteExplained(store, path, version);
      if d.Err? {
        return Some(d.error), found;
      }
      store := d.value;
      owned := owned - {Components(path)};
      err := None;
    }
  }

  predicate VersionFits(n: ZNode, version: int) {
    version == ANY_VERSION || version == n.version
  }

  /** A valid path other than the root, present, childless, with the version asked for. */
  predicate Deletable(nodes: Nodes, path: Str, version: int) {
    var p := Components(path);
    ValidPath(path) && p != [] && p in nodes && VersionFits(nodes[p], version) && ChildNames(nodes, p) == {}
  }

  /** Why the server refuses a sequential create. */
  ghost predicate SequentialRefused(e: Error, nodes: Nodes, p: Path, n: nat)
    requires p != []
  {
    match e
    case NoNode => Parent(p) !in nodes
    case NodeExists => SequentialNode(p, n) in nodes
    case CounterExhausted => n >= SEQUENCE_LIMIT
    case _ => false
  }

  lemma SequentialExplained(s: Store, p: Path, data: Str)
    requires WellFormed(s.nodes) && ValidNames(p) && p != []
    ensures var c, n := CreateSequential(s, p, data), Counter(s, Parent(p));
            var q := SequentialNode(p, n);
            if c.Err? then SequentialRefused(c.error, s.nodes, p, n)
            else n < SEQUENCE_LIMIT && q !in s.nodes && c.value.nodes == s.nodes[q := ZNode(data, 0)] && WellFormed(c.value.nodes)
  {
    var q := SequentialPath(s, p);
    SuffixedNameIsValid(p[|p| - 1], Counter(s, Parent(p)));
    assert ValidNames(q) && Parent(q) == Parent(p);
    CreateKeepsForm(s, q, data);
  }

  /** Why the server refuses a delete. */
  ghost predicate DeleteRefused(e: Error, found: Nodes, path: Str, version: int) {
    var p := Components(path);
    match e
    case NoNode => p !in found
    case NotEmpty => ValidPath(path) && p != [] && p in found && VersionFits(found[p], version) && ChildNames(found, p) != {}
    case BadVersion => p in found && !VersionFits(found[p], version)
    case BadArguments => p == [] || !ValidPath(path)
    case _ => false
  }

  lemma DeleteExplained(s: Store, path: Str, version: int)
    requires ValidPath(path)
    ensures var d := DeleteNode(s, Components(path), version);
            if d.Ok? then Deletable(s.nodes, path, version) && d.value.nodes == s.nodes - {Components(path)}
            else DeleteRefused(d.error, s.nodes, path, version)
  {
  }

  method Listing(names: set<Str>) returns (list: seq<Str>)
    ensures multiset(list) == multiset(names)
  {
    list := [];
    var rest := names;
    while rest != {}
      invariant rest <= names && multiset(list) + multiset(rest) == multiset(names)
      decreases |rest|
    {
      var x :| x in rest;
      list := list + [x];
      rest := rest - {x};
    }
  }
}
