/** The lock recipe run by any number of clients at once, as a transition system over the server's
    tree. Listings may be stale: a client may see the children as they were at any moment after
    its own node appeared. Nodes of other programs under the same base path come and go, lock nodes
    and others, an attempt, or a release whose delete fails, may leave its node behind, and the base
    path itself may be deleted while it is empty, which starts its numbers afresh. */
module LockProtocol {
  import opened Wrappers
  import opened GoStrings
  import opened LockDriver
  import opened Zk

  type ClientId = nat

  /** What one client is doing; from `Listed` on it remembers the listing it looked at. */
  datatype Client =
    | Idle
    | Created(name: Str)
    | Listed(name: Str, listing: set<Str>)
    | Waiting(name: Str, listing: set<Str>, watching: Str)
    | Holding(name: Str, listing: set<Str>)

  /** A place in the order of creation: which life of the base path, and the number in it. */
  datatype Ticket = Ticket(epoch: nat, number: nat)

  predicate Before(a: Ticket, b: Ticket) {
    a.epoch < b.epoch || (a.epoch == b.epoch && a.number < b.number)
  }

  /** `seen` holds every child set the base path has had since it was last made, `number` the sequence
      number of every lock node that appeared under it since then, `epoch` how often it was deleted,
      `grants` the nodes that ever got the lock, in order. */
  datatype State = State(
    store: Store,
    clients: map<ClientId, Client>,
    seen: set<set<Str>>,
    number: map<Str, nat>,
    epoch: nat,
    grants: seq<Ticket>)

  datatype Config = Config(base: Path, maxLeases: nat)

  datatype Step =
    | Create(c: ClientId)
    | List(c: ClientId, listing: set<Str>)
    | Decide(c: ClientId, sorted: seq<Str>)
    | Wake(c: ClientId)
    | Release(c: ClientId)
    | Abandon(c: ClientId)
    | OtherCreates(prefix: Str)
    | ForeignCreates(name: Str)
    | OtherDeletes(name: Str)
    | BaseDeleted
    | Elsewhere(store: Store)

  function Children(cfg: Config, s: State): set<Str> {
    ChildNames(s.store.nodes, cfg.base)
  }

  predicate Pending(c: Client) {
    c.Created? || c.Listed? || c.Waiting?
  }

  predicate Active(c: Client) {
    Pending(c) || c.Holding?
  }

  /** Nodes that only their owner removes. */
  ghost function OwnedNames(s: State): set<Str> {
    set c | c in s.clients && Active(s.clients[c]) :: s.clients[c].name
  }

  /** A name that is no lock node's. */
  ghost predicate Foreign(name: Str) {
    forall n: nat :: !LockNode(name, n)
  }

  ghost predicate Init(cfg: Config, s: State) {
    && s.clients == map[] && s.grants == [] && s.epoch == 0
    && s.seen == {Children(cfg, s)} && s.number.Keys <= Children(cfg, s)
    && (forall x :: x in Children(cfg, s) && x !in s.number ==> Foreign(x))
    && Numbered(s.number.Keys, s.number)
    && forall x :: x in s.number ==> s.number[x] < Counter(s.store, cfg.base)
  }

  /** The name a client looks for in its listing. */
  function LooksFor(cfg: Config, name: Str): Str {
    Sliced(cfg.base == [], name)
  }

  /** Record the tree after a change. */
  ghost function Moved(cfg: Config, s: State, store: Store): State {
    s.(store := store, seen := s.seen + {ChildNames(store.nodes, cfg.base)})
  }

  ghost predicate Creates(cfg: Config, s: State, c: ClientId, s': State) {
    var n := Counter(s.store, cfg.base);
    var name := LockName(n);
    var r := CreateSequential(s.store, cfg.base + [LOCK], []);
    && (c in s.clients ==> s.clients[c].Idle?)
    && r.Ok?
    && s' == Moved(cfg, s, r.value).(clients := s.clients[c := Created(name)], number := s.number[name := n])
  }

  ghost predicate Lists(s: State, c: ClientId, listing: set<Str>, s': State) {
    && c in s.clients && (s.clients[c].Created? || s.clients[c].Waiting?)
    && listing in s.seen && s.clients[c].name in listing
    && s' == s.(clients := s.clients[c := Listed(s.clients[c].name, listing)])
  }

  ghost predicate Decides(cfg: Config, s: State, c: ClientId, sorted: seq<Str>, s': State) {
    && c in s.clients && s.clients[c].Listed?
    && SortedListing(sorted, s.clients[c].listing)
    && var me := s.clients[c];
       var d := Decision(sorted, LooksFor(cfg, me.name), cfg.maxLeases);
       && d.Ok?
       && if d.value.getsTheLock then
            && me.name in s.number
            && s' == s.(clients := s.clients[c := Holding(me.name, me.listing)],
                        grants := s.grants + [Ticket(s.epoch, s.number[me.name])])
          else
            s' == s.(clients := s.clients[c := Waiting(me.name, me.listing, d.value.pathToWatch)])
  }

  ghost predicate Wakes(s: State, c: ClientId, s': State) {
    && c in s.clients && s.clients[c].Waiting?
    && s' == s.(clients := s.clients[c := Created(s.clients[c].name)])
  }

  ghost predicate Releases(cfg: Config, s: State, c: ClientId, s': State) {
    && c in s.clients && s.clients[c].Holding?
    && var r := DeleteNode(s.store, cfg.base + [s.clients[c].name], ANY_VERSION);
       && r.Ok?
       && s' == Moved(cfg, s, r.value).(clients := s.clients[c := Idle])
  }

  ghost predicate Abandons(s: State, c: ClientId, s': State) {
    && c in s.clients && Active(s.clients[c])
    && s' == s.(clients := s.clients[c := Idle])
  }

  ghost predicate OthersCreate(cfg: Config, s: State, prefix: Str, s': State) {
    var n := Counter(s.store, cfg.base);
    var r := CreateSequential(s.store, cfg.base + [prefix + LOCK], []);
    && r.Ok?
    && s' == Moved(cfg, s, r.value).(number := s.number[prefix + LOCK + Suffix(n) := n])
  }

  ghost predicate ForeignAppears(cfg: Config, s: State, name: Str, s': State) {
    && Foreign(name)
    && var r := CreateNode(s.store, cfg.base + [name], []);
       && r.Ok?
       && s' == Moved(cfg, s, r.value)
  }

  ghost predicate OthersDelete(cfg: Config, s: State, name: Str, s': State) {
    && name !in OwnedNames(s)
    && var r := DeleteNode(s.store, cfg.base + [name], ANY_VERSION);
       && r.Ok?
       && s' == Moved(cfg, s, r.value)
  }

  /** Nobody who comes later is ever shown a listing from before the base path was deleted. */
  ghost predicate BaseGoes(cfg: Config, s: State, s': State) {
    var r := DeleteNode(s.store, cfg.base, ANY_VERSION);
    && r.Ok?
    && s' == s.(store := r.value, seen := {ChildNames(r.value.nodes, cfg.base)}, number := map[], epoch := s.epoch + 1)
  }

  ghost predicate ElsewhereMoves(cfg: Config, s: State, store: Store, s': State) {
    && ChildNames(store.nodes, cfg.base) == Children(cfg, s)
    && Counter(store, cfg.base) >= Counter(s.store, cfg.base)
    && s' == Moved(cfg, s, store)
  }

  ghost predicate Next(cfg: Config, s: State, step: Step, s': State) {
    match step
    case Create(c) => Creates(cfg, s, c, s')
    case List(c, listing) => Lists(s, c, listing, s')
    case Decide(c, sorted) => Decides(cfg, s, c, sorted, s')
    case Wake(c) => Wakes(s, c, s')
    case Release(c) => Releases(cfg, s, c, s')
    case Abandon(c) => Abandons(s, c, s')
    case OtherCreates(prefix) => OthersCreate(cfg, s, prefix, s')
    case ForeignCreates(name) => ForeignAppears(cfg, s, name, s')
    case OtherDeletes(name) => OthersDelete(cfg, s, name, s')
    case BaseDeleted => BaseGoes(cfg, s, s')
    case Elsewhere(store) => ElsewhereMoves(cfg, s, store, s')
  }

  // ---------- how the store changes the children of the base path ----------

  lemma CreatedChild(s: Store, base: Path, name: Str)
    requires CreateSequential(s, base + [name], []).Ok?
    ensures var n := Counter(s, base);
            var s' := CreateSequential(s, base + [name], []).value;
            && n < SEQUENCE_LIMIT && Counter(s', base) == n + 1
            && ChildNames(s'.nodes, base) == ChildNames(s.nodes, base) + {name + Suffix(n)}
  {
    var n, s' := Counter(s, base), CreateSequential(s, base + [name], []).value;
    var q := base + [name + Suffix(n)];
    assert Parent(base + [name]) == base && (base + [name])[|base|] == name;
    assert SequentialPath(s, base + [name]) == q;
    assert Parent(q) == base && q[|base|] == name + Suffix(n) && base <= q;
  }

  lemma CreatedForeign(s: Store, base: Path, name: Str)
    requires CreateNode(s, base + [name], []).Ok?
    ensures var s' := CreateNode(s, base + [name], []).value;
            && Counter(s', base) == Counter(s, base) + 1
            && ChildNames(s'.nodes, base) == ChildNames(s.nodes, base) + {name}
  {
  }

  lemma DeletedChild(s: Store, base: Path, name: Str)
    requires DeleteNode(s, base + [name], ANY_VERSION).Ok?
    ensures var s' := DeleteNode(s, base + [name], ANY_VERSION).value;
            && Counter(s', base) == Counter(s, base)
            && name in ChildNames(s.nodes, base)
            && ChildNames(s'.nodes, base) == ChildNames(s.nodes, base) - {name}
  {
    var q := base + [name];
    var s' := DeleteNode(s, q, ANY_VERSION).value;
    ChildIsNode(s.nodes, base, name);
    assert q != base;
    forall x
      ensures x in ChildNames(s'.nodes, base) <==> x in ChildNames(s.nodes, base) && x != name
    {
      ChildIsNode(s.nodes, base, x);
      ChildIsNode(s'.nodes, base, x);
      assert base + [x] == q <==> x == name by { assert (base + [x])[|base|] == x && q[|base|] == name; }
    }
  }

  lemma NewNameIsLockNode(prefix: Str, n: nat)
    requires n < SEQUENCE_LIMIT
    ensures LockNode(prefix + LOCK + Suffix(n), n)
  {
  }

  // ---------- the invariant ----------

  /** What is true of the history of the base path. The last line is the heart of it: a child that
      is still there is in every listing that shows a node at least as late, so the number of
      nodes before a given one never grows. */
  ghost predicate History(kids: set<Str>, seen: set<set<Str>>, number: map<Str, nat>, counter: nat) {
    && kids in seen
    && (forall L, x :: L in seen && x in L && x !in number ==> Foreign(x))
    && Numbered(number.Keys, number)
    && (forall x :: x in number ==> number[x] < counter)
    && (forall L, x, y :: L in seen && x in kids && y in L && x in number && y in number && number[x] <= number[y] ==> x in L)
  }

  /** Another listed name that does not sort after the own one and, with one lease, none nearer. */
  ghost predicate WatchesBefore(watching: Str, name: Str, listing: set<Str>, maxLeases: nat) {
    && (maxLeases > 0 ==> watching in listing && watching != name && !Less(Key(name), Key(watching)))
    && (maxLeases == 1 ==> forall x :: x in listing && Less(Key(x), Key(name)) ==> !Less(Key(watching), Key(x)))
  }

  /** What is true of one client. Under the root a holder has found the cut name, behind its own node. */
  ghost predicate Sound(c: Client, kids: set<Str>, seen: set<set<Str>>, number: map<Str, nat>, cfg: Config) {
    && (Active(c) ==> c.name in kids && c.name in number && c.name == LockName(number[c.name]))
    && (c.Listed? || c.Waiting? || c.Holding? ==> c.listing in seen && c.name in c.listing)
    && (c.Holding? ==> |Earlier(c.listing, number, c.name)| + (if cfg.base == [] then 1 else 0) < cfg.maxLeases)
    && (c.Waiting? && cfg.base != [] ==> WatchesBefore(c.watching, c.name, c.listing, cfg.maxLeases))
  }

  ghost predicate AllSound(clients: map<ClientId, Client>, kids: set<Str>, seen: set<set<Str>>, number: map<Str, nat>, cfg: Config) {
    && (forall c :: c in clients ==> Sound(clients[c], kids, seen, number, cfg))
    && (forall c, d :: c in clients && d in clients && c != d && Active(clients[c]) && Active(clients[d]) ==>
          clients[c].name != clients[d].name)
  }

  /** Grants come in the order of creation, before every node still waiting its turn. */
  ghost predicate Fair(clients: map<ClientId, Client>, number: map<Str, nat>, next: Ticket, grants: seq<Ticket>) {
    && (forall i, j :: 0 <= i < j < |grants| ==> Before(grants[i], grants[j]))
    && (forall i :: 0 <= i < |grants| ==> Before(grants[i], next))
    && (forall c, i :: c in clients && Pending(clients[c]) && clients[c].name in number && 0 <= i < |grants| ==>
          Before(grants[i], Ticket(next.epoch, number[clients[c].name])))
  }

  function NextTicket(cfg: Config, s: State): Ticket {
    Ticket(s.epoch, Counter(s.store, cfg.base))
  }

  ghost predicate Inv(cfg: Config, s: State) {
    && History(Children(cfg, s), s.seen, s.number, Counter(s.store, cfg.base))
    && AllSound(s.clients, Children(cfg, s), s.seen, s.number, cfg)
    && (cfg.maxLeases == 1 ==> Fair(s.clients, s.number, NextTicket(cfg, s), s.grants))
  }

  lemma HistoryAdds(kids: set<Str>, seen: set<set<Str>>, number: map<Str, nat>, counter: nat, name: Str)
    requires History(kids, seen, number, counter) && LockNode(name, counter)
    ensures name !in number && forall L :: L in seen ==> name !in L
    ensures History(kids + {name}, seen + {kids + {name}}, number[name := counter], counter + 1)
  {
    if name in number {
      KeyIsSuffix(name, counter);
      KeyIsSuffix(name, number[name]);
      SuffixOrder(counter, number[name]);
    }
  }

  lemma HistoryRemoves(kids: set<Str>, seen: set<set<Str>>, number: map<Str, nat>, counter: nat, name: Str)
    requires History(kids, seen, number, counter)
    ensures History(kids - {name}, seen + {kids - {name}}, number, counter)
  {
  }

  lemma HistoryAddsForeign(kids: set<Str>, seen: set<set<Str>>, number: map<Str, nat>, counter: nat, name: Str)
    requires History(kids, seen, number, counter) && Foreign(name)
    ensures History(kids + {name}, seen + {kids + {name}}, number, counter + 1)
  {
  }

  /** Later numbers only extend earlier ones, and never to a name that was listed without one. */
  ghost predicate Extends(number: map<Str, nat>, number': map<Str, nat>, seen: set<set<Str>>) {
    && number.Keys <= number'.Keys
    && (forall x :: x in number ==> number'[x] == number[x])
    && (forall L, x :: L in seen && x in L && x in number' ==> x in number)
  }

  lemma SoundCarries(c: Client, kids: set<Str>, seen: set<set<Str>>, number: map<Str, nat>, cfg: Config,
                     kids': set<Str>, seen': set<set<Str>>, number': map<Str, nat>)
    requires Sound(c, kids, seen, number, cfg)
    requires seen <= seen' && Extends(number, number', seen)
    requires Active(c) ==> c.name in kids'
    ensures Sound(c, kids', seen', number', cfg)
  {
    if c.Listed? || c.Waiting? || c.Holding? {
      assert Earlier(c.listing, number', c.name) == Earlier(c.listing, number, c.name);
    }
  }

  /** Tree changes that keep every owned node keep every client sound. */
  lemma AllSoundCarries(clients: map<ClientId, Client>, kids: set<Str>, seen: set<set<Str>>, number: map<Str, nat>, cfg: Config,
                        kids': set<Str>, seen': set<set<Str>>, number': map<Str, nat>)
    requires AllSound(clients, kids, seen, number, cfg)
    requires seen <= seen' && Extends(number, number', seen)
    requires forall c :: c in clients && Active(clients[c]) ==> clients[c].name in kids'
    ensures AllSound(clients, kids', seen', number', cfg)
  {
    forall c | c in clients
      ensures Sound(clients[c], kids', seen', number', cfg)
    {
      SoundCarries(clients[c], kids, seen, number, cfg, kids', seen', number');
    }
  }

  lemma ClientChanges(clients: map<ClientId, Client>, c: ClientId, me: Client,
                      kids: set<Str>, seen: set<set<Str>>, number: map<Str, nat>, cfg: Config)
    requires AllSound(clients, kids, seen, number, cfg) && Sound(me, kids, seen, number, cfg)
    requires forall d :: d in clients && d != c && Active(clients[d]) && Active(me) ==> clients[d].name != me.name
    ensures AllSound(clients[c := me], kids, seen, number, cfg)
  {
  }

  lemma ClientIdles(clients: map<ClientId, Client>, c: ClientId, kids: set<Str>, seen: set<set<Str>>, number: map<Str, nat>, cfg: Config)
    requires AllSound(clients, kids, seen, number, cfg)
    ensures AllSound(clients[c := Idle], kids, seen, number, cfg)
  {
    var clients' := clients[c := Idle];
    forall d | d in clients'
      ensures Sound(clients'[d], kids, seen, number, cfg)
    {
      assert d != c ==> clients'[d] == clients[d] && Sound(clients[d], kids, seen, number, cfg);
    }
  }

  lemma InitHolds(cfg: Config, s: State)
    requires Init(cfg, s)
    ensures Inv(cfg, s)
  {
  }

  lemma CreatedLock(s: Store, base: Path)
    requires CreateSequential(s, base + [LOCK], []).Ok?
    ensures var n := Counter(s, base);
            var s' := CreateSequential(s, base + [LOCK], []).value;
            && LockNode(LockName(n), n) && Counter(s', base) == n + 1
            && ChildNames(s'.nodes, base) == ChildNames(s.nodes, base) + {LockName(n)}
  {
    var n := Counter(s, base);
    CreatedChild(s, base, LOCK);
    assert [] + LOCK + Suffix(n) == LockName(n);
    NewNameIsLockNode([], n);
  }

  lemma CreateKeeps(cfg: Config, s: State, c: ClientId, s': State)
    requires Inv(cfg, s) && Creates(cfg, s, c, s')
    ensures Inv(cfg, s')
  {
    CreatedLock(s.store, cfg.base);
    JoinKeeps(cfg, c, s.clients, Children(cfg, s), s.seen, s.number, NextTicket(cfg, s), s.grants);
  }

  /** What a new client node does to each part of the invariant. */
  lemma JoinKeeps(cfg: Config, c: ClientId, clients: map<ClientId, Client>, kids: set<Str>, seen: set<set<Str>>,
                  number: map<Str, nat>, next: Ticket, grants: seq<Ticket>)
    requires LockNode(LockName(next.number), next.number)
    requires History(kids, seen, number, next.number) && AllSound(clients, kids, seen, number, cfg)
    requires cfg.maxLeases == 1 ==> Fair(clients, number, next, grants)
    ensures var name := LockName(next.number);
            var kids', number', clients' := kids + {name}, number[name := next.number], clients[c := Created(name)];
            && History(kids', seen + {kids'}, number', next.number + 1)
            && AllSound(clients', kids', seen + {kids'}, number', cfg)
            && (cfg.maxLeases == 1 ==> Fair(clients', number', next.(number := next.number + 1), grants))
  {
    var name := LockName(next.number);
    HistoryAdds(kids, seen, number, next.number, name);
    ClientJoins(clients, c, kids, seen, number, cfg, next.number, name);
    if cfg.maxLeases == 1 {
      PendingNumbered(clients, kids, seen, number, cfg);
      FairJoin(clients, c, number, next, grants, name);
    }
  }

  lemma PendingNumbered(clients: map<ClientId, Client>, kids: set<Str>, seen: set<set<Str>>, number: map<Str, nat>, cfg: Config)
    requires AllSound(clients, kids, seen, number, cfg)
    ensures forall d :: d in clients && Active(clients[d]) ==> clients[d].name in kids && clients[d].name in number
  {
    forall d | d in clients && Active(clients[d])
      ensures clients[d].name in kids && clients[d].name in number
    {
      assert Sound(clients[d], kids, seen, number, cfg);
    }
  }

  lemma ClientJoins(clients: map<ClientId, Client>, c: ClientId, kids: set<Str>, seen: set<set<Str>>, number: map<Str, nat>,
                    cfg: Config, n: nat, name: Str)
    requires AllSound(clients, kids, seen, number, cfg) && name == LockName(n) && name !in number && forall L :: L in seen ==> name !in L
    ensures AllSound(clients[c := Created(name)], kids + {name}, seen + {kids + {name}}, number[name := n], cfg)
  {
    var kids', seen', number' := kids + {name}, seen + {kids + {name}}, number[name := n];
    forall d | d in clients && Active(clients[d])
      ensures clients[d].name in kids && clients[d].name != name
    {
      assert Sound(clients[d], kids, seen, number, cfg);
    }
    AllSoundCarries(clients, kids, seen, number, cfg, kids', seen', number');
    ClientChanges(clients, c, Created(name), kids', seen', number', cfg);
  }

  lemma FairJoin(clients: map<ClientId, Client>, c: ClientId, number: map<Str, nat>, next: Ticket, grants: seq<Ticket>, name: Str)
    requires Fair(clients, number, next, grants) && name !in number
    requires forall d :: d in clients && Pending(clients[d]) ==> clients[d].name in number
    ensures Fair(clients[c := Created(name)], number[name := next.number], next.(number := next.number + 1), grants)
  {
  }

  lemma OtherCreatesKeeps(cfg: Config, s: State, prefix: Str, s': State)
    requires Inv(cfg, s) && OthersCreate(cfg, s, prefix, s')
    ensures Inv(cfg, s')
  {
    var n, kids := Counter(s.store, cfg.base), Children(cfg, s);
    var name := prefix + LOCK + Suffix(n);
    assert LockNode(name, n) && Children(cfg, s') == kids + {name} && Counter(s'.store, cfg.base) == n + 1 by {
      CreatedChild(s.store, cfg.base, prefix + LOCK);
      NewNameIsLockNode(prefix, n);
    }
    HistoryAdds(kids, s.seen, s.number, n, name);
    PendingNumbered(s.clients, kids, s.seen, s.number, cfg);
    assert AllSound(s.clients, kids + {name}, s'.seen, s'.number, cfg) by {
      AllSoundCarries(s.clients, kids, s.seen, s.number, cfg, kids + {name}, s'.seen, s'.number);
    }
    if cfg.maxLeases == 1 {
      assert Fair(s'.clients, s'.number, NextTicket(cfg, s'), s'.grants) by {
        FairBeside(s.clients, s.number, NextTicket(cfg, s), s.grants, name);
      }
    }
  }

  lemma ForeignCreatesKeeps(cfg: Config, s: State, name: Str, s': State)
    requires Inv(cfg, s) && ForeignAppears(cfg, s, name, s')
    ensures Inv(cfg, s')
  {
    var n, kids := Counter(s.store, cfg.base), Children(cfg, s);
    assert Children(cfg, s') == kids + {name} && Counter(s'.store, cfg.base) == n + 1 by {
      CreatedForeign(s.store, cfg.base, name);
    }
    HistoryAddsForeign(kids, s.seen, s.number, n, name);
    PendingNumbered(s.clients, kids, s.seen, s.number, cfg);
    assert AllSound(s.clients, kids + {name}, s'.seen, s'.number, cfg) by {
      AllSoundCarries(s.clients, kids, s.seen, s.number, cfg, kids + {name}, s'.seen, s'.number);
    }
  }

  lemma FairBeside(clients: map<ClientId, Client>, number: map<Str, nat>, next: Ticket, grants: seq<Ticket>, name: Str)
    requires Fair(clients, number, next, grants) && name !in number
    requires forall d :: d in clients && Pending(clients[d]) ==> clients[d].name in number
    ensures Fair(clients, number[name := next.number], next.(number := next.number + 1), grants)
  {
  }

  lemma ReleaseKeeps(cfg: Config, s: State, c: ClientId, s': State)
    requires Inv(cfg, s) && Releases(cfg, s, c, s')
    ensures Inv(cfg, s')
  {
    var kids, name := Children(cfg, s), s.clients[c].name;
    assert Children(cfg, s') == kids - {name} && Counter(s'.store, cfg.base) == Counter(s.store, cfg.base) by {
      DeletedChild(s.store, cfg.base, name);
    }
    HistoryRemoves(kids, s.seen, s.number, Counter(s.store, cfg.base), name);
    ClientLeaves(s.clients, c, kids, s.seen, s.number, cfg);
    if cfg.maxLeases == 1 {
      FairLeave(s.clients, c, s.number, NextTicket(cfg, s), s.grants);
    }
  }

  lemma FairLeave(clients: map<ClientId, Client>, c: ClientId, number: map<Str, nat>, next: Ticket, grants: seq<Ticket>)
    requires Fair(clients, number, next, grants)
    ensures Fair(clients[c := Idle], number, next, grants)
  {
  }

  /** The base path can only be deleted when nobody has a node under it. */
  lemma BaseDeletedKeeps(cfg: Config, s: State, s': State)
    requires Inv(cfg, s) && BaseGoes(cfg, s, s')
    ensures Inv(cfg, s')
  {
    assert Children(cfg, s) == {} && Children(cfg, s') == {};
    forall c | c in s.clients
      ensures !Active(s.clients[c])
    {
      assert Sound(s.clients[c], Children(cfg, s), s.seen, s.number, cfg);
    }
    assert Counter(s'.store, cfg.base) == 0;
  }

  lemma ClientLeaves(clients: map<ClientId, Client>, c: ClientId, kids: set<Str>, seen: set<set<Str>>, number: map<Str, nat>,
                     cfg: Config)
    requires AllSound(clients, kids, seen, number, cfg) && c in clients && Active(clients[c])
    ensures var kids' := kids - {clients[c].name};
            AllSound(clients[c := Idle], kids', seen + {kids'}, number, cfg)
  {
    var kids', clients' := kids - {clients[c].name}, clients[c := Idle];
    ClientIdles(clients, c, kids, seen, number, cfg);
    PendingNumbered(clients, kids, seen, number, cfg);
    AllSoundCarries(clients', kids, seen, number, cfg, kids', seen + {kids'}, number);
  }

  lemma OtherDeletesKeeps(cfg: Config, s: State, name: Str, s': State)
    requires Inv(cfg, s) && OthersDelete(cfg, s, name, s')
    ensures Inv(cfg, s')
  {
    var kids := Children(cfg, s);
    DeletedChild(s.store, cfg.base, name);
    HistoryRemoves(kids, s.seen, s.number, Counter(s.store, cfg.base), name);
    AllSoundCarries(s.clients, kids, s.seen, s.number, cfg, kids - {name}, s'.seen, s'.number);
  }

  /** When a node is granted with one lease, it is the earliest lock node that is there at all. */
  lemma GrantedIsFirst(cfg: Config, s: State, c: ClientId, x: Str)
    requires Inv(cfg, s) && cfg.maxLeases == 1
    requires c in s.clients && (s.clients[c].Holding? || s.clients[c].Listed?)
    requires |Earlier(s.clients[c].listing, s.number, s.clients[c].name)| == 0
    requires x in Children(cfg, s) && x in s.number
    ensures s.number[s.clients[c].name] <= s.number[x]
  {
    var me := s.clients[c];
    assert Sound(me, Children(cfg, s), s.seen, s.number, cfg);
    assert Earlier(me.listing, s.number, me.name) == {};
    assert x in me.listing ==> x !in Earlier(me.listing, s.number, me.name);
  }

  /** The client's new state after a decision is sound. */
  lemma DecisionIsSound(cfg: Config, s: State, c: ClientId, sorted: seq<Str>, s': State)
    requires Inv(cfg, s) && Decides(cfg, s, c, sorted, s')
    ensures c in s'.clients && Sound(s'.clients[c], Children(cfg, s), s.seen, s.number, cfg)
    ensures s'.clients[c].Holding? || s'.clients[c].Waiting?
    ensures s'.clients[c].name == s.clients[c].name && s'.clients[c].listing == s.clients[c].listing
  {
    var me := s.clients[c];
    assert Sound(me, Children(cfg, s), s.seen, s.number, cfg);
    if cfg.base == [] {
      CutNameByRank(sorted, me.listing, s.number, me.name, cfg.maxLeases);
    } else {
      GrantedByRank(sorted, me.listing, s.number, me.name, cfg.maxLeases);
      if cfg.maxLeases > 0 {
        WatchedByKey(sorted, me.listing, me.name, cfg.maxLeases);
      }
    }
  }

  lemma DecideKeeps(cfg: Config, s: State, c: ClientId, sorted: seq<Str>, s': State)
    requires Inv(cfg, s) && Decides(cfg, s, c, sorted, s')
    ensures Inv(cfg, s')
  {
    DecisionIsSound(cfg, s, c, sorted, s');
    assert s'.store == s.store && s'.seen == s.seen && s'.number == s.number;
    assert s'.clients == s.clients[c := s'.clients[c]];
    ClientChanges(s.clients, c, s'.clients[c], Children(cfg, s), s.seen, s.number, cfg);
    if cfg.maxLeases == 1 {
      if s'.clients[c].Holding? {
        FairGrant(cfg, s, c);
      }
    }
  }

  lemma FairGrant(cfg: Config, s: State, c: ClientId)
    requires Inv(cfg, s) && cfg.maxLeases == 1
    requires c in s.clients && s.clients[c].Listed?
    requires s.clients[c].name in s.number && |Earlier(s.clients[c].listing, s.number, s.clients[c].name)| == 0
    ensures var me := s.clients[c];
            Fair(s.clients[c := Holding(me.name, me.listing)], s.number, NextTicket(cfg, s),
                 s.grants + [Ticket(s.epoch, s.number[me.name])])
  {
    var me := s.clients[c];
    PendingNumbered(s.clients, Children(cfg, s), s.seen, s.number, cfg);
    forall d | d in s.clients && d != c && Pending(s.clients[d])
      ensures s.number[me.name] < s.number[s.clients[d].name]
    {
      GrantedIsFirst(cfg, s, c, s.clients[d].name);
    }
    FairPush(s.clients, c, s.number, NextTicket(cfg, s), s.grants);
  }

  lemma FairPush(clients: map<ClientId, Client>, c: ClientId, number: map<Str, nat>, next: Ticket, grants: seq<Ticket>)
    requires Fair(clients, number, next, grants)
    requires c in clients && clients[c].Listed? && clients[c].name in number && number[clients[c].name] < next.number
    requires forall d :: d in clients && d != c && Pending(clients[d]) && clients[d].name in number ==>
               number[clients[c].name] < number[clients[d].name]
    ensures Fair(clients[c := Holding(clients[c].name, clients[c].listing)], number, next,
                 grants + [Ticket(next.epoch, number[clients[c].name])])
  {
  }

  /** Every step of every client, and every step of the world around, keeps the invariant. */
  lemma NextKeeps(cfg: Config, s: State, step: Step, s': State)
    requires Inv(cfg, s) && Next(cfg, s, step, s')
    ensures Inv(cfg, s')
  {
    match step
    case Create(c) => CreateKeeps(cfg, s, c, s');
    case Decide(c, sorted) => DecideKeeps(cfg, s, c, sorted, s');
    case Release(c) => ReleaseKeeps(cfg, s, c, s');
    case OtherCreates(prefix) => OtherCreatesKeeps(cfg, s, prefix, s');
    case ForeignCreates(name) => ForeignCreatesKeeps(cfg, s, name, s');
    case OtherDeletes(name) => OtherDeletesKeeps(cfg, s, name, s');
    case BaseDeleted => BaseDeletedKeeps(cfg, s, s');
    case List(c, listing) => ListKeeps(cfg, s, c, listing, s');
    case Wake(c) => WakeKeeps(cfg, s, c, s');
    case Abandon(c) => AbandonKeeps(cfg, s, c, s');
    case Elsewhere(store) => ElsewhereKeeps(cfg, s, store, s');
  }

  lemma ElsewhereKeeps(cfg: Config, s: State, store: Store, s': State)
    requires Inv(cfg, s) && ElsewhereMoves(cfg, s, store, s')
    ensures Inv(cfg, s')
  {
    assert s'.seen == s.seen;
  }

  lemma ListKeeps(cfg: Config, s: State, c: ClientId, listing: set<Str>, s': State)
    requires Inv(cfg, s) && Lists(s, c, listing, s')
    ensures Inv(cfg, s')
  {
    assert Sound(s.clients[c], Children(cfg, s), s.seen, s.number, cfg);
    LocalKeeps(cfg, s, c, s');
  }

  lemma WakeKeeps(cfg: Config, s: State, c: ClientId, s': State)
    requires Inv(cfg, s) && Wakes(s, c, s')
    ensures Inv(cfg, s')
  {
    assert Sound(s.clients[c], Children(cfg, s), s.seen, s.number, cfg);
    LocalKeeps(cfg, s, c, s');
  }

  lemma AbandonKeeps(cfg: Config, s: State, c: ClientId, s': State)
    requires Inv(cfg, s) && Abandons(s, c, s')
    ensures Inv(cfg, s')
  {
    ClientIdles(s.clients, c, Children(cfg, s), s.seen, s.number, cfg);
    if cfg.maxLeases == 1 {
      FairLeave(s.clients, c, s.number, NextTicket(cfg, s), s.grants);
    }
  }

  /** A step that only moves one client's own state, without granting. */
  lemma LocalKeeps(cfg: Config, s: State, c: ClientId, s': State)
    requires Inv(cfg, s) && c in s.clients && c in s'.clients
    requires s' == s.(clients := s.clients[c := s'.clients[c]])
    requires Sound(s'.clients[c], Children(cfg, s), s.seen, s.number, cfg)
    requires Active(s'.clients[c]) ==> Active(s.clients[c]) && s.clients[c].name == s'.clients[c].name
    requires Pending(s'.clients[c]) ==> Pending(s.clients[c])
    ensures Inv(cfg, s')
  {
    var me := s'.clients[c];
    assert AllSound(s.clients[c := me], Children(cfg, s), s.seen, s.number, cfg) by {
      ClientChanges(s.clients, c, me, Children(cfg, s), s.seen, s.number, cfg);
    }
    if cfg.maxLeases == 1 {
      FairLocal(s.clients, c, me, s.number, NextTicket(cfg, s), s.grants);
    }
  }

  lemma FairLocal(clients: map<ClientId, Client>, c: ClientId, me: Client, number: map<Str, nat>, next: Ticket, grants: seq<Ticket>)
    requires Fair(clients, number, next, grants) && c in clients
    requires Pending(me) ==> Pending(clients[c]) && clients[c].name == me.name
    ensures Fair(clients[c := me], number, next, grants)
  {
  }

  // ---------- runs ----------

  ghost predicate Run(cfg: Config, run: seq<State>, steps: seq<Step>) {
    && |run| == |steps| + 1
    && Init(cfg, run[0])
    && forall i :: 0 <= i < |steps| ==> Next(cfg, run[i], steps[i], run[i + 1])
  }

  /** Any tree may be the first one whose lock nodes have numbers of their own, below the counter. */
  lemma AnyTreeStarts(cfg: Config, store: Store, number: map<Str, nat>) returns (s: State)
    requires number.Keys <= ChildNames(store.nodes, cfg.base) && Numbered(number.Keys, number)
    requires forall x :: x in ChildNames(store.nodes, cfg.base) && x !in number ==> Foreign(x)
    requires forall x :: x in number ==> number[x] < Counter(store, cfg.base)
    ensures Run(cfg, [s], []) && s.store == store && s.clients == map[] && s.number == number
  {
    s := State(store, map[], {ChildNames(store.nodes, cfg.base)}, number, 0, []);
  }

  lemma {:induction false} RunKeeps(cfg: Config, run: seq<State>, steps: seq<Step>, i: nat)
    requires Run(cfg, run, steps) && i < |run|
    ensures Inv(cfg, run[i])
  {
    if i == 0 {
      InitHolds(cfg, run[0]);
    } else {
      RunKeeps(cfg, run, steps, i - 1);
      NextKeeps(cfg, run[i - 1], steps[i - 1], run[i]);
    }
  }

  ghost function Holders(s: State): set<ClientId> {
    set c | c in s.clients && s.clients[c].Holding?
  }

  // ---------- at most maxLeases holders ----------

  function NameOf(s: State, c: ClientId): Str {
    if c in s.clients && Active(s.clients[c]) then s.clients[c].name else []
  }

  lemma {:induction false} LatestOf(s: State, group: set<ClientId>) returns (c: ClientId)
    requires group != {} && forall d :: d in group ==> NameOf(s, d) in s.number
    ensures c in group && forall d :: d in group ==> s.number[NameOf(s, d)] <= s.number[NameOf(s, c)]
    decreases |group|
  {
    c :| c in group;
    var rest := group - {c};
    if rest != {} {
      var d := LatestOf(s, rest);
      if s.number[NameOf(s, c)] < s.number[NameOf(s, d)] {
        c := d;
      }
    }
  }

  lemma {:induction false} DistinctNamesFit(s: State, group: set<ClientId>, names: set<Str>)
    requires forall d :: d in group ==> NameOf(s, d) in names
    requires forall d, e :: d in group && e in group && d != e ==> NameOf(s, d) != NameOf(s, e)
    ensures |group| <= |names|
    decreases |group|
  {
    if group != {} {
      var d :| d in group;
      DistinctNamesFit(s, group - {d}, names - {NameOf(s, d)});
    }
  }

  /** Of two holders, the earlier one's node is among the nodes the later one saw before its own. */
  lemma HolderIsEarlier(cfg: Config, s: State, c: ClientId, d: ClientId)
    requires Inv(cfg, s) && c in Holders(s) && d in Holders(s) && c != d
    ensures NameOf(s, c) in s.number && NameOf(s, d) in s.number && NameOf(s, c) != NameOf(s, d)
    ensures s.number[NameOf(s, d)] <= s.number[NameOf(s, c)] ==>
              NameOf(s, d) in Earlier(s.clients[c].listing, s.number, NameOf(s, c))
  {
  }

  lemma HoldersBounded(cfg: Config, s: State)
    requires Inv(cfg, s)
    ensures |Holders(s)| <= cfg.maxLeases
  {
    var group := Holders(s);
    if group != {} {
      forall d | d in group
        ensures NameOf(s, d) in s.number
      {
        assert Sound(s.clients[d], Children(cfg, s), s.seen, s.number, cfg);
      }
      var c := LatestOf(s, group);
      var me := s.clients[c];
      assert Sound(me, Children(cfg, s), s.seen, s.number, cfg);
      var earlier := Earlier(me.listing, s.number, me.name);
      forall d | d in group - {c}
        ensures NameOf(s, d) in earlier
      {
        HolderIsEarlier(cfg, s, c, d);
      }
      forall d, e | d in group - {c} && e in group - {c} && d != e
        ensures NameOf(s, d) != NameOf(s, e)
      {
        HolderIsEarlier(cfg, s, d, e);
      }
      DistinctNamesFit(s, group - {c}, earlier);
    }
  }

  /** In every reachable state at most `maxLeases` clients hold the lock. */
  lemma LeaseSafety(cfg: Config, run: seq<State>, steps: seq<Step>, i: nat)
    requires Run(cfg, run, steps) && i < |run|
    ensures |Holders(run[i])| <= cfg.maxLeases
  {
    RunKeeps(cfg, run, steps, i);
    HoldersBounded(cfg, run[i]);
  }

  /** With one lease: mutual exclusion. */
  lemma MutualExclusion(cfg: Config, run: seq<State>, steps: seq<Step>, i: nat, c: ClientId, d: ClientId)
    requires Run(cfg, run, steps) && i < |run| && cfg.maxLeases == 1
    requires c in Holders(run[i]) && d in Holders(run[i])
    ensures c == d
  {
    LeaseSafety(cfg, run, steps, i);
    var group := Holders(run[i]);
    assert c != d ==> |group - {c} - {d}| == |group| - 2;
  }

  /** With one lease nobody ever holds a lock whose base path is the root. */
  lemma NoLockAtRoot(cfg: Config, run: seq<State>, steps: seq<Step>, i: nat)
    requires Run(cfg, run, steps) && i < |run| && cfg.base == [] && cfg.maxLeases == 1
    ensures Holders(run[i]) == {}
  {
    RunKeeps(cfg, run, steps, i);
    forall c | c in run[i].clients
      ensures !run[i].clients[c].Holding?
    {
      assert Sound(run[i].clients[c], Children(cfg, run[i]), run[i].seen, run[i].number, cfg);
    }
  }

  // ---------- grant order ----------

  /** Step `i` gives the lock to a client. */
  ghost predicate Grants(run: seq<State>, steps: seq<Step>, i: nat)
    requires |run| == |steps| + 1
  {
    i < |steps| && steps[i].Decide? && steps[i].c in Holders(run[i + 1])
  }

  lemma {:induction false} GrantsGrow(cfg: Config, run: seq<State>, steps: seq<Step>, i: nat, j: nat)
    requires Run(cfg, run, steps) && i <= j < |run|
    ensures run[i].grants <= run[j].grants
    decreases j - i
  {
    if i < j {
      GrantsGrow(cfg, run, steps, i, j - 1);
      assert Next(cfg, run[j - 1], steps[j - 1], run[j]);
    }
  }

  /** With one lease, a step that grants a node grants the earliest lock node the base path has at that
      moment. */
  lemma FairGrants(cfg: Config, run: seq<State>, steps: seq<Step>, i: nat)
    requires Run(cfg, run, steps) && Grants(run, steps, i) && cfg.maxLeases == 1
    ensures var name := run[i + 1].clients[steps[i].c].name;
            && name in run[i].number
            && run[i + 1].grants == run[i].grants + [Ticket(run[i].epoch, run[i].number[name])]
            && forall x :: x in Children(cfg, run[i]) && x in run[i].number ==> run[i].number[name] <= run[i].number[x]
  {
    RunKeeps(cfg, run, steps, i);
    var s, c := run[i], steps[i].c;
    var me := s.clients[c];
    assert Next(cfg, s, steps[i], run[i + 1]);
    assert Sound(me, Children(cfg, s), s.seen, s.number, cfg);
    DecisionIsSound(cfg, s, c, steps[i].sorted, run[i + 1]);
    forall x | x in Children(cfg, s) && x in s.number
      ensures s.number[me.name] <= s.number[x]
    {
      GrantedIsFirst(cfg, s, c, x);
    }
  }

  /** With one lease, of any two grants of a run the later one goes to the node created later, also
      across a deletion of the base path. */
  lemma GrantOrder(cfg: Config, run: seq<State>, steps: seq<Step>, i: nat, j: nat)
    requires Run(cfg, run, steps) && i < j && Grants(run, steps, i) && Grants(run, steps, j) && cfg.maxLeases == 1
    ensures var a, b := run[i + 1].clients[steps[i].c].name, run[j + 1].clients[steps[j].c].name;
            && a in run[i].number && b in run[j].number
            && Before(Ticket(run[i].epoch, run[i].number[a]), Ticket(run[j].epoch, run[j].number[b]))
  {
    FairGrants(cfg, run, steps, i);
    FairGrants(cfg, run, steps, j);
    GrantsGrow(cfg, run, steps, i + 1, j);
    RunKeeps(cfg, run, steps, j + 1);
    var all := run[j + 1].grants;
    assert all[|run[i].grants|] == run[i + 1].grants[|run[i].grants|];
    assert Before(all[|run[i].grants|], all[|all| - 1]);
  }

  // ---------- the wait graph ----------

  /** Away from the root: a waiter watches another name that is not after its own, so a watched lock
      node is strictly earlier; with one lease no earlier lock node of its listing is nearer. */
  lemma WatchesNearest(cfg: Config, s: State, c: ClientId)
    requires Inv(cfg, s) && cfg.base != [] && cfg.maxLeases > 0
    requires c in s.clients && s.clients[c].Waiting?
    ensures var me := s.clients[c];
            && me.name in s.number && me.watching != me.name && !Less(Key(me.name), Key(me.watching))
            && (me.watching in s.number ==> s.number[me.watching] < s.number[me.name])
            && (cfg.maxLeases == 1 ==> forall x :: x in me.listing && x in s.number && s.number[x] < s.number[me.name] ==>
                  && !Less(Key(me.watching), Key(x))
                  && (me.watching in s.number ==> s.number[x] <= s.number[me.watching]))
  {
    var me := s.clients[c];
    assert Sound(me, Children(cfg, s), s.seen, s.number, cfg);
    if me.watching in s.number {
      OrderOfKeys(s.number, me.name, me.watching);
    }
    forall x | cfg.maxLeases == 1 && x in me.listing && x in s.number && s.number[x] < s.number[me.name]
      ensures !Less(Key(me.watching), Key(x)) && (me.watching in s.number ==> s.number[x] <= s.number[me.watching])
    {
      OrderOfKeys(s.number, x, me.name);
      if me.watching in s.number {
        OrderOfKeys(s.number, me.watching, x);
      }
    }
  }

  lemma OrderOfKeys(number: map<Str, nat>, x: Str, y: Str)
    requires Numbered(number.Keys, number) && x in number && y in number
    ensures Less(Key(x), Key(y)) <==> number[x] < number[y]
    ensures number[x] == number[y] ==> x == y
  {
    KeyIsSuffix(x, number[x]);
    KeyIsSuffix(y, number[y]);
    SuffixOrder(number[x], number[y]);
  }

  /** With one lease, two waiters watch the same name only if it is no lock node: it is the ten digits of
      the earlier of them, and nothing else. */
  lemma SharedWatchTies(cfg: Config, s: State, c: ClientId, d: ClientId)
    requires Inv(cfg, s) && cfg.base != [] && cfg.maxLeases == 1
    requires c in s.clients && d in s.clients && s.clients[c].Waiting? && s.clients[d].Waiting?
    requires s.clients[c].name in s.number && s.clients[d].name in s.number
    requires s.number[s.clients[c].name] < s.number[s.clients[d].name] && s.clients[c].watching == s.clients[d].watching
    ensures s.clients[c].watching !in s.number && s.clients[c].watching == Suffix(s.number[s.clients[c].name])
  {
    var me, you := s.clients[c], s.clients[d];
    WatchesNearest(cfg, s, c);
    WatchesNearest(cfg, s, d);
    assert Sound(me, Children(cfg, s), s.seen, s.number, cfg) && Sound(you, Children(cfg, s), s.seen, s.number, cfg);
    assert me.name in you.listing;
    NeitherLess(Key(me.watching), Key(me.name));
    KeyIsSuffix(me.name, s.number[me.name]);
    assert Foreign(me.watching);
    KeyedAlike(me.watching, s.number[me.name]);
  }

  lemma {:induction false} NeitherLess(a: Str, b: Str)
    requires !Less(a, b) && !Less(b, a)
    ensures a == b
  {
    if a != [] && b != [] {
      NeitherLess(a[1..], b[1..]);
      assert a == [a[0]] + a[1..] && b == [b[0]] + b[1..];
    }
  }

  /** With one lease, in every reachable state, whatever else the base path holds: a waiter that watches
      a lock node watches a strictly earlier one, alone, and while that node is there no listing the
      waiter could be given puts the waiter first. Another child is watched by two waiters only if its
      name is the ten digits of the earlier one. */
  lemma WaitGraph(cfg: Config, run: seq<State>, steps: seq<Step>, i: nat, c: ClientId)
    requires Run(cfg, run, steps) && i < |run| && cfg.base != [] && cfg.maxLeases == 1
    requires c in run[i].clients && run[i].clients[c].Waiting?
    ensures var s := run[i];
            var me := s.clients[c];
            && me.name in s.number
            && (forall d :: d in s.clients && d != c && s.clients[d].Waiting? && s.clients[d].watching == me.watching ==>
                  && me.watching !in s.number && s.clients[d].name in s.number
                  && me.watching == Suffix(Least(s.number[me.name], s.number[s.clients[d].name])))
            && (me.watching in s.number ==> s.number[me.watching] < s.number[me.name])
            && (me.watching in s.number && me.watching in Children(cfg, s) ==>
                  forall L :: L in s.seen && me.name in L ==> me.watching in L)
  {
    RunKeeps(cfg, run, steps, i);
    var s := run[i];
    var me := s.clients[c];
    WatchesNearest(cfg, s, c);
    forall d | d in s.clients && d != c && s.clients[d].Waiting? && s.clients[d].watching == me.watching
      ensures me.watching !in s.number && s.clients[d].name in s.number
      ensures me.watching == Suffix(Least(s.number[me.name], s.number[s.clients[d].name]))
    {
      WatchesNearest(cfg, s, d);
      if s.number[me.name] < s.number[s.clients[d].name] {
        SharedWatchTies(cfg, s, c, d);
      } else {
        SharedWatchTies(cfg, s, d, c);
      }
    }
  }

  /** A chain of waiters, each watching the node of the next. */
  ghost predicate WaitChain(s: State, chain: seq<ClientId>) {
    && (forall i :: 0 <= i < |chain| ==> chain[i] in s.clients && Active(s.clients[chain[i]]))
    && (forall i :: 0 <= i < |chain| - 1 ==>
          s.clients[chain[i]].Waiting? && s.clients[chain[i]].watching == s.clients[chain[i + 1]].name)
  }

  /** Numbers fall along a chain, so waiting never closes a circle, with any number of leases. */
  lemma {:induction false} NoWaitCycle(cfg: Config, run: seq<State>, steps: seq<Step>, i: nat, chain: seq<ClientId>, j: nat)
    requires Run(cfg, run, steps) && i < |run| && cfg.base != [] && cfg.maxLeases > 0
    requires WaitChain(run[i], chain) && 0 < j < |chain|
    ensures var s := run[i];
            && s.clients[chain[0]].name in s.number && s.clients[chain[j]].name in s.number
            && s.number[s.clients[chain[j]].name] < s.number[s.clients[chain[0]].name]
    ensures chain[0] != chain[j]
  {
    var s := run[i];
    RunKeeps(cfg, run, steps, i);
    assert Sound(s.clients[chain[j]], Children(cfg, s), s.seen, s.number, cfg);
    WatchesNearest(cfg, s, chain[j - 1]);
    if j > 1 {
      NoWaitCycle(cfg, run, steps, i, chain, j - 1);
    }
  }

  // ---------- progress ----------

  /** What a client that looks now would decide: by the number of lock nodes before its own and, whatever
      else is there, by the keys of all the children. */
  ghost predicate DecidesByRank(holds: bool, kids: set<Str>, number: map<Str, nat>, name: Str, maxLeases: nat)
    requires name in number
  {
    && (holds ==> |Earlier(kids, number, name)| < maxLeases && |Ahead(kids, name)| < maxLeases)
    && (|NotBehind(kids, name)| < maxLeases ==> holds)
    && (kids <= number.Keys && |Earlier(kids, number, name)| < maxLeases ==> holds)
  }

  lemma DecisionNow(sorted: seq<Str>, kids: set<Str>, number: map<Str, nat>, name: Str, maxLeases: nat)
    requires SortedListing(sorted, kids) && Numbered(number.Keys, number) && name in kids && name in number
    ensures var d := Decision(sorted, name, maxLeases);
            d.Ok? && DecidesByRank(d.value.getsTheLock, kids, number, name, maxLeases)
  {
    GrantedByRank(sorted, kids, number, name, maxLeases);
    GrantedByKeys(sorted, kids, name, maxLeases);
    if kids <= number.Keys {
      DecisionByRank(sorted, kids, number, name, maxLeases);
    }
  }

  lemma LookNow(cfg: Config, s: State, c: ClientId, sorted: seq<Str>) returns (seen: State, decided: State)
    requires Inv(cfg, s) && cfg.base != [] && SortedListing(sorted, Children(cfg, s))
    requires c in s.clients && (s.clients[c].Created? || s.clients[c].Waiting?)
    ensures Lists(s, c, Children(cfg, s), seen) && Decides(cfg, seen, c, sorted, decided)
    ensures s.clients[c].name in s.number && c in decided.clients
    ensures DecidesByRank(decided.clients[c].Holding?, Children(cfg, s), s.number, s.clients[c].name, cfg.maxLeases)
  {
    var kids, me := Children(cfg, s), s.clients[c];
    assert me.name in kids && me.name in s.number by {
      assert Sound(me, kids, s.seen, s.number, cfg);
    }
    DecisionNow(sorted, kids, s.number, me.name, cfg.maxLeases);
    var d := Decision(sorted, me.name, cfg.maxLeases).value;
    seen := s.(clients := s.clients[c := Listed(me.name, kids)]);
    decided := if d.getsTheLock
      then seen.(clients := seen.clients[c := Holding(me.name, kids)], grants := s.grants + [Ticket(s.epoch, s.number[me.name])])
      else seen.(clients := seen.clients[c := Waiting(me.name, kids, d.pathToWatch)]);
  }

  /** Away from the root, in every reachable state, a client that looks at the children as they are can
      decide. It gets the lock only if fewer than `maxLeases` lock nodes, and names of any kind, sort before
      its own, and always if fewer than `maxLeases` other names may sort before it. */
  lemma LookingDecides(cfg: Config, run: seq<State>, steps: seq<Step>, i: nat, c: ClientId, sorted: seq<Str>)
    returns (seen: State, decided: State)
    requires Run(cfg, run, steps) && i < |run| && cfg.base != []
    requires c in run[i].clients && (run[i].clients[c].Created? || run[i].clients[c].Waiting?)
    requires SortedListing(sorted, Children(cfg, run[i]))
    ensures Next(cfg, run[i], List(c, Children(cfg, run[i])), seen)
    ensures Next(cfg, seen, Decide(c, sorted), decided)
    ensures run[i].clients[c].name in run[i].number && c in decided.clients
    ensures DecidesByRank(decided.clients[c].Holding?, Children(cfg, run[i]), run[i].number, run[i].clients[c].name, cfg.maxLeases)
  {
    RunKeeps(cfg, run, steps, i);
    seen, decided := LookNow(cfg, run[i], c, sorted);
  }

  // ---------- which steps can happen ----------

  ghost predicate Childless(cfg: Config, s: State, name: Str) {
    ChildNames(s.store.nodes, cfg.base + [name]) == {}
  }

  /** The base path is there and has numbers left. */
  ghost predicate TakesNodes(cfg: Config, s: State) {
    cfg.base in s.store.nodes && Counter(s.store, cfg.base) < SEQUENCE_LIMIT
  }

  /** What a step needs, in terms of the tree and of what its client is doing. */
  ghost predicate Enabled(cfg: Config, s: State, step: Step) {
    match step
    case Create(c) => (c !in s.clients || s.clients[c].Idle?) && TakesNodes(cfg, s)
    case List(c, listing) =>
      c in s.clients && (s.clients[c].Created? || s.clients[c].Waiting?) && listing in s.seen && s.clients[c].name in listing
    case Decide(c, sorted) =>
      && c in s.clients && s.clients[c].Listed? && SortedListing(sorted, s.clients[c].listing)
      && (cfg.base == [] ==> LooksFor(cfg, s.clients[c].name) in s.clients[c].listing)
    case Wake(c) => c in s.clients && s.clients[c].Waiting?
    case Release(c) => c in Holders(s) && Childless(cfg, s, s.clients[c].name)
    case Abandon(c) => c in s.clients && !s.clients[c].Idle?
    case OtherCreates(prefix) => TakesNodes(cfg, s)
    case ForeignCreates(name) => Foreign(name) && cfg.base in s.store.nodes && name !in Children(cfg, s)
    case OtherDeletes(name) => name !in OwnedNames(s) && name in Children(cfg, s) && Childless(cfg, s, name)
    case BaseDeleted => cfg.base != [] && cfg.base in s.store.nodes && Children(cfg, s) == {}
    case Elsewhere(store) =>
      ChildNames(store.nodes, cfg.base) == Children(cfg, s) && Counter(store, cfg.base) >= Counter(s.store, cfg.base)
  }

  /** A lock node of the next number, whatever stands before `lock-`, can always be made. */
  lemma RoomForNext(cfg: Config, s: State, prefix: Str)
    requires Inv(cfg, s)
    ensures CreateSequential(s.store, cfg.base + [prefix + LOCK], []).Ok? <==> TakesNodes(cfg, s)
  {
    var n, name := Counter(s.store, cfg.base), prefix + LOCK + Suffix(Counter(s.store, cfg.base));
    var p := cfg.base + [prefix + LOCK];
    assert Parent(p) == cfg.base && SequentialPath(s.store, p) == cfg.base + [name];
    assert Parent(cfg.base + [name]) == cfg.base;
    if n < SEQUENCE_LIMIT {
      NewNameIsLockNode(prefix, n);
      HistoryAdds(Children(cfg, s), s.seen, s.number, n, name);
      ChildIsNode(s.store.nodes, cfg.base, name);
    }
  }

  lemma RoomForLock(cfg: Config, s: State)
    requires Inv(cfg, s)
    ensures CreateSequential(s.store, cfg.base + [LOCK], []).Ok? <==> TakesNodes(cfg, s)
  {
    RoomForNext(cfg, s, []);
    assert [] + LOCK == LOCK;
  }

  lemma DeleteNeeds(s: Store, base: Path, name: Str)
    ensures DeleteNode(s, base + [name], ANY_VERSION).Ok? <==>
            name in ChildNames(s.nodes, base) && ChildNames(s.nodes, base + [name]) == {}
  {
    ChildIsNode(s.nodes, base, name);
  }

  lemma ForeignNeeds(s: Store, base: Path, name: Str)
    ensures CreateNode(s, base + [name], []).Ok? <==> base in s.nodes && name !in ChildNames(s.nodes, base)
  {
    ChildIsNode(s.nodes, base, name);
    assert Parent(base + [name]) == base;
  }

  lemma DecideNeeds(cfg: Config, s: State, c: ClientId, sorted: seq<Str>)
    requires Inv(cfg, s) && c in s.clients && s.clients[c].Listed? && SortedListing(sorted, s.clients[c].listing)
    ensures s.clients[c].name in s.number
    ensures Decision(sorted, LooksFor(cfg, s.clients[c].name), cfg.maxLeases).Ok? <==> Enabled(cfg, s, Decide(c, sorted))
  {
    var me := s.clients[c];
    assert Sound(me, Children(cfg, s), s.seen, s.number, cfg);
    assert forall x :: x in sorted <==> x in multiset(sorted);
    assert LooksFor(cfg, me.name) in sorted <==> LooksFor(cfg, me.name) in me.listing;
  }

  /** A step happens in no other case. */
  lemma StepWasEnabled(cfg: Config, s: State, step: Step, s': State)
    requires Inv(cfg, s) && Next(cfg, s, step, s')
    ensures Enabled(cfg, s, step)
  {
    match step
    case Create(_) => RoomForLock(cfg, s);
    case OtherCreates(prefix) => RoomForNext(cfg, s, prefix);
    case ForeignCreates(name) => ForeignNeeds(s.store, cfg.base, name);
    case OtherDeletes(name) => DeleteNeeds(s.store, cfg.base, name);
    case Release(c) => DeleteNeeds(s.store, cfg.base, s.clients[c].name);
    case Decide(c, sorted) => DecideNeeds(cfg, s, c, sorted);
    case _ =>
  }

  lemma CanCreate(cfg: Config, s: State, c: ClientId) returns (s': State)
    requires Inv(cfg, s) && Enabled(cfg, s, Create(c))
    ensures Creates(cfg, s, c, s')
  {
    RoomForLock(cfg, s);
    var n := Counter(s.store, cfg.base);
    var store := CreateSequential(s.store, cfg.base + [LOCK], []).value;
    s' := Moved(cfg, s, store).(clients := s.clients[c := Created(LockName(n))], number := s.number[LockName(n) := n]);
  }

  lemma CanDecide(cfg: Config, s: State, c: ClientId, sorted: seq<Str>) returns (s': State)
    requires Inv(cfg, s) && Enabled(cfg, s, Decide(c, sorted))
    ensures Decides(cfg, s, c, sorted, s')
  {
    DecideNeeds(cfg, s, c, sorted);
    var me := s.clients[c];
    var d := Decision(sorted, LooksFor(cfg, me.name), cfg.maxLeases).value;
    s' := if d.getsTheLock
      then s.(clients := s.clients[c := Holding(me.name, me.listing)], grants := s.grants + [Ticket(s.epoch, s.number[me.name])])
      else s.(clients := s.clients[c := Waiting(me.name, me.listing, d.pathToWatch)]);
  }

  lemma CanRelease(cfg: Config, s: State, c: ClientId) returns (s': State)
    requires Inv(cfg, s) && Enabled(cfg, s, Release(c))
    ensures Releases(cfg, s, c, s')
  {
    var name := s.clients[c].name;
    assert Sound(s.clients[c], Children(cfg, s), s.seen, s.number, cfg);
    DeleteNeeds(s.store, cfg.base, name);
    var store := DeleteNode(s.store, cfg.base + [name], ANY_VERSION).value;
    s' := Moved(cfg, s, store).(clients := s.clients[c := Idle]);
  }

  lemma CanMoveAround(cfg: Config, s: State, step: Step) returns (s': State)
    requires Inv(cfg, s) && Enabled(cfg, s, step)
    requires step.OtherCreates? || step.ForeignCreates? || step.OtherDeletes? || step.BaseDeleted?
    ensures Next(cfg, s, step, s')
  {
    match step
    case OtherCreates(prefix) =>
      RoomForNext(cfg, s, prefix);
      var n := Counter(s.store, cfg.base);
      s' := Moved(cfg, s, CreateSequential(s.store, cfg.base + [prefix + LOCK], []).value)
        .(number := s.number[prefix + LOCK + Suffix(n) := n]);
    case ForeignCreates(name) =>
      ForeignNeeds(s.store, cfg.base, name);
      s' := Moved(cfg, s, CreateNode(s.store, cfg.base + [name], []).value);
    case OtherDeletes(name) =>
      DeleteNeeds(s.store, cfg.base, name);
      s' := Moved(cfg, s, DeleteNode(s.store, cfg.base + [name], ANY_VERSION).value);
    case BaseDeleted =>
      var store := DeleteNode(s.store, cfg.base, ANY_VERSION).value;
      s' := s.(store := store, seen := {ChildNames(store.nodes, cfg.base)}, number := map[], epoch := s.epoch + 1);
  }

  /** Whatever a step needs is also enough: no client is shut out of a step it could take. */
  lemma EnabledSteps(cfg: Config, s: State, step: Step) returns (s': State)
    requires Inv(cfg, s) && Enabled(cfg, s, step)
    ensures Next(cfg, s, step, s')
  {
    match step
    case Create(c) => s' := CanCreate(cfg, s, c);
    case List(c, listing) => s' := s.(clients := s.clients[c := Listed(s.clients[c].name, listing)]);
    case Decide(c, sorted) => s' := CanDecide(cfg, s, c, sorted);
    case Wake(c) => s' := s.(clients := s.clients[c := Created(s.clients[c].name)]);
    case Release(c) => s' := CanRelease(cfg, s, c);
    case Abandon(c) => s' := s.(clients := s.clients[c := Idle]);
    case Elsewhere(store) => s' := Moved(cfg, s, store);
    case _ => s' := CanMoveAround(cfg, s, step);
  }

  // ---------- coming in and going out ----------

  /** The step with which a client gives its node up. */
  predicate Leaves(step: Step, c: ClientId) {
    step == Release(c) || step == Abandon(c)
  }

  lemma PlaceKept(cfg: Config, s: State, step: Step, s': State, c: ClientId)
    requires Next(cfg, s, step, s') && c in s.clients && Active(s.clients[c]) && !Leaves(step, c)
    ensures c in s'.clients && Active(s'.clients[c]) && s'.clients[c].name == s.clients[c].name
    ensures s.clients[c].Holding? ==> s'.clients[c].Holding?
  {
  }

  /** Over any part of a run: a client in the queue keeps its node, and a holder its lock, until that client
      itself releases or abandons it, whatever all the others do. */
  lemma {:induction false} PlaceKeptOverRuns(cfg: Config, run: seq<State>, steps: seq<Step>, i: nat, j: nat, c: ClientId)
    requires Run(cfg, run, steps) && i <= j < |run| && c in run[i].clients && Active(run[i].clients[c])
    requires forall k :: i <= k < j ==> !Leaves(steps[k], c)
    ensures c in run[j].clients && Active(run[j].clients[c]) && run[j].clients[c].name == run[i].clients[c].name
    ensures c in Holders(run[i]) ==> c in Holders(run[j])
    decreases j - i
  {
    if i < j {
      PlaceKeptOverRuns(cfg, run, steps, i, j - 1, c);
      PlaceKept(cfg, run[j - 1], steps[j - 1], run[j], c);
    }
  }

  lemma FewOthers(cfg: Config, kids: set<Str>, name: Str, holds: bool, number: map<Str, nat>)
    requires |kids| < cfg.maxLeases && name in number
    requires DecidesByRank(holds, kids + {name}, number, name, cfg.maxLeases)
    ensures holds
  {
    SubsetCard(NotBehind(kids + {name}, name), kids);
  }

  /** Away from the root, in every reachable state whose base path is there with numbers left and fewer
      children than leases: a client that is new or idle can create, look and decide, and then it holds
      the lock. */
  lemma ComesIn(cfg: Config, run: seq<State>, steps: seq<Step>, i: nat, c: ClientId)
    returns (created: State, seen: State, decided: State, sorted: seq<Str>)
    requires Run(cfg, run, steps) && i < |run| && cfg.base != [] && TakesNodes(cfg, run[i])
    requires c !in run[i].clients || run[i].clients[c].Idle?
    requires |Children(cfg, run[i])| < cfg.maxLeases
    ensures Next(cfg, run[i], Create(c), created)
    ensures Next(cfg, created, List(c, Children(cfg, created)), seen)
    ensures Next(cfg, seen, Decide(c, sorted), decided)
    ensures c in Holders(decided)
  {
    RunKeeps(cfg, run, steps, i);
    var s := run[i];
    created := CanCreate(cfg, s, c);
    CreateKeeps(cfg, s, c, created);
    CreatedLock(s.store, cfg.base);
    sorted := SomeSorted(Children(cfg, created));
    seen, decided := LookNow(cfg, created, c, sorted);
    FewOthers(cfg, Children(cfg, s), created.clients[c].name, decided.clients[c].Holding?, created.number);
  }

  /** With one lease and only lock nodes under the base path: when the holder releases, the next in line can
      look, decide, and hold the lock. */
  lemma HandsOver(cfg: Config, run: seq<State>, steps: seq<Step>, i: nat, c: ClientId, d: ClientId)
    returns (released: State, seen: State, decided: State, sorted: seq<Str>)
    requires Run(cfg, run, steps) && i < |run| && cfg.base != [] && cfg.maxLeases == 1
    requires c in Holders(run[i]) && Childless(cfg, run[i], run[i].clients[c].name)
    requires d in run[i].clients && (run[i].clients[d].Created? || run[i].clients[d].Waiting?)
    requires Children(cfg, run[i]) <= run[i].number.Keys && run[i].clients[d].name in run[i].number
    requires Earlier(Children(cfg, run[i]), run[i].number, run[i].clients[d].name) == {run[i].clients[c].name}
    ensures Next(cfg, run[i], Release(c), released)
    ensures Next(cfg, released, List(d, Children(cfg, released)), seen)
    ensures Next(cfg, seen, Decide(d, sorted), decided)
    ensures Holders(decided) == {d}
  {
    RunKeeps(cfg, run, steps, i);
    var s := run[i];
    released := CanRelease(cfg, s, c);
    ReleaseKeeps(cfg, s, c, released);
    DeletedChild(s.store, cfg.base, s.clients[c].name);
    sorted := SomeSorted(Children(cfg, released));
    seen, decided := LookNow(cfg, released, d, sorted);
    assert Earlier(Children(cfg, released), s.number, s.clients[d].name) == {};
    assert d in Holders(decided);
    assert Inv(cfg, decided) by {
      ListKeeps(cfg, released, d, Children(cfg, released), seen);
      DecideKeeps(cfg, seen, d, sorted, decided);
    }
    OnlyHolder(cfg, decided, d);
  }

  lemma OnlyHolder(cfg: Config, s: State, d: ClientId)
    requires Inv(cfg, s) && cfg.maxLeases == 1 && d in Holders(s)
    ensures Holders(s) == {d}
  {
    HoldersBounded(cfg, s);
    assert |Holders(s) - {d}| == 0;
  }
}
