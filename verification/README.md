# curator.go in Dafny

curator.go is a client library for ZooKeeper. Its hard parts are small protocols that many clients run
against one shared tree: a fair distributed lock, an atomic value built from versioned writes, path
handling and whole-branch tree operations, the handling of the server connection, and retry policies.
This project models those parts and proves what each of them keeps over every input, every run and every
interleaving. `dafny verify dfyconfig.toml` checks all of it.

## How the model is built

- **Strings** are byte sequences, as in Go; `Utf8` is Go's rune decoder, so the path validator works on
  runes exactly where the source does.
- **The server** (`Zk`) is a parent-closed tree keyed by lists of names, with data versions and one
  sequence counter per parent. Every call is atomic.
- **A connection** (`Connection.Conn`) carries an arbitrary finite schedule of what other clients create,
  write and delete before each call and of which calls fail. A contract on a procedure therefore holds
  under every such interference; `CreatesOnly` and `NoFaults` narrow the schedule where a clause needs it,
  and an empty schedule means the client is undisturbed.
- **Concurrent protocols** (`LockProtocol`, `AtomicRuns`) are transition systems over any number of
  clients, with stale reads allowed; which steps can be taken is proved both ways. The procedures one client runs (`Mutex`, `AtomicValue`) are methods
  over the same server functions.
- **Mutable objects** of the source (mutex, connection state, handle holder, state manager, queues, retry
  loop, atomic result, ensure-path helper) are classes; their methods are tied to values (`View`,
  `NextCount`, `EndsAt`, traces and histories) about which the run theorems are proved.

| file | models |
|---|---|
| `GoStrings`, `Utf8`, `Paths`, `Namespace` | paths.go, namespace.go |
| `Zk`, `Connection`, `TreeOps` | the server; paths.go, create.go, delete.go |
| `LockDriver`, `Mutex`, `LockProtocol` | recipes/locks.go |
| `AtomicRuns`, `AtomicValue` | recipes/atomic.go |
| `DropOldest`, `StateManager`, `ConnectionHandle` | state.go, framework.go |
| `Retry` | retry.go |

## Assumptions

- A lock node in use disappears only when its owner deletes it: sessions do not expire. Names ending in
  `lock-` and a sequence suffix are made only by sequential creates, whoever makes them. Any other children
  may come and go under a lock's base path, and the base path itself may be deleted while it is empty.
- A client is never shown a listing older than its own node.
- A call that fails on its way has had no effect on the server.
- The node of an atomic value is never deleted, so its versions never restart.
- One goroutine at a time uses a given mutex, and session events are handled one at a time.
- Clocks, random draws, sleeps and dials are parameters. Waiting is a step that may happen at any moment.

## Where the code does less than its comments say

The code is followed in each case.

- `JoinPath` from the root differs from every other parent: `Paths.JoinFromRoot` gives the exact condition
  under which the result is a path.
- Unfixing a namespace tests a text prefix: `/apple` under `app` comes back as `le`
  (`Namespace.UnfixCutsIntoANeighbour`). `Namespace.UnfixThenFix` says exactly where the two undo each
  other.
- The looking loop of a lock attempt shadows its error and never asks for the delete, so an attempt that
  fails leaves its node behind. It is a contract of `Mutex.AttemptLock` and the `Abandon` step of
  `LockProtocol`; safety and fairness hold regardless, and `Mutex.NodesCounted` counts the nodes left.
- For the base path `/` the node name is cut one byte short (`Mutex.SlicedName`), so a mutex there is never
  acquired: `Mutex.RootNeverHolds` for one client, `LockProtocol.NoLockAtRoot` over every run.
- The sort compares the text after `lock-`, so a child named with ten digits only ties with a lock node and
  two waiters may watch it at once: `LockDriver.TieSharesWatch`. `LockProtocol.WaitGraph` says that nothing
  else can be shared. Any child that sorts before the lock nodes takes a lease for as long as it is there,
  and blocks a lock with one: `LockDriver.GrantedByKeys`.
- A last `Release` whose delete fails reports an error although the count is down, and the count wraps at
  32 bits: `Mutex.LostBalance`, and `Mutex.Balance` says exactly when the count is the balance of
  successful calls.
- `CallWithRetry` never asks the policy when no sleeper is set: `Retry.LimitIgnored` and, exactly,
  `Retry.LimitWithoutSleeper` and `Retry.EndsWithoutSleeper`.
- An `EnsurePath` whose first attempt fails reports success ever after:
  `TreeOps.EnsurePathHelper.Ensure` and, for two calls, `TreeOps.EnsureTwice`.
- A recursive delete forgives a node that is gone when it deletes it, but not when it lists its children, so
  it gives up when another client removes a listed child first: the last two clauses of
  `TreeOps.DeleteChildren`.
- The promise about the stream of connection states is the framework's, not the state manager's:
  `StateManager.StreamExactly` says which direct changes spoil it, and
  `StateManager.DirectChangesSpoil` that both kinds do.
- A background error can get stuck in its own queue: `DropOldest.Queue.PostWaiting` says exactly when.

## Model

| member | source | states |
|---|---|---|
| LockProtocol.NextKeeps | recipes/locks.go:217-303 | every step of any client, and of the programs around, keeps the invariant: a live node is in every listing that shows a node at least as late, so the rank of a node never grows |
| LockProtocol.EnabledSteps | recipes/locks.go:217-303 | whatever the tree and the clients are doing, each step that its conditions allow can be taken: a new or idle client can create while the base path has numbers left, one that created or waits can look at any listing that shows its node, a holder with a childless node can release |
| LockProtocol.StepWasEnabled | recipes/locks.go:217-303 | and a step is taken in no other case |
| LockProtocol.AnyTreeStarts | recipes/locks.go:217-247 | any tree whose lock nodes under the base path have numbers of their own below the counter is the start of a run |
| LockProtocol.LeaseSafety | recipes/locks.go:81-97 | in every state of every run, with stale listings and other children coming and going, at most `maxLeases` clients hold the lock |
| LockProtocol.MutualExclusion | recipes/locks.go:107-109 | with one lease, two holders are the same client |
| LockProtocol.NoLockAtRoot | recipes/locks.go:268 | over every run, no client ever holds a one-lease lock whose base path is the root |
| LockProtocol.FairGrants | recipes/locks.go:107-109 | with one lease, each grant goes to the earliest lock node then present |
| LockProtocol.GrantOrder | recipes/locks.go:107-109 | with one lease, of any two grants of a run the later goes to the node created later, also when the base path was deleted and its numbers began anew in between |
| LockProtocol.GrantedIsFirst | recipes/locks.go:261-303 | a client whose listing shows no earlier lock node is the earliest of the tree as it stands now, however old the listing |
| LockProtocol.WaitGraph | recipes/locks.go:264-294 | with one lease, among any other children: a watched lock node is strictly earlier, watched by one waiter only, and while it lives no listing puts the waiter first; another child is shared only if its name is the ten digits of the earlier waiter |
| LockProtocol.SharedWatchTies | recipes/locks.go:86-92 | two waiters watch the same name only if it is no lock node but exactly the ten digits of the earlier one |
| LockProtocol.WatchesNearest | recipes/locks.go:86-92 | for any number of leases a waiter watches another name that does not sort after its own, a lock node strictly earlier; with one lease none of its listing is nearer |
| LockProtocol.NoWaitCycle | recipes/locks.go:264-294 | for any number of leases and any other children, the numbers fall along a chain of waiters, so waiting never closes a circle |
| LockProtocol.LookingDecides | recipes/locks.go:264-280 | away from the root, in every reachable state a client that looks at the current children can decide; it holds only if fewer than `maxLeases` lock nodes, and names of any kind, sort before its own, and always if fewer than `maxLeases` other names may sort before it |
| LockProtocol.ComesIn | recipes/locks.go:217-303 | away from the root, in every reachable state with fewer children than leases and numbers left, a new or idle client can create, look and decide, and then holds the lock |
| LockProtocol.HandsOver | recipes/locks.go:249-303 | with one lease and only lock nodes, when the holder releases, the next in line can look and decide, and then is the only holder |
| LockProtocol.PlaceKeptOverRuns | recipes/locks.go:151-191 | over any part of a run a client in the queue keeps its node, and a holder its lock, until it releases or abandons it itself |
| LockDriver.KeyIsSuffix | recipes/locks.go:67-79 | the sort key of any name ending in `lock-` and a suffix is that suffix, whatever stands before |
| LockDriver.KeyedAlike | recipes/locks.go:67-79 | a name has the key of number n iff it is a lock node of that number or the ten digits alone |
| LockDriver.SuffixOrder | recipes/locks.go:320-330 | lexicographic order on ten-digit suffixes is numeric order on every 31-bit counter, and equality is equality |
| LockDriver.SortChildren | recipes/locks.go:305-330 | sorting the array in place by comparing and swapping yields an ordered permutation of it |
| LockDriver.CreationOrder | recipes/locks.go:305-330 | whatever stands between them, two lock nodes of a sorted listing are in creation order |
| LockDriver.SortedListingUnique | recipes/locks.go:305-330 | whatever algorithm sorts and in whatever order the server lists, lock nodes alone come out as the same sequence |
| LockDriver.PositionIsRank | recipes/locks.go:81-97 | a node's index in the sorted listing is the number of earlier nodes in it |
| LockDriver.GrantedByRank | recipes/locks.go:81-97 | whatever other children a listing holds, a lock node gets the lock only if fewer than `maxLeases` lock nodes are earlier |
| LockDriver.GrantedByKeys | recipes/locks.go:81-97 | for any listing, a grant means fewer than `maxLeases` names surely sort before the own one, and fewer than `maxLeases` that may sort before it mean a grant |
| LockDriver.WatchedByKey | recipes/locks.go:86-92 | the watched name is another listed one that does not sort after the own and, with one lease, none nearer, whatever is listed |
| LockDriver.CutNameByRank | recipes/locks.go:268 | whoever looks for the name cut one byte short gets the lock only with a lease to spare |
| LockDriver.TieSharesWatch | recipes/locks.go:320-330 | for every number, a child named like its suffix ties with the lock node, and two lock nodes may watch it at once |
| LockDriver.GetsTheLock | recipes/locks.go:81-97 | the search loop computes `Decision`, and fails, with no such node, iff the name is not listed |
| LockDriver.DecisionByRank | recipes/locks.go:81-97 | a listed node gets the lock iff fewer than `maxLeases` nodes are earlier; otherwise it watches the earlier node exactly `maxLeases` ranks before |
| Mutex.SlicedName | recipes/locks.go:268 | cutting `len(base)+1` bytes off the created path leaves the node's name iff the base is not the root |
| Mutex.RootNeverHolds | recipes/locks.go:268 | with the own node listed, the name cut under the root is never first, whatever else the root holds |
| Mutex.NodePathComponents | recipes/locks.go:212 | the created path is valid and is the base path with the node's name added |
| Mutex.NamespacedSlice | recipes/locks.go:268 | through a client with a namespace, the server makes a child of the namespaced base path and the name cut from the path reported back is that child's, iff the base is not the root |
| Mutex.CreatesTheLock | recipes/locks.go:99-105 | success yields a new owned node of some number under the base, failure owns nothing and is not one to retry; while others only create, it is refused only if the name of the next number is taken, the numbers have run out, or a call failed on its way |
| Mutex.GetSortedChildren | recipes/locks.go:320-330 | the result is a sorted arrangement of exactly the children then present |
| Mutex.InternalLockLoop | recipes/locks.go:261-303 | a yes means the name was among the first `maxLeases` of the sorted children; undisturbed the answer is exactly the rank test, for every numbering of the children |
| Mutex.AttemptLock | recipes/locks.go:217-247 | a returned path is a live node of the first `maxLeases`; an empty path leaves the created node behind; an error leaves nothing, is true of the tree while others only create, and is a missing base path only once the policy refuses; undisturbed the outcome is the rank test |
| Mutex.InterProcessMutex.InternalLock | recipes/locks.go:172-191 | re-entry only counts; a first acquire adds one node that no child sorts before, and never succeeds under the root; an error is true of the tree while others only create; undisturbed it succeeds exactly when no child is before the new node; count and nodes stay what the history of calls says |
| Mutex.InterProcessMutex.Release | recipes/locks.go:151-166 | only the last release touches the server, and succeeds iff the held node is gone, undisturbed iff the node has no children; any other failure is a call that failed on its way; exactly a caller that does not own the lock is told so; count and nodes stay what the history of calls says |
| Mutex.DeleteOurPath | recipes/locks.go:253-259 | no error means the node is gone, also when it was gone already; an error means it has children or a call failed on its way; undisturbed it succeeds iff the node has no children |
| Mutex.Balance | recipes/locks.go:151-191 | for every call sequence the count is successful acquires minus successful releases, less lost releases and wraps at 32 bits; it is the plain balance iff neither occurred |
| Mutex.NeverNegative | recipes/locks.go:151-191 | the count never goes negative iff no acquire is made at the top of 32 bits |
| Mutex.NodesApart | recipes/locks.go:151-191 | over every call sequence exactly one node is held while the count is positive and none otherwise, and held, left and lost nodes are never the same |
| Mutex.NodesCounted | recipes/locks.go:217-303 | over every call sequence one node is left behind for each refused attempt and one lost for each failed last delete or wrap |
| Mutex.LostBalance | recipes/locks.go:151-166 | one failed delete loses the balance |
| AtomicRuns.NextKeeps | recipes/atomic.go:151-269 | every client step keeps: versions count writes, a pending write's read was once true under its version, the log is legal |
| AtomicRuns.Linearizable | recipes/atomic.go:151-195 | over every interleaving, with stale reads, the successful writes in server order are a legal history of one atomic register whose value is the stored one, and the version counts them |
| AtomicRuns.ReportsWhatItReplaced | recipes/atomic.go:161-195 | each successful CompareAndSet or TrySet reports exactly the value its write replaced, nothing for the creating write, and a CompareAndSet replaced what it expected |
| AtomicRuns.OnlySuccessWrites | recipes/atomic.go:207-269 | what was stored at any moment can be read off the log of any later one, and two moments with as many writes have the same node |
| AtomicRuns.FinishesAlone | recipes/atomic.go:151-269 | in every reachable state a client in the middle of any operation, going on by itself, ends it: a TrySet or ForceSet succeeds, a CompareAndSet exactly when the node holds what it expects or is still as it was read |
| AtomicRuns.BeginsAndFinishes | recipes/atomic.go:151-195 | and any other client can begin any operation and, alone, leaves its value behind exactly when it succeeds |
| AtomicRuns.AnyStateMayBeRead | recipes/atomic.go:207-219 | a client about to read may be given any state the node ever had, and goes on iff the operation lets it |
| AtomicValue.CurrentValue | recipes/atomic.go:207-219 | the value read was stored under the version returned; absence is reported as such; any error is a call that failed; undisturbed it is the current value |
| AtomicValue.CompareAndSet | recipes/atomic.go:161-181 | exactly one write iff it reports success, replacing the expected value; without success another value was read or the version read was no longer the latest; any error is a call that failed; undisturbed it succeeds iff the stored value is the expected one |
| AtomicValue.TryOnce | recipes/atomic.go:245-269 | exactly one write iff it reports success, and the reported value is the one the write replaced, under any interference; a no means the version read was no longer the latest, and any error is a call that failed |
| AtomicValue.TryOptimistic | recipes/atomic.go:221-243 | under any policy: at least one try, each further one allowed, at most one write; giving up means the policy refused, and an error that a call failed |
| AtomicValue.PromotedLoop | recipes/atomic.go:280-296 | the same for the loop under the lock |
| AtomicValue.TryWithMutex | recipes/atomic.go:271-299 | on every way out the owner's lock count is what it was, save that one at the top of 32 bits wraps and one that has wrapped may begin anew; it tries iff it got the lock, and then an error is a call that failed |
| AtomicValue.TrySet | recipes/atomic.go:183-195 | at most one write over both loops, success iff one, with a true report; both loops keep to their policies, and the lock is asked for iff the first one gave up; without a lock any error is a call that failed; the mutex count is what it was, with the same two exceptions at the limits of 32 bits |
| AtomicValue.TrySetBounded | recipes/atomic.go:228-240 | under a sleeping policy a loop that kept to it tried at most max(1, limit) times |
| AtomicValue.ForceSetValue | recipes/atomic.go:151-159 | success is exactly one write of the value; the only failures are faults of a call |
| Paths.ValidatePath | paths.go:95-137 | for every string the one-pass scan accepts iff it is `/` or a slash and slash-separated valid names, and the reason given for a refusal is true of the path |
| Paths.ScanMeansValid | paths.go:95-137 | the look-back and look-ahead tests together equal the component-wise rule |
| Paths.CheckRune | paths.go:114-134 | the chain of tests on one rune refuses exactly the forbidden runes and the refused positions, and never indexes outside the string |
| Utf8.DecodeEncoded | paths.go:114 | every code point written anywhere in a string is read back by the range over it, and no more bytes than its own |
| Utf8.EncodeDecoded | paths.go:114 | whatever is read, save a single malformed byte, is a code point in its own bytes |
| Utf8.CleanText | paths.go:84-93 | a text passes the table of refused characters iff none of its code points is in it |
| Utf8.MalformedIsRefused | paths.go:84-93 | a malformed sequence never passes |
| Paths.PathIsItsComponents | paths.go:34-42 | writing the components of a valid path back gives the path |
| Paths.ComponentsOfPathOf | paths.go:45-81 | writing valid names gives a valid path with those components |
| Paths.BelowInText | paths.go:185-214 | "at or below" on components is, in the text, equality or the parent followed by a slash, so `/p/ab` is not below `/p/a` |
| Paths.JoinPath | paths.go:45-81 | the buffer loop computes `Join` |
| Paths.JoinIsConcatenation | paths.go:45-81 | for a valid parent other than the root the joined path has all components in order, and is valid iff each child is empty, a slash, or slash-separated valid names |
| Paths.ValidChild | paths.go:45-81 | every valid path is such a child and contributes its own components |
| Paths.JoinFromRoot | paths.go:45-81 | the exact condition under which joining from the root gives a valid path, and its components: all the children's, or none |
| Paths.JoinIgnoresOuterSlashes | paths.go:45-81 | slashes at either end of a parent or a child make no difference: the joined text is the one path after the other |
| Paths.SplitsAtLastSlash | paths.go:23-42 | on any text, valid or not, both functions cut at the last slash, and without one the split keeps the text as a path and the node name is all of it |
| Paths.JoinThenSplit | paths.go:23-81 | a name joined to any valid parent, the root included, splits back into both parts, and the node name agrees |
| Paths.SplitThenJoin | paths.go:23-81 | splitting any valid path other than the root and joining again is the identity |
| Namespace.NewNamespace | namespace.go:16-33 | a namespace is kept iff it is valid behind a slash, and replaced by the empty one otherwise |
| Namespace.NamespaceRoundTrip | namespace.go:36-68 | for every kept namespace and valid path the fixed path is valid, lies under the namespace, and unfixes to the original |
| Namespace.FixIsInjective | namespace.go:36-42 | different valid paths stay different |
| Namespace.UnfixThenFix | namespace.go:54-68 | fixing undoes unfixing iff the path is at or under the namespace |
| Namespace.UnfixLeavesOthers | namespace.go:54-68 | a path that does not begin with the text of the namespace is left alone |
| Namespace.UnfixCutsIntoANeighbour | namespace.go:54-68 | a neighbour that shares the text prefix is cut in the middle of its name |
| Namespace.UnfixKeepsSuffix | namespace.go:54-68 | the path reported for a sequential create is the client's own path with the server's digits |
| Zk.DeleteKeepsForm | delete.go:51-69 | a delete keeps the tree parent-closed and removes a node with nothing below it |
| TreeOps.MakeDirs | paths.go:140-182 | while others only create, the tree is the old one plus theirs plus exactly the wanted prefixes (on failure the first few), old nodes unchanged; only a call that fails on its way can stop it; an invalid path changes nothing |
| TreeOps.NextPos | paths.go:147-158 | from inside a name the next slash found is the one that ends it, so the loop stops at every prefix and only there |
| TreeOps.EnsurePathHelper.Ensure | paths.go:235-258 | the first call makes the path, retrying while it should; every later one does nothing and reports success, also after a failure |
| TreeOps.EnsureTwice | paths.go:235-258 | for every invalid path the first of two calls reports it and the second success |
| TreeOps.CreatePath | create.go:69-93 | create-with-parents, over all its retries, adds exactly the missing parents and the node with its data; every refusal is true of the tree: the node is there, its parent is not and was not to be made, the path is invalid, or a call failed on its way; undisturbed it succeeds iff the path is valid, not the root, absent, and its parent there or to be made |
| TreeOps.DeleteChildren | paths.go:185-214 | terminates under any finite schedule; success with self means nothing is left at or below the path whatever others do; while others only create, nothing outside the branch changes, what remains below is theirs, and only a call that fails on its way can stop it; without such failures only a node that was gone already can, when others delete: one that is gone when it is listed does, one that is gone when it is deleted does not |
| TreeOps.ChildDone | paths.go:193-197 | removing one listed child leaves its siblings and everything outside the branch in place |
| TreeOps.DeletePath | delete.go:51-69 | never reports a failure it should have retried; undisturbed it succeeds iff the path is valid, not the root, present, of the asked version and childless unless children are to go; while others only create, a deletable node is deleted unless a call fails on its way or unwanted children appear; success leaves nothing at or below; failure without children changes nothing |
| TreeOps.ExactDelete | paths.go:185-214 | undisturbed, the tree after a delete is the old tree outside the branch, node for node |
| ConnectionHandle.HandleHolder.GetZookeeperConnection | state.go:27-55 | a cache answers itself, a factory dials once and, if answered, becomes a cache of the string it dialled, an absent helper gives nothing; the open connections are the cached one or none |
| ConnectionHandle.HandleHolder.InternalClose | state.go:112-122 | the cached connection is closed; an error happens exactly when a factory's dial fails, and then nothing changed |
| ConnectionHandle.HandleHolder.CloseAndClear | state.go:90-100 | closes the cached connection and drops the helper, except that a factory stays |
| ConnectionHandle.HandleHolder.CloseAndReset | state.go:102-110 | afterwards the helper is a factory and no connection is open; it fails exactly when a factory's dial does |
| ConnectionHandle.HandleHolder.StartOver | state.go:209-219 | one dial is made for a new connection, with the string the ensemble has then, and a connection is there iff it is answered |
| ConnectionHandle.NewAfterDial | state.go:74-80 | after a dial every connection string is new but the one that was dialled; after a failed one, every string but the empty one; a cleared holder takes none for new |
| ConnectionHandle.ClosedOnce | state.go:27-122 | over any trace the holder can produce no connection is closed twice |
| ConnectionHandle.ClosedBeforeNextDial | state.go:27-122 | each connection is closed before the next one is dialled |
| ConnectionHandle.ConnectionState.Reset | state.go:209-219 | counts one more instance, is not connected, and has a connection to the ensemble as it then is iff it reports no error |
| ConnectionHandle.ConnectionState.Start | state.go:191-197 | resets once iff the provider starts |
| ConnectionHandle.ConnectionState.Close | state.go:199-207 | no connection is open, the state is not connected, and no error is reported |
| ConnectionHandle.ConnectionState.ResetInBackground | state.go:316-334 | a failed dial, and only that, queues one error, or gets stuck, exactly when a full queue is emptied beside it |
| ConnectionHandle.ConnectionState.CheckState | state.go:286-314 | connected iff a session was reported and no new connection string seen; starts over iff expired or the string is new, and changes nothing otherwise |
| ConnectionHandle.ConnectionState.Process | state.go:263-284 | the flag afterwards is what the whole history says, the clock starts again iff the flag changed, and the connection is started over iff the session expired or the string is new |
| ConnectionHandle.SessionAfterStart | state.go:191-314 | a started connection that hears of a session is connected, without starting over, iff the ensemble still has the string that was dialled |
| ConnectionHandle.ConnectionState.CheckTimeout | state.go:229-261 | counted from the last change of the flag: nothing before the shorter timeout, an error between the two, a reset past the longer one or when the ensemble moved |
| ConnectionHandle.ConnectionState.Handle | state.go:177-189 | the lateness of a disconnected state decides between the handle, an error and a reset, after which there is an answer iff there is a connection; a returned connection is the only open one |
| ConnectionHandle.ConnectionState.Conn | state.go:177-189 | a queued error comes first, and otherwise the handle answers as its lateness says; a returned connection is the only open one |
| ConnectionHandle.SaysConnectedMeans | state.go:263-314 | the flag is true iff some session event reported a session with no new string and nothing but questions came since |
| StateManager.StreamOverRuns | state.go:437-486 | over any run the framework drives: at most one CONNECTED, no RECONNECTED before it, no equal neighbours, no SUSPENDED right after LOST, and Connected() agrees with the last posted state |
| StateManager.StreamExactly | state.go:458-486 | over every run, whoever drives the manager, the stream is proper iff nobody added CONNECTED after the first connection or SUSPENDED while lost |
| StateManager.StepKeeps | framework.go:353-399 | each framework call keeps fields and stream coherent |
| StateManager.DirectChangesSpoil | state.go:458-486 | two direct changes on a fresh manager are enough to spoil it, either way |
| StateManager.ConnectionStateManager.Start | state.go:410-420 | starts once only |
| StateManager.ConnectionStateManager.Close | state.go:422-430 | stops a started manager and no other |
| StateManager.ConnectionStateManager.SetToSuspended | state.go:437-454 | posts SUSPENDED unless stopped, lost or suspended, and reports whether it did |
| StateManager.ConnectionStateManager.AddStateChange | state.go:458-486 | posts the new state, the first connecting one as CONNECTED, and reports whether it did |
| StateManager.ConnectionStateManager.ValidateConnection | framework.go:353-375 | a session event has the effect `EventMeans` describes, and reports a suspension iff there was one |
| StateManager.EventMeans | framework.go:353-375 | whatever the state was, an expired session leads to LOST, a re-established one to RECONNECTED or READONLY, a broken one to SUSPENDED unless LOST; exactly the changes are posted, one state each, the first RECONNECTED as CONNECTED |
| StateManager.ConnectionStateManager.DoSyncForSuspendedConnection | framework.go:377-399 | the connection is lost iff a sync fails with the instance unchanged, or fails twice |
| DropOldest.Queue.Post | state.go:530-551 | the pending items are the last ones posted, the new one at the end; what was delivered or dropped stays so; one more item, the oldest, is dropped exactly when the queue is full and the consumer does not empty it first |
| DropOldest.Queue.PostWaiting | state.go:336-350 | the same for errors, save that it gets stuck iff the consumer empties a full queue in just that moment |
| DropOldest.Queue.Take | state.go:352-364 | delivers the oldest pending item, if any |
| DropOldest.Queue.Consume | state.go:553-563 | delivers a first part of the pending items in order |
| DropOldest.Queue.Conservation | state.go:336-364 | delivered, dropped and pending items are together what was posted |
| DropOldest.SelectSplits | state.go:530-563 | every item that left is counted once, as delivered or as dropped |
| Retry.RetryLoop.CallWithRetry | retry.go:72-94 | watched for any number of rounds, it returns the outcome of the first run that ends it, or is still going round because none did; it has slept what the policy says |
| Retry.RunsBounded | retry.go:72-113 | with a sleeper set and a sleeping policy the loop always ends, within max(1, limit) runs, and at one run only |
| Retry.EndsExactly | retry.go:72-113 | the loop ends exactly at the first run that needs no retry, is the last one the limit admits, or is followed by an interrupted sleep |
| Retry.LimitReached | retry.go:103-113 | if every run asks for a retry and every sleep completes, a limit of n gives n runs, and at least one |
| Retry.EndsWithoutSleeper | retry.go:72-94 | without a sleeper the loop ends iff some outcome needs no retry |
| Retry.LimitWithoutSleeper | retry.go:72-94 | without a sleeper the limit is respected iff one of the first runs happens to need no retry |
| Retry.LimitIgnored | retry.go:72-94 | a policy of one attempt, five runs, for every cause that is retried; any other cause ends the loop at once |
| Retry.NoOverflowIff | retry.go:150-168 | no draw overflows 64 bits iff the largest possible one does not |
| Retry.SleepBounded | retry.go:150-168 | for a base up to 2^35 ns no product overflows, the draw is slept in full up to the maximum, and a sleep lies between zero and both of its bounds |
| Retry.TotalSleepBounded | retry.go:150-168 | the sleeps of a whole run under limit n add up to at most base * (2^n - n - 1) |
| Retry.BackoffRun | retry.go:72-168 | loop and backoff together: for any outcomes and interruptions, what the loop has slept stays within base * (2^n - n - 1) |
| Retry.SleptExactly | retry.go:72-168 | while the runs ask for retries, every draw that the limit admits is slept |
| Retry.BackoffRuns | retry.go:150-168 | the backoff gives as many runs as asked for, up to 29 |

## Left out

- LockDriver.SortChildren: an insertion sort stands for the library sort, which is not part of this model; `SortedListingUnique` shows that the result on lock nodes does not depend on the algorithm.
- LockProtocol.WaitGraph: one lease only; with more leases several nodes may disappear without waking the waiter that could go on.
- TreeOps.CreatePath: persistent nodes; the ephemeral sequential mode is `Mutex.CreatesTheLock`.
- DropOldest.Queue.Post: a channel closed during a post is not modelled.
- StateManager.ConnectionStateManager.Close: closing the channel and clearing the listeners are not modelled.
- Session expiry, lock timeouts and the text of error messages.
- Sequence numbers and versions beyond 31 bits; a sequential create that would pass them is refused with an error of the model's own.
- Ephemeral parents and access control lists, which can refuse further calls on a real server.
- The `Acquire` and `AcquireTimeout` wrappers, `Get` and `Initialize` of the atomic value, `RetryNTimes`, `RetryOneTime` and `RetryUntilElapsed`: they would only add easy members.
- recipes/cache.go, the example programs, transaction.go, compression.go, the remaining builders, dialling and authentication, tracing, watcher and listener containers, and the cache of namespace views.
