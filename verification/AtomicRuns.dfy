/** The distributed atomic value under any number of clients: every operation is a few server
    calls, other clients act between any two of them, and a read may return any state the node
    ever had. The node is never deleted. */
module AtomicRuns {
  import opened Wrappers
  import opened GoStrings
  import opened Zk

  type ClientId = nat

  datatype Op = CompareAndSet(expected: Str, newValue: Str) | TrySet(newValue: Str) | ForceSet(newValue: Str)

  /** Between calls: about to read, about to write on the strength of a read, or on the first,
      second or third try of a forced write. */
  datatype Phase =
    | Reading(op: Op)
    | Writing(op: Op, read: Option<ZNode>)
    | Forcing(op: Op, attempt: nat)

  /** A successful write and the value it reported to have replaced. */
  datatype Entry = Entry(op: Op, preValue: Option<Str>)

  datatype State = State(
    node: Option<ZNode>,
    past: seq<ZNode>,
    clients: map<ClientId, Phase>,
    log: seq<Entry>)

  datatype Step =
    | Begin(c: ClientId, op: Op)
    | Read(c: ClientId, moment: nat)
    | Write(c: ClientId)
    | GiveUp(c: ClientId)

  function Data(node: Option<ZNode>): Option<Str> {
    if node.None? then None else Some(node.value.data)
  }

  /** A create of this one node. */
  function CreateData(node: Option<ZNode>, data: Str): Result<ZNode, Error> {
    if node.Some? then Err(NodeExists) else Ok(ZNode(data, 0))
  }

  /** The call a client makes when it writes. */
  function WriteCall(p: Phase, node: Option<ZNode>): Result<ZNode, Error>
    requires p.Writing? || p.Forcing?
  {
    match p
    case Writing(op, None) => CreateData(node, op.newValue)
    case Writing(op, Some(n)) => SetData(node, op.newValue, n.version)
    case Forcing(op, attempt) =>
      if attempt == 1 then CreateData(node, op.newValue) else SetData(node, op.newValue, ANY_VERSION)
  }

  /** Where a refused write leads: a refused forced write tries the other call, a refused optimistic
      write reads again, a refused comparison is over. */
  function Refused(p: Phase): Option<Phase>
    requires p.Writing? || p.Forcing?
  {
    match p
    case Writing(op, _) => if op.TrySet? then Some(Reading(op)) else None
    case Forcing(op, attempt) => if attempt < 2 then Some(Forcing(op, attempt + 1)) else None
  }

  function With(clients: map<ClientId, Phase>, c: ClientId, p: Option<Phase>): map<ClientId, Phase> {
    if p.None? then clients - {c} else clients[c := p.value]
  }

  ghost predicate Init(s: State) {
    s == State(None, [], map[], [])
  }

  ghost predicate Next(s: State, step: Step, s': State) {
    match step
    case Begin(c, op) =>
      && c !in s.clients
      && s' == s.(clients := s.clients[c := if op.ForceSet? then Forcing(op, 0) else Reading(op)])
    case Read(c, moment) =>
      && c in s.clients && s.clients[c].Reading? && moment <= |s.past|
      && var op := s.clients[c].op;
         var read := if moment == 0 then None else Some(s.past[moment - 1]);
         var goOn := op.TrySet? || (op.CompareAndSet? && Data(read) == Some(op.expected));
         s' == s.(clients := With(s.clients, c, if goOn then Some(Writing(op, read)) else None))
    case Write(c) =>
      && c in s.clients && (s.clients[c].Writing? || s.clients[c].Forcing?)
      && var p := s.clients[c];
         var r := WriteCall(p, s.node);
         if r.Ok? then
           var pre := if p.Writing? then Data(p.read) else None;
           s' == State(Some(r.value), s.past + [r.value], s.clients - {c}, s.log + [Entry(p.op, pre)])
         else
           s' == s.(clients := With(s.clients, c, Refused(p)))
    case GiveUp(c) =>
      && c in s.clients
      && s' == s.(clients := s.clients - {c})
  }

  // ---------- the register the clients believe in ----------

  /** One atomic operation: its effect, and whether it may report what the entry says. */
  predicate Legal(register: Option<Str>, e: Entry) {
    match e.op
    case CompareAndSet(expected, _) => register == Some(expected) && e.preValue == register
    case TrySet(_) => e.preValue == register
    case ForceSet(_) => true
  }

  /** The log is a legal history of one atomic register, started empty. */
  ghost predicate LegalHistory(log: seq<Entry>) {
    forall k :: 0 <= k < |log| ==> Legal(Register(log[..k]), log[k])
  }

  /** The register after a history: the value of its last write. */
  function Register(log: seq<Entry>): Option<Str> {
    if log == [] then None else Some(log[|log| - 1].op.newValue)
  }

  // ---------- the invariant ----------

  /** The `k`-th write left version `k`; the node is as the last write left it. */
  ghost predicate Versioned(s: State) {
    && s.node == (if s.past == [] then None else Some(s.past[|s.past| - 1]))
    && (forall k :: 0 <= k < |s.past| ==> s.past[k].version == k)
    && |s.log| == |s.past|
    && (forall k :: 0 <= k < |s.log| ==> s.log[k].op.newValue == s.past[k].data)
  }

  /** What a client read was once true, under the version it carries. */
  ghost predicate Witnessed(p: Phase, past: seq<ZNode>) {
    p.Writing? ==>
      && !p.op.ForceSet?
      && (p.read.Some? ==> 0 <= p.read.value.version < |past| && past[p.read.value.version] == p.read.value)
      && (p.op.CompareAndSet? ==> Data(p.read) == Some(p.op.expected))
  }

  /** Only ForceSet forces, and it comes to its third try when the node is known to exist. */
  ghost predicate ForcedInOrder(p: Phase, past: seq<ZNode>) {
    && (p.Reading? || p.Writing? ==> !p.op.ForceSet?)
    && (p.Forcing? ==> p.op.ForceSet? && p.attempt <= 2 && (p.attempt == 2 ==> past != []))
  }

  ghost predicate Inv(s: State) {
    && Versioned(s)
    && (forall c :: c in s.clients ==> Witnessed(s.clients[c], s.past) && ForcedInOrder(s.clients[c], s.past))
    && LegalHistory(s.log)
  }

  lemma WriteIsLegal(s: State, c: ClientId)
    requires Inv(s) && c in s.clients && (s.clients[c].Writing? || s.clients[c].Forcing?)
    requires WriteCall(s.clients[c], s.node).Ok?
    ensures var p := s.clients[c];
            && Legal(Register(s.log), Entry(p.op, if p.Writing? then Data(p.read) else None))
            && WriteCall(p, s.node).value == ZNode(p.op.newValue, |s.past|)
  {
  }

  lemma HistoryGrows(log: seq<Entry>, e: Entry)
    requires LegalHistory(log) && Legal(Register(log), e)
    ensures LegalHistory(log + [e])
  {
  }

  lemma WriteKeepsVersions(s: State, c: ClientId, s': State)
    requires Inv(s) && Next(s, Write(c), s')
    ensures Versioned(s')
  {
    var p := s.clients[c];
    if WriteCall(p, s.node).Ok? {
      WriteIsLegal(s, c);
    }
  }

  lemma WriteKeepsClients(s: State, c: ClientId, s': State)
    requires Inv(s) && Next(s, Write(c), s')
    ensures forall d :: d in s'.clients ==>
              Witnessed(s'.clients[d], s'.past) && ForcedInOrder(s'.clients[d], s'.past)
  {
  }

  lemma WriteKeeps(s: State, c: ClientId, s': State)
    requires Inv(s) && Next(s, Write(c), s')
    ensures Inv(s')
  {
    WriteKeepsVersions(s, c, s');
    WriteKeepsClients(s, c, s');
    assert LegalHistory(s'.log) by {
      var p := s.clients[c];
      if WriteCall(p, s.node).Ok? {
        WriteIsLegal(s, c);
        HistoryGrows(s.log, Entry(p.op, if p.Writing? then Data(p.read) else None));
      }
    }
  }

  lemma NextKeeps(s: State, step: Step, s': State)
    requires Inv(s) && Next(s, step, s')
    ensures Inv(s')
  {
    match step
    case Write(c) => WriteKeeps(s, c, s');
    case _ =>
  }

  // ---------- runs ----------

  ghost predicate Run(run: seq<State>, steps: seq<Step>) {
    && |run| == |steps| + 1
    && Init(run[0])
    && forall i :: 0 <= i < |steps| ==> Next(run[i], steps[i], run[i + 1])
  }

  lemma {:induction false} RunKeeps(run: seq<State>, steps: seq<Step>, i: nat)
    requires Run(run, steps) && i < |run|
    ensures Inv(run[i])
  {
    if i > 0 {
      RunKeeps(run, steps, i - 1);
      NextKeeps(run[i - 1], steps[i - 1], run[i]);
    }
  }

  lemma StoredIsRegister(s: State)
    requires Inv(s)
    ensures Data(s.node) == Register(s.log)
  {
  }

  /** In every reachable state the successful writes, in the order the server took them, are a legal
      history of one atomic register; the stored value is that register's, and the version counts
      the writes after the creating one. */
  lemma Linearizable(run: seq<State>, steps: seq<Step>, i: nat)
    requires Run(run, steps) && i < |run|
    ensures LegalHistory(run[i].log)
    ensures Data(run[i].node) == Register(run[i].log)
    ensures run[i].node.Some? ==> run[i].node.value.version == |run[i].log| - 1
  {
    RunKeeps(run, steps, i);
  }

  /** Said of one operation: a successful CompareAndSet or TrySet reports exactly the value its write
      replaced, and nothing for the write that created the node. */
  lemma ReportsWhatItReplaced(run: seq<State>, steps: seq<Step>, i: nat, k: nat)
    requires Run(run, steps) && i < |run| && k < |run[i].log| && !run[i].log[k].op.ForceSet?
    ensures var log := run[i].log;
            && log[k].preValue == (if k == 0 then None else Some(log[k - 1].op.newValue))
            && (log[k].op.CompareAndSet? ==> k > 0 && log[k - 1].op.newValue == log[k].op.expected)
  {
    Linearizable(run, steps, i);
    var log := run[i].log;
    assert Legal(Register(log[..k]), log[k]);
  }

  lemma {:induction false} HistoryKeeps(run: seq<State>, steps: seq<Step>, i: nat, j: nat)
    requires Run(run, steps) && i <= j < |run|
    ensures run[i].log <= run[j].log
    decreases j - i
  {
    if i < j {
      HistoryKeeps(run, steps, i, j - 1);
      assert Next(run[j - 1], steps[j - 1], run[j]);
    }
  }

  /** Nothing but logged writes touches the value: what was stored at any earlier moment can be read off the
      log of any later one, and two moments with the same number of writes have the same node. */
  lemma OnlySuccessWrites(run: seq<State>, steps: seq<Step>, i: nat, j: nat)
    requires Run(run, steps) && i <= j < |run|
    ensures |run[i].log| <= |run[j].log| && Data(run[i].node) == Register(run[j].log[..|run[i].log|])
    ensures |run[i].log| == |run[j].log| ==> run[i].node == run[j].node
  {
    HistoryKeeps(run, steps, i, j);
    RunKeeps(run, steps, i);
    RunKeeps(run, steps, j);
    assert run[j].log[..|run[i].log|] == run[i].log;
  }

  // ---------- what a client can do alone ----------

  /** A client that is about to read may be given any state the node ever had; on the strength of it a TrySet
      goes on, and a CompareAndSet iff it is what it expects. And anyone may give up. */
  lemma AnyStateMayBeRead(run: seq<State>, steps: seq<Step>, i: nat, c: ClientId, moment: nat) returns (read: State, left: State)
    requires Run(run, steps) && i < |run| && c in run[i].clients && run[i].clients[c].Reading? && moment <= |run[i].past|
    ensures Next(run[i], Read(c, moment), read) && Next(run[i], GiveUp(c), left) && c !in left.clients
    ensures var op, value := run[i].clients[c].op, if moment == 0 then None else Some(run[i].past[moment - 1]);
            && (c in read.clients <==> op.TrySet? || (op.CompareAndSet? && Data(value) == Some(op.expected)))
            && (c in read.clients ==> read.clients[c] == Writing(op, value))
  {
    var s := run[i];
    var op, value := s.clients[c].op, if moment == 0 then None else Some(s.past[moment - 1]);
    var goOn := op.TrySet? || (op.CompareAndSet? && Data(value) == Some(op.expected));
    read := s.(clients := With(s.clients, c, if goOn then Some(Writing(op, value)) else None));
    left := s.(clients := s.clients - {c});
  }

  ghost predicate Path(run: seq<State>, steps: seq<Step>) {
    |run| == |steps| + 1 && forall i :: 0 <= i < |steps| ==> Next(run[i], steps[i], run[i + 1])
  }

  /** Every step reads or writes for client `c`. */
  predicate Only(steps: seq<Step>, c: ClientId) {
    forall i :: 0 <= i < |steps| ==> steps[i].c == c && (steps[i].Read? || steps[i].Write?)
  }

  lemma PathCons(s: State, step: Step, run: seq<State>, steps: seq<Step>)
    requires Path(run, steps) && Next(s, step, run[0])
    ensures Path([s] + run, [step] + steps)
  {
  }

  /** Whether an operation that nobody disturbs any more succeeds: a comparison must find, or have found in
      the node as it stands, the value it expects. */
  predicate WillSucceed(p: Phase, node: Option<ZNode>) {
    match p.op
    case CompareAndSet(expected, _) => if p.Writing? then p.read == node else Data(node) == Some(expected)
    case _ => true
  }

  /** The log after it. */
  function Finished(p: Phase, node: Option<ZNode>, log: seq<Entry>): seq<Entry> {
    if WillSucceed(p, node) then log + [Entry(p.op, if p.op.ForceSet? then None else Data(node))] else log
  }

  /** How many more steps it takes. */
  ghost function StepsLeft(p: Phase, node: Option<ZNode>): nat {
    match p
    case Reading(_) => 1
    case Writing(_, _) => if WriteCall(p, node).Ok? then 0 else 2
    case Forcing(_, attempt) => if attempt < 3 then 3 - attempt else 0
  }

  /** One step of a client by itself: it reads the newest state, or writes. */
  lemma OneStep(s: State, c: ClientId) returns (step: Step, s': State)
    requires Inv(s) && c in s.clients
    ensures Next(s, step, s') && step.c == c && (step.Read? || step.Write?)
    ensures if c in s'.clients
            then && s'.clients[c].op == s.clients[c].op && s'.node == s.node
                 && StepsLeft(s'.clients[c], s.node) < StepsLeft(s.clients[c], s.node)
                 && Finished(s'.clients[c], s.node, s'.log) == Finished(s.clients[c], s.node, s.log)
            else s'.log == Finished(s.clients[c], s.node, s.log)
  {
    var p := s.clients[c];
    if p.Reading? {
      var goOn := p.op.TrySet? || (p.op.CompareAndSet? && Data(s.node) == Some(p.op.expected));
      step := Read(c, |s.past|);
      s' := s.(clients := With(s.clients, c, if goOn then Some(Writing(p.op, s.node)) else None));
    } else {
      step := Write(c);
      var r := WriteCall(p, s.node);
      var pre := if p.Writing? then Data(p.read) else None;
      s' := if r.Ok? then State(Some(r.value), s.past + [r.value], s.clients - {c}, s.log + [Entry(p.op, pre)])
            else s.(clients := With(s.clients, c, Refused(p)));
    }
  }

  lemma {:induction false} Finishes(s: State, c: ClientId) returns (run: seq<State>, steps: seq<Step>)
    requires Inv(s) && c in s.clients
    ensures Path(run, steps) && Only(steps, c) && run[0] == s
    ensures c !in run[|run| - 1].clients && run[|run| - 1].log == Finished(s.clients[c], s.node, s.log)
    ensures Data(run[|run| - 1].node) == Register(run[|run| - 1].log)
    decreases StepsLeft(s.clients[c], s.node)
  {
    var step, s' := OneStep(s, c);
    run, steps := [s'], [];
    NextKeeps(s, step, s');
    StoredIsRegister(s');
    if c in s'.clients {
      run, steps := Finishes(s', c);
    }
    PathCons(s, step, run, steps);
    run, steps := [s] + run, [step] + steps;
  }

  /** In every reachable state, whatever the others have left unfinished: a client in the middle of any
      operation, going on by itself, ends it. A TrySet or ForceSet then succeeds; a CompareAndSet exactly when
      the node holds what it expects, or still is as it was read. */
  lemma FinishesAlone(run: seq<State>, steps: seq<Step>, i: nat, c: ClientId) returns (more: seq<State>, next: seq<Step>)
    requires Run(run, steps) && i < |run| && c in run[i].clients
    ensures Path(more, next) && Only(next, c) && more[0] == run[i]
    ensures var p, last := run[i].clients[c], more[|more| - 1];
            && c !in last.clients && last.log == Finished(p, run[i].node, run[i].log)
            && (WillSucceed(p, run[i].node) ==> Data(last.node) == Some(p.op.newValue))
  {
    RunKeeps(run, steps, i);
    more, next := Finishes(run[i], c);
  }

  /** And anyone not in the middle of an operation can begin any. */
  lemma BeginsAndFinishes(run: seq<State>, steps: seq<Step>, i: nat, c: ClientId, op: Op)
    returns (begun: State, more: seq<State>, next: seq<Step>)
    requires Run(run, steps) && i < |run| && c !in run[i].clients
    ensures Next(run[i], Begin(c, op), begun) && Path(more, next) && Only(next, c) && more[0] == begun
    ensures var s, last := run[i], more[|more| - 1];
            var done := op.CompareAndSet? ==> Data(s.node) == Some(op.expected);
            && last.log == (if done then s.log + [Entry(op, if op.ForceSet? then None else Data(s.node))] else s.log)
            && Data(last.node) == (if done then Some(op.newValue) else Data(s.node))
  {
    RunKeeps(run, steps, i);
    var s := run[i];
    begun := s.(clients := s.clients[c := if op.ForceSet? then Forcing(op, 0) else Reading(op)]);
    NextKeeps(s, Begin(c, op), begun);
    StoredIsRegister(s);
    more, next := Finishes(begun, c);
    assert Finished(begun.clients[c], s.node, s.log)
           == if op.CompareAndSet? ==> Data(s.node) == Some(op.expected) then s.log + [Entry(op, if op.ForceSet? then None else Data(s.node))]
              else s.log;
  }
}
