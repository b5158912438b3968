/**
 Many clients at once. The store is shared behind a readers-writer lock: a writer holds it alone
 and processes one entry per step, readers hold it together. Steps of different clients interleave
 in any way the lock permits. Every such run is the sequential run of its operations in the order
 in which they gave up the lock.
 */
module LockMachine {
  import opened Wrappers
  import opened Events
  import opened StoreSpec

  datatype Phase =
    | Idle
    | Waiting(op: Op)
    | Holding(op: Op, missing: bool, reports: seq<Report>)
    | Answered(op: Op, response: Response)

  datatype Machine = Machine(store: State, clients: map<nat, Phase>) {
    function Phase(c: nat): Phase {
      if c in clients then clients[c] else Idle
    }

    function Put(c: nat, p: Phase): Machine {
      this.(clients := clients[c := p])
    }
  }

  const START := Machine(EMPTY, map[])

  predicate Writing(p: Phase) {
    p.Holding? && !IsRead(p.op)
  }

  predicate Reading(p: Phase) {
    p.Holding? && IsRead(p.op)
  }

  // ---- The steps ----

  datatype Action = Call(client: nat, op: Op) | Lock(client: nat) | Iterate(client: nat) | Unlock(client: nat) | Return(client: nat)

  predicate NoneWriting(m: Machine) {
    forall c | c in m.clients :: !Writing(m.clients[c])
  }

  predicate NoneHolding(m: Machine) {
    forall c | c in m.clients :: !m.clients[c].Holding?
  }

  /** The holder has an entry left to process: its loop neither ended nor returned early. */
  predicate More(p: Phase)
    requires p.Holding?
  {
    !p.missing && |p.reports| < |Plan(p.op)| && Plan(p.op)[|p.reports|].Ok?
  }

  predicate Enabled(m: Machine, a: Action) {
    var p := m.Phase(a.client);
    match a
    case Call(_, _) => p.Idle?
    case Lock(_) => p.Waiting? && if IsRead(p.op) then NoneWriting(m) else NoneHolding(m)
    case Iterate(_) => p.Holding? && More(p)
    case Unlock(_) => p.Holding? && !More(p)
    case Return(_) => p.Answered?
  }

  /** What a holder answers when it is done. */
  function Answer(store: State, p: Phase): Response
    requires p.Holding?
  {
    if IsRead(p.op) then ReadResponse(store, p.op) else WriteResponse(p.op, p.missing, p.reports)
  }

  function Act(m: Machine, a: Action): Machine
    requires Enabled(m, a)
  {
    var p := m.Phase(a.client);
    match a
    case Call(c, op) => m.Put(c, Waiting(op))
    case Lock(c) => m.Put(c, Holding(p.op, Missing(m.store, p.op), []))
    case Iterate(c) =>
      var e := Plan(p.op)[|p.reports|].value;
      Machine(Step(m.store, e), m.clients[c := p.(reports := p.reports + [ReportOf(m.store, e)])])
    case Unlock(c) => m.Put(c, Answered(p.op, Answer(m.store, p)))
    case Return(c) => m.Put(c, Idle)
  }

  // ---- Runs ----

  predicate Possible(acts: seq<Action>)
    decreases |acts|, 0
  {
    acts == [] || (Possible(acts[..|acts| - 1]) && Enabled(After(acts[..|acts| - 1]), acts[|acts| - 1]))
  }

  function After(acts: seq<Action>): Machine
    requires Possible(acts)
    decreases |acts|, 1
  {
    if acts == [] then START else Act(After(acts[..|acts| - 1]), acts[|acts| - 1])
  }

  datatype Served = Served(client: nat, op: Op, response: Response)

  /** The operations in the order in which they gave up the lock, with their answers. */
  function Order(acts: seq<Action>): seq<Served>
    requires Possible(acts)
  {
    if acts == [] then []
    else
      var init, last := acts[..|acts| - 1], acts[|acts| - 1];
      var p := After(init).Phase(last.client);
      Order(init) + if last.Unlock? then [Served(last.client, p.op, Answer(After(init).store, p))] else []
  }

  function Ops(h: seq<Served>): (ops: seq<Op>)
    ensures |ops| == |h|
  {
    if h == [] then [] else Ops(h[..|h| - 1]) + [h[|h| - 1].op]
  }

  function Answers(h: seq<Served>): (rs: seq<Response>)
    ensures |rs| == |h|
  {
    if h == [] then [] else Answers(h[..|h| - 1]) + [h[|h| - 1].response]
  }

  lemma OneMoreServed(h: seq<Served>, x: Served)
    ensures Ops(h + [x]) == Ops(h) + [x.op] && Answers(h + [x]) == Answers(h) + [x.response]
  {
    assert (h + [x])[..|h|] == h;
  }

  /** The state after the operations served so far, one at a time. */
  function ServedState(h: seq<Served>): State {
    Run(EMPTY, Ops(h))
  }

  // ---- What every step keeps ----

  /** A writer excludes every other holder. */
  ghost predicate Exclusive(m: Machine) {
    forall c, d | c in m.clients && d in m.clients && c != d && Writing(m.clients[c]) :: !m.clients[d].Holding?
  }

  /** A writer has taken the store from `base` through the first entries of its operation. */
  ghost predicate Halfway(base: State, store: State, p: Phase)
    requires p.Holding?
  {
    var es, n := Entries(base, p.op), |p.reports|;
    && p.missing == Missing(base, p.op)
    && n <= |es|
    && store == Replay(base, es[..n])
    && p.reports == Reports(base, es[..n])
  }

  ghost predicate Consistent(m: Machine, base: State) {
    && Exclusive(m)
    && (forall c | c in m.clients && Writing(m.clients[c]) :: Halfway(base, m.store, m.clients[c]))
    && (NoneWriting(m) ==> m.store == base)
  }

  lemma HalfwayStarts(base: State, op: Op)
    ensures Halfway(base, base, Holding(op, Missing(base, op), []))
  {
    assert Entries(base, op)[..0] == [];
  }

  lemma NextEntry(op: Op, n: nat)
    ensures n < |Prefix(Plan(op))| ==> n < |Plan(op)| && Plan(op)[n] == Ok(Prefix(Plan(op))[n])
    ensures n == |Prefix(Plan(op))| ==> n == |Plan(op)| || (n < |Plan(op)| && Plan(op)[n].Err?)
  {
    hide Plan;
  }

  lemma HalfwayAdvances(base: State, store: State, p: Phase)
    requires p.Holding? && Halfway(base, store, p) && More(p)
    ensures var e := Plan(p.op)[|p.reports|].value;
            Halfway(base, Step(store, e), p.(reports := p.reports + [ReportOf(store, e)]))
  {
    hide Replay, Reports, Plan, Prefix, ReportOf, Step, Entries, Missing;
    var es, n := Entries(base, p.op), |p.reports|;
    EntriesAre(base, p.op);
    NextEntry(p.op, n);
    assert es[..n + 1] == es[..n] + [es[n]];
    ReplaySnoc(base, es[..n], es[n]);
  }

  lemma HalfwayEnds(base: State, store: State, p: Phase)
    requires p.Holding? && !IsRead(p.op) && Halfway(base, store, p) && !More(p)
    ensures store == Perform(base, p.op)
    ensures WriteResponse(p.op, p.missing, p.reports) == Respond(base, p.op)
  {
    var es, n := Entries(base, p.op), |p.reports|;
    assert Perform(base, p.op) == Replay(base, es);
    assert Respond(base, p.op) == WriteResponse(p.op, Missing(base, p.op), Reports(base, es));
    EntriesAre(base, p.op);
    NextEntry(p.op, n);
    hide Replay, Reports, Plan, Prefix, WriteResponse, Perform, Respond, Entries, Missing, IsRead;
    assert n == |es|;
    assert es[..n] == es;
  }

  lemma ReadsChangeNothing(s: State, op: Op)
    requires IsRead(op)
    ensures Perform(s, op) == s && Respond(s, op) == ReadResponse(s, op) && Plan(op) == []
  {
  }

  lemma CallKeeps(m: Machine, a: Action, base: State)
    requires Consistent(m, base) && (a.Call? || a.Return?) && Enabled(m, a)
    ensures Consistent(Act(m, a), base)
  {
    hide Halfway;
    var m' := Act(m, a);
    assert forall c | c in m'.clients && m'.clients[c].Holding? :: c in m.clients && m.clients[c] == m'.clients[c];
    assert NoneWriting(m') ==> NoneWriting(m);
  }

  lemma LockKeeps(m: Machine, a: Action, base: State)
    requires Consistent(m, base) && a.Lock? && Enabled(m, a)
    ensures Consistent(Act(m, a), base)
  {
    HalfwayStarts(base, m.Phase(a.client).op);
    hide Halfway, Missing, IsRead;
    var m', p := Act(m, a), m.Phase(a.client);
    assert NoneWriting(m);
    assert forall c | c in m'.clients && c != a.client :: c in m.clients && m.clients[c] == m'.clients[c];
  }

  lemma IterateKeeps(m: Machine, a: Action, base: State)
    requires Consistent(m, base) && a.Iterate? && Enabled(m, a)
    ensures Consistent(Act(m, a), base)
  {
    var p := m.Phase(a.client);
    var e := Plan(p.op)[|p.reports|].value;
    var q := p.(reports := p.reports + [ReportOf(m.store, e)]);
    OnlyWritersIterate(p);
    HalfwayAdvances(base, m.store, p);
    WriterAdvances(m, a.client, Step(m.store, e), q, base);
    hide Consistent, Halfway, More, IsRead, Plan, Step, ReportOf, Writing;
  }

  lemma WriterAdvances(m: Machine, c: nat, store: State, q: Phase, base: State)
    requires Consistent(m, base) && Writing(m.Phase(c)) && Writing(q) && Halfway(base, store, q)
    ensures Consistent(Machine(store, m.clients[c := q]), base)
  {
    hide Halfway, IsRead;
    var m' := Machine(store, m.clients[c := q]);
    assert Writing(m'.clients[c]);
  }

  lemma OnlyWritersIterate(p: Phase)
    requires p.Holding? && More(p)
    ensures Writing(p)
  {
    if IsRead(p.op) {
      ReadsChangeNothing(EMPTY, p.op);
    }
  }

  lemma UnlockKeeps(m: Machine, a: Action, base: State)
    requires Consistent(m, base) && a.Unlock? && Enabled(m, a)
    ensures var p := m.Phase(a.client);
            Answer(m.store, p) == Respond(base, p.op) && Consistent(Act(m, a), Perform(base, p.op))
  {
    var m', p := Act(m, a), m.Phase(a.client);
    assert forall c | c in m'.clients && c != a.client :: c in m.clients && m.clients[c] == m'.clients[c];
    if IsRead(p.op) {
      ReadsChangeNothing(base, p.op);
      hide Halfway, IsRead, Plan, More, Perform, Respond, ReadResponse, WriteResponse;
      assert NoneWriting(m);
      assert NoneWriting(m');
    } else {
      HalfwayEnds(base, m.store, p);
      hide Halfway, IsRead, Plan, More, Perform, Respond, ReadResponse, WriteResponse;
      assert NoneWriting(m');
    }
  }

  lemma ActionKeeps(m: Machine, a: Action, base: State)
    requires Consistent(m, base) && Enabled(m, a)
    ensures a.Unlock? ==> var p := m.Phase(a.client);
                          p.Holding? && Answer(m.store, p) == Respond(base, p.op) && Consistent(Act(m, a), Perform(base, p.op))
    ensures !a.Unlock? ==> Consistent(Act(m, a), base)
  {
    hide Consistent, Act, Answer, Respond, Perform;
    match a
    case Call(_, _) => CallKeeps(m, a, base);
    case Return(_) => CallKeeps(m, a, base);
    case Lock(_) => LockKeeps(m, a, base);
    case Iterate(_) => IterateKeeps(m, a, base);
    case Unlock(_) => UnlockKeeps(m, a, base);
  }

  lemma Unfold(acts: seq<Action>)
    requires acts != [] && Possible(acts)
    ensures var init, last := acts[..|acts| - 1], acts[|acts| - 1];
            && Possible(init)
            && Enabled(After(init), last)
            && After(acts) == Act(After(init), last)
            && var p := After(init).Phase(last.client);
               && (last.Unlock? ==> p.Holding? && Order(acts) == Order(init) + [Served(last.client, p.op, Answer(After(init).store, p))])
               && (!last.Unlock? ==> Order(acts) == Order(init))
  {
  }

  lemma AtTheStart()
    ensures After([]) == START && Order([]) == [] && Consistent(START, ServedState([]))
    ensures Answers([]) == Responses(EMPTY, Ops([]))
  {
  }

  /**
   Every interleaving refines the sequential store. The answers given are those of the sequential
   run of the operations in unlocking order; the shared state is the state of that run, or, while
   one writer works, that state taken through the first entries of the writer's operation.
   */
  lemma {:induction false} EveryRunIsSequential(acts: seq<Action>)
    requires Possible(acts)
    ensures Answers(Order(acts)) == Responses(EMPTY, Ops(Order(acts)))
    ensures Consistent(After(acts), ServedState(Order(acts)))
  {
    hide *;
    if acts == [] {
      AtTheStart();
    } else {
      var init, last := acts[..|acts| - 1], acts[|acts| - 1];
      Unfold(acts);
      EveryRunIsSequential(init);
      var h, m := Order(init), After(init);
      ActionKeeps(m, last, ServedState(h));
      if last.Unlock? {
        var p := m.Phase(last.client);
        ServedNext(h, Served(last.client, p.op, Answer(m.store, p)));
      }
    }
  }

  lemma ServedNext(h: seq<Served>, x: Served)
    ensures ServedState(h + [x]) == Perform(ServedState(h), x.op)
    ensures Answers(h) == Responses(EMPTY, Ops(h)) && x.response == Respond(ServedState(h), x.op) ==>
              Answers(h + [x]) == Responses(EMPTY, Ops(h + [x]))
  {
    OneMoreServed(h, x);
    RunSnoc(EMPTY, Ops(h), x.op);
    hide Run, Perform, Respond, Responses, Answers, Ops;
  }

  // ---- What readers see ----

  /** Whoever reads sees the state between operations, never inside a batch. */
  lemma ReadersSeeWholeBatches(acts: seq<Action>, c: nat)
    requires Possible(acts) && Reading(After(acts).Phase(c))
    ensures After(acts).store == ServedState(Order(acts))
    ensures NoneWriting(After(acts))
  {
    hide After, Order, ServedState, IsRead, Possible;
    EveryRunIsSequential(acts);
    var m := After(acts);
    forall d | d in m.clients ensures !Writing(m.clients[d]) {
      assert m.clients[c].Holding?;
    }
  }

  /** The state does not move under a reader, whatever the others do. */
  lemma StoreIsStableUnderReaders(acts: seq<Action>, a: Action, c: nat)
    requires Possible(acts) && Reading(After(acts).Phase(c)) && Enabled(After(acts), a)
    ensures Act(After(acts), a).store == After(acts).store
  {
    ReadersSeeWholeBatches(acts, c);
    var m := After(acts);
    var p := m.Phase(a.client);
    if p.Holding? && IsRead(p.op) {
      ReadsChangeNothing(m.store, p.op);
    }
    hide After, Order, ServedState, Possible, IsRead, Plan, Step;
  }

  // ---- What each client sees ----

  datatype Reply = Reply(op: Op, response: Response)

  function ServedTo(h: seq<Served>, c: nat): seq<Reply> {
    if h == [] then []
    else
      var x := h[|h| - 1];
      ServedTo(h[..|h| - 1], c) + if x.client == c then [Reply(x.op, x.response)] else []
  }

  /** The replies a client has received, in order. */
  function Received(acts: seq<Action>, c: nat): seq<Reply>
    requires Possible(acts)
  {
    if acts == [] then []
    else
      var init, last := acts[..|acts| - 1], acts[|acts| - 1];
      var p := After(init).Phase(c);
      Received(init, c) + if last.Return? && last.client == c then [Reply(p.op, p.response)] else []
  }

  /** The operations a client has submitted, in order. */
  function Submitted(acts: seq<Action>, c: nat): seq<Op> {
    if acts == [] then []
    else
      var last := acts[|acts| - 1];
      Submitted(acts[..|acts| - 1], c) + if last.Call? && last.client == c then [last.op] else []
  }

  function OpsOf(rs: seq<Reply>): (ops: seq<Op>)
    ensures |ops| == |rs|
  {
    if rs == [] then [] else OpsOf(rs[..|rs| - 1]) + [rs[|rs| - 1].op]
  }

  function Outstanding(p: Phase): seq<Reply> {
    if p.Answered? then [Reply(p.op, p.response)] else []
  }

  function InFlight(p: Phase): seq<Op> {
    if p.Waiting? || p.Holding? then [p.op] else []
  }

  lemma OneMoreReply(rs: seq<Reply>, r: Reply)
    ensures OpsOf(rs + [r]) == OpsOf(rs) + [r.op]
  {
    assert (rs + [r])[..|rs|] == rs;
  }

  lemma ServedToSnoc(h: seq<Served>, x: Served, c: nat)
    ensures ServedTo(h + [x], c) == if x.client == c then ServedTo(h, c) + [Reply(x.op, x.response)] else ServedTo(h, c)
  {
    assert (h + [x])[..|h|] == h;
  }

  /**
   Each client's replies are exactly what the sequential run gave its operations, in the order it
   submitted them; at most its last operation is still on the way.
   */
  lemma {:induction false} ClientsSeeTheOrder(acts: seq<Action>, c: nat)
    requires Possible(acts)
    ensures InStep(ServedTo(Order(acts), c), Received(acts, c), Submitted(acts, c), After(acts).Phase(c))
  {
    hide *;
    if acts == [] {
      ClientsStartIdle(c);
    } else {
      var init, last := acts[..|acts| - 1], acts[|acts| - 1];
      Unfold(acts);
      LogsStep(acts, c);
      ClientsSeeTheOrder(init, c);
      var m := After(init);
      var p := m.Phase(last.client);
      if last.Unlock? {
        ServedToSnoc(Order(init), Served(last.client, p.op, Answer(m.store, p)), c);
      }
      if last.client == c {
        ClientStep(m, last, c, ServedTo(Order(init), c), Received(init, c), Submitted(init, c));
      } else {
        PhaseMoves(m, last, c);
      }
    }
  }

  lemma ClientsStartIdle(c: nat)
    ensures InStep(ServedTo(Order([]), c), Received([], c), Submitted([], c), After([]).Phase(c))
  {
  }

  lemma PhaseMoves(m: Machine, a: Action, c: nat)
    requires Enabled(m, a)
    ensures var p, q := m.Phase(c), Act(m, a).Phase(c);
            if a.client != c then q == p
            else match a
                 case Call(_, op) => InFlight(p) == [] && Outstanding(p) == Outstanding(q) == [] && InFlight(q) == [op]
                 case Unlock(_) => p.Holding? && InFlight(p) == [p.op] && Outstanding(p) == [] && InFlight(q) == []
                                   && Outstanding(q) == [Reply(p.op, Answer(m.store, p))]
                 case Return(_) => p.Answered? && Outstanding(p) == [Reply(p.op, p.response)]
                                   && InFlight(p) == InFlight(q) == [] && Outstanding(q) == []
                 case _ => InFlight(q) == InFlight(p) && Outstanding(q) == Outstanding(p)
  {
    hide Plan, Step, ReportOf, Answer, IsRead, Missing;
  }

  lemma LogsStep(acts: seq<Action>, c: nat)
    requires acts != [] && Possible(acts)
    ensures var init, last := acts[..|acts| - 1], acts[|acts| - 1];
            && Possible(init)
            && var p := After(init).Phase(c);
               && Received(acts, c) ==
                  (if last.Return? && last.client == c then Received(init, c) + [Reply(p.op, p.response)] else Received(init, c))
               && Submitted(acts, c) ==
                  if last.Call? && last.client == c then Submitted(init, c) + [last.op] else Submitted(init, c)
  {
    hide After, Order;
  }

  /** Replies: received is a step behind served. Operations: served is a step behind submitted. */
  ghost predicate InStep(served: seq<Reply>, received: seq<Reply>, submitted: seq<Op>, p: Phase) {
    && served == received + Outstanding(p)
    && submitted == OpsOf(served) + InFlight(p)
  }

  lemma ClientStep(m: Machine, a: Action, c: nat, served: seq<Reply>, received: seq<Reply>, submitted: seq<Op>)
    requires Enabled(m, a) && InStep(served, received, submitted, m.Phase(c))
    requires a.client == c
    ensures var p, q := m.Phase(c), Act(m, a).Phase(c);
            match a
            case Call(_, op) => InStep(served, received, submitted + [op], q)
            case Unlock(_) => p.Holding? && InStep(served + [Reply(p.op, Answer(m.store, p))], received, submitted, q)
            case Return(_) => p.Answered? && InStep(served, received + [Reply(p.op, p.response)], submitted, q)
            case _ => InStep(served, received, submitted, q)
  {
    PhaseMoves(m, a, c);
    hide Enabled, Act, Answer, Outstanding, InFlight, OpsOf;
    var p := m.Phase(c);
    if a.Unlock? {
      OneMoreReply(served, Reply(p.op, Answer(m.store, p)));
    }
  }

  lemma {:induction false} OrderExtends(acts: seq<Action>, more: seq<Action>)
    requires Possible(acts + more)
    ensures Possible(acts) && Order(acts) <= Order(acts + more)
  {
    hide *;
    if more == [] {
      assert acts + more == acts;
    } else {
      var all := acts + more;
      assert all[..|all| - 1] == acts + more[..|more| - 1];
      Unfold(all);
      OrderExtends(acts, more[..|more| - 1]);
    }
  }

  /**
   The sequential order respects real time: when an operation is called, every reply received by
   then belongs to an operation already placed in the order, and the new call comes after them all.
   */
  lemma OrderRespectsRealTime(acts: seq<Action>, call: Action, more: seq<Action>, d: nat)
    requires call.Call? && Possible(acts + [call] + more)
    ensures Possible(acts) && Order(acts) <= Order(acts + [call] + more)
    ensures Received(acts, d) <= ServedTo(Order(acts), d)
    ensures OpsOf(ServedTo(Order(acts), call.client)) == Submitted(acts, call.client)
  {
    hide *;
    assert acts + [call] + more == acts + ([call] + more);
    OrderExtends(acts, [call] + more);
    OrderExtends(acts + [call], more);
    assert (acts + [call])[..|acts + [call]| - 1] == acts;
    Unfold(acts + [call]);
    CallerIsIdle(After(acts), call);
    ClientsSeeTheOrder(acts, d);
    ClientsSeeTheOrder(acts, call.client);
    InStepMeans(ServedTo(Order(acts), d), Received(acts, d), Submitted(acts, d), After(acts).Phase(d));
    var c := call.client;
    InStepMeans(ServedTo(Order(acts), c), Received(acts, c), Submitted(acts, c), After(acts).Phase(c));
  }

  lemma CallerIsIdle(m: Machine, a: Action)
    ensures a.Call? && Enabled(m, a) ==> m.Phase(a.client).Idle?
  {
  }

  lemma InStepMeans(served: seq<Reply>, received: seq<Reply>, submitted: seq<Op>, p: Phase)
    requires InStep(served, received, submitted, p)
    ensures received <= served
    ensures p.Idle? ==> OpsOf(served) == submitted
  {
    hide OpsOf;
  }

  /** The lock never leaves a client stuck: some client that has called can take its next step. */
  lemma SomeoneCanMove(acts: seq<Action>, c: nat)
    requires Possible(acts) && !After(acts).Phase(c).Idle?
    ensures exists a: Action :: !a.Call? && Enabled(After(acts), a)
  {
    hide After, Possible, Plan, IsRead;
    var m := After(acts);
    if d :| d in m.clients && m.clients[d].Holding? {
      assert Enabled(m, Iterate(d)) || Enabled(m, Unlock(d));
    } else {
      assert NoneWriting(m) && NoneHolding(m);
      assert Enabled(m, Lock(c)) || Enabled(m, Return(c));
    }
  }

  // ---- Everyone finishes ----

  /** The steps a client can still take on its current operation. */
  function PhaseWork(p: Phase): nat {
    match p
    case Idle => 0
    case Waiting(op) => |Plan(op)| + 3
    case Holding(op, _, reports) => (if |reports| < |Plan(op)| then |Plan(op)| - |reports| else 0) + 2
    case Answered(_, _) => 1
  }

  ghost function Work(clients: map<nat, Phase>): nat {
    if clients == map[] then 0
    else
      var c :| c in clients;
      PhaseWork(clients[c]) + Work(clients - {c})
  }

  lemma {:induction false} WorkSplits(clients: map<nat, Phase>, c: nat)
    requires c in clients
    ensures Work(clients) == PhaseWork(clients[c]) + Work(clients - {c})
    decreases |clients|
  {
    hide PhaseWork;
    var d :| d in clients && Work(clients) == PhaseWork(clients[d]) + Work(clients - {d});
    if d != c {
      WorkSplits(clients - {d}, c);
      WorkSplits(clients - {c}, d);
      assert clients - {d} - {c} == clients - {c} - {d};
    }
  }

  lemma WorkAfterPut(m: Machine, c: nat, p: Phase)
    ensures Work(m.clients[c := p]) + PhaseWork(m.Phase(c)) == Work(m.clients) + PhaseWork(p)
  {
    var after := m.clients[c := p];
    WorkSplits(after, c);
    if c in m.clients {
      WorkSplits(m.clients, c);
      assert after - {c} == m.clients - {c};
    } else {
      assert after - {c} == m.clients;
    }
    hide Work, Plan;
  }

  lemma StepLowersWork(m: Machine, a: Action)
    requires Enabled(m, a) && !a.Call?
    ensures Work(Act(m, a).clients) < Work(m.clients)
  {
    hide Work, Plan, IsRead, Missing, Answer, Step, ReportOf;
    var q := Act(m, a).Phase(a.client);
    assert Act(m, a).clients == m.clients[a.client := q];
    assert PhaseWork(q) < PhaseWork(m.Phase(a.client));
    WorkAfterPut(m, a.client, q);
  }

  lemma {:induction false} WorkBoundsTheSteps(acts: seq<Action>, more: seq<Action>)
    requires Possible(acts + more) && forall a | a in more :: !a.Call?
    ensures Possible(acts)
    ensures |more| + Work(After(acts + more).clients) <= Work(After(acts).clients)
  {
    hide *;
    if more == [] {
      assert acts + more == acts;
    } else {
      var all, init := acts + more, more[..|more| - 1];
      assert all[..|all| - 1] == acts + init && more[|more| - 1] in more;
      Unfold(all);
      WorkBoundsTheSteps(acts, init);
      StepLowersWork(After(acts + init), all[|all| - 1]);
    }
  }

  /** No step but a new call is possible. */
  ghost predicate Exhausted(m: Machine) {
    forall a: Action :: Enabled(m, a) ==> a.Call?
  }

  /**
   Nobody waits forever. Once no new calls are made only so many steps remain, however they are
   scheduled, and when none is left every client is idle and has received the sequential answer to
   each of its operations.
   */
  lemma EveryoneFinishes(acts: seq<Action>, more: seq<Action>, c: nat)
    requires Possible(acts + more) && forall a | a in more :: !a.Call?
    ensures Possible(acts) && |more| <= Work(After(acts).clients)
    ensures Exhausted(After(acts + more)) ==>
              && After(acts + more).Phase(c).Idle?
              && Received(acts + more, c) == ServedTo(Order(acts + more), c)
              && OpsOf(Received(acts + more, c)) == Submitted(acts, c)
              && After(acts + more).store == ServedState(Order(acts + more))
  {
    hide *;
    var all := acts + more;
    WorkBoundsTheSteps(acts, more);
    SubmittedBefore(acts, more, c);
    if Exhausted(After(all)) {
      AllIdle(all);
      ClientsSeeTheOrder(all, c);
      EveryRunIsSequential(all);
      IdleMeans(ServedTo(Order(all), c), Received(all, c), Submitted(all, c), After(all), c);
      IdleStore(After(all), ServedState(Order(all)));
    }
  }

  lemma AllIdle(acts: seq<Action>)
    requires Possible(acts) && Exhausted(After(acts))
    ensures forall c: nat :: After(acts).Phase(c).Idle?
  {
    hide Possible, After, Enabled;
    forall c: nat ensures After(acts).Phase(c).Idle? {
      if !After(acts).Phase(c).Idle? {
        SomeoneCanMove(acts, c);
      }
    }
  }

  lemma IdleMeans(served: seq<Reply>, received: seq<Reply>, submitted: seq<Op>, m: Machine, c: nat)
    requires InStep(served, received, submitted, m.Phase(c)) && m.Phase(c).Idle?
    ensures received == served && OpsOf(served) == submitted
  {
    hide OpsOf;
  }

  lemma IdleStore(m: Machine, base: State)
    requires Consistent(m, base) && forall c: nat :: m.Phase(c).Idle?
    ensures m.store == base
  {
    hide Halfway;
    assert forall c | c in m.clients :: m.clients[c] == m.Phase(c);
  }

  lemma {:induction false} SubmittedBefore(acts: seq<Action>, more: seq<Action>, c: nat)
    requires forall a | a in more :: !a.Call?
    ensures Submitted(acts + more, c) == Submitted(acts, c)
  {
    if more == [] {
      assert acts + more == acts;
    } else {
      var all, init := acts + more, more[..|more| - 1];
      assert all[..|all| - 1] == acts + init && more[|more| - 1] in more;
      SubmittedBefore(acts, init, c);
    }
  }
}
