/** What a run of the driver makes of the calls in it: every call becomes one request of its kind with its descriptor,
    every result of the device becomes the service of one request, and descriptors come back as the code hands them
    back. The actions of the run are counted by name, so nothing here rests on what the state has recorded. */
module DriverCalls {
  import opened Options
  import opened DiskDriver
  import opened DriverSafety
  import opened DriverRuns

  // ----- every call becomes one request

  predicate IsCall(a: Action, kind: Kind, sd: int) {
    a.Call? && a.kind == kind && a.sd == sd
  }

  /** How often the run calls for a transfer of this kind with this descriptor. */
  function Calls(run: seq<Action>, kind: Kind, sd: int): nat {
    if run == [] then 0 else B(IsCall(run[0], kind, sd)) + Calls(run[1..], kind, sd)
  }

  predicate InCall(pc: ClientPc, kind: Kind, sd: int) {
    (pc.Wanting? || pc.Filling? || pc.Enqueuing?) && pc.kind == kind && pc.sd == sd
  }

  /** The clients inside such a call. */
  function Callers(s: State, kind: Kind, sd: int): set<nat> {
    set c: nat | c < |s.clients| && InCall(s.clients[c], kind, sd)
  }

  /** The requests for such a transfer. */
  function RequestsFor(s: State, kind: Kind, sd: int): set<nat> {
    set i: nat | i < |s.requests| && s.requests[i].kind == kind && s.requests[i].sd == sd
  }

  /** Requests keep what they ask for. */
  ghost predicate SameRequests(s: State, s': State) {
    |s'.requests| == |s.requests| &&
    forall i: nat | i < |s.requests| :: s'.requests[i].kind == s.requests[i].kind && s'.requests[i].sd == s.requests[i].sd
  }

  lemma QuietCalls(s: State, s': State, kind: Kind, sd: int)
    requires SameRequests(s, s') && |s'.clients| == |s.clients|
    requires forall c: nat :: InCall(Pc(s', c), kind, sd) == InCall(Pc(s, c), kind, sd)
    ensures Callers(s', kind, sd) == Callers(s, kind, sd) && RequestsFor(s', kind, sd) == RequestsFor(s, kind, sd)
  {
    forall c: nat | c < |s.clients| ensures c in Callers(s', kind, sd) <==> c in Callers(s, kind, sd) {
      assert InCall(Pc(s', c), kind, sd) == InCall(Pc(s, c), kind, sd);
    }
  }

  lemma CallBegins(s: State, a: Action, kind: Kind, sd: int)
    requires a.Call? && Enabled(s, a)
    ensures |Callers(Apply(s, a), kind, sd)| == |Callers(s, kind, sd)| + B(IsCall(a, kind, sd))
    ensures RequestsFor(Apply(s, a), kind, sd) == RequestsFor(s, kind, sd)
  {
    var more: set<nat> := if IsCall(a, kind, sd) then {a.c} else {};
    assert Callers(Apply(s, a), kind, sd) == Callers(s, kind, sd) + more;
  }

  lemma CallEnds(s: State, c: nat, kind: Kind, sd: int)
    requires Pc(s, c).Enqueuing? && |s.queue[Pc(s, c).kind]| < SIZE
    ensures |Callers(DoEnqueue(s, c), kind, sd)| == |Callers(s, kind, sd)| - B(InCall(Pc(s, c), kind, sd))
  {
    var s' := DoEnqueue(s, c);
    var less: set<nat> := if InCall(Pc(s, c), kind, sd) then {c} else {};
    assert less <= Callers(s, kind, sd);
    assert Callers(s', kind, sd) == Callers(s, kind, sd) - less;
  }

  lemma RequestBegins(s: State, c: nat, kind: Kind, sd: int)
    requires Pc(s, c).Enqueuing? && |s.queue[Pc(s, c).kind]| < SIZE
    ensures |RequestsFor(DoEnqueue(s, c), kind, sd)| == |RequestsFor(s, kind, sd)| + B(InCall(Pc(s, c), kind, sd))
  {
    var s', pc := DoEnqueue(s, c), s.clients[c];
    var more: set<nat> := if InCall(pc, kind, sd) then {|s.requests|} else {};
    assert s'.requests == s.requests + [Request(pc.v, pc.kind, pc.sd, [])];
    assert RequestsFor(s', kind, sd) == RequestsFor(s, kind, sd) + more;
  }

  lemma ClientCalls(s: State, a: Action, kind: Kind, sd: int)
    requires Enabled(s, a)
    requires a.Take? || a.Fill? || a.StartRedeem? || a.LockClient? || a.Check? || a.SpuriousWake? || a.PutDescriptor? || a.Recycle? || a.UnlockClient? || a.Reread?
    ensures var s' := Apply(s, a);
      Callers(s', kind, sd) == Callers(s, kind, sd) && RequestsFor(s', kind, sd) == RequestsFor(s, kind, sd)
  {
    var s' := Apply(s, a);
    assert forall c: nat | c != a.c :: Pc(s', c) == Pc(s, c);
    QuietCalls(s, s', kind, sd);
  }

  lemma WorkerCalls(s: State, a: Action, kind: Kind, sd: int)
    requires Enabled(s, a)
    requires a.Dequeue? || a.LockWorker? || a.Serve? || a.Complete? || a.Signal? || a.UnlockWorker? || a.Store?
    ensures var s' := Apply(s, a);
      Callers(s', kind, sd) == Callers(s, kind, sd) && RequestsFor(s', kind, sd) == RequestsFor(s, kind, sd)
  {
    QuietCalls(s, Apply(s, a), kind, sd);
  }

  lemma StepCalls(s: State, a: Action, kind: Kind, sd: int)
    requires Inv(s) && Enabled(s, a)
    ensures var s' := Apply(s, a);
      |RequestsFor(s', kind, sd)| + |Callers(s', kind, sd)|
      == |RequestsFor(s, kind, sd)| + |Callers(s, kind, sd)| + B(IsCall(a, kind, sd))
  {
    match a
    case Call(_, _, _, _) => CallBegins(s, a, kind, sd);
    case Enqueue(c) =>
      Room(s);
      CallEnds(s, c, kind, sd);
      RequestBegins(s, c, kind, sd);
    case HandBack(c) => NeverRefused(s, c);
    case Dequeue(_) => WorkerCalls(s, a, kind, sd);
    case LockWorker(_) => WorkerCalls(s, a, kind, sd);
    case Serve(_, _) => WorkerCalls(s, a, kind, sd);
    case Complete(_) => WorkerCalls(s, a, kind, sd);
    case Signal(_) => WorkerCalls(s, a, kind, sd);
    case UnlockWorker(_) => WorkerCalls(s, a, kind, sd);
    case Store(_) => WorkerCalls(s, a, kind, sd);
    case _ => ClientCalls(s, a, kind, sd);
  }

  lemma {:induction false} RunCalls(s: State, run: seq<Action>, kind: Kind, sd: int)
    requires Inv(s) && ValidRun(s, run)
    ensures var s' := After(s, run);
      |RequestsFor(s', kind, sd)| + |Callers(s', kind, sd)|
      == |RequestsFor(s, kind, sd)| + |Callers(s, kind, sd)| + Calls(run, kind, sd)
    decreases |run|
  {
    if run != [] {
      StepInv(s, run[0]);
      StepCalls(s, run[0], kind, sd);
      RunCalls(Apply(s, run[0]), run[1..], kind, sd);
    }
  }

  /** In every run, the calls for a kind of transfer with a descriptor are exactly the requests for it and the
      clients that have not queued theirs yet. */
  lemma CallsBecomeRequests(clients: nat, run: seq<Action>, kind: Kind, sd: int)
    requires ValidRun(Init(clients), run)
    ensures var s := After(Init(clients), run);
      Calls(run, kind, sd) == |RequestsFor(s, kind, sd)| + |Callers(s, kind, sd)|
  {
    InitInv(clients);
    RunCalls(Init(clients), run, kind, sd);
    assert RequestsFor(Init(clients), kind, sd) == {} && Callers(Init(clients), kind, sd) == {};
  }

  /** When nothing is left to do, every call has been served once, by the worker of its kind and with its
      descriptor, but for those that wait for a voucher while the pool is empty. */
  lemma SettledCalls(clients: nat, run: seq<Action>, kind: Kind, sd: int)
    requires ValidRun(Init(clients), run) && Settled(After(Init(clients), run))
    ensures var s := After(Init(clients), run);
      && Calls(run, kind, sd) == |RequestsFor(s, kind, sd)| + |Callers(s, kind, sd)|
      && (forall i <- RequestsFor(s, kind, sd) ::
            var r := s.requests[i].services;
            |r| == 1 && r[0].worker == kind && r[0].sd == sd)
      && (forall c <- Callers(s, kind, sd) :: s.clients[c].Wanting? && s.pool == [])
  {
    var s := After(Init(clients), run);
    assert Reachable(s);
    CallsBecomeRequests(clients, run, kind, sd);
    SettledIsDone(s);
    forall i | i in RequestsFor(s, kind, sd)
      ensures var r := s.requests[i].services; |r| == 1 && r[0].worker == kind && r[0].sd == sd
    {
      ServedExactlyOnce(s, i, 0);
    }
    forall c | c in Callers(s, kind, sd) ensures s.clients[c].Wanting? && s.pool == [] {
      assert Pc(s, c) == s.clients[c];
    }
  }

  // ----- every result of the device is the service of one request

  /** How often the device returns this status to worker `k`. */
  function Results(run: seq<Action>, k: Kind, status: int): nat {
    if run == [] then 0 else B(run[0] == Serve(k, status)) + Results(run[1..], k, status)
  }

  /** The requests that worker `k` has served with this status. */
  function ServedWith(s: State, k: Kind, status: int): set<nat> {
    set i: nat | i < |s.requests| && |s.requests[i].services| == 1
                 && s.requests[i].services[0].worker == k && s.requests[i].services[0].status == status
  }

  lemma SameResults(s: State, s': State, k: Kind, status: int)
    requires |s.requests| <= |s'.requests|
    requires forall i: nat | i < |s'.requests| :: s'.requests[i].services == if i < |s.requests| then s.requests[i].services else []
    ensures ServedWith(s', k, status) == ServedWith(s, k, status)
  {
  }

  lemma ServeResults(s: State, w: Kind, st: int, k: Kind, status: int)
    requires Inv(s) && s.worker[w].Serving?
    ensures |ServedWith(DoServe(s, w, st), k, status)| == |ServedWith(s, k, status)| + B(w == k && st == status)
  {
    var s', i := DoServe(s, w, st), s.vouchers[s.worker[w].v].current;
    assert WorkerOk(s, w) && VoucherOk(s, s.worker[w].v);
    var more: set<nat> := if w == k && st == status then {i} else {};
    assert s'.requests[i].services == [Service(w, s.vouchers[s.worker[w].v].sd, st)] && s.requests[i].services == [];
    assert ServedWith(s', k, status) == ServedWith(s, k, status) + more;
  }

  lemma StepResults(s: State, a: Action, k: Kind, status: int)
    requires Inv(s) && Enabled(s, a)
    ensures |ServedWith(Apply(s, a), k, status)| == |ServedWith(s, k, status)| + B(a == Serve(k, status))
  {
    if a.Serve? {
      ServeResults(s, a.k, a.status, k, status);
    } else {
      SameResults(s, Apply(s, a), k, status);
    }
  }

  lemma {:induction false} RunResults(s: State, run: seq<Action>, k: Kind, status: int)
    requires Inv(s) && ValidRun(s, run)
    ensures |ServedWith(After(s, run), k, status)| == |ServedWith(s, k, status)| + Results(run, k, status)
    decreases |run|
  {
    if run != [] {
      StepInv(s, run[0]);
      StepResults(s, run[0], k, status);
      RunResults(Apply(s, run[0]), run[1..], k, status);
    }
  }

  /** In every run, the results the device returns to a worker are exactly the services its requests have got. */
  lemma ResultsAreServices(clients: nat, run: seq<Action>, k: Kind, status: int)
    requires ValidRun(Init(clients), run)
    ensures Results(run, k, status) == |ServedWith(After(Init(clients), run), k, status)|
  {
    InitInv(clients);
    RunResults(Init(clients), run, k, status);
    assert ServedWith(Init(clients), k, status) == {};
  }

  // ----- first come, first served

  /** The descriptor that an action puts on queue `k`, and the one with which it makes worker `k` call the device. */
  function EnqueuedBy(s: State, a: Action, k: Kind): seq<int> {
    if a.Enqueue? && Pc(s, a.c).Enqueuing? && Pc(s, a.c).kind == k then [Pc(s, a.c).sd] else []
  }

  function DeviceCalledBy(s: State, a: Action, k: Kind): seq<int> {
    if a.Serve? && a.k == k && s.worker[k].Serving? then [s.vouchers[s.worker[k].v].sd] else []
  }

  /** The descriptors that clients put on queue `k` during the run. */
  function Enqueues(s: State, run: seq<Action>, k: Kind): seq<int>
    requires ValidRun(s, run)
    decreases |run|
  {
    if run == [] then [] else EnqueuedBy(s, run[0], k) + Enqueues(Apply(s, run[0]), run[1..], k)
  }

  /** The descriptors with which worker `k` calls the device during the run. */
  function DeviceCalls(s: State, run: seq<Action>, k: Kind): seq<int>
    requires ValidRun(s, run)
    decreases |run|
  {
    if run == [] then [] else DeviceCalledBy(s, run[0], k) + DeviceCalls(Apply(s, run[0]), run[1..], k)
  }

  lemma StepLogs(s: State, a: Action, k: Kind)
    requires Inv(s) && Enabled(s, a)
    ensures Apply(s, a).enqueued[k] == s.enqueued[k] + EnqueuedBy(s, a, k)
    ensures Apply(s, a).served[k] == s.served[k] + DeviceCalledBy(s, a, k)
  {
    Room(s);
  }

  lemma {:induction false} RunLogs(s: State, run: seq<Action>, k: Kind)
    requires Inv(s) && ValidRun(s, run)
    ensures After(s, run).enqueued[k] == s.enqueued[k] + Enqueues(s, run, k)
    ensures After(s, run).served[k] == s.served[k] + DeviceCalls(s, run, k)
    decreases |run|
  {
    hide Inv, EnqueuedBy, DeviceCalledBy, Enabled, Apply;
    if run != [] {
      StepInv(s, run[0]);
      StepLogs(s, run[0], k);
      RunLogs(Apply(s, run[0]), run[1..], k);
    }
  }

  /** In every run, the device is called in exactly the order in which the requests of that kind were queued. */
  lemma ServedInOrderQueued(clients: nat, run: seq<Action>, k: Kind)
    requires ValidRun(Init(clients), run)
    ensures DeviceCalls(Init(clients), run, k) <= Enqueues(Init(clients), run, k)
  {
    var s := After(Init(clients), run);
    InitInv(clients);
    RunLogs(Init(clients), run, k);
    OrderOfService(s, k);
    assert s.enqueued[k] == Enqueues(Init(clients), run, k) && s.served[k] == DeviceCalls(Init(clients), run, k);
  }

  /** The vouchers that clients take out of the pool during the run, and those they put back. */
  function Taken(s: State, run: seq<Action>): seq<Vid>
    requires ValidRun(s, run)
    decreases |run|
  {
    if run == [] then []
    else
      var s', a := Apply(s, run[0]), run[0];
      (if a.Take? && ClientVoucher(Pc(s', a.c)).Some? then [ClientVoucher(Pc(s', a.c)).value] else []) + Taken(s', run[1..])
  }

  function Recycled(s: State, run: seq<Action>): seq<Vid>
    requires ValidRun(s, run)
    decreases |run|
  {
    if run == [] then []
    else
      (if run[0].Recycle? then [Pc(s, run[0].c).v] else []) + Recycled(Apply(s, run[0]), run[1..])
  }

  /** The pool gives vouchers out in the order in which they came back. */
  lemma {:induction false} PoolInOrder(s: State, run: seq<Action>)
    requires Inv(s) && ValidRun(s, run)
    ensures s.pool + Recycled(s, run) == Taken(s, run) + After(s, run).pool
    decreases |run|
  {
    if run != [] {
      var a, s' := run[0], Apply(s, run[0]);
      StepInv(s, a);
      PoolInOrder(s', run[1..]);
      StepPool(s, a);
      PoolChain(s.pool, if a.Recycle? then [Pc(s, a.c).v] else [], Recycled(s', run[1..]),
                if a.Take? then [ClientVoucher(Pc(s', a.c)).value] else [], Taken(s', run[1..]), s'.pool, After(s', run[1..]).pool);
    }
  }

  lemma StepPool(s: State, a: Action)
    requires Inv(s) && Enabled(s, a)
    ensures var s' := Apply(s, a);
      && (a.Take? ==> ClientVoucher(Pc(s', a.c)).Some?)
      && s.pool + (if a.Recycle? then [Pc(s, a.c).v] else [])
         == (if a.Take? then [ClientVoucher(Pc(s', a.c)).value] else []) + s'.pool
  {
    match a
    case HandBack(c) => NeverRefused(s, c);
    case Take(c) =>
      assert s.pool + [] == [s.pool[0]] + s.pool[1..];
    case Recycle(c) =>
      var p := s.pool + [Pc(s, c).v];
      assert p == [] + p;
    case _ => SamePool(s, a);
  }

  lemma SamePool(s: State, a: Action)
    requires Enabled(s, a) && !a.HandBack? && !a.Take? && !a.Recycle?
    ensures Apply(s, a).pool == s.pool && s.pool + [] == [] + s.pool
  {
  }

  lemma PoolChain(p: seq<Vid>, x: seq<Vid>, xs: seq<Vid>, y: seq<Vid>, ys: seq<Vid>, p': seq<Vid>, p'': seq<Vid>)
    requires p + x == y + p' && p' + xs == ys + p''
    ensures p + (x + xs) == (y + ys) + p''
  {
    assert p + (x + xs) == (p + x) + xs == (y + p') + xs == y + (p' + xs) == y + (ys + p'') == (y + ys) + p'';
  }

  // ----- where the descriptors go

  /** Request `i` is over as far as its voucher is concerned. */
  predicate Over(s: State, i: nat)
    requires i < |s.requests|
  {
    var x := s.vouchers[s.requests[i].v];
    x.current != i || x.place.InPool? || x.place.WithIssuer?
  }

  /** The client that redeems request `i` now, if it is not over. */
  function Redeeming(s: State, i: nat): ClientPc
    requires i < |s.requests|
  {
    var x := s.vouchers[s.requests[i].v];
    if x.ticket.Redeemer? then Pc(s, x.ticket.c) else Idle
  }

  /** The redemption of request `i` has passed its test. */
  predicate Tested(s: State, i: nat)
    requires i < |s.requests|
  {
    Over(s, i) || Redeeming(s, i).Returning? || Redeeming(s, i).Recycling?
  }

  /** The redemption of request `i` has passed the place where it puts a descriptor into the store. */
  predicate PastStore(s: State, i: nat)
    requires i < |s.requests|
  {
    Over(s, i) || Redeeming(s, i).Recycling?
  }

  /** The reads with this descriptor whose redemption has passed the store. */
  function ReadsStored(s: State, sd: int): set<nat> {
    set i: nat | i < |s.requests| && s.requests[i].kind == 0 && s.requests[i].sd == sd && PastStore(s, i)
  }

  /** The writes with this descriptor that were tested and had succeeded. */
  function WritesHanded(s: State, sd: int): set<nat> {
    set i: nat | i < |s.requests| && s.requests[i].kind == 1 && s.requests[i].sd == sd && Tested(s, i)
                 && s.requests[i].services != [] && s.requests[i].services[0].status == 1
  }

  ghost predicate Descriptors(s: State, sd: int) {
    multiset(s.stored)[sd] == |ReadsStored(s, sd)| && multiset(s.handed)[sd] == |WritesHanded(s, sd)|
  }

  /** Nothing happens to a redemption's progress. */
  ghost predicate SameProgress(s: State, s': State, i: nat)
    requires i < |s.requests| <= |s'.requests|
  {
    && s'.requests[i].kind == s.requests[i].kind && s'.requests[i].sd == s.requests[i].sd
    && PastStore(s', i) == PastStore(s, i) && Tested(s', i) == Tested(s, i)
    && (Tested(s, i) ==> s'.requests[i].services == s.requests[i].services)
  }

  lemma QuietDescriptors(s: State, s': State, sd: int)
    requires Descriptors(s, sd) && s'.stored == s.stored && s'.handed == s.handed && |s.requests| <= |s'.requests|
    requires forall i: nat | i < |s.requests| :: SameProgress(s, s', i)
    requires forall i: nat | |s.requests| <= i < |s'.requests| :: !Tested(s', i)
    ensures Descriptors(s', sd)
  {
    forall i: nat
      ensures i in ReadsStored(s', sd) <==> i in ReadsStored(s, sd)
      ensures i in WritesHanded(s', sd) <==> i in WritesHanded(s, sd)
    {
      if i < |s.requests| {
        assert SameProgress(s, s', i);
      } else if i < |s'.requests| {
        assert !Tested(s', i);
      }
    }
    assert ReadsStored(s', sd) == ReadsStored(s, sd) && WritesHanded(s', sd) == WritesHanded(s, sd);
  }

  lemma CountApart(a: set<nat>, b: set<nat>, i: nat)
    requires forall j: nat | j != i :: j in a <==> j in b
    ensures |b| == |a| - B(i in a) + B(i in b)
  {
    assert a - {i} == b - {i};
    assert |a - {i}| == |a| - B(i in a) && |b - {i}| == |b| - B(i in b);
  }

  /** Only request `i` makes progress. */
  lemma OneProgress(s: State, s': State, i: nat, sd: int)
    requires |s'.requests| == |s.requests| && i < |s.requests|
    requires forall j: nat | j < |s.requests| && j != i :: SameProgress(s, s', j)
    ensures |ReadsStored(s', sd)| == |ReadsStored(s, sd)| - B(i in ReadsStored(s, sd)) + B(i in ReadsStored(s', sd))
    ensures |WritesHanded(s', sd)| == |WritesHanded(s, sd)| - B(i in WritesHanded(s, sd)) + B(i in WritesHanded(s', sd))
  {
    forall j: nat | j != i
      ensures j in ReadsStored(s, sd) <==> j in ReadsStored(s', sd)
      ensures j in WritesHanded(s, sd) <==> j in WritesHanded(s', sd)
    {
      assert j < |s.requests| ==> SameProgress(s, s', j);
    }
    CountApart(ReadsStored(s, sd), ReadsStored(s', sd), i);
    CountApart(WritesHanded(s, sd), WritesHanded(s', sd), i);
  }

  lemma ClientProgress(s: State, a: Action, i: nat)
    requires Inv(s) && Enabled(s, a) && i < |s.requests|
    requires a.Call? || a.LockClient? || a.SpuriousWake? || a.UnlockClient? || a.Reread?
    ensures SameProgress(s, Apply(s, a), i)
  {
    assert VoucherOk(s, s.requests[i].v) && ClientOk(s, a.c);
  }

  lemma VoucherProgress(s: State, a: Action, i: nat)
    requires Inv(s) && Enabled(s, a) && i < |s.requests|
    requires a.Take? || a.Fill? || a.StartRedeem? || a.Recycle?
    ensures SameProgress(s, Apply(s, a), i)
  {
    assert VoucherOk(s, s.requests[i].v) && ClientOk(s, a.c);
  }

  lemma WorkerProgress(s: State, a: Action, i: nat)
    requires Inv(s) && Enabled(s, a) && i < |s.requests|
    requires a.LockWorker? || a.Complete? || a.UnlockWorker? || a.Store?
    ensures SameProgress(s, Apply(s, a), i)
  {
    assert VoucherOk(s, s.requests[i].v);
    if !a.Store? {
      assert WorkerOk(s, a.k);
    }
  }

  lemma DequeueProgress(s: State, k: Kind, i: nat)
    requires Inv(s) && s.queue[k] != [] && i < |s.requests|
    ensures SameProgress(s, DoDequeue(s, k), i)
  {
    assert VoucherOk(s, s.requests[i].v) && s.queue[k][0] in s.queue[k];
  }

  /** A client that is woken has not been past the test. */
  lemma SignalProgress(s: State, k: Kind, i: nat)
    requires s.worker[k].Signalling? && i < |s.requests|
    ensures SameProgress(s, DoSignal(s, k), i)
  {
  }

  /** What is being served has not been tested. */
  lemma ServeProgress(s: State, k: Kind, status: int, i: nat)
    requires Inv(s) && s.worker[k].Serving? && i < |s.requests|
    ensures SameProgress(s, DoServe(s, k, status), i)
  {
    var x := s.vouchers[s.requests[i].v];
    assert WorkerOk(s, k) && VoucherOk(s, s.worker[k].v);
    if x.ticket.Redeemer? {
      assert ClientOk(s, x.ticket.c) && VoucherOk(s, s.requests[i].v);
    }
  }

  lemma EnqueueDescriptors(s: State, c: nat, sd: int)
    requires Inv(s) && Descriptors(s, sd) && Pc(s, c).Enqueuing? && |s.queue[Pc(s, c).kind]| < SIZE
    ensures Descriptors(DoEnqueue(s, c), sd)
  {
    var s' := DoEnqueue(s, c);
    assert ClientOk(s, c);
    forall i: nat | i < |s.requests| ensures SameProgress(s, s', i) {
      assert VoucherOk(s, s.requests[i].v);
    }
    QuietDescriptors(s, s', sd);
  }

  /** The request that client `c` is redeeming past the wait loop. */
  lemma Redeemed(s: State, c: nat) returns (i: nat)
    requires Inv(s) && (Pc(s, c).Returning? || (Pc(s, c).Checking? && s.vouchers[Pc(s, c).v].completed == 1))
    ensures i < |s.requests| && i == s.vouchers[Pc(s, c).v].current && !Over(s, i)
    ensures var x := s.vouchers[Pc(s, c).v];
      x.place == Finished && x.ticket == Redeemer(c) && s.requests[i] == Request(Pc(s, c).v, x.readWrite, x.sd, Served(x))
  {
    var v := Pc(s, c).v;
    i := s.vouchers[v].current;
    assert ClientOk(s, c) && VoucherOk(s, v);
    var p := s.vouchers[v].place;
    assert p.InService? ==> WorkerOk(s, p.k);
  }

  lemma OthersProgress(s: State, a: Action, i: nat)
    requires Inv(s) && Enabled(s, a) && i < |s.requests| && (a.PutDescriptor? || a.Check?)
    requires i != s.vouchers[Pc(s, a.c).v].current || s.requests[i].v != Pc(s, a.c).v
    ensures SameProgress(s, Apply(s, a), i)
  {
    assert VoucherOk(s, s.requests[i].v) && ClientOk(s, a.c);
  }

  /** What putting a descriptor, or passing the test, does to the one request concerned. */
  lemma PutMoves(s: State, c: nat, sd: int) returns (i: nat)
    requires Inv(s) && Enabled(s, PutDescriptor(c))
    ensures var x := s.vouchers[Pc(s, c).v]; var s' := DoPutDescriptor(s, c);
      && i < |s.requests| && i == x.current && s.requests[i].v == Pc(s, c).v
      && i !in ReadsStored(s, sd) && (i in ReadsStored(s', sd) <==> x.readWrite == 0 && x.sd == sd)
      && (i in WritesHanded(s', sd) <==> i in WritesHanded(s, sd))
  {
    i := Redeemed(s, c);
  }

  lemma TestMoves(s: State, c: nat, sd: int) returns (i: nat)
    requires Inv(s) && Pc(s, c).Checking? && s.vouchers[Pc(s, c).v].completed == 1
    ensures var x := s.vouchers[Pc(s, c).v]; var s' := DoCheck(s, c);
      && i < |s.requests| && i == x.current && s.requests[i].v == Pc(s, c).v
      && i !in WritesHanded(s, sd) && (i in WritesHanded(s', sd) <==> x.readWrite == 1 && x.sd == sd && x.status == 1)
      && i !in ReadsStored(s, sd) && i !in ReadsStored(s', sd)
  {
    i := Redeemed(s, c);
  }

  lemma OthersKept(s: State, a: Action, i: nat, sd: int)
    requires Inv(s) && Enabled(s, a) && i < |s.requests| && (a.PutDescriptor? || a.Check?)
    requires i == s.vouchers[Pc(s, a.c).v].current && s.requests[i].v == Pc(s, a.c).v
    ensures var s' := Apply(s, a);
      && |ReadsStored(s', sd)| == |ReadsStored(s, sd)| - B(i in ReadsStored(s, sd)) + B(i in ReadsStored(s', sd))
      && |WritesHanded(s', sd)| == |WritesHanded(s, sd)| - B(i in WritesHanded(s, sd)) + B(i in WritesHanded(s', sd))
  {
    assert |Apply(s, a).requests| == |s.requests|;
    hide Inv, Enabled, SameProgress, Apply;
    forall j: nat | j < |s.requests| && j != i ensures SameProgress(s, Apply(s, a), j) {
      OthersProgress(s, a, j);
    }
    OneProgress(s, Apply(s, a), i, sd);
  }

  lemma AppendedCount(q: seq<int>, x: int, appended: bool, sd: int)
    ensures multiset(q + if appended then [x] else [])[sd] == multiset(q)[sd] + B(appended && x == sd)
  {
    assert q + [] == q;
  }

  lemma PutDescriptors(s: State, c: nat, sd: int)
    requires Inv(s) && Descriptors(s, sd) && Enabled(s, PutDescriptor(c))
    ensures Descriptors(DoPutDescriptor(s, c), sd)
  {
    hide ReadsStored, WritesHanded, Inv;
    var i := PutMoves(s, c, sd);
    OthersKept(s, PutDescriptor(c), i, sd);
    var x := s.vouchers[Pc(s, c).v];
    AppendedCount(s.stored, x.sd, x.readWrite == 0, sd);
  }

  lemma CheckDescriptors(s: State, c: nat, sd: int)
    requires Inv(s) && Descriptors(s, sd) && Pc(s, c).Checking? && s.vouchers[Pc(s, c).v].completed == 1
    ensures Descriptors(DoCheck(s, c), sd)
  {
    hide ReadsStored, WritesHanded, Inv;
    var i := TestMoves(s, c, sd);
    OthersKept(s, Check(c), i, sd);
    var x := s.vouchers[Pc(s, c).v];
    AppendedCount(s.handed, x.sd, x.status == 1 && x.readWrite == 1, sd);
  }

  lemma WaitDescriptors(s: State, c: nat, sd: int)
    requires Inv(s) && Descriptors(s, sd) && Pc(s, c).Checking? && s.vouchers[Pc(s, c).v].completed != 1
    ensures Descriptors(DoCheck(s, c), sd)
  {
    var s' := DoCheck(s, c);
    forall i: nat | i < |s.requests| ensures SameProgress(s, s', i) {
      assert VoucherOk(s, s.requests[i].v) && ClientOk(s, c);
    }
    QuietDescriptors(s, s', sd);
  }

  lemma StepDescriptors(s: State, a: Action, sd: int)
    requires Inv(s) && Descriptors(s, sd) && Enabled(s, a)
    ensures Descriptors(Apply(s, a), sd)
  {
    match a
    case PutDescriptor(c) => PutDescriptors(s, c, sd);
    case Check(c) =>
      if s.vouchers[Pc(s, c).v].completed == 1 {
        CheckDescriptors(s, c, sd);
      } else {
        WaitDescriptors(s, c, sd);
      }
    case Enqueue(c) =>
      Room(s);
      EnqueueDescriptors(s, c, sd);
    case HandBack(c) => NeverRefused(s, c);
    case _ => OtherDescriptors(s, a, sd);
  }

  lemma OtherDescriptors(s: State, a: Action, sd: int)
    requires Inv(s) && Descriptors(s, sd) && Enabled(s, a)
    requires !a.PutDescriptor? && !a.Check? && !a.Enqueue? && !a.HandBack?
    ensures Descriptors(Apply(s, a), sd)
  {
    forall i: nat | i < |s.requests| ensures SameProgress(s, Apply(s, a), i) {
      if a.Serve? {
        ServeProgress(s, a.k, a.status, i);
      } else if a.Dequeue? {
        DequeueProgress(s, a.k, i);
      } else if a.Signal? {
        SignalProgress(s, a.k, i);
      } else if a.LockWorker? || a.Complete? || a.UnlockWorker? || a.Store? {
        WorkerProgress(s, a, i);
      } else if a.Take? || a.Fill? || a.StartRedeem? || a.Recycle? {
        VoucherProgress(s, a, i);
      } else {
        ClientProgress(s, a, i);
      }
    }
    QuietDescriptors(s, Apply(s, a), sd);
  }

  lemma {:induction false} RunDescriptors(s: State, run: seq<Action>, sd: int)
    requires Inv(s) && Descriptors(s, sd) && ValidRun(s, run)
    ensures Descriptors(After(s, run), sd)
    decreases |run|
  {
    if run != [] {
      StepInv(s, run[0]);
      StepDescriptors(s, run[0], sd);
      RunDescriptors(Apply(s, run[0]), run[1..], sd);
    }
  }

  /** In every reachable state: the store has got each descriptor exactly as often as reads with it were redeemed
      past that point, and callers have been handed it exactly as often as writes with it were tested and had
      succeeded; so nothing of a write goes to the store, and no read hands its descriptor to the caller. */
  lemma DescriptorsReturned(s: State, sd: int)
    requires Reachable(s)
    ensures multiset(s.stored)[sd] == |ReadsStored(s, sd)|
    ensures multiset(s.handed)[sd] == |WritesHanded(s, sd)|
  {
    var clients: nat, run: seq<Action> :| ValidRun(Init(clients), run) && After(Init(clients), run) == s;
    InitInv(clients);
    assert ReadsStored(Init(clients), sd) == {} && WritesHanded(Init(clients), sd) == {};
    RunDescriptors(Init(clients), run, sd);
  }
}
