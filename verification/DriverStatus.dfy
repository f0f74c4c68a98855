/** The value redeem_voucher returns. The code reads the status once more after it has recycled the voucher and
    released its mutex: the value is the redeemed request's until a later request with the same voucher has been
    served, and that later request's afterwards. */
module DriverStatus {
  import opened Options
  import opened DiskDriver
  import opened DriverSafety
  import opened DriverRuns

  // ----- what a voucher's status field holds

  /** Request `i` is one of voucher `v` that has been served. */
  predicate ServedFor(requests: seq<Request>, v: Vid, i: nat)
    requires i < |requests|
  {
    requests[i].v == v && requests[i].services != []
  }

  /** The latest served request of voucher `v`. */
  function LastServed(requests: seq<Request>, v: Vid): (r: Option<nat>)
    ensures r.Some? ==> r.value < |requests| && ServedFor(requests, v, r.value)
    ensures forall j: nat | j < |requests| && ServedFor(requests, v, j) :: r.Some? && j <= r.value
  {
    var n: int := |requests| - 1;
    if n < 0 then None
    else if ServedFor(requests, v, n) then Some(n)
    else
      var r := LastServed(requests[..n], v);
      assert forall j: nat | j < n :: ServedFor(requests, v, j) == ServedFor(requests[..n], v, j);
      r
  }

  /** No request of `v` is later than its current one, and the status field is that of the latest served one. */
  ghost predicate StatusOk(s: State, v: Vid) {
    && (forall i: nat | i < |s.requests| && s.requests[i].v == v :: i <= s.vouchers[v].current)
    && var i := LastServed(s.requests, v);
       i.Some? ==> s.vouchers[v].status == s.requests[i.value].services[0].status
  }

  /** Voucher, tested status and redeemed request of a client that has recycled the voucher. */
  function Leaving(pc: ClientPc): Option<(Vid, int, nat)> {
    match pc
    case Releasing(v, status, request) => Some((v, status, request))
    case Rereading(v, status, request) => Some((v, status, request))
    case _ => None
  }

  /** A client that is leaving redeem_voucher remembers a served request of its voucher, with its status. */
  ghost predicate LeavingOk(s: State, c: nat) {
    var l := Leaving(Pc(s, c));
    l.Some? ==>
      var (v, status, request) := l.value;
      && request < |s.requests| && ServedFor(s.requests, v, request)
      && s.requests[request].services[0].status == status
  }

  ghost predicate History(s: State) {
    (forall v: Vid :: StatusOk(s, v)) && (forall c: nat :: LeavingOk(s, c))
  }

  /** The latest served request is determined by being served and by none later being so. */
  lemma LastServedIs(requests: seq<Request>, v: Vid, i: nat)
    requires i < |requests| && ServedFor(requests, v, i)
    requires forall j: nat | i < j < |requests| :: !ServedFor(requests, v, j)
    ensures LastServed(requests, v) == Some(i)
  {
  }

  /** A new, unserved request changes nobody's latest served one. */
  lemma LastServedSnoc(requests: seq<Request>, r: Request, v: Vid)
    requires r.services == []
    ensures LastServed(requests + [r], v) == LastServed(requests, v)
  {
    assert (requests + [r])[..|requests|] == requests;
  }

  lemma EnqueueHistory(s: State, c: nat)
    requires Inv(s) && History(s) && Pc(s, c).Enqueuing? && |s.queue[Pc(s, c).kind]| < SIZE
    ensures History(DoEnqueue(s, c))
  {
    var s', pc := DoEnqueue(s, c), s.clients[c];
    forall v: Vid ensures StatusOk(s', v) {
      assert StatusOk(s, v);
      LastServedSnoc(s.requests, Request(pc.v, pc.kind, pc.sd, []), v);
    }
    forall d: nat ensures LeavingOk(s', d) { assert LeavingOk(s, d); }
  }

  /** The request that is served is the current, and so the latest, of its voucher, and has not been served. */
  lemma ServeHistory(s: State, k: Kind, status: int)
    requires Inv(s) && History(s) && s.worker[k].Serving?
    ensures History(DoServe(s, k, status))
  {
    var s', u := DoServe(s, k, status), s.worker[k].v;
    var i := s.vouchers[u].current;
    assert WorkerOk(s, k) && VoucherOk(s, u) && StatusOk(s, u);
    LastServedIs(s'.requests, u, i);
    forall v: Vid ensures StatusOk(s', v) {
      assert StatusOk(s, v);
      if v != u {
        LastServedKept(s.requests, s'.requests, v);
      }
    }
    forall c: nat ensures LeavingOk(s', c) { assert LeavingOk(s, c); }
  }

  lemma LastServedKept(before: seq<Request>, after: seq<Request>, v: Vid)
    requires |before| == |after|
    requires forall j: nat | j < |before| :: ServedFor(before, v, j) <==> ServedFor(after, v, j)
    ensures LastServed(before, v) == LastServed(after, v)
  {
    var i := LastServed(before, v);
    if i.Some? {
      LastServedIs(after, v, i.value);
    }
  }

  lemma RecycleHistory(s: State, c: nat)
    requires Inv(s) && History(s) && Pc(s, c).Recycling?
    ensures History(DoRecycle(s, c))
  {
    var s', u := DoRecycle(s, c), s.clients[c].v;
    assert ClientOk(s, c) && VoucherOk(s, u);
    forall v: Vid ensures StatusOk(s', v) { assert StatusOk(s, v); }
    forall d: nat ensures LeavingOk(s', d) { assert LeavingOk(s, d); }
  }

  /** Everything else changes no request, no status and no voucher's current request. */
  lemma QuietHistory(s: State, s': State)
    requires History(s) && s'.requests == s.requests
    requires forall v: Vid :: s'.vouchers[v].status == s.vouchers[v].status && s'.vouchers[v].current == s.vouchers[v].current
    requires forall c: nat :: Leaving(Pc(s', c)).None? || Leaving(Pc(s', c)) == Leaving(Pc(s, c))
    ensures History(s')
  {
    forall v: Vid ensures StatusOk(s', v) { assert StatusOk(s, v); }
    forall c: nat ensures LeavingOk(s', c) { assert LeavingOk(s, c); }
  }

  lemma WorkerHistory(s: State, a: Action)
    requires History(s) && Enabled(s, a)
    requires a.Dequeue? || a.LockWorker? || a.Complete? || a.Signal? || a.UnlockWorker? || a.Store?
    ensures History(Apply(s, a))
  {
    QuietHistory(s, Apply(s, a));
  }

  lemma ClientHistory(s: State, a: Action)
    requires History(s) && Enabled(s, a)
    requires a.Call? || a.Take? || a.Fill? || a.StartRedeem? || a.LockClient? || a.Check? || a.SpuriousWake? || a.PutDescriptor? || a.UnlockClient? || a.Reread?
    ensures History(Apply(s, a))
  {
    var s' := Apply(s, a);
    assert forall c: nat | c != a.c :: Pc(s', c) == Pc(s, c);
    QuietHistory(s, s');
  }

  lemma StepHistory(s: State, a: Action)
    requires Inv(s) && History(s) && Enabled(s, a)
    ensures History(Apply(s, a))
  {
    match a
    case Enqueue(c) =>
      Room(s);
      EnqueueHistory(s, c);
    case Serve(k, status) => ServeHistory(s, k, status);
    case Recycle(c) => RecycleHistory(s, c);
    case HandBack(c) => NeverRefused(s, c);
    case Dequeue(_) => WorkerHistory(s, a);
    case LockWorker(_) => WorkerHistory(s, a);
    case Complete(_) => WorkerHistory(s, a);
    case Signal(_) => WorkerHistory(s, a);
    case UnlockWorker(_) => WorkerHistory(s, a);
    case Store(_) => WorkerHistory(s, a);
    case _ => ClientHistory(s, a);
  }

  lemma {:induction false} RunHistory(s: State, run: seq<Action>)
    requires Inv(s) && History(s) && ValidRun(s, run)
    ensures History(After(s, run))
    decreases |run|
  {
    if run != [] {
      StepInv(s, run[0]);
      StepHistory(s, run[0]);
      RunHistory(Apply(s, run[0]), run[1..]);
    }
  }

  lemma ReachableHistory(s: State)
    requires Reachable(s)
    ensures History(s)
  {
    var clients: nat, run: seq<Action> :| ValidRun(Init(clients), run) && After(Init(clients), run) == s;
    InitInv(clients);
    RunHistory(Init(clients), run);
  }

  /** The value returned is the status of the latest served request of the voucher. That request is the redeemed
      one or a later one, and is the redeemed one exactly while no later one has been served; so the value is the
      status tested under the mutex in exactly these cases, and where the later request happened to get the same. */
  lemma StatusReturned(s: State, c: nat)
    requires Reachable(s) && Pc(s, c).Rereading?
    ensures var pc := Pc(s, c); var last := LastServed(s.requests, pc.v);
      && last.Some? && pc.request <= last.value
      && ServedFor(s.requests, pc.v, pc.request) && s.requests[pc.request].services[0].status == pc.status
      && s.vouchers[pc.v].status == s.requests[last.value].services[0].status
      && (last.value == pc.request <==> forall j: nat | pc.request < j < |s.requests| :: !ServedFor(s.requests, pc.v, j))
      && (s.vouchers[pc.v].status == pc.status <==>
            || (forall j: nat | pc.request < j < |s.requests| :: !ServedFor(s.requests, pc.v, j))
            || s.requests[last.value].services[0].status == pc.status)
  {
    ReachableHistory(s);
    var pc := Pc(s, c);
    assert LeavingOk(s, c) && StatusOk(s, pc.v);
    var last := LastServed(s.requests, pc.v);
    if forall j: nat | pc.request < j < |s.requests| :: !ServedFor(s.requests, pc.v, j) {
      LastServedIs(s.requests, pc.v, pc.request);
    } else {
      assert last.value != pc.request;
    }
  }

  // ----- a run in which it is not

  lemma {:induction false} RunSnoc(s: State, run: seq<Action>, a: Action)
    requires ValidRun(s, run) && Enabled(After(s, run), a)
    ensures ValidRun(s, run + [a]) && After(s, run + [a]) == Apply(After(s, run), a)
    decreases |run|
  {
    if run == [] {
      assert [a][1..] == [];
    } else {
      assert (run + [a])[1..] == run[1..] + [a];
      RunSnoc(Apply(s, run[0]), run[1..], a);
    }
  }

  lemma Step(s: State, a: Action) returns (s': State)
    requires Reachable(s) && Enabled(s, a)
    ensures Reachable(s') && s' == Apply(s, a)
  {
    var clients: nat, run: seq<Action> :| ValidRun(Init(clients), run) && After(Init(clients), run) == s;
    RunSnoc(Init(clients), run, a);
    s' := Apply(s, a);
    assert ValidRun(Init(clients), run + [a]) && After(Init(clients), run + [a]) == s';
  }

  /** Client `c` issues a request with the first voucher of the pool. */
  lemma Issue(s: State, c: nat, kind: Kind) returns (s': State)
    requires Reachable(s) && c < |s.clients| && s.clients[c].Idle? && s.pool != []
    ensures Reachable(s') && s'.clients == s.clients && s'.worker == s.worker && s'.pool == s.pool[1..]
    ensures s'.queue == s.queue[kind := s.queue[kind] + [s.pool[0]]]
    ensures forall v: Vid | v != s.pool[0] :: s'.vouchers[v] == s.vouchers[v]
    ensures var x := s'.vouchers[s.pool[0]];
      x.place == Queued(kind) && x.ticket == Outstanding && x.readWrite == kind && x.lock == s.vouchers[s.pool[0]].lock
  {
    ReachableInv(s);
    Room(s);
    s' := TakeFirst(s, c, kind);
    s' := Step(s', Fill(c));
    s' := Step(s', Enqueue(c));
  }

  lemma TakeFirst(s: State, c: nat, kind: Kind) returns (s': State)
    requires Reachable(s) && c < |s.clients| && s.clients[c].Idle? && s.pool != []
    ensures var u := s.pool[0];
      && Reachable(s') && s'.clients == s.clients[c := Filling(u, kind, 0, true)] && s'.worker == s.worker
      && s'.pool == s.pool[1..] && s'.queue == s.queue
      && s'.vouchers == s.vouchers[u := s.vouchers[u].(place := WithIssuer(c))]
  {
    s' := Step(s, Call(c, kind, 0, true));
    s' := Step(s', Take(c));
  }

  /** Worker `k` takes the voucher at the head of its queue and calls the device. */
  lemma ServeFirst(s: State, k: Kind, status: int) returns (s': State)
    requires Reachable(s) && s.worker[k].Reading? && s.queue[k] != [] && s.vouchers[s.queue[k][0]].lock == None
    ensures Reachable(s') && s'.clients == s.clients && s'.pool == s.pool && s'.queue == s.queue[k := s.queue[k][1..]]
    ensures var v := s.queue[k][0];
      && s'.worker == s.worker[k := Completing(v)]
      && s'.vouchers == s.vouchers[v := s.vouchers[v].(status := status, place := InService(k), lock := Some(Worker(k)))]
  {
    s' := Step(s, Dequeue(k));
    s' := Step(s', LockWorker(k));
    s' := Step(s', Serve(k, status));
  }

  /** Worker `k` serves the voucher at the head of its queue. */
  lemma ServeHead(s: State, k: Kind, status: int) returns (s': State)
    requires Reachable(s) && s.worker[k].Reading? && s.queue[k] != [] && s.vouchers[s.queue[k][0]].lock == None
    requires forall c :: 0 <= c < |s.clients| ==> !s.clients[c].Waiting?
    ensures Reachable(s') && s'.clients == s.clients && s'.worker == s.worker && s'.pool == s.pool
    ensures s'.queue == s.queue[k := s.queue[k][1..]]
    ensures var v := s.queue[k][0];
      s'.vouchers == s.vouchers[v := s.vouchers[v].(status := status, completed := 1, place := Finished)]
  {
    var s1 := ServeFirst(s, k, status);
    var s2 := Step(s1, Complete(k));
    var s3 := Step(s2, Signal(k));
    assert s3.clients == s.clients;
    s' := Step(s3, UnlockWorker(k));
  }

  /** Client 1 issues write requests until the pool is empty. */
  lemma {:induction false} Drain(s: State) returns (s': State)
    requires Reachable(s) && |s.clients| == 2 && s.clients[1].Idle? && 0 !in s.pool
    ensures Reachable(s') && s'.clients == s.clients && s'.worker == s.worker && s'.pool == []
    ensures s'.queue[0] == s.queue[0] && s'.vouchers[0] == s.vouchers[0]
    decreases |s.pool|
  {
    s' := s;
    if s.pool != [] {
      s' := Issue(s, 1, 1);
      s' := Drain(s');
    }
  }

  /** Client 0 redeems a finished write up to the point where it reads the status again. */
  lemma RedeemWrite(s: State) returns (s': State)
    requires Reachable(s) && |s.clients| == 2 && s.clients[0].Idle? && s.pool == []
    requires var x := s.vouchers[0]; x.ticket == Outstanding && x.place == Finished && x.completed == 1 && x.lock == None && x.readWrite == 1
    ensures Reachable(s') && |s'.clients| == 2 && s'.clients[1] == s.clients[1] && s'.worker == s.worker && s'.queue == s.queue
    ensures s'.clients[0].Rereading? && s'.clients[0].v == 0 && s'.clients[0].status == s.vouchers[0].status
    ensures s'.pool == [0] && s'.vouchers[0].lock == None
  {
    var s1 := PassTest(s);
    var s2 := Step(s1, PutDescriptor(0));
    var s3 := Step(s2, Recycle(0));
    s' := Step(s3, UnlockClient(0));
  }

  lemma PassTest(s: State) returns (s': State)
    requires Reachable(s) && |s.clients| == 2 && s.clients[0].Idle?
    requires s.vouchers[0].ticket == Outstanding && s.vouchers[0].completed == 1 && s.vouchers[0].lock == None
    ensures Reachable(s') && s'.clients == s.clients[0 := Returning(0, s.vouchers[0].status)]
    ensures s'.worker == s.worker && s'.queue == s.queue && s'.pool == s.pool
    ensures s'.vouchers == s.vouchers[0 := s.vouchers[0].(ticket := Redeemer(0), lock := Some(Client(0)))]
  {
    var s1 := Step(s, StartRedeem(0, 0));
    var s2 := Step(s1, LockClient(0));
    s' := Step(s2, Check(0));
  }

  /** Client 0's write with voucher 0 has succeeded, with status 1, and client 1 has taken all the other vouchers. */
  lemma WrittenAndDrained() returns (s: State)
    ensures Reachable(s) && s.clients == [Idle, Idle] && s.pool == [] && s.queue[0] == [] && s.worker[0].Reading?
    ensures var x := s.vouchers[0];
      x.ticket == Outstanding && x.place == Finished && x.completed == 1 && x.lock == None && x.readWrite == 1 && x.status == 1
  {
    s := Init(2);
    assert ValidRun(Init(2), []) && After(Init(2), []) == s;
    assert s.pool[0] == 0 && forall i :: 0 <= i < VSIZE ==> s.pool[i] == i;
    s := Issue(s, 0, 1);
    s := ServeHead(s, 1, 1);
    s := Drain(s);
  }

  /** Two clients suffice: the first one's write succeeds with status 1, the second one takes all the other
      vouchers and then the recycled one, for a read that fails with status 0; the first returns 0. */
  lemma StatusCanBeAnothers() returns (s: State)
    ensures Reachable(s) && Pc(s, 0).Rereading? && Pc(s, 0).status == 1
    ensures s.vouchers[Pc(s, 0).v].status == 0
  {
    s := WrittenAndDrained();
    s := RedeemWrite(s);
    s := Issue(s, 1, 0);
    s := ServeHead(s, 0, 0);
  }
}
