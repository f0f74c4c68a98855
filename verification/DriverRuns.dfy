/** What the invariant means for whole runs of the driver, with any number of clients and any interleaving:
    conservation of vouchers, buffers that never fill, one service per request, writes in order, and
    redemptions that always come to an end. */
module DriverRuns {
  import opened Options
  import opened DiskDriver
  import opened DriverSafety

  predicate ValidRun(s: State, run: seq<Action>)
    decreases |run|
  {
    run == [] || (Enabled(s, run[0]) && ValidRun(Apply(s, run[0]), run[1..]))
  }

  function After(s: State, run: seq<Action>): State
    requires ValidRun(s, run)
    decreases |run|
  {
    if run == [] then s else After(Apply(s, run[0]), run[1..])
  }

  lemma {:induction false} RunInv(s: State, run: seq<Action>)
    requires Inv(s) && ValidRun(s, run)
    ensures Inv(After(s, run))
    decreases |run|
  {
    if run != [] {
      StepInv(s, run[0]);
      RunInv(Apply(s, run[0]), run[1..]);
    }
  }

  ghost predicate Reachable(s: State) {
    exists clients: nat, run: seq<Action> :: ValidRun(Init(clients), run) && After(Init(clients), run) == s
  }

  lemma ReachableInv(s: State)
    requires Reachable(s)
    ensures Inv(s)
  {
    var clients: nat, run: seq<Action> :| ValidRun(Init(clients), run) && After(Init(clients), run) == s;
    InitInv(clients);
    RunInv(Init(clients), run);
  }

  // ----- conservation

  /** Done, and not yet back in the pool. */
  predicate CompletedUnredeemed(s: State, v: Vid) {
    s.vouchers[v].completed == 1 && WorkerVoucher(s.worker[0]) != Some(v) && WorkerVoucher(s.worker[1]) != Some(v)
  }

  function Issuers(s: State, v: Vid): set<nat> {
    set c | 0 <= c < |s.clients| && Issuing(s.clients[c]) && s.clients[c].v == v
  }

  function B(b: bool): nat {
    if b then 1 else 0
  }

  /** In how many places a voucher is. */
  function Occurrences(s: State, v: Vid): nat {
    multiset(s.pool)[v] + |Issuers(s, v)| + multiset(s.queue[0])[v] + multiset(s.queue[1])[v]
    + B(WorkerVoucher(s.worker[0]) == Some(v)) + B(WorkerVoucher(s.worker[1]) == Some(v))
    + B(CompletedUnredeemed(s, v))
  }

  lemma {:induction false} CountNoDuplicates(q: seq<Vid>, v: Vid)
    requires NoDuplicates(q)
    ensures multiset(q)[v] == B(v in q)
  {
    if q != [] {
      var n := |q| - 1;
      CountNoDuplicates(q[..n], v);
      assert q == q[..n] + [q[n]];
    }
  }

  lemma IssuersCount(s: State, v: Vid)
    requires Inv(s)
    ensures |Issuers(s, v)| == B(s.vouchers[v].place.WithIssuer?)
  {
    assert VoucherOk(s, v);
    var p := s.vouchers[v].place;
    forall c | c in Issuers(s, v) ensures p == WithIssuer(c) {
      assert ClientOk(s, c);
    }
    if p.WithIssuer? {
      assert p.c in Issuers(s, v);
      assert Issuers(s, v) == {p.c};
    } else {
      assert Issuers(s, v) == {};
    }
  }

  /** No voucher is lost or duplicated: each is in exactly one place. */
  lemma VouchersConserved(s: State, v: Vid)
    requires Reachable(s)
    ensures Occurrences(s, v) == 1
  {
    ReachableInv(s);
    CountNoDuplicates(s.pool, v);
    CountNoDuplicates(s.queue[0], v);
    CountNoDuplicates(s.queue[1], v);
    IssuersCount(s, v);
    assert VoucherOk(s, v);
    assert WorkerOk(s, 0) && WorkerOk(s, 1);
  }

  // ----- buffers never fill

  /** The request queues together hold fewer vouchers than either could, the pool buffer is never full, so
      no enqueue blocks or is refused and no recycling blocks while it holds a mutex. */
  lemma BuffersNeverFill(s: State, c: nat)
    requires Reachable(s)
    ensures |s.queue[0]| + |s.queue[1]| <= VSIZE < SIZE && |s.pool| <= VSIZE < POOL_CAPACITY
    ensures Pc(s, c).Enqueuing? ==> Enabled(s, Enqueue(c)) && Apply(s, Enqueue(c)).clients[c] == Idle
    ensures Pc(s, c).Recycling? ==> Enabled(s, Recycle(c))
    ensures !Pc(s, c).Refused?
  {
    ReachableInv(s);
    Room(s);
    NeverRefused(s, c);
  }

  // ----- one service per request

  /** Every request is served at most once, by the worker of its kind and with its own descriptor; a request
      that has not been served is still queued or held by a worker; and whoever passes the wait loop of a
      redemption has read, under the mutex, the status of the one service of that voucher's latest request. */
  lemma ServedExactlyOnce(s: State, i: nat, c: nat)
    requires Reachable(s) && i < |s.requests|
    ensures var r := s.requests[i];
      && |r.services| <= 1
      && (r.services != [] ==> r.services[0].worker == r.kind && r.services[0].sd == r.sd)
      && (r.services == [] ==> r.v in s.queue[r.kind] || WorkerVoucher(s.worker[r.kind]) == Some(r.v))
    ensures Pc(s, c).Returning? ==>
      var x := s.vouchers[Pc(s, c).v];
      && x.current < |s.requests| && s.requests[x.current].v == Pc(s, c).v
      && s.requests[x.current].services == [Service(x.readWrite, x.sd, Pc(s, c).status)]
  {
    ReachableInv(s);
    assert RequestOk(s, i);
    assert VoucherOk(s, s.requests[i].v);
    assert ClientOk(s, c);
    if Pc(s, c).Returning? {
      assert VoucherOk(s, Pc(s, c).v);
    }
  }

  /** At most one client at a time redeems or holds the mutex of a voucher. */
  lemma RedeemerUnique(s: State, c: nat, d: nat)
    requires Reachable(s)
    requires HoldsTicket(Pc(s, c)) && HoldsTicket(Pc(s, d)) && Pc(s, c).v == Pc(s, d).v
    ensures c == d
  {
    ReachableInv(s);
    assert ClientOk(s, c) && ClientOk(s, d);
  }

  /** Sectors reach the device in exactly the order in which they were put on their queue, and at most the
      queue and the one the worker holds are still on their way. */
  lemma OrderOfService(s: State, k: Kind)
    requires Reachable(s)
    ensures s.served[k] <= s.enqueued[k] && |s.enqueued[k]| <= |s.served[k]| + |s.queue[k]| + 1
  {
    ReachableInv(s);
    assert InOrder(s, k);
  }

  // ----- redemptions come to an end

  /** Actions the driver and the callers inside it take by themselves: no new call, no new redemption, no
      spurious wake-up, no change of the descriptor store. */
  predicate Internal(a: Action) {
    !a.Call? && !a.StartRedeem? && !a.SpuriousWake? && !a.Store?
  }

  function ClientWork(pc: ClientPc): nat {
    match pc
    case Idle => 0
    case Wanting(_, _, _) => 11
    case Filling(_, _, _, _) => 10
    case Enqueuing(_, _, _, _) => 9
    case Refused(_) => 1
    case Redeeming(_) => 7
    case Checking(_) => 6
    case Waiting(_) => 5
    case Returning(_, _) => 4
    case Recycling(_, _) => 3
    case Releasing(_, _, _) => 2
    case Rereading(_, _, _) => 1
  }

  function WorkerWork(pc: WorkerPc): nat {
    match pc
    case Reading => 0
    case Locking(_) => 7
    case Serving(_) => 6
    case Completing(_) => 5
    case Signalling(_) => 4
    case Unlocking(_) => 1
  }

  function ClientsWork(clients: seq<ClientPc>): nat {
    if clients == [] then 0 else ClientWork(clients[0]) + ClientsWork(clients[1..])
  }

  /** An upper bound on the internal actions that can still happen. */
  function Work(s: State): nat {
    ClientsWork(s.clients) + WorkerWork(s.worker[0]) + WorkerWork(s.worker[1])
    + 8 * (|s.queue[0]| + |s.queue[1]|)
  }

  lemma {:induction false} ClientsWorkUpdate(clients: seq<ClientPc>, c: nat, pc: ClientPc)
    requires c < |clients|
    ensures ClientsWork(clients[c := pc]) == ClientsWork(clients) - ClientWork(clients[c]) + ClientWork(pc)
  {
    if c == 0 {
      assert clients[c := pc][1..] == clients[1..];
    } else {
      assert clients[c := pc][1..] == clients[1..][c - 1 := pc];
      ClientsWorkUpdate(clients[1..], c - 1, pc);
    }
  }

  /** Waking the one waiter of a voucher costs at most two units. */
  lemma {:induction false} WakeWork(clients: seq<ClientPc>, v: Vid)
    requires forall i, j :: 0 <= i < j < |clients| ==> !(clients[i] == Waiting(v) && clients[j] == Waiting(v))
    ensures ClientsWork(Wake(clients, v)) <= ClientsWork(clients) + 2
  {
    if c :| 0 <= c < |clients| && clients[c] == Waiting(v) {
      assert Wake(clients, v) == clients[c := Redeeming(v)];
      ClientsWorkUpdate(clients, c, Redeeming(v));
    } else {
      assert Wake(clients, v) == clients;
    }
  }

  /** Every internal action leaves less to do. */
  lemma InternalDecreases(s: State, a: Action)
    requires Inv(s) && Enabled(s, a) && Internal(a)
    ensures Work(Apply(s, a)) < Work(s)
  {
    match a
    case Signal(k) => SignalDecreases(s, k);
    case Enqueue(c) =>
      Room(s);
      ClientsWorkUpdate(s.clients, c, Idle);
    case HandBack(c) => NeverRefused(s, c);
    case Dequeue(k) =>
    case LockWorker(k) =>
    case Serve(k, _) =>
    case Complete(k) =>
    case UnlockWorker(k) =>
    case _ => ClientDecreases(s, a);
  }

  lemma SignalDecreases(s: State, k: Kind)
    requires Inv(s) && s.worker[k].Signalling?
    ensures Work(DoSignal(s, k)) < Work(s)
  {
    var v := s.worker[k].v;
    forall i, j | 0 <= i < j < |s.clients| ensures !(s.clients[i] == Waiting(v) && s.clients[j] == Waiting(v)) {
      assert ClientOk(s, i) && ClientOk(s, j);
    }
    WakeWork(s.clients, v);
  }

  lemma ClientDecreases(s: State, a: Action)
    requires a.Take? || a.Fill? || a.LockClient? || a.Check? || a.PutDescriptor? || a.Recycle? || a.UnlockClient? || a.Reread?
    requires Enabled(s, a)
    ensures Work(Apply(s, a)) < Work(s)
  {
    var s' := Apply(s, a);
    OneClientWork(s, s', a.c, s'.clients[a.c]);
  }

  lemma OneClientWork(s: State, s': State, c: nat, pc: ClientPc)
    requires c < |s.clients| && s'.clients == s.clients[c := pc] && ClientWork(pc) < ClientWork(s.clients[c])
    requires s'.worker == s.worker && s'.queue == s.queue
    ensures Work(s') < Work(s)
  {
    ClientsWorkUpdate(s.clients, c, pc);
  }

  /** So from any reachable state the driver can take only so many internal actions in a row. */
  lemma {:induction false} InternalRunBounded(s: State, run: seq<Action>)
    requires Inv(s) && ValidRun(s, run) && forall a <- run :: Internal(a)
    ensures |run| <= Work(s)
    decreases |run|
  {
    if run != [] {
      StepInv(s, run[0]);
      InternalDecreases(s, run[0]);
      InternalRunBounded(Apply(s, run[0]), run[1..]);
    }
  }

  ghost predicate CanMove(s: State) {
    exists a: Action :: Internal(a) && Enabled(s, a)
  }

  lemma WorkerMoves(s: State, k: Kind)
    requires Inv(s) && s.storeOpen
    requires !s.worker[k].Reading? || s.queue[k] != []
    ensures CanMove(s)
  {
    match s.worker[k]
    case Reading => assert Enabled(s, Dequeue(k));
    case Locking(v) =>
      if s.vouchers[v].lock == None {
        assert Enabled(s, LockWorker(k));
      } else {
        HolderMoves(s, v);
      }
    case _ => LockedWorkerMoves(s, k);
  }

  /** Whoever holds a mutex can go on. */
  lemma HolderMoves(s: State, v: Vid)
    requires Inv(s) && s.storeOpen && s.vouchers[v].lock.Some?
    ensures CanMove(s)
  {
    assert VoucherOk(s, v);
    match s.vouchers[v].lock.value
    case Worker(k) => LockedWorkerMoves(s, k);
    case Client(c) =>
      Room(s);
      LockedClientMoves(s, c);
  }

  lemma LockedWorkerMoves(s: State, k: Kind)
    requires WorkerLocks(s.worker[k])
    ensures CanMove(s)
  {
    match s.worker[k]
    case Serving(_) => assert Enabled(s, Serve(k, 0));
    case Completing(_) => assert Enabled(s, Complete(k));
    case Signalling(_) => assert Enabled(s, Signal(k));
    case Unlocking(_) => assert Enabled(s, UnlockWorker(k));
  }

  lemma LockedClientMoves(s: State, c: nat)
    requires ClientLocks(Pc(s, c)) && s.storeOpen && |s.pool| <= VSIZE
    ensures CanMove(s)
  {
    match Pc(s, c)
    case Checking(_) => assert Enabled(s, Check(c));
    case Returning(_, _) => assert Enabled(s, PutDescriptor(c));
    case Recycling(_, _) => assert Enabled(s, Recycle(c));
    case Releasing(_, _, _) => assert Enabled(s, UnlockClient(c));
  }

  /** A client inside a call can go on, or someone it waits for can; the only thing that can hold it up is
      an empty pool. */
  lemma ClientMoves(s: State, c: nat)
    requires Inv(s) && s.storeOpen
    requires !Pc(s, c).Idle? && !(Pc(s, c).Wanting? && s.pool == [])
    ensures CanMove(s)
  {
    var pc := Pc(s, c);
    assert ClientOk(s, c);
    Room(s);
    if pc.Wanting? {
      assert Enabled(s, Take(c));
    } else if pc.Filling? {
      assert Enabled(s, Fill(c));
    } else if pc.Enqueuing? {
      assert Enabled(s, Enqueue(c));
    } else if pc.Redeeming? && s.vouchers[pc.v].lock == None {
      assert Enabled(s, LockClient(c));
    } else if pc.Rereading? {
      assert Enabled(s, Reread(c));
    } else if pc.Waiting? {
      assert VoucherOk(s, pc.v);
      WorkerMoves(s, s.vouchers[pc.v].place.k);
    } else {
      HolderMoves(s, pc.v);
    }
  }

  ghost predicate Settled(s: State) {
    s.storeOpen && !CanMove(s)
  }

  /** No deadlock and no lost wake-up: when nothing internal can happen any more and the store accepts puts,
      every redemption has returned and every request has been served. A client is held up only where it waits
      for a voucher, and then because all vouchers are completed and nobody has come to redeem any of them. */
  lemma SettledIsDone(s: State)
    requires Reachable(s) && Settled(s)
    ensures forall c: nat :: Pc(s, c).Idle? || (Pc(s, c).Wanting? && s.pool == [])
    ensures s.worker == [Reading, Reading] && s.queue == [[], []]
    ensures forall i: nat | i < |s.requests| :: |s.requests[i].services| == 1
    ensures (exists c: nat :: !Pc(s, c).Idle?) ==>
      forall v: Vid :: s.vouchers[v].place == Finished && s.vouchers[v].ticket == Outstanding
  {
    ReachableInv(s);
    SettledThreads(s);
    forall i: nat | i < |s.requests| ensures |s.requests[i].services| == 1 {
      assert RequestOk(s, i) && VoucherOk(s, s.requests[i].v);
    }
    forall v: Vid ensures v in s.pool || (s.vouchers[v].place == Finished && s.vouchers[v].ticket == Outstanding) {
      SettledVoucher(s, v);
    }
  }

  lemma SettledThreads(s: State)
    requires Inv(s) && Settled(s)
    ensures forall c: nat :: Pc(s, c).Idle? || (Pc(s, c).Wanting? && s.pool == [])
    ensures s.worker == [Reading, Reading] && s.queue == [[], []]
  {
    forall c: nat ensures Pc(s, c).Idle? || (Pc(s, c).Wanting? && s.pool == []) {
      if !Pc(s, c).Idle? && !(Pc(s, c).Wanting? && s.pool == []) {
        ClientMoves(s, c);
      }
    }
    forall k: Kind ensures s.worker[k].Reading? && s.queue[k] == [] {
      if !s.worker[k].Reading? || s.queue[k] != [] {
        WorkerMoves(s, k);
      }
    }
  }

  /** With nobody inside a call but where it waits for the pool, a voucher that is not there is done with. */
  lemma SettledVoucher(s: State, v: Vid)
    requires VoucherOk(s, v) && s.worker == [Reading, Reading] && s.queue == [[], []]
    requires forall c: nat :: Pc(s, c).Idle? || Pc(s, c).Wanting?
    ensures v in s.pool || (s.vouchers[v].place == Finished && s.vouchers[v].ticket == Outstanding)
  {
    var x := s.vouchers[v];
    assert x.place.WithIssuer? ==> !Issuing(Pc(s, x.place.c));
    assert x.ticket.Redeemer? ==> !HoldsTicket(Pc(s, x.ticket.c));
  }
}
