/** Safety of the voucher protocol: an invariant of every reachable state, kept by every action. */
module DriverSafety {
  import opened Options
  import opened DiskDriver

  // ----- the invariant

  predicate Issuing(pc: ClientPc) {
    pc.Filling? || pc.Enqueuing?
  }

  predicate HoldsTicket(pc: ClientPc) {
    pc.Redeeming? || pc.Checking? || pc.Waiting? || pc.Returning? || pc.Recycling?
  }

  predicate ClientLocks(pc: ClientPc) {
    pc.Checking? || pc.Returning? || pc.Recycling? || pc.Releasing?
  }

  predicate WorkerLocks(pc: WorkerPc) {
    pc.Serving? || pc.Completing? || pc.Signalling? || pc.Unlocking?
  }

  predicate BeforeService(pc: WorkerPc) {
    pc.Locking? || pc.Serving?
  }

  predicate AfterCompletion(pc: WorkerPc) {
    pc.Signalling? || pc.Unlocking?
  }

  predicate NoDuplicates(q: seq<Vid>) {
    forall i, j :: 0 <= i < j < |q| ==> q[i] != q[j]
  }

  /** What a client's program counter says about its voucher. A client that waits can still be woken:
      its voucher is queued, or in service by a worker that has not signalled yet. */
  ghost predicate ClientOk(s: State, c: nat) {
    var pc := Pc(s, c);
    && !pc.Refused?
    && (!pc.Idle? && !pc.Wanting? ==>
          var x := s.vouchers[pc.v];
          && (Issuing(pc) ==> x.place == WithIssuer(c))
          && (HoldsTicket(pc) ==> x.ticket == Redeemer(c))
          && (ClientLocks(pc) ==> x.lock == Some(Client(c)))
          && (pc.Enqueuing? ==> x.readWrite == pc.kind && x.sd == pc.sd)
          && (pc.Waiting? ==> !x.place.Finished? && (x.place.InService? ==> s.worker[x.place.k] != Unlocking(pc.v)))
          && (pc.Returning? || pc.Recycling? ==> x.place == Finished && pc.status == x.status))
  }

  ghost predicate WorkerOk(s: State, k: Kind) {
    var pc := s.worker[k];
    !pc.Reading? ==>
      && s.vouchers[pc.v].place == InService(k)
      && (WorkerLocks(pc) ==> s.vouchers[pc.v].lock == Some(Worker(k)))
  }

  /** The voucher's latest request is the one its fields describe, and has been served like this. */
  ghost predicate RequestIs(s: State, v: Vid, services: seq<Service>) {
    var x := s.vouchers[v];
    x.current < |s.requests| && s.requests[x.current] == Request(v, x.readWrite, x.sd, services)
  }

  function Served(x: Voucher): seq<Service> {
    [Service(x.readWrite, x.sd, x.status)]
  }

  ghost predicate LockOk(s: State, v: Vid) {
    match s.vouchers[v].lock
    case None => true
    case Some(Worker(k)) => WorkerLocks(s.worker[k]) && s.worker[k].v == v
    case Some(Client(c)) => ClientLocks(Pc(s, c)) && Pc(s, c).v == v
  }

  ghost predicate TicketOk(s: State, v: Vid) {
    var x := s.vouchers[v];
    && (x.ticket.Redeemer? ==> HoldsTicket(Pc(s, x.ticket.c)) && Pc(s, x.ticket.c).v == v)
    && (x.ticket.NoTicket? <==> x.place.InPool? || x.place.WithIssuer?)
  }

  ghost predicate PlaceOk(s: State, v: Vid) {
    var x := s.vouchers[v];
    match x.place
    case InPool => v in s.pool && x.completed == 0
    case WithIssuer(c) => Issuing(Pc(s, c)) && Pc(s, c).v == v && x.completed == 0
    case Queued(k) => v in s.queue[k] && x.completed == 0 && x.readWrite == k && RequestIs(s, v, [])
    case InService(k) =>
      && !s.worker[k].Reading? && s.worker[k].v == v && x.readWrite == k
      && x.completed == (if AfterCompletion(s.worker[k]) then 1 else 0)
      && RequestIs(s, v, if BeforeService(s.worker[k]) then [] else Served(x))
    case Finished => x.completed == 1 && RequestIs(s, v, Served(x))
  }

  ghost predicate VoucherOk(s: State, v: Vid) {
    LockOk(s, v) && TicketOk(s, v) && PlaceOk(s, v)
  }

  ghost predicate BuffersOk(s: State) {
    && NoDuplicates(s.pool) && (forall v <- s.pool :: s.vouchers[v].place == InPool)
    && (forall k: Kind :: NoDuplicates(s.queue[k]) && forall v <- s.queue[k] :: s.vouchers[v].place == Queued(k))
  }

  /** A request has been served once, by the right worker; or not yet, and then its voucher still carries it. */
  ghost predicate RequestOk(s: State, i: nat)
    requires i < |s.requests|
  {
    var r := s.requests[i];
    var x := s.vouchers[r.v];
    if r.services == [] then
      && x.current == i
      && (x.place.Queued? || (x.place.InService? && BeforeService(s.worker[x.place.k])))
    else
      |r.services| == 1 && r.services[0].worker == r.kind && r.services[0].sd == r.sd
  }

  function Sds(s: State, q: seq<Vid>): (r: seq<int>)
    ensures |r| == |q| && forall i :: 0 <= i < |q| ==> r[i] == s.vouchers[q[i]].sd
  {
    seq(|q|, i requires 0 <= i < |q| => s.vouchers[q[i]].sd)
  }

  /** Descriptors on their way to the device: the one the worker holds, then those in the queue. */
  function Pending(s: State, k: Kind): seq<int> {
    (if BeforeService(s.worker[k]) then [s.vouchers[s.worker[k].v].sd] else []) + Sds(s, s.queue[k])
  }

  /** What was put on the queue is what the device got, followed by what is still on its way. */
  ghost predicate InOrder(s: State, k: Kind) {
    s.enqueued[k] == s.served[k] + Pending(s, k)
  }

  ghost predicate Inv(s: State) {
    && (forall c: nat :: ClientOk(s, c))
    && (forall k: Kind :: WorkerOk(s, k))
    && (forall v: Vid :: VoucherOk(s, v))
    && BuffersOk(s)
    && (forall i: nat | i < |s.requests| :: RequestOk(s, i))
    && (forall k: Kind :: InOrder(s, k))
  }

  lemma InitInv(clients: nat)
    ensures Inv(Init(clients))
  {
    var s := Init(clients);
    forall v: Vid ensures VoucherOk(s, v) { assert s.pool[v] == v; }
  }

  // ----- one action concerns one voucher

  predicate About(o: Option<Vid>, u: Vid) {
    o.None? || o.value == u
  }

  /** `s'` differs from `s` only as regards voucher `u`. */
  ghost predicate Frame(s: State, s': State, u: Vid) {
    && (forall v: Vid | v != u ::
          && s'.vouchers[v] == s.vouchers[v]
          && (v in s.pool ==> v in s'.pool)
          && (forall k: Kind :: v in s.queue[k] ==> v in s'.queue[k]))
    && (forall c: nat :: Pc(s', c) == Pc(s, c) ||
          (About(ClientVoucher(Pc(s, c)), u) && About(ClientVoucher(Pc(s', c)), u)))
    && (forall k: Kind :: s'.worker[k] == s.worker[k] ||
          (About(WorkerVoucher(s.worker[k]), u) && About(WorkerVoucher(s'.worker[k]), u)))
    && |s.requests| <= |s'.requests|
    && (forall i: nat | i < |s'.requests| :: s'.requests[i].v == u || (i < |s.requests| && s'.requests[i] == s.requests[i]))
    && (forall i: nat | i < |s.requests| :: s'.requests[i].v == s.requests[i].v)
  }

  /** As far as voucher `u` is concerned, the invariant goes over from `s` to `s'`. */
  ghost predicate LocallyKept(s: State, s': State, u: Vid) {
    && VoucherOk(s', u)
    && (forall c: nat :: ClientOk(s, c) && About(ClientVoucher(Pc(s', c)), u) ==> ClientOk(s', c))
    && (forall k: Kind :: WorkerOk(s, k) && About(WorkerVoucher(s'.worker[k]), u) ==> WorkerOk(s', k))
    && (forall i: nat | i < |s'.requests| && s'.requests[i].v == u ::
          (i < |s.requests| ==> RequestOk(s, i)) ==> RequestOk(s', i))
  }

  lemma SamePc(s: State, s': State, u: Vid, v: Vid, c: nat)
    requires Frame(s, s', u) && v != u && ClientVoucher(Pc(s, c)) == Some(v)
    ensures Pc(s', c) == Pc(s, c)
  {
    assert !About(ClientVoucher(Pc(s, c)), u);
  }

  lemma SameWorker(s: State, s': State, u: Vid, v: Vid, k: Kind)
    requires Frame(s, s', u) && v != u && WorkerVoucher(s.worker[k]) == Some(v)
    ensures s'.worker[k] == s.worker[k]
  {
    assert !About(WorkerVoucher(s.worker[k]), u);
  }

  lemma VoucherKept(s: State, s': State, u: Vid, v: Vid)
    requires VoucherOk(s, v) && Frame(s, s', u) && v != u
    ensures VoucherOk(s', v)
  {
    var x := s.vouchers[v];
    assert s'.vouchers[v] == x;
    if x.ticket.Redeemer? {
      SamePc(s, s', u, v, x.ticket.c);
    }
    if x.lock.Some? {
      match x.lock.value {
        case Client(c) => SamePc(s, s', u, v, c);
        case Worker(k) => SameWorker(s, s', u, v, k);
      }
    }
    match x.place {
      case WithIssuer(c) => SamePc(s, s', u, v, c);
      case InService(k) => SameWorker(s, s', u, v, k);
      case _ =>
    }
  }

  lemma RequestKept(s: State, s': State, u: Vid, i: nat)
    requires Frame(s, s', u) && i < |s'.requests| && s'.requests[i].v != u
    requires RequestOk(s, i) && VoucherOk(s, s.requests[i].v)
    ensures RequestOk(s', i)
  {
    var v := s.requests[i].v;
    var x := s.vouchers[v];
    assert s'.requests[i] == s.requests[i] && s'.vouchers[v] == x && PlaceOk(s, v);
    if x.place.InService? {
      SameWorker(s, s', u, v, x.place.k);
    }
  }

  lemma ClientKept(s: State, s': State, u: Vid, c: nat)
    requires ClientOk(s, c) && Frame(s, s', u) && !About(ClientVoucher(Pc(s', c)), u)
    ensures ClientOk(s', c)
  {
    var x := s'.vouchers[Pc(s', c).v];
    if x.place.InService? {
      assert s'.worker[x.place.k] == s.worker[x.place.k] || About(WorkerVoucher(s'.worker[x.place.k]), u);
    }
  }

  /** An action that concerns voucher `u` keeps the invariant if it keeps it locally. */
  lemma LocalStep(s: State, s': State, u: Vid)
    requires Inv(s) && Frame(s, s', u) && LocallyKept(s, s', u) && BuffersOk(s') && forall k: Kind :: InOrder(s', k)
    ensures Inv(s')
  {
    forall v: Vid ensures VoucherOk(s', v) {
      if v != u {
        VoucherKept(s, s', u, v);
      }
    }
    forall c: nat ensures ClientOk(s', c) {
      assert ClientOk(s, c);
      if !About(ClientVoucher(Pc(s', c)), u) {
        ClientKept(s, s', u, c);
      }
    }
    forall k: Kind ensures WorkerOk(s', k) { assert WorkerOk(s, k); }
    forall i: nat | i < |s'.requests| ensures RequestOk(s', i) {
      assert i < |s.requests| ==> RequestOk(s, i);
      if s'.requests[i].v != u {
        RequestKept(s, s', u, i);
      }
    }
  }

  /** Nothing on its way to the device has changed. */
  ghost predicate SamePending(s: State, s': State, k: Kind) {
    && s'.enqueued[k] == s.enqueued[k] && s'.served[k] == s.served[k] && s'.queue[k] == s.queue[k]
    && BeforeService(s'.worker[k]) == BeforeService(s.worker[k])
    && (BeforeService(s.worker[k]) ==> s'.worker[k].v == s.worker[k].v)
    && (forall v: Vid | s.vouchers[v].place in {Queued(k), InService(k)} :: s'.vouchers[v].sd == s.vouchers[v].sd)
  }

  lemma OrderKept(s: State, s': State, k: Kind)
    requires BuffersOk(s) && WorkerOk(s, k) && InOrder(s, k) && SamePending(s, s', k)
    ensures InOrder(s', k)
  {
    assert Sds(s', s.queue[k]) == Sds(s, s.queue[k]);
  }

  /** The same for an action that puts nothing on a queue and takes nothing off. */
  lemma QuietStep(s: State, s': State, u: Vid)
    requires Inv(s) && Frame(s, s', u) && LocallyKept(s, s', u) && BuffersOk(s')
    requires forall k: Kind :: SamePending(s, s', k)
    ensures Inv(s')
  {
    forall k: Kind ensures InOrder(s', k) { OrderKept(s, s', k); }
    LocalStep(s, s', u);
  }

  lemma CallInv(s: State, c: nat, kind: Kind, sd: int, blocking: bool)
    requires Inv(s) && c < |s.clients| && s.clients[c].Idle?
    ensures Inv(s.(clients := s.clients[c := Wanting(kind, sd, blocking)]))
  {
    var s', u: Vid := s.(clients := s.clients[c := Wanting(kind, sd, blocking)]), 0;
    assert ClientOk(s, c) && VoucherOk(s, u);
    QuietStep(s, s', u);
  }

  lemma TakeInv(s: State, c: nat)
    requires Inv(s) && Pc(s, c).Wanting? && s.pool != []
    ensures Inv(DoTake(s, c))
  {
    var s', u: Vid := DoTake(s, c), s.pool[0];
    assert ClientOk(s, c) && VoucherOk(s, u);
    QuietStep(s, s', u);
  }

  lemma FillInv(s: State, c: nat)
    requires Inv(s) && Pc(s, c).Filling?
    ensures Inv(DoFill(s, c))
  {
    var s', u: Vid := DoFill(s, c), s.clients[c].v;
    assert ClientOk(s, c) && VoucherOk(s, u);
    QuietStep(s, s', u);
  }

  lemma StartRedeemInv(s: State, c: nat, v: Vid)
    requires Inv(s) && c < |s.clients| && s.clients[c].Idle? && s.vouchers[v].ticket == Outstanding
    ensures Inv(DoStartRedeem(s, c, v))
  {
    var s', u: Vid := DoStartRedeem(s, c, v), v;
    assert ClientOk(s, c) && VoucherOk(s, u);
    QuietStep(s, s', u);
  }

  lemma LockClientInv(s: State, c: nat)
    requires Inv(s) && Pc(s, c).Redeeming? && s.vouchers[Pc(s, c).v].lock == None
    ensures Inv(DoLockClient(s, c))
  {
    var s', u: Vid := DoLockClient(s, c), s.clients[c].v;
    assert ClientOk(s, c) && VoucherOk(s, u);
    QuietStep(s, s', u);
  }

  /** The loop's test fails: the request is still on its way, by the hand of someone who will signal. */
  lemma WaitInv(s: State, c: nat)
    requires Inv(s) && Pc(s, c).Checking? && s.vouchers[Pc(s, c).v].completed != 1
    ensures Inv(DoCheck(s, c))
  {
    var s', u: Vid := DoCheck(s, c), s.clients[c].v;
    assert ClientOk(s, c) && VoucherOk(s, u);
    assert !s.vouchers[u].place.Finished?;
    QuietStep(s, s', u);
  }

  lemma PassInv(s: State, c: nat)
    requires Inv(s) && Pc(s, c).Checking? && s.vouchers[Pc(s, c).v].completed == 1
    ensures Inv(DoCheck(s, c))
  {
    var s', u: Vid := DoCheck(s, c), s.clients[c].v;
    assert ClientOk(s, c) && VoucherOk(s, u);
    var p := s.vouchers[u].place;
    assert p.InService? ==> WorkerOk(s, p.k);
    QuietStep(s, s', u);
  }

  lemma SpuriousWakeInv(s: State, c: nat)
    requires Inv(s) && Pc(s, c).Waiting?
    ensures Inv(s.(clients := s.clients[c := Redeeming(s.clients[c].v)]))
  {
    var s', u: Vid := s.(clients := s.clients[c := Redeeming(s.clients[c].v)]), s.clients[c].v;
    assert ClientOk(s, c) && VoucherOk(s, u);
    QuietStep(s, s', u);
  }

  lemma PutDescriptorInv(s: State, c: nat)
    requires Inv(s) && Pc(s, c).Returning?
    ensures Inv(DoPutDescriptor(s, c))
  {
    var s', u: Vid := DoPutDescriptor(s, c), s.clients[c].v;
    assert ClientOk(s, c) && VoucherOk(s, u);
    QuietStep(s, s', u);
  }

  lemma RecycleInv(s: State, c: nat)
    requires Inv(s) && Pc(s, c).Recycling?
    ensures Inv(DoRecycle(s, c))
  {
    var s', u: Vid := DoRecycle(s, c), s.clients[c].v;
    assert ClientOk(s, c) && VoucherOk(s, u);
    QuietStep(s, s', u);
  }

  lemma UnlockClientInv(s: State, c: nat)
    requires Inv(s) && Pc(s, c).Releasing?
    ensures Inv(DoUnlockClient(s, c))
  {
    var s', u: Vid := DoUnlockClient(s, c), s.clients[c].v;
    assert ClientOk(s, c) && VoucherOk(s, u);
    QuietStep(s, s', u);
  }

  lemma RereadInv(s: State, c: nat)
    requires Inv(s) && Pc(s, c).Rereading?
    ensures Inv(s.(clients := s.clients[c := Idle]))
  {
    var s', u: Vid := s.(clients := s.clients[c := Idle]), s.clients[c].v;
    assert ClientOk(s, c) && VoucherOk(s, u);
    QuietStep(s, s', u);
  }

  lemma LockWorkerInv(s: State, k: Kind)
    requires Inv(s) && s.worker[k].Locking? && s.vouchers[s.worker[k].v].lock == None
    ensures Inv(DoLockWorker(s, k))
  {
    var s', u: Vid := DoLockWorker(s, k), s.worker[k].v;
    assert WorkerOk(s, k) && VoucherOk(s, u);
    QuietStep(s, s', u);
  }

  lemma CompleteInv(s: State, k: Kind)
    requires Inv(s) && s.worker[k].Completing?
    ensures Inv(DoComplete(s, k))
  {
    var s', u: Vid := DoComplete(s, k), s.worker[k].v;
    assert WorkerOk(s, k) && VoucherOk(s, u);
    QuietStep(s, s', u);
  }

  lemma SignalInv(s: State, k: Kind)
    requires Inv(s) && s.worker[k].Signalling?
    ensures Inv(DoSignal(s, k))
  {
    var s', u: Vid := DoSignal(s, k), s.worker[k].v;
    assert WorkerOk(s, k) && VoucherOk(s, u);
    QuietStep(s, s', u);
  }

  lemma UnlockWorkerInv(s: State, k: Kind)
    requires Inv(s) && s.worker[k].Unlocking?
    ensures Inv(DoUnlockWorker(s, k))
  {
    var s', u: Vid := DoUnlockWorker(s, k), s.worker[k].v;
    assert WorkerOk(s, k) && VoucherOk(s, u);
    QuietStep(s, s', u);
  }

  lemma StoreInv(s: State, open: bool)
    requires Inv(s)
    ensures Inv(s.(storeOpen := open))
  {
    assert VoucherOk(s, 0);
    QuietStep(s, s.(storeOpen := open), 0);
  }

  // ----- counting vouchers

  function Members(q: seq<Vid>): set<Vid> {
    set v | v in q
  }

  lemma {:induction false} MembersCount(q: seq<Vid>)
    requires NoDuplicates(q)
    ensures |Members(q)| == |q|
  {
    if q != [] {
      var n := |q| - 1;
      MembersCount(q[..n]);
      assert Members(q) == Members(q[..n]) + {q[n]} && q[n] !in Members(q[..n]);
    }
  }

  lemma {:induction false} VidsCount(n: nat, all: set<Vid>)
    requires n <= VSIZE && forall v <- all :: v < n
    ensures |all| <= n
  {
    if n > 0 {
      VidsCount(n - 1, all - {n - 1});
    }
  }

  /** The buffers together hold every voucher at most once; one that is elsewhere leaves a place free. */
  lemma Room(s: State)
    requires BuffersOk(s)
    ensures |s.pool| + |s.queue[0]| + |s.queue[1]| <= VSIZE
    ensures forall u: Vid :: !s.vouchers[u].place.InPool? && !s.vouchers[u].place.Queued? ==>
      |s.pool| + |s.queue[0]| + |s.queue[1]| < VSIZE
  {
    var a, b, c := Members(s.pool), Members(s.queue[0]), Members(s.queue[1]);
    MembersCount(s.pool);
    MembersCount(s.queue[0]);
    MembersCount(s.queue[1]);
    assert a !! b && a !! c && b !! c;
    var all := a + b + c;
    assert |all| == |a| + |b| + |c|;
    VidsCount(VSIZE, all);
    forall u: Vid | !s.vouchers[u].place.InPool? && !s.vouchers[u].place.Queued?
      ensures |all| < VSIZE
    {
      assert u !in all;
      VidsCount(VSIZE, all + {u});
    }
  }

  lemma EnqueueInv(s: State, c: nat)
    requires Inv(s) && Pc(s, c).Enqueuing?
    ensures Inv(DoEnqueue(s, c))
  {
    var s', u: Vid := DoEnqueue(s, c), s.clients[c].v;
    assert ClientOk(s, c);
    assert VoucherOk(s, u);
    Room(s);
    var k0 := s.clients[c].kind;
    assert s'.queue[k0][|s.queue[k0]|] == u;
    EnqueuedBuffers(s, c);
    forall k': Kind ensures InOrder(s', k') { EnqueuedInOrder(s, c, k'); }
    LocalStep(s, s', u);
  }

  lemma EnqueuedBuffers(s: State, c: nat)
    requires Pc(s, c).Enqueuing? && ClientOk(s, c) && BuffersOk(s)
    requires |s.queue[Pc(s, c).kind]| < SIZE
    ensures BuffersOk(DoEnqueue(s, c))
  {
  }

  lemma EnqueuedInOrder(s: State, c: nat, k: Kind)
    requires Pc(s, c).Enqueuing? && ClientOk(s, c) && WorkerOk(s, k) && BuffersOk(s) && InOrder(s, k)
    requires |s.queue[Pc(s, c).kind]| < SIZE
    ensures InOrder(DoEnqueue(s, c), k)
  {
    var s', pc := DoEnqueue(s, c), s.clients[c];
    if pc.kind == k {
      assert Sds(s', s'.queue[k]) == Sds(s, s.queue[k]) + [pc.sd];
    } else {
      assert Sds(s', s'.queue[k]) == Sds(s, s.queue[k]);
    }
  }

  lemma DequeueInv(s: State, k: Kind)
    requires Inv(s) && s.worker[k].Reading? && s.queue[k] != []
    ensures Inv(DoDequeue(s, k))
  {
    var s', u: Vid := DoDequeue(s, k), s.queue[k][0];
    assert u in s.queue[k];
    assert WorkerOk(s, k) && VoucherOk(s, u);
    DequeuedBuffers(s, k);
    forall k': Kind ensures InOrder(s', k') { DequeuedInOrder(s, k, k'); }
    LocalStep(s, s', u);
  }

  lemma DequeuedBuffers(s: State, k: Kind)
    requires BuffersOk(s) && s.queue[k] != []
    ensures BuffersOk(DoDequeue(s, k))
  {
    assert s.queue[k][0] in s.queue[k];
  }

  lemma DequeuedInOrder(s: State, k: Kind, k': Kind)
    requires BuffersOk(s) && WorkerOk(s, k') && InOrder(s, k') && s.worker[k].Reading? && s.queue[k] != []
    ensures InOrder(DoDequeue(s, k), k')
  {
    var s' := DoDequeue(s, k);
    if k == k' {
      assert Pending(s', k) == Pending(s, k);
    } else {
      OrderKept(s, s', k');
    }
  }

  lemma ServeInv(s: State, k: Kind, status: int)
    requires Inv(s) && s.worker[k].Serving?
    ensures Inv(DoServe(s, k, status))
  {
    var s', u: Vid := DoServe(s, k, status), s.worker[k].v;
    assert WorkerOk(s, k) && VoucherOk(s, u);
    forall k': Kind ensures InOrder(s', k') { ServedInOrder(s, k, status, k'); }
    LocalStep(s, s', u);
  }

  lemma ServedInOrder(s: State, k: Kind, status: int, k': Kind)
    requires BuffersOk(s) && WorkerOk(s, k') && InOrder(s, k') && s.worker[k].Serving?
    ensures InOrder(DoServe(s, k, status), k')
  {
    var s' := DoServe(s, k, status);
    if k == k' {
      assert Sds(s', s'.queue[k]) == Sds(s, s.queue[k]);
    } else {
      OrderKept(s, s', k');
    }
  }

  /** The branches that hand a voucher back because a request queue is full are unreachable. */
  lemma NeverRefused(s: State, c: nat)
    requires Inv(s)
    ensures !Pc(s, c).Refused?
  {
    assert ClientOk(s, c);
  }

  /** Every action keeps the invariant. */
  lemma StepInv(s: State, a: Action)
    requires Inv(s) && Enabled(s, a)
    ensures Inv(Apply(s, a))
  {
    match a
    case Call(c, kind, sd, blocking) => CallInv(s, c, kind, sd, blocking);
    case Take(c) => TakeInv(s, c);
    case Fill(c) => FillInv(s, c);
    case Enqueue(c) => EnqueueInv(s, c);
    case HandBack(c) => NeverRefused(s, c);
    case StartRedeem(c, v) => StartRedeemInv(s, c, v);
    case LockClient(c) => LockClientInv(s, c);
    case Check(c) =>
      if s.vouchers[Pc(s, c).v].completed == 1 {
        PassInv(s, c);
      } else {
        WaitInv(s, c);
      }
    case SpuriousWake(c) => SpuriousWakeInv(s, c);
    case PutDescriptor(c) => PutDescriptorInv(s, c);
    case Recycle(c) => RecycleInv(s, c);
    case UnlockClient(c) => UnlockClientInv(s, c);
    case Reread(c) => RereadInv(s, c);
    case Dequeue(k) => DequeueInv(s, k);
    case LockWorker(k) => LockWorkerInv(s, k);
    case Serve(k, status) => ServeInv(s, k, status);
    case Complete(k) => CompleteInv(s, k);
    case Signal(k) => SignalInv(s, k);
    case UnlockWorker(k) => UnlockWorkerInv(s, k);
    case Store(open) => StoreInv(s, open);
  }
}
