/** The voucher protocol of project2/diskdriver.c as a transition system: one action per buffer operation,
    lock, wait, signal, unlock, or private run of assignments. Any number of client threads, one reading and
    one writing worker. The bounded buffers behave as BoundedBuffer.h specifies; the disk returns any status. */
module DiskDriver {
  import opened Options

  const VSIZE: nat := 30
  const SIZE: nat := 100
  /** The pool buffer is created with the byte size of an array of pointers as its capacity. */
  const POINTER_BYTES: nat := 8
  const POOL_CAPACITY: nat := VSIZE * POINTER_BYTES

  /** A voucher, as its index in the static table. */
  type Vid = v: nat | v < VSIZE

  /** 0 for read requests and the reading worker, 1 for write requests and the writing worker. */
  type Kind = k: int | 0 <= k <= 1

  datatype Thread = Worker(kind: Kind) | Client(id: nat)

  /** Where a voucher is on the driver's side. */
  datatype Place = InPool | WithIssuer(c: nat) | Queued(k: Kind) | InService(k: Kind) | Finished

  /** Who may redeem it. */
  datatype Ticket = NoTicket | Outstanding | Redeemer(c: nat)

  /** The program's fields, the mutex owner, and three history fields: where the voucher is, who may redeem
      it, and the number of its latest request. */
  datatype Voucher = Voucher(status: int, sd: int, readWrite: Kind, completed: int, lock: Option<Thread>,
                             place: Place, ticket: Ticket, current: nat)

  datatype WorkerPc =
    | Reading                    // blocked in, or about to call, blockingReadBB
    | Locking(v: Vid)
    | Serving(v: Vid)            // holds the mutex, from here to Unlocking
    | Completing(v: Vid)
    | Signalling(v: Vid)
    | Unlocking(v: Vid)

  datatype ClientPc =
    | Idle
    | Wanting(kind: Kind, sd: int, blocking: bool)                // blockingReadBB(vouchBB)
    | Filling(v: Vid, kind: Kind, sd: int, blocking: bool)        // the three field assignments
    | Enqueuing(v: Vid, kind: Kind, sd: int, blocking: bool)      // (non)blockingWriteBB on the request queue
    | Refused(v: Vid)                                             // the queue was full: hand the voucher back
    | Redeeming(v: Vid)                                           // pthread_mutex_lock
    | Checking(v: Vid)                                            // the wait loop's test; holds the mutex
    | Waiting(v: Vid)                                             // pthread_cond_wait
    | Returning(v: Vid, status: int)                              // past the loop; the status that was tested
    | Recycling(v: Vid, status: int)                              // completed = 0 and blockingWriteBB(vouchBB)
    | Releasing(v: Vid, status: int, request: nat)                // pthread_mutex_unlock; the request redeemed
    | Rereading(v: Vid, status: int, request: nat)                // reads the status again, to return it

  /** One service of a request by a worker. */
  datatype Service = Service(worker: Kind, sd: int, status: int)

  /** History of one request: what was asked, and every service it ever got. */
  datatype Request = Request(v: Vid, kind: Kind, sd: int, services: seq<Service>)

  const BLANK := Voucher(0, 0, 0, 0, None, InPool, NoTicket, 0)
  type Vouchers = s: seq<Voucher> | |s| == VSIZE witness seq(VSIZE, _ => BLANK)
  type Queues = s: seq<seq<Vid>> | |s| == 2 witness [[], []]
  type Logs = s: seq<seq<int>> | |s| == 2 witness [[], []]
  type Workers = s: seq<WorkerPc> | |s| == 2 witness [Reading, Reading]

  /** The last five components record history. */
  datatype State = State(
    vouchers: Vouchers,
    pool: seq<Vid>,
    queue: Queues,               // queue[0] is readBB, queue[1] is writeBB
    worker: Workers,             // worker[0] runs read(), worker[1] runs write()
    clients: seq<ClientPc>,
    storeOpen: bool,             // whether the descriptor store accepts puts
    requests: seq<Request>,
    enqueued: Logs,              // descriptors put on each queue, in order
    served: Logs,                // descriptors passed to read_sector and to write_sector, in order
    stored: seq<int>,            // descriptors put into the store by redemptions, in order
    handed: seq<int>)            // descriptors handed to callers by redemptions, in order

  function Init(clients: nat): State {
    State(seq(VSIZE, _ => BLANK), seq(VSIZE, i requires 0 <= i < VSIZE => i as Vid), [[], []], [Reading, Reading],
          seq(clients, _ => Idle), true, [], [[], []], [[], []], [], [])
  }

  /** The initialisation loop fills the pool with every voucher once. */
  method InitPool() returns (pool: seq<Vid>)
    ensures pool == Init(0).pool && |pool| <= POOL_CAPACITY
  {
    pool := [];
    for i := 0 to VSIZE
      invariant |pool| == i && forall j :: 0 <= j < i ==> pool[j] == j
    {
      pool := pool + [i];
    }
  }

  /** The program counter of client `c`. */
  function Pc(s: State, c: nat): ClientPc {
    if c < |s.clients| then s.clients[c] else Idle
  }

  function WorkerVoucher(pc: WorkerPc): Option<Vid> {
    if pc.Reading? then None else Some(pc.v)
  }

  function ClientVoucher(pc: ClientPc): Option<Vid> {
    if pc.Idle? || pc.Wanting? then None else Some(pc.v)
  }

  // ----- actions

  datatype Action =
    | Call(c: nat, kind: Kind, sd: int, blocking: bool)
    | Take(c: nat)
    | Fill(c: nat)
    | Enqueue(c: nat)
    | HandBack(c: nat)
    | StartRedeem(c: nat, v: Vid)
    | LockClient(c: nat)
    | Check(c: nat)
    | SpuriousWake(c: nat)
    | PutDescriptor(c: nat)
    | Recycle(c: nat)
    | UnlockClient(c: nat)
    | Reread(c: nat)
    | Dequeue(k: Kind)
    | LockWorker(k: Kind)
    | Serve(k: Kind, status: int)
    | Complete(k: Kind)
    | Signal(k: Kind)
    | UnlockWorker(k: Kind)
    | Store(open: bool)

  /** Whether the action can happen now. Blocking calls are disabled while they block. */
  predicate Enabled(s: State, a: Action) {
    match a
    case Call(c, _, _, _) => c < |s.clients| && s.clients[c].Idle?
    case Take(c) => Pc(s, c).Wanting? && s.pool != []
    case Fill(c) => Pc(s, c).Filling?
    case Enqueue(c) => Pc(s, c).Enqueuing? && (Pc(s, c).blocking ==> |s.queue[Pc(s, c).kind]| < SIZE)
    case HandBack(c) => Pc(s, c).Refused?
    case StartRedeem(c, v) => c < |s.clients| && s.clients[c].Idle? && s.vouchers[v].ticket == Outstanding
    case LockClient(c) => Pc(s, c).Redeeming? && s.vouchers[Pc(s, c).v].lock == None
    case Check(c) => Pc(s, c).Checking?
    case SpuriousWake(c) => Pc(s, c).Waiting?
    case PutDescriptor(c) => Pc(s, c).Returning? && (s.vouchers[Pc(s, c).v].readWrite == 0 ==> s.storeOpen)
    case Recycle(c) => Pc(s, c).Recycling? && |s.pool| < POOL_CAPACITY
    case UnlockClient(c) => Pc(s, c).Releasing?
    case Reread(c) => Pc(s, c).Rereading?
    case Dequeue(k) => s.worker[k].Reading? && s.queue[k] != []
    case LockWorker(k) => s.worker[k].Locking? && s.vouchers[s.worker[k].v].lock == None
    case Serve(k, _) => s.worker[k].Serving?
    case Complete(k) => s.worker[k].Completing?
    case Signal(k) => s.worker[k].Signalling?
    case UnlockWorker(k) => s.worker[k].Unlocking?
    case Store(_) => true
  }

  /** Client `c` moves to `pc`, and voucher `v` becomes `x`. */
  function ByClient(s: State, c: nat, pc: ClientPc, v: Vid, x: Voucher): State
    requires c < |s.clients|
  {
    s.(clients := s.clients[c := pc], vouchers := s.vouchers[v := x])
  }

  /** Worker `k` moves to `pc`, and voucher `v` becomes `x`. */
  function ByWorker(s: State, k: Kind, pc: WorkerPc, v: Vid, x: Voucher): State {
    s.(worker := s.worker[k := pc], vouchers := s.vouchers[v := x])
  }

  function DoTake(s: State, c: nat): State
    requires Pc(s, c).Wanting? && s.pool != []
  {
    var pc, v := s.clients[c], s.pool[0];
    ByClient(s, c, Filling(v, pc.kind, pc.sd, pc.blocking), v, s.vouchers[v].(place := WithIssuer(c)))
      .(pool := s.pool[1..])
  }

  function DoFill(s: State, c: nat): State
    requires Pc(s, c).Filling?
  {
    var pc := s.clients[c];
    ByClient(s, c, Enqueuing(pc.v, pc.kind, pc.sd, pc.blocking),
             pc.v, s.vouchers[pc.v].(readWrite := pc.kind, completed := 0, sd := pc.sd))
  }

  function DoEnqueue(s: State, c: nat): State
    requires Pc(s, c).Enqueuing?
  {
    var pc := s.clients[c];
    if |s.queue[pc.kind]| < SIZE then
      ByClient(s, c, Idle, pc.v,
               s.vouchers[pc.v].(place := Queued(pc.kind), ticket := Outstanding, current := |s.requests|))
        .(queue := s.queue[pc.kind := s.queue[pc.kind] + [pc.v]],
          requests := s.requests + [Request(pc.v, pc.kind, pc.sd, [])],
          enqueued := s.enqueued[pc.kind := s.enqueued[pc.kind] + [pc.sd]])
    else
      s.(clients := s.clients[c := Refused(pc.v)])
  }

  function DoHandBack(s: State, c: nat): State
    requires Pc(s, c).Refused?
  {
    var v := s.clients[c].v;
    if |s.pool| < POOL_CAPACITY then
      ByClient(s, c, Idle, v, s.vouchers[v].(place := InPool)).(pool := s.pool + [v])
    else
      s.(clients := s.clients[c := Idle])
  }

  function DoStartRedeem(s: State, c: nat, v: Vid): State
    requires c < |s.clients|
  {
    ByClient(s, c, Redeeming(v), v, s.vouchers[v].(ticket := Redeemer(c)))
  }

  function DoLockClient(s: State, c: nat): State
    requires Pc(s, c).Redeeming?
  {
    var v := s.clients[c].v;
    ByClient(s, c, Checking(v), v, s.vouchers[v].(lock := Some(Client(c))))
  }

  /** Waiting gives the mutex up; passing the test keeps it, reads the status, and hands the descriptor of a
      successful write to the caller. */
  function DoCheck(s: State, c: nat): State
    requires Pc(s, c).Checking?
  {
    var v := s.clients[c].v;
    var x := s.vouchers[v];
    if x.completed != 1 then
      ByClient(s, c, Waiting(v), v, x.(lock := None))
    else
      ByClient(s, c, Returning(v, x.status), v, x)
        .(handed := s.handed + if x.status == 1 && x.readWrite == 1 then [x.sd] else [])
  }

  /** The descriptor of a read goes to the store. */
  function DoPutDescriptor(s: State, c: nat): State
    requires Pc(s, c).Returning?
  {
    var pc := s.clients[c];
    s.(clients := s.clients[c := Recycling(pc.v, pc.status)],
       stored := s.stored + if s.vouchers[pc.v].readWrite == 0 then [s.vouchers[pc.v].sd] else [])
  }

  function DoRecycle(s: State, c: nat): State
    requires Pc(s, c).Recycling?
  {
    var v := s.clients[c].v;
    ByClient(s, c, Releasing(v, s.clients[c].status, s.vouchers[v].current), v, s.vouchers[v].(completed := 0, place := InPool, ticket := NoTicket))
      .(pool := s.pool + [v])
  }

  function DoUnlockClient(s: State, c: nat): State
    requires Pc(s, c).Releasing?
  {
    var pc := s.clients[c];
    ByClient(s, c, Rereading(pc.v, pc.status, pc.request), pc.v, s.vouchers[pc.v].(lock := None))
  }

  function DoDequeue(s: State, k: Kind): State
    requires s.queue[k] != []
  {
    var v := s.queue[k][0];
    ByWorker(s, k, Locking(v), v, s.vouchers[v].(place := InService(k))).(queue := s.queue[k := s.queue[k][1..]])
  }

  function DoLockWorker(s: State, k: Kind): State
    requires s.worker[k].Locking?
  {
    var v := s.worker[k].v;
    ByWorker(s, k, Serving(v), v, s.vouchers[v].(lock := Some(Worker(k))))
  }

  /** The device call: records the status, and the service in the history of the voucher's request. */
  function DoServe(s: State, k: Kind, status: int): State
    requires s.worker[k].Serving?
  {
    var v := s.worker[k].v;
    var x := s.vouchers[v];
    ByWorker(s, k, Completing(v), v, x.(status := status))
      .(requests := AddService(s.requests, x.current, Service(k, x.sd, status)),
        served := s.served[k := s.served[k] + [x.sd]])
  }

  function AddService(requests: seq<Request>, i: nat, service: Service): seq<Request> {
    if i < |requests| then requests[i := requests[i].(services := requests[i].services + [service])] else requests
  }

  function DoComplete(s: State, k: Kind): State
    requires s.worker[k].Completing?
  {
    var v := s.worker[k].v;
    ByWorker(s, k, Signalling(v), v, s.vouchers[v].(completed := 1))
  }

  /** The waiting clients of voucher `v` go back to acquiring its mutex. */
  function Wake(clients: seq<ClientPc>, v: Vid): (r: seq<ClientPc>)
    ensures |r| == |clients|
    ensures forall c :: 0 <= c < |clients| ==> r[c] == if clients[c] == Waiting(v) then Redeeming(v) else clients[c]
  {
    seq(|clients|, c requires 0 <= c < |clients| => if clients[c] == Waiting(v) then Redeeming(v) else clients[c])
  }

  function DoSignal(s: State, k: Kind): State
    requires s.worker[k].Signalling?
  {
    var v := s.worker[k].v;
    s.(clients := Wake(s.clients, v), worker := s.worker[k := Unlocking(v)])
  }

  function DoUnlockWorker(s: State, k: Kind): State
    requires s.worker[k].Unlocking?
  {
    var v := s.worker[k].v;
    ByWorker(s, k, Reading, v, s.vouchers[v].(lock := None, place := Finished))
  }

  function Apply(s: State, a: Action): State
    requires Enabled(s, a)
  {
    match a
    case Call(c, kind, sd, blocking) => s.(clients := s.clients[c := Wanting(kind, sd, blocking)])
    case Take(c) => DoTake(s, c)
    case Fill(c) => DoFill(s, c)
    case Enqueue(c) => DoEnqueue(s, c)
    case HandBack(c) => DoHandBack(s, c)
    case StartRedeem(c, v) => DoStartRedeem(s, c, v)
    case LockClient(c) => DoLockClient(s, c)
    case Check(c) => DoCheck(s, c)
    case SpuriousWake(c) => s.(clients := s.clients[c := Redeeming(s.clients[c].v)])
    case PutDescriptor(c) => DoPutDescriptor(s, c)
    case Recycle(c) => DoRecycle(s, c)
    case UnlockClient(c) => DoUnlockClient(s, c)
    case Reread(c) => s.(clients := s.clients[c := Idle])
    case Dequeue(k) => DoDequeue(s, k)
    case LockWorker(k) => DoLockWorker(s, k)
    case Serve(k, status) => DoServe(s, k, status)
    case Complete(k) => DoComplete(s, k)
    case Signal(k) => DoSignal(s, k)
    case UnlockWorker(k) => DoUnlockWorker(s, k)
    case Store(open) => s.(storeOpen := open)
  }
}
