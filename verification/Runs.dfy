/**
 Whole runs of one rank over the two libraries: the program issues its calls to the hooks, which work on
 their hash tables, and the objects pass through the states of the protocol.
 */
module Runs {
  import opened Numbers
  import opened Words
  import opened SlotSpec
  import opened HTable
  import opened Requests
  import opened Protocol
  import opened Hooks

  /** The cells that the PMPI call itself fills. */
  function DirectCells(call: Call): set<Addr> {
    match call
    case Recv(buf, count, extent, _) => Region(buf, Cells(count, extent))
    case Bcast(buf, count, extent, root, comm) => if comm.rank != root then Region(buf, Cells(count, extent)) else {}
    case Alltoall(buf, count, extent, comm) => Region(buf, Cells(count * comm.size, extent))
    case Alltoallv(buf, counts, extent, comm) => Region(buf, Cells(Total(counts, comm.size), extent))
    case Allreduce(buf, count, extent, _) => Region(buf, Cells(count, extent))
    case Reduce(buf, count, extent, root, comm) => if comm.rank == root then Region(buf, Cells(count, extent)) else {}
    case _ => {}
  }

  /** Memory as the PMPI call leaves it. */
  function AfterCall(me: Ident, s: State, call: Call, unread: set<Addr>, env: Memory): Memory {
    var posts := call.Irecv? && call.comm.rank == me.rank;
    var s1 := if posts then s.(pending := s.pending[call.posted.request := call.posted]) else s;
    Arrives(s1, DirectCells(call), unread, env).mem
  }

  /** `recvcounts` has an entry for every rank, here and in the replay. */
  predicate WellCounted(me: Ident, call: Call) {
    call.Alltoallv? ==> call.comm.size <= |call.counts| && me.size <= |call.counts|
  }

  /** One call of the program to the capture library. */
  method CaptureIssue(lib: CaptureLib, call: Call, cell: Word, after: Memory, ghost env: Memory)
    requires lib.requests.Valid() && CanAllocate(lib.requests, cell) && WellCounted(lib.me, call)
    requires after == AfterCall(lib.me, lib.AsState(), call, lib.unread, env)
    modifies lib, lib.requests, lib.requests.htab, lib.requests.htab.table
    ensures lib.requests.Valid()
    ensures lib.requests.htab.table == old(lib.requests.htab.table) || fresh(lib.requests.htab.table)
    ensures (lib.AsState(), lib.log) == CaptureCall(lib.me, old(lib.AsState()), old(lib.log), call, lib.unread, env)
    ensures lib.requests.objects.Keys <= old(lib.requests.objects).Keys + {cell}
  {
    hide RequestTable.Valid, RequestTable.Pending, Overlay, Hidden, CaptureFilled, CaptureOne, CaptureAll, MaxElems,
      TopBit;
    match call
    case Irecv(posted, comm) => lib.Irecv(posted, comm, cell, after, env);
    case Recv(buf, count, extent, comm) => lib.Recv(buf, count, extent, comm, after, env);
    case Wait(request) => lib.Wait(request, after, env);
    case Waitall(requests) => lib.Waitall(requests, after, env);
    case Bcast(buf, count, extent, root, comm) => lib.Bcast(buf, count, extent, root, comm, after, env);
    case Alltoall(buf, count, extent, comm) => lib.Alltoall(buf, count, extent, comm, after, env);
    case Alltoallv(buf, counts, extent, comm) => lib.Alltoallv(buf, counts, extent, comm, after, env);
    case Allreduce(buf, count, extent, comm) => lib.Allreduce(buf, count, extent, comm, after, env);
    case Reduce(buf, count, extent, root, comm) => lib.Reduce(buf, count, extent, root, comm, after, env);
    case Outbound => lib.mem := after;
  }

  /** One call of the program to the replay library. */
  method ReplayIssue(lib: ReplayLib, call: Call, cell: Word)
    requires lib.requests.Valid() && CanAllocate(lib.requests, cell) && WellCounted(lib.me, call) && !lib.exited
    modifies lib, lib.requests, lib.requests.htab, lib.requests.htab.table
    ensures lib.requests.Valid()
    ensures lib.requests.htab.table == old(lib.requests.htab.table) || fresh(lib.requests.htab.table)
    ensures lib.AsState() == ReplayCall(lib.me, old(lib.AsState()), lib.log, call)
    ensures lib.requests.objects.Keys <= old(lib.requests.objects).Keys + {cell}
  {
    hide RequestTable.Valid, RequestTable.Pending, ReadInFile, ReplayOne, ReplayAll, MaxElems, TopBit;
    match call
    case Irecv(posted, comm) => lib.Irecv(posted, comm, cell);
    case Recv(buf, count, extent, comm) => lib.Recv(buf, count, extent, comm);
    case Wait(request) => lib.Wait(request);
    case Waitall(requests) => lib.Waitall(requests);
    case Bcast(buf, count, extent, root, comm) => lib.Bcast(buf, count, extent, root, comm);
    case Alltoall(buf, count, extent, comm) => lib.Alltoall(buf, count, extent, comm);
    case Alltoallv(buf, counts, extent, comm) => lib.Alltoallv(buf, counts, extent, comm);
    case Allreduce(buf, count, extent, comm) => lib.Allreduce(buf, count, extent, comm);
    case Reduce(buf, count, extent, root, comm) => lib.Reduce(buf, count, extent, root, comm);
    case Outbound =>
  }

  // ---- Room for the requests ----

  /** The addresses that `malloc` may return, one per call: distinct, and with the top bit of the heap. */
  ghost predicate HeapCells(cells: seq<Word>, n: nat, top: nat) {
    && n <= |cells| && n < MaxElems(MAX_BITS)
    && (forall i :: 0 <= i < |cells| ==> cells[i] <= ALL_ONES && TopBit(cells[i], WIDTH - 1) == top)
    && forall i, j :: 0 <= i < j < |cells| ==> cells[i] != cells[j]
  }

  /** What has been allocated after `k` calls. */
  ghost predicate Allocated(objects: map<Word, Posted>, cells: seq<Word>, k: nat) {
    k <= |cells| && forall c :: c in objects ==> c in cells[..k]
  }

  lemma NextCell(objects: map<Word, Posted>, objects': map<Word, Posted>, cells: seq<Word>, k: nat)
    requires Allocated(objects, cells, k) && k < |cells| && objects'.Keys <= objects.Keys + {cells[k]}
    ensures Allocated(objects', cells, k + 1)
  {
    assert cells[..k + 1] == cells[..k] + [cells[k]];
  }

  lemma FreshCell(objects: map<Word, Posted>, cells: seq<Word>, k: nat, n: nat, top: nat)
    requires HeapCells(cells, n, top) && Allocated(objects, cells, k) && k < |cells|
    ensures cells[k] !in objects
  {
    assert forall i :: 0 <= i < k ==> cells[..k][i] == cells[i] != cells[k];
  }

  lemma FewerPending(pending: map<Addr, Posted>, later: map<Addr, Posted>, posted: set<Addr>)
    requires later.Keys <= pending.Keys + posted
    ensures |later| <= |pending| + |posted|
  {
    SmallerSet(later.Keys, pending.Keys + posted);
  }

  lemma {:induction false} ReplayAllShrinks(s: State, log: Log, requests: seq<Addr>)
    ensures ReplayAll(s, log, requests).pending.Keys <= s.pending.Keys
    decreases |requests|
  {
    hide Store;
    if requests != [] && !s.exited { ReplayAllShrinks(ReplayOne(s, log, requests[0]), log, requests[1..]); }
  }

  function PostedBy(call: Call): set<Addr> {
    if call.Irecv? then {call.posted.request} else {}
  }

  lemma FilledKeepsPending(s: State, log: Log, buf: Addr, n: nat, filled: bool, logged: bool, unread: set<Addr>,
      env: Memory)
    ensures CaptureFilled(s, log, buf, n, filled, logged, unread, env).0.pending == s.pending
  {
  }

  lemma ArrivesKeepsPending(s: State, unread: set<Addr>, env: Memory)
    ensures Arrives(s, {}, unread, env).pending == s.pending
  {
  }

  lemma OneKeys(s: State, log: Log, request: Addr)
    ensures CaptureOne(s, log, request).0.pending.Keys <= s.pending.Keys
  {
  }

  lemma {:induction false} AllKeys(s: State, log: Log, requests: seq<Addr>)
    ensures CaptureAll(s, log, requests).0.pending.Keys <= s.pending.Keys
    decreases |requests|
  {
    if requests != [] {
      hide CaptureOne;
      var (s1, log1) := CaptureOne(s, log, requests[0]);
      OneKeys(s, log, requests[0]);
      AllKeys(s1, log1, requests[1..]);
    }
  }

  lemma CaptureKeys(me: Ident, s: State, log: Log, call: Call, unread: set<Addr>, env: Memory)
    ensures CaptureCall(me, s, log, call, unread, env).0.pending.Keys <= s.pending.Keys + PostedBy(call)
  {
    hide CaptureFilled, CaptureOne, CaptureAll, Arrives, Named, Region, Cells, Total;
    var s1 := Arrives(s, {}, unread, env);
    ArrivesKeepsPending(s, unread, env);
    match call
    case Irecv(p, _) => ArrivesKeepsPending(s.(pending := s.pending[p.request := p]), unread, env);
    case Recv(buf, count, extent, comm) =>
      FilledKeepsPending(s, log, buf, Cells(count, extent), true, comm.rank == me.rank, unread, env);
    case Wait(request) => OneKeys(s1, log, request);
    case Waitall(requests) => AllKeys(s1, log, requests);
    case Bcast(buf, count, extent, root, comm) =>
      FilledKeepsPending(s, log, buf, Cells(count, extent), comm.rank != root,
        comm.rank == me.rank && comm.rank != root, unread, env);
    case Alltoall(buf, count, extent, comm) =>
      FilledKeepsPending(s, log, buf, Cells(count * comm.size, extent), true, comm.rank == me.rank, unread, env);
    case Alltoallv(buf, counts, extent, comm) =>
      FilledKeepsPending(s, log, buf, Cells(Total(counts, comm.size), extent), true, comm.rank == me.rank, unread, env);
    case Allreduce(buf, count, extent, comm) =>
      FilledKeepsPending(s, log, buf, Cells(count, extent), true, comm.rank == me.rank, unread, env);
    case Reduce(buf, count, extent, root, comm) =>
      FilledKeepsPending(s, log, buf, Cells(count, extent), comm.rank == root,
        comm.rank == me.rank && comm.rank == root, unread, env);
    case Outbound =>
  }

  lemma ReplayKeys(me: Ident, s: State, log: Log, call: Call)
    ensures ReplayCall(me, s, log, call).pending.Keys <= s.pending.Keys + PostedBy(call)
  {
    hide Store, ReplayAll, Region, Cells, Total;
    if call.Waitall? { ReplayAllShrinks(s, log, call.requests); }
  }

  /** A call makes at most one more receive pending, on either side. */
  lemma CallPending(me: Ident, s: State, log: Log, call: Call, unread: set<Addr>, env: Memory)
    ensures |CaptureCall(me, s, log, call, unread, env).0.pending| <= |s.pending| + 1
    ensures |ReplayCall(me, s, log, call).pending| <= |s.pending| + 1
  {
    hide CaptureCall, ReplayCall;
    CaptureKeys(me, s, log, call, unread, env);
    ReplayKeys(me, s, log, call);
    FewerPending(s.pending, CaptureCall(me, s, log, call, unread, env).0.pending, PostedBy(call));
    FewerPending(s.pending, ReplayCall(me, s, log, call).pending, PostedBy(call));
  }

  // ---- Whole runs ----

  /** What the program does after `k` calls of the captured run. */
  function ActionAt(prog: Program, run: Run): Action {
    if run.done || run.st.exited then Done else prog(run.ctl, run.st.mem)
  }

  /** Memory when the PMPI call of the program's next action returns. */
  function AfterTurn(me: Ident, prog: Program, run: Run, unread: set<Addr>, env: Memory): Memory {
    match ActionAt(prog, run)
    case Done => run.st.mem
    case Issue(mem, call, _) => AfterCall(me, run.st.(mem := mem), call, unread, env)
  }

  /** The same at step `k` of the captured run, as its peers determine it. */
  function Delivered(x: Capture, k: nat): Memory {
    AfterTurn(x.me, x.prog, Captured(x, k).run, x.unread, x.env(k))
  }

  ghost predicate AllWellCounted(x: Capture, n: nat) {
    forall k: nat :: k < n ==> RunWellCounted(x.me, x.prog, Captured(x, k).run)
  }

  ghost predicate AllReplayedWellCounted(x: Capture, files: Log, n: nat) {
    forall k: nat :: k < n ==> RunWellCounted(x.me, x.prog, Replayed(x, files, k))
  }

  lemma WellCountedAt(x: Capture, files: Log, n: nat, k: nat)
    requires k < n
    ensures AllWellCounted(x, n) ==> RunWellCounted(x.me, x.prog, Captured(x, k).run)
    ensures AllReplayedWellCounted(x, files, n) ==> RunWellCounted(x.me, x.prog, Replayed(x, files, k))
  {
    hide RunWellCounted;
  }

  ghost predicate RunWellCounted(me: Ident, prog: Program, run: Run) {
    ActionAt(prog, run).Issue? ==> WellCounted(me, ActionAt(prog, run).call)
  }

  /** One turn of the program over the capture library. */
  method CaptureTurn(lib: CaptureLib, prog: Program, ctl: int, done: bool, cell: Word, after: Memory, ghost env: Memory)
      returns (ctl': int, done': bool)
    requires lib.requests.Valid() && CanAllocate(lib.requests, cell)
    requires RunWellCounted(lib.me, prog, Run(ctl, lib.AsState(), done))
    requires after == AfterTurn(lib.me, prog, Run(ctl, lib.AsState(), done), lib.unread, env)
    modifies lib, lib.requests, lib.requests.htab, lib.requests.htab.table
    ensures lib.requests.Valid()
    ensures lib.requests.htab.table == old(lib.requests.htab.table) || fresh(lib.requests.htab.table)
    ensures lib.requests.objects.Keys <= old(lib.requests.objects).Keys + {cell}
    ensures (Run(ctl', lib.AsState(), done'), lib.log) ==
      CaptureStep(lib.me, prog, old(Run(ctl, lib.AsState(), done)), old(lib.log), lib.unread, env)
    ensures |lib.AsState().pending| <= |old(lib.AsState()).pending| + 1
  {
    hide RequestTable.Valid, RequestTable.Pending, CaptureCall, AfterCall, MaxElems, TopBit;
    ctl', done' := ctl, done;
    if !done && !lib.exited {
      match prog(ctl, lib.mem)
      case Done => done' := true;
      case Issue(mem, call, next) =>
        lib.mem := mem;
        CallPending(lib.me, lib.AsState(), lib.log, call, lib.unread, env);
        CaptureIssue(lib, call, cell, after, env);
        ctl' := next;
    }
  }

  /** One turn of the program over the replay library. */
  method ReplayTurn(lib: ReplayLib, prog: Program, ctl: int, done: bool, cell: Word) returns (ctl': int, done': bool)
    requires lib.requests.Valid() && CanAllocate(lib.requests, cell)
    requires RunWellCounted(lib.me, prog, Run(ctl, lib.AsState(), done))
    modifies lib, lib.requests, lib.requests.htab, lib.requests.htab.table
    ensures lib.requests.Valid()
    ensures lib.requests.htab.table == old(lib.requests.htab.table) || fresh(lib.requests.htab.table)
    ensures lib.requests.objects.Keys <= old(lib.requests.objects).Keys + {cell}
    ensures Run(ctl', lib.AsState(), done') == ReplayStep(lib.me, prog, old(Run(ctl, lib.AsState(), done)), lib.log)
    ensures |lib.AsState().pending| <= |old(lib.AsState()).pending| + 1
  {
    hide RequestTable.Valid, RequestTable.Pending, ReplayCall, CaptureCall, MaxElems, TopBit;
    ctl', done' := ctl, done;
    if !done && !lib.exited {
      match prog(ctl, lib.mem)
      case Done => done' := true;
      case Issue(mem, call, next) =>
        lib.mem := mem;
        CallPending(lib.me, lib.AsState(), lib.log, call, {}, map[]);
        ReplayIssue(lib, call, cell);
        ctl' := next;
    }
  }

  /**
   The captured run on the capture library. `after` is memory as each PMPI call returns; the library itself
   sees nothing else of the peers.
   */
  method CaptureRun(x: Capture, n: nat, hash: Addr -> Word, top: nat, cells: seq<Word>, after: nat -> Memory)
      returns (lib: CaptureLib, ctl: int, done: bool)
    requires 0 < top < WIDTH && HeapCells(cells, n, top) && AllWellCounted(x, n)
    requires forall k: nat :: k < n ==> after(k) == Delivered(x, k)
    ensures fresh(lib) && Logged(Run(ctl, lib.AsState(), done), lib.log) == Captured(x, n)
  {
    hide RequestTable.Valid, RequestTable.Pending, CaptureStep, AfterTurn, RunWellCounted, AllWellCounted, HeapCells,
      Allocated, MaxElems, TopBit;
    lib := new CaptureLib(x.me, x.mem, x.stale, x.unread, hash, top);
    ctl, done := x.ctl, false;
    NoneAllocated(cells);
    for k := 0 to n
      invariant lib.requests.Valid() && lib.me == x.me && lib.unread == x.unread && lib.requests.top == top
      invariant fresh(lib.requests) && fresh(lib.requests.htab)
      invariant lib.requests.htab.table == null || fresh(lib.requests.htab.table)
      invariant Logged(Run(ctl, lib.AsState(), done), lib.log) == Captured(x, k)
      invariant Allocated(lib.requests.objects, cells, k) && |lib.AsState().pending| <= k
    {
      ghost var objects := lib.requests.objects;
      WellCountedAt(x, map[], n, k);
      CellReady(objects, cells, k, n, top);
      ctl, done := CaptureTurn(lib, x.prog, ctl, done, cells[k], after(k), x.env(k));
      NextCell(objects, lib.requests.objects, cells, k);
    }
  }

  lemma ReplayedFirst(x: Capture, files: Log)
    ensures Replayed(x, files, 0) == Run(x.ctl, State(x.mem, map[], 0, false), false)
  {
  }

  lemma ReplayedNext(x: Capture, files: Log, k: nat, run: Run)
    requires run == Replayed(x, files, k)
    ensures Replayed(x, files, k + 1) == ReplayStep(x.me, x.prog, run, files)
  {
  }

  /** The replay of a log on the replay library. */
  method ReplayRun(x: Capture, files: Log, n: nat, hash: Addr -> Word, top: nat, cells: seq<Word>)
      returns (lib: ReplayLib, ctl: int, done: bool)
    requires 0 < top < WIDTH && HeapCells(cells, n, top)
    requires AllReplayedWellCounted(x, files, n)
    ensures fresh(lib) && Run(ctl, lib.AsState(), done) == Replayed(x, files, n)
  {
    hide RequestTable.Valid, RequestTable.Pending, ReplayStep, Replayed, RunWellCounted, AllReplayedWellCounted,
      HeapCells, Allocated, MaxElems, TopBit;
    lib := new ReplayLib(x.me, x.mem, files, hash, top);
    ctl, done := x.ctl, false;
    ReplayedFirst(x, files);
    NoneAllocated(cells);
    for k := 0 to n
      invariant lib.requests.Valid() && lib.me == x.me && lib.log == files && lib.requests.top == top
      invariant fresh(lib.requests) && fresh(lib.requests.htab)
      invariant lib.requests.htab.table == null || fresh(lib.requests.htab.table)
      invariant Run(ctl, lib.AsState(), done) == Replayed(x, files, k)
      invariant Allocated(lib.requests.objects, cells, k) && |lib.AsState().pending| <= k
    {
      ghost var objects := lib.requests.objects;
      WellCountedAt(x, files, n, k);
      ReplayedNext(x, files, k, Run(ctl, lib.AsState(), done));
      CellReady(objects, cells, k, n, top);
      ctl, done := ReplayTurn(lib, x.prog, ctl, done, cells[k]);
      NextCell(objects, lib.requests.objects, cells, k);
    }
  }

  /** In step, the two programs make the same call. */
  lemma SameCounts(me: Ident, prog: Program, c: Run, r: Run, unread: set<Addr>)
    requires SameRun(c, r, unread) && Obeys(me, prog, c, unread) && RunWellCounted(me, prog, c)
    ensures RunWellCounted(me, prog, r)
  {
    hide Agree, Hidden;
    assert SameAction(me, prog(c.ctl, c.st.mem), prog(c.ctl, r.st.mem), Hidden(c.st.pending, unread));
  }

  /**
   Capture a program with the one library, replay the log with the other: over their hash tables and
   wherever `malloc` puts the objects, the two objects end in step.
   */
  method CaptureThenReplay(x: Capture, n: nat, hash: Addr -> Word, hash': Addr -> Word, top: nat, top': nat,
      cells: seq<Word>, cells': seq<Word>, after: nat -> Memory)
      returns (c: CaptureLib, r: ReplayLib)
    requires 0 < top < WIDTH && HeapCells(cells, n, top) && 0 < top' < WIDTH && HeapCells(cells', n, top')
    requires AllWellCounted(x, n) && forall k: nat :: k < n ==> after(k) == Delivered(x, k)
    requires forall k: nat :: k < n ==> Obeys(x.me, x.prog, Captured(x, k).run, x.unread)
    ensures Same(c.AsState(), r.AsState(), x.unread)
    ensures c.AsState() == Captured(x, n).run.st && r.AsState() == Replayed(x, Captured(x, n).log, n).st
  {
    hide RequestTable.Valid, RequestTable.Pending, CaptureStep, ReplayStep, RunWellCounted, HeapCells, Obeys, Same,
      Delivered, TopBit;
    var ctl, done;
    c, ctl, done := CaptureRun(x, n, hash, top, cells, after);
    forall k: nat | k < n
      ensures RunWellCounted(x.me, x.prog, Replayed(x, Captured(x, n).log, k))
    {
      Lockstep(x, k, n);
      WellCountedAt(x, map[], n, k);
      SameCounts(x.me, x.prog, Captured(x, k).run, Replayed(x, Captured(x, n).log, k), x.unread);
    }
    r, ctl, done := ReplayRun(x, c.log, n, hash', top', cells');
    Lockstep(x, n, n);
  }

  lemma NoneAllocated(cells: seq<Word>)
    ensures Allocated(map[], cells, 0)
  {
  }

  lemma CellReady(objects: map<Word, Posted>, cells: seq<Word>, k: nat, n: nat, top: nat)
    requires HeapCells(cells, n, top) && Allocated(objects, cells, k) && k < n
    ensures k < |cells| && k < MaxElems(MAX_BITS)
    ensures cells[k] !in objects && cells[k] <= ALL_ONES && TopBit(cells[k], WIDTH - 1) == top
  {
    FreshCell(objects, cells, k, n, top);
  }
}
