/**
 Capture and replay of one rank as two state machines over the same program. The captured rank runs
 among its peers, whose messages are arbitrary; the replayed rank runs alone on the files that
 the capture wrote. The calls of the library are functions from state to state here; the classes
 of Hooks are proved to compute them.
 */
module Protocol {
  import opened Requests

  type Val = int

  /** Memory by cell; a cell that was never written reads 0. */
  type Memory = map<Addr, Val>

  function Peek(m: Memory, a: Addr): Val {
    if a in m then m[a] else 0
  }

  /** The cells of `count` elements. */
  function Cells(count: int, extent: nat): nat {
    if count <= 0 then 0 else count * extent
  }

  function Load(m: Memory, buf: Addr, n: nat): (data: seq<Val>)
    ensures |data| == n
    ensures forall i :: 0 <= i < n ==> data[i] == Peek(m, buf + i)
  {
    seq(n, i requires 0 <= i => Peek(m, buf + i))
  }

  function Region(buf: Addr, n: nat): (r: set<Addr>)
    ensures forall a: Addr :: a in r <==> buf <= a < buf + n
  {
    if n == 0 then {} else Region(buf, n - 1) + {buf + n - 1}
  }

  function Store(m: Memory, buf: Addr, data: seq<Val>): (m': Memory)
    ensures forall a: Addr :: Peek(m', a) == if buf <= a < buf + |data| then data[a - buf] else Peek(m, a)
  {
    m + map a | a in Region(buf, |data|) :: data[a - buf]
  }

  function BufferOf(p: Posted): set<Addr> {
    Region(p.buffer, Cells(p.bufsize, p.extent))
  }

  /** Memory after the MPI library may have written the cells of `w`, with contents from `env`. */
  function Overlay(m: Memory, w: set<Addr>, env: Memory): (m': Memory)
    ensures forall a :: Peek(m', a) == if a in w then Peek(env, a) else Peek(m, a)
  {
    m + map a | a in w :: Peek(env, a)
  }

  /** The rank under study: its number and the number of ranks. Also what a communicator answers. */
  datatype Ident = Ident(rank: int, size: nat)

  datatype Call =
    | Irecv(posted: Posted, comm: Ident)
    | Recv(buf: Addr, count: int, extent: nat, comm: Ident)
    | Wait(request: Addr)
    | Waitall(requests: seq<Addr>)
    | Bcast(buf: Addr, count: int, extent: nat, root: int, comm: Ident)
    | Alltoall(buf: Addr, count: int, extent: nat, comm: Ident)
    | Alltoallv(buf: Addr, counts: seq<int>, extent: nat, comm: Ident)
    | Allreduce(buf: Addr, count: int, extent: nat, comm: Ident)
    | Reduce(buf: Addr, count: int, extent: nat, root: int, comm: Ident)
    | Outbound

  /** `total_recvcounts`: the counts of the first `n` ranks. */
  function Total(counts: seq<int>, n: nat): int {
    if n == 0 || counts == [] then 0 else counts[0] + Total(counts[1..], n - 1)
  }

  type Log = map<nat, seq<Val>>

  /**
   One side of the protocol: memory, pending receives, the file counter, and whether the run was ended by an
   error.
   */
  datatype State = State(mem: Memory, pending: map<Addr, Posted>, cpt: nat, exited: bool)

  /** The cells a program may not look at: receive buffers before completion, request handles and statuses. */
  function Hidden(pending: map<Addr, Posted>, unread: set<Addr>): set<Addr> {
    unread + set r, a | r in pending && a in BufferOf(pending[r]) :: a
  }

  // ---- Capture ----

  /** File `k` once `data` is written from its start: opening it does not cut it, so a longer file keeps its tail. */
  function Written(log: Log, k: nat, data: seq<Val>): (file: seq<Val>)
    ensures |data| <= |file| && file[..|data|] == data
  {
    if k in log && |log[k]| > |data| then data + log[k][|data|..] else data
  }

  /** `write_in_file`: the contents of the buffer are written to the next numbered file. */
  function WriteInFile(s: State, log: Log, buf: Addr, n: nat): (State, Log) {
    (s.(cpt := s.cpt + 1), log[s.cpt := Written(log, s.cpt, Load(s.mem, buf, n))])
  }

  /** The PMPI call may write its own receive buffer, every pending one, handles and statuses. */
  function Arrives(s: State, direct: set<Addr>, unread: set<Addr>, env: Memory): State {
    s.(mem := Overlay(s.mem, direct + Hidden(s.pending, unread), env))
  }

  function CaptureOne(s: State, log: Log, request: Addr): (State, Log) {
    if request in s.pending then
      var p := s.pending[request];
      var (s', log') := WriteInFile(s, log, p.buffer, Cells(p.bufsize, p.extent));
      (s'.(pending := s'.pending - {request}), log')
    else (s, log)
  }

  function CaptureAll(s: State, log: Log, requests: seq<Addr>): (State, Log)
    decreases |requests|
  {
    if requests == [] then (s, log)
    else
      var (s', log') := CaptureOne(s, log, requests[0]);
      CaptureAll(s', log', requests[1..])
  }

  /** A blocking call that fills `buf`, and logs it when `logged` holds. */
  function CaptureFilled(s: State, log: Log, buf: Addr, n: nat, filled: bool, logged: bool, unread: set<Addr>,
      env: Memory): (State, Log) {
    var s1 := Arrives(s, if filled then Region(buf, n) else {}, unread, env);
    if logged then WriteInFile(s1, log, buf, n) else (s1, log)
  }

  function CaptureCall(me: Ident, s: State, log: Log, call: Call, unread: set<Addr>, env: Memory): (State, Log) {
    match call
    case Irecv(p, comm) =>
      if comm.rank == me.rank && p.request in s.pending then (s.(exited := true), log)
      else (Arrives(if comm.rank == me.rank then s.(pending := s.pending[p.request := p]) else s, {}, unread, env), log)
    case Recv(buf, count, extent, comm) =>
      CaptureFilled(s, log, buf, Cells(count, extent), true, comm.rank == me.rank, unread, env)
    case Wait(request) => CaptureOne(Arrives(s, {}, unread, env), log, request)
    case Waitall(requests) => CaptureAll(Arrives(s, {}, unread, env), log, requests)
    case Bcast(buf, count, extent, root, comm) =>
      CaptureFilled(s, log, buf, Cells(count, extent), comm.rank != root,
        comm.rank == me.rank && comm.rank != root, unread, env)
    case Alltoall(buf, count, extent, comm) =>
      CaptureFilled(s, log, buf, Cells(count * comm.size, extent), true, comm.rank == me.rank, unread, env)
    case Alltoallv(buf, counts, extent, comm) =>
      CaptureFilled(s, log, buf, Cells(Total(counts, comm.size), extent), true, comm.rank == me.rank, unread, env)
    case Allreduce(buf, count, extent, comm) =>
      CaptureFilled(s, log, buf, Cells(count, extent), true, comm.rank == me.rank, unread, env)
    case Reduce(buf, count, extent, root, comm) =>
      CaptureFilled(s, log, buf, Cells(count, extent), comm.rank == root,
        comm.rank == me.rank && comm.rank == root, unread, env)
    case Outbound => (Arrives(s, {}, unread, env), log)
  }

  // ---- Replay ----

  function Min(a: nat, b: nat): nat {
    if a < b then a else b
  }

  /** `read_in_file`: the next numbered file goes into the buffer; a missing file ends the run. */
  function ReadInFile(s: State, log: Log, buf: Addr, n: nat): State {
    if s.cpt in log then
      s.(mem := Store(s.mem, buf, log[s.cpt][..Min(n, |log[s.cpt]|)]), cpt := s.cpt + 1)
    else s.(cpt := s.cpt + 1, exited := true)
  }

  function ReplayOne(s: State, log: Log, request: Addr): State {
    if request in s.pending then
      var p := s.pending[request];
      var s' := ReadInFile(s, log, p.buffer, Cells(p.bufsize, p.extent));
      if s'.exited then s' else s'.(pending := s'.pending - {request})
    else s
  }

  function ReplayAll(s: State, log: Log, requests: seq<Addr>): State
    decreases |requests|
  {
    if requests == [] || s.exited then s else ReplayAll(ReplayOne(s, log, requests[0]), log, requests[1..])
  }

  function ReplayCall(me: Ident, s: State, log: Log, call: Call): State {
    match call
    case Irecv(p, _) => if p.request in s.pending then s.(exited := true) else s.(pending := s.pending[p.request := p])
    case Recv(buf, count, extent, _) => ReadInFile(s, log, buf, Cells(count, extent))
    case Wait(request) => ReplayOne(s, log, request)
    case Waitall(requests) => ReplayAll(s, log, requests)
    case Bcast(buf, count, extent, root, _) =>
      if me.rank != root then ReadInFile(s, log, buf, Cells(count, extent)) else s
    case Alltoall(buf, count, extent, _) => ReadInFile(s, log, buf, Cells(count * me.size, extent))
    case Alltoallv(buf, counts, extent, _) => ReadInFile(s, log, buf, Cells(Total(counts, me.size), extent))
    case Allreduce(buf, count, extent, _) => ReadInFile(s, log, buf, Cells(count, extent))
    case Reduce(buf, count, extent, root, _) =>
      if me.rank == root then ReadInFile(s, log, buf, Cells(count, extent)) else s
    case Outbound => s
  }

  // ---- Lockstep ----

  ghost predicate Agree(m: Memory, m': Memory, hidden: set<Addr>) {
    forall a :: a !in hidden ==> Peek(m, a) == Peek(m', a)
  }

  /** The captured state `c` and the replayed state `r` at the same point. */
  ghost predicate Same(c: State, r: State, unread: set<Addr>) {
    && c.pending == r.pending && c.cpt == r.cpt && c.exited == r.exited
    && Agree(c.mem, r.mem, Hidden(c.pending, unread))
  }

  /** `later` still has every file below `cpt`. */
  ghost predicate Extends(log: Log, cpt: nat, later: Log) {
    forall k :: 0 <= k < cpt ==> k in log && k in later && log[k] == later[k]
  }

  lemma HiddenWithout(pending: map<Addr, Posted>, unread: set<Addr>, request: Addr, a: Addr)
    requires request in pending && a in Hidden(pending, unread) && a !in BufferOf(pending[request])
    ensures a in Hidden(pending - {request}, unread)
  {
    if a !in unread {
      var r :| r in pending && a in BufferOf(pending[r]);
      assert r in pending - {request} && (pending - {request})[r] == pending[r];
    }
  }

  /** Writing a file and reading it back keeps the two sides together, and reveals the buffer. */
  lemma FileCarries(c: State, r: State, log: Log, later: Log, buf: Addr, n: nat, hidden: set<Addr>)
    requires Agree(c.mem, r.mem, hidden) && c.cpt == r.cpt
    requires var (c', log') := WriteInFile(c, log, buf, n); Extends(log', c'.cpt, later)
    ensures var r' := ReadInFile(r, later, buf, n);
      && r'.cpt == c.cpt + 1 && r'.exited == r.exited && r'.pending == r.pending
      && Agree(c.mem, r'.mem, hidden - Region(buf, n))
  {
    var (c', log') := WriteInFile(c, log, buf, n);
    var file := later[c.cpt];
    assert c.cpt in later && file == log'[c.cpt] == Written(log, c.cpt, Load(c.mem, buf, n));
    assert file[..Min(n, |file|)] == Load(c.mem, buf, n);
  }

  /** The counter only grows, and files already written stay. */
  ghost predicate KeepsFiles(s: State, log: Log, s': State, log': Log) {
    s'.cpt >= s.cpt && Extends(log, s.cpt, log') && Extends(log', s'.cpt, log')
  }

  lemma OneKeepsFiles(s: State, log: Log, request: Addr)
    requires Extends(log, s.cpt, log)
    ensures var (s', log') := CaptureOne(s, log, request);
      KeepsFiles(s, log, s', log') && s'.mem == s.mem && s'.exited == s.exited
  {
  }

  lemma {:induction false} AllKeepsFiles(s: State, log: Log, requests: seq<Addr>)
    requires Extends(log, s.cpt, log)
    ensures var (s', log') := CaptureAll(s, log, requests); KeepsFiles(s, log, s', log') && s'.exited == s.exited
    decreases |requests|
  {
    if requests != [] {
      OneKeepsFiles(s, log, requests[0]);
      var (s1, log1) := CaptureOne(s, log, requests[0]);
      AllKeepsFiles(s1, log1, requests[1..]);
    }
  }

  lemma OneInStep(c: State, r: State, log: Log, later: Log, request: Addr, unread: set<Addr>)
    requires Same(c, r, unread) && !c.exited && Extends(log, c.cpt, log)
    requires var (c', log') := CaptureOne(c, log, request); Extends(log', c'.cpt, later)
    ensures Same(CaptureOne(c, log, request).0, ReplayOne(r, later, request), unread)
  {
    if request in c.pending {
      var p := c.pending[request];
      FileCarries(c, r, log, later, p.buffer, Cells(p.bufsize, p.extent), Hidden(c.pending, unread));
      var r' := ReplayOne(r, later, request);
      forall a | a !in Hidden(c.pending - {request}, unread)
        ensures Peek(c.mem, a) == Peek(r'.mem, a)
      {
        if a in Hidden(c.pending, unread) && a !in BufferOf(p) { HiddenWithout(c.pending, unread, request, a); }
      }
    }
  }

  lemma {:induction false} AllInStep(c: State, r: State, log: Log, later: Log, requests: seq<Addr>, unread: set<Addr>)
    requires Same(c, r, unread) && !c.exited && Extends(log, c.cpt, log)
    requires var (c', log') := CaptureAll(c, log, requests); Extends(log', c'.cpt, later)
    ensures Same(CaptureAll(c, log, requests).0, ReplayAll(r, later, requests), unread)
    decreases |requests|
  {
    if requests != [] {
      var (c1, log1) := CaptureOne(c, log, requests[0]);
      OneKeepsFiles(c, log, requests[0]);
      AllKeepsFiles(c1, log1, requests[1..]);
      OneInStep(c, r, log, later, requests[0], unread);
      AllInStep(c1, ReplayOne(r, later, requests[0]), log1, later, requests[1..], unread);
    }
  }

  lemma CallKeepsFiles(me: Ident, s: State, log: Log, call: Call, unread: set<Addr>, env: Memory)
    requires Extends(log, s.cpt, log)
    ensures var (s', log') := CaptureCall(me, s, log, call, unread, env); KeepsFiles(s, log, s', log')
  {
    hide Extends, CaptureOne, CaptureAll, CaptureFilled, WriteInFile, Overlay, Hidden, Cells;
    var s1 := Arrives(s, {}, unread, env);
    WriteKeepsFiles(s1, log, 0, 0);
    match call
    case Irecv(_, _) =>
    case Recv(buf, count, extent, comm) =>
      FilledKeepsFiles(s, log, buf, Cells(count, extent), true, comm.rank == me.rank, unread, env);
    case Wait(request) => OneKeepsFiles(s1, log, request);
    case Waitall(requests) => AllKeepsFiles(s1, log, requests);
    case Bcast(buf, count, extent, root, comm) =>
      FilledKeepsFiles(s, log, buf, Cells(count, extent), comm.rank != root,
        comm.rank == me.rank && comm.rank != root, unread, env);
    case Alltoall(buf, count, extent, comm) =>
      FilledKeepsFiles(s, log, buf, Cells(count * comm.size, extent), true, comm.rank == me.rank, unread, env);
    case Alltoallv(buf, counts, extent, comm) =>
      FilledKeepsFiles(s, log, buf, Cells(Total(counts, comm.size), extent), true, comm.rank == me.rank, unread, env);
    case Allreduce(buf, count, extent, comm) =>
      FilledKeepsFiles(s, log, buf, Cells(count, extent), true, comm.rank == me.rank, unread, env);
    case Reduce(buf, count, extent, root, comm) =>
      FilledKeepsFiles(s, log, buf, Cells(count, extent), comm.rank == root,
        comm.rank == me.rank && comm.rank == root, unread, env);
    case Outbound =>
  }

  lemma FilledKeepsFiles(s: State, log: Log, buf: Addr, n: nat, filled: bool, logged: bool, unread: set<Addr>,
      env: Memory)
    requires Extends(log, s.cpt, log)
    ensures var (s', log') := CaptureFilled(s, log, buf, n, filled, logged, unread, env); KeepsFiles(s, log, s', log')
  {
    hide Overlay, Hidden;
    WriteKeepsFiles(Arrives(s, if filled then Region(buf, n) else {}, unread, env), log, buf, n);
  }

  lemma WriteKeepsFiles(s: State, log: Log, buf: Addr, n: nat)
    requires Extends(log, s.cpt, log)
    ensures KeepsFiles(s, log, s, log)
    ensures KeepsFiles(s, log, WriteInFile(s, log, buf, n).0, WriteInFile(s, log, buf, n).1)
  {
  }

  /** The communicator of a call answers like the world: same rank, same number of ranks. */
  predicate WorldLike(me: Ident, call: Call) {
    (!call.Wait? && !call.Waitall? && !call.Outbound?) ==> call.comm == me
  }

  lemma ArrivesInStep(c: State, r: State, direct: set<Addr>, unread: set<Addr>, env: Memory)
    requires Same(c, r, unread)
    ensures var c' := Arrives(c, direct, unread, env);
      && c'.pending == r.pending && c'.cpt == r.cpt && c'.exited == r.exited
      && Agree(c'.mem, r.mem, direct + Hidden(c.pending, unread))
  {
  }

  /** A blocking receive: the captured buffer, whatever the peers sent, is what the replayed rank reads. */
  lemma FilledInStep(c: State, r: State, log: Log, later: Log, buf: Addr, n: nat, unread: set<Addr>, env: Memory)
    requires Same(c, r, unread) && Extends(log, c.cpt, log)
    requires var (c', log') := CaptureFilled(c, log, buf, n, true, true, unread, env); Extends(log', c'.cpt, later)
    ensures Same(CaptureFilled(c, log, buf, n, true, true, unread, env).0, ReadInFile(r, later, buf, n), unread)
  {
    var direct := Region(buf, n);
    ArrivesInStep(c, r, direct, unread, env);
    FileCarries(Arrives(c, direct, unread, env), r, log, later, buf, n, direct + Hidden(c.pending, unread));
  }

  /**
   One call keeps the two sides together: same files, same pending receives, same errors, and the
   same memory outside what is still hidden. No replayed call runs out of files.
   */
  lemma CallInStep(me: Ident, c: State, r: State, log: Log, later: Log, call: Call, unread: set<Addr>, env: Memory)
    requires Same(c, r, unread) && !c.exited && Extends(log, c.cpt, log) && WorldLike(me, call)
    requires var (c', log') := CaptureCall(me, c, log, call, unread, env); Extends(log', c'.cpt, later)
    ensures Same(CaptureCall(me, c, log, call, unread, env).0, ReplayCall(me, r, later, call), unread)
  {
    hide Extends, Agree, Hidden, WriteInFile, ReadInFile, CaptureOne, CaptureAll, ReplayOne, ReplayAll, CaptureFilled;
    match call
    case Irecv(p, _) => if p.request !in c.pending { IrecvInStep(c, r, p, unread, env); }
    case Wait(request) =>
      QuietInStep(c, r, unread, env);
      OneInStep(Arrives(c, {}, unread, env), r, log, later, request, unread);
    case Waitall(requests) =>
      QuietInStep(c, r, unread, env);
      AllInStep(Arrives(c, {}, unread, env), r, log, later, requests, unread);
    case Outbound => QuietInStep(c, r, unread, env);
    case Recv(buf, count, extent, _) => FilledInStep(c, r, log, later, buf, Cells(count, extent), unread, env);
    case Alltoall(buf, count, extent, _) =>
      FilledInStep(c, r, log, later, buf, Cells(count * me.size, extent), unread, env);
    case Alltoallv(buf, counts, extent, _) =>
      FilledInStep(c, r, log, later, buf, Cells(Total(counts, me.size), extent), unread, env);
    case Allreduce(buf, count, extent, _) => FilledInStep(c, r, log, later, buf, Cells(count, extent), unread, env);
    case Bcast(buf, count, extent, root, _) =>
      if me.rank != root {
        FilledInStep(c, r, log, later, buf, Cells(count, extent), unread, env);
      } else {
        UnfilledInStep(c, r, log, buf, Cells(count, extent), unread, env);
      }
    case Reduce(buf, count, extent, root, _) =>
      if me.rank == root {
        FilledInStep(c, r, log, later, buf, Cells(count, extent), unread, env);
      } else {
        UnfilledInStep(c, r, log, buf, Cells(count, extent), unread, env);
      }
  }

  lemma QuietInStep(c: State, r: State, unread: set<Addr>, env: Memory)
    requires Same(c, r, unread)
    ensures Same(Arrives(c, {}, unread, env), r, unread)
  {
    ArrivesInStep(c, r, {}, unread, env);
  }

  lemma UnfilledInStep(c: State, r: State, log: Log, buf: Addr, n: nat, unread: set<Addr>, env: Memory)
    requires Same(c, r, unread)
    ensures Same(CaptureFilled(c, log, buf, n, false, false, unread, env).0, r, unread)
  {
    ArrivesInStep(c, r, {}, unread, env);
  }

  lemma IrecvInStep(c: State, r: State, p: Posted, unread: set<Addr>, env: Memory)
    requires Same(c, r, unread) && p.request !in c.pending
    ensures Same(Arrives(c.(pending := c.pending[p.request := p]), {}, unread, env),
      r.(pending := r.pending[p.request := p]), unread)
  {
    forall a | a in Hidden(c.pending, unread)
      ensures a in Hidden(c.pending[p.request := p], unread)
    {
      if a !in unread {
        var q :| q in c.pending && a in BufferOf(c.pending[q]);
        assert c.pending[p.request := p][q] == c.pending[q];
      }
    }
  }

  // ---- Whole runs ----

  /** What a program does next: compute, then make a call and go on in another control state, or stop. */
  datatype Action = Done | Issue(mem: Memory, call: Call, ctl: int)

  /** A deterministic rank: its next action is a function of its control state and its memory. */
  type Program = (int, Memory) -> Action

  datatype Run = Run(ctl: int, st: State, done: bool)

  function CaptureStep(me: Ident, prog: Program, run: Run, log: Log, unread: set<Addr>, env: Memory): (Run, Log) {
    if run.done || run.st.exited then (run, log)
    else
      match prog(run.ctl, run.st.mem)
      case Done => (run.(done := true), log)
      case Issue(mem, call, ctl) =>
        var (s', log') := CaptureCall(me, run.st.(mem := mem), log, call, unread, env);
        (Run(ctl, s', false), log')
  }

  function ReplayStep(me: Ident, prog: Program, run: Run, log: Log): Run {
    if run.done || run.st.exited then run
    else
      match prog(run.ctl, run.st.mem)
      case Done => run.(done := true)
      case Issue(mem, call, ctl) => Run(ctl, ReplayCall(me, run.st.(mem := mem), log, call), false)
  }

  /**
   A captured execution: the rank, its program and start, whatever is left in the log directory, the
   cells that hold request handles and statuses, and what the peers deliver around each call.
   */
  datatype Capture = Capture(me: Ident, prog: Program, ctl: int, mem: Memory, stale: Log, unread: set<Addr>,
    env: nat -> Memory)

  datatype Logged = Logged(run: Run, log: Log)

  /** The captured run after `n` calls. */
  function Captured(x: Capture, n: nat): Logged {
    if n == 0 then Logged(Run(x.ctl, State(x.mem, map[], 0, false), false), x.stale)
    else
      var l := Captured(x, n - 1);
      var (run, log) := CaptureStep(x.me, x.prog, l.run, l.log, x.unread, x.env(n - 1));
      Logged(run, log)
  }

  /** The replayed run after `n` calls. */
  function Replayed(x: Capture, log: Log, n: nat): Run {
    if n == 0 then Run(x.ctl, State(x.mem, map[], 0, false), false)
    else ReplayStep(x.me, x.prog, Replayed(x, log, n - 1), log)
  }

  /**
   At this point of the captured run the program keeps the rules: what it does does not depend on
   hidden cells, it writes the visible ones the same way, and its call is on the world.
   */
  ghost predicate Obeys(me: Ident, prog: Program, run: Run, unread: set<Addr>) {
    forall m :: Agree(run.st.mem, m, Hidden(run.st.pending, unread)) ==>
      SameAction(me, prog(run.ctl, run.st.mem), prog(run.ctl, m), Hidden(run.st.pending, unread))
  }

  ghost predicate SameAction(me: Ident, a: Action, b: Action, hidden: set<Addr>) {
    && a.Done? == b.Done?
    && (a.Issue? ==> a.call == b.call && a.ctl == b.ctl && Agree(a.mem, b.mem, hidden) && WorldLike(me, a.call))
  }

  ghost predicate SameRun(c: Run, r: Run, unread: set<Addr>) {
    c.ctl == r.ctl && c.done == r.done && Same(c.st, r.st, unread)
  }

  lemma StepKeepsFiles(me: Ident, prog: Program, run: Run, log: Log, unread: set<Addr>, env: Memory)
    requires Extends(log, run.st.cpt, log)
    ensures var (run', log') := CaptureStep(me, prog, run, log, unread, env); KeepsFiles(run.st, log, run'.st, log')
  {
    hide Extends, CaptureCall;
    WriteKeepsFiles(run.st, log, 0, 0);
    if !run.done && !run.st.exited && prog(run.ctl, run.st.mem).Issue? {
      var a := prog(run.ctl, run.st.mem);
      CallKeepsFiles(me, run.st.(mem := a.mem), log, a.call, unread, env);
    }
  }

  lemma KeepsFilesTrans(a: State, la: Log, b: State, lb: Log, c: State, lc: Log)
    requires KeepsFiles(a, la, b, lb) && KeepsFiles(b, lb, c, lc)
    ensures KeepsFiles(a, la, c, lc)
  {
  }

  lemma {:induction false} CapturedKeepsFiles(x: Capture, n: nat, later: nat)
    requires n <= later
    ensures var l, m := Captured(x, n), Captured(x, later); KeepsFiles(l.run.st, l.log, m.run.st, m.log)
    ensures Extends(Captured(x, n).log, Captured(x, n).run.st.cpt, Captured(x, n).log)
    decreases later
  {
    hide CaptureStep;
    if later == 0 {
    } else if n == later {
      CapturedKeepsFiles(x, n - 1, n - 1);
      var l := Captured(x, n - 1);
      StepKeepsFiles(x.me, x.prog, l.run, l.log, x.unread, x.env(n - 1));
    } else {
      CapturedKeepsFiles(x, n, later - 1);
      CapturedKeepsFiles(x, later - 1, later - 1);
      var l, m := Captured(x, n), Captured(x, later - 1);
      StepKeepsFiles(x.me, x.prog, m.run, m.log, x.unread, x.env(later - 1));
      KeepsFilesTrans(l.run.st, l.log, m.run.st, m.log, Captured(x, later).run.st, Captured(x, later).log);
    }
  }

  /**
   Replay simulates capture in lockstep: for every program that keeps the rules of MPI on the captured
   run, every behaviour of the peers and every leftover log, the replay of the complete log of
   `total` calls is after each of them in the same control state with the same pending receives, the
   same file counter and the same visible memory, and never misses a file.
   */
  lemma {:induction false} Lockstep(x: Capture, n: nat, total: nat)
    requires n <= total
    requires forall k: nat :: k < total ==> Obeys(x.me, x.prog, Captured(x, k).run, x.unread)
    ensures SameRun(Captured(x, n).run, Replayed(x, Captured(x, total).log, n), x.unread)
  {
    hide CaptureStep, ReplayStep, Extends, Agree, Obeys, Hidden;
    if n == 0 {
      SameStart(x);
    } else {
      Lockstep(x, n - 1, total);
      CapturedKeepsFiles(x, n - 1, n);
      CapturedKeepsFiles(x, n, total);
      var c, later := Captured(x, n - 1), Captured(x, total).log;
      StepInStep(x.me, x.prog, c.run, Replayed(x, later, n - 1), c.log, later, x.unread, x.env(n - 1));
    }
  }

  lemma SameStart(x: Capture)
    ensures forall log :: SameRun(Captured(x, 0).run, Replayed(x, log, 0), x.unread)
  {
  }

  lemma StepInStep(me: Ident, prog: Program, c: Run, r: Run, log: Log, later: Log, unread: set<Addr>, env: Memory)
    requires SameRun(c, r, unread) && Obeys(me, prog, c, unread) && Extends(log, c.st.cpt, log)
    requires var (c', log') := CaptureStep(me, prog, c, log, unread, env); Extends(log', c'.st.cpt, later)
    ensures SameRun(CaptureStep(me, prog, c, log, unread, env).0, ReplayStep(me, prog, r, later), unread)
  {
    hide Extends, Agree, Hidden, CaptureCall, ReplayCall;
    if !c.done && !c.st.exited {
      var a, b := prog(c.ctl, c.st.mem), prog(c.ctl, r.st.mem);
      assert SameAction(me, a, b, Hidden(c.st.pending, unread));
      if a.Issue? {
        CallInStep(me, c.st.(mem := a.mem), r.st.(mem := b.mem), log, later, a.call, unread, env);
      }
    }
  }

  // ---- Completion ----

  function Named(requests: seq<Addr>): set<Addr> {
    set r | r in requests
  }

  function Contents(m: Memory, p: Posted): seq<Val> {
    Load(m, p.buffer, Cells(p.bufsize, p.extent))
  }

  /**
   A wait on any list of requests writes one file for each pending receive it names, however often
   it names it, and none of them is pending afterwards.
   */
  lemma {:induction false} WaitCounts(s: State, log: Log, requests: seq<Addr>)
    ensures var s' := CaptureAll(s, log, requests).0;
      && s'.pending == s.pending - Named(requests) && s'.mem == s.mem
      && s'.cpt == s.cpt + |Named(requests) * s.pending.Keys|
    decreases |requests|
  {
    hide Load, Cells, Named;
    SplitNamed(requests);
    if requests != [] {
      var q, rest := requests[0], requests[1..];
      var (s1, log1) := CaptureOne(s, log, q);
      WaitCounts(s1, log1, rest);
      TakeOut(s.pending, q, Named(rest));
    }
  }

  lemma TakeOut(m: map<Addr, Posted>, q: Addr, rest: set<Addr>)
    ensures m - ({q} + rest) == (if q in m then m - {q} else m) - rest
    ensures |({q} + rest) * m.Keys| == if q in m then 1 + |rest * (m - {q}).Keys| else |rest * m.Keys|
  {
    if q in m {
      OneMore(rest, m.Keys, q);
      assert (m - {q}).Keys == m.Keys - {q};
    } else {
      assert ({q} + rest) * m.Keys == rest * m.Keys;
    }
  }

  lemma SplitNamed(requests: seq<Addr>)
    ensures requests == [] ==> Named(requests) == {}
    ensures requests != [] ==> Named(requests) == {requests[0]} + Named(requests[1..])
  {
  }

  /**
   The file that a wait writes for `requests[i]`, named there for the first time: one per pending receive
   named before it.
   */
  function FileOf(s: State, requests: seq<Addr>, i: nat): nat
    requires i <= |requests|
  {
    s.cpt + |Named(requests[..i]) * s.pending.Keys|
  }

  /** The buffer of a receive is written to the file of that receive, and earlier files are kept. */
  lemma {:induction false} WaitWrites(s: State, log: Log, requests: seq<Addr>, i: nat)
    requires Extends(log, s.cpt, log) && i < |requests| && requests[i] in s.pending && requests[i] !in requests[..i]
    ensures var (s', log') := CaptureAll(s, log, requests);
      var k := FileOf(s, requests, i);
      && Extends(log, s.cpt, log') && s.cpt <= k < s'.cpt
      && k in log' && log'[k] == Written(log, k, Contents(s.mem, s.pending[requests[i]]))
    decreases |requests|
  {
    hide Load, Cells, Named, CaptureOne, FileOf, Contents, Written;
    var (s1, log1) := CaptureOne(s, log, requests[0]);
    OneKeepsFiles(s, log, requests[0]);
    OneStep(s, log, requests[0]);
    AllKeepsFiles(s1, log1, requests[1..]);
    if i == 0 {
      FileOfFirst(s, requests);
    } else {
      FileOfNext(s, log, requests, i);
      WaitWrites(s1, log1, requests[1..], i - 1);
      SameFile(log, log1, FileOf(s, requests, i), Contents(s.mem, s.pending[requests[i]]));
    }
  }

  lemma SameFile(log: Log, log': Log, k: nat, data: seq<Val>)
    requires k in log <==> k in log'
    requires k in log ==> log[k] == log'[k]
    ensures Written(log, k, data) == Written(log', k, data)
  {
  }

  lemma FileOfFirst(s: State, requests: seq<Addr>)
    ensures FileOf(s, requests, 0) == s.cpt
  {
    assert Named(requests[..0]) == {};
  }

  lemma FileOfNext(s: State, log: Log, requests: seq<Addr>, i: nat)
    requires 0 < i < |requests| && requests[i] !in requests[..i]
    ensures requests[1..][i - 1] == requests[i] && requests[i] !in requests[1..][..i - 1] && requests[i] != requests[0]
    ensures FileOf(CaptureOne(s, log, requests[0]).0, requests[1..], i - 1) == FileOf(s, requests, i)
  {
    hide Named, CaptureOne, Contents, Written;
    var q, before := requests[0], requests[..i];
    OneStep(s, log, q);
    assert before[0] == q && before[1..] == requests[1..][..i - 1];
    SplitNamed(before);
    TakeOut(s.pending, q, Named(before[1..]));
    assert q in before;
  }

  lemma OneStep(s: State, log: Log, q: Addr)
    ensures var (s1, log1) := CaptureOne(s, log, q);
      && s1.pending == s.pending - {q} && s1.mem == s.mem
      && (q in s.pending ==>
        && s1.cpt == s.cpt + 1 && s.cpt in log1
        && log1[s.cpt] == Written(log, s.cpt, Contents(s.mem, s.pending[q])))
      && (q !in s.pending ==> s1.cpt == s.cpt && s.pending - {q} == s.pending && log1 == log)
      && forall k :: k != s.cpt ==> (k in log <==> k in log1) && (k in log ==> log[k] == log1[k])
  {
  }

  lemma OneMore(rest: set<Addr>, pending: set<Addr>, q: Addr)
    requires q in pending
    ensures |({q} + rest) * pending| == 1 + |rest * (pending - {q})|
  {
    assert ({q} + rest) * pending == {q} + rest * (pending - {q});
  }

  // ---- The C `MPI_Waitall` ----

  /** Whether a deletion under the hash of the first address meets the entry stored for the second. */
  type Meets = (Addr, Addr) -> bool

  /**
   `MPI_Waitall` at capture: each request is looked up by the value of its handle, but deleted under the
   hash of its address; a deletion that misses the entry ends the run.
   */
  function CaptureAllByHandle(s: State, log: Log, requests: seq<Addr>, handles: seq<Addr>, meets: Meets): (State, Log)
    requires |handles| == |requests|
    decreases |requests|
  {
    if requests == [] || s.exited then (s, log)
    else if handles[0] !in s.pending then CaptureAllByHandle(s, log, requests[1..], handles[1..], meets)
    else
      var p := s.pending[handles[0]];
      var (s1, log1) := WriteInFile(s, log, p.buffer, Cells(p.bufsize, p.extent));
      if meets(requests[0], handles[0]) then
        CaptureAllByHandle(s1.(pending := s1.pending - {handles[0]}), log1, requests[1..], handles[1..], meets)
      else (s1.(exited := true), log1)
  }

  /** `PMPI_Waitall` has set every handle to the null handle: none of the values is the address of a pending receive. */
  ghost predicate AllNull(s: State, handles: seq<Addr>) {
    forall i :: 0 <= i < |handles| ==> handles[i] !in s.pending
  }

  lemma {:induction false} HandleLogsNothing(s: State, log: Log, requests: seq<Addr>, handles: seq<Addr>, meets: Meets)
    requires |handles| == |requests| && AllNull(s, handles)
    ensures CaptureAllByHandle(s, log, requests, handles, meets) == (s, log)
    decreases |requests|
  {
    if requests != [] && !s.exited { HandleLogsNothing(s, log, requests[1..], handles[1..], meets); }
  }

  /** Replay looks requests up by address: its counter moves exactly when one of them is a pending receive. */
  lemma {:induction false} ReplayCounts(r: State, log: Log, requests: seq<Addr>)
    requires !r.exited
    ensures var r' := ReplayAll(r, log, requests);
      r'.cpt >= r.cpt && (r'.cpt == r.cpt <==> Named(requests) !! r.pending.Keys)
    decreases |requests|
  {
    hide Store, Cells;
    if requests != [] {
      var r1 := ReplayOne(r, log, requests[0]);
      if r1.exited {
        assert requests[0] in Named(requests) && requests[0] in r.pending.Keys;
      } else {
        ReplayCounts(r1, log, requests[1..]);
        SplitNamed(requests);
        if requests[0] in r.pending { assert requests[0] in Named(requests) && requests[0] in r.pending.Keys; }
      }
    }
  }

  /**
   So the C pair keeps the file counters together exactly when none of the requests is a pending
   receive: the capture logs nothing, the replay moves on by a file for each, whatever files there are.
   */
  lemma WaitallByHandle(c: State, log: Log, r: State, files: Log, requests: seq<Addr>, handles: seq<Addr>, meets: Meets)
    requires c.pending == r.pending && c.cpt == r.cpt && !r.exited
    requires |handles| == |requests| && AllNull(c, handles)
    ensures CaptureAllByHandle(c, log, requests, handles, meets).0.cpt == ReplayAll(r, files, requests).cpt
      <==> Named(requests) !! c.pending.Keys
  {
    HandleLogsNothing(c, log, requests, handles, meets);
    ReplayCounts(r, files, requests);
  }

  /** One receive, posted and waited for in C: nothing is logged, and the replay ends for lack of a file. */
  lemma WaitallLosesReceive(meets: Meets)
    ensures var p := Posted(100, 1, 200, 4);
      var s := State(map[], map[100 := p], 0, false);
      && CaptureAllByHandle(s, map[], [100], [0], meets) == (s, map[])
      && ReplayAll(s, map[], [100]) == s.(cpt := 1, exited := true)
  {
    var p := Posted(100, 1, 200, 4);
    var s := State(map[], map[100 := p], 0, false);
    HandleLogsNothing(s, map[], [100], [0], meets);
    assert [100][1..] == [];
    assert ReplayOne(s, map[], 100) == s.(cpt := 1, exited := true);
  }
}
