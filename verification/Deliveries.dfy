/**
 Which calls leave a file, and what is in it, said in terms of what MPI delivers to the rank: a call that
 fills a buffer of the rank leaves one file with that buffer, and no other call but a wait leaves any.
 */
module Deliveries {
  import opened Requests
  import opened Protocol
  import opened Runs

  /** What a call puts into a buffer of the rank by the time it returns: `n` cells from `buf` on, or nothing. */
  datatype Delivery = Nothing | Filled(buf: Addr, n: nat)

  function Elements(count: int, extent: nat): nat {
    if count > 0 then count * extent else 0
  }

  /** The counts of all ranks together. */
  function Sum(counts: seq<int>): int {
    if counts == [] then 0 else Sum(counts[..|counts| - 1]) + counts[|counts| - 1]
  }

  /** A broadcast fills nothing on its root, and a reduction only what its root holds. */
  function DeliveryOf(me: Ident, call: Call): Delivery {
    match call
    case Recv(buf, count, extent, _) => Filled(buf, Elements(count, extent))
    case Bcast(buf, count, extent, root, _) => if me.rank == root then Nothing else Filled(buf, Elements(count, extent))
    case Alltoall(buf, count, extent, _) => Filled(buf, Elements(me.size * count, extent))
    case Alltoallv(buf, counts, extent, _) =>
      Filled(buf, Elements(if me.size <= |counts| then Sum(counts[..me.size]) else Sum(counts), extent))
    case Allreduce(buf, count, extent, _) => Filled(buf, Elements(count, extent))
    case Reduce(buf, count, extent, root, _) =>
      if me.rank == root then Filled(buf, Elements(count, extent)) else Nothing
    case _ => Nothing
  }

  lemma {:induction false} SumFirst(counts: seq<int>)
    requires counts != []
    ensures Sum(counts) == counts[0] + Sum(counts[1..])
  {
    if |counts| > 1 {
      var front := counts[..|counts| - 1];
      SumFirst(front);
      assert front[1..] == counts[1..][..|counts| - 2];
    }
  }

  lemma {:induction false} TotalIsSum(counts: seq<int>, n: nat)
    ensures Total(counts, n) == if n <= |counts| then Sum(counts[..n]) else Sum(counts)
  {
    if n > 0 && counts != [] {
      TotalIsSum(counts[1..], n - 1);
      if n <= |counts| {
        SumFirst(counts[..n]);
        assert counts[..n][1..] == counts[1..][..n - 1];
      } else {
        SumFirst(counts);
      }
    }
  }

  /** The cells that the PMPI call itself fills are those of the delivery. */
  lemma DirectIsDelivery(me: Ident, call: Call, a: Addr)
    requires WorldLike(me, call)
    ensures a in DirectCells(call) <==>
      var d := DeliveryOf(me, call); d.Filled? && d.buf <= a < d.buf + d.n
  {
    if call.Alltoallv? { TotalIsSum(call.counts, me.size); }
  }

  // ---- Capture ----

  /** File `k` begins with the `n` cells from `buf` on, and is no longer than that unless it was before. */
  ghost predicate FileHoldsCells(log: Log, log': Log, k: nat, m: Memory, buf: Addr, n: nat) {
    && k in log' && n <= |log'[k]| && (forall i :: 0 <= i < n ==> log'[k][i] == Peek(m, buf + i))
    && (|log'[k]| > n ==> k in log && |log[k]| == |log'[k]| && log'[k][n..] == log[k][n..])
  }

  /** Exactly one file is written: the next one. */
  ghost predicate WritesOne(s: State, log: Log, s': State, log': Log, buf: Addr, n: nat) {
    && s'.cpt == s.cpt + 1 && FileHoldsCells(log, log', s.cpt, s'.mem, buf, n)
    && forall k :: k != s.cpt ==> (k in log' <==> k in log) && (k in log ==> log'[k] == log[k])
  }

  lemma WriteIsOne(s: State, log: Log, buf: Addr, n: nat)
    ensures var (s', log') := WriteInFile(s, log, buf, n); WritesOne(s, log, s', log', buf, n)
  {
    var data := Load(s.mem, buf, n);
    var file := Written(log, s.cpt, data);
    assert forall i :: 0 <= i < n ==> file[i] == file[..n][i] == data[i];
  }

  lemma FilledIsOne(s: State, log: Log, buf: Addr, n: nat, filled: bool, logged: bool, unread: set<Addr>, env: Memory)
    ensures var (s', log') := CaptureFilled(s, log, buf, n, filled, logged, unread, env);
      if logged then WritesOne(s, log, s', log', buf, n) else s'.cpt == s.cpt && log' == log
  {
    hide Overlay, Hidden;
    var s1 := Arrives(s, if filled then Region(buf, n) else {}, unread, env);
    WriteIsOne(s1, log, buf, n);
  }

  /** What a call of the captured rank leaves in the log. */
  lemma CaptureLogs(me: Ident, s: State, log: Log, call: Call, unread: set<Addr>, env: Memory)
    requires WorldLike(me, call) && !call.Wait? && !call.Waitall?
    ensures var (s', log') := CaptureCall(me, s, log, call, unread, env);
      var d := DeliveryOf(me, call);
      if d.Filled? then WritesOne(s, log, s', log', d.buf, d.n) else s'.cpt == s.cpt && log' == log
  {
    hide CaptureFilled, WritesOne, Overlay, Hidden, Region;
    match call
    case Irecv(_, _) =>
    case Outbound =>
    case Recv(buf, count, extent, _) => FilledIsOne(s, log, buf, Cells(count, extent), true, true, unread, env);
    case Bcast(buf, count, extent, root, _) =>
      FilledIsOne(s, log, buf, Cells(count, extent), me.rank != root, me.rank != root, unread, env);
    case Alltoall(buf, count, extent, _) =>
      FilledIsOne(s, log, buf, Cells(count * me.size, extent), true, true, unread, env);
    case Alltoallv(buf, counts, extent, _) =>
      TotalIsSum(counts, me.size);
      FilledIsOne(s, log, buf, Cells(Total(counts, me.size), extent), true, true, unread, env);
    case Allreduce(buf, count, extent, _) => FilledIsOne(s, log, buf, Cells(count, extent), true, true, unread, env);
    case Reduce(buf, count, extent, root, _) =>
      FilledIsOne(s, log, buf, Cells(count, extent), me.rank == root, me.rank == root, unread, env);
  }

  lemma FilledTouches(s: State, log: Log, buf: Addr, n: nat, filled: bool, logged: bool, unread: set<Addr>, env: Memory,
      a: Addr)
    requires a !in Hidden(s.pending, unread) && (filled ==> !(buf <= a < buf + n))
    ensures var s' := CaptureFilled(s, log, buf, n, filled, logged, unread, env).0;
      Peek(s'.mem, a) == Peek(s.mem, a) && s'.pending == s.pending
  {
    hide Hidden;
  }

  /** Outside the delivery, and what the program may not look at, memory is as it was. */
  lemma CaptureTouches(me: Ident, s: State, log: Log, call: Call, unread: set<Addr>, env: Memory, a: Addr)
    requires WorldLike(me, call) && !call.Wait? && !call.Waitall? && a !in Hidden(s.pending, unread)
    requires call.Irecv? ==> a !in BufferOf(call.posted)
    requires var d := DeliveryOf(me, call); d.Filled? ==> !(d.buf <= a < d.buf + d.n)
    ensures Peek(CaptureCall(me, s, log, call, unread, env).0.mem, a) == Peek(s.mem, a)
  {
    hide CaptureFilled, Overlay, BufferOf;
    match call
    case Irecv(p, _) => PostTouches(s, p, unread, a);
    case Outbound =>
    case Recv(buf, count, extent, _) => FilledTouches(s, log, buf, Cells(count, extent), true, true, unread, env, a);
    case Bcast(buf, count, extent, root, _) =>
      FilledTouches(s, log, buf, Cells(count, extent), me.rank != root, me.rank != root, unread, env, a);
    case Alltoall(buf, count, extent, _) =>
      FilledTouches(s, log, buf, Cells(count * me.size, extent), true, true, unread, env, a);
    case Alltoallv(buf, counts, extent, _) =>
      TotalIsSum(counts, me.size);
      FilledTouches(s, log, buf, Cells(Total(counts, me.size), extent), true, true, unread, env, a);
    case Allreduce(buf, count, extent, _) =>
      FilledTouches(s, log, buf, Cells(count, extent), true, true, unread, env, a);
    case Reduce(buf, count, extent, root, _) =>
      FilledTouches(s, log, buf, Cells(count, extent), me.rank == root, me.rank == root, unread, env, a);
  }

  lemma PostTouches(s: State, p: Posted, unread: set<Addr>, a: Addr)
    requires a !in Hidden(s.pending, unread) && a !in BufferOf(p)
    ensures a !in Hidden(s.pending[p.request := p], unread)
  {
    hide BufferOf;
  }

  // ---- Replay ----

  /** The next file fills the buffer as far as it goes, and nothing else changes; a missing file ends the run. */
  ghost predicate ReadsOne(r: State, log: Log, r': State, buf: Addr, n: nat) {
    && r'.cpt == r.cpt + 1 && r'.pending == r.pending
    && r'.exited == (r.exited || r.cpt !in log)
    && forall a: Addr :: Peek(r'.mem, a) == if FromFile(r, log, a, buf, n) then log[r.cpt][a - buf] else Peek(r.mem, a)
  }

  predicate FromFile(r: State, log: Log, a: Addr, buf: Addr, n: nat) {
    r.cpt in log && buf <= a < buf + n && a - buf < |log[r.cpt]|
  }

  lemma ReadIsOne(r: State, log: Log, buf: Addr, n: nat)
    ensures ReadsOne(r, log, ReadInFile(r, log, buf, n), buf, n)
  {
  }

  /** What a call of the replayed rank takes from the log. */
  lemma ReplayReads(me: Ident, r: State, log: Log, call: Call)
    requires !call.Wait? && !call.Waitall?
    ensures var r' := ReplayCall(me, r, log, call);
      var d := DeliveryOf(me, call);
      if d.Filled? then ReadsOne(r, log, r', d.buf, d.n) else r'.cpt == r.cpt && r'.mem == r.mem
  {
    hide ReadInFile, ReadsOne;
    match call
    case Irecv(_, _) =>
    case Outbound =>
    case Recv(buf, count, extent, _) => ReadIsOne(r, log, buf, Cells(count, extent));
    case Bcast(buf, count, extent, _, _) => ReadIsOne(r, log, buf, Cells(count, extent));
    case Alltoall(buf, count, extent, _) => ReadIsOne(r, log, buf, Cells(count * me.size, extent));
    case Alltoallv(buf, counts, extent, _) =>
      TotalIsSum(counts, me.size);
      ReadIsOne(r, log, buf, Cells(Total(counts, me.size), extent));
    case Allreduce(buf, count, extent, _) => ReadIsOne(r, log, buf, Cells(count, extent));
    case Reduce(buf, count, extent, _, _) => ReadIsOne(r, log, buf, Cells(count, extent));
  }

  /** What a wait logs for a pending receive: the cells that it was posted for. */
  lemma ReceivedCells(m: Memory, p: Posted)
    ensures |Contents(m, p)| == Elements(p.bufsize, p.extent)
    ensures forall i :: 0 <= i < Elements(p.bufsize, p.extent) ==> Contents(m, p)[i] == Peek(m, p.buffer + i)
  {
  }
}
