/**
 The wrapped MPI calls as the capture and the replay library implement them, over the request table,
 the file counter and the log. Every method computes the function of Protocol for its call.
 */
module Hooks {
  import opened Words
  import opened SlotSpec
  import opened HTable
  import opened Requests
  import opened Protocol

  /** `cell` is an address malloc may return: new, and with the top bit that all heap addresses share. */
  ghost predicate CanAllocate(requests: RequestTable, cell: Word)
    reads requests, requests.htab
  {
    && |requests.Pending()| < MaxElems(MAX_BITS)
    && cell !in requests.objects && cell <= ALL_ONES && TopBit(cell, WIDTH - 1) == requests.top
  }

  /**
   The capture library on the captured rank. The parameter `after` is memory as the PMPI call leaves it,
   which may differ from before in the cells that MPI lets it write.
   */
  class CaptureLib {
    const me: Ident
    const unread: set<Addr>
    const requests: RequestTable
    var cptWrite: nat
    var log: Log
    var mem: Memory
    var exited: bool

    ghost function AsState(): State
      reads `mem, `cptWrite, `exited, requests
    {
      State(mem, requests.Pending(), cptWrite, exited)
    }

    /** After `init_MPIre`: nothing pending, file number 0 next, whatever is left in the log directory. */
    constructor (ident: Ident, start: Memory, stale: Log, hidden: set<Addr>, hash: Addr -> Word, topBit: nat)
      requires 0 < topBit < WIDTH
      ensures requests.Valid() && fresh(requests) && fresh(requests.htab) && requests.htab.table == null
      ensures me == ident && unread == hidden && log == stale && AsState() == State(start, map[], 0, false)
      ensures requests.objects == map[] && requests.top == topBit
    {
      me, unread, log, mem, cptWrite, exited := ident, hidden, stale, start, 0, false;
      requests := new RequestTable(hash, topBit);
    }

    method WriteFile(buf: Addr, n: nat)
      modifies `cptWrite, `log
      ensures (AsState(), log) == WriteInFile(old(AsState()), old(log), buf, n)
    {
      log := log[cptWrite := Written(log, cptWrite, Load(mem, buf, n))];
      cptWrite := cptWrite + 1;
    }

    /** The part shared by `MPI_Wait` and `mpi_waitall_`: log a receive and forget it. */
    method LogRequest(request: Addr)
      requires requests.Valid()
      modifies `cptWrite, `log, requests, requests.htab, requests.htab.table
      ensures requests.Valid() && requests.htab.table == old(requests.htab.table)
      ensures (AsState(), log) == CaptureOne(old(AsState()), old(log), request)
      ensures requests.objects == old(requests.objects)
    {
      hide RequestTable.Valid, RequestTable.Pending;
      var e := requests.GetRequest(request);
      if e != {} {
        var p := requests.objects[e];
        WriteFile(p.buffer, Cells(p.bufsize, p.extent));
        var failed := requests.DelRequest(request, e);
      }
    }

    method Irecv(posted: Posted, comm: Ident, cell: Word, after: Memory, ghost env: Memory)
      requires requests.Valid() && CanAllocate(requests, cell)
      requires after == Arrives(
        if comm.rank == me.rank then AsState().(pending := AsState().pending[posted.request := posted]) else AsState(),
        {}, unread, env).mem
      modifies this, requests, requests.htab, requests.htab.table
      ensures requests.Valid() && (requests.htab.table == old(requests.htab.table) || fresh(requests.htab.table))
      ensures (AsState(), log) == CaptureCall(me, old(AsState()), old(log), Call.Irecv(posted, comm), unread, env)
      ensures requests.objects.Keys <= old(requests.objects).Keys + {cell}
    {
      hide RequestTable.Valid, RequestTable.Pending, Overlay, Hidden;
      if comm.rank == me.rank {
        var failed := requests.AddRequest(posted, cell, true);
        if failed {
          exited := true;
          return;
        }
      }
      mem := after;
    }

    /** A blocking call: PMPI first, then the buffer is logged if this rank received it. */
    method Filled(buf: Addr, n: nat, filled: bool, logged: bool, after: Memory, ghost env: Memory)
      requires after == Arrives(AsState(), if filled then Region(buf, n) else {}, unread, env).mem
      modifies `mem, `cptWrite, `log
      ensures (AsState(), log) == CaptureFilled(old(AsState()), old(log), buf, n, filled, logged, unread, env)
    {
      mem := after;
      if logged { WriteFile(buf, n); }
    }

    method Recv(buf: Addr, count: int, extent: nat, comm: Ident, after: Memory, ghost env: Memory)
      requires after == Arrives(AsState(), Region(buf, Cells(count, extent)), unread, env).mem
      modifies `mem, `cptWrite, `log
      ensures (AsState(), log) ==
        CaptureCall(me, old(AsState()), old(log), Call.Recv(buf, count, extent, comm), unread, env)
    {
      Filled(buf, Cells(count, extent), true, comm.rank == me.rank, after, env);
    }

    method Wait(request: Addr, after: Memory, ghost env: Memory)
      requires requests.Valid() && after == Arrives(AsState(), {}, unread, env).mem
      modifies this, requests, requests.htab, requests.htab.table
      ensures requests.Valid() && requests.htab.table == old(requests.htab.table)
      ensures (AsState(), log) == CaptureCall(me, old(AsState()), old(log), Call.Wait(request), unread, env)
      ensures requests.objects == old(requests.objects)
    {
      hide RequestTable.Valid, RequestTable.Pending, Overlay, Hidden, CaptureOne;
      mem := after;
      LogRequest(request);
    }

    /** `mpi_waitall_`, the Fortran entry point: requests are looked up by address. */
    method Waitall(reqs: seq<Addr>, after: Memory, ghost env: Memory)
      requires requests.Valid() && after == Arrives(AsState(), {}, unread, env).mem
      modifies this, requests, requests.htab, requests.htab.table
      ensures requests.Valid() && requests.htab.table == old(requests.htab.table)
      ensures (AsState(), log) == CaptureCall(me, old(AsState()), old(log), Call.Waitall(reqs), unread, env)
      ensures requests.objects == old(requests.objects)
    {
      hide RequestTable.Valid, RequestTable.Pending, Overlay, Hidden, CaptureOne;
      mem := after;
      ghost var s0, log0 := AsState(), log;
      var i := 0;
      while i < |reqs|
        invariant 0 <= i <= |reqs| && requests.Valid() && requests.htab.table == old(requests.htab.table)
        invariant requests.objects == old(requests.objects)
        invariant CaptureAll(AsState(), log, reqs[i..]) == CaptureAll(s0, log0, reqs)
      {
        assert reqs[i..][0] == reqs[i] && reqs[i..][1..] == reqs[i + 1..];
        LogRequest(reqs[i]);
        i := i + 1;
      }
    }

    method Bcast(buf: Addr, count: int, extent: nat, root: int, comm: Ident, after: Memory, ghost env: Memory)
      requires after ==
        Arrives(AsState(), if comm.rank != root then Region(buf, Cells(count, extent)) else {}, unread, env).mem
      modifies `mem, `cptWrite, `log
      ensures (AsState(), log) ==
        CaptureCall(me, old(AsState()), old(log), Call.Bcast(buf, count, extent, root, comm), unread, env)
    {
      Filled(buf, Cells(count, extent), comm.rank != root, comm.rank == me.rank && comm.rank != root, after, env);
    }

    method Alltoall(buf: Addr, count: int, extent: nat, comm: Ident, after: Memory, ghost env: Memory)
      requires after == Arrives(AsState(), Region(buf, Cells(count * comm.size, extent)), unread, env).mem
      modifies `mem, `cptWrite, `log
      ensures (AsState(), log) ==
        CaptureCall(me, old(AsState()), old(log), Call.Alltoall(buf, count, extent, comm), unread, env)
    {
      Filled(buf, Cells(count * comm.size, extent), true, comm.rank == me.rank, after, env);
    }

    method Alltoallv(buf: Addr, counts: seq<int>, extent: nat, comm: Ident, after: Memory, ghost env: Memory)
      requires comm.size <= |counts|
      requires after == Arrives(AsState(), Region(buf, Cells(Total(counts, comm.size), extent)), unread, env).mem
      modifies `mem, `cptWrite, `log
      ensures (AsState(), log) ==
        CaptureCall(me, old(AsState()), old(log), Call.Alltoallv(buf, counts, extent, comm), unread, env)
    {
      var total := SumCounts(counts, comm.size);
      Filled(buf, Cells(total, extent), true, comm.rank == me.rank, after, env);
    }

    method Allreduce(buf: Addr, count: int, extent: nat, comm: Ident, after: Memory, ghost env: Memory)
      requires after == Arrives(AsState(), Region(buf, Cells(count, extent)), unread, env).mem
      modifies `mem, `cptWrite, `log
      ensures (AsState(), log) ==
        CaptureCall(me, old(AsState()), old(log), Call.Allreduce(buf, count, extent, comm), unread, env)
    {
      Filled(buf, Cells(count, extent), true, comm.rank == me.rank, after, env);
    }

    method Reduce(buf: Addr, count: int, extent: nat, root: int, comm: Ident, after: Memory, ghost env: Memory)
      requires after ==
        Arrives(AsState(), if comm.rank == root then Region(buf, Cells(count, extent)) else {}, unread, env).mem
      modifies `mem, `cptWrite, `log
      ensures (AsState(), log) ==
        CaptureCall(me, old(AsState()), old(log), Call.Reduce(buf, count, extent, root, comm), unread, env)
    {
      Filled(buf, Cells(count, extent), comm.rank == root, comm.rank == me.rank && comm.rank == root, after, env);
    }
  }

  /** The loop that adds up the receive counts, the same in both libraries. */
  method SumCounts(counts: seq<int>, size: nat) returns (total: int)
    requires size <= |counts|
    ensures total == Total(counts, size)
  {
    total := 0;
    var i := 0;
    while i < size
      invariant 0 <= i <= size && total == Total(counts, i)
    {
      TotalNext(counts, i);
      total := total + counts[i];
      i := i + 1;
    }
  }

  lemma {:induction false} TotalNext(counts: seq<int>, i: nat)
    requires i < |counts|
    ensures Total(counts, i + 1) == Total(counts, i) + counts[i]
  {
    if i > 0 { TotalNext(counts[1..], i - 1); }
  }

  /** The replay library: the rank runs alone, and every inbound buffer comes from a file. */
  class ReplayLib {
    const me: Ident
    const log: Log
    const requests: RequestTable
    var cptRead: nat
    var mem: Memory
    var exited: bool

    ghost function AsState(): State
      reads `mem, `cptRead, `exited, requests
    {
      State(mem, requests.Pending(), cptRead, exited)
    }

    constructor (ident: Ident, start: Memory, files: Log, hash: Addr -> Word, topBit: nat)
      requires 0 < topBit < WIDTH
      ensures requests.Valid() && fresh(requests) && fresh(requests.htab) && requests.htab.table == null
      ensures me == ident && log == files && AsState() == State(start, map[], 0, false)
      ensures requests.objects == map[] && requests.top == topBit
    {
      me, log, mem, cptRead, exited := ident, files, start, 0, false;
      requests := new RequestTable(hash, topBit);
    }

    method ReadFile(buf: Addr, n: nat)
      modifies `cptRead, `mem, `exited
      ensures AsState() == ReadInFile(old(AsState()), log, buf, n)
    {
      var k := cptRead;
      cptRead := cptRead + 1;
      if k !in log {
        exited := true;
        return;
      }
      mem := Store(mem, buf, log[k][..Min(n, |log[k]|)]);
    }

    method ReadRequest(request: Addr)
      requires requests.Valid() && !exited
      modifies `cptRead, `mem, `exited, requests, requests.htab, requests.htab.table
      ensures requests.Valid() && requests.htab.table == old(requests.htab.table)
      ensures AsState() == ReplayOne(old(AsState()), log, request) && requests.objects == old(requests.objects)
    {
      hide RequestTable.Valid, RequestTable.Pending, Store;
      var e := requests.GetRequest(request);
      if e != {} {
        var p := requests.objects[e];
        ReadFile(p.buffer, Cells(p.bufsize, p.extent));
        if exited { return; }
        var failed := requests.DelRequest(request, e);
      }
    }

    method Irecv(posted: Posted, comm: Ident, cell: Word)
      requires requests.Valid() && CanAllocate(requests, cell)
      modifies `exited, requests, requests.htab, requests.htab.table
      ensures requests.Valid() && (requests.htab.table == old(requests.htab.table) || fresh(requests.htab.table))
      ensures AsState() == ReplayCall(me, old(AsState()), log, Call.Irecv(posted, comm))
      ensures requests.objects.Keys <= old(requests.objects).Keys + {cell}
    {
      hide RequestTable.Valid, RequestTable.Pending;
      var failed := requests.AddRequest(posted, cell, true);
      if failed { exited := true; }
    }

    method Recv(buf: Addr, count: int, extent: nat, comm: Ident)
      modifies `cptRead, `mem, `exited
      ensures AsState() == ReplayCall(me, old(AsState()), log, Call.Recv(buf, count, extent, comm))
    {
      ReadFile(buf, Cells(count, extent));
    }

    method Wait(request: Addr)
      requires requests.Valid() && !exited
      modifies this, requests, requests.htab, requests.htab.table
      ensures requests.Valid() && requests.htab.table == old(requests.htab.table)
      ensures AsState() == ReplayCall(me, old(AsState()), log, Call.Wait(request))
      ensures requests.objects == old(requests.objects)
    {
      ReadRequest(request);
    }

    method Waitall(reqs: seq<Addr>)
      requires requests.Valid() && !exited
      modifies this, requests, requests.htab, requests.htab.table
      ensures requests.Valid() && requests.htab.table == old(requests.htab.table)
      ensures AsState() == ReplayCall(me, old(AsState()), log, Call.Waitall(reqs))
      ensures requests.objects == old(requests.objects)
    {
      hide RequestTable.Valid, RequestTable.Pending, ReplayOne;
      var i := 0;
      while i < |reqs|
        invariant 0 <= i <= |reqs| && requests.Valid() && requests.htab.table == old(requests.htab.table) && !exited
        invariant requests.objects == old(requests.objects)
        invariant ReplayAll(AsState(), log, reqs[i..]) == ReplayAll(old(AsState()), log, reqs)
      {
        assert reqs[i..][0] == reqs[i] && reqs[i..][1..] == reqs[i + 1..];
        ReadRequest(reqs[i]);
        if exited { return; }
        i := i + 1;
      }
    }

    method Bcast(buf: Addr, count: int, extent: nat, root: int, comm: Ident)
      modifies `cptRead, `mem, `exited
      ensures AsState() == ReplayCall(me, old(AsState()), log, Call.Bcast(buf, count, extent, root, comm))
    {
      if me.rank != root { ReadFile(buf, Cells(count, extent)); }
    }

    method Alltoall(buf: Addr, count: int, extent: nat, comm: Ident)
      modifies `cptRead, `mem, `exited
      ensures AsState() == ReplayCall(me, old(AsState()), log, Call.Alltoall(buf, count, extent, comm))
    {
      ReadFile(buf, Cells(count * me.size, extent));
    }

    method Alltoallv(buf: Addr, counts: seq<int>, extent: nat, comm: Ident)
      requires me.size <= |counts|
      modifies `cptRead, `mem, `exited
      ensures AsState() == ReplayCall(me, old(AsState()), log, Call.Alltoallv(buf, counts, extent, comm))
    {
      var total := SumCounts(counts, me.size);
      ReadFile(buf, Cells(total, extent));
    }

    method Allreduce(buf: Addr, count: int, extent: nat, comm: Ident)
      modifies `cptRead, `mem, `exited
      ensures AsState() == ReplayCall(me, old(AsState()), log, Call.Allreduce(buf, count, extent, comm))
    {
      ReadFile(buf, Cells(count, extent));
    }

    method Reduce(buf: Addr, count: int, extent: nat, root: int, comm: Ident)
      modifies `cptRead, `mem, `exited
      ensures AsState() == ReplayCall(me, old(AsState()), log, Call.Reduce(buf, count, extent, root, comm))
    {
      if me.rank == root { ReadFile(buf, Cells(count, extent)); }
    }
  }
}
