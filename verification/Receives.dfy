/**
 Posted receives over whole captured runs: each one that is waited for has one file, that of its first wait,
 and every file that a wait writes is the file of one receive.
 */
module Receives {
  import opened Numbers
  import opened Requests
  import opened Protocol
  import opened Runs

  /** What the program does after `k` calls. */
  function ActionAt(x: Capture, k: nat): Action {
    x.prog(Captured(x, k).run.ctl, Captured(x, k).run.st.mem)
  }

  predicate Calls(x: Capture, k: nat) {
    !Captured(x, k).run.done && !Captured(x, k).run.st.exited && ActionAt(x, k).Issue?
  }

  function PendingAt(x: Capture, k: nat): map<Addr, Posted> {
    Captured(x, k).run.st.pending
  }

  /** The requests that a call waits for. */
  function Waited(call: Call): seq<Addr> {
    match call
    case Wait(request) => [request]
    case Waitall(requests) => requests
    case _ => []
  }

  /** Call `k` is a wait that names the request at `a`. */
  predicate WaitsFor(x: Capture, k: nat, a: Addr) {
    Calls(x, k) && a in Waited(ActionAt(x, k).call)
  }

  /** Call `k` posts receive `p`, at an address where none is pending. */
  predicate Posts(x: Capture, k: nat, p: Posted) {
    && Calls(x, k) && ActionAt(x, k).call.Irecv? && ActionAt(x, k).call.posted == p
    && ActionAt(x, k).call.comm.rank == x.me.rank && p.request !in PendingAt(x, k)
  }

  /** The receive posted at `a` by call `i` is still pending before call `j`. */
  ghost predicate Held(x: Capture, i: nat, a: Addr, j: nat) {
    forall m :: i < m <= j ==> a in PendingAt(x, m)
  }

  /** The memory when a wait has returned. */
  function Completed(x: Capture, k: nat): Memory
    requires Calls(x, k)
  {
    Arrives(Captured(x, k).run.st.(mem := ActionAt(x, k).mem), {}, x.unread, x.env(k)).mem
  }

  function IndexOf(s: seq<Addr>, a: Addr): (i: nat)
    requires a in s
    ensures i < |s| && s[i] == a && a !in s[..i]
  {
    if s[0] == a then 0 else IndexOf(s[1..], a) + 1
  }

  /** The file that wait `k` writes for the receive pending at `a`. */
  function FileAt(x: Capture, k: nat, a: Addr): nat
    requires WaitsFor(x, k, a)
  {
    FileOf(Captured(x, k).run.st, Waited(ActionAt(x, k).call), IndexOf(Waited(ActionAt(x, k).call), a))
  }

  /** Wait `j` writes file `k` for receive `p`, which call `i` posted. */
  ghost predicate Logs(x: Capture, i: nat, p: Posted, j: nat, k: nat) {
    i < j && Posts(x, i, p) && Held(x, i, p.request, j) && WaitsFor(x, j, p.request) && k == FileAt(x, j, p.request)
  }

  // ---- One call ----

  /** A wait of either kind is the wait for a list. */
  lemma WaitIsWaitall(s: State, log: Log, request: Addr)
    ensures CaptureAll(s, log, [request]) == CaptureOne(s, log, request)
  {
    hide CaptureOne;
    var (s1, log1) := CaptureOne(s, log, request);
    assert [request][1..] == [];
    assert CaptureAll(s1, log1, []) == (s1, log1);
  }

  lemma NextIs(x: Capture, k: nat)
    requires Calls(x, k)
    ensures var l, a := Captured(x, k), ActionAt(x, k);
      var (s', log') := CaptureCall(x.me, l.run.st.(mem := a.mem), l.log, a.call, x.unread, x.env(k));
      Captured(x, k + 1).run.st == s' && Captured(x, k + 1).log == log'
  {
    hide CaptureCall;
  }

  lemma Stands(x: Capture, k: nat)
    requires !Calls(x, k)
    ensures Captured(x, k + 1).run.st == Captured(x, k).run.st && Captured(x, k + 1).log == Captured(x, k).log
  {
    hide CaptureCall;
  }

  lemma WaitStep(x: Capture, k: nat, a: Addr)
    requires WaitsFor(x, k, a)
    ensures var s := Captured(x, k).run.st.(mem := Completed(x, k));
      var (s', log') := CaptureAll(s, Captured(x, k).log, Waited(ActionAt(x, k).call));
      Captured(x, k + 1).run.st == s' && Captured(x, k + 1).log == log'
  {
    hide CaptureAll, CaptureOne, CaptureFilled, Overlay, Hidden;
    NextIs(x, k);
    var s := Captured(x, k).run.st.(mem := Completed(x, k));
    if ActionAt(x, k).call.Wait? { WaitIsWaitall(s, Captured(x, k).log, ActionAt(x, k).call.request); }
  }

  /** What one call does to a receive that is pending: only a wait for it ends that. */
  lemma PendingStep(x: Capture, k: nat, a: Addr)
    ensures a in PendingAt(x, k) && !WaitsFor(x, k, a) ==>
      a in PendingAt(x, k + 1) && PendingAt(x, k + 1)[a] == PendingAt(x, k)[a]
    ensures WaitsFor(x, k, a) ==> a !in PendingAt(x, k + 1)
    ensures a !in PendingAt(x, k) ==>
      (a in PendingAt(x, k + 1) <==> Calls(x, k) && Posts(x, k, PostedBy(x, k)) && PostedBy(x, k).request == a)
    ensures Calls(x, k) && Posts(x, k, PostedBy(x, k)) && PostedBy(x, k).request == a ==>
      a in PendingAt(x, k + 1) && PendingAt(x, k + 1)[a] == PostedBy(x, k)
  {
    hide CaptureCall, CaptureAll, Named;
    if Calls(x, k) {
      var call := ActionAt(x, k).call;
      if call.Wait? || call.Waitall? {
        if Waited(call) == [] { OtherCall(x, k); } else { WaitStep(x, k, Waited(call)[0]); }
        WaitCounts(Captured(x, k).run.st.(mem := Completed(x, k)), Captured(x, k).log, Waited(call));
        NamedIs(Waited(call), a);
      } else {
        OtherCall(x, k);
      }
    } else {
      Stands(x, k);
    }
  }

  function PostedBy(x: Capture, k: nat): Posted
    requires Calls(x, k)
  {
    if ActionAt(x, k).call.Irecv? then ActionAt(x, k).call.posted else Posted(0, 0, 0, 0)
  }

  lemma NamedIs(requests: seq<Addr>, a: Addr)
    ensures a in Named(requests) <==> a in requests
  {
  }

  lemma OtherCall(x: Capture, k: nat)
    requires Calls(x, k) && Waited(ActionAt(x, k).call) == []
    ensures PendingAt(x, k + 1) ==
      if Posts(x, k, PostedBy(x, k)) then PendingAt(x, k)[PostedBy(x, k).request := PostedBy(x, k)] else PendingAt(x, k)
  {
    hide Arrives, CaptureFilled, Cells, Region, Total, Captured, Waited;
    NextIs(x, k);
    OtherPending(x.me, Captured(x, k).run.st.(mem := ActionAt(x, k).mem), Captured(x, k).log, ActionAt(x, k).call,
      x.unread, x.env(k));
  }

  /** Only a posted receive changes what is pending. */
  lemma OtherPending(me: Ident, s: State, log: Log, call: Call, unread: set<Addr>, env: Memory)
    requires Waited(call) == []
    ensures CaptureCall(me, s, log, call, unread, env).0.pending ==
      if call.Irecv? && call.comm.rank == me.rank && call.posted.request !in s.pending
      then s.pending[call.posted.request := call.posted] else s.pending
  {
    hide Arrives, CaptureFilled, Cells, Region, Total;
    ArrivesKeepsPending(s, unread, env);
    match call
    case Irecv(p, _) => ArrivesKeepsPending(s.(pending := s.pending[p.request := p]), unread, env);
    case Waitall(_) =>
    case Outbound =>
    case Recv(buf, count, extent, comm) =>
      FilledKeepsPending(s, log, buf, Cells(count, extent), true, comm.rank == me.rank, unread, env);
    case Bcast(buf, count, extent, root, comm) =>
      FilledKeepsPending(s, log, buf, Cells(count, extent), comm.rank != root,
        comm.rank == me.rank && comm.rank != root, unread, env);
    case Alltoall(buf, count, extent, comm) =>
      FilledKeepsPending(s, log, buf, Cells(count * comm.size, extent), true, comm.rank == me.rank, unread, env);
    case Alltoallv(buf, counts, extent, comm) =>
      FilledKeepsPending(s, log, buf, Cells(Total(counts, comm.size), extent), true, comm.rank == me.rank, unread, env);
    case Allreduce(buf, count, extent, comm) =>
      FilledKeepsPending(s, log, buf, Cells(count, extent), true, comm.rank == me.rank, unread, env);
    case Reduce(buf, count, extent, root, comm) =>
      FilledKeepsPending(s, log, buf, Cells(count, extent), comm.rank == root,
        comm.rank == me.rank && comm.rank == root, unread, env);
  }

  // ---- Whole runs ----

  /** As long as no call waits for it, a posted receive stays pending as it was posted. */
  lemma {:induction false} StaysPending(x: Capture, i: nat, p: Posted, j: nat)
    requires i < j && Posts(x, i, p) && forall m :: i < m < j ==> !WaitsFor(x, m, p.request)
    ensures Held(x, i, p.request, j) && PendingAt(x, j)[p.request] == p
  {
    hide Captured, WaitsFor, Calls, PendingAt;
    PendingStep(x, j - 1, p.request);
    if i < j - 1 {
      StaysPending(x, i, p, j - 1);
    } else {
      assert PostedBy(x, i) == p;
    }
  }

  /** Only a receive that was posted is pending. */
  lemma {:induction false} PendingWasPosted(x: Capture, j: nat, a: Addr) returns (i: nat)
    requires a in PendingAt(x, j)
    ensures i < j && Posts(x, i, PendingAt(x, j)[a]) && PendingAt(x, j)[a].request == a && Held(x, i, a, j)
  {
    assert j > 0;
    hide Captured, WaitsFor, Calls, PendingAt;
    PendingStep(x, j - 1, a);
    if a in PendingAt(x, j - 1) {
      i := PendingWasPosted(x, j - 1, a);
    } else {
      i := j - 1;
    }
  }

  /** The first wait for a pending receive writes its buffer to the file named, and that file stays to the end. */
  lemma FileHolds(x: Capture, j: nat, a: Addr, n: nat)
    requires j < n && WaitsFor(x, j, a) && a in PendingAt(x, j)
    ensures var k, log := FileAt(x, j, a), Captured(x, n).log;
      && Captured(x, j).run.st.cpt <= k < Captured(x, j + 1).run.st.cpt
      && k in log && log[k] == Written(Captured(x, j).log, k, Contents(Completed(x, j), PendingAt(x, j)[a]))
  {
    hide CaptureAll, CaptureStep, Contents, Written, Named, Completed;
    CapturedKeepsFiles(x, j, j);
    CapturedKeepsFiles(x, j + 1, n);
    WaitStep(x, j, a);
    var s, requests := Captured(x, j).run.st.(mem := Completed(x, j)), Waited(ActionAt(x, j).call);
    WaitWrites(s, Captured(x, j).log, requests, IndexOf(requests, a));
  }

  /** Different receives that one wait completes have different files. */
  lemma FilesOfOneWait(x: Capture, j: nat, a: Addr, b: Addr)
    requires WaitsFor(x, j, a) && WaitsFor(x, j, b) && a in PendingAt(x, j) && b in PendingAt(x, j) && a != b
    ensures FileAt(x, j, a) != FileAt(x, j, b)
  {
    var requests := Waited(ActionAt(x, j).call);
    var m, n := IndexOf(requests, a), IndexOf(requests, b);
    var s := Captured(x, j).run.st;
    if m < n { FileLater(s, requests, m, n); } else { FileLater(s, requests, n, m); }
  }

  lemma FileLater(s: State, requests: seq<Addr>, m: nat, n: nat)
    requires m < n < |requests| && requests[m] in s.pending && requests[m] !in requests[..m]
    ensures FileOf(s, requests, m) < FileOf(s, requests, n)
  {
    var early, late := Named(requests[..m]) * s.pending.Keys, Named(requests[..n]) * s.pending.Keys;
    assert requests[..n][..m] == requests[..m] && requests[m] == requests[..n][m];
    assert requests[m] in late && requests[m] !in early;
    SmallerSet(early + {requests[m]}, late);
  }

  /**
   Every receive that is waited for has exactly one file: the one that its first wait writes, with the
   contents that its buffer has when that wait returns.
   */
  lemma OneFile(x: Capture, i: nat, p: Posted, j: nat, n: nat)
    requires i < j < n && Posts(x, i, p) && WaitsFor(x, j, p.request)
    requires forall m :: i < m < j ==> !WaitsFor(x, m, p.request)
    ensures forall j': nat, k: nat :: Logs(x, i, p, j', k) <==> j' == j && k == FileAt(x, j, p.request)
    ensures var k, log := FileAt(x, j, p.request), Captured(x, n).log;
      k in log && log[k] == Written(Captured(x, j).log, k, Contents(Completed(x, j), p))
  {
    hide Captured, WaitsFor, Calls, PendingAt, FileAt, Completed;
    StaysPending(x, i, p, j);
    FileHolds(x, j, p.request, n);
    forall j': nat, k: nat | Logs(x, i, p, j', k)
      ensures j' == j
    {
      EndsAtWait(x, i, p.request, j, j');
    }
  }

  lemma EndsAtWait(x: Capture, i: nat, a: Addr, j: nat, j': nat)
    requires i < j && WaitsFor(x, j, a) && Held(x, i, a, j')
    ensures j' <= j
  {
    hide Captured, WaitsFor, Calls, PendingAt;
    PendingStep(x, j, a);
  }

  lemma PostedOnce(x: Capture, i: nat, p: Posted, j: nat, i': nat, p': Posted)
    ensures Held(x, i, p.request, j) && i' <= j && p'.request == p.request && Posts(x, i', p') ==> i' <= i
  {
  }

  /** No file belongs to two receives, nor to two waits. */
  lemma OneReceive(x: Capture, i: nat, p: Posted, j: nat, i': nat, p': Posted, j': nat, k: nat)
    requires Logs(x, i, p, j, k) && Logs(x, i', p', j', k)
    ensures i == i' && p == p' && j == j'
  {
    hide Captured, WaitsFor, Calls, PendingAt, FileAt, Contents, Written;
    FileHolds(x, j, p.request, j + 1);
    FileHolds(x, j', p'.request, j' + 1);
    if j < j' { CounterGrows(x, j + 1, j'); }
    if j' < j { CounterGrows(x, j' + 1, j); }
    if p.request != p'.request { FilesOfOneWait(x, j, p.request, p'.request); }
    PostedOnce(x, i, p, j, i', p');
    PostedOnce(x, i', p', j, i, p);
  }

  lemma CounterGrows(x: Capture, j: nat, j': nat)
    requires j <= j'
    ensures Captured(x, j).run.st.cpt <= Captured(x, j').run.st.cpt
  {
    hide Captured, Extends;
    CapturedKeepsFiles(x, j, j');
  }

  /** Every file that a wait writes is the file of a receive. */
  lemma EveryFileOfWait(x: Capture, j: nat, k: nat) returns (i: nat, p: Posted)
    requires Calls(x, j) && Waited(ActionAt(x, j).call) != []
    requires Captured(x, j).run.st.cpt <= k < Captured(x, j + 1).run.st.cpt
    ensures Logs(x, i, p, j, k)
  {
    hide CaptureAll, CaptureStep, Completed, Posts, Held;
    var requests := Waited(ActionAt(x, j).call);
    var s := Captured(x, j).run.st;
    WaitStep(x, j, requests[0]);
    WaitCounts(s.(mem := Completed(x, j)), Captured(x, j).log, requests);
    assert requests[..|requests|] == requests;
    var m := FileReached(s, requests, |requests|, k);
    var a := requests[m];
    IndexFirst(requests, m);
    i := PendingWasPosted(x, j, a);
    p := PendingAt(x, j)[a];
  }

  lemma IndexFirst(requests: seq<Addr>, m: nat)
    requires m < |requests| && requests[m] !in requests[..m]
    ensures IndexOf(requests, requests[m]) == m
  {
    var i := IndexOf(requests, requests[m]);
    assert forall t :: 0 <= t < m ==> requests[..m][t] == requests[t];
    assert forall t :: 0 <= t < i ==> requests[..i][t] == requests[t];
  }

  /** The files of a list of requests follow each other without a gap. */
  lemma {:induction false} FileReached(s: State, requests: seq<Addr>, n: nat, k: nat) returns (m: nat)
    requires n <= |requests| && s.cpt <= k < FileOf(s, requests, n)
    ensures m < n && requests[m] in s.pending && requests[m] !in requests[..m] && FileOf(s, requests, m) == k
  {
    hide Named;
    FileOfFirst(s, requests);
    FileMore(s, requests, n - 1);
    if k < FileOf(s, requests, n - 1) { m := FileReached(s, requests, n - 1, k); } else { m := n - 1; }
  }

  lemma FileMore(s: State, requests: seq<Addr>, n: nat)
    requires n < |requests|
    ensures FileOf(s, requests, n + 1) ==
      FileOf(s, requests, n) + if requests[n] in s.pending && requests[n] !in requests[..n] then 1 else 0
  {
    var before, q := requests[..n], requests[n];
    assert requests[..n + 1] == before + [q];
    assert Named(requests[..n + 1]) == Named(before) + {q};
    if q in s.pending && q !in before {
      assert (Named(before) + {q}) * s.pending.Keys == Named(before) * s.pending.Keys + {q};
    } else {
      assert (Named(before) + {q}) * s.pending.Keys == Named(before) * s.pending.Keys;
    }
  }
}
