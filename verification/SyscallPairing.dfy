/**
 * Tracing of connect and accept: the enter handler saves a call's arguments under
 * the thread id, the exit handler takes them back and reports the peer.  Handlers of
 * different threads interleave freely.
 */
module SyscallPairing {
  import opened Options
  import opened Sequences

  const SCRATCH_MAX: nat := 4096
  const AF_INET: nat := 2
  const EINPROGRESS := 115

  datatype Kind = Connect | Accept

  datatype Thread = Thread(pid: nat, tid: nat, cgroup: nat)

  /** The saved arguments; an address of 0 is NULL. */
  datatype Args = Args(fd: nat, addr: nat)

  /** An IPv4 socket address as it lies in memory; the port is still in network order. */
  datatype Sin = Sin(ip: nat, port: nat)

  /** What the two reads of a mapped socket address give; the second may still fail. */
  datatype Sock = Sock(family: nat, sin: Option<Sin>)

  datatype Peer = Peer(af: nat, ip: nat, port: nat)

  datatype Report = Report(kind: Kind, thread: Thread, ts: nat, nf: string, peer: Peer, ret: int)

  /**
   * `room` says whether a new entry can be had below the limit of
   * the map, `reserved` whether the ring buffer has space.
   */
  datatype Op =
    | Enter(kind: Kind, thread: Thread, fd: nat, addr: nat, room: bool)
    | Exit(kind: Kind, thread: Thread, ret: int, mem: map<nat, Sock>, ts: nat, reserved: bool)

  datatype State = State(connect: map<nat, Args>, accept: map<nat, Args>, events: seq<Report>)

  const EMPTY := State(map[], map[], [])
  const NO_PEER := Peer(0, 0, 0)

  // ----- what the handlers compute -----

  /** A register value cut to `int` and widened again. */
  function SavedFd(fd: nat): nat {
    var low := fd % 0x1_0000_0000;
    if low < 0x8000_0000 then low else low + 0xffff_ffff_0000_0000
  }

  function SavedArgs(fd: nat, addr: nat): Args {
    Args(SavedFd(fd), addr)
  }

  function ByteSwap16(v: nat): nat {
    v % 0x100 * 0x100 + v / 0x100 % 0x100
  }

  /** The peer at an address, if it is an IPv4 one; failed reads leave zeros. */
  function PeerAt(mem: map<nat, Sock>, addr: nat): Peer {
    if addr !in mem || mem[addr].family != AF_INET then NO_PEER
    else
      match mem[addr].sin
      case None => Peer(AF_INET, 0, 0)
      case Some(sin) => Peer(AF_INET, sin.ip, ByteSwap16(sin.port))
  }

  predicate Succeeded(kind: Kind, ret: int) {
    match kind
    case Connect => ret == 0 || ret == -EINPROGRESS
    case Accept => ret >= 0
  }

  /** The saved descriptor is the lower half of the register, with its sign. */
  lemma FdIsExtended(fd: nat)
    ensures SavedFd(fd) % 0x1_0000_0000 == fd % 0x1_0000_0000
    ensures SavedFd(fd) < 0x8000_0000 || 0xffff_ffff_8000_0000 <= SavedFd(fd) < 0x1_0000_0000_0000_0000
  {
  }

  /** A socket address in memory, its port in network order, is reported with the port as a number. */
  lemma PeerIsRead(mem: map<nat, Sock>, addr: nat)
    ensures PeerAt(mem, addr) ==
      if addr !in mem || mem[addr].family != 2 then Peer(0, 0, 0)
      else if mem[addr].sin.None? then Peer(2, 0, 0)
      else Peer(2, mem[addr].sin.value.ip, ByteSwap16(mem[addr].sin.value.port))
  {
  }

  lemma PortIsSwapped(hi: nat, lo: nat)
    requires hi < 256 && lo < 256
    ensures ByteSwap16(hi + 256 * lo) == 256 * hi + lo
  {
  }

  /** The event that an exit makes of saved arguments. */
  function Filled(op: Op, args: Args): Report
    requires op.Exit?
  {
    var peer := if op.kind.Accept? && args.addr == 0 then NO_PEER else PeerAt(op.mem, args.addr);
    Report(op.kind, op.thread, op.ts, "AMF", peer, op.ret)
  }

  function Emission(op: Op, args: Args): seq<Report>
    requires op.Exit?
  {
    if Succeeded(op.kind, op.ret) && op.reserved then [Filled(op, args)] else []
  }

  /** An existing entry is always replaced; a new one needs room. */
  function Save(m: map<nat, Args>, tid: nat, args: Args, room: bool): map<nat, Args> {
    if tid in m || (room && |m| < SCRATCH_MAX) then m[tid := args] else m
  }

  function Scratch(st: State, kind: Kind): map<nat, Args> {
    if kind.Connect? then st.connect else st.accept
  }

  function WithScratch(st: State, kind: Kind, m: map<nat, Args>): State {
    if kind.Connect? then st.(connect := m) else st.(accept := m)
  }

  /** Handlers act for one cgroup only, and for none while it is not set. */
  predicate Traced(cgroup: nat, thread: Thread) {
    cgroup != 0 && thread.cgroup == cgroup
  }

  function Step(cgroup: nat, st: State, op: Op): State {
    var m, tid := Scratch(st, op.kind), op.thread.tid;
    if !Traced(cgroup, op.thread) then st
    else if op.Enter? then WithScratch(st, op.kind, Save(m, tid, SavedArgs(op.fd, op.addr), op.room))
    else if tid !in m then st
    else WithScratch(st, op.kind, m - {tid}).(events := st.events + Emission(op, m[tid]))
  }

  // ----- the program -----

  class AmfTracer {
    var cgroup: nat
    var connectScratch: map<nat, Args>
    var acceptScratch: map<nat, Args>
    var events: seq<Report>

    ghost function Contents(): State
      reads this
    {
      State(connectScratch, acceptScratch, events)
    }

    constructor (cgroup: nat)
      ensures this.cgroup == cgroup && Contents() == EMPTY
    {
      this.cgroup := cgroup;
      connectScratch, acceptScratch, events := map[], map[], [];
    }

    predicate IsAmfCgroup(thread: Thread)
      reads this
    {
      if cgroup == 0 then false else thread.cgroup == cgroup
    }

    method TraceConnectEnter(thread: Thread, fd: nat, addr: nat, room: bool)
      modifies this`connectScratch
      ensures Contents() == Step(cgroup, old(Contents()), Enter(Connect, thread, fd, addr, room))
    {
      if !IsAmfCgroup(thread) {
        return;
      }
      connectScratch := Save(connectScratch, thread.tid, SavedArgs(fd, addr), room);
    }

    method TraceConnectExit(thread: Thread, ret: int, mem: map<nat, Sock>, ts: nat, reserved: bool)
      modifies this`connectScratch, this`events
      ensures Contents() == Step(cgroup, old(Contents()), Exit(Connect, thread, ret, mem, ts, reserved))
    {
      if !IsAmfCgroup(thread) || thread.tid !in connectScratch {
        return;
      }
      var a := connectScratch[thread.tid];
      connectScratch := connectScratch - {thread.tid};
      if ret != 0 && ret != -EINPROGRESS {
        return;
      }
      if !reserved {
        return;
      }
      var peer := PeerAt(mem, a.addr);
      events := events + [Report(Connect, thread, ts, "AMF", peer, ret)];
    }

    method TraceAcceptEnter(thread: Thread, fd: nat, addr: nat, room: bool)
      modifies this`acceptScratch
      ensures Contents() == Step(cgroup, old(Contents()), Enter(Accept, thread, fd, addr, room))
    {
      if !IsAmfCgroup(thread) {
        return;
      }
      acceptScratch := Save(acceptScratch, thread.tid, SavedArgs(fd, addr), room);
    }

    method TraceAcceptExit(thread: Thread, ret: int, mem: map<nat, Sock>, ts: nat, reserved: bool)
      modifies this`acceptScratch, this`events
      ensures Contents() == Step(cgroup, old(Contents()), Exit(Accept, thread, ret, mem, ts, reserved))
    {
      if !IsAmfCgroup(thread) || thread.tid !in acceptScratch {
        return;
      }
      var a := acceptScratch[thread.tid];
      acceptScratch := acceptScratch - {thread.tid};
      if ret < 0 {
        return;
      }
      if !reserved {
        return;
      }
      var peer := NO_PEER;
      if a.addr != 0 {
        peer := PeerAt(mem, a.addr);
      }
      events := events + [Report(Accept, thread, ts, "AMF", peer, ret)];
    }
  }

  // ----- runs -----

  /** Any interleaving of the threads' handlers. */
  function Run(cgroup: nat, ops: seq<Op>): State {
    if ops == [] then EMPTY else Step(cgroup, Run(cgroup, Init(ops)), Last(ops))
  }

  /** The operation is one of this kind by this thread, and traced. */
  predicate Touches(cgroup: nat, op: Op, kind: Kind, tid: nat) {
    Traced(cgroup, op.thread) && op.kind == kind && op.thread.tid == tid
  }

  /** Calls that were entered and not yet left, with their arguments: the scratch map if it had no limit. */
  function Open(cgroup: nat, ops: seq<Op>, kind: Kind): map<nat, Args> {
    if ops == [] then map[]
    else
      var m, op := Open(cgroup, Init(ops), kind), Last(ops);
      if !Touches(cgroup, op, kind, op.thread.tid) then m
      else if op.Enter? then m[op.thread.tid := SavedArgs(op.fd, op.addr)]
      else m - {op.thread.tid}
  }

  predicate IsEnter(cgroup: nat, op: Op, kind: Kind, tid: nat, args: Args) {
    Touches(cgroup, op, kind, tid) && op.Enter? && SavedArgs(op.fd, op.addr) == args
  }

  /** Operation `i` is the thread's latest of this kind, and enters with these arguments. */
  predicate LatestEnter(cgroup: nat, ops: seq<Op>, kind: Kind, tid: nat, args: Args, i: nat) {
    && i < |ops| && IsEnter(cgroup, ops[i], kind, tid, args)
    && forall j :: i < j < |ops| ==> !Touches(cgroup, ops[j], kind, tid)
  }

  predicate Holds(m: map<nat, Args>, tid: nat, args: Args) {
    tid in m && m[tid] == args
  }

  /** A call is open exactly when the thread's latest operation of the kind entered it, whatever others did. */
  lemma {:induction false} OpenIsLatestEnter(cgroup: nat, ops: seq<Op>, kind: Kind, tid: nat, args: Args)
    ensures Holds(Open(cgroup, ops, kind), tid, args)
       <==> exists i: nat :: LatestEnter(cgroup, ops, kind, tid, args, i)
  {
    if ops != [] {
      var before, n := Init(ops), |ops| - 1;
      OpenIsLatestEnter(cgroup, before, kind, tid, args);
      if Touches(cgroup, ops[n], kind, tid) {
        assert IsEnter(cgroup, ops[n], kind, tid, args) ==> LatestEnter(cgroup, ops, kind, tid, args, n);
      } else {
        if i: nat :| LatestEnter(cgroup, before, kind, tid, args, i) {
          assert LatestEnter(cgroup, ops, kind, tid, args, i);
        }
        if i: nat :| LatestEnter(cgroup, ops, kind, tid, args, i) {
          assert before[i] == ops[i];
          assert LatestEnter(cgroup, before, kind, tid, args, i);
        }
      }
    }
  }

  predicate Submap(m: map<nat, Args>, n: map<nat, Args>) {
    forall k :: k in m ==> k in n && m[k] == n[k]
  }

  /** A scratch map holds open calls only, with the arguments of those calls, and never more than fit. */
  lemma {:induction false} ScratchHoldsOpenCalls(cgroup: nat, ops: seq<Op>, kind: Kind)
    ensures Submap(Scratch(Run(cgroup, ops), kind), Open(cgroup, ops, kind))
    ensures |Scratch(Run(cgroup, ops), kind)| <= 4096
  {
    if ops != [] {
      ScratchHoldsOpenCalls(cgroup, Init(ops), kind);
    }
  }

  /** Enter `i` of the run finds a place in its scratch map. */
  predicate StoredAt(cgroup: nat, ops: seq<Op>, i: nat)
    requires i < |ops| && ops[i].Enter?
  {
    var m := Scratch(Run(cgroup, ops[..i]), ops[i].kind);
    ops[i].thread.tid in m || (ops[i].room && |m| < 4096)
  }

  /** Operation `i` is the thread's latest of the kind, enters with these arguments, and finds a place. */
  predicate LatestStored(cgroup: nat, ops: seq<Op>, kind: Kind, tid: nat, args: Args, i: nat) {
    LatestEnter(cgroup, ops, kind, tid, args, i) && StoredAt(cgroup, ops, i)
  }

  /** Operations of other threads or kinds make no difference to that. */
  lemma OthersKeepLatest(cgroup: nat, ops: seq<Op>, kind: Kind, tid: nat, args: Args, i: nat)
    requires ops != [] && !Touches(cgroup, Last(ops), kind, tid)
    ensures LatestStored(cgroup, ops, kind, tid, args, i) <==> LatestStored(cgroup, Init(ops), kind, tid, args, i)
  {
    var before := Init(ops);
    if i < |before| {
      assert before[..i] == ops[..i] && before[i] == ops[i];
      assert forall j :: i < j < |before| ==> before[j] == ops[j];
    }
  }

  /** An entry is held exactly when the thread's latest operation of the kind entered the call and found a place. */
  lemma {:induction false} HeldExactly(cgroup: nat, ops: seq<Op>, kind: Kind, tid: nat, args: Args)
    ensures Holds(Scratch(Run(cgroup, ops), kind), tid, args)
       <==> exists i: nat :: LatestStored(cgroup, ops, kind, tid, args, i)
  {
    if ops != [] {
      var before, n := Init(ops), |ops| - 1;
      assert before == ops[..n];
      if Touches(cgroup, ops[n], kind, tid) {
        assert forall i: nat :: LatestStored(cgroup, ops, kind, tid, args, i) ==> i == n;
        assert Holds(Scratch(Run(cgroup, ops), kind), tid, args) ==> LatestStored(cgroup, ops, kind, tid, args, n);
      } else {
        HeldExactly(cgroup, before, kind, tid, args);
        forall i: nat
          ensures LatestStored(cgroup, ops, kind, tid, args, i) <==> LatestStored(cgroup, before, kind, tid, args, i)
        {
          OthersKeepLatest(cgroup, ops, kind, tid, args, i);
        }
      }
    }
  }

  // ----- the log -----

  /** The reports of maps without limit: one for every exit of an open call that calls for one. */
  function Due(cgroup: nat, ops: seq<Op>): seq<Report> {
    if ops == [] then []
    else
      var before, op := Init(ops), Last(ops);
      var m := Open(cgroup, before, op.kind);
      Due(cgroup, before) +
      if op.Exit? && Traced(cgroup, op.thread) && op.thread.tid in m then Emission(op, m[op.thread.tid]) else []
  }

  /** `a` is `b` with some reports left out. */
  predicate Sublog(a: seq<Report>, b: seq<Report>) {
    a == [] || (b != [] && (
      (a[|a| - 1] == b[|b| - 1] && Sublog(a[..|a| - 1], b[..|b| - 1])) || Sublog(a, b[..|b| - 1])))
  }

  lemma {:induction false} SublogGrows(a: seq<Report>, b: seq<Report>, x: seq<Report>)
    requires Sublog(a, b) && |x| <= 1
    ensures Sublog(a, b + x) && Sublog(a + x, b + x)
  {
    if x == [] {
      assert a + x == a && b + x == b;
    } else {
      assert (b + x)[..|b|] == b && (a + x)[..|a|] == a;
    }
  }

  /** Limited maps can only lose reports; none is made up, changed or moved. */
  lemma {:induction false} ReportsAreOnlyLost(cgroup: nat, ops: seq<Op>)
    ensures Sublog(Run(cgroup, ops).events, Due(cgroup, ops))
  {
    if ops != [] {
      var before, op := Init(ops), Last(ops);
      var st, m := Run(cgroup, before), Open(cgroup, before, op.kind);
      ReportsAreOnlyLost(cgroup, before);
      ScratchHoldsOpenCalls(cgroup, before, op.kind);
      var x := if op.Exit? && Traced(cgroup, op.thread) && op.thread.tid in m then Emission(op, m[op.thread.tid])
               else [];
      SublogGrows(st.events, Due(cgroup, before), x);
      assert Run(cgroup, ops).events == st.events || Run(cgroup, ops).events == st.events + x;
    }
  }

  /** At no time are more calls of a kind open than a map holds, and each new one gets its place. */
  predicate Roomy(cgroup: nat, ops: seq<Op>) {
    ops == [] ||
    (&& Roomy(cgroup, Init(ops)) && (Last(ops).Enter? ==> Last(ops).room)
     && |Open(cgroup, ops, Connect)| <= 4096 && |Open(cgroup, ops, Accept)| <= 4096)
  }

  /** Then nothing is lost. */
  lemma {:induction false} NothingIsLost(cgroup: nat, ops: seq<Op>)
    requires Roomy(cgroup, ops)
    ensures Run(cgroup, ops)
         == State(Open(cgroup, ops, Connect), Open(cgroup, ops, Accept), Due(cgroup, ops))
  {
    if ops != [] {
      var before, op := Init(ops), Last(ops);
      NothingIsLost(cgroup, before);
      if op.Enter? && Traced(cgroup, op.thread) {
        var m := Open(cgroup, before, op.kind);
        NewKeyGrows(m, op.thread.tid, SavedArgs(op.fd, op.addr));
      }
    }
  }

  lemma NewKeyGrows(m: map<nat, Args>, k: nat, v: Args)
    ensures k !in m ==> |m[k := v]| == |m| + 1
  {
    if k !in m {
      assert m[k := v].Keys == m.Keys + {k};
      assert |m.Keys| == |m| && |m[k := v].Keys| == |m[k := v]|;
    }
  }

  /** Report `e` was made by exit `i`, from the arguments that enter `j` of the same thread and kind saved. */
  predicate MadeBy(cgroup: nat, ops: seq<Op>, e: Report, j: nat, i: nat) {
    && j < i < |ops| && ops[i].Exit? && ops[j].Enter?
    && Touches(cgroup, ops[i], ops[i].kind, ops[i].thread.tid)
    && LatestEnter(cgroup, ops[..i], ops[i].kind, ops[i].thread.tid, SavedArgs(ops[j].fd, ops[j].addr), j)
    && ops[i].reserved && (if ops[i].kind.Connect? then ops[i].ret == 0 || ops[i].ret == -115 else 0 <= ops[i].ret)
    && e.kind == ops[i].kind && e.thread == ops[i].thread && e.ts == ops[i].ts && e.ret == ops[i].ret && e.nf == "AMF"
    && e.peer == (if ops[i].kind.Accept? && ops[j].addr == 0 then Peer(0, 0, 0) else PeerAt(ops[i].mem, ops[j].addr))
  }

  /**
   * Every report comes from a successful exit and the address saved by that thread's latest enter: a
   * connect that returned 0 or -EINPROGRESS (-115), an accept that returned a descriptor.
   */
  lemma {:induction false} ReportsArePaired(cgroup: nat, ops: seq<Op>, e: Report)
    requires e in Run(cgroup, ops).events
    ensures exists j: nat, i: nat :: MadeBy(cgroup, ops, e, j, i)
    ensures cgroup != 0 && e.thread.cgroup == cgroup
    ensures if e.kind.Connect? then e.ret == 0 || e.ret == -115 else 0 <= e.ret
  {
    var before, op, n := Init(ops), Last(ops), |ops| - 1;
    var st := Run(cgroup, before);
    if e in st.events {
      ReportsArePaired(cgroup, before, e);
      var j: nat, i: nat :| MadeBy(cgroup, before, e, j, i);
      assert before[..i] == ops[..i];
      assert MadeBy(cgroup, ops, e, j, i);
    } else {
      var args := Scratch(st, op.kind)[op.thread.tid];
      HeldExactly(cgroup, before, op.kind, op.thread.tid, args);
      var j: nat :| LatestStored(cgroup, before, op.kind, op.thread.tid, args, j);
      assert before == ops[..n];
      assert MadeBy(cgroup, ops, e, j, n);
    }
  }

  /**
   * A traced exit makes a report exactly when it succeeded,
   * space is left, and the thread's latest enter was stored.
   */
  lemma ExitReportsExactly(cgroup: nat, ops: seq<Op>, op: Op)
    requires op.Exit? && cgroup != 0 && op.thread.cgroup == cgroup
    ensures Run(cgroup, ops + [op]).events != Run(cgroup, ops).events
       <==> && (if op.kind.Connect? then op.ret == 0 || op.ret == -115 else 0 <= op.ret) && op.reserved
            && exists args: Args, j: nat :: LatestStored(cgroup, ops, op.kind, op.thread.tid, args, j)
  {
    var m, tid := Scratch(Run(cgroup, ops), op.kind), op.thread.tid;
    assert Init(ops + [op]) == ops;
    if tid in m {
      HeldExactly(cgroup, ops, op.kind, tid, m[tid]);
    }
    if args: Args, j: nat :| LatestStored(cgroup, ops, op.kind, tid, args, j) {
      HeldExactly(cgroup, ops, op.kind, tid, args);
    }
  }

  /** Operations of other cgroups leave no trace, nor does any while the cgroup is not set. */
  lemma OthersAreIgnored(cgroup: nat, ops: seq<Op>, op: Op)
    requires cgroup == 0 || op.thread.cgroup != cgroup
    ensures Run(cgroup, ops + [op]) == Run(cgroup, ops)
  {
    RunSteps(cgroup, ops, op);
  }

  // ----- system calls -----

  /** One of this kind by this thread, traced or not. */
  predicate Does(op: Op, kind: Kind, tid: nat) {
    op.kind == kind && op.thread.tid == tid
  }

  /** The thread stays in its cgroup. */
  predicate Stays(ops: seq<Op>, tid: nat, cgroup: nat) {
    forall i :: 0 <= i < |ops| && ops[i].thread.tid == tid ==> ops[i].thread.cgroup == cgroup
  }

  /** No operation of the thread and kind lies between `j` and `i`: they are the two ends of one system call. */
  predicate SameCall(ops: seq<Op>, j: nat, i: nat)
    requires j < i < |ops|
  {
    && Does(ops[j], ops[i].kind, ops[i].thread.tid)
    && forall k :: j < k < i ==> !Does(ops[k], ops[i].kind, ops[i].thread.tid)
  }

  /**
   * A report pairs the two ends of one system call exactly when no
   * operation of its thread and kind in between went untraced.
   */
  lemma PairedExactly(cgroup: nat, ops: seq<Op>, e: Report, j: nat, i: nat)
    requires MadeBy(cgroup, ops, e, j, i)
    ensures SameCall(ops, j, i)
       <==> forall k :: j < k < i && Does(ops[k], ops[i].kind, ops[i].thread.tid) ==> Traced(cgroup, ops[k].thread)
  {
    forall k | j < k < i
      ensures Does(ops[k], ops[i].kind, ops[i].thread.tid) ==> !Traced(cgroup, ops[k].thread)
    {
      assert ops[..i][k] == ops[k];
      assert !Touches(cgroup, ops[..i][k], ops[i].kind, ops[i].thread.tid);
    }
  }

  /** So it does for a thread that stays in its cgroup. */
  lemma ReportsMatchCalls(cgroup: nat, ops: seq<Op>, e: Report)
    requires e in Run(cgroup, ops).events && Stays(ops, e.thread.tid, e.thread.cgroup)
    ensures exists j: nat, i: nat :: MadeBy(cgroup, ops, e, j, i) && SameCall(ops, j, i)
  {
    ReportsArePaired(cgroup, ops, e);
    var j: nat, i: nat :| MadeBy(cgroup, ops, e, j, i);
    PairedExactly(cgroup, ops, e, j, i);
  }

  lemma UntracedBetween(cgroup: nat, a: Op, b: Op, c: Op, d: Op)
    requires !Traced(cgroup, b.thread) && !Traced(cgroup, c.thread)
    ensures Run(cgroup, [a, b, c, d]) == Step(cgroup, Step(cgroup, EMPTY, a), d)
  {
    assert [a, b, c, d] == [a, b, c] + [d] && [a, b, c] == [a, b] + [c] && [a, b] == [a] + [b] && [a] == [] + [a];
    RunSteps(cgroup, [a, b, c], d);
    RunSteps(cgroup, [a, b], c);
    RunSteps(cgroup, [a], b);
    RunSteps(cgroup, [], a);
  }

  lemma RunSteps(cgroup: nat, ops: seq<Op>, op: Op)
    ensures Run(cgroup, ops + [op]) == Step(cgroup, Run(cgroup, ops), op)
  {
    assert Init(ops + [op]) == ops;
  }

  /** For one that moves it need not: the second call is reported with the address of the first. */
  lemma MovedThreadMispairs(cgroup: nat, other: nat, mem: map<nat, Sock>)
    requires cgroup != 0 && other != cgroup
    requires 1 in mem && 2 in mem && PeerAt(mem, 1) != PeerAt(mem, 2)
    ensures exists ops: seq<Op> ::
              && |ops| == 4 && SameCall(ops, 0, 1) && SameCall(ops, 2, 3)
              && ops[2].Enter? && ops[2].addr == 2 && ops[3].Exit? && ops[3].mem == mem
              && |Run(cgroup, ops).events| == 1 && Run(cgroup, ops).events[0].peer == PeerAt(mem, 1)
  {
    var inside, outside := Thread(1, 1, cgroup), Thread(1, 1, other);
    var a, b := Enter(Connect, inside, 3, 1, true), Exit(Connect, outside, 0, mem, 0, true);
    var c, d := Enter(Connect, outside, 3, 2, true), Exit(Connect, inside, 0, mem, 1, true);
    var ops := [a, b, c, d];
    UntracedBetween(cgroup, a, b, c, d);
    assert SameCall(ops, 0, 1) && SameCall(ops, 2, 3);
  }
}
