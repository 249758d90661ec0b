/** The sequence-number server over FIFOs (SP_HW8/44-6): one well-known FIFO for requests, one FIFO per client for
    its reply. */
module FifoServer {
  import opened Machines
  import opened SequenceAllocator

  const MAX_RETRIES := 5

  /** `Requested`: the request is written, the read end of the own FIFO is not open yet. A client that is gone has
      removed its FIFO if it went through exit. */
  datatype ClientPc = Idle | Requested | Opening | Got(start: int) | Gone(removed: bool)

  datatype Client = Client(pc: ClientPc, length: nat, inbox: seq<int>)

  datatype Request = Request(pid: nat, length: nat)

  datatype ServerPc = Reading | TryingOpen(req: Request, retries: nat) | Replying(req: Request)

  /** `grants` records history: the ranges of the requests that reached the reply. */
  datatype State = State(
    requests: seq<Request>,
    clients: map<nat, Client>,
    server: ServerPc,
    seqNum: int,
    grants: seq<Grant>)

  datatype Action =
    | ClientRequest(p: nat, length: nat)
    | ClientOpen(p: nat)
    | ClientRead(p: nat)
    | ClientLeave(p: nat, removed: bool)
    | ServerRead
    | ServerOpen
    | ServerReply

  ghost predicate Init(s: State) {
    && s.requests == [] && s.server == Reading && s.seqNum == 0 && s.grants == []
    && forall p | p in s.clients :: s.clients[p].pc == Idle && s.clients[p].inbox == []
  }

  predicate Enabled(s: State, a: Action) {
    match a
    case ClientRequest(p, length) => p in s.clients && s.clients[p].pc == Idle && 0 < length
    case ClientOpen(p) => p in s.clients && s.clients[p].pc == Requested
    case ClientRead(p) => p in s.clients && s.clients[p].pc == Opening && s.clients[p].inbox != []
    case ClientLeave(p, _) => p in s.clients && (s.clients[p].pc == Requested || s.clients[p].pc == Opening)
    case ServerRead => s.server == Reading && s.requests != []
    case ServerOpen => s.server.TryingOpen?
    case ServerReply => s.server.Replying?
  }

  /** The client has the read end of its FIFO open, so opening it for writing and writing to it succeed. */
  predicate HasReader(s: State, p: nat) {
    p in s.clients && s.clients[p].pc == Opening
  }

  /** No FIFO at all: the open fails with something else than ENXIO and is not tried again. */
  predicate HasNoFifo(s: State, p: nat) {
    p !in s.clients || s.clients[p].pc == Idle || s.clients[p].pc.Got? || s.clients[p].pc == Gone(true)
  }

  function Apply(s: State, a: Action): State
    requires Enabled(s, a)
  {
    match a
    case ClientRequest(p, length) =>
      Put(s, p, s.clients[p].(pc := Requested, length := length)).(requests := s.requests + [Request(p, length)])
    case ClientOpen(p) => Put(s, p, s.clients[p].(pc := Opening))
    case ClientRead(p) =>
      Put(s, p, s.clients[p].(pc := Got(s.clients[p].inbox[0]), inbox := s.clients[p].inbox[1..]))
    case ClientLeave(p, removed) => Put(s, p, s.clients[p].(pc := Gone(removed)))
    case ServerRead => s.(server := TryingOpen(s.requests[0], 0), requests := s.requests[1..])
    case ServerOpen =>
      var TryingOpen(req, retries) := s.server;
      if HasReader(s, req.pid) then s.(server := Replying(req))
      else if HasNoFifo(s, req.pid) || retries >= MAX_RETRIES then s.(server := Reading)
      else s.(server := TryingOpen(req, retries + 1))
    case ServerReply =>
      var req := s.server.req;
      // The write fails when the reader has left in the meantime; the counter moves all the same.
      var s' := if HasReader(s, req.pid)
                then Put(s, req.pid, s.clients[req.pid].(inbox := s.clients[req.pid].inbox + [s.seqNum]))
                else s;
      s'.(server := Reading, seqNum := s.seqNum + req.length,
          grants := s.grants + [Grant(req.pid, s.seqNum, req.length)])
  }

  function Put(s: State, p: nat, client: Client): State {
    s.(clients := s.clients[p := client])
  }

  ghost predicate Next(s: State, s': State) {
    exists a :: Enabled(s, a) && s' == Apply(s, a)
  }

  // ---------- refinement ----------

  function Abs(s: State): Allocator {
    Allocator(s.seqNum, s.grants)
  }

  /** Replying, and only replying, allocates; a request whose FIFO cannot be opened leaves no gap. */
  lemma StepRefines(s: State, a: Action)
    requires Enabled(s, a)
    ensures Abs(Apply(s, a)) ==
            if a == ServerReply then Allocate(Abs(s), s.server.req.pid, s.server.req.length) else Abs(s)
  {
  }

  /** Every run of server and clients is a run of the allocator, so its ranges are consecutive. */
  lemma RunsRefine(s: State)
    requires Reachable(Init, Next, s)
    ensures Reachable(Fresh, Grows, Abs(s)) && Consecutive(Abs(s))
  {
    forall s, s' | Next(s, s')
      ensures Abs(s') == Abs(s) || Grows(Abs(s), Abs(s'))
    {
      var a :| Enabled(s, a) && s' == Apply(s, a);
      StepRefines(s, a);
    }
    SimulatedReachable(Init, Next, Fresh, Grows, Abs, s);
    ReachableConsecutive(Abs(s));
  }

  // ---------- the invariant ----------

  predicate RequestOk(s: State, req: Request) {
    && 0 < req.length && req.pid in s.clients
    && s.clients[req.pid].pc != Idle && s.clients[req.pid].length == req.length
  }

  /** This range was made for this client. */
  predicate Granted(s: State, p: nat, start: int, length: nat) {
    Grant(p, start, length) in s.grants
  }

  predicate ClientOk(s: State, p: nat, client: Client) {
    && (client.pc == Idle ==> client.inbox == [])
    && (forall k | 0 <= k < |client.inbox| :: Granted(s, p, client.inbox[k], client.length))
    && (client.pc.Got? ==> Granted(s, p, client.pc.start, client.length))
  }

  /** A client has one request, and it is in one place: queued, in the server's hands, or answered. */
  ghost predicate OncePerClient(s: State) {
    && (forall i, j | 0 <= i < j < |s.requests| :: s.requests[i].pid != s.requests[j].pid)
    && (forall i, j | 0 <= i < j < |s.grants| :: s.grants[i].pid != s.grants[j].pid)
    && (forall i, j | 0 <= i < |s.requests| && 0 <= j < |s.grants| :: s.requests[i].pid != s.grants[j].pid)
    && (s.server != Reading ==>
          && (forall i | 0 <= i < |s.requests| :: s.requests[i].pid != s.server.req.pid)
          && (forall j | 0 <= j < |s.grants| :: s.grants[j].pid != s.server.req.pid))
    && forall j | 0 <= j < |s.grants| ::
         var g := s.grants[j];
         g.pid in s.clients && s.clients[g.pid].pc != Idle && g.length == s.clients[g.pid].length
  }

  ghost predicate Inv(s: State) {
    && (forall k | 0 <= k < |s.grants| :: s.grants[k].length > 0)
    && (forall k | 0 <= k < |s.requests| :: RequestOk(s, s.requests[k]))
    && (s.server != Reading ==> RequestOk(s, s.server.req))
    && (s.server.TryingOpen? ==> s.server.retries <= MAX_RETRIES)
    && forall p | p in s.clients :: ClientOk(s, p, s.clients[p])
  }

  lemma StepKeepsOnce(s: State, a: Action)
    requires Inv(s) && OncePerClient(s) && Enabled(s, a)
    ensures OncePerClient(Apply(s, a))
  {
    hide ClientOk;
    var s' := Apply(s, a);
    if a.ClientRequest? {
      forall k | 0 <= k < |s.requests|
        ensures s.requests[k].pid != a.p
      {
        assert RequestOk(s, s.requests[k]);
      }
    }
  }

  lemma ClientStaysOk(s: State, a: Action, p: nat)
    requires Inv(s) && Enabled(s, a) && p in s.clients
    ensures p in Apply(s, a).clients && ClientOk(Apply(s, a), p, Apply(s, a).clients[p])
  {
    hide RequestOk;
    assert ClientOk(s, p, s.clients[p]);
    if a == ServerReply {
      assert RequestOk(s, s.server.req);
      RequestLength(s, s.server.req);
    }
  }

  lemma RequestLength(s: State, req: Request)
    requires RequestOk(s, req)
    ensures req.pid in s.clients && s.clients[req.pid].length == req.length
  {
  }

  lemma StepKeepsInv(s: State, a: Action)
    requires Inv(s) && Enabled(s, a)
    ensures Inv(Apply(s, a))
  {
    hide ClientOk;
    var s' := Apply(s, a);
    forall p | p in s'.clients
      ensures ClientOk(s', p, s'.clients[p])
    {
      ClientStaysOk(s, a, p);
    }
    forall k | 0 <= k < |s'.requests|
      ensures RequestOk(s', s'.requests[k])
    {
      assert a != ServerRead && k < |s.requests| ==> RequestOk(s, s.requests[k]);
    }
  }

  lemma ReachableInv(s: State)
    requires Reachable(Init, Next, s)
    ensures Inv(s)
  {
    forall s, s' | Inv(s) && Next(s, s')
      ensures Inv(s')
    {
      var a :| Enabled(s, a) && s' == Apply(s, a);
      StepKeepsInv(s, a);
    }
    InvariantReachable(Init, Next, Inv, s);
  }

  ghost predicate OnceInv(s: State) {
    Inv(s) && OncePerClient(s)
  }

  lemma ReachableOnce(s: State)
    requires Reachable(Init, Next, s)
    ensures OncePerClient(s)
  {
    forall s, s' | OnceInv(s) && Next(s, s')
      ensures OnceInv(s')
    {
      var a :| Enabled(s, a) && s' == Apply(s, a);
      StepKeepsInv(s, a);
      StepKeepsOnce(s, a);
    }
    InvariantReachable(Init, Next, OnceInv, s);
  }

  // ---------- what becomes of a range ----------

  /** It has been received, it is on its way, or its client has left. */
  predicate FateKnown(s: State, g: Grant) {
    g.pid in s.clients &&
    var client := s.clients[g.pid];
    match client.pc
    case Opening => client.inbox == [g.start]
    case Got(start) => start == g.start
    case Gone(_) => true
    case _ => false
  }

  /** When the server is about to reply, its client has not heard from it: it still waits, or it has left. */
  predicate Unanswered(s: State, p: nat) {
    p in s.clients && (s.clients[p].pc.Gone? || (s.clients[p].pc == Opening && s.clients[p].inbox == []))
  }

  ghost predicate FateInv(s: State) {
    && Inv(s) && OncePerClient(s)
    && (s.server.Replying? ==> Unanswered(s, s.server.req.pid))
    && forall k | 0 <= k < |s.grants| :: FateKnown(s, s.grants[k])
  }

  /** A client without a range has an empty FIFO. */
  lemma NoRangeNoReply(s: State, p: nat)
    requires Inv(s) && p in s.clients && forall k | 0 <= k < |s.grants| :: s.grants[k].pid != p
    ensures s.clients[p].inbox == []
  {
    assert ClientOk(s, p, s.clients[p]);
    var client := s.clients[p];
    assert |client.inbox| > 0 ==> Granted(s, p, client.inbox[0], client.length);
  }

  lemma UnansweredKept(s: State, a: Action)
    requires FateInv(s) && Enabled(s, a) && Apply(s, a).server.Replying?
    ensures Unanswered(Apply(s, a), Apply(s, a).server.req.pid)
  {
    var p := Apply(s, a).server.req.pid;
    hide Inv, FateKnown;
    if a == ServerOpen {
      NoRangeNoReply(s, p);
    }
  }

  lemma FateKept(s: State, a: Action, g: Grant)
    requires FateKnown(s, g) && Enabled(s, a)
    requires a == ServerReply ==> s.server.req.pid != g.pid
    ensures FateKnown(Apply(s, a), g)
  {
  }

  lemma ReplyDecidesFate(s: State)
    requires Enabled(s, ServerReply) && Unanswered(s, s.server.req.pid)
    ensures FateKnown(Apply(s, ServerReply), Grant(s.server.req.pid, s.seqNum, s.server.req.length))
  {
  }

  lemma StepKeepsFate(s: State, a: Action)
    requires FateInv(s) && Enabled(s, a)
    ensures FateInv(Apply(s, a))
  {
    hide Inv, FateKnown, Unanswered;
    var s' := Apply(s, a);
    StepKeepsInv(s, a);
    StepKeepsOnce(s, a);
    if s'.server.Replying? {
      UnansweredKept(s, a);
    }
    forall k | 0 <= k < |s'.grants|
      ensures FateKnown(s', s'.grants[k])
    {
      if k < |s.grants| {
        FateKept(s, a, s.grants[k]);
      } else {
        ReplyDecidesFate(s);
      }
    }
  }

  /** In every reachable state a range handed out has been received by its client or lies in its FIFO, alone,
      unless that client has left. So a range is a gap if and only if its client left before reading the reply. */
  lemma GapsAreDepartures(s: State, k: nat)
    requires Reachable(Init, Next, s) && k < |s.grants|
    ensures var g := s.grants[k];
            && g.pid in s.clients
            && (s.clients[g.pid].pc == Got(g.start)
                || (s.clients[g.pid].pc == Opening && s.clients[g.pid].inbox == [g.start])
                <==> !s.clients[g.pid].pc.Gone?)
  {
    forall s, s' | FateInv(s) && Next(s, s')
      ensures FateInv(s')
    {
      var a :| Enabled(s, a) && s' == Apply(s, a);
      StepKeepsFate(s, a);
    }
    InvariantReachable(Init, Next, FateInv, s);
    assert FateKnown(s, s.grants[k]);
  }

  // ---------- main results ----------

  /** The range a client has received was made for it, and lies below the counter. */
  lemma ReplyIsOwn(s: State, p: nat) returns (g: Grant)
    requires Reachable(Init, Next, s) && p in s.clients && s.clients[p].pc.Got?
    ensures g == Grant(p, s.clients[p].pc.start, s.clients[p].length) && g in s.grants
    ensures 0 <= g.start && g.start + g.length <= s.seqNum
  {
    ReachableInv(s);
    RunsRefine(s);
    assert ClientOk(s, p, s.clients[p]);
    g := Grant(p, s.clients[p].pc.start, s.clients[p].length);
    var i :| 0 <= i < |s.grants| && s.grants[i] == g;
    RangeInside(Abs(s), i);
  }

  /** No two clients ever receive overlapping ranges. */
  lemma DeliveredRangesDisjoint(s: State, p: nat, q: nat)
    requires Reachable(Init, Next, s) && p != q
    requires p in s.clients && s.clients[p].pc.Got? && q in s.clients && s.clients[q].pc.Got?
    ensures !Overlap(Grant(p, s.clients[p].pc.start, s.clients[p].length),
                     Grant(q, s.clients[q].pc.start, s.clients[q].length))
  {
    ReachableInv(s);
    RunsRefine(s);
    var g := ReplyIsOwn(s, p);
    var h := ReplyIsOwn(s, q);
    GrantsApart(Abs(s), g, h);
  }

  /** The counter is the sum of the lengths of the requests that reached the reply, each counted once: no client is
      answered twice. */
  lemma CounterIsSum(s: State)
    requires Reachable(Init, Next, s)
    ensures s.seqNum == TotalLength(s.grants)
    ensures forall i, j | 0 <= i < j < |s.grants| :: s.grants[i].pid != s.grants[j].pid
    ensures forall k | 0 <= k < |s.grants| ::
              var g := s.grants[k];
              g.pid in s.clients && s.clients[g.pid].pc != Idle && g.length == s.clients[g.pid].length
  {
    ReachableOnce(s);
    RunsRefine(s);
  }

  ghost predicate Step(s: State, a: Action, s': State) {
    Enabled(s, a) && s' == Apply(s, a)
  }

  function Opens(acts: seq<Action>): nat {
    if acts == [] then 0 else Opens(acts[..|acts| - 1]) + (if acts[|acts| - 1] == ServerOpen then 1 else 0)
  }

  /** What the server knows of its request after that many opens. */
  predicate Tried(s: State, req: Request, opens: nat) {
    || s.server == TryingOpen(req, opens)
    || ((s.server == Replying(req) || s.server == Reading) && 0 < opens <= 6)
  }

  /** What an open after `opens` earlier ones leads to. It succeeds exactly when the client has its end open. It is
      tried again, five times, when there is a FIFO without a reader: the client has not come to its open yet, or it
      was killed. Without a FIFO the request is dropped at once. */
  predicate OpenResult(s: State, s': State, req: Request, opens: nat) {
    s'.server ==
    if req.pid !in s.clients then Reading
    else
      match s.clients[req.pid].pc
      case Opening => Replying(req)
      case Requested => if opens < 5 then TryingOpen(req, opens + 1) else Reading
      case Gone(removed) => if !removed && opens < 5 then TryingOpen(req, opens + 1) else Reading
      case _ => Reading
  }

  lemma OneMoreStep(s: State, a: Action, req: Request, opens: nat)
    requires Enabled(s, a) && s.server == TryingOpen(req, opens) && opens <= MAX_RETRIES
    ensures Tried(Apply(s, a), req, opens + (if a == ServerOpen then 1 else 0))
    ensures a == ServerOpen ==> OpenResult(s, Apply(s, a), req, opens)
    ensures Abs(Apply(s, a)) == Abs(s)
  {
  }

  /** In every run, from reading a request until the server replies to it or drops it, the open is tried at most six
      times, whatever the clients do in between, and no number is used up. */
  lemma {:induction false} OpenIsTriedSixTimes(run: seq<State>, acts: seq<Action>, n: nat)
    requires IsTrace(Step, run, acts) && Reachable(Init, Next, run[0])
    requires 0 < n <= |acts| && acts[0] == ServerRead && forall i | 0 < i < n :: run[i].server.TryingOpen?
    ensures Reachable(Init, Next, run[n])
    ensures Opens(acts[..n]) <= 6 && Abs(run[n]) == Abs(run[0])
    ensures run[0].requests != [] && Tried(run[n], run[0].requests[0], Opens(acts[..n]))
    ensures acts[n - 1] == ServerOpen ==> OpenResult(run[n - 1], run[n], run[0].requests[0], Opens(acts[..n - 1]))
  {
    hide *;
    StepOfTrace(run, acts, n - 1);
    OpensUnfold(acts[..n]);
    assert acts[..n][..n - 1] == acts[..n - 1];
    if n == 1 {
      StepReachable(Init, Next, run[0], run[1]);
      ReadStarts(run[0]);
      assert acts[..0] == [];
    } else {
      OpenIsTriedSixTimes(run, acts, n - 1);
      StepReachable(Init, Next, run[n - 1], run[n]);
      var req, opens := run[0].requests[0], Opens(acts[..n - 1]);
      StillTrying(run[n - 1], req, opens);
      OneMoreStep(run[n - 1], acts[n - 1], req, opens);
    }
    TriedBounded(run[n], run[0].requests[0], Opens(acts[..n]));
  }

  lemma StepOfTrace(run: seq<State>, acts: seq<Action>, n: nat)
    requires IsTrace(Step, run, acts) && n < |acts|
    ensures n + 1 < |run| && Enabled(run[n], acts[n]) && run[n + 1] == Apply(run[n], acts[n])
    ensures Next(run[n], run[n + 1])
  {
    assert Step(run[n], acts[n], run[n + 1]);
  }

  lemma OpensUnfold(acts: seq<Action>)
    requires acts != []
    ensures Opens([]) == 0
    ensures Opens(acts) == Opens(acts[..|acts| - 1]) + (if acts[|acts| - 1] == ServerOpen then 1 else 0)
  {
  }

  lemma ReadStarts(s: State)
    requires Enabled(s, ServerRead)
    ensures s.requests != [] && Tried(Apply(s, ServerRead), s.requests[0], 0) && Abs(Apply(s, ServerRead)) == Abs(s)
  {
  }

  lemma StillTrying(s: State, req: Request, opens: nat)
    requires Reachable(Init, Next, s) && Tried(s, req, opens) && s.server.TryingOpen?
    ensures s.server == TryingOpen(req, opens) && opens <= MAX_RETRIES
  {
    ReachableInv(s);
  }

  lemma TriedBounded(s: State, req: Request, opens: nat)
    requires Reachable(Init, Next, s) && Tried(s, req, opens)
    ensures opens <= 6
  {
    ReachableInv(s);
  }

  // ---------- runs ----------

  /** Nothing is going on. */
  predicate Quiet(s: State) {
    s.requests == [] && s.server == Reading
  }

  /** A client asks, the server reads the request, and some opens fail because the client is not there yet. */
  lemma AskAndTry(s: State, p: nat, length: nat, tries: nat) returns (s': State)
    requires Reachable(Init, Next, s) && Quiet(s) && p in s.clients && s.clients[p].pc == Idle && 0 < length && tries <= 5
    ensures Reachable(Init, Next, s')
    ensures s' == s.(clients := s.clients[p := s.clients[p].(pc := Requested, length := length)],
                     server := TryingOpen(Request(p, length), tries))
    decreases tries
  {
    hide Reachable;
    if tries == 0 {
      s' := Do(Init, Next, Enabled, Apply, s, ClientRequest(p, length));
      assert s'.requests == [Request(p, length)];
      s' := Do(Init, Next, Enabled, Apply, s', ServerRead);
      assert s'.requests == [];
    } else {
      s' := AskAndTry(s, p, length, tries - 1);
      s' := Do(Init, Next, Enabled, Apply, s', ServerOpen);
    }
  }

  lemma OpenAndReply(s: State, p: nat, req: Request, tries: nat) returns (s': State)
    requires Reachable(Init, Next, s) && s.server == TryingOpen(req, tries) && req.pid == p
    requires p in s.clients && s.clients[p].pc == Requested && s.clients[p].inbox == []
    ensures Reachable(Init, Next, s')
    ensures s' == s.(clients := s.clients[p := s.clients[p].(pc := Opening, inbox := [s.seqNum])], server := Reading,
                     seqNum := s.seqNum + req.length, grants := s.grants + [Grant(p, s.seqNum, req.length)])
  {
    hide Reachable;
    s' := Do(Init, Next, Enabled, Apply, s, ClientOpen(p));
    s' := Do(Init, Next, Enabled, Apply, s', ServerOpen);
    assert s'.clients[p].inbox + [s.seqNum] == [s.seqNum];
    s' := Do(Init, Next, Enabled, Apply, s', ServerReply);
    assert s'.clients == s.clients[p := s.clients[p].(pc := Opening, inbox := [s.seqNum])];
  }

  /** A client that opens its end after up to five failed tries of the server receives its number, whatever length it
      asks for. */
  lemma LateClientIsServed(s: State, p: nat, length: nat, tries: nat) returns (s': State)
    requires Reachable(Init, Next, s) && Quiet(s) && p in s.clients && s.clients[p].pc == Idle && 0 < length && tries <= 5
    ensures Reachable(Init, Next, s') && Quiet(s') && s'.seqNum == s.seqNum + length
    ensures p in s'.clients && s'.clients[p].pc == Got(s.seqNum) && s'.clients[p].length == length
    ensures s'.clients == s.clients[p := s'.clients[p]]
  {
    ReachableInv(s);
    assert ClientOk(s, p, s.clients[p]);
    hide Inv, Reachable, ClientOk;
    var s1 := AskAndTry(s, p, length, tries);
    var s2 := OpenAndReply(s1, p, Request(p, length), tries);
    s' := Do(Init, Next, Enabled, Apply, s2, ClientRead(p));
  }

  /** A client that does not open its end before the sixth try is dropped, and no number is used up. */
  lemma AbsentClientIsDropped(s: State, p: nat, length: nat) returns (s': State)
    requires Reachable(Init, Next, s) && Quiet(s) && p in s.clients && s.clients[p].pc == Idle && 0 < length
    ensures Reachable(Init, Next, s') && Quiet(s') && s'.seqNum == s.seqNum && s'.grants == s.grants
    ensures p in s'.clients && s'.clients[p].pc == Requested
  {
    hide Reachable;
    s' := AskAndTry(s, p, length, 5);
    s' := Do(Init, Next, Enabled, Apply, s', ServerOpen);
  }

  /** A client that was killed before its open keeps the server trying, six times in all; one that went through exit
      has removed its FIFO and is dropped at the first try. */
  lemma DeadClientIsDropped(s: State, p: nat, length: nat, removed: bool, tries: nat) returns (s': State)
    requires Reachable(Init, Next, s) && Quiet(s) && p in s.clients && s.clients[p].pc == Idle && 0 < length
    requires tries == if removed then 0 else 5
    ensures Reachable(Init, Next, s') && Quiet(s') && s'.seqNum == s.seqNum && s'.grants == s.grants
    ensures p in s'.clients && s'.clients[p].pc == Gone(removed)
  {
    hide Reachable;
    var asked := AskAndTry(s, p, length, 0);
    s' := Do(Init, Next, Enabled, Apply, asked, ClientLeave(p, removed));
    var n := 0;
    while n < tries
      invariant n <= tries && Reachable(Init, Next, s')
      invariant s' == asked.(clients := s'.clients, server := TryingOpen(Request(p, length), n))
      invariant p in s'.clients && s'.clients[p].pc == Gone(removed)
    {
      s' := Do(Init, Next, Enabled, Apply, s', ServerOpen);
      n := n + 1;
    }
    s' := Do(Init, Next, Enabled, Apply, s', ServerOpen);
  }

  /** A client that leaves between the server's open and its reply takes its numbers with it. */
  lemma GapReachable(s: State, p: nat, length: nat, removed: bool) returns (s': State)
    requires Reachable(Init, Next, s) && Quiet(s) && p in s.clients && s.clients[p].pc == Idle && 0 < length
    ensures Reachable(Init, Next, s') && Quiet(s') && s'.seqNum == s.seqNum + length
    ensures p in s'.clients && s'.clients[p].pc == Gone(removed)
    ensures s'.grants == s.grants + [Grant(p, s.seqNum, length)]
  {
    hide Reachable, Init;
    var asked := AskAndTry(s, p, length, 0);
    s' := Do(Init, Next, Enabled, Apply, asked, ClientOpen(p));
    s' := Do(Init, Next, Enabled, Apply, s', ServerOpen);
    assert s' == asked.(clients := s'.clients, server := Replying(Request(p, length)));
    s' := Do(Init, Next, Enabled, Apply, s', ClientLeave(p, removed));
    s' := Do(Init, Next, Enabled, Apply, s', ServerReply);
  }

  // ---------- the server, updated in place ----------

  class Server {
    var requests: seq<Request>
    var clients: map<nat, Client>
    var server: ServerPc
    var seqNum: int
    var grants: seq<Grant>

    ghost function Snapshot(): State
      reads this
    {
      State(requests, clients, server, seqNum, grants)
    }

    constructor (pids: set<nat>)
      ensures clients.Keys == pids && Init(Snapshot())
    {
      requests, server, seqNum, grants := [], Reading, 0, [];
      clients := map p | p in pids :: Client(Idle, 0, []);
    }

    method Perform(a: Action)
      requires Enabled(Snapshot(), a)
      modifies this
      ensures Snapshot() == Apply(old(Snapshot()), a)
    {
      match a
      case ClientRequest(p, length) =>
        clients := clients[p := clients[p].(pc := Requested, length := length)];
        requests := requests + [Request(p, length)];
      case ClientOpen(p) =>
        clients := clients[p := clients[p].(pc := Opening)];
      case ClientRead(p) =>
        var inbox := clients[p].inbox;
        clients := clients[p := clients[p].(pc := Got(inbox[0]), inbox := inbox[1..])];
      case ClientLeave(p, removed) =>
        clients := clients[p := clients[p].(pc := Gone(removed))];
      case ServerRead =>
        server := TryingOpen(requests[0], 0);
        requests := requests[1..];
      case ServerOpen =>
        TryOpen();
      case ServerReply =>
        var req := server.req;
        if req.pid in clients && clients[req.pid].pc == Opening {
          clients := clients[req.pid := clients[req.pid].(inbox := clients[req.pid].inbox + [seqNum])];
        }
        grants := grants + [Grant(req.pid, seqNum, req.length)];
        seqNum := seqNum + req.length;
        server := Reading;
    }

    /** One attempt to open the client's FIFO. */
    method TryOpen()
      requires Enabled(Snapshot(), ServerOpen)
      modifies this`server
      ensures Snapshot() == Apply(old(Snapshot()), ServerOpen)
    {
      var req, retries := server.req, server.retries;
      if req.pid in clients && clients[req.pid].pc == Opening {
        server := Replying(req);
      } else if req.pid !in clients || clients[req.pid].pc == Idle || clients[req.pid].pc.Got?
                || clients[req.pid].pc == Gone(true) || retries >= MAX_RETRIES {
        server := Reading;
      } else {
        server := TryingOpen(req, retries + 1);
      }
    }
  }
}
