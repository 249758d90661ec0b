/** The sequence-number server over one System V message queue (SP_HW8/46-2): requests have type 1, a reply has the
    client's pid as its type. */
module QueueServer {
  import opened Machines
  import opened SequenceAllocator
  import opened Arithmetic

  const REQ_MSG_TYPE: nat := 1

  /** `seqNum` carries the client's pid in a request and the start of the range in a reply. */
  datatype Message = Message(mtype: nat, seqNum: int, value: int)

  /** `Gone`: the client left after sending its request and before it had an answer. */
  datatype ClientPc = Idle | Sent | Got(start: int) | Gone

  datatype Client = Client(pc: ClientPc, increment: int)

  datatype ServerPc = Receiving | Sending(msg: Message)

  /** `grants` and `failed` record history: the ranges handed out, and the clients whose reply could not be sent. */
  datatype State = State(
    queue: seq<Message>,
    clients: map<nat, Client>,
    server: ServerPc,
    seqNum: int,
    grants: seq<Grant>,
    failed: set<nat>)

  datatype Action =
    | ClientSend(p: nat, increment: int)
    | ClientReceive(p: nat)
    | ClientLeave(p: nat)
    | ServerReceive
    | ServerSend(delivered: bool)

  /** Every client has a pid of its own, and none is 0 or 1. */
  ghost predicate Init(s: State) {
    && s.queue == [] && s.server == Receiving && s.seqNum == 0 && s.grants == [] && s.failed == {}
    && forall p | p in s.clients :: s.clients[p].pc == Idle && p > REQ_MSG_TYPE
  }

  /** msgrcv with a positive type takes the first message of that type. */
  function FirstOfType(queue: seq<Message>, mtype: nat): (i: nat)
    ensures i <= |queue| && forall k | 0 <= k < i :: queue[k].mtype != mtype
    ensures i < |queue| ==> queue[i].mtype == mtype
  {
    if queue == [] || queue[0].mtype == mtype then 0 else 1 + FirstOfType(queue[1..], mtype)
  }

  function Without(queue: seq<Message>, i: nat): seq<Message>
    requires i < |queue|
  {
    queue[..i] + queue[i + 1..]
  }

  predicate Enabled(s: State, a: Action) {
    match a
    case ClientSend(p, _) => p in s.clients && s.clients[p].pc == Idle
    case ClientReceive(p) => p in s.clients && s.clients[p].pc == Sent && FirstOfType(s.queue, p) < |s.queue|
    case ClientLeave(p) => p in s.clients && s.clients[p].pc == Sent
    // The pid comes back as a long, which has to be positive to be a message type.
    case ServerReceive =>
      var i := FirstOfType(s.queue, REQ_MSG_TYPE);
      s.server == Receiving && i < |s.queue| && s.queue[i].seqNum > 0
    case ServerSend(_) => s.server.Sending?
  }

  function Apply(s: State, a: Action): State
    requires Enabled(s, a)
  {
    match a
    case ClientSend(p, increment) =>
      s.(clients := s.clients[p := Client(Sent, increment)],
         queue := s.queue + [Message(REQ_MSG_TYPE, p, increment)])
    case ClientReceive(p) =>
      var i := FirstOfType(s.queue, p);
      s.(clients := s.clients[p := s.clients[p].(pc := Got(s.queue[i].seqNum))], queue := Without(s.queue, i))
    case ClientLeave(p) => s.(clients := s.clients[p := s.clients[p].(pc := Gone)])
    case ServerReceive =>
      var i := FirstOfType(s.queue, REQ_MSG_TYPE);
      var msg := s.queue[i];
      s.(queue := Without(s.queue, i),
         server := Sending(Message(msg.seqNum, s.seqNum, msg.value)),
         seqNum := s.seqNum + msg.value,
         grants := s.grants + [Grant(msg.seqNum, s.seqNum, msg.value)])
    case ServerSend(delivered) =>
      if delivered then s.(server := Receiving, queue := s.queue + [s.server.msg])
      else s.(server := Receiving, failed := s.failed + {s.server.msg.mtype})
  }

  ghost predicate Next(s: State, s': State) {
    exists a :: Enabled(s, a) && s' == Apply(s, a)
  }

  // ---------- refinement ----------

  function Abs(s: State): Allocator {
    Allocator(s.seqNum, s.grants)
  }

  /** Receiving a request allocates, whether or not its reply can be sent afterwards; nothing else does. */
  lemma StepRefines(s: State, a: Action)
    requires Enabled(s, a)
    ensures Abs(Apply(s, a)) ==
            if a == ServerReceive then
              var msg := s.queue[FirstOfType(s.queue, REQ_MSG_TYPE)]; Allocate(Abs(s), msg.seqNum, msg.value)
            else Abs(s)
  {
  }

  /** Every run of server and clients is a run of the allocator, so its ranges are consecutive. */
  lemma RunsRefine(s: State)
    requires Reachable(Init, Next, s)
    ensures Reachable(Fresh, Grows, Abs(s)) && Consecutive(Abs(s))
  {
    forall s, s' | Next(s, s')
      ensures Abs(s') == Abs(s) || Grows(Abs(s), Abs(s'))
    {
      var a :| Enabled(s, a) && s' == Apply(s, a);
      StepRefines(s, a);
    }
    SimulatedReachable(Init, Next, Fresh, Grows, Abs, s);
    ReachableConsecutive(Abs(s));
  }

  // ---------- the invariant ----------

  predicate ReplyOk(s: State, msg: Message) {
    && msg.mtype in s.clients && s.clients[msg.mtype].pc != Idle
    && Grant(msg.mtype, msg.seqNum, s.clients[msg.mtype].increment) in s.grants
  }

  predicate MessageOk(s: State, msg: Message) {
    if msg.mtype == REQ_MSG_TYPE then
      && 0 < msg.seqNum && msg.seqNum in s.clients
      && s.clients[msg.seqNum].pc != Idle && msg.value == s.clients[msg.seqNum].increment
    else ReplyOk(s, msg)
  }

  predicate IsRequest(msg: Message) {
    msg.mtype == REQ_MSG_TYPE
  }

  /** A client has one request, either in the queue or received. */
  ghost predicate OncePerClient(s: State) {
    && (forall i, j | 0 <= i < j < |s.queue| && IsRequest(s.queue[i]) && IsRequest(s.queue[j]) ::
          s.queue[i].seqNum != s.queue[j].seqNum)
    && (forall i, j | 0 <= i < j < |s.grants| :: s.grants[i].pid != s.grants[j].pid)
    && (forall i, j | 0 <= i < |s.queue| && IsRequest(s.queue[i]) && 0 <= j < |s.grants| ::
          s.queue[i].seqNum != s.grants[j].pid)
    && forall j | 0 <= j < |s.grants| ::
         var g := s.grants[j];
         g.pid in s.clients && s.clients[g.pid].pc != Idle && g.length == s.clients[g.pid].increment
  }

  ghost predicate Inv(s: State) {
    && (forall p | p in s.clients :: p > REQ_MSG_TYPE)
    && (forall k | 0 <= k < |s.queue| :: MessageOk(s, s.queue[k]))
    && (s.server.Sending? ==> ReplyOk(s, s.server.msg))
    && forall p | p in s.clients && s.clients[p].pc.Got? ::
         Grant(p, s.clients[p].pc.start, s.clients[p].increment) in s.grants
  }

  /** What is known of a message is kept by every step. */
  lemma MessageStaysOk(s: State, a: Action, msg: Message)
    requires Enabled(s, a) && MessageOk(s, msg)
    ensures MessageOk(Apply(s, a), msg)
  {
    hide FirstOfType;
  }

  lemma StepKeepsOnce(s: State, a: Action)
    requires Inv(s) && OncePerClient(s) && Enabled(s, a)
    ensures OncePerClient(Apply(s, a))
  {
    hide ReplyOk, FirstOfType;
    var s' := Apply(s, a);
    if a.ClientSend? {
      forall k | 0 <= k < |s.queue| && IsRequest(s.queue[k])
        ensures s.queue[k].seqNum != a.p
      {
        assert MessageOk(s, s.queue[k]);
      }
    }
    if a == ServerReceive {
      assert MessageOk(s, s.queue[FirstOfType(s.queue, REQ_MSG_TYPE)]);
    }
    if a.ServerSend? {
      SentReplyOk(s);
    }
  }

  lemma StepKeepsInv(s: State, a: Action)
    requires Inv(s) && Enabled(s, a)
    ensures Inv(Apply(s, a))
  {
    hide MessageOk, FirstOfType;
    var s' := Apply(s, a);
    if a == ServerReceive {
      RequestGivesReply(s);
    }
    if a.ClientReceive? {
      ReplyGivesRange(s, a.p);
    }
    if s.server.Sending? {
      SentReplyOk(s);
    }
    if a.ClientSend? {
      NewRequestOk(s, a);
    }
    forall k | 0 <= k < |s'.queue|
      ensures MessageOk(s', s'.queue[k])
    {
      if s'.queue[k] in s.queue {
        MessageStaysOk(s, a, s'.queue[k]);
      } else if a.ServerSend? {
        MessageStaysOk(s, a, s.server.msg);
      }
    }
    if s.server.Sending? && s'.server.Sending? {
      MessageStaysOk(s, a, s.server.msg);
      assert ReplyOk(s', s.server.msg);
    }
  }

  lemma NewRequestOk(s: State, a: Action)
    requires Inv(s) && a.ClientSend? && Enabled(s, a)
    ensures MessageOk(Apply(s, a), Message(REQ_MSG_TYPE, a.p, a.increment))
  {
  }

  lemma SentReplyOk(s: State)
    requires Inv(s) && s.server.Sending?
    ensures MessageOk(s, s.server.msg) && s.server.msg.mtype != REQ_MSG_TYPE
  {
  }

  lemma RequestGivesReply(s: State)
    requires Inv(s) && Enabled(s, ServerReceive)
    ensures ReplyOk(Apply(s, ServerReceive), Apply(s, ServerReceive).server.msg)
  {
    assert MessageOk(s, s.queue[FirstOfType(s.queue, REQ_MSG_TYPE)]);
  }

  lemma ReplyGivesRange(s: State, p: nat)
    requires Inv(s) && Enabled(s, ClientReceive(p))
    ensures Grant(p, s.queue[FirstOfType(s.queue, p)].seqNum, s.clients[p].increment) in s.grants
  {
    assert MessageOk(s, s.queue[FirstOfType(s.queue, p)]);
  }

  lemma ReachableInv(s: State)
    requires Reachable(Init, Next, s)
    ensures Inv(s)
  {
    forall s, s' | Inv(s) && Next(s, s')
      ensures Inv(s')
    {
      var a :| Enabled(s, a) && s' == Apply(s, a);
      StepKeepsInv(s, a);
    }
    InvariantReachable(Init, Next, Inv, s);
  }

  ghost predicate OnceInv(s: State) {
    Inv(s) && OncePerClient(s)
  }

  lemma ReachableOnce(s: State)
    requires Reachable(Init, Next, s)
    ensures OncePerClient(s)
  {
    forall s, s' | OnceInv(s) && Next(s, s')
      ensures OnceInv(s')
    {
      var a :| Enabled(s, a) && s' == Apply(s, a);
      StepKeepsInv(s, a);
      StepKeepsOnce(s, a);
    }
    InvariantReachable(Init, Next, OnceInv, s);
  }

  // ---------- main results ----------

  /** The range a client has received was made for its own request. */
  lemma ReplyIsOwn(s: State, p: nat) returns (g: Grant)
    requires Reachable(Init, Next, s) && p in s.clients && s.clients[p].pc.Got?
    ensures g == Grant(p, s.clients[p].pc.start, s.clients[p].increment) && g in s.grants
  {
    ReachableInv(s);
    g := Grant(p, s.clients[p].pc.start, s.clients[p].increment);
  }

  function RangeOf(s: State, p: nat): Grant
    requires p in s.clients && s.clients[p].pc.Got?
  {
    Grant(p, s.clients[p].pc.start, s.clients[p].increment)
  }

  /** Every client so far has asked for an increment that satisfies `ok`. */
  ghost predicate IncrementsOk(s: State, ok: int -> bool) {
    forall p | p in s.clients && s.clients[p].pc != Idle :: ok(s.clients[p].increment)
  }

  lemma NoNegativeLength(s: State)
    requires OncePerClient(s) && IncrementsOk(s, x => x >= 0)
    ensures forall k | 0 <= k < |s.grants| :: s.grants[k].length >= 0
  {
  }

  /** As long as no increment is negative, no two clients receive a common number, and what a client receives lies
      below the counter. */
  lemma DeliveredRangesDisjoint(s: State, p: nat, q: nat)
    requires Reachable(Init, Next, s) && p != q
    requires p in s.clients && s.clients[p].pc.Got? && q in s.clients && s.clients[q].pc.Got?
    requires IncrementsOk(s, x => x >= 0)
    ensures !Overlap(RangeOf(s, p), RangeOf(s, q))
    ensures 0 <= RangeOf(s, p).start && RangeOf(s, p).start + RangeOf(s, p).length <= s.seqNum
  {
    ReachableOnce(s);
    RunsRefine(s);
    NoNegativeLength(s);
    hide OncePerClient, Consecutive, IncrementsOk;
    var g := ReplyIsOwn(s, p);
    var h := ReplyIsOwn(s, q);
    GrantsApart(Abs(s), g, h);
  }

  /** The counter is the sum of the increments received, each counted once, and every request in the queue can be
      received. */
  lemma CounterIsSum(s: State)
    requires Reachable(Init, Next, s)
    ensures s.seqNum == TotalLength(s.grants)
    ensures forall i, j | 0 <= i < j < |s.grants| :: s.grants[i].pid != s.grants[j].pid
    ensures forall k | 0 <= k < |s.grants| ::
              var g := s.grants[k];
              g.pid in s.clients && s.clients[g.pid].pc != Idle && g.length == s.clients[g.pid].increment
    ensures s.server == Receiving && FirstOfType(s.queue, REQ_MSG_TYPE) < |s.queue| ==> Enabled(s, ServerReceive)
  {
    ReachableOnce(s);
    ReachableInv(s);
    RunsRefine(s);
    var i := FirstOfType(s.queue, REQ_MSG_TYPE);
    if i < |s.queue| {
      assert MessageOk(s, s.queue[i]);
    }
  }

  // ---------- what becomes of a range ----------

  predicate IsReplyTo(msg: Message, p: nat) {
    msg.mtype == p && !IsRequest(msg)
  }

  predicate InServer(s: State, p: nat) {
    s.server.Sending? && IsReplyTo(s.server.msg, p)
  }

  predicate HasReply(queue: seq<Message>, p: nat) {
    exists i :: 0 <= i < |queue| && IsReplyTo(queue[i], p)
  }

  predicate Waits(s: State, p: nat) {
    p in s.clients && s.clients[p].pc == Sent
  }

  predicate Unanswered(s: State, p: nat) {
    p in s.clients && (s.clients[p].pc == Sent || s.clients[p].pc == Gone)
  }

  ghost predicate OneReplyEach(queue: seq<Message>) {
    forall i, j | 0 <= i < j < |queue| && !IsRequest(queue[i]) && !IsRequest(queue[j]) ::
      queue[i].mtype != queue[j].mtype
  }

  /** A reply is in one place, held by the server or queued, and its client has not received one. */
  ghost predicate RepliesUnique(s: State) {
    && OneReplyEach(s.queue)
    && (forall p | HasReply(s.queue, p) :: !InServer(s, p) && Unanswered(s, p))
    && (s.server.Sending? ==> !IsRequest(s.server.msg) && Unanswered(s, s.server.msg.mtype))
    && forall p | p in s.clients :: p > REQ_MSG_TYPE
  }

  ghost predicate HasRange(s: State, p: nat) {
    exists k :: 0 <= k < |s.grants| && s.grants[k].pid == p
  }

  ghost predicate UniqueInv(s: State) {
    Inv(s) && OncePerClient(s) && RepliesUnique(s)
  }

  lemma HasReplyAdd(queue: seq<Message>, msg: Message, p: nat)
    ensures HasReply(queue + [msg], p) <==> HasReply(queue, p) || IsReplyTo(msg, p)
    ensures OneReplyEach(queue) && (IsRequest(msg) || !HasReply(queue, msg.mtype)) ==> OneReplyEach(queue + [msg])
  {
    assert (queue + [msg])[|queue|] == msg;
    assert forall k | 0 <= k < |queue| :: (queue + [msg])[k] == queue[k];
  }

  lemma HasReplyWithout(queue: seq<Message>, i: nat, p: nat)
    requires i < |queue| && OneReplyEach(queue)
    ensures HasReply(Without(queue, i), p) <==> HasReply(queue, p) && !IsReplyTo(queue[i], p)
    ensures OneReplyEach(Without(queue, i))
  {
    var rest := Without(queue, i);
    assert forall k | 0 <= k < |rest| :: rest[k] == queue[if k < i then k else k + 1];
    if HasReply(queue, p) && !IsReplyTo(queue[i], p) {
      var k :| 0 <= k < |queue| && IsReplyTo(queue[k], p);
      assert IsReplyTo(rest[if k < i then k else k - 1], p);
    }
  }

  /** Which replies are queued after a step. */
  lemma QueueAfter(s: State, a: Action, p: nat)
    requires RepliesUnique(s) && Enabled(s, a)
    ensures HasReply(Apply(s, a).queue, p) <==>
            if a == ServerSend(true) then HasReply(s.queue, p) || InServer(s, p)
            else HasReply(s.queue, p) && a != ClientReceive(p)
    ensures OneReplyEach(Apply(s, a).queue)
  {
    hide HasReply, OneReplyEach, FirstOfType, Without;
    match a
    case ClientLeave(_) =>
    case ClientSend(q, increment) =>
      HasReplyAdd(s.queue, Message(REQ_MSG_TYPE, q, increment), p);
    case ClientReceive(q) =>
      HasReplyWithout(s.queue, FirstOfType(s.queue, q), p);
    case ServerReceive =>
      HasReplyWithout(s.queue, FirstOfType(s.queue, REQ_MSG_TYPE), p);
    case ServerSend(delivered) =>
      if delivered {
        assert InServer(s, s.server.msg.mtype);
        HasReplyAdd(s.queue, s.server.msg, p);
      }
  }

  lemma GotHasRange(s: State, p: nat)
    requires Inv(s)
    ensures p in s.clients && s.clients[p].pc.Got? ==> HasRange(s, p)
  {
    if p in s.clients && s.clients[p].pc.Got? {
      assert Grant(p, s.clients[p].pc.start, s.clients[p].increment) in s.grants;
    }
  }

  /** A client whose request is still to be received has no range, so nothing has been sent to it. */
  lemma ReceivedIsFresh(s: State)
    requires UniqueInv(s) && Enabled(s, ServerReceive)
    ensures var p := s.queue[FirstOfType(s.queue, REQ_MSG_TYPE)].seqNum;
            && 0 < p && Unanswered(s, p) && !HasRange(s, p) && !HasReply(s.queue, p) && p != REQ_MSG_TYPE
  {
    var i := FirstOfType(s.queue, REQ_MSG_TYPE);
    var p := s.queue[i].seqNum;
    assert MessageOk(s, s.queue[i]) && IsRequest(s.queue[i]);
    GotHasRange(s, p);
    forall j | 0 <= j < |s.queue|
      ensures !IsReplyTo(s.queue[j], p)
    {
      assert MessageOk(s, s.queue[j]);
    }
  }

  lemma ReplyIsFound(queue: seq<Message>, p: nat)
    requires p != REQ_MSG_TYPE
    ensures FirstOfType(queue, p) < |queue| <==> HasReply(queue, p)
  {
    if FirstOfType(queue, p) < |queue| {
      assert IsReplyTo(queue[FirstOfType(queue, p)], p);
    }
  }

  lemma StepKeepsUnique(s: State, a: Action)
    requires RepliesUnique(s) && Enabled(s, a)
    requires a == ServerReceive ==>
               var p := s.queue[FirstOfType(s.queue, REQ_MSG_TYPE)].seqNum;
               0 < p && Unanswered(s, p) && !HasReply(s.queue, p) && p != REQ_MSG_TYPE
    ensures RepliesUnique(Apply(s, a))
  {
    hide FirstOfType, HasReply, OneReplyEach, Without;
    if a.ClientReceive? {
      ReplyIsFound(s.queue, a.p);
    }
    var s' := Apply(s, a);
    QueueAfter(s, a, 0);
    forall p | HasReply(s'.queue, p)
      ensures !InServer(s', p) && Unanswered(s', p)
    {
      QueueAfter(s, a, p);
    }
  }

  lemma StepKeepsUniqueInv(s: State, a: Action)
    requires UniqueInv(s) && Enabled(s, a)
    ensures UniqueInv(Apply(s, a))
  {
    hide *;
    UniqueParts(s);
    StepKeepsInv(s, a);
    StepKeepsOnce(s, a);
    if a == ServerReceive {
      ReceivedIsFresh(s);
    }
    StepKeepsUnique(s, a);
    UniqueParts(Apply(s, a));
  }

  lemma UniqueParts(s: State)
    ensures UniqueInv(s) <==> Inv(s) && OncePerClient(s) && RepliesUnique(s)
  {
  }

  lemma ReachableUnique(s: State)
    requires Reachable(Init, Next, s)
    ensures UniqueInv(s)
  {
    forall s | Init(s)
      ensures UniqueInv(s)
    {
      assert RepliesUnique(s);
    }
    forall s, s' | UniqueInv(s) && Next(s, s')
      ensures UniqueInv(s')
    {
      var a :| Enabled(s, a) && s' == Apply(s, a);
      StepKeepsUniqueInv(s, a);
    }
    InvariantReachable(Init, Next, UniqueInv, s);
  }

  lemma RangeAfter(s: State, a: Action, p: nat)
    requires Enabled(s, a)
    ensures HasRange(Apply(s, a), p)
            <==> HasRange(s, p) || (a == ServerReceive && s.queue[FirstOfType(s.queue, REQ_MSG_TYPE)].seqNum == p)
  {
    hide FirstOfType;
    var grants, grants' := s.grants, Apply(s, a).grants;
    assert forall k | 0 <= k < |grants| :: grants'[k] == grants[k];
    if a == ServerReceive {
      assert grants'[|grants|].pid == s.queue[FirstOfType(s.queue, REQ_MSG_TYPE)].seqNum;
    }
  }

  predicate InFlight(s: State, p: nat) {
    InServer(s, p) || HasReply(s.queue, p)
  }

  /** The reply about a range has been received or is on its way, unless it could not be sent; then there is none. */
  ghost predicate FateKnown(s: State, p: nat) {
    && (p in s.failed ==> HasRange(s, p) && Unanswered(s, p) && !InFlight(s, p))
    && (HasRange(s, p) && p !in s.failed ==>
          p in s.clients && (InFlight(s, p) || s.clients[p].pc.Got?))
  }

  ghost predicate FateInv(s: State) {
    UniqueInv(s) && forall p :: FateKnown(s, p)
  }

  lemma ServedHasRange(s: State, p: nat)
    requires Inv(s) && InServer(s, p)
    ensures HasRange(s, p)
  {
  }

  lemma IdleHasNoRange(s: State, p: nat)
    requires OncePerClient(s) && p in s.clients && s.clients[p].pc == Idle
    ensures !HasRange(s, p)
  {
  }

  lemma FateAfter(s: State, a: Action, p: nat)
    requires RepliesUnique(s) && FateKnown(s, p) && Enabled(s, a) && (InServer(s, p) ==> HasRange(s, p))
    requires a == ServerReceive ==>
               var q := s.queue[FirstOfType(s.queue, REQ_MSG_TYPE)].seqNum;
               Unanswered(s, q) && !HasRange(s, q) && q != REQ_MSG_TYPE
    requires a.ClientSend? ==> !HasRange(s, a.p)
    requires a.ClientReceive? ==> HasReply(s.queue, a.p)
    ensures FateKnown(Apply(s, a), p)
  {
    QueueAfter(s, a, p);
    RangeAfter(s, a, p);
    hide FirstOfType, HasReply, HasRange, OneReplyEach, Without;
  }

  lemma StepKeepsFate(s: State, a: Action)
    requires FateInv(s) && Enabled(s, a)
    ensures FateInv(Apply(s, a))
  {
    hide Inv, OncePerClient, FateKnown, HasReply, HasRange, OneReplyEach;
    StepKeepsUniqueInv(s, a);
    if a == ServerReceive {
      ReceivedIsFresh(s);
    }
    if a.ClientReceive? {
      PidsAboveOne(s);
      ReplyIsFound(s.queue, a.p);
    }
    forall p
      ensures FateKnown(Apply(s, a), p)
    {
      if InServer(s, p) {
        ServedHasRange(s, p);
      }
      if a.ClientSend? {
        IdleHasNoRange(s, a.p);
      }
      FateAfter(s, a, p);
    }
  }

  lemma PidsAboveOne(s: State)
    requires Inv(s)
    ensures forall p | p in s.clients :: p > REQ_MSG_TYPE
  {
  }

  lemma ReachableFate(s: State)
    requires Reachable(Init, Next, s)
    ensures FateInv(s)
  {
    forall s | Init(s)
      ensures FateInv(s)
    {
      assert RepliesUnique(s);
    }
    forall s, s' | FateInv(s) && Next(s, s')
      ensures FateInv(s')
    {
      var a :| Enabled(s, a) && s' == Apply(s, a);
      StepKeepsFate(s, a);
    }
    InvariantReachable(Init, Next, FateInv, s);
  }

  predicate Carries(msg: Message, g: Grant) {
    msg.mtype == g.pid && msg.seqNum == g.start && !IsRequest(msg)
  }

  /** The reply about this range is held by the server or queued. */
  predicate OnItsWay(s: State, g: Grant) {
    || (s.server.Sending? && Carries(s.server.msg, g))
    || exists i :: 0 <= i < |s.queue| && Carries(s.queue[i], g)
  }

  /** Any reply to the client of a range carries that range, as does what the client has received. */
  lemma ReplyCarriesRange(s: State, k: nat)
    requires Inv(s) && OncePerClient(s) && k < |s.grants|
    ensures var g := s.grants[k];
            && g.pid in s.clients
            && (InFlight(s, g.pid) <==> OnItsWay(s, g))
            && (s.clients[g.pid].pc.Got? ==> s.clients[g.pid].pc.start == g.start)
  {
    var g := s.grants[k];
    forall msg | ReplyOk(s, msg) && IsReplyTo(msg, g.pid)
      ensures Carries(msg, g)
    {
      SameGrant(s, k, msg.seqNum);
    }
    forall i | 0 <= i < |s.queue| && IsReplyTo(s.queue[i], g.pid)
      ensures Carries(s.queue[i], g)
    {
      assert MessageOk(s, s.queue[i]);
    }
    forall i | 0 <= i < |s.queue| && Carries(s.queue[i], g)
      ensures IsReplyTo(s.queue[i], g.pid)
    {
    }
    if s.clients[g.pid].pc.Got? {
      SameGrant(s, k, s.clients[g.pid].pc.start);
    }
  }

  lemma SameGrant(s: State, k: nat, start: int)
    requires OncePerClient(s) && k < |s.grants| && s.grants[k].pid in s.clients
    requires Grant(s.grants[k].pid, start, s.clients[s.grants[k].pid].increment) in s.grants
    ensures start == s.grants[k].start
  {
    var j :| 0 <= j < |s.grants| && s.grants[j] == Grant(s.grants[k].pid, start, s.clients[s.grants[k].pid].increment);
  }

  /** In every reachable state a range handed out has been received by its client, or its reply is with the server or
      in the queue and its client waits for it, if and only if neither its send failed nor its client has left. */
  lemma GapsAreFailuresOrDepartures(s: State, k: nat)
    requires Reachable(Init, Next, s) && k < |s.grants|
    ensures var g := s.grants[k];
            && g.pid in s.clients
            && (s.clients[g.pid].pc == Got(g.start) || (Waits(s, g.pid) && OnItsWay(s, g))
                <==> g.pid !in s.failed && s.clients[g.pid].pc != Gone)
  {
    ReachableFate(s);
    var g := s.grants[k];
    ReplyCarriesRange(s, k);
    assert HasRange(s, g.pid) && FateKnown(s, g.pid);
    hide Inv, OncePerClient, HasReply, OnItsWay;
  }

  /** A waiting client that has been given a range can never receive it if and only if the send to it failed. */
  lemma WaitsInVainIff(s: State, p: nat)
    requires Reachable(Init, Next, s) && Waits(s, p) && HasRange(s, p)
    ensures p in s.failed <==> !InFlight(s, p)
    ensures p in s.failed ==> !Enabled(s, ClientReceive(p))
  {
    ReachableFate(s);
    assert FateKnown(s, p);
    ReplyIsFound(s.queue, p);
  }

  // ---------- increments that are not positive ----------

  /** A client sends a message of type 1 with its pid; the server turns it into one with the pid as its type. */
  lemma ReceiveOne(s: State, p: nat, increment: int) returns (s': State)
    requires Reachable(Init, Next, s) && s.queue == [] && s.server == Receiving
    requires p in s.clients && s.clients[p].pc == Idle && p > 1
    ensures Reachable(Init, Next, s') && s'.queue == [] && s'.server == Sending(Message(p, s.seqNum, increment))
    ensures s'.seqNum == s.seqNum + increment && s'.grants == s.grants + [Grant(p, s.seqNum, increment)]
    ensures s'.clients == s.clients[p := Client(Sent, increment)] && s'.failed == s.failed
  {
    s' := Do(Init, Next, Enabled, Apply, s, ClientSend(p, increment));
    assert s'.queue == [Message(1, p, increment)];
    s' := Do(Init, Next, Enabled, Apply, s', ServerReceive);
    assert s'.queue == [];
  }

  /** Both ways of losing a range occur: the send can fail, and the client can leave before it receives its reply,
      which then stays in the queue. */
  lemma GapsReachable(s: State, p: nat, increment: int) returns (failed: State, left: State)
    requires Reachable(Init, Next, s) && s.queue == [] && s.server == Receiving
    requires p in s.clients && s.clients[p].pc == Idle && p > 1
    ensures Reachable(Init, Next, failed) && Waits(failed, p) && p in failed.failed && failed.queue == []
    ensures Reachable(Init, Next, left) && p in left.clients && left.clients[p].pc == Gone
    ensures left.queue == [Message(p, s.seqNum, increment)] && left.server == Receiving
  {
    var s' := ReceiveOne(s, p, increment);
    failed := Do(Init, Next, Enabled, Apply, s', ServerSend(false));
    left := Do(Init, Next, Enabled, Apply, s', ServerSend(true));
    left := Do(Init, Next, Enabled, Apply, left, ClientLeave(p));
  }

  /** A whole exchange with one client. */
  lemma ServeOne(s: State, p: nat, increment: int) returns (s': State)
    requires Reachable(Init, Next, s) && s.queue == [] && s.server == Receiving
    requires p in s.clients && s.clients[p].pc == Idle && p > 1
    ensures Reachable(Init, Next, s') && s'.queue == [] && s'.server == Receiving
    ensures s'.seqNum == s.seqNum + increment
    ensures s'.clients == s.clients[p := Client(Got(s.seqNum), increment)]
  {
    s' := ReceiveOne(s, p, increment);
    s' := Do(Init, Next, Enabled, Apply, s', ServerSend(true));
    s' := Do(Init, Next, Enabled, Apply, s', ClientReceive(p));
    assert s'.queue == [];
  }

  /** n different pids. */
  function Pid(k: nat): nat {
    k + 2
  }

  function Pids(n: nat): set<nat> {
    set k: nat | k < n :: Pid(k)
  }

  /** The first `served` of `total` clients have asked for v numbers each; the others have not asked yet. */
  ghost predicate ServedFor(s: State, v: int, served: nat, total: nat) {
    && Reachable(Init, Next, s) && s.queue == [] && s.server == Receiving && s.seqNum == served * v
    && s.clients.Keys == Pids(total)
    && forall k: nat | k < total ::
         s.clients[Pid(k)] == if k < served then Client(Got(k * v), v) else Client(Idle, 0)
  }

  lemma {:induction false} ServeMany(v: int, served: nat, total: nat) returns (s: State)
    requires served <= total
    ensures ServedFor(s, v, served, total)
  {
    if served == 0 {
      s := State([], map p | p in Pids(total) :: Client(Idle, 0), Receiving, 0, [], {});
      InitialReachable(Init, Next, s);
    } else {
      s := ServeMany(v, served - 1, total);
      hide Enabled, Apply, Init, Next;
      s := ServeOne(s, Pid(served - 1), v);
      assert (served - 1) * v + v == served * v;
    }
  }

  lemma BlockOf(x: nat, v: nat, n: nat)
    requires 0 < v && x < n * v
    ensures x / v < n && x / v * v <= x < x / v * v + v
  {
    if x / v >= n {
      MulMonotone(n, x / v, v);
    }
  }

  /** For any positive and any negative increment there is a run in which nothing else is asked for and two clients
      receive a common number. */
  lemma OverlapReachable(v: int, u: int) returns (s: State, p: nat, q: nat)
    requires u < 0 < v
    ensures Reachable(Init, Next, s) && p != q && p in s.clients && q in s.clients
    ensures s.clients[p].pc.Got? && s.clients[q].pc.Got? && Overlap(RangeOf(s, p), RangeOf(s, q))
    ensures forall r | r in s.clients :: s.clients[r].increment == v || s.clients[r].increment == u
  {
    var n: nat := -u;
    s := ServeMany(v, n, n + 2);
    hide Reachable;
    MulMonotone(1, v, n);
    var x: nat := n * v + u;
    BlockOf(x, v, n);
    var k := x / v;
    assert s.clients[Pid(k)] == Client(Got(k * v), v);
    var s1 := ServeOne(s, Pid(n), u);
    var s2 := ServeOne(s1, Pid(n + 1), v);
    forall r | r in s2.clients
      ensures s2.clients[r].increment == v || s2.clients[r].increment == u
    {
      var j: nat :| j < n + 2 && r == Pid(j);
    }
    s, p, q := s2, Pid(k), Pid(n + 1);
    assert In(x, RangeOf(s, p)) && In(x, RangeOf(s, q));
  }

  /** In every run in which all increments satisfy `ok`, with any number of clients, no number is received twice. */
  ghost predicate AlwaysDisjoint(ok: int -> bool) {
    forall s: State, p: nat, q: nat |
      && Reachable(Init, Next, s) && IncrementsOk(s, ok) && p != q
      && p in s.clients && s.clients[p].pc.Got? && q in s.clients && s.clients[q].pc.Got? ::
      !Overlap(RangeOf(s, p), RangeOf(s, q))
  }

  /** The client does not check its increment. A check that lets some positive increment through keeps all ranges
      disjoint in all runs if and only if it lets no negative one through. */
  lemma AlwaysDisjointIff(ok: int -> bool)
    requires exists v :: v > 0 && ok(v)
    ensures AlwaysDisjoint(ok) <==> forall u | u < 0 :: !ok(u)
  {
    if forall u | u < 0 :: !ok(u) {
      forall s: State, p: nat, q: nat |
        && Reachable(Init, Next, s) && IncrementsOk(s, ok) && p != q
        && p in s.clients && s.clients[p].pc.Got? && q in s.clients && s.clients[q].pc.Got?
        ensures !Overlap(RangeOf(s, p), RangeOf(s, q))
      {
        DeliveredRangesDisjoint(s, p, q);
      }
    } else {
      var v :| v > 0 && ok(v);
      var u :| u < 0 && ok(u);
      var s, p, q := OverlapReachable(v, u);
      assert IncrementsOk(s, ok);
    }
  }

  /** In every reachable state each range starts behind the one before it if and only if all the increments received,
      except perhaps the last, are positive. */
  lemma StartsIncreaseInRuns(s: State)
    requires Reachable(Init, Next, s)
    ensures forall k | 0 <= k < |s.grants| ::
              s.grants[k].pid in s.clients && s.grants[k].length == s.clients[s.grants[k].pid].increment
    ensures (forall i, j | 0 <= i < j < |s.grants| :: s.grants[i].start < s.grants[j].start)
            <==> forall k | 0 <= k < |s.grants| - 1 :: s.grants[k].length > 0
  {
    RunsRefine(s);
    ReachableOnce(s);
    StartsIncreaseIff(Abs(s));
  }

  // ---------- the queue and the server, updated in place ----------

  class Server {
    var queue: seq<Message>
    var clients: map<nat, Client>
    var server: ServerPc
    var seqNum: int
    var grants: seq<Grant>
    var failed: set<nat>

    ghost function Snapshot(): State
      reads this
    {
      State(queue, clients, server, seqNum, grants, failed)
    }

    constructor (pids: set<nat>)
      requires forall p | p in pids :: p > REQ_MSG_TYPE
      ensures clients.Keys == pids && Init(Snapshot())
    {
      queue, server, seqNum, grants, failed := [], Receiving, 0, [], {};
      clients := map p | p in pids :: Client(Idle, 0);
    }

    /** msgrcv: takes the first message of a type off the queue. */
    method Take(mtype: nat) returns (msg: Message)
      requires FirstOfType(queue, mtype) < |queue|
      modifies this`queue
      ensures msg == old(queue)[FirstOfType(old(queue), mtype)]
      ensures queue == Without(old(queue), FirstOfType(old(queue), mtype))
    {
      var i := 0;
      while queue[i].mtype != mtype
        invariant 0 <= i <= FirstOfType(queue, mtype)
        invariant forall k | 0 <= k < i :: queue[k].mtype != mtype
        decreases |queue| - i
      {
        i := i + 1;
      }
      msg := queue[i];
      queue := queue[..i] + queue[i + 1..];
    }

    /** One step; the server turns the request it holds into the reply, in the same buffer. */
    method Perform(a: Action)
      requires Enabled(Snapshot(), a)
      modifies this
      ensures Snapshot() == Apply(old(Snapshot()), a)
    {
      match a
      case ClientSend(p, increment) =>
        clients := clients[p := Client(Sent, increment)];
        queue := queue + [Message(REQ_MSG_TYPE, p, increment)];
      case ClientReceive(p) =>
        var msg := Take(p);
        clients := clients[p := clients[p].(pc := Got(msg.seqNum))];
      case ClientLeave(p) =>
        clients := clients[p := clients[p].(pc := Gone)];
      case ServerReceive =>
        var msg := Take(REQ_MSG_TYPE);
        msg := msg.(mtype := msg.seqNum);
        msg := msg.(seqNum := seqNum);
        seqNum := seqNum + msg.value;
        grants := grants + [Grant(msg.mtype, msg.seqNum, msg.value)];
        server := Sending(msg);
      case ServerSend(delivered) =>
        if delivered {
          queue := queue + [server.msg];
        } else {
          failed := failed + {server.msg.mtype};
        }
        server := Receiving;
    }
  }
}
