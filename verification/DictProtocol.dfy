/** The shared-memory dictionary (SP_HW12/lookup6.c and shm_server.c): any number of clients and one
    server share one record. Semaphore 0 keeps other clients out; semaphore 1 goes up by two and down by
    one twice, and serves both to wake the server and to await its answer. */
module DictProtocol {
  import opened Machines
  import opened DictSearch

  type ClientId = nat

  const MISSING := "XXXX"

  /** Where a client stands in `lookup`; each name says what it has just done. */
  datatype ClientPc = Idle | Typed | Grabbed | Written | Alerted | Served | Released | Matched | Replied

  /** `ticket`, `compared` and `copied` record history: the position of the client's own request among all
      requests, and how many requests had been answered when the reply was compared and when it was copied. */
  datatype Client = Client(pc: ClientPc, word: string, reply: Reply, ticket: nat, compared: nat, copied: nat)

  datatype ServerPc = Waiting | Searching | Answering(text: string) | Notifying

  /** `requests` lists the alerts so far, in order; the server has answered the first `answered` of them. */
  datatype Request = Request(client: ClientId, word: string)

  datatype State = State(
    table: seq<Record>,
    sem0: nat,
    sem1: nat,
    word: string,
    text: string,
    clients: map<ClientId, Client>,
    server: ServerPc,
    requests: seq<Request>,
    answered: nat)

  datatype Action =
    | Type(c: ClientId, typed: string)
    | Grab(c: ClientId)
    | WriteWord(c: ClientId)
    | Alert(c: ClientId)
    | Await(c: ClientId)
    | Release(c: ClientId)
    | Compare(c: ClientId)
    | Copy(c: ClientId)
    | ServerWait
    | ServerSearch
    | ServerAnswer
    | ServerNotify
  {
    predicate ByServer() {
      ServerWait? || ServerSearch? || ServerAnswer? || ServerNotify?
    }
  }

  /** The text the server leaves in the record for a word. */
  function Answer(table: seq<Record>, word: string): string {
    match LinearScan(table, word)
    case Found(text) => text
    case NotFound => MISSING
  }

  ghost predicate Init(s: State) {
    && s.sem0 == 1 && s.sem1 == 0
    && s.word == "" && s.text == ""
    && s.server == Waiting
    && s.requests == [] && s.answered == 0
    && forall c | c in s.clients :: s.clients[c].pc == Idle
  }

  predicate Enabled(s: State, a: Action) {
    match a
    case ServerWait => s.server == Waiting && s.sem1 >= 1
    case ServerSearch => s.server == Searching
    case ServerAnswer => s.server.Answering?
    case ServerNotify => s.server == Notifying && s.sem1 >= 1
    case _ =>
      && a.c in s.clients
      && var pc := s.clients[a.c].pc;
         match a
         case Type(_, _) => pc == Idle || pc == Replied
         case Grab(_) => pc == Typed && s.sem0 >= 1
         case WriteWord(_) => pc == Grabbed
         case Alert(_) => pc == Written
         case Await(_) => pc == Alerted && s.sem1 == 0
         case Release(_) => pc == Served
         case Compare(_) => pc == Released
         case Copy(_) => pc == Matched
  }

  function Apply(s: State, a: Action): State
    requires Enabled(s, a)
  {
    match a
    case Type(c, typed) => Put(s, c, s.clients[c].(pc := Typed, word := typed))
    case Grab(c) => Put(s, c, s.clients[c].(pc := Grabbed)).(sem0 := s.sem0 - 1)
    case WriteWord(c) => Put(s, c, s.clients[c].(pc := Written)).(word := s.clients[c].word)
    case Alert(c) =>
      Put(s, c, s.clients[c].(pc := Alerted, ticket := |s.requests|)).(
        sem1 := s.sem1 + 2, requests := s.requests + [Request(c, s.clients[c].word)])
    case Await(c) => Put(s, c, s.clients[c].(pc := Served))
    case Release(c) => Put(s, c, s.clients[c].(pc := Released)).(sem0 := s.sem0 + 1)
    case Compare(c) =>
      if s.text != MISSING then Put(s, c, s.clients[c].(pc := Matched, compared := s.answered))
      else Put(s, c, s.clients[c].(pc := Replied, reply := NotFound, compared := s.answered))
    case Copy(c) => Put(s, c, s.clients[c].(pc := Replied, reply := Found(s.text), copied := s.answered))
    case ServerWait => s.(server := Searching, sem1 := s.sem1 - 1)
    case ServerSearch => s.(server := Answering(Answer(s.table, s.word)))
    case ServerAnswer => s.(server := Notifying, text := s.server.text, answered := s.answered + 1)
    case ServerNotify => s.(server := Waiting, sem1 := s.sem1 - 1)
  }

  function Put(s: State, c: ClientId, client: Client): State {
    s.(clients := s.clients[c := client])
  }

  ghost predicate Next(s: State, s': State) {
    exists a :: Enabled(s, a) && s' == Apply(s, a)
  }

  // ---------- the invariant ----------

  /** Between its grab and its release a client holds semaphore 0. */
  predicate Holds(s: State, c: ClientId) {
    && c in s.clients
    && var pc := s.clients[c].pc;
       pc == Grabbed || pc == Written || pc == Alerted || pc == Served
  }

  predicate IsAlerted(s: State, c: ClientId) {
    c in s.clients && s.clients[c].pc == Alerted
  }

  ghost predicate Exclusive(s: State) {
    && s.sem0 <= 1
    && (s.sem0 == 1 ==> forall c :: !Holds(s, c))
    && (s.sem0 == 0 ==> exists c :: Holds(s, c))
    && forall c, d | Holds(s, c) && Holds(s, d) :: c == d
  }

  /** No request is in the server's hands. */
  predicate Quiet(s: State) {
    s.sem1 == 0 && s.server == Waiting && s.answered == |s.requests|
  }

  /** The four moments of one exchange, told apart by semaphore 1 and the server's position. */
  predicate Exchanging(s: State) {
    || (s.sem1 == 2 && s.server == Waiting && s.answered + 1 == |s.requests|)
    || (s.sem1 == 1 && s.server == Searching && s.answered + 1 == |s.requests|)
    || (s.sem1 == 1 && s.server == Answering(Answer(s.table, s.word)) && s.answered + 1 == |s.requests|)
    || (s.sem1 == 1 && s.server == Notifying && s.answered == |s.requests|)
    || Quiet(s)
  }

  /** The text in the record answers the latest answered request. */
  predicate TextIsLatest(s: State) {
    && s.answered <= |s.requests|
    && s.text == if s.answered == 0 then "" else Answer(s.table, s.requests[s.answered - 1].word)
  }

  predicate OwnTicket(s: State, c: ClientId, client: Client) {
    client.ticket < |s.requests| && s.requests[client.ticket] == Request(c, client.word)
  }

  /** The answer that was in the record once `n` requests had been answered. */
  function AnswerAt(s: State, n: nat): string
    requires 0 < n <= |s.requests|
  {
    Answer(s.table, s.requests[n - 1].word)
  }

  predicate ClientOk(s: State, c: ClientId, client: Client) {
    match client.pc
    case Written => s.word == client.word
    case Alerted => s.word == client.word && OwnTicket(s, c, client) && client.ticket + 1 == |s.requests|
    case Served => s.word == client.word && OwnTicket(s, c, client) && client.ticket + 1 == |s.requests| == s.answered
    case Released => OwnTicket(s, c, client) && client.ticket < s.answered
    case Matched =>
      && OwnTicket(s, c, client) && client.ticket < client.compared <= s.answered <= |s.requests|
      && AnswerAt(s, client.compared) != MISSING
    case Replied =>
      && OwnTicket(s, c, client) && client.ticket < client.compared <= s.answered <= |s.requests|
      && (client.reply.NotFound? <==> AnswerAt(s, client.compared) == MISSING)
      && (client.reply.Found? ==>
            && client.compared <= client.copied <= s.answered
            && client.reply.text == AnswerAt(s, client.copied))
    case _ => true
  }

  ghost predicate Inv(s: State) {
    && Exclusive(s)
    && Exchanging(s)
    && ((forall c :: !IsAlerted(s, c)) ==> Quiet(s))
    && TextIsLatest(s)
    && forall c | c in s.clients :: ClientOk(s, c, s.clients[c])
  }

  /** A step of one client leaves every other client where it was. */
  lemma OthersUntouched(s: State, a: Action, c: ClientId)
    requires Enabled(s, a) && !a.ByServer() && c != a.c
    ensures Holds(Apply(s, a), c) == Holds(s, c) && IsAlerted(Apply(s, a), c) == IsAlerted(s, c)
    ensures c in Apply(s, a).clients <==> c in s.clients
    ensures c in s.clients ==> Apply(s, a).clients[c] == s.clients[c]
  {
  }

  lemma ClientStepKeepsExclusive(s: State, a: Action)
    requires Exclusive(s) && Enabled(s, a) && !a.ByServer()
    ensures Exclusive(Apply(s, a))
  {
    var s' := Apply(s, a);
    forall c | c != a.c
      ensures Holds(s', c) == Holds(s, c)
    {
      OthersUntouched(s, a, c);
    }
    assert Holds(s, a.c) == (a.WriteWord? || a.Alert? || a.Await? || a.Release?);
    assert Holds(s', a.c) == (a.Grab? || a.WriteWord? || a.Alert? || a.Await?);
  }

  lemma ClientStepKeepsExchange(s: State, a: Action)
    requires Inv(s) && Enabled(s, a) && !a.ByServer()
    ensures Exchanging(Apply(s, a)) && TextIsLatest(Apply(s, a))
    ensures (forall c :: !IsAlerted(Apply(s, a), c)) ==> Quiet(Apply(s, a))
  {
    hide LinearScan, ClientOk;
    var s' := Apply(s, a);
    forall c | c != a.c
      ensures IsAlerted(s', c) == IsAlerted(s, c)
    {
      OthersUntouched(s, a, c);
    }
    if a.WriteWord? || a.Alert? {
      forall c
        ensures !IsAlerted(s, c)
      {
        assert IsAlerted(s, c) ==> Holds(s, c) && Holds(s, a.c);
      }
    }
    if a.Alert? {
      assert IsAlerted(s', a.c);
    } else if !a.Await? {
      assert IsAlerted(s', a.c) == IsAlerted(s, a.c);
    }
  }

  /** What is known of a client that has released the mutex only looks at answered requests, so it outlives
      every later request and every later answer. */
  lemma PastIsKept(s: State, s': State, c: ClientId, client: Client)
    requires ClientOk(s, c, client)
    requires client.pc != Written && client.pc != Alerted && client.pc != Served
    requires s'.table == s.table && s.requests <= s'.requests && s.answered <= s'.answered <= |s'.requests|
    ensures ClientOk(s', c, client)
  {
    if client.pc == Matched || client.pc == Replied {
      assert AnswerAt(s', client.compared) == AnswerAt(s, client.compared);
      if client.pc == Replied && client.reply.Found? {
        assert AnswerAt(s', client.copied) == AnswerAt(s, client.copied);
      }
    }
  }

  lemma OtherClientKept(s: State, a: Action, c: ClientId)
    requires Inv(s) && Enabled(s, a) && !a.ByServer() && c in s.clients && c != a.c
    ensures ClientOk(Apply(s, a), c, s.clients[c])
  {
    assert ClientOk(s, c, s.clients[c]);
    if Holds(s, c) {
      assert !Holds(s, a.c);
      HolderKept(s, a, c);
    } else {
      RequestsGrow(s, a);
      PastIsKept(s, Apply(s, a), c, s.clients[c]);
    }
  }

  /** Steps of clients that do not hold the mutex leave word, text and requests alone. */
  lemma HolderKept(s: State, a: Action, c: ClientId)
    requires Enabled(s, a) && !a.ByServer() && !Holds(s, a.c) && Holds(s, c) && ClientOk(s, c, s.clients[c])
    ensures ClientOk(Apply(s, a), c, s.clients[c])
  {
    hide LinearScan, Answer;
  }

  lemma RequestsGrow(s: State, a: Action)
    requires Enabled(s, a) && !a.ByServer()
    ensures Apply(s, a).table == s.table && s.requests <= Apply(s, a).requests && s.answered == Apply(s, a).answered
  {
  }

  lemma OwnClientKept(s: State, a: Action)
    requires Enabled(s, a) && !a.ByServer() && ClientOk(s, a.c, s.clients[a.c]) && TextIsLatest(s)
    requires a.Await? ==> Quiet(s)
    ensures ClientOk(Apply(s, a), a.c, Apply(s, a).clients[a.c])
  {
    hide LinearScan, Answer;
  }

  lemma ClientStepKeepsInv(s: State, a: Action)
    requires Inv(s) && Enabled(s, a) && !a.ByServer()
    ensures Inv(Apply(s, a))
  {
    var s' := Apply(s, a);
    ClientStepKeepsExclusive(s, a);
    ClientStepKeepsExchange(s, a);
    forall c | c in s'.clients
      ensures ClientOk(s', c, s'.clients[c])
    {
      if c == a.c {
        OwnClientKept(s, a);
      } else {
        OthersUntouched(s, a, c);
        OtherClientKept(s, a, c);
      }
    }
  }

  lemma ServerStepKeepsInv(s: State, a: Action)
    requires Inv(s) && Enabled(s, a) && a.ByServer()
    ensures Inv(Apply(s, a))
  {
    hide LinearScan;
    var s' := Apply(s, a);
    var h :| IsAlerted(s, h);
    assert ClientOk(s, h, s.clients[h]) && Holds(s, h) && IsAlerted(s', h);
    forall c
      ensures Holds(s', c) == Holds(s, c) && IsAlerted(s', c) == IsAlerted(s, c)
    {
    }
    forall c | c in s'.clients
      ensures ClientOk(s', c, s'.clients[c])
    {
      assert ClientOk(s, c, s.clients[c]);
      if c != h {
        assert !Holds(s, c);
      }
    }
  }

  /** The invariant holds in every reachable state, for any number of clients and every interleaving. */
  lemma ReachableInv(s: State)
    requires Reachable(Init, Next, s)
    ensures Inv(s)
  {
    forall s, s' | Inv(s) && Next(s, s')
      ensures Inv(s')
    {
      var a :| Enabled(s, a) && s' == Apply(s, a);
      if a.ByServer() {
        ServerStepKeepsInv(s, a);
      } else {
        ClientStepKeepsInv(s, a);
      }
    }
    InvariantReachable(Init, Next, Inv, s);
  }

  // ---------- safety ----------

  lemma MutualExclusion(s: State)
    requires Reachable(Init, Next, s)
    ensures var holders := set c | c in s.clients && Holds(s, c);
            s.sem0 + |holders| == 1
  {
    ReachableInv(s);
    var holders := set c | c in s.clients && Holds(s, c);
    if s.sem0 == 0 {
      var h :| Holds(s, h);
      assert holders == {h};
    } else {
      assert holders == {};
    }
  }

  /** Semaphore 1 alone tells where the server stands and whether a request is still open. */
  lemma SemaphoreOneTellsServer(s: State)
    requires Reachable(Init, Next, s)
    ensures s.sem1 <= 2
    ensures s.sem1 == 1 <==> s.server != Waiting
    ensures s.sem1 == 2 ==> exists c :: IsAlerted(s, c) && s.word == s.clients[c].word && s.answered < |s.requests|
    ensures s.sem1 == 0 ==> s.answered == |s.requests|
  {
    ReachableInv(s);
    if s.sem1 == 2 {
      var c :| IsAlerted(s, c);
      assert ClientOk(s, c, s.clients[c]);
    }
  }

  /** From the moment a client has written its word until it releases, no step of anyone changes the word. */
  lemma WordStable(s: State, a: Action, c: ClientId)
    requires Reachable(Init, Next, s) && Enabled(s, a)
    requires Holds(s, c) && s.clients[c].pc != Grabbed
    ensures Apply(s, a).word == s.word == s.clients[c].word
  {
    ReachableInv(s);
    assert ClientOk(s, c, s.clients[c]);
    if a.WriteWord? {
      assert Holds(s, a.c);
    }
  }

  /** A client that has passed its await finds the answer for its own word in the record. */
  lemma AnswerIsOwnAfterAwait(s: State, c: ClientId)
    requires Reachable(Init, Next, s)
    requires c in s.clients && s.clients[c].pc == Served
    ensures s.text == Answer(s.table, s.clients[c].word)
  {
    ReachableInv(s);
    assert ClientOk(s, c, s.clients[c]);
  }

  /** The reply is read after the release, in two reads. Each returns the answer to the latest request answered
      at that time, which is the client's own request or a later one. */
  lemma ReplyReadsOwnOrLater(s: State, c: ClientId)
    requires Reachable(Init, Next, s)
    requires c in s.clients && s.clients[c].pc == Replied
    ensures var k := s.clients[c];
            && k.ticket < k.compared <= s.answered <= |s.requests|
            && s.requests[k.ticket] == Request(c, k.word)
            && (k.reply == NotFound <==> AnswerAt(s, k.compared) == MISSING)
            && (k.reply != NotFound ==>
                  k.compared <= k.copied <= s.answered && k.reply == Found(AnswerAt(s, k.copied)))
  {
    ReachableInv(s);
    assert ClientOk(s, c, s.clients[c]);
  }

  /** When no other request was answered before its two reads, the client gets what a local lookup would give,
      except for a definition that is itself the server's "not found" text. */
  lemma UndisturbedReplyIsLocal(s: State, c: ClientId)
    requires Reachable(Init, Next, s)
    requires c in s.clients && s.clients[c].pc == Replied
    requires var k := s.clients[c];
             k.compared == k.ticket + 1 && (k.reply.Found? ==> k.copied == k.ticket + 1)
    ensures var k := s.clients[c];
            k.reply == LinearScan(s.table, k.word) <==> LinearScan(s.table, k.word) != Found("XXXX")
    ensures s.clients[c].reply == NotFound <==>
              LinearScan(s.table, s.clients[c].word) == NotFound || LinearScan(s.table, s.clients[c].word) == Found("XXXX")
  {
    ReplyReadsOwnOrLater(s, c);
  }

  // ---------- progress ----------

  /** The one move that carries the current exchange on, given the client that holds the mutex. */
  function NextMove(s: State, h: ClientId): Action
    requires Holds(s, h)
  {
    match s.clients[h].pc
    case Grabbed => WriteWord(h)
    case Written => Alert(h)
    case Served => Release(h)
    case _ =>
      match s.server
      case Searching => ServerSearch
      case Answering(_) => ServerAnswer
      case Notifying => ServerNotify
      case Waiting => if s.sem1 == 0 then Await(h) else ServerWait
  }

  /** How many moves are left until the holder has released the mutex. */
  function Remaining(s: State, h: ClientId): nat
    requires h in s.clients
  {
    match s.clients[h].pc
    case Grabbed => 8
    case Written => 7
    case Served => 1
    case Alerted =>
      (match s.server
       case Searching => 5
       case Answering(_) => 4
       case Notifying => 3
       case Waiting => if s.sem1 == 0 then 2 else 6)
    case _ => 0
  }

  /** The server only moves while the holder is waiting for it. */
  lemma ServerMovesForAlerted(s: State, h: ClientId)
    requires Inv(s) && Holds(s, h) && s.clients[h].pc != Alerted
    ensures Quiet(s)
  {
    forall c
      ensures !IsAlerted(s, c)
    {
      assert IsAlerted(s, c) ==> Holds(s, c);
    }
  }

  lemma NextMoveEnabled(s: State, h: ClientId)
    requires Inv(s) && Holds(s, h)
    ensures Enabled(s, NextMove(s, h))
  {
    assert ClientOk(s, h, s.clients[h]);
  }

  lemma NextMoveIsOnly(s: State, h: ClientId, a: Action)
    requires Inv(s) && Holds(s, h) && Enabled(s, a)
    ensures a.ByServer() || a.c == h <==> a == NextMove(s, h)
  {
    hide LinearScan;
    if s.clients[h].pc != Alerted {
      ServerMovesForAlerted(s, h);
    } else {
      assert ClientOk(s, h, s.clients[h]);
    }
  }

  lemma OthersDoNotDelay(s: State, h: ClientId, a: Action)
    requires Inv(s) && Holds(s, h) && Enabled(s, a) && !a.ByServer() && a.c != h
    ensures h in Apply(s, a).clients && Remaining(Apply(s, a), h) == Remaining(s, h)
  {
    assert !Holds(s, a.c);
    OthersUntouched(s, a, h);
    assert Apply(s, a).server == s.server && Apply(s, a).sem1 == s.sem1;
  }

  lemma NextMoveAdvances(s: State, h: ClientId)
    requires Inv(s) && Holds(s, h) && Enabled(s, NextMove(s, h))
    ensures var s' := Apply(s, NextMove(s, h));
            h in s'.clients && Remaining(s', h) == Remaining(s, h) - 1
  {
    hide LinearScan;
    if s.clients[h].pc != Alerted {
      ServerMovesForAlerted(s, h);
    }
  }

  /** While a client holds the mutex, exactly one move of the holder or the server is possible; it brings the
      release one move nearer, and no step of any other client delays it. */
  lemma ExchangeAdvances(s: State, h: ClientId, a: Action)
    requires Reachable(Init, Next, s) && Holds(s, h) && Enabled(s, a)
    ensures Enabled(s, NextMove(s, h))
    ensures a.ByServer() || a.c == h <==> a == NextMove(s, h)
    ensures h in Apply(s, a).clients
    ensures Remaining(Apply(s, a), h) == Remaining(s, h) - (if a == NextMove(s, h) then 1 else 0)
    ensures Remaining(s, h) == 1 <==> NextMove(s, h) == Release(h)
  {
    ReachableInv(s);
    NextMoveEnabled(s, h);
    NextMoveIsOnly(s, h, a);
    if a == NextMove(s, h) {
      NextMoveAdvances(s, h);
    } else {
      OthersDoNotDelay(s, h, a);
    }
  }

  lemma GrabStartsEightMoves(s: State, c: ClientId)
    requires Enabled(s, Grab(c))
    ensures Holds(Apply(s, Grab(c)), c) && Remaining(Apply(s, Grab(c)), c) == 8
  {
  }

  ghost predicate Step(s: State, a: Action, s': State) {
    Enabled(s, a) && s' == Apply(s, a)
  }

  /** How many of these steps were taken by client c or by the server. */
  function Moves(acts: seq<Action>, c: ClientId): nat {
    if acts == [] then 0
    else
      var last := acts[|acts| - 1];
      Moves(acts[..|acts| - 1], c) + (if last.ByServer() || last.c == c then 1 else 0)
  }

  lemma HoldsWhileMovesRemain(s: State, c: ClientId)
    ensures Holds(s, c) <==> c in s.clients && Remaining(s, c) > 0
  {
  }

  /** After the grab and before the release, the moves made and the moves that remain add up to eight. */
  lemma {:induction false} DuringExchange(run: seq<State>, acts: seq<Action>, c: ClientId, n: nat)
    requires IsTrace(Step, run, acts) && Reachable(Init, Next, run[0])
    requires 0 < n <= |acts| && acts[0] == Grab(c) && forall i | 0 < i < n :: acts[i] != Release(c)
    ensures Reachable(Init, Next, run[n]) && Holds(run[n], c)
    ensures Moves(acts[1..n], c) + Remaining(run[n], c) == 8
  {
    hide *;
    StepOfTrace(run, acts, n - 1);
    if n == 1 {
      GrabStartsEightMoves(run[0], c);
      NoMoves(c);
      assert acts[1..1] == [];
    } else {
      DuringExchange(run, acts, c, n - 1);
      ExchangeAdvances(run[n - 1], c, acts[n - 1]);
      HoldsWhileMovesRemain(run[n], c);
      HoldsWhileMovesRemain(run[n - 1], c);
      assert acts[1..n] == acts[1..n - 1] + [acts[n - 1]];
      MovesSnoc(acts[1..n - 1], acts[n - 1], c);
    }
    StepReachable(Init, Next, run[n - 1], run[n]);
  }

  lemma NoMoves(c: ClientId)
    ensures Moves([], c) == 0
  {
  }

  lemma MovesSnoc(acts: seq<Action>, a: Action, c: ClientId)
    ensures Moves(acts + [a], c) == Moves(acts, c) + (if a.ByServer() || a.c == c then 1 else 0)
  {
    assert (acts + [a])[..|acts|] == acts;
  }

  lemma StepOfTrace(run: seq<State>, acts: seq<Action>, n: nat)
    requires IsTrace(Step, run, acts) && n < |acts|
    ensures n + 1 < |run| && Enabled(run[n], acts[n]) && run[n + 1] == Apply(run[n], acts[n])
    ensures Next(run[n], run[n + 1])
  {
    assert Step(run[n], acts[n], run[n + 1]);
  }

  /** In every run, between a client's grab and its release there are exactly eight moves of that client and the
      server, the release included, however many steps other clients take in between. */
  lemma EightMovesToRelease(run: seq<State>, acts: seq<Action>, c: ClientId)
    requires IsTrace(Step, run, acts) && Reachable(Init, Next, run[0]) && |acts| > 1
    requires acts[0] == Grab(c) && acts[|acts| - 1] == Release(c)
    requires forall i | 0 < i < |acts| - 1 :: acts[i] != Release(c)
    ensures Moves(acts[1..], c) == 8
  {
    hide *;
    var n := |acts| - 1;
    DuringExchange(run, acts, c, n);
    StepOfTrace(run, acts, n);
    ExchangeAdvances(run[n], c, acts[n]);
    assert acts[1..] == acts[1..n] + [acts[n]];
    MovesSnoc(acts[1..n], acts[n], c);
    ReleaseIsByClient(c);
  }

  lemma ReleaseIsByClient(c: ClientId)
    ensures !Release(c).ByServer()
  {
  }

  /** No deadlock: while any client is inside `lookup`, some step other than typing a new word is possible. */
  lemma SomeoneCanMove(s: State, c: ClientId) returns (a: Action)
    requires Reachable(Init, Next, s)
    requires c in s.clients && s.clients[c].pc != Idle && s.clients[c].pc != Replied
    ensures Enabled(s, a) && !a.Type?
  {
    ReachableInv(s);
    if s.sem0 == 0 {
      var h :| Holds(s, h);
      a := NextMove(s, h);
      if s.clients[h].pc == Alerted {
        assert IsAlerted(s, h);
      }
    } else {
      assert !Holds(s, c);
      a := if s.clients[c].pc == Typed then Grab(c) else if s.clients[c].pc == Released then Compare(c) else Copy(c);
    }
  }

  // ---------- what the early release costs ----------

  lemma Ask(s: State, c: ClientId, word: string) returns (s': State)
    requires Reachable(Init, Next, s) && s.sem0 == 1 && Quiet(s)
    requires c in s.clients && (s.clients[c].pc == Idle || s.clients[c].pc == Replied)
    ensures Reachable(Init, Next, s')
    ensures s'.clients == s.clients[c := s.clients[c].(pc := Alerted, word := word, ticket := |s.requests|)]
    ensures s' == s.(clients := s'.clients, sem0 := 0, sem1 := 2, word := word, requests := s.requests + [Request(c, word)])
  {
    hide Reachable, Init;
    var s1 := Do(Init, Next, Enabled, Apply, s, Type(c, word));
    s1 := Do(Init, Next, Enabled, Apply, s1, Grab(c));
    assert s1 == s.(clients := s.clients[c := s.clients[c].(pc := Grabbed, word := word)], sem0 := 0);
    s' := WriteAndAlert(s1, c);
  }

  lemma WriteAndAlert(s: State, c: ClientId) returns (s': State)
    requires Reachable(Init, Next, s) && c in s.clients && s.clients[c].pc == Grabbed
    ensures Reachable(Init, Next, s')
    ensures s'.clients == s.clients[c := s.clients[c].(pc := Alerted, ticket := |s.requests|)]
    ensures s' == s.(clients := s'.clients, sem1 := s.sem1 + 2, word := s.clients[c].word, requests := s'.requests)
    ensures s'.requests == s.requests + [Request(c, s.clients[c].word)]
  {
    hide Reachable, Init;
    s' := Do(Init, Next, Enabled, Apply, s, WriteWord(c));
    s' := Do(Init, Next, Enabled, Apply, s', Alert(c));
  }

  lemma Serve(s: State) returns (s': State)
    requires Reachable(Init, Next, s) && s.sem1 == 2 && s.server == Waiting
    ensures Reachable(Init, Next, s')
    ensures s' == s.(sem1 := 0, text := Answer(s.table, s.word), answered := s.answered + 1)
  {
    hide Answer;
    s' := Do(Init, Next, Enabled, Apply, s, ServerWait);
    s' := Do(Init, Next, Enabled, Apply, s', ServerSearch);
    s' := Do(Init, Next, Enabled, Apply, s', ServerAnswer);
    s' := Do(Init, Next, Enabled, Apply, s', ServerNotify);
  }

  lemma Leave(s: State, c: ClientId) returns (s': State)
    requires Reachable(Init, Next, s) && s.sem1 == 0 && c in s.clients && s.clients[c].pc == Alerted
    ensures Reachable(Init, Next, s')
    ensures s' == s.(sem0 := s.sem0 + 1, clients := s.clients[c := s.clients[c].(pc := Released)])
  {
    s' := Do(Init, Next, Enabled, Apply, s, Await(c));
    s' := Do(Init, Next, Enabled, Apply, s', Release(c));
    assert s'.clients == s.clients[c := s.clients[c].(pc := Released)];
  }

  /** One undisturbed exchange, from typing the word to the release. */
  lemma Exchange(s: State, c: ClientId, word: string) returns (s': State)
    requires Reachable(Init, Next, s) && s.sem0 == 1
    requires c in s.clients && (s.clients[c].pc == Idle || s.clients[c].pc == Replied)
    ensures Reachable(Init, Next, s') && s'.sem0 == 1 && s'.table == s.table
    ensures s'.requests == s.requests + [Request(c, word)]
    ensures s'.text == Answer(s.table, word)
    ensures s'.clients.Keys == s.clients.Keys && forall d | d in s.clients && d != c :: s'.clients[d] == s.clients[d]
    ensures s'.clients[c].pc == Released && s'.clients[c].word == word
  {
    ReachableInv(s);
    forall d
      ensures !IsAlerted(s, d)
    {
      assert !Holds(s, d);
    }
    hide Inv, Answer, Apply, Enabled;
    s' := Ask(s, c, word);
    s' := Serve(s');
    s' := Leave(s', c);
  }

  lemma Start(table: seq<Record>, ids: set<ClientId>) returns (s: State)
    ensures Reachable(Init, Next, s) && s.table == table && s.sem0 == 1
    ensures s.clients.Keys == ids && s.requests == [] && forall c | c in ids :: s.clients[c].pc == Idle
  {
    var clients := map i | i in ids :: Client(Idle, "", NotFound, 0, 0, 0);
    s := State(table, 1, 0, "", "", clients, Waiting, [], 0);
    assert clients.Keys == ids;
    InitialReachable(Init, Next, s);
  }

  lemma MatchText(s: State, c: ClientId) returns (s': State)
    requires Reachable(Init, Next, s) && c in s.clients && s.clients[c].pc == Released && s.text != MISSING
    ensures Reachable(Init, Next, s')
    ensures s' == s.(clients := s.clients[c := s.clients[c].(pc := Matched, compared := s.answered)])
  {
    s' := Do(Init, Next, Enabled, Apply, s, Compare(c));
  }

  lemma CopyText(s: State, c: ClientId) returns (s': State)
    requires Reachable(Init, Next, s) && c in s.clients && s.clients[c].pc == Matched
    ensures Reachable(Init, Next, s') && s'.table == s.table && s'.clients.Keys == s.clients.Keys
    ensures s'.requests == s.requests && s'.sem0 == s.sem0
    ensures s'.clients[c].pc == Replied && s'.clients[c].word == s.clients[c].word
    ensures s'.clients[c].reply == Found(s.text)
  {
    s' := Do(Init, Next, Enabled, Apply, s, Copy(c));
  }

  /** For every dictionary, every word that it defines, every other word at all and any two clients there is a run
      in which the one that asks for the first word is told "found" with the answer of the second, even if that
      is "XXXX". */
  lemma ForeignReplyReachable(table: seq<Record>, ids: set<ClientId>, c: ClientId, d: ClientId,
                              asked: string, other: string)
    returns (s: State)
    requires Answer(table, asked) != MISSING && c in ids && d in ids && c != d
    ensures Reachable(Init, Next, s) && s.table == table && s.clients.Keys == ids
    ensures s.clients[c].pc == Replied && s.clients[c].word == asked
    ensures s.clients[c].reply == Found(Answer(table, other))
  {
    hide *;
    s := Start(table, ids);
    s := Exchange(s, c, asked);
    s := MatchText(s, c);
    s := Exchange(s, d, other);
    s := CopyText(s, c);
  }

  /** A whole lookup by one client, from any state in which nobody holds the mutex. */
  lemma WholeLookup(s: State, c: ClientId, word: string) returns (s': State)
    requires Reachable(Init, Next, s) && s.sem0 == 1
    requires c in s.clients && (s.clients[c].pc == Idle || s.clients[c].pc == Replied)
    ensures Reachable(Init, Next, s') && s'.sem0 == 1 && s'.table == s.table
    ensures s'.requests == s.requests + [Request(c, word)] && s'.clients.Keys == s.clients.Keys
    ensures s'.clients[c].pc == Replied && s'.clients[c].word == word
    ensures s'.clients[c].reply == Expected(s.table, word)
  {
    hide *;
    s' := Exchange(s, c, word);
    if s'.text == MISSING {
      s' := TextMissing(s', c);
    } else {
      s' := MatchText(s', c);
      s' := CopyText(s', c);
    }
    ExpectedIs(s.table, word);
  }

  lemma ExpectedIs(table: seq<Record>, word: string)
    ensures Expected(table, word) == if Answer(table, word) == MISSING then NotFound else Found(Answer(table, word))
  {
  }

  lemma TextMissing(s: State, c: ClientId) returns (s': State)
    requires Reachable(Init, Next, s) && c in s.clients && s.clients[c].pc == Released && s.text == MISSING
    ensures Reachable(Init, Next, s') && s'.requests == s.requests
    ensures s' == s.(clients := s.clients[c := s.clients[c].(pc := Replied, reply := NotFound, compared := s.answered)])
  {
    s' := Do(Init, Next, Enabled, Apply, s, Compare(c));
  }

  /** A client asks word after word: for any list of words there is a run in which the requests are this list, and
      each was answered with what the dictionary says. */
  lemma {:induction false} AsksWordAfterWord(table: seq<Record>, ids: set<ClientId>, c: ClientId, words: seq<string>)
    returns (s: State)
    requires c in ids
    ensures Reachable(Init, Next, s) && s.table == table && s.clients.Keys == ids && s.sem0 == 1
    ensures |s.requests| == |words| && forall k | 0 <= k < |words| :: s.requests[k] == Request(c, words[k])
    ensures s.clients[c].pc == if words == [] then Idle else Replied
    ensures words != [] ==> s.clients[c].reply == Expected(table, words[|words| - 1])
  {
    hide *;
    if words == [] {
      s := Start(table, ids);
    } else {
      s := AsksWordAfterWord(table, ids, c, words[..|words| - 1]);
      s := WholeLookup(s, c, words[|words| - 1]);
    }
  }

  /** The reply a client should get for its word. */
  function Expected(table: seq<Record>, word: string): Reply {
    if Answer(table, word) == MISSING then NotFound else Found(Answer(table, word))
  }

  predicate Alone(s: State) {
    forall c, d | c in s.clients && d in s.clients :: c == d
  }

  /** With one client there is never a request later than its own. */
  predicate LatestIsOwn(s: State, client: Client) {
    match client.pc
    case Alerted => client.ticket + 1 == |s.requests|
    case Served => client.ticket + 1 == |s.requests|
    case Released => client.ticket + 1 == |s.requests|
    case Matched => client.compared == client.ticket + 1 == |s.requests|
    case Replied =>
      client.compared == client.ticket + 1 == |s.requests| && (client.reply.Found? ==> client.copied == client.compared)
    case _ => true
  }

  ghost predicate AloneInv(s: State) {
    Inv(s) && (Alone(s) ==> forall c | c in s.clients :: LatestIsOwn(s, s.clients[c]))
  }

  lemma StepKeepsClients(s: State, a: Action)
    requires Enabled(s, a)
    ensures Apply(s, a).clients.Keys == s.clients.Keys
  {
  }

  lemma StepKeepsLatest(s: State, a: Action, c: ClientId)
    requires AloneInv(s) && Alone(s) && Enabled(s, a) && c in s.clients
    ensures c in Apply(s, a).clients && LatestIsOwn(Apply(s, a), Apply(s, a).clients[c])
  {
    StepKeepsClients(s, a);
    assert LatestIsOwn(s, s.clients[c]) && ClientOk(s, c, s.clients[c]);
  }

  lemma AloneStep(s: State, s': State)
    requires AloneInv(s) && Next(s, s')
    ensures AloneInv(s')
  {
    hide Inv, LatestIsOwn, Apply, Enabled;
    var a :| Enabled(s, a) && s' == Apply(s, a);
    if a.ByServer() {
      ServerStepKeepsInv(s, a);
    } else {
      ClientStepKeepsInv(s, a);
    }
    StepKeepsClients(s, a);
    if Alone(s') {
      forall c | c in s'.clients
        ensures LatestIsOwn(s', s'.clients[c])
      {
        StepKeepsLatest(s, a, c);
      }
    }
  }

  ghost predicate RepliesAlwaysOwn(table: seq<Record>, ids: set<ClientId>) {
    forall s: State, c |
      Reachable(Init, Next, s) && s.table == table && s.clients.Keys == ids && c in s.clients && s.clients[c].pc == Replied ::
      s.clients[c].reply == Expected(table, s.clients[c].word)
  }

  lemma AloneRepliesOwn(s: State, c: ClientId)
    requires Reachable(Init, Next, s) && Alone(s) && c in s.clients && s.clients[c].pc == Replied
    ensures s.clients[c].reply == Expected(s.table, s.clients[c].word)
  {
    forall s, s' | AloneInv(s) && Next(s, s')
      ensures AloneInv(s')
    {
      AloneStep(s, s');
    }
    InvariantReachable(Init, Next, AloneInv, s);
    assert LatestIsOwn(s, s.clients[c]) && ClientOk(s, c, s.clients[c]);
  }

  /** So for a dictionary with two different answers, every client is always told the answer to its own word if and
      only if there is at most one client. */
  lemma RepliesOwnIffAlone(table: seq<Record>, ids: set<ClientId>, asked: string, other: string)
    requires Answer(table, asked) != MISSING && Answer(table, other) != Answer(table, asked)
    ensures RepliesAlwaysOwn(table, ids) <==> forall c, d | c in ids && d in ids :: c == d
  {
    if forall c, d | c in ids && d in ids :: c == d {
      forall s: State, c | Reachable(Init, Next, s) && s.table == table && s.clients.Keys == ids && c in s.clients
                           && s.clients[c].pc == Replied
        ensures s.clients[c].reply == Expected(table, s.clients[c].word)
      {
        AloneRepliesOwn(s, c);
      }
    } else {
      var c, d :| c in ids && d in ids && c != d;
      var s := ForeignReplyReachable(table, ids, c, d, asked, other);
      assert s.clients[c].reply != Expected(table, s.clients[c].word);
    }
  }

  // ---------- the record and its semaphores, updated in place ----------

  class SharedRecord {
    const table: seq<Record>
    var sem0: nat
    var sem1: nat
    var word: string
    var text: string
    var clients: map<ClientId, Client>
    var server: ServerPc
    var requests: seq<Request>
    var answered: nat

    ghost function Snapshot(): State
      reads this
    {
      State(table, sem0, sem1, word, text, clients, server, requests, answered)
    }

    constructor (table: seq<Record>, ids: set<ClientId>)
      ensures this.table == table && clients.Keys == ids
      ensures Init(Snapshot())
    {
      this.table := table;
      sem0, sem1, word, text := 1, 0, "", "";
      clients := map c | c in ids :: Client(Idle, "", NotFound, 0, 0, 0);
      server, requests, answered := Waiting, [], 0;
    }

    /** One atomic step of a client or of the server; the server searches its sorted file. */
    method Perform(a: Action)
      requires Enabled(Snapshot(), a)
      requires Sorted(table) && |table| <= 0x4000_0000
      modifies this
      ensures Snapshot() == Apply(old(Snapshot()), a)
    {
      match a
      case Type(c, typed) =>
        clients := clients[c := clients[c].(pc := Typed, word := typed)];
      case Grab(c) =>
        sem0 := sem0 - 1;
        Advance(c, Grabbed);
      case WriteWord(c) =>
        word := clients[c].word;
        Advance(c, Written);
      case Alert(c) =>
        sem1 := sem1 + 2;
        clients := clients[c := clients[c].(pc := Alerted, ticket := |requests|)];
        requests := requests + [Request(c, clients[c].word)];
      case Await(c) =>
        Advance(c, Served);
      case Release(c) =>
        sem0 := sem0 + 1;
        Advance(c, Released);
      case Compare(c) =>
        if text != MISSING {
          clients := clients[c := clients[c].(pc := Matched, compared := answered)];
        } else {
          clients := clients[c := clients[c].(pc := Replied, reply := NotFound, compared := answered)];
        }
      case Copy(c) =>
        clients := clients[c := clients[c].(pc := Replied, reply := Found(text), copied := answered)];
      case ServerWait =>
        sem1 := sem1 - 1;
        server := Searching;
      case ServerSearch =>
        var found := Lookup(table, word);
        server := Answering(if found.Found? then found.text else MISSING);
      case ServerAnswer =>
        text := server.text;
        server := Notifying;
        answered := answered + 1;
      case ServerNotify =>
        sem1 := sem1 - 1;
        server := Waiting;
    }

    method Advance(c: ClientId, pc: ClientPc)
      requires c in clients
      modifies this`clients
      ensures clients == old(clients)[c := old(clients)[c].(pc := pc)]
    {
      clients := clients[c := clients[c].(pc := pc)];
    }
  }
}
