/** The lossy ring broadcast (SP_HW10): one producer overwrites ring slots without waiting and signals every
    consumer; a consumer counts a signal only if the slot still prints the signalled index. */
module RingBroadcast {
  import opened Machines
  import opened Arithmetic
  import opened CLibrary

  /** Where a consumer's signal handler stands; v is the index its signal carries. */
  datatype HandlerPc =
    | Suspended
    | Comparing(v: nat)
    | Locking(v: nat)
    | Loading(v: nat)
    | Storing(v: nat, loaded: nat)
    | Posting

  /** `sent`, `counted`, `rejected` and `coalesced` record history: every index signalled to this consumer, and
      what has become of those no longer pending or in the handler. */
  datatype Consumer = Consumer(
    pending: seq<nat>,
    pc: HandlerPc,
    sent: seq<nat>,
    counted: set<nat>,
    rejected: set<nat>,
    coalesced: set<nat>)

  datatype ProducerPc =
    | Writing(i: nat)
    | Sending(i: nat, j: nat)
    | Killing(k: nat)
    | FinalPrint
    | FinalPost(printed: nat)
    | Exited(printed: nat)

  datatype State = State(
    rows: nat,
    data: nat,
    slots: seq<string>,
    cnt: nat,
    sem: nat,
    producer: ProducerPc,
    consumers: seq<Consumer>)

  datatype Action =
    | WriteSlot
    | Send(merge: bool, timeout: bool)
    | StartKilling
    | Kill
    | LockFinal
    | Print
    | PostFinal
    | Deliver(c: nat, k: nat)
    | Compare(c: nat)
    | Lock(c: nat)
    | Load(c: nat)
    | Store(c: nat)
    | Post(c: nat)
  {
    predicate ByConsumer() {
      Deliver? || Compare? || Lock? || Load? || Store? || Post?
    }
  }

  const NEW_CONSUMER := Consumer([], Suspended, [], {}, {}, {})

  ghost predicate Init(s: State) {
    && HasRing(s) && 0 < s.data && 0 < |s.consumers|
    && (forall r | 0 <= r < s.rows :: s.slots[r] == "")
    && s.cnt == 0 && s.sem == 1
    && s.producer == Writing(0)
    && forall c | 0 <= c < |s.consumers| :: s.consumers[c] == NEW_CONSUMER
  }

  /** Between sem_wait and sem_post. */
  predicate InSection(consumer: Consumer) {
    consumer.pc.Loading? || consumer.pc.Storing? || consumer.pc.Posting?
  }

  predicate ProducerInSection(s: State) {
    s.producer.FinalPrint? || s.producer.FinalPost?
  }

  predicate Alive(s: State, c: nat) {
    c < |s.consumers| &&
    match s.producer
    case Writing(_) => true
    case Sending(_, _) => true
    case Killing(k) => k <= c
    case _ => false
  }

  predicate HasRing(s: State) {
    0 < s.rows == |s.slots|
  }

  predicate Enabled(s: State, a: Action) {
    HasRing(s) &&
    if a.ByConsumer() then
      && Alive(s, a.c)
      && var consumer := s.consumers[a.c];
         match a
         case Deliver(_, k) => consumer.pc.Suspended? && k < |consumer.pending|
         case Compare(_) => consumer.pc.Comparing?
         case Lock(_) => consumer.pc.Locking? && s.sem > 0
         case Load(_) => consumer.pc.Loading?
         case Store(_) => consumer.pc.Storing?
         case _ => consumer.pc.Posting?
    else
      match a
      case WriteSlot => s.producer.Writing? && s.producer.i < s.data
      case Send(merge, _) =>
        && s.producer.Sending? && s.producer.j < |s.consumers|
        && (merge ==> s.consumers[s.producer.j].pending != [])
      case StartKilling => s.producer == Writing(s.data)
      // Process death inside the section is outside this model.
      case Kill => s.producer.Killing? && s.producer.k < |s.consumers| && !InSection(s.consumers[s.producer.k])
      case LockFinal => s.producer == Killing(|s.consumers|) && s.sem > 0
      case Print => s.producer.FinalPrint?
      case _ => s.producer.FinalPost?
  }

  function Sent(consumer: Consumer, i: nat, merge: bool): Consumer {
    consumer.(
      sent := consumer.sent + [i],
      pending := if merge then consumer.pending else consumer.pending + [i],
      coalesced := if merge then consumer.coalesced + {i} else consumer.coalesced)
  }

  /** A consumer step as seen by that consumer alone. */
  function Handle(s: State, a: Action): Consumer
    requires a.ByConsumer() && Enabled(s, a)
  {
    var consumer := s.consumers[a.c];
    match a
    case Deliver(_, k) =>
      consumer.(pc := Comparing(consumer.pending[k]), pending := consumer.pending[..k] + consumer.pending[k + 1..])
    case Compare(_) =>
      var v := consumer.pc.v;
      if s.slots[v % s.rows] == Decimal(v) then consumer.(pc := Locking(v))
      else consumer.(pc := Suspended, rejected := consumer.rejected + {v})
    case Lock(_) => consumer.(pc := Loading(consumer.pc.v))
    case Load(_) => consumer.(pc := Storing(consumer.pc.v, s.cnt))
    case Store(_) => consumer.(pc := Posting, counted := consumer.counted + {consumer.pc.v})
    case _ => consumer.(pc := Suspended)
  }

  function Apply(s: State, a: Action): State
    requires Enabled(s, a)
  {
    if a.ByConsumer() then
      s.(consumers := s.consumers[a.c := Handle(s, a)],
         cnt := if a.Store? then s.consumers[a.c].pc.loaded + 1 else s.cnt,
         sem := if a.Lock? then s.sem - 1 else if a.Post? then s.sem + 1 else s.sem)
    else
      match a
      case WriteSlot =>
        var i := s.producer.i;
        s.(slots := s.slots[i % s.rows := Decimal(i)], producer := Sending(i, 0))
      case Send(merge, timeout) =>
        var Sending(i, j) := s.producer;
        s.(consumers := s.consumers[j := Sent(s.consumers[j], i, merge)],
           producer := if timeout || j + 1 == |s.consumers| then Writing(i + 1) else Sending(i, j + 1))
      case StartKilling => s.(producer := Killing(0))
      case Kill => s.(producer := Killing(s.producer.k + 1))
      case LockFinal => s.(producer := FinalPrint, sem := s.sem - 1)
      case Print => s.(producer := FinalPost(s.cnt))
      case _ => s.(producer := Exited(s.producer.printed), sem := s.sem + 1)
  }

  ghost predicate Next(s: State, s': State) {
    exists a :: Enabled(s, a) && s' == Apply(s, a)
  }

  // ---------- the ring ----------

  /** How many indices the producer has written so far; the newest is one less. */
  function Written(s: State): nat {
    match s.producer
    case Writing(i) => i
    case Sending(i, _) => i + 1
    case _ => s.data
  }

  /** Slot r prints the newest written index congruent to r, or is still empty. */
  ghost predicate SlotIsNewest(s: State, r: nat)
    requires HasRing(s) && r < s.rows
  {
    if s.slots[r] == "" then forall n: nat | n < Written(s) :: n % s.rows != r
    else exists n: nat :: PrintedIn(s, r, n)
  }

  ghost predicate PrintedIn(s: State, r: nat, n: nat)
    requires HasRing(s) && r < s.rows
  {
    n < Written(s) <= n + s.rows && n % s.rows == r && s.slots[r] == Decimal(n)
  }

  lemma OtherSlotInLap(n: nat, i: nat, rows: nat)
    requires 0 < rows && n % rows != i % rows && i <= n + rows
    ensures i + 1 <= n + rows
  {
    if i == n + rows {
      OneLapCongruent(n, rows);
    }
  }

  lemma WriteKeepsSlot(s: State, r: nat)
    requires Enabled(s, WriteSlot) && r < s.rows && SlotIsNewest(s, r)
    ensures SlotIsNewest(Apply(s, WriteSlot), r)
  {
    var s', i := Apply(s, WriteSlot), s.producer.i;
    var own := i % s.rows;
    assert s'.slots == s.slots[own := Decimal(i)] && Written(s) == i && Written(s') == i + 1;
    if r == own {
      assert PrintedIn(s', r, i);
    } else if s.slots[r] != "" {
      var n :| PrintedIn(s, r, n);
      OtherSlotInLap(n, i, s.rows);
      assert PrintedIn(s', r, n);
    }
  }

  /** The comparison in the handler succeeds exactly while the producer is less than one lap ahead. */
  lemma SlotStillHolds(s: State, v: nat)
    requires HasRing(s) && v < Written(s) && SlotIsNewest(s, v % s.rows)
    ensures s.slots[v % s.rows] == Decimal(v) <==> Written(s) <= v + s.rows
  {
    var n :| PrintedIn(s, v % s.rows, n);
    if s.slots[v % s.rows] == Decimal(v) {
      DecimalInjective(n, v);
    }
    if Written(s) <= v + s.rows {
      CongruentAndClose(n, v, s.rows);
    }
  }

  // ---------- where every signal is ----------

  function InHandler(consumer: Consumer): multiset<nat> {
    match consumer.pc
    case Comparing(v) => multiset{v}
    case Locking(v) => multiset{v}
    case Loading(v) => multiset{v}
    case Storing(v, _) => multiset{v}
    case _ => multiset{}
  }

  /** Every signal ever sent to this consumer is in exactly one place. */
  ghost predicate Conserved(consumer: Consumer) {
    multiset(consumer.sent)
    == multiset(consumer.pending) + InHandler(consumer)
       + multiset(consumer.counted) + multiset(consumer.rejected) + multiset(consumer.coalesced)
  }

  /** Indices are sent in increasing order, all below `bound`. */
  predicate SentBelow(consumer: Consumer, bound: nat) {
    && (forall p, q | 0 <= p < q < |consumer.sent| :: consumer.sent[p] < consumer.sent[q])
    && forall p | 0 <= p < |consumer.sent| :: consumer.sent[p] < bound
  }

  function Bound(s: State, c: nat): nat {
    match s.producer
    case Writing(i) => i
    case Sending(i, j) => if c < j then i + 1 else i
    case _ => s.data
  }

  lemma IncreasingHasNoRepeats(xs: seq<nat>, v: nat)
    requires forall p, q | 0 <= p < q < |xs| :: xs[p] < xs[q]
    ensures multiset(xs)[v] <= 1
  {
    if xs != [] {
      var front := xs[..|xs| - 1];
      IncreasingHasNoRepeats(front, v);
      assert xs == front + [xs[|xs| - 1]];
      if v == xs[|xs| - 1] {
        assert v !in front;
      }
    }
  }

  /** A signal in the handler has not been decided before, so deciding it keeps the sum. */
  lemma HandledIsNew(consumer: Consumer, bound: nat, v: nat)
    requires Conserved(consumer) && SentBelow(consumer, bound) && v in InHandler(consumer)
    ensures v !in consumer.counted && v !in consumer.rejected && v !in consumer.coalesced
    ensures v in consumer.sent
  {
    IncreasingHasNoRepeats(consumer.sent, v);
    assert v in multiset(consumer.sent);
  }

  lemma TakeOne(xs: seq<nat>, k: nat)
    requires k < |xs|
    ensures multiset(xs) == multiset(xs[..k] + xs[k + 1..]) + multiset{xs[k]}
  {
    assert xs == xs[..k] + [xs[k]] + xs[k + 1..];
  }

  lemma AddNew(xs: set<nat>, v: nat)
    requires v !in xs
    ensures multiset(xs + {v}) == multiset(xs) + multiset{v}
  {
  }

  /** Moving index v out of the handler and into one of the three sets of decided ones. */
  predicate Decides(before: Consumer, after: Consumer, v: nat) {
    && InHandler(before) == InHandler(after) + multiset{v}
    && after.pending == before.pending && after.sent == before.sent && after.coalesced == before.coalesced
    && ((after.counted == before.counted + {v} && after.rejected == before.rejected)
        || (after.counted == before.counted && after.rejected == before.rejected + {v}))
  }

  lemma DecisionConserves(before: Consumer, after: Consumer, bound: nat, v: nat)
    requires Conserved(before) && SentBelow(before, bound) && Decides(before, after, v)
    ensures Conserved(after)
  {
    HandledIsNew(before, bound, v);
    hide InHandler;
    AddNew(before.rejected, v);
    AddNew(before.counted, v);
  }

  lemma DeliveryConserves(before: Consumer, after: Consumer, k: nat)
    requires Conserved(before) && before.pc == Suspended && k < |before.pending|
    requires after == before.(pc := Comparing(before.pending[k]), pending := before.pending[..k] + before.pending[k + 1..])
    ensures Conserved(after)
  {
    TakeOne(before.pending, k);
  }

  /** The other steps of the handler only move on. */
  lemma MovingOnConserves(s: State, a: Action)
    requires (a.Lock? || a.Load? || a.Post?) && Enabled(s, a) && Conserved(s.consumers[a.c])
    ensures Conserved(Handle(s, a))
  {
    hide Conserved;
    var before, after := s.consumers[a.c], Handle(s, a);
    assert InHandler(after) == InHandler(before) && after == before.(pc := after.pc);
    SamePlaces(before, after);
  }

  lemma SamePlaces(before: Consumer, after: Consumer)
    requires Conserved(before) && after == before.(pc := after.pc) && InHandler(after) == InHandler(before)
    ensures Conserved(after)
  {
  }

  lemma SentUnchanged(s: State, a: Action)
    requires a.ByConsumer() && Enabled(s, a)
    ensures Handle(s, a).sent == s.consumers[a.c].sent
  {
    hide Decimal;
  }

  lemma HandleConserves(s: State, a: Action, bound: nat)
    requires a.ByConsumer() && Enabled(s, a)
    requires Conserved(s.consumers[a.c]) && SentBelow(s.consumers[a.c], bound)
    ensures Conserved(Handle(s, a)) && SentBelow(Handle(s, a), bound)
  {
    hide Conserved, Decimal;
    SentUnchanged(s, a);
    var before, after := s.consumers[a.c], Handle(s, a);
    if a.Deliver? {
      DeliveryConserves(before, after, a.k);
    } else if a.Compare? || a.Store? {
      if after.pc != Locking(before.pc.v) {
        DecisionConserves(before, after, bound, before.pc.v);
      } else {
        SamePlaces(before, after);
      }
    } else {
      MovingOnConserves(s, a);
    }
  }

  lemma SendConserves(consumer: Consumer, i: nat, merge: bool)
    requires Conserved(consumer) && SentBelow(consumer, i)
    ensures Conserved(Sent(consumer, i, merge)) && SentBelow(Sent(consumer, i, merge), i + 1)
  {
    NotSentYet(consumer, i);
    AppendOne(consumer.sent, i);
    if merge {
      AddNew(consumer.coalesced, i);
      PlacesAdd(consumer, Sent(consumer, i, merge), i);
    } else {
      AppendOne(consumer.pending, i);
      PlacesAdd(consumer, Sent(consumer, i, merge), i);
    }
  }

  /** One more signal sent, and one more in one of the two places a new signal can go to. */
  lemma PlacesAdd(before: Consumer, after: Consumer, i: nat)
    requires Conserved(before) && InHandler(after) == InHandler(before)
    requires after.counted == before.counted && after.rejected == before.rejected
    requires multiset(after.sent) == multiset(before.sent) + multiset{i}
    requires multiset(after.pending) + multiset(after.coalesced)
             == multiset(before.pending) + multiset(before.coalesced) + multiset{i}
    ensures Conserved(after)
  {
    hide InHandler;
    var handler := InHandler(before);
    assert multiset(after.sent)
        == (multiset(before.pending) + multiset(before.coalesced) + multiset{i})
           + handler + multiset(before.counted) + multiset(before.rejected);
  }

  lemma AppendOne(xs: seq<nat>, i: nat)
    ensures multiset(xs + [i]) == multiset(xs) + multiset{i}
  {
  }

  lemma NotSentYet(consumer: Consumer, i: nat)
    requires Conserved(consumer) && SentBelow(consumer, i)
    ensures i !in consumer.coalesced
  {
    assert i !in multiset(consumer.sent);
  }

  // ---------- the counter ----------

  function Total(consumers: seq<Consumer>, weigh: Consumer -> nat): nat {
    if consumers == [] then 0 else weigh(consumers[0]) + Total(consumers[1..], weigh)
  }

  lemma {:induction false} TotalUpdate(consumers: seq<Consumer>, c: nat, consumer: Consumer, weigh: Consumer -> nat)
    requires c < |consumers|
    ensures Total(consumers[c := consumer], weigh) == Total(consumers, weigh) - weigh(consumers[c]) + weigh(consumer)
  {
    if c == 0 {
      assert consumers[c := consumer][1..] == consumers[1..];
    } else {
      assert consumers[c := consumer][1..] == consumers[1..][c - 1 := consumer];
      TotalUpdate(consumers[1..], c - 1, consumer, weigh);
    }
  }

  const COUNTED: Consumer -> nat := (consumer: Consumer) => |consumer.counted|
  const SENT: Consumer -> nat := (consumer: Consumer) => |consumer.sent|
  const NOT_COUNTED: Consumer -> nat := (consumer: Consumer) =>
    |consumer.rejected| + |consumer.coalesced| + |consumer.pending| + |InHandler(consumer)|

  lemma {:induction false} ConservedInTotal(consumers: seq<Consumer>)
    requires forall c | 0 <= c < |consumers| :: Conserved(consumers[c])
    ensures Total(consumers, SENT) == Total(consumers, COUNTED) + Total(consumers, NOT_COUNTED)
  {
    if consumers != [] {
      assert Conserved(consumers[0]);
      assert |multiset(consumers[0].sent)| == |consumers[0].sent|;
      ConservedInTotal(consumers[1..]);
    }
  }

  // ---------- the invariant ----------

  predicate ProducerOk(s: State) {
    && HasRing(s) && 0 < s.data && 0 < |s.consumers|
    && match s.producer
       case Writing(i) => i <= s.data
       case Sending(i, j) => i < s.data && j < |s.consumers|
       case Killing(k) => k <= |s.consumers|
       case FinalPost(printed) => printed == s.cnt
       case Exited(printed) => printed == s.cnt
       case _ => true
  }

  ghost predicate RingOk(s: State) {
    HasRing(s) && forall r: nat | r < s.rows :: SlotIsNewest(s, r)
  }

  ghost predicate ConsumersOk(s: State) {
    forall c: nat | c < |s.consumers| :: Conserved(s.consumers[c]) && SentBelow(s.consumers[c], Bound(s, c))
  }

  /** The processes inside the section: consumers by number, and the producer by the number after the last. */
  predicate Inside(s: State, c: nat) {
    if c < |s.consumers| then Alive(s, c) && InSection(s.consumers[c])
    else c == |s.consumers| && ProducerInSection(s)
  }

  ghost predicate SectionOk(s: State) {
    && s.sem <= 1
    && (s.sem == 1 ==> forall c :: !Inside(s, c))
    && (s.sem == 0 ==> exists c :: Inside(s, c))
    && (forall c, d | Inside(s, c) && Inside(s, d) :: c == d)
    && forall c: nat | c < |s.consumers| && Alive(s, c) && s.consumers[c].pc.Storing? :: s.consumers[c].pc.loaded == s.cnt
  }

  /** A rejected index has been lapped. */
  ghost predicate RejectedLapped(s: State) {
    forall c: nat, v | c < |s.consumers| && v in s.consumers[c].rejected :: v + s.rows < Written(s)
  }

  ghost predicate Inv(s: State) {
    && ProducerOk(s)
    && RejectedLapped(s)
    && RingOk(s)
    && ConsumersOk(s)
    && SectionOk(s)
    && s.cnt == Total(s.consumers, COUNTED)
  }

  lemma StepKeepsRing(s: State, a: Action)
    requires Inv(s) && Enabled(s, a)
    ensures RingOk(Apply(s, a))
  {
    var s' := Apply(s, a);
    forall r: nat | r < s.rows
      ensures SlotIsNewest(s', r)
    {
      if a.WriteSlot? {
        WriteKeepsSlot(s, r);
      } else {
        assert SlotIsNewest(s, r);
        if s.slots[r] != "" {
          var n :| PrintedIn(s, r, n);
          assert PrintedIn(s', r, n);
        }
      }
    }
  }

  lemma BoundGrows(s: State, a: Action, c: nat)
    requires ProducerOk(s) && Enabled(s, a) && c < |s.consumers|
    ensures Bound(s, c) <= Bound(Apply(s, a), c)
    ensures a.Send? && c == s.producer.j ==> Bound(s, c) == s.producer.i < Bound(Apply(s, a), c)
  {
  }

  lemma StepKeepsConsumers(s: State, a: Action, c: nat)
    requires ProducerOk(s) && ConsumersOk(s) && Enabled(s, a) && c < |s.consumers|
    ensures var consumer := Apply(s, a).consumers[c];
            Conserved(consumer) && SentBelow(consumer, Bound(Apply(s, a), c))
  {
    hide Conserved, InHandler, Decimal;
    BoundGrows(s, a, c);
    assert Conserved(s.consumers[c]) && SentBelow(s.consumers[c], Bound(s, c));
    if a.ByConsumer() && c == a.c {
      HandleConserves(s, a, Bound(s, c));
    } else if a.Send? && c == s.producer.j {
      SendConserves(s.consumers[c], s.producer.i, a.merge);
    }
  }

  lemma OthersInside(s: State, a: Action, c: nat)
    requires ProducerOk(s) && Enabled(s, a) && a.ByConsumer() && c != a.c
    ensures Inside(Apply(s, a), c) == Inside(s, c)
  {
  }

  lemma NobodyEnters(s: State, a: Action, c: nat)
    requires ProducerOk(s) && Enabled(s, a) && !a.ByConsumer() && c < |s.consumers|
    ensures Inside(Apply(s, a), c) == Inside(s, c)
    ensures Alive(Apply(s, a), c) ==> Alive(s, c)
    ensures Apply(s, a).consumers[c].pc == s.consumers[c].pc
  {
  }

  lemma ConsumerStepKeepsSection(s: State, a: Action)
    requires ProducerOk(s) && SectionOk(s) && Enabled(s, a) && a.ByConsumer()
    ensures SectionOk(Apply(s, a))
  {
    var s' := Apply(s, a);
    forall c: nat | c != a.c
      ensures Inside(s', c) == Inside(s, c)
    {
      OthersInside(s, a, c);
    }
    assert Inside(s, a.c) == (a.Load? || a.Store? || a.Post?);
    assert Inside(s', a.c) == (a.Lock? || a.Load? || a.Store?);
    forall c: nat | c < |s.consumers| && Alive(s', c) && s'.consumers[c].pc.Storing?
      ensures s'.consumers[c].pc.loaded == s'.cnt
    {
      if c != a.c {
        assert Inside(s, c) && s.consumers[c].pc.loaded == s.cnt;
      }
    }
  }

  lemma ProducerStepKeepsSection(s: State, a: Action)
    requires ProducerOk(s) && SectionOk(s) && Enabled(s, a) && !a.ByConsumer()
    ensures SectionOk(Apply(s, a))
  {
    var s' := Apply(s, a);
    forall c: nat | c < |s.consumers|
      ensures Inside(s', c) == Inside(s, c)
      ensures Alive(s', c) ==> Alive(s, c)
      ensures s'.consumers[c].pc == s.consumers[c].pc
    {
      NobodyEnters(s, a, c);
    }
    assert Inside(s, |s.consumers|) == ProducerInSection(s);
    assert Inside(s', |s.consumers|) == ProducerInSection(s');
    forall c
      ensures Inside(s', c) ==> Inside(s, c) || (a.LockFinal? && c == |s.consumers|)
    {
    }
    if s.sem == 0 && s'.sem == 0 {
      var c :| Inside(s, c);
      assert Inside(s', c);
    }
  }

  lemma StepKeepsCount(s: State, a: Action)
    requires ProducerOk(s) && ConsumersOk(s) && SectionOk(s) && s.cnt == Total(s.consumers, COUNTED) && Enabled(s, a)
    ensures Apply(s, a).cnt == Total(Apply(s, a).consumers, COUNTED)
  {
    hide Total, Conserved, Decimal;
    if a.ByConsumer() {
      var before := s.consumers[a.c];
      TotalUpdate(s.consumers, a.c, Handle(s, a), COUNTED);
      if a.Store? {
        HandledIsNew(before, Bound(s, a.c), before.pc.v);
        assert |before.counted + {before.pc.v}| == |before.counted| + 1;
      }
    } else if a.Send? {
      var j := s.producer.j;
      TotalUpdate(s.consumers, j, Sent(s.consumers[j], s.producer.i, a.merge), COUNTED);
    }
  }

  lemma RejectedStepLapped(s: State, a: Action, c: nat, v: nat)
    requires ProducerOk(s) && RingOk(s) && ConsumersOk(s) && Enabled(s, a)
    requires c < |s.consumers| && v in Apply(s, a).consumers[c].rejected && v !in s.consumers[c].rejected
    ensures v + s.rows < Written(s)
  {
    assert a.Compare? && a.c == c && v == s.consumers[c].pc.v;
    ComparedIsWritten(s, c, v);
    assert SlotIsNewest(s, v % s.rows);
    SlotStillHolds(s, v);
  }

  lemma WrittenGrows(s: State, a: Action)
    requires ProducerOk(s) && Enabled(s, a)
    ensures Written(s) <= Written(Apply(s, a))
  {
  }

  lemma StepKeepsRejected(s: State, a: Action)
    requires ProducerOk(s) && RingOk(s) && ConsumersOk(s) && RejectedLapped(s) && Enabled(s, a)
    ensures RejectedLapped(Apply(s, a))
  {
    WrittenGrows(s, a);
    forall c: nat, v | c < |s.consumers| && v in Apply(s, a).consumers[c].rejected
      ensures v + s.rows < Written(Apply(s, a))
    {
      if v !in s.consumers[c].rejected {
        RejectedStepLapped(s, a, c, v);
      }
    }
  }

  lemma ComparedIsWritten(s: State, c: nat, v: nat)
    requires ProducerOk(s) && ConsumersOk(s) && c < |s.consumers| && v in InHandler(s.consumers[c])
    ensures v < Written(s)
  {
    assert Conserved(s.consumers[c]) && SentBelow(s.consumers[c], Bound(s, c));
    HandledIsNew(s.consumers[c], Bound(s, c), v);
  }

  lemma ProducerStaysOk(s: State, a: Action)
    requires Inv(s) && Enabled(s, a)
    ensures ProducerOk(Apply(s, a)) && |Apply(s, a).consumers| == |s.consumers|
  {
    hide RingOk, ConsumersOk, RejectedLapped, Total, Decimal;
    if a.Store? {
      assert Inside(s, |s.consumers|) == ProducerInSection(s);
    }
  }

  lemma StepKeepsInv(s: State, a: Action)
    requires Inv(s) && Enabled(s, a)
    ensures Inv(Apply(s, a))
  {
    hide RingOk, SectionOk, RejectedLapped, Conserved, SentBelow, Bound, Total;
    ProducerStaysOk(s, a);
    StepKeepsRing(s, a);
    StepKeepsRejected(s, a);
    forall c: nat | c < |s.consumers|
      ensures var consumer := Apply(s, a).consumers[c];
              Conserved(consumer) && SentBelow(consumer, Bound(Apply(s, a), c))
    {
      StepKeepsConsumers(s, a, c);
    }
    if a.ByConsumer() {
      ConsumerStepKeepsSection(s, a);
    } else {
      ProducerStepKeepsSection(s, a);
    }
    StepKeepsCount(s, a);
  }

  lemma InitInv(s: State)
    requires Init(s)
    ensures Inv(s)
  {
    ZeroTotal(s.consumers);
  }

  lemma ZeroTotal(consumers: seq<Consumer>)
    requires forall c | 0 <= c < |consumers| :: consumers[c] == NEW_CONSUMER
    ensures Total(consumers, COUNTED) == 0
  {
  }

  lemma ReachableInv(s: State)
    requires Reachable(Init, Next, s)
    ensures Inv(s)
  {
    forall s | Init(s)
      ensures Inv(s)
    {
      InitInv(s);
    }
    forall s, s' | Inv(s) && Next(s, s')
      ensures Inv(s')
    {
      var a :| Enabled(s, a) && s' == Apply(s, a);
      StepKeepsInv(s, a);
    }
    InvariantReachable(Init, Next, Inv, s);
  }

  // ---------- main results ----------

  /** Conservation for one consumer: every index signalled to it is pending, in its handler, counted, rejected or
      coalesced, in exactly one of these, and no index is signalled to it or counted twice. */
  lemma EverySignalInOnePlace(s: State, c: nat, v: nat)
    requires Reachable(Init, Next, s) && c < |s.consumers|
    ensures Conserved(s.consumers[c])
    ensures multiset(s.consumers[c].sent)[v] == if v in s.consumers[c].sent then 1 else 0
    ensures v in s.consumers[c].sent ==> v < Written(s)
  {
    hide RingOk, SectionOk, RejectedLapped, Total, Conserved;
    ReachableInv(s);
    IncreasingHasNoRepeats(s.consumers[c].sent, v);
  }

  /** Conservation over all consumers: signals sent are those in the shared counter plus all the others. */
  lemma SignalsConserved(s: State)
    requires Reachable(Init, Next, s)
    ensures Total(s.consumers, SENT) == s.cnt + Total(s.consumers, NOT_COUNTED)
  {
    ReachableInv(s);
    ConservedInTotal(s.consumers);
  }

  /** The increment is a load and a store, yet under the semaphore no update is lost: the counter always equals
      the number of signals its consumers have counted, and a value loaded inside the section is still current. */
  lemma NoUpdateLost(s: State, c: nat, d: nat)
    requires Reachable(Init, Next, s)
    ensures s.cnt == Total(s.consumers, COUNTED)
    ensures Inside(s, c) && Inside(s, d) ==> c == d
    ensures Inside(s, c) ==> s.sem == 0
    ensures c < |s.consumers| && Inside(s, c) && s.consumers[c].pc.Storing? ==> s.consumers[c].pc.loaded == s.cnt
  {
    ReachableInv(s);
  }

  /** A consumer handling index v counts it if and only if the producer is at most one lap past it, that is, if
      and only if the newest index is below v + rows; otherwise the signal is rejected. */
  lemma CountsIffWithinOneLap(s: State, c: nat)
    requires Reachable(Init, Next, s) && Enabled(s, Compare(c))
    ensures var v := s.consumers[c].pc.v;
            var consumer := Handle(s, Compare(c));
            && v < Written(s)
            && (consumer.pc == Locking(v) <==> Written(s) - 1 < v + s.rows)
            && (v in consumer.rejected <==> Written(s) - 1 >= v + s.rows)
  {
    ReachableInv(s);
    var v := s.consumers[c].pc.v;
    ComparedIsWritten(s, c, v);
    SlotStillHolds(s, v);
    HandledIsNew(s.consumers[c], Bound(s, c), v);
  }

  /** A ring with a slot for every index never rejects a signal. */
  lemma BigRingRejectsNothing(s: State, c: nat)
    requires Reachable(Init, Next, s) && c < |s.consumers| && s.data <= s.rows
    ensures s.consumers[c].rejected == {}
  {
    ReachableInv(s);
    assert Written(s) <= s.data;
  }

  /** The first consumer has not yet looked at index 0, and the producer is about to write index n. */
  ghost predicate FirstStillPending(s: State, n: nat) {
    && HasRing(s) && s.producer == Writing(n) && 0 < |s.consumers|
    && s.consumers[0].pc == Suspended && s.consumers[0].pending != [] && s.consumers[0].pending[0] == 0
  }

  /** A producer that always times out after its first signal, and a consumer that is never scheduled. */
  lemma {:induction false} RunAhead(rows: nat, data: nat, amount: nat, n: nat) returns (s: State)
    requires 0 < rows && 0 < amount && 0 < n <= data
    ensures Reachable(Init, Next, s) && s.rows == rows && s.data == data && |s.consumers| == amount
    ensures FirstStillPending(s, n)
  {
    if n == 1 {
      s := State(rows, data, seq(rows, _ => ""), 0, 1, Writing(0), seq(amount, _ => NEW_CONSUMER));
      InitialReachable(Init, Next, s);
    } else {
      s := RunAhead(rows, data, amount, n - 1);
    }
    s := OneRound(s);
  }

  lemma OneRound(s: State) returns (s': State)
    requires Reachable(Init, Next, s) && HasRing(s) && s.producer.Writing? && s.producer.i < s.data
    requires 0 < |s.consumers|
    requires FirstStillPending(s, s.producer.i) || (s.consumers[0] == NEW_CONSUMER && s.producer.i == 0)
    ensures Reachable(Init, Next, s') && s'.rows == s.rows && s'.data == s.data && |s'.consumers| == |s.consumers|
    ensures FirstStillPending(s', s.producer.i + 1)
  {
    hide Decimal;
    s' := Do(Init, Next, Enabled, Apply, s, WriteSlot);
    s' := Do(Init, Next, Enabled, Apply, s', Send(false, true));
  }

  ghost predicate NeverRejects(rows: nat, data: nat, amount: nat) {
    forall s: State, c: nat |
      Reachable(Init, Next, s) && s.rows == rows && s.data == data && |s.consumers| == amount && c < amount ::
      s.consumers[c].rejected == {}
  }

  /** No run rejects a signal if and only if the ring has a slot for every index. */
  lemma NeverRejectsIff(rows: nat, data: nat, amount: nat)
    requires 0 < rows && 0 < data && 0 < amount
    ensures NeverRejects(rows, data, amount) <==> data <= rows
  {
    if data <= rows {
      forall s: State, c: nat | Reachable(Init, Next, s) && s.rows == rows && s.data == data
                                && |s.consumers| == amount && c < amount
        ensures s.consumers[c].rejected == {}
      {
        BigRingRejectsNothing(s, c);
      }
    } else {
      var s := RunAhead(rows, data, amount, rows + 1);
      s := Do(Init, Next, Enabled, Apply, s, Deliver(0, 0));
      assert s.consumers[0].pc == Comparing(0) && Written(s) == rows + 1;
      CountsIffWithinOneLap(s, 0);
      hide Decimal, Handle;
      var s' := Do(Init, Next, Enabled, Apply, s, Compare(0));
      assert s'.consumers[0] == Handle(s, Compare(0));
      assert 0 in s'.consumers[0].rejected;
    }
  }

  lemma {:induction false} IncreasingIsShort(xs: seq<nat>, bound: nat)
    requires forall p, q | 0 <= p < q < |xs| :: xs[p] < xs[q]
    requires forall p | 0 <= p < |xs| :: xs[p] < bound
    ensures |xs| <= bound
  {
    if xs != [] {
      IncreasingIsShort(xs[..|xs| - 1], xs[|xs| - 1]);
    }
  }

  lemma {:induction false} TotalSentBounded(consumers: seq<Consumer>, data: nat)
    requires forall c | 0 <= c < |consumers| :: SentBelow(consumers[c], data)
    ensures Total(consumers, SENT) <= |consumers| * data
  {
    if consumers != [] {
      assert SentBelow(consumers[0], data);
      IncreasingIsShort(consumers[0].sent, data);
      TotalSentBounded(consumers[1..], data);
    }
  }

  /** What the producer prints: messages not received, in percent of data * consumers. */
  function LossRate(s: State): real
    requires s.producer.Exited? && 0 < s.data * |s.consumers|
  {
    100.0 * (1.0 - s.producer.printed as real / (s.data * |s.consumers|) as real)
  }

  lemma ProperFraction(p: real, w: real)
    requires 0.0 <= p <= w && 0.0 < w
    ensures 0.0 <= p / w <= 1.0 && (p / w == 1.0 <==> p == w)
  {
    var q := p / w;
    assert q * w == p;
    assert q < 0.0 ==> (0.0 - q) * w > 0.0;
    assert q > 1.0 ==> (q - 1.0) * w > 0.0;
    assert q < 1.0 ==> (1.0 - q) * w > 0.0;
  }

  lemma PercentInRange(part: nat, whole: nat)
    requires part <= whole && 0 < whole
    ensures 0.0 <= 100.0 * (1.0 - part as real / whole as real) <= 100.0
    ensures 100.0 * (1.0 - part as real / whole as real) == 0.0 <==> part == whole
    ensures 100.0 * (1.0 - part as real / whole as real) * whole as real == 100.0 * (whole - part) as real
  {
    ProperFraction(part as real, whole as real);
    var q, w := part as real / whole as real, whole as real;
    assert q * w == part as real;
    assert 100.0 * (1.0 - q) * w == 100.0 * w - 100.0 * (q * w);
  }

  /** The signals that were never sent because of a timeout. */
  function Missing(s: State): int {
    s.data * |s.consumers| - Total(s.consumers, SENT)
  }

  /** When the producer is done, the printed sum accounts for every signal sent. The loss rate is the percentage of
      signals that were never sent or not counted: zero if and only if every index was sent to every consumer and every signal was counted. */
  lemma FinalAccount(s: State)
    requires Reachable(Init, Next, s) && s.producer.Exited?
    ensures s.producer.printed + Total(s.consumers, NOT_COUNTED) == Total(s.consumers, SENT)
    ensures Total(s.consumers, SENT) <= |s.consumers| * s.data
    ensures 0 < s.data * |s.consumers| && 0.0 <= LossRate(s) <= 100.0
    ensures LossRate(s) * (s.data * |s.consumers|) as real
            == 100.0 * (Missing(s) + Total(s.consumers, NOT_COUNTED)) as real
    ensures LossRate(s) == 0.0
            <==> Total(s.consumers, SENT) == |s.consumers| * s.data && Total(s.consumers, NOT_COUNTED) == 0
  {
    hide RingOk, SectionOk, RejectedLapped, Total, Conserved;
    ReachableInv(s);
    SignalsConserved(s);
    TotalSentBounded(s.consumers, s.data);
    MulMonotone(1, s.data, |s.consumers|);
    assert s.data * |s.consumers| == |s.consumers| * s.data;
    PercentInRange(s.producer.printed, s.data * |s.consumers|);
    assert Missing(s) + Total(s.consumers, NOT_COUNTED) == s.data * |s.consumers| - s.producer.printed;
    assert LossRate(s) == 0.0 <==> s.producer.printed == s.data * |s.consumers|;
  }

  // ---------- progress, and runs that reach the extremes ----------

  /** The next step of whoever is inside the section. */
  function NextInSection(s: State, c: nat): Action
    requires c < |s.consumers| && InSection(s.consumers[c])
  {
    match s.consumers[c].pc
    case Loading(_) => Load(c)
    case Storing(_, _) => Store(c)
    case _ => Post(c)
  }

  /** Until the producer has exited, it or a consumer that keeps it waiting can take a step. */
  lemma SomeoneCanStep(s: State) returns (a: Action)
    requires Reachable(Init, Next, s) && !s.producer.Exited?
    ensures Enabled(s, a)
    ensures a.ByConsumer() ==> a.c < |s.consumers| && InSection(s.consumers[a.c])
  {
    ReachableInv(s);
    if s.producer == Killing(|s.consumers|) {
      NobodyLeftInside(s);
    }
    hide *;
    a := CanStep(s);
  }

  lemma CanStep(s: State) returns (a: Action)
    requires ProducerOk(s) && !s.producer.Exited? && (s.producer == Killing(|s.consumers|) ==> s.sem == 1)
    ensures Enabled(s, a)
    ensures a.ByConsumer() ==> a.c < |s.consumers| && InSection(s.consumers[a.c])
  {
    hide Handle, Apply;
    if s.producer.Killing? && s.producer.k < |s.consumers| && InSection(s.consumers[s.producer.k]) {
      a := NextInSection(s, s.producer.k);
    } else {
      match s.producer
      case Writing(i) => a := if i < s.data then WriteSlot else StartKilling;
      case Sending(_, _) => a := Send(false, false);
      case Killing(k) => a := if k < |s.consumers| then Kill else LockFinal;
      case FinalPrint => a := Print;
      case FinalPost(_) => a := PostFinal;
    }
  }

  lemma NobodyLeftInside(s: State)
    requires SectionOk(s) && s.producer == Killing(|s.consumers|)
    ensures s.sem == 1
  {
    forall c
      ensures !Inside(s, c)
    {
    }
  }

  /** No consumer has anything to do. */
  ghost predicate AllIdle(s: State) {
    HasRing(s) && s.sem == 1 && forall c: nat | c < |s.consumers| :: s.consumers[c].pc == Suspended
  }

  predicate SameSetting(s: State, s': State) {
    s'.rows == s.rows && s'.data == s.data && |s'.consumers| == |s.consumers|
  }

  /** The producer kills idle consumers one by one. */
  lemma KillAll(s: State, k: nat) returns (s': State)
    requires Reachable(Init, Next, s) && AllIdle(s) && s.producer == Killing(k) && k <= |s.consumers|
    ensures Reachable(Init, Next, s') && s' == s.(producer := Killing(|s.consumers|))
    decreases |s.consumers| - k
  {
    s' := s;
    if k < |s.consumers| {
      s' := Do(Init, Next, Enabled, Apply, s', Kill);
      s' := KillAll(s', k + 1);
    }
  }

  lemma FinishRun(s: State) returns (s': State)
    requires Reachable(Init, Next, s) && AllIdle(s) && s.producer == Writing(s.data)
    ensures Reachable(Init, Next, s') && s' == s.(producer := Exited(s.cnt))
  {
    hide Decimal, Handle, Reachable;
    s' := Do(Init, Next, Enabled, Apply, s, StartKilling);
    s' := KillAll(s', 0);
    s' := Do(Init, Next, Enabled, Apply, s', LockFinal);
    s' := Do(Init, Next, Enabled, Apply, s', Print);
    s' := Do(Init, Next, Enabled, Apply, s', PostFinal);
  }

  /** The producer is at consumer j of index i, and all signals so far have been counted. */
  ghost predicate AllCounted(s: State) {
    && AllIdle(s) && 0 < |s.consumers|
    && (forall c: nat | c < |s.consumers| :: s.consumers[c].pending == [])
    && match s.producer
       case Writing(i) => i <= s.data && s.cnt == i * |s.consumers|
       case Sending(i, j) =>
         && i < s.data && j < |s.consumers|
         && s.cnt == i * |s.consumers| + j && s.slots[i % s.rows] == Decimal(i)
       case _ => false
  }

  /** One signal, sent and counted before anything else happens. */
  lemma CountOne(s: State) returns (s': State)
    requires Reachable(Init, Next, s) && AllCounted(s) && s.producer.Sending?
    ensures Reachable(Init, Next, s') && AllCounted(s') && SameSetting(s, s')
    ensures s'.producer == if s.producer.j + 1 == |s.consumers| then Writing(s.producer.i + 1)
                           else Sending(s.producer.i, s.producer.j + 1)
  {
    var i, j := s.producer.i, s.producer.j;
    CountedFacts(s);
    hide Enabled, Apply, Reachable, Decimal, AllCounted;
    s' := CountStart(s);
    s' := CountEnd(s', j);
    StillAllCounted(s, s');
  }

  lemma CountedFacts(s: State)
    requires AllCounted(s) && s.producer.Sending?
    ensures HasRing(s) && s.sem == 1 && s.producer.j < |s.consumers|
  {
  }

  lemma StillAllCounted(s: State, s': State)
    requires AllCounted(s) && s.producer.Sending? && |s'.consumers| == |s.consumers|
    requires var i, j := s.producer.i, s.producer.j;
             && s'.consumers[j].pc == Suspended && s'.consumers[j].pending == []
             && s' == s.(consumers := s.consumers[j := s'.consumers[j]], cnt := s.cnt + 1, producer := s'.producer)
             && s'.producer == if j + 1 == |s.consumers| then Writing(i + 1) else Sending(i, j + 1)
    ensures AllCounted(s')
  {
    hide Decimal;
    var i := s.producer.i;
    assert (i + 1) * |s.consumers| == i * |s.consumers| + |s.consumers|;
  }

  lemma CountStart(s: State) returns (s': State)
    requires Reachable(Init, Next, s) && AllCounted(s) && s.producer.Sending?
    ensures var i, j := s.producer.i, s.producer.j;
            && |s'.consumers| == |s.consumers| && j < |s.consumers|
            && s'.consumers[j].pc == Locking(i) && s'.consumers[j].pending == []
            && s' == s.(consumers := s.consumers[j := s'.consumers[j]], producer := s'.producer)
            && s'.producer == if j + 1 == |s.consumers| then Writing(i + 1) else Sending(i, j + 1)
    ensures Reachable(Init, Next, s')
  {
    hide Decimal, Reachable;
    var i, j := s.producer.i, s.producer.j;
    s' := Do(Init, Next, Enabled, Apply, s, Send(false, false));
    assert s'.consumers[j].pending == [i] && s'.consumers[j].pc == Suspended;
    s' := Accept(s', j);
  }

  /** A pending signal is delivered and found in its slot. */
  lemma Accept(s: State, j: nat) returns (s': State)
    requires Reachable(Init, Next, s) && HasRing(s) && (s.producer.Writing? || s.producer.Sending?) && j < |s.consumers|
    requires s.consumers[j].pc == Suspended && |s.consumers[j].pending| == 1
    requires var v := s.consumers[j].pending[0]; s.slots[v % s.rows] == Decimal(v)
    ensures Reachable(Init, Next, s') && |s'.consumers| == |s.consumers|
    ensures s'.consumers[j].pc == Locking(s.consumers[j].pending[0]) && s'.consumers[j].pending == []
    ensures s' == s.(consumers := s.consumers[j := s'.consumers[j]])
  {
    hide Decimal, Reachable;
    var s1 := Do(Init, Next, Enabled, Apply, s, Deliver(j, 0));
    assert s1.consumers[j].pc == Comparing(s.consumers[j].pending[0]) && s1.consumers[j].pending == [];
    assert s1 == s.(consumers := s.consumers[j := s1.consumers[j]]);
    s' := Do(Init, Next, Enabled, Apply, s1, Compare(j));
  }

  lemma CountEnd(s: State, j: nat) returns (s': State)
    requires Reachable(Init, Next, s) && HasRing(s) && s.sem == 1 && j < |s.consumers| && s.consumers[j].pc.Locking?
    requires s.producer.Writing? || s.producer.Sending?
    ensures Reachable(Init, Next, s') && |s'.consumers| == |s.consumers|
    ensures s'.consumers[j].pc == Suspended && s'.consumers[j].pending == s.consumers[j].pending
    ensures s' == s.(consumers := s.consumers[j := s'.consumers[j]], cnt := s.cnt + 1)
  {
    hide Decimal, Reachable;
    var s1 := Do(Init, Next, Enabled, Apply, s, Lock(j));
    s1 := Do(Init, Next, Enabled, Apply, s1, Load(j));
    assert s1 == s.(consumers := s.consumers[j := s1.consumers[j]], sem := 0);
    assert s1.consumers[j] == s.consumers[j].(pc := Storing(s.consumers[j].pc.v, s.cnt));
    s' := StoreAndPost(s1, j);
  }

  lemma StoreAndPost(s: State, j: nat) returns (s': State)
    requires Reachable(Init, Next, s) && HasRing(s) && s.sem == 0 && j < |s.consumers| && s.consumers[j].pc.Storing?
    requires s.producer.Writing? || s.producer.Sending?
    ensures Reachable(Init, Next, s') && |s'.consumers| == |s.consumers|
    ensures s'.consumers[j].pc == Suspended && s'.consumers[j].pending == s.consumers[j].pending
    ensures s' == s.(consumers := s.consumers[j := s'.consumers[j]], cnt := s.consumers[j].pc.loaded + 1, sem := 1)
  {
    hide Decimal, Reachable;
    s' := Do(Init, Next, Enabled, Apply, s, Store(j));
    s' := Do(Init, Next, Enabled, Apply, s', Post(j));
  }

  lemma CountToTheEnd(s: State) returns (s': State)
    requires Reachable(Init, Next, s) && AllCounted(s)
    ensures Reachable(Init, Next, s') && AllCounted(s') && SameSetting(s, s') && s'.producer == Writing(s.data)
    decreases if s.producer.Writing? then 2 * (s.data - s.producer.i) else 2 * (s.data - s.producer.i) - 1,
              if s.producer.Sending? then |s.consumers| - s.producer.j else 0
  {
    hide Decimal, Reachable;
    s' := s;
    if s.producer != Writing(s.data) {
      if s.producer.Writing? {
        s' := Do(Init, Next, Enabled, Apply, s, WriteSlot);
      } else {
        hide Apply, Enabled;
        s' := CountOne(s);
      }
      s' := CountToTheEnd(s');
    }
  }

  lemma Start(rows: nat, data: nat, amount: nat) returns (s: State)
    requires 0 < rows && 0 < data && 0 < amount
    ensures Reachable(Init, Next, s) && s.rows == rows && s.data == data && |s.consumers| == amount
    ensures AllCounted(s) && s.producer == Writing(0) && s.consumers[0] == NEW_CONSUMER && s.cnt == 0
  {
    s := State(rows, data, seq(rows, _ => ""), 0, 1, Writing(0), seq(amount, _ => NEW_CONSUMER));
    InitialReachable(Init, Next, s);
  }

  /** A producer that times out after its first signal, every time, while no consumer is ever scheduled. */
  lemma {:induction false} LoseAll(rows: nat, data: nat, amount: nat, n: nat) returns (s: State)
    requires 0 < rows && 0 < amount && n <= data && 0 < data
    ensures Reachable(Init, Next, s) && s.rows == rows && s.data == data && |s.consumers| == amount
    ensures AllIdle(s) && s.cnt == 0 && s.producer == Writing(n)
  {
    if n == 0 {
      s := Start(rows, data, amount);
    } else {
      s := LoseAll(rows, data, amount, n - 1);
      hide Decimal;
      s := Do(Init, Next, Enabled, Apply, s, WriteSlot);
      s := Do(Init, Next, Enabled, Apply, s, Send(false, true));
    }
  }

  /** For every setting there is a run in which nothing is lost and one in which everything is. */
  lemma LossBoundsReached(rows: nat, data: nat, amount: nat) returns (s: State, t: State)
    requires 0 < rows && 0 < data && 0 < amount
    ensures Reachable(Init, Next, s) && s.rows == rows && s.data == data && |s.consumers| == amount
    ensures Reachable(Init, Next, t) && t.rows == rows && t.data == data && |t.consumers| == amount
    ensures s.producer == Exited(data * amount) && t.producer == Exited(0) && 0 < data * amount
    ensures LossRate(s) == 0.0 && LossRate(t) == 100.0
  {
    hide Reachable, Decimal;
    MulMonotone(1, data, amount);
    s := Start(rows, data, amount);
    s := CountToTheEnd(s);
    s := FinishRun(s);
    t := LoseAll(rows, data, amount, data);
    t := FinishRun(t);
    PercentInRange(data * amount, data * amount);
    assert 0.0 / (data * amount) as real == 0.0;
  }

  /** A signal can be merged with one that is pending. */
  lemma CoalescedReachable(rows: nat, data: nat, amount: nat) returns (s: State)
    requires 0 < rows && 1 < data && 0 < amount
    ensures Reachable(Init, Next, s) && s.rows == rows && s.data == data && |s.consumers| == amount
    ensures s.consumers[0].coalesced == {1} && s.consumers[0].pending == [0]
  {
    hide Decimal;
    s := Start(rows, data, amount);
    s := Do(Init, Next, Enabled, Apply, s, WriteSlot);
    s := Do(Init, Next, Enabled, Apply, s, Send(false, true));
    s := Do(Init, Next, Enabled, Apply, s, WriteSlot);
    s := Do(Init, Next, Enabled, Apply, s, Send(true, true));
  }

  // ---------- the shared buffer, updated in place ----------

  class SharedBuffer {
    const rows: nat
    const data: nat
    const buf: array<string>
    var cnt: nat
    var sem: nat
    var producer: ProducerPc
    var consumers: seq<Consumer>

    ghost function Snapshot(): State
      reads this, buf
    {
      State(rows, data, buf[..], cnt, sem, producer, consumers)
    }

    constructor (rows: nat, data: nat, amount: nat)
      requires 0 < rows && 0 < data && 0 < amount
      ensures this.rows == rows && this.data == data && |consumers| == amount && fresh(buf)
      ensures Init(Snapshot())
    {
      this.rows, this.data := rows, data;
      buf := new string[rows](_ => "");
      cnt, sem, producer := 0, 1, Writing(0);
      consumers := seq(amount, _ => NEW_CONSUMER);
    }

    /** One atomic step of the producer or of a consumer's handler. */
    method Perform(a: Action)
      requires Enabled(Snapshot(), a)
      modifies this, buf
      ensures Snapshot() == Apply(old(Snapshot()), a)
    {
      match a
      case WriteSlot =>
        buf[producer.i % rows] := Decimal(producer.i);
        producer := Sending(producer.i, 0);
      case Send(merge, timeout) =>
        var i, j := producer.i, producer.j;
        consumers := consumers[j := Sent(consumers[j], i, merge)];
        producer := if timeout || j + 1 == |consumers| then Writing(i + 1) else Sending(i, j + 1);
      case StartKilling =>
        producer := Killing(0);
      case Kill =>
        producer := Killing(producer.k + 1);
      case LockFinal =>
        sem := sem - 1;
        producer := FinalPrint;
      case Print =>
        producer := FinalPost(cnt);
      case PostFinal =>
        sem := sem + 1;
        producer := Exited(producer.printed);
      case _ =>
        Signal(a);
    }

    /** The handler: compare, lock, load, store, post. */
    method Signal(a: Action)
      requires a.ByConsumer() && Enabled(Snapshot(), a)
      modifies this
      ensures Snapshot() == Apply(old(Snapshot()), a)
    {
      var me := consumers[a.c];
      match a {
        case Deliver(_, k) =>
          me := me.(pc := Comparing(me.pending[k]), pending := me.pending[..k] + me.pending[k + 1..]);
        case Compare(_) =>
          var v := me.pc.v;
          if buf[v % rows] == Decimal(v) {
            me := me.(pc := Locking(v));
          } else {
            me := me.(pc := Suspended, rejected := me.rejected + {v});
          }
        case Lock(_) =>
          sem := sem - 1;
          me := me.(pc := Loading(me.pc.v));
        case Load(_) =>
          me := me.(pc := Storing(me.pc.v, cnt));
        case Store(_) =>
          cnt := me.pc.loaded + 1;
          me := me.(pc := Posting, counted := me.counted + {me.pc.v});
        case Post(_) =>
          sem := sem + 1;
          me := me.(pc := Suspended);
      }
      consumers := consumers[a.c := me];
    }
  }
}
