/** What every run of the control request queue keeps: the timer, exactly one callback per request,
    which request a reply completes, and the exact retransmission schedule. */
module CtrlQueueLaws {
  import opened Bytes
  import opened CtrlQueue

  // ----- counting -----

  function SentCount(log: seq<Event>, id: nat): nat {
    if log == [] then 0
    else SentCount(log[..|log| - 1], id) + if log[|log| - 1] == Sent(id) then 1 else 0
  }

  /** Callbacks of a request, with either outcome. */
  function CalledCount(log: seq<Event>, id: nat): nat {
    if log == [] then 0
    else CalledCount(log[..|log| - 1], id) + if log[|log| - 1].Called? && log[|log| - 1].id == id then 1 else 0
  }

  function EntryCount(es: seq<Entry>, id: nat): nat {
    if es == [] then 0
    else EntryCount(es[..|es| - 1], id) + if es[|es| - 1].id == id then 1 else 0
  }

  lemma {:induction false} CountsConcat(a: seq<Event>, b: seq<Event>, id: nat)
    ensures SentCount(a + b, id) == SentCount(a, id) + SentCount(b, id)
    ensures CalledCount(a + b, id) == CalledCount(a, id) + CalledCount(b, id)
  {
    if b == [] {
      assert a + b == a;
    } else {
      assert (a + b)[..|a + b| - 1] == a + b[..|b| - 1];
      CountsConcat(a, b[..|b| - 1], id);
    }
  }

  lemma {:induction false} EntryCountConcat(a: seq<Entry>, b: seq<Entry>, id: nat)
    ensures EntryCount(a + b, id) == EntryCount(a, id) + EntryCount(b, id)
  {
    if b == [] {
      assert a + b == a;
    } else {
      assert (a + b)[..|a + b| - 1] == a + b[..|b| - 1];
      EntryCountConcat(a, b[..|b| - 1], id);
    }
  }

  // ----- invariants of every run -----

  /** The expired flag is the absence of a pending wait, and a non-empty queue has a wait pending. */
  predicate TimerOk(q: Queue) {
    q.timerExpired == !q.armed && (q.entries != [] ==> q.armed)
  }

  /** Serial numbers increase along the queue, belong to ids issued, and fix the instance ids. */
  ghost predicate OrderOk(q: Queue) {
    && (forall i, j | 0 <= i < j < |q.entries| :: q.entries[i].id < q.entries[j].id)
    && (forall i | 0 <= i < |q.entries| ::
          0 < q.entries[i].id <= q.issued && q.entries[i].inst == q.entries[i].id % INSTANCE_IDS)
  }

  /** Every request sent is in the queue once or has been called back once, never both. */
  ghost predicate OnceOk(q: Queue) {
    && (forall id: nat ::
          CalledCount(q.log, id) + EntryCount(q.entries, id) == if SentCount(q.log, id) > 0 then 1 else 0)
    && (forall id: nat | q.issued < id :: SentCount(q.log, id) == 0)
    && (forall i | 0 <= i < |q.log| && q.log[i].Called? ::
          q.log[i].state == ReceivedResponse || q.log[i].state == NoResponse)
  }

  ghost predicate QueueOk(q: Queue) {
    TimerOk(q) && OrderOk(q) && OnceOk(q)
  }

  // ----- one entry of a poll -----

  function Find(es: seq<Entry>, id: nat): (i: nat)
    ensures i <= |es| && (i < |es| ==> es[i].id == id) && forall j | 0 <= j < i :: es[j].id != id
  {
    if es == [] then 0
    else if es[0].id == id then 0
    else 1 + Find(es[1..], id)
  }

  /** A poll counts events and entries of a request only through that request's own entries. */
  lemma {:induction false} PollCounts(c: Config, es: seq<Entry>, tx: Driver, id: nat)
    ensures CalledCount(PollLog(c, es, tx), id) + EntryCount(PollKept(c, es, tx), id) == EntryCount(es, id)
    ensures EntryCount(es, id) == 0 ==> SentCount(PollLog(c, es, tx), id) == 0
    ensures forall i | 0 <= i < |PollLog(c, es, tx)| && PollLog(c, es, tx)[i].Called? ::
              PollLog(c, es, tx)[i].state == NoResponse
  {
    if es != [] {
      var front, last := es[..|es| - 1], es[|es| - 1];
      PollCounts(c, front, tx, id);
      var p := PollEntry(c, last, tx(last.id));
      CountsConcat(PollLog(c, front, tx), PollEvents(last, p), id);
      EntryCountConcat(PollKept(c, front, tx), match p case Keep(e, _) => [e] case Drop => [], id);
      OneEvent(last, p, id);
    }
  }

  lemma OneEvent(last: Entry, p: Polled, id: nat)
    requires p.Keep? ==> p.e.id == last.id
    ensures var kept := match p case Keep(e, _) => [e] case Drop => [];
            && CalledCount(PollEvents(last, p), id) + EntryCount(kept, id) == (if last.id == id then 1 else 0)
            && SentCount(PollEvents(last, p), id) == (if p.Keep? && p.sent && last.id == id then 1 else 0)
  {
  }

  lemma {:induction false} PollOrder(c: Config, es: seq<Entry>, tx: Driver, issued: nat)
    requires OrderOk(Queue(es, false, true, issued, []))
    ensures OrderOk(Queue(PollKept(c, es, tx), false, true, issued, []))
    ensures PollKept(c, es, tx) != [] ==>
              es != [] && PollKept(c, es, tx)[|PollKept(c, es, tx)| - 1].id <= es[|es| - 1].id
  {
    if es != [] {
      PollOrder(c, es[..|es| - 1], tx, issued);
    }
  }

  // ----- steps and runs keep the invariants -----

  lemma PushKeepsOk(c: Config, q: Queue)
    requires QueueOk(q)
    ensures QueueOk(Push(c, q))
  {
    hide EntryCount, SentCount, CalledCount, Wrap32;
    var id := q.issued + 1;
    var r := Push(c, q);
    PushKeepsOrder(c, q);
    forall x: nat
      ensures CalledCount(r.log, x) + EntryCount(r.entries, x) == if SentCount(r.log, x) > 0 then 1 else 0
      ensures r.issued < x ==> SentCount(r.log, x) == 0
    {
      CountsConcat(q.log, [Sent(id)], x);
      EntryCountConcat(q.entries, [NewEntry(c, id)], x);
      SingleCounts(Sent(id), NewEntry(c, id), x);
      assert CalledCount(q.log, x) + EntryCount(q.entries, x) == if SentCount(q.log, x) > 0 then 1 else 0;
    }
  }

  lemma PushKeepsOrder(c: Config, q: Queue)
    requires OrderOk(q)
    ensures OrderOk(Push(c, q))
  {
    hide Wrap32;
  }

  lemma SingleCounts(ev: Event, e: Entry, x: nat)
    ensures SentCount([ev], x) == if ev == Sent(x) then 1 else 0
    ensures CalledCount([ev], x) == if ev.Called? && ev.id == x then 1 else 0
    ensures EntryCount([e], x) == if e.id == x then 1 else 0
  {
  }

  lemma PollKeepsOk(c: Config, q: Queue, tx: Driver)
    requires QueueOk(q) && q.armed
    ensures QueueOk(Poll(c, q, tx))
  {
    var r := Poll(c, q, tx);
    PollOrder(c, q.entries, tx, q.issued);
    forall x: nat
      ensures CalledCount(r.log, x) + EntryCount(r.entries, x) == if SentCount(r.log, x) > 0 then 1 else 0
      ensures r.issued < x ==> SentCount(r.log, x) == 0
    {
      PollCounts(c, q.entries, tx, x);
      CountsConcat(q.log, PollLog(c, q.entries, tx), x);
      assert CalledCount(q.log, x) + EntryCount(q.entries, x) == if SentCount(q.log, x) > 0 then 1 else 0;
    }
    PollCounts(c, q.entries, tx, 0);
  }

  lemma RespondKeepsOk(q: Queue, inst: byte)
    requires QueueOk(q)
    ensures QueueOk(Respond(q, inst))
  {
    hide EntryCount, SentCount, CalledCount, FirstWith;
    var i := FirstWith(q.entries, inst);
    if i < |q.entries| {
      var e := q.entries[i];
      var r := Respond(q, inst);
      forall x: nat
        ensures CalledCount(r.log, x) + EntryCount(r.entries, x) == if SentCount(r.log, x) > 0 then 1 else 0
        ensures r.issued < x ==> SentCount(r.log, x) == 0
      {
        CountsConcat(q.log, [Called(e.id, ReceivedResponse)], x);
        SingleCounts(Called(e.id, ReceivedResponse), e, x);
        RemoveCounts(q.entries, i, x);
        assert CalledCount(q.log, x) + EntryCount(q.entries, x) == if SentCount(q.log, x) > 0 then 1 else 0;
      }
    }
  }

  lemma RemoveCounts(es: seq<Entry>, i: nat, x: nat)
    requires i < |es|
    ensures EntryCount(es, x) == EntryCount(es[..i] + es[i + 1..], x) + if es[i].id == x then 1 else 0
  {
    assert es == es[..i] + ([es[i]] + es[i + 1..]);
    EntryCountConcat(es[..i], [es[i]] + es[i + 1..], x);
    EntryCountConcat([es[i]], es[i + 1..], x);
    EntryCountConcat(es[..i], es[i + 1..], x);
    SingleCounts(Sent(0), es[i], x);
  }

  lemma StepKeepsOk(c: Config, q: Queue, step: Step, r: Queue)
    requires QueueOk(q) && Next(c, q, step, r)
    ensures QueueOk(r)
  {
    hide QueueOk;
    match step
    case PushStep => PushKeepsOk(c, q);
    case PollStep(tx) => PollKeepsOk(c, q, tx);
    case ResponseStep(inst) => RespondKeepsOk(q, inst);
    case IssueElsewhere => IssueKeepsOk(q);
  }

  lemma IssueKeepsOk(q: Queue)
    requires QueueOk(q)
    ensures QueueOk(q.(issued := q.issued + 1))
  {
  }

  /** In every state of every run: a non-empty queue has its timer pending, and each request sent is
      either in the queue or was called back exactly once, as received or as not answered. */
  lemma {:induction false} RunsKeepOk(c: Config, steps: seq<Step>, states: seq<Queue>, k: nat)
    requires IsRun(c, steps, states) && k < |states|
    ensures QueueOk(states[k])
  {
    if k > 0 {
      RunsKeepOk(c, steps, states, k - 1);
      assert Next(c, states[k - 1], steps[k - 1], states[k - 1 + 1]);
      StepKeepsOk(c, states[k - 1], steps[k - 1], states[k]);
    }
  }

  // ----- which request a reply completes -----

  /** The reply to the request at position `i` of the queue takes that request and no other. */
  predicate ReplyCompletes(q: Queue, i: nat)
    requires i < |q.entries|
  {
    Respond(q, q.entries[i].inst)
    == q.(entries := q.entries[..i] + q.entries[i + 1..], log := q.log + [Called(q.entries[i].id, ReceivedResponse)])
  }

  /** A reply completes its request exactly when no older outstanding request was issued its id a
      multiple of 32 ids earlier. */
  lemma ReplyCompletesIff(q: Queue, i: nat)
    requires QueueOk(q) && i < |q.entries|
    ensures ReplyCompletes(q, i) <==> forall j | 0 <= j < i :: (q.entries[i].id - q.entries[j].id) % 32 != 0
  {
    var es := q.entries;
    var f := FirstWith(es, es[i].inst);
    forall j | 0 <= j < i
      ensures es[j].inst == es[i].inst <==> (es[i].id - es[j].id) % INSTANCE_IDS == 0
    {
      SameResidue(es[j].id, es[i].id);
    }
    if f < i {
      var logs := q.log + [Called(es[f].id, ReceivedResponse)];
      assert logs[|q.log|].id == es[f].id < es[i].id;
    }
  }

  lemma SameResidue(a: nat, b: nat)
    requires a <= b
    ensures a % INSTANCE_IDS == b % INSTANCE_IDS <==> (b - a) % INSTANCE_IDS == 0
  {
  }

  /** Fewer than 32 ids issued while a request is outstanding are enough. */
  lemma FewIdsSuffice(q: Queue, i: nat)
    requires QueueOk(q) && i < |q.entries|
    requires forall j | 0 <= j < i :: q.issued - q.entries[j].id < 32
    ensures ReplyCompletes(q, i)
  {
    ReplyCompletesIff(q, i);
  }

  // ----- what a step does, and why something happened -----

  /** A response completes the first entry with its instance id, and only that one; without one it changes nothing. */
  lemma ResponseTakesFirst(c: Config, q: Queue, inst: byte, r: Queue)
    requires Next(c, q, ResponseStep(inst), r)
    ensures (forall e | e in q.entries :: e.inst != inst) ==> r == q
    ensures (exists e | e in q.entries :: e.inst == inst) ==>
              exists k | 0 <= k < |q.entries| ::
                && q.entries[k].inst == inst && (forall j | 0 <= j < k :: q.entries[j].inst != inst)
                && r.entries == q.entries[..k] + q.entries[k + 1..]
                && r == q.(entries := r.entries, log := q.log + [Called(q.entries[k].id, ReceivedResponse)])
  {
    var k := FirstWith(q.entries, inst);
    if k < |q.entries| {
      assert q.entries[k] in q.entries && q.entries[k].inst == inst;
    } else {
      forall e | e in q.entries ensures e.inst != inst {
        var j :| 0 <= j < |q.entries| && q.entries[j] == e;
      }
    }
  }

  /** The timer runs after a push, and after a poll exactly if entries are left; nothing else touches it. */
  lemma TimerFollowsQueue(c: Config, q: Queue, step: Step, r: Queue)
    requires QueueOk(q) && Next(c, q, step, r)
    ensures step.PushStep? ==> r.armed
    ensures step.PollStep? ==> (r.armed <==> r.entries != [])
    ensures step.ResponseStep? || step.IssueElsewhere? ==> r.armed == q.armed
    ensures r.timerExpired == !r.armed
    ensures r.issued == q.issued + if step.PushStep? || step.IssueElsewhere? then 1 else 0
  {
    hide PollKept, PollLog;
  }

  /** Why an event happens in a step from `q`. */
  ghost predicate CausedBy(step: Step, q: Queue, ev: Event) {
    match ev
    case Sent(id) => (step.PushStep? && id == q.issued + 1)
      || (step.PollStep? && exists e | e in q.entries :: e.id == id)
    case Called(id, state) =>
      && (exists e | e in q.entries :: e.id == id)
      && ((state == ReceivedResponse && step == ResponseStep(id % 32))
        || (state == NoResponse && step.PollStep?))
  }

  lemma {:induction false} PollEventsOfEntries(c: Config, es: seq<Entry>, tx: Driver, i: nat)
    requires i < |PollLog(c, es, tx)|
    ensures var ev := PollLog(c, es, tx)[i];
            (exists e | e in es :: e.id == ev.id) && (ev.Called? ==> ev.state == NoResponse)
  {
    var front, last := es[..|es| - 1], es[|es| - 1];
    if i < |PollLog(c, front, tx)| {
      PollEventsOfEntries(c, front, tx, i);
    } else {
      assert last in es;
    }
  }

  lemma StepEvents(c: Config, q: Queue, step: Step, r: Queue)
    requires QueueOk(q) && Next(c, q, step, r)
    ensures q.log <= r.log && forall i | |q.log| <= i < |r.log| :: CausedBy(step, q, r.log[i])
  {
    match step
    case PushStep =>
    case PollStep(tx) => PollHasCauses(c, q, tx);
    case ResponseStep(inst) => ResponseHasCause(q, inst);
    case IssueElsewhere =>
  }

  lemma PollHasCauses(c: Config, q: Queue, tx: Driver)
    ensures var r := Poll(c, q, tx);
            q.log <= r.log && forall i | |q.log| <= i < |r.log| :: CausedBy(PollStep(tx), q, r.log[i])
  {
    hide PollKept, PollLog;
    var r := Poll(c, q, tx);
    forall i | |q.log| <= i < |r.log| ensures CausedBy(PollStep(tx), q, r.log[i]) {
      PollEventsOfEntries(c, q.entries, tx, i - |q.log|);
    }
  }

  lemma ResponseHasCause(q: Queue, inst: byte)
    requires OrderOk(q)
    ensures var r := Respond(q, inst);
            q.log <= r.log && forall i | |q.log| <= i < |r.log| :: CausedBy(ResponseStep(inst), q, r.log[i])
  {
    hide FirstWith;
    var k := FirstWith(q.entries, inst);
    if k < |q.entries| {
      assert q.entries[k] in q.entries && q.entries[k].id % 32 == inst;
    }
  }

  /** Everything in the log of a run has its cause: a request is sent by its push or by a poll that finds it queued; it
      is called back as answered by a response with its instance id that finds it queued, as unanswered by a poll. */
  lemma {:induction false} EventsHaveCauses(c: Config, steps: seq<Step>, states: seq<Queue>, k: nat, i: nat)
    requires IsRun(c, steps, states) && k < |states| && i < |states[k].log|
    ensures exists j | 0 <= j < k ::
              && |states[j].log| <= i < |states[j + 1].log| && states[j + 1].log[i] == states[k].log[i]
              && CausedBy(steps[j], states[j], states[k].log[i])
  {
    hide CausedBy, QueueOk, Next;
    if k > 0 {
      RunsKeepOk(c, steps, states, k - 1);
      assert Next(c, states[k - 1], steps[k - 1], states[k - 1 + 1]);
      StepEvents(c, states[k - 1], steps[k - 1], states[k]);
      if i < |states[k - 1].log| {
        EventsHaveCauses(c, steps, states, k - 1, i);
      } else {
        assert |states[k - 1].log| <= i < |states[k - 1 + 1].log|;
      }
    }
  }
}
