/** The control request queue as a state machine: pushing a request, the poll timer, a response. */
module CtrlQueue {
  import opened Bytes

  /** Milliseconds between two polls of the queue. */
  const POLL_INTERVAL: u32 := 5
  const INSTANCE_IDS := 32

  datatype PacketState = PushedForTransmission | Transmitted | ReceivedResponse | NoResponse

  /** `id` is the serial number of the instance id issued to the request. */
  datatype Entry = Entry(id: nat, inst: byte, state: PacketState, retryCount: byte, maxRespDelay: u32)

  /** A transmission attempt of a request, or its callback being called. */
  datatype Event = Sent(id: nat) | Called(id: nat, state: PacketState)

  datatype Config = Config(retryDelay: u32, retryCount: byte)

  /** The queue; whether the flag says the timer has expired and whether a wait is pending; the
      instance ids issued so far; and everything that happened. */
  datatype Queue = Queue(entries: seq<Entry>, timerExpired: bool, armed: bool, issued: nat, log: seq<Event>)

  /** Whether a transmission attempt succeeds, by request. */
  type Driver = nat -> bool

  const EMPTY := Queue([], true, false, 0, [])

  // ----- the poll -----

  datatype Polled = Keep(e: Entry, sent: bool) | Drop

  /** What one poll does to one entry; the remaining time is an unsigned 32-bit number. */
  function PollEntry(c: Config, e: Entry, ok: bool): Polled {
    var delay := Wrap32(e.maxRespDelay - POLL_INTERVAL);
    if delay > 0 && e.state != ReceivedResponse then
      if e.retryCount > 0 && delay <= Wrap32(e.retryCount as int * c.retryDelay) then
        var state := if ok then Transmitted else e.state;
        Keep(e.(maxRespDelay := delay, retryCount := e.retryCount - 1, state := state), true)
      else
        Keep(e.(maxRespDelay := delay), false)
    else Drop
  }

  function PollEvents(e: Entry, p: Polled): seq<Event> {
    match p
    case Keep(_, sent) => if sent then [Sent(e.id)] else []
    case Drop => [Called(e.id, NoResponse)]
  }

  function PollKept(c: Config, es: seq<Entry>, tx: Driver): seq<Entry> {
    if es == [] then []
    else
      var last := es[|es| - 1];
      PollKept(c, es[..|es| - 1], tx) + match PollEntry(c, last, tx(last.id)) case Keep(e, _) => [e] case Drop => []
  }

  function PollLog(c: Config, es: seq<Entry>, tx: Driver): seq<Event> {
    if es == [] then []
    else
      var last := es[|es| - 1];
      PollLog(c, es[..|es| - 1], tx) + PollEvents(last, PollEntry(c, last, tx(last.id)))
  }

  /** The poll of the first `i` entries, continued by one more. */
  lemma PollSteps(c: Config, es: seq<Entry>, i: nat, tx: Driver)
    requires i < |es|
    ensures var p := PollEntry(c, es[i], tx(es[i].id));
            && PollKept(c, es[..i + 1], tx)
              == PollKept(c, es[..i], tx) + (match p case Keep(e, _) => [e] case Drop => [])
            && PollLog(c, es[..i + 1], tx) == PollLog(c, es[..i], tx) + PollEvents(es[i], p)
  {
    assert es[..i + 1][..i] == es[..i] && es[..i + 1][i] == es[i];
  }

  lemma PollNothing(c: Config, tx: Driver)
    ensures PollKept(c, [], tx) == [] && PollLog(c, [], tx) == []
  {
  }

  function Poll(c: Config, q: Queue, tx: Driver): Queue {
    var kept := PollKept(c, q.entries, tx);
    Queue(kept, kept == [], kept != [], q.issued, q.log + PollLog(c, q.entries, tx))
  }

  // ----- push and response -----

  function NewEntry(c: Config, id: nat): Entry {
    Entry(id, id % INSTANCE_IDS, PushedForTransmission, c.retryCount, Wrap32((c.retryCount as int + 1) * c.retryDelay))
  }

  /** A request with the next instance id is queued and sent; the timer is started if it had expired. */
  function Push(c: Config, q: Queue): Queue {
    var id := q.issued + 1;
    Queue(q.entries + [NewEntry(c, id)], false, q.armed || q.timerExpired, id, q.log + [Sent(id)])
  }

  /** Index of the first entry with an instance id; the length if there is none. */
  function FirstWith(es: seq<Entry>, inst: byte): (i: nat)
    ensures i <= |es| && (i < |es| ==> es[i].inst == inst)
    ensures forall j | 0 <= j < i :: es[j].inst != inst
  {
    if es == [] then 0
    else if es[0].inst == inst then 0
    else 1 + FirstWith(es[1..], inst)
  }

  lemma FirstWithIff(es: seq<Entry>, inst: byte)
    ensures FirstWith(es, inst) < |es| <==> exists e | e in es :: e.inst == inst
  {
    var i := FirstWith(es, inst);
    if i < |es| {
      assert es[i] in es;
    } else {
      forall e | e in es ensures e.inst != inst {
        var j :| 0 <= j < |es| && es[j] == e;
      }
    }
  }

  /** A response goes to the first entry with its instance id, which leaves the queue. */
  function Respond(q: Queue, inst: byte): Queue {
    var i := FirstWith(q.entries, inst);
    if i == |q.entries| then q
    else q.(entries := q.entries[..i] + q.entries[i + 1..], log := q.log + [Called(q.entries[i].id, ReceivedResponse)])
  }

  // ----- runs -----

  /** `IssueElsewhere`: the instance id counter is shared, others advance it too. */
  datatype Step = PushStep | PollStep(tx: Driver) | ResponseStep(inst: byte) | IssueElsewhere

  ghost predicate Next(c: Config, q: Queue, step: Step, r: Queue) {
    match step
    case PushStep => r == Push(c, q)
    case PollStep(tx) => q.armed && r == Poll(c, q, tx)
    case ResponseStep(inst) => r == Respond(q, inst)
    case IssueElsewhere => r == q.(issued := q.issued + 1)
  }

  ghost predicate IsRun(c: Config, steps: seq<Step>, states: seq<Queue>) {
    && |states| == |steps| + 1 && states[0] == EMPTY
    && forall i | 0 <= i < |steps| :: Next(c, states[i], steps[i], states[i + 1])
  }
}
