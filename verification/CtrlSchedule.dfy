/** The exact retransmission schedule of an unanswered control request. */
module CtrlSchedule {
  import opened Bytes
  import opened CtrlQueue
  import opened CtrlQueueLaws

  /** The time a request may wait, before it is cut to 32 bits: one retry delay for each of 1 + retry count tries. */
  function Total(c: Config): nat {
    (c.retryCount as int + 1) * c.retryDelay
  }

  /** The delay is at least one poll interval and the total is a whole number of polls. */
  predicate Regular(c: Config) {
    POLL_INTERVAL <= c.retryDelay && Total(c) % POLL_INTERVAL == 0
  }

  /** The first multiple of the poll interval from `x` on. */
  function RoundUp(x: nat): (u: nat)
    ensures x <= u < x + 5 && u % 5 == 0
  {
    (x + 4) / 5 * 5
  }

  /** A retry falls due at the last poll before the time left passes `j` times 2^32. */
  predicate DueBefore(c: Config, j: nat)
    requires 0 < c.retryDelay
  {
    var u := RoundUp(j * TWO_32);
    u <= (u + 4) / c.retryDelay * c.retryDelay
  }

  /** Regular configurations whose total fits 32 bits; and the few others, of at most five times 2^32, in which a retry
      falls due whenever the 32-bit remaining time is about to wrap. */
  predicate Schedulable(c: Config) {
    && Regular(c) && Total(c) <= 5 * TWO_32
    && forall j | 1 <= j <= 4 :: j * TWO_32 < Total(c) ==> DueBefore(c, j)
  }

  // ----- arithmetic of the resend thresholds -----

  /** Resends after `n` polls: one for each whole retry delay that has passed. */
  function Resends(c: Config, n: nat): nat
    requires 0 < c.retryDelay
  {
    5 * n / c.retryDelay
  }

  lemma MulMonotone(a: int, b: int, d: int)
    requires a <= b && 0 <= d
    ensures a * d <= b * d
  {
  }

  lemma Distribute(a: int, b: int, d: int)
    ensures (a - b) * d == a * d - b * d && (a + 1) * d == a * d + d
  {
  }

  lemma DivUnique(x: int, d: int, q: int, r: int)
    requires 0 < d && x == q * d + r && 0 <= r < d
    ensures x / d == q
  {
    var p := x / d;
    if p < q {
      MulMonotone(p + 1, q, d);
      Distribute(p, 0, d);
    }
    if q < p {
      MulMonotone(q + 1, p, d);
      Distribute(q, 0, d);
    }
  }

  lemma ResendsBounds(c: Config, n: nat)
    requires 0 < c.retryDelay
    ensures Resends(c, n) * c.retryDelay <= 5 * n < Resends(c, n) * c.retryDelay + c.retryDelay
  {
  }

  lemma ResendsUnique(c: Config, n: nat, q: int)
    requires q * c.retryDelay <= 5 * n < q * c.retryDelay + c.retryDelay
    ensures Resends(c, n) == q
  {
    DivUnique(5 * n, c.retryDelay, q, 5 * n - q * c.retryDelay);
  }

  lemma TotalIs(c: Config)
    ensures Total(c) == c.retryCount as int * c.retryDelay + c.retryDelay
  {
    Distribute(c.retryCount as int, 0, c.retryDelay);
  }

  /** Before the total has passed not all retries are used, and the next poll crosses at most one
      threshold: exactly when it leaves no more than the time of the remaining retries. */
  lemma NextResend(c: Config, n: nat)
    requires POLL_INTERVAL <= c.retryDelay && 5 * (n + 1) < Total(c)
    ensures var q, d := Resends(c, n), c.retryDelay;
            && q <= c.retryCount as int
            && 0 <= (c.retryCount as int - q) * d <= Total(c)
    ensures var q, d := Resends(c, n), c.retryDelay;
            Resends(c, n + 1) ==
            q + if q < c.retryCount as int && Total(c) - 5 * (n + 1) <= (c.retryCount as int - q) * d then 1 else 0
  {
    hide Resends, Total;
    var q, d, m := Resends(c, n), c.retryDelay, c.retryCount as int;
    ResendsBounds(c, n);
    TotalIs(c);
    Distribute(m, q, d);
    Distribute(q, 0, d);
    Distribute(m, 0, d);
    if m < q {
      MulMonotone(m + 1, q, d);
    }
    MulMonotone(0, q, d);
    if q < 0 {
      MulMonotone(q, -1, d);
    }
    MulMonotone(q, m, d);
    if 5 * (n + 1) < q * d + d {
      ResendsUnique(c, n + 1, q);
    } else {
      ResendsUnique(c, n + 1, q + 1);
      if m <= q {
        MulMonotone(m, q, d);
      }
    }
  }

  // ----- one entry on schedule -----

  /** The entry of request `id` as it is after `n` unanswered polls. */
  function EntryAfter(c: Config, id: nat, n: nat, state: PacketState): Entry
    requires Schedulable(c) && 5 * n < Total(c)
  {
    ResendsInRange(c, n);
    Entry(id, id % INSTANCE_IDS, state, c.retryCount - Resends(c, n), Wrap32(Total(c) - 5 * n))
  }

  lemma ResendsInRange(c: Config, n: nat)
    requires 0 < c.retryDelay && 5 * n < Total(c)
    ensures 0 <= Resends(c, n) <= c.retryCount as int
  {
    var q, d, m := Resends(c, n), c.retryDelay, c.retryCount as int;
    if m < q {
      MulMonotone(m + 1, q, d);
    }
    if q < 0 {
      MulMonotone(q, -1, d);
    }
  }

  /** The time left before a poll lies between the thresholds of the retries done and the next one. */
  lemma BetweenThresholds(c: Config, n: nat)
    requires 0 < c.retryDelay && 5 * n < Total(c)
    ensures var x := (c.retryCount - Resends(c, n)) * c.retryDelay;
            0 <= x < Total(c) - 5 * n <= x + c.retryDelay && x < Total(c)
  {
    hide Resends, Total;
    var q, d, m := Resends(c, n), c.retryDelay, c.retryCount as int;
    ResendsBounds(c, n);
    ResendsInRange(c, n);
    TotalIs(c);
    Distribute(m, q, d);
    MulMonotone(q, m, d);
    MulMonotone(0, q, d);
  }

  /** A total beyond 32 bits takes a long delay. */
  lemma LongDelay(c: Config)
    requires TWO_32 < Total(c)
    ensures 0x100_0000 < c.retryDelay
  {
    var m := c.retryCount as int + 1;
    if c.retryDelay <= 0x100_0000 {
      MulMonotone(m, 0x100, c.retryDelay);
    }
  }

  lemma NextMultiple(k: int, r: int, d: int)
    requires 0 < d && r * d < k * d
    ensures r * d + d <= k * d
  {
    if k <= r {
      MulMonotone(k, r, d);
    } else {
      MulMonotone(r + 1, k, d);
      Distribute(r, 0, d);
    }
  }

  /** Time left that is a multiple of the poll interval and below five times 2^32 does not wrap to zero. */
  lemma NotZero(left: nat)
    requires 0 < left < 5 * TWO_32 && left % 5 == 0
    ensures Wrap32(left) > 0
  {
  }

  /** With a schedulable configuration comparing the wrapped numbers is comparing the numbers. */
  lemma ComparesAlike(c: Config, n: nat)
    requires Schedulable(c) && 5 * (n + 1) < Total(c)
    ensures var left, x := Total(c) - 5 * (n + 1), (c.retryCount - Resends(c, n)) * c.retryDelay;
            0 < Wrap32(left) && (Wrap32(left) <= Wrap32(x) <==> left <= x)
  {
    hide Resends, Total, DueBefore;
    var left, r := Total(c) - 5 * (n + 1), c.retryCount - Resends(c, n);
    var x := r * c.retryDelay;
    BetweenThresholds(c, n);
    NotZero(left);
    var a, b := left / TWO_32, x / TWO_32;
    if a != b {
      var j := if a > b then a else b;
      assert 1 <= j <= 4 && j * TWO_32 < Total(c);
      assert DueBefore(c, j);
      LongDelay(c);
      var k := DueAt(c, j);
      DueMultiple(c.retryDelay, RoundUp(j * TWO_32), k, r, j * TWO_32, left, x);
    }
  }

  /** A multiple of the delay near the wrap, so that no threshold can lie between the wrap and the time left. */
  lemma DueMultiple(d: nat, u: nat, k: int, r: int, wrap: nat, left: nat, x: int)
    requires 8 < d && u == RoundUp(wrap) && u <= k * d <= u + 4 && x == r * d && left % 5 == 0
    requires x < left + 5 <= x + d
    ensures !(x < wrap <= left) && !(left < wrap <= x)
  {
    if x < wrap <= left || left < wrap <= x {
      NextMultiple(k, r, d);
    }
  }

  lemma DueAt(c: Config, j: nat) returns (k: nat)
    requires 0 < c.retryDelay && DueBefore(c, j)
    ensures var u := RoundUp(j * TWO_32);
            u <= k * c.retryDelay <= u + 4
  {
    var u := RoundUp(j * TWO_32);
    k := (u + 4) / c.retryDelay;
    DivBelow(u + 4, c.retryDelay);
  }

  lemma DivBelow(x: nat, d: nat)
    requires 0 < d
    ensures x / d * d <= x < x / d * d + d
  {
  }

  /** A poll moves an unanswered entry along its schedule, sending when the schedule says so, and
      gives it up exactly when the total has passed. */
  lemma PollOnSchedule(c: Config, id: nat, n: nat, state: PacketState, ok: bool)
    requires Schedulable(c) && 5 * n < Total(c) && state != ReceivedResponse
    ensures var p := PollEntry(c, EntryAfter(c, id, n, state), ok);
            if 5 * (n + 1) < Total(c) then
              && p.Keep? && p.e.state != ReceivedResponse
              && p.e == EntryAfter(c, id, n + 1, p.e.state)
              && Resends(c, n + 1) == Resends(c, n) + (if p.sent then 1 else 0)
            else
              p == Drop && 5 * (n + 1) == Total(c) && Resends(c, n) == c.retryCount as int
  {
    hide Resends, Total, Wrap32, Schedulable;
    SchedulableIs(c);
    ResendsInRange(c, n);
    MultipleOfPoll(Total(c), n);
    WrapAdd(Total(c) - 5 * n, -5);
    if 5 * (n + 1) < Total(c) {
      NextResend(c, n);
      ResendsInRange(c, n + 1);
      ComparesAlike(c, n);
    } else {
      TotalIs(c);
      ResendsUnique(c, n, c.retryCount as int);
      ZeroWraps();
    }
  }

  lemma SchedulableIs(c: Config)
    requires Schedulable(c)
    ensures POLL_INTERVAL <= c.retryDelay && Total(c) % 5 == 0
  {
  }

  lemma ZeroWraps()
    ensures Wrap32(0) == 0
  {
  }

  lemma MultipleOfPoll(total: nat, n: nat)
    requires total % POLL_INTERVAL == 0 && 5 * n < total
    ensures 5 * (n + 1) <= total
  {
  }

  // ----- one request in the queue -----

  /** Request `id` after `n` unanswered polls: still queued on schedule, or given up and called back. */
  ghost predicate Tracks(c: Config, q: Queue, id: nat, n: nat)
    requires Schedulable(c)
  {
    if 5 * n < Total(c) then
      && SentCount(q.log, id) == 1 + Resends(c, n) && CalledCount(q.log, id) == 0
      && exists s :: s != ReceivedResponse && EntryAfter(c, id, n, s) in q.entries
    else
      && SentCount(q.log, id) == 1 + c.retryCount as int && CalledCount(q.log, id) == 1
      && Called(id, NoResponse) in q.log && EntryCount(q.entries, id) == 0
  }

  lemma {:induction false} InQueueCounts(es: seq<Entry>, e: Entry)
    requires e in es
    ensures EntryCount(es, e.id) >= 1
  {
    if es[|es| - 1] != e {
      InQueueCounts(es[..|es| - 1], e);
    }
  }

  /** What a poll does to a request that is queued once. */
  lemma {:induction false} PollMember(c: Config, es: seq<Entry>, tx: Driver, e: Entry)
    requires e in es && EntryCount(es, e.id) == 1
    ensures var p := PollEntry(c, e, tx(e.id));
            && SentCount(PollLog(c, es, tx), e.id) == (if p.Keep? && p.sent then 1 else 0)
            && (p.Keep? ==> p.e in PollKept(c, es, tx) && CalledCount(PollLog(c, es, tx), e.id) == 0)
            && (p.Drop? ==>
                  Called(e.id, NoResponse) in PollLog(c, es, tx) && CalledCount(PollLog(c, es, tx), e.id) == 1)
  {
    var front, last := es[..|es| - 1], es[|es| - 1];
    assert es == front + [last];
    var p := PollEntry(c, last, tx(last.id));
    CountsConcat(PollLog(c, front, tx), PollEvents(last, p), e.id);
    OneEvent(last, p, e.id);
    PollCounts(c, front, tx, e.id);
    if last != e {
      assert e in front;
      InQueueCounts(front, e);
      PollMember(c, front, tx, e);
    }
  }

  /** The callback of `id` with a response has happened. */
  predicate Answered(q: Queue, id: nat) {
    Called(id, ReceivedResponse) in q.log
  }

  lemma PollTracks(c: Config, q: Queue, tx: Driver, id: nat, n: nat)
    requires Schedulable(c) && QueueOk(q) && q.armed && Tracks(c, q, id, n)
    ensures Tracks(c, Poll(c, q, tx), id, n + 1)
  {
    hide SentCount, CalledCount, EntryCount, PollEntry, PollLog, PollKept, Resends, Schedulable;
    PollCounts(c, q.entries, tx, id);
    CountsConcat(q.log, PollLog(c, q.entries, tx), id);
    if 5 * n < Total(c) {
      var s :| s != ReceivedResponse && EntryAfter(c, id, n, s) in q.entries;
      var e := EntryAfter(c, id, n, s);
      InQueueCounts(q.entries, e);
      PollMember(c, q.entries, tx, e);
      PollOnSchedule(c, id, n, s, tx(id));
    }
  }

  lemma PushTracks(c: Config, q: Queue, id: nat, n: nat)
    requires Schedulable(c) && QueueOk(q) && Tracks(c, q, id, n) && id <= q.issued
    ensures Tracks(c, Push(c, q), id, n)
  {
    hide SentCount, CalledCount, EntryCount, Resends, Schedulable, Wrap32;
    var k := q.issued + 1;
    CountsConcat(q.log, [Sent(k)], id);
    EntryCountConcat(q.entries, [NewEntry(c, k)], id);
    SingleCounts(Sent(k), NewEntry(c, k), id);
  }

  lemma RespondTracks(c: Config, q: Queue, inst: byte, id: nat, n: nat)
    requires Schedulable(c) && QueueOk(q) && Tracks(c, q, id, n) && !Answered(Respond(q, inst), id)
    ensures Tracks(c, Respond(q, inst), id, n)
  {
    hide SentCount, CalledCount, EntryCount, Resends, Schedulable, FirstWith;
    var i := FirstWith(q.entries, inst);
    if i < |q.entries| {
      var gone := q.entries[i];
      var ev := Called(gone.id, ReceivedResponse);
      assert ev in q.log + [ev];
      CountsConcat(q.log, [ev], id);
      RemoveCounts(q.entries, i, id);
      SingleCounts(ev, gone, id);
      if 5 * n < Total(c) {
        var s :| s != ReceivedResponse && EntryAfter(c, id, n, s) in q.entries;
        var e := EntryAfter(c, id, n, s);
        StaysWithout(q.entries, i, e);
      }
    }
  }

  lemma StaysWithout(es: seq<Entry>, i: nat, e: Entry)
    requires i < |es| && e in es && es[i] != e
    ensures e in es[..i] + es[i + 1..]
  {
    var k :| 0 <= k < |es| && es[k] == e;
    assert (es[..i] + es[i + 1..])[if k < i then k else k - 1] == e;
  }

  // ----- runs -----

  function Polls(steps: seq<Step>): nat {
    if steps == [] then 0
    else Polls(steps[..|steps| - 1]) + if steps[|steps| - 1].PollStep? then 1 else 0
  }

  lemma NewTracks(c: Config, q: Queue)
    requires Schedulable(c) && QueueOk(q)
    ensures Tracks(c, Push(c, q), q.issued + 1, 0)
  {
    var id := q.issued + 1;
    CountsConcat(q.log, [Sent(id)], id);
    SingleCounts(Sent(id), NewEntry(c, id), id);
    assert CalledCount(q.log, id) + EntryCount(q.entries, id) == if SentCount(q.log, id) > 0 then 1 else 0;
    Distribute(c.retryCount as int, 0, c.retryDelay);
    MulMonotone(0, c.retryCount as int, c.retryDelay);
    DivUnique(0, c.retryDelay, 0, 0);
    assert NewEntry(c, id) == EntryAfter(c, id, 0, PushedForTransmission);
  }

  lemma StepTracks(c: Config, q: Queue, step: Step, r: Queue, id: nat, n: nat)
    requires Schedulable(c) && QueueOk(q) && Next(c, q, step, r)
    requires Tracks(c, q, id, n) && id <= q.issued && !Answered(r, id)
    ensures Tracks(c, r, id, n + if step.PollStep? then 1 else 0)
  {
    hide QueueOk, Schedulable, Total, Tracks, Answered;
    match step
    case PushStep => PushTracks(c, q, id, n);
    case PollStep(tx) => PollTracks(c, q, tx, id, n);
    case ResponseStep(inst) => RespondTracks(c, q, inst, id, n);
    case IssueElsewhere => IssueTracks(c, q, id, n);
  }

  lemma IssueTracks(c: Config, q: Queue, id: nat, n: nat)
    requires Schedulable(c) && Tracks(c, q, id, n)
    ensures Tracks(c, q.(issued := q.issued + 1), id, n)
  {
  }

  lemma StepKeepsLog(c: Config, q: Queue, step: Step, r: Queue, id: nat)
    requires Next(c, q, step, r)
    ensures q.issued <= r.issued
    ensures Answered(q, id) ==> Answered(r, id)
  {
  }

  lemma PushIsNext(c: Config, q: Queue, r: Queue)
    requires Next(c, q, PushStep, r)
    ensures r == Push(c, q) && r.issued == q.issued + 1
  {
  }

  /** In every run, a request pushed at step `p` and not answered up to state `j` is exactly on
      schedule, whatever else is queued, pushed or answered: after `n` polls it was sent
      1 + 5n/delay times, and once the total has passed it was sent 1 + retry count times, reported
      once as not answered, and dropped. */
  lemma {:induction false} UnansweredOnSchedule(c: Config, steps: seq<Step>, states: seq<Queue>, p: nat, j: nat)
    requires IsRun(c, steps, states) && p < j < |states| && steps[p] == PushStep
    requires Schedulable(c) && !Answered(states[j], states[p].issued + 1)
    ensures Tracks(c, states[j], states[p].issued + 1, Polls(steps[p + 1..j]))
    ensures states[p].issued + 1 <= states[j].issued
    decreases j
  {
    hide Tracks, QueueOk, Schedulable, Total, Answered, Push, Poll, Respond, Next;
    var id := states[p].issued + 1;
    RunsKeepOk(c, steps, states, j - 1);
    assert Next(c, states[j - 1], steps[j - 1], states[j - 1 + 1]);
    if j == p + 1 {
      NewTracks(c, states[p]);
      PushIsNext(c, states[p], states[j]);
    } else {
      StepKeepsLog(c, states[j - 1], steps[j - 1], states[j], id);
      UnansweredOnSchedule(c, steps, states, p, j - 1);
      StepTracks(c, states[j - 1], steps[j - 1], states[j], id, Polls(steps[p + 1..j - 1]));
      assert steps[p + 1..j] == steps[p + 1..j - 1] + [steps[j - 1]];
    }
  }

  // ----- which configurations keep the schedule -----

  /** A lone unanswered request after `n` polls: whether it is still queued, its entry, and its resends. */
  function Lone(c: Config, n: nat): (l: (bool, Entry, nat))
    decreases n
  {
    if n == 0 then (true, NewEntry(c, 1), 0)
    else
      var (queued, e, sent) := Lone(c, n - 1);
      if !queued then (false, e, sent)
      else
        match PollEntry(c, e, true)
        case Keep(next, again) => (true, next, sent + if again then 1 else 0)
        case Drop => (false, e, sent)
  }

  /** The first poll at which the total time has passed. */
  function Deadline(c: Config): nat {
    (Total(c) + 4) / 5
  }

  /** The promise made for a request without response: until the total time has passed it is queued and was resent once
      for each whole retry delay; at the first poll from then on it is given up, all retries done. */
  ghost predicate OnSchedule(c: Config)
    requires 0 < c.retryDelay
  {
    && (forall n: nat | 5 * n < Total(c) :: Lone(c, n).0 && Lone(c, n).2 == Resends(c, n))
    && !Lone(c, Deadline(c)).0 && Lone(c, Deadline(c)).2 == c.retryCount as int
  }

  /** What is always true of the entry while it is queued. */
  lemma {:induction false} LoneCountsDown(c: Config, n: nat)
    requires Lone(c, n).0
    ensures var (queued, e, sent) := Lone(c, n);
            && e.maxRespDelay == Wrap32(Total(c) - 5 * n) && e.state != ReceivedResponse
            && sent <= n && sent + e.retryCount as nat == c.retryCount as nat
  {
    hide Total, Wrap32;
    if n == 0 {
      FreshDelay(c);
    } else {
      LoneCountsDown(c, n - 1);
      WrapAdd(Total(c) - 5 * (n - 1), -5);
    }
  }

  lemma FreshDelay(c: Config)
    ensures NewEntry(c, 1).maxRespDelay == Wrap32(Total(c))
  {
  }

  /** What a poll makes of the entry, in numbers. */
  lemma LonePoll(c: Config, n: nat)
    requires Lone(c, n).0
    ensures var left := Wrap32(Total(c) - 5 * (n + 1));
            var r := c.retryCount - Lone(c, n).2;
            && 0 <= r
            && (Lone(c, n + 1).0 <==> left > 0)
            && Lone(c, n + 1).2 == Lone(c, n).2 + if 0 < left && 0 < r && left <= Wrap32(r * c.retryDelay) then 1 else 0
  {
    hide Total, Wrap32;
    LoneCountsDown(c, n);
    WrapAdd(Total(c) - 5 * n, -5);
  }

  /** With a total that fits 32 bits the entry is queued until the total has passed. */
  lemma {:induction false} SmallTotalWaits(c: Config, n: nat)
    requires Total(c) < TWO_32 && 5 * n < Total(c)
    ensures Lone(c, n).0
  {
    hide Total, PollEntry;
    if n > 0 {
      SmallTotalWaits(c, n - 1);
      LonePoll(c, n - 1);
    }
  }

  lemma {:induction false} LoneOnSchedule(c: Config, n: nat)
    requires Schedulable(c) && 5 * n < Total(c)
    ensures var (queued, e, sent) := Lone(c, n);
            queued && e == EntryAfter(c, 1, n, e.state) && e.state != ReceivedResponse && sent == Resends(c, n)
  {
    hide Total, Resends, PollEntry, Schedulable, Wrap32;
    if n == 0 {
      SchedulableIs(c);
      FreshDelay(c);
      ResendsUnique(c, 0, 0);
    } else {
      LoneOnSchedule(c, n - 1);
      PollOnSchedule(c, 1, n - 1, Lone(c, n - 1).1.state, true);
    }
  }

  lemma SchedulableIsOnSchedule(c: Config)
    requires Schedulable(c)
    ensures OnSchedule(c)
  {
    hide Total, Resends, PollEntry, Schedulable;
    SchedulableIs(c);
    TotalIs(c);
    MulMonotone(0, c.retryCount as int, c.retryDelay);
    forall n: nat | 5 * n < Total(c) ensures Lone(c, n).0 && Lone(c, n).2 == Resends(c, n) {
      LoneOnSchedule(c, n);
    }
    LoneOnSchedule(c, Deadline(c) - 1);
    PollOnSchedule(c, 1, Deadline(c) - 1, Lone(c, Deadline(c) - 1).1.state, true);
  }

  // ----- configurations that miss the schedule -----

  /** A total that is not a whole number of polls: the remaining time wraps at the deadline. */
  lemma IrregularTotalIsLate(c: Config)
    requires 0 < Total(c) && Total(c) % POLL_INTERVAL != 0 && Lone(c, Deadline(c) - 1).0
    ensures Lone(c, Deadline(c)).0
  {
    hide Total, Lone;
    LonePoll(c, Deadline(c) - 1);
    var late := Total(c) - 5 * Deadline(c);
    assert -5 < late < 0;
  }

  /** A delay below the poll interval: there are not enough polls for all the retries. */
  lemma ShortDelayIsShort(c: Config)
    requires 0 < Total(c) && Total(c) % POLL_INTERVAL == 0 && c.retryDelay < POLL_INTERVAL && Lone(c, Deadline(c) - 1).0
    ensures Lone(c, Deadline(c)).2 < c.retryCount as int
  {
    hide Total, Lone, Deadline, Wrap32;
    FewPolls(c);
    LonePoll(c, Deadline(c) - 1);
    LoneCountsDown(c, Deadline(c) - 1);
    ZeroWraps();
  }

  lemma FewPolls(c: Config)
    requires 0 < Total(c) && Total(c) % POLL_INTERVAL == 0 && c.retryDelay < POLL_INTERVAL
    ensures 0 < Deadline(c) <= c.retryCount as int && 5 * Deadline(c) == Total(c)
  {
    hide Total;
    TotalBound(c);
  }

  lemma TotalBound(c: Config)
    requires c.retryDelay < POLL_INTERVAL
    ensures Total(c) <= 4 * (c.retryCount as int + 1)
  {
    MulMonotone(c.retryDelay, 4, c.retryCount as int + 1);
  }

  /** More than five times 2^32: the wrapped remaining time reaches zero before the total has passed. */
  lemma LongTotalIsEarly(c: Config)
    requires 5 * TWO_32 < Total(c) && Total(c) % POLL_INTERVAL == 0
    ensures exists n: nat :: 5 * n < Total(c) && !Lone(c, n).0
  {
    hide Total, Lone;
    var n := (Total(c) - 5 * TWO_32) / 5;
    assert Total(c) - 5 * n == 5 * TWO_32 && n > 0;
    if Lone(c, n).0 {
      LoneQueuedBefore(c, n - 1);
      LonePoll(c, n - 1);
      WrapPeriod(0, 5);
      ZeroWraps();
    }
  }

  lemma LoneQueuedBefore(c: Config, n: nat)
    requires Lone(c, n + 1).0
    ensures Lone(c, n).0
  {
  }

  lemma DueIf(c: Config, j: nat, k: nat)
    requires 0 < c.retryDelay
    requires var u := RoundUp(j * TWO_32);
             u <= k * c.retryDelay <= u + 4
    ensures DueBefore(c, j)
  {
    var u, d := RoundUp(j * TWO_32), c.retryDelay;
    DivBelow(u + 4, d);
    if (u + 4) / d < k {
      NextMultipleDown((u + 4) / d, k, d);
    } else {
      MulMonotone(k, (u + 4) / d, d);
    }
  }

  lemma NextMultipleDown(a: int, k: int, d: int)
    requires 0 < d && a < k
    ensures a * d + d <= k * d
  {
    MulMonotone(a + 1, k, d);
    Distribute(a, 0, d);
  }

  /** Where no retry falls due at the last poll before the remaining time wraps, either a small wrapped time is taken
      for an early retry, or the retry due at the next poll is missed because its wrapped time is large. */
  lemma WrapMissesSchedule(c: Config, j: nat)
    requires POLL_INTERVAL <= c.retryDelay && Total(c) % 5 == 0 && 1 <= j <= 4 && j * TWO_32 < Total(c)
    requires OnSchedule(c)
    ensures DueBefore(c, j)
  {
    hide Total, Resends, Lone, DueBefore, OnSchedule, RoundUp;
    var u := RoundUp(j * TWO_32);
    if u >= Total(c) {
      TotalIs(c);
      Distribute(c.retryCount as int, 0, c.retryDelay);
      DueIf(c, j, c.retryCount as nat + 1);
    } else {
      var k := PollsUntil(Total(c), u);
      var n := k - 1;
      ResendsInRange(c, n);
      BetweenThresholds(c, n);
      NotDueMisses(c, j, u, n);
      DueIf(c, j, c.retryCount - Resends(c, n));
    }
  }

  lemma PollsUntil(total: nat, left: nat) returns (n: nat)
    requires left < total && left % 5 == total % 5 == 0
    ensures 0 < n && total - 5 * n == left
  {
    n := (total - left) / 5;
  }

  lemma NotDueMisses(c: Config, j: nat, u: nat, n: nat)
    requires POLL_INTERVAL <= c.retryDelay && 1 <= j <= 4 && u == RoundUp(j * TWO_32) && OnSchedule(c)
    requires Total(c) - 5 * (n + 1) == u
    ensures u <= (c.retryCount - Resends(c, n)) * c.retryDelay
  {
    hide Total, Resends, Lone, OnSchedule, RoundUp, Wrap32;
    var r := c.retryCount - Resends(c, n);
    var x := r * c.retryDelay;
    BetweenThresholds(c, n);
    if x < u {
      NextResend(c, n);
      OnScheduleAt(c, n);
      LonePoll(c, n);
      if x < j * TWO_32 {
        SmallTimeBelow(u, j, x, r, c.retryDelay);
      } else {
        LargeTimeAbove(u, j, x);
        OnScheduleAt(c, n + 1);
        NextResend(c, n + 1);
        LonePoll(c, n + 1);
      }
    }
  }

  lemma OnScheduleAt(c: Config, n: nat)
    requires 0 < c.retryDelay && OnSchedule(c) && 5 * (n + 1) < Total(c)
    ensures Lone(c, n).0 && Lone(c, n).2 == Resends(c, n)
    ensures Lone(c, n + 1).0 && Lone(c, n + 1).2 == Resends(c, n + 1)
  {
  }

  lemma SmallTimeBelow(u: nat, j: nat, x: nat, r: int, d: u32)
    requires 1 <= j <= 4 && u == RoundUp(j * TWO_32) && x == r * d && x < j * TWO_32 && u + 5 <= x + d
    ensures 0 < r && Wrap32(u) <= Wrap32(x)
    ensures 0 < Wrap32(u)
  {
    if r <= 0 {
      MulMonotone(r, 0, d);
    }
    assert x / TWO_32 == j - 1 && u / TWO_32 == j;
  }

  lemma LargeTimeAbove(u: nat, j: nat, x: nat)
    requires 1 <= j <= 4 && u == RoundUp(j * TWO_32) && j * TWO_32 <= x < u
    ensures 5 < u && 0 < Wrap32(u - 5) && Wrap32(x) < Wrap32(u - 5) && u - 5 <= x
  {
    assert x / TWO_32 == j && (u - 5) / TWO_32 == j - 1;
  }

  /** For every retry delay and count: the promise is kept exactly by the schedulable configurations. With a total below
      2^32 these are the regular ones, and any other one misses the deadline or has fewer tries. */
  lemma OnScheduleIff(c: Config)
    requires 0 < c.retryDelay
    ensures OnSchedule(c) <==> Schedulable(c)
    ensures Total(c) < TWO_32 ==> (Schedulable(c) <==> Regular(c))
    ensures Total(c) < TWO_32 && !Regular(c) ==> Lone(c, Deadline(c)).0 || Lone(c, Deadline(c)).2 < c.retryCount as int
  {
    TotalIs(c);
    MulMonotone(0, c.retryCount as int, c.retryDelay);
    hide Total, Lone, Resends, DueBefore, Schedulable;
    if Schedulable(c) {
      SchedulableIsOnSchedule(c);
    }
    if OnSchedule(c) {
      assert Lone(c, Deadline(c) - 1).0;
      MissesSchedule(c);
      if 5 * TWO_32 < Total(c) {
        LongTotalIsEarly(c);
      }
      forall j | 1 <= j <= 4 && j * TWO_32 < Total(c) ensures DueBefore(c, j) {
        WrapMissesSchedule(c, j);
      }
      AllDueIsSchedulable(c);
    }
    SmallIsSchedulable(c);
    if Total(c) < TWO_32 {
      SmallTotalWaits(c, Deadline(c) - 1);
      MissesSchedule(c);
    }
  }

  lemma MissesSchedule(c: Config)
    requires 0 < Total(c) && Lone(c, Deadline(c) - 1).0
    ensures !Regular(c) ==> Lone(c, Deadline(c)).0 || Lone(c, Deadline(c)).2 < c.retryCount as int
  {
    hide Total, Lone;
    if Total(c) % POLL_INTERVAL != 0 {
      IrregularTotalIsLate(c);
    } else if c.retryDelay < POLL_INTERVAL {
      ShortDelayIsShort(c);
    }
  }

  lemma AllDueIsSchedulable(c: Config)
    requires 0 < c.retryDelay && Regular(c) && Total(c) <= 5 * TWO_32
    requires forall j | 1 <= j <= 4 && j * TWO_32 < Total(c) :: DueBefore(c, j)
    ensures Schedulable(c)
  {
  }

  lemma SmallIsSchedulable(c: Config)
    requires 0 < c.retryDelay
    ensures Total(c) < TWO_32 ==> (Schedulable(c) <==> Regular(c))
  {
  }

  /** Beyond 32 bits being regular is not enough, yet some configurations are schedulable. */
  lemma BeyondThirtyTwoBits()
    ensures var c := Config(0x4000_0001, 4);
            TWO_32 < Total(c) && Schedulable(c)
    ensures var c := Config(0x8000_0007, 1);
            TWO_32 < Total(c) && Regular(c) && !Schedulable(c)
  {
    assert !DueBefore(Config(0x8000_0007, 1), 1);
  }
}
