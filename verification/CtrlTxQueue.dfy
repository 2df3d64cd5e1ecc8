/** The control transmit queue of a binding: its entries and timer change in place. */
module CtrlTxQueue {
  import opened Bytes
  import opened CtrlQueue

  class TxQueue {
    const config: Config
    var entries: seq<Entry>
    var timerExpired: bool
    /** Whether a wait for the poll timer is pending. */
    var armed: bool
    /** The shared instance id counter, and how often it has been advanced; the latter stands for the
        callback a request carries. */
    var instanceId: byte
    var issued: nat
    ghost var log: seq<Event>

    ghost function State(): Queue
      reads this
    {
      Queue(entries, timerExpired, armed, issued, log)
    }

    ghost predicate Valid()
      reads this
    {
      instanceId == issued % INSTANCE_IDS
    }

    constructor (config: Config)
      ensures Valid() && this.config == config && State() == EMPTY
    {
      this.config := config;
      entries, timerExpired, armed := [], true, false;
      instanceId := 0;
      issued, log := 0, [];
    }

    method CreateInstanceId() returns (id: byte)
      requires Valid()
      modifies this`instanceId, this`issued
      ensures Valid() && issued == old(issued) + 1 && id == issued % 32
    {
      instanceId := (instanceId + 1) % INSTANCE_IDS;
      issued := issued + 1;
      return instanceId;
    }

    /** Arms the poll timer. */
    method ProcessCtrlTxQueue()
      modifies this`timerExpired, this`armed
      ensures !timerExpired && armed
    {
      timerExpired := false;
      armed := true;
    }

    /** A new request takes an instance id, is queued and sent, and starts the timer if it had expired. */
    method SendRequest() returns (id: byte)
      requires Valid() && timerExpired == !armed
      modifies this
      ensures Valid() && State() == Push(config, old(State())) && id == issued % 32
    {
      id := CreateInstanceId();
      var delay := Wrap32((config.retryCount as int + 1) * config.retryDelay);
      entries := entries + [Entry(issued, id, PushedForTransmission, config.retryCount, delay)];
      log := log + [Sent(issued)];
      if timerExpired {
        ProcessCtrlTxQueue();
      }
    }

    /** The poll timer fires. */
    method TimerFired(tx: Driver)
      requires armed
      modifies this
      ensures State() == Poll(config, old(State()), tx) && instanceId == old(instanceId)
    {
      hide PollKept, PollLog;
      PollNothing(config, tx);
      ghost var log0 := log;
      var es := entries;
      var kept: seq<Entry> := [];
      var i := 0;
      armed := false;
      while i < |es|
        invariant 0 <= i <= |es|
        invariant kept == PollKept(config, es[..i], tx)
        invariant log == log0 + PollLog(config, es[..i], tx)
        invariant unchanged(`issued, `instanceId) && !armed
      {
        var e := es[i];
        PollSteps(config, es, i, tx);
        var delay := Wrap32(e.maxRespDelay - POLL_INTERVAL);
        if delay > 0 && e.state != ReceivedResponse {
          var next := e.(maxRespDelay := delay);
          if e.retryCount > 0 && delay <= Wrap32(e.retryCount as int * config.retryDelay) {
            log := log + [Sent(e.id)];
            next := next.(retryCount := e.retryCount - 1, state := if tx(e.id) then Transmitted else e.state);
          }
          kept := kept + [next];
        } else {
          log := log + [Called(e.id, NoResponse)];
        }
        i := i + 1;
      }
      assert es[..i] == es;
      entries := kept;
      if entries == [] {
        timerExpired := true;
      } else {
        ProcessCtrlTxQueue();
      }
    }

    /** A response arrives. */
    method HandleCtrlResp(inst: byte) returns (matched: bool)
      modifies this
      ensures State() == Respond(old(State()), inst) && instanceId == old(instanceId)
      ensures matched <==> exists e | e in old(entries) :: e.inst == inst
      ensures !matched ==> State() == old(State())
    {
      FirstWithIff(entries, inst);
      var i := 0;
      while i < |entries|
        invariant 0 <= i <= |entries| && unchanged(this)
        invariant FirstWith(entries, inst) == i + FirstWith(entries[i..], inst)
      {
        if entries[i].inst == inst {
          log := log + [Called(entries[i].id, ReceivedResponse)];
          entries := entries[..i] + entries[i + 1..];
          return true;
        }
        assert entries[i..][1..] == entries[i + 1..];
        i := i + 1;
      }
      return false;
    }
  }
}
