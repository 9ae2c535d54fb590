/**
 * The browser's socket client: a rate-limited command sender and a keyed pool
 * of status listeners whose fan-out has no exception isolation.
 */
module BusSocketClient {
  import opened Listeners
  import FrontendCommand

  /** Minimum spacing, in milliseconds, between two commands sent to the server. */
  const RateLimit := 50

  /** The gate in `runCommand`: a request is sent only when strictly more than `RateLimit` ms have passed since the last one sent. */
  predicate Admits(lastReq: int, now: int)
  {
    now - lastReq > RateLimit
  }

  /**
   * The two clock readings of one `runCommand` call: `sentAt` is read by the
   * gate, `stampedAt` after the command has been handed to the socket.
   */
  datatype Request = Request(sentAt: int, stampedAt: int)

  /** The value of `_lastReq` after a run of requests, starting from `init`. */
  function LastReq(init: int, rs: seq<Request>): (last: int)
    decreases |rs|
  {
    if rs == [] then init
    else
      var prev := LastReq(init, rs[..|rs| - 1]);
      var r := rs[|rs| - 1];
      if Admits(prev, r.sentAt) then r.stampedAt else prev
  }

  /** Whether the `i`-th request of the run got through the gate. */
  predicate Accepted(init: int, rs: seq<Request>, i: int)
    requires 0 <= i < |rs|
  {
    Admits(LastReq(init, rs[..i]), rs[i].sentAt)
  }

  /** Clock readings never go backwards: within a call, and from one call to the next. */
  ghost predicate Chronological(rs: seq<Request>)
  {
    (forall k :: 0 <= k < |rs| ==> rs[k].sentAt <= rs[k].stampedAt)
    && (forall k :: 0 < k < |rs| ==> rs[k - 1].stampedAt <= rs[k].sentAt)
  }

  /** Once request `i` is accepted, `_lastReq` never again falls below its stamp. */
  lemma {:induction false} LastReqAfterAccepted(init: int, rs: seq<Request>, i: int, k: int)
    requires Chronological(rs)
    requires 0 <= i < k <= |rs| && Accepted(init, rs, i)
    ensures LastReq(init, rs[..k]) >= rs[i].stampedAt
    decreases k
  {
    var pre := rs[..k - 1];
    assert rs[..k][..k - 1] == pre;
    var prev := LastReq(init, pre);
    assert LastReq(init, rs[..k]) == if Admits(prev, rs[k - 1].sentAt) then rs[k - 1].stampedAt else prev;
    if k == i + 1 {
      assert pre == rs[..i];
    } else {
      LastReqAfterAccepted(init, rs, i, k - 1);
      assert rs[k - 1].sentAt <= rs[k - 1].stampedAt;
    }
  }

  /** Any two accepted requests are more than `RateLimit` ms apart: the second is read after the first one's stamp plus the limit. */
  lemma AcceptedAreSpaced(init: int, rs: seq<Request>, i: int, j: int)
    requires Chronological(rs)
    requires 0 <= i < j < |rs| && Accepted(init, rs, i) && Accepted(init, rs, j)
    ensures rs[j].sentAt - rs[i].stampedAt > RateLimit
    ensures rs[j].sentAt - rs[i].sentAt > RateLimit
  {
    LastReqAfterAccepted(init, rs, i, j);
  }

  /** How a `runCommand` promise settles as far as the client alone decides it. */
  datatype Outcome =
    | Rejected          // resolved with false at once; nothing was sent
    | AwaitingResponse  // the command was emitted; the server's "control-response" settles it

  class BusSocket {
    var lastReq: int
    var listenerPool: map<string, Callback>
    /** Every `runCommand` call so far, accepted or not. */
    ghost var requests: seq<Request>
    /** The commands emitted on the "control" channel, in order. */
    ghost var emitted: seq<FrontendCommand.Command>
    /** Every listener invocation made by `_emitAll`, in order. */
    ghost var deliveries: seq<Delivery<Json>>

    /** `_lastReq` is the stamp of the last accepted request. */
    ghost predicate Valid()
      reads this`lastReq, this`requests
    {
      lastReq == LastReq(0, requests)
    }

    /** A fresh socket: no request yet (`_lastReq` 0) and an empty listener pool. */
    constructor ()
      ensures Valid()
      ensures lastReq == 0 && listenerPool == map[]
      ensures requests == [] && emitted == [] && deliveries == []
    {
      lastReq := 0;
      listenerPool := map[];
      requests := [];
      emitted := [];
      deliveries := [];
    }

    /**
     * `runCommand`: with the clock reading `now` at the gate and `stamp` after
     * the emit, the command goes out only past the rate limit; a rejected
     * request changes nothing.
     */
    method RunCommand(command: FrontendCommand.Command, now: int, stamp: int) returns (outcome: Outcome)
      requires Valid()
      modifies this`lastReq, this`requests, this`emitted
      ensures Valid()
      ensures requests == old(requests) + [Request(now, stamp)]
      ensures outcome == AwaitingResponse <==> Admits(old(lastReq), now)
      ensures outcome == AwaitingResponse ==> lastReq == stamp && emitted == old(emitted) + [command]
      ensures outcome == Rejected ==> lastReq == old(lastReq) && emitted == old(emitted)
    {
      requests := requests + [Request(now, stamp)];
      assert requests[..|requests| - 1] == old(requests);
      if now - lastReq > RateLimit {
        emitted := emitted + [command];
        lastReq := stamp;
        outcome := AwaitingResponse;
      } else {
        outcome := Rejected;
      }
    }

    /** `addListener`: registers `cb` under `key`, replacing any listener already there. */
    method AddListener(key: string, cb: Callback)
      modifies this`listenerPool
      ensures listenerPool == old(listenerPool)[key := cb]
    {
      listenerPool := listenerPool[key := cb];
    }

    /** `removeListener`: deletes `key` when it is registered; the other listeners stay. */
    method RemoveListener(key: string)
      modifies this`listenerPool
      ensures key !in listenerPool
      ensures forall k :: k in old(listenerPool) && k != key ==> k in listenerPool && listenerPool[k] == old(listenerPool)[k]
      ensures listenerPool.Keys == old(listenerPool).Keys - {key}
      ensures key !in old(listenerPool) ==> listenerPool == old(listenerPool)
    {
      if key in listenerPool {
        listenerPool := listenerPool - {key};
      }
    }

    /**
     * `_emitAll`: invokes the listeners in pool order. Nothing catches an
     * exception, so the first listener that throws ends the fan-out
     * (`aborted`) and the rest are never called.
     */
    method EmitAll(payload: Json) returns (aborted: bool)
      modifies this`deliveries
      ensures AppendsRun(old(deliveries), deliveries, listenerPool, payload, aborted)
    {
      var pending := listenerPool.Keys;
      ghost var run: seq<Delivery<Json>> := [];
      aborted := false;
      FanOutStart(listenerPool, payload);
      while pending != {} && !aborted
        invariant FanOutProgress(run, pending, listenerPool, payload)
        invariant deliveries == old(deliveries) + run
        invariant Completes(run, aborted)
        decreases |pending|
      {
        var key :| key in pending;
        var d := Delivery(key, listenerPool[key], payload);
        FanOutStep(run, pending, listenerPool, payload, key);
        CompletesStep(run, d);
        deliveries := deliveries + [d];
        run := run + [d];
        pending := pending - {key};
        aborted := d.callback.throws;
      }
      if !aborted {
        FanOutDone(run, listenerPool, payload);
      }
      RunAppended(old(deliveries), run, listenerPool, payload, aborted);
    }
  }

  /** Every invocation but an aborting last one returned normally; `aborted` iff the last one threw. */
  ghost predicate Completes(run: seq<Delivery<Json>>, aborted: bool)
  {
    (forall i :: 0 <= i < |run| && (i < |run| - 1 || !aborted) ==> !run[i].callback.throws)
    && (aborted ==> |run| > 0 && run[|run| - 1].callback.throws)
  }

  lemma CompletesStep(run: seq<Delivery<Json>>, d: Delivery<Json>)
    requires Completes(run, false)
    ensures Completes(run + [d], d.callback.throws)
  {
    assert (run + [d])[|run|] == d;
  }

  /**
   * `after` is `before` followed by one `_emitAll` of `msg` over `pool`: each
   * invocation calls a distinct registered listener, all returned normally
   * save possibly the last, and only a throwing last one (`aborted`) leaves
   * listeners uncalled.
   */
  ghost predicate AppendsRun(before: seq<Delivery<Json>>, after: seq<Delivery<Json>>, pool: map<string, Callback>, msg: Json, aborted: bool)
  {
    |before| <= |after| && after[..|before|] == before
    && FromPool(after[|before|..], pool, msg) && Distinct(after[|before|..])
    && Completes(after[|before|..], aborted)
    && (!aborted ==> Recipients(after[|before|..]) == pool.Keys && |after| - |before| == |pool.Keys|)
  }

  lemma RunAppended(before: seq<Delivery<Json>>, run: seq<Delivery<Json>>, pool: map<string, Callback>, msg: Json, aborted: bool)
    requires FromPool(run, pool, msg) && Distinct(run) && Completes(run, aborted)
    requires !aborted ==> DeliveredToAll(run, pool, msg)
    ensures AppendsRun(before, before + run, pool, msg, aborted)
  {
    assert (before + run)[..|before|] == before;
    assert (before + run)[|before|..] == run;
  }

  /** With no throwing listener registered, `_emitAll` reaches every listener once. */
  lemma NoThrowerCompletes(before: seq<Delivery<Json>>, after: seq<Delivery<Json>>, pool: map<string, Callback>, msg: Json, aborted: bool)
    requires AppendsRun(before, after, pool, msg, aborted)
    requires forall k :: k in pool ==> !pool[k].throws
    ensures !aborted
    ensures DeliveredToAll(after[|before|..], pool, msg)
  {
  }

  /** A fan-out that was aborted called the thrower last and left the listeners it had not reached uncalled. */
  lemma AbortedRunStopsAtThrower(before: seq<Delivery<Json>>, after: seq<Delivery<Json>>, pool: map<string, Callback>, msg: Json)
    requires AppendsRun(before, after, pool, msg, true)
    ensures |after| > |before| && after[|after| - 1].callback.throws
    ensures after[|after| - 1].name in pool && pool[after[|after| - 1].name].throws
    ensures forall i :: |before| <= i < |after| - 1 ==> !after[i].callback.throws
  {
    var run := after[|before|..];
    assert run[|run| - 1] == after[|after| - 1];
    forall i | |before| <= i < |after| - 1 ensures !after[i].callback.throws {
      assert run[i - |before|] == after[i];
    }
  }
}
