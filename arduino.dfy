/**
 * The backend's link to the bus controller: class `Arduino`
 * (BusGui/backend/src/Arduino.ts).
 *
 * The serial port, the clock and the timers are not modelled as such:
 * incoming data is a call of `OnData` with the chunk and the current time,
 * a timer firing is a call of `TimeoutFires`, text written to the port is
 * appended to the ghost log `written`, and `JSON.parse` of the decoded,
 * trimmed buffer is the function `parse` given to the constructor.
 */
module ArduinoLink {
  import opened Wrappers
  import opened Listeners
  import BackendCommand

  newtype byte = x: int | 0 <= x < 256

  /** Carriage return, the byte that ends a message from the controller. */
  const CR: byte := 0x0D

  /** Seconds between heartbeats when the environment does not say otherwise. */
  const DefaultHeartbeatSeconds := 10

  /** `EXPECT_HEARTBEAT_EVERY_SECONDS`, already read as an integer, or 10 when it is unset or empty. */
  function HeartbeatExpected(env: Option<int>): int
  {
    match env
    case Some(v) => v
    case None => DefaultHeartbeatSeconds
  }

  /** The delay `setTimeout` really waits: below 1 ms or above 2147483647 ms it waits 1 ms. */
  function TimerDelay(ms: int): (d: int)
    ensures 1 <= d <= 2147483647
    ensures 1 <= ms <= 2147483647 ==> d == ms
  {
    if ms < 1 || ms > 2147483647 then 1 else ms
  }

  // ---------------------------------------------------------------------------
  // Messages and timers.

  /** `SocketServerTransmitMessage`: telemetry, or a health notice carrying the last heartbeat. */
  datatype Message =
    | Info(data: Json)
    | HealthyNotice(lastHeartbeat: Option<int>)
    | UnhealthyNotice(lastHeartbeat: Option<int>)

  /** What a listener sees when it is invoked: the message and the link's health accessors at that moment. */
  datatype Observed = Observed(msg: Message, healthy: bool, lastHeartbeat: Option<int>)

  /** The callback of the pending heartbeat timeout. */
  datatype TimerAction =
    | ClearHealthy    // the constructor's: sets `healthy` to false and emits nothing
    | CallUnhealthy   // `handleHeartbeat`'s: calls `unhealthy()`

  datatype Timer = Timer(due: int, action: TimerAction)

  /** The health notices among the broadcast messages, in order: true for "healthy", false for "unhealthy". */
  function HealthNotices(log: seq<Message>): (ns: seq<bool>)
    ensures |ns| <= |log|
  {
    if log == [] then []
    else HealthNotices(log[..|log| - 1]) + NoticeOf(log[|log| - 1])
  }

  function NoticeOf(m: Message): seq<bool>
  {
    match m
    case Info(_) => []
    case HealthyNotice(_) => [true]
    case UnhealthyNotice(_) => [false]
  }

  lemma HealthNoticesAppend(log: seq<Message>, ms: seq<Message>)
    ensures HealthNotices(log + ms) == HealthNotices(log) + HealthNotices(ms)
    decreases |ms|
  {
    if ms == [] {
      assert log + ms == log;
    } else {
      var init, last := ms[..|ms| - 1], ms[|ms| - 1];
      assert (log + ms)[..|log + ms| - 1] == log + init;
      assert (log + ms)[|log + ms| - 1] == last;
      HealthNoticesAppend(log, init);
      assert HealthNotices(ms) == HealthNotices(init) + NoticeOf(last);
    }
  }

  /** "healthy", "unhealthy", "healthy", ...: the first notice says "healthy" and no notice repeats the one before. */
  ghost predicate Alternates(ns: seq<bool>)
  {
    (|ns| > 0 ==> ns[0]) && forall i :: 0 < i < |ns| ==> ns[i - 1] != ns[i]
  }

  /** The state the notices leave an observer believing in: healthy iff the last one said so. */
  function Announced(ns: seq<bool>): bool
  {
    |ns| > 0 && ns[|ns| - 1]
  }

  lemma AlternatesExtend(ns: seq<bool>, b: bool)
    requires Alternates(ns) && b != Announced(ns)
    ensures Alternates(ns + [b]) && Announced(ns + [b]) == b
  {
  }

  /** In an alternating run the notice at position i says "healthy" exactly when i is even. */
  lemma {:induction false} AlternatesParity(ns: seq<bool>, i: int)
    requires Alternates(ns) && 0 <= i < |ns|
    ensures ns[i] == (i % 2 == 0)
  {
    if i > 0 {
      AlternatesParity(ns, i - 1);
      assert ns[i - 1] != ns[i];
    }
  }

  /**
   * The heartbeat bookkeeping invariant, over the link's health fields and the
   * broadcast log: an "unhealthy" timeout is pending exactly while healthy, due
   * one delay after the last heartbeat; the constructor's silent timeout is
   * only pending before the first heartbeat; the notices alternate and the
   * flag agrees with the last one.
   */
  ghost predicate HealthInvariant(healthy: bool, lastHeartbeat: Option<int>, timeout: Option<Timer>, delay: int, broadcasts: seq<Message>)
  {
    && (healthy <==> timeout.Some? && timeout.value.action == CallUnhealthy)
    && (healthy ==> lastHeartbeat.Some? && timeout.value.due == lastHeartbeat.value + delay)
    && (timeout.Some? && timeout.value.action == ClearHealthy ==> lastHeartbeat.None?)
    && (lastHeartbeat.None? <==> HealthNotices(broadcasts) == [])
    && Alternates(HealthNotices(broadcasts))
    && healthy == Announced(HealthNotices(broadcasts))
  }

  /** A heartbeat keeps the invariant: it stamps the time, re-arms the "unhealthy" timeout and announces "healthy" only after "unhealthy". */
  lemma HeartbeatKeepsInvariant(healthy: bool, lastHeartbeat: Option<int>, timeout: Option<Timer>, delay: int, broadcasts: seq<Message>, now: int)
    requires HealthInvariant(healthy, lastHeartbeat, timeout, delay, broadcasts)
    ensures HealthInvariant(true, Some(now), Some(Timer(now + delay, CallUnhealthy)), delay,
      broadcasts + (if healthy then [] else [HealthyNotice(Some(now))]))
  {
    if !healthy {
      HealthNoticesAppend(broadcasts, [HealthyNotice(Some(now))]);
      assert HealthNotices([HealthyNotice(Some(now))]) == [true];
      AlternatesExtend(HealthNotices(broadcasts), true);
    } else {
      assert broadcasts + [] == broadcasts;
    }
  }

  /**
   * The pending timeout firing keeps the invariant: the constructor's clears
   * the flag silently, a heartbeat's announces "unhealthy", and none is left.
   */
  lemma TimeoutKeepsInvariant(healthy: bool, lastHeartbeat: Option<int>, timeout: Option<Timer>, delay: int, broadcasts: seq<Message>)
    requires HealthInvariant(healthy, lastHeartbeat, timeout, delay, broadcasts) && timeout.Some?
    ensures timeout.value.action == CallUnhealthy ==> healthy
    ensures HealthInvariant(false, lastHeartbeat, None, delay,
      broadcasts + (if timeout.value.action == CallUnhealthy then [UnhealthyNotice(lastHeartbeat)] else []))
  {
    if timeout.value.action == CallUnhealthy {
      HealthNoticesAppend(broadcasts, [UnhealthyNotice(lastHeartbeat)]);
      assert HealthNotices([UnhealthyNotice(lastHeartbeat)]) == [false];
      AlternatesExtend(HealthNotices(broadcasts), false);
    } else {
      assert broadcasts + [] == broadcasts;
    }
  }

  /** Telemetry is not a health notice: broadcasting it keeps the invariant. */
  lemma InfoKeepsInvariant(healthy: bool, lastHeartbeat: Option<int>, timeout: Option<Timer>, delay: int, broadcasts: seq<Message>, data: Json)
    requires HealthInvariant(healthy, lastHeartbeat, timeout, delay, broadcasts)
    ensures HealthInvariant(healthy, lastHeartbeat, timeout, delay, broadcasts + [Info(data)])
  {
    HealthNoticesAppend(broadcasts, [Info(data)]);
    assert HealthNotices([Info(data)]) == [];
    assert HealthNotices(broadcasts + [Info(data)]) == HealthNotices(broadcasts);
  }

  // ---------------------------------------------------------------------------
  // Framing.

  /** The frames handed to `dataDone` so far and the bytes still buffered. */
  datatype Framer = Framer(frames: seq<seq<byte>>, buffer: seq<byte>)

  /**
   * What the `onData` events do to a stream of chunks: a chunk without CR is
   * appended to the buffer; a chunk with CR completes the frame held in the
   * buffer, and is itself dropped.
   */
  function Framing(chunks: seq<seq<byte>>): Framer
  {
    if chunks == [] then Framer([], [])
    else
      var f := Framing(chunks[..|chunks| - 1]);
      var c := chunks[|chunks| - 1];
      if CR in c then Framer(f.frames + [f.buffer], []) else Framer(f.frames, f.buffer + c)
  }

  /** One more `onData` event. */
  lemma FramingStep(chunks: seq<seq<byte>>, c: seq<byte>)
    ensures Framing(chunks + [c]) ==
      var f := Framing(chunks);
      if CR in c then Framer(f.frames + [f.buffer], []) else Framer(f.frames, f.buffer + c)
  {
    assert (chunks + [c])[..|chunks|] == chunks;
  }

  function Concat(parts: seq<seq<byte>>): seq<byte>
  {
    if parts == [] then [] else Concat(parts[..|parts| - 1]) + parts[|parts| - 1]
  }

  /** The chunks that hold no CR, in order. */
  function Unmarked(chunks: seq<seq<byte>>): seq<seq<byte>>
  {
    if chunks == [] then []
    else Unmarked(chunks[..|chunks| - 1]) + (if CR in chunks[|chunks| - 1] then [] else [chunks[|chunks| - 1]])
  }

  /** How many chunks hold a CR. */
  function Marked(chunks: seq<seq<byte>>): nat
  {
    if chunks == [] then 0
    else Marked(chunks[..|chunks| - 1]) + (if CR in chunks[|chunks| - 1] then 1 else 0)
  }

  /**
   * Every byte that reaches a frame or the buffer comes from a chunk without
   * CR, in arrival order; every byte of a chunk holding CR is lost.
   */
  lemma {:induction false} FramingConserves(chunks: seq<seq<byte>>)
    ensures Concat(Framing(chunks).frames) + Framing(chunks).buffer == Concat(Unmarked(chunks))
  {
    if chunks != [] {
      var init := chunks[..|chunks| - 1];
      var c := chunks[|chunks| - 1];
      FramingConserves(init);
      var f := Framing(init);
      if CR in c {
        assert Framing(chunks) == Framer(f.frames + [f.buffer], []);
        assert (f.frames + [f.buffer])[..|f.frames|] == f.frames;
        assert Concat(f.frames + [f.buffer]) == Concat(f.frames) + f.buffer;
        assert Unmarked(chunks) == Unmarked(init);
      } else {
        assert Framing(chunks) == Framer(f.frames, f.buffer + c);
        assert Unmarked(chunks) == Unmarked(init) + [c];
        assert (Unmarked(init) + [c])[..|Unmarked(init)|] == Unmarked(init);
        assert Concat(Unmarked(init) + [c]) == Concat(Unmarked(init)) + c;
      }
    }
  }

  /** One frame is completed per chunk holding CR, and no frame holds a CR byte. */
  lemma {:induction false} FramingFrames(chunks: seq<seq<byte>>)
    ensures |Framing(chunks).frames| == Marked(chunks)
    ensures forall i :: 0 <= i < |Framing(chunks).frames| ==> CR !in Framing(chunks).frames[i]
    ensures CR !in Framing(chunks).buffer
  {
    if chunks != [] {
      FramingFrames(chunks[..|chunks| - 1]);
    }
  }

  /**
   * A message whose closing bytes arrive in the same chunk as its CR is cut
   * short: the frame parsed is only what came before that chunk.
   */
  lemma SplitMessageLosesTail(head: seq<byte>, tail: seq<byte>)
    requires CR !in head
    ensures Framing([head, tail + [CR]]) == Framer([head], [])
  {
    var cs := [head, tail + [CR]];
    assert cs[..1] == [head] && cs[1] == tail + [CR];
    assert Framing([head]) == Framer([], head) by {
      assert [head][..0] == [];
      assert [] + head == head;
    }
    assert (tail + [CR])[|tail|] == CR;
  }

  // ---------------------------------------------------------------------------
  // The link object.

  // ---------------------------------------------------------------------------
  // What the listeners see when a message arrives.

  /**
   * `after` extends `before` by the fan-outs one parsed message causes: when
   * the link was unhealthy, "healthy" reaches every listener first; then
   * "info" reaches every listener. Each listener sees the link healthy, with
   * the heartbeat stamped `now`.
   */
  ghost predicate HeartbeatThenInfo(before: seq<Delivery<Observed>>, after: seq<Delivery<Observed>>,
    pool: map<string, Callback>, wasHealthy: bool, now: int, data: Json)
  {
    var k := |before| + (if wasHealthy then 0 else |pool.Keys|);
    && k <= |after|
    && (wasHealthy ==> after[..k] == before)
    && (!wasHealthy ==> AppendsFanOut(before, after[..k], pool, Observed(HealthyNotice(Some(now)), true, Some(now))))
    && AppendsFanOut(after[..k], after, pool, Observed(Info(data), true, Some(now)))
  }

  /** A fan-out appends exactly one invocation per registered listener. */
  lemma FanOutLength<M>(before: seq<Delivery<M>>, after: seq<Delivery<M>>, pool: map<string, Callback>, msg: M)
    requires AppendsFanOut(before, after, pool, msg)
    ensures |after| == |before| + |pool.Keys|
  {
    assert |after[|before|..]| == |pool.Keys|;
  }

  lemma ChainFanOuts(d0: seq<Delivery<Observed>>, d1: seq<Delivery<Observed>>, d2: seq<Delivery<Observed>>,
    pool: map<string, Callback>, wasHealthy: bool, now: int, data: Json)
    requires wasHealthy ==> d1 == d0
    requires !wasHealthy ==> AppendsFanOut(d0, d1, pool, Observed(HealthyNotice(Some(now)), true, Some(now)))
    requires AppendsFanOut(d1, d2, pool, Observed(Info(data), true, Some(now)))
    ensures HeartbeatThenInfo(d0, d2, pool, wasHealthy, now, data)
  {
    if !wasHealthy {
      FanOutLength(d0, d1, pool, Observed(HealthyNotice(Some(now)), true, Some(now)));
    }
    assert d2[..|d1|] == d1;
  }

  /** Every listener call a parsed message causes comes after the earlier ones and sees the link healthy, stamped `now`. */
  lemma HeartbeatThenInfoSeen(before: seq<Delivery<Observed>>, after: seq<Delivery<Observed>>,
    pool: map<string, Callback>, wasHealthy: bool, now: int, data: Json)
    requires HeartbeatThenInfo(before, after, pool, wasHealthy, now, data)
    ensures before <= after
    ensures |after| == |before| + (if wasHealthy then 1 else 2) * |pool.Keys|
    ensures forall i :: |before| <= i < |after| ==> after[i].msg.healthy && after[i].msg.lastHeartbeat == Some(now)
  {
    var k := |before| + (if wasHealthy then 0 else |pool.Keys|);
    var mid := after[..k];
    FanOutMessages(mid, after, pool, Observed(Info(data), true, Some(now)));
    FanOutLength(mid, after, pool, Observed(Info(data), true, Some(now)));
    if !wasHealthy {
      FanOutMessages(before, mid, pool, Observed(HealthyNotice(Some(now)), true, Some(now)));
      forall i | |before| <= i < k ensures after[i] == mid[i] { }
    }
  }

  class Arduino {
    /** `JSON.parse` of the buffer decoded as UTF-8 and trimmed; None where it throws. */
    const parse: seq<byte> -> Option<Json>
    /** The heartbeat timeout in milliseconds, as the timer waits it. */
    const heartbeatDelay: int

    var buffer: seq<byte>
    var healthy: bool
    var lastHeartbeat: Option<int>
    /** The pending `heartbeatTimeout`, if it has not fired. */
    var heartbeatTimeout: Option<Timer>
    var listeners: map<string, Callback>

    /** Every chunk passed to `onData`. */
    ghost var chunks: seq<seq<byte>>
    /** Every buffer handed to `dataDone`. */
    ghost var frames: seq<seq<byte>>
    /** Every message passed to `emitToListeners`. */
    ghost var broadcasts: seq<Message>
    /** Every listener invocation, with what the listener could observe. */
    ghost var deliveries: seq<Delivery<Observed>>
    /** Every string written to the serial port. */
    ghost var written: seq<string>

    /** The heartbeat bookkeeping invariant. */
    ghost predicate HealthValid()
      reads this`healthy, this`lastHeartbeat, this`heartbeatTimeout, this`broadcasts
    {
      HealthInvariant(healthy, lastHeartbeat, heartbeatTimeout, heartbeatDelay, broadcasts)
    }

    ghost predicate Valid()
      reads this`healthy, this`lastHeartbeat, this`heartbeatTimeout, this`broadcasts,
        this`chunks, this`frames, this`buffer
    {
      HealthValid() && Framing(chunks) == Framer(frames, buffer)
    }

    /** The initial state: empty buffer, unhealthy, no heartbeat, no listeners, the silent timeout armed. */
    constructor (parse: seq<byte> -> Option<Json>, heartbeatEnv: Option<int>, now: int)
      ensures Valid()
      ensures this.parse == parse
      ensures heartbeatDelay == TimerDelay(HeartbeatExpected(heartbeatEnv) * 1000)
      ensures buffer == [] && !healthy && lastHeartbeat == None && listeners == map[]
      ensures heartbeatTimeout == Some(Timer(now + heartbeatDelay, ClearHealthy))
      ensures chunks == [] && frames == [] && broadcasts == [] && deliveries == [] && written == []
    {
      this.parse := parse;
      heartbeatDelay := TimerDelay(HeartbeatExpected(heartbeatEnv) * 1000);
      buffer := [];
      healthy := false;
      lastHeartbeat := None;
      listeners := map[];
      heartbeatTimeout := Some(Timer(now + TimerDelay(HeartbeatExpected(heartbeatEnv) * 1000), ClearHealthy));
      chunks, frames, broadcasts, deliveries, written := [], [], [], [], [];
    }

    /** `isHealthy` */
    method IsHealthy() returns (h: bool)
      requires Valid()
      ensures h == healthy
      ensures h == Announced(HealthNotices(broadcasts))
      ensures h ==> lastHeartbeat.Some?
    {
      h := healthy;
    }

    /** `getLastHeartbeat` */
    method GetLastHeartbeat() returns (t: Option<int>)
      requires Valid()
      ensures t == lastHeartbeat
      ensures t.None? <==> HealthNotices(broadcasts) == []
    {
      t := lastHeartbeat;
    }

    /** `registerListener`: a listener with the same name is replaced. */
    method RegisterListener(name: string, callback: Callback)
      modifies this`listeners
      ensures listeners == old(listeners)[name := callback]
    {
      listeners := listeners[name := callback];
    }

    /** `removeListener`: only `name` is removed; removing an absent name changes nothing. */
    method RemoveListener(name: string)
      modifies this`listeners
      ensures listeners == old(listeners) - {name}
    {
      if name in listeners {
        listeners := listeners - {name};
      }
    }

    /**
     * `emitToListeners`: every registered listener is invoked once with the
     * message, in an unspecified order; an exception thrown by one is caught
     * and the loop goes on.
     */
    method EmitToListeners(msg: Message)
      modifies this`broadcasts, this`deliveries
      ensures broadcasts == old(broadcasts) + [msg]
      ensures AppendsFanOut(old(deliveries), deliveries, listeners, Observed(msg, healthy, lastHeartbeat))
    {
      broadcasts := broadcasts + [msg];
      var seen := Observed(msg, healthy, lastHeartbeat);
      var pending := listeners.Keys;
      ghost var sent: seq<Delivery<Observed>> := [];
      FanOutStart(listeners, seen);
      while pending != {}
        invariant FanOutProgress(sent, pending, listeners, seen)
        invariant deliveries == old(deliveries) + sent
        invariant broadcasts == old(broadcasts) + [msg]
        decreases |pending|
      {
        var name :| name in pending;
        // the call happens whether or not `listeners[name].throws`: a throw is caught
        FanOutStep(sent, pending, listeners, seen, name);
        deliveries := deliveries + [Delivery(name, listeners[name], seen)];
        sent := sent + [Delivery(name, listeners[name], seen)];
        pending := pending - {name};
      }
      FanOutDone(sent, listeners, seen);
      FanOutAppended(old(deliveries), sent, listeners, seen);
    }

    /**
     * `handleHeartbeat`: the pending timeout is replaced by one that calls
     * `unhealthy()`, the heartbeat time is stamped, and "healthy" is emitted
     * only on the change from unhealthy to healthy.
     */
    method HandleHeartbeat(now: int)
      requires HealthValid()
      modifies this`healthy, this`lastHeartbeat, this`heartbeatTimeout, this`broadcasts, this`deliveries
      ensures HealthValid()
      ensures healthy && lastHeartbeat == Some(now)
      ensures heartbeatTimeout == Some(Timer(now + heartbeatDelay, CallUnhealthy))
      ensures broadcasts == old(broadcasts) + (if old(healthy) then [] else [HealthyNotice(Some(now))])
      ensures old(healthy) ==> deliveries == old(deliveries)
      ensures !old(healthy) ==>
        AppendsFanOut(old(deliveries), deliveries, listeners, Observed(HealthyNotice(Some(now)), true, Some(now)))
    {
      HeartbeatKeepsInvariant(healthy, lastHeartbeat, heartbeatTimeout, heartbeatDelay, broadcasts, now);
      heartbeatTimeout := Some(Timer(now + heartbeatDelay, CallUnhealthy));
      lastHeartbeat := Some(now);
      if !healthy {
        healthy := true;
        EmitToListeners(HealthyNotice(lastHeartbeat));
        assert Observed(HealthyNotice(lastHeartbeat), healthy, lastHeartbeat) == Observed(HealthyNotice(Some(now)), true, Some(now));
      }
    }

    /** `unhealthy`: clears the flag and always emits "unhealthy" with the last heartbeat; there is no guard. */
    method Unhealthy()
      modifies this`healthy, this`broadcasts, this`deliveries
      ensures !healthy
      ensures broadcasts == old(broadcasts) + [UnhealthyNotice(lastHeartbeat)]
      ensures AppendsFanOut(old(deliveries), deliveries, listeners, Observed(UnhealthyNotice(lastHeartbeat), false, lastHeartbeat))
    {
      healthy := false;
      EmitToListeners(UnhealthyNotice(lastHeartbeat));
    }

    /** The pending heartbeat timeout fires. */
    method TimeoutFires()
      requires Valid() && heartbeatTimeout.Some?
      modifies this`healthy, this`heartbeatTimeout, this`broadcasts, this`deliveries
      ensures Valid()
      ensures !healthy && heartbeatTimeout == None
      ensures old(heartbeatTimeout.value.action) == ClearHealthy ==>
        broadcasts == old(broadcasts) && deliveries == old(deliveries)
      ensures old(heartbeatTimeout.value.action) == CallUnhealthy ==>
        old(healthy) && broadcasts == old(broadcasts) + [UnhealthyNotice(lastHeartbeat)]
        && AppendsFanOut(old(deliveries), deliveries, listeners, Observed(UnhealthyNotice(lastHeartbeat), false, lastHeartbeat))
    {
      TimeoutKeepsInvariant(healthy, lastHeartbeat, heartbeatTimeout, heartbeatDelay, broadcasts);
      var action := heartbeatTimeout.value.action;
      heartbeatTimeout := None;
      if action == ClearHealthy {
        healthy := false;
      } else {
        Unhealthy();
      }
    }

    /**
     * The success path of `dataDone`: the message counts as a heartbeat, and
     * only then is the telemetry emitted.
     */
    method AcceptMessage(data: Json, now: int)
      requires HealthValid()
      modifies this`healthy, this`lastHeartbeat, this`heartbeatTimeout, this`broadcasts, this`deliveries
      ensures HealthValid()
      ensures healthy && lastHeartbeat == Some(now)
      ensures heartbeatTimeout == Some(Timer(now + heartbeatDelay, CallUnhealthy))
      ensures broadcasts == old(broadcasts) + (if old(healthy) then [] else [HealthyNotice(Some(now))]) + [Info(data)]
      ensures HeartbeatThenInfo(old(deliveries), deliveries, listeners, old(healthy), now, data)
    {
      ghost var d0 := deliveries;
      HandleHeartbeat(now);
      ghost var d1 := deliveries;
      InfoKeepsInvariant(healthy, lastHeartbeat, heartbeatTimeout, heartbeatDelay, broadcasts, data);
      EmitToListeners(Info(data));
      assert Observed(Info(data), healthy, lastHeartbeat) == Observed(Info(data), true, Some(now));
      ChainFanOuts(d0, d1, deliveries, listeners, old(healthy), now, data);
    }

    /**
     * `dataDone`: the buffer is parsed and emptied whatever the outcome. On
     * success the heartbeat is handled before the telemetry is emitted; on
     * failure nothing else changes.
     */
    method DataDone(now: int)
      requires HealthValid()
      modifies this`buffer, this`frames, this`healthy, this`lastHeartbeat, this`heartbeatTimeout,
        this`broadcasts, this`deliveries
      ensures HealthValid()
      ensures buffer == [] && frames == old(frames) + [old(buffer)]
      ensures parse(old(buffer)).None? ==>
        && healthy == old(healthy) && lastHeartbeat == old(lastHeartbeat)
        && heartbeatTimeout == old(heartbeatTimeout)
        && broadcasts == old(broadcasts) && deliveries == old(deliveries)
      ensures parse(old(buffer)).Some? ==>
        && healthy && lastHeartbeat == Some(now)
        && heartbeatTimeout == Some(Timer(now + heartbeatDelay, CallUnhealthy))
        && broadcasts == old(broadcasts)
             + (if old(healthy) then [] else [HealthyNotice(Some(now))])
             + [Info(parse(old(buffer)).value)]
        && HeartbeatThenInfo(old(deliveries), deliveries, listeners, old(healthy), now, parse(old(buffer)).value)
    {
      var parsed := parse(buffer);
      frames := frames + [buffer];
      buffer := [];
      if parsed.Some? {
        AcceptMessage(parsed.value, now);
      }
    }

    /**
     * `onData`: a chunk without CR is appended to the buffer; a chunk with CR
     * is not appended, but makes `dataDone` parse what was buffered before it.
     */
    method OnData(chunk: seq<byte>, now: int)
      requires Valid()
      modifies this`buffer, this`chunks, this`frames, this`healthy, this`lastHeartbeat,
        this`heartbeatTimeout, this`broadcasts, this`deliveries
      ensures Valid()
      ensures chunks == old(chunks) + [chunk]
      ensures CR !in chunk ==>
        && buffer == old(buffer) + chunk && frames == old(frames)
        && healthy == old(healthy) && lastHeartbeat == old(lastHeartbeat)
        && heartbeatTimeout == old(heartbeatTimeout)
        && broadcasts == old(broadcasts) && deliveries == old(deliveries)
      ensures CR in chunk ==> buffer == [] && frames == old(frames) + [old(buffer)]
      ensures CR in chunk && parse(old(buffer)).None? ==>
        && healthy == old(healthy) && lastHeartbeat == old(lastHeartbeat)
        && heartbeatTimeout == old(heartbeatTimeout)
        && broadcasts == old(broadcasts) && deliveries == old(deliveries)
      ensures CR in chunk && parse(old(buffer)).Some? ==>
        && healthy && lastHeartbeat == Some(now)
        && heartbeatTimeout == Some(Timer(now + heartbeatDelay, CallUnhealthy))
        && broadcasts == old(broadcasts)
             + (if old(healthy) then [] else [HealthyNotice(Some(now))])
             + [Info(parse(old(buffer)).value)]
        && HeartbeatThenInfo(old(deliveries), deliveries, listeners, old(healthy), now, parse(old(buffer)).value)
    {
      if CR in chunk {
        DataDone(now);
      } else {
        buffer := buffer + chunk;
      }
      FramingStep(chunks, chunk);
      chunks := chunks + [chunk];
    }

    /** `sendCommand`: an invalid command is refused and nothing is written; a valid one is formatted and written once. */
    method SendCommand(command: BackendCommand.Command) returns (ok: bool)
      modifies this`written
      ensures ok == BackendCommand.ValidateCommand(command)
      ensures written == old(written) + (if ok then [BackendCommand.FormatCommand(command)] else [])
    {
      if !BackendCommand.ValidateCommand(command) {
        return false;
      }
      written := written + [BackendCommand.FormatCommand(command)];
      return true;
    }
  }
}
