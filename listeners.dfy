/**
 * Named listener pools, shared by the backend link and the browser socket:
 * a mapping from a unique name to a callback, and a log of the invocations a
 * fan-out makes.
 */
module Listeners {

  /** A JSON value as `JSON.parse` yields it; telemetry is forwarded without being interpreted. */
  datatype Json =
    | JNull
    | JBool(b: bool)
    | JNumber(n: int)
    | JString(s: string)
    | JArray(items: seq<Json>)
    | JObject(members: map<string, Json>)

  /** A registered callback, told apart by `id`; `throws` says whether invoking it raises an exception. */
  datatype Callback = Callback(id: nat, throws: bool)

  /** One invocation of the listener registered as `name`, with the argument it was given. */
  datatype Delivery<M> = Delivery(name: string, callback: Callback, msg: M)

  /** The names invoked by a run of deliveries. */
  function Recipients<M>(ds: seq<Delivery<M>>): (names: set<string>)
  {
    set i | 0 <= i < |ds| :: ds[i].name
  }

  lemma RecipientsAppend<M>(ds: seq<Delivery<M>>, d: Delivery<M>)
    ensures Recipients(ds + [d]) == Recipients(ds) + {d.name}
  {
    var r := Recipients(ds + [d]);
    forall n | n in r ensures n in Recipients(ds) + {d.name} {
      var i :| 0 <= i < |ds + [d]| && (ds + [d])[i].name == n;
      if i < |ds| { assert ds[i].name == n; }
    }
    assert (ds + [d])[|ds|] == d;
    forall i | 0 <= i < |ds| ensures ds[i].name in r { assert (ds + [d])[i] == ds[i]; }
  }

  /** No listener is invoked twice. */
  ghost predicate Distinct<M>(ds: seq<Delivery<M>>)
  {
    forall i, j :: 0 <= i < j < |ds| ==> ds[i].name != ds[j].name
  }

  /** Each invocation calls the callback registered under its name, with `msg`. */
  ghost predicate FromPool<M>(ds: seq<Delivery<M>>, pool: map<string, Callback>, msg: M)
  {
    forall i :: 0 <= i < |ds| ==> ds[i].name in pool && ds[i].callback == pool[ds[i].name] && ds[i].msg == msg
  }

  lemma ExtendDeliveries<M>(ds: seq<Delivery<M>>, d: Delivery<M>, pool: map<string, Callback>, msg: M)
    requires FromPool(ds, pool, msg) && Distinct(ds)
    requires d.name in pool && d.callback == pool[d.name] && d.msg == msg
    requires d.name !in Recipients(ds)
    ensures FromPool(ds + [d], pool, msg) && Distinct(ds + [d])
    ensures Recipients(ds + [d]) == Recipients(ds) + {d.name}
  {
    RecipientsAppend(ds, d);
    forall i, j | 0 <= i < j < |ds + [d]| ensures (ds + [d])[i].name != (ds + [d])[j].name {
      if j == |ds| {
        assert ds[i].name in Recipients(ds);
      }
    }
  }

  /** The state of a fan-out of `msg` over `pool` part-way: `sent` so far, `pending` still to visit. */
  ghost predicate FanOutProgress<M>(sent: seq<Delivery<M>>, pending: set<string>, pool: map<string, Callback>, msg: M)
  {
    && pending <= pool.Keys && |sent| + |pending| == |pool.Keys|
    && Recipients(sent) == pool.Keys - pending
    && FromPool(sent, pool, msg) && Distinct(sent)
  }

  lemma FanOutStart<M>(pool: map<string, Callback>, msg: M)
    ensures FanOutProgress([], pool.Keys, pool, msg)
  {
    assert pool.Keys - pool.Keys == {};
  }

  /** Invoking one pending listener moves it from `pending` to the recipients. */
  lemma FanOutStep<M>(sent: seq<Delivery<M>>, pending: set<string>, pool: map<string, Callback>, msg: M, name: string)
    requires FanOutProgress(sent, pending, pool, msg) && name in pending
    ensures |pending - {name}| < |pending|
    ensures FanOutProgress(sent + [Delivery(name, pool[name], msg)], pending - {name}, pool, msg)
  {
    var d := Delivery(name, pool[name], msg);
    ExtendDeliveries(sent, d, pool, msg);
    assert Recipients(sent + [d]) == pool.Keys - (pending - {name});
  }

  /** A fan-out that has left no listener pending has reached them all. */
  lemma FanOutDone<M>(ds: seq<Delivery<M>>, pool: map<string, Callback>, msg: M)
    requires FanOutProgress(ds, {}, pool, msg)
    ensures DeliveredToAll(ds, pool, msg)
  {
    assert pool.Keys - {} == pool.Keys;
  }

  /** `after` is `before` followed by a complete fan-out of `msg` to `pool`. */
  ghost predicate AppendsFanOut<M>(before: seq<Delivery<M>>, after: seq<Delivery<M>>, pool: map<string, Callback>, msg: M)
  {
    |before| <= |after| && after[..|before|] == before && DeliveredToAll(after[|before|..], pool, msg)
  }

  lemma FanOutAppended<M>(before: seq<Delivery<M>>, ds: seq<Delivery<M>>, pool: map<string, Callback>, msg: M)
    requires DeliveredToAll(ds, pool, msg)
    ensures AppendsFanOut(before, before + ds, pool, msg)
  {
    assert (before + ds)[..|before|] == before;
    assert (before + ds)[|before|..] == ds;
  }

  /** Every invocation a fan-out appends carries its message. */
  lemma FanOutMessages<M>(before: seq<Delivery<M>>, after: seq<Delivery<M>>, pool: map<string, Callback>, msg: M)
    requires AppendsFanOut(before, after, pool, msg)
    ensures before <= after
    ensures forall i :: |before| <= i < |after| ==> after[i].msg == msg
  {
    forall i | |before| <= i < |after| ensures after[i].msg == msg {
      assert after[|before|..][i - |before|] == after[i];
    }
  }

  /** `ds` invokes every listener of `pool` exactly once, each with `msg`. */
  ghost predicate DeliveredToAll<M>(ds: seq<Delivery<M>>, pool: map<string, Callback>, msg: M)
  {
    FromPool(ds, pool, msg) && Distinct(ds) && Recipients(ds) == pool.Keys && |ds| == |pool.Keys|
  }
}
