/**
 * The client side of call correlation, `ProxyBase` of
 * include/RaPsCallion/Proxy.h: every call takes the next request id,
 * registers a callback under it that will read the reply into the call's
 * promise, and sends the request. A reply names its request id; the
 * matching callback is removed and run once. A disconnect breaks every
 * promise still waiting.
 *
 * The mutex sections are atomic steps here. A callback is represented by
 * the type its reply is read as; the promise it completes is kept in
 * `promises` under the same id.
 */
module Proxy {
  import opened Base
  import opened Codec
  import opened Composite

  /** The state of a promise: it is set once, to a value or to an exception. */
  datatype Promise = Pending | Fulfilled(value: Value) | Broken(error: Error)

  /** A proxy: its interface name, the next request id, the pending callbacks, the promises, and whether `conn` is set. */
  datatype ProxyState = ProxyState(
    name: Bytes,
    requestId: nat,
    callbacks: map<nat, Ty>,
    promises: map<nat, Promise>,
    connected: bool)

  /**
   * Every promise belongs to an id already handed out, and every pending
   * callback still has its promise unset.
   */
  predicate Valid(p: ProxyState) {
    (forall id | id in p.promises :: id < p.requestId) &&
    (forall id | id in p.callbacks :: id in p.promises && p.promises[id].Pending?)
  }

  /** The constructor: ids start at 0, nothing pending, connected. */
  function NewProxy(name: Bytes): (p: ProxyState)
    ensures Valid(p) && p.name == name && p.requestId == 0 && p.connected
    ensures p.callbacks == map[] && p.promises == map[]
  {
    ProxyState(name, 0, map[], map[], true)
  }

  /** `getRequestId`: hands out the counter and increments it; the id is fresh. */
  function GetRequestId(p: ProxyState): (r: (ProxyState, nat))
    ensures r.1 == p.requestId && r.0.requestId == p.requestId + 1
    ensures r.0.callbacks == p.callbacks && r.0.promises == p.promises
    ensures r.0.name == p.name && r.0.connected == p.connected
    ensures Valid(p) ==> Valid(r.0) && r.1 !in p.promises && r.1 !in p.callbacks
  {
    (p.(requestId := p.requestId + 1), p.requestId)
  }

  /** The ids `n` calls of `getRequestId` in a row hand out, and the proxy after them. */
  function RequestIds(p: ProxyState, n: nat): (r: (ProxyState, seq<nat>))
    ensures |r.1| == n
    decreases n
  {
    if n == 0 then (p, [])
    else
      var (p1, id) := GetRequestId(p);
      var (p2, ids) := RequestIds(p1, n - 1);
      (p2, [id] + ids)
  }

  /** Request ids are the counter's values in order: consecutive, hence distinct and strictly increasing. */
  lemma {:induction false} RequestIdsIncrease(p: ProxyState, n: nat)
    ensures forall i | 0 <= i < n :: RequestIds(p, n).1[i] == p.requestId + i
    ensures forall i, j | 0 <= i < j < n :: RequestIds(p, n).1[i] < RequestIds(p, n).1[j]
    ensures RequestIds(p, n).0.requestId == p.requestId + n
    decreases n
  {
    if n > 0 {
      var (p1, id) := GetRequestId(p);
      RequestIdsIncrease(p1, n - 1);
      assert forall i | 1 <= i < n :: RequestIds(p, n).1[i] == RequestIds(p1, n - 1).1[i - 1];
    }
  }

  /** A fresh proxy hands out 0, 1, 2, ... */
  lemma FirstIds(name: Bytes, n: nat)
    ensures forall i | 0 <= i < n :: RequestIds(NewProxy(name), n).1[i] == i
  {
    RequestIdsIncrease(NewProxy(name), n);
  }

  /**
   * `getFutureFor`: a new promise, and a callback under `id` that will read
   * a `t` into it; no other entry changes.
   */
  function GetFutureFor(p: ProxyState, id: nat, t: Ty): (r: ProxyState)
    ensures id in r.callbacks && r.callbacks[id] == t && id in r.promises && r.promises[id] == Pending
    ensures r.callbacks.Keys == p.callbacks.Keys + {id} && r.promises.Keys == p.promises.Keys + {id}
    ensures forall k | k in p.callbacks && k != id :: r.callbacks[k] == p.callbacks[k]
    ensures forall k | k in p.promises && k != id :: r.promises[k] == p.promises[k]
    ensures r.requestId == p.requestId && r.name == p.name && r.connected == p.connected
    ensures Valid(p) && id < p.requestId ==> Valid(r)
  {
    p.(callbacks := p.callbacks[id := t], promises := p.promises[id := Pending])
  }

  /** A fresh id from `getRequestId` adds exactly one pending entry. */
  lemma FreshFuture(p: ProxyState, t: Ty)
    requires Valid(p)
    ensures var (p1, id) := GetRequestId(p);
            var r := GetFutureFor(p1, id, t);
            Valid(r) && |r.callbacks| == |p.callbacks| + 1 && |r.promises| == |p.promises| + 1
  {
    var (p1, id) := GetRequestId(p);
    assert id !in p.callbacks.Keys && id !in p.promises.Keys;
  }

  /**
   * What a callback does with the reply's remaining bytes: the value it
   * reads fulfils the promise; an exception from the read breaks the
   * promise instead of escaping.
   */
  function Resolve(t: Ty, s: Bytes): (r: Promise)
    ensures !r.Pending?
    ensures r.Fulfilled? <==> Decode(t, s).Ok?
    ensures r.Fulfilled? ==> r.value == Decode(t, s).value
    ensures r.Broken? ==> r.error == Decode(t, s).error
  {
    match Decode(t, s)
    case Ok(v, _) => Fulfilled(v)
    case Err(e, _) => Broken(e)
  }

  /** The outcome of `dispatch`: the proxy afterwards and the id whose callback ran, or the exception of the id read. */
  datatype Dispatched = Dispatched(p: ProxyState, ran: Option<nat>) | DispatchThrew(error: Error)

  /**
   * `dispatch`: reads the request id; an unknown id changes nothing; a
   * known one is erased, then its callback runs on the rest of the reply.
   */
  function Dispatch(p: ProxyState, s: Bytes): (r: Dispatched)
    ensures r.DispatchThrew? <==> ReadU64(s).Err?
    ensures r.Dispatched? && r.ran.None? ==> r.p == p && ReadU64(s).value !in p.callbacks
    ensures r.Dispatched? && r.ran.Some? ==>
              var id := r.ran.value;
              id == ReadU64(s).value && id in p.callbacks &&
              r.p.callbacks == p.callbacks - {id} &&
              r.p.promises.Keys == p.promises.Keys + {id} &&
              r.p.promises[id] == Resolve(p.callbacks[id], ReadU64(s).rest) &&
              (forall k | k in p.promises && k != id :: r.p.promises[k] == p.promises[k]) &&
              r.p.requestId == p.requestId && r.p.name == p.name && r.p.connected == p.connected
    ensures r.Dispatched? && Valid(p) ==> Valid(r.p)
  {
    match ReadU64(s)
    case Err(e, _) => DispatchThrew(e)
    case Ok(id, rest) =>
      if id !in p.callbacks then Dispatched(p, None)
      else
        var done := Resolve(p.callbacks[id], rest);
        Dispatched(p.(callbacks := p.callbacks - {id}, promises := p.promises[id := done]), Some(id))
  }

  /** A reply carrying a pending id and a value of the awaited type fulfils that promise with the value. */
  lemma DispatchReply(p: ProxyState, id: nat, v: Value, more: Bytes)
    requires id in p.callbacks && IsU64(id) && Encodable(v, p.callbacks[id])
    ensures var r := Dispatch(p, WriteU64(id) + Encode(p.callbacks[id], v) + more);
            r.Dispatched? && r.ran == Some(id) && r.p.promises[id] == Fulfilled(v)
  {
    var t := p.callbacks[id];
    assert WriteU64(id) + Encode(t, v) + more == WriteU64(id) + (Encode(t, v) + more);
    U64RoundTrip(id, Encode(t, v) + more);
    RoundTrip(t, v, more);
  }

  /** A second reply with the same id finds no callback: each callback runs at most once, and a set promise stays set. */
  lemma DispatchOnce(p: ProxyState, s: Bytes, s': Bytes)
    requires Valid(p)
    requires Dispatch(p, s).Dispatched? && Dispatch(p, s).ran.Some?
    requires ReadU64(s').Ok? && ReadU64(s').value == Dispatch(p, s).ran.value
    ensures var p1 := Dispatch(p, s).p;
            Dispatch(p1, s') == Dispatched(p1, None) && !p1.promises[ReadU64(s').value].Pending?
  {
  }

  /**
   * `signalDisconnect`: every pending callback is run on an empty
   * deserializer, whose first read throws "Exceeded packet size", so every
   * waiting promise breaks with it; the table is cleared and `conn` nulled.
   */
  function SignalDisconnect(p: ProxyState): (r: ProxyState)
    ensures r.callbacks == map[] && !r.connected
    ensures r.promises.Keys == p.promises.Keys
    ensures forall id | id in p.callbacks && id in p.promises :: r.promises[id] == Broken(ExceededPacketSize)
    ensures forall id | id in p.promises && id !in p.callbacks :: r.promises[id] == p.promises[id]
    ensures r.requestId == p.requestId && r.name == p.name
    ensures Valid(p) ==> Valid(r)
  {
    DisconnectBreaks(p.callbacks);
    p.(callbacks := map[],
       promises := map id | id in p.promises ::
                     if id in p.callbacks then Resolve(p.callbacks[id], []) else p.promises[id],
       connected := false)
  }

  /** A second disconnect finds no callbacks and changes nothing more. */
  lemma DisconnectOnce(p: ProxyState)
    ensures SignalDisconnect(SignalDisconnect(p)) == SignalDisconnect(p)
  {
    var q := SignalDisconnect(p);
    var q2 := SignalDisconnect(q);
    assert q2.promises == q.promises;
  }

  /** Every callback fed the empty deserializer breaks its promise with "Exceeded packet size". */
  lemma DisconnectBreaks(callbacks: map<nat, Ty>)
    ensures forall id | id in callbacks :: Resolve(callbacks[id], []) == Broken(ExceededPacketSize)
  {
    forall id | id in callbacks
      ensures Resolve(callbacks[id], []) == Broken(ExceededPacketSize)
    {
      DecodeEmpty(callbacks[id]);
    }
  }

  /** The fixed part of a request: interface name, method name, request id. */
  const REQUEST_HEADER: seq<Ty> := [StringT, StringT, U64T]

  /** `q` is `p` with one more pending callback and promise under `id`; the other entries, the name and the connection are unchanged. */
  predicate Registers(p: ProxyState, q: ProxyState, id: nat, ret: Ty) {
    q.callbacks == p.callbacks[id := ret] && q.promises == p.promises[id := Pending] &&
    q.name == p.name && q.connected == p.connected
  }

  /** A call: the proxy afterwards, the request id it took, and the request payload. */
  datatype Request = Request(p: ProxyState, id: nat, payload: Bytes)

  /**
   * A proxy method (PROXY_PROLOG, the argument writes, PROXY_EPILOG): take
   * an id, register the future, then serialize the interface name, the
   * method name, the id and the arguments in declaration order. The
   * payload is handed to `Send`; `conn` must be set.
   */
  function Call(p: ProxyState, methodName: Bytes, argTys: seq<Ty>, args: seq<Value>, ret: Ty): (r: Request)
    requires p.connected
    requires |p.name| < TWO_TO_THE_64 && |methodName| < TWO_TO_THE_64 && IsU64(p.requestId)
    requires |argTys| == |args| && forall i | 0 <= i < |args| :: Encodable(args[i], argTys[i])
    ensures r.id == p.requestId && r.p.requestId == p.requestId + 1
    ensures r.id in r.p.callbacks && r.p.callbacks[r.id] == ret && r.id in r.p.promises && r.p.promises[r.id] == Pending
    ensures Registers(p, r.p, r.id, ret)
    ensures DecodeArgs(REQUEST_HEADER + argTys, r.payload) ==
            Ok([StringV(p.name), StringV(methodName), U64V(r.id)] + args, [])
    ensures Valid(p) ==> Valid(r.p)
  {
    var (p1, id) := GetRequestId(p);
    var p2 := GetFutureFor(p1, id, ret);
    var payload := RequestPayload(p.name, methodName, id, argTys, args);
    Request(p2, id, payload)
  }

  /** The request bytes, and the proof that a handler reads them back field by field. */
  function RequestPayload(name: Bytes, methodName: Bytes, id: nat, argTys: seq<Ty>, args: seq<Value>): (r: Bytes)
    requires |name| < TWO_TO_THE_64 && |methodName| < TWO_TO_THE_64 && IsU64(id)
    requires |argTys| == |args| && forall i | 0 <= i < |args| :: Encodable(args[i], argTys[i])
    ensures DecodeArgs(REQUEST_HEADER + argTys, r) == Ok([StringV(name), StringV(methodName), U64V(id)] + args, [])
  {
    var tys := REQUEST_HEADER + argTys;
    var vals := [StringV(name), StringV(methodName), U64V(id)] + args;
    assert forall i | 0 <= i < |vals| :: Encodable(vals[i], tys[i]) by {
      forall i | 0 <= i < |vals| ensures Encodable(vals[i], tys[i]) {
        if i >= 3 {
          assert vals[i] == args[i - 3] && tys[i] == argTys[i - 3];
        }
      }
    }
    ArgsRoundTrip(tys, vals, []);
    assert EncodeArgs(tys, vals) + [] == EncodeArgs(tys, vals);
    EncodeArgs(tys, vals)
  }
}
