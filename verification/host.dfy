/**
 * The server's registry, `RpcHost` of include/RaPsCallion/RpcHost.h: the
 * registered interface dispatchers and the connected handles. A new handle
 * is sent every registered interface; a new interface is sent to every
 * handle; so every handle has been sent every interface exactly once. An
 * incoming packet starts with an interface name and goes to the first
 * dispatcher of that name.
 *
 * Handles are numbered in connection order; what `SendInterface` puts on
 * the wire is not part of this model (src/RpcHandle.cpp does not compile),
 * only which interface went to which handle, in order.
 */
module Host {
  import opened Base
  import opened Codec
  import opened Composite
  import opened Dispatch
  import opened Proxy

  /** The registry: interfaces in registration order, and for each handle the interfaces sent to it, in sending order. */
  datatype RpcHost = RpcHost(interfaces: seq<Dispatcher>, sentTo: seq<seq<nat>>)

  /** Every handle has been sent the registered interfaces in registration order, each once. */
  predicate Valid(h: RpcHost) {
    forall k | 0 <= k < |h.sentTo| :: h.sentTo[k] == Range(|h.interfaces|)
  }

  function NewHost(): (h: RpcHost)
    ensures Valid(h) && h.interfaces == [] && h.sentTo == []
  {
    RpcHost([], [])
  }

  /** `addSocket`: a new handle, sent every registered interface in order. */
  function AddSocket(h: RpcHost): (r: RpcHost)
    ensures r.interfaces == h.interfaces && |r.sentTo| == |h.sentTo| + 1
    ensures r.sentTo[..|h.sentTo|] == h.sentTo
    ensures r.sentTo[|h.sentTo|] == Range(|h.interfaces|)
    ensures Valid(h) ==> Valid(r)
  {
    RpcHost(h.interfaces, h.sentTo + [Range(|h.interfaces|)])
  }

  /** `Register`: a new interface at the end, sent once to every existing handle. */
  function Register(h: RpcHost, d: Dispatcher): (r: RpcHost)
    ensures r.interfaces == h.interfaces + [d] && |r.sentTo| == |h.sentTo|
    ensures forall k | 0 <= k < |h.sentTo| :: r.sentTo[k] == h.sentTo[k] + [|h.interfaces|]
    ensures Valid(h) ==> Valid(r)
  {
    var r := RpcHost(h.interfaces + [d], seq(|h.sentTo|, k requires 0 <= k < |h.sentTo| => h.sentTo[k] + [|h.interfaces|]));
    assert Range(|h.interfaces|) + [|h.interfaces|] == Range(|h.interfaces| + 1);
    r
  }

  /** The registry invariant read as counts: each handle got each registered interface exactly once, and nothing else. */
  lemma ExactlyOnce(h: RpcHost)
    requires Valid(h)
    ensures forall k, i | 0 <= k < |h.sentTo| && 0 <= i < |h.interfaces| :: multiset(h.sentTo[k])[i] == 1
    ensures forall k, x | 0 <= k < |h.sentTo| && x in h.sentTo[k] :: x < |h.interfaces|
  {
    RangeOnce(|h.interfaces|);
  }

  /** The interface names, in registration order. */
  function Names(h: RpcHost): (r: seq<Bytes>)
    ensures |r| == |h.interfaces| && forall i | 0 <= i < |r| :: r[i] == h.interfaces[i].name
  {
    seq(|h.interfaces|, i requires 0 <= i < |h.interfaces| => h.interfaces[i].name)
  }

  /** Where `Handle` sent a packet. */
  datatype Routed =
    | Routed(index: nat, handled: Handled)
    | Unrouted(ifId: Bytes)
    | RouteThrew(error: Error)

  /**
   * `Handle`: reads the interface name and delegates the rest of the packet
   * to the first interface with that name; with no match nothing is called.
   * The registry is not changed.
   */
  function Handle(h: RpcHost, s: Bytes): (r: Routed)
    ensures r.RouteThrew? <==> ReadString(s).Err?
    ensures r.Unrouted? <==> ReadString(s).Ok? && ReadString(s).value !in Names(h)
    ensures r.Routed? ==>
              ReadString(s).Ok? && r.index < |h.interfaces| &&
              h.interfaces[r.index].name == ReadString(s).value &&
              (forall j | 0 <= j < r.index :: h.interfaces[j].name != ReadString(s).value) &&
              r.handled == Dispatch.Handle(h.interfaces[r.index], ReadString(s).rest)
  {
    match ReadString(s)
    case Err(e, _) => RouteThrew(e)
    case Ok(ifId, rest) =>
      match FirstIndexOf(Names(h), ifId)
      case None => Unrouted(ifId)
      case Some(i) => Routed(i, Dispatch.Handle(h.interfaces[i], rest))
  }

  /**
   * A proxy's request reaches the handler it names: the host picks the
   * first interface of the proxy's name, and that interface's handler for
   * the method is called with the request id the proxy took and the
   * arguments it wrote.
   */
  lemma RequestReachesHandler(h: RpcHost, p: ProxyState, methodName: Bytes, argTys: seq<Ty>, args: seq<Value>, ret: Ty, i: nat)
    requires p.connected
    requires |p.name| < TWO_TO_THE_64 && |methodName| < TWO_TO_THE_64 && IsU64(p.requestId)
    requires |argTys| == |args| && forall k | 0 <= k < |args| :: Encodable(args[k], argTys[k])
    requires i < |h.interfaces| && h.interfaces[i].name == p.name
    requires forall j | 0 <= j < i :: h.interfaces[j].name != p.name
    requires methodName in h.interfaces[i].funcs && h.interfaces[i].funcs[methodName].args == argTys
    ensures var call := Call(p, methodName, argTys, args, ret);
            Handle(h, call.payload) == Routed(i, Invoked(methodName, call.id, args, []))
  {
    var call := Call(p, methodName, argTys, args, ret);
    RequestDecoded(h.interfaces[i], argTys, call.payload, p.name, methodName, call.id, args);
    assert FirstIndexOf(Names(h), p.name) == Some(i);
  }
}
