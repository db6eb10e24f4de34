/**
 * The older single-header RPC layer of include/proxydispatcher.h. Its
 * proxies and dispatchers follow the same protocol as the newer headers,
 * with four differences modelled here: `interfaceNameOf` has no end-of-string
 * check; a call on a disconnected proxy fails at once; requests are tagged
 * `"d"` + interface name, under which the dispatcher registers itself; and a
 * disconnect breaks waiting promises with "Connection Lost". Proxies are
 * created on demand by `getProxyFor`, once the peer has announced its
 * interfaces.
 *
 * Reading a reply (`handle_promise<T>::handle`) is not defined anywhere in
 * the repository; it is taken to read the value as the newer proxy does,
 * so `Proxy.Dispatch` is the dispatch of this layer too.
 */
module Legacy {
  import opened Base
  import opened Codec
  import opened Composite
  import opened Dispatch
  import opened Proxy

  /**
   * `interfaceNameOf` as written here: skip characters while they compare
   * `<= '9'`, with no check for the end of the string. It is only defined
   * when some character stops the scan; it then agrees with the checked
   * version and never gives the empty name.
   */
  method InterfaceNameOfUnchecked(mangled: Bytes) returns (r: Bytes)
    requires 0 !in mangled
    requires exists i | 0 <= i < |mangled| :: !IsLeading(mangled[i])
    ensures r == InterfaceNameOf(mangled)
    ensures |r| > 0 && !IsLeading(r[0])
  {
    ghost var stop :| 0 <= stop < |mangled| && !IsLeading(mangled[stop]);
    var k := 0;
    while IsLeading(mangled[k])
      invariant 0 <= k <= stop
      invariant forall j | 0 <= j < k :: IsLeading(mangled[j])
      invariant InterfaceNameOf(mangled[k..]) == InterfaceNameOf(mangled)
      decreases stop - k
    {
      assert mangled[k..][1..] == mangled[k + 1..];
      k := k + 1;
    }
    r := mangled[k..];
  }

  /**
   * `signalDisconnect`: each pending callback is run on an empty buffer,
   * which breaks its promise with "Connection Lost"; the table is cleared
   * and `conn` nulled.
   */
  function SignalDisconnect(p: ProxyState): (r: ProxyState)
    ensures r.callbacks == map[] && !r.connected
    ensures r.promises.Keys == p.promises.Keys
    ensures forall id | id in p.callbacks && id in p.promises :: r.promises[id] == Broken(ConnectionLost)
    ensures forall id | id in p.promises && id !in p.callbacks :: r.promises[id] == p.promises[id]
    ensures r.requestId == p.requestId && r.name == p.name
    ensures Valid(p) ==> Valid(r)
  {
    p.(callbacks := map[],
       promises := map id | id in p.promises ::
                     if id in p.callbacks then Broken(ConnectionLost) else p.promises[id],
       connected := false)
  }

  /** The tag a request starts with, and the key its dispatcher registers under. */
  function RequestTag(name: Bytes): Bytes {
    ['d' as int] + name
  }

  /** The outcome of a proxy call: refused on a disconnected proxy, or sent. */
  datatype Called =
    | Refused(p: ProxyState, failed: Promise)
    | Sent(request: Request)

  /**
   * A proxy method (PROXY_PROLOG, PROXY_EPILOG): with `conn` null it
   * returns a future that fails with "Remote end disconnected
   * prematurely", taking no id and registering nothing; otherwise it takes
   * an id, registers the future and sends the request tagged with
   * `"d"` + interface name.
   */
  function Call(p: ProxyState, methodName: Bytes, argTys: seq<Ty>, args: seq<Value>, ret: Ty): (r: Called)
    requires |p.name| + 1 < TWO_TO_THE_64 && |methodName| < TWO_TO_THE_64 && IsU64(p.requestId)
    requires |argTys| == |args| && forall i | 0 <= i < |args| :: Encodable(args[i], argTys[i])
    ensures r.Refused? <==> !p.connected
    ensures r.Refused? ==> r.p == p && r.failed == Broken(RemoteDisconnected)
    ensures r.Sent? ==>
              var q := r.request;
              q.id == p.requestId && q.p.requestId == p.requestId + 1 &&
              q.id in q.p.callbacks && q.p.callbacks[q.id] == ret &&
              q.id in q.p.promises && q.p.promises[q.id] == Pending &&
              Registers(p, q.p, q.id, ret) &&
              DecodeArgs(REQUEST_HEADER + argTys, q.payload) ==
                Ok([StringV(RequestTag(p.name)), StringV(methodName), U64V(q.id)] + args, [])
    ensures r.Sent? && Valid(p) ==> Valid(r.request.p)
  {
    if !p.connected then Refused(p, Broken(RemoteDisconnected))
    else
      var (p1, id) := GetRequestId(p);
      var p2 := GetFutureFor(p1, id, ret);
      Sent(Request(p2, id, RequestPayload(RequestTag(p.name), methodName, id, argTys, args)))
  }

  /** `Connection::dispatchers()`: the process-wide table of dispatchers by request tag. */
  type Registry = map<Bytes, Dispatcher>

  /** The `DispatchBase` constructor: the dispatcher registers under `"d"` + its name, replacing any earlier one. */
  function Provide(reg: Registry, d: Dispatcher): (r: Registry)
    ensures RequestTag(d.name) in r && r[RequestTag(d.name)] == d
    ensures forall k | k in reg && k != RequestTag(d.name) :: k in r && r[k] == reg[k]
    ensures r.Keys == reg.Keys + {RequestTag(d.name)}
  {
    reg[RequestTag(d.name) := d]
  }

  /**
   * A request from a connected proxy starts with the key its interface's
   * dispatcher registered under, and that dispatcher's `dispatch` calls
   * the named method with the proxy's request id and arguments.
   */
  lemma RequestFindsDispatcher(reg: Registry, d: Dispatcher, p: ProxyState, methodName: Bytes, argTys: seq<Ty>, args: seq<Value>, ret: Ty)
    requires p.connected && p.name == d.name
    requires |p.name| + 1 < TWO_TO_THE_64 && |methodName| < TWO_TO_THE_64 && IsU64(p.requestId)
    requires |argTys| == |args| && forall i | 0 <= i < |args| :: Encodable(args[i], argTys[i])
    requires methodName in d.funcs && d.funcs[methodName].args == argTys
    ensures var q := Call(p, methodName, argTys, args, ret).request;
            var reg' := Provide(reg, d);
            ReadString(q.payload).Ok? && ReadString(q.payload).value in reg' &&
            reg'[ReadString(q.payload).value] == d &&
            Handle(d, ReadString(q.payload).rest) == Invoked(methodName, q.id, args, [])
  {
    var q := Call(p, methodName, argTys, args, ret).request;
    RequestDecoded(d, argTys, q.payload, RequestTag(p.name), methodName, q.id, args);
  }

  /**
   * A connection as `getProxyFor` sees it: the proxy table (`operator[]`
   * leaves a null entry behind for a name it looked up and did not fill),
   * the interface names the peer announced, and whether it has announced
   * them yet.
   */
  datatype Peer = Peer(proxies: map<Bytes, Option<ProxyState>>, interfaces: seq<Bytes>, haveInterfaces: bool)

  /** Every proxy in the table is for an announced interface, under its own name. */
  predicate PeerValid(c: Peer) {
    forall n | n in c.proxies && c.proxies[n].Some? ::
      c.proxies[n].value.name == n && (c.haveInterfaces ==> n in c.interfaces)
  }

  /** The outcome of `getProxyFor`. */
  datatype Got =
    | Got(peer: Peer, proxy: ProxyState)
    | Waiting(peer: Peer)
    | NotOffered(peer: Peer)

  /**
   * `getProxyFor` with the REGISTER-generated `Create`: a cached proxy is
   * returned as is; otherwise the call waits until the peer has announced
   * its interfaces, creates a proxy if the name is among them, and throws
   * "Connection does not implement proxy" if not. The lookup leaves a
   * null entry for the name unless a proxy is stored there.
   */
  function GetProxyFor(c: Peer, name: Bytes): (r: Got)
    ensures name in r.peer.proxies
    ensures r.peer.interfaces == c.interfaces && r.peer.haveInterfaces == c.haveInterfaces
    ensures forall n | n in c.proxies && n != name :: n in r.peer.proxies && r.peer.proxies[n] == c.proxies[n]
    ensures r.peer.proxies.Keys == c.proxies.Keys + {name}
    ensures name in c.proxies && c.proxies[name].Some? ==> r == Got(c, c.proxies[name].value)
    ensures r.Waiting? <==> !c.haveInterfaces && !(name in c.proxies && c.proxies[name].Some?)
    ensures r.NotOffered? <==> c.haveInterfaces && !(name in c.proxies && c.proxies[name].Some?) && name !in c.interfaces
    ensures r.Got? ==> r.peer.proxies[name] == Some(r.proxy) && (PeerValid(c) ==> r.proxy.name == name)
    ensures r.Got? && !(name in c.proxies && c.proxies[name].Some?) ==>
              r.proxy.connected && r.proxy.requestId == 0 && r.proxy.callbacks == map[]
    ensures !r.Got? ==> r.peer.proxies[name] == None
    ensures PeerValid(c) ==> PeerValid(r.peer)
  {
    if name in c.proxies && c.proxies[name].Some? then Got(c, c.proxies[name].value)
    else
      var c' := c.(proxies := c.proxies[name := None]);
      if !c.haveInterfaces then Waiting(c')
      else if name !in c.interfaces then NotOffered(c')
      else
        var p := NewProxy(name);
        Got(c.(proxies := c.proxies[name := Some(p)]), p)
  }

  /** Asking again for a proxy that was handed out returns the same proxy and changes nothing. */
  lemma GetProxyForCaches(c: Peer, name: Bytes)
    requires GetProxyFor(c, name).Got?
    ensures var r := GetProxyFor(c, name);
            GetProxyFor(r.peer, name) == r.(peer := r.peer)
  {
  }

  /** A refused interface stays refused, and the table only gains the null entry once. */
  lemma NotOfferedStays(c: Peer, name: Bytes)
    requires GetProxyFor(c, name).NotOffered?
    ensures var r := GetProxyFor(c, name);
            GetProxyFor(r.peer, name) == r
  {
  }
}
