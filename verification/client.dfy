/**
 * The client end of a connection, `RpcClient` of
 * include/RaPsCallion/RpcClient.h: received bytes are appended to one
 * deserializer, and while it holds a complete frame the frame is handed to
 * the first proxy of the interface it names and then dropped. Proxies are
 * created by `Get`, disconnected by the destructor, and send their
 * requests through `Send`.
 *
 * The loop runs the completeness test as written (`HasFullPacket`). Where
 * that test accepts a frame whose end lies past the buffer, the source goes
 * on to read past the vector or to remove more bytes than it holds; the
 * model stops there with `Overran` instead of following it. Read with the
 * intended test, the same stop is a wait for more bytes.
 */
module Client {
  import opened Base
  import opened Codec
  import opened Prefix
  import opened Frame
  import opened Proxy
  import WritePath

  /** A client: its receive buffer, its proxies in creation order, and its connection's writer. */
  datatype RpcClient = RpcClient(des: Deserializer, proxies: seq<ProxyState>, conn: WritePath.Connection)

  /** The proxies' interface names, in creation order. */
  function Names(proxies: seq<ProxyState>): (r: seq<Bytes>)
    ensures |r| == |proxies| && forall i | 0 <= i < |r| :: r[i] == proxies[i].name
  {
    seq(|proxies|, i requires 0 <= i < |proxies| => proxies[i].name)
  }

  /** The proxies after one packet, or the exception a read threw. */
  datatype Delivered = Delivered(proxies: seq<ProxyState>) | DeliverThrew(error: Error)

  /**
   * `Handle`: reads the interface name and passes the rest of the packet to
   * the first proxy of that name, whose `dispatch` may complete one of its
   * calls. With no such proxy the packet is dropped.
   */
  function Deliver(proxies: seq<ProxyState>, packet: Bytes): (r: Delivered)
    ensures ReadString(packet).Err? ==> r == DeliverThrew(ReadString(packet).error)
    ensures ReadString(packet).Ok? && ReadString(packet).value !in Names(proxies) ==> r == Delivered(proxies)
    ensures ReadString(packet).Ok? && ReadString(packet).value in Names(proxies) ==>
              var i := FirstIndexOf(Names(proxies), ReadString(packet).value).value;
              var dr := Dispatch(proxies[i], ReadString(packet).rest);
              (dr.DispatchThrew? ==> r == DeliverThrew(dr.error)) &&
              (dr.Dispatched? ==> r == Delivered(proxies[i := dr.p]))
    ensures r.Delivered? ==> Names(r.proxies) == Names(proxies)
  {
    match ReadString(packet)
    case Err(e, _) => DeliverThrew(e)
    case Ok(ifId, rest) =>
      match FirstIndexOf(Names(proxies), ifId)
      case None => Delivered(proxies)
      case Some(i) =>
        match Dispatch(proxies[i], rest)
        case DispatchThrew(e) => DeliverThrew(e)
        case Dispatched(p, _) =>
          var r := proxies[i := p];
          assert forall j | 0 <= j < |r| :: r[j].name == proxies[j].name;
          Delivered(r)
  }

  /** Packets handled one after the other, stopping at the first that throws. */
  function DeliverAll(proxies: seq<ProxyState>, packets: seq<Bytes>): (r: Delivered)
    decreases |packets|
  {
    if |packets| == 0 then Delivered(proxies)
    else match DeliverAll(proxies, packets[..|packets| - 1])
      case DeliverThrew(e) => DeliverThrew(e)
      case Delivered(ps) => Deliver(ps, packets[|packets| - 1])
  }

  /** A packet for an interface no proxy has is dropped without effect. */
  lemma DroppedPacket(proxies: seq<ProxyState>, name: Bytes, more: Bytes)
    requires |name| < TWO_TO_THE_64 && name !in Names(proxies)
    ensures Deliver(proxies, WriteString(name) + more) == Delivered(proxies)
  {
    StringRoundTrip(name, more);
  }

  /** One more packet handled after a run that did not throw. */
  lemma DeliverAllAppend(proxies: seq<ProxyState>, packets: seq<Bytes>, packet: Bytes, ps: seq<ProxyState>)
    requires DeliverAll(proxies, packets) == Delivered(ps)
    ensures DeliverAll(proxies, packets + [packet]) == Deliver(ps, packet)
  {
    assert (packets + [packet])[..|packets|] == packets;
  }

  /** One turn of the receive loop. */
  datatype Turn =
    | Idle(d: Deserializer)
    | Overrun(d: Deserializer)
    | Handled(frame: Bytes, packet: Bytes, proxies: seq<ProxyState>, d: Deserializer)
    | Failed(d: Deserializer, error: Error)

  /**
   * `HasFullPacket` as written, and if it holds, `Handle` and
   * `RemovePacket`: no complete frame leaves the buffer as scanned; a frame
   * the test accepts although it ends past the buffer is an overrun; a
   * frame whose handling throws stays in place; a handled frame is taken
   * off the front.
   */
  function LoopTurn(d: Deserializer, proxies: seq<ProxyState>): (r: Turn)
    ensures r.Idle? <==> !HasFullPacket(d).full
    ensures r.Overrun? <==> HasFullPacket(d).full && HasFullPacket(d).d.size > |d.buffer|
    ensures !r.Handled? ==> r.d == HasFullPacket(d).d
    ensures r.Failed? ==> Bounded(r.d) && Deliver(proxies, Window(r.d)) == DeliverThrew(r.error)
    ensures !r.Handled? ==> HasFullPacket(r.d) == HasFullPacket(d)
    ensures r.Handled? ==>
              d.buffer == r.frame + r.d.buffer && |r.d.buffer| < |d.buffer| &&
              Parse(r.frame) == Some((|r.packet|, r.packet)) &&
              Deliver(proxies, r.packet) == Delivered(r.proxies)
  {
    var scan := HasFullPacket(d);
    ScanReadsBuffer(d, scan.d);
    if !scan.full then Idle(scan.d)
    else if scan.d.size > |d.buffer| then Overrun(scan.d)
    else
      FixedIsWrittenInBounds(d);
      TakeFrame(d);
      match Deliver(proxies, Window(scan.d))
      case DeliverThrew(e) => Failed(scan.d, e)
      case Delivered(ps) => Handled(d.buffer[..scan.d.size], Window(scan.d), ps, RemovePacket(scan.d))
  }

  /**
   * The two bytes `02 00` announce a two-byte payload of which one byte has
   * arrived; the loop as written accepts them and overruns, where the
   * intended test would wait.
   */
  lemma LoopOverruns(proxies: seq<ProxyState>)
    ensures LoopTurn(Deserializer([0x02, 0x00], 0, 0), proxies).Overrun?
    ensures !HasFullPacketFixed(Deserializer([0x02, 0x00], 0, 0)).full
  {
  }

  /** How the receive callback ended. */
  datatype Stopped = Drained | Overran | HandlerThrew(error: Error)

  /**
   * The receive callback: append the received bytes, then while the test
   * as written says a frame is buffered, handle its payload and remove it.
   * The frames removed, followed by what is left, are the old buffer and
   * the new bytes in order; each removed frame is a prefix announcing its
   * payload and that payload, and the proxies are as handling those
   * payloads in order leaves them. The callback ends when the test says
   * no, when it accepts a frame that ends past the buffer, or when a
   * handler throws, which leaves its frame in the buffer.
   */
  method OnRead(c: RpcClient, bytes: Bytes) returns (r: RpcClient, frames: seq<Bytes>, packets: seq<Bytes>, stop: Stopped)
    ensures r.conn == c.conn
    ensures c.des.buffer + bytes == Flatten(frames) + r.des.buffer
    ensures |frames| == |packets|
    ensures forall k | 0 <= k < |frames| :: Parse(frames[k]) == Some((|packets[k]|, packets[k]))
    ensures DeliverAll(c.proxies, packets) == Delivered(r.proxies)
    ensures stop.Drained? ==> !HasFullPacket(r.des).full
    ensures stop.Overran? ==> HasFullPacket(r.des).full && HasFullPacket(r.des).d.size > |r.des.buffer|
    ensures stop.HandlerThrew? ==>
              var scan := HasFullPacket(r.des);
              scan.full && Bounded(scan.d) && Deliver(r.proxies, Window(scan.d)) == DeliverThrew(stop.error)
  {
    var d := AddBytes(c.des, bytes);
    assert d.buffer == c.des.buffer + bytes;
    var proxies := c.proxies;
    frames, packets := [], [];
    while true
      invariant c.des.buffer + bytes == Flatten(frames) + d.buffer
      invariant |frames| == |packets|
      invariant forall k | 0 <= k < |frames| :: Parse(frames[k]) == Some((|packets[k]|, packets[k]))
      invariant DeliverAll(c.proxies, packets) == Delivered(proxies)
      decreases |d.buffer|
    {
      var turn := LoopTurn(d, proxies);
      match turn
      case Idle(d') =>
        r, stop := RpcClient(d', proxies, c.conn), Drained;
        return;
      case Overrun(d') =>
        r, stop := RpcClient(d', proxies, c.conn), Overran;
        return;
      case Failed(d', e) =>
        r, stop := RpcClient(d', proxies, c.conn), HandlerThrew(e);
        return;
      case Handled(frame, packet, ps, d') =>
        DeliverAllAppend(c.proxies, packets, packet, proxies);
        ConsumeChunk(c.des.buffer + bytes, frames, frame, d'.buffer);
        frames, packets, proxies, d := frames + [frame], packets + [packet], ps, d';
    }
  }

  /**
   * Taking a complete frame off the front: the buffer is the frame and then
   * what `RemovePacket` keeps, which is shorter; the frame parses as its
   * own prefix announcing exactly the window's payload.
   */
  lemma TakeFrame(d: Deserializer)
    requires HasFullPacketFixed(d).full
    ensures var w := HasFullPacketFixed(d).d;
            w.size <= |d.buffer| && Bounded(w) &&
            d.buffer == d.buffer[..w.size] + RemovePacket(w).buffer &&
            |RemovePacket(w).buffer| < |d.buffer| &&
            Parse(d.buffer[..w.size]) == Some((|Window(w)|, Window(w)))
  {
    var w := HasFullPacketFixed(d).d;
    ParseTruncate(d.buffer, 0, w.size);
    assert d.buffer == d.buffer[..w.size] + RemovePacket(w).buffer;
  }

  /** `Get`: appends exactly one new proxy for the interface; the existing ones are kept in order. */
  function Get(c: RpcClient, name: Bytes): (r: RpcClient)
    ensures |r.proxies| == |c.proxies| + 1 && r.proxies[..|c.proxies|] == c.proxies
    ensures r.proxies[|c.proxies|] == NewProxy(name)
    ensures Names(r.proxies) == Names(c.proxies) + [name]
    ensures r.des == c.des && r.conn == c.conn
  {
    var r := c.(proxies := c.proxies + [NewProxy(name)]);
    assert r.proxies[..|c.proxies|] == c.proxies;
    r
  }

  /**
   * Routing by the first match: once a proxy for an interface exists, a
   * later proxy for the same interface never receives a packet, so the
   * new one stays untouched whatever arrives.
   */
  lemma LaterProxyShadowed(c: RpcClient, name: Bytes, packet: Bytes)
    requires name in Names(c.proxies)
    requires Deliver(Get(c, name).proxies, packet).Delivered?
    ensures var ps := Deliver(Get(c, name).proxies, packet).proxies;
            ps[|c.proxies|] == NewProxy(name)
  {
    var g := Get(c, name).proxies;
    if ReadString(packet).value in Names(g) {
      FirstIndexOfPrefix(Names(c.proxies), [name], ReadString(packet).value);
    }
  }

  /** The first match in a sequence is found before any element appended to it, once the key occurs early. */
  lemma {:induction false} FirstIndexOfPrefix(names: seq<Bytes>, more: seq<Bytes>, key: Bytes)
    requires key in names + more && (key in more ==> key in names)
    ensures FirstIndexOf(names + more, key).Some? && FirstIndexOf(names + more, key).value < |names|
  {
    assert key in names;
    var j :| 0 <= j < |names| && names[j] == key;
    assert (names + more)[j] == key;
  }

  /**
   * The destructor: every proxy is disconnected once. Afterwards no proxy
   * waits on a callback or holds a connection, and every promise that was
   * waiting has been broken.
   */
  function Disconnect(c: RpcClient): (r: RpcClient)
    ensures |r.proxies| == |c.proxies| && Names(r.proxies) == Names(c.proxies)
    ensures forall i | 0 <= i < |r.proxies| :: r.proxies[i].callbacks == map[] && !r.proxies[i].connected
    ensures forall i | 0 <= i < |r.proxies| :: r.proxies[i].promises.Keys == c.proxies[i].promises.Keys
    ensures forall i, id | 0 <= i < |r.proxies| && id in c.proxies[i].callbacks && id in c.proxies[i].promises ::
              r.proxies[i].promises[id] == Broken(ExceededPacketSize)
    ensures r.des == c.des && r.conn == c.conn
  {
    c.(proxies := seq(|c.proxies|, i requires 0 <= i < |c.proxies| => SignalDisconnect(c.proxies[i])))
  }

  /** The bytes `Send` writes for a serializer: the frame `data()` and `size()` delimit. */
  function SentFrame(s: Serializer): (r: Bytes)
    requires ValidSerializer(s)
    ensures s.offs == UNFINALIZED ==> r == LengthPrefix(|Payload(s)|) + Payload(s)
  {
    var (f, start) := Data(s);
    var (_, size) := Size(f);
    assert s.offs == UNFINALIZED ==> f.buffer[start..start + size] == LengthPrefix(|Payload(s)|) + Payload(s) by {
      if s.offs == UNFINALIZED { DataSizeFrame(s); }
    }
    f.buffer[start..start + size]
  }

  /**
   * `Send`: finalises the serializer and writes its frame to the
   * connection, prefix and payload, as one packet. A frame larger than the
   * connection's buffer is refused.
   */
  function Send(c: RpcClient, s: Serializer): (r: (Serializer, WritePath.Written))
    requires ValidSerializer(s)
    requires |SentFrame(s)| <= WritePath.BUFFER_SIZE ==> |c.conn.staging| + |SentFrame(s)| <= WritePath.BUFFER_SIZE
    ensures r.0 == Finalize(s)
    ensures r.1.Rejected? <==> |SentFrame(s)| > WritePath.BUFFER_SIZE
    ensures r.1.Accepted? ==> r.1.c.accepted == c.conn.accepted + [SentFrame(s)]
    ensures r.1.Accepted? && WritePath.Valid(c.conn) ==> WritePath.Valid(r.1.c)
  {
    (Finalize(s), WritePath.Write(c.conn, SentFrame(s)))
  }

  /** A request sent through `Send` is received back as the same payload: one frame, one packet. */
  lemma SendThenReceive(s: Serializer, more: Bytes)
    requires ValidSerializer(s) && s.offs == UNFINALIZED
    ensures var d := Deserializer(SentFrame(s) + more, 0, 0);
            HasFullPacketFixed(d).full && Window(HasFullPacketFixed(d).d) == Payload(s) &&
            RemovePacket(HasFullPacketFixed(d).d).buffer == more
  {
    var d := Deserializer(SentFrame(s) + more, 0, 0);
    FramedPacket(Payload(s), more, d);
    RemoveFramedPacket(Payload(s), more, d);
  }
}
