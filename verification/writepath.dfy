/**
 * The write side of `Connection` in include/RaPsCallion/Connection.h: a
 * double buffer. `write` copies a packet into the staging buffer and, when
 * no transmission is active, hands the staging buffer to the socket at
 * once and switches staging to the other buffer. When a transmission
 * completes, whatever was staged meanwhile is handed over in one piece,
 * or the writer goes idle.
 *
 * The socket is abstract: a hand-over appends the chunk to `transmitted`
 * and counts one transmission in flight until its completion event.
 */
module WritePath {
  import opened Base

  /** `buffersize`: the capacity of each write buffer, and the largest packet `write` takes. */
  const BUFFER_SIZE: nat := 16384

  /**
   * The writer: the bytes staged since the last hand-over (`currentWrite`
   * up to `writeoff`), which of the two buffers is staging, whether a
   * write is active, how many transmissions are outstanding and from
   * which buffer, the chunks handed to the socket, and the packets
   * `write` accepted.
   */
  datatype Connection = Connection(
    staging: Bytes,
    current: nat,
    writeActive: bool,
    inFlight: nat,
    flightBuffer: nat,
    transmitted: seq<Bytes>,
    accepted: seq<Bytes>)

  /**
   * The writer's invariant: staging fits its buffer; at most one
   * transmission is outstanding, and never from the staging buffer; an
   * idle writer has nothing staged; and the bytes handed to the socket
   * followed by the staged bytes are the accepted packets in call order.
   */
  predicate Valid(c: Connection) {
    |c.staging| <= BUFFER_SIZE &&
    (c.current == 1 || c.current == 2) &&
    c.inFlight <= 1 &&
    (c.inFlight == 1 ==> c.writeActive && c.flightBuffer != c.current) &&
    (!c.writeActive ==> c.staging == []) &&
    Flatten(c.transmitted) + c.staging == Flatten(c.accepted)
  }

  function NewConnection(): (c: Connection)
    ensures Valid(c) && !c.writeActive && c.transmitted == [] && c.accepted == []
  {
    Connection([], 1, false, 0, 0, [], [])
  }

  /**
   * `queueWrite`: the staged bytes go to the socket as one chunk; staging
   * switches to the other buffer and starts empty; the write is active.
   */
  function QueueWrite(c: Connection): (r: Connection)
    ensures r.staging == [] && r.writeActive && r.inFlight == c.inFlight + 1
    ensures r.transmitted == c.transmitted + [c.staging] && r.accepted == c.accepted
    ensures r.flightBuffer == c.current && r.current != c.current
    ensures Flatten(r.transmitted) + r.staging == Flatten(c.transmitted) + c.staging
  {
    FlattenAppend(c.transmitted, c.staging);
    Connection([], if c.current == 1 then 2 else 1, true, c.inFlight + 1, c.current, c.transmitted + [c.staging], c.accepted)
  }

  /** The outcome of `write`. */
  datatype Written = Accepted(c: Connection) | Rejected(error: Error)

  /**
   * `write`: a packet larger than a buffer is refused with "Packet too
   * large for connection" before anything changes. Otherwise it is
   * appended to staging and, if no write is active, transmitted at once.
   * The source does not check that staging has room left; that the
   * packet fits is required here.
   */
  function Write(c: Connection, bytes: Bytes): (r: Written)
    requires |bytes| <= BUFFER_SIZE ==> |c.staging| + |bytes| <= BUFFER_SIZE
    ensures r.Rejected? <==> |bytes| > BUFFER_SIZE
    ensures r.Rejected? ==> r.error == PacketTooLarge
    ensures r.Accepted? ==> r.c.accepted == c.accepted + [bytes] && r.c.writeActive
    ensures r.Accepted? && !c.writeActive ==>
              r.c.transmitted == c.transmitted + [c.staging + bytes] && r.c.staging == [] &&
              r.c.inFlight == c.inFlight + 1
    ensures r.Accepted? && c.writeActive ==>
              r.c.transmitted == c.transmitted && r.c.staging == c.staging + bytes &&
              r.c.inFlight == c.inFlight && r.c.current == c.current
    ensures r.Accepted? && Valid(c) ==> Valid(r.c)
  {
    if |bytes| > BUFFER_SIZE then Rejected(PacketTooLarge)
    else
      FlattenAppend(c.accepted, bytes);
      var c' := c.(staging := c.staging + bytes, accepted := c.accepted + [bytes]);
      assert Flatten(c'.transmitted) + c'.staging == (Flatten(c.transmitted) + c.staging) + bytes;
      Accepted(if !c.writeActive then QueueWrite(c') else c')
  }

  /**
   * `handle_write`, the completion of the outstanding transmission. On
   * success, anything staged meanwhile is transmitted at once, and
   * otherwise the writer goes idle. On an error nothing happens: the write
   * stays active and no further transmission is started.
   */
  function Complete(c: Connection, ok: bool): (r: Connection)
    requires c.inFlight > 0
    ensures r.accepted == c.accepted
    ensures ok && c.staging != [] ==>
              r.transmitted == c.transmitted + [c.staging] && r.staging == [] && r.writeActive &&
              r.inFlight == c.inFlight
    ensures ok && c.staging == [] ==> r.transmitted == c.transmitted && !r.writeActive && r.inFlight == c.inFlight - 1
    ensures !ok ==> r.transmitted == c.transmitted && r.staging == c.staging &&
                    r.writeActive == c.writeActive && r.inFlight == c.inFlight - 1
    ensures Valid(c) ==> Valid(r)
  {
    var done := c.(inFlight := c.inFlight - 1);
    if !ok then done
    else if |c.staging| > 0 then QueueWrite(done)
    else done.(writeActive := false)
  }

  /** An idle writer has handed every accepted byte to the socket, in order. */
  lemma IdleMeansFlushed(c: Connection)
    requires Valid(c) && !c.writeActive
    ensures Flatten(c.transmitted) == Flatten(c.accepted)
  {
    assert Flatten(c.transmitted) + [] == Flatten(c.transmitted);
  }

  /** Consecutive `write` calls; every packet fits, so none is refused. */
  function WriteAll(c: Connection, packets: seq<Bytes>): (r: Connection)
    requires |c.staging| + |Flatten(packets)| <= BUFFER_SIZE
    ensures r.accepted == c.accepted + packets
    ensures Valid(c) ==> Valid(r)
    decreases |packets|
  {
    if |packets| == 0 then
      assert c.accepted + packets == c.accepted;
      c
    else
      var w := Write(c, packets[0]);
      assert (c.accepted + [packets[0]]) + packets[1..] == c.accepted + packets;
      WriteAll(w.c, packets[1..])
  }

  /**
   * After a failed completion the writer stays active with nothing
   * outstanding: however many packets are written afterwards, nothing more
   * reaches the socket, and no completion can come to restart it.
   */
  lemma {:induction false} FailedWriterStalls(c: Connection, packets: seq<Bytes>)
    requires c.writeActive && c.inFlight == 1
    requires |c.staging| + |Flatten(packets)| <= BUFFER_SIZE
    ensures var r := WriteAll(Complete(c, false), packets);
            r.transmitted == c.transmitted && r.writeActive && r.inFlight == 0
  {
    StalledStays(Complete(c, false), packets);
  }

  /** A writer that is active with nothing outstanding stays so under any run of writes. */
  lemma {:induction false} StalledStays(c: Connection, packets: seq<Bytes>)
    requires c.writeActive && c.inFlight == 0
    requires |c.staging| + |Flatten(packets)| <= BUFFER_SIZE
    ensures var r := WriteAll(c, packets);
            r.transmitted == c.transmitted && r.writeActive && r.inFlight == 0
    decreases |packets|
  {
    if |packets| > 0 {
      StalledStays(Write(c, packets[0]).c, packets[1..]);
    }
  }
}
