/**
 * The framing classes of include/RaPsCallion/Serializer.h.
 *
 * A `Serializer` collects a payload behind 8 bytes of headroom and writes
 * the length prefix once, the first time `data()` or `size()` is asked for.
 * A `Deserializer` holds received bytes; `HasFullPacket` scans the prefix at
 * the front and sets the read window `[offs, size)` to the payload,
 * `getByte`/`getByteRange` consume the window, and `RemovePacket` drops the
 * frame from the front of the buffer.
 */
module Frame {
  import opened Base
  import opened Codec
  import opened Prefix

  // ---------------------------------------------------------------------
  // Serializer

  /** The value of `offs` before `finalize` has run. */
  const UNFINALIZED: nat := 9

  /** The headroom and payload, and where the frame starts once finalised (`UNFINALIZED` before). */
  datatype Serializer = Serializer(buffer: Bytes, offs: nat)

  /** A serializer whose payload fits the headroom and whose `offs` is a real state of the class. */
  predicate ValidSerializer(s: Serializer) {
    HasHeadroom(s.buffer) && (s.offs == UNFINALIZED || s.offs <= 7)
  }

  /** The payload: everything after the headroom. */
  function Payload(s: Serializer): Bytes
    requires |s.buffer| >= 8
  {
    s.buffer[8..]
  }

  /** The constructor: 8 zero bytes of headroom, an empty payload, not finalised. */
  function NewSerializer(): (s: Serializer)
    ensures ValidSerializer(s) && s.offs == UNFINALIZED
    ensures |s.buffer| == 8 && Payload(s) == []
  {
    Serializer(seq(8, _ => 0), UNFINALIZED)
  }

  /** `addByte`: the payload grows by `b` at its end; the finalisation state is kept. */
  function AddByte(s: Serializer, b: Byte): (r: Serializer)
    requires |s.buffer| >= 8
    ensures |r.buffer| >= 8 && Payload(r) == Payload(s) + [b]
    ensures r.buffer[..8] == s.buffer[..8] && r.offs == s.offs
  {
    Serializer(s.buffer + [b], s.offs)
  }

  /**
   * `finalize`: the first call writes the prefix for the current payload
   * into the headroom and records where it starts; later calls return at
   * the `offs != 9` guard.
   */
  function Finalize(s: Serializer): (r: Serializer)
    requires ValidSerializer(s)
    ensures ValidSerializer(r) && r.offs <= 7 && Payload(r) == Payload(s)
    ensures s.offs == UNFINALIZED ==>
              r.buffer[r.offs..] == LengthPrefix(|s.buffer| - 8) + Payload(s) &&
              Parse(r.buffer[r.offs..]) == Some((|s.buffer| - 8, Payload(s)))
    ensures s.offs != UNFINALIZED ==> r == s
  {
    if s.offs != UNFINALIZED then s
    else
      var p := Place(s.buffer);
      PlacedFrame(s.buffer);
      PlacePayload(s.buffer);
      Serializer(p.buffer, p.start)
  }

  /** Placing the prefix leaves the payload as it was. */
  lemma PlacePayload(buffer: Bytes)
    requires HasHeadroom(buffer)
    ensures Place(buffer).buffer[8..] == buffer[8..]
  {
    var r := Place(buffer);
    PlacedFrame(buffer);
    assert r.buffer[8..] == r.buffer[r.start..][8 - r.start..];
  }

  /** `data()`: finalises, then points at the start of the frame. */
  function Data(s: Serializer): (r: (Serializer, nat))
    requires ValidSerializer(s)
    ensures r.0 == Finalize(s) && r.1 <= 7
    ensures s.offs == UNFINALIZED ==>
              r.1 + |LengthPrefix(|Payload(s)|)| == 8 && r.0.buffer[r.1..] == LengthPrefix(|Payload(s)|) + Payload(s)
  {
    var f := Finalize(s);
    (f, f.offs)
  }

  /** `size()`: finalises, then gives the length of the frame. */
  function Size(s: Serializer): (r: (Serializer, nat))
    requires ValidSerializer(s)
    ensures r.0 == Finalize(s) && r.1 >= 1
    ensures s.offs == UNFINALIZED ==> r.1 == |LengthPrefix(|Payload(s)|)| + |Payload(s)|
  {
    var f := Finalize(s);
    (f, |f.buffer| - f.offs)
  }

  /**
   * `data()` then `size()` span exactly the prefix of the payload length
   * followed by the payload, and asking again gives the same state and
   * the same range: `finalize` runs once.
   */
  lemma DataSizeFrame(s: Serializer)
    requires ValidSerializer(s) && s.offs == UNFINALIZED
    ensures var (s1, start) := Data(s);
            var (s2, size) := Size(s1);
            s2 == s1 && start + size == |s1.buffer| &&
            s1.buffer[start..start + size] == LengthPrefix(|s.buffer| - 8) + Payload(s) &&
            Data(s2) == (s1, start) && Size(s2) == (s1, size)
  {
    var f := Finalize(s);
    assert f.offs != UNFINALIZED && Finalize(f) == f;
    assert Data(s) == (f, f.offs) && Size(f) == (f, |f.buffer| - f.offs);
    assert f.buffer[f.offs..f.offs + (|f.buffer| - f.offs)] == f.buffer[f.offs..];
  }

  /**
   * A byte added after `data()` is not announced: the guard keeps the old
   * prefix, which now states a length one short of the payload.
   */
  lemma AddAfterFinalize(s: Serializer, b: Byte)
    requires ValidSerializer(s) && s.offs == UNFINALIZED
    requires HasHeadroom(AddByte(Finalize(s), b).buffer)
    ensures var f := Finalize(AddByte(Finalize(s), b));
            Parse(f.buffer[f.offs..]) == Some((|Payload(f)| - 1, Payload(f)))
  {
    var f0 := Finalize(s);
    var f := AddByte(f0, b);
    assert f.buffer[f.offs..] == f0.buffer[f0.offs..] + [b];
    assert f0.buffer[f0.offs..] + [b] == LengthPrefix(|s.buffer| - 8) + (Payload(s) + [b]);
    ParseLengthPrefix(|s.buffer| - 8, Payload(s) + [b]);
  }

  // ---------------------------------------------------------------------
  // Deserializer

  /** The received bytes and the read window `[offs, size)` into them. */
  datatype Deserializer = Deserializer(buffer: Bytes, offs: nat, size: nat)

  /** The window lies inside the buffer, so reads stay inside the vector. */
  predicate Bounded(d: Deserializer) {
    d.offs <= d.size <= |d.buffer|
  }

  /** The bytes a read can still consume. */
  function Window(d: Deserializer): Bytes
    requires Bounded(d)
  {
    d.buffer[d.offs..d.size]
  }

  /** The default constructor: no bytes and an empty window. */
  function EmptyDeserializer(): (d: Deserializer)
    ensures Bounded(d) && Window(d) == []
  {
    Deserializer([], 0, 0)
  }

  /** A call on a deserializer: its result and the deserializer after it, or the exception it threw. */
  datatype Outcome<+T> = Done(value: T, next: Deserializer) | Threw(error: Error)

  /** `getByte`: the next byte of the window, or "Exceeded packet size" at its end. */
  function GetByte(d: Deserializer): (r: Outcome<Byte>)
    requires Bounded(d)
    ensures r.Threw? <==> Window(d) == []
    ensures r.Threw? ==> r.error == ExceededPacketSize
    ensures r.Done? ==>
              Bounded(r.next) && r.value == Window(d)[0] && Window(r.next) == Window(d)[1..] &&
              r.next.buffer == d.buffer && r.next.offs == d.offs + 1 && r.next.size == d.size
  {
    if d.offs == d.size then Threw(ExceededPacketSize)
    else Done(d.buffer[d.offs], d.(offs := d.offs + 1))
  }

  /** `getByteRange`: the next `n` bytes of the window, or "Exceeded packet size" if fewer remain. */
  function GetByteRange(d: Deserializer, n: nat): (r: Outcome<Bytes>)
    requires Bounded(d)
    ensures r.Threw? <==> n > |Window(d)|
    ensures r.Threw? ==> r.error == ExceededPacketSize
    ensures r.Done? ==>
              Bounded(r.next) && r.value == Window(d)[..n] && Window(r.next) == Window(d)[n..] &&
              r.next.buffer == d.buffer && r.next.offs == d.offs + n && r.next.size == d.size
  {
    if d.offs + n > d.size then Threw(ExceededPacketSize)
    else
      assert Window(d)[..n] == d.buffer[d.offs..d.offs + n];
      Done(d.buffer[d.offs..d.offs + n], d.(offs := d.offs + n))
  }

  /** `n` calls of `getByte` in a row, the bytes in the order they were returned. */
  function GetBytes(d: Deserializer, n: nat): (r: Outcome<Bytes>)
    requires Bounded(d)
    ensures r.Done? ==> Bounded(r.next) && |r.value| == n
    decreases n
  {
    if n == 0 then Done([], d)
    else match GetByte(d)
      case Threw(e) => Threw(e)
      case Done(b, d') =>
        match GetBytes(d', n - 1)
        case Threw(e) => Threw(e)
        case Done(bs, d'') => Done([b] + bs, d'')
  }

  /** Byte-by-byte reads yield the window in order and agree with one `getByteRange` of the same length. */
  lemma {:induction false} GetBytesIsRange(d: Deserializer, n: nat)
    requires Bounded(d)
    ensures GetBytes(d, n) == GetByteRange(d, n)
    decreases n
  {
    if n > 0 && GetByte(d).Done? {
      var d' := GetByte(d).next;
      GetBytesIsRange(d', n - 1);
      if n - 1 <= |Window(d')| {
        assert [Window(d)[0]] + Window(d')[..n - 1] == Window(d)[..n];
      }
    }
  }

  /** `AddBytes`: appends the received bytes, leaving the window where it was. */
  function AddBytes(d: Deserializer, bytes: Bytes): (r: Deserializer)
    ensures |r.buffer| == |d.buffer| + |bytes|
    ensures r.buffer[..|d.buffer|] == d.buffer && r.buffer[|d.buffer|..] == bytes
    ensures Bounded(d) ==> Bounded(r) && Window(r) == Window(d)
  {
    d.(buffer := d.buffer + bytes)
  }

  /**
   * `RemovePacket`: moves the bytes after the first `size` to the front
   * and shrinks the buffer to them. `offs` and `size` are left as they
   * were; the next `HasFullPacket` resets them.
   */
  function RemovePacket(d: Deserializer): (r: Deserializer)
    requires d.size <= |d.buffer|
    ensures |r.buffer| == |d.buffer| - d.size
    ensures forall i :: 0 <= i < |r.buffer| ==> r.buffer[i] == d.buffer[d.size + i]
    ensures r.offs == d.offs && r.size == d.size
  {
    d.(buffer := d.buffer[d.size..])
  }

  /** Bytes received after a packet survive its removal, in order, behind what was already buffered. */
  lemma RemoveAfterAdd(d: Deserializer, bytes: Bytes)
    requires d.size <= |d.buffer|
    ensures RemovePacket(AddBytes(d, bytes)).buffer == RemovePacket(d).buffer + bytes
  {
  }

  /** The result of `HasFullPacket`: the answer, and the deserializer with `offs` and `size` set by the scan. */
  datatype Scanned = Scanned(full: bool, d: Deserializer)

  /**
   * `HasFullPacket` as written. The scan leaves `offs` just past the prefix
   * and `size` holding the announced length; `size += offs` makes `size`
   * the end of the frame, and the test then adds `offs` a second time:
   * `buffer.size() + offs >= size` holds iff the buffer is at least as long
   * as the payload alone, not the frame. When the bytes run out inside the
   * prefix the answer is false, `offs` is the buffer length and `size` the
   * groups scanned so far.
   */
  function HasFullPacket(d: Deserializer): (r: Scanned)
    ensures r.d.buffer == d.buffer
    ensures Parse(d.buffer).None? ==> !r.full && r.d.offs == |d.buffer|
    ensures Parse(d.buffer).Some? ==>
              var (len, rest) := Parse(d.buffer).value;
              r.d.offs == |d.buffer| - |rest| && r.d.size == r.d.offs + len &&
              (r.full <==> len <= |d.buffer|)
  {
    match Parse(d.buffer)
    case None => Scanned(false, Deserializer(d.buffer, |d.buffer|, Accumulate(d.buffer, 0)))
    case Some((len, rest)) =>
      var offs := |d.buffer| - |rest|;
      var size := len + offs;
      Scanned(|d.buffer| + offs >= size, Deserializer(d.buffer, offs, size))
  }

  /**
   * `HasFullPacket` as evidently intended: the frame is complete when the
   * buffer holds the prefix and the whole payload. A full packet leaves a
   * window that is exactly the payload.
   */
  function HasFullPacketFixed(d: Deserializer): (r: Scanned)
    ensures r.d.buffer == d.buffer
    ensures Parse(d.buffer).None? ==> !r.full
    ensures Parse(d.buffer).Some? ==>
              var (len, rest) := Parse(d.buffer).value;
              r.d.offs == |d.buffer| - |rest| && r.d.size == r.d.offs + len &&
              (r.full <==> len <= |rest|)
    ensures r.full ==> Bounded(r.d) && Window(r.d) == Parse(d.buffer).value.1[..Parse(d.buffer).value.0]
  {
    var r := HasFullPacket(d);
    Scanned(r.d.size <= |d.buffer| && Parse(d.buffer).Some?, r.d)
  }

  /** The scan looks only at the buffer, not at the window it replaces. */
  lemma ScanReadsBuffer(d: Deserializer, e: Deserializer)
    requires d.buffer == e.buffer
    ensures HasFullPacket(d) == HasFullPacket(e)
  {
  }

  /**
   * The two tests differ only where the as-written one lets a frame end
   * past the buffer: the intended test accepts exactly when the as-written
   * one does and the frame ends inside the buffer, and both scan alike.
   */
  lemma FixedIsWrittenInBounds(d: Deserializer)
    ensures HasFullPacketFixed(d).d == HasFullPacket(d).d
    ensures HasFullPacketFixed(d).full <==> HasFullPacket(d).full && HasFullPacket(d).d.size <= |d.buffer|
  {
  }

  /** Both versions answer false while the prefix is still incomplete: every byte has the continuation bit. */
  lemma IncompletePrefix(d: Deserializer)
    requires forall i :: 0 <= i < |d.buffer| ==> d.buffer[i] >= 0x80
    ensures !HasFullPacket(d).full && !HasFullPacketFixed(d).full
  {
    ParseIncomplete(d.buffer, 0);
  }

  /**
   * A buffer holding a frame, possibly followed by the start of the next:
   * both versions accept it, leaving `offs` at the payload, `size` at the
   * end of the frame, and the window equal to the payload.
   */
  lemma FramedPacket(payload: Bytes, more: Bytes, d: Deserializer)
    requires d.buffer == LengthPrefix(|payload|) + payload + more
    ensures HasFullPacket(d).full && HasFullPacketFixed(d) == HasFullPacket(d)
    ensures var r := HasFullPacket(d).d;
            r.offs == |LengthPrefix(|payload|)| && r.size == r.offs + |payload| &&
            Bounded(r) && Window(r) == payload
  {
    var p := LengthPrefix(|payload|);
    var rest := payload + more;
    assert d.buffer == p + rest;
    ParseLengthPrefix(|payload|, rest);
    assert Parse(d.buffer) == Some((|payload|, rest));
    var r := HasFullPacket(d).d;
    assert r.offs == |p| && r.size == |p| + |payload|;
    assert d.buffer[|p|..|p| + |payload|] == rest[..|payload|] == payload;
  }

  /**
   * The packet a client's loop handles and then removes: removing it
   * leaves exactly the bytes after the frame.
   */
  lemma RemoveFramedPacket(payload: Bytes, more: Bytes, d: Deserializer)
    requires d.buffer == LengthPrefix(|payload|) + payload + more
    ensures HasFullPacketFixed(d).full && RemovePacket(HasFullPacketFixed(d).d).buffer == more
  {
    FramedPacket(payload, more, d);
    var r := HasFullPacket(d).d;
    assert d.buffer[r.size..] == more;
  }

  /**
   * The as-written test accepts a buffer that holds only the prefix: `[1]`
   * announces a one-byte payload that has not arrived, yet the answer is
   * true, with a window reaching past the end of the buffer. The intended
   * test rejects it.
   */
  lemma HasFullPacketAcceptsBarePrefix()
    ensures var d := Deserializer([0x01], 0, 0);
            HasFullPacket(d).full && !Bounded(HasFullPacket(d).d) && !HasFullPacketFixed(d).full
  {
    var s: Bytes := [0x01];
    assert Parse(s) == Some((1, s[1..]));
  }

  /**
   * `Deserializer(const Serializer&)`: copies the frame `data()` exposes
   * and scans its prefix. `data()` finalises the argument in place (its
   * buffer and `offs` are `mutable`), so the serializer afterwards is part
   * of the result.
   */
  function FromSerializer(s: Serializer): (r: (Serializer, Deserializer))
    requires ValidSerializer(s)
    ensures r.0 == Finalize(s)
    ensures r.1.buffer == r.0.buffer[r.0.offs..]
  {
    var (f, start) := Data(s);
    var (_, size) := Size(f);
    (f, HasFullPacket(Deserializer(f.buffer[start..start + size], 0, 0)).d)
  }

  /** A deserializer built from a serializer reads exactly the payload that was written. */
  lemma FromSerializerReadsPayload(s: Serializer)
    requires ValidSerializer(s) && s.offs == UNFINALIZED
    ensures Bounded(FromSerializer(s).1) && Window(FromSerializer(s).1) == Payload(s)
  {
    var f := Finalize(s);
    assert f.buffer[f.offs..f.offs + (|f.buffer| - f.offs)] == LengthPrefix(|Payload(s)|) + Payload(s) + [];
    FramedPacket(Payload(s), [], Deserializer(f.buffer[f.offs..], 0, 0));
  }
}
