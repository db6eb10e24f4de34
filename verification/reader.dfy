/**
 * The pointer-based framing of include/RaPsCallion/serializer.h (namespaces
 * `Serializer_ADL` and `Deserializer_ADL`) and of the older
 * include/serializer.h, which is the same code without the buffer-end check.
 *
 * Their `data()` rewrites the prefix on every call and returns the frame's
 * start and length. Their deserializers read through a `[ptr, end)` pair
 * of pointers into a received buffer, which is the window `[offs, size)`
 * of `Frame.Deserializer` under other names, with the same `getByte`.
 */
module Reader {
  import opened Base
  import opened Codec
  import opened Prefix
  import opened Frame

  /** A finalised buffer, and the start and length of the frame `data()` returns. */
  datatype Exposed = Exposed(buffer: Bytes, start: nat, size: nat)

  /**
   * `data()` of either header: the prefix is written on every call (there
   * is no guard), then the pair (start of the prefix, prefix + payload length).
   */
  function Data(buffer: Bytes): (r: Exposed)
    requires HasHeadroom(buffer)
    ensures r.start <= 7 && r.start + r.size == |r.buffer| == |buffer|
    ensures r.buffer[r.start..] == LengthPrefix(|buffer| - 8) + buffer[8..]
    ensures r.buffer[8..] == buffer[8..]
  {
    var p := Place(buffer);
    PlacedFrame(buffer);
    PlacePayload(buffer);
    Exposed(p.buffer, p.start, |p.buffer| - p.start)
  }

  /** Calling `data()` again without adding bytes gives the same bytes and the same range. */
  lemma {:induction false} DataDeterministic(buffer: Bytes)
    requires HasHeadroom(buffer)
    ensures HasHeadroom(Data(buffer).buffer) && Data(Data(buffer).buffer) == Data(buffer)
  {
    PlaceIdempotent(buffer);
  }

  /** The outcome of a deserializer constructor: the deserializer, or the exception it threw. */
  datatype Opened = Opened(d: Deserializer) | OpenFailed(error: Error)

  /** The prefix starting at `offset` is terminated inside the buffer, so the constructor's skip loop stays in it. */
  predicate PrefixEnds(buffer: Bytes, offset: nat) {
    offset < |buffer| && Parse(buffer[offset..]).Some?
  }

  /**
   * `Deserializer_ADL::Deserializer(buffer, offset)`: `PacketSize` gives the
   * payload length, the pointer skips the prefix, `end` is that many bytes
   * further, and a frame that overruns the buffer is rejected with
   * "Packet exceeds buffer size".
   */
  function Open(buffer: Bytes, offset: nat): (r: Opened)
    requires PrefixEnds(buffer, offset)
    ensures var (len, rest) := Parse(buffer[offset..]).value;
            (r.OpenFailed? <==> len > |rest|) &&
            (r.OpenFailed? ==> r.error == PacketExceedsBuffer) &&
            (r.Opened? ==> Bounded(r.d) && r.d.buffer == buffer && Window(r.d) == rest[..len] &&
                           r.d.offs == |buffer| - |rest| && r.d.size - r.d.offs == len)
  {
    var (len, rest) := Parse(buffer[offset..]).value;
    var ptr := |buffer| - |rest|;
    if ptr + len > |buffer| then OpenFailed(PacketExceedsBuffer)
    else
      assert buffer[ptr..] == rest;
      Opened(Deserializer(buffer, ptr, ptr + len))
  }

  /**
   * The older constructor of include/serializer.h: the same, without the
   * end check. An `end` past the buffer would let `getByte` read outside
   * it, so the caller must pass a complete frame.
   */
  function OpenUnchecked(buffer: Bytes, offset: nat): (r: Deserializer)
    requires PrefixEnds(buffer, offset)
    requires Parse(buffer[offset..]).value.0 <= |Parse(buffer[offset..]).value.1|
    ensures Bounded(r) && r.buffer == buffer
    ensures var (len, rest) := Parse(buffer[offset..]).value;
            Window(r) == rest[..len] && r.offs == |buffer| - |rest|
  {
    Open(buffer, offset).d
  }

  /**
   * The constructor's skip loop, `while (*ptr & 0x80) ptr++; ptr++;`: it
   * stops one past the first byte without the continuation bit, which is
   * where the prefix scan stops.
   */
  method SkipPrefix(buffer: Bytes, offset: nat) returns (ptr: nat)
    requires PrefixEnds(buffer, offset)
    ensures ptr == |buffer| - |Parse(buffer[offset..]).value.1|
  {
    var s := buffer[offset..];
    ParseStopsLikeVarint(s, 0);
    ReadGroupsStops(s);
    ghost var n := |s| - |ReadGroups(s).rest| - 1;
    assert 0 <= n < |s| && s[n] < 0x80;
    assert forall i :: 0 <= i < n ==> s[i] >= 0x80;
    assert |Parse(s).value.1| == |s| - n - 1;
    ptr := offset;
    while buffer[ptr] >= 0x80
      invariant offset <= ptr <= offset + n
      decreases offset + n - ptr
    {
      assert buffer[ptr] == s[ptr - offset];
      ptr := ptr + 1;
    }
    assert buffer[ptr] == s[ptr - offset];
    ptr := ptr + 1;
  }

  /** Opening the frame `data()` exposes, at the start it reports, reads exactly the payload. */
  lemma OpenData(buffer: Bytes)
    requires HasHeadroom(buffer)
    ensures var e := Data(buffer);
            PrefixEnds(e.buffer, e.start) && Open(e.buffer, e.start).Opened? &&
            Window(Open(e.buffer, e.start).d) == buffer[8..]
  {
    var e := Data(buffer);
    ParseLengthPrefix(|buffer| - 8, buffer[8..]);
    assert buffer[8..][..|buffer| - 8] == buffer[8..];
  }

  /**
   * The test's construction at `buffer.size() - data().second`, which is
   * the start `data()` returned: the older constructor's window is the
   * payload, `end - ptr` being its length.
   */
  lemma OpenAtTestOffset(buffer: Bytes)
    requires HasHeadroom(buffer)
    ensures var e := Data(buffer);
            var offset := |e.buffer| - e.size;
            PrefixEnds(e.buffer, offset) &&
            Parse(e.buffer[offset..]).value.0 <= |Parse(e.buffer[offset..]).value.1| &&
            Window(OpenUnchecked(e.buffer, offset)) == buffer[8..] &&
            OpenUnchecked(e.buffer, offset).size - OpenUnchecked(e.buffer, offset).offs == |buffer| - 8
  {
    OpenData(buffer);
  }

  /**
   * `Deserializer_ADL::Deserializer(const Serializer&)`: reads the payload
   * in place, from index 8 to the end of the buffer, without looking at a
   * prefix (`at(7)` cannot throw: a serializer always has its headroom).
   */
  function FromSerializer(buffer: Bytes): (r: Deserializer)
    requires |buffer| >= 8
    ensures Bounded(r) && Window(r) == buffer[8..] && r.buffer == buffer
  {
    Deserializer(buffer, 8, |buffer|)
  }

  /** Reading from a serializer's buffer sees the payload whether or not `data()` has written the prefix. */
  lemma FromSerializerIgnoresPrefix(buffer: Bytes)
    requires HasHeadroom(buffer)
    ensures Window(FromSerializer(Data(buffer).buffer)) == Window(FromSerializer(buffer))
  {
  }
}
