/**
 * Shared vocabulary of the model: bytes, the machine-integer ranges the
 * wire format relies on, the error conditions the source throws, and the
 * result of reading from a deserializer.
 */
module Base {

  /** One octet on the wire. */
  type Byte = x: int | 0 <= x < 0x100

  /** A byte string: wire payloads, and `std::string` values (a `char` is one byte). */
  type Bytes = seq<Byte>

  const TWO_TO_THE_64: int := 0x1_0000_0000_0000_0000
  const LONG_MIN: int := -0x8000_0000_0000_0000
  const LONG_MAX: int := 0x7FFF_FFFF_FFFF_FFFF
  const INT_MIN: int := -0x8000_0000
  const INT_MAX: int := 0x7FFF_FFFF

  predicate IsU64(u: int) { 0 <= u < TWO_TO_THE_64 }
  predicate IsLong(v: int) { LONG_MIN <= v <= LONG_MAX }
  predicate IsInt(v: int) { INT_MIN <= v <= INT_MAX }

  /** The exceptions the modelled code throws, named after their messages. */
  datatype Error =
    | ExceededPacketSize    // "Exceeded packet size": a read ran past the end of the packet
    | BufferUnderrun        // "buffer underrun": a string longer than the bytes left
    | PacketExceedsBuffer   // "Packet exceeds buffer size"
    | PacketTooLarge        // "Packet too large for connection"
    | ConnectionLost        // "Connection Lost": a pending call drained on disconnect
    | RemoteDisconnected    // "Remote end disconnected prematurely"
    | NotImplemented        // "Connection does not implement proxy, or connection dropped early"

  datatype Option<+T> = None | Some(value: T)

  /**
   * The outcome of reading one value from a deserializer whose unread bytes
   * are the input sequence. `rest` is what is left unread afterwards, also
   * when the read threw: the source advances its cursor before it throws.
   */
  datatype Read<+T> = Ok(value: T, rest: Bytes) | Err(error: Error, rest: Bytes)

  /** `rest` is what remains of `s` after a prefix of it has been consumed. */
  predicate IsSuffix(rest: Bytes, s: Bytes) {
    |rest| <= |s| && s[|s| - |rest|..] == rest
  }

  /** Index of the first element equal to `key`: the routing rule of the host and the client. */
  function FirstIndexOf(names: seq<Bytes>, key: Bytes): (r: Option<nat>)
    ensures r.Some? ==> r.value < |names| && names[r.value] == key
    ensures r.Some? ==> forall j :: 0 <= j < r.value ==> names[j] != key
    ensures r.None? <==> key !in names
  {
    if |names| == 0 then None
    else if names[0] == key then Some(0)
    else match FirstIndexOf(names[1..], key)
      case None => None
      case Some(i) => Some(i + 1)
  }

  /** The indices `0 .. n-1` in order. */
  function Range(n: nat): (r: seq<nat>)
    ensures |r| == n && forall i | 0 <= i < n :: r[i] == i
  {
    seq(n, i => i)
  }

  /** Each index below `n` occurs in `Range(n)` exactly once, and nothing else occurs in it. */
  lemma {:induction false} RangeOnce(n: nat)
    ensures forall i | 0 <= i < n :: multiset(Range(n))[i] == 1
    ensures forall x | x in Range(n) :: x < n
  {
    if n > 0 {
      RangeOnce(n - 1);
      assert Range(n) == Range(n - 1) + [n - 1];
      assert n - 1 !in Range(n - 1);
    }
  }

  /** Concatenation is associative. */
  lemma Assoc<T>(a: seq<T>, b: seq<T>, c: seq<T>)
    ensures a + b + c == a + (b + c)
  {
  }

  /** A two-element head splits off its first element. */
  lemma SplitPair<T>(a: T, b: T, xs: seq<T>)
    ensures [a, b] + xs == [a] + ([b] + xs)
  {
  }

  /** A three-element head splits off its first element. */
  lemma SplitHead<T>(a: T, b: T, c: T, xs: seq<T>)
    ensures [a, b, c] + xs == [a] + ([b, c] + xs)
  {
  }

  /** The chunks of a byte stream joined in order. */
  function Flatten(chunks: seq<Bytes>): (r: Bytes)
    ensures |chunks| == 0 ==> r == []
    decreases |chunks|
  {
    if |chunks| == 0 then [] else chunks[0] + Flatten(chunks[1..])
  }

  /** Moving a chunk from the front of the unconsumed bytes to the end of the consumed chunks keeps the whole. */
  lemma ConsumeChunk(whole: Bytes, chunks: seq<Bytes>, c: Bytes, rest: Bytes)
    requires whole == Flatten(chunks) + (c + rest)
    ensures whole == Flatten(chunks + [c]) + rest
  {
    FlattenAppend(chunks, c);
    assert Flatten(chunks) + (c + rest) == (Flatten(chunks) + c) + rest;
  }

  /** Appending a chunk appends its bytes. */
  lemma {:induction false} FlattenAppend(chunks: seq<Bytes>, c: Bytes)
    ensures Flatten(chunks + [c]) == Flatten(chunks) + c
    decreases |chunks|
  {
    if |chunks| == 0 {
      assert chunks + [c] == [c];
      assert Flatten([c]) == c + Flatten([]);
    } else {
      assert (chunks + [c])[1..] == chunks[1..] + [c];
      FlattenAppend(chunks[1..], c);
    }
  }
}
