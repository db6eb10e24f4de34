/**
 * The primitive wire codec of src/serializer.cpp: unsigned varints, the
 * sign-magnitude signed integers built on them, length-prefixed strings
 * and booleans.
 *
 * A reader takes the bytes a deserializer still holds (its window from the
 * cursor to the packet end) and returns what is left unread, so "the cursor
 * advances by n" reads as `rest == s[n..]`.
 */
module Codec {
  import opened Base

  /** 128 to the power `k`: the values that fit in `k` varint groups. */
  function Pow128(k: nat): (r: nat)
    ensures r >= 1
  {
    if k == 0 then 1 else 0x80 * Pow128(k - 1)
  }

  // ---------------------------------------------------------------------
  // Unsigned integers: LEB128, least significant group first.

  /** The bytes `serializer<uint64>::write` emits for `u`. */
  function WriteU64(u: nat): (r: Bytes)
    ensures |r| >= 1
    ensures r[|r| - 1] < 0x80
    ensures forall i :: 0 <= i < |r| - 1 ==> r[i] >= 0x80
    ensures |r| == 1 <==> u < 0x80
    decreases u
  {
    if u < 0x80 then [u] else [u % 0x80 + 0x80] + WriteU64(u / 0x80)
  }

  /** A value below 128^k takes at most k bytes. */
  lemma {:induction false} WriteU64Length(u: nat, k: nat)
    requires 1 <= k && u < Pow128(k)
    ensures |WriteU64(u)| <= k
    decreases k
  {
    if u >= 0x80 {
      assert Pow128(1) == 0x80;
      WriteU64Length(u / 0x80, k - 1);
    }
  }

  /**
   * The read loop of `serializer<uint64>::read` before truncation: one
   * `getByte` per group until a byte with a clear high bit, group i worth
   * 128^i. Running off the end of the window is `getByte`'s throw.
   */
  function ReadGroups(s: Bytes): (r: Read<nat>)
    ensures r.Err? ==> r.error == ExceededPacketSize && r.rest == []
    ensures r.Ok? ==> |r.rest| < |s|
    decreases |s|
  {
    if |s| == 0 then Err(ExceededPacketSize, [])
    else if s[0] < 0x80 then Ok(s[0], s[1..])
    else
      match ReadGroups(s[1..])
      case Ok(v, rest) => Ok(s[0] - 0x80 + 0x80 * v, rest)
      case Err(e, rest) => Err(e, rest)
  }

  /** The read loop only consumes: what it leaves is a suffix of its input. */
  lemma {:induction false} ReadGroupsSuffix(s: Bytes)
    ensures IsSuffix(ReadGroups(s).rest, s)
    decreases |s|
  {
    if |s| > 0 && s[0] >= 0x80 {
      ReadGroupsSuffix(s[1..]);
    }
  }

  /**
   * The loop stops at the first byte whose high bit is clear: it throws iff
   * every byte of the window has the bit set, and otherwise consumes exactly
   * the bytes up to and including the first clear one.
   */
  lemma {:induction false} ReadGroupsStops(s: Bytes)
    ensures ReadGroups(s).Err? <==> forall i :: 0 <= i < |s| ==> s[i] >= 0x80
    ensures ReadGroups(s).Ok? ==>
              var n := |s| - |ReadGroups(s).rest| - 1;
              0 <= n < |s| && s[n] < 0x80 && ReadGroups(s).rest == s[n + 1..] &&
              forall i :: 0 <= i < n ==> s[i] >= 0x80
    decreases |s|
  {
    if |s| > 0 && s[0] >= 0x80 {
      var t := s[1..];
      ReadGroupsStops(t);
      assert ReadGroups(s).Err? == ReadGroups(t).Err? && ReadGroups(s).rest == ReadGroups(t).rest;
      if ReadGroups(t).Err? {
        forall i | 1 <= i < |s| ensures s[i] >= 0x80 {
          assert s[i] == t[i - 1];
        }
      } else {
        var m := |t| - |ReadGroups(t).rest| - 1;
        assert s[m + 1] == t[m] && s[m + 2..] == t[m + 1..];
        forall i | 1 <= i < m + 1 ensures s[i] >= 0x80 {
          assert s[i] == t[i - 1];
        }
      }
    }
  }

  /**
   * `serializer<uint64>::read`. Each group is shifted into a 64-bit word,
   * so the value is taken modulo 2^64 (exact for up to ten groups).
   */
  function ReadU64(s: Bytes): (r: Read<nat>)
    ensures r.Ok? ==> IsU64(r.value)
    ensures r.rest == ReadGroups(s).rest
    ensures r.Ok? <==> ReadGroups(s).Ok?
  {
    match ReadGroups(s)
    case Ok(v, rest) => Ok(v % TWO_TO_THE_64, rest)
    case Err(e, rest) => Err(e, rest)
  }

  lemma {:induction false} ReadGroupsWriteU64(u: nat, rest: Bytes)
    ensures ReadGroups(WriteU64(u) + rest) == Ok(u, rest)
    decreases u
  {
    var s := WriteU64(u) + rest;
    if u >= 0x80 {
      assert s[1..] == WriteU64(u / 0x80) + rest;
      ReadGroupsWriteU64(u / 0x80, rest);
    } else {
      assert s[1..] == rest;
    }
  }

  /** Reading back what `write(u)` emitted yields `u` and consumes exactly those bytes. */
  lemma {:induction false} U64RoundTrip(u: nat, rest: Bytes)
    requires IsU64(u)
    ensures ReadU64(WriteU64(u) + rest) == Ok(u, rest)
  {
    ReadGroupsWriteU64(u, rest);
    assert u % TWO_TO_THE_64 == u;
  }

  // ---------------------------------------------------------------------
  // Signed integers: `(|v| << 1) | sign` as an unsigned varint (not zigzag).

  /** The unsigned word `serializer<long>::write` encodes. */
  function SignMagnitude(v: int): (r: nat)
    requires LONG_MIN < v <= LONG_MAX
    ensures IsU64(r)
    ensures r % 2 == 1 <==> v < 0
    ensures r / 2 == (if v < 0 then -v else v)
  {
    (if v < 0 then -v else v) * 2 + (if v < 0 then 1 else 0)
  }

  /**
   * `serializer<long>::write`. LONG_MIN is excluded: `std::abs` of it is
   * undefined. For magnitudes of 2^62 and more the shift is read as the
   * two's-complement shift, whose bits are the same as `SignMagnitude`.
   */
  function WriteLong(v: int): (r: Bytes)
    requires LONG_MIN < v <= LONG_MAX
    ensures ReadLong(r) == Ok(v, [])
  {
    var w := SignMagnitude(v);
    U64RoundTrip(w, []);
    assert WriteU64(w) + [] == WriteU64(w);
    WriteU64(w)
  }

  /** `serializer<long>::read`: the word shifted right by one, negated when its low bit is set. */
  function ReadLong(s: Bytes): (r: Read<int>)
    ensures r.Ok? ==> LONG_MIN < r.value <= LONG_MAX
    ensures r.rest == ReadU64(s).rest
    ensures r.Ok? <==> ReadU64(s).Ok?
  {
    match ReadU64(s)
    case Ok(word, rest) =>
      var magnitude := word / 2;
      Ok(if word % 2 == 1 then -magnitude else magnitude, rest)
    case Err(e, rest) => Err(e, rest)
  }

  lemma {:induction false} LongRoundTrip(v: int, rest: Bytes)
    requires LONG_MIN < v <= LONG_MAX
    ensures ReadLong(WriteLong(v) + rest) == Ok(v, rest)
  {
    U64RoundTrip(SignMagnitude(v), rest);
  }

  /** The conversion of a `long` to a 32-bit `int`: keeps the low 32 bits. */
  function ToInt(x: int): (r: int)
    ensures IsInt(r)
    ensures IsInt(x) ==> r == x
  {
    (x - INT_MIN) % 0x1_0000_0000 + INT_MIN
  }

  /** `serializer<int>::write` widens to `long`. */
  function WriteInt(v: int): (r: Bytes)
    requires IsInt(v)
    ensures ReadInt(r) == Ok(v, [])
  {
    WriteLong(v)
  }

  /** `serializer<int>::read` narrows the `long` it reads. */
  function ReadInt(s: Bytes): (r: Read<int>)
    ensures r.Ok? ==> IsInt(r.value)
    ensures r.rest == ReadU64(s).rest
    ensures r.Ok? <==> ReadU64(s).Ok?
  {
    match ReadLong(s)
    case Ok(v, rest) => Ok(ToInt(v), rest)
    case Err(e, rest) => Err(e, rest)
  }

  lemma {:induction false} IntRoundTrip(v: int, rest: Bytes)
    requires IsInt(v)
    ensures ReadInt(WriteInt(v) + rest) == Ok(v, rest)
  {
    LongRoundTrip(v, rest);
  }

  // ---------------------------------------------------------------------
  // Strings: a varint length, then the raw bytes.

  /** `serializer<std::string>::write`: the length, then the bytes as they are. */
  function WriteString(str: Bytes): (r: Bytes)
    requires |str| < TWO_TO_THE_64
    ensures ReadString(r) == Ok(str, [])
  {
    U64RoundTrip(|str|, str);
    assert str[..|str|] == str;
    WriteU64(|str|) + str
  }

  /**
   * `serializer<std::string>::read`. A declared length beyond the window is
   * "buffer underrun", thrown after the length prefix has been consumed.
   */
  function ReadString(s: Bytes): (r: Read<Bytes>)
    ensures ReadU64(s).Err? ==> r == Err(ReadU64(s).error, ReadU64(s).rest)
    ensures ReadU64(s).Ok? ==> (r.Ok? <==> ReadU64(s).value <= |ReadU64(s).rest|)
    ensures r.Ok? ==> |r.value| == ReadU64(s).value && r.value + r.rest == ReadU64(s).rest
    ensures r.Err? && ReadU64(s).Ok? ==>
              r.error == BufferUnderrun && r.rest == ReadU64(s).rest && ReadU64(s).value > |r.rest|
  {
    match ReadU64(s)
    case Err(e, rest) => Err(e, rest)
    case Ok(length, rest) =>
      if length > |rest| then Err(BufferUnderrun, rest)
      else Ok(rest[..length], rest[length..])
  }

  lemma {:induction false} StringRoundTrip(str: Bytes, rest: Bytes)
    requires |str| < TWO_TO_THE_64
    ensures ReadString(WriteString(str) + rest) == Ok(str, rest)
  {
    var tail := str + rest;
    assert WriteString(str) + rest == WriteU64(|str|) + tail;
    U64RoundTrip(|str|, tail);
    assert tail[..|str|] == str && tail[|str|..] == rest;
  }

  /** A declared length longer than what follows throws, leaving the cursor just past the length. */
  lemma {:induction false} StringUnderrun(length: nat, tail: Bytes)
    requires IsU64(length) && length > |tail|
    ensures ReadString(WriteU64(length) + tail) == Err(BufferUnderrun, tail)
  {
    U64RoundTrip(length, tail);
  }

  // ---------------------------------------------------------------------
  // Booleans: the varint 0 or 1.

  function WriteBool(b: bool): (r: Bytes)
    ensures |r| == 1 && r[0] == (if b then 1 else 0)
  {
    WriteU64(if b then 1 else 0)
  }

  /** Any nonzero word reads as true. */
  function ReadBool(s: Bytes): (r: Read<bool>)
    ensures r.rest == ReadU64(s).rest
    ensures r.Ok? <==> ReadU64(s).Ok?
    ensures r.Ok? ==> (r.value <==> ReadU64(s).value != 0)
  {
    match ReadU64(s)
    case Ok(word, rest) => Ok(word > 0, rest)
    case Err(e, rest) => Err(e, rest)
  }

  lemma {:induction false} BoolRoundTrip(b: bool, rest: Bytes)
    ensures ReadBool(WriteBool(b) + rest) == Ok(b, rest)
  {
    U64RoundTrip(if b then 1 else 0, rest);
  }
}
