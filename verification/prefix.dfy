/**
 * The frame length prefix shared by the three serializer headers.
 *
 * A serializer reserves 8 bytes of headroom in front of the payload. When
 * the frame is finalised (`finalize` in include/RaPsCallion/Serializer.h,
 * `data()` in the other two headers) the payload length is written into that
 * headroom backward from index 7: base 128, most significant group first
 * (the opposite order to a value varint), every prefix byte but the one at
 * index 7 carrying the continuation bit 0x80. The frame is the prefix
 * followed by the payload.
 *
 * A receiver (`HasFullPacket`, `PacketSize`) scans from the front of the
 * prefix, shifting each 7-bit group into an accumulator, up to the first
 * byte without the continuation bit.
 */
module Prefix {
  import opened Base
  import opened Codec

  /**
   * The bytes the finalize loop writes for `len`, as they end up in the
   * buffer (lowest index first); `mask` is the flag the loop puts on the
   * group it writes first, the one that ends up last.
   */
  function Groups(len: nat, mask: Byte): (r: Bytes)
    requires mask == 0 || mask == 0x80
    ensures |r| >= 1 && r[|r| - 1] == len % 0x80 + mask
    ensures |r| == 1 <==> len <= 0x7F
    decreases len
  {
    if len <= 0x7F then [len + mask] else Groups(len / 0x80, 0x80) + [len % 0x80 + mask]
  }

  /** Every group but the one written first carries the continuation flag. */
  lemma {:induction false} GroupsFlagged(len: nat, mask: Byte)
    requires mask == 0 || mask == 0x80
    ensures forall i :: 0 <= i < |Groups(len, mask)| - 1 ==> Groups(len, mask)[i] >= 0x80
    decreases len
  {
    if len > 0x7F {
      var g := Groups(len / 0x80, 0x80);
      GroupsFlagged(len / 0x80, 0x80);
      assert Groups(len, mask) == g + [len % 0x80 + mask];
      assert g[|g| - 1] >= 0x80;
      assert forall i :: 0 <= i < |g| ==> Groups(len, mask)[i] == g[i];
    }
  }

  /** The length prefix of a payload of `len` bytes. */
  function LengthPrefix(len: nat): (r: Bytes)
    ensures |r| >= 1 && r[|r| - 1] < 0x80
  {
    Groups(len, 0)
  }

  /** A length below 128^k takes at most k prefix bytes; the 8 bytes of headroom hold any length below 2^56. */
  lemma {:induction false} GroupsLength(len: nat, mask: Byte, k: nat)
    requires mask == 0 || mask == 0x80
    requires 1 <= k && len < Pow128(k)
    ensures |Groups(len, mask)| <= k
    decreases k
  {
    if len > 0x7F {
      assert Pow128(1) == 0x80;
      GroupsLength(len / 0x80, 0x80, k - 1);
    }
  }

  lemma {:induction false} PrefixFitsHeadroom(len: nat)
    requires len < 0x100_0000_0000_0000
    ensures |LengthPrefix(len)| <= 8
  {
    assert Pow128(8) == 0x100_0000_0000_0000;
    GroupsLength(len, 0, 8);
  }

  // ---------------------------------------------------------------------
  // Parsing the prefix

  /**
   * The receiver's scan, `acc` being the length accumulated so far: each
   * byte contributes its low seven bits, and the first byte without the
   * continuation bit ends the prefix. `None` when the bytes run out first.
   * On success, the length and the bytes after the prefix.
   */
  function ParseFrom(s: Bytes, acc: nat): (r: Option<(nat, Bytes)>)
    ensures r.Some? ==> |r.value.1| < |s| && r.value.1 == s[|s| - |r.value.1|..]
    decreases |s|
  {
    if |s| == 0 then None
    else if s[0] < 0x80 then Some((acc * 0x80 + s[0], s[1..]))
    else ParseFrom(s[1..], acc * 0x80 + (s[0] - 0x80))
  }

  /** The scan from the start of a prefix. */
  function Parse(s: Bytes): Option<(nat, Bytes)> {
    ParseFrom(s, 0)
  }

  /** The scan reads no further than the end of the prefix: cutting the bytes anywhere after it changes only the rest. */
  lemma {:induction false} ParseTruncate(s: Bytes, acc: nat, k: nat)
    requires ParseFrom(s, acc).Some? && |s| - |ParseFrom(s, acc).value.1| <= k <= |s|
    ensures var (len, rest) := ParseFrom(s, acc).value;
            ParseFrom(s[..k], acc) == Some((len, s[|s| - |rest|..k]))
    decreases |s|
  {
    if s[0] >= 0x80 {
      assert s[..k][1..] == s[1..][..k - 1];
      ParseTruncate(s[1..], acc * 0x80 + (s[0] - 0x80), k - 1);
    } else {
      assert s[..k][1..] == s[1..k];
    }
  }

  /** The scan finds no end exactly when every byte carries the continuation bit. */
  lemma {:induction false} ParseIncomplete(s: Bytes, acc: nat)
    ensures ParseFrom(s, acc).None? <==> forall i :: 0 <= i < |s| ==> s[i] >= 0x80
    decreases |s|
  {
    if |s| > 0 && s[0] >= 0x80 {
      ParseIncomplete(s[1..], acc * 0x80 + (s[0] - 0x80));
      assert forall i :: 1 <= i < |s| ==> s[i] == s[1..][i - 1];
    }
  }

  /** The scan stops where a value varint's read loop stops: after the first byte without the continuation bit. */
  lemma {:induction false} ParseStopsLikeVarint(s: Bytes, acc: nat)
    ensures ParseFrom(s, acc).Some? <==> ReadGroups(s).Ok?
    ensures ParseFrom(s, acc).Some? ==> ParseFrom(s, acc).value.1 == ReadGroups(s).rest
    decreases |s|
  {
    if |s| > 0 && s[0] >= 0x80 {
      ParseStopsLikeVarint(s[1..], acc * 0x80 + (s[0] - 0x80));
    }
  }

  /** The seven-bit groups of `s`, most significant first, appended to `acc`. */
  function Accumulate(s: Bytes, acc: nat): (r: nat)
    ensures r >= acc
    decreases |s|
  {
    if |s| == 0 then acc else Accumulate(s[1..], acc * 0x80 + s[0] % 0x80)
  }

  /** Continuation bytes only feed the accumulator. */
  lemma {:induction false} ParseSkips(cont: Bytes, tail: Bytes, acc: nat)
    requires forall i :: 0 <= i < |cont| ==> cont[i] >= 0x80
    ensures ParseFrom(cont + tail, acc) == ParseFrom(tail, Accumulate(cont, acc))
    decreases |cont|
  {
    if |cont| > 0 {
      assert (cont + tail)[0] == cont[0] && (cont + tail)[1..] == cont[1..] + tail;
      var acc' := acc * 0x80 + (cont[0] - 0x80);
      assert ParseFrom(cont + tail, acc) == ParseFrom(cont[1..] + tail, acc');
      assert Accumulate(cont, acc) == Accumulate(cont[1..], acc');
      ParseSkips(cont[1..], tail, acc');
    } else {
      assert cont + tail == tail;
    }
  }

  lemma {:induction false} AccumulateLast(s: Bytes, b: Byte, acc: nat)
    ensures Accumulate(s + [b], acc) == Accumulate(s, acc) * 0x80 + b % 0x80
    decreases |s|
  {
    if |s| > 0 {
      assert (s + [b])[1..] == s[1..] + [b];
      AccumulateLast(s[1..], b, acc * 0x80 + s[0] % 0x80);
    }
  }

  /** The groups, read back most significant first, give the length whatever the flags. */
  lemma {:induction false} AccumulateGroups(len: nat, mask: Byte)
    requires mask == 0 || mask == 0x80
    ensures Accumulate(Groups(len, mask), 0) == len
    decreases len
  {
    if len > 0x7F {
      AccumulateLast(Groups(len / 0x80, 0x80), len % 0x80 + mask, 0);
      AccumulateGroups(len / 0x80, 0x80);
    }
  }

  /** The scan inverts the prefix: it yields the length and stops exactly at the payload. */
  lemma {:induction false} ParseLengthPrefix(len: nat, rest: Bytes)
    ensures Parse(LengthPrefix(len) + rest) == Some((len, rest))
  {
    var p := LengthPrefix(len);
    var cont := p[..|p| - 1];
    var last := p[|p| - 1];
    assert p == cont + [last];
    assert p + rest == cont + ([last] + rest);
    GroupsFlagged(len, 0);
    assert forall i :: 0 <= i < |cont| ==> cont[i] == p[i];
    ParseSkips(cont, [last] + rest, 0);
    if len > 0x7F {
      assert cont == Groups(len / 0x80, 0x80);
      AccumulateGroups(len / 0x80, 0x80);
    }
    assert ([last] + rest)[1..] == rest;
  }

  // ---------------------------------------------------------------------
  // Writing the prefix into the headroom

  /** A serializer buffer: 8 bytes of headroom, then a payload short enough for the prefix to fit. */
  predicate HasHeadroom(buffer: Bytes) {
    |buffer| >= 8 && |buffer| - 8 < 0x100_0000_0000_0000
  }

  /** A buffer after the prefix has been written, and the index the prefix starts at. */
  datatype Placement = Placement(buffer: Bytes, start: nat)

  /**
   * The prefix for the payload `buffer[8..]` written over the end of the
   * headroom; the headroom before it and the payload are untouched.
   */
  function Place(buffer: Bytes): (r: Placement)
    requires HasHeadroom(buffer)
    ensures r.start <= 7 && |r.buffer| == |buffer|
    ensures r.start + |LengthPrefix(|buffer| - 8)| == 8
  {
    var p := LengthPrefix(|buffer| - 8);
    PrefixFitsHeadroom(|buffer| - 8);
    var start := 8 - |p|;
    Placement(buffer[..start] + p + buffer[8..], start)
  }

  /** The frame a placement exposes: the prefix, then the payload. */
  function FrameOf(p: Placement): (r: Bytes)
    requires p.start <= |p.buffer|
    ensures |r| == |p.buffer| - p.start
  {
    p.buffer[p.start..]
  }

  /** The exposed frame is the length prefix followed by the payload, and the scan reads the payload length back. */
  lemma {:induction false} PlacedFrame(buffer: Bytes)
    requires HasHeadroom(buffer)
    ensures FrameOf(Place(buffer)) == LengthPrefix(|buffer| - 8) + buffer[8..]
    ensures Parse(FrameOf(Place(buffer))) == Some((|buffer| - 8, buffer[8..]))
  {
    var r := Place(buffer);
    assert r.buffer[r.start..] == r.buffer[r.start..8] + r.buffer[8..];
    ParseLengthPrefix(|buffer| - 8, buffer[8..]);
  }

  /** Writing the prefix again over a placed buffer changes nothing: the payload, and so the prefix, are the same. */
  lemma {:induction false} PlaceIdempotent(buffer: Bytes)
    requires HasHeadroom(buffer)
    ensures HasHeadroom(Place(buffer).buffer) && Place(Place(buffer).buffer) == Place(buffer)
  {
    var r := Place(buffer);
    var r2 := Place(r.buffer);
    assert r2.start == r.start;
    assert r2.buffer == r.buffer[..r.start] + r.buffer[r.start..8] + r.buffer[8..];
    assert r.buffer == r.buffer[..r.start] + r.buffer[r.start..8] + r.buffer[8..];
  }

  /**
   * The finalize loop: starting at index 7 with no flag, write the low
   * group with the current flag and move one byte down while more than
   * seven bits remain, then write what is left. `mask | (len & 0x7F)` is
   * `mask + len % 128` since the mask is 0 or 0x80.
   */
  method WritePrefix(buffer: Bytes) returns (r: Bytes, offs: nat)
    requires HasHeadroom(buffer)
    ensures Placement(r, offs) == Place(buffer)
  {
    var len: nat := |buffer| - 8;
    var total: nat := len;
    var mask: Byte := 0;
    r := buffer;
    offs := 7;
    ghost var written: Bytes := [];
    PrefixFitsHeadroom(total);
    assert r == buffer[..offs + 1] + written + buffer[8..];
    while len > 0x7F
      invariant mask == 0 || mask == 0x80
      invariant offs <= 7 && |written| == 7 - offs
      invariant r == buffer[..offs + 1] + written + buffer[8..]
      invariant LengthPrefix(total) == Groups(len, mask) + written
      decreases len
    {
      var low: Byte := mask + len % 0x80;
      assert Groups(len, mask) == Groups(len / 0x80, 0x80) + [low];
      assert LengthPrefix(total) == Groups(len / 0x80, 0x80) + ([low] + written);
      assert offs >= 1;
      WriteByte(buffer, offs, written, low);
      r := r[offs := low];
      written := [low] + written;
      offs := offs - 1;
      len := len / 0x80;
      mask := 0x80;
    }
    WriteByte(buffer, offs, written, len + mask);
    r := r[offs := len + mask];
    written := [len + mask] + written;
    assert written == LengthPrefix(total);
    assert Place(buffer) == Placement(buffer[..offs] + written + buffer[8..], offs);
  }

  /** Writing byte `x` at `offs` grows the written part of the headroom by one byte at its front. */
  lemma {:induction false} WriteByte(buffer: Bytes, offs: nat, written: Bytes, x: Byte)
    requires |buffer| >= 8 && offs <= 7 && |written| == 7 - offs
    ensures (buffer[..offs + 1] + written + buffer[8..])[offs := x] == buffer[..offs] + ([x] + written) + buffer[8..]
  {
    var r := buffer[..offs + 1] + written + buffer[8..];
    var r' := buffer[..offs] + ([x] + written) + buffer[8..];
    assert |r[offs := x]| == |r'|;
    forall i | 0 <= i < |r'|
      ensures r[offs := x][i] == r'[i]
    {
      if i < offs {
        assert r[i] == buffer[i];
      } else if i > 8 {
        assert r[i] == buffer[i];
      }
    }
  }

  /**
   * `PacketSize`: the payload length announced by the prefix that starts
   * at `offs`, or -1 when the bytes run out before the prefix ends.
   */
  method PacketSize(vec: Bytes, offs: nat) returns (len: int)
    ensures offs >= |vec| ==> len == -1
    ensures offs < |vec| ==> len == (match Parse(vec[offs..]) case None => -1 case Some(p) => p.0)
  {
    len := 0;
    var i := offs;
    while i < |vec|
      invariant offs <= i
      invariant offs < |vec| ==> i <= |vec| && len >= 0 && Parse(vec[offs..]) == ParseFrom(vec[i..], len)
      decreases |vec| - i
    {
      assert vec[i..][1..] == vec[i + 1..];
      if vec[i] < 0x80 {
        return len * 0x80 + vec[i];
      }
      len := len * 0x80 + (vec[i] - 0x80);
      i := i + 1;
    }
    return -1;
  }
}
