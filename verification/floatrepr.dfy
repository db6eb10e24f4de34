/**
 * The integer-only layer under `serializer<double>` in src/serializer.cpp:
 * a `float_repr` (exponent, 64-bit fraction, sign, kind) and its wire form.
 *
 * The exponent word is a 32-bit `int` that carries the kind and the sign as
 * well: NaN, Infinity and Zero take the words -2..2 (the kind code, negated
 * for a negative value), and a Normal value takes twice its exponent, with
 * the sign folded into the low bit, moved out of that range (minus 2 below
 * zero, plus 3 from zero up). A Normal value is followed by its fraction,
 * bit-reversed so that a fraction with few significant (high) bits becomes
 * a small varint.
 */
module FloatRepr {
  import opened Base
  import opened Codec

  /** The `Type` enum; the declaration order gives the codes 0..3. */
  datatype Kind = NaN | Infinity | Zero | Normal

  function KindCode(k: Kind): (r: nat)
    ensures r < 4 && (r == 3 <==> k == Normal)
  {
    match k
    case NaN => 0
    case Infinity => 1
    case Zero => 2
    case Normal => 3
  }

  /** The kind whose code is `c`: the cast `(Type)std::abs(exponent)` of a special word. */
  function KindOfCode(c: nat): (k: Kind)
    requires c < 3
    ensures KindCode(k) == c
  {
    if c == 0 then NaN else if c == 1 then Infinity else Zero
  }

  /** `float_repr`. For the three special kinds `exponent` and `fraction` carry nothing. */
  datatype FloatRepr = FloatRepr(exponent: int, fraction: bv64, isNegative: bool, kind: Kind)

  // ---------------------------------------------------------------------
  // bitreverse

  /** Bit `i` of `b`, bit 0 being the least significant. */
  predicate Bit(b: bv64, i: bv64)
    requires i < 64
  {
    (b >> i) & 1 == 1
  }

  /** `bitreverse`: the six mask-and-swap steps of src/serializer.cpp, from halves down to single bits. */
  function BitReverse(b: bv64): (r: bv64)
    ensures forall i: bv64 :: i < 64 ==> Bit(r, 63 - i) == Bit(b, i)
  {
    var b1 := ((b & 0xFFFF_FFFF_0000_0000) >> 32) | ((b & 0x0000_0000_FFFF_FFFF) << 32);
    var b2 := ((b1 & 0xFFFF_0000_FFFF_0000) >> 16) | ((b1 & 0x0000_FFFF_0000_FFFF) << 16);
    var b3 := ((b2 & 0xFF00_FF00_FF00_FF00) >> 8) | ((b2 & 0x00FF_00FF_00FF_00FF) << 8);
    var b4 := ((b3 & 0xF0F0_F0F0_F0F0_F0F0) >> 4) | ((b3 & 0x0F0F_0F0F_0F0F_0F0F) << 4);
    var b5 := ((b4 & 0xCCCC_CCCC_CCCC_CCCC) >> 2) | ((b4 & 0x3333_3333_3333_3333) << 2);
    ((b5 & 0xAAAA_AAAA_AAAA_AAAA) >> 1) | ((b5 & 0x5555_5555_5555_5555) << 1)
  }

  /** The `uint64` a varint read yields, as a machine word. */
  function ToWord(x: nat): (b: bv64)
    requires IsU64(x)
  {
    x as bv64
  }

  /** Converting a word to a number and back is the identity. */
  lemma WordRoundTrip(b: bv64)
    ensures IsU64(b as nat) && ToWord(b as nat) == b
  {
  }

  /** Reversing twice gives back the word: the reader undoes the writer's reversal. */
  lemma BitReverseInvolution(b: bv64)
    ensures BitReverse(BitReverse(b)) == b
  {
  }

  /** A fraction whose low 11 bits are clear (a double's 53-bit mantissa) reverses to below 2^53. */
  lemma BitReverseShort(f: bv64)
    requires f & 0x7FF == 0
    ensures BitReverse(f) < 1 << 53
  {
  }

  // ---------------------------------------------------------------------
  // The exponent word

  /** C++ `a / 2`: halving rounds toward zero. */
  function Half(a: int): (q: int)
    ensures a >= 0 ==> q == a / 2
    ensures a < 0 ==> q == -((-a) / 2)
  {
    if a >= 0 then a / 2 else -((-a) / 2)
  }

  /** C++ `a % 2`, whose sign follows the dividend: -1, 0 or 1. */
  function HalfRem(a: int): (m: int)
    ensures a == 2 * Half(a) + m
    ensures -1 <= m <= 1
  {
    a - 2 * Half(a)
  }

  /**
   * The exponents the 32-bit arithmetic of the writer can carry: twice the
   * exponent, plus the sign, plus 3 (or minus 2) must stay within an `int`.
   */
  predicate ExponentFits(e: int) {
    -0x4000_0000 + 2 <= e <= 0x4000_0000 - 3
  }

  /** A repr the writer handles without signed overflow. */
  predicate Writable(f: FloatRepr) {
    f.kind == Normal ==> ExponentFits(f.exponent)
  }

  /**
   * The exponent word `serializer<float_repr>::write` emits. The special and
   * the Normal words occupy disjoint ranges, which is how the reader tells
   * them apart, and the word stays within a 32-bit `int`.
   */
  function ExponentWord(f: FloatRepr): (w: int)
    requires Writable(f)
    ensures IsInt(w)
    ensures f.kind == Normal <==> (w < -2 || w >= 3)
    ensures f.kind != Normal ==> w == (if f.isNegative then -(KindCode(f.kind) as int) else KindCode(f.kind))
  {
    if f.kind != Normal then
      var code: int := KindCode(f.kind);
      if f.isNegative then -code else code
    else
      var sign := if f.isNegative then 1 else 0;
      var e := f.exponent * 2 + (if f.exponent < 0 then -sign else sign);
      if e < 0 then e - 2 else e + 3
  }

  // ---------------------------------------------------------------------
  // The codec

  /** `serializer<float_repr>::write`: the exponent word as an `int`, then for a Normal value the reversed fraction. */
  function WriteFloat(f: FloatRepr): (r: Bytes)
    requires Writable(f)
    ensures f.kind != Normal ==> |r| == 1
  {
    WriteInt(ExponentWord(f))
      + (if f.kind == Normal then WriteU64(BitReverse(f.fraction) as nat) else [])
  }

  /**
   * `serializer<float_repr>::read`. A special value leaves `exponent` and
   * `fraction` uninitialised in the source; here they read as 0. A NaN is
   * never read back negative: its word is 0 whatever the sign.
   */
  function ReadFloat(s: Bytes): (r: Read<FloatRepr>)
    ensures r.Ok? && r.value.kind == NaN ==> !r.value.isNegative
    ensures r.Ok? ==> IsInt(r.value.exponent)
    ensures r.Err? ==> ReadInt(s).Err? || ReadInt(s).value < -2 || ReadInt(s).value >= 3
  {
    match ReadInt(s)
    case Err(e, rest) => Err(e, rest)
    case Ok(w, rest) =>
      if -2 <= w < 3 then
        Ok(FloatRepr(0, 0, w < 0, KindOfCode(if w < 0 then -w else w)), rest)
      else
        match ReadU64(rest)
        case Err(err, rest') => Err(err, rest')
        case Ok(reversed, rest') => Ok(NormalOfWord(w, BitReverse(ToWord(reversed))), rest')
  }

  /**
   * The Normal repr the reader builds from an exponent word outside -2..2:
   * the word moved back next to zero, its low bit (C++ `%`) the sign, and
   * the rest (C++ `/`, toward zero) the exponent.
   */
  function NormalOfWord(w: int, fraction: bv64): (f: FloatRepr)
    requires w < -2 || w >= 3
    ensures f.kind == Normal && f.fraction == fraction
  {
    var e := if w < 0 then w + 2 else w - 3;
    FloatRepr(Half(e), fraction, HalfRem(e) != 0, Normal)
  }

  /**
   * What survives the wire: a Normal repr entire; for the special kinds only
   * the kind and the sign, and a NaN always positive.
   */
  function Canonical(f: FloatRepr): (c: FloatRepr)
    ensures f.kind == Normal ==> c == f
    ensures c.kind == f.kind
    ensures f.kind != NaN ==> c.isNegative == f.isNegative
  {
    if f.kind == Normal then f else FloatRepr(0, 0, f.kind != NaN && f.isNegative, f.kind)
  }

  /** The Normal exponent word decodes to the exponent and sign it was built from. */
  lemma {:induction false} NormalWordRoundTrip(f: FloatRepr)
    requires f.kind == Normal && ExponentFits(f.exponent)
    ensures NormalOfWord(ExponentWord(f), f.fraction) == f
  {
    var w := ExponentWord(f);
    var e := if w < 0 then w + 2 else w - 3;
    var sign := if f.isNegative then 1 else 0;
    assert e == f.exponent * 2 + (if f.exponent < 0 then -sign else sign);
    if f.exponent < 0 {
      assert -e == (-f.exponent) * 2 + sign;
      assert (-e) / 2 == -f.exponent;
    } else {
      assert e / 2 == f.exponent;
    }
  }

  /** Reading back what the writer emitted yields the canonical repr and consumes exactly those bytes. */
  lemma {:induction false} FloatRoundTrip(f: FloatRepr, rest: Bytes)
    requires Writable(f)
    ensures ReadFloat(WriteFloat(f) + rest) == Ok(Canonical(f), rest)
  {
    if f.kind == Normal {
      NormalRoundTrip(f, rest);
    } else {
      SpecialRoundTrip(f, rest);
    }
  }

  lemma {:induction false} NormalRoundTrip(f: FloatRepr, rest: Bytes)
    requires f.kind == Normal && ExponentFits(f.exponent)
    ensures ReadFloat(WriteFloat(f) + rest) == Ok(f, rest)
  {
    var w := ExponentWord(f);
    var reversed := BitReverse(f.fraction) as nat;
    var tail := WriteU64(reversed) + rest;
    NormalReads(f, rest);
    ReadNormal(WriteFloat(f) + rest, w, tail, reversed, rest);
    var g := BitReverse(f.fraction);
    WordRoundTrip(g);
    BitReverseInvolution(f.fraction);
    assert BitReverse(ToWord(reversed)) == f.fraction;
    NormalWordRoundTrip(f);
  }

  /** The two varint reads of a Normal encoding return the exponent word and the reversed fraction. */
  lemma {:induction false} NormalReads(f: FloatRepr, rest: Bytes)
    requires f.kind == Normal && ExponentFits(f.exponent)
    ensures var tail := WriteU64(BitReverse(f.fraction) as nat) + rest;
            ReadInt(WriteFloat(f) + rest) == Ok(ExponentWord(f), tail) &&
            ReadU64(tail) == Ok(BitReverse(f.fraction) as nat, rest)
  {
    var w := ExponentWord(f);
    var reversed := BitReverse(f.fraction) as nat;
    var tail := WriteU64(reversed) + rest;
    assert WriteFloat(f) + rest == WriteInt(w) + tail;
    IntRoundTrip(w, tail);
    U64RoundTrip(reversed, rest);
  }

  /** The Normal branch of the reader, given what its two varint reads return. */
  lemma {:induction false} ReadNormal(s: Bytes, w: int, tail: Bytes, reversed: nat, rest: Bytes)
    requires ReadInt(s) == Ok(w, tail) && (w < -2 || w >= 3)
    requires ReadU64(tail) == Ok(reversed, rest)
    ensures ReadFloat(s) == Ok(NormalOfWord(w, BitReverse(ToWord(reversed))), rest)
  {
  }

  lemma {:induction false} SpecialRoundTrip(f: FloatRepr, rest: Bytes)
    requires f.kind != Normal
    ensures ReadFloat(WriteFloat(f) + rest) == Ok(Canonical(f), rest)
  {
    var w := ExponentWord(f);
    assert WriteFloat(f) + rest == WriteInt(w) + rest;
    IntRoundTrip(w, rest);
  }

  /**
   * A double's repr fits in ten bytes: with an exponent of magnitude at most
   * 1074 the word takes two varint groups, and a 53-bit mantissa reversed
   * takes at most eight.
   */
  lemma {:induction false} NormalSize(f: FloatRepr)
    requires f.kind == Normal && -1074 <= f.exponent <= 1074 && f.fraction & 0x7FF == 0
    ensures |WriteFloat(f)| <= 10
  {
    WordSize(f);
    FractionSize(f.fraction);
  }

  lemma {:induction false} WordSize(f: FloatRepr)
    requires f.kind == Normal && -1074 <= f.exponent <= 1074
    ensures |WriteInt(ExponentWord(f))| <= 2
  {
    var w := ExponentWord(f);
    assert -2152 <= w <= 2152;
    assert Pow128(2) == 0x4000;
    WriteU64Length(SignMagnitude(w), 2);
  }

  lemma {:induction false} FractionSize(fraction: bv64)
    requires fraction & 0x7FF == 0
    ensures |WriteU64(BitReverse(fraction) as nat)| <= 8
  {
    var reversed := BitReverse(fraction);
    BitReverseShort(fraction);
    SmallWord(reversed);
    assert Pow128(8) == 0x100_0000_0000_0000;
    WriteU64Length(reversed as nat, 8);
  }

  /** A word below 2^53 is a number below 2^53 (through the 53-bit word it fits in). */
  lemma SmallWord(b: bv64)
    requires b < 1 << 53
    ensures b as nat < 0x20_0000_0000_0000
  {
    assert b as nat == (b as bv53) as nat;
  }

  /** Byte-level examples: 1.0 and 0.25 (exponents 1 and -1, top fraction bit), +infinity and NaN. */
  lemma ConcreteVectors()
    ensures WriteFloat(FloatRepr(1, 0x8000_0000_0000_0000, false, Normal)) == [0x0A, 0x01]
    ensures WriteFloat(FloatRepr(-1, 0x8000_0000_0000_0000, false, Normal)) == [0x09, 0x01]
    ensures WriteFloat(FloatRepr(0, 0, false, Infinity)) == [0x02]
    ensures WriteFloat(FloatRepr(0, 0, false, NaN)) == [0x00]
  {
    assert BitReverse(0x8000_0000_0000_0000) == 1;
  }
}
