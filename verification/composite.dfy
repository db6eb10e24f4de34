/**
 * The type-directed codec: the `serializer<T>` templates (and the older
 * `reader<T>`/`writer<T>` pair) instantiated over the C++ types the wire
 * carries. `optional<T>` and `std::shared_ptr<T>` are a presence flag and
 * then the value iff present; `std::vector<T>` is a count and then the
 * elements in order. The three serializer headers lay these out the same
 * way, so the layout is defined once here.
 */
module Composite {
  import opened Base
  import opened Codec

  /** The C++ types a value on the wire can have. */
  datatype Ty =
    | U64T | LongT | IntT | BoolT | StringT
    | OptionalT(elem: Ty) | SharedT(elem: Ty) | VectorT(elem: Ty)

  /** A C++ value of one of those types; `None` is an empty optional or a null pointer. */
  datatype Value =
    | U64V(u: nat) | LongV(l: int) | IntV(i: int) | BoolV(b: bool) | StringV(s: Bytes)
    | OptionalV(opt: Option<Value>) | SharedV(ptr: Option<Value>) | VectorV(items: seq<Value>)

  /**
   * `v` is a value of type `t` that the writer accepts: integers in their
   * machine range (a `long` other than LONG_MIN, see `Codec.WriteLong`),
   * and lengths that fit the 64-bit count.
   */
  ghost predicate Encodable(v: Value, t: Ty)
    decreases v, 1
  {
    match v
    case U64V(u) => t == U64T && IsU64(u)
    case LongV(l) => t == LongT && LONG_MIN < l <= LONG_MAX
    case IntV(i) => t == IntT && IsInt(i)
    case BoolV(_) => t == BoolT
    case StringV(s) => t == StringT && |s| < TWO_TO_THE_64
    case OptionalV(o) => t.OptionalT? && (o.Some? ==> Encodable(o.value, t.elem))
    case SharedV(p) => t.SharedT? && (p.Some? ==> Encodable(p.value, t.elem))
    case VectorV(items) =>
      t.VectorT? && |items| < TWO_TO_THE_64 && AllEncodable(items, t.elem)
  }

  /** Every element of a vector is an encodable value of the element type. */
  ghost predicate AllEncodable(items: seq<Value>, t: Ty)
    decreases items, 0
  {
    forall i | 0 <= i < |items| :: Encodable(items[i], t)
  }

  /**
   * `serializer<T>::write`: the bytes appended for `v`. Whatever follows
   * them, the matching read gives `v` back and leaves exactly what followed.
   */
  function Encode(t: Ty, v: Value): (r: Bytes)
    requires Encodable(v, t)
    ensures forall rest :: Decode(t, r + rest) == Ok(v, rest)
    decreases v
  {
    match v
    case U64V(u) => U64Reads(t, u); WriteU64(u)
    case LongV(l) => LongReads(t, l); WriteLong(l)
    case IntV(i) => IntReads(t, i); WriteInt(i)
    case BoolV(b) => BoolReads(t, b); WriteBool(b)
    case StringV(s) => StringReads(t, s); WriteString(s)
    case OptionalV(o) =>
      var e := if o.Some? then Encode(t.elem, o.value) else [];
      PresentReads(t, o, e);
      WriteBool(o.Some?) + e
    case SharedV(p) =>
      var e := if p.Some? then Encode(t.elem, p.value) else [];
      PresentReads(t, p, e);
      WriteBool(p.Some?) + e
    case VectorV(items) =>
      var e := EncodeItems(t.elem, items);
      VectorReads(t, items, e);
      WriteU64(|items|) + e
  }

  /** The elements of a vector, one after the other; the count-driven read loop gives them back in order. */
  function EncodeItems(t: Ty, items: seq<Value>): (r: Bytes)
    requires AllEncodable(items, t)
    ensures forall rest :: DecodeItems(t, |items|, r + rest) == Ok(items, rest)
    decreases items
  {
    if |items| == 0 then NoItemsRead(t); []
    else
      var head := Encode(t, items[0]);
      var tail := EncodeItems(t, items[1..]);
      ItemsReads(t, items, head, tail);
      head + tail
  }

  /** The arguments of a call: each in its own declared type, in declaration order. */
  function EncodeArgs(ts: seq<Ty>, args: seq<Value>): (r: Bytes)
    requires |ts| == |args|
    requires forall i | 0 <= i < |args| :: Encodable(args[i], ts[i])
    ensures forall rest :: DecodeArgs(ts, r + rest) == Ok(args, rest)
    decreases args
  {
    if |args| == 0 then NoArgsRead(); []
    else
      var head := Encode(ts[0], args[0]);
      var tail := EncodeArgs(ts[1..], args[1..]);
      ArgsReads(ts[0], ts[1..], args[0], args[1..], head, tail);
      assert [ts[0]] + ts[1..] == ts && [args[0]] + args[1..] == args;
      head + tail
  }

  lemma U64Reads(t: Ty, u: nat)
    requires t == U64T && IsU64(u)
    ensures forall rest :: Decode(t, WriteU64(u) + rest) == Ok(U64V(u), rest)
  {
    forall rest ensures Decode(t, WriteU64(u) + rest) == Ok(U64V(u), rest) {
      U64RoundTrip(u, rest);
    }
  }

  lemma LongReads(t: Ty, l: int)
    requires t == LongT && LONG_MIN < l <= LONG_MAX
    ensures forall rest :: Decode(t, WriteLong(l) + rest) == Ok(LongV(l), rest)
  {
    forall rest ensures Decode(t, WriteLong(l) + rest) == Ok(LongV(l), rest) {
      LongRoundTrip(l, rest);
    }
  }

  lemma IntReads(t: Ty, i: int)
    requires t == IntT && IsInt(i)
    ensures forall rest :: Decode(t, WriteInt(i) + rest) == Ok(IntV(i), rest)
  {
    forall rest ensures Decode(t, WriteInt(i) + rest) == Ok(IntV(i), rest) {
      IntRoundTrip(i, rest);
    }
  }

  lemma BoolReads(t: Ty, b: bool)
    requires t == BoolT
    ensures forall rest :: Decode(t, WriteBool(b) + rest) == Ok(BoolV(b), rest)
  {
    forall rest ensures Decode(t, WriteBool(b) + rest) == Ok(BoolV(b), rest) {
      BoolRoundTrip(b, rest);
    }
  }

  lemma StringReads(t: Ty, str: Bytes)
    requires t == StringT && |str| < TWO_TO_THE_64
    ensures forall rest :: Decode(t, WriteString(str) + rest) == Ok(StringV(str), rest)
  {
    forall rest ensures Decode(t, WriteString(str) + rest) == Ok(StringV(str), rest) {
      StringRoundTrip(str, rest);
    }
  }

  /** A presence flag, then the value's bytes `e` iff present. */
  lemma PresentReads(t: Ty, o: Option<Value>, e: Bytes)
    requires t.OptionalT? || t.SharedT?
    requires o.None? ==> e == []
    requires o.Some? ==> forall rest :: Decode(t.elem, e + rest) == Ok(o.value, rest)
    ensures forall rest ::
              Decode(t, WriteBool(o.Some?) + e + rest) == Ok(if t.OptionalT? then OptionalV(o) else SharedV(o), rest)
  {
    forall rest ensures Decode(t, WriteBool(o.Some?) + e + rest) == Ok(if t.OptionalT? then OptionalV(o) else SharedV(o), rest) {
      Assoc(WriteBool(o.Some?), e, rest);
      BoolRoundTrip(o.Some?, e + rest);
    }
  }

  /** A count, then the elements' bytes `e`. */
  lemma VectorReads(t: Ty, items: seq<Value>, e: Bytes)
    requires t.VectorT? && |items| < TWO_TO_THE_64
    requires forall rest :: DecodeItems(t.elem, |items|, e + rest) == Ok(items, rest)
    ensures forall rest :: Decode(t, WriteU64(|items|) + e + rest) == Ok(VectorV(items), rest)
  {
    forall rest ensures Decode(t, WriteU64(|items|) + e + rest) == Ok(VectorV(items), rest) {
      Assoc(WriteU64(|items|), e, rest);
      U64RoundTrip(|items|, e + rest);
    }
  }

  /** One turn of the vector read loop: the first element's bytes, then the others'. */
  lemma ItemsReads(t: Ty, items: seq<Value>, head: Bytes, tail: Bytes)
    requires |items| > 0
    requires forall rest :: Decode(t, head + rest) == Ok(items[0], rest)
    requires forall rest :: DecodeItems(t, |items| - 1, tail + rest) == Ok(items[1..], rest)
    ensures forall rest :: DecodeItems(t, |items|, head + tail + rest) == Ok(items, rest)
  {
    forall rest ensures DecodeItems(t, |items|, head + tail + rest) == Ok(items, rest) {
      Assoc(head, tail, rest);
      assert Decode(t, head + (tail + rest)) == Ok(items[0], tail + rest);
      assert [items[0]] + items[1..] == items;
    }
  }

  /** One step of the argument writes: the first argument's bytes, then the others'. */
  lemma ArgsReads(t: Ty, ts: seq<Ty>, v: Value, vs: seq<Value>, head: Bytes, tail: Bytes)
    requires forall rest :: Decode(t, head + rest) == Ok(v, rest)
    requires forall rest :: DecodeArgs(ts, tail + rest) == Ok(vs, rest)
    ensures forall rest :: DecodeArgs([t] + ts, head + tail + rest) == Ok([v] + vs, rest)
  {
    forall rest ensures DecodeArgs([t] + ts, head + tail + rest) == Ok([v] + vs, rest) {
      ArgsStepAt(t, ts, head, tail, rest, v, vs);
    }
  }

  lemma NoItemsRead(t: Ty)
    ensures forall rest :: DecodeItems(t, 0, [] + rest) == Ok([], rest)
  {
    forall rest: Bytes ensures [] + rest == rest { }
  }

  lemma NoArgsRead()
    ensures forall rest :: DecodeArgs([], [] + rest) == Ok([], rest)
  {
    forall rest: Bytes ensures [] + rest == rest { }
  }

  /**
   * `serializer<T>::read`. It only moves the cursor forward, by at least one
   * byte when it succeeds, and what it yields is a value of type `t` the
   * writer accepts.
   */
  function Decode(t: Ty, s: Bytes): (r: Read<Value>)
    ensures IsSuffix(r.rest, s)
    ensures r.Ok? ==> |r.rest| < |s| && Encodable(r.value, t)
    decreases t, 0
  {
    ReadGroupsSuffix(s);
    match t
    case U64T =>
      (match ReadU64(s)
       case Ok(u, rest) => Ok(U64V(u), rest)
       case Err(e, rest) => Err(e, rest))
    case LongT =>
      (match ReadLong(s)
       case Ok(l, rest) => Ok(LongV(l), rest)
       case Err(e, rest) => Err(e, rest))
    case IntT =>
      (match ReadInt(s)
       case Ok(i, rest) => Ok(IntV(i), rest)
       case Err(e, rest) => Err(e, rest))
    case BoolT =>
      (match ReadBool(s)
       case Ok(b, rest) => Ok(BoolV(b), rest)
       case Err(e, rest) => Err(e, rest))
    case StringT =>
      (match ReadString(s)
       case Ok(str, rest) => Ok(StringV(str), rest)
       case Err(e, rest) => Err(e, rest))
    case OptionalT(elem) =>
      (match DecodePresent(elem, s)
       case Ok(o, rest) => Ok(OptionalV(o), rest)
       case Err(e, rest) => Err(e, rest))
    case SharedT(elem) =>
      (match DecodePresent(elem, s)
       case Ok(p, rest) => Ok(SharedV(p), rest)
       case Err(e, rest) => Err(e, rest))
    case VectorT(elem) =>
      match ReadU64(s)
      case Err(e, rest) => Err(e, rest)
      case Ok(count, rest) =>
        match DecodeItems(elem, count, rest)
        case Ok(items, rest') => Ok(VectorV(items), rest')
        case Err(e, rest') => Err(e, rest')
  }

  /** The presence flag, then the value iff the flag read true. */
  function DecodePresent(t: Ty, s: Bytes): (r: Read<Option<Value>>)
    ensures IsSuffix(r.rest, s)
    ensures r.Ok? ==> |r.rest| < |s| && ReadBool(s).Ok?
    ensures r.Ok? ==> (r.value.Some? <==> ReadBool(s).value)
    ensures r.Ok? && r.value.Some? ==> Encodable(r.value.value, t)
    decreases t, 1
  {
    ReadGroupsSuffix(s);
    match ReadBool(s)
    case Err(e, rest) => Err(e, rest)
    case Ok(present, rest) =>
      if !present then Ok(None, rest)
      else match Decode(t, rest)
        case Ok(v, rest') => Ok(Some(v), rest')
        case Err(e, rest') => Err(e, rest')
  }

  /** The vector read loop: `count` elements in order. */
  function DecodeItems(t: Ty, count: nat, s: Bytes): (r: Read<seq<Value>>)
    ensures IsSuffix(r.rest, s)
    ensures r.Ok? ==> |r.value| == count && AllEncodable(r.value, t)
    decreases t, count + 1
  {
    if count == 0 then Ok([], s)
    else match Decode(t, s)
      case Err(e, rest) => Err(e, rest)
      case Ok(v, rest) => match DecodeItems(t, count - 1, rest)
        case Ok(vs, rest') => Ok([v] + vs, rest')
        case Err(e, rest') => Err(e, rest')
  }

  /** The argument reads of a dispatcher's handler, in declaration order. */
  function DecodeArgs(ts: seq<Ty>, s: Bytes): (r: Read<seq<Value>>)
    ensures r.Ok? ==> |r.value| == |ts|
    decreases ts
  {
    if |ts| == 0 then Ok([], s)
    else match Decode(ts[0], s)
      case Err(e, rest) => Err(e, rest)
      case Ok(v, rest) => match DecodeArgs(ts[1..], rest)
        case Ok(vs, rest') => Ok([v] + vs, rest')
        case Err(e, rest') => Err(e, rest')
  }

  /** Every read begins with a `getByte`, so on an empty window every type throws. */
  lemma {:induction false} DecodeEmpty(t: Ty)
    ensures Decode(t, []) == Err(ExceededPacketSize, [])
  {
  }

  /** Each read inverts its write, leaving exactly the bytes that followed. */
  lemma RoundTrip(t: Ty, v: Value, rest: Bytes)
    requires Encodable(v, t)
    ensures Decode(t, Encode(t, v) + rest) == Ok(v, rest)
  {
  }

  /** One step of the argument reads: the first argument, then the others. */
  lemma ArgsStep(t: Ty, ts: seq<Ty>, s: Bytes, v: Value, tail: Bytes, vs: seq<Value>, rest: Bytes)
    requires Decode(t, s) == Ok(v, tail) && DecodeArgs(ts, tail) == Ok(vs, rest)
    ensures DecodeArgs([t] + ts, s) == Ok([v] + vs, rest)
  {
    assert ([t] + ts)[0] == t && ([t] + ts)[1..] == ts;
  }

  /** `ArgsStep` with the window split into the first argument's bytes, the others' and what follows. */
  lemma ArgsStepAt(t: Ty, ts: seq<Ty>, head: Bytes, tail: Bytes, rest: Bytes, v: Value, vs: seq<Value>)
    requires forall more :: Decode(t, head + more) == Ok(v, more)
    requires forall more :: DecodeArgs(ts, tail + more) == Ok(vs, more)
    ensures DecodeArgs([t] + ts, head + tail + rest) == Ok([v] + vs, rest)
  {
    assert Decode(t, head + (tail + rest)) == Ok(v, tail + rest);
    ArgsStep(t, ts, head + (tail + rest), v, tail + rest, vs, rest);
    Assoc(head, tail, rest);
  }

  /** Two steps of the argument reads: a two-field header, then the others. */
  lemma ArgsStep2(t1: Ty, t2: Ty, ts: seq<Ty>, s: Bytes, v1: Value, s1: Bytes, v2: Value, s2: Bytes, vs: seq<Value>, rest: Bytes)
    requires Decode(t1, s) == Ok(v1, s1) && Decode(t2, s1) == Ok(v2, s2)
    requires DecodeArgs(ts, s2) == Ok(vs, rest)
    ensures DecodeArgs([t1, t2] + ts, s) == Ok([v1, v2] + vs, rest)
  {
    ArgsStep(t2, ts, s1, v2, s2, vs, rest);
    ArgsStep(t1, [t2] + ts, s, v1, s1, [v2] + vs, rest);
    SplitPair(t1, t2, ts);
    SplitPair(v1, v2, vs);
  }

  /** The argument reads, taken apart: the first argument was read first, and the others from what it left. */
  lemma ArgsUnstep(t: Ty, ts: seq<Ty>, s: Bytes, v: Value, vs: seq<Value>, rest: Bytes)
    requires DecodeArgs([t] + ts, s) == Ok([v] + vs, rest)
    ensures Decode(t, s).Ok? && Decode(t, s).value == v
    ensures DecodeArgs(ts, Decode(t, s).rest) == Ok(vs, rest)
  {
    assert ([t] + ts)[0] == t && ([t] + ts)[1..] == ts;
    assert ([v] + vs)[0] == v && ([v] + vs)[1..] == vs;
  }

  /** A handler's argument reads invert a proxy's argument writes. */
  lemma ArgsRoundTrip(ts: seq<Ty>, args: seq<Value>, rest: Bytes)
    requires |ts| == |args|
    requires forall i | 0 <= i < |args| :: Encodable(args[i], ts[i])
    ensures DecodeArgs(ts, EncodeArgs(ts, args) + rest) == Ok(args, rest)
  {
  }
}
