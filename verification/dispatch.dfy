/**
 * The server side of a call, `DispatcherBase` of
 * include/RaPsCallion/Dispatcher.h (and `DispatchBase::dispatch` of
 * include/proxydispatcher.h, the same lookup): the method name selects a
 * handler; the handler reads the request id and then its arguments in
 * declaration order, calls the implementation, and replies with the tag
 * `"p"` + interface name, the request id and, unless the method is void,
 * the result.
 *
 * The implementation behind a handler is not modelled: `Handle` ends with
 * the call it would make, and `Reply` builds the answer from the result
 * the implementation's future delivers.
 */
module Dispatch {
  import opened Base
  import opened Codec
  import opened Composite

  /**
   * A character `interfaceNameOf` skips: one that compares `<= '9'` as a
   * signed `char`, that is the digits and punctuation below them, and
   * every byte from 0x80 up, which is negative.
   */
  predicate IsLeading(c: Byte) {
    c <= 0x39 || c >= 0x80
  }

  /**
   * `interfaceNameOf`: the mangled type name with its leading length digits
   * removed. The loop also stops at the end of the C string, so a name made
   * only of leading characters gives the empty string. The mangled name is
   * the C string's characters up to its terminating NUL, so it holds no NUL.
   */
  function InterfaceNameOf(mangled: Bytes): (r: Bytes)
    requires 0 !in mangled
    ensures IsSuffix(r, mangled)
    ensures forall i | 0 <= i < |mangled| - |r| :: IsLeading(mangled[i])
    ensures r == [] || !IsLeading(r[0])
    decreases |mangled|
  {
    if |mangled| == 0 || !IsLeading(mangled[0]) then mangled
    else InterfaceNameOf(mangled[1..])
  }

  /** A name that is all leading characters becomes the empty string. */
  lemma AllLeadingIsEmpty(mangled: Bytes)
    requires 0 !in mangled
    requires forall i | 0 <= i < |mangled| :: IsLeading(mangled[i])
    ensures InterfaceNameOf(mangled) == []
  {
  }

  /** What DISPATCH_FUNCn registers: the argument types in declaration order, and the result type (`None` for the `v` forms). */
  datatype Handler = Handler(args: seq<Ty>, ret: Option<Ty>)

  /** A dispatcher: the interface name and its `funcs` table. */
  datatype Dispatcher = Dispatcher(name: Bytes, funcs: map<Bytes, Handler>)

  /** The outcome of `Handle`. */
  datatype Handled =
    | NoSuchMethod(methodName: Bytes)
    | Invoked(methodName: Bytes, reqId: nat, args: seq<Value>, rest: Bytes)
    | HandleThrew(error: Error)

  /**
   * `Handle`: reads the method name; an unknown name calls nothing (and
   * so sends nothing); a known one runs its handler, which reads the
   * request id and then each argument. A read that throws ends the call.
   */
  function Handle(d: Dispatcher, s: Bytes): (r: Handled)
    ensures r.NoSuchMethod? <==> ReadString(s).Ok? && ReadString(s).value !in d.funcs
    ensures r.NoSuchMethod? ==> r.methodName == ReadString(s).value
    ensures r.Invoked? ==>
              ReadString(s).Ok? && r.methodName == ReadString(s).value && r.methodName in d.funcs &&
              |r.args| == |d.funcs[r.methodName].args| &&
              ReadU64(ReadString(s).rest) == Ok(r.reqId, ReadU64(ReadString(s).rest).rest) &&
              DecodeArgs(d.funcs[r.methodName].args, ReadU64(ReadString(s).rest).rest) == Ok(r.args, r.rest)
  {
    match ReadString(s)
    case Err(e, _) => HandleThrew(e)
    case Ok(name, rest) =>
      if name !in d.funcs then NoSuchMethod(name)
      else
        var h := d.funcs[name];
        match ReadU64(rest)
        case Err(e, _) => HandleThrew(e)
        case Ok(reqId, rest') =>
          match DecodeArgs(h.args, rest')
          case Err(e, _) => HandleThrew(e)
          case Ok(args, rest'') => Invoked(name, reqId, args, rest'')
  }

  /** The bytes a proxy sends after the interface name: method name, request id, arguments. */
  function CallBody(methodName: Bytes, reqId: nat, argTys: seq<Ty>, args: seq<Value>): Bytes
    requires |methodName| < TWO_TO_THE_64 && IsU64(reqId)
    requires |argTys| == |args| && forall i | 0 <= i < |args| :: Encodable(args[i], argTys[i])
  {
    WriteString(methodName) + WriteU64(reqId) + EncodeArgs(argTys, args)
  }

  /** A known method's handler is called with exactly the request id and arguments the caller wrote. */
  lemma HandleCall(d: Dispatcher, methodName: Bytes, reqId: nat, args: seq<Value>, more: Bytes)
    requires methodName in d.funcs && |methodName| < TWO_TO_THE_64 && IsU64(reqId)
    requires |d.funcs[methodName].args| == |args|
    requires forall i | 0 <= i < |args| :: Encodable(args[i], d.funcs[methodName].args[i])
    ensures Handle(d, CallBody(methodName, reqId, d.funcs[methodName].args, args) + more) ==
            Invoked(methodName, reqId, args, more)
  {
    var tys := d.funcs[methodName].args;
    var tail := EncodeArgs(tys, args) + more;
    assert CallBody(methodName, reqId, tys, args) + more == WriteString(methodName) + (WriteU64(reqId) + tail);
    StringRoundTrip(methodName, WriteU64(reqId) + tail);
    U64RoundTrip(reqId, tail);
    ArgsRoundTrip(tys, args, more);
  }

  /** Whatever reads back as a method name, a request id and a handler's arguments calls that handler with them. */
  lemma HandleDecoded(d: Dispatcher, tys: seq<Ty>, s: Bytes, methodName: Bytes, reqId: nat, args: seq<Value>)
    requires methodName in d.funcs && d.funcs[methodName].args == tys
    requires DecodeArgs([StringT, U64T] + tys, s) == Ok([StringV(methodName), U64V(reqId)] + args, [])
    ensures Handle(d, s) == Invoked(methodName, reqId, args, [])
  {
    SplitPair(StringT, U64T, tys);
    SplitPair(StringV(methodName), U64V(reqId), args);
    ArgsUnstep(StringT, [U64T] + tys, s, StringV(methodName), [U64V(reqId)] + args, []);
    var s1 := Decode(StringT, s).rest;
    ArgsUnstep(U64T, tys, s1, U64V(reqId), args, []);
  }

  /**
   * A request read field by field as interface tag, method name, request id
   * and a handler's arguments: the tag comes first, and what follows it
   * calls that handler with that id and those arguments.
   */
  lemma RequestDecoded(d: Dispatcher, tys: seq<Ty>, s: Bytes, tag: Bytes, methodName: Bytes, reqId: nat, args: seq<Value>)
    requires methodName in d.funcs && d.funcs[methodName].args == tys
    requires DecodeArgs([StringT, StringT, U64T] + tys, s) == Ok([StringV(tag), StringV(methodName), U64V(reqId)] + args, [])
    ensures ReadString(s).Ok? && ReadString(s).value == tag
    ensures Handle(d, ReadString(s).rest) == Invoked(methodName, reqId, args, [])
  {
    SplitHead(StringT, StringT, U64T, tys);
    SplitHead(StringV(tag), StringV(methodName), U64V(reqId), args);
    var rest := [StringV(methodName), U64V(reqId)] + args;
    ArgsUnstep(StringT, [StringT, U64T] + tys, s, StringV(tag), rest, []);
    var s1 := Decode(StringT, s).rest;
    assert ReadString(s).Ok? && ReadString(s).value == tag && ReadString(s).rest == s1;
    HandleDecoded(d, tys, s1, methodName, reqId, args);
  }

  /** An unknown method name calls no handler, whatever follows it. */
  lemma HandleUnknown(d: Dispatcher, methodName: Bytes, more: Bytes)
    requires methodName !in d.funcs && |methodName| < TWO_TO_THE_64
    ensures Handle(d, WriteString(methodName) + more) == NoSuchMethod(methodName)
  {
    StringRoundTrip(methodName, more);
  }

  /** The tag a reply starts with. */
  function ReplyTag(name: Bytes): Bytes {
    ['p' as int] + name
  }

  /** The value a handler replies with: the result's type and value, or nothing for a void method. */
  ghost predicate ResultFits(h: Handler, result: Option<Value>) {
    h.ret.Some? == result.Some? && (result.Some? ==> Encodable(result.value, h.ret.value))
  }

  /**
   * DISPATCH_EPILOG and DISPATCH_EPILOGv: the reply to request `reqId`, sent
   * on the handle that carried the request. A handler's reply is read back
   * as the tag, the same request id, and the result when there is one.
   */
  function Reply(name: Bytes, reqId: nat, h: Handler, result: Option<Value>): (r: Bytes)
    requires |name| + 1 < TWO_TO_THE_64 && IsU64(reqId) && ResultFits(h, result)
    ensures var tys := [StringT, U64T] + (if h.ret.Some? then [h.ret.value] else []);
            var vals := [StringV(ReplyTag(name)), U64V(reqId)] + (if result.Some? then [result.value] else []);
            DecodeArgs(tys, r) == Ok(vals, [])
  {
    var body := if result.Some? then Encode(h.ret.value, result.value) else [];
    ResultReads(h, result);
    HeaderReads(ReplyTag(name), reqId, if h.ret.Some? then [h.ret.value] else [],
                if result.Some? then [result.value] else [], body);
    WriteString(ReplyTag(name)) + WriteU64(reqId) + body
  }

  /** The tag and the request id read back in front of whatever follows them. */
  lemma HeaderReads(tag: Bytes, reqId: nat, last: seq<Ty>, lastV: seq<Value>, body: Bytes)
    requires |tag| < TWO_TO_THE_64 && IsU64(reqId)
    requires DecodeArgs(last, body) == Ok(lastV, [])
    ensures DecodeArgs([StringT, U64T] + last, WriteString(tag) + WriteU64(reqId) + body) ==
            Ok([StringV(tag), U64V(reqId)] + lastV, [])
  {
    var afterTag := WriteU64(reqId) + body;
    U64RoundTrip(reqId, body);
    StringRoundTrip(tag, afterTag);
    ArgsStep2(StringT, U64T, last, WriteString(tag) + afterTag, StringV(tag), afterTag, U64V(reqId), body, lastV, []);
    Assoc(WriteString(tag), WriteU64(reqId), body);
  }

  /** The result part of a reply reads back as the result, or as nothing for a void method. */
  lemma ResultReads(h: Handler, result: Option<Value>)
    requires ResultFits(h, result)
    ensures var body := if result.Some? then Encode(h.ret.value, result.value) else [];
            var last := if h.ret.Some? then [h.ret.value] else [];
            var lastV := if result.Some? then [result.value] else [];
            DecodeArgs(last, body) == Ok(lastV, [])
  {
    if result.Some? {
      var body := Encode(h.ret.value, result.value);
      assert body + [] == body;
      RoundTrip(h.ret.value, result.value, []);
      ArgsStep(h.ret.value, [], body, result.value, [], [], []);
      assert [h.ret.value] + [] == [h.ret.value] && [result.value] + [] == [result.value];
    }
  }
}
