/**
 * The `client` of the two `rpc.h` drafts (include/RaPsCallion/rpc.h and
 * include/rpc.h; the second also announces its protocol version when it
 * connects). `Invoke` sends a call under a fresh id and keeps a weak
 * reference to its result; `request_value` asks for a live result and
 * pins it; `drop_request` cancels a call.
 *
 * A packet is the list of values written into it, in order; the socket
 * is the list of packets sent. A result is live while its handle exists,
 * which the caller ends with `Expire`.
 */
module Rpc {
  import opened Base
  import opened Composite

  /**
   * The client: for each outstanding id whether its result is still alive
   * (`results`, weak references), the ids whose value was requested
   * (`requested`, strong references), the next id, and the packets sent.
   */
  datatype Client = Client(results: map<nat, bool>, requested: set<nat>, maxId: nat, sent: seq<seq<Value>>)

  /** Ids are handed out from 1 below `maxId`; a requested result is pinned, so it is alive. */
  predicate Valid(c: Client) {
    c.maxId >= 1 &&
    (forall id | id in c.results :: 1 <= id < c.maxId) &&
    (forall id | id in c.requested :: id in c.results && c.results[id])
  }

  /** The constructor of include/RaPsCallion/rpc.h: nothing sent, ids from 1. */
  function NewClient(): (c: Client)
    ensures Valid(c) && c.maxId == 1 && c.sent == [] && c.results == map[] && c.requested == {}
  {
    Client(map[], {}, 1, [])
  }

  /** The constructor of include/rpc.h: one packet carrying the protocol version, cast to 32 bits, before anything else. */
  function NewClientWithVersion(version: nat): (c: Client)
    ensures Valid(c) && c.maxId == 1 && c.results == map[] && c.requested == {}
    ensures |c.sent| == 1 && c.sent[0] == [U64V(version % 0x1_0000_0000)]
  {
    Client(map[], {}, 1, [[U64V(version % 0x1_0000_0000)]])
  }

  /**
   * `Invoke`: takes `maxId` as the call's id, sends the id, the function
   * id and the arguments, and records a live result under the id.
   */
  function Invoke(c: Client, functionId: nat, args: seq<Value>): (r: (Client, nat))
    ensures var (c', id) := r;
            id == c.maxId && c'.maxId == c.maxId + 1 &&
            c'.sent == c.sent + [[U64V(id), U64V(functionId)] + args] &&
            c'.results == c.results[id := true] && c'.requested == c.requested
    ensures Valid(c) ==> r.1 !in c.results && Valid(r.0)
  {
    var id := c.maxId;
    (c.(results := c.results[id := true], maxId := id + 1, sent := c.sent + [[U64V(id), U64V(functionId)] + args]), id)
  }

  /** Consecutive calls, and the ids they took. */
  function InvokeAll(c: Client, functionIds: seq<nat>): (r: (Client, seq<nat>))
    ensures |r.1| == |functionIds|
    decreases |functionIds|
  {
    if |functionIds| == 0 then (c, [])
    else
      var (c1, id) := Invoke(c, functionIds[0], []);
      var (c2, ids) := InvokeAll(c1, functionIds[1..]);
      (c2, [id] + ids)
  }

  /** Call ids are `maxId`, `maxId + 1`, ...: strictly increasing, each recorded as a live result. */
  lemma {:induction false} InvokeIdsIncrease(c: Client, functionIds: seq<nat>)
    ensures var (c', ids) := InvokeAll(c, functionIds);
            (forall i | 0 <= i < |ids| :: ids[i] == c.maxId + i && ids[i] in c'.results) &&
            c'.maxId == c.maxId + |functionIds|
    decreases |functionIds|
  {
    if |functionIds| > 0 {
      var (c1, id) := Invoke(c, functionIds[0], []);
      InvokeIdsIncrease(c1, functionIds[1..]);
      var (c2, ids) := InvokeAll(c1, functionIds[1..]);
      InvokeKeeps(c1, functionIds[1..], id);
    }
  }

  /** A recorded result is not forgotten by later calls. */
  lemma {:induction false} InvokeKeeps(c: Client, functionIds: seq<nat>, id: nat)
    requires id in c.results
    ensures id in InvokeAll(c, functionIds).0.results
    decreases |functionIds|
  {
    if |functionIds| > 0 {
      InvokeKeeps(Invoke(c, functionIds[0], []).0, functionIds[1..], id);
    }
  }

  /** A fresh client numbers its calls 1, 2, 3, ... */
  lemma FirstIds(functionIds: seq<nat>)
    ensures forall i | 0 <= i < |functionIds| :: InvokeAll(NewClient(), functionIds).1[i] == i + 1
  {
    InvokeIdsIncrease(NewClient(), functionIds);
  }

  /** The caller lets go of a result it has not requested: its weak reference expires. */
  function Expire(c: Client, id: nat): (r: Client)
    requires id !in c.requested
    ensures r.results.Keys == c.results.Keys && r.requested == c.requested && r.sent == c.sent
    ensures id in c.results ==> !r.results[id]
    ensures forall k | k in c.results && k != id :: r.results[k] == c.results[k]
    ensures Valid(c) ==> Valid(r)
  {
    if id in c.results then c.(results := c.results[id := false]) else c
  }

  /**
   * `request_value`: an unknown id, or one whose result has expired,
   * changes nothing and sends nothing; a live one is pinned in `requested`
   * and `[id, 0]` is sent.
   */
  function RequestValue(c: Client, id: nat): (r: Client)
    ensures !(id in c.results && c.results[id]) ==> r == c
    ensures id in c.results && c.results[id] ==>
              r.requested == c.requested + {id} && r.sent == c.sent + [[U64V(id), IntV(0)]] &&
              r.results == c.results && r.maxId == c.maxId
    ensures Valid(c) ==> Valid(r)
  {
    if id !in c.results then c
    else if !c.results[id] then c
    else c.(requested := c.requested + {id}, sent := c.sent + [[U64V(id), IntV(0)]])
  }

  /**
   * `drop_request`: an unknown id changes nothing; a known one (live or
   * expired) sends `[id, 1]` and is forgotten by both tables.
   */
  function DropRequest(c: Client, id: nat): (r: Client)
    ensures id !in c.results ==> r == c
    ensures id in c.results ==>
              r.sent == c.sent + [[U64V(id), IntV(1)]] &&
              r.results.Keys == c.results.Keys - {id} && r.requested == c.requested - {id} &&
              (forall k | k in r.results :: r.results[k] == c.results[k]) && r.maxId == c.maxId
    ensures Valid(c) ==> Valid(r)
  {
    if id !in c.results then c
    else c.(results := c.results - {id}, requested := c.requested - {id}, sent := c.sent + [[U64V(id), IntV(1)]])
  }

  /** After `drop_request` the id is gone: asking for its value or dropping it again sends nothing. */
  lemma DropIsFinal(c: Client, id: nat)
    ensures var d := DropRequest(c, id);
            RequestValue(d, id) == d && DropRequest(d, id) == d
  {
  }

  /** Requesting a value twice sends the request twice but pins the result only once. */
  lemma RequestTwice(c: Client, id: nat)
    requires id in c.results && c.results[id]
    ensures var r1 := RequestValue(c, id);
            var r2 := RequestValue(r1, id);
            r2.requested == r1.requested && |r2.sent| == |c.sent| + 2
  {
  }
}
