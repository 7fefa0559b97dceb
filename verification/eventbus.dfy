/** The event bus: subscription, emission and unsubscription over the
    registry, each locked region taken as one atomic step. Handlers are
    represented by their callbacks only; a call appends an entry to a trace
    and has no effect on the bus, so handlers never re-enter it. */
module EventBus {
  import opened Errors
  import opened Reflection
  import opened Subscriptions
  import opened Arguments
  import opened Slices

  /** What a registry-changing operation ends in: a returned nil error with
      the new registry, a returned error (the registry is left as it was),
      or a runtime fault. */
  datatype Status =
    | Ok(registry: Registry)
    | Failed(error: BusError)
    | Panicked

  /** One handler call: the callback and the values it received. */
  datatype Invocation = Invocation(callback: Callback, args: seq<Value>)

  /** The calls an emit made, in order, and the registry afterwards. */
  datatype Dispatched = Dispatched(trace: seq<Invocation>, registry: Registry)

  /** Calling a handler with the arguments of an emit. */
  function Invoke(hand: Handler, args: seq<Any>): Invocation {
    Invocation(hand.callback, PrepareArguments(hand, args))
  }

  // ---------------------------------------------------------------------
  // Subscription

  /** Shared body of both subscribe calls: refuse a value that is not a
      function, otherwise append a handler for it to the topic's list. */
  function OnSubscribe(reg: Registry, id: string, fn: Any, once: bool): (r: Status)
    ensures !IsFunc(fn) <==> r == Failed(NotAFunc)
    ensures IsFunc(fn) <==> r.Ok?
    ensures r.Ok? ==> Handlers(r.registry, id) == Handlers(reg, id) + [Handler(fn.callback, once)]
    ensures r.Ok? ==> r.registry.Keys == reg.Keys + {id}
    ensures r.Ok? ==> forall t :: t != id ==> Handlers(r.registry, t) == Handlers(reg, t)
  {
    if !IsFunc(fn) then Failed(NotAFunc)
    else Ok(reg[id := Handlers(reg, id) + [Handler(fn.callback, once)]])
  }

  /** Registers `fn` to fire on every emit of `id`. Registering the same
      function twice keeps both registrations. */
  function Subscribe(reg: Registry, id: string, fn: Any): (r: Status)
    ensures !IsFunc(fn) <==> r == Failed(NotAFunc)
    ensures IsFunc(fn) <==> r.Ok?
    ensures r.Ok? ==> |Handlers(r.registry, id)| == |Handlers(reg, id)| + 1
    ensures r.Ok? ==> Handlers(r.registry, id)[..|Handlers(reg, id)|] == Handlers(reg, id)
    ensures r.Ok? ==> Handlers(r.registry, id)[|Handlers(reg, id)|] == Handler(fn.callback, false)
    ensures r.Ok? ==> forall t :: t != id ==> Handlers(r.registry, t) == Handlers(reg, t)
  {
    OnSubscribe(reg, id, fn, false)
  }

  /** Registers `fn` to fire on the next emit of `id` only. */
  function SubscribeOnce(reg: Registry, id: string, fn: Any): (r: Status)
    ensures !IsFunc(fn) <==> r == Failed(NotAFunc)
    ensures IsFunc(fn) <==> r.Ok?
    ensures r.Ok? ==> |Handlers(r.registry, id)| == |Handlers(reg, id)| + 1
    ensures r.Ok? ==> Handlers(r.registry, id)[..|Handlers(reg, id)|] == Handlers(reg, id)
    ensures r.Ok? ==> Handlers(r.registry, id)[|Handlers(reg, id)|] == Handler(fn.callback, true)
    ensures r.Ok? ==> forall t :: t != id ==> Handlers(r.registry, t) == Handlers(reg, t)
  {
    OnSubscribe(reg, id, fn, true)
  }

  // ---------------------------------------------------------------------
  // Emission

  /** The registry invariant of the dispatch loop with snapshot positions
      `k - 1` down to `0` still to be called: the topic holds those positions
      in place, followed by the repeating handlers among the positions already
      called. */
  predicate DispatchInvariant(reg: Registry, id: string, snapshot: seq<Handler>, k: nat)
    requires k <= |snapshot|
  {
    id in reg && reg[id] == snapshot[..k] + Repeating(snapshot[k..])
  }

  /** The dispatch loop of an emit, at the point where the snapshot
      positions `k - 1` down to `0` are still to be called. The positions
      from `k` on have been called, and the one-shot ones among them removed
      from the topic, each by its snapshot index. */
  function Dispatch(reg: Registry, id: string, snapshot: seq<Handler>, k: nat, args: seq<Any>): (r: Dispatched)
    requires k <= |snapshot|
    requires DispatchInvariant(reg, id, snapshot, k)
    ensures |r.trace| == k
    decreases k
  {
    if k == 0 then
      Dispatched([], reg)
    else
      var call := Invoke(snapshot[k - 1], args);
      var rest := Dispatch(AfterCall(reg, id, snapshot, k), id, snapshot, k - 1, args);
      Dispatched([call] + rest.trace, rest.registry)
  }

  /** The loop calls the snapshot from its last position down to its first. */
  lemma {:induction false} DispatchCalls(reg: Registry, id: string, snapshot: seq<Handler>, k: nat, args: seq<Any>)
    requires k <= |snapshot|
    requires DispatchInvariant(reg, id, snapshot, k)
    ensures forall j :: 0 <= j < k ==> Dispatch(reg, id, snapshot, k, args).trace[j] == Invoke(snapshot[k - 1 - j], args)
    decreases k
  {
    if k > 0 {
      var next := AfterCall(reg, id, snapshot, k);
      var rest := Dispatch(next, id, snapshot, k - 1, args);
      DispatchCalls(next, id, snapshot, k - 1, args);
      var trace := Dispatch(reg, id, snapshot, k, args).trace;
      assert trace == [Invoke(snapshot[k - 1], args)] + rest.trace;
      forall j | 0 <= j < k
        ensures trace[j] == Invoke(snapshot[k - 1 - j], args)
      {
        if j > 0 {
          assert trace[j] == rest.trace[j - 1];
        }
      }
    }
  }

  /** Once the loop has finished, exactly the one-shot handlers of the
      snapshot are gone from the topic and nothing else has changed. */
  lemma {:induction false} DispatchRetires(reg: Registry, id: string, snapshot: seq<Handler>, k: nat, args: seq<Any>)
    requires k <= |snapshot|
    requires DispatchInvariant(reg, id, snapshot, k)
    ensures Dispatch(reg, id, snapshot, k, args).registry == reg[id := Repeating(snapshot)]
    decreases k
  {
    if k == 0 {
      assert snapshot[0..] == snapshot && snapshot[..0] == [];
      assert reg[id] == Repeating(snapshot);
    } else {
      var next := AfterCall(reg, id, snapshot, k);
      DispatchRetires(next, id, snapshot, k - 1, args);
    }
  }

  /** The registry after the call at snapshot position `k - 1`: a one-shot
      handler is removed by that position, under the lock, as soon as its
      call has returned. */
  function AfterCall(reg: Registry, id: string, snapshot: seq<Handler>, k: nat): (next: Registry)
    requires 0 < k <= |snapshot|
    requires DispatchInvariant(reg, id, snapshot, k)
    ensures DispatchInvariant(next, id, snapshot, k - 1)
    ensures next == reg[id := next[id]]
  {
    DispatchStep(reg, id, snapshot, k);
    if snapshot[k - 1].once then RemoveHandler(reg, id, k - 1) else reg
  }

  /** One turn of the dispatch loop keeps the loop's registry invariant:
      removing position `k - 1` of a one-shot handler (or keeping a
      repeating one) leaves the lower snapshot positions where they were. */
  lemma DispatchStep(reg: Registry, id: string, snapshot: seq<Handler>, k: nat)
    requires 0 < k <= |snapshot|
    requires DispatchInvariant(reg, id, snapshot, k)
    ensures snapshot[k - 1].once ==>
      var next := RemoveHandler(reg, id, k - 1);
      id in next && next[id] == snapshot[..k - 1] + Repeating(snapshot[k - 1..])
    ensures !snapshot[k - 1].once ==>
      reg[id] == snapshot[..k - 1] + Repeating(snapshot[k - 1..])
  {
    var i := k - 1;
    var tail := Repeating(snapshot[k..]);
    assert Repeating(snapshot[i..]) == (if snapshot[i].once then [] else [snapshot[i]]) + tail by {
      assert snapshot[i..][0] == snapshot[i];
      assert snapshot[i..][1..] == snapshot[k..];
    }
    assert reg[id] == snapshot[..i] + ([snapshot[i]] + tail) by {
      assert snapshot[..k] == snapshot[..i] + [snapshot[i]];
    }
    if snapshot[i].once {
      var next := RemoveHandler(reg, id, i);
      assert next[id] == reg[id][..i] + reg[id][i + 1..];
      assert reg[id][..i] == snapshot[..i];
      assert reg[id][i + 1..] == tail;
    }
  }

  /** Emits `args` on topic `id`: nothing happens if the topic has no
      handlers; otherwise every handler of the topic is called once, the most
      recently registered first, each with the arguments adapted to its
      parameters, and the one-shot handlers are gone afterwards. */
  function Emit(reg: Registry, id: string, args: seq<Any>): (r: Dispatched)
    ensures Handlers(reg, id) == [] ==> r == Dispatched([], reg)
    ensures |r.trace| == |Handlers(reg, id)|
    ensures forall j :: 0 <= j < |Handlers(reg, id)| ==>
      r.trace[j] == Invoke(Handlers(reg, id)[|Handlers(reg, id)| - 1 - j], args)
    ensures Handlers(reg, id) != [] ==> r.registry == reg[id := Repeating(Handlers(reg, id))]
  {
    if |reg| == 0 || |Handlers(reg, id)| == 0 then
      Dispatched([], reg)
    else
      var snapshot := reg[id];
      assert snapshot[|snapshot|..] == [];
      assert snapshot[..|snapshot|] == snapshot;
      DispatchCalls(reg, id, snapshot, |snapshot|, args);
      DispatchRetires(reg, id, snapshot, |snapshot|, args);
      Dispatch(reg, id, snapshot, |snapshot|, args)
  }

  // ---------------------------------------------------------------------
  // Unsubscription

  /** No handler of the list is identified by `fn` more than once. */
  predicate AtMostOneMatch(s: seq<Handler>, fn: Any) {
    forall j, k :: 0 <= j < k < |s| && Identifies(fn, s[j].callback) ==> !Identifies(fn, s[k].callback)
  }

  /** Removes from topic `id` every handler whose callback `fn` identifies.
      A topic without handlers is an error; a topic without a matching
      handler is not. Comparing against nil is a runtime fault, which happens
      as soon as there is a first handler to compare with. */
  function Unsubscribe(reg: Registry, id: string, fn: Any): (r: Status)
    ensures Handlers(reg, id) == [] <==> r == Failed(NoHandlers)
    ensures r.Panicked? <==> Handlers(reg, id) != [] && fn.Nil?
    ensures r.Ok? <==> Handlers(reg, id) != [] && !fn.Nil?
    ensures r.Ok? ==> Handlers(r.registry, id) == WithoutMatches(Handlers(reg, id), fn)
    ensures r.Ok? ==> forall h :: h in Handlers(r.registry, id) <==> h in Handlers(reg, id) && !Identifies(fn, h.callback)
    ensures r.Ok? ==> forall t :: t != id ==> Handlers(r.registry, t) == Handlers(reg, t)
    ensures r.Ok? ==> r.registry.Keys == reg.Keys
  {
    var handlers := Handlers(reg, id);
    if |handlers| == 0 then Failed(NoHandlers)
    else if fn.Nil? then Panicked
    else
      WithoutMatchesMembers(handlers, fn);
      Ok(reg[id := WithoutMatches(handlers, fn)])
  }

  /** The loop's test for one handler: is it registered for `fn`? */
  function Matcher(fn: Any): Handler -> bool {
    (h: Handler) => Identifies(fn, h.callback)
  }

  /** Unsubscribe as the source writes it: ranging over the topic's slice
      while deleting from it. The nil check stands for the comparison on the
      loop's first turn, which faults for a nil `fn`; a non-empty topic
      always has a first turn. */
  function UnsubscribeAsWritten(reg: Registry, id: string, fn: Any): (r: Status)
    ensures Handlers(reg, id) == [] <==> r == Failed(NoHandlers)
    ensures r.Ok? ==> forall t :: t != id ==> Handlers(r.registry, t) == Handlers(reg, t)
  {
    var handlers := Handlers(reg, id);
    if |handlers| == 0 then Failed(NoHandlers)
    else if fn.Nil? then Panicked
    else
      match Sweep(handlers, |handlers|, 0, Matcher(fn))
      case SweepPanicked => Panicked
      case Swept(rest) => Ok(reg[id := rest])
  }

  /** With at most one match the source's loop removes exactly the
      matches, like the corrected unsubscribe. */
  lemma UnsubscribeAsWrittenAgrees(reg: Registry, id: string, fn: Any)
    requires AtMostOneMatch(Handlers(reg, id), fn)
    ensures UnsubscribeAsWritten(reg, id, fn) == Unsubscribe(reg, id, fn)
  {
    var hs := Handlers(reg, id);
    if |hs| == 0 || fn.Nil? {
      return;
    }
    if p :| 0 <= p < |hs| && Identifies(fn, hs[p].callback) {
      SweepSingleMatch(hs, Matcher(fn), p);
      WithoutMatchesSingle(hs, fn, p);
    } else {
      SweepNoMatch(hs, Matcher(fn));
      WithoutMatchesNone(hs, fn);
    }
  }

  /** The single-match case in the source's terms: the one registration of
      `fn` is removed and the other handlers keep their order. */
  lemma UnsubscribeAsWrittenSingle(reg: Registry, id: string, fn: Any, p: nat)
    requires p < |Handlers(reg, id)| && Identifies(fn, Handlers(reg, id)[p].callback)
    requires forall j :: 0 <= j < |Handlers(reg, id)| && j != p ==> !Identifies(fn, Handlers(reg, id)[j].callback)
    ensures UnsubscribeAsWritten(reg, id, fn)
         == Ok(reg[id := Handlers(reg, id)[..p] + Handlers(reg, id)[p + 1..]])
  {
    var hs := Handlers(reg, id);
    SweepSingleMatch(hs, Matcher(fn), p);
  }

  /** Without a match on a non-empty topic the source's unsubscribe returns
      nil and changes nothing. */
  lemma UnsubscribeAsWrittenNoMatch(reg: Registry, id: string, fn: Any)
    requires Handlers(reg, id) != [] && !fn.Nil?
    requires forall j :: 0 <= j < |Handlers(reg, id)| ==> !Identifies(fn, Handlers(reg, id)[j].callback)
    ensures UnsubscribeAsWritten(reg, id, fn) == Ok(reg)
  {
    SweepNoMatch(Handlers(reg, id), Matcher(fn));
  }

  /** Two registrations of `fn` side by side make the source's loop fault:
      after the first is deleted, the stale copy at the end of the backing
      array is compared, matches, and is deleted past the end of the slice. */
  lemma UnsubscribeAsWrittenPanicsOnTwins(reg: Registry, id: string, fn: Any, a: Handler, b: Handler)
    requires Handlers(reg, id) == [a, b]
    requires Identifies(fn, a.callback) && Identifies(fn, b.callback)
    ensures UnsubscribeAsWritten(reg, id, fn) == Panicked
    ensures Unsubscribe(reg, id, fn) == Ok(reg[id := []])
  {
    var m := Matcher(fn);
    var arr := ShiftDown([a, b], 2, 0);
    assert arr == [b, b];
    assert Sweep([a, b], 2, 0, m) == Sweep(arr, 1, 1, m);
    assert Sweep(arr, 1, 1, m) == SweepPanicked;
    assert WithoutMatches([a, b], fn) == [] by {
      assert [a, b][1..] == [b];
      assert [b][1..] == [];
    }
  }

  /** Of two adjacent registrations of `fn` the source's loop deletes only the
      first: the second moves into the slot the loop has just left. */
  lemma UnsubscribeAsWrittenSkipsTwin(reg: Registry, id: string, fn: Any, a: Handler, b: Handler, c: Handler)
    requires Handlers(reg, id) == [a, b, c]
    requires Identifies(fn, a.callback) && Identifies(fn, b.callback) && !Identifies(fn, c.callback)
    ensures UnsubscribeAsWritten(reg, id, fn) == Ok(reg[id := [b, c]])
    ensures Unsubscribe(reg, id, fn) == Ok(reg[id := [c]])
  {
    var m := Matcher(fn);
    var arr := ShiftDown([a, b, c], 3, 0);
    assert arr == [b, c, c];
    assert Sweep([a, b, c], 3, 0, m) == Sweep(arr, 2, 1, m);
    assert Sweep(arr, 2, 1, m) == Sweep(arr, 2, 2, m) == Sweep(arr, 2, 3, m);
    assert arr[..2] == [b, c];
    assert WithoutMatches([c], fn) == [c] by {
      assert [c][1..] == [];
    }
    assert WithoutMatches([b, c], fn) == [c] by {
      assert [b, c][1..] == [c];
    }
    assert WithoutMatches([a, b, c], fn) == [c] by {
      assert [a, b, c][1..] == [b, c];
    }
  }

  // ---------------------------------------------------------------------
  // Properties across calls

  /** Subscribing a function not yet registered on the topic and then
      unsubscribing it, as the source does, restores the topic's handlers. */
  lemma SubscribeUnsubscribeRoundTrip(reg: Registry, id: string, fn: Any, once: bool)
    requires IsFunc(fn)
    requires forall h :: h in Handlers(reg, id) ==> !Identifies(fn, h.callback)
    ensures UnsubscribeAsWritten(OnSubscribe(reg, id, fn, once).registry, id, fn).Ok?
    ensures SameHandlers(UnsubscribeAsWritten(OnSubscribe(reg, id, fn, once).registry, id, fn).registry, reg)
  {
    var hs := Handlers(reg, id);
    var r := OnSubscribe(reg, id, fn, once).registry;
    var added := Handlers(r, id);
    var p := |hs|;
    assert added == hs + [Handler(fn.callback, once)];
    assert forall j :: 0 <= j < |added| && j != p ==> !Identifies(fn, added[j].callback) by {
      assert forall j :: 0 <= j < p ==> added[j] == hs[j] && hs[j] in hs;
    }
    UnsubscribeAsWrittenSingle(r, id, fn, p);
    assert added[..p] + added[p + 1..] == hs;
    assert SameHandlers(r[id := hs], reg);
  }

  /** The same round trip through the corrected unsubscribe. */
  lemma SubscribeUnsubscribeRoundTripCorrected(reg: Registry, id: string, fn: Any, once: bool)
    requires IsFunc(fn)
    requires forall h :: h in Handlers(reg, id) ==> !Identifies(fn, h.callback)
    ensures Unsubscribe(OnSubscribe(reg, id, fn, once).registry, id, fn).Ok?
    ensures SameHandlers(Unsubscribe(OnSubscribe(reg, id, fn, once).registry, id, fn).registry, reg)
  {
    var hs := Handlers(reg, id);
    var r := OnSubscribe(reg, id, fn, once).registry;
    assert Handlers(r, id) == hs + [Handler(fn.callback, once)];
    WithoutMatchesConcat(hs, [Handler(fn.callback, once)], fn);
    assert WithoutMatches([Handler(fn.callback, once)], fn) == [] by {
      assert [Handler(fn.callback, once)][1..] == [];
    }
    assert WithoutMatches(hs, fn) == hs by {
      assert forall j :: 0 <= j < |hs| ==> hs[j] in hs;
      WithoutMatchesNone(hs, fn);
    }
    assert SameHandlers(r[id := hs], reg);
  }

  /** After one emit the topic is settled: its remaining handlers are the
      snapshot's repeating ones in their order, and a further emit calls
      exactly those, latest first, and changes nothing. */
  lemma EmitSettles(reg: Registry, id: string, first: seq<Any>, second: seq<Any>)
    ensures Handlers(Emit(reg, id, first).registry, id) == Repeating(Handlers(reg, id))
    ensures Emit(Emit(reg, id, first).registry, id, second).registry == Emit(reg, id, first).registry
    ensures forall h :: h in Handlers(Emit(reg, id, first).registry, id) ==> !h.once
  {
    var hs := Handlers(reg, id);
    var r1 := Emit(reg, id, first).registry;
    RepeatingMembers(hs);
    if hs == [] {
      assert Repeating(hs) == [];
    } else {
      var rest := Repeating(hs);
      assert Handlers(r1, id) == rest;
      if rest != [] {
        RepeatingFixed(rest);
        assert r1[id := rest] == r1;
      }
    }
  }

  /** An emit calls no callback that none of the topic's handlers holds. */
  lemma EmitCallsOnlyRegistered(reg: Registry, id: string, args: seq<Any>, cb: Callback)
    requires forall h :: h in Handlers(reg, id) ==> h.callback != cb
    ensures forall j :: 0 <= j < |Emit(reg, id, args).trace| ==> Emit(reg, id, args).trace[j].callback != cb
  {
    var hs := Handlers(reg, id);
    var trace := Emit(reg, id, args).trace;
    forall j | 0 <= j < |trace|
      ensures trace[j].callback != cb
    {
      assert trace[j] == Invoke(hs[|hs| - 1 - j], args);
      assert hs[|hs| - 1 - j] in hs;
    }
  }

  /** A one-shot handler whose callback no repeating handler of the topic
      shares is called by the first emit and by no later one. */
  lemma OnceHandlerFiresOnce(reg: Registry, id: string, first: seq<Any>, second: seq<Any>, p: nat)
    requires p < |Handlers(reg, id)| && Handlers(reg, id)[p].once
    requires forall h :: h in Handlers(reg, id) && !h.once ==> h.callback != Handlers(reg, id)[p].callback
    ensures Emit(reg, id, first).trace[|Handlers(reg, id)| - 1 - p] == Invoke(Handlers(reg, id)[p], first)
    ensures forall j :: 0 <= j < |Emit(Emit(reg, id, first).registry, id, second).trace| ==>
      Emit(Emit(reg, id, first).registry, id, second).trace[j].callback != Handlers(reg, id)[p].callback
  {
    var hs := Handlers(reg, id);
    var r1 := Emit(reg, id, first).registry;
    assert forall h :: h in Handlers(r1, id) ==> h.callback != hs[p].callback by {
      EmitSettles(reg, id, first, second);
      RepeatingMembers(hs);
    }
    EmitCallsOnlyRegistered(r1, id, second, hs[p].callback);
  }
}
