/** The subscription registry: topic names mapped to ordered handler lists. */
module Subscriptions {
  import opened Reflection

  /** A registered callback and whether it fires only once. */
  datatype Handler = Handler(callback: Callback, once: bool)

  /** Topic name to handlers in registration order. A topic whose list is
      empty and a topic that was never subscribed behave alike. */
  type Registry = map<string, seq<Handler>>

  /** The handler list of a topic; an absent topic reads as the empty list. */
  function Handlers(reg: Registry, id: string): seq<Handler> {
    if id in reg then reg[id] else []
  }

  /** Two registries that agree on every topic's handler list. */
  ghost predicate SameHandlers(a: Registry, b: Registry) {
    forall t :: Handlers(a, t) == Handlers(b, t)
  }

  /** Deletes the handler at `index` from a topic, shifting the later
      handlers down by one. Slicing past the end of the list is a runtime
      fault in the source, hence the precondition. */
  function RemoveHandler(reg: Registry, id: string, index: nat): (r: Registry)
    requires index < |Handlers(reg, id)|
    ensures id in r
    ensures |r[id]| == |reg[id]| - 1
    ensures forall j :: 0 <= j < index ==> r[id][j] == reg[id][j]
    ensures forall j :: index <= j < |r[id]| ==> r[id][j] == reg[id][j + 1]
    ensures r.Keys == reg.Keys
    ensures forall t :: t != id ==> Handlers(r, t) == Handlers(reg, t)
  {
    var s := reg[id];
    assert s == s[..index] + [s[index]] + s[index + 1..];
    reg[id := s[..index] + s[index + 1..]]
  }

  /** The handlers of a list that are not one-shot, in their order. */
  function Repeating(s: seq<Handler>): (r: seq<Handler>)
    ensures |r| <= |s|
  {
    if |s| == 0 then []
    else (if s[0].once then [] else [s[0]]) + Repeating(s[1..])
  }

  /** The handlers of a list whose callback `fn` does not identify, in
      their order. */
  function WithoutMatches(s: seq<Handler>, fn: Any): (r: seq<Handler>)
    ensures |r| <= |s|
  {
    if |s| == 0 then []
    else (if Identifies(fn, s[0].callback) then [] else [s[0]]) + WithoutMatches(s[1..], fn)
  }

  /** The survivors are exactly the listed handlers that are not one-shot. */
  lemma {:induction false} RepeatingMembers(s: seq<Handler>)
    ensures forall h :: h in Repeating(s) <==> h in s && !h.once
    decreases |s|
  {
    if |s| > 0 {
      assert s == [s[0]] + s[1..];
      RepeatingMembers(s[1..]);
    }
  }

  /** Filtering one-shot handlers distributes over concatenation, so the
      survivors keep their relative order. */
  lemma {:induction false} RepeatingConcat(a: seq<Handler>, b: seq<Handler>)
    ensures Repeating(a + b) == Repeating(a) + Repeating(b)
    decreases |a|
  {
    if |a| == 0 {
      assert a + b == b;
    } else {
      assert (a + b)[1..] == a[1..] + b;
      RepeatingConcat(a[1..], b);
    }
  }

  /** A list without one-shot handlers is its own filtering, and in
      particular filtering twice is filtering once. */
  lemma {:induction false} RepeatingFixed(s: seq<Handler>)
    requires forall h :: h in s ==> !h.once
    ensures Repeating(s) == s
    decreases |s|
  {
    if |s| > 0 {
      assert s == [s[0]] + s[1..];
      RepeatingFixed(s[1..]);
    }
  }

  /** The handlers that survive are exactly the listed ones `fn` does not
      identify. */
  lemma {:induction false} WithoutMatchesMembers(s: seq<Handler>, fn: Any)
    ensures forall h :: h in WithoutMatches(s, fn) <==> h in s && !Identifies(fn, h.callback)
    decreases |s|
  {
    if |s| > 0 {
      assert s == [s[0]] + s[1..];
      WithoutMatchesMembers(s[1..], fn);
    }
  }

  /** Removing matches distributes over concatenation. */
  lemma {:induction false} WithoutMatchesConcat(a: seq<Handler>, b: seq<Handler>, fn: Any)
    ensures WithoutMatches(a + b, fn) == WithoutMatches(a, fn) + WithoutMatches(b, fn)
    decreases |a|
  {
    if |a| == 0 {
      assert a + b == b;
    } else {
      assert (a + b)[0] == a[0];
      assert (a + b)[1..] == a[1..] + b;
      WithoutMatchesConcat(a[1..], b, fn);
      if Identifies(fn, a[0].callback) {
        assert WithoutMatches(a + b, fn) == WithoutMatches(a[1..] + b, fn);
      } else {
        assert WithoutMatches(a + b, fn) == [a[0]] + WithoutMatches(a[1..] + b, fn);
      }
    }
  }

  /** A list in which nothing matches is left as it is. */
  lemma {:induction false} WithoutMatchesNone(s: seq<Handler>, fn: Any)
    requires forall j :: 0 <= j < |s| ==> !Identifies(fn, s[j].callback)
    ensures WithoutMatches(s, fn) == s
    decreases |s|
  {
    if |s| > 0 {
      assert s == [s[0]] + s[1..];
      WithoutMatchesNone(s[1..], fn);
    }
  }

  /** With exactly one match, at `p`, removing matches is deleting `p`. */
  lemma {:induction false} WithoutMatchesSingle(s: seq<Handler>, fn: Any, p: nat)
    requires p < |s| && Identifies(fn, s[p].callback)
    requires forall j :: 0 <= j < |s| && j != p ==> !Identifies(fn, s[j].callback)
    ensures WithoutMatches(s, fn) == s[..p] + s[p + 1..]
    decreases p
  {
    if p == 0 {
      WithoutMatchesNone(s[1..], fn);
    } else {
      WithoutMatchesSingle(s[1..], fn, p - 1);
      assert s[..p] == [s[0]] + s[1..][..p - 1];
      assert s[p + 1..] == s[1..][p..];
    }
  }
}
