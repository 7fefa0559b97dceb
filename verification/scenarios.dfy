/** The behaviours the repository's tests and example programs exercise,
    stated for every choice of callbacks and arguments. */
module Scenarios {
  import opened Errors
  import opened Reflection
  import opened Subscriptions
  import opened Arguments
  import opened EventBus

  /** The type `string`. */
  const Str := Named("string")

  /** Each subscription fires on every later emit, the newest first: one
      handler is called once, then two are called, the second one first. */
  lemma SubscribersAccumulate(id: string, a: Callback, b: Callback, args: seq<Any>)
    ensures var r1 := Subscribe(map[], id, Fn(a)).registry;
      var e1 := Emit(r1, id, args);
      var r2 := Subscribe(e1.registry, id, Fn(b)).registry;
      var e2 := Emit(r2, id, args);
      && e1.trace == [Invoke(Handler(a, false), args)]
      && e2.trace == [Invoke(Handler(b, false), args), Invoke(Handler(a, false), args)]
  {
    var r1 := Subscribe(map[], id, Fn(a)).registry;
    assert Handlers(r1, id) == [Handler(a, false)];
    var e1 := Emit(r1, id, args);
    assert e1.registry == r1 by {
      assert Repeating([Handler(a, false)]) == [Handler(a, false)] by {
        assert [Handler(a, false)][1..] == [];
      }
    }
    var r2 := Subscribe(e1.registry, id, Fn(b)).registry;
    assert Handlers(r2, id) == [Handler(a, false), Handler(b, false)];
  }

  /** A value that is not a function is refused and the registry is kept. */
  lemma NonFunctionRefused(reg: Registry, id: string, v: Any)
    requires !v.Fn?
    ensures Subscribe(reg, id, v) == Failed(NotAFunc)
    ensures SubscribeOnce(reg, id, v) == Failed(NotAFunc)
  {
  }

  /** A one-shot subscription fires on the first emit only. */
  lemma SubscribeOnceFiresOnce(id: string, f: Callback)
    ensures var r := SubscribeOnce(map[], id, Fn(f)).registry;
      var e1 := Emit(r, id, []);
      var e2 := Emit(e1.registry, id, []);
      var e3 := Emit(e2.registry, id, []);
      && e1.trace == [Invoke(Handler(f, true), [])]
      && e2.trace == []
      && e3.trace == []
  {
    var r := SubscribeOnce(map[], id, Fn(f)).registry;
    assert Handlers(r, id) == [Handler(f, true)];
    var e1 := Emit(r, id, []);
    assert Handlers(e1.registry, id) == [] by {
      assert Repeating([Handler(f, true)]) == [] by {
        assert [Handler(f, true)][1..] == [];
      }
    }
  }

  /** Handlers declaring one, no and two string parameters, emitted with one
      argument: the newest gets the argument and a zero string, the middle
      one nothing, the oldest the argument alone. */
  lemma ArityExample(id: string, one: Callback, none: Callback, two: Callback, name: Any)
    requires one.params == [Str] && none.params == [] && two.params == [Str, Str]
    ensures var r1 := Subscribe(map[], id, Fn(one)).registry;
      var r2 := Subscribe(r1, id, Fn(none)).registry;
      var r3 := Subscribe(r2, id, Fn(two)).registry;
      Emit(r3, id, [name]).trace
        == [Invocation(two, [Of(name), Zero(Str)]), Invocation(none, []), Invocation(one, [Of(name)])]
  {
    var r1 := Subscribe(map[], id, Fn(one)).registry;
    var r2 := Subscribe(r1, id, Fn(none)).registry;
    var r3 := Subscribe(r2, id, Fn(two)).registry;
    var hs := [Handler(one, false), Handler(none, false), Handler(two, false)];
    assert Handlers(r3, id) == hs;
    assert PrepareArguments(hs[2], [name]) == [Of(name), Zero(Str)];
    assert PrepareArguments(hs[1], [name]) == [];
    assert PrepareArguments(hs[0], [name]) == [Of(name)];
    var trace := Emit(r3, id, [name]).trace;
    assert trace[0] == Invoke(hs[2], [name]);
    assert trace[1] == Invoke(hs[1], [name]);
    assert trace[2] == Invoke(hs[0], [name]);
  }

  /** A one-shot and a repeating handler on one topic, emitted twice: the
      first emit calls the repeating one and then the one-shot one, the
      second emit the repeating one alone. */
  lemma OnceAndRepeatingExample(id: string, once: Callback, always: Callback, t: Any)
    ensures var r1 := SubscribeOnce(map[], id, Fn(once)).registry;
      var r2 := Subscribe(r1, id, Fn(always)).registry;
      var e1 := Emit(r2, id, [t]);
      var e2 := Emit(e1.registry, id, [t]);
      && e1.trace == [Invoke(Handler(always, false), [t]), Invoke(Handler(once, true), [t])]
      && e2.trace == [Invoke(Handler(always, false), [t])]
  {
    var r1 := SubscribeOnce(map[], id, Fn(once)).registry;
    var r2 := Subscribe(r1, id, Fn(always)).registry;
    var hs := [Handler(once, true), Handler(always, false)];
    assert Handlers(r2, id) == hs;
    var e1 := Emit(r2, id, [t]);
    assert Handlers(e1.registry, id) == [Handler(always, false)] by {
      assert hs[1..] == [Handler(always, false)];
      assert [Handler(always, false)][1..] == [];
    }
  }

  /** A handler receives every emit until it is unsubscribed, and none
      after; unsubscribing again, with any function, then reports that the
      topic has no handlers. */
  lemma UnsubscribeExample(id: string, h: Callback, other: Any, m1: Any, m2: Any)
    ensures var r1 := Subscribe(map[], id, Fn(h)).registry;
      var e1 := Emit(r1, id, [m1]);
      var u := UnsubscribeAsWritten(e1.registry, id, Fn(h));
      && e1.trace == [Invoke(Handler(h, false), [m1])]
      && u.Ok?
      && Emit(u.registry, id, [m2]).trace == []
      && UnsubscribeAsWritten(u.registry, id, other) == Failed(NoHandlers)
  {
    var r1 := Subscribe(map[], id, Fn(h)).registry;
    assert Handlers(r1, id) == [Handler(h, false)];
    var e1 := Emit(r1, id, [m1]);
    assert e1.registry == r1 by {
      assert Repeating([Handler(h, false)]) == [Handler(h, false)] by {
        assert [Handler(h, false)][1..] == [];
      }
    }
    UnsubscribeAsWrittenSingle(r1, id, Fn(h), 0);
  }

  /** Unsubscribing from a topic nobody subscribed to reports that it has
      no handlers. */
  lemma UnsubscribeUnknownTopic(reg: Registry, id: string, fn: Any)
    requires id !in reg
    ensures UnsubscribeAsWritten(reg, id, fn) == Failed(NoHandlers)
  {
  }
}
