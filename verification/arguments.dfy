/** Argument adaptation: fitting the arguments of an emit onto the
    parameter list a handler declares. */
module Arguments {
  import opened Reflection
  import opened Subscriptions

  /** Wraps every supplied argument as a call value, position by position. */
  function ArgsToValues(args: seq<Any>): (vals: seq<Value>)
    ensures |vals| == |args|
    ensures forall i :: 0 <= i < |args| ==> vals[i] == Of(args[i])
  {
    if |args| == 0 then []
    else [Of(args[0])] + ArgsToValues(args[1..])
  }

  /** One zero value per listed type, in order. */
  function ZeroValues(tys: seq<Ty>): (vals: seq<Value>)
    ensures |vals| == |tys|
    ensures forall j :: 0 <= j < |tys| ==> vals[j] == Zero(tys[j])
  {
    if |tys| == 0 then []
    else [Zero(tys[0])] + ZeroValues(tys[1..])
  }

  /** The values a handler is called with: as many as it declares
      parameters; the supplied arguments first, the zero value of each
      parameter type for the positions no argument reaches, and arguments
      beyond the declared count dropped. */
  function PrepareArguments(hand: Handler, args: seq<Any>): (vals: seq<Value>)
    ensures |vals| == hand.callback.NumIn()
    ensures forall i :: 0 <= i < |vals| && i < |args| ==> vals[i] == Of(args[i])
    ensures forall i :: |args| <= i < |vals| ==> vals[i] == Zero(hand.callback.params[i])
  {
    var vals := ArgsToValues(args);
    var expected := hand.callback.NumIn();
    if expected > |args| then
      vals + ZeroValues(hand.callback.params[|args|..expected])
    else if expected < |args| then
      vals[0..expected]
    else
      vals
  }

  /** With exactly as many arguments as parameters, every argument is passed
      through unchanged. */
  lemma PrepareExactArity(hand: Handler, args: seq<Any>)
    requires |args| == hand.callback.NumIn()
    ensures PrepareArguments(hand, args) == ArgsToValues(args)
  {
  }

  /** Only the first NumIn arguments matter: surplus arguments never reach
      the handler, whatever they are. */
  lemma PrepareIgnoresSurplus(hand: Handler, args: seq<Any>, extra: seq<Any>)
    requires hand.callback.NumIn() <= |args|
    ensures PrepareArguments(hand, args + extra) == PrepareArguments(hand, args)
  {
    var a := PrepareArguments(hand, args + extra);
    var b := PrepareArguments(hand, args);
    assert forall i :: 0 <= i < |a| ==> a[i] == Of((args + extra)[i]) == Of(args[i]) == b[i];
  }

  /** Appending an argument for a position that is zero-filled otherwise
      replaces exactly that zero value and leaves every other position. */
  lemma PrepareFillsNextSlot(hand: Handler, args: seq<Any>, a: Any)
    requires |args| < hand.callback.NumIn()
    ensures var before := PrepareArguments(hand, args);
            PrepareArguments(hand, args + [a]) == before[|args| := Of(a)]
  {
    var before := PrepareArguments(hand, args);
    var after := PrepareArguments(hand, args + [a]);
    assert |after| == |before[|args| := Of(a)]|;
    forall i | 0 <= i < |after|
      ensures after[i] == before[|args| := Of(a)][i]
    {
      if i < |args| {
        assert (args + [a])[i] == args[i];
      } else if i == |args| {
        assert (args + [a])[i] == a;
      }
    }
  }
}
