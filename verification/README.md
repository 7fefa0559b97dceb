# fluxo event bus, modelled in Dafny

This project models the sequential core of the in-process event bus in
`event/bus.go` of fluxo. Callers subscribe callbacks to string topics, either
as repeating handlers or as one-shot handlers. `Emit` calls a topic's handlers
with a dynamically typed argument list. The list is adapted to each handler's
declared parameters. `Unsubscribe` removes a callback from a topic again.

The model is pure: each public operation is a function from a registry to a
result. It is split into modules:

- `Errors` holds the sentinel errors of `error.go`.
- `Reflection` is an abstract stand-in for Go's `reflect`. It covers dynamic
  values, function values with a code pointer, a closure context and a
  signature, and call values. `Reflection.IsFunc` is the kind check of
  event/bus.go:42. `Reflection.Identifies` is the type and code-pointer
  comparison of event/bus.go:125-126.
- `Subscriptions` holds the handler record, the topic-to-handlers registry,
  `removeHandler`, and two reference filters used to state the properties.
- `Arguments` models `argsToValues` and `prepareArguments`.
- `Slices` models the Go slice mechanics of deleting from a slice while
  ranging over it. `Slices.Sweep` is the range loop of
  event/bus.go:123-129 itself. It runs for the length fixed on entry and
  reads the shared backing array that each deletion shifts.
- `EventBus` models `onSubscribe`, `Subscribe`, `SubscribeOnce`, `Emit` and
  `Unsubscribe`, the last both as written and corrected.
- `Scenarios` restates the repository's tests and example programs as
  lemmas over all callbacks and arguments.

A handler call is recorded as an `Invocation`: the callback and the values
it received. Each locked region is one atomic step. Handlers never call back
into the bus.

Two details follow the code where its description says otherwise:

- Unsubscribe removes every handler that matches. It is described that way,
  but the code deletes from the slice it ranges over. With a single match it
  does exactly that. With several matches it can fault or skip a match (see
  Findings). `EventBus.Unsubscribe` is the corrected version, and
  `EventBus.UnsubscribeAsWritten` follows the code.
- Unsubscribing `nil` from a non-empty topic is a runtime fault. The first
  loop turn asks a zero `reflect.Value` for its type. The model has a
  `Panicked` outcome for it.

## Model

| member | source | states |
|---|---|---|
| `EventBus.OnSubscribe` | event/bus.go:41-50 | A value that is not a function is refused with NotAFunc and nothing else happens. A function value is accepted with a nil error, and its handler is appended at the end of the topic's list. The topic exists afterwards, and no other topic changes. |
| `EventBus.Subscribe` | event/bus.go:108-113 | The error is NotAFunc exactly for non-functions, and every function value is accepted with a nil error. On success the topic's list grows by exactly one repeating handler for the callback at its end. The old handlers keep their positions, and other topics are untouched. |
| `EventBus.SubscribeOnce` | event/bus.go:134-139 | Same as Subscribe: NotAFunc exactly for non-functions, a nil error for every function value. The appended handler is one-shot. |
| `Arguments.ArgsToValues` | event/bus.go:52-59 | One value per argument, each wrapping the argument at the same position. |
| `Arguments.ZeroValues` | event/bus.go:66-69 | One zero value per parameter type, in parameter order. |
| `Arguments.PrepareArguments` | event/bus.go:61-75 | The handler receives exactly as many values as it declares parameters. Position i carries the i-th argument while arguments last. Positions no argument reaches carry the zero value of that parameter's type. |
| `Arguments.PrepareExactArity` | event/bus.go:74 | When the argument count equals the parameter count, the values are the wrapped arguments unchanged. |
| `Arguments.PrepareIgnoresSurplus` | event/bus.go:71-73 | Once a handler has all its parameters, appending further arguments of any kind changes nothing it receives. |
| `Arguments.PrepareFillsNextSlot` | event/bus.go:65-70 | Supplying one more argument for a zero-filled position replaces exactly that zero value. |
| `Subscriptions.RemoveHandler` | event/bus.go:82-84 | The topic's list loses its element at the index. Earlier elements stay, later ones move down by one, and the key set and every other topic are unchanged. |
| `Subscriptions.RepeatingMembers` | event/bus.go:100-104 | A handler survives the one-shot cleanup if and only if it was in the list and is not one-shot. |
| `Subscriptions.RepeatingConcat` | event/bus.go:100-104 | The cleanup works element by element: filtering two joined lists is joining the two filtered lists, so survivors keep their order. |
| `Subscriptions.RepeatingFixed` | event/bus.go:100-104 | A list with no one-shot handler is left as it is by the cleanup. |
| `Subscriptions.WithoutMatchesMembers` | event/bus.go:123-129 | Corrected unsubscribe filter: a handler survives if and only if it was in the list and the unsubscribed function does not identify it. |
| `Subscriptions.WithoutMatchesConcat` | event/bus.go:123-129 | The corrected filter works element by element over joined lists, so survivors keep their order. |
| `Subscriptions.WithoutMatchesNone` | event/bus.go:123-129 | With no match the corrected filter returns the list unchanged. |
| `Subscriptions.WithoutMatchesSingle` | event/bus.go:123-129 | With exactly one match, at p, the corrected filter deletes position p and nothing else. |
| `Slices.ShiftDown` | event/bus.go:83 | An in-place deletion keeps the backing array's length. |
| `Slices.ShiftDownLayout` | event/bus.go:83 | After an in-place deletion, the elements before the index stay and the rest of the slice moves down one place. From the new length on, the backing array keeps its old contents, including a stale copy of the old last element. |
| `Slices.SweepSkips` | event/bus.go:123-129 | Loop turns over elements that do not match change nothing. |
| `Slices.SweepNoMatch` | event/bus.go:123-131 | When nothing matches, the loop leaves the slice as it found it. |
| `Slices.SweepSingleMatch` | event/bus.go:123-129 | With a single match the loop ends with exactly that element deleted and the others in order. The stale copy past the end never matches. |
| `Slices.SweepAfterRemoval` | event/bus.go:123-129 | After the single match is deleted, the remaining turns delete nothing more, and the slice is the original minus that element. |
| `EventBus.Dispatch` | event/bus.go:96-105 | The dispatch loop makes exactly one call for each snapshot position still to be visited. |
| `EventBus.DispatchCalls` | event/bus.go:96-98 | The j-th call goes to snapshot position k-1-j, with the emit's arguments adapted to that handler. The loop therefore runs from the newest handler down to the oldest. |
| `EventBus.DispatchRetires` | event/bus.go:100-104 | When the loop ends, the topic holds exactly the snapshot's repeating handlers in their order, and the rest of the registry is unchanged. |
| `EventBus.AfterCall` | event/bus.go:100-104 | Removing a one-shot handler at its snapshot index after its call keeps the loop invariant. Snapshot positions below the index are still at their places in the live list. Nothing but the topic changes. |
| `EventBus.DispatchStep` | event/bus.go:100-104 | One loop turn keeps the invariant for both a one-shot handler, which is removed, and a repeating one, which is kept. |
| `EventBus.Emit` | event/bus.go:86-106 | On a topic without handlers, nothing is called and nothing changes. Otherwise every handler is called exactly once, newest first, with adapted arguments. Afterwards the topic holds the old list minus its one-shot handlers, in order, and no other topic changes. |
| `EventBus.Unsubscribe` | event/bus.go:115-132 | Corrected unsubscribe. It returns NoHandlers exactly when the topic is empty, and faults exactly on nil for a non-empty topic. It returns nil exactly in every other case. The topic then holds the reference filter's result: the old handlers the function does not identify, in their order and with their repetitions. A handler stays if and only if the function does not identify it. Keys and other topics are unchanged. |
| `EventBus.UnsubscribeAsWritten` | event/bus.go:115-132 | The unsubscribe loop as written: NoHandlers exactly on an empty topic, and no other topic changes. |
| `EventBus.UnsubscribeAsWrittenAgrees` | event/bus.go:123-129 | When the function identifies at most one handler of the topic, the loop as written gives the same outcome as the corrected unsubscribe. |
| `EventBus.UnsubscribeAsWrittenSingle` | event/bus.go:123-129 | A single matching registration is deleted, the other handlers keep their order, and the result is nil. |
| `EventBus.UnsubscribeAsWrittenNoMatch` | event/bus.go:119-131 | For a non-nil function that matches no handler of a non-empty topic, the result is nil and the registry is unchanged. |
| `EventBus.UnsubscribeAsWrittenPanicsOnTwins` | event/bus.go:123-129 | Two matching registrations in a two-handler topic make the loop fault, while the corrected version empties the topic. |
| `EventBus.UnsubscribeAsWrittenSkipsTwin` | event/bus.go:123-129 | For [a, b, c] where a and b match, the loop leaves [b, c], while the corrected version leaves [c]. |
| `EventBus.SubscribeUnsubscribeRoundTrip` | event/bus.go:108-132 | Subscribing a function not yet on the topic and then unsubscribing it as written succeeds, and every topic's list is as before. |
| `EventBus.SubscribeUnsubscribeRoundTripCorrected` | event/bus.go:108-132 | The same round trip through the corrected unsubscribe. |
| `EventBus.EmitSettles` | event/bus.go:86-106 | After one emit the topic holds only repeating handlers. A second emit then leaves the registry unchanged. |
| `EventBus.EmitCallsOnlyRegistered` | event/bus.go:96-98 | An emit calls no callback that none of the topic's handlers holds. |
| `EventBus.OnceHandlerFiresOnce` | event/bus.go:96-105 | A one-shot handler is called by the first emit, at its reverse position. No later emit calls its callback unless a repeating handler shares it. |
| `Scenarios.SubscribersAccumulate` | bus_test.go:13-56 | Subscribing a, emitting, subscribing b and emitting again calls a, then b followed by a. |
| `Scenarios.NonFunctionRefused` | bus_test.go:35-39 | Subscribing a value that is not a function returns NotAFunc, through either subscribe call. |
| `Scenarios.SubscribeOnceFiresOnce` | bus_test.go:58-92 | A one-shot subscription is called on the first of three emits and never again. |
| `Scenarios.ArityExample` | example/args.go:13-46 | Handlers with one, no and two string parameters, emitted with one argument, receive (arg, zero string), then nothing, then (arg), in that order. |
| `Scenarios.OnceAndRepeatingExample` | example/once.go:14-32 | A one-shot and then a repeating handler, emitted twice, are called repeating, one-shot, repeating. |
| `Scenarios.UnsubscribeExample` | example/unsub.go:13-40 | A handler receives emits until it is unsubscribed and none afterwards. A further unsubscribe on the now-empty topic returns NoHandlers. |
| `Scenarios.UnsubscribeUnknownTopic` | bus_test.go:94-128 | Unsubscribing from a topic nobody subscribed to returns NoHandlers. |

## Left out

- The worker pool (`pool/`) and asynchronous dispatch are not part of this model. `SubscribeAsync`, `Unregister` and `NewEventBus`, which the tests call, are not in `event/bus.go` either.
- `New` only builds an empty registry. The model starts from any registry value, including `map[]`.
- The mutex, data races and concurrent emits are not modelled. Each locked region is one atomic step. The unlocked length read at event/bus.go:87 is treated like the rest.
- Re-entrancy is assumed away: a handler that subscribes, unsubscribes or emits during its own call is not modelled. Handler calls are recorded in a trace and have no effect on the bus.
- Go's `reflect` is abstract. Faults of `Value.Call` (event/bus.go:79) are not modelled: an argument whose type does not fit the parameter, and a nil argument, which `reflect.ValueOf` turns into a zero `Value` that `Call` refuses whatever the parameter type. Neither are variadic functions, or typed nil function values, which pass the kind check.
- A fault inside Unsubscribe is modelled only as the outcome `Panicked`. The partial registry state it leaves behind is not.
- EventBus.Emit: assumes every handler call returns normally, so its result always holds the full trace and the full one-shot cleanup. A fault in `Value.Call` (a nil or ill-typed argument) or a panic inside a handler stops the loop at event/bus.go:98. The handlers at lower positions are then never called, and the current one-shot handler stays registered, because the removal at event/bus.go:100-104 never runs. None of this is modelled; Emit has no fault outcome.
- Error message texts are left out. `FuncIsNil` and `FnIsNotValid` are declared but never returned, so they appear only as constructors.
- `callHandler` (event/bus.go:77-80) appears only as `EventBus.Invoke`, which records the callback and the prepared values.
- EventBus.Dispatch: its own contract gives only the number of calls. Which handler each call reaches and the registry afterwards are stated by `EventBus.DispatchCalls` and `EventBus.DispatchRetires`.
- EventBus.UnsubscribeAsWritten: its own contract gives only the error case and the other topics. What it leaves on the topic is stated by the lemmas `UnsubscribeAsWrittenAgrees`, `UnsubscribeAsWrittenSingle`, `UnsubscribeAsWrittenNoMatch`, `UnsubscribeAsWrittenPanicsOnTwins` and `UnsubscribeAsWrittenSkipsTwin`. No claim about several matches is made beyond those two lemmas.
- Subscriptions.RemoveHandler: requires a valid index. Emit only ever passes one, which `EventBus.AfterCall` proves. The out-of-range fault of the unsubscribe loop is modelled separately, in `Slices.Sweep`.

## Findings

| source | as written | input that shows it | evidently intended | confidence | as-written member | corrected member |
|---|---|---|---|---|---|---|
| event/bus.go:123-129 | The loop ranges over the topic's slice and deletes matches from that same slice. Later handlers shift down under the loop index, and the stale last element of the backing array is visited again. | Topic [a, a], unsubscribe a: the second turn deletes past the end of the slice, a runtime fault. Topic [a, a, b], unsubscribe a: the result is [a, b]. | Remove every handler the function identifies, keep the rest in order, and return nil. | not executed | `EventBus.UnsubscribeAsWritten` (with `EventBus.UnsubscribeAsWrittenPanicsOnTwins`, `EventBus.UnsubscribeAsWrittenSkipsTwin`) | `EventBus.Unsubscribe` |
