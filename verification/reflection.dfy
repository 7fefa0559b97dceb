/** An abstract stand-in for the runtime reflection the bus relies on:
    the dynamic values handed to it, the function values it stores, and
    the argument values it builds for a late-bound call. */
module Reflection {

  /** A runtime type. Function types are structural: two function types
      are the same type exactly when their parameter and result lists are. */
  datatype Ty =
    | Named(name: string)
    | FuncTy(params: seq<Ty>, results: seq<Ty>)

  /** A function value. `code` is its code pointer, `env` the closure
      context it captured; two closures of one function literal share
      `code` but may differ in `env`. */
  datatype Callback = Callback(code: nat, env: nat, params: seq<Ty>, results: seq<Ty>)
  {
    /** The function's type (reflect's Type()). */
    function Type(): Ty {
      FuncTy(params, results)
    }

    /** The number of declared parameters (reflect's NumIn()). */
    function NumIn(): nat {
      |params|
    }
  }

  /** A dynamically typed value (Go's `any`): nil, a function, or any
      other value, kept opaque apart from its type. */
  datatype Any =
    | Nil
    | Fn(callback: Callback)
    | Plain(ty: string, payload: int)

  /** A value prepared for a call: either a supplied argument wrapped as it
      is (reflect.ValueOf) or the zero value of a type (reflect.Zero). */
  datatype Value = Of(arg: Any) | Zero(ty: Ty)

  /** The kind check of subscription: is the value a function? A nil
      interface has no kind at all and is therefore not a function. */
  predicate IsFunc(fn: Any) {
    fn.Fn?
  }

  /** Callable identity as unsubscription compares it: the same function
      type and the same code pointer. The closure context is not compared. */
  predicate Identifies(fn: Any, cb: Callback) {
    fn.Fn? && fn.callback.Type() == cb.Type() && fn.callback.code == cb.code
  }
}
