/** The sentinel errors the bus returns to its callers. */
module Errors {

  /** One constructor per sentinel value. Only NotAFunc and NoHandlers are
      ever returned by the event bus; the other two are declared but unused. */
  datatype BusError =
    | NotAFunc      // the value given to a subscribe call is not a function
    | FuncIsNil     // declared, never returned
    | FnIsNotValid  // declared, never returned
    | NoHandlers    // an unsubscribe targeted a topic without handlers
}
