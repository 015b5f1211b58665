/**
 * The interrupt context bridge (rtl/functional.hpp): a function pointer and
 * a context pointer stored side by side, so that a stateless interrupt
 * handler can call into an object. The context pointer is `Option<C>`
 * (None is null); calling the stored function yields an R.
 */
module Functional {
  import opened Wrappers

  class InterruptContext<C, A, R> {
    var handler: Option<(C, A) -> R>
    var context: Option<C>

    /** interrupt_context(): both pointers value-initialised to null. */
    constructor Empty()
      ensures handler.None? && context.None?
      ensures !Valid()
    {
      handler := None;
      context := None;
    }

    /** interrupt_context(function, context = nullptr) */
    constructor (handler: (C, A) -> R, context: Option<C>)
      ensures this.handler == Some(handler) && this.context == context
      ensures Valid() <==> context.Some?
    {
      this.handler := Some(handler);
      this.context := context;
    }

    /** valid(): the context pointer is not null. */
    predicate Valid()
      reads this
    {
      context.Some?
    }

    /** reset(context = nullptr): replaces the context pointer; the function pointer is kept. */
    method Reset(context: Option<C>)
      modifies this
      ensures this.context == context && handler == old(handler)
      ensures Valid() <==> context.Some?
    {
      this.context := context;
    }

    /** operator()(args): the stored function called with the stored context; undefined unless valid. */
    method Call(a: A) returns (r: R)
      requires Valid() && handler.Some?
      ensures r == handler.value(context.value, a)
    {
      r := handler.value(context.value, a);
    }
  }
}
