/** An atomic integer, shared by whoever holds a reference to it. */
module Counters {

  class Counter {
    var value: int

    constructor ()
      ensures value == 0
    {
      value := 0;
    }

    method CompareAndSwap(seen: int, next: int) returns (ok: bool)
      modifies this
      ensures ok <==> old(value) == seen
      ensures value == if ok then next else old(value)
    {
      ok := value == seen;
      if ok {
        value := next;
      }
    }
  }
}
