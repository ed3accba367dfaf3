/**
 * `Seq`, the plain sequential number generator: one u64 counter that
 * `next_id` hands out and bumps with a wrapping `fetch_add`, and that
 * `reset` stores 0 into.
 *
 * The atomic is a plain field; calls are sequential.
 */
module Sequential {
  import opened U64

  class Seq {
    /** The value of the atomic, which the next call of NextId returns. */
    var counter: u64

    /** `Seq::new()` and `Seq::default()`: the counter starts at 0. */
    constructor ()
      ensures counter == 0
    {
      counter := 0;
    }

    /** `Seq::from(value)`: the counter starts at `value`. */
    constructor From(value: u64)
      ensures counter == value
    {
      counter := value;
    }

    /** `next_id`: `fetch_add(1)` returns the value before the increment. */
    method NextId() returns (id: u64)
      modifies this
      ensures id == old(counter)
      ensures counter == WrappingAdd(old(counter), 1)
    {
      id := counter;
      counter := WrappingAdd(counter, 1);
    }

    /** `reset`: stores 0. */
    method Reset()
      modifies this
      ensures counter == 0
    {
      counter := 0;
    }
  }
}
