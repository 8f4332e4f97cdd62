/** The child writer (an iow_t) that the compressing writer owns: every
    wandio_wwrite call on it is recorded, together with the answer the
    child gave, and so is the wandio_wdestroy call, in the order they
    happened. */
module ChildWriter {
  import opened ByteOrder

  /** What happened to the child: a wandio_wwrite call (the bytes handed
      over and the value returned) or a wandio_wdestroy call. */
  datatype Event = Wrote(data: seq<byte>, result: int) | Destroyed

  class Child {
    /** Every call made on this child, oldest first. */
    ghost var log: seq<Event>

    constructor ()
      ensures log == []
    {
      log := [];
    }

    /** wandio_wwrite: the sink may accept the bytes (a positive count, at
        most the number offered) or fail (zero or negative); which one it
        does is outside the model. */
    method Write(data: seq<byte>) returns (r: int)
      modifies this
      ensures r <= |data|
      ensures log == old(log) + [Wrote(data, r)]
    {
      r := *;
      if r > |data| {
        r := |data|;
      }
      log := log + [Wrote(data, r)];
    }

    /** wandio_wdestroy. */
    method Destroy()
      modifies this
      ensures log == old(log) + [Destroyed]
    {
      log := log + [Destroyed];
    }
  }
}
