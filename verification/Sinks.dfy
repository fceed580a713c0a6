/** The caller's function that takes output, for both the compressor and the decompressor. */
module Sinks {
  import opened Bits

  /** Where the output goes: takes all pieces, or a number of them, and then refuses. */
  class Sink {
    const endless: bool
    var got: seq<byte>
    var patience: nat

    constructor (all: bool, pieces: nat)
      ensures got == [] && endless == all && patience == pieces
    {
      endless, got, patience := all, [], pieces;
    }

    method Put(s: seq<byte>) returns (ok: bool)
      modifies this
      ensures got == old(got) + s && ok == (endless || old(patience) > 0)
      ensures patience == if old(patience) > 0 then old(patience) - 1 else 0
    {
      got := got + s;
      ok := endless || patience > 0;
      if patience > 0 {
        patience := patience - 1;
      }
    }
  }
}
