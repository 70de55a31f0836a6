/**
 * The output handle `fwrite` writes to: everything written so far, in order.
 */
module Stream {

  class Stream {
    /** The bytes written to the handle since it was opened. */
    var written: string

    constructor()
      ensures written == ""
    {
      written := "";
    }

    /** `fwrite($handle, $s)`: appends `s`. */
    method Write(s: string)
      modifies this
      ensures written == old(written) + s
    {
      written := written + s;
    }
  }
}
