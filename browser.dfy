/** The document whose `cookie` property both cookie classes read and assign. */
module Browser {

  class Document {
    /** Whether `document` (and `window`) exist, as opposed to server-side prerendering. */
    var defined: bool
    /** What reading `document.cookie` returns. */
    var cookie: string
    /** Every string assigned to `document.cookie`, oldest first. */
    var writes: seq<string>

    constructor (defined: bool, cookie: string)
      ensures this.defined == defined && this.cookie == cookie && writes == []
    {
      this.defined := defined;
      this.cookie := cookie;
      writes := [];
    }

    /** `document.cookie = s`. What the browser then stores is not modelled. */
    method Assign(s: string)
      requires defined
      modifies this`writes
      ensures writes == old(writes) + [s]
    {
      writes := writes + [s];
    }
  }
}
