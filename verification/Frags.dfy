/** The assembler's growing output: frag_more reserves four bytes and
    md_number_to_chars stores one instruction word in them. */
module Frags {
  class CodeFrag {
    var code: seq<nat>

    constructor ()
      ensures code == []
    {
      code := [];
    }

    method Emit(w: nat)
      modifies this
      ensures code == old(code) + [w]
    {
      code := code + [w];
    }
  }
}
