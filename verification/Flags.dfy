/** Flags that are translated one test at a time. */
module Flags {

  /** if (flags & from) result |= to */
  function Flag(flags: bv32, from: bv32, to: bv32): bv32 { if flags & from != 0 then to else 0 }
}
