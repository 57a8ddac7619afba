/** malloc and free as the shim uses them: a block is live from its allocation to its one release. */
module Memory {

  predicate NoDuplicates<T(==)>(s: seq<T>) { forall i, j :: 0 <= i < j < |s| ==> s[i] != s[j] }

  ghost function SetOf(s: seq<object>): set<object> { set x | x in s }

  class Heap {
    /** The blocks that were allocated and not freed. */
    ghost var live: set<object>
    /** The blocks that were freed, in order. */
    ghost var freed: seq<object>

    constructor ()
      ensures Valid() && live == {} && freed == []
    {
      live, freed := {}, [];
    }

    /** Nothing is freed twice, and nothing that was freed is live. */
    ghost predicate Valid()
      reads this
    {
      NoDuplicates(freed) && forall i :: 0 <= i < |freed| ==> freed[i] !in live
    }

    /** A block that malloc has just returned. */
    ghost method Track(x: object)
      requires Valid() && x !in freed
      modifies this
      ensures Valid() && live == old(live) + {x} && freed == old(freed)
    {
      live := live + {x};
    }

    /** free: the block must be live, so freeing it a second time is ruled out. */
    ghost method Free(x: object)
      requires Valid() && x in live
      modifies this
      ensures Valid() && live == old(live) - {x} && freed == old(freed) + [x]
    {
      live := live - {x};
      freed := freed + [x];
    }
  }
}
