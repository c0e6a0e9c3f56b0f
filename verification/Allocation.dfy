/** The allocation hooks: numbered blocks, and any pattern of refused requests. */
module Allocation {
  import opened Bytes

  class Heap {
    var live: set<nat>
    /** How many requests were made; a granted request gets its own number as its block. */
    var requests: nat
    var refusals: nat
    /** Which requests succeed. */
    const grants: nat -> bool
    /** Whether `hooks.reallocate` is there; without it blocks grow by allocate, copy and free. */
    const reallocates: bool

    constructor (grants: nat -> bool, reallocates: bool)
      ensures Valid() && live == {} && requests == 0 && refusals == 0
      ensures this.grants == grants && this.reallocates == reallocates
    {
      this.grants, this.reallocates := grants, reallocates;
      live, requests, refusals := {}, 0, 0;
    }

    ghost predicate Valid()
      reads this
    {
      forall b | b in live :: b < requests
    }

    method Allocate() returns (block: Option<nat>)
      requires Valid()
      modifies this
      ensures Valid() && requests == old(requests) + 1
      ensures block == if grants(old(requests)) then Some(old(requests)) else None
      ensures live == old(live) + (if block.Some? then {block.value} else {})
      ensures refusals == old(refusals) + (if block.Some? then 0 else 1)
    {
      if grants(requests) {
        block := Some(requests);
        live := live + {requests};
      } else {
        block := None;
        refusals := refusals + 1;
      }
      requests := requests + 1;
    }

    /** Only a live block may be freed, so no block is freed twice. */
    method Free(block: nat)
      requires Valid() && block in live
      modifies this`live
      ensures Valid() && live == old(live) - {block}
    {
      live := live - {block};
    }

    /** A refused `realloc` keeps the old block; a granted one replaces it. */
    method Reallocate(block: nat) returns (moved: Option<nat>)
      requires Valid() && block in live
      modifies this
      ensures Valid() && requests == old(requests) + 1
      ensures moved == if grants(old(requests)) then Some(old(requests)) else None
      ensures live == if moved.Some? then old(live) - {block} + {moved.value} else old(live)
      ensures refusals == old(refusals) + (if moved.Some? then 0 else 1)
    {
      moved := Allocate();
      if moved.Some? {
        Free(block);
      }
    }
  }
}
