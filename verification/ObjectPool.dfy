/** The object pool: its slots and the queue of free slot numbers (ObjectPool.h). */
module ObjectPool {

  /** What `GetTag` answers. */
  function Front(queue: seq<int>): int
  {
    if queue == [] then -1 else queue[0]
  }

  function Rest(queue: seq<int>): seq<int>
  {
    if queue == [] then [] else queue[1..]
  }

  function InOrder(n: nat): seq<int>
  {
    seq(n, i requires 0 <= i < n => i)
  }

  class Pool<T> {
    const slots: seq<T>
    var poolIndex: seq<int>

    /** `Init` on a new pool: every slot is free, in order. */
    constructor (slots: seq<T>)
      ensures this.slots == slots && poolIndex == InOrder(|slots|)
    {
      this.slots := slots;
      this.poolIndex := InOrder(|slots|);
    }

    /** Takes the slot that has been free for longest, or answers -1. */
    method GetTag() returns (tag: int)
      modifies this
      ensures tag == Front(old(poolIndex)) && poolIndex == Rest(old(poolIndex))
    {
      if |poolIndex| == 0 {
        return -1;
      }
      tag := poolIndex[0];
      poolIndex := poolIndex[1..];
    }

    /** Takes back any number, unchecked. */
    method ReleaseTag(tag: int)
      modifies this
      ensures poolIndex == old(poolIndex) + [tag]
    {
      poolIndex := poolIndex + [tag];
    }
  }
}
