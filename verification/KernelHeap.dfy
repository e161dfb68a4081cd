/** The kernel allocator, as far as the driver can see it: blocks named by ids. An id is handed
    out once and never again, so a stale pointer can never be mistaken for a newer block. */
module KernelHeap {
  import opened ByteStrings

  type Ptr = nat

  const NULL: Ptr := 0

  class Heap {
    var live: map<Ptr, Bytes>
    var next: Ptr

    ghost predicate Valid()
      reads this
    {
      1 <= next && forall p :: p in live ==> 1 <= p < next
    }

    constructor ()
      ensures Valid() && live == map[] && next == 1
    {
      live, next := map[], 1;
    }

    /** kmalloc: contents of the new block are not specified. */
    method Kmalloc(size: nat, ok: bool) returns (p: Ptr)
      requires Valid()
      modifies this
      ensures Valid()
      ensures !ok ==> p == NULL && live == old(live) && next == old(next)
      ensures ok ==> p == old(next) && next == p + 1
      ensures ok ==> p in live && |live[p]| == size && live == old(live)[p := live[p]]
    {
      if !ok {
        return NULL;
      }
      p := next;
      live := live[p := seq(size, _ => 0)];
      next := next + 1;
    }

    /** krealloc, in the form that moves the block: the old id dies, the contents are kept. */
    method Krealloc(p: Ptr, size: nat, ok: bool) returns (q: Ptr)
      requires Valid()
      requires p == NULL || (p in live && |live[p]| <= size)
      modifies this
      ensures Valid()
      ensures !ok ==> q == NULL && live == old(live) && next == old(next)
      ensures ok ==> q == old(next) && next == q + 1
      ensures ok ==> q in live && |live[q]| == size && live == (old(live) - {p})[q := live[q]]
      ensures ok && p != NULL ==> old(live[p]) <= live[q]
    {
      if !ok {
        return NULL;
      }
      q := next;
      var kept := if p == NULL then [] else live[p];
      live := (live - {p})[q := kept + seq(size - |kept|, _ => 0)];
      next := next + 1;
    }

    /** kfree of a live block: the precondition rules out freeing twice. */
    method Kfree(p: Ptr)
      requires Valid()
      requires p in live
      modifies this`live
      ensures Valid()
      ensures live == old(live) - {p}
    {
      live := live - {p};
    }

    method Memcpy(dst: Ptr, at: nat, data: Bytes)
      requires Valid()
      requires dst in live && at + |data| <= |live[dst]|
      modifies this`live
      ensures Valid()
      ensures live == old(live)[dst := old(live[dst])[..at] + data + old(live[dst])[at + |data|..]]
    {
      live := live[dst := live[dst][..at] + data + live[dst][at + |data|..]];
    }
  }
}
