/** The ring of the most recent commands: aesd-circular-buffer.c and .h. The capacity is the
    length of the slot array; the driver instantiates it with ten. */
module CircularBuffer {
  import opened ByteStrings
  import opened KernelHeap

  datatype Entry = Entry(buffptr: Ptr, size: nat)

  const EMPTY: Entry := Entry(NULL, 0)

  function Sizes(es: seq<Entry>): (r: seq<nat>)
    ensures |r| == |es|
  {
    seq(|es|, i requires 0 <= i < |es| => es[i].size)
  }

  lemma {:induction false} SizeAt(es: seq<Entry>, i: nat)
    requires i < |es|
    ensures Sizes(es)[i] == es[i].size
  {
  }

  /** The fields of struct aesd_circular_buffer, as a value. */
  datatype RingState = RingState(slots: seq<Entry>, inOffs: nat, outOffs: nat, full: bool) {

    predicate WellFormed() {
      && 1 <= |slots| <= 255
      && inOffs < |slots|
      && outOffs < |slots|
      && (full ==> inOffs == outOffs)
    }

    function Count(): (c: nat)
      requires WellFormed()
      ensures c <= |slots|
    {
      if full then |slots|
      else if inOffs >= outOffs then inOffs - outOffs
      else |slots| - outOffs + inOffs
    }

    /** Where the k-th oldest entry lies. */
    function SlotOf(k: nat): (i: nat)
      requires WellFormed() && k < |slots|
      ensures i < |slots|
    {
      if outOffs + k < |slots| then outOffs + k else outOffs + k - |slots|
    }

    /** The live entries, oldest first. */
    function View(): (v: seq<Entry>)
      requires WellFormed()
      ensures |v| == Count()
    {
      var stop := outOffs + Count();
      if stop <= |slots| then slots[outOffs..stop] else slots[outOffs..] + slots[..stop - |slots|]
    }

    /** The slots that hold no live entry. */
    function Unused(): (v: seq<Entry>)
      requires WellFormed()
    {
      var stop := outOffs + Count();
      if stop <= |slots| then slots[..outOffs] + slots[stop..] else slots[stop - |slots|..outOffs]
    }

    /** The effect of a successful add. */
    function Pushed(e: Entry): RingState
      requires WellFormed()
    {
      var in' := (inOffs + 1) % |slots|;
      var out' := if full then (outOffs + 1) % |slots| else outOffs;
      RingState(slots[inOffs := e], in', out', in' == out')
    }
  }

  function EmptyRing(capacity: nat): RingState {
    RingState(seq(capacity, _ => EMPTY), 0, 0, false)
  }

  lemma {:induction false} ModStep(i: nat, n: nat)
    requires i < n
    ensures (i + 1) % n == if i + 1 == n then 0 else i + 1
  {
  }

  lemma {:induction false} ViewAt(s: RingState, k: nat)
    requires s.WellFormed() && k < s.Count()
    ensures s.View()[k] == s.slots[s.SlotOf(k)]
  {
  }

  lemma {:induction false} PushedFull(s: RingState, e: Entry)
    requires s.WellFormed() && s.full
    ensures s.Pushed(e).WellFormed() && s.Pushed(e).full
    ensures s.View() != [] && s.View()[0] == s.slots[s.outOffs]
    ensures s.Pushed(e).View() == s.View()[1..] + [e]
  {
    var n := |s.slots|;
    ModStep(s.inOffs, n);
    var s' := s.Pushed(e);
    if s.outOffs + 1 == n {
      assert s'.View() == s'.slots;
    } else {
      assert s'.View() == s'.slots[s.outOffs + 1..] + s'.slots[..s.outOffs + 1];
    }
  }

  lemma {:induction false} PushedNotFull(s: RingState, e: Entry)
    requires s.WellFormed() && !s.full
    ensures s.Pushed(e).WellFormed()
    ensures |s.View()| < |s.slots|
    ensures s.Pushed(e).View() == s.View() + [e]
  {
    var n := |s.slots|;
    ModStep(s.inOffs, n);
    var s' := s.Pushed(e);
    assert s'.Count() == s.Count() + 1;
    forall k | 0 <= k < s'.Count()
      ensures s'.View()[k] == (s.View() + [e])[k]
    {
      ViewAt(s', k);
      if k < s.Count() {
        ViewAt(s, k);
      }
    }
  }

  /** Adding appends to the logical view and drops the oldest entry once the ring is full. */
  lemma {:induction false} PushedView(s: RingState, e: Entry)
    requires s.WellFormed()
    ensures s.Pushed(e).WellFormed()
    ensures s.Pushed(e).View() == LastN(s.View() + [e], |s.slots|)
    ensures s.full ==> s.View() != [] && s.View()[0] == s.slots[s.outOffs]
  {
    if s.full {
      PushedFull(s, e);
      assert (s.View() + [e])[1..] == s.View()[1..] + [e];
    } else {
      PushedNotFull(s, e);
    }
  }

  /** The ring after a run of successful adds on a fresh buffer. */
  function RingAfter(capacity: nat, es: seq<Entry>): (s: RingState)
    requires 1 <= capacity <= 255
    ensures s.WellFormed() && |s.slots| == capacity
  {
    if es == [] then EmptyRing(capacity)
    else
      var s := RingAfter(capacity, es[..|es| - 1]);
      ModStep(s.inOffs, capacity);
      s.Pushed(es[|es| - 1])
  }

  lemma {:induction false} MulAtLeast(n: nat, d: int)
    requires d >= 1
    ensures n * d >= n
  {
  }

  lemma {:induction false} ModUnique(x: nat, n: nat, q: nat, r: nat)
    requires r < n && x == n * q + r
    ensures x % n == r
  {
    DivisionUnique(n, q, r, x / n, x % n);
  }

  lemma {:induction false} DivisionUnique(n: nat, q: int, r: int, q': int, r': int)
    requires 0 <= r < n && 0 <= r' < n
    requires n * q + r == n * q' + r'
    ensures r == r'
  {
    assert n * (q - q') == n * q - n * q' == r' - r;
    assert n * (q' - q) == n * q' - n * q == r - r';
    if q > q' {
      MulAtLeast(n, q - q');
    } else if q < q' {
      MulAtLeast(n, q' - q);
    }
  }

  lemma {:induction false} ModSucc(k: nat, n: nat)
    requires n >= 1
    ensures (k + 1) % n == (k % n + 1) % n
  {
    var q := k / n;
    ModStep(k % n, n);
    if k % n + 1 == n {
      assert n * (q + 1) == n * q + n;
      ModUnique(k + 1, n, q + 1, 0);
    } else {
      ModUnique(k + 1, n, q, k % n + 1);
    }
  }

  /** After n adds: the offsets, the flag, the logical view and the untouched slots. */
  lemma {:induction false} RingAfterShape(capacity: nat, es: seq<Entry>)
    requires 1 <= capacity <= 255
    ensures var s := RingAfter(capacity, es);
            && s.inOffs == |es| % capacity
            && s.outOffs == (if |es| < capacity then 0 else |es| % capacity)
            && (s.full <==> |es| >= capacity)
            && s.View() == LastN(es, capacity)
            && (forall i :: |es| <= i < capacity ==> s.slots[i] == EMPTY)
  {
    hide RingState.View, RingState.Pushed;
    if es == [] {
      EmptyView(capacity);
    } else {
      var n := |es| - 1;
      var t := RingAfter(capacity, es[..n]);
      RingAfterShape(capacity, es[..n]);
      PushedView(t, es[n]);
      LastNSnoc(es[..n], es[n], capacity);
      assert es == es[..n] + [es[n]];
      PushedOffsets(t, es[n], n);
    }
  }

  lemma {:induction false} EmptyView(capacity: nat)
    requires 1 <= capacity <= 255
    ensures EmptyRing(capacity).View() == []
  {
  }

  lemma {:induction false} PushedOffsets(t: RingState, e: Entry, n: nat)
    requires t.WellFormed()
    requires var capacity := |t.slots|;
             && t.inOffs == n % capacity
             && t.outOffs == (if n < capacity then 0 else n % capacity)
             && (t.full <==> n >= capacity)
             && (forall i :: n <= i < capacity ==> t.slots[i] == EMPTY)
    ensures var s, capacity := t.Pushed(e), |t.slots|;
            && s.inOffs == (n + 1) % capacity
            && s.outOffs == (if n + 1 < capacity then 0 else (n + 1) % capacity)
            && (s.full <==> n + 1 >= capacity)
            && (forall i :: n + 1 <= i < capacity ==> s.slots[i] == EMPTY)
  {
    hide RingState.View;
    ModSucc(n, |t.slots|);
    ModStep(t.inOffs, |t.slots|);
    if n < |t.slots| {
      ModUnique(n, |t.slots|, 0, n);
    }
  }

  lemma {:induction false} LastNSnoc<T>(s: seq<T>, e: T, n: nat)
    requires n >= 1
    ensures LastN(LastN(s, n) + [e], n) == LastN(s + [e], n)
  {
  }

  /** No slot outside the live window was ever written. */
  lemma {:induction false} RingAfterUnused(capacity: nat, es: seq<Entry>)
    requires 1 <= capacity <= 255
    ensures forall e :: e in RingAfter(capacity, es).Unused() ==> e == EMPTY
  {
    RingAfterShape(capacity, es);
    var s := RingAfter(capacity, es);
    if |es| < capacity {
      ModUnique(|es|, capacity, 0, |es|);
      assert s.Unused() == s.slots[|es|..];
    } else {
      assert s.Unused() == [];
    }
  }

  /** Summing the slots in index order splits into live and unused slots, wherever the ring wraps. */
  lemma {:induction false} PhysicalSplit(s: RingState)
    requires s.WellFormed()
    ensures Sum(Sizes(s.slots)) == Sum(Sizes(s.View())) + Sum(Sizes(s.Unused()))
  {
    var stop := s.outOffs + s.Count();
    if stop <= |s.slots| {
      SizesSplit3(s.slots, s.outOffs, stop);
      SizesConcat(s.slots[..s.outOffs], s.slots[stop..]);
    } else {
      SizesSplit3(s.slots, stop - |s.slots|, s.outOffs);
      SizesConcat(s.slots[s.outOffs..], s.slots[..stop - |s.slots|]);
    }
  }

  lemma {:induction false} SizesConcat(a: seq<Entry>, b: seq<Entry>)
    ensures Sum(Sizes(a + b)) == Sum(Sizes(a)) + Sum(Sizes(b))
  {
    assert Sizes(a + b) == Sizes(a) + Sizes(b);
    SumConcat(Sizes(a), Sizes(b));
  }

  lemma {:induction false} SizesSplit3(a: seq<Entry>, i: nat, j: nat)
    requires i <= j <= |a|
    ensures Sum(Sizes(a)) == Sum(Sizes(a[..i])) + Sum(Sizes(a[i..j])) + Sum(Sizes(a[j..]))
  {
    assert a == a[..i] + (a[i..j] + a[j..]);
    SizesConcat(a[..i], a[i..j] + a[j..]);
    SizesConcat(a[i..j], a[j..]);
  }

  lemma {:induction false} SumZero(sizes: seq<nat>)
    ensures Sum(sizes) == 0 <==> forall i :: 0 <= i < |sizes| ==> sizes[i] == 0
  {
    if sizes != [] {
      SumZero(sizes[1..]);
      assert forall i :: 1 <= i < |sizes| ==> sizes[i] == sizes[1..][i - 1];
    }
  }

  /** The size that the driver computes is the size of the live data exactly when every slot
      outside the live window has size zero. */
  lemma {:induction false} PhysicalIsLogical(s: RingState)
    requires s.WellFormed()
    ensures Sum(Sizes(s.slots)) == Sum(Sizes(s.View())) <==> forall e :: e in s.Unused() ==> e.size == 0
  {
    PhysicalSplit(s);
    SumZero(Sizes(s.Unused()));
    var u := s.Unused();
    if forall e :: e in u ==> e.size == 0 {
      assert forall i :: 0 <= i < |u| ==> u[i] in u;
    } else {
      var e :| e in u && e.size != 0;
      var i :| 0 <= i < |u| && u[i] == e;
      assert Sizes(u)[i] != 0;
    }
  }

  /** Every ring the driver can reach satisfies that condition. */
  lemma {:induction false} ReachablePhysicalIsLogical(capacity: nat, es: seq<Entry>)
    requires 1 <= capacity <= 255
    ensures Sum(Sizes(RingAfter(capacity, es).slots)) == Sum(Sizes(LastN(es, capacity)))
  {
    RingAfterShape(capacity, es);
    RingAfterUnused(capacity, es);
    PhysicalIsLogical(RingAfter(capacity, es));
  }

  class Ring {
    const entry: array<Entry>
    var inOffs: nat
    var outOffs: nat
    var full: bool

    ghost function State(): RingState
      reads this, entry
    {
      RingState(entry[..], inOffs, outOffs, full)
    }

    ghost predicate Valid()
      reads this, entry
    {
      State().WellFormed()
    }

    /** aesd_circular_buffer_init: everything zero. */
    constructor (capacity: nat)
      requires 1 <= capacity <= 255
      ensures fresh(entry) && entry.Length == capacity
      ensures Valid() && State() == EmptyRing(capacity)
    {
      entry := new Entry[capacity](_ => EMPTY);
      inOffs, outOffs, full := 0, 0, false;
      new;
      assert entry[..] == seq(capacity, _ => EMPTY);
    }

    /** aesd_circular_buffer_find_entry_offset_for_fpos: the slot is None for NULL, and k says
        which entry that is, counted from the oldest. */
    method FindEntryOffset(charOffset: nat) returns (slot: Option<nat>, byteOffset: nat, ghost k: nat)
      requires Valid()
      ensures slot.None? <==> charOffset >= Sum(Sizes(State().View()))
      ensures slot.Some? ==> Locates(Sizes(State().View()), charOffset, k, byteOffset)
      ensures slot.Some? ==> slot.value < entry.Length && slot.value == State().SlotOf(k)
      ensures slot.Some? ==> entry[slot.value] == State().View()[k]
    {
      ghost var sizes := Sizes(State().View());
      var cumulativeOffset := 0;
      var index := outOffs;
      var count;
      if full {
        count := entry.Length;
      } else if inOffs >= outOffs {
        count := inOffs - outOffs;
      } else {
        count := entry.Length - outOffs + inOffs;
      }
      slot, byteOffset, k := None, 0, 0;
      var i := 0;
      while i < count
        invariant 0 <= i <= count == State().Count()
        invariant index == if i < entry.Length then State().SlotOf(i) else outOffs
        invariant cumulativeOffset == Sum(sizes[..i]) <= charOffset
      {
        ViewAt(State(), i);
        SumSnoc(sizes, i);
        ModStep(index, entry.Length);
        if charOffset < cumulativeOffset + entry[index].size {
          slot, byteOffset, k := Some(index), charOffset - cumulativeOffset, i;
          SumPrefix(sizes, i + 1);
          return;
        }
        cumulativeOffset := cumulativeOffset + entry[index].size;
        index := (index + 1) % entry.Length;
        i := i + 1;
      }
      assert sizes[..count] == sizes;
    }

    /** aesd_circular_buffer_add_entry. The caller owns the memory that e names. The copy made
        here is stored in the slot and at once overwritten there by e itself, so the heap keeps
        a block, named by the old heap.next, that no slot refers to. */
    method AddEntry(heap: Heap, e: Entry, copyOk: bool) returns (oldBuffptr: Ptr)
      requires Valid() && heap.Valid()
      requires e.buffptr in heap.live && e.size == |heap.live[e.buffptr]|
      modifies this, entry, heap
      ensures Valid() && heap.Valid()
      ensures !copyOk ==> State() == old(State()) && oldBuffptr == NULL
      ensures !copyOk ==> heap.live == old(heap.live) && heap.next == old(heap.next)
      ensures copyOk ==> State().View() == LastN(old(State().View()) + [e], entry.Length)
      ensures copyOk ==> State() == old(State()).Pushed(e)
      ensures copyOk ==> oldBuffptr == if old(full) then old(State().View()[0].buffptr) else NULL
      ensures copyOk ==> heap.next == old(heap.next) + 1
      ensures copyOk ==> heap.live == old(heap.live)[old(heap.next) := old(heap.live[e.buffptr])]
    {
      oldBuffptr := NULL;
      PushedView(State(), e);
      if full {
        oldBuffptr := entry[outOffs].buffptr;
      }
      var newBuff := heap.Kmalloc(e.size, copyOk);
      if newBuff == NULL {
        return NULL;
      }
      heap.Memcpy(newBuff, 0, heap.live[e.buffptr]);
      assert heap.live[newBuff] == old(heap.live[e.buffptr]);
      Store(newBuff, e);
    }

    /** The slot writes and the offsets of the same function. */
    method Store(newBuff: Ptr, e: Entry)
      requires Valid()
      modifies this, entry
      ensures Valid() && State() == old(State()).Pushed(e)
      ensures State().View() == LastN(old(State().View()) + [e], entry.Length)
    {
      PushedView(State(), e);
      entry[inOffs] := Entry(newBuff, entry[inOffs].size);
      entry[inOffs] := Entry(entry[inOffs].buffptr, e.size);
      entry[inOffs] := e;
      assert entry[..] == old(entry[..])[inOffs := e];
      inOffs := (inOffs + 1) % entry.Length;
      if full {
        outOffs := (outOffs + 1) % entry.Length;
      }
      full := inOffs == outOffs;
    }

    /** aesd_circular_buffer_size: every slot, in index order. */
    method Size() returns (size: nat)
      requires Valid()
      ensures size == Sum(Sizes(entry[..]))
    {
      ghost var sizes := Sizes(entry[..]);
      size := 0;
      for index := 0 to entry.Length
        invariant size == Sum(sizes[..index])
      {
        SumSnoc(sizes, index);
        size := size + entry[index].size;
      }
      assert sizes[..entry.Length] == sizes;
    }
  }
}
