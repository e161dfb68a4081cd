/** Who owns every block the driver ever allocated. */
module Ledger {
  import opened ByteStrings
  import opened KernelHeap
  import opened CircularBuffer
  import opened History

  /** The one thing a block is for: the chunk being written, the accumulator, the i-th command
      (while in the ring), the copy of the i-th command that add_entry makes and loses, the i-th
      accumulator dropped because that copy could not be made, or nothing any more. */
  datatype Role = Temporary | Accumulator | Slot(i: nat) | LostCopy(i: nat) | Orphan(i: nat) | Freed

  datatype Book = Book(
    live: map<Ptr, Bytes>, next: Ptr,
    temp: Ptr, acc: Ptr, open: Bytes,
    role: map<Ptr, Role>,
    pushed: seq<Entry>, evicted: nat, lost: seq<Ptr>, stored: seq<Bytes>,
    orphans: seq<Ptr>, dropped: seq<Bytes>)
  {
    predicate InRing(i: int) {
      evicted <= i < |pushed|
    }

    predicate RoleMatches(p: Ptr)
      requires p in role
    {
      match role[p]
      case Freed => true
      case Temporary => p == temp
      case Accumulator => p == acc
      case Slot(i) => InRing(i) && pushed[i].buffptr == p
      case LostCopy(i) => i < |lost| && lost[i] == p
      case Orphan(i) => i < |orphans| && orphans[i] == p
    }

    /** Every id handed out has a role, and the live ones are those not freed. */
    ghost predicate Complete() {
      && 1 <= next
      && (forall p :: p in role <==> 1 <= p < next)
      && (forall p :: p in live <==> p in role && role[p] != Freed)
      && (forall p {:trigger RoleMatches(p)} :: p in role ==> RoleMatches(p))
    }

    /** Everything the driver points at, or lost, has that role. */
    ghost predicate Placed() {
      && evicted <= |pushed| == |lost| == |stored|
      && |orphans| == |dropped|
      && (temp != NULL ==> temp in role && role[temp] == Temporary)
      && (acc != NULL ==> acc in role && role[acc] == Accumulator)
      && (forall i :: 0 <= i < |pushed| ==> pushed[i].buffptr in role)
      && (forall i :: 0 <= i < |pushed| ==> role[pushed[i].buffptr] == if InRing(i) then Slot(i) else Freed)
      && (forall i :: 0 <= i < |lost| ==> lost[i] in role && role[lost[i]] == LostCopy(i))
      && (forall i :: 0 <= i < |orphans| ==> orphans[i] in role && role[orphans[i]] == Orphan(i))
    }

    ghost predicate Filled()
      requires Complete() && Placed()
    {
      && (acc == NULL <==> open == [])
      && (acc != NULL ==> live[acc] == open)
      && (forall i :: 0 <= i < |pushed| ==> pushed[i].size == |stored[i]|)
      && (forall i :: InRing(i) ==> live[pushed[i].buffptr] == stored[i])
      && (forall i :: 0 <= i < |lost| ==> live[lost[i]] == stored[i])
      && (forall i :: 0 <= i < |orphans| ==> live[orphans[i]] == dropped[i])
    }

    ghost predicate Owned() {
      Complete() && Placed() && Filled()
    }

    /** kmalloc of the temporary buffer. */
    function TakeTemp(content: Bytes): Book {
      this.(live := live[next := content], next := next + 1, temp := next, role := role[next := Temporary])
    }

    /** kfree of the temporary buffer. */
    function ReleaseTemp(): Book {
      this.(live := live - {temp}, temp := NULL, role := role[temp := Freed])
    }

    /** kfree of the accumulator. */
    function ReleaseAcc(): Book {
      this.(live := live - {acc}, acc := NULL, open := [], role := role[acc := Freed])
    }

    /** A new block for the accumulator. */
    function NewAcc(content: Bytes): Book {
      this.(live := live[next := content], next := next + 1, acc := next, open := content,
      role := role[next := Accumulator])
    }

    /** krealloc of the accumulator and the copy of a chunk behind what it held. */
    function Grow(chunk: Bytes): Book {
      (if acc == NULL then this else ReleaseAcc()).NewAcc(open + chunk)
    }

    /** The accumulator becomes a command, and its copy is lost. */
    function Commit(): Book
      requires acc != NULL
    {
      var n := |pushed|;
      this.(live := live[next := open], next := next + 1, acc := NULL, open := [],
      role := role[acc := Slot(n)][next := LostCopy(n)],
      pushed := pushed + [Entry(acc, |open|)], lost := lost + [next], stored := stored + [open])
    }

    /** kfree of the oldest command in the ring. */
    function Evict(): Book
      requires evicted < |pushed|
    {
      var oldest := pushed[evicted].buffptr;
      this.(live := live - {oldest}, evicted := evicted + 1, role := role[oldest := Freed])
    }

    /** The accumulator is forgotten. */
    function Abandon(): Book
      requires acc != NULL
    {
      this.(acc := NULL, open := [], role := role[acc := Orphan(|orphans|)],
      orphans := orphans + [acc], dropped := dropped + [open])
    }
  }

  /** What the driver may rely on when it follows one of its pointers. */
  lemma {:induction false} Pointers(b: Book)
    requires b.Owned()
    ensures b.next != NULL && b.next !in b.live && NULL !in b.live
    ensures b.acc == NULL ==> b.open == []
    ensures b.acc != NULL ==> b.acc in b.live && b.live[b.acc] == b.open
    ensures b.temp != NULL ==> b.temp in b.live && b.temp != b.acc
    ensures b.evicted <= |b.pushed| == |b.stored|
    ensures forall i :: b.evicted <= i < |b.pushed| ==>
              b.pushed[i].buffptr in b.live && b.pushed[i].buffptr != b.temp && b.pushed[i].buffptr != b.acc
  {
    forall i | b.evicted <= i < |b.pushed|
      ensures b.pushed[i].buffptr in b.live && b.pushed[i].buffptr != b.temp && b.pushed[i].buffptr != b.acc
    {
      assert b.InRing(i);
    }
  }

  lemma {:induction false} TakeTempOwned(b: Book, content: Bytes)
    requires b.Owned() && b.temp == NULL
    ensures b.TakeTemp(content).Owned() && b.TakeTemp(content).temp != NULL
  {
    var b' := b.TakeTemp(content);
    forall p | p in b'.role
      ensures b'.RoleMatches(p)
    {
      assert p in b.role ==> b.RoleMatches(p);
    }
  }

  lemma {:induction false} ReleaseTempOwned(b: Book)
    requires b.Owned() && b.temp != NULL
    ensures b.ReleaseTemp().Owned()
  {
    ReleaseTempComplete(b);
    assert b.ReleaseTemp().Placed();
  }

  lemma {:induction false} ReleaseTempComplete(b: Book)
    requires b.Owned() && b.temp != NULL
    ensures b.ReleaseTemp().Complete()
  {
    var b' := b.ReleaseTemp();
    forall p | p in b'.role
      ensures b'.RoleMatches(p)
    {
      assert p in b.role ==> b.RoleMatches(p);
    }
  }

  lemma {:induction false} ReleaseAccOwned(b: Book)
    requires b.Owned() && b.acc != NULL
    ensures b.ReleaseAcc().Owned()
  {
    ReleaseAccComplete(b);
    assert b.ReleaseAcc().Placed();
  }

  lemma {:induction false} ReleaseAccComplete(b: Book)
    requires b.Owned() && b.acc != NULL
    ensures b.ReleaseAcc().Complete()
  {
    var b' := b.ReleaseAcc();
    forall p | p in b'.role
      ensures b'.RoleMatches(p)
    {
      assert p in b.role ==> b.RoleMatches(p);
    }
  }

  lemma {:induction false} NewAccOwned(b: Book, content: Bytes)
    requires b.Owned() && b.acc == NULL && content != []
    ensures b.NewAcc(content).Owned()
  {
    NewAccComplete(b, content);
    assert b.NewAcc(content).Placed();
  }

  lemma {:induction false} NewAccComplete(b: Book, content: Bytes)
    requires b.Owned() && b.acc == NULL
    ensures b.NewAcc(content).Complete()
  {
    var b' := b.NewAcc(content);
    forall p | p in b'.role
      ensures b'.RoleMatches(p)
    {
      assert p in b.role ==> b.RoleMatches(p);
    }
  }

  lemma {:induction false} GrowOwned(b: Book, chunk: Bytes)
    requires b.Owned() && chunk != []
    ensures b.Grow(chunk).Owned()
  {
    if b.acc == NULL {
      NewAccOwned(b, b.open + chunk);
    } else {
      ReleaseAccOwned(b);
      NewAccOwned(b.ReleaseAcc(), b.open + chunk);
    }
  }

  lemma {:induction false} CommitOwned(b: Book)
    requires b.Owned() && b.acc != NULL
    ensures b.Commit().Owned()
  {
    CommitComplete(b);
    CommitPlaced(b);
    CommitFilled(b);
  }

  lemma {:induction false} CommitComplete(b: Book)
    requires b.Owned() && b.acc != NULL
    ensures b.Commit().Complete()
  {
    var b' := b.Commit();
    forall p | p in b'.role
      ensures b'.RoleMatches(p)
    {
      assert p in b.role ==> b.RoleMatches(p);
    }
  }

  lemma {:induction false} CommitPlaced(b: Book)
    requires b.Owned() && b.acc != NULL
    ensures b.Commit().Placed()
  {
    hide Book.RoleMatches, Book.Filled;
    var b' := b.Commit();
    var n := |b.pushed|;
    assert forall i :: 0 <= i < n ==> b'.pushed[i] == b.pushed[i] && b'.lost[i] == b.lost[i];
    assert b'.pushed[n].buffptr == b.acc && b'.lost[n] == b.next && b.next !in b.role;
  }

  lemma {:induction false} CommitFilled(b: Book)
    requires b.Owned() && b.acc != NULL
    requires b.Commit().Complete() && b.Commit().Placed()
    ensures b.Commit().Filled()
  {
    hide Book.RoleMatches;
    var b' := b.Commit();
    var n := |b.pushed|;
    assert b.next !in b.live;
    forall i | b'.InRing(i)
      ensures b'.live[b'.pushed[i].buffptr] == b'.stored[i]
    {
      if i < n {
        assert b.InRing(i);
      }
    }
    forall i | 0 <= i < n + 1
      ensures b'.live[b'.lost[i]] == b'.stored[i]
    {
      if i < n {
        assert b.live[b.lost[i]] == b.stored[i];
      }
    }
  }

  /** The evicted buffer was live, with no other role than its place in the ring; freeing it leaves
      everything else as it was. */
  lemma {:induction false} EvictOwned(b: Book)
    requires b.Owned() && b.evicted < |b.pushed|
    ensures b.Evict().Owned()
    ensures var p := b.pushed[b.evicted].buffptr;
            && p in b.live && p in b.role && b.role[p] == Slot(b.evicted)
            && p != b.acc && p != b.temp && p !in b.lost && p !in b.orphans
            && p !in b.Evict().live && b.Evict().role[p] == Freed
            && (forall q :: q in b.live && q != p ==> q in b.Evict().live && b.Evict().live[q] == b.live[q])
  {
    assert b.InRing(b.evicted);
    EvictComplete(b);
    EvictPlaced(b);
    EvictFilled(b);
  }

  lemma {:induction false} EvictComplete(b: Book)
    requires b.Owned() && b.evicted < |b.pushed|
    ensures b.Evict().Complete()
  {
    var b' := b.Evict();
    forall p | p in b'.role
      ensures b'.RoleMatches(p)
    {
      assert p in b.role ==> b.RoleMatches(p);
    }
  }

  lemma {:induction false} EvictPlaced(b: Book)
    requires b.Owned() && b.evicted < |b.pushed|
    ensures b.Evict().Placed()
  {
    hide Book.RoleMatches, Book.Filled;
  }

  lemma {:induction false} EvictFilled(b: Book)
    requires b.Owned() && b.evicted < |b.pushed|
    requires b.Evict().Complete() && b.Evict().Placed()
    ensures b.Evict().Filled()
  {
    hide Book.RoleMatches;
    assert b.InRing(b.evicted);
    assert forall i :: b.Evict().InRing(i) ==> b.InRing(i);
  }

  /** A block that has been freed is never live again, so it is never freed again. */
  lemma {:induction false} FreedStays(b: Book, p: Ptr, content: Bytes)
    requires b.Owned() && p in b.role && b.role[p] == Freed
    ensures p !in b.live
    ensures b.temp == NULL ==> StillFreed(b.TakeTemp(content), p)
    ensures b.temp != NULL ==> StillFreed(b.ReleaseTemp(), p)
    ensures b.acc != NULL ==> StillFreed(b.ReleaseAcc(), p)
    ensures b.acc == NULL ==> StillFreed(b.NewAcc(content), p)
    ensures StillFreed(b.Grow(content), p)
    ensures b.acc != NULL ==> StillFreed(b.Commit(), p) && StillFreed(b.Abandon(), p)
    ensures b.evicted < |b.pushed| ==> StillFreed(b.Evict(), p)
  {
    hide Book.RoleMatches, Book.Filled;
    if b.evicted < |b.pushed| {
      assert b.InRing(b.evicted);
    }
  }

  predicate StillFreed(b: Book, p: Ptr) {
    p in b.role && b.role[p] == Freed && p !in b.live
  }

  lemma {:induction false} AbandonOwned(b: Book)
    requires b.Owned() && b.acc != NULL
    ensures b.Abandon().Owned()
  {
    var b' := b.Abandon();
    forall p | p in b'.role
      ensures b'.RoleMatches(p)
    {
      assert p in b.role ==> b.RoleMatches(p);
    }
  }

  function Ptrs(es: seq<Entry>): (r: seq<Ptr>)
    ensures |r| == |es|
  {
    seq(|es|, i requires 0 <= i < |es| => es[i].buffptr)
  }

  /** The blocks of the commands in the ring, oldest first. */
  function RingPtrs(b: Book): seq<Ptr>
    requires b.evicted <= |b.pushed|
  {
    Ptrs(b.pushed[b.evicted..])
  }

  /** Everything allocated and not freed, between two calls. */
  function Holders(b: Book): (h: seq<Ptr>)
    requires b.evicted <= |b.pushed|
    ensures |h| == |RingPtrs(b)| + |b.lost| + |b.orphans| + if b.acc == NULL then 0 else 1
  {
    RingPtrs(b) + b.lost + b.orphans + if b.acc == NULL then [] else [b.acc]
  }

  ghost predicate Distinct<T(!new)>(s: seq<T>) {
    forall i, j :: 0 <= i < j < |s| ==> s[i] != s[j]
  }

  /** Ownership: between calls the live blocks are the ring's, one lost copy for each command that
      ever reached the ring, the dropped accumulators and the accumulator; no block is two of
      these; and everything else that was ever allocated has been freed. */
  lemma {:induction false} Ownership(b: Book)
    requires b.Owned() && b.temp == NULL
    ensures Distinct(Holders(b)) && forall p :: p in b.live <==> p in Holders(b)
    ensures forall p :: 1 <= p < b.next && p !in Holders(b) ==> b.role[p] == Freed
    ensures |b.live| == |b.stored| - b.evicted + |b.stored| + |b.dropped| + if b.acc == NULL then 0 else 1
  {
    HoldersDistinct(b);
    HoldersAreLive(b);
    DistinctSize(Holders(b), b.live.Keys);
  }

  lemma {:induction false} HoldersDistinct(b: Book)
    requires b.Owned() && b.temp == NULL
    ensures Distinct(Holders(b))
  {
    var h := Holders(b);
    forall i, j | 0 <= i < j < |h|
      ensures h[i] != h[j]
    {
      RolesDiffer(b, i, j);
    }
  }

  lemma {:induction false} RolesDiffer(b: Book, i: nat, j: nat)
    requires b.Owned() && b.temp == NULL && i < j < |Holders(b)|
    ensures Holders(b)[i] != Holders(b)[j]
  {
    hide Holders;
    HolderRole(b, i);
    HolderRole(b, j);
    assert RoleAt(b, i) != RoleAt(b, j);
  }

  lemma {:induction false} HoldersAreLive(b: Book)
    requires b.Owned() && b.temp == NULL
    ensures forall p :: p in b.live <==> p in Holders(b)
  {
    hide Holders;
    forall p
      ensures p in b.live <==> p in Holders(b)
    {
      if p in b.live {
        HeldBy(b, p);
      } else if p in Holders(b) {
        var i :| 0 <= i < |Holders(b)| && Holders(b)[i] == p;
        HolderRole(b, i);
      }
    }
  }

  lemma {:induction false} HolderRole(b: Book, i: nat)
    requires b.Owned() && b.temp == NULL && i < |Holders(b)|
    ensures Holders(b)[i] in b.live && b.role[Holders(b)[i]] == RoleAt(b, i)
  {
    var r, l, o := |RingPtrs(b)|, |b.lost|, |b.orphans|;
    if i < r {
      assert Holders(b)[i] == b.pushed[b.evicted + i].buffptr;
    } else if i < r + l {
      assert Holders(b)[i] == b.lost[i - r];
    } else if i < r + l + o {
      assert Holders(b)[i] == b.orphans[i - r - l];
    } else {
      assert Holders(b)[i] == b.acc;
    }
  }

  function RoleAt(b: Book, i: nat): Role
    requires b.evicted <= |b.pushed|
  {
    var r, l, o := |RingPtrs(b)|, |b.lost|, |b.orphans|;
    if i < r then Slot(|b.pushed| - r + i)
    else if i < r + l then LostCopy(i - r)
    else if i < r + l + o then Orphan(i - r - l)
    else Accumulator
  }

  lemma {:induction false} HeldBy(b: Book, p: Ptr)
    requires b.Owned() && b.temp == NULL && p in b.live
    ensures p in Holders(b)
  {
    var r, l, o := |RingPtrs(b)|, |b.lost|, |b.orphans|;
    var h := Holders(b);
    assert b.RoleMatches(p);
    match b.role[p]
    case Slot(i) => assert h[i - (|b.pushed| - r)] == p;
    case LostCopy(i) => assert h[r + i] == p;
    case Orphan(i) => assert h[r + l + i] == p;
    case Accumulator => assert h[r + l + o] == p;
  }

  /** What no slot of the ring refers to. */
  function Leaked(b: Book): seq<Ptr> {
    b.lost + b.orphans + if b.acc == NULL then [] else [b.acc]
  }

  lemma {:induction false} LeakedIsRest(b: Book)
    requires b.Owned() && b.temp == NULL
    ensures Distinct(Leaked(b)) && forall p :: p in b.live ==> p in b.role
    ensures forall p :: p in Leaked(b) <==> p in b.live && !b.role[p].Slot?
  {
    var h, r := Holders(b), |RingPtrs(b)|;
    HoldersDistinct(b);
    assert forall i :: 0 <= i < |Leaked(b)| ==> Leaked(b)[i] == h[r + i];
    forall p
      ensures p in Leaked(b) <==> p in b.live && !b.role[p].Slot?
    {
      if p in Leaked(b) {
        var i :| 0 <= i < |Leaked(b)| && Leaked(b)[i] == p;
        HolderRole(b, r + i);
      } else if p in b.live {
        LeakedBy(b, p);
      }
    }
  }

  lemma {:induction false} LeakedBy(b: Book, p: Ptr)
    requires b.Owned() && b.temp == NULL && p in b.live
    ensures b.role[p].Slot? || p in Leaked(b)
  {
    var l, o := |b.lost|, |b.orphans|;
    assert b.RoleMatches(p);
    match b.role[p]
    case Slot(_) =>
    case LostCopy(i) => assert Leaked(b)[i] == p;
    case Orphan(i) => assert Leaked(b)[l + i] == p;
    case Accumulator => assert Leaked(b)[l + o] == p;
  }

  function Blocks(live: map<Ptr, Bytes>, ps: seq<Ptr>): (r: seq<Bytes>)
    requires forall p :: p in ps ==> p in live
    ensures |r| == |ps|
  {
    seq(|ps|, i requires 0 <= i < |ps| => live[ps[i]])
  }

  /** What is leaked adds up to every byte ever written. */
  lemma {:induction false} LeakedBytes(b: Book, es: seq<WriteEvent>)
    requires b.Owned() && b.temp == NULL
    requires b.stored == Commands(es) && b.dropped == Losses(es) && b.open == Open(es)
    ensures forall p :: p in Leaked(b) ==> p in b.live
    ensures |Flat(Blocks(b.live, Leaked(b)))| == |Join(es)|
  {
    hide Book.Owned, Leaked, Blocks, Commands, Losses, Open, Join;
    LeakedContents(b);
    var tail := if b.acc == NULL then [] else [b.open];
    FlatConcat(b.stored + b.dropped, tail);
    FlatConcat(b.stored, b.dropped);
    assert Flat(tail) == b.open;
    ConservationWithLoss(es);
    CommandsSplit(es);
  }

  /** Something is leaked as soon as anything has been written. */
  lemma {:induction false} LeakedNothing(b: Book, es: seq<WriteEvent>)
    requires b.Owned() && b.temp == NULL
    requires b.stored == Commands(es) && b.dropped == Losses(es) && b.open == Open(es)
    ensures Leaked(b) == [] <==> Join(es) == []
  {
    hide Book.Owned, Blocks, Commands, Losses, Open, Join;
    LeakedBytes(b, es);
    LeakedContents(b);
    CommandsNonEmpty(es);
    var all := Blocks(b.live, Leaked(b));
    if all != [] {
      assert |all[0]| > 0;
      FlatNonEmpty(all);
    }
  }

  lemma {:induction false} LeakedContents(b: Book)
    requires b.Owned() && b.temp == NULL
    ensures forall p :: p in Leaked(b) ==> p in b.live
    ensures Blocks(b.live, Leaked(b)) == b.stored + b.dropped + if b.acc == NULL then [] else [b.open]
    ensures b.acc == NULL <==> b.open == []
  {
    LeakedIsRest(b);
    var all := b.stored + b.dropped + if b.acc == NULL then [] else [b.open];
    forall i | 0 <= i < |all|
      ensures b.live[Leaked(b)[i]] == all[i]
    {
      LeakedAt(b, i);
    }
  }

  lemma {:induction false} LeakedAt(b: Book, i: nat)
    requires b.Owned() && b.temp == NULL && i < |Leaked(b)|
    ensures Leaked(b)[i] in b.live
    ensures |Leaked(b)| == |b.stored| + |b.dropped| + if b.acc == NULL then 0 else 1
    ensures b.live[Leaked(b)[i]] == (b.stored + b.dropped + if b.acc == NULL then [] else [b.open])[i]
  {
    var l, o := |b.lost|, |b.orphans|;
    if i < l {
      assert Leaked(b)[i] == b.lost[i];
    } else if i < l + o {
      assert Leaked(b)[i] == b.orphans[i - l];
    } else {
      assert Leaked(b)[i] == b.acc;
    }
  }

  lemma {:induction false} DistinctSize(s: seq<Ptr>, keys: set<Ptr>)
    requires Distinct(s)
    requires forall p :: p in keys <==> p in s
    ensures |keys| == |s|
  {
    if s == [] {
      assert keys == {};
    } else {
      var k := |s| - 1;
      forall p | p in keys - {s[k]}
        ensures p in s[..k]
      {
      }
      DistinctSize(s[..k], keys - {s[k]});
    }
  }
}
