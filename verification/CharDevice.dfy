/** The AESD character driver: aesd-char-driver/main.c. Each method is one call, one critical
    section under dev->lock; environment flags say which of its allocations, user copies and lock
    attempts succeed. */
module CharDevice {
  import opened ByteStrings
  import opened KernelHeap
  import opened CircularBuffer
  import opened History
  import opened DeviceSpec
  import opened Ledger

  /** What one write finds in its environment. */
  datatype WriteEnv = WriteEnv(kmallocOk: bool, copyFromUserOk: bool, lockOk: bool, kreallocOk: bool, copyOk: bool)

  /** The return value of a write; buf is None for a null user pointer. */
  function WriteResult(buf: Option<Bytes>, env: WriteEnv): Ret {
    if buf.None? || buf.value == [] then Err(EINVAL)
    else if !env.kmallocOk then Err(ENOMEM)
    else if !env.copyFromUserOk then Err(EFAULT)
    else if !env.lockOk then Err(ERESTARTSYS)
    else if !env.kreallocOk then Err(ENOMEM)
    else Ok(|buf.value|)
  }

  /** When a write succeeds, and which error is the first to be met. */
  lemma {:induction false} WriteExactly(b: Bytes, env: WriteEnv)
    ensures var ok := b != [] && env.kmallocOk && env.copyFromUserOk && env.lockOk && env.kreallocOk;
            && (ok ==> WriteResult(Some(b), env) == Ok(|b|))
            && (!ok ==> WriteResult(Some(b), env).Err?)
    ensures WriteResult(None, env) == Err(EINVAL) && WriteResult(Some([]), env) == Err(EINVAL)
    ensures b != [] && !env.kmallocOk ==> WriteResult(Some(b), env) == Err(ENOMEM)
    ensures b != [] && env.kmallocOk && !env.copyFromUserOk ==> WriteResult(Some(b), env) == Err(EFAULT)
    ensures b != [] && env.kmallocOk && env.copyFromUserOk && !env.lockOk ==>
              WriteResult(Some(b), env) == Err(ERESTARTSYS)
    ensures b != [] && env.kmallocOk && env.copyFromUserOk && env.lockOk && !env.kreallocOk ==>
              WriteResult(Some(b), env) == Err(ENOMEM)
  {
  }

  /** A write can report success although its command leaves no trace in the device: one newline,
      when everything succeeds but the allocation inside add_entry. */
  lemma {:induction false} AcknowledgedButLost(env: WriteEnv)
    requires env == WriteEnv(true, true, true, true, false)
    ensures var es := [WriteEvent([NEWLINE], env.copyOk)];
            && WriteResult(Some([NEWLINE]), env) == Ok(1)
            && !EveryCommandCopied(es)
            && Contents(es) == [] && Open(es) == [] && Join(es) == [NEWLINE]
  {
    LostCommandExample();
    assert WriteEvent([NEWLINE], false) in [WriteEvent([NEWLINE], false)];
  }

  /** The number of commands that have left the ring after n commits. */
  function Gone(n: nat): nat {
    if n <= MAX_OPS then 0 else n - MAX_OPS
  }

  /** struct file: every open handle has its own position. */
  class File {
    var fPos: int

    constructor ()
      ensures fPos == 0
    {
      fPos := 0;
    }
  }

  class Device {
    const ring: Ring
    const heap: Heap
    var writeAccumulator: Ptr
    var accumulatorSize: nat
    /** Every successful write, in the order of the lock. */
    ghost var events: seq<WriteEvent>
    ghost var book: Book

    /** The fields agree with the book, and the book is in order. */
    ghost predicate Linked()
      reads this, ring, ring.entry, heap
    {
      && ring.entry.Length == MAX_OPS
      && heap.Valid()
      && heap.live == book.live && heap.next == book.next
      && writeAccumulator == book.acc && accumulatorSize == |book.open|
      && ring.State() == RingAfter(MAX_OPS, book.pushed)
      && book.Owned()
    }

    /** The book is the one that the history of writes prescribes. */
    ghost predicate Recorded()
      reads this
    {
      && book.stored == Commands(events)
      && book.dropped == Losses(events)
      && book.open == Open(events)
      && book.evicted == Gone(|book.stored|)
    }

    ghost predicate Valid()
      reads this, ring, ring.entry, heap
    {
      Linked() && Recorded() && book.temp == NULL
    }

    /** The part of aesd_init_module that zeroes the device. */
    constructor ()
      ensures Valid() && fresh(ring) && fresh(ring.entry) && fresh(heap)
      ensures events == []
    {
      ring := new Ring(MAX_OPS);
      heap := new Heap();
      writeAccumulator, accumulatorSize := NULL, 0;
      events := [];
      book := Book(map[], 1, NULL, NULL, [], map[], [], 0, [], [], [], []);
    }

    /** The pointers in the ring lead to the live commands, and nothing else has a size. */
    lemma {:induction false} MemoryHolds()
      requires Valid()
      ensures Sizes(ring.State().View()) == Lens(Live(events))
      ensures Sum(Sizes(ring.entry[..])) == |Contents(events)|
      ensures ring.Valid() && ring.entry.Length == MAX_OPS && ring.outOffs == OutOffs(events)
      ensures ring.full <==> |Live(events)| == MAX_OPS
      ensures forall k :: 0 <= k < |Live(events)| ==>
                var p := ring.State().View()[k].buffptr;
                p != NULL && p in heap.live && heap.live[p] == Live(events)[k]
    {
      hide Linked, Recorded, RingAfter, Commands;
      RingLayout();
      forall k | 0 <= k < |Live(events)|
        ensures var p := ring.State().View()[k].buffptr;
                p != NULL && p in heap.live && heap.live[p] == Live(events)[k] &&
                ring.State().View()[k].size == |Live(events)[k]|
      {
        BlockHolds(book.evicted + k);
      }
      assert Sizes(ring.State().View()) == Lens(Live(events));
      FlatLength(Live(events));
    }

    lemma {:induction false} RingLayout()
      requires Valid()
      ensures ring.Valid() && ring.entry.Length == MAX_OPS && ring.outOffs == OutOffs(events)
      ensures ring.full <==> |Live(events)| == MAX_OPS
      ensures book.evicted <= |book.pushed| == |book.stored|
      ensures ring.State().View() == book.pushed[book.evicted..]
      ensures Live(events) == book.stored[book.evicted..]
      ensures Sum(Sizes(ring.entry[..])) == Sum(Sizes(ring.State().View()))
    {
      hide RingAfter, Commands, Sizes;
      RingAfterShape(MAX_OPS, book.pushed);
      ReachablePhysicalIsLogical(MAX_OPS, book.pushed);
      assert ring.State().slots == ring.entry[..];
    }

    lemma {:induction false} RingUnused()
      requires Valid()
      ensures |Live(events)| < MAX_OPS ==> OutOffs(events) == 0
      ensures forall c :: |Live(events)| <= c < MAX_OPS ==> ring.entry[c] == EMPTY
    {
      hide RingAfter, Commands, Book.Owned;
      RingLayout();
      RingAfterShape(MAX_OPS, book.pushed);
      assert ring.State().slots == ring.entry[..];
    }

    lemma {:induction false} BlockHolds(i: nat)
      requires Valid() && book.evicted <= i < |book.pushed| == |book.stored|
      ensures var e := book.pushed[i];
              e.buffptr != NULL && e.buffptr in heap.live && heap.live[e.buffptr] == book.stored[i] &&
              e.size == |book.stored[i]|
    {
      hide RingAfter, Recorded;
      assert book.InRing(i);
    }

    /** Conservation, in memory: what was evicted, then what the slots' pointers lead to, oldest
        first, then what the accumulator points to, is every byte written so far, exactly when every
        completed command could be copied. */
    lemma {:induction false} StreamConserved()
      requires Valid()
      ensures var slotPtrs := Ptrs(ring.State().View());
              && (forall p :: p in slotPtrs ==> p in heap.live)
              && (writeAccumulator == NULL || writeAccumulator in heap.live)
              && (Join(events) == Flat(Evicted(events)) + Flat(Blocks(heap.live, slotPtrs)) +
                                  (if writeAccumulator == NULL then [] else heap.live[writeAccumulator])
                  <==> EveryCommandCopied(events))
    {
      hide RingAfter, Live, Recorded, Evicted, Join, Flat, EveryCommandCopied;
      MemoryHolds();
      Pointers(book);
      Conservation(events);
      var slotPtrs := Ptrs(ring.State().View());
      assert Blocks(heap.live, slotPtrs) == Live(events);
      OpenIsAccumulator();
    }

    lemma {:induction false} OpenIsAccumulator()
      requires Valid()
      ensures writeAccumulator == NULL || writeAccumulator in heap.live
      ensures Open(events) == if writeAccumulator == NULL then [] else heap.live[writeAccumulator]
    {
      hide RingAfter, Book.Owned;
      Pointers(book);
    }

    /** Slot c, in the order of the array. */
    lemma {:induction false} SlotHolds(c: nat)
      requires Valid() && c < MAX_OPS
      ensures c < |Live(events)| ==>
                var k := LogicalOf(c, OutOffs(events));
                k < |ring.State().View()| == |Live(events)| && ring.entry[c] == ring.State().View()[k]
      ensures c >= |Live(events)| ==> ring.entry[c] == EMPTY
    {
      hide Linked, Recorded, RingAfter, Live, OutOffs;
      RingLayout();
      MemoryHolds();
      RingUnused();
      var s := ring.State();
      assert ring.entry[c] == s.slots[c];
      if c < |Live(events)| {
        var k := LogicalOf(c, OutOffs(events));
        ViewAt(s, k);
        assert s.SlotOf(k) == c;
      }
    }

    /** aesd_write. */
    method Write(filp: File, buf: Option<Bytes>, env: WriteEnv) returns (r: Ret)
      requires Valid()
      modifies this, ring, ring.entry, heap, filp
      ensures Valid()
      ensures r == WriteResult(buf, env)
      ensures r.Ok? ==> events == old(events) + [WriteEvent(buf.value, env.copyOk)]
      ensures r.Ok? ==> filp.fPos == Wrap64(old(filp.fPos) + |buf.value|)
      ensures r.Err? ==> events == old(events) && filp.fPos == old(filp.fPos)
      ensures r.Err? ==> heap.live == old(heap.live) && ring.State() == old(ring.State())
      ensures r.Err? ==> writeAccumulator == old(writeAccumulator) && accumulatorSize == old(accumulatorSize)
    {
      hide Valid, Staged, Wrap64;
      if buf.None? || |buf.value| == 0 {
        return Err(EINVAL);
      }
      var count := |buf.value|;
      var kbuff;
      kbuff, r := Stage(buf.value, env);
      if r.Err? {
        return;
      }
      if !env.lockOk {
        FreeTemp(kbuff);
        return Err(ERESTARTSYS);
      }
      var stored := StoreChunk(kbuff, buf.value, env);
      FreeTemp(kbuff);
      if !stored {
        return Err(ENOMEM);
      }
      filp.fPos := Wrap64(filp.fPos + count);
      return Ok(count);
    }

    /** A call of aesd_write between the allocation of its temporary buffer and the kfree of it. */
    ghost predicate Staged(kbuff: Ptr)
      reads this, ring, ring.entry, heap
    {
      Linked() && Recorded() && book.temp == kbuff != NULL && kbuff in heap.live
    }

    /** The temporary buffer, filled from user space. */
    method Stage(chunk: Bytes, env: WriteEnv) returns (kbuff: Ptr, r: Ret)
      requires Valid()
      modifies this`book, heap
      ensures r == if !env.kmallocOk then Err(ENOMEM) else if !env.copyFromUserOk then Err(EFAULT) else Ok(|chunk|)
      ensures r.Err? ==> Valid() && heap.live == old(heap.live)
      ensures r.Ok? ==> Staged(kbuff) && heap.live == old(heap.live)[kbuff := chunk] && kbuff !in old(heap.live)
    {
      hide Book.Owned, RingAfter, Groups, Open, Commands, Losses;
      Pointers(book);
      kbuff := heap.Kmalloc(|chunk|, env.kmallocOk);
      if kbuff == NULL {
        return kbuff, Err(ENOMEM);
      }
      if !env.copyFromUserOk {
        TakeTempOwned(book, heap.live[kbuff]);
        book := book.TakeTemp(heap.live[kbuff]);
        FreeTemp(kbuff);
        return NULL, Err(EFAULT);
      }
      heap.Memcpy(kbuff, 0, chunk);
      assert heap.live[kbuff] == chunk;
      TakeTempOwned(book, chunk);
      book := book.TakeTemp(chunk);
      return kbuff, Ok(|chunk|);
    }

    /** kfree of the temporary buffer, on every way out of aesd_write. */
    method FreeTemp(kbuff: Ptr)
      requires Staged(kbuff)
      modifies this`book, heap
      ensures Valid() && heap.live == old(heap.live) - {kbuff}
    {
      hide Book.Owned, RingAfter;
      ReleaseTempOwned(book);
      Pointers(book);
      heap.Kfree(kbuff);
      book := book.ReleaseTemp();
    }

    /** The critical section of aesd_write. */
    method StoreChunk(kbuff: Ptr, chunk: Bytes, env: WriteEnv) returns (ok: bool)
      requires Staged(kbuff) && heap.live[kbuff] == chunk != []
      modifies this, ring, ring.entry, heap
      ensures Staged(kbuff)
      ensures ok == env.kreallocOk
      ensures ok ==> events == old(events) + [WriteEvent(chunk, env.copyOk)]
      ensures !ok ==> events == old(events) && heap.live == old(heap.live)
      ensures !ok ==> ring.State() == old(ring.State())
      ensures !ok ==> writeAccumulator == old(writeAccumulator) && accumulatorSize == old(accumulatorSize)
    {
      hide Book.Owned, RingAfter, Groups, Open, Commands, Losses, HasNewline;
      var e := WriteEvent(chunk, env.copyOk);
      ok := Append(kbuff, chunk, env.kreallocOk);
      Pointers(book);
      if !ok {
        return;
      }
      WriteStep(events, e);
      CommandStep(events, e);
      assert heap.live[writeAccumulator][..accumulatorSize] == Open(events) + chunk;
      if HasNewline(heap.live[writeAccumulator][..accumulatorSize]) {
        CommitAccumulator(env.copyOk);
      }
      Pointers(book);
      events := events + [e];
    }

    /** krealloc of the accumulator, and the chunk copied behind what it holds. */
    method Append(kbuff: Ptr, chunk: Bytes, kreallocOk: bool) returns (ok: bool)
      requires Linked() && book.temp == kbuff != NULL && heap.live[kbuff] == chunk
      requires chunk != []
      modifies this`book, this`writeAccumulator, this`accumulatorSize, heap
      ensures Linked() && ok == kreallocOk && (ok ==> writeAccumulator != NULL)
      ensures !ok ==> book == old(book) && heap.live == old(heap.live)
      ensures ok ==> book == old(book).Grow(chunk)
      ensures !ok ==> writeAccumulator == old(writeAccumulator) && accumulatorSize == old(accumulatorSize)
    {
      hide Book.Owned, RingAfter;
      Pointers(book);
      GrowOwned(book, chunk);
      var tempAccumulator := heap.Krealloc(writeAccumulator, accumulatorSize + |chunk|, kreallocOk);
      if tempAccumulator == NULL {
        return false;
      }
      heap.Memcpy(tempAccumulator, accumulatorSize, heap.live[kbuff]);
      assert heap.live[tempAccumulator] == book.open + chunk;
      writeAccumulator := tempAccumulator;
      accumulatorSize := accumulatorSize + |chunk|;
      book := book.Grow(chunk);
      return true;
    }

    /** The accumulator goes to the ring as one entry, whatever the ring makes of it. */
    method CommitAccumulator(copyOk: bool)
      requires Linked() && writeAccumulator != NULL
      requires book.evicted == Gone(|book.pushed|)
      modifies this`book, this`writeAccumulator, this`accumulatorSize, ring, ring.entry, heap
      ensures Linked() && writeAccumulator == NULL
      ensures !copyOk ==> book == old(book).Abandon()
      ensures copyOk && |old(book).pushed| < MAX_OPS ==> book == old(book).Commit()
      ensures copyOk && |old(book).pushed| >= MAX_OPS ==> book == old(book).Commit().Evict()
    {
      hide Book.Owned, RingAfter, RingState.View, RingState.Pushed;
      Pointers(book);
      CommitOwned(book);
      AbandonOwned(book);
      RingAfterShape(MAX_OPS, book.pushed);
      var newEntry := Entry(writeAccumulator, accumulatorSize);
      var oldBuffptr := ring.AddEntry(heap, newEntry, copyOk);
      if copyOk {
        PushedMore(book.pushed, newEntry);
        book := book.Commit();
      } else {
        book := book.Abandon();
      }
      if oldBuffptr != NULL {
        EvictOwned(book);
        Pointers(book);
        heap.Kfree(oldBuffptr);
        book := book.Evict();
      }
      writeAccumulator := NULL;
      accumulatorSize := 0;
    }

    lemma {:induction false} PushedMore(es: seq<Entry>, e: Entry)
      ensures RingAfter(MAX_OPS, es + [e]) == RingAfter(MAX_OPS, es).Pushed(e)
    {
      assert (es + [e])[..|es|] == es;
    }

    /** aesd_read into a user buffer. fault names the copy_to_user call that fails, if one does. */
    method Read(filp: File, buf: array<byte>, count: nat, lockOk: bool, fault: Option<nat>) returns (r: Ret)
      requires Valid() && count <= buf.Length
      modifies filp, buf
      ensures Valid()
      ensures !lockOk ==> r == Err(ERESTARTSYS) && filp.fPos == old(filp.fPos) && buf[..] == old(buf[..])
      ensures lockOk ==> filp.fPos == ReadStop(Lens(Live(events)), old(filp.fPos), count, fault)
      ensures lockOk ==> r == ReadResult(Lens(Live(events)), old(filp.fPos), count, fault)
      ensures lockOk ==>
                var n := filp.fPos - old(filp.fPos);
                && 0 <= n <= count
                && buf[..n] == ReadBytes(Contents(events), old(filp.fPos), n)
                && (r.Ok? ==> buf[n..] == old(buf[n..]))
    {
      hide Valid, Linked, Recorded, Live, Sizes, Lens, Sum, After;
      if !lockOk {
        return Err(ERESTARTSYS);
      }
      MemoryHolds();
      FlatLength(Live(events));
      var totalSize := ring.Size();
      if filp.fPos < 0 || filp.fPos >= totalSize {
        return Ok(0);
      }
      r := CopyEntries(filp, buf, count, fault);
    }

    /** The loop of aesd_read, entered when there is something to read. */
    method CopyEntries(filp: File, buf: array<byte>, count: nat, fault: Option<nat>) returns (r: Ret)
      requires Valid() && count <= buf.Length && 0 <= filp.fPos < Sum(Lens(Live(events)))
      modifies filp, buf
      ensures filp.fPos == ReadStop(Lens(Live(events)), old(filp.fPos), count, fault)
      ensures r == ReadResult(Lens(Live(events)), old(filp.fPos), count, fault)
      ensures old(filp.fPos) <= filp.fPos <= old(filp.fPos) + count && filp.fPos <= |Contents(events)|
      ensures buf[..filp.fPos - old(filp.fPos)] == Contents(events)[old(filp.fPos)..filp.fPos]
      ensures forall i :: filp.fPos - old(filp.fPos) <= i < buf.Length ==> buf[i] == old(buf[i])
    {
      hide Valid, Linked, Recorded, Live, Sizes, Lens, Sum, Flat, Locates, PieceEnd, After;
      ghost var pos, live, sizes := filp.fPos, Live(events), Lens(Live(events));
      FlatLength(live);
      ghost var end := ReadEnd(Sum(sizes), pos, count);
      AfterNone(sizes, pos, end);
      var copied, calls := 0, 0;
      while copied < count
        invariant Valid() && copied <= count
        invariant filp.fPos == pos + copied <= end
        invariant filp.fPos == After(sizes, pos, end, calls)
        invariant fault.Some? ==> calls <= fault.value
        invariant buf[..copied] == Flat(live)[pos..pos + copied]
        invariant forall i :: copied <= i < buf.Length ==> buf[i] == old(buf[i])
      {
        var piece;
        ghost var k, off;
        piece, k, off := NextPiece(filp.fPos, count - copied);
        if piece.None? {
          break;
        }
        if fault == Some(calls) {
          return Err(EFAULT);
        }
        PieceStep(live, pos, count, calls, k, off, |piece.value|);
        CopyOut(buf, copied, piece.value);
        copied := copied + |piece.value|;
        filp.fPos := filp.fPos + |piece.value|;
        calls := calls + 1;
      }
      if fault.Some? {
        AfterDone(sizes, pos, end, calls, fault.value);
      }
      return Ok(copied);
    }

    /** Finding the entry that holds a position, and how much of it still fits. */
    method NextPiece(pos: nat, room: nat) returns (piece: Option<Bytes>, ghost k: nat, ghost off: nat)
      requires Valid()
      ensures piece.None? <==> pos >= Sum(Lens(Live(events)))
      ensures piece.Some? ==> Locates(Lens(Live(events)), pos, k, off) && off < |Live(events)[k]|
      ensures piece.Some? ==> piece.value == Live(events)[k][off..off + Min(|Live(events)[k]| - off, room)]
      ensures piece.Some? ==> |piece.value| == Min(Lens(Live(events))[k] - off, room)
    {
      hide Valid, Linked, Recorded, Live, Lens, Sum;
      MemoryHolds();
      var slot, entryOffset;
      slot, entryOffset, k := ring.FindEntryOffset(pos);
      off := entryOffset;
      if slot.None? {
        return None, k, off;
      }
      var entry := ring.entry[slot.value];
      SizeAt(ring.State().View(), k);
      LenAt(Live(events), k);
      var bytesToCopy := entry.size - entryOffset;
      if bytesToCopy > room {
        bytesToCopy := room;
      }
      piece := Some(heap.live[entry.buffptr][entryOffset..entryOffset + bytesToCopy]);
    }

    /** copy_to_user of one piece, when it does not fault. */
    method CopyOut(buf: array<byte>, at: nat, data: Bytes)
      requires at + |data| <= buf.Length
      modifies buf
      ensures buf[..at + |data|] == old(buf[..at]) + data
      ensures forall i :: at + |data| <= i < buf.Length ==> buf[i] == old(buf[i])
    {
      for i := 0 to |data|
        invariant buf[..at + i] == old(buf[..at]) + data[..i]
        invariant forall j :: at + i <= j < buf.Length ==> buf[j] == old(buf[j])
      {
        buf[at + i] := data[i];
      }
    }

    /** aesd_llseek. */
    method Llseek(filp: File, offset: int, whence: int, lockOk: bool) returns (r: Ret)
      requires Valid()
      modifies filp
      ensures Valid()
      ensures filp.fPos == LlseekPos(|Contents(events)|, old(filp.fPos), offset, whence, lockOk)
      ensures r == if !lockOk then Err(ERESTARTSYS) else if !ValidWhence(whence) then Err(EINVAL) else Ok(filp.fPos)
    {
      hide Valid, Linked, Recorded, Contents, Wrap64;
      if !lockOk {
        return Err(ERESTARTSYS);
      }
      MemoryHolds();
      var totalSize := ring.Size();
      var newPos;
      if whence == SEEK_SET {
        newPos := Wrap64(offset);
      } else if whence == SEEK_CUR {
        newPos := Wrap64(filp.fPos + offset);
      } else if whence == SEEK_END {
        newPos := Wrap64(totalSize + offset);
      } else {
        return Err(EINVAL);
      }
      if newPos < 0 {
        newPos := 0;
      } else if newPos > totalSize {
        newPos := totalSize;
      }
      filp.fPos := newPos;
      return Ok(newPos);
    }

    /** aesd_unlocked_ioctl; arg is None when the user's struct cannot be copied. */
    method Ioctl(filp: File, cmd: int, arg: Option<SeekTo>, lockOk: bool) returns (r: Ret)
      requires Valid()
      modifies filp
      ensures Valid()
      ensures r == IoctlResult(events, cmd, arg, lockOk)
      ensures filp.fPos == IoctlPos(events, old(filp.fPos), cmd, arg, lockOk)
    {
      hide Valid, Linked, Recorded, Live, Sizes, Lens, OutOffs, RingState.View;
      if cmd != IOCSEEKTO {
        return Err(ENOTTY);
      }
      if arg.None? {
        return Err(EFAULT);
      }
      if !lockOk {
        return Err(ERESTARTSYS);
      }
      var seekto := arg.value;
      MemoryHolds();
      ghost var view, sizes := ring.State().View(), Lens(Live(events));
      if seekto.cmd < MAX_OPS {
        SlotHolds(seekto.cmd);
        if seekto.cmd < |Live(events)| {
          SizeAt(view, LogicalOf(seekto.cmd, OutOffs(events)));
        }
      }
      if seekto.cmd >= MAX_OPS || ring.entry[seekto.cmd].buffptr == NULL ||
         seekto.off > ring.entry[seekto.cmd].size
      {
        return Err(EINVAL);
      }
      assert seekto.cmd < |Live(events)|;
      var offset := 0;
      var circIndex := ring.outOffs;
      for index := 0 to seekto.cmd
        invariant filp.fPos == old(filp.fPos)
        invariant circIndex == ring.State().SlotOf(index)
        invariant offset == Sum(sizes[..index])
      {
        SumSnoc(sizes, index);
        ViewAt(ring.State(), index);
        SizeAt(view, index);
        ModStep(circIndex, MAX_OPS);
        offset := offset + ring.entry[circIndex].size;
        circIndex := (circIndex + 1) % MAX_OPS;
      }
      ViewAt(ring.State(), seekto.cmd);
      SizeAt(view, seekto.cmd);
      if ring.entry[circIndex].buffptr == NULL || seekto.off > ring.entry[circIndex].size {
        return Err(EINVAL);
      }
      offset := offset + seekto.off;
      filp.fPos := offset;
      return Ok(0);
    }

    lemma {:induction false} SlotRole(c: nat)
      requires Valid() && c < MAX_OPS
      ensures c < |Live(events)| ==>
                var p := ring.entry[c].buffptr;
                && p != NULL && p in heap.live && p in book.role
                && book.role[p] == Slot(book.evicted + LogicalOf(c, OutOffs(events)))
      ensures c >= |Live(events)| ==> ring.entry[c].buffptr == NULL
    {
      hide RingAfter, Live, OutOffs, Recorded;
      RingLayout();
      SlotHolds(c);
      if c < |Live(events)| {
        var k := LogicalOf(c, OutOffs(events));
        assert ring.entry[c] == book.pushed[book.evicted + k];
        assert book.InRing(book.evicted + k);
      }
    }

    lemma {:induction false} SlotOfBlock(p: Ptr)
      requires Valid() && p in book.role && book.role[p].Slot?
      ensures exists c :: 0 <= c < MAX_OPS && ring.entry[c].buffptr == p
    {
      hide RingAfter, Live, OutOffs, Recorded;
      RingLayout();
      assert book.RoleMatches(p);
      var k := book.role[p].i - book.evicted;
      ViewAt(ring.State(), k);
      assert ring.State().slots == ring.entry[..];
      assert ring.entry[ring.State().SlotOf(k)].buffptr == p;
    }

    /** The freeing loop of aesd_cleanup_module. It follows the slots only: the lost copies, the
        dropped accumulators and the accumulator stay allocated; nothing does exactly when nothing
        was ever written. */
    method Cleanup()
      requires Valid()
      modifies ring.entry, heap
      ensures forall p :: p in heap.live <==> p in Leaked(book)
      ensures forall p :: p in heap.live ==> p in old(heap.live) && heap.live[p] == old(heap.live)[p]
      ensures forall c :: 0 <= c < MAX_OPS ==> ring.entry[c].buffptr == NULL
      ensures |Flat(Blocks(heap.live, Leaked(book)))| == |Join(events)|
      ensures heap.live == map[] <==> Join(events) == []
    {
      hide Valid, Linked, Recorded, Book.Owned, Live, OutOffs, Flat, Join, Leaked;
      LeakedIsRestHere();
      LeakedBytesHere();
      FreeSlots();
      assert Blocks(heap.live, Leaked(book)) == Blocks(old(heap.live), Leaked(book));
      assert Leaked(book) != [] ==> Leaked(book)[0] in heap.live;
    }

    lemma {:induction false} LeakedIsRestHere()
      requires Valid()
      ensures forall p :: p in heap.live ==> p in book.role
      ensures forall p :: p in Leaked(book) <==> p in heap.live && !book.role[p].Slot?
    {
      LeakedIsRest(book);
    }

    /** AESD_CIRCULAR_BUFFER_FOREACH with kfree for a body. */
    method FreeSlots()
      requires Valid() && forall p :: p in heap.live ==> p in book.role
      modifies ring.entry, heap
      ensures forall p :: p in heap.live <==> p in old(heap.live) && !book.role[p].Slot?
      ensures forall p :: p in heap.live ==> heap.live[p] == old(heap.live)[p]
      ensures forall c :: 0 <= c < MAX_OPS ==> ring.entry[c].buffptr == NULL
    {
      hide Book.Owned, RingAfter, Recorded, Live, OutOffs;
      forall c: nat | c < MAX_OPS
        ensures ring.entry[c].buffptr != NULL ==> SlotOwned(c)
        ensures forall d: nat :: d < c && ring.entry[c].buffptr != NULL ==>
                  ring.entry[d].buffptr != ring.entry[c].buffptr
      {
        SlotsDiffer(c);
      }
      forall p | p in book.role && book.role[p].Slot?
        ensures exists c :: 0 <= c < MAX_OPS && ring.entry[c].buffptr == p
      {
        SlotOfBlock(p);
      }
      for index := 0 to MAX_OPS
        invariant heap.Valid()
        invariant forall c :: 0 <= c < index ==> ring.entry[c].buffptr == NULL
        invariant forall c :: index <= c < MAX_OPS ==> ring.entry[c] == old(ring.entry[c])
        invariant forall p :: p in heap.live ==> p in old(heap.live) && heap.live[p] == old(heap.live)[p]
        invariant forall p :: p in old(heap.live) ==>
                    (p in heap.live <==> forall c :: 0 <= c < index ==> old(ring.entry[c].buffptr) != p)
      {
        if ring.entry[index].buffptr != NULL {
          heap.Kfree(ring.entry[index].buffptr);
          ring.entry[index] := Entry(NULL, ring.entry[index].size);
        }
      }
    }

    ghost predicate SlotOwned(c: nat)
      requires c < ring.entry.Length
      reads this, ring.entry, heap
    {
      var p := ring.entry[c].buffptr;
      p in heap.live && p in book.role && book.role[p].Slot?
    }

    lemma {:induction false} SlotsDiffer(c: nat)
      requires Valid() && c < MAX_OPS
      ensures ring.entry[c].buffptr != NULL ==> SlotOwned(c)
      ensures forall d: nat :: d < c && ring.entry[c].buffptr != NULL ==>
                ring.entry[d].buffptr != ring.entry[c].buffptr
    {
      hide Book.Owned, RingAfter, Recorded, Live, OutOffs;
      SlotRole(c);
      forall d: nat | d < c && ring.entry[c].buffptr != NULL
        ensures ring.entry[d].buffptr != ring.entry[c].buffptr
      {
        SlotRole(d);
      }
    }

    lemma {:induction false} LeakedBytesHere()
      requires Valid()
      ensures forall p :: p in Leaked(book) ==> p in heap.live
      ensures |Flat(Blocks(heap.live, Leaked(book)))| == |Join(events)|
      ensures Leaked(book) == [] <==> Join(events) == []
    {
      hide Book.Owned, RingAfter;
      LeakedNothing(book, events);
      LeakedBytes(book, events);
    }
  }
}
