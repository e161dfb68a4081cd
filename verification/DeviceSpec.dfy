/** What read, llseek and the seek ioctl of the driver mean, over the contents of the device. */
module DeviceSpec {
  import opened ByteStrings
  import opened History

  datatype Errno = EINVAL | ENOMEM | EFAULT | ERESTARTSYS | ENOTTY

  datatype Ret = Ok(value: int) | Err(errno: Errno)

  const LOFF_MAX: int := 0x7FFF_FFFF_FFFF_FFFF
  const SEEK_SET: int := 0
  const SEEK_CUR: int := 1
  const SEEK_END: int := 2

  /** Storing a sum in a 64-bit two's complement loff_t. */
  function Wrap64(x: int): (r: int)
    ensures -LOFF_MAX - 1 <= r <= LOFF_MAX
    ensures -LOFF_MAX - 1 <= x <= LOFF_MAX ==> r == x
  {
    (x + 0x8000_0000_0000_0000) % 0x1_0000_0000_0000_0000 - 0x8000_0000_0000_0000
  }

  /** The stored value is the one 64-bit number that differs from the sum by a multiple of 2^64. */
  lemma {:induction false} WrapExactly(x: int)
    ensures -0x8000_0000_0000_0000 <= Wrap64(x) < 0x8000_0000_0000_0000
    ensures (x - Wrap64(x)) % 0x1_0000_0000_0000_0000 == 0
  {
    var q := (x + 0x8000_0000_0000_0000) / 0x1_0000_0000_0000_0000;
    assert x - Wrap64(x) == 0x1_0000_0000_0000_0000 * q;
  }

  // ---------- read ----------

  /** The position after a read that no fault cuts short. A negative position, compared as
      unsigned, counts as beyond the end. */
  function ReadEnd(total: nat, pos: int, count: nat): int {
    if pos < 0 || pos >= total then pos else Min(pos + count, total)
  }

  function ReadBytes(contents: Bytes, pos: int, count: nat): Bytes {
    if pos < 0 || pos >= |contents| then [] else contents[pos..ReadEnd(|contents|, pos, count)]
  }

  /** A read at or beyond the end returns nothing; inside, what was asked for or what is left. */
  lemma {:induction false} ReadExactly(contents: Bytes, pos: int, count: nat)
    ensures pos < 0 || pos >= |contents| ==>
              ReadBytes(contents, pos, count) == [] && ReadEnd(|contents|, pos, count) == pos
    ensures 0 <= pos && pos + count <= |contents| ==>
              && ReadBytes(contents, pos, count) == contents[pos..pos + count]
              && ReadEnd(|contents|, pos, count) == pos + count
    ensures 0 <= pos <= |contents| < pos + count ==>
              && ReadBytes(contents, pos, count) == contents[pos..]
              && ReadEnd(|contents|, pos, count) == |contents|
  {
  }

  /** Two reads in a row return what one read of both lengths returns. */
  lemma {:induction false} ReadSplit(contents: Bytes, pos: int, a: nat, b: nat)
    ensures var mid := ReadEnd(|contents|, pos, a);
            && ReadBytes(contents, pos, a) + ReadBytes(contents, mid, b) == ReadBytes(contents, pos, a + b)
            && ReadEnd(|contents|, mid, b) == ReadEnd(|contents|, pos, a + b)
  {
  }

  /** The position after k pieces, where a piece ends with its entry or with the read. */
  function After(sizes: seq<nat>, pos: nat, end: nat, k: nat): (r: nat)
    requires pos <= end <= Sum(sizes)
    ensures pos <= r <= end
    decreases k
  {
    if k == 0 || pos == end then pos
    else After(sizes, Min(PieceEnd(sizes, pos), end), end, k - 1)
  }

  lemma {:induction false} AfterNone(sizes: seq<nat>, pos: nat, end: nat)
    requires pos <= end <= Sum(sizes)
    ensures After(sizes, pos, end, 0) == pos
  {
  }

  lemma {:induction false} AfterStep(sizes: seq<nat>, pos: nat, end: nat, k: nat)
    requires pos <= end <= Sum(sizes)
    ensures var p := After(sizes, pos, end, k);
            After(sizes, pos, end, k + 1) == if p == end then p else Min(PieceEnd(sizes, p), end)
    decreases k
  {
    if k > 0 && pos < end {
      AfterStep(sizes, Min(PieceEnd(sizes, pos), end), end, k - 1);
    }
  }

  lemma {:induction false} AfterDone(sizes: seq<nat>, pos: nat, end: nat, k: nat, k': nat)
    requires pos <= end <= Sum(sizes)
    requires After(sizes, pos, end, k) == end && k <= k'
    ensures After(sizes, pos, end, k') == end
    decreases k
  {
    if k > 0 && pos < end {
      AfterDone(sizes, Min(PieceEnd(sizes, pos), end), end, k - 1, k' - 1);
    }
  }

  /** Where a read leaves the position when the copy to the user numbered by fault fails. */
  function ReadStop(sizes: seq<nat>, pos: int, count: nat, fault: Option<nat>): int {
    var end := ReadEnd(Sum(sizes), pos, count);
    if fault.None? || end <= pos then end else After(sizes, pos, end, fault.value)
  }

  /** A read that stops short of its end reports the fault, not the bytes it did copy. */
  function ReadResult(sizes: seq<nat>, pos: int, count: nat, fault: Option<nat>): Ret {
    var end := ReadEnd(Sum(sizes), pos, count);
    if ReadStop(sizes, pos, count, fault) == end then Ok(end - pos) else Err(EFAULT)
  }

  /** A read succeeds exactly when it gets as far as it would without a fault, and then returns the
      number of bytes read; a partial count is never returned. */
  lemma {:induction false} ReadResultExactly(live: seq<Bytes>, pos: int, count: nat, fault: Option<nat>)
    ensures var r, stop := ReadResult(Lens(live), pos, count, fault), ReadStop(Lens(live), pos, count, fault);
            var whole := |ReadBytes(Flat(live), pos, count)|;
            && (stop == pos + whole ==> r == Ok(whole))
            && (stop != pos + whole ==> r == Err(EFAULT) && pos <= stop < pos + whole)
            && (fault.None? ==> stop == pos + whole)
            && (fault == Some(0) && whole > 0 ==> stop == pos)
  {
    hide Sum, Flat, Lens;
    FlatLength(live);
  }

  /** One turn of the read loop: the piece it copies, and where it leaves the position. */
  lemma {:induction false} PieceStep(live: seq<Bytes>, pos: nat, count: nat, k: nat, i: nat, off: nat, n: nat)
    requires pos < Sum(Lens(live))
    requires var sizes, end := Lens(live), ReadEnd(Sum(Lens(live)), pos, count);
             var p := After(sizes, pos, end, k);
             p < pos + count && Locates(sizes, p, i, off) && n == Min(sizes[i] - off, pos + count - p)
    ensures var end := ReadEnd(Sum(Lens(live)), pos, count);
            var p := After(Lens(live), pos, end, k);
            && n > 0 && off + n <= |live[i]|
            && After(Lens(live), pos, end, k + 1) == p + n <= end <= |Flat(live)|
            && Flat(live)[pos..p] + live[i][off..off + n] == Flat(live)[pos..p + n]
  {
    var sizes, end := Lens(live), ReadEnd(Sum(Lens(live)), pos, count);
    var p := After(sizes, pos, end, k);
    LocateExists(sizes, p);
    PieceEndLocated(sizes, p, i, off);
    AfterStep(sizes, pos, end, k);
    LocatedBytes(live, p, i, off, n);
    FlatLength(live);
    assert Flat(live)[pos..p + n] == Flat(live)[pos..p] + Flat(live)[p..p + n];
  }

  /** A fault at the k-th copy to the user leaves the position at the end of an entry. */
  lemma {:induction false} FaultAtBoundary(sizes: seq<nat>, pos: nat, end: nat, k: nat)
    requires pos < end <= Sum(sizes)
    requires k > 0 && After(sizes, pos, end, k) < end
    ensures exists j :: 0 <= j <= |sizes| && After(sizes, pos, end, k) == Sum(sizes[..j])
    decreases k
  {
    var next := Min(PieceEnd(sizes, pos), end);
    if k == 1 {
      LocateExists(sizes, pos);
      var i: nat, off: nat :| Locates(sizes, pos, i, off);
      PieceEndLocated(sizes, pos, i, off);
      assert After(sizes, next, end, 0) == next;
    } else {
      FaultAtBoundary(sizes, next, end, k - 1);
    }
  }

  /** One copy per entry is enough: a fault beyond that many copies is never reached. */
  lemma {:induction false} EnoughCopies(sizes: seq<nat>, pos: nat, end: nat, i: nat, k: nat)
    requires pos <= end <= Sum(sizes)
    requires i <= |sizes| && Sum(sizes[..i]) <= pos && i + k >= |sizes|
    ensures After(sizes, pos, end, k) == end
    decreases k
  {
    if k == 0 {
      assert sizes[..i] == sizes;
    } else if pos < end {
      LocateExists(sizes, pos);
      var j: nat, off: nat :| Locates(sizes, pos, j, off);
      PieceEndLocated(sizes, pos, j, off);
      if j < i {
        SumSnoc(sizes, j);
        PrefixMonotone(sizes, j + 1, i);
      }
      var next := Min(PieceEnd(sizes, pos), end);
      if next < end {
        EnoughCopies(sizes, next, end, j + 1, k - 1);
      } else {
        assert After(sizes, next, end, k - 1) == end;
      }
    }
  }

  // ---------- llseek ----------

  function Clamp(x: int, total: nat): int {
    if x < 0 then 0 else if x > total then total else x
  }

  /** The position that a whence and an offset ask for. */
  function Requested(total: nat, pos: int, offset: int, whence: int): int {
    offset + if whence == SEEK_CUR then pos else if whence == SEEK_END then total else 0
  }

  predicate ValidWhence(whence: int) {
    whence == SEEK_SET || whence == SEEK_CUR || whence == SEEK_END
  }

  function LlseekPos(total: nat, pos: int, offset: int, whence: int, lockOk: bool): int {
    if lockOk && ValidWhence(whence) then Clamp(Wrap64(Requested(total, pos, offset, whence)), total) else pos
  }

  /** llseek clamps the requested position, except when the sum overflows loff_t: then it goes to
      0 instead of the end, which is the same place only on an empty device. */
  lemma {:induction false} LlseekClamps(total: nat, pos: int, offset: int, whence: int)
    requires 0 <= pos <= LOFF_MAX && total <= LOFF_MAX && -LOFF_MAX - 1 <= offset <= LOFF_MAX
    requires ValidWhence(whence)
    ensures var want := Requested(total, pos, offset, whence);
            LlseekPos(total, pos, offset, whence, true) == Clamp(want, total) <==> want <= LOFF_MAX || total == 0
  {
    var want := Requested(total, pos, offset, whence);
    if want > LOFF_MAX {
      assert Wrap64(want) == want - 0x1_0000_0000_0000_0000;
    }
  }

  /** llseek by its numbers: 0 is SEEK_SET, 1 is SEEK_CUR, 2 is SEEK_END. A target inside the device
      is reached, one outside leads to the nearer end while the sum fits in loff_t, and to 0 when it
      does not; a failed lock or another whence leaves the position alone. */
  lemma {:induction false} LlseekExactly(total: nat, pos: int, o: int, whence: int)
    requires total <= LOFF_MAX && 0 <= pos <= LOFF_MAX && -LOFF_MAX - 1 <= o <= LOFF_MAX
    ensures 0 <= o <= total ==> LlseekPos(total, pos, o, 0, true) == o
    ensures o < 0 ==> LlseekPos(total, pos, o, 0, true) == 0
    ensures o > total ==> LlseekPos(total, pos, o, 0, true) == total
    ensures 0 <= pos + o <= total ==> LlseekPos(total, pos, o, 1, true) == pos + o
    ensures pos + o < 0 || pos + o > LOFF_MAX ==> LlseekPos(total, pos, o, 1, true) == 0
    ensures total < pos + o <= LOFF_MAX ==> LlseekPos(total, pos, o, 1, true) == total
    ensures 0 <= total + o <= total ==> LlseekPos(total, pos, o, 2, true) == total + o
    ensures total + o < 0 || total + o > LOFF_MAX ==> LlseekPos(total, pos, o, 2, true) == 0
    ensures o > 0 && total + o <= LOFF_MAX ==> LlseekPos(total, pos, o, 2, true) == total
    ensures LlseekPos(total, pos, o, whence, false) == pos
    ensures whence != 0 && whence != 1 && whence != 2 ==> LlseekPos(total, pos, o, whence, true) == pos
    ensures ValidWhence(whence) <==> whence == 0 || whence == 1 || whence == 2
  {
    var M := 0x1_0000_0000_0000_0000;
    assert pos + o > LOFF_MAX ==> Wrap64(pos + o) == pos + o - M;
    assert total + o > LOFF_MAX ==> Wrap64(total + o) == total + o - M;
  }

  /** Such an overflow: as far beyond the end as the offset allows leads to the start. */
  lemma {:induction false} LlseekOverflowExample(total: nat, pos: int)
    requires 1 <= total <= LOFF_MAX
    ensures Clamp(Requested(total, pos, LOFF_MAX, SEEK_END), total) == total
    ensures LlseekPos(total, pos, LOFF_MAX, SEEK_END, true) == 0
  {
    assert Wrap64(total + LOFF_MAX) == total + LOFF_MAX - 0x1_0000_0000_0000_0000;
  }

  /** Seeking by 0 from where we are twice is seeking once; it never moves a position inside the
      device; and what is left to read from any result is the rest of the device, to the byte. */
  lemma {:induction false} SeekThenRead(contents: Bytes, pos: int, offset: int, whence: int, count: nat)
    requires |contents| <= LOFF_MAX && ValidWhence(whence)
    ensures var p := LlseekPos(|contents|, pos, offset, whence, true);
            && 0 <= p <= |contents|
            && LlseekPos(|contents|, p, 0, SEEK_CUR, true) == p
            && (count >= |contents| - p ==> ReadBytes(contents, p, count) == contents[p..])
            && |ReadBytes(contents, p, count)| == Min(count, |contents| - p)
  {
  }

  // ---------- the seek ioctl ----------

  /** _IOWR(0x16, 1, struct aesd_seekto) */
  const IOCSEEKTO: int := 0xC008_1601

  type uint32 = x: int | 0 <= x < 0x1_0000_0000

  datatype SeekTo = SeekTo(cmd: uint32, off: uint32)

  /** Which command, counted from the oldest, lies in slot c. */
  function LogicalOf(c: nat, out: nat): (k: nat)
    requires c < MAX_OPS && out < MAX_OPS
    ensures k < MAX_OPS
  {
    if c >= out then c - out else c + MAX_OPS - out
  }

  /** A ring that is not yet full starts at slot 0. */
  predicate Layout(sizes: seq<nat>, out: nat) {
    && |sizes| <= MAX_OPS
    && out < MAX_OPS
    && (|sizes| < MAX_OPS ==> out == 0)
  }

  /** What the ioctl is for: command c of the live ones exists, and o is not beyond its end. */
  predicate Intended(sizes: seq<nat>, c: nat, o: nat) {
    c < |sizes| && o <= sizes[c]
  }

  /** What it accepts: the offset is also held against whatever command lies in slot c. */
  predicate Accepts(sizes: seq<nat>, out: nat, c: nat, o: nat)
    requires Layout(sizes, out)
  {
    c < |sizes| && o <= sizes[c] && o <= sizes[LogicalOf(c, out)]
  }

  /** Every acceptance is intended; an intended request is refused exactly when its offset is
      beyond the end of the command in slot c. */
  lemma {:induction false} AcceptsExactly(sizes: seq<nat>, out: nat, c: nat, o: nat)
    requires Layout(sizes, out)
    ensures Accepts(sizes, out, c, o) ==> Intended(sizes, c, o)
    ensures (Accepts(sizes, out, c, o) <==> Intended(sizes, c, o)) <==>
            !(c < |sizes| && sizes[LogicalOf(c, out)] < o <= sizes[c])
  {
  }

  /** The ioctl does what it is for, on all requests, exactly when the sizes of the commands repeat
      under the rotation by which the ring is wrapped; in particular whenever out is 0. */
  lemma {:induction false} AcceptsAllIntended(sizes: seq<nat>, out: nat)
    requires Layout(sizes, out)
    ensures (forall c: nat, o: nat :: Accepts(sizes, out, c, o) <==> Intended(sizes, c, o)) <==>
            (forall c: nat :: c < |sizes| ==> sizes[LogicalOf(c, out)] == sizes[c])
    ensures out == 0 ==> forall c: nat, o: nat :: Accepts(sizes, out, c, o) <==> Intended(sizes, c, o)
  {
    if |sizes| == MAX_OPS && forall c: nat, o: nat :: Accepts(sizes, out, c, o) <==> Intended(sizes, c, o) {
      forall c: nat | c < MAX_OPS
        ensures sizes[c] <= sizes[LogicalOf(c, out)]
      {
        assert Intended(sizes, c, sizes[c]);
        assert Accepts(sizes, out, c, sizes[c]);
      }
      RotationDominates(sizes, out);
    }
  }

  /** A sequence that is nowhere above its own rotation is equal to it. */
  lemma {:induction false} RotationDominates(sizes: seq<nat>, out: nat)
    requires |sizes| == MAX_OPS && out < MAX_OPS
    requires forall c: nat :: c < MAX_OPS ==> sizes[c] <= sizes[LogicalOf(c, out)]
    ensures forall c: nat :: c < MAX_OPS ==> sizes[LogicalOf(c, out)] == sizes[c]
  {
    var cut := if out == 0 then 0 else MAX_OPS - out;
    var turned := sizes[cut..] + sizes[..cut];
    SumConcat(sizes[cut..], sizes[..cut]);
    SumPrefix(sizes, cut);
    assert forall c: nat :: c < MAX_OPS ==> turned[c] == sizes[LogicalOf(c, out)];
    SameSum(sizes, turned);
  }

  lemma {:induction false} SumBelow(a: seq<nat>, b: seq<nat>)
    requires |a| == |b| && forall i :: 0 <= i < |a| ==> a[i] <= b[i]
    ensures Sum(a) <= Sum(b)
  {
    if a != [] {
      SumBelow(a[1..], b[1..]);
    }
  }

  lemma {:induction false} SameSum(a: seq<nat>, b: seq<nat>)
    requires |a| == |b| && forall i :: 0 <= i < |a| ==> a[i] <= b[i]
    requires Sum(a) == Sum(b)
    ensures a == b
  {
    if a != [] {
      SumBelow(a[1..], b[1..]);
      SameSum(a[1..], b[1..]);
      assert a == [a[0]] + a[1..] && b == [b[0]] + b[1..];
    }
  }

  function SeekPosition(live: seq<Bytes>, c: nat, o: nat): (p: nat)
    requires c <= |live|
  {
    Sum(Lens(live)[..c]) + o
  }

  function IoctlResult(es: seq<WriteEvent>, cmd: int, arg: Option<SeekTo>, lockOk: bool): Ret {
    if cmd != IOCSEEKTO then Err(ENOTTY)
    else if arg.None? then Err(EFAULT)
    else if !lockOk then Err(ERESTARTSYS)
    else if Accepts(Lens(Live(es)), OutOffs(es), arg.value.cmd, arg.value.off) then Ok(0)
    else Err(EINVAL)
  }

  function IoctlPos(es: seq<WriteEvent>, pos: int, cmd: int, arg: Option<SeekTo>, lockOk: bool): int {
    if IoctlResult(es, cmd, arg, lockOk).Ok? then SeekPosition(Live(es), arg.value.cmd, arg.value.off) else pos
  }

  /** After a successful seek to (c, o): the position, the place in the ring that it names, and
      everything that will be read from there. */
  lemma {:induction false} SeekRoundTrip(live: seq<Bytes>, c: nat, o: nat)
    requires forall b :: b in live ==> |b| > 0
    requires Intended(Lens(live), c, o)
    ensures var p := SeekPosition(live, c, o);
            && p <= |Flat(live)|
            && Flat(live)[p..] == live[c][o..] + Flat(live[c + 1..])
            && (o < |live[c]| ==> Locates(Lens(live), p, c, o))
            && (o == |live[c]| && c + 1 < |live| ==> Locates(Lens(live), p, c + 1, 0))
            && (o == |live[c]| && c + 1 == |live| ==> p == |Flat(live)|)
  {
    SeekRest(live, c, o);
    SumSnoc(Lens(live), c);
    LenAt(live, c);
    if c + 1 < |live| {
      assert live[c + 1] in live;
      LenAt(live, c + 1);
    } else {
      assert live[c + 1..] == [];
    }
  }

  lemma {:induction false} SeekRest(live: seq<Bytes>, c: nat, o: nat)
    requires Intended(Lens(live), c, o)
    ensures var p := SeekPosition(live, c, o);
            p <= |Flat(live)| && Flat(live)[p..] == live[c][o..] + Flat(live[c + 1..])
  {
    hide Flat, Sum;
    FlatAround(live, c);
    LenAt(live, c);
    assert Flat(live) == Flat(live[..c]) + (live[c] + Flat(live[c + 1..]));
  }

  /** The driver's verdict on a seek, in terms of the device: each error code under its condition,
      success exactly when the offset is within command cmd of the live ones and within the one in
      slot cmd. */
  lemma {:induction false} IoctlExactly(es: seq<WriteEvent>, cmd: int, arg: Option<SeekTo>, lockOk: bool)
    ensures cmd != 3 * 0x4000_0000 + 8 * 0x1_0000 + 0x16 * 0x100 + 1 ==>
              IoctlResult(es, cmd, arg, lockOk) == Err(ENOTTY)
    ensures cmd == IOCSEEKTO && arg.None? ==> IoctlResult(es, cmd, arg, lockOk) == Err(EFAULT)
    ensures cmd == IOCSEEKTO && arg.Some? && !lockOk ==> IoctlResult(es, cmd, arg, lockOk) == Err(ERESTARTSYS)
    ensures cmd == IOCSEEKTO && arg.Some? && lockOk ==>
              var c, o, live := arg.value.cmd, arg.value.off, Live(es);
              IoctlResult(es, cmd, arg, lockOk) ==
              if c < |live| && o <= |live[c]| && o <= |live[LogicalOf(c, OutOffs(es))]| then Ok(0)
              else Err(EINVAL)
  {
  }

  /** Success moves the handle to the start of the command plus the offset, failure leaves it. */
  lemma {:induction false} IoctlMoves(es: seq<WriteEvent>, pos: int, cmd: int, arg: Option<SeekTo>, lockOk: bool)
    ensures IoctlResult(es, cmd, arg, lockOk).Err? ==> IoctlPos(es, pos, cmd, arg, lockOk) == pos
    ensures IoctlResult(es, cmd, arg, lockOk).Ok? ==>
              && arg.Some? && arg.value.cmd < |Live(es)|
              && IoctlPos(es, pos, cmd, arg, lockOk) == |Flat(Live(es)[..arg.value.cmd])| + arg.value.off
  {
    if IoctlResult(es, cmd, arg, lockOk).Ok? {
      hide Flat, Sum, Live;
      var live, c := Live(es), arg.value.cmd;
      FlatLength(live[..c]);
      assert Lens(live[..c]) == Lens(live)[..c];
    }
  }

  /** While the ring starts at slot 0, every seek within a live command succeeds, and the position it
      sets is that of the first byte to be read. */
  lemma {:induction false} IoctlUnwrapped(es: seq<WriteEvent>, pos: int, s: SeekTo)
    requires |Commands(es)| < MAX_OPS || |Commands(es)| % MAX_OPS == 0
    requires s.cmd < |Live(es)| && s.off <= |Live(es)[s.cmd]|
    ensures IoctlResult(es, IOCSEEKTO, Some(s), true) == Ok(0)
    ensures var p := IoctlPos(es, pos, IOCSEEKTO, Some(s), true);
            0 <= p <= |Contents(es)| && Contents(es)[p..] == Live(es)[s.cmd][s.off..] + Flat(Live(es)[s.cmd + 1..])
  {
    IoctlExactly(es, IOCSEEKTO, Some(s), true);
    LiveNonEmpty(es);
    SeekRoundTrip(Live(es), s.cmd, s.off);
  }

  /** A history where every write is a whole command. */
  lemma {:induction false} WholeCommands(es: seq<WriteEvent>)
    requires forall e :: e in es ==> HasNewline(e.bytes) && e.copyOk
    ensures Open(es) == []
    ensures |Commands(es)| == |es| && forall i :: 0 <= i < |es| ==> Commands(es)[i] == es[i].bytes
  {
    if es != [] {
      var k := |es| - 1;
      WholeCommands(es[..k]);
      WriteStep(es[..k], es[k]);
      CommandStep(es[..k], es[k]);
      assert es == es[..k] + [es[k]];
    }
  }

  /** Ten commands of one byte and then one of two bytes: the last command has an offset 2, its
      end, and the ioctl refuses to seek there. */
  lemma {:induction false} IoctlRefusesIntended()
    ensures exists es: seq<WriteEvent>, c: nat, o: nat ::
              && EveryCommandCopied(es)
              && Layout(Lens(Live(es)), OutOffs(es))
              && Intended(Lens(Live(es)), c, o)
              && !Accepts(Lens(Live(es)), OutOffs(es), c, o)
  {
    var nl: seq<WriteEvent> := seq(10, _ => WriteEvent([NEWLINE], true));
    var last := WriteEvent([97, NEWLINE], true);
    var es := nl + [last];
    assert es[10] == last && forall i :: 0 <= i < 10 ==> es[i] == nl[i];
    WholeCommands(es);
    var live := Live(es);
    assert live == Commands(es)[1..];
    assert live[9] == [97, NEWLINE] && live[8] == [NEWLINE];
    assert OutOffs(es) == 1;
    assert Intended(Lens(live), 9, 2) && !Accepts(Lens(live), 1, 9, 2);
  }

  lemma {:induction false} DeviceLayout(es: seq<WriteEvent>)
    ensures Layout(Lens(Live(es)), OutOffs(es))
  {
  }
}
