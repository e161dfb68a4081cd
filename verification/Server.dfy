/** One client connection of the socket server: handle_client of server/aesdsocket.c, between
    taking file_mutex and giving it back. */
module Server {
  import opened ByteStrings
  import opened History
  import opened DeviceSpec
  import opened CharDevice

  const BUFFER_SIZE: nat := 1024

  /** "AESDCHAR_IOCSEEKTO:" */
  const IOCTL_PREFIX: Bytes := [65, 69, 83, 68, 67, 72, 65, 82, 95, 73, 79, 67, 83, 69, 69, 75, 84, 79, 58]

  lemma {:induction false} PrefixIsText()
    ensures var text := "AESDCHAR_IOCSEEKTO:";
            |IOCTL_PREFIX| == |text| == 19 && forall i :: 0 <= i < 19 ==> IOCTL_PREFIX[i] == text[i] as int
  {
  }

  type Chunk = b: Bytes | 1 <= |b| <= 1024 witness [0]

  /** One successful recv, and how the device calls that follow it will fare: turns is the number
      of read calls that succeed before one is interrupted, None when none is. */
  datatype Recv = Recv(data: Chunk, write: WriteEnv, ioctlLock: bool, lseekLock: bool, turns: Option<nat>)

  /** What sscanf makes of the buffer behind the prefix. */
  type Parse = Bytes -> Option<SeekTo>

  datatype PC =
    | Start | Locked | Receiving
    | Received(r: Recv) | Sync(r: Recv) | SeekDrain(left: Option<nat>)
    | Rewind(r: Recv) | Drain(left: Option<nat>)
    | Closing | Failing | Exiting | Done

  /** The state of one thread: where it is, whether its open will succeed, what its peer has still
      to send, its receive buffer, the position of its handle, the writes it made, its replies. */
  datatype Client = Client(
    pc: PC, opens: bool, inbox: seq<Recv>, buffer: Bytes, pos: int,
    wrote: seq<WriteEvent>, replies: seq<Bytes>)

  predicate IsSeek(buffer: Bytes) {
    IOCTL_PREFIX <= buffer
  }

  /** recv fills the front of the buffer; what is behind stays from before. */
  function Overwrite(buffer: Bytes, data: Chunk): Bytes {
    if |data| <= |buffer| then data + buffer[|data|..] else data
  }

  /** The whole chunk reaches the buffer, and nothing else of it changes. */
  lemma {:induction false} OverwriteExactly(buffer: Bytes, data: Chunk)
    requires |buffer| == BUFFER_SIZE
    ensures |Overwrite(buffer, data)| == BUFFER_SIZE
    ensures Overwrite(buffer, data)[..|data|] == data
    ensures Overwrite(buffer, data)[|data|..] == buffer[|data|..]
  {
  }

  function Send(replies: seq<Bytes>, data: Bytes): seq<Bytes> {
    if replies == [] then [data] else replies[|replies| - 1 := replies[|replies| - 1] + data]
  }

  /** The steps inside the critical section. */
  predicate Busy(pc: PC) {
    pc.Locked? || pc.Receiving? || pc.Received? || pc.Sync? || pc.SeekDrain? || pc.Rewind? || pc.Drain?
  }

  function Less(left: Option<nat>): Option<nat> {
    if left.Some? && left.value > 0 then Some(left.value - 1) else left
  }

  /** One read of a drain loop, and one send. */
  function DrainStep(c: Client, es: seq<WriteEvent>, left: Option<nat>, again: PC, next: PC): Client {
    var got := ReadBytes(Contents(es), c.pos, BUFFER_SIZE);
    if left == Some(0) || got == [] then c.(pc := next)
    else c.(pc := again, pos := c.pos + |got|, replies := Send(c.replies, got))
  }

  /** One step of a thread that holds the mutex: at most one device call. */
  function LocalStep(parse: Parse, c: Client, es: seq<WriteEvent>): (Client, seq<WriteEvent>)
    requires Busy(c.pc)
  {
    match c.pc
    case Locked =>
      (if c.opens then c.(pc := Receiving, pos := 0) else c.(pc := Failing), es)
    case Receiving =>
      (if c.inbox == [] then c.(pc := Closing)
       else c.(pc := Received(c.inbox[0]), inbox := c.inbox[1..], buffer := Overwrite(c.buffer, c.inbox[0].data)),
       es)
    case Received(r) =>
      if IsSeek(c.buffer) then
        var s := parse(c.buffer[|IOCTL_PREFIX|..]);
        (if s.None? then c.(pc := Receiving)
         else c.(pc := Sync(r), pos := IoctlPos(es, c.pos, IOCSEEKTO, s, r.ioctlLock)), es)
      else if WriteResult(Some(r.data), r.write).Ok? then
        var e := WriteEvent(r.data, r.write.copyOk);
        (c.(pc := if HasNewline(r.data) then Rewind(r) else Receiving,
            pos := Wrap64(c.pos + |r.data|), wrote := c.wrote + [e]), es + [e])
      else (c.(pc := Failing), es)
    case Sync(r) =>
      (c.(pc := SeekDrain(r.turns), pos := LlseekPos(|Contents(es)|, c.pos, 0, SEEK_CUR, r.lseekLock),
          replies := c.replies + [[]]), es)
    case SeekDrain(left) =>
      (DrainStep(c, es, left, SeekDrain(Less(left)), Receiving), es)
    case Rewind(r) =>
      (c.(pc := Drain(r.turns), pos := LlseekPos(|Contents(es)|, c.pos, 0, SEEK_SET, r.lseekLock),
          replies := c.replies + [[]]), es)
    case Drain(left) =>
      (DrainStep(c, es, left, Drain(Less(left)), Closing), es)
  }

  /** Where a drain loop leaves the position. */
  function DrainStop(total: nat, pos: int, turns: Option<nat>): (stop: int)
    ensures 0 <= pos < total ==> pos <= stop <= total
    ensures !(0 <= pos < total) ==> stop == pos
  {
    if pos < 0 || pos >= total then pos
    else if turns.None? then total
    else Min(pos + BUFFER_SIZE * turns.value, total)
  }

  /** What a drain loop sends. */
  function DrainBytes(contents: Bytes, pos: int, turns: Option<nat>): Bytes {
    if pos < 0 || pos >= |contents| then [] else contents[pos..DrainStop(|contents|, pos, turns)]
  }

  function Drained(c: Client, es: seq<WriteEvent>, left: Option<nat>, next: PC): Client {
    c.(pc := next, pos := DrainStop(|Contents(es)|, c.pos, left),
       replies := Send(c.replies, DrainBytes(Contents(es), c.pos, left)))
  }

  function Load(c: Client): nat {
    |c.inbox| + if c.pc.Received? || c.pc.Sync? || c.pc.SeekDrain? then 1 else 0
  }

  function Rank(pc: PC): nat {
    match pc
    case Locked => 6
    case Receiving => 5
    case Received(_) => 4
    case Sync(_) => 3
    case SeekDrain(_) => 2
    case Rewind(_) => 1
    case _ => 0
  }

  /** The whole of handle_client from a given point on, run with nobody else about. */
  function Finish(parse: Parse, c: Client, es: seq<WriteEvent>): (Client, seq<WriteEvent>)
    decreases Load(c), Rank(c.pc)
  {
    if c.pc.SeekDrain? then Finish(parse, Drained(c, es, c.pc.left, Receiving), es)
    else if c.pc.Drain? then (Drained(c, es, c.pc.left, Closing), es)
    else if Busy(c.pc) then
      var (c', es') := LocalStep(parse, c, es);
      Finish(parse, c', es')
    else (c, es)
  }

  /** A thread that has just taken the mutex. The receive buffer is whatever the stack held. */
  function Fresh(opens: bool, inbox: seq<Recv>, stack: Bytes): Client {
    Client(Locked, opens, inbox, stack, 0, [], [])
  }

  lemma {:induction false} SendTwice(replies: seq<Bytes>, a: Bytes, b: Bytes)
    requires replies != []
    ensures Send(Send(replies, a), b) == Send(replies, a + b)
    ensures Send(replies, []) == replies
  {
    var k := |replies| - 1;
    assert replies[k] + a + b == replies[k] + (a + b);
    assert replies[k] + [] == replies[k];
  }

  /** One more turn of a drain loop does not change what the whole loop does. */
  lemma {:induction false} DrainTurn(c: Client, es: seq<WriteEvent>, left: Option<nat>, again: PC, next: PC)
    requires c.replies != []
    ensures var d := DrainStep(c, es, left, again, next);
            if left == Some(0) || ReadBytes(Contents(es), c.pos, BUFFER_SIZE) == []
            then d == Drained(c, es, left, next)
            else d.pc == again && Drained(d, es, Less(left), next) == Drained(c, es, left, next)
  {
    var contents := Contents(es);
    var got := ReadBytes(contents, c.pos, BUFFER_SIZE);
    if left == Some(0) || got == [] {
      assert DrainBytes(contents, c.pos, left) == [];
      SendTwice(c.replies, [], []);
    } else {
      var mid := c.pos + |got|;
      SendTwice(c.replies, got, DrainBytes(contents, mid, Less(left)));
      assert DrainStop(|contents|, mid, Less(left)) == DrainStop(|contents|, c.pos, left);
      assert got + DrainBytes(contents, mid, Less(left)) == DrainBytes(contents, c.pos, left);
    }
  }

  /** Replies have been opened wherever a drain is under way. */
  predicate Replying(c: Client) {
    c.pc.SeekDrain? || c.pc.Drain? ==> c.replies != []
  }

  /** The small steps of a thread compute handle_client. */
  lemma {:induction false} StepFinishes(parse: Parse, c: Client, es: seq<WriteEvent>)
    requires Busy(c.pc) && Replying(c)
    ensures var (c', es') := LocalStep(parse, c, es);
            Replying(c') && Finish(parse, c', es') == Finish(parse, c, es)
  {
    if c.pc.SeekDrain? {
      DrainTurn(c, es, c.pc.left, SeekDrain(Less(c.pc.left)), Receiving);
    } else if c.pc.Drain? {
      DrainTurn(c, es, c.pc.left, Drain(Less(c.pc.left)), Closing);
    }
  }

  predicate NoNewlines(w: seq<WriteEvent>) {
    forall e :: e in w ==> !HasNewline(e.bytes)
  }

  /** Up to the newline chunk, a connection has written no newline; from then on, exactly one, last. */
  predicate Wrote(c: Client) {
    match c.pc
    case Rewind(r) => OneCommand(c.wrote) && Completes(c.wrote)
    case Drain(_) => OneCommand(c.wrote) && Completes(c.wrote)
    case Closing => OneCommand(c.wrote)
    case Exiting => OneCommand(c.wrote)
    case Done => OneCommand(c.wrote)
    case Start => c.wrote == []
    case _ => NoNewlines(c.wrote)
  }

  /** es' is es and what c' has written since c. */
  ghost predicate Extends(c: Client, es: seq<WriteEvent>, c': Client, es': seq<WriteEvent>) {
    c.wrote <= c'.wrote && es' == es + c'.wrote[|c.wrote|..]
  }

  lemma {:induction false} ExtendsTwice(a: Client, es: seq<WriteEvent>, b: Client, es': seq<WriteEvent>,
                                        c: Client, es'': seq<WriteEvent>)
    requires Extends(a, es, b, es') && Extends(b, es', c, es'')
    ensures Extends(a, es, c, es'')
  {
    assert c.wrote[|a.wrote|..] == b.wrote[|a.wrote|..] + c.wrote[|b.wrote|..];
  }

  lemma {:induction false} StepWrote(parse: Parse, c: Client, es: seq<WriteEvent>)
    requires Busy(c.pc) && Wrote(c)
    ensures var (c', es') := LocalStep(parse, c, es);
            Wrote(c') && Extends(c, es, c', es')
  {
    hide Contents, LlseekPos, IoctlPos, Wrap64, HasNewline, WriteResult, IsSeek, ReadBytes, Send, Overwrite;
    assert es + [] == es;
    if c.pc.Received? {
      ReceivedWrote(parse, c, es);
    } else {
      var (c', es') := LocalStep(parse, c, es);
      assert c'.wrote == c.wrote;
      if NoNewlines(c.wrote) {
        QuietIsOneCommand(c.wrote);
      }
    }
  }

  lemma {:induction false} QuietIsOneCommand(w: seq<WriteEvent>)
    requires NoNewlines(w)
    ensures OneCommand(w)
  {
    assert forall i :: 0 <= i < |w| ==> w[i] in w;
  }

  lemma {:induction false} ReceivedWrote(parse: Parse, c: Client, es: seq<WriteEvent>)
    requires c.pc.Received? && NoNewlines(c.wrote)
    ensures var (c', es') := LocalStep(parse, c, es);
            Wrote(c') && Extends(c, es, c', es')
  {
    hide Contents, IoctlPos, Wrap64, HasNewline, WriteResult, IsSeek;
    var (c', es') := LocalStep(parse, c, es);
    QuietIsOneCommand(c.wrote);
    if c'.wrote != c.wrote {
      assert c'.wrote[|c.wrote|..] == [c'.wrote[|c.wrote|]];
      assert forall i :: 0 <= i < |c.wrote| ==> c.wrote[i] in c.wrote;
    } else {
      assert es + [] == es;
    }
  }

  lemma {:induction false} FinishWrote(parse: Parse, c: Client, es: seq<WriteEvent>)
    requires Busy(c.pc) && Wrote(c)
    ensures var (c', es') := Finish(parse, c, es);
            && (c'.pc.Closing? || c'.pc.Failing?)
            && Wrote(c')
            && Extends(c, es, c', es')
    decreases Load(c), Rank(c.pc)
  {
    hide LocalStep, Contents, NoNewlines, OneCommand, Completes, DrainStop, DrainBytes, Send;
    var (f, fs) := Finish(parse, c, es);
    if c.pc.SeekDrain? {
      FinishWrote(parse, Drained(c, es, c.pc.left, Receiving), es);
    } else if c.pc.Drain? {
      assert es + [] == es;
      DrainWrote(c);
    } else {
      StepWrote(parse, c, es);
      var (c', es') := LocalStep(parse, c, es);
      StepMeasure(parse, c, es);
      if Busy(c'.pc) {
        FinishWrote(parse, c', es');
        ExtendsTwice(c, es, c', es', f, fs);
      }
    }
  }

  lemma {:induction false} DrainWrote(c: Client)
    requires c.pc.Drain? && Wrote(c)
    ensures OneCommand(c.wrote)
  {
  }

  lemma {:induction false} StepMeasure(parse: Parse, c: Client, es: seq<WriteEvent>)
    requires Busy(c.pc) && !c.pc.SeekDrain? && !c.pc.Drain?
    ensures var (c', es') := LocalStep(parse, c, es);
            && (Load(c') < Load(c) || (Load(c') == Load(c) && Rank(c'.pc) < Rank(c.pc)))
            && (!Busy(c'.pc) ==> c'.pc.Closing? || c'.pc.Failing?)
  {
  }

  /** The chunk that completes the connection's command, if one does, and the position of the handle
      when its reply begins, before the lseek. */
  function Completing(parse: Parse, c: Client, es: seq<WriteEvent>): Option<(Recv, int)>
    decreases Load(c), Rank(c.pc)
  {
    if c.pc.SeekDrain? then Completing(parse, Drained(c, es, c.pc.left, Receiving), es)
    else if c.pc.Rewind? then Some((c.pc.r, c.pos))
    else if !Busy(c.pc) || c.pc.Drain? then None
    else
      StepMeasure(parse, c, es);
      var (c', es') := LocalStep(parse, c, es);
      Completing(parse, c', es')
  }

  /** The chunks that are still to be dealt with. */
  predicate Pending(c: Client, r: Recv) {
    r in c.inbox || ((c.pc.Received? || c.pc.Rewind?) && c.pc.r == r)
  }

  /** A rewind belongs to the write just made. */
  predicate RewindsOwn(c: Client) {
    c.pc.Rewind? ==>
      HasNewline(c.pc.r.data) && c.wrote != [] &&
      c.wrote[|c.wrote| - 1] == WriteEvent(c.pc.r.data, c.pc.r.write.copyOk)
  }

  function Last<T>(s: seq<T>): T
    requires s != []
  {
    s[|s| - 1]
  }

  /** What the last reply of a completed connection is, whatever fails on the way. */
  lemma {:induction false} LastReply(parse: Parse, c: Client, es: seq<WriteEvent>)
    requires Busy(c.pc) && !c.pc.Drain? && Wrote(c) && RewindsOwn(c)
    ensures var (f, fs) := Finish(parse, c, es);
            match Completing(parse, c, es)
            case None => !Completes(f.wrote)
            case Some((r, pos)) =>
              && Pending(c, r) && HasNewline(r.data) && Completes(f.wrote)
              && Last(f.wrote) == WriteEvent(r.data, r.write.copyOk)
              && f.replies != []
              && Last(f.replies) == DrainBytes(Contents(fs), if r.lseekLock then 0 else pos, r.turns)
    decreases Load(c), Rank(c.pc)
  {
    hide LocalStep, Contents, OneCommand, NoNewlines, HasNewline, Completes, Send, DrainStop, DrainBytes;
    if c.pc.SeekDrain? {
      LastReply(parse, Drained(c, es, c.pc.left, Receiving), es);
    } else if c.pc.Rewind? {
      RewindReply(parse, c, es);
    } else {
      StepWrote(parse, c, es);
      StepMeasure(parse, c, es);
      StepPending(parse, c, es);
      var (c', es') := LocalStep(parse, c, es);
      if Busy(c'.pc) {
        LastReply(parse, c', es');
      }
    }
  }

  /** The reply to a command: seek to 0, or fail to, and drain. */
  lemma {:induction false} RewindReply(parse: Parse, c: Client, es: seq<WriteEvent>)
    requires c.pc.Rewind?
    ensures var (f, fs) := Finish(parse, c, es);
            && fs == es && f.wrote == c.wrote
            && f.replies == c.replies +
                 [DrainBytes(Contents(es), if c.pc.r.lseekLock then 0 else c.pos, c.pc.r.turns)]
  {
    hide Contents;
    var (c1, _) := LocalStep(parse, c, es);
    DrainedFrom(c1, c.replies, es, c.pc.r.turns, Closing);
  }

  lemma {:induction false} StepPending(parse: Parse, c: Client, es: seq<WriteEvent>)
    requires Busy(c.pc) && !c.pc.Drain? && !c.pc.SeekDrain? && !c.pc.Rewind? && Wrote(c)
    ensures var c' := LocalStep(parse, c, es).0;
            && RewindsOwn(c') && !c'.pc.Drain?
            && (forall r :: Pending(c', r) ==> Pending(c, r))
            && (!Busy(c'.pc) ==> !Completes(c'.wrote))
  {
    hide Contents, IoctlPos, Wrap64, HasNewline, WriteResult, IsSeek, Overwrite;
  }

  /** A reply leaves nothing out: there is nothing to send; or the handle is back at 0 and enough
      reads succeed. */
  predicate WholeReply(size: nat, r: Recv, pos: int) {
    size == 0 ||
    ((r.lseekLock || pos == 0) && (r.turns.None? || BUFFER_SIZE * r.turns.value >= size))
  }

  lemma {:induction false} WholeReplyExactly(contents: Bytes, r: Recv, pos: int)
    ensures var reply := DrainBytes(contents, if r.lseekLock then 0 else pos, r.turns);
            && (reply == contents <==> WholeReply(|contents|, r, pos))
            && (r.lseekLock ==> reply <= contents)
  {
    var from := if r.lseekLock then 0 else pos;
    var reply := DrainBytes(contents, from, r.turns);
    if 0 <= from < |contents| {
      assert |reply| == DrainStop(|contents|, from, r.turns) - from;
    }
  }

  /** No drain is interrupted and no lseek fails. */
  predicate Calm(r: Recv) {
    r.turns.None? && r.lseekLock
  }

  predicate EndsWith(b: Bytes, tail: Bytes) {
    |tail| <= |b| && b[|b| - |tail|..] == tail
  }

  lemma {:induction false} FlatEndsWithLast(bs: seq<Bytes>)
    requires bs != []
    ensures EndsWith(Flat(bs), bs[|bs| - 1])
  {
    hide Flat;
    var k := |bs| - 1;
    assert bs == bs[..k] + [bs[k]];
    FlatConcat(bs[..k], [bs[k]]);
    FlatOne(bs[k]);
    assert Flat(bs) == Flat(bs[..k]) + bs[k];
  }

  /** Reply correctness, for every connection: it completes a command exactly when some chunk of it
      is the completing one; then its last reply is the contents of the device at that moment
      exactly when WholeReply says so, and a beginning of them whenever the lseek succeeds. The
      contents end with what earlier connections left open and then every byte of this one; or, if
      the ring could not take the command, they are what they were. */
  lemma {:induction false} ReplyIsContents(parse: Parse, opens: bool, inbox: seq<Recv>, stack: Bytes,
                                           es: seq<WriteEvent>)
    ensures var c0 := Fresh(opens, inbox, stack);
            var (c, es') := Finish(parse, c0, es);
            && es' == es + c.wrote
            && (match Completing(parse, c0, es)
                case None => !Completes(c.wrote)
                case Some((r, pos)) => Completes(c.wrote) && CorrectReply(inbox, r, pos, c, es))
  {
    hide Contents, Groups, Open, Join, Finish, Completing, LocalStep, EndsWith, DrainBytes, WholeReply;
    var c0 := Fresh(opens, inbox, stack);
    FinishWrote(parse, c0, es);
    LastReply(parse, c0, es);
    var (c, es') := Finish(parse, c0, es);
    assert c.wrote[0..] == c.wrote;
    var completing := Completing(parse, c0, es);
    if completing.Some? {
      CompletedContents(es, c.wrote);
      WholeReplyExactly(Contents(es'), completing.value.0, completing.value.1);
    }
  }

  /** What ReplyIsContents says of a connection c whose chunk r completed a command. */
  predicate CorrectReply(inbox: seq<Recv>, r: Recv, pos: int, c: Client, es: seq<WriteEvent>) {
    var contents := Contents(es + c.wrote);
    && r in inbox && HasNewline(r.data)
    && c.wrote != [] && Last(c.wrote) == WriteEvent(r.data, r.write.copyOk)
    && c.replies != []
    && (Last(c.replies) == contents <==> WholeReply(|contents|, r, pos))
    && (r.lseekLock ==> Last(c.replies) <= contents)
    && (if r.write.copyOk then EndsWith(contents, Open(es) + Join(c.wrote)) else contents == Contents(es))
  }

  /** In particular: the reply is whole when nothing goes wrong with the chunks that hold a newline. */
  lemma {:induction false} CalmReply(parse: Parse, opens: bool, inbox: seq<Recv>, stack: Bytes, es: seq<WriteEvent>)
    requires forall r :: r in inbox && HasNewline(r.data) ==> Calm(r)
    ensures var (c, es') := Finish(parse, Fresh(opens, inbox, stack), es);
            Completes(c.wrote) ==> c.replies != [] && Last(c.replies) == Contents(es')
  {
    hide Finish, Completing, Contents, Completes, HasNewline, EndsWith;
    ReplyIsContents(parse, opens, inbox, stack, es);
  }

  /** A wrong reply: the server ignores that its lseek was interrupted. The first byte of the device
      is missing from what the sender of a lone newline gets back. */
  lemma {:induction false} InterruptedRewindExample(parse: Parse, stack: Bytes, es: seq<WriteEvent>, r: Recv)
    requires |stack| == BUFFER_SIZE && r.data == [NEWLINE] && WriteResult(Some(r.data), r.write).Ok?
    requires r.write.copyOk && !r.lseekLock && r.turns.None?
    ensures var (c, es') := Finish(parse, Fresh(true, [r], stack), es);
            && c.pc.Closing? && Completes(c.wrote)
            && |Contents(es')| > 0 && c.replies == [Contents(es')[1..]]
            && Last(c.replies) != Contents(es')
  {
    hide Contents, Open, Groups;
    var c0 := Fresh(true, [r], stack);
    var b := Overwrite(stack, r.data);
    var c1 := At([], b, 0, [], []);
    FinishLocked(parse, c0, es);
    FinishReceiving(parse, At([r], stack, 0, [], []), es);
    assert b[0] == NEWLINE;
    assert !IsSeek(b);
    assert [r][1..] == [] && r.data[0] == NEWLINE;
    FinishWrite(parse, c1, es, r);
    var e := WriteEvent(r.data, r.write.copyOk);
    assert [] + [e] == [e];
    CompletedContents(es, [e]);
    JoinOne(e);
    var reply := DrainBytes(Contents(es + [e]), 1, None);
    assert reply == Contents(es + [e])[1..];
    assert [] + [reply] == [reply];
  }

  lemma {:induction false} CompletedContents(es: seq<WriteEvent>, w: seq<WriteEvent>)
    requires OneCommand(w) && Completes(w)
    ensures Merged(w).copyOk ==> EndsWith(Contents(es + w), Open(es) + Join(w))
    ensures !Merged(w).copyOk ==> Contents(es + w) == Contents(es)
  {
    hide Groups, Open, Join, EndsWith;
    ConnectionIsOneWrite(es, w);
    var g := Group(Open(es) + Join(w), Merged(w).copyOk);
    StoredSnoc(Groups(es), g);
    if g.stored {
      assert Live(es + w)[|Live(es + w)| - 1] == g.bytes;
      FlatEndsWithLast(Live(es + w));
    }
  }

  /** As much of b as the reads that succeed can carry. */
  function Head(b: Bytes, turns: Option<nat>): Bytes {
    if turns.None? then b else b[..Min(BUFFER_SIZE * turns.value, |b|)]
  }

  /** Seek round trip: a seek command that the driver accepts is answered with command cmd of the
      live ones from byte off on and everything after it, as far as the reads succeed, whether the
      lseek that follows the ioctl does or not; and nothing is written. */
  lemma {:induction false} SeekReply(parse: Parse, c: Client, es: seq<WriteEvent>, s: SeekTo)
    requires c.pc.Received? && IsSeek(c.buffer) && parse(c.buffer[|IOCTL_PREFIX|..]) == Some(s)
    requires IoctlResult(es, IOCSEEKTO, Some(s), c.pc.r.ioctlLock).Ok?
    requires |Contents(es)| <= LOFF_MAX
    ensures var reply := Head(Live(es)[s.cmd][s.off..] + Flat(Live(es)[s.cmd + 1..]), c.pc.r.turns);
            var p := SeekPosition(Live(es), s.cmd, s.off);
            Finish(parse, c, es) ==
            Finish(parse, c.(pc := Receiving, pos := p + |reply|, replies := c.replies + [reply]), es)
  {
    hide Live, Flat, Finish, SeekPosition, IsSeek, DrainStop, DrainBytes, Head, Lens;
    LiveNonEmpty(es);
    SeekRoundTrip(Live(es), s.cmd, s.off);
    var p := SeekPosition(Live(es), s.cmd, s.off);
    FinishSeek(parse, c.(pc := Receiving), es, c.pc.r);
    SuffixDrain(Contents(es), p, c.pc.r.turns);
    assert c.(pc := Receiving).(pc := Received(c.pc.r)) == c;
  }

  lemma {:induction false} SuffixDrain(contents: Bytes, p: nat, turns: Option<nat>)
    requires p <= |contents|
    ensures DrainBytes(contents, p, turns) == Head(contents[p..], turns)
    ensures DrainStop(|contents|, p, turns) == p + |Head(contents[p..], turns)|
  {
  }

  /** The prefix test reads 19 cells of the buffer, whatever recv filled. It judges the chunk itself
      except when a short chunk is the beginning of the prefix and what an earlier chunk left behind
      it is the rest. */
  lemma {:induction false} PrefixTest(buffer: Bytes, data: Chunk)
    requires |buffer| == BUFFER_SIZE
    ensures (IsSeek(Overwrite(buffer, data)) <==> IOCTL_PREFIX <= data) <==>
            !(|data| < |IOCTL_PREFIX| && data <= IOCTL_PREFIX &&
              buffer[|data|..|IOCTL_PREFIX|] == IOCTL_PREFIX[|data|..])
  {
    var n, b := |IOCTL_PREFIX|, Overwrite(buffer, data);
    assert IsSeek(b) <==> b[..n] == IOCTL_PREFIX;
    if |data| < n {
      assert b[..n] == data + buffer[|data|..n];
      assert IOCTL_PREFIX == IOCTL_PREFIX[..|data|] + IOCTL_PREFIX[|data|..];
      assert data <= IOCTL_PREFIX <==> data == IOCTL_PREFIX[..|data|];
    } else {
      assert b[..n] == data[..n];
    }
  }

  /** After a seek command, a chunk that is just its first letter is taken for the command again:
      the connection writes nothing to the device. */
  lemma {:induction false} StaleBufferExample(stack: Bytes, parse: Parse, es: seq<WriteEvent>, seek: Recv, r: Recv)
    requires |stack| == BUFFER_SIZE && IOCTL_PREFIX <= seek.data && r.data == [65]
    ensures !(IOCTL_PREFIX <= r.data)
    ensures Finish(parse, Fresh(true, [seek, r], stack), es).1 == es
  {
    hide Finish, Contents, IoctlPos, LlseekPos, DrainStop, DrainBytes;
    FinishLocked(parse, Fresh(true, [seek, r], stack), es);
    var b := Overwrite(stack, seek.data);
    assert b[..19] == IOCTL_PREFIX;
    var c := SeekTurn(parse, At([seek, r], stack, 0, [], []), es);
    assert c.inbox == [r];
    var b' := Overwrite(b, r.data);
    assert b'[..19] == [65] + b[..19][1..];
    assert IsSeek(b');
    var c' := SeekTurn(parse, c, es);
    FinishReceiving(parse, c', es);
  }

  /** One turn of the receive loop that takes its chunk for a seek command. */
  lemma {:induction false} SeekTurn(parse: Parse, c: Client, es: seq<WriteEvent>) returns (c': Client)
    requires c.pc.Receiving? && c.inbox != [] && IsSeek(Overwrite(c.buffer, c.inbox[0].data))
    ensures c'.pc.Receiving? && c'.inbox == c.inbox[1..] && c'.buffer == Overwrite(c.buffer, c.inbox[0].data)
    ensures Finish(parse, c, es) == Finish(parse, c', es)
  {
    hide Finish, Contents, IoctlPos, LlseekPos, DrainStop, DrainBytes;
    var r := c.inbox[0];
    c' := c.(inbox := c.inbox[1..], buffer := Overwrite(c.buffer, r.data));
    FinishReceiving(parse, c, es);
    FinishSeek(parse, c', es, r);
    var s := parse(c'.buffer[|IOCTL_PREFIX|..]);
    if s.Some? {
      var p := LlseekPos(|Contents(es)|, IoctlPos(es, c.pos, IOCSEEKTO, s, r.ioctlLock), 0, SEEK_CUR, r.lseekLock);
      c' := c'.(pos := DrainStop(|Contents(es)|, p, r.turns),
                replies := c.replies + [DrainBytes(Contents(es), p, r.turns)]);
    }
  }

  // ---------- the whole connection, one loop turn at a time ----------

  /** A thread about to call recv. */
  function At(inbox: seq<Recv>, buffer: Bytes, pos: int, wrote: seq<WriteEvent>, replies: seq<Bytes>): Client {
    Client(Receiving, true, inbox, buffer, pos, wrote, replies)
  }

  lemma {:induction false} FinishLocked(parse: Parse, c: Client, es: seq<WriteEvent>)
    requires c.pc.Locked?
    ensures Finish(parse, c, es) ==
            if c.opens then Finish(parse, c.(pc := Receiving, pos := 0), es) else (c.(pc := Failing), es)
  {
  }

  lemma {:induction false} FinishReceiving(parse: Parse, c: Client, es: seq<WriteEvent>)
    requires c.pc.Receiving?
    ensures c.inbox == [] ==> Finish(parse, c, es) == (c.(pc := Closing), es)
    ensures c.inbox != [] ==>
              var r := c.inbox[0];
              Finish(parse, c, es) ==
              Finish(parse, c.(pc := Received(r), inbox := c.inbox[1..], buffer := Overwrite(c.buffer, r.data)), es)
  {
  }

  /** The seek branch, up to the next recv. */
  lemma {:induction false} FinishSeek(parse: Parse, c: Client, es: seq<WriteEvent>, r: Recv)
    requires c.pc.Receiving? && IsSeek(c.buffer)
    ensures var s := parse(c.buffer[|IOCTL_PREFIX|..]);
            var p0 := IoctlPos(es, c.pos, IOCSEEKTO, s, r.ioctlLock);
            var p := LlseekPos(|Contents(es)|, p0, 0, SEEK_CUR, r.lseekLock);
            Finish(parse, c.(pc := Received(r)), es) ==
            if s.None? then Finish(parse, c, es)
            else Finish(parse, c.(pos := DrainStop(|Contents(es)|, p, r.turns),
                                  replies := c.replies + [DrainBytes(Contents(es), p, r.turns)]), es)
  {
    hide Contents, IoctlPos, Wrap64, LlseekPos, DrainStop, DrainBytes;
    var s := parse(c.buffer[|IOCTL_PREFIX|..]);
    if s.Some? {
      var p0 := IoctlPos(es, c.pos, IOCSEEKTO, s, r.ioctlLock);
      var p := LlseekPos(|Contents(es)|, p0, 0, SEEK_CUR, r.lseekLock);
      var c1 := c.(pc := Sync(r), pos := p0);
      var c2 := c.(pc := SeekDrain(r.turns), pos := p, replies := c.replies + [[]]);
      assert Finish(parse, c.(pc := Received(r)), es) == Finish(parse, c1, es);
      assert Finish(parse, c1, es) == Finish(parse, c2, es);
      DrainedFrom(c2, c.replies, es, r.turns, Receiving);
    } else {
      assert LocalStep(parse, c.(pc := Received(r)), es) == (c, es);
    }
  }

  lemma {:induction false} DrainedFrom(c: Client, replies: seq<Bytes>, es: seq<WriteEvent>, left: Option<nat>, next: PC)
    requires c.replies == replies + [[]]
    ensures Drained(c, es, left, next) ==
            c.(pc := next, pos := DrainStop(|Contents(es)|, c.pos, left),
               replies := replies + [DrainBytes(Contents(es), c.pos, left)])
  {
    var sent := DrainBytes(Contents(es), c.pos, left);
    assert [] + sent == sent;
    assert Send(c.replies, sent) == replies + [sent];
  }

  /** The write branch, up to the next recv or to the end of the connection. */
  lemma {:induction false} FinishWrite(parse: Parse, c: Client, es: seq<WriteEvent>, r: Recv)
    requires c.pc.Receiving? && !IsSeek(c.buffer)
    ensures var e := WriteEvent(r.data, r.write.copyOk);
            var es' := es + [e];
            var c' := c.(pos := Wrap64(c.pos + |r.data|), wrote := c.wrote + [e]);
            var p := LlseekPos(|Contents(es')|, c'.pos, 0, SEEK_SET, r.lseekLock);
            Finish(parse, c.(pc := Received(r)), es) ==
            if WriteResult(Some(r.data), r.write).Err? then (c.(pc := Failing), es)
            else if !HasNewline(r.data) then Finish(parse, c', es')
            else (c'.(pc := Closing, pos := DrainStop(|Contents(es')|, p, r.turns),
                      replies := c.replies + [DrainBytes(Contents(es'), p, r.turns)]), es')
  {
    hide Contents, Wrap64, IsSeek, LlseekPos, DrainStop, DrainBytes, HasNewline, WriteResult;
    var e := WriteEvent(r.data, r.write.copyOk);
    var es' := es + [e];
    if WriteResult(Some(r.data), r.write).Ok? && HasNewline(r.data) {
      var c1 := c.(pc := Rewind(r), pos := Wrap64(c.pos + |r.data|), wrote := c.wrote + [e]);
      var p := LlseekPos(|Contents(es')|, c1.pos, 0, SEEK_SET, r.lseekLock);
      var c2 := c1.(pc := Drain(r.turns), pos := p, replies := c.replies + [[]]);
      assert Finish(parse, c.(pc := Received(r)), es) == Finish(parse, c1, es');
      assert Finish(parse, c1, es') == Finish(parse, c2, es');
      DrainedFrom(c2, c.replies, es', r.turns, Closing);
    }
  }

  /** What sscanf is handed: a seek chunk's own arguments, and behind them what the buffer held. A
      chunk it cannot make sense of is passed over; one it can is a seek. */
  lemma {:induction false} SeekArguments(parse: Parse, c: Client, es: seq<WriteEvent>, args: Bytes)
    requires c.pc.Receiving? && |c.buffer| == BUFFER_SIZE
    requires c.inbox != [] && c.inbox[0].data == IOCTL_PREFIX + args
    ensures var r := c.inbox[0];
            var cells := args + c.buffer[|r.data|..];
            var rest := c.(inbox := c.inbox[1..], buffer := IOCTL_PREFIX + cells);
            && (parse(cells).None? ==> Finish(parse, c, es) == Finish(parse, rest, es))
            && (parse(cells).Some? ==> Finish(parse, c, es) == Finish(parse, rest.(pc := Received(r)), es))
            && IsSeek(rest.buffer) && rest.buffer[|IOCTL_PREFIX|..] == cells
  {
    hide Finish, IoctlPos, LlseekPos, DrainStop, DrainBytes, Contents;
    var r := c.inbox[0];
    var cells := args + c.buffer[|r.data|..];
    OverwriteExactly(c.buffer, r.data);
    assert Overwrite(c.buffer, r.data) == IOCTL_PREFIX + cells;
    FinishReceiving(parse, c, es);
    FinishSeek(parse, c.(inbox := c.inbox[1..], buffer := IOCTL_PREFIX + cells), es, r);
  }

  /** A seek command from the chunk to the reply: within a live command of a device that has not
      wrapped, the client gets the rest of that command and all later ones. */
  lemma {:induction false} SeekCommand(parse: Parse, c: Client, es: seq<WriteEvent>, args: Bytes, s: SeekTo)
    requires c.pc.Receiving? && |c.buffer| == BUFFER_SIZE
    requires c.inbox != [] && c.inbox[0].data == IOCTL_PREFIX + args && c.inbox[0].ioctlLock
    requires parse(args + c.buffer[|c.inbox[0].data|..]) == Some(s)
    requires |Commands(es)| < MAX_OPS || |Commands(es)| % MAX_OPS == 0
    requires s.cmd < |Live(es)| && s.off <= |Live(es)[s.cmd]| && |Contents(es)| <= LOFF_MAX
    ensures var r := c.inbox[0];
            var reply := Head(Live(es)[s.cmd][s.off..] + Flat(Live(es)[s.cmd + 1..]), r.turns);
            Finish(parse, c, es) ==
            Finish(parse, c.(inbox := c.inbox[1..], buffer := r.data + c.buffer[|r.data|..],
                             pos := SeekPosition(Live(es), s.cmd, s.off) + |reply|,
                             replies := c.replies + [reply]), es)
  {
    hide Finish, SeekPosition, Head, Contents, Flat, Live, IsSeek, IoctlResult;
    var r := c.inbox[0];
    var cells := args + c.buffer[|r.data|..];
    SeekArguments(parse, c, es, args);
    IoctlUnwrapped(es, 0, s);
    assert IOCTL_PREFIX + cells == r.data + c.buffer[|r.data|..];
    SeekReply(parse, c.(pc := Received(r), inbox := c.inbox[1..], buffer := IOCTL_PREFIX + cells), es, s);
  }

  /** A seek command that the driver refuses is answered from wherever the handle is. */
  lemma {:induction false} RefusedSeekReply(parse: Parse, c: Client, es: seq<WriteEvent>, s: SeekTo)
    requires c.pc.Received? && IsSeek(c.buffer) && parse(c.buffer[|IOCTL_PREFIX|..]) == Some(s)
    requires IoctlResult(es, IOCSEEKTO, Some(s), c.pc.r.ioctlLock).Err?
    requires 0 <= c.pos <= LOFF_MAX && |Contents(es)| <= LOFF_MAX
    ensures var from := Min(c.pos, |Contents(es)|);
            var reply := Head(Contents(es)[from..], c.pc.r.turns);
            var at := if c.pc.r.lseekLock then from else c.pos;
            Finish(parse, c, es) ==
            Finish(parse, c.(pc := Receiving, pos := at + |reply|, replies := c.replies + [reply]), es)
  {
    hide Contents, Finish, IoctlResult, IsSeek, DrainStop, DrainBytes, Head;
    var r, total := c.pc.r, |Contents(es)|;
    var from := Min(c.pos, total);
    FinishSeek(parse, c.(pc := Receiving), es, r);
    SuffixDrain(Contents(es), from, r.turns);
    BeyondEnd(Contents(es), c.pos, r.turns);
    assert c.(pc := Receiving).(pc := Received(r)) == c;
  }

  lemma {:induction false} BeyondEnd(contents: Bytes, pos: nat, turns: Option<nat>)
    ensures pos >= |contents| ==> DrainStop(|contents|, pos, turns) == pos && DrainBytes(contents, pos, turns) == []
    ensures Head([], turns) == [] && contents[|contents|..] == []
  {
  }

  /** The writes that the chunks of an inbox make when each of them is written. */
  function Writes(inbox: seq<Recv>): (es: seq<WriteEvent>)
    ensures |es| == |inbox|
  {
    seq(|inbox|, i requires 0 <= i < |inbox| => WriteEvent(inbox[i].data, inbox[i].write.copyOk))
  }

  /** Those up to the first with a newline. */
  function FirstWrites(inbox: seq<Recv>): seq<WriteEvent> {
    Writes(inbox)[..Min(FirstNewline(Writes(inbox)) + 1, |inbox|)]
  }

  lemma {:induction false} FirstWritesStep(inbox: seq<Recv>)
    ensures inbox == [] ==> FirstWrites(inbox) == [] && FirstNewline(Writes(inbox)) == 0
    ensures inbox != [] ==>
              var e, i := WriteEvent(inbox[0].data, inbox[0].write.copyOk), FirstNewline(Writes(inbox));
              if HasNewline(e.bytes) then i == 0 && FirstWrites(inbox) == [e]
              else i == 1 + FirstNewline(Writes(inbox[1..])) && FirstWrites(inbox) == [e] + FirstWrites(inbox[1..])
  {
    if inbox != [] {
      assert Writes(inbox)[1..] == Writes(inbox[1..]);
    }
  }

  /** A chunk that cannot be taken for a seek command, whatever the buffer holds, and whose calls
      all succeed. */
  predicate Plain(r: Recv) {
    && r.data[0] != IOCTL_PREFIX[0]
    && r.write.kmallocOk && r.write.copyFromUserOk && r.write.lockOk && r.write.kreallocOk
    && r.lseekLock && r.turns.None?
  }

  /** A plain connection from end to end: it writes its chunks up to the first with a newline, never
      fails, and is answered once, with the contents of the device at that moment, if it sent a
      newline at all. */
  lemma {:induction false} PlainConnection(parse: Parse, inbox: seq<Recv>, stack: Bytes, es: seq<WriteEvent>)
    requires |stack| == BUFFER_SIZE && forall r :: r in inbox ==> Plain(r)
    ensures var (c, es') := Finish(parse, Fresh(true, inbox, stack), es);
            var i := FirstNewline(Writes(inbox));
            && c.pc.Closing?
            && es' == es + FirstWrites(inbox)
            && c.replies == (if i < |inbox| then [Contents(es')] else [])
  {
    hide Finish, FirstNewline, Writes, Contents;
    FinishLocked(parse, Fresh(true, inbox, stack), es);
    PlainTurns(parse, At(inbox, stack, 0, [], []), es);
  }

  lemma {:induction false} PlainIsNoSeek(buffer: Bytes, r: Recv)
    requires |buffer| == BUFFER_SIZE && Plain(r)
    ensures !IsSeek(Overwrite(buffer, r.data))
  {
    assert Overwrite(buffer, r.data)[0] == r.data[0];
  }

  lemma {:induction false} RewindPos(total: nat, pos: int)
    ensures LlseekPos(total, pos, 0, SEEK_SET, true) == 0
  {
  }

  /** The client after a plain chunk. */
  function Written(c: Client): Client
    requires c.inbox != []
  {
    var r := c.inbox[0];
    c.(inbox := c.inbox[1..], buffer := Overwrite(c.buffer, r.data), pos := Wrap64(c.pos + |r.data|),
       wrote := c.wrote + [WriteEvent(r.data, r.write.copyOk)])
  }

  lemma {:induction false} PlainTurn(parse: Parse, c: Client, es: seq<WriteEvent>)
    requires c.pc.Receiving? && |c.buffer| == BUFFER_SIZE && c.inbox != [] && Plain(c.inbox[0])
    ensures var r := c.inbox[0];
            var es' := es + [WriteEvent(r.data, r.write.copyOk)];
            && |Written(c).buffer| == BUFFER_SIZE
            && (!HasNewline(r.data) ==> Finish(parse, c, es) == Finish(parse, Written(c), es'))
            && (HasNewline(r.data) ==>
                  var (f, fs) := Finish(parse, c, es);
                  f.pc.Closing? && fs == es' && f.replies == c.replies + [Contents(es')])
  {
    hide Finish, Contents, DrainStop, DrainBytes, Wrap64, LlseekPos, IsSeek, WriteResult, HasNewline;
    var r := c.inbox[0];
    FinishReceiving(parse, c, es);
    OverwriteExactly(c.buffer, r.data);
    PlainIsNoSeek(c.buffer, r);
    WriteExactly(r.data, r.write);
    FinishWrite(parse, c.(inbox := c.inbox[1..], buffer := Overwrite(c.buffer, r.data)), es, r);
    var contents := Contents(es + [WriteEvent(r.data, r.write.copyOk)]);
    RewindPos(|contents|, Wrap64(c.pos + |r.data|));
    WholeReplyExactly(contents, r, 0);
  }

  lemma {:induction false} PlainTurns(parse: Parse, c: Client, es: seq<WriteEvent>)
    requires c.pc.Receiving? && |c.buffer| == BUFFER_SIZE && forall r :: r in c.inbox ==> Plain(r)
    ensures var (f, es') := Finish(parse, c, es);
            var i := FirstNewline(Writes(c.inbox));
            && f.pc.Closing?
            && es' == es + FirstWrites(c.inbox)
            && f.replies == c.replies + (if i < |c.inbox| then [Contents(es')] else [])
    decreases |c.inbox|
  {
    hide Finish, Contents, Plain, HasNewline, Overwrite, Wrap64, Writes, FirstWrites, FirstNewline;
    FirstWritesStep(c.inbox);
    if c.inbox == [] {
      FinishReceiving(parse, c, es);
      assert es + [] == es && c.replies + [] == c.replies;
    } else {
      var r := c.inbox[0];
      var e := WriteEvent(r.data, r.write.copyOk);
      PlainTurn(parse, c, es);
      if !HasNewline(r.data) {
        PlainTurns(parse, Written(c), es + [e]);
        var later := FirstWrites(c.inbox[1..]);
        assert es + [e] + later == es + ([e] + later);
      }
    }
  }

  /** A connection aborts only when its open fails or one of its writes does. */
  lemma {:induction false} AbortsOnlyOnFailure(parse: Parse, opens: bool, inbox: seq<Recv>, stack: Bytes,
                                               es: seq<WriteEvent>)
    ensures var (c, es') := Finish(parse, Fresh(opens, inbox, stack), es);
            && (!opens ==> c.pc.Failing? && es' == es)
            && (opens && (forall r :: r in inbox ==> WriteResult(Some(r.data), r.write).Ok?) ==> c.pc.Closing?)
  {
    hide Finish;
    FinishLocked(parse, Fresh(opens, inbox, stack), es);
    if opens {
      if forall r :: r in inbox ==> WriteResult(Some(r.data), r.write).Ok? {
        GoodTurns(parse, At(inbox, stack, 0, [], []), es);
      }
    } else {
      FinishedFailing(parse, Fresh(opens, inbox, stack).(pc := Failing), es);
    }
  }

  lemma {:induction false} FinishedFailing(parse: Parse, c: Client, es: seq<WriteEvent>)
    requires c.pc.Failing?
    ensures Finish(parse, c, es) == (c, es)
  {
  }

  lemma {:induction false} GoodTurns(parse: Parse, c: Client, es: seq<WriteEvent>)
    requires c.pc.Receiving? && forall r :: r in c.inbox ==> WriteResult(Some(r.data), r.write).Ok?
    ensures Finish(parse, c, es).0.pc.Closing?
    decreases |c.inbox|
  {
    hide Finish, Contents, DrainStop, DrainBytes, Wrap64, IoctlPos, LlseekPos, HasNewline, Overwrite, WriteResult;
    FinishReceiving(parse, c, es);
    if c.inbox != [] {
      var r := c.inbox[0];
      var c' := c.(inbox := c.inbox[1..], buffer := Overwrite(c.buffer, r.data));
      if IsSeek(c'.buffer) {
        var next := SeekTurn(parse, c, es);
        GoodTurns(parse, next, es);
      } else {
        var e := WriteEvent(r.data, r.write.copyOk);
        FinishWrite(parse, c', es, r);
        GoodTurns(parse, c'.(pos := Wrap64(c.pos + |r.data|), wrote := c.wrote + [e]), es + [e]);
      }
    }
  }

  // ---------- the code ----------

  /** recv into the reused buffer. */
  method Receive(buffer: array<byte>, data: Chunk)
    requires buffer.Length == BUFFER_SIZE
    modifies buffer
    ensures buffer[..] == Overwrite(old(buffer[..]), data)
    ensures buffer[..|data|] == data && buffer[|data|..] == old(buffer[|data|..])
  {
    for i := 0 to |data|
      invariant buffer[..i] == data[..i]
      invariant forall j :: i <= j < buffer.Length ==> buffer[j] == old(buffer[j])
    {
      buffer[i] := data[i];
    }
    assert buffer[..] == buffer[..|data|] + buffer[|data|..];
  }

  /** One more read of 1024 bytes. */
  lemma {:induction false} DrainMore(contents: Bytes, pos: int, calls: nat)
    ensures var mid := DrainStop(|contents|, pos, Some(calls));
            var got := ReadBytes(contents, mid, BUFFER_SIZE);
            && DrainStop(|contents|, pos, Some(calls + 1)) == mid + |got|
            && DrainBytes(contents, pos, Some(calls + 1)) == DrainBytes(contents, pos, Some(calls)) + got
            && (got == [] ==> DrainBytes(contents, pos, None) == DrainBytes(contents, pos, Some(calls)))
            && (got == [] ==> DrainStop(|contents|, pos, None) == mid)
            && (forall k: nat :: got == [] && calls <= k ==>
                  && DrainStop(|contents|, pos, Some(k)) == mid
                  && DrainBytes(contents, pos, Some(k)) == DrainBytes(contents, pos, Some(calls)))
  {
  }

  lemma {:induction false} DrainNothing(contents: Bytes, pos: int)
    ensures DrainStop(|contents|, pos, Some(0)) == pos && DrainBytes(contents, pos, Some(0)) == []
  {
  }

  /** while ((bytes_read = read(...)) > 0) send(...) */
  method DrainDevice(dev: Device, filp: File, turns: Option<nat>) returns (sent: Bytes)
    requires dev.Valid()
    modifies filp
    ensures dev.Valid()
    ensures filp.fPos == DrainStop(|Contents(dev.events)|, old(filp.fPos), turns)
    ensures sent == DrainBytes(Contents(dev.events), old(filp.fPos), turns)
  {
    hide Live, dev.Valid, DrainStop, DrainBytes;
    ghost var contents, pos := Contents(dev.events), filp.fPos;
    FlatLength(Live(dev.events));
    var readBuf := new byte[BUFFER_SIZE];
    sent := [];
    var calls := 0;
    DrainNothing(contents, pos);
    while true
      invariant dev.Valid() && fresh(readBuf) && readBuf.Length == BUFFER_SIZE
      invariant turns.Some? ==> calls <= turns.value
      invariant filp.fPos == DrainStop(|contents|, pos, Some(calls))
      invariant sent == DrainBytes(contents, pos, Some(calls))
      decreases |contents| - filp.fPos
    {
      DrainMore(contents, pos, calls);
      var r := dev.Read(filp, readBuf, BUFFER_SIZE, turns != Some(calls), None);
      if r.Err? || r.value <= 0 {
        return;
      }
      sent := sent + readBuf[..r.value];
      calls := calls + 1;
    }
  }

  /** handle_client, between the lock and the unlock of file_mutex. Aborted stands for the two
      ways out that end the whole process. */
  method HandleClient(dev: Device, parse: Parse, opens: bool, inbox: seq<Recv>, stack: Bytes)
    returns (aborted: bool, replies: seq<Bytes>)
    requires dev.Valid() && |stack| == BUFFER_SIZE
    modifies dev, dev.ring, dev.ring.entry, dev.heap
    ensures dev.Valid()
    ensures var (c, es) := Finish(parse, Fresh(opens, inbox, stack), old(dev.events));
            dev.events == es && replies == c.replies && aborted == c.pc.Failing?
  {
    hide dev.Valid, Contents, LocalStep, IoctlPos, IoctlResult, DrainStop, DrainBytes, Wrap64;
    hide Finish, LlseekPos, Overwrite;
    ghost var c0 := Fresh(opens, inbox, stack);
    ghost var result := Finish(parse, c0, dev.events);
    FinishLocked(parse, c0, dev.events);
    replies := [];
    if !opens {
      return true, replies;
    }
    var filp := new File();
    var buffer := new byte[BUFFER_SIZE](i requires 0 <= i < BUFFER_SIZE => stack[i]);
    assert buffer[..] == stack;
    ghost var wrote := [];
    var i := 0;
    while i < |inbox|
      invariant 0 <= i <= |inbox| && dev.Valid() && fresh(filp) && fresh(buffer) && buffer.Length == BUFFER_SIZE
      invariant Finish(parse, At(inbox[i..], buffer[..], filp.fPos, wrote, replies), dev.events) == result
    {
      var r := inbox[i];
      ghost var c := At(inbox[i..], buffer[..], filp.fPos, wrote, replies);
      FinishReceiving(parse, c, dev.events);
      Receive(buffer, r.data);
      i := i + 1;
      if IOCTL_PREFIX <= buffer[..] {
        var seekto := parse(buffer[..][|IOCTL_PREFIX|..]);
        FinishSeek(parse, At(inbox[i..], buffer[..], filp.fPos, wrote, replies), dev.events, r);
        if seekto.Some? {
          var code := dev.Ioctl(filp, IOCSEEKTO, seekto, r.ioctlLock);
          code := dev.Llseek(filp, 0, SEEK_CUR, r.lseekLock);
          var sent := DrainDevice(dev, filp, r.turns);
          replies := replies + [sent];
        }
        continue;
      }
      FinishWrite(parse, At(inbox[i..], buffer[..], filp.fPos, wrote, replies), dev.events, r);
      var bytesReceived := |r.data|;
      var code := dev.Write(filp, Some(buffer[..bytesReceived]), r.write);
      if code != Ok(bytesReceived) {
        return true, replies;
      }
      wrote := wrote + [WriteEvent(r.data, r.write.copyOk)];
      if NEWLINE in buffer[..bytesReceived] {
        code := dev.Llseek(filp, 0, SEEK_SET, r.lseekLock);
        var sent := DrainDevice(dev, filp, r.turns);
        replies := replies + [sent];
        return false, replies;
      }
    }
    FinishReceiving(parse, At(inbox[i..], buffer[..], filp.fPos, wrote, replies), dev.events);
    return false, replies;
  }
}
