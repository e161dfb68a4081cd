/** What the device means, as a function of the writes that succeeded, in lock order. A group of
    chunks is closed by each chunk that holds a newline; the ring keeps the newest groups. */
module History {
  import opened ByteStrings

  /** AESDCHAR_MAX_WRITE_OPERATIONS_SUPPORTED */
  const MAX_OPS: nat := 10

  /** One successful write. copyOk tells whether the allocation inside add_entry succeeds, should
      this write complete a command. */
  datatype WriteEvent = WriteEvent(bytes: Bytes, copyOk: bool)

  /** A completed command, and whether it reached the ring. */
  datatype Group = Group(bytes: Bytes, stored: bool)

  predicate HasNewline(b: Bytes) {
    NEWLINE in b
  }

  /** All bytes written. */
  function Join(es: seq<WriteEvent>): Bytes {
    if es == [] then [] else es[0].bytes + Join(es[1..])
  }

  function FirstNewline(es: seq<WriteEvent>): (i: nat)
    ensures i <= |es|
    ensures forall j :: 0 <= j < i ==> !HasNewline(es[j].bytes)
    ensures i < |es| ==> HasNewline(es[i].bytes)
  {
    if es == [] || HasNewline(es[0].bytes) then 0 else 1 + FirstNewline(es[1..])
  }

  /** The completed commands, read off the history from its beginning. */
  function Groups(es: seq<WriteEvent>): seq<Group> {
    var i := FirstNewline(es);
    if i == |es| then [] else [Group(Join(es[..i + 1]), es[i].copyOk)] + Groups(es[i + 1..])
  }

  /** The bytes after the last completed command. */
  function Open(es: seq<WriteEvent>): Bytes {
    var i := FirstNewline(es);
    if i == |es| then Join(es) else Open(es[i + 1..])
  }

  function AllBytes(gs: seq<Group>): (r: seq<Bytes>)
    ensures |r| == |gs|
  {
    seq(|gs|, i requires 0 <= i < |gs| => gs[i].bytes)
  }

  function Stored(gs: seq<Group>): seq<Bytes> {
    if gs == [] then [] else (if gs[0].stored then [gs[0].bytes] else []) + Stored(gs[1..])
  }

  function Dropped(gs: seq<Group>): seq<Bytes> {
    if gs == [] then [] else (if gs[0].stored then [] else [gs[0].bytes]) + Dropped(gs[1..])
  }

  /** Every command that ever reached the ring. */
  function Commands(es: seq<WriteEvent>): seq<Bytes> {
    Stored(Groups(es))
  }

  /** The completed commands whose inner allocation failed. */
  function Losses(es: seq<WriteEvent>): seq<Bytes> {
    Dropped(Groups(es))
  }

  /** The commands still in the ring, oldest first. */
  function Live(es: seq<WriteEvent>): seq<Bytes> {
    LastN(Commands(es), MAX_OPS)
  }

  function Evicted(es: seq<WriteEvent>): seq<Bytes> {
    var cs := Commands(es);
    if |cs| <= MAX_OPS then [] else cs[..|cs| - MAX_OPS]
  }

  /** What a read from position 0 to the end returns. */
  function Contents(es: seq<WriteEvent>): Bytes {
    Flat(Live(es))
  }

  /** Where the oldest entry lies in the ring. */
  function OutOffs(es: seq<WriteEvent>): (out: nat)
    ensures out < MAX_OPS
  {
    var n := |Commands(es)|;
    if n < MAX_OPS then 0 else n % MAX_OPS
  }

  lemma {:induction false} JoinConcat(a: seq<WriteEvent>, b: seq<WriteEvent>)
    ensures Join(a + b) == Join(a) + Join(b)
  {
    if a == [] {
      assert a + b == b;
    } else {
      assert (a + b)[1..] == a[1..] + b;
      JoinConcat(a[1..], b);
    }
  }

  lemma {:induction false} JoinOne(e: WriteEvent)
    ensures Join([e]) == e.bytes
  {
    assert [e][1..] == [];
  }

  lemma {:induction false} NewlineInJoin(es: seq<WriteEvent>)
    ensures HasNewline(Join(es)) <==> FirstNewline(es) < |es|
  {
    if es != [] {
      NewlineInJoin(es[1..]);
    }
  }

  lemma {:induction false} FirstNewlineSnoc(es: seq<WriteEvent>, e: WriteEvent)
    ensures var i := FirstNewline(es);
            FirstNewline(es + [e]) ==
            if i < |es| then i else if HasNewline(e.bytes) then |es| else |es| + 1
  {
    if es != [] && !HasNewline(es[0].bytes) {
      assert (es + [e])[1..] == es[1..] + [e];
      FirstNewlineSnoc(es[1..], e);
    }
  }

  /** The accumulator never keeps a newline between two writes. */
  lemma {:induction false} OpenHasNoNewline(es: seq<WriteEvent>)
    ensures !HasNewline(Open(es))
    decreases |es|
  {
    var i := FirstNewline(es);
    if i == |es| {
      NewlineInJoin(es);
    } else {
      OpenHasNoNewline(es[i + 1..]);
    }
  }

  lemma {:induction false} Quiet(es: seq<WriteEvent>)
    requires FirstNewline(es) == |es|
    ensures Groups(es) == [] && Open(es) == Join(es)
  {
  }

  lemma {:induction false} FirstNewlineAt(pre: seq<WriteEvent>, e: WriteEvent, rest: seq<WriteEvent>)
    requires FirstNewline(pre) == |pre| && HasNewline(e.bytes)
    ensures FirstNewline(pre + [e] + rest) == |pre|
  {
    var es := pre + [e] + rest;
    assert es[|pre|] == e;
    assert forall j :: 0 <= j < |pre| ==> es[j] == pre[j];
  }

  /** The first chunk with a newline closes the first group. */
  lemma {:induction false} FirstGroup(pre: seq<WriteEvent>, e: WriteEvent, rest: seq<WriteEvent>)
    requires FirstNewline(pre) == |pre| && HasNewline(e.bytes)
    ensures Groups(pre + [e] + rest) == [Group(Join(pre) + e.bytes, e.copyOk)] + Groups(rest)
    ensures Open(pre + [e] + rest) == Open(rest)
  {
    var es := pre + [e] + rest;
    FirstNewlineAt(pre, e, rest);
    assert es[..|pre| + 1] == pre + [e] && es[|pre| + 1..] == rest;
    JoinConcat(pre, [e]);
    assert Join([e]) == e.bytes;
  }

  /** The device's step is right: after one more write, scanning the whole accumulator for a
      newline and closing the group there gives what the whole history says. */
  lemma {:induction false} WriteStep(es: seq<WriteEvent>, e: WriteEvent)
    ensures HasNewline(Open(es) + e.bytes) <==> HasNewline(e.bytes)
    ensures HasNewline(e.bytes) ==> Groups(es + [e]) == Groups(es) + [Group(Open(es) + e.bytes, e.copyOk)]
    ensures HasNewline(e.bytes) ==> Open(es + [e]) == []
    ensures !HasNewline(e.bytes) ==> Groups(es + [e]) == Groups(es)
    ensures !HasNewline(e.bytes) ==> Open(es + [e]) == Open(es) + e.bytes
    decreases |es|
  {
    OpenHasNoNewline(es);
    var i := FirstNewline(es);
    if i == |es| {
      Quiet(es);
      if HasNewline(e.bytes) {
        FirstGroup(es, e, []);
        assert es + [e] + [] == es + [e];
        Quiet([]);
      } else {
        FirstNewlineSnoc(es, e);
        Quiet(es + [e]);
        JoinConcat(es, [e]);
        assert Join([e]) == e.bytes;
      }
    } else {
      WriteStepLater(es, es[..i], es[i], es[i + 1..], e);
    }
  }

  lemma {:induction false} WriteStepLater(es: seq<WriteEvent>, pre: seq<WriteEvent>, f: WriteEvent,
                                          rest: seq<WriteEvent>, e: WriteEvent)
    requires es == pre + [f] + rest
    requires FirstNewline(pre) == |pre| && HasNewline(f.bytes)
    ensures HasNewline(e.bytes) ==> Groups(es + [e]) == Groups(es) + [Group(Open(es) + e.bytes, e.copyOk)]
    ensures HasNewline(e.bytes) ==> Open(es + [e]) == []
    ensures !HasNewline(e.bytes) ==> Groups(es + [e]) == Groups(es)
    ensures !HasNewline(e.bytes) ==> Open(es + [e]) == Open(es) + e.bytes
    decreases |es|, 0
  {
    hide Groups, Open, Join, FirstNewline;
    FirstGroup(pre, f, rest);
    FirstGroup(pre, f, rest + [e]);
    assert pre + [f] + (rest + [e]) == es + [e];
    WriteStep(rest, e);
  }

  lemma {:induction false} StoredSnoc(a: seq<Group>, g: Group)
    ensures g.stored ==> Stored(a + [g]) == Stored(a) + [g.bytes] && Dropped(a + [g]) == Dropped(a)
    ensures !g.stored ==> Stored(a + [g]) == Stored(a) && Dropped(a + [g]) == Dropped(a) + [g.bytes]
  {
    var b := a + [g];
    FirstGroupOff(b);
    if a == [] {
      assert b[1..] == [];
    } else {
      assert b[1..] == a[1..] + [g];
      hide Stored, Dropped;
      FirstGroupOff(a);
      StoredSnoc(a[1..], g);
    }
  }

  /** The same step, on the commands that reach the ring and on those that are lost. */
  lemma {:induction false} CommandStep(es: seq<WriteEvent>, e: WriteEvent)
    ensures !HasNewline(e.bytes) ==> Commands(es + [e]) == Commands(es) && Losses(es + [e]) == Losses(es)
    ensures HasNewline(e.bytes) && e.copyOk ==>
              && Commands(es + [e]) == Commands(es) + [Open(es) + e.bytes]
              && Losses(es + [e]) == Losses(es)
              && Live(es + [e]) == LastN(Live(es) + [Open(es) + e.bytes], MAX_OPS)
    ensures HasNewline(e.bytes) && !e.copyOk ==>
              && Commands(es + [e]) == Commands(es)
              && Losses(es + [e]) == Losses(es) + [Open(es) + e.bytes]
  {
    WriteStep(es, e);
    if HasNewline(e.bytes) {
      StoredSnoc(Groups(es), Group(Open(es) + e.bytes, e.copyOk));
    }
  }

  /** Taking the first group off. */
  lemma {:induction false} FirstGroupOff(gs: seq<Group>)
    requires gs != []
    ensures AllBytes(gs) == [gs[0].bytes] + AllBytes(gs[1..])
    ensures gs[0].stored ==> Stored(gs) == [gs[0].bytes] + Stored(gs[1..]) && Dropped(gs) == Dropped(gs[1..])
    ensures !gs[0].stored ==> Stored(gs) == Stored(gs[1..]) && Dropped(gs) == [gs[0].bytes] + Dropped(gs[1..])
  {
  }

  lemma {:induction false} FirstGroupOf(es: seq<WriteEvent>)
    requires FirstNewline(es) < |es|
    ensures var i := FirstNewline(es);
            && Groups(es) == [Group(Join(es[..i + 1]), es[i].copyOk)] + Groups(es[i + 1..])
            && Open(es) == Open(es[i + 1..])
  {
  }

  /** The first group, and the bytes before and after its end. */
  lemma {:induction false} FirstGroupBytes(es: seq<WriteEvent>)
    requires FirstNewline(es) < |es|
    ensures var i := FirstNewline(es);
            && AllBytes(Groups(es)) == [Join(es[..i + 1])] + AllBytes(Groups(es[i + 1..]))
            && Join(es) == Join(es[..i + 1]) + Join(es[i + 1..])
            && Open(es) == Open(es[i + 1..])
  {
    hide Groups, Join, Open, AllBytes, FirstNewline;
    var i := FirstNewline(es);
    FirstGroupOf(es);
    FirstGroupOff(Groups(es));
    assert Groups(es)[1..] == Groups(es[i + 1..]);
    assert es == es[..i + 1] + es[i + 1..];
    JoinConcat(es[..i + 1], es[i + 1..]);
  }

  lemma {:induction false} QuietBytes(es: seq<WriteEvent>)
    requires FirstNewline(es) == |es|
    ensures Join(es) == Flat(AllBytes(Groups(es))) + Open(es)
  {
    assert AllBytes(Groups(es)) == [];
  }

  lemma {:induction false} AllBytesConcat(es: seq<WriteEvent>)
    ensures Join(es) == Flat(AllBytes(Groups(es))) + Open(es)
    decreases |es|
  {
    hide Groups, Join, Open, Flat, FirstNewline, AllBytes;
    var i := FirstNewline(es);
    if i == |es| {
      QuietBytes(es);
    } else {
      var head, rest := Join(es[..i + 1]), es[i + 1..];
      FirstGroupBytes(es);
      AllBytesConcat(rest);
      FlatConcat([head], AllBytes(Groups(rest)));
      FlatOne(head);
    }
  }

  /** No write that completed a command met a failing allocation inside add_entry. Chunks without a
      newline never reach that allocation. */
  predicate EveryCommandCopied(es: seq<WriteEvent>) {
    forall e :: e in es && HasNewline(e.bytes) ==> e.copyOk
  }

  /** Commands are lost exactly when that allocation fails for a chunk with a newline. */
  lemma {:induction false} NoLosses(es: seq<WriteEvent>)
    ensures Losses(es) == [] <==> EveryCommandCopied(es)
  {
    if es == [] {
      Quiet(es);
    } else {
      hide Groups, Open, Losses, Commands, Live;
      var k := |es| - 1;
      assert es == es[..k] + [es[k]];
      NoLosses(es[..k]);
      CommandStep(es[..k], es[k]);
      assert EveryCommandCopied(es) <==>
             EveryCommandCopied(es[..k]) && (HasNewline(es[k].bytes) ==> es[k].copyOk);
    }
  }

  lemma {:induction false} NothingDropped(gs: seq<Group>)
    requires Dropped(gs) == []
    ensures Stored(gs) == AllBytes(gs)
  {
    if gs != [] {
      NothingDropped(gs[1..]);
      assert AllBytes(gs) == [gs[0].bytes] + AllBytes(gs[1..]);
    }
  }

  lemma {:induction false} FlatNonEmpty(bs: seq<Bytes>)
    requires bs != [] && |bs[0]| > 0
    ensures |Flat(bs)| > 0
  {
  }

  lemma {:induction false} CommandsSplit(es: seq<WriteEvent>)
    ensures Commands(es) == Evicted(es) + Live(es)
    ensures Flat(Commands(es)) == Flat(Evicted(es)) + Contents(es)
  {
    assert Commands(es) == Evicted(es) + Live(es);
    FlatConcat(Evicted(es), Live(es));
  }

  /** Conservation: no byte of a successful write is lost, duplicated or moved, exactly when every
      completed command could be copied. */
  lemma {:induction false} Conservation(es: seq<WriteEvent>)
    ensures Join(es) == Flat(Evicted(es)) + Contents(es) + Open(es) <==> EveryCommandCopied(es)
  {
    hide Groups, Join, Open, Flat, Evicted, Contents, EveryCommandCopied;
    NoLosses(es);
    CommandsSplit(es);
    if Losses(es) == [] {
      AllBytesConcat(es);
      NothingDropped(Groups(es));
    } else {
      ConservationWithLoss(es);
      CommandsNonEmpty(es);
      FlatNonEmpty(Losses(es));
    }
  }

  lemma {:induction false} SplitGroups(gs: seq<Group>)
    ensures multiset(AllBytes(gs)) == multiset(Stored(gs)) + multiset(Dropped(gs))
  {
    if gs != [] {
      hide Stored, Dropped, AllBytes;
      FirstGroupOff(gs);
      SplitGroups(gs[1..]);
    }
  }

  lemma {:induction false} SplitLengths(gs: seq<Group>)
    ensures |Flat(AllBytes(gs))| == |Flat(Stored(gs))| + |Flat(Dropped(gs))|
  {
    if gs != [] {
      var h, t := gs[0].bytes, gs[1..];
      hide Stored, Dropped, AllBytes, Flat;
      FirstGroupOff(gs);
      SplitLengths(t);
      FlatConcat([h], AllBytes(t));
      FlatConcat([h], Stored(t));
      FlatConcat([h], Dropped(t));
      FlatOne(h);
    }
  }

  /** In general, when the inner allocation may fail: the completed commands are the ones the ring
      received and the ones it lost, no others; nothing else goes missing; and none is lost exactly
      when every completed command could be copied. */
  lemma {:induction false} ConservationWithLoss(es: seq<WriteEvent>)
    ensures |Join(es)| == |Flat(Evicted(es))| + |Contents(es)| + |Open(es)| + |Flat(Losses(es))|
    ensures multiset(AllBytes(Groups(es))) == multiset(Evicted(es)) + multiset(Live(es)) + multiset(Losses(es))
    ensures Losses(es) == [] <==> EveryCommandCopied(es)
  {
    hide Join, Open, Flat, EveryCommandCopied;
    AllBytesConcat(es);
    SplitGroups(Groups(es));
    SplitLengths(Groups(es));
    CommandsSplit(es);
    NoLosses(es);
  }

  /** A read is a window onto the stream of all commands that reached the ring, shifted by what was
      evicted; when no command was lost, onto the stream of everything written. */
  lemma {:induction false} ReadIsHistory(es: seq<WriteEvent>, p: nat, n: nat)
    requires p + n <= |Contents(es)|
    ensures var shift := |Flat(Evicted(es))|;
            && shift + p + n <= |Flat(Commands(es))|
            && Contents(es)[p..p + n] == Flat(Commands(es))[shift + p..shift + p + n]
    ensures EveryCommandCopied(es) ==>
              var shift := |Flat(Evicted(es))|;
              && shift + p + n <= |Join(es)|
              && Contents(es)[p..p + n] == Join(es)[shift + p..shift + p + n]
  {
    hide Contents, Evicted, Join, Open, Flat, Commands, EveryCommandCopied;
    CommandsSplit(es);
    assert Flat(Evicted(es)) + Contents(es) + [] == Flat(Commands(es));
    Inside(Flat(Evicted(es)), Contents(es), [], p, n);
    Conservation(es);
    Inside(Flat(Evicted(es)), Contents(es), Open(es), p, n);
  }

  /** The smallest loss: one write of one newline that add_entry cannot copy leaves no trace. */
  lemma {:induction false} LostCommandExample()
    ensures var es := [WriteEvent([NEWLINE], false)];
            Join(es) == [NEWLINE] && Commands(es) == [] && Contents(es) == [] && Open(es) == []
  {
    var e := WriteEvent([NEWLINE], false);
    Quiet([]);
    WriteStep([], e);
    CommandStep([], e);
    assert [] + [e] == [e];
    JoinOne(e);
  }

  /** A live command always has at least one byte. */
  lemma {:induction false} GroupsHaveNewline(es: seq<WriteEvent>)
    ensures forall g :: g in Groups(es) ==> HasNewline(g.bytes)
    decreases |es|
  {
    var i := FirstNewline(es);
    if i < |es| {
      GroupsHaveNewline(es[i + 1..]);
      NewlineInJoin(es[..i + 1]);
      assert HasNewline(es[..i + 1][i].bytes);
    }
  }

  lemma {:induction false} StoredIn(gs: seq<Group>)
    ensures forall b :: b in Stored(gs) ==> exists g :: g in gs && g.bytes == b
  {
    if gs != [] {
      StoredIn(gs[1..]);
      forall b | b in Stored(gs)
        ensures exists g :: g in gs && g.bytes == b
      {
        if gs[0].stored && b == gs[0].bytes {
          assert gs[0] in gs;
        } else {
          assert b in Stored(gs[1..]);
          var g :| g in gs[1..] && g.bytes == b;
          assert g in gs;
        }
      }
    }
  }

  lemma {:induction false} DroppedIn(gs: seq<Group>)
    ensures forall b :: b in Dropped(gs) ==> exists g :: g in gs && g.bytes == b
  {
    if gs != [] {
      DroppedIn(gs[1..]);
      forall b | b in Dropped(gs)
        ensures exists g :: g in gs && g.bytes == b
      {
        if !gs[0].stored && b == gs[0].bytes {
          assert gs[0] in gs;
        } else {
          assert b in Dropped(gs[1..]);
          var g :| g in gs[1..] && g.bytes == b;
          assert g in gs;
        }
      }
    }
  }

  lemma {:induction false} CommandsNonEmpty(es: seq<WriteEvent>)
    ensures forall b :: b in Commands(es) || b in Losses(es) ==> HasNewline(b) && |b| > 0
  {
    hide Groups;
    GroupsHaveNewline(es);
    StoredIn(Groups(es));
    DroppedIn(Groups(es));
  }

  lemma {:induction false} LiveNonEmpty(es: seq<WriteEvent>)
    ensures forall b :: b in Live(es) ==> HasNewline(b) && |b| > 0
  {
    CommandsNonEmpty(es);
    CommandsSplit(es);
    forall b | b in Live(es)
      ensures HasNewline(b)
    {
      assert b in Commands(es);
    }
  }

  /** One connection's writes: only the last chunk may hold a newline. */
  predicate OneCommand(w: seq<WriteEvent>) {
    forall i :: 0 <= i < |w| - 1 ==> !HasNewline(w[i].bytes)
  }

  predicate Completes(w: seq<WriteEvent>) {
    w != [] && HasNewline(w[|w| - 1].bytes)
  }

  /** The whole of a connection's writes, as if they had been one write. */
  function Merged(w: seq<WriteEvent>): WriteEvent {
    WriteEvent(Join(w), w != [] && w[|w| - 1].copyOk)
  }

  function MergeAll(ws: seq<seq<WriteEvent>>): (r: seq<WriteEvent>)
    ensures |r| == |ws|
  {
    seq(|ws|, i requires 0 <= i < |ws| => Merged(ws[i]))
  }

  function FlatEvents(ws: seq<seq<WriteEvent>>): seq<WriteEvent> {
    if ws == [] then [] else FlatEvents(ws[..|ws| - 1]) + ws[|ws| - 1]
  }

  lemma {:induction false} MergedNewline(w: seq<WriteEvent>)
    requires OneCommand(w)
    ensures HasNewline(Join(w)) <==> Completes(w)
  {
    NewlineInJoin(w);
  }

  lemma {:induction false} QuietRun(es: seq<WriteEvent>, w: seq<WriteEvent>)
    requires forall i :: 0 <= i < |w| ==> !HasNewline(w[i].bytes)
    ensures Groups(es + w) == Groups(es)
    ensures Open(es + w) == Open(es) + Join(w)
    decreases |w|
  {
    if w == [] {
      assert es + w == es;
    } else {
      var k := |w| - 1;
      assert es + w == (es + w[..k]) + [w[k]];
      QuietRun(es, w[..k]);
      WriteStep(es + w[..k], w[k]);
      assert w == w[..k] + [w[k]];
      JoinConcat(w[..k], [w[k]]);
    }
  }

  /** A connection's chunks commit what one write of all its bytes would commit. */
  lemma {:induction false} ConnectionIsOneWrite(es: seq<WriteEvent>, w: seq<WriteEvent>)
    requires OneCommand(w)
    ensures Groups(es + w) == Groups(es + [Merged(w)])
    ensures Open(es + w) == Open(es + [Merged(w)])
    ensures Completes(w) ==> Groups(es + w) == Groups(es) + [Group(Open(es) + Join(w), Merged(w).copyOk)]
    ensures Completes(w) ==> Open(es + w) == []
    ensures !Completes(w) ==> Groups(es + w) == Groups(es) && Open(es + w) == Open(es) + Join(w)
  {
    hide Groups, Open, Join, FirstNewline;
    MergedNewline(w);
    WriteStep(es, Merged(w));
    if Completes(w) {
      var k := |w| - 1;
      assert es + w == (es + w[..k]) + [w[k]];
      QuietRun(es, w[..k]);
      WriteStep(es + w[..k], w[k]);
      assert w == w[..k] + [w[k]];
      JoinConcat(w[..k], [w[k]]);
      JoinOne(w[k]);
      assert Open(es) + Join(w[..k]) + w[k].bytes == Open(es) + Join(w);
    } else {
      QuietRun(es, w);
    }
  }

  lemma {:induction false} GroupsDetermine(a: seq<WriteEvent>, b: seq<WriteEvent>, e: WriteEvent)
    requires Groups(a) == Groups(b) && Open(a) == Open(b)
    ensures Groups(a + [e]) == Groups(b + [e]) && Open(a + [e]) == Open(b + [e])
  {
    WriteStep(a, e);
    WriteStep(b, e);
  }

  /** Grouping by chunk is grouping by connection: how a connection's bytes were cut into chunks
      never shows. */
  lemma {:induction false} ChunkingIsInvisible(es: seq<WriteEvent>, ws: seq<seq<WriteEvent>>)
    requires forall w :: w in ws ==> OneCommand(w)
    ensures Groups(es + FlatEvents(ws)) == Groups(es + MergeAll(ws))
    ensures Open(es + FlatEvents(ws)) == Open(es + MergeAll(ws))
    decreases |ws|
  {
    hide Groups, Open, Merged;
    if ws == [] {
      assert MergeAll(ws) == [];
    } else {
      var k := |ws| - 1;
      ChunkingIsInvisible(es, ws[..k]);
      ConnectionIsOneWrite(es + FlatEvents(ws[..k]), ws[k]);
      GroupsDetermine(es + FlatEvents(ws[..k]), es + MergeAll(ws[..k]), Merged(ws[k]));
      assert es + FlatEvents(ws) == (es + FlatEvents(ws[..k])) + ws[k];
      assert es + MergeAll(ws) == (es + MergeAll(ws[..k])) + [Merged(ws[k])];
    }
  }
}
