/** Client threads under file_mutex. A schedule is any sequence of thread ids; each entry lets that
    thread take one step, with at most one device call in it. */
module Threads {
  import opened ByteStrings
  import opened History
  import opened DeviceSpec
  import opened CharDevice
  import opened Server

  type Tid = nat

  /** order lists the threads in the order in which they took the mutex. */
  datatype Sys = Sys(events: seq<WriteEvent>, mutex: Option<Tid>, threads: map<Tid, Client>,
                     running: bool, order: seq<Tid>)

  /** Threads whose code lies between the lock and the unlock. */
  predicate Critical(pc: PC) {
    Busy(pc) || pc.Closing? || pc.Failing?
  }

  /** One step of thread t. Only the first step looks at the mutex; unlocking does not ask who
      holds it; and cleanup, which a failing thread calls after unlocking, ends the process. */
  function Step(parse: Parse, s: Sys, t: Tid): Sys {
    if !s.running || t !in s.threads then s
    else
      var c := s.threads[t];
      match c.pc
      case Start =>
        if s.mutex.Some? then s
        else s.(mutex := Some(t), threads := s.threads[t := c.(pc := Locked)], order := s.order + [t])
      case Closing => s.(mutex := None, threads := s.threads[t := c.(pc := Done)])
      case Failing => s.(mutex := None, threads := s.threads[t := c.(pc := Exiting)])
      case Exiting => s.(running := false)
      case Done => s
      case _ =>
        var (c', es) := LocalStep(parse, c, s.events);
        s.(events := es, threads := s.threads[t := c'])
  }

  function Run(parse: Parse, s: Sys, schedule: seq<Tid>): Sys
  {
    if schedule == [] then s
    else Step(parse, Run(parse, s, schedule[..|schedule| - 1]), schedule[|schedule| - 1])
  }

  /** A server whose clients have all still to begin. */
  predicate Initial(s: Sys) {
    && s.mutex.None? && s.order == [] && s.running
    && forall t :: t in s.threads ==> Untouched(s.threads[t])
  }

  predicate Untouched(c: Client) {
    c.pc.Start? && c.pos == 0 && c.wrote == [] && c.replies == []
  }

  function Begin(c: Client): Client {
    Fresh(c.opens, c.inbox, c.buffer)
  }

  /** The same connections, one after the other in the given order. */
  function Serial(parse: Parse, start: Sys, order: seq<Tid>): (Client, seq<WriteEvent>)
    requires order != [] && forall t :: t in order ==> t in start.threads
    decreases |order|, 0
  {
    Finish(parse, Begin(start.threads[order[|order| - 1]]), SerialEvents(parse, start, order[..|order| - 1]))
  }

  function SerialEvents(parse: Parse, start: Sys, order: seq<Tid>): seq<WriteEvent>
    requires forall t :: t in order ==> t in start.threads
    decreases |order|, 1
  {
    if order == [] then start.events else Serial(parse, start, order).1
  }

  /** A finished thread, as its serial outcome prescribes. */
  predicate Matches(c: Client, final: Client) {
    && (c.pc.Done? ==> c.(pc := Closing) == final)
    && (c.pc.Exiting? ==> c.(pc := Failing) == final)
    && (c.pc.Done? || c.pc.Exiting?)
  }

  /** The i-th thread to take the mutex has come to its serial outcome. */
  predicate SettledAt(parse: Parse, start: Sys, s: Sys, i: nat)
    requires i < |s.order| && forall t :: t in s.order ==> t in start.threads && t in s.threads
  {
    Matches(s.threads[s.order[i]], Serial(parse, start, s.order[..i + 1]).0)
  }

  /** How many threads have given the mutex back. */
  function Settled(s: Sys): int {
    |s.order| - if s.mutex.Some? then 1 else 0
  }

  ghost predicate Sane(start: Sys, s: Sys) {
    && s.threads.Keys == start.threads.Keys
    && (forall t :: t in s.order ==> t in start.threads)
    && (forall i, j :: 0 <= i < j < |s.order| ==> s.order[i] != s.order[j])
    && (forall t :: t in s.threads && t !in s.order ==> s.threads[t] == start.threads[t])
    && (s.mutex.Some? ==> s.order != [] && s.mutex.value == s.order[|s.order| - 1])
  }

  ghost predicate Inv(parse: Parse, start: Sys, s: Sys) {
    && Sane(start, s)
    && (forall i :: 0 <= i < Settled(s) ==> SettledAt(parse, start, s, i))
    && (s.mutex.None? ==> s.events == SerialEvents(parse, start, s.order))
    && (s.mutex.Some? ==> Underway(parse, start, s))
  }

  /** The thread that holds the mutex is on the way to its serial outcome. */
  ghost predicate Underway(parse: Parse, start: Sys, s: Sys)
    requires forall t :: t in s.order ==> t in start.threads && t in s.threads
    requires s.order != []
  {
    var c := s.threads[s.order[|s.order| - 1]];
    Critical(c.pc) && Replying(c) && Finish(parse, c, s.events) == Serial(parse, start, s.order)
  }

  lemma {:induction false} StepInv(parse: Parse, start: Sys, s: Sys, t: Tid)
    requires Initial(start) && Inv(parse, start, s)
    ensures Inv(parse, start, Step(parse, s, t))
  {
    hide Finish, LocalStep, SerialEvents, Replying;
    if s.running && t in s.threads && !s.threads[t].pc.Done? && !s.threads[t].pc.Exiting? {
      if s.threads[t].pc.Start? {
        TakeInv(parse, start, s, t);
      } else {
        Holder(parse, start, s, t);
        if Busy(s.threads[t].pc) {
          WorkInv(parse, start, s, t);
        } else {
          ReleaseInv(parse, start, s, t);
        }
      }
    } else {
      ExitInv(parse, start, s, t);
    }
  }

  lemma {:induction false} ExitInv(parse: Parse, start: Sys, s: Sys, t: Tid)
    requires Inv(parse, start, s)
    requires !s.running || t !in s.threads || s.threads[t].pc.Done? || s.threads[t].pc.Exiting?
    ensures Inv(parse, start, Step(parse, s, t))
  {
    hide Finish, LocalStep, SerialEvents, Serial, Replying, SettledAt;
    var s' := Step(parse, s, t);
    assert s'.order[..|s.order|] == s.order;
    forall i | 0 <= i < Settled(s')
      ensures SettledAt(parse, start, s', i)
    {
      SettledStays(parse, start, s, s', i);
    }
  }

  /** Mutual exclusion: only the thread that holds the mutex is inside. */
  lemma {:induction false} Holder(parse: Parse, start: Sys, s: Sys, t: Tid)
    requires Initial(start) && Inv(parse, start, s) && t in s.threads
    ensures Critical(s.threads[t].pc) ==> s.mutex == Some(t)
    ensures s.threads[t].pc.Start? <==> t !in s.order
  {
    hide Finish, LocalStep, SerialEvents, Serial;
    if t in s.order {
      var i :| 0 <= i < |s.order| && s.order[i] == t;
      if i < Settled(s) {
        assert SettledAt(parse, start, s, i);
      }
    }
  }

  /** What is settled stays settled. */
  lemma {:induction false} SettledStays(parse: Parse, start: Sys, s: Sys, s': Sys, i: nat)
    requires forall t :: t in s.order ==> t in start.threads && t in s.threads
    requires forall t :: t in s'.order ==> t in start.threads && t in s'.threads
    requires i < |s.order| <= |s'.order| && s'.order[..|s.order|] == s.order
    requires s'.threads[s.order[i]] == s.threads[s.order[i]]
    requires SettledAt(parse, start, s, i)
    ensures SettledAt(parse, start, s', i)
  {
    hide Serial, Matches;
    assert s'.order[i] == s.order[i] && s'.order[..i + 1] == s.order[..i + 1];
  }

  lemma {:induction false} TakeInv(parse: Parse, start: Sys, s: Sys, t: Tid)
    requires Initial(start) && Inv(parse, start, s) && s.running
    requires t in s.threads && s.threads[t].pc.Start?
    ensures Inv(parse, start, Step(parse, s, t))
  {
    hide LocalStep, SettledAt, Finish, Serial, SerialEvents;
    Holder(parse, start, s, t);
    if s.mutex.None? {
      var s' := Step(parse, s, t);
      assert s'.order[..|s.order|] == s.order;
      assert Sane(start, s');
      forall i | 0 <= i < Settled(s')
        ensures SettledAt(parse, start, s', i)
      {
        SettledStays(parse, start, s, s', i);
      }
      TakenUnderway(parse, start, s, s', t);
    }
  }

  lemma {:induction false} TakenUnderway(parse: Parse, start: Sys, s: Sys, s': Sys, t: Tid)
    requires forall u :: u in s'.order ==> u in start.threads && u in s'.threads
    requires s'.order == s.order + [t] && s'.events == s.events == SerialEvents(parse, start, s.order)
    requires s'.threads[t] == Begin(start.threads[t])
    ensures Underway(parse, start, s')
  {
    hide Finish, SerialEvents;
    assert s'.order[..|s.order|] == s.order;
  }

  lemma {:induction false} WorkInv(parse: Parse, start: Sys, s: Sys, t: Tid)
    requires Initial(start) && Inv(parse, start, s) && s.running
    requires t in s.threads && Busy(s.threads[t].pc) && s.mutex == Some(t)
    ensures Inv(parse, start, Step(parse, s, t))
  {
    hide Finish, LocalStep, SerialEvents, Serial, Replying, SettledAt;
    StepFinishes(parse, s.threads[t], s.events);
    StepStays(parse, s.threads[t], s.events);
    var s' := Step(parse, s, t);
    assert s'.order == s.order && s'.mutex == s.mutex;
    assert Sane(start, s');
    forall i | 0 <= i < Settled(s')
      ensures SettledAt(parse, start, s', i)
    {
      SettledStays(parse, start, s, s', i);
    }
  }

  lemma {:induction false} StepStays(parse: Parse, c: Client, es: seq<WriteEvent>)
    requires Busy(c.pc)
    ensures Critical(LocalStep(parse, c, es).0.pc)
  {
  }

  lemma {:induction false} ReleaseInv(parse: Parse, start: Sys, s: Sys, t: Tid)
    requires Initial(start) && Inv(parse, start, s) && s.running
    requires t in s.threads && s.mutex == Some(t)
    requires s.threads[t].pc.Closing? || s.threads[t].pc.Failing?
    ensures Inv(parse, start, Step(parse, s, t))
  {
    hide LocalStep, Replying, SettledAt, Finish, Serial;
    var s' := Step(parse, s, t);
    assert s.order[..|s.order|] == s.order;
    FinishedIsFinal(parse, s.threads[t], s.events);
    assert Serial(parse, start, s.order) == (s.threads[t], s.events);
    assert Sane(start, s');
    forall i | 0 <= i < Settled(s')
      ensures SettledAt(parse, start, s', i)
    {
      if i < Settled(s) {
        SettledStays(parse, start, s, s', i);
      } else {
        ReleasedSettles(parse, start, s, s', t);
      }
    }
  }

  lemma {:induction false} FinishedIsFinal(parse: Parse, c: Client, es: seq<WriteEvent>)
    requires c.pc.Closing? || c.pc.Failing?
    ensures Finish(parse, c, es) == (c, es)
  {
  }

  /** The thread that gives the mutex back has come to its serial outcome. */
  lemma {:induction false} ReleasedSettles(parse: Parse, start: Sys, s: Sys, s': Sys, t: Tid)
    requires forall u :: u in s'.order ==> u in start.threads && u in s'.threads
    requires s'.order == s.order != [] && t == s.order[|s.order| - 1] && t in s.threads
    requires Serial(parse, start, s.order) == (s.threads[t], s.events)
    requires Matches(s'.threads[t], s.threads[t])
    ensures SettledAt(parse, start, s', |s.order| - 1)
  {
    hide Serial, Matches;
    assert s'.order[..|s.order| - 1 + 1] == s.order;
  }

  lemma {:induction false} RunInv(parse: Parse, start: Sys, schedule: seq<Tid>)
    requires Initial(start)
    ensures Inv(parse, start, Run(parse, start, schedule))
  {
    if schedule != [] {
      var k := |schedule| - 1;
      RunInv(parse, start, schedule[..k]);
      StepInv(parse, start, Run(parse, start, schedule[..k]), schedule[k]);
    }
  }

  /** Serializability: whatever the interleaving, every connection that has finished, by answering
      or by failing, has replied and written exactly what it would have, had the connections been
      served one at a time in the order in which they took the mutex; and while the mutex is free
      the device is where that leaves it. */
  lemma {:induction false} Serializable(parse: Parse, start: Sys, schedule: seq<Tid>)
    requires Initial(start)
    ensures var s := Run(parse, start, schedule);
            && Sane(start, s)
            && (forall t :: t in s.threads && Critical(s.threads[t].pc) ==> s.mutex == Some(t))
            && (s.mutex.None? ==> s.events == SerialEvents(parse, start, s.order))
            && (forall i :: 0 <= i < Settled(s) ==> SettledAt(parse, start, s, i))
  {
    hide Step, SerialEvents, SettledAt;
    RunInv(parse, start, schedule);
    var s := Run(parse, start, schedule);
    forall t | t in s.threads && Critical(s.threads[t].pc)
      ensures s.mutex == Some(t)
    {
      Holder(parse, start, s, t);
    }
  }

  /** The writes of each connection, in the order of the mutex. */
  function Sessions(s: Sys): (r: seq<seq<WriteEvent>>)
    requires forall t :: t in s.order ==> t in s.threads
    ensures |r| == |s.order|
  {
    seq(|s.order|, i requires 0 <= i < |s.order| => s.threads[s.order[i]].wrote)
  }

  ghost predicate InSessions(start: Sys, s: Sys)
    requires Sane(start, s)
  {
    && s.events == start.events + FlatEvents(Sessions(s))
    && forall t :: t in s.threads ==> Wrote(s.threads[t])
  }

  lemma {:induction false} StepSessions(parse: Parse, start: Sys, s: Sys, t: Tid)
    requires Initial(start) && Inv(parse, start, s) && InSessions(start, s)
    ensures Sane(start, Step(parse, s, t)) && InSessions(start, Step(parse, s, t))
  {
    hide Serial, SerialEvents, Finish, Matches, LocalStep, Underway, SettledAt, Wrote, FlatEvents;
    StepInv(parse, start, s, t);
    if s.running && t in s.threads {
      Holder(parse, start, s, t);
      if Busy(s.threads[t].pc) {
        WorkSessions(parse, start, s, t);
      } else {
        RestSessions(parse, start, s, t);
      }
    } else {
      assert Sessions(Step(parse, s, t)) == Sessions(s);
    }
  }

  /** When the last session grows by more, the history of all of them grows by more. */
  lemma {:induction false} LastSessionGrows(s: Sys, s': Sys, c': Client, more: seq<WriteEvent>)
    requires s.order != [] && forall t :: t in s.order ==> t in s.threads
    requires forall i, j :: 0 <= i < j < |s.order| ==> s.order[i] != s.order[j]
    requires var t := s.order[|s.order| - 1];
             s'.order == s.order && s'.threads == s.threads[t := c'] && c'.wrote == s.threads[t].wrote + more
    ensures FlatEvents(Sessions(s')) == FlatEvents(Sessions(s)) + more
  {
    var k := |s.order| - 1;
    assert Sessions(s')[..k] == Sessions(s)[..k];
  }

  /** A step of the holder: the history grows by what its session grows by. */
  lemma {:induction false} WorkSessions(parse: Parse, start: Sys, s: Sys, t: Tid)
    requires Sane(start, s) && InSessions(start, s) && s.running && t in s.threads
    requires Busy(s.threads[t].pc) && s.mutex == Some(t)
    requires Sane(start, Step(parse, s, t))
    ensures InSessions(start, Step(parse, s, t))
  {
    hide LocalStep, Wrote, FlatEvents, Sessions;
    var s' := Step(parse, s, t);
    var c := s.threads[t];
    StepWrote(parse, c, s.events);
    var (c', es') := LocalStep(parse, c, s.events);
    var more := c'.wrote[|c.wrote|..];
    LastSessionGrows(s, s', c', more);
  }

  /** Any other step leaves the history alone. */
  lemma {:induction false} RestSessions(parse: Parse, start: Sys, s: Sys, t: Tid)
    requires Sane(start, s) && InSessions(start, s) && s.running && t in s.threads
    requires !Busy(s.threads[t].pc) && (s.threads[t].pc.Start? ==> t !in s.order)
    requires Sane(start, Step(parse, s, t))
    ensures InSessions(start, Step(parse, s, t))
  {
    hide LocalStep, FlatEvents, OneCommand, NoNewlines;
    var s' := Step(parse, s, t);
    var c := s.threads[t];
    RestWrote(parse, s, t);
    if c.pc.Start? && s.mutex.None? {
      EmptySession(s, s');
    } else {
      assert Sessions(s') == Sessions(s);
    }
  }

  lemma {:induction false} RestWrote(parse: Parse, s: Sys, t: Tid)
    requires s.running && t in s.threads && !Busy(s.threads[t].pc) && Wrote(s.threads[t])
    ensures var s' := Step(parse, s, t);
            && s'.events == s.events && s'.threads.Keys == s.threads.Keys
            && (forall u :: u in s.threads ==> s'.threads[u].wrote == s.threads[u].wrote)
            && (forall u :: u in s.threads && u != t ==> s'.threads[u] == s.threads[u])
            && Wrote(s'.threads[t])
            && s'.order == s.order + (if s.threads[t].pc.Start? && s.mutex.None? then [t] else [])
            && (s.threads[t].pc.Start? ==> s'.threads[t].wrote == [])
  {
    WroteOneCommand(s.threads[t]);
  }

  lemma {:induction false} EmptySession(s: Sys, s': Sys)
    requires forall t :: t in s.order ==> t in s.threads
    requires |s'.order| == |s.order| + 1 && s'.order[..|s.order|] == s.order
    requires s'.threads.Keys == s.threads.Keys && s'.order[|s.order|] in s'.threads
    requires forall t :: t in s.threads ==> s'.threads[t].wrote == s.threads[t].wrote
    requires s'.threads[s'.order[|s.order|]].wrote == []
    ensures forall t :: t in s'.order ==> t in s'.threads
    ensures FlatEvents(Sessions(s')) == FlatEvents(Sessions(s))
  {
    forall i | 0 <= i < |s'.order|
      ensures s'.order[i] in s'.threads
    {
      assert i < |s.order| ==> s'.order[i] == s.order[i];
    }
    assert Sessions(s') == Sessions(s) + [[]];
    assert FlatEvents(Sessions(s')) == FlatEvents(Sessions(s)) + [];
  }

  lemma {:induction false} WroteOneCommand(c: Client)
    requires Wrote(c)
    ensures OneCommand(c.wrote)
  {
    assert forall i :: 0 <= i < |c.wrote| ==> c.wrote[i] in c.wrote;
  }

  lemma {:induction false} RunSessions(parse: Parse, start: Sys, schedule: seq<Tid>)
    requires Initial(start)
    ensures var s := Run(parse, start, schedule);
            Sane(start, s) && InSessions(start, s)
  {
    hide Step, Inv, Wrote;
    RunInv(parse, start, schedule);
    if schedule == [] {
      StartSessions(start);
    } else {
      var k := |schedule| - 1;
      RunInv(parse, start, schedule[..k]);
      RunSessions(parse, start, schedule[..k]);
      StepSessions(parse, start, Run(parse, start, schedule[..k]), schedule[k]);
    }
  }

  lemma {:induction false} StartSessions(start: Sys)
    requires Initial(start)
    ensures Sane(start, start) && InSessions(start, start)
  {
    assert start.events + [] == start.events;
  }

  /** In every state of every run: the device's history is the connections' writes, each
      connection's in one piece, in the order of the mutex; each connection completes at most one
      command, with its last chunk; and the device has grouped the bytes as if every connection had
      been a single write, so that what one leaves without a newline begins the next command. */
  lemma {:induction false} ConnectionsAreContiguous(parse: Parse, start: Sys, schedule: seq<Tid>)
    requires Initial(start)
    ensures var s := Run(parse, start, schedule);
            && Sane(start, s)
            && s.events == start.events + FlatEvents(Sessions(s))
            && (forall w :: w in Sessions(s) ==> OneCommand(w))
            && Groups(s.events) == Groups(start.events + MergeAll(Sessions(s)))
            && Open(s.events) == Open(start.events + MergeAll(Sessions(s)))
  {
    hide Run, Groups, Open, Wrote, MergeAll, FlatEvents, OneCommand;
    RunSessions(parse, start, schedule);
    var s := Run(parse, start, schedule);
    forall w | w in Sessions(s)
      ensures OneCommand(w)
    {
      var i :| 0 <= i < |s.order| && Sessions(s)[i] == w;
      WroteOneCommand(s.threads[s.order[i]]);
    }
    ChunkingIsInvisible(start.events, Sessions(s));
  }

  /** Replies under every interleaving: what ReplyIsContents says of a connection run alone holds of
      every connection that has given the mutex back, over the device as it was when it took it. */
  lemma {:induction false} InterleavedReply(parse: Parse, start: Sys, schedule: seq<Tid>, i: nat)
    requires Initial(start)
    requires var s := Run(parse, start, schedule); Sane(start, s) && i < Settled(s)
    ensures var s := Run(parse, start, schedule);
            var c, c0 := s.threads[s.order[i]], start.threads[s.order[i]];
            var before := SerialEvents(parse, start, s.order[..i]);
            match Completing(parse, Begin(c0), before)
            case None => !Completes(c.wrote)
            case Some((r, pos)) => Completes(c.wrote) && CorrectReply(c0.inbox, r, pos, c, before)
  {
    hide Run, Groups, Open, Join, Finish, Completing, Contents, EndsWith, Completes, WholeReply;
    Serializable(parse, start, schedule);
    var s := Run(parse, start, schedule);
    assert SettledAt(parse, start, s, i);
    assert s.order[..i + 1][..i] == s.order[..i];
    var c0 := start.threads[s.order[i]];
    ReplyIsContents(parse, c0.opens, c0.inbox, c0.buffer, SerialEvents(parse, start, s.order[..i]));
  }

  // ---------- progress ----------

  lemma {:induction false} RunConcat(parse: Parse, s: Sys, a: seq<Tid>, b: seq<Tid>)
    ensures Run(parse, s, a + b) == Run(parse, Run(parse, s, a), b)
    decreases |b|
  {
    if b == [] {
      assert a + b == a;
    } else {
      hide Step;
      var k := |b| - 1;
      assert (a + b)[..|a + b| - 1] == a + b[..k];
      RunConcat(parse, s, a, b[..k]);
    }
  }

  lemma {:induction false} RunNone(parse: Parse, s: Sys)
    ensures Run(parse, s, []) == s
  {
  }

  lemma {:induction false} RunOne(parse: Parse, s: Sys, t: Tid)
    ensures Run(parse, s, [t]) == Step(parse, s, t)
  {
    assert [t][..0] == [];
  }

  /** How much a drain still has to send. */
  function Undrained(c: Client, es: seq<WriteEvent>): nat {
    if c.pc.SeekDrain? || c.pc.Drain? then
      1 + if 0 <= c.pos < |Contents(es)| then |Contents(es)| - c.pos else 0
    else 0
  }

  /** Every step inside the critical section brings its end nearer. */
  lemma {:induction false} StepAdvances(parse: Parse, c: Client, es: seq<WriteEvent>)
    requires Busy(c.pc)
    ensures var (c', es') := LocalStep(parse, c, es);
            || Load(c') < Load(c)
            || (Load(c') == Load(c) && Rank(c'.pc) < Rank(c.pc))
            || (Load(c') == Load(c) && Rank(c'.pc) == Rank(c.pc) && Undrained(c', es') < Undrained(c, es))
  {
    hide Contents, IoctlPos, LlseekPos, Wrap64, HasNewline, WriteResult, IsSeek, Overwrite, Send;
  }

  /** s' is s after steps of t alone. */
  predicate OnlyMoved(s: Sys, s': Sys, t: Tid) {
    && t in s.threads && s'.threads.Keys == s.threads.Keys
    && s'.order == s.order
    && forall u :: u in s.threads && u != t ==> s'.threads[u] == s.threads[u]
  }

  /** A thread inside the critical section that is given enough turns leaves it and gives the mutex
      back; nobody else is moved. */
  lemma {:induction false} Ends(parse: Parse, s: Sys, t: Tid) returns (turns: seq<Tid>)
    requires s.running && t in s.threads && Critical(s.threads[t].pc)
    ensures forall u :: u in turns ==> u == t
    ensures var s' := Run(parse, s, turns);
            && s'.running && s'.mutex.None? && OnlyMoved(s, s', t)
            && (s'.threads[t].pc.Done? || s'.threads[t].pc.Exiting?)
    decreases Load(s.threads[t]), Rank(s.threads[t].pc), Undrained(s.threads[t], s.events)
  {
    hide LocalStep, Undrained;
    var c := s.threads[t];
    RunOne(parse, s, t);
    if Busy(c.pc) {
      StepAdvances(parse, c, s.events);
      StepStays(parse, c, s.events);
      var rest := Ends(parse, Step(parse, s, t), t);
      turns := [t] + rest;
      RunConcat(parse, s, [t], rest);
    } else {
      turns := [t];
    }
  }

  lemma {:induction false} StepTakes(parse: Parse, s: Sys, t: Tid)
    requires s.running && s.mutex.None? && t in s.threads && s.threads[t].pc.Start?
    ensures var c := s.threads[t].(pc := Locked);
            Step(parse, s, t) == s.(mutex := Some(t), threads := s.threads[t := c], order := s.order + [t])
  {
  }

  /** Taking the free mutex and being run to the end of the critical section. */
  lemma {:induction false} Serve(parse: Parse, s: Sys, t: Tid) returns (turns: seq<Tid>)
    requires s.running && s.mutex.None? && t in s.threads && s.threads[t].pc.Start?
    ensures var s' := Run(parse, s, turns);
            && s'.running && s'.mutex.None? && s'.order == s.order + [t]
            && s'.threads.Keys == s.threads.Keys
  {
    hide Step, Run;
    StepTakes(parse, s, t);
    RunOne(parse, s, t);
    var rest := Ends(parse, Step(parse, s, t), t);
    turns := [t] + rest;
    RunConcat(parse, s, [t], rest);
  }

  /** The i-th thread has ended as it would have, run alone after those before it. */
  predicate EndedAt(parse: Parse, start: Sys, s: Sys, i: nat)
    requires i < |s.order| && forall t :: t in s.order ==> t in start.threads && t in s.threads
  {
    var (final, _) := Serial(parse, start, s.order[..i + 1]);
    var c := s.threads[s.order[i]];
    && c.pc == (if final.pc.Closing? then Done else Exiting)
    && c.replies == final.replies && c.wrote == final.wrote
  }

  lemma {:induction false} SettledEnded(parse: Parse, start: Sys, s: Sys, i: nat)
    requires i < |s.order| && forall t :: t in s.order ==> t in start.threads && t in s.threads
    requires SettledAt(parse, start, s, i)
    ensures EndedAt(parse, start, s, i)
  {
    hide Serial;
  }

  /** Service: any distinct connections can be served in any order, one after the other. Each of
      them is let in, comes to its end, and gives the mutex back. */
  lemma {:induction false} Service(parse: Parse, start: Sys, ts: seq<Tid>) returns (schedule: seq<Tid>)
    requires Initial(start) && forall t :: t in ts ==> t in start.threads
    requires forall i, j :: 0 <= i < j < |ts| ==> ts[i] != ts[j]
    ensures var s := Run(parse, start, schedule);
            && s.running && s.mutex.None? && s.order == ts && s.threads.Keys == start.threads.Keys
            && s.events == SerialEvents(parse, start, ts)
            && forall i :: 0 <= i < |ts| ==> EndedAt(parse, start, s, i)
  {
    hide Run, SerialEvents, SettledAt, EndedAt;
    schedule := LetIn(parse, start, ts);
    RunInv(parse, start, schedule);
    var s := Run(parse, start, schedule);
    forall i | 0 <= i < |ts|
      ensures EndedAt(parse, start, s, i)
    {
      SettledEnded(parse, start, s, i);
    }
  }

  lemma {:induction false} LetIn(parse: Parse, start: Sys, ts: seq<Tid>) returns (schedule: seq<Tid>)
    requires Initial(start) && forall t :: t in ts ==> t in start.threads
    requires forall i, j :: 0 <= i < j < |ts| ==> ts[i] != ts[j]
    ensures var s := Run(parse, start, schedule);
            s.running && s.mutex.None? && s.order == ts && s.threads.Keys == start.threads.Keys
    decreases |ts|
  {
    hide Run, Step, Inv;
    if ts == [] {
      schedule := [];
      RunNone(parse, start);
    } else {
      var k := |ts| - 1;
      var before := LetIn(parse, start, ts[..k]);
      var s := Run(parse, start, before);
      RunInv(parse, start, before);
      Waits(parse, start, s, ts[k]);
      var turns := Serve(parse, s, ts[k]);
      schedule := before + turns;
      RunConcat(parse, start, before, turns);
      assert ts == ts[..k] + [ts[k]];
    }
  }

  /** Who has not taken the mutex has not moved. */
  lemma {:induction false} Waits(parse: Parse, start: Sys, s: Sys, t: Tid)
    requires Initial(start) && Inv(parse, start, s) && t in start.threads && t !in s.order
    ensures t in s.threads && s.threads[t] == start.threads[t] && s.threads[t].pc.Start?
  {
  }

  /** A connection that aborts ends the process: one more step of its thread stops every thread for
      good. */
  lemma {:induction false} AbortStops(parse: Parse, s: Sys, t: Tid, schedule: seq<Tid>)
    requires s.running && t in s.threads && s.threads[t].pc.Exiting?
    ensures !Step(parse, s, t).running
    ensures Run(parse, Step(parse, s, t), schedule) == Step(parse, s, t) == s.(running := false)
  {
    StoppedStays(parse, s.(running := false), schedule);
  }

  lemma {:induction false} StoppedStays(parse: Parse, s: Sys, schedule: seq<Tid>)
    requires !s.running
    ensures Run(parse, s, schedule) == s
  {
    if schedule != [] {
      StoppedStays(parse, s, schedule[..|schedule| - 1]);
    }
  }
}
