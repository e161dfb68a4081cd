/** The server's singly linked list of threads: add_thread, remove_thread and join_threads of
    server/aesdsocket.c, run one at a time. */
module ThreadList {

  type ThreadId = int

  class ThreadNode {
    var tid: ThreadId
    var next: ThreadNode?

    constructor (tid: ThreadId, next: ThreadNode?)
      ensures this.tid == tid && this.next == next
    {
      this.tid, this.next := tid, next;
    }
  }

  /** The list of ids without the first t. */
  function RemoveFirst(ts: seq<ThreadId>, t: ThreadId): seq<ThreadId> {
    if ts == [] then [] else if ts[0] == t then ts[1..] else [ts[0]] + RemoveFirst(ts[1..], t)
  }

  lemma {:induction false} RemoveFirstAt(ts: seq<ThreadId>, k: nat, t: ThreadId)
    requires k < |ts| && ts[k] == t && t !in ts[..k]
    ensures RemoveFirst(ts, t) == ts[..k] + ts[k + 1..]
  {
    if k > 0 {
      assert ts[0] in ts[..k];
      assert ts[1..][..k - 1] == ts[..k][1..];
      RemoveFirstAt(ts[1..], k - 1, t);
      assert [ts[0]] + ts[1..][..k - 1] == ts[..k];
    }
  }

  lemma {:induction false} RemovesOne(ts: seq<ThreadId>, t: ThreadId)
    ensures multiset(RemoveFirst(ts, t)) == multiset(ts) - multiset{t}
  {
    if ts != [] {
      assert ts == [ts[0]] + ts[1..];
      RemovesOne(ts[1..], t);
    }
  }

  lemma {:induction false} RemoveAbsent(ts: seq<ThreadId>, t: ThreadId)
    requires t !in ts
    ensures RemoveFirst(ts, t) == ts
  {
    if ts != [] {
      RemoveAbsent(ts[1..], t);
    }
  }

  /** The order in which two threads finish does not matter to the list. */
  lemma {:induction false} RemovalsCommute(ts: seq<ThreadId>, a: ThreadId, b: ThreadId)
    ensures RemoveFirst(RemoveFirst(ts, a), b) == RemoveFirst(RemoveFirst(ts, b), a)
  {
    if ts != [] && ts[0] != a && ts[0] != b {
      RemovalsCommute(ts[1..], a, b);
      Skips(ts[0], RemoveFirst(ts[1..], a), b);
      Skips(ts[0], RemoveFirst(ts[1..], b), a);
    } else if ts != [] && a != b {
      if ts[0] == a {
        Skips(a, ts[1..], b);
        assert ([a] + RemoveFirst(ts[1..], b))[1..] == RemoveFirst(ts[1..], b);
      } else {
        Skips(b, ts[1..], a);
        assert ([b] + RemoveFirst(ts[1..], a))[1..] == RemoveFirst(ts[1..], a);
      }
    }
  }

  lemma {:induction false} Skips(x: ThreadId, ts: seq<ThreadId>, t: ThreadId)
    requires x != t
    ensures RemoveFirst([x] + ts, t) == [x] + RemoveFirst(ts, t)
  {
    assert ([x] + ts)[1..] == ts;
  }

  class ThreadList {
    var head: ThreadNode?
    /** The nodes in the order of the links. */
    ghost var nodes: seq<ThreadNode>
    /** Every node ever given to free. */
    ghost var freed: set<ThreadNode>

    ghost function Follows(i: int): ThreadNode?
      requires -1 <= i < |nodes|
      reads this
    {
      if i + 1 < |nodes| then nodes[i + 1] else null
    }

    ghost predicate Valid()
      reads this, nodes
    {
      && head == Follows(-1)
      && (forall i {:trigger nodes[i].next} :: 0 <= i < |nodes| ==> nodes[i].next == Follows(i))
      && (forall i, j :: 0 <= i < j < |nodes| ==> nodes[i] != nodes[j])
      && (forall i :: 0 <= i < |nodes| ==> nodes[i] !in freed)
    }

    ghost function Tids(): (ts: seq<ThreadId>)
      reads this, nodes
      ensures |ts| == |nodes|
    {
      seq(|nodes|, i requires 0 <= i < |nodes| reads this, nodes => nodes[i].tid)
    }

    constructor ()
      ensures Valid() && nodes == [] && freed == {}
    {
      head, nodes, freed := null, [], {};
    }

    /** free: never of a node that is free already. */
    ghost method Free(n: ThreadNode)
      requires n !in freed
      modifies this`freed
      ensures freed == old(freed) + {n}
    {
      freed := freed + {n};
    }

    /** add_thread; when malloc fails the process exits. */
    method AddThread(tid: ThreadId, mallocOk: bool) returns (exits: bool)
      requires Valid()
      modifies this
      ensures Valid() && exits == !mallocOk
      ensures exits ==> nodes == old(nodes)
      ensures !exits ==> nodes != [] && fresh(nodes[0]) && nodes[1..] == old(nodes)
      ensures !exits ==> Tids() == [tid] + old(Tids())
      ensures freed == old(freed)
    {
      if !mallocOk {
        return true;
      }
      var newNode := new ThreadNode(tid, head);
      head := newNode;
      nodes := [newNode] + nodes;
      return false;
    }

    /** remove_thread: k is where the id was found, or the length of the list. */
    method RemoveThread(tid: ThreadId) returns (ghost k: nat)
      requires Valid()
      modifies this, nodes
      ensures Valid()
      ensures k <= |old(nodes)| && tid !in old(Tids())[..k]
      ensures k < |old(nodes)| ==> old(Tids())[k] == tid && nodes == old(nodes)[..k] + old(nodes)[k + 1..]
      ensures k < |old(nodes)| ==> freed == old(freed) + {old(nodes)[k]}
      ensures k == |old(nodes)| ==> nodes == old(nodes) && freed == old(freed)
      ensures Tids() == RemoveFirst(old(Tids()), tid)
      ensures forall n :: n in old(nodes) ==> n.tid == old(n.tid)
    {
      hide RemoveFirst;
      var prev: ThreadNode? := null;
      var current := head;
      ghost var ts := Tids();
      k := 0;
      while current != null
        invariant k <= |nodes| && nodes == old(nodes) && freed == old(freed) && Valid() && Tids() == ts
        invariant forall n :: n in old(nodes) ==> n.tid == old(n.tid)
        invariant tid !in ts[..k]
        invariant current == Follows(k - 1)
        invariant prev == if k == 0 then null else nodes[k - 1]
        decreases |nodes| - k
      {
        assert current == nodes[k] && ts[k] == current.tid;
        if current.tid == tid {
          RemoveFirstAt(ts, k, tid);
          Unlink(prev, current, k);
          assert Tids() == ts[..k] + ts[k + 1..];
          return;
        }
        prev := current;
        current := current.next;
        k := k + 1;
      }
      assert ts[..k] == ts;
      RemoveAbsent(ts, tid);
    }

    /** The found node leaves the list, by the head or by its predecessor, and is freed. */
    method Unlink(prev: ThreadNode?, current: ThreadNode, ghost k: nat)
      requires Valid() && k < |nodes| && current == nodes[k]
      requires prev == if k == 0 then null else nodes[k - 1]
      modifies this, nodes
      ensures Valid()
      ensures nodes == old(nodes)[..k] + old(nodes)[k + 1..]
      ensures freed == old(freed) + {current}
      ensures forall n :: n in old(nodes) ==> n.tid == old(n.tid)
    {
      ghost var before := nodes;
      if prev == null {
        head := current.next;
      } else {
        prev.next := current.next;
      }
      assert forall i {:trigger before[i].next} ::
          0 <= i < |before| && i != k - 1 ==> before[i].next == old(before[i].next);
      Free(current);
      nodes := before[..k] + before[k + 1..];
      assert forall i :: 0 <= i < |nodes| ==> nodes[i] == before[if i < k then i else i + 1];
    }

    /** join_threads: joined lists the pthread_join calls. */
    method JoinThreads() returns (joined: seq<ThreadId>)
      requires Valid()
      modifies this
      ensures Valid() && nodes == [] && head == null
      ensures joined == old(Tids())
      ensures freed == old(freed) + set n | n in old(nodes)
    {
      var current := head;
      joined := [];
      ghost var k := 0;
      while current != null
        invariant k <= |nodes| && nodes == old(nodes)
        invariant current == Follows(k - 1)
        invariant joined == old(Tids())[..k]
        invariant freed == old(freed) + set i | 0 <= i < k :: nodes[i]
        decreases |nodes| - k
      {
        assert current == nodes[k] && current !in freed;
        joined := joined + [current.tid];
        var temp := current;
        current := current.next;
        Free(temp);
        k := k + 1;
      }
      head := null;
      nodes := [];
    }
  }
}
