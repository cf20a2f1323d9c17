/** The scheduler of kernel/system/process.c on its circular linked list. */
module Scheduler {
  import opened Arithmetic
  import opened SchedulerModel

  /** A node of the list together with the fields of its process that the scheduler uses. */
  class Node {
    const id: nat
    var dead: bool
    var wakeAt: nat
    var next: Node?

    constructor (id: nat)
      ensures this.id == id && !dead && wakeAt == 0 && next == null
    {
      this.id, dead, wakeAt, next := id, false, 0, null;
    }

    function Value(): Proc
      reads this`dead, this`wakeAt
    {
      Proc(id, dead, wakeAt)
    }
  }

  /** The node behind node `i` of a ring. */
  function After(ring: seq<Node>, i: nat): Node
    requires i < |ring|
  {
    if i + 1 < |ring| then ring[i + 1] else ring[0]
  }

  /** Following `next` goes once around the nodes of `ring`: one simple cycle. */
  ghost predicate Cycle(ring: seq<Node>)
    reads ring
  {
    && (forall i, j :: 0 <= i < j < |ring| ==> ring[i] != ring[j])
    && (forall i :: 0 <= i < |ring| ==> ring[i].next == After(ring, i))
  }

  ghost function Values(ring: seq<Node>): (s: seq<Proc>)
    reads ring`dead, ring`wakeAt
    ensures |s| == |ring| && forall i :: 0 <= i < |ring| ==> s[i] == ring[i].Value()
  {
    if ring == [] then [] else [ring[0].Value()] + Values(ring[1..])
  }

  class RoundRobin {
    var head: Node?
    var ticks: nat
    /** The nodes from the head on. */
    ghost var ring: seq<Node>

    constructor ()
      ensures Valid() && ring == [] && ticks == 0
    {
      head, ticks, ring := null, 0, [];
    }

    ghost predicate Valid()
      reads this, ring
    {
      && Cycle(ring)
      && (ring == [] <==> head == null)
      && (ring != [] ==> head == ring[0])
    }

    ghost function Model(): seq<Proc>
      reads this, ring
    {
      Values(ring)
    }

    /** PROCESS_PUSH. */
    method Insert(node: Node)
      requires Valid() && node !in ring
      modifies this`head, this`ring, node`next, ring`next
      ensures Valid() && Model() == Push(old(Model()), node.Value())
      ensures node.Value() == old(node.Value()) && ticks == old(ticks)
    {
      if head == null {
        node.next := node;
        head := node;
        ring := [node];
      } else {
        ghost var r := ring;
        LinkBehindHead(node);
        ValuesInserted(r, node);
      }
    }

    method LinkBehindHead(node: Node)
      requires Valid() && node !in ring && head != null
      modifies this`ring, node`next, head`next
      ensures Valid() && ring == [old(ring)[0], node] + old(ring)[1..]
    {
      hide Values;
      ghost var r := ring;
      assert head.next == After(r, 0);
      node.next := head.next;
      head.next := node;
      ring := [r[0], node] + r[1..];
      assert forall i :: 2 <= i < |ring| ==> ring[i] == r[i - 1];
      forall i | 2 <= i < |ring| ensures ring[i].next == After(ring, i) {
        assert old(r[i - 1].next) == After(r, i - 1);
      }
    }

    lemma ValuesInserted(r: seq<Node>, node: Node)
      requires r != []
      ensures Values([r[0], node] + r[1..]) == Push(Values(r), node.Value())
    {
    }

    /** Cuts node `k` out of the ring: `prev->next = curr->next`. */
    method CutOut(prev: Node, curr: Node, ghost k: nat)
      requires Valid() && 1 <= k < |ring| && prev == ring[k - 1] && curr == ring[k]
      modifies this`ring, prev`next
      ensures Valid() && ring == old(ring)[..k] + old(ring)[k + 1..]
    {
      hide Values;
      ghost var r := ring;
      assert curr.next == After(r, k);
      prev.next := curr.next;
      ring := r[..k] + r[k + 1..];
      assert forall i :: 0 <= i < |ring| ==> ring[i] == r[if i < k then i else i + 1];
      forall i | 0 <= i < |ring| ensures ring[i].next == After(ring, i) {
        assert old(r[if i < k then i else i + 1].next) == After(r, if i < k then i else i + 1);
      }
    }

    /** process_reap: the dead nodes behind the head are cut out during one traversal. */
    method Reap()
      requires Valid()
      modifies this`head, this`ring, ring`next
      ensures Valid() && Model() == SchedulerModel.Reap(old(Model()))
    {
      if head == null {
        return;
      }
      if head.next == head {
        ReapSingle();
      } else {
        ReapOthers();
      }
    }

    /** The traversal when the head is its own successor: a single pass. */
    method ReapSingle()
      requires Valid() && head != null && head.next == head
      modifies this`head, this`ring
      ensures Valid() && Model() == SchedulerModel.Reap(old(Model()))
    {
      assert ring[0].next == After(ring, 0);
      assert Values(ring) == [ring[0].Value()];
      if head.dead {
        head := null;
        ring := [];
      }
    }

    /** One round of the traversal: the node is cut out if it is dead, and passed otherwise. */
    method Visit(prev: Node, curr: Node, ghost k: nat) returns (prev': Node, curr': Node, ghost k': nat)
      requires Valid() && 1 <= k < |ring| && prev == ring[k - 1] && curr == ring[k]
      modifies this`ring, prev`next
      ensures Valid() && 1 <= k' <= |ring| && |ring| - k' == old(|ring|) - k - 1
      ensures prev' == ring[k' - 1] && curr' == After(ring, k' - 1)
      ensures forall n :: n in ring ==> n in old(ring)
      ensures Passed(old(Model()), k, Model(), k')
    {
      hide Values, Pending, Alive, Cycle;
      PendingNext(Model(), k);
      CycleNext(ring, k);
      if curr.dead {
        ValuesCut(ring, k);
        CutOut(prev, curr, k);
        CycleNext(ring, k - 1);
        prev', curr', k' := prev, prev.next, k;
      } else {
        prev', curr', k' := curr, curr.next, k + 1;
      }
    }

    /** The traversal of a ring of several nodes. */
    method ReapOthers()
      requires Valid() && head != null && head.next != head
      modifies this`ring, ring`next
      ensures Valid() && Model() == SchedulerModel.Reap(old(Model()))
    {
      hide Values, Pending, Alive, Cycle;
      ghost var values := Model();
      CycleNext(ring, 0);
      PendingEnds(values);
      var prev: Node, curr: Node := head, head.next;
      ghost var k := 1;
      while true
        invariant Valid() && 1 <= k < |ring| && prev == ring[k - 1] && curr == ring[k]
        invariant forall n :: n in ring ==> n in old(ring)
        invariant Passed(values, 1, Model(), k)
        decreases |ring| - k
      {
        assert prev in ring;
        prev, curr, k := Visit(prev, curr, k);
        CycleNext(ring, k - 1);
        if curr == head {
          break;
        }
      }
      PendingEnds(Model());
    }

    /** process_schedule, without the switch of context. */
    method Schedule()
      requires Valid() && (ring != [] ==> SearchEnds(Model(), ticks))
      modifies this`head, this`ring, ring`next
      ensures Valid() && Model() == SchedulerModel.Schedule(old(Model()), ticks)
    {
      if head == null {
        assert Model() == [];
        return;
      }
      hide Values, SchedulerModel.Reap;
      Reap();
      SearchExact(Model(), ticks);
      Advance();
    }

    /** The head moves on to the next process that is awake. */
    method Advance()
      requires Valid() && head != null
      requires Skip(Model(), ticks, 1) == |ring| ==> Awake(Model()[0], ticks)
      modifies this`head, this`ring
      ensures Valid() && Model() == Rotate(old(Model()), Skip(old(Model()), ticks, 1))
    {
      hide Values, Cycle, Skip, After, Rotate;
      ghost var m := Model();
      ghost var n := 1;
      CycleNext(ring, 0);
      head := head.next;
      while head.wakeAt > ticks
        invariant Cycle(ring) && 1 <= n <= |ring| && head == After(ring, n - 1)
        invariant Model() == m && Skip(m, ticks, 1) == Skip(m, ticks, n)
        decreases |ring| - n
      {
        AfterValue(ring, n);
        SkipNext(m, ticks, n);
        CycleNext(ring, n);
        head := head.next;
        n := n + 1;
      }
      AfterValue(ring, n);
      SkipNext(m, ticks, n);
      RotateRing(ring, n);
      ring := ring[n..] + ring[..n];
    }

    /** Writes the fields of the running process. */
    method Mark(dead: bool, wakeAt: nat)
      requires Valid() && ring != []
      modifies head
      ensures Valid() && Model() == old(Model())[0 := Proc(old(Model())[0].id, dead, wakeAt)]
    {
      hide Values;
      head.dead, head.wakeAt := dead, wakeAt;
    }

    /** process_sleep, of the running process; `false` is the panic without one. */
    method Sleep(ms: nat) returns (ok: bool)
      requires Valid()
      requires ring != [] ==> SearchEnds(Model()[0 := Model()[0].(wakeAt := (ticks + ms) % WORD)], ticks)
      modifies this`head, this`ring, ring
      ensures Valid() && (ok <==> old(ring) != []) && (!ok ==> ring == [])
      ensures ok ==> State(Model(), ticks) == Step(State(old(Model()), ticks), SchedulerModel.Sleep(ms))
    {
      hide SchedulerModel.Schedule, SearchEnds, Values, Cycle;
      if head == null {
        return false;
      }
      Mark(head.dead, (ticks + ms) % WORD);
      Schedule();
      return true;
    }

    /** process_exit, of the running process; `false` is the panic without one. */
    method Exit() returns (ok: bool)
      requires Valid() && (ring != [] ==> SearchEnds(Model()[0 := Model()[0].(dead := true)], ticks))
      modifies this`head, this`ring, ring
      ensures Valid() && (ok <==> old(ring) != []) && (!ok ==> ring == [])
      ensures ok ==> State(Model(), ticks) == Step(State(old(Model()), ticks), SchedulerModel.Exit)
    {
      hide SchedulerModel.Schedule, SearchEnds, Values, Cycle;
      if head == null {
        return false;
      }
      Mark(true, head.wakeAt);
      Schedule();
      return true;
    }
  }

  lemma AfterValue(ring: seq<Node>, n: nat)
    requires 1 <= n <= |ring|
    ensures n < |ring| ==> After(ring, n - 1) == ring[n] && Values(ring)[n] == ring[n].Value()
    ensures n == |ring| ==> After(ring, n - 1) == ring[0] && Values(ring)[0] == ring[0].Value()
  {
  }

  lemma SkipNext(m: seq<Proc>, ticks: nat, n: nat)
    requires 1 <= n <= |m|
    ensures n == |m| || Awake(m[n], ticks) ==> Skip(m, ticks, n) == n
    ensures n < |m| && !Awake(m[n], ticks) ==> Skip(m, ticks, n) == Skip(m, ticks, n + 1)
  {
  }

  lemma RotateRing(ring: seq<Node>, n: nat)
    requires Cycle(ring) && 1 <= n <= |ring|
    ensures Cycle(ring[n..] + ring[..n]) && Values(ring[n..] + ring[..n]) == Rotate(Values(ring), n)
    ensures (ring[n..] + ring[..n])[0] == After(ring, n - 1)
  {
    hide Values;
    RotateCycle(ring, n);
    var t := ring[n..] + ring[..n];
    forall i | 0 <= i < |t| ensures Values(t)[i] == Rotate(Values(ring), n)[i] {
    }
  }

  lemma RotateCycle(ring: seq<Node>, n: nat)
    requires Cycle(ring) && 1 <= n <= |ring|
    ensures Cycle(ring[n..] + ring[..n])
  {
    var t := ring[n..] + ring[..n];
    var m := |ring| - n;
    assert forall i :: 0 <= i < |t| ==> t[i] == ring[if i < m then i + n else i - m];
    hide Values;
    forall i | 0 <= i < |t| ensures t[i].next == After(t, i) {
      CycleNext(ring, if i < m then i + n else i - m);
    }
    assert forall i, j :: 0 <= i < j < |t| ==> t[i] != t[j] by { hide After; }
  }

  lemma CycleNext(ring: seq<Node>, i: nat)
    requires Cycle(ring) && i < |ring|
    ensures ring[i].next == After(ring, i)
    ensures After(ring, i) == ring[0] <==> i + 1 == |ring|
  {
  }

  lemma ValuesCut(ring: seq<Node>, k: nat)
    requires k < |ring|
    ensures Values(ring[..k] + ring[k + 1..]) == Values(ring)[..k] + Values(ring)[k + 1..]
  {
    hide Values;
  }

  /** What the traversal will have kept, from node `k` on. */
  function Pending(m: seq<Proc>, k: nat): seq<Proc>
    requires 1 <= k <= |m|
  {
    m[1..k] + Alive(m[k..])
  }

  /** The head stays, and what will have been kept does not change. */
  predicate Passed(m: seq<Proc>, k: nat, m': seq<Proc>, k': nat) {
    1 <= k <= |m| && 1 <= k' <= |m'| && m'[0] == m[0] && Pending(m', k') == Pending(m, k)
  }

  lemma PendingEnds(m: seq<Proc>)
    requires m != []
    ensures Pending(m, 1) == Alive(m[1..]) && Pending(m, |m|) == m[1..]
  {
    assert m[1..1] == [] && m[1..|m|] == m[1..] && m[|m|..] == [];
  }

  lemma PendingNext(m: seq<Proc>, k: nat)
    requires 1 <= k < |m|
    ensures m[k].dead ==> Pending(m, k) == Pending(m[..k] + m[k + 1..], k)
    ensures !m[k].dead ==> Pending(m, k) == Pending(m, k + 1)
  {
    assert m[k..][1..] == m[k + 1..] && m[k..][0] == m[k];
    if m[k].dead {
      var t := m[..k] + m[k + 1..];
      assert t[1..k] == m[1..k] && t[k..] == m[k + 1..];
    } else {
      assert m[1..k] + [m[k]] == m[1..k + 1];
    }
  }
}
