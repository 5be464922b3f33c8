/**
 * The dispatcher: `resched` and `sched_age` over the kernel state they
 * touch (the current pid, the defer record, the process table and the ready
 * queue). The context switch itself is not modelled: each dispatch decision
 * is recorded as a ghost (old pid, new pid) switch event instead.
 */
module Resched {
  import opened QueueSpec
  import opened Queues

  /** The process states the dispatcher distinguishes. */
  datatype ProcState = PrFree | PrCurr | PrReady | PrBlocked

  /** The two process table fields the dispatcher reads and writes. */
  datatype ProcEntry = ProcEntry(state: ProcState, prio: int)

  /** Whether `sched_age` bumps an entry with this pid: not the null process, `oldpid` or `newpid`. */
  predicate Ages(pid: int, oldpid: int, newpid: int) {
    pid != 0 && pid != oldpid && pid != newpid
  }

  /** One queue entry after aging: its key goes up by one unless its pid is excluded. */
  function AgedEntry(e: Entry, oldpid: int, newpid: int): Entry {
    if Ages(e.pid, oldpid, newpid) then e.(key := e.key + 1) else e
  }

  /** The ready queue after one aging pass. */
  function Aged(s: seq<Entry>, oldpid: int, newpid: int): seq<Entry> {
    seq(|s|, i requires 0 <= i < |s| => AgedEntry(s[i], oldpid, newpid))
  }

  /** How many entries of `s` carry `pid`. */
  function Count(s: seq<Entry>, pid: int): nat {
    multiset(Pids(s))[pid]
  }

  /** The process table once the aging pass has visited entry `e`. */
  function AgedProc(t: seq<ProcEntry>, e: Entry, oldpid: int, newpid: int): seq<ProcEntry>
    requires 0 <= e.pid < |t|
  {
    if Ages(e.pid, oldpid, newpid) then t[e.pid := t[e.pid].(prio := t[e.pid].prio + 1)] else t
  }

  /**
   * The process table after one aging pass over `s`: the entries are visited
   * head to tail and each one that ages bumps its process's priority.
   */
  function AgedTable(t: seq<ProcEntry>, s: seq<Entry>, oldpid: int, newpid: int): (r: seq<ProcEntry>)
    requires forall i :: 0 <= i < |s| ==> 0 <= s[i].pid < |t|
    ensures |r| == |t|
    decreases |s|
  {
    if s == [] then t
    else AgedProc(AgedTable(t, s[..|s| - 1], oldpid, newpid), s[|s| - 1], oldpid, newpid)
  }

  /** Visiting one more entry extends the aging pass by that entry. */
  lemma AgedTableStep(t: seq<ProcEntry>, s: seq<Entry>, i: nat, oldpid: int, newpid: int)
    requires i < |s| && forall j :: 0 <= j < |s| ==> 0 <= s[j].pid < |t|
    ensures AgedTable(t, s[..i + 1], oldpid, newpid)
         == AgedProc(AgedTable(t, s[..i], oldpid, newpid), s[i], oldpid, newpid)
  {
    assert s[..i + 1][..i] == s[..i];
  }

  /**
   * Aging never changes a process state, and raises a process's priority by
   * the number of its entries in the queue, unless it is one of the three
   * excluded pids.
   */
  lemma {:induction false} AgedTableEffect(t: seq<ProcEntry>, s: seq<Entry>, oldpid: int, newpid: int)
    requires forall i :: 0 <= i < |s| ==> 0 <= s[i].pid < |t|
    ensures var r := AgedTable(t, s, oldpid, newpid);
      && (forall p :: 0 <= p < |t| ==> r[p].state == t[p].state)
      && (forall p :: 0 <= p < |t| ==>
            r[p].prio == t[p].prio + (if Ages(p, oldpid, newpid) then Count(s, p) else 0))
    decreases |s|
  {
    if s != [] {
      var last, front := s[|s| - 1], s[..|s| - 1];
      assert s == front + [last];
      assert Pids(s) == Pids(front) + [last.pid];
      AgedTableEffect(t, front, oldpid, newpid);
    }
  }

  /** The ready queue once a preempted process has been put back (if it fits). */
  function Requeued(s: seq<Entry>, oldpid: int, prio: int, preempted: bool): seq<Entry> {
    if preempted && |s| < NPROC then Insert(s, Entry(oldpid, prio)) else s
  }

  /** The process table after the state changes of a dispatch. */
  function Switched(t: seq<ProcEntry>, oldpid: int, newpid: int, preempted: bool): (r: seq<ProcEntry>)
    requires 0 <= oldpid < |t| && 0 <= newpid < |t|
    ensures |r| == |t| && r[newpid].state == PrCurr
    ensures preempted && oldpid != newpid ==> r[oldpid].state == PrReady
    ensures forall p :: 0 <= p < |t| ==> r[p].prio == t[p].prio
    ensures forall p :: 0 <= p < |t| && p != newpid && (p != oldpid || !preempted) ==> r[p] == t[p]
  {
    var t1 := if preempted then t[oldpid := t[oldpid].(state := PrReady)] else t;
    t1[newpid := t1[newpid].(state := PrCurr)]
  }

  /** What a dispatch decides: the new current pid, process table and ready queue. */
  datatype Outcome = Outcome(newpid: int, table: seq<ProcEntry>, ready: seq<Entry>)

  /** Every pid in `s` indexes a table of `n` slots. */
  predicate PidsBelow(s: seq<Entry>, n: int) {
    forall i :: 0 <= i < |s| ==> 0 <= s[i].pid < n
  }

  /**
   * The decision `resched` takes when it is not deferred, from the old pid,
   * process table and ready queue: a process still in the current state is
   * marked ready and re-enqueued with its priority (unless the queue is
   * full); the head of the queue becomes current; with aging on, the rest of
   * the queue and their processes' priorities are aged.
   */
  function DispatchOutcome(oldpid: int, t0: seq<ProcEntry>, s0: seq<Entry>, aging: bool): (o: Outcome)
    requires 0 <= oldpid < |t0| && PidsBelow(s0, |t0|)
    requires s0 != [] || t0[oldpid].state == PrCurr
  {
    var preempted := t0[oldpid].state == PrCurr;
    var s := Requeued(s0, oldpid, t0[oldpid].prio, preempted);
    RequeuedPids(s0, oldpid, t0[oldpid].prio, preempted, |t0|);
    var newpid := s[0].pid;
    var t := Switched(t0, oldpid, newpid, preempted);
    if aging then Outcome(newpid, AgedTable(t, s[1..], oldpid, newpid), Aged(s[1..], oldpid, newpid))
    else Outcome(newpid, t, s[1..])
  }

  /** Re-enqueueing keeps every pid in range, and a queue that had to be used is not empty. */
  lemma RequeuedPids(s: seq<Entry>, oldpid: int, prio: int, preempted: bool, n: int)
    requires 0 <= oldpid < n && PidsBelow(s, n)
    ensures PidsBelow(Requeued(s, oldpid, prio, preempted), n)
    ensures s != [] || preempted ==> Requeued(s, oldpid, prio, preempted) != []
  {
    if preempted && |s| < NPROC {
      var e := Entry(oldpid, prio);
      var r, p := Insert(s, e), InsertPos(s, e.key);
      forall i | 0 <= i < |r|
        ensures 0 <= r[i].pid < n
      {
        if i < p {
          assert r[i] == s[i];
        } else if p < i {
          assert r[i] == s[i - 1];
        }
      }
    }
  }

  /** Aging changes keys only: every entry keeps its pid and its place. */
  lemma AgedPids(s: seq<Entry>, oldpid: int, newpid: int)
    ensures Pids(Aged(s, oldpid, newpid)) == Pids(s)
    ensures PidsBelow(s, NPROC) ==> PidsBelow(Aged(s, oldpid, newpid), NPROC)
  {
  }

  /** The ready queue once the aging pass has visited its first `i` entries. */
  function AgedUpTo(s: seq<Entry>, i: nat, oldpid: int, newpid: int): (r: seq<Entry>)
    requires i <= |s|
    ensures |r| == |s|
  {
    if i == 0 then s
    else AgedUpTo(s, i - 1, oldpid, newpid)[i - 1 := AgedEntry(s[i - 1], oldpid, newpid)]
  }

  /** The first `i` entries are aged and the rest are as they were. */
  lemma {:induction false} AgedUpToSplit(s: seq<Entry>, i: nat, oldpid: int, newpid: int)
    requires i <= |s|
    ensures AgedUpTo(s, i, oldpid, newpid) == Aged(s[..i], oldpid, newpid) + s[i..]
  {
    if i > 0 {
      AgedUpToSplit(s, i - 1, oldpid, newpid);
      assert Aged(s[..i], oldpid, newpid) + s[i..]
          == (Aged(s[..i - 1], oldpid, newpid) + s[i - 1..])[i - 1 := AgedEntry(s[i - 1], oldpid, newpid)];
    }
  }

  /** A full pass ages every entry. */
  lemma AgedUpToAll(s: seq<Entry>, oldpid: int, newpid: int)
    ensures AgedUpTo(s, |s|, oldpid, newpid) == Aged(s, oldpid, newpid)
  {
    AgedUpToSplit(s, |s|, oldpid, newpid);
    assert s[..|s|] == s;
  }

  /** The entry the pass visits next is still unaged. */
  lemma AgedUpToNext(s: seq<Entry>, i: nat, oldpid: int, newpid: int)
    requires i < |s|
    ensures AgedUpTo(s, i, oldpid, newpid)[i] == s[i]
  {
    AgedUpToSplit(s, i, oldpid, newpid);
  }

  // ---------------------------------------------------------------------
  // what a dispatch decides

  /** The ready queue shrinks by the entry taken, and regains one when the old process is put back. */
  lemma DispatchReadySize(oldpid: int, t0: seq<ProcEntry>, s0: seq<Entry>, aging: bool)
    requires 0 <= oldpid < |t0| && PidsBelow(s0, |t0|)
    requires s0 != [] || t0[oldpid].state == PrCurr
    ensures var o := DispatchOutcome(oldpid, t0, s0, aging);
      |o.ready| == if t0[oldpid].state == PrCurr && |s0| < NPROC then |s0| else |s0| - 1
  {
    if t0[oldpid].state == PrCurr && |s0| < NPROC {
      InsertIsPermutation(s0, Entry(oldpid, t0[oldpid].prio));
    }
  }

  /**
   * The new process is the one the table now marks current; a preempted
   * old process that lost the processor is marked ready; every other
   * process keeps its state.
   */
  lemma DispatchStates(oldpid: int, t0: seq<ProcEntry>, s0: seq<Entry>, aging: bool)
    requires 0 <= oldpid < |t0| && PidsBelow(s0, |t0|)
    requires s0 != [] || t0[oldpid].state == PrCurr
    ensures var o := DispatchOutcome(oldpid, t0, s0, aging);
      && 0 <= o.newpid < |t0| && |o.table| == |t0|
      && o.table[o.newpid].state == PrCurr
      && (t0[oldpid].state == PrCurr && o.newpid != oldpid ==> o.table[oldpid].state == PrReady)
      && (forall p :: 0 <= p < |t0| && p != o.newpid && (p != oldpid || t0[oldpid].state != PrCurr) ==>
            o.table[p].state == t0[p].state)
  {
    var preempted := t0[oldpid].state == PrCurr;
    var s := Requeued(s0, oldpid, t0[oldpid].prio, preempted);
    RequeuedPids(s0, oldpid, t0[oldpid].prio, preempted, |t0|);
    var t := Switched(t0, oldpid, s[0].pid, preempted);
    if aging {
      AgedTableEffect(t, s[1..], oldpid, s[0].pid);
    }
  }

  /**
   * A process that is no longer current (blocked, say) and is not in the
   * ready queue is not put back: it neither runs next nor is left in the
   * ready queue.
   */
  lemma NotCurrentNotRequeued(oldpid: int, t0: seq<ProcEntry>, s0: seq<Entry>, aging: bool)
    requires 0 <= oldpid < |t0| && PidsBelow(s0, |t0|)
    requires s0 != [] && t0[oldpid].state != PrCurr && oldpid !in Pids(s0)
    ensures var o := DispatchOutcome(oldpid, t0, s0, aging);
      o.newpid == s0[0].pid != oldpid && oldpid !in Pids(o.ready)
  {
    assert Pids(s0)[0] == s0[0].pid;
  }

  /**
   * On a sorted ready queue the process that runs next has the largest key
   * among all ready entries (the old process included, once put back), and
   * without aging the queue left behind is still sorted.
   */
  lemma DispatchPicksMaximum(oldpid: int, t0: seq<ProcEntry>, s0: seq<Entry>, aging: bool)
    requires 0 <= oldpid < |t0| && PidsBelow(s0, |t0|)
    requires s0 != [] || t0[oldpid].state == PrCurr
    requires Sorted(s0)
    ensures var s := Requeued(s0, oldpid, t0[oldpid].prio, t0[oldpid].state == PrCurr);
      var o := DispatchOutcome(oldpid, t0, s0, aging);
      && s != [] && o.newpid == s[0].pid
      && (forall j :: 0 <= j < |s| ==> s[j].key <= s[0].key)
      && (!aging ==> o.ready == s[1..] && Sorted(o.ready))
  {
    var preempted := t0[oldpid].state == PrCurr;
    RequeuedPids(s0, oldpid, t0[oldpid].prio, preempted, |t0|);
    if preempted && |s0| < NPROC {
      InsertKeepsSorted(s0, Entry(oldpid, t0[oldpid].prio));
    }
  }

  /**
   * A preempted process that is not already in the ready queue runs again
   * exactly when every ready entry has a smaller key than its priority: a
   * peer of equal priority was enqueued earlier and goes first.
   */
  lemma PreemptedRunsAgainIff(oldpid: int, t0: seq<ProcEntry>, s0: seq<Entry>, aging: bool)
    requires 0 <= oldpid < |t0| && PidsBelow(s0, |t0|)
    requires t0[oldpid].state == PrCurr && |s0| < NPROC && oldpid !in Pids(s0)
    requires Sorted(s0)
    ensures DispatchOutcome(oldpid, t0, s0, aging).newpid == oldpid
        <==> forall j :: 0 <= j < |s0| ==> s0[j].key < t0[oldpid].prio
  {
    var e := Entry(oldpid, t0[oldpid].prio);
    var i := InsertPos(s0, e.key);
    var s := Insert(s0, e);
    if i == 0 {
      assert s[0] == e;
    } else {
      assert s[0] == s0[0] && Pids(s0)[0] == s0[0].pid;
    }
  }

  // ---------------------------------------------------------------------
  // aging

  /** With unique pids, a pid occurs once in the queue or not at all. */
  lemma {:induction false} CountUnique(s: seq<Entry>, p: int)
    requires UniquePids(s)
    ensures Count(s, p) == if p in Pids(s) then 1 else 0
  {
    if s != [] {
      var rest := s[1..];
      assert Pids(s) == [s[0].pid] + Pids(rest);
      assert UniquePids(rest) by {
        forall a, b | 0 <= a < b < |rest| ensures rest[a].pid != rest[b].pid {
          assert rest[a] == s[a + 1] && rest[b] == s[b + 1];
        }
      }
      CountUnique(rest, p);
    }
  }

  /**
   * With unique pids in the queue, aging moves each entry's key and its
   * process's priority by the same amount (one, or nothing for an excluded
   * pid), and leaves the processes not in the queue alone.
   */
  lemma AgingInStep(t: seq<ProcEntry>, s: seq<Entry>, oldpid: int, newpid: int)
    requires UniquePids(s) && PidsBelow(s, |t|)
    ensures var r, a := AgedTable(t, s, oldpid, newpid), Aged(s, oldpid, newpid);
      && |a| == |s| && Pids(a) == Pids(s)
      && (forall i :: 0 <= i < |s| ==>
            r[s[i].pid].prio - t[s[i].pid].prio == a[i].key - s[i].key
            == if Ages(s[i].pid, oldpid, newpid) then 1 else 0)
      && (forall p :: 0 <= p < |t| && p !in Pids(s) ==> r[p] == t[p])
  {
    var r, a := AgedTable(t, s, oldpid, newpid), Aged(s, oldpid, newpid);
    AgedTableEffect(t, s, oldpid, newpid);
    forall i | 0 <= i < |s|
      ensures r[s[i].pid].prio - t[s[i].pid].prio == if Ages(s[i].pid, oldpid, newpid) then 1 else 0
    {
      assert Pids(s)[i] == s[i].pid;
      CountUnique(s, s[i].pid);
    }
    forall p | 0 <= p < |t| && p !in Pids(s)
      ensures r[p] == t[p]
    {
      CountUnique(s, p);
    }
  }

  /**
   * Aging does not re-sort: an excluded entry can be overtaken by an aged
   * one of the same key behind it, so a sorted queue comes out unsorted.
   */
  lemma AgingCanUnsort()
    ensures var s := [Entry(1, 5), Entry(3, 5)];
      Sorted(s) && Aged(s, 1, 2) == [Entry(1, 5), Entry(3, 6)] && !Sorted(Aged(s, 1, 2))
  {
    var s := [Entry(1, 5), Entry(3, 5)];
    assert Aged(s, 1, 2)[0] == Entry(1, 5) && Aged(s, 1, 2)[1] == Entry(3, 6);
  }

  /** Kernel state the dispatcher works on. */
  class Kernel {
    var currpid: int
    var ndefers: int
    var attempt: bool
    const proctab: array<ProcEntry>
    const readyqueue: Queue
    /** Whether the kernel was built with aging. */
    const aging: bool
    /** Every context switch so far, as (old pid, new pid). */
    ghost var switches: seq<(int, int)>

    /**
     * The ready queue is well formed; the process table has a slot per
     * process; the current pid and every pid in the ready queue index it.
     */
    ghost predicate Valid()
      reads this, readyqueue, readyqueue.Repr
    {
      && readyqueue.Valid()
      && this !in readyqueue.Repr && proctab !in readyqueue.Repr
      && proctab.Length == NPROC
      && IsProcId(currpid)
      && PidsBelow(readyqueue.contents, NPROC)
    }

    constructor (proctab: array<ProcEntry>, readyqueue: Queue, currpid: int, aging: bool)
      requires readyqueue.Valid() && proctab.Length == NPROC && IsProcId(currpid)
      requires proctab !in readyqueue.Repr
      requires PidsBelow(readyqueue.contents, NPROC)
      ensures Valid()
      ensures this.proctab == proctab && this.readyqueue == readyqueue
      ensures this.currpid == currpid && this.aging == aging
      ensures ndefers == 0 && !attempt && switches == []
    {
      this.proctab := proctab;
      this.readyqueue := readyqueue;
      this.currpid := currpid;
      this.aging := aging;
      ndefers := 0;
      attempt := false;
      switches := [];
    }

    /**
     * `resched`. Deferred: only record the attempt. Otherwise a process that
     * is still current is marked ready and enqueued at its priority, the
     * head of the ready queue becomes current, the remaining entries are
     * aged when aging is on, and one switch (old, new) is recorded.
     */
    method Resched()
      requires Valid()
      requires ndefers > 0 || readyqueue.contents != [] || proctab[currpid].state == PrCurr
      modifies this, proctab, readyqueue.Repr
      ensures Valid()
      ensures ndefers == old(ndefers)
      ensures old(ndefers) > 0 ==>
        && attempt
        && currpid == old(currpid)
        && switches == old(switches)
        && proctab[..] == old(proctab[..])
        && readyqueue.nodes == old(readyqueue.nodes)
        && readyqueue.contents == old(readyqueue.contents)
      ensures old(ndefers) <= 0 ==>
        && attempt == old(attempt)
        && Outcome(currpid, proctab[..], readyqueue.contents)
           == DispatchOutcome(old(currpid), old(proctab[..]), old(readyqueue.contents), aging)
        && switches == old(switches) + [(old(currpid), currpid)]
    {
      if ndefers > 0 {
        attempt := true;
        return;
      }
      var next := Dispatch();
      SwitchTo(next);
    }

    /** `currpid` becomes `next`; the switch (old, new) is recorded in place of `ctxsw`. */
    method SwitchTo(next: int)
      requires Valid() && IsProcId(next)
      modifies this`currpid, this`switches
      ensures Valid()
      ensures currpid == next && switches == old(switches) + [(old(currpid), next)]
    {
      switches := switches + [(currpid, next)];
      currpid := next;
    }

    /**
     * The part of `resched` that runs when rescheduling is not deferred, up
     * to the assignment of `currpid`: the next pid to run is returned.
     */
    method Dispatch() returns (next: int)
      requires Valid()
      requires readyqueue.contents != [] || proctab[currpid].state == PrCurr
      modifies proctab, readyqueue.Repr
      ensures Valid() && IsProcId(next)
      ensures Outcome(next, proctab[..], readyqueue.contents)
           == DispatchOutcome(currpid, old(proctab[..]), old(readyqueue.contents), aging)
    {
      ghost var t0 := proctab[..];
      ghost var s0 := readyqueue.contents;
      ghost var preempted := t0[currpid].state == PrCurr;
      ghost var s := Requeued(s0, currpid, t0[currpid].prio, preempted);
      RequeuedPids(s0, currpid, t0[currpid].prio, preempted, NPROC);
      PutBack();
      ghost var t1 := proctab[..];
      assert readyqueue.contents == s;
      next := TakeNext();
      assert next == s[0].pid && readyqueue.contents == s[1..];
      assert proctab[..] == Switched(t0, currpid, next, preempted) by {
        assert t1 == if preempted then t0[currpid := t0[currpid].(state := PrReady)] else t0;
      }
      if aging {
        SchedAge(currpid, next);
      }
    }

    /**
     * The preemption step of `resched`: a process still in the current state
     * is marked ready and enqueued with its priority as key; a process that
     * has left the current state is not put back.
     */
    method PutBack()
      requires Valid()
      modifies proctab, readyqueue.Repr
      ensures Valid()
      ensures var preempted := old(proctab[currpid].state) == PrCurr;
        && readyqueue.contents
           == Requeued(old(readyqueue.contents), currpid, old(proctab[currpid].prio), preempted)
        && proctab[..]
           == if preempted then old(proctab[..])[currpid := old(proctab[currpid]).(state := PrReady)]
              else old(proctab[..])
      ensures fresh(readyqueue.Repr - old(readyqueue.Repr))
    {
      if proctab[currpid].state == PrCurr {
        ghost var s0 := readyqueue.contents;
        proctab[currpid] := proctab[currpid].(state := PrReady);
        var status := readyqueue.Enqueue(currpid, proctab[currpid].prio);
        RequeuedPids(s0, currpid, proctab[currpid].prio, true, NPROC);
      }
    }

    /**
     * The selection step of `resched`: the head of the ready queue is taken
     * off and its process is put in the current state; the caller makes it
     * the current pid.
     */
    method TakeNext() returns (next: int)
      requires Valid() && readyqueue.contents != []
      modifies proctab, readyqueue.Repr
      ensures Valid() && IsProcId(next)
      ensures next == old(readyqueue.contents[0].pid)
      ensures readyqueue.contents == old(readyqueue.contents[1..])
      ensures readyqueue.nodes == old(readyqueue.nodes[1..]) && readyqueue.Repr == old(readyqueue.Repr)
      ensures proctab[..] == old(proctab[..])[next := old(proctab[..])[next].(state := PrCurr)]
    {
      var r := readyqueue.Dequeue();
      next := r.pid;
      proctab[next] := proctab[next].(state := PrCurr);
    }

    /**
     * `sched_age` on the ready queue: every entry whose pid is not 0,
     * `oldpid` or `newpid` gets its key and its process's priority bumped by
     * one; the nodes, their order and the other entries stay as they are.
     */
    method SchedAge(oldpid: int, newpid: int)
      requires Valid()
      modifies proctab, readyqueue.Repr
      ensures Valid()
      ensures readyqueue.nodes == old(readyqueue.nodes) && readyqueue.Repr == old(readyqueue.Repr)
      ensures readyqueue.contents == Aged(old(readyqueue.contents), oldpid, newpid)
      ensures proctab[..] == AgedTable(old(proctab[..]), old(readyqueue.contents), oldpid, newpid)
    {
      if readyqueue.Nonempty() {
        AgeAll(oldpid, newpid);
        AgedPids(old(readyqueue.contents), oldpid, newpid);
      }
    }

    /** The `sched_age` walk from the head to the tail of a non-empty ready queue. */
    method AgeAll(oldpid: int, newpid: int)
      requires Valid() && readyqueue.contents != []
      modifies proctab, readyqueue.Repr
      ensures readyqueue.Valid()
      ensures readyqueue.nodes == old(readyqueue.nodes) && readyqueue.Repr == old(readyqueue.Repr)
      ensures readyqueue.contents == Aged(old(readyqueue.contents), oldpid, newpid)
      ensures proctab[..] == AgedTable(old(proctab[..]), old(readyqueue.contents), oldpid, newpid)
    {
      var q := readyqueue;
      ghost var s0 := q.contents;
      ghost var t0 := proctab[..];
      var curr := q.head;
      ghost var i := 0;
      while curr != null
        invariant q.Valid() && q.nodes == old(q.nodes) && q.Repr == old(q.Repr)
        invariant 0 <= i <= |q.nodes| == |s0|
        invariant curr == if i < |q.nodes| then q.nodes[i] else null
        invariant q.contents == AgedUpTo(s0, i, oldpid, newpid)
        invariant proctab[..] == AgedTable(t0, s0[..i], oldpid, newpid)
        decreases |q.nodes| - i
      {
        AgedTableStep(t0, s0, i, oldpid, newpid);
        AgedUpToNext(s0, i, oldpid, newpid);
        AgeEntry(curr, i, oldpid, newpid);
        curr := curr.next;
        i := i + 1;
      }
      AgedUpToAll(s0, oldpid, newpid);
      assert s0[..i] == s0;
    }

    /** The body of the `sched_age` loop: the entry at position `i` and its process age. */
    method AgeEntry(node: Node, ghost i: nat, oldpid: int, newpid: int)
      requires readyqueue.Valid() && proctab.Length == NPROC
      requires i < |readyqueue.nodes| && node == readyqueue.nodes[i]
      requires IsProcId(node.pid)
      modifies node`key, readyqueue`contents, proctab
      ensures readyqueue.Valid() && readyqueue.nodes == old(readyqueue.nodes)
      ensures readyqueue.contents
           == old(readyqueue.contents)[i := AgedEntry(old(readyqueue.contents[i]), oldpid, newpid)]
      ensures proctab[..] == AgedProc(old(proctab[..]), old(readyqueue.contents[i]), oldpid, newpid)
    {
      if node.pid != 0 && node.pid != oldpid && node.pid != newpid {
        readyqueue.IncrementKey(node, i);
        proctab[node.pid] := proctab[node.pid].(prio := proctab[node.pid].prio + 1);
      }
    }
  }
}
