/**
 * Abstract view of a Xinu ready queue: the sequence of (pid, key) entries a
 * walk from `head` along `next` visits, the sentinel values the queue
 * functions return, and the sequence-level meaning of every queue operation.
 */
module QueueSpec {

  /** Capacity of a queue: one entry per process table slot. */
  const NPROC: nat := 8

  /** The "queue was empty" result of the pid-returning queue functions. */
  const EMPTY: int := -1

  /** One queue entry as a walk of the list sees it. */
  datatype Entry = Entry(pid: int, key: int)

  /**
   * What the queue functions return through their `pid32` result: `OK` and
   * `SYSERR` for status, a process id, or `EMPTY`.
   */
  datatype Pid32 = Ok | Pid(pid: int) | Empty | SysErr

  /** A process id that can index the process table. */
  predicate IsProcId(pid: int) {
    0 <= pid < NPROC
  }

  /** The `EMPTY` sentinel can never be mistaken for a process id. */
  lemma EmptyIsNoProcId()
    ensures forall p :: IsProcId(p) ==> p != EMPTY
  {
  }

  /** The pids of a queue, head to tail. */
  function Pids(s: seq<Entry>): (ps: seq<int>)
    ensures |ps| == |s|
    ensures forall i :: 0 <= i < |s| ==> ps[i] == s[i].pid
  {
    seq(|s|, i requires 0 <= i < |s| => s[i].pid)
  }

  /** Non-increasing keys from head to tail. */
  ghost predicate Sorted(s: seq<Entry>) {
    forall i, j :: 0 <= i < j < |s| ==> s[i].key >= s[j].key
  }

  /** No pid occurs twice. */
  ghost predicate UniquePids(s: seq<Entry>) {
    forall i, j :: 0 <= i < j < |s| ==> s[i].pid != s[j].pid
  }

  /**
   * Where `enqueue` splices an entry with key `k`: the scan from the head
   * passes every entry whose key is `>= k` and stops at the first one whose
   * key is smaller (or runs off the tail).
   */
  function InsertPos(s: seq<Entry>, k: int): (i: nat)
    ensures i <= |s|
    ensures forall j :: 0 <= j < i ==> s[j].key >= k
    ensures i < |s| ==> s[i].key < k
  {
    if s == [] || s[0].key < k then 0 else 1 + InsertPos(s[1..], k)
  }

  /** The queue after a successful `enqueue` of `e`. */
  function Insert(s: seq<Entry>, e: Entry): seq<Entry> {
    var i := InsertPos(s, e.key);
    s[..i] + [e] + s[i..]
  }

  /** Position of the first entry carrying `pid`, or `|s|` when there is none. */
  function FirstIndex(s: seq<Entry>, pid: int): (i: nat)
    ensures i <= |s|
    ensures forall j :: 0 <= j < i ==> s[j].pid != pid
    ensures i < |s| ==> s[i].pid == pid
    ensures i == |s| <==> pid !in Pids(s)
  {
    if s == [] then 0
    else if s[0].pid == pid then 0
    else 1 + FirstIndex(s[1..], pid)
  }

  /** The queue with the entry at position `i` unlinked. */
  function RemoveAt(s: seq<Entry>, i: nat): (r: seq<Entry>)
    requires i < |s|
    ensures |r| == |s| - 1
    ensures forall j :: 0 <= j < i ==> r[j] == s[j]
    ensures forall j :: i <= j < |r| ==> r[j] == s[j + 1]
  {
    s[..i] + s[i + 1..]
  }

  /** The queue after `remove(pid)` found `pid`: its first entry is gone. */
  function RemovePid(s: seq<Entry>, pid: int): seq<Entry>
    requires pid in Pids(s)
  {
    RemoveAt(s, FirstIndex(s, pid))
  }

  // ---------------------------------------------------------------------
  // enqueue: placement, order and FIFO among equal keys

  /** The scan position is the only index with the two properties that stop it. */
  lemma InsertPosUnique(s: seq<Entry>, k: int, i: nat)
    requires i <= |s|
    requires forall j :: 0 <= j < i ==> s[j].key >= k
    requires i < |s| ==> s[i].key < k
    ensures i == InsertPos(s, k)
  {
  }

  /** Inserting adds exactly the new entry and drops nothing. */
  lemma InsertIsPermutation(s: seq<Entry>, e: Entry)
    ensures |Insert(s, e)| == |s| + 1
    ensures multiset(Insert(s, e)) == multiset(s) + multiset{e}
  {
    var i := InsertPos(s, e.key);
    assert s == s[..i] + s[i..];
  }

  /**
   * On a sorted queue the new entry goes after every entry whose key is
   * `>=` its own (so after its equal-key peers: FIFO) and before every
   * entry whose key is smaller.
   */
  lemma InsertPlacement(s: seq<Entry>, e: Entry)
    requires Sorted(s)
    ensures var r, i := Insert(s, e), InsertPos(s, e.key);
      && r[i] == e
      && (forall j :: 0 <= j < |s| && s[j].key >= e.key ==> j < i && r[j] == s[j])
      && (forall j :: 0 <= j < |s| && s[j].key < e.key ==> i <= j && r[j + 1] == s[j])
  {
    var r, i := Insert(s, e), InsertPos(s, e.key);
    forall j | 0 <= j < |s|
      ensures s[j].key >= e.key ==> j < i && r[j] == s[j]
      ensures s[j].key < e.key ==> i <= j && r[j + 1] == s[j]
    {
      if j < i {
        assert r[j] == s[j];
      } else {
        assert s[i].key >= s[j].key;
        assert r[j + 1] == s[j];
      }
    }
  }

  /** A sorted queue stays sorted under `enqueue`. */
  lemma InsertKeepsSorted(s: seq<Entry>, e: Entry)
    requires Sorted(s)
    ensures Sorted(Insert(s, e))
  {
    var r, i := Insert(s, e), InsertPos(s, e.key);
    forall a, b | 0 <= a < b < |r|
      ensures r[a].key >= r[b].key
    {
      if a < i && b == i {
        assert r[a] == s[a];
      } else if a == i && b > i {
        assert r[b] == s[b - 1];
        assert s[i].key >= s[b - 1].key;
      } else if a < i && b > i {
        assert r[a] == s[a] && r[b] == s[b - 1];
      } else if b < i {
        assert r[a] == s[a] && r[b] == s[b];
      } else {
        assert r[a] == s[a - 1] && r[b] == s[b - 1];
      }
    }
  }

  /** The pid order of an insertion: the old pids with the new one spliced in. */
  lemma InsertPids(s: seq<Entry>, e: Entry)
    ensures var i := InsertPos(s, e.key);
      Pids(Insert(s, e)) == Pids(s)[..i] + [e.pid] + Pids(s)[i..]
  {
  }

  // ---------------------------------------------------------------------
  // remove: order, round trip, getlast

  /** Unlinking one entry keeps a sorted queue sorted. */
  lemma RemoveKeepsSorted(s: seq<Entry>, i: nat)
    requires i < |s| && Sorted(s)
    ensures Sorted(RemoveAt(s, i))
  {
    var r := RemoveAt(s, i);
    forall a, b | 0 <= a < b < |r|
      ensures r[a].key >= r[b].key
    {
      var a', b' := if a < i then a else a + 1, if b < i then b else b + 1;
      assert r[a] == s[a'] && r[b] == s[b'];
    }
  }

  /** Unlinking keeps every other entry, in the same relative order. */
  lemma RemoveIsPermutation(s: seq<Entry>, i: nat)
    requires i < |s|
    ensures multiset(RemoveAt(s, i)) + multiset{s[i]} == multiset(s)
  {
    assert s == s[..i] + [s[i]] + s[i + 1..];
  }

  /**
   * Round trip: enqueueing a pid that is not yet in the queue and then
   * removing it by pid gives back the queue that was there before.
   */
  lemma InsertThenRemove(s: seq<Entry>, e: Entry)
    requires e.pid !in Pids(s)
    ensures e.pid in Pids(Insert(s, e))
    ensures FirstIndex(Insert(s, e), e.pid) == InsertPos(s, e.key)
    ensures RemovePid(Insert(s, e), e.pid) == s
  {
    var r, i := Insert(s, e), InsertPos(s, e.key);
    assert r[i] == e;
    assert forall j :: 0 <= j < i ==> r[j] == s[j];
    assert forall j :: 0 <= j < |s| ==> s[j].pid != e.pid by {
      forall j | 0 <= j < |s| ensures s[j].pid != e.pid {
        assert Pids(s)[j] == s[j].pid;
      }
    }
    FirstIndexUnique(r, e.pid, i);
    RemoveInserted(s, e);
  }

  /** Unlinking the position an insertion used gives back the original queue. */
  lemma RemoveInserted(s: seq<Entry>, e: Entry)
    ensures RemoveAt(Insert(s, e), InsertPos(s, e.key)) == s
  {
    var r, i := Insert(s, e), InsertPos(s, e.key);
    var d := RemoveAt(r, i);
    forall j | 0 <= j < |s|
      ensures d[j] == s[j]
    {
      if i <= j {
        assert d[j] == r[j + 1];
      }
    }
  }

  /** The first-match index is the only one with the two properties. */
  lemma FirstIndexUnique(s: seq<Entry>, pid: int, i: nat)
    requires i < |s| && s[i].pid == pid
    requires forall j :: 0 <= j < i ==> s[j].pid != pid
    ensures pid in Pids(s) && FirstIndex(s, pid) == i
  {
    assert Pids(s)[i] == pid;
  }

  /**
   * `getlast` removes the tail's pid by a scan from the head; when pids are
   * unique that scan stops at the tail, so the tail entry is what goes.
   */
  lemma RemoveTailPid(s: seq<Entry>)
    requires s != [] && UniquePids(s)
    ensures var last := |s| - 1;
      s[last].pid in Pids(s) && RemovePid(s, s[last].pid) == s[..last]
  {
    var last := |s| - 1;
    FirstIndexUnique(s, s[last].pid, last);
  }

  /** Without unique pids, `getlast` can remove an entry other than the tail. */
  lemma RemoveTailPidDuplicate()
    ensures var s := [Entry(4, 9), Entry(4, 1)];
      RemovePid(s, s[1].pid) == [Entry(4, 1)] != s[..1]
  {
    var s := [Entry(4, 9), Entry(4, 1)];
    FirstIndexUnique(s, 4, 0);
  }

  // ---------------------------------------------------------------------
  // the end-to-end scenario

  /** Equal keys leave in insertion order: A, B, C with one key come out A, B, C. */
  lemma FifoAmongEqualKeys(a: int, b: int, c: int, k: int)
    ensures Insert(Insert(Insert([], Entry(a, k)), Entry(b, k)), Entry(c, k))
         == [Entry(a, k), Entry(b, k), Entry(c, k)]
  {
    assert Insert([], Entry(a, k)) == [Entry(a, k)];
    assert InsertPos([Entry(a, k)], k) == 1;
    assert Insert([Entry(a, k)], Entry(b, k)) == [Entry(a, k), Entry(b, k)];
    assert InsertPos([Entry(a, k), Entry(b, k)], k) == 2;
  }

  /**
   * Enqueue (1,5), (2,9), (3,5); the order is 2, 1, 3. Taking the head
   * gives 2, removing pid 1 leaves [(3,5)].
   */
  lemma MixedKeysScenario()
    ensures var s := Insert(Insert(Insert([], Entry(1, 5)), Entry(2, 9)), Entry(3, 5));
      && s == [Entry(2, 9), Entry(1, 5), Entry(3, 5)]
      && s[0].pid == 2
      && 1 in Pids(s[1..]) && RemovePid(s[1..], 1) == [Entry(3, 5)]
  {
    assert Insert([], Entry(1, 5)) == [Entry(1, 5)];
    assert InsertPos([Entry(1, 5)], 9) == 0;
    assert Insert([Entry(1, 5)], Entry(2, 9)) == [Entry(2, 9), Entry(1, 5)];
    assert InsertPos([Entry(2, 9), Entry(1, 5)], 5) == 2;
    var s := [Entry(2, 9), Entry(1, 5), Entry(3, 5)];
    FirstIndexUnique(s[1..], 1, 0);
  }
}
