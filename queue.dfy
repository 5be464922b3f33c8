/**
 * The intrusive doubly-linked priority queue: `struct qentry` as `Node`,
 * `struct queue` as `Queue`, and the queue functions as methods that relink
 * nodes in place. The ghost `nodes` is the list a walk from `head` visits;
 * `contents` is its (pid, key) projection, the abstract value every method
 * is specified against.
 */
module Queues {
  import opened QueueSpec

  /** One queue entry (`struct qentry`). */
  class Node {
    var pid: int
    var key: int
    var next: Node?
    var prev: Node?

    /** A fresh, unlinked entry, as `enqueue` builds it before splicing. */
    constructor (pid: int, key: int)
      ensures this.pid == pid && this.key == key
      ensures next == null && prev == null
    {
      this.pid := pid;
      this.key := key;
      next := null;
      prev := null;
    }
  }

  /** A queue header (`struct queue`): head and tail links and a size. */
  class Queue {
    var head: Node?
    var tail: Node?
    var size: nat
    ghost var nodes: seq<Node>
    ghost var contents: seq<Entry>
    /** Every object the queue is made of: the header and the nodes it has linked. */
    ghost var Repr: set<object>

    /**
     * Well-formedness: `size` counts the list; `head`/`tail` are null exactly
     * when it is empty and are its ends otherwise; `next` and `prev` link
     * each node to its neighbours, null at the ends; no node occurs twice;
     * `contents` is what the nodes hold; the size never exceeds the capacity;
     * the header and every node belong to `Repr`.
     */
    ghost predicate Valid()
      reads this, Repr
    {
      && this in Repr
      && (forall i :: 0 <= i < |nodes| ==> nodes[i] in Repr)
      && size == |nodes| == |contents|
      && size <= NPROC
      && (forall i :: 0 <= i < |nodes| ==> contents[i] == Entry(nodes[i].pid, nodes[i].key))
      && Distinct(nodes)
      && (if nodes == [] then head == null && tail == null
          else head == nodes[0] && tail == nodes[|nodes| - 1])
      && (forall i :: 0 <= i < |nodes| - 1 ==> nodes[i].next == nodes[i + 1])
      && (forall i :: 0 < i < |nodes| ==> nodes[i].prev == nodes[i - 1])
      && (nodes != [] ==> nodes[0].prev == null && nodes[|nodes| - 1].next == null)
    }

    /** `newqueue`: a freshly allocated, empty queue. */
    constructor ()
      ensures Valid() && fresh(Repr)
      ensures head == null && tail == null && size == 0
      ensures nodes == [] && contents == []
    {
      head := null;
      tail := null;
      size := 0;
      nodes := [];
      contents := [];
      Repr := {this};
    }

    /** `isempty`. */
    predicate IsEmpty()
      reads this, Repr
      requires Valid()
      ensures IsEmpty() <==> contents == []
      ensures IsEmpty() <==> head == null && tail == null
    {
      size == 0
    }

    /** `nonempty`, for a queue that exists. */
    predicate Nonempty()
      reads this, Repr
      requires Valid()
      ensures Nonempty() <==> contents != []
      ensures Nonempty() <==> !IsEmpty()
    {
      size > 0
    }

    /** `isfull`: the queue holds as many entries as there are processes. */
    predicate IsFull()
      reads this, Repr
      requires Valid()
      ensures IsFull() <==> |contents| == NPROC
    {
      size >= NPROC
    }

    /**
     * `enqueue`: on a full queue, SYSERR and no change; otherwise a fresh
     * entry is spliced in after every entry whose key is `>=` `key` and
     * before the first with a smaller key, and the result is OK.
     */
    method Enqueue(pid: int, key: int) returns (r: Pid32)
      requires Valid()
      modifies Repr
      ensures Valid() && fresh(Repr - old(Repr))
      ensures old(size) >= NPROC ==>
        r == SysErr && nodes == old(nodes) && contents == old(contents)
      ensures old(size) < NPROC ==>
        && r == Ok
        && size == old(size) + 1
        && contents == Insert(old(contents), Entry(pid, key))
        && var i := InsertPos(old(contents), key);
           nodes == old(nodes)[..i] + [nodes[i]] + old(nodes)[i..] && fresh(nodes[i])
    {
      if size >= NPROC {
        return SysErr;
      }
      var entry := new Node(pid, key);

      var curr := head;
      ghost var i := 0;
      while curr != null && curr.key >= key
        modifies {}
        invariant 0 <= i <= |nodes|
        invariant curr == if i < |nodes| then nodes[i] else null
        invariant forall j :: 0 <= j < i ==> contents[j].key >= key
        decreases |nodes| - i
      {
        curr := curr.next;
        i := i + 1;
      }
      InsertPosUnique(contents, key, i);

      var prev: Node?;
      if curr == null {
        prev := tail;
      } else {
        prev := curr.prev;
      }
      Splice(entry, prev, curr, i);
      r := Ok;
    }

    /**
     * The splicing step of `enqueue`: links the unlinked `entry` between
     * `prev` and `curr`, the neighbours at position `i`, and moves `head`
     * or `tail` when the entry lands at an end.
     */
    method Splice(entry: Node, prev: Node?, curr: Node?, ghost i: nat)
      requires Valid() && size < NPROC && entry !in nodes
      requires i <= |nodes|
      requires prev == if 0 < i then nodes[i - 1] else null
      requires curr == if i < |nodes| then nodes[i] else null
      modifies Repr, entry
      ensures Valid() && Repr == old(Repr) + {entry}
      ensures size == old(size) + 1
      ensures nodes == old(nodes[..i]) + [entry] + old(nodes[i..])
      ensures contents == old(contents[..i]) + [Entry(entry.pid, entry.key)] + old(contents[i..])
      ensures entry.pid == old(entry.pid) && entry.key == old(entry.key)
    {
      ghost var before := nodes;
      ghost var after := nodes[..i] + [entry] + nodes[i..];
      LinkBetween(entry, prev, curr, before, after, i);
      Attach(entry, prev, curr, before, after, i);
    }

    /**
     * The header side of a splice, once the pointers are set: `head` or
     * `tail` moves to the entry when it lands at an end, and the size grows.
     */
    method Attach(entry: Node, prev: Node?, curr: Node?, ghost before: seq<Node>, ghost after: seq<Node>, ghost i: nat)
      requires i <= |before| && after == before[..i] + [entry] + before[i..]
      requires nodes == before && size == |before| == |contents| && size < NPROC
      requires this in Repr && (forall j :: 0 <= j < |before| ==> before[j] in Repr)
      requires Distinct(before) && entry !in before
      requires forall j :: 0 <= j < |before| ==> contents[j] == Entry(before[j].pid, before[j].key)
      requires prev == (if 0 < i then before[i - 1] else null)
      requires curr == (if i < |before| then before[i] else null)
      requires if before == [] then head == null && tail == null
        else head == before[0] && tail == before[|before| - 1]
      requires forall j :: 0 <= j < |after| - 1 ==> after[j].next == after[j + 1]
      requires forall j :: 0 < j < |after| ==> after[j].prev == after[j - 1]
      requires after[0].prev == null && after[|after| - 1].next == null
      modifies this
      ensures Valid() && Repr == old(Repr) + {entry}
      ensures size == old(size) + 1 && nodes == after
      ensures contents == old(contents[..i]) + [Entry(entry.pid, entry.key)] + old(contents[i..])
    {
      if prev == null {
        head := entry;
      }
      if curr == null {
        tail := entry;
      }
      size := size + 1;
      nodes := after;
      Repr := Repr + {entry};
      contents := contents[..i] + [Entry(entry.pid, entry.key)] + contents[i..];
      SplicedDistinct(before, after, i, entry);
      SplicedContents(before, after, old(contents), contents, i, entry);
    }

    /**
     * `dequeue`: EMPTY and no change on an empty queue; otherwise the head's
     * pid, with the head entry unlinked.
     */
    method Dequeue() returns (r: Pid32)
      requires Valid()
      modifies Repr
      ensures Valid() && Repr == old(Repr)
      ensures old(contents) == [] ==>
        r == Empty && nodes == old(nodes) && contents == old(contents)
      ensures old(contents) != [] ==>
        && r == Pid(old(contents)[0].pid)
        && nodes == old(nodes)[1..]
        && contents == old(contents)[1..]
        && size == old(size) - 1
    {
      if IsEmpty() {
        return Empty;
      }
      var first := head;
      var newHead := first.next;
      assert newHead != null ==> newHead == nodes[1];
      r := Pid(first.pid);
      if newHead != null {
        newHead.prev := null;
      } else {
        tail := null;
      }
      head := newHead;
      size := size - 1;
      nodes := nodes[1..];
      contents := contents[1..];
    }

    /**
     * `getbypid`: the first entry carrying `pid`, or null when the queue is
     * empty or has no such entry. Reads only.
     */
    method GetByPid(pid: int) returns (r: Node?)
      requires Valid()
      ensures r == null <==> pid !in Pids(contents)
      ensures r != null ==> r == nodes[FirstIndex(contents, pid)] && r.pid == pid
    {
      if IsEmpty() {
        return null;
      }
      r := head;
      ghost var i := 0;
      while r != null && r.pid != pid
        invariant 0 <= i <= |nodes|
        invariant r == if i < |nodes| then nodes[i] else null
        invariant forall j :: 0 <= j < i ==> contents[j].pid != pid
        decreases |nodes| - i
      {
        r := r.next;
        i := i + 1;
      }
      if r != null {
        FirstIndexUnique(contents, pid, i);
      }
    }

    /** `getfirst`: the same as `dequeue`. */
    method GetFirst() returns (r: Pid32)
      requires Valid()
      modifies Repr
      ensures Valid() && Repr == old(Repr)
      ensures old(contents) == [] ==>
        r == Empty && nodes == old(nodes) && contents == old(contents)
      ensures old(contents) != [] ==>
        && r == Pid(old(contents)[0].pid)
        && nodes == old(nodes)[1..]
        && contents == old(contents)[1..]
    {
      if IsEmpty() {
        return Empty;
      }
      r := Dequeue();
    }

    /**
     * `remove`: EMPTY on an empty queue; SYSERR and no change when no entry
     * carries `pid`; otherwise the first entry carrying `pid` is unlinked,
     * every other entry keeps its place, and the result is `pid`.
     */
    method Remove(pid: int) returns (r: Pid32)
      requires Valid()
      modifies Repr
      ensures Valid() && Repr == old(Repr)
      ensures old(contents) == [] ==>
        r == Empty && nodes == old(nodes) && contents == old(contents)
      ensures old(contents) != [] && pid !in Pids(old(contents)) ==>
        r == SysErr && nodes == old(nodes) && contents == old(contents)
      ensures pid in Pids(old(contents)) ==>
        && r == Pid(pid)
        && size == old(size) - 1
        && nodes == old(nodes[..FirstIndex(contents, pid)] + nodes[FirstIndex(contents, pid) + 1..])
        && contents == RemovePid(old(contents), pid)
    {
      if IsEmpty() {
        return Empty;
      }
      var curr := head;
      ghost var i := 0;
      while curr != null
        invariant Valid() && nodes == old(nodes) && contents == old(contents)
        invariant 0 <= i <= |nodes|
        invariant curr == if i < |nodes| then nodes[i] else null
        invariant forall j :: 0 <= j < i ==> contents[j].pid != pid
        decreases |nodes| - i
      {
        if curr.pid == pid {
          FirstIndexUnique(contents, pid, i);
          Unlink(curr, i);
          return Pid(pid);
        }
        curr := curr.next;
        i := i + 1;
      }
      return SysErr;
    }

    /**
     * The unlinking step of `remove`: the neighbours of `node` are linked to
     * each other, `head` or `tail` moves off it when it is an end, and the
     * size drops by one.
     */
    method Unlink(node: Node, ghost i: nat)
      requires Valid() && i < |nodes| && node == nodes[i]
      modifies Repr
      ensures Valid() && Repr == old(Repr)
      ensures size == old(size) - 1
      ensures nodes == old(nodes[..i] + nodes[i + 1..])
      ensures contents == old(contents[..i] + contents[i + 1..])
    {
      ghost var before := nodes;
      ghost var after := nodes[..i] + nodes[i + 1..];
      var next := node.next;
      var prev := node.prev;
      assert next == if i + 1 < |nodes| then nodes[i + 1] else null;
      assert prev == if 0 < i then nodes[i - 1] else null;
      Bypass(prev, next, before, after, i);
      Detach(node, prev, next, before, after, i);
    }

    /**
     * The header side of an unlink, once the neighbours point at each other:
     * `head` or `tail` moves off the node when it is an end, and the size
     * drops.
     */
    method Detach(node: Node, prev: Node?, next: Node?, ghost before: seq<Node>, ghost after: seq<Node>, ghost i: nat)
      requires i < |before| && node == before[i] && after == before[..i] + before[i + 1..]
      requires nodes == before && size == |before| == |contents| <= NPROC
      requires this in Repr && (forall j :: 0 <= j < |before| ==> before[j] in Repr)
      requires Distinct(before)
      requires forall j :: 0 <= j < |before| ==> contents[j] == Entry(before[j].pid, before[j].key)
      requires prev == (if 0 < i then before[i - 1] else null)
      requires next == (if i + 1 < |before| then before[i + 1] else null)
      requires head == before[0] && tail == before[|before| - 1]
      requires forall j :: 0 <= j < |after| - 1 ==> after[j].next == after[j + 1]
      requires forall j :: 0 < j < |after| ==> after[j].prev == after[j - 1]
      requires after != [] ==> after[0].prev == null && after[|after| - 1].next == null
      modifies this
      ensures Valid() && Repr == old(Repr)
      ensures size == old(size) - 1 && nodes == after
      ensures contents == old(contents[..i] + contents[i + 1..])
    {
      if node == head {
        head := next;
      }
      if node == tail {
        tail := prev;
      }
      size := size - 1;
      nodes := after;
      contents := contents[..i] + contents[i + 1..];
      UnlinkedDistinct(before, after, i);
      UnlinkedContents(before, after, old(contents), contents, i);
    }

    /**
     * `key++` on the entry at position `i`, as `sched_age` does it: the links
     * stay and only that entry's key changes.
     */
    method IncrementKey(node: Node, ghost i: nat)
      requires Valid() && i < |nodes| && node == nodes[i]
      modifies node`key, `contents
      ensures Valid()
      ensures nodes == old(nodes)
      ensures contents == old(contents)[i := Entry(node.pid, old(node.key) + 1)]
    {
      node.key := node.key + 1;
      contents := contents[i := Entry(node.pid, node.key)];
      assert forall j :: 0 <= j < |nodes| && j != i ==> nodes[j] != node;
    }

    /**
     * `getlast`: EMPTY on an empty queue; otherwise `remove` of the tail's
     * pid, which takes out the tail itself when pids are unique.
     */
    method GetLast() returns (r: Pid32)
      requires Valid()
      modifies Repr
      ensures Valid() && Repr == old(Repr)
      ensures old(contents) == [] ==>
        r == Empty && nodes == old(nodes) && contents == old(contents)
      ensures old(contents) != [] ==>
        var last := old(contents)[|old(contents)| - 1];
        && r == Pid(last.pid)
        && last.pid in Pids(old(contents))
        && contents == RemovePid(old(contents), last.pid)
      ensures old(contents) != [] && UniquePids(old(contents)) ==>
        contents == old(contents)[..|old(contents)| - 1]
    {
      if IsEmpty() {
        return Empty;
      }
      ghost var last := |contents| - 1;
      assert Pids(contents)[last] == contents[last].pid;
      if UniquePids(contents) {
        RemoveTailPid(contents);
      }
      r := Remove(tail.pid);
    }
  }

  /**
   * The pointer writes of a splice: `entry` goes between `prev` and `curr`,
   * the neighbours at position `i` of the linked list `before`.
   */
  method LinkBetween(entry: Node, prev: Node?, curr: Node?, ghost before: seq<Node>, ghost after: seq<Node>, ghost i: nat)
    requires i <= |before| && after == before[..i] + [entry] + before[i..]
    requires Distinct(before) && entry !in before
    requires prev == (if 0 < i then before[i - 1] else null)
    requires curr == (if i < |before| then before[i] else null)
    requires forall j :: 0 <= j < |before| - 1 ==> before[j].next == before[j + 1]
    requires forall j :: 0 < j < |before| ==> before[j].prev == before[j - 1]
    requires before != [] ==> before[0].prev == null && before[|before| - 1].next == null
    modifies entry`prev, entry`next, {prev}`next, {curr}`prev
    ensures forall j :: 0 <= j < |after| - 1 ==> after[j].next == after[j + 1]
    ensures forall j :: 0 < j < |after| ==> after[j].prev == after[j - 1]
    ensures after[0].prev == null && after[|after| - 1].next == null
  {
    entry.prev := prev;
    entry.next := curr;
    if prev != null {
      prev.next := entry;
    }
    if curr != null {
      curr.prev := entry;
    }
    SplicedLinks(before, after, i, entry);
  }

  /**
   * The pointer writes of an unlink: the neighbours `prev` and `next` of
   * position `i` of the linked list `before` now point at each other.
   */
  method Bypass(prev: Node?, next: Node?, ghost before: seq<Node>, ghost after: seq<Node>, ghost i: nat)
    requires i < |before| && after == before[..i] + before[i + 1..]
    requires Distinct(before)
    requires prev == (if 0 < i then before[i - 1] else null)
    requires next == (if i + 1 < |before| then before[i + 1] else null)
    requires forall j :: 0 <= j < |before| - 1 ==> before[j].next == before[j + 1]
    requires forall j :: 0 < j < |before| ==> before[j].prev == before[j - 1]
    requires before[0].prev == null && before[|before| - 1].next == null
    modifies {next}`prev, {prev}`next
    ensures forall j :: 0 <= j < |after| - 1 ==> after[j].next == after[j + 1]
    ensures forall j :: 0 < j < |after| ==> after[j].prev == after[j - 1]
    ensures after != [] ==> after[0].prev == null && after[|after| - 1].next == null
  {
    if next != null {
      next.prev := prev;
    }
    if prev != null {
      prev.next := next;
    }
    UnlinkedLinks(before, after, i);
  }

  /** No node occurs twice in `ns`. */
  ghost predicate Distinct(ns: seq<Node>) {
    forall i, j :: 0 <= i < j < |ns| ==> ns[i] != ns[j]
  }

  /**
   * The links of a splice: if every node of `before` other than the two
   * neighbours of position `i` kept its links, and the neighbours and the new
   * entry point at each other, then `after` is linked end to end.
   */
  lemma SplicedLinks(before: seq<Node>, after: seq<Node>, i: nat, entry: Node)
    requires i <= |before| && after == before[..i] + [entry] + before[i..]
    requires Distinct(before)
    requires forall j :: 0 <= j < |before| - 1 && before[j] != (if 0 < i then before[i - 1] else null) ==>
      before[j].next == before[j + 1]
    requires forall j :: 0 < j < |before| && before[j] != (if i < |before| then before[i] else null) ==>
      before[j].prev == before[j - 1]
    requires entry.prev == (if 0 < i then before[i - 1] else null)
    requires entry.next == (if i < |before| then before[i] else null)
    requires 0 < i ==> before[i - 1].next == entry
    requires i < |before| ==> before[i].prev == entry
    ensures forall j :: 0 <= j < |after| - 1 ==> after[j].next == after[j + 1]
    ensures forall j :: 0 < j < |after| ==> after[j].prev == after[j - 1]
  {
    var p: Node? := if 0 < i then before[i - 1] else null;
    var c: Node? := if i < |before| then before[i] else null;
    forall j | 0 <= j < |after| - 1
      ensures after[j].next == after[j + 1]
    {
      if j < i - 1 {
        assert after[j] == before[j] != p && after[j + 1] == before[j + 1];
      } else if i < j {
        assert after[j] == before[j - 1] != p && after[j + 1] == before[j];
      }
    }
    forall j | 0 < j < |after|
      ensures after[j].prev == after[j - 1]
    {
      if j < i {
        assert after[j] == before[j] != c && after[j - 1] == before[j - 1];
      } else if i + 1 < j {
        assert after[j] == before[j - 1] != c && after[j - 1] == before[j - 2];
      }
    }
  }

  /** Splicing a node that was not in the list keeps the nodes distinct. */
  lemma SplicedDistinct(before: seq<Node>, after: seq<Node>, i: nat, entry: Node)
    requires i <= |before| && after == before[..i] + [entry] + before[i..]
    requires Distinct(before) && entry !in before
    ensures Distinct(after)
  {
    forall a, b | 0 <= a < b < |after|
      ensures after[a] != after[b]
    {
      var a' := if a < i then a else a - 1;
      var b' := if b < i then b else b - 1;
      if a != i && b != i {
        assert after[a] == before[a'] && after[b] == before[b'] && a' < b';
      }
    }
  }

  /** Splicing a node and its entry at the same position keeps the projection. */
  lemma SplicedContents(before: seq<Node>, after: seq<Node>, cs: seq<Entry>, cs': seq<Entry>, i: nat, entry: Node)
    requires i <= |before| == |cs| && after == before[..i] + [entry] + before[i..]
    requires cs' == cs[..i] + [Entry(entry.pid, entry.key)] + cs[i..]
    requires forall j :: 0 <= j < |before| ==> cs[j] == Entry(before[j].pid, before[j].key)
    ensures forall j :: 0 <= j < |after| ==> cs'[j] == Entry(after[j].pid, after[j].key)
  {
    forall j | 0 <= j < |after|
      ensures cs'[j] == Entry(after[j].pid, after[j].key)
    {
      if j < i {
        assert after[j] == before[j];
      } else if i < j {
        assert after[j] == before[j - 1];
      }
    }
  }

  /**
   * The links of an unlink: if every node of `before` other than the two
   * neighbours of position `i` kept its links and the neighbours now point at
   * each other, then `after` is linked end to end.
   */
  lemma UnlinkedLinks(before: seq<Node>, after: seq<Node>, i: nat)
    requires i < |before| && after == before[..i] + before[i + 1..]
    requires Distinct(before)
    requires forall j :: 0 <= j < |before| - 1 && before[j] != (if 0 < i then before[i - 1] else null) ==>
      before[j].next == before[j + 1]
    requires forall j :: 0 < j < |before| && before[j] != (if i + 1 < |before| then before[i + 1] else null) ==>
      before[j].prev == before[j - 1]
    requires 0 < i ==> before[i - 1].next == (if i + 1 < |before| then before[i + 1] else null)
    requires i + 1 < |before| ==> before[i + 1].prev == (if 0 < i then before[i - 1] else null)
    ensures forall j :: 0 <= j < |after| - 1 ==> after[j].next == after[j + 1]
    ensures forall j :: 0 < j < |after| ==> after[j].prev == after[j - 1]
  {
    var p: Node? := if 0 < i then before[i - 1] else null;
    var c: Node? := if i + 1 < |before| then before[i + 1] else null;
    forall j | 0 <= j < |after| - 1
      ensures after[j].next == after[j + 1]
    {
      if j < i - 1 {
        assert after[j] == before[j] != p && after[j + 1] == before[j + 1];
      } else if i <= j {
        assert after[j] == before[j + 1] != p && after[j + 1] == before[j + 2];
      }
    }
    forall j | 0 < j < |after|
      ensures after[j].prev == after[j - 1]
    {
      if j < i {
        assert after[j] == before[j] != c && after[j - 1] == before[j - 1];
      } else if i < j {
        assert after[j] == before[j + 1] != c && after[j - 1] == before[j];
      }
    }
  }

  /** Dropping one node keeps the rest distinct. */
  lemma UnlinkedDistinct(before: seq<Node>, after: seq<Node>, i: nat)
    requires i < |before| && after == before[..i] + before[i + 1..]
    requires Distinct(before)
    ensures Distinct(after) && before[i] !in after
  {
    forall a, b | 0 <= a < b < |after|
      ensures after[a] != after[b]
    {
      var a' := if a < i then a else a + 1;
      var b' := if b < i then b else b + 1;
      assert after[a] == before[a'] && after[b] == before[b'] && a' < b';
    }
    forall j | 0 <= j < |after|
      ensures after[j] != before[i]
    {
      var j' := if j < i then j else j + 1;
      assert after[j] == before[j'];
    }
  }

  /** Dropping a node and its entry at the same position keeps the projection. */
  lemma UnlinkedContents(before: seq<Node>, after: seq<Node>, cs: seq<Entry>, cs': seq<Entry>, i: nat)
    requires i < |before| == |cs| && after == before[..i] + before[i + 1..]
    requires cs' == cs[..i] + cs[i + 1..]
    requires forall j :: 0 <= j < |before| ==> cs[j] == Entry(before[j].pid, before[j].key)
    ensures forall j :: 0 <= j < |after| ==> cs'[j] == Entry(after[j].pid, after[j].key)
  {
    forall j | 0 <= j < |after|
      ensures cs'[j] == Entry(after[j].pid, after[j].key)
    {
      if j < i {
        assert after[j] == before[j] && cs'[j] == cs[j];
      } else {
        assert after[j] == before[j + 1] && cs'[j] == cs[j + 1];
      }
    }
  }
}
