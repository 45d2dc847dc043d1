/**
 * The string queue of queue.c: a singly-linked chain of heap elements reached
 * through a queue record with `head`, `tail` and `size`. Every C function that
 * takes a `queue_t *` is a method taking a `Queue?`, so that the NULL-queue
 * paths are part of the model; each `malloc` that may fail is a boolean
 * parameter saying whether it succeeded.
 */
module StringQueue {
  import opened CStrings
  import opened Sequences

  /** One list element (list_ele_t): its own copy of a string and a link. */
  class Element {
    // Written once, when the element is created, and never changed afterwards.
    const value: CString
    var next: Element?

    constructor (s: CString)
      ensures value == s && next == null
    {
      value := s;
      next := null;
    }
  }

  /** `ns` lists, in order, exactly the elements reached by following `next` from `h`. */
  ghost predicate IsChain(h: Element?, ns: seq<Element>)
    reads ns
  {
    (h == null <==> ns == []) &&
    (ns != [] ==> ns[0] == h && ns[|ns| - 1].next == null) &&
    forall i {:trigger ns[i].next} :: 0 <= i < |ns| - 1 ==> ns[i].next == ns[i + 1]
  }

  /** The queue record (queue_t). */
  class Queue {
    var head: Element?
    var tail: Element?
    var size: nat
    // The elements of the chain, from head to tail.
    ghost var nodes: seq<Element>

    /**
     * The queue invariant: the chain from `head` is acyclic and lists `nodes`,
     * `size` counts them, and `tail` is the last of them when there is one.
     * When the queue is empty `tail` is unconstrained: q_remove_head does not
     * reset it when it removes the last element.
     */
    ghost predicate Valid()
      reads this, nodes
    {
      IsChain(head, nodes) &&
      (forall i, j :: 0 <= i < j < |nodes| ==> nodes[i] != nodes[j]) &&
      size == |nodes| &&
      (nodes != [] ==> tail == nodes[|nodes| - 1])
    }

    /** The strings held by the queue, from head to tail. */
    ghost function Contents(): seq<CString>
      reads this
    {
      Values(nodes)
    }
  }

  /** The strings the elements of `ns` hold, in the same order. */
  function Values(ns: seq<Element>): seq<CString>
  {
    seq<CString>(|ns|, i requires 0 <= i < |ns| => ns[i].value)
  }

  /** The objects owned by a queue: its elements. */
  ghost function Elements(q: Queue?): set<Element>
    reads q
  {
    if q == null then {} else set n | n in q.nodes
  }

  /** q_new: a fresh empty queue, or NULL when the allocation fails. */
  method New(allocOk: bool) returns (q: Queue?)
    ensures allocOk <==> q != null
    ensures q != null ==> fresh(q) && q.Valid() && q.Contents() == []
    ensures q != null ==> q.head == null && q.tail == null && q.size == 0
  {
    if !allocOk {
      return null;
    }
    q := new Queue;
    q.head := null;
    q.tail := null;
    q.size := 0;
    q.nodes := [];
  }

  /**
   * q_insert_head: links a new element holding a copy of `s` before the head.
   * `nodeAlloc` and `valueAlloc` say whether the element and its string
   * could be allocated.
   */
  method InsertHead(q: Queue?, s: CString, nodeAlloc: bool, valueAlloc: bool) returns (ok: bool)
    requires q != null ==> q.Valid()
    modifies q
    ensures ok <==> q != null && nodeAlloc && valueAlloc
    ensures q != null ==> q.Valid()
    ensures ok ==> fresh(q.head) && q.head.value == s && q.head.next == old(q.head)
    ensures ok ==> q.nodes == [q.head] + old(q.nodes) && q.size == old(q.size) + 1
    ensures ok ==> q.Contents() == [s] + old(q.Contents())
    ensures ok && old(q.head) == null ==> q.tail == q.head
    ensures ok && old(q.head) != null ==> q.tail == old(q.tail)
    ensures !ok ==> q == null || unchanged(q)
  {
    if q == null {
      return false;
    }
    if !nodeAlloc {
      return false;
    }
    if !valueAlloc {
      // The element allocated so far is released again.
      return false;
    }
    var newh := new Element(s);
    if q.head == null {
      q.tail := newh;
    }
    newh.next := q.head;
    q.head := newh;
    q.size := q.size + 1;
    q.nodes := [newh] + q.nodes;
    ok := true;
  }

  /**
   * q_insert_tail: links a new element holding a copy of `s` after the tail
   * and terminates the chain there.
   */
  method InsertTail(q: Queue?, s: CString, nodeAlloc: bool, valueAlloc: bool) returns (ok: bool)
    requires q != null ==> q.Valid()
    modifies q, Elements(q)
    ensures ok <==> q != null && nodeAlloc && valueAlloc
    ensures q != null ==> q.Valid()
    ensures ok ==> fresh(q.tail) && q.tail.value == s && q.tail.next == null
    ensures ok ==> q.nodes == old(q.nodes) + [q.tail] && q.size == old(q.size) + 1
    ensures ok ==> q.Contents() == old(q.Contents()) + [s]
    ensures ok && old(q.head) == null ==> q.head == q.tail
    ensures ok && old(q.head) != null ==> q.head == old(q.head)
    ensures !ok ==> q == null || (unchanged(q) && unchanged(Elements(q)))
  {
    if q == null {
      return false;
    }
    if !nodeAlloc {
      return false;
    }
    if !valueAlloc {
      // The element allocated so far is released again.
      return false;
    }
    var newh := new Element(s);
    if q.head == null {
      q.head := newh;
      q.tail := newh;
    } else {
      q.tail.next := newh;
      q.tail := q.tail.next;
    }
    q.tail.next := null;
    q.size := q.size + 1;
    q.nodes := q.nodes + [newh];
    ok := true;
  }

  /**
   * q_remove_head: unlinks the head element. When `sp` is a buffer, its first
   * `bufsize` bytes receive the removed string, truncated to `bufsize - 1`
   * characters and NUL-padded; the bytes past `bufsize` are not touched.
   */
  method RemoveHead(q: Queue?, sp: array?<char>, bufsize: nat) returns (ok: bool)
    requires q != null ==> q.Valid()
    requires sp != null ==> 1 <= bufsize <= sp.Length
    modifies q, sp
    ensures ok <==> q != null && old(q.head) != null
    ensures q != null ==> q.Valid()
    ensures ok ==> q.nodes == old(q.nodes)[1..] && q.size == old(q.size) - 1
    ensures ok ==> q.tail == old(q.tail)
    ensures ok ==> q.Contents() == old(q.Contents())[1..]
    ensures ok && sp != null ==> sp[..bufsize] == TruncatedCopy(old(q.Contents())[0], bufsize)
    ensures ok && sp != null ==> sp[bufsize..] == old(sp[bufsize..])
    ensures !ok ==> (q == null || unchanged(q)) && (sp == null || unchanged(sp))
  {
    if q == null || q.head == null {
      return false;
    }
    var tmp := q.head;
    ChainTail(q.head, q.nodes);
    q.head := q.head.next;
    if sp != null {
      var v := tmp.value;
      // strncpy(sp, value, bufsize - 1): the characters, then NUL padding.
      forall i | 0 <= i < bufsize - 1 {
        sp[i] := if i < |v| then v[i] else '\0';
      }
      sp[bufsize - 1] := '\0';
      assert sp[..bufsize] == TruncatedCopy(v, bufsize);
    }
    q.size := q.size - 1;
    q.nodes := q.nodes[1..];
    ok := true;
  }

  /** q_size: the element count, 0 for a NULL queue. */
  function Size(q: Queue?): (n: int)
    requires q != null ==> q.Valid()
    // Spelled out: with `Elements(q)` here, the frame check of `q.Valid()` fails.
    reads q, if q == null then {} else set n | n in q.nodes
    ensures q == null ==> n == 0
    ensures q != null ==> n == |q.Contents()| && n == |q.nodes|
  {
    if q == null then 0 else q.size
  }

  /**
   * A non-empty chain starts at `h`, has a second element exactly when `h`
   * has a successor, and past its first element is the chain from there.
   */
  lemma ChainTail(h: Element?, ns: seq<Element>)
    requires IsChain(h, ns) && ns != []
    ensures h != null && (|ns| > 1 <==> h.next != null)
    ensures |ns| > 1 ==> h.next == ns[1] && IsChain(ns[1], ns[1..])
  {
  }

  /** Two descriptions of the chain from the same element are the same sequence. */
  lemma {:induction false} ChainUnique(h: Element?, a: seq<Element>, b: seq<Element>)
    requires IsChain(h, a) && IsChain(h, b)
    ensures a == b
  {
    if a != [] {
      ChainTail(h, a);
      ChainTail(h, b);
      if |a| > 1 {
        ChainUnique(a[1], a[1..], b[1..]);
      }
    }
  }

  /** The size field counts exactly the elements reachable from `head`. */
  lemma SizeIsReachableCount(q: Queue, ns: seq<Element>)
    requires q.Valid() && IsChain(q.head, ns)
    ensures Size(q) == |ns|
  {
    ChainUnique(q.head, q.nodes, ns);
  }

  /**
   * Once every element of `ns` points back at its predecessor (and the first
   * one at nothing), the reversal of `ns` is the chain from the old last element.
   */
  lemma ReversedLinks(ns: seq<Element>)
    requires |ns| > 0 && ns[0].next == null
    requires forall i {:trigger ns[i].next} :: 0 < i < |ns| ==> ns[i].next == ns[i - 1]
    ensures IsChain(ns[|ns| - 1], Reversed(ns))
  {
    var n := |ns|;
    var r := Reversed(ns);
    ReverseIndices(ns);
    forall i | 0 <= i < n - 1
      ensures r[i].next == r[i + 1]
    {
      assert ns[n - 1 - i].next == ns[n - 1 - i - 1];
    }
  }

  /** The reversal of a sequence of distinct elements has distinct elements. */
  lemma ReversedDistinct(ns: seq<Element>)
    requires forall i, j :: 0 <= i < j < |ns| ==> ns[i] != ns[j]
    ensures forall i, j :: 0 <= i < j < |ns| ==> Reversed(ns)[i] != Reversed(ns)[j]
  {
    ReverseIndices(ns);
  }

  /** Taking the values commutes with reversing the elements. */
  lemma ValuesReverse(ns: seq<Element>)
    ensures Values(Reversed(ns)) == Reversed(Values(ns))
  {
    forall i | 0 <= i < |ns|
      ensures Values(Reversed(ns))[i] == Reversed(Values(ns))[i]
    {
      ReverseAt(ns, i);
      ReverseAt(Values(ns), i);
    }
  }

  /**
   * q_reverse: for two or more elements, walks the chain once from the head,
   * pointing each element back at its predecessor; no element is created or
   * released. NULL, empty and single-element queues are left untouched.
   */
  method Reverse(q: Queue?)
    requires q != null ==> q.Valid()
    modifies q, Elements(q)
    ensures q != null ==> q.Valid()
    ensures q != null ==> q.nodes == Reversed(old(q.nodes)) && q.size == old(q.size)
    ensures q != null ==> q.Contents() == Reversed(old(q.Contents()))
    ensures q != null ==> multiset(q.nodes) == multiset(old(q.nodes))
    ensures q != null && old(q.size) >= 2 ==> q.head == old(q.tail) && q.tail == old(q.head)
    ensures q != null && old(q.size) < 2 ==> unchanged(q) && unchanged(Elements(q))
  {
    if q == null || q.head == null {
      return;
    }
    if q.head.next == null {
      return;
    }
    ghost var ns := q.nodes;
    ghost var n := |ns|;
    ghost var k := 0;
    var tmp: Element;
    var reversed: Element? := null;
    q.tail := q.head;
    while q.head != null
      invariant 0 <= k <= n && q.nodes == ns && q.size == n && q.tail == ns[0]
      invariant q.head == (if k < n then ns[k] else null)
      invariant reversed == (if k == 0 then null else ns[k - 1])
      invariant k > 0 ==> ns[0].next == null
      invariant forall i {:trigger ns[i].next} :: 0 < i < k ==> ns[i].next == ns[i - 1]
      invariant forall i {:trigger ns[i].next} :: k <= i < n - 1 ==> ns[i].next == ns[i + 1]
      invariant k < n ==> ns[n - 1].next == null
      decreases n - k
    {
      tmp := q.head;
      q.head := q.head.next;
      tmp.next := reversed;
      reversed := tmp;
      k := k + 1;
    }
    q.head := reversed;
    q.nodes := Reversed(ns);
    assert q.Valid() by {
      assert k == n && q.head == ns[n - 1];
      ReversedLinks(ns);
      ReversedDistinct(ns);
      ReverseAt(ns, n - 1);
    }
    assert q.Contents() == Reversed(Values(ns)) by {
      ValuesReverse(ns);
    }
    assert multiset(q.nodes) == multiset(ns) by {
      ReversePermutes(ns);
    }
  }

  /**
   * q_free: the drain loop that walks the chain from the head and releases
   * every element; `released` lists them in the order they are released.
   */
  method Free(q: Queue?) returns (ghost released: seq<Element>)
    requires q != null ==> q.Valid()
    modifies q
    ensures q != null ==> released == old(q.nodes) && q.head == null
    ensures q != null ==> q.tail == old(q.tail) && q.size == old(q.size)
    ensures q == null ==> released == []
  {
    released := [];
    if q == null {
      return;
    }
    ghost var ns := q.nodes;
    ghost var k := 0;
    var tmp := q.head;
    while tmp != null
      invariant 0 <= k <= |ns| && released == ns[..k]
      invariant tmp == (if k < |ns| then ns[k] else null)
      invariant q.head == tmp && q.tail == old(q.tail) && q.size == old(q.size)
      decreases |ns| - k
    {
      q.head := tmp.next;
      released := released + [tmp];
      tmp := q.head;
      k := k + 1;
    }
    assert ns[..k] == ns;
  }

  /** q_sort: an unimplemented stub in queue.c; the queue is left as it is. */
  method Sort(q: Queue?)
    requires q != null ==> q.Valid()
    ensures q != null ==> q.Valid() && unchanged(q) && unchanged(Elements(q))
  {
  }

  /**
   * Inserting a string into an empty queue and removing it again into a
   * buffer large enough for it hands back that string and leaves the queue
   * empty.
   */
  method InsertThenRemove(q: Queue, s: CString, sp: array<char>, bufsize: nat)
    requires q.Valid() && q.Contents() == []
    requires |s| < bufsize <= sp.Length
    modifies q, sp
    ensures q.Valid() && q.Contents() == [] && Size(q) == 0
    ensures Read(sp[..bufsize]) == s
  {
    var inserted := InsertHead(q, s, true, true);
    var removed := RemoveHead(q, sp, bufsize);
    ReadTruncatedCopy(s, bufsize);
  }

  /** Reversing a queue twice restores its elements in their original order. */
  method ReverseTwice(q: Queue)
    requires q.Valid()
    modifies q, Elements(q)
    ensures q.Valid() && q.nodes == old(q.nodes) && q.Contents() == old(q.Contents())
  {
    ghost var ns := q.nodes;
    Reverse(q);
    assert forall e :: e in q.nodes <==> e in multiset(ns);
    Reverse(q);
    ReverseInvolutive(ns);
  }
}
