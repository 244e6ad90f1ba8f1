/** The STAILQ macros of queue.h: singly linked tail queues whose head keeps the address of the
    link that ends the queue. */
module SinglyTailQueues {
  import opened Sequences

  datatype Address = FirstOf(head: Head) | NextOf(elem: Element)

  class Element {
    var next: Element?   // stqe_next

    constructor ()
    {
      next := null;
    }
  }

  class Head {
    var first: Element?  // stqh_first
    var last: Address    // stqh_last
    ghost var elems: seq<Element>

    ghost predicate Valid()
      reads this, elems
    {
      Queue(this, elems)
    }

    constructor ()
      ensures Valid() && elems == []
    {
      first, last, elems := null, FirstOf(this), [];
    }
  }

  ghost function ElementAt(s: seq<Element>, i: nat): Element? {
    if i < |s| then s[i] else null
  }

  /** The address of the link that leads to element `i` of the queue `s` at `h`. */
  ghost function LinkTo(h: Head, s: seq<Element>, i: nat): Address
    requires i <= |s|
  {
    if i == 0 then FirstOf(h) else NextOf(s[i - 1])
  }

  /** The tail-pointer invariant: `h` heads a queue of exactly the elements `s`. */
  ghost predicate Queue(h: Head, s: seq<Element>)
    reads h, s
  {
    && h.first == ElementAt(s, 0)
    && h.last == LinkTo(h, s, |s|)
    && (forall i {:trigger s[i].next} :: 0 <= i < |s| ==> s[i].next == ElementAt(s, i + 1))
  }

  /** A queue that ends cannot pass an element twice. */
  lemma {:induction false} QueueApart(h: Head, s: seq<Element>, i: nat, j: nat)
    requires Queue(h, s) && i < j < |s|
    ensures s[i] != s[j]
    decreases |s| - j
  {
    assert s[i].next == s[i + 1];
    assert s[j].next == ElementAt(s, j + 1);
    if j + 1 < |s| {
      QueueApart(h, s, i + 1, j + 1);
    }
  }

  lemma QueueDistinct(h: Head, s: seq<Element>)
    requires Queue(h, s)
    ensures Distinct(s)
  {
    forall i, j | 0 <= i < j < |s|
      ensures s[i] != s[j]
    {
      QueueApart(h, s, i, j);
    }
  }

  /** The links of the queue `s` once `e` has been put in front of position `k`. */
  ghost predicate SplicedIn(h: Head, s: seq<Element>, k: nat, e: Element)
    requires k <= |s|
    reads h, s, e
  {
    && h.first == (if k == 0 then e else ElementAt(s, 0))
    && h.last == (if k == |s| then NextOf(e) else LinkTo(h, s, |s|))
    && e.next == ElementAt(s, k)
    && (forall i {:trigger s[i].next} :: 0 <= i < |s| ==>
          s[i].next == if i + 1 == k then e else ElementAt(s, i + 1))
  }

  lemma SplicedInIsQueue(h: Head, s: seq<Element>, k: nat, e: Element)
    requires k <= |s| && SplicedIn(h, s, k, e)
    ensures Queue(h, s[..k] + [e] + s[k..])
  {
    var t := s[..k] + [e] + s[k..];
    forall i | 0 <= i < |t|
      ensures t[i].next == ElementAt(t, i + 1)
    {
      if i != k {
        assert t[i] == s[if i < k then i else i - 1];
      }
    }
  }

  /** The links of the queue `s` once element `k` has been bypassed. */
  ghost predicate Bypassed(h: Head, s: seq<Element>, k: nat)
    requires k < |s|
    reads h, s
  {
    && h.first == ElementAt(s, if k == 0 then 1 else 0)
    && h.last == LinkTo(h, s, if k + 1 == |s| then k else |s|)
    && (forall i {:trigger s[i].next} :: 0 <= i < |s| && i != k ==>
          s[i].next == ElementAt(s, if i + 1 == k then k + 1 else i + 1))
  }

  lemma BypassedIsQueue(h: Head, s: seq<Element>, k: nat)
    requires k < |s| && Bypassed(h, s, k)
    ensures Queue(h, s[..k] + s[k + 1..])
  {
    var t := s[..k] + s[k + 1..];
    forall i | 0 <= i < |t|
      ensures t[i].next == ElementAt(t, i + 1)
    {
      assert t[i] == s[if i < k then i else i + 1];
    }
  }

  ghost predicate Apart(h1: Head, h2: Head)
    reads h1, h2
  {
    && h1 != h2
    && forall i, j :: 0 <= i < |h1.elems| && 0 <= j < |h2.elems| ==> h1.elems[i] != h2.elems[j]
  }

  function Cell(a: Address): object {
    match a case FirstOf(h) => h case NextOf(e) => e
  }

  /** `*a` */
  function Load(a: Address): Element?
    reads Cell(a)
  {
    match a case FirstOf(h) => h.first case NextOf(e) => e.next
  }

  /** `*a = v` */
  method Store(a: Address, v: Element?)
    modifies (if a.FirstOf? then {a.head} else {})`first
    modifies (if a.NextOf? then {a.elem} else {})`next
    ensures Load(a) == v
  {
    match a
    case FirstOf(h) => h.first := v;
    case NextOf(e) => e.next := v;
  }

  // ---------------------------------------------------------------- insertion

  method Init(h: Head)
    modifies h
    ensures h.Valid() && h.elems == []
  {
    h.first := null;
    h.last := FirstOf(h);
    h.elems := [];
  }

  method InsertHead(h: Head, elm: Element)
    requires h.Valid() && elm !in h.elems
    modifies h, h.elems, elm
    ensures h.Valid() && h.elems == [elm] + old(h.elems)
  {
    QueueDistinct(h, h.elems);
    elm.next := h.first;
    if elm.next == null {
      h.last := NextOf(elm);
    }
    h.first := elm;
    SplicedInIsQueue(h, h.elems, 0, elm);
    h.elems := h.elems[..0] + [elm] + h.elems[0..];
  }

  method InsertTail(h: Head, elm: Element)
    requires h.Valid() && elm !in h.elems
    modifies h, h.elems, elm
    ensures h.Valid() && h.elems == old(h.elems) + [elm]
  {
    QueueDistinct(h, h.elems);
    var prevlast := h.last;
    elm.next := null;
    h.last := NextOf(elm);
    Store(prevlast, elm);
    ghost var n := |h.elems|;
    SplicedInIsQueue(h, h.elems, n, elm);
    h.elems := h.elems[..n] + [elm] + h.elems[n..];
  }

  method InsertAfter(h: Head, tqelm: Element, elm: Element)
    requires h.Valid() && tqelm in h.elems && elm !in h.elems
    modifies h, h.elems, elm
    ensures h.Valid()
    ensures var s, k := old(h.elems), old(IndexOf(h.elems, tqelm));
            h.elems == s[..k + 1] + [elm] + s[k + 1..]
  {
    QueueDistinct(h, h.elems);
    ghost var k := IndexOf(h.elems, tqelm) + 1;
    elm.next := tqelm.next;
    if elm.next == null {
      h.last := NextOf(elm);
    }
    tqelm.next := elm;
    SplicedInIsQueue(h, h.elems, k, elm);
    h.elems := h.elems[..k] + [elm] + h.elems[k..];
  }

  // ---------------------------------------------------------------- removal

  method RemoveHead(h: Head)
    requires h.Valid() && h.elems != []
    modifies h, h.elems
    ensures h.Valid() && h.elems == old(h.elems)[1..]
  {
    QueueDistinct(h, h.elems);
    h.first := h.first.next;
    if h.first == null {
      h.last := FirstOf(h);
    }
    BypassedIsQueue(h, h.elems, 0);
    h.elems := h.elems[..0] + h.elems[1..];
  }

  method RemoveAfter(h: Head, elm: Element, ghost k: nat)
    requires h.Valid() && k + 1 < |h.elems| && h.elems[k] == elm
    modifies h, h.elems
    ensures h.Valid() && h.elems == old(h.elems)[..k + 1] + old(h.elems)[k + 2..]
  {
    QueueDistinct(h, h.elems);
    elm.next := elm.next.next;
    if elm.next == null {
      h.last := NextOf(elm);
    }
    BypassedIsQueue(h, h.elems, k + 1);
    h.elems := h.elems[..k + 1] + h.elems[k + 2..];
  }

  method Remove(h: Head, elm: Element)
    requires h.Valid() && elm in h.elems
    modifies h, h.elems
    ensures h.Valid()
    ensures var s, k := old(h.elems), old(IndexOf(h.elems, elm));
            h.elems == s[..k] + s[k + 1..]
  {
    QueueDistinct(h, h.elems);
    ghost var k := IndexOf(h.elems, elm);
    if h.first == elm {
      RemoveHead(h);
    } else {
      var cur := h.first;
      ghost var i := 0;
      while cur.next != elm
        invariant 0 <= i < k && cur == h.elems[i]
        decreases k - i
      {
        cur := cur.next;
        i := i + 1;
      }
      RemoveAfter(h, cur, i);
    }
  }

  // ---------------------------------------------------------------- whole queues

  method Concat(h1: Head, h2: Head)
    requires h1.Valid() && h2.Valid() && Apart(h1, h2)
    modifies h1, h1.elems, h2
    ensures h1.Valid() && h2.Valid()
    ensures h1.elems == old(h1.elems) + old(h2.elems) && h2.elems == []
  {
    QueueDistinct(h1, h1.elems);
    QueueDistinct(h2, h2.elems);
    if h2.first != null {
      Store(h1.last, h2.first);
      h1.last := h2.last;
      h1.elems := h1.elems + h2.elems;
      Init(h2);
    }
  }

  /** `rest` need not be initialised: what it held is overwritten. */
  method SplitAfter(h: Head, elm: Element, rest: Head)
    requires h.Valid() && elm in h.elems && rest != h
    modifies h, h.elems, rest
    ensures h.Valid() && rest.Valid()
    ensures var s, k := old(h.elems), old(IndexOf(h.elems, elm));
            h.elems == s[..k + 1] && rest.elems == s[k + 1..]
  {
    QueueDistinct(h, h.elems);
    ghost var k := IndexOf(h.elems, elm);
    if elm.next == null {
      Init(rest);
    } else {
      rest.first := elm.next;
      rest.last := h.last;
      elm.next := null;
      h.last := NextOf(elm);
      rest.elems := h.elems[k + 1..];
      h.elems := h.elems[..k + 1];
    }
  }

  method Swap(h1: Head, h2: Head)
    requires h1.Valid() && h2.Valid()
    modifies h1, h2
    ensures h1.Valid() && h2.Valid()
    ensures h1.elems == old(h2.elems) && h2.elems == old(h1.elems)
  {
    QueueDistinct(h1, h1.elems);
    QueueDistinct(h2, h2.elems);
    var swapFirst, swapLast := h1.first, h1.last;
    h1.first := h2.first;
    h1.last := h2.last;
    h2.first := swapFirst;
    h2.last := swapLast;
    if h1.first == null {
      h1.last := FirstOf(h1);
    }
    if h2.first == null {
      h2.last := FirstOf(h2);
    }
    h1.elems, h2.elems := h2.elems, h1.elems;
  }

  ghost function Reversed(s: seq<Element>): seq<Element> {
    seq(|s|, i requires 0 <= i < |s| => s[|s| - 1 - i])
  }

  /** The links of the queue `s` once its first `i` elements have been turned round. */
  ghost predicate TurnedRound(s: seq<Element>, i: nat)
    reads s
  {
    forall j {:trigger s[j].next} :: 0 <= j < |s| ==>
      s[j].next == if j < i then (if j == 0 then null else s[j - 1]) else ElementAt(s, j + 1)
  }

  lemma TurnedRoundIsQueue(h: Head, s: seq<Element>)
    requires s != [] && Distinct(s) && TurnedRound(s, |s|)
    requires h.first == s[|s| - 1] && h.last == NextOf(s[0])
    ensures Queue(h, Reversed(s))
  {
    var t := Reversed(s);
    forall i | 0 <= i < |t|
      ensures t[i].next == ElementAt(t, i + 1)
    {
      assert t[i] == s[|s| - 1 - i];
    }
  }

  /** STAILQ_REVERSE, in place. */
  method Reverse(h: Head)
    requires h.Valid()
    modifies h, h.elems
    ensures h.Valid() && h.elems == Reversed(old(h.elems))
  {
    QueueDistinct(h, h.elems);
    if h.first == null {
      return;
    }
    var v: Element?, vp: Element? := h.first, null;
    ghost var s, i := h.elems, 0;
    while v != null
      invariant 0 <= i <= |s| && v == ElementAt(s, i) && vp == if i == 0 then null else s[i - 1]
      invariant TurnedRound(s, i)
      invariant h.first == s[0] && h.elems == s
      decreases |s| - i
    {
      var vn := v.next;
      v.next := vp;
      vp := v;
      v := vn;
      i := i + 1;
    }
    h.last := NextOf(h.first);
    h.first := vp;
    TurnedRoundIsQueue(h, s);
    h.elems := Reversed(s);
  }

  // ---------------------------------------------------------------- reading

  /** STAILQ_LAST: the element whose next-field the tail pointer addresses. */
  method Last(h: Head) returns (e: Element?)
    requires h.Valid()
    ensures e == if h.elems == [] then null else h.elems[|h.elems| - 1]
  {
    e := if h.first == null then null else h.last.elem;
  }

  /** STAILQ_FOREACH */
  method Forward(h: Head) returns (visited: seq<Element>)
    requires h.Valid()
    ensures visited == h.elems
  {
    visited := [];
    var v := h.first;
    while v != null
      invariant |visited| <= |h.elems| && visited == h.elems[..|visited|]
      invariant v == ElementAt(h.elems, |visited|)
      decreases |h.elems| - |visited|
    {
      visited := visited + [v];
      v := v.next;
    }
  }
}
