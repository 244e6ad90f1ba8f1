/** The TAILQ macros of queue.h: doubly linked tail queues whose back links are addresses of
    forward links. An address of a `struct type *` field is either the first-field of a head or
    the next-field of an element. */
module TailQueues {
  import opened Sequences

  datatype Address = FirstOf(head: Head) | NextOf(elem: Element)

  class Element {
    var next: Element?   // tqe_next
    var prev: Address    // tqe_prev

    constructor (garbage: Address)
    {
      next, prev := null, garbage;
    }
  }

  class Head {
    var first: Element?  // tqh_first
    var last: Address    // tqh_last
    ghost var elems: seq<Element>

    ghost predicate Valid()
      reads this, elems
    {
      Queue(this, elems)
    }

    constructor ()
      ensures Valid() && elems == []
    {
      first, last, elems := null, FirstOf(this), [];
    }
  }

  ghost function ElementAt(s: seq<Element>, i: nat): Element? {
    if i < |s| then s[i] else null
  }

  /** The address of the link that leads to element `i` of the queue `s` at `h`. */
  ghost function LinkTo(h: Head, s: seq<Element>, i: nat): Address
    requires i <= |s|
  {
    if i == 0 then FirstOf(h) else NextOf(s[i - 1])
  }

  /** The next/prev/last invariant: `h` heads a queue of exactly the elements `s`. */
  ghost predicate Queue(h: Head, s: seq<Element>)
    reads h, s
  {
    && h.first == ElementAt(s, 0)
    && h.last == LinkTo(h, s, |s|)
    && (forall i {:trigger s[i].next} :: 0 <= i < |s| ==> s[i].next == ElementAt(s, i + 1))
    && (forall i {:trigger s[i].prev} :: 0 <= i < |s| ==> s[i].prev == LinkTo(h, s, i))
  }

  /** A queue that ends cannot pass an element twice. */
  lemma {:induction false} QueueApart(h: Head, s: seq<Element>, i: nat, j: nat)
    requires Queue(h, s) && i < j < |s|
    ensures s[i] != s[j]
    decreases |s| - j
  {
    assert s[i].next == s[i + 1];
    assert s[j].next == ElementAt(s, j + 1);
    if j + 1 < |s| {
      QueueApart(h, s, i + 1, j + 1);
    }
  }

  lemma QueueDistinct(h: Head, s: seq<Element>)
    requires Queue(h, s)
    ensures Distinct(s)
  {
    forall i, j | 0 <= i < j < |s|
      ensures s[i] != s[j]
    {
      QueueApart(h, s, i, j);
    }
  }

  /** The links of the queue `s` once `e` has been put in front of position `k`. */
  ghost predicate SplicedIn(h: Head, s: seq<Element>, k: nat, e: Element)
    requires k <= |s|
    reads h, s, e
  {
    && h.first == (if k == 0 then e else ElementAt(s, 0))
    && h.last == (if k == |s| then NextOf(e) else LinkTo(h, s, |s|))
    && e.next == ElementAt(s, k) && e.prev == LinkTo(h, s, k)
    && (forall i {:trigger s[i].next} :: 0 <= i < |s| ==>
          s[i].next == if i + 1 == k then e else ElementAt(s, i + 1))
    && (forall i {:trigger s[i].prev} :: 0 <= i < |s| ==>
          s[i].prev == if i == k then NextOf(e) else LinkTo(h, s, i))
  }

  lemma SplicedInAt(h: Head, s: seq<Element>, k: nat, e: Element, i: nat)
    requires k <= |s| && SplicedIn(h, s, k, e) && i <= |s|
    ensures var t := s[..k] + [e] + s[k..];
            t[i].next == ElementAt(t, i + 1) && t[i].prev == LinkTo(h, t, i)
  {
    if i != k {
      var o := if i < k then i else i - 1;
      assert s[o].next == if o + 1 == k then e else ElementAt(s, o + 1);
      assert s[o].prev == if o == k then NextOf(e) else LinkTo(h, s, o);
    }
  }

  lemma SplicedInIsQueue(h: Head, s: seq<Element>, k: nat, e: Element)
    requires k <= |s| && SplicedIn(h, s, k, e)
    ensures Queue(h, s[..k] + [e] + s[k..])
  {
    var t := s[..k] + [e] + s[k..];
    forall i | 0 <= i < |t|
      ensures t[i].next == ElementAt(t, i + 1) && t[i].prev == LinkTo(h, t, i)
    {
      SplicedInAt(h, s, k, e, i);
    }
  }

  /** The links of the queue `s` once element `k` has been bypassed. */
  ghost predicate Bypassed(h: Head, s: seq<Element>, k: nat)
    requires k < |s|
    reads h, s
  {
    && h.first == ElementAt(s, if k == 0 then 1 else 0)
    && h.last == LinkTo(h, s, if k + 1 == |s| then k else |s|)
    && (forall i {:trigger s[i].next} :: 0 <= i < |s| && i != k ==>
          s[i].next == ElementAt(s, if i + 1 == k then k + 1 else i + 1))
    && (forall i {:trigger s[i].prev} :: 0 <= i < |s| && i != k ==>
          s[i].prev == LinkTo(h, s, if i == k + 1 then k else i))
  }

  lemma BypassedAt(h: Head, s: seq<Element>, k: nat, i: nat)
    requires k < |s| && Bypassed(h, s, k) && i + 1 < |s|
    ensures var t := s[..k] + s[k + 1..];
            t[i].next == ElementAt(t, i + 1) && t[i].prev == LinkTo(h, t, i)
  {
    var o := if i < k then i else i + 1;
    assert s[o].next == ElementAt(s, if o + 1 == k then k + 1 else o + 1);
    assert s[o].prev == LinkTo(h, s, if o == k + 1 then k else o);
  }

  lemma BypassedEnds(h: Head, s: seq<Element>, k: nat, t: seq<Element>)
    requires k < |s| && Bypassed(h, s, k) && t == s[..k] + s[k + 1..]
    ensures h.first == ElementAt(t, 0) && h.last == LinkTo(h, t, |t|)
  {
  }

  lemma BypassedIsQueue(h: Head, s: seq<Element>, k: nat)
    requires k < |s| && Bypassed(h, s, k)
    ensures Queue(h, s[..k] + s[k + 1..])
  {
    var t := s[..k] + s[k + 1..];
    BypassedEnds(h, s, k, t);
    forall i | 0 <= i < |t|
      ensures t[i].next == ElementAt(t, i + 1) && t[i].prev == LinkTo(h, t, i)
    {
      BypassedAt(h, s, k, i);
    }
  }

  /** The links of the queue `s` once `e` has taken the place of element `k`. */
  ghost predicate Substituted(h: Head, s: seq<Element>, k: nat, e: Element)
    requires k < |s|
    reads h, s, e
  {
    && h.first == (if k == 0 then e else ElementAt(s, 0))
    && h.last == (if k + 1 == |s| then NextOf(e) else LinkTo(h, s, |s|))
    && e.next == ElementAt(s, k + 1) && e.prev == LinkTo(h, s, k)
    && (forall i {:trigger s[i].next} :: 0 <= i < |s| && i != k ==>
          s[i].next == if i + 1 == k then e else ElementAt(s, i + 1))
    && (forall i {:trigger s[i].prev} :: 0 <= i < |s| && i != k ==>
          s[i].prev == if i == k + 1 then NextOf(e) else LinkTo(h, s, i))
  }

  lemma SubstitutedIsQueue(h: Head, s: seq<Element>, k: nat, e: Element)
    requires k < |s| && Substituted(h, s, k, e)
    ensures Queue(h, s[k := e])
  {
    var t := s[k := e];
    forall i | 0 <= i < |t|
      ensures t[i].next == ElementAt(t, i + 1) && t[i].prev == LinkTo(h, t, i)
    {
      if i != k {
        assert t[i] == s[i];
        assert s[i].next == if i + 1 == k then e else ElementAt(s, i + 1);
        assert s[i].prev == if i == k + 1 then NextOf(e) else LinkTo(h, s, i);
      }
    }
  }

  /** The links of two queues once the second has been hung behind the first. */
  ghost predicate Joined(h: Head, s: seq<Element>, t: seq<Element>)
    reads h, s, t
  {
    && t != []
    && h.first == ElementAt(s + t, 0)
    && h.last == NextOf(t[|t| - 1])
    && (forall i {:trigger s[i].next} :: 0 <= i < |s| ==>
          s[i].next == if i + 1 == |s| then t[0] else ElementAt(s, i + 1))
    && (forall i {:trigger s[i].prev} :: 0 <= i < |s| ==> s[i].prev == LinkTo(h, s, i))
    && (forall i {:trigger t[i].next} :: 0 <= i < |t| ==> t[i].next == ElementAt(t, i + 1))
    && (forall i {:trigger t[i].prev} :: 0 <= i < |t| ==>
          t[i].prev == if i == 0 then LinkTo(h, s, |s|) else NextOf(t[i - 1]))
  }

  lemma JoinedIsQueue(h: Head, s: seq<Element>, t: seq<Element>)
    requires Joined(h, s, t)
    ensures Queue(h, s + t)
  {
    var st := s + t;
    forall i | 0 <= i < |st|
      ensures st[i].next == ElementAt(st, i + 1) && st[i].prev == LinkTo(h, st, i)
    {
      if i < |s| {
        assert st[i] == s[i];
      } else {
        assert st[i] == t[i - |s|];
      }
    }
  }

  ghost predicate Apart(h1: Head, h2: Head)
    reads h1, h2
  {
    && h1 != h2
    && forall i, j :: 0 <= i < |h1.elems| && 0 <= j < |h2.elems| ==> h1.elems[i] != h2.elems[j]
  }

  // ---------------------------------------------------------------- addresses

  function Cell(a: Address): object {
    match a case FirstOf(h) => h case NextOf(e) => e
  }

  /** `*a` */
  function Load(a: Address): Element?
    reads Cell(a)
  {
    match a case FirstOf(h) => h.first case NextOf(e) => e.next
  }

  /** `*a = v` */
  method Store(a: Address, v: Element?)
    modifies (if a.FirstOf? then {a.head} else {})`first
    modifies (if a.NextOf? then {a.elem} else {})`next
    ensures Load(a) == v
  {
    match a
    case FirstOf(h) => h.first := v;
    case NextOf(e) => e.next := v;
  }

  /** `((struct headname *)a)->tqh_last`: a head and an element entry have the same layout, so
      the field behind the link at `a` is the head's last-field or the element's prev-field. */
  function LastFieldBehind(a: Address): Address
    reads Cell(a)
  {
    match a case FirstOf(h) => h.last case NextOf(e) => e.prev
  }

  // ---------------------------------------------------------------- insertion

  method Init(h: Head)
    modifies h
    ensures h.Valid() && h.elems == []
  {
    h.first := null;
    h.last := FirstOf(h);
    h.elems := [];
  }

  method InsertHead(h: Head, elm: Element)
    requires h.Valid() && elm !in h.elems
    modifies h, h.elems, elm
    ensures h.Valid() && h.elems == [elm] + old(h.elems)
  {
    QueueDistinct(h, h.elems);
    elm.next := h.first;
    if elm.next != null {
      h.first.prev := NextOf(elm);
    } else {
      h.last := NextOf(elm);
    }
    h.first := elm;
    elm.prev := FirstOf(h);
    SplicedInIsQueue(h, h.elems, 0, elm);
    h.elems := h.elems[..0] + [elm] + h.elems[0..];
  }

  method InsertTail(h: Head, elm: Element)
    requires h.Valid() && elm !in h.elems
    modifies h, h.elems, elm
    ensures h.Valid() && h.elems == old(h.elems) + [elm]
  {
    QueueDistinct(h, h.elems);
    elm.next := null;
    elm.prev := h.last;
    Store(h.last, elm);
    h.last := NextOf(elm);
    ghost var n := |h.elems|;
    SplicedInIsQueue(h, h.elems, n, elm);
    h.elems := h.elems[..n] + [elm] + h.elems[n..];
  }

  method InsertAfter(h: Head, listelm: Element, elm: Element)
    requires h.Valid() && listelm in h.elems && elm !in h.elems
    modifies h, h.elems, elm
    ensures h.Valid()
    ensures var s, k := old(h.elems), old(IndexOf(h.elems, listelm));
            h.elems == s[..k + 1] + [elm] + s[k + 1..]
  {
    QueueDistinct(h, h.elems);
    ghost var k := IndexOf(h.elems, listelm) + 1;
    elm.next := listelm.next;
    if elm.next != null {
      elm.next.prev := NextOf(elm);
    } else {
      h.last := NextOf(elm);
    }
    listelm.next := elm;
    elm.prev := NextOf(listelm);
    SplicedInIsQueue(h, h.elems, k, elm);
    h.elems := h.elems[..k] + [elm] + h.elems[k..];
  }

  /** The macro is not given the head: it reaches it, if need be, through the back link. */
  method InsertBefore(listelm: Element, elm: Element, ghost h: Head)
    requires h.Valid() && listelm in h.elems && elm !in h.elems
    modifies h, h.elems, elm
    ensures h.Valid()
    ensures var s, k := old(h.elems), old(IndexOf(h.elems, listelm));
            h.elems == s[..k] + [elm] + s[k..]
  {
    QueueDistinct(h, h.elems);
    ghost var k := IndexOf(h.elems, listelm);
    elm.prev := listelm.prev;
    elm.next := listelm;
    Store(listelm.prev, elm);
    listelm.prev := NextOf(elm);
    SplicedInIsQueue(h, h.elems, k, elm);
    h.elems := h.elems[..k] + [elm] + h.elems[k..];
  }

  // ---------------------------------------------------------------- removal and replacement

  /** Once an element has been bypassed, the rest is the queue. */
  ghost method Drop(h: Head, k: nat)
    requires k < |h.elems| && Bypassed(h, h.elems, k) && Distinct(h.elems)
    modifies h`elems
    ensures h.Valid() && old(h.elems)[k] !in h.elems
    ensures h.elems == old(h.elems)[..k] + old(h.elems)[k + 1..]
  {
    var s := h.elems;
    BypassedIsQueue(h, s, k);
    h.elems := s[..k] + s[k + 1..];
    assert forall i :: 0 <= i < |h.elems| ==> h.elems[i] == s[if i < k then i else i + 1];
  }

  method Remove(h: Head, elm: Element)
    requires h.Valid() && elm in h.elems
    modifies h, h.elems
    ensures h.Valid() && elm !in h.elems
    ensures var s, k := old(h.elems), old(IndexOf(h.elems, elm));
            h.elems == s[..k] + s[k + 1..]
  {
    QueueDistinct(h, h.elems);
    ghost var k := IndexOf(h.elems, elm);
    if elm.next != null {
      elm.next.prev := elm.prev;
    } else {
      h.last := elm.prev;
    }
    Store(elm.prev, elm.next);
    Drop(h, k);
  }

  method Replace(h: Head, elm: Element, elm2: Element)
    requires h.Valid() && elm in h.elems && elm2 !in h.elems
    modifies h, h.elems, elm2
    ensures h.Valid()
    ensures h.elems == old(h.elems)[old(IndexOf(h.elems, elm)) := elm2]
  {
    QueueDistinct(h, h.elems);
    ghost var k := IndexOf(h.elems, elm);
    elm2.next := elm.next;
    if elm2.next != null {
      elm2.next.prev := NextOf(elm2);
    } else {
      h.last := NextOf(elm2);
    }
    elm2.prev := elm.prev;
    Store(elm2.prev, elm2);
    SubstitutedIsQueue(h, h.elems, k, elm2);
    h.elems := h.elems[k := elm2];
  }

  // ---------------------------------------------------------------- whole queues

  method Concat(h1: Head, h2: Head)
    requires h1.Valid() && h2.Valid() && Apart(h1, h2)
    modifies h1, h1.elems, h2, h2.elems
    ensures h1.Valid() && h2.Valid()
    ensures h1.elems == old(h1.elems) + old(h2.elems) && h2.elems == []
  {
    QueueDistinct(h1, h1.elems);
    QueueDistinct(h2, h2.elems);
    if h2.first != null {
      Store(h1.last, h2.first);
      h2.first.prev := h1.last;
      h1.last := h2.last;
      JoinedIsQueue(h1, h1.elems, h2.elems);
      h1.elems := h1.elems + h2.elems;
      Init(h2);
    }
  }

  /** `rest` need not be initialised: what it held is overwritten. */
  method SplitAfter(h: Head, elm: Element, rest: Head)
    requires h.Valid() && elm in h.elems && rest != h
    modifies h, h.elems, rest
    ensures h.Valid() && rest.Valid()
    ensures var s, k := old(h.elems), old(IndexOf(h.elems, elm));
            h.elems == s[..k + 1] && rest.elems == s[k + 1..]
  {
    QueueDistinct(h, h.elems);
    ghost var k := IndexOf(h.elems, elm);
    if elm.next == null {
      Init(rest);
    } else {
      rest.first := elm.next;
      rest.last := h.last;
      elm.next.prev := FirstOf(rest);
      elm.next := null;
      h.last := NextOf(elm);
      rest.elems := h.elems[k + 1..];
      h.elems := h.elems[..k + 1];
    }
  }

  /** The links of the queue `s` at `h`, except for the address of `h` itself. */
  ghost predicate Unanchored(h: Head, s: seq<Element>)
    reads h, s
  {
    && h.first == ElementAt(s, 0)
    && (s != [] ==> h.last == NextOf(s[|s| - 1]))
    && (forall i {:trigger s[i].next} :: 0 <= i < |s| ==> s[i].next == ElementAt(s, i + 1))
    && (forall i {:trigger s[i].prev} :: 0 < i < |s| ==> s[i].prev == NextOf(s[i - 1]))
  }

  method Anchor(h: Head)
    requires Unanchored(h, h.elems) && Distinct(h.elems)
    modifies h`last, (if h.first == null then {} else {h.first})`prev
    ensures h.Valid()
  {
    var first := h.first;
    if first != null {
      first.prev := FirstOf(h);
    } else {
      h.last := FirstOf(h);
    }
  }

  /** The fields of the two heads change places. */
  method Exchange(h1: Head, h2: Head)
    requires h1.Valid() && h2.Valid()
    modifies h1, h2
    ensures Unanchored(h1, h1.elems) && Unanchored(h2, h2.elems)
    ensures h1.elems == old(h2.elems) && h2.elems == old(h1.elems)
  {
    var swapFirst, swapLast := h1.first, h1.last;
    h1.first := h2.first;
    h1.last := h2.last;
    h2.first := swapFirst;
    h2.last := swapLast;
    h1.elems, h2.elems := h2.elems, h1.elems;
  }

  method Swap(h1: Head, h2: Head)
    requires h1.Valid() && h2.Valid() && (h1 == h2 || Apart(h1, h2))
    modifies h1, h1.elems, h2, h2.elems
    ensures h1.Valid() && h2.Valid()
    ensures h1.elems == old(h2.elems) && h2.elems == old(h1.elems)
  {
    QueueDistinct(h1, h1.elems);
    QueueDistinct(h2, h2.elems);
    Exchange(h1, h2);
    Anchor(h1);
    Anchor(h2);
  }

  /** Splitting after the old last element undoes a concatenation, link by link. */
  method ConcatThenSplit(h1: Head, h2: Head)
    requires h1.Valid() && h2.Valid() && Apart(h1, h2)
    requires h1.elems != [] && h2.elems != []
    modifies h1, h1.elems, h2, h2.elems
    ensures h1.Valid() && h2.Valid()
    ensures h1.elems == old(h1.elems) && h2.elems == old(h2.elems)
    ensures h1.first == old(h1.first) && h1.last == old(h1.last)
    ensures h2.first == old(h2.first) && h2.last == old(h2.last)
    ensures forall e :: e in h1.elems + h2.elems ==> e.next == old(e.next) && e.prev == old(e.prev)
  {
    var oldLast := Last(h1);
    ghost var m := |h1.elems|;
    Concat(h1, h2);
    QueueDistinct(h1, h1.elems);
    assert h1.elems[m - 1] == oldLast;
    SplitAfter(h1, oldLast, h2);
  }

  // ---------------------------------------------------------------- reading both ways

  /** TAILQ_LAST */
  method Last(h: Head) returns (e: Element?)
    requires h.Valid()
    ensures e == if h.elems == [] then null else h.elems[|h.elems| - 1]
  {
    e := Load(LastFieldBehind(h.last));
  }

  /** TAILQ_PREV */
  method Prev(elm: Element, ghost h: Head) returns (e: Element?)
    requires h.Valid() && elm in h.elems
    ensures var k := IndexOf(h.elems, elm);
            e == if k == 0 then null else h.elems[k - 1]
  {
    ghost var k := IndexOf(h.elems, elm);
    assert k > 0 ==> h.elems[k - 1].prev == LinkTo(h, h.elems, k - 1);
    assert k > 1 ==> h.elems[k - 2].next == h.elems[k - 1];
    e := Load(LastFieldBehind(elm.prev));
  }

  /** TAILQ_FOREACH */
  method Forward(h: Head) returns (visited: seq<Element>)
    requires h.Valid()
    ensures visited == h.elems
  {
    visited := [];
    var v := h.first;
    while v != null
      invariant |visited| <= |h.elems| && visited == h.elems[..|visited|]
      invariant v == ElementAt(h.elems, |visited|)
      decreases |h.elems| - |visited|
    {
      visited := visited + [v];
      v := v.next;
    }
  }

  /** TAILQ_FOREACH_REVERSE */
  method Backward(h: Head) returns (visited: seq<Element>)
    requires h.Valid()
    ensures |visited| == |h.elems|
    ensures forall i :: 0 <= i < |visited| ==> visited[i] == h.elems[|h.elems| - 1 - i]
  {
    QueueDistinct(h, h.elems);
    visited := [];
    var v := Last(h);
    while v != null
      invariant |visited| <= |h.elems|
      invariant forall i :: 0 <= i < |visited| ==> visited[i] == h.elems[|h.elems| - 1 - i]
      invariant v == if |visited| == |h.elems| then null else h.elems[|h.elems| - 1 - |visited|]
      decreases |h.elems| - |visited|
    {
      visited := visited + [v];
      v := Prev(v, h);
    }
  }
}
