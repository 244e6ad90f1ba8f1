/** aesdsocket.c: the SLIST of connection nodes, the reaper and the accept loop.
    `live` holds the nodes that are allocated and not freed; the walks read and link a node only through
    members that require it to be live. */
module ConnectionRegistry {
  import opened Sequences

  class Node {
    var done: bool
    var next: Node?

    constructor ()
      ensures !done
    {
      done, next := false, null;
    }
  }

  ghost function NodeAt(s: seq<Node>, i: nat): Node? {
    if i < |s| then s[i] else null
  }

  /** Each node of `s` links to the one after it, the last to none. */
  ghost predicate Chained(s: seq<Node>)
    reads s
  {
    forall i {:trigger s[i].next} :: 0 <= i < |s| ==> s[i].next == NodeAt(s, i + 1)
  }

  /** A chain that ends cannot pass a node twice. */
  lemma {:induction false} ChainedApart(s: seq<Node>, i: nat, j: nat)
    requires Chained(s) && i < j < |s|
    ensures s[i] != s[j]
    decreases |s| - j
  {
    assert s[i].next == s[i + 1];
    assert s[j].next == NodeAt(s, j + 1);
    if j + 1 < |s| {
      ChainedApart(s, i + 1, j + 1);
    }
  }

  lemma ChainedDistinct(s: seq<Node>)
    requires Chained(s)
    ensures Distinct(s)
  {
    forall i, j | 0 <= i < j < |s|
      ensures s[i] != s[j]
    {
      ChainedApart(s, i, j);
    }
  }

  /** What one turn of the accept loop meets. */
  datatype Event = AcceptFails | NoMemory | ThreadFails | Starts

  function Started(events: seq<Event>): nat {
    if events == [] then 0
    else Started(events[..|events| - 1]) + if events[|events| - 1] == Starts then 1 else 0
  }

  /** The elements of `s` whose mark is `v`, in order. */
  ghost function Select(s: seq<Node>, marks: seq<bool>, v: bool): seq<Node>
    requires |marks| == |s|
  {
    if s == [] then []
    else
      var m := |s| - 1;
      Select(s[..m], marks[..m], v) + if marks[m] == v then [s[m]] else []
  }

  lemma SelectAppend(s: seq<Node>, marks: seq<bool>, n: Node, mark: bool)
    requires |marks| == |s|
    ensures var gone, kept := Select(s, marks, true), Select(s, marks, false);
            && Select(s + [n], marks + [mark], true) == (if mark then gone + [n] else gone)
            && Select(s + [n], marks + [mark], false) == (if mark then kept else kept + [n])
  {
    assert (s + [n])[..|s|] == s && (marks + [mark])[..|s|] == marks;
  }

  lemma Associates(s: seq<Node>, t: seq<Node>, u: seq<Node>)
    ensures s + (t + u) == (s + t) + u
  {
  }

  lemma RestStep(kept: seq<Node>, past: seq<Node>, rest: seq<Node>, node: Node, tail: seq<Node>)
    requires rest != [] && node == rest[0] && tail == rest[1..]
    ensures kept + rest == kept + [node] + tail && past + rest == past + [node] + tail
    ensures node in rest && forall n :: n in tail ==> n in rest
  {
    assert rest == [node] + tail;
  }

  /** Nothing is lost or listed twice: an element is selected exactly by its own mark. */
  lemma {:induction false} SelectMembers(s: seq<Node>, marks: seq<bool>, i: nat, v: bool)
    requires |marks| == |s| && Distinct(s) && i < |s|
    ensures s[i] in Select(s, marks, v) <==> marks[i] == v
    decreases |s|
  {
    var m := |s| - 1;
    if i < m {
      SelectMembers(s[..m], marks[..m], i, v);
    } else {
      SelectWithin(s[..m], marks[..m], v);
    }
  }

  lemma {:induction false} SelectWithin(s: seq<Node>, marks: seq<bool>, v: bool)
    requires |marks| == |s|
    ensures forall n :: n in Select(s, marks, v) ==> n in s
    decreases |s|
  {
    if s == [] {
    } else {
      SelectWithin(s[..|s| - 1], marks[..|s| - 1], v);
    }
  }

  /** So after a walk a node stays exactly if it was not seen done. */
  lemma KeptByMark(s: seq<Node>, marks: seq<bool>)
    requires |marks| == |s| && Distinct(s)
    ensures forall i :: 0 <= i < |s| ==> (s[i] in Select(s, marks, false) <==> !marks[i])
    ensures |Select(s, marks, false)| + |Select(s, marks, true)| == |s|
  {
    forall i | 0 <= i < |s|
      ensures s[i] in Select(s, marks, false) <==> !marks[i]
    {
      SelectMembers(s, marks, i, false);
    }
    SelectCounts(s, marks);
  }

  lemma {:induction false} SelectCounts(s: seq<Node>, marks: seq<bool>)
    requires |marks| == |s|
    ensures |Select(s, marks, true)| + |Select(s, marks, false)| == |s|
    decreases |s|
  {
    if s == [] {
    } else {
      SelectCounts(s[..|s| - 1], marks[..|s| - 1]);
    }
  }

  /** `before` and `begun` are, each node as often, `after` and `gone`. */
  ghost predicate Accounted(before: seq<Node>, begun: seq<Node>, after: seq<Node>, gone: seq<Node>) {
    multiset(before) + multiset(begun) == multiset(after) + multiset(gone)
  }

  lemma AccountsJoin(before: seq<Node>, begun: seq<Node>, mid: seq<Node>, gone: seq<Node>,
                     more: seq<Node>, after: seq<Node>, less: seq<Node>)
    requires Accounted(before, begun, mid, gone) && Accounted(mid, more, after, less)
    ensures Accounted(before, begun + more, after, gone + less)
  {
    var a, b, m, g := multiset(before), multiset(begun), multiset(mid), multiset(gone);
    var o, c, l := multiset(more), multiset(after), multiset(less);
    assert a + (b + o) == (m + g) + o;
    assert c + (g + l) == (m + o) + g;
  }

  lemma EmptyEnd(s: seq<Node>)
    ensures s + [] == s
  {
  }

  lemma AccountOne(before: seq<Node>, kept: seq<Node>, gone: seq<Node>, n: Node)
    requires Accounted(before, [], kept, gone)
    ensures Accounted(before + [n], [], kept + [n], gone) && Accounted(before + [n], [], kept, gone + [n])
  {
    var b, k, g, one := multiset(before), multiset(kept), multiset(gone), multiset([n]);
    assert b == k + g by {
      assert b + multiset([]) == b;
    }
    assert (b + one) + multiset([]) == (k + one) + g == k + (g + one);
  }

  /** The two selections together are the list, each node as often as before. */
  lemma {:induction false} SelectAccounts(s: seq<Node>, marks: seq<bool>)
    requires |marks| == |s|
    ensures Accounted(s, [], Select(s, marks, false), Select(s, marks, true))
    decreases |s|
  {
    if s == [] {
    } else {
      var m := |s| - 1;
      SelectAccounts(s[..m], marks[..m]);
      AccountOne(s[..m], Select(s[..m], marks[..m], false), Select(s[..m], marks[..m], true), s[m]);
      EmptyEnd(Select(s[..m], marks[..m], false));
      EmptyEnd(Select(s[..m], marks[..m], true));
      assert s == s[..m] + [s[m]];
    }
  }

  /** Nodes that were all different at first, with new ones, and are accounted for: none has gone twice. */
  lemma GoneOnce(before: seq<Node>, begun: seq<Node>, after: seq<Node>, gone: seq<Node>)
    requires Accounted(before, begun, after, gone) && Distinct(before) && Distinct(begun)
    requires forall n :: n in before ==> n !in begun
    ensures Distinct(gone)
  {
    DistinctConcat(before, begun);
    assert multiset(before + begun) == multiset(after) + multiset(gone);
    FewerIsDistinct(before + begun, gone);
  }

  /** A node that was listed and is not listed any more has gone. */
  lemma GoneIfNotListed(before: seq<Node>, begun: seq<Node>, after: seq<Node>, gone: seq<Node>)
    requires Accounted(before, begun, after, gone)
    ensures forall n :: n in before && n !in after ==> n in gone
  {
    forall n | n in before && n !in after
      ensures n in gone
    {
      assert n in multiset(before) && n !in multiset(after);
      assert n in multiset(after) + multiset(gone);
    }
  }

  class Registry {
    var first: Node?
    ghost var nodes: seq<Node>
    ghost var live: set<Node>
    ghost var joined: seq<Node>   // pthread_join calls, in order
    ghost var freed: seq<Node>    // free calls, in order

    ghost predicate Linked()
      reads this, nodes
    {
      first == NodeAt(nodes, 0) && Chained(nodes)
    }

    /** The list is well linked and holds exactly the live nodes. */
    ghost predicate Valid()
      reads this, nodes
    {
      Linked() && live == set n | n in nodes
    }

    constructor ()
      ensures Valid() && nodes == [] && joined == [] && freed == []
    {
      first, nodes, live, joined, freed := null, [], {}, [], [];
    }

    // ---------------------------------------------------------------- nodes

    function Next(n: Node): Node?
      requires n in live
      reads this, n
    {
      n.next
    }

    method SetNext(n: Node, next: Node?)
      requires n in live
      modifies n`next
      ensures n.next == next
    {
      n.next := next;
    }

    predicate IsDone(n: Node)
      requires n in live
      reads this, n
    {
      n.done
    }

    method Join(n: Node)
      requires n in live && n.done
      modifies this`joined
      ensures joined == old(joined) + [n]
    {
      joined := joined + [n];
    }

    method Free(n: Node)
      requires n in live && n !in nodes
      modifies this`live, this`freed
      ensures live == old(live) - {n} && freed == old(freed) + [n]
    {
      live, freed := live - {n}, freed + [n];
    }

    /** Connection threads set the flags of some listed nodes at any time, and never clear one. */
    method OtherThreads()
      requires Linked() && forall n :: n in nodes ==> n in live
      modifies nodes`done
      ensures forall n: Node :: old(allocated(n)) && old(n.done) ==> n.done
    {
      var n := first;
      ghost var i := 0;
      while n != null
        invariant 0 <= i <= |nodes| && n == NodeAt(nodes, i)
        invariant forall n: Node :: old(allocated(n)) && old(n.done) ==> n.done
        decreases |nodes| - i
      {
        if * {
          n.done := true;
        }
        n := Next(n);
        i := i + 1;
      }
    }

    // ---------------------------------------------------------------- SLIST macros

    method InsertHead(n: Node)
      requires Linked() && n !in nodes
      modifies this`first, this`nodes, n`next
      ensures Linked() && nodes == [n] + old(nodes)
    {
      n.next := first;
      first := n;
      ghost var s := nodes;
      nodes := [n] + nodes;
      assert forall i :: 0 < i < |nodes| ==> nodes[i] == s[i - 1];
    }

    ghost predicate Bypassed(k: nat)
      requires k < |nodes|
      reads this, nodes
    {
      && first == NodeAt(nodes, if k == 0 then 1 else 0)
      && (forall i {:trigger nodes[i].next} :: 0 <= i < |nodes| && i != k ==>
            nodes[i].next == NodeAt(nodes, if i + 1 == k then k + 1 else i + 1))
    }

    ghost method Unlist(k: nat)
      requires k < |nodes| && Bypassed(k) && Distinct(nodes)
      modifies this`nodes
      ensures Linked() && nodes == old(nodes)[..k] + old(nodes)[k + 1..] && old(nodes)[k] !in nodes
    {
      ghost var s := nodes;
      nodes := s[..k] + s[k + 1..];
      forall i | 0 <= i < |nodes|
        ensures nodes[i].next == NodeAt(nodes, i + 1)
      {
        assert nodes[i] == s[if i < k then i else i + 1];
      }
    }

    /** SLIST_REMOVE: walks from the head to the predecessor of `n`. */
    method Remove(n: Node, ghost k: nat)
      requires Linked() && k < |nodes| && nodes[k] == n && forall m :: m in nodes ==> m in live
      modifies this`first, this`nodes, nodes`next
      ensures Linked() && nodes == old(nodes)[..k] + old(nodes)[k + 1..] && n !in nodes
      ensures n.next == old(n.next)
    {
      ChainedDistinct(nodes);
      if first == n {
        first := Next(n);
      } else {
        var cur := first;
        ghost var i := 0;
        while Next(cur) != n
          invariant 0 <= i < k && cur == nodes[i]
          decreases k - i
        {
          cur := Next(cur);
          i := i + 1;
        }
        SetNext(cur, Next(Next(cur)));
      }
      Unlist(k);
    }

    // ---------------------------------------------------------------- reap_threads

    /** The body of the SLIST_FOREACH_SAFE loop: the successor is read before the node may go. */
    method Visit(cur: Node, ghost kept: seq<Node>, ghost rest: seq<Node>) returns (tmp: Node?, reaped: bool)
      requires Valid() && nodes == kept + [cur] + rest
      modifies this, live
      ensures live <= old(live)
      ensures Valid()
      ensures tmp == NodeAt(rest, 0)
      ensures reaped == cur.done
      ensures nodes == if reaped then kept + rest else kept + [cur] + rest
      ensures forall n: Node :: old(allocated(n)) && old(n.done) ==> n.done
      ensures joined == if reaped then old(joined) + [cur] else old(joined)
      ensures freed == if reaped then old(freed) + [cur] else old(freed)
    {
      ghost var s, k := nodes, |kept|;
      ChainedDistinct(nodes);
      assert s[k] == cur && s[..k] + s[k + 1..] == kept + rest && NodeAt(s, k + 1) == NodeAt(rest, 0);
      tmp := Next(cur);
      OtherThreads();
      reaped := IsDone(cur);
      if reaped {
        Join(cur);
        Remove(cur, k);
        Free(cur);
        LiveAfterRemoval(s, k);
      }
    }

    static lemma LiveAfterRemoval(s: seq<Node>, k: nat)
      requires k < |s| && Distinct(s)
      ensures var t := s[..k] + s[k + 1..];
              (set n | n in t) == (set n | n in s) - {s[k]}
    {
      var t := s[..k] + s[k + 1..];
      forall n | n in s && n != s[k]
        ensures n in t
      {
        var i :| 0 <= i < |s| && s[i] == n;
        assert t[if i < k then i else i - 1] == n;
      }
    }

    /** The SLIST_FOREACH_SAFE loop; `seen[i]` tells whether it saw the i-th node done. */
    method Walk() returns (count: nat, ghost seen: seq<bool>)
      requires Valid()
      modifies this, live
      ensures Valid() && live <= old(live)
      ensures |seen| == |old(nodes)|
      ensures nodes == Select(old(nodes), seen, false)
      ensures forall n :: n in old(nodes) && old(n.done) ==> n !in nodes
      ensures forall n: Node :: old(allocated(n)) && old(n.done) ==> n.done
      ensures var gone := Select(old(nodes), seen, true);
              && (forall n :: n in gone ==> n.done)
              && joined == old(joined) + gone
              && freed == old(freed) + gone
              && count == |gone|
    {
      ghost var s := nodes;
      ghost var doneAtEntry := set n | n in s && n.done;
      ghost var joined0, freed0 := joined, freed;
      ghost var past: seq<Node>, rest: seq<Node> := [], nodes;
      ghost var kept: seq<Node>, gone: seq<Node> := [], [];
      count, seen := 0, [];
      var cur := first;
      while cur != null
        invariant s == past + rest && cur == NodeAt(rest, 0)
        invariant Valid() && live <= old(live) && nodes == kept + rest
        invariant forall n :: n in kept ==> n !in doneAtEntry
        invariant forall n: Node :: old(allocated(n)) && old(n.done) ==> n.done
        invariant forall n :: n in gone ==> n.done
        invariant |seen| == |past|
        invariant kept == Select(past, seen, false) && gone == Select(past, seen, true)
        invariant joined == joined0 + gone && freed == freed0 + gone
        invariant count == |gone|
        decreases |rest|
      {
        ghost var node: Node, tail := cur, rest[1..];
        RestStep(kept, past, rest, node, tail);
        var tmp, reaped := Visit(cur, kept, tail);
        assert forall n :: n in gone ==> n.done;
        SelectAppend(past, seen, node, reaped);
        past, seen := past + [node], seen + [reaped];
        if reaped {
          Associates(joined0, gone, [node]);
          Associates(freed0, gone, [node]);
          count, gone := count + 1, gone + [node];
        } else {
          kept := kept + [node];
        }
        cur, rest := tmp, tail;
      }
      assert past == s && nodes == kept;
    }

    /** reap_threads: nodes seen done are joined and freed in list order, the others stay in list order;
        none that was done at entry stays. */
    method Reap() returns (count: nat, ghost seen: seq<bool>)
      requires Valid()
      modifies this, live
      ensures Valid() && live <= old(live)
      ensures |seen| == |old(nodes)|
      ensures nodes == Select(old(nodes), seen, false) && |nodes| + count == |old(nodes)|
      ensures forall i :: 0 <= i < |seen| ==> (old(nodes)[i] in nodes <==> !seen[i])
      ensures forall n :: n in old(nodes) && old(n.done) ==> n !in nodes
      ensures forall n: Node :: old(allocated(n)) && old(n.done) ==> n.done
      ensures var gone := Select(old(nodes), seen, true);
              && (forall n :: n in gone ==> n.done)
              && joined == old(joined) + gone
              && freed == old(freed) + gone
              && count == |gone|
    {
      ghost var s := nodes;
      ChainedDistinct(s);
      count, seen := Walk();
      KeptByMark(s, seen);
    }

    // ---------------------------------------------------------------- the accept loop

    /** malloc and SLIST_INSERT_HEAD of a new node. */
    method Enlist() returns (n: Node)
      requires Valid()
      modifies this
      ensures Valid() && fresh(n) && !n.done && nodes == [n] + old(nodes) && live == old(live) + {n}
      ensures joined == old(joined) && freed == old(freed)
    {
      n := new Node();
      InsertHead(n);
      live := live + {n};
    }

    /** SLIST_REMOVE and free of a node whose thread could not be created. */
    method Discard(n: Node)
      requires Valid() && nodes != [] && nodes[0] == n
      modifies this, live
      ensures Valid() && nodes == old(nodes)[1..] && live == old(live) - {n}
      ensures joined == old(joined) && freed == old(freed) + [n]
      ensures forall n: Node :: old(allocated(n)) && old(n.done) ==> n.done
    {
      ChainedDistinct(nodes);
      LiveAfterRemoval(nodes, 0);
      Remove(n, 0);
      Free(n);
    }

    /** reap_threads, with the nodes that went. */
    method ReapSome() returns (count: nat, ghost gone: seq<Node>)
      requires Valid()
      modifies this, live
      ensures Valid() && live <= old(live)
      ensures count == |gone| && Accounted(old(nodes), [], nodes, gone)
      ensures joined == old(joined) + gone && freed == old(freed) + gone
      ensures forall n :: n in nodes ==> n in old(nodes) && !old(n.done)
      ensures forall n: Node :: old(allocated(n)) && old(n.done) ==> n.done
    {
      ghost var seen;
      count, seen := Reap();
      gone := Select(old(nodes), seen, true);
      SelectAccounts(old(nodes), seen);
      SelectWithin(old(nodes), seen, false);
    }

    /** One turn of the accept loop: it lists `made`, which is `begun` once its thread runs, and frees
        `released`, which are the nodes joined, `gone`, or a node whose thread could not be created. Once
        a thread has been started, no node that was done before stays. */
    method Turn(event: Event)
      returns (count: nat, ghost begun: seq<Node>, ghost gone: seq<Node>, ghost made: seq<Node>,
               ghost released: seq<Node>)
      requires Valid()
      modifies this, live
      ensures Valid() && forall n :: n in live ==> n in old(live) || fresh(n)
      ensures |made| == (if event == Starts || event == ThreadFails then 1 else 0) && forall n :: n in made ==> fresh(n)
      ensures begun == (if event == Starts then made else [])
      ensures count == |gone| && joined == old(joined) + gone
      ensures released == (if event == ThreadFails then made else gone) && freed == old(freed) + released
      ensures event != Starts ==> gone == [] && nodes == old(nodes)
      ensures event == Starts ==> forall n :: n in old(nodes) && old(n.done) ==> n !in nodes && n in gone
      ensures Accounted(old(nodes), begun, nodes, gone) && Accounted(old(nodes), made, nodes, released)
      ensures forall n: Node :: old(allocated(n)) && old(n.done) ==> n.done
    {
      count, begun, gone, made, released := 0, [], [], [], [];
      match event
      case AcceptFails =>
      case NoMemory =>
      case ThreadFails =>
        var n := Enlist();
        Discard(n);
        made, released := [n], [n];
      case Starts =>
        var n := Enlist();
        begun := [n];
        count, gone := ReapSome();
        made, released := begun, gone;
        AccountsJoin(old(nodes), [n], [n] + old(nodes), [], [], nodes, gone);
        assert [] + gone == gone && [n] + [] == [n];
        GoneIfNotListed(old(nodes), made, nodes, gone);
    }

    /** The accept loop. */
    method Accept(events: seq<Event>)
      returns (started: nat, reaped: nat, ghost begun: seq<Node>, ghost gone: seq<Node>, ghost made: seq<Node>,
               ghost released: seq<Node>)
      requires Valid()
      modifies this, live
      ensures Valid() && started == Started(events) == |begun|
      ensures forall n :: n in live ==> n in old(live) || fresh(n)
      ensures reaped == |gone| && joined == old(joined) + gone && freed == old(freed) + released
      ensures Accounted(old(nodes), begun, nodes, gone) && Accounted(old(nodes), made, nodes, released)
      ensures forall n :: n in begun ==> n in made
      ensures forall n :: n in gone ==> n in released
      ensures Distinct(begun) && Distinct(made) && forall n :: n in made ==> fresh(n)
      ensures forall n: Node :: old(allocated(n)) && old(n.done) ==> n.done
    {
      started, reaped, begun, gone, made, released := 0, 0, [], [], [], [];
      ghost var more: seq<Node>, less: seq<Node>, listed: seq<Node>, dropped: seq<Node>;
      var count;
      for i := 0 to |events|
        invariant Valid() && started == Started(events[..i]) == |begun|
        invariant reaped == |gone| && joined == old(joined) + gone && freed == old(freed) + released
        invariant Accounted(old(nodes), begun, nodes, gone) && Accounted(old(nodes), made, nodes, released)
        invariant forall n :: n in begun ==> n in made
        invariant forall n :: n in gone ==> n in released
        invariant Distinct(begun) && Distinct(made) && forall n :: n in made ==> fresh(n)
        invariant forall n :: n in live ==> n in old(live) || fresh(n)
        invariant forall n: Node :: old(allocated(n)) && old(n.done) ==> n.done
      {
        assert events[..i + 1][..i] == events[..i];
        ghost var mid := nodes;
        count, more, less, listed, dropped := Turn(events[i]);
        AccountsJoin(old(nodes), begun, mid, gone, more, nodes, less);
        AccountsJoin(old(nodes), made, mid, released, listed, nodes, dropped);
        Associates(old(joined), gone, less);
        Associates(old(freed), released, dropped);
        DistinctConcat(begun, more);
        DistinctConcat(made, listed);
        started := if events[i] == Starts then started + 1 else started;
        reaped, begun, gone := reaped + count, begun + more, gone + less;
        made, released := made + listed, released + dropped;
      }
      assert events[..|events|] == events;
    }

    /** Over any run of the accept loop and the last reaping, the nodes listed before and those begun are,
        each once, those still listed and those gone; the latter were joined in order, each once, and
        counted, and none that was done at first is still listed. Likewise the nodes listed before and
        those made are those still listed and those freed, each once. */
    method Serve(events: seq<Event>)
      returns (started: nat, reaped: nat, ghost begun: seq<Node>, ghost gone: seq<Node>, ghost made: seq<Node>,
               ghost released: seq<Node>)
      requires Valid()
      modifies this, live
      ensures Valid()
      ensures started == Started(events) == |begun| && forall n :: n in made ==> fresh(n)
      ensures Distinct(begun) && Distinct(gone) && Distinct(made) && Distinct(released)
      ensures reaped == |gone| && joined == old(joined) + gone && freed == old(freed) + released
      ensures Accounted(old(nodes), begun, nodes, gone) && Accounted(old(nodes), made, nodes, released)
      ensures forall n :: n in begun ==> n in made
      ensures forall n :: n in gone ==> n in released
      ensures forall n :: n in old(nodes) && old(n.done) ==> n !in nodes && n in gone
    {
      ChainedDistinct(nodes);
      started, reaped, begun, gone, made, released := Accept(events);
      ghost var mid := nodes;
      var count;
      ghost var less;
      count, less := ReapSome();
      AccountsJoin(old(nodes), begun, mid, gone, [], nodes, less);
      AccountsJoin(old(nodes), made, mid, released, [], nodes, less);
      assert begun + [] == begun && made + [] == made;
      reaped, gone, released := reaped + count, gone + less, released + less;
      GoneOnce(old(nodes), begun, nodes, gone);
      GoneOnce(old(nodes), made, nodes, released);
      GoneIfNotListed(old(nodes), begun, nodes, gone);
    }
  }
}
