/** Byte strings, lists of byte strings joined end to end, and the sums of their lengths. */
module ByteStreams {

  // One char stands for one byte.
  type Bytes = seq<char>

  datatype Option<+T> = None | Some(value: T)

  predicate HasNewline(b: Bytes) {
    '\n' in b
  }

  /** The strings of `cmds` joined end to end. */
  function Flat(cmds: seq<Bytes>): Bytes {
    if cmds == [] then [] else Flat(cmds[..|cmds| - 1]) + cmds[|cmds| - 1]
  }

  function Sum(sizes: seq<nat>): nat {
    if sizes == [] then 0 else Sum(sizes[..|sizes| - 1]) + sizes[|sizes| - 1]
  }

  function Sizes(cmds: seq<Bytes>): seq<nat> {
    seq(|cmds|, i requires 0 <= i < |cmds| => |cmds[i]|)
  }

  lemma FlatAppend(cmds: seq<Bytes>, c: Bytes)
    ensures Flat(cmds + [c]) == Flat(cmds) + c
  {
    assert (cmds + [c])[..|cmds|] == cmds;
  }

  lemma FlatOne(c: Bytes)
    ensures Flat([c]) == c
  {
    assert [c][..0] == [];
  }

  lemma ConcatAssociates(a: Bytes, b: Bytes, c: Bytes)
    ensures (a + b) + c == a + (b + c)
  {
  }

  lemma {:induction false} FlatConcat(a: seq<Bytes>, b: seq<Bytes>)
    ensures Flat(a + b) == Flat(a) + Flat(b)
    decreases |b|
  {
    if b == [] {
      assert a + b == a;
    } else {
      var m := |b| - 1;
      assert a + b == (a + b[..m]) + [b[m]];
      FlatAppend(a + b[..m], b[m]);
      FlatConcat(a, b[..m]);
      ConcatAssociates(Flat(a), Flat(b[..m]), b[m]);
    }
  }

  lemma {:induction false} SumConcat(a: seq<nat>, b: seq<nat>)
    ensures Sum(a + b) == Sum(a) + Sum(b)
    decreases |b|
  {
    if b == [] {
      assert a + b == a;
    } else {
      var m := |b| - 1;
      assert (a + b)[..|a + b| - 1] == a + b[..m];
      SumConcat(a, b[..m]);
    }
  }

  lemma {:induction false} FlatLength(cmds: seq<Bytes>)
    ensures |Flat(cmds)| == Sum(Sizes(cmds))
    decreases |cmds|
  {
    if cmds == [] {
    } else {
      var m := |cmds| - 1;
      FlatLength(cmds[..m]);
      assert Sizes(cmds)[..m] == Sizes(cmds[..m]);
    }
  }

  lemma SumPrefixGrows(sizes: seq<nat>, j: nat)
    requires j < |sizes|
    ensures Sum(sizes[..j + 1]) == Sum(sizes[..j]) + sizes[j]
  {
    assert sizes[..j + 1][..j] == sizes[..j];
  }

  lemma SumPrefixAll(sizes: seq<nat>, n: nat)
    requires n == |sizes|
    ensures Sum(sizes[..n]) == Sum(sizes)
  {
    assert sizes[..n] == sizes;
  }

  /** Cutting a sum in front of element `j`. */
  lemma SumSplit(sizes: seq<nat>, j: nat)
    requires j < |sizes|
    ensures Sum(sizes) == Sum(sizes[..j]) + sizes[j] + Sum(sizes[j + 1..])
  {
    assert sizes == sizes[..j + 1] + sizes[j + 1..];
    SumConcat(sizes[..j + 1], sizes[j + 1..]);
    SumPrefixGrows(sizes, j);
  }

  lemma {:induction false} SumZeros(sizes: seq<nat>)
    requires forall i :: 0 <= i < |sizes| ==> sizes[i] == 0
    ensures Sum(sizes) == 0
    decreases |sizes|
  {
    if sizes == [] {
    } else {
      SumZeros(sizes[..|sizes| - 1]);
    }
  }

  lemma SuffixSlice(a: Bytes, b: Bytes, from: nat, to: nat)
    requires from <= to <= |b|
    ensures (a + b)[|a| + from..|a| + to] == b[from..to]
  {
  }

  lemma MiddleSlice(a: Bytes, b: Bytes, c: Bytes, from: nat, to: nat)
    requires from <= to <= |b|
    ensures (a + b + c)[|a| + from..|a| + to] == b[from..to]
  {
  }

  /** The bytes of `cmds[j]` sit in the joined string at the sum of the sizes before it. */
  lemma FlatSlice(cmds: seq<Bytes>, j: nat, from: nat, to: nat)
    requires j < |cmds| && from <= to <= |cmds[j]|
    ensures Sum(Sizes(cmds)[..j]) + to <= |Flat(cmds)|
    ensures Flat(cmds)[Sum(Sizes(cmds)[..j]) + from..Sum(Sizes(cmds)[..j]) + to] == cmds[j][from..to]
  {
    var head, tail := cmds[..j], cmds[j + 1..];
    assert cmds == (head + [cmds[j]]) + tail;
    FlatConcat(head + [cmds[j]], tail);
    FlatAppend(head, cmds[j]);
    FlatLength(head);
    assert Sizes(head) == Sizes(cmds)[..j];
    MiddleSlice(Flat(head), cmds[j], Flat(tail), from, to);
  }

  lemma SliceToEnd(a: Bytes, from: nat, to: nat)
    requires from <= to == |a|
    ensures a[from..to] == a[from..]
  {
  }

  /** What follows position `n`: nothing at the end and beyond. */
  function From(b: Bytes, n: nat): (r: Bytes)
    ensures |r| == if n < |b| then |b| - n else 0
  {
    if n < |b| then seq(|b| - n, i requires 0 <= i < |b| - n => b[n + i]) else []
  }

  lemma FromIsSuffix(b: Bytes, n: nat)
    requires n <= |b|
    ensures From(b, n) == b[n..]
  {
  }

  lemma EmptyTail(a: Bytes)
    ensures a + [] == a
  {
  }

  lemma PrefixBehind(a: Bytes, b: Bytes, c: Bytes)
    requires b <= c
    ensures a + b <= a + c
  {
  }

  lemma EmptyHead(a: Bytes)
    ensures [] + a == a
  {
  }

  lemma PrefixSlice(a: Bytes, b: Bytes, from: nat, to: nat)
    requires a <= b && from <= to <= |a|
    ensures a[from..to] == b[from..to]
  {
  }

  /** Joining a longer list of strings extends the joined string. */
  lemma FlatMonotone(a: seq<Bytes>, b: seq<Bytes>)
    requires a <= b
    ensures Flat(a) <= Flat(b)
  {
    assert b == a + b[|a|..];
    FlatConcat(a, b[|a|..]);
  }

  // ---------------------------------------------------------------- positions in a joined string

  /** Offset `off` of element `j` is position `pos` of the whole. */
  predicate At(sizes: seq<nat>, pos: nat, j: nat, off: nat) {
    j < |sizes| && off < sizes[j] && Sum(sizes[..j]) + off == pos
  }

  /** The search from element `j` on, with `rest` still to go. */
  function LocateFrom(sizes: seq<nat>, j: nat, rest: nat): (r: Option<(nat, nat)>)
    ensures r.Some? ==> r.value.0 < |sizes| && r.value.1 < sizes[r.value.0]
    decreases |sizes| - j
  {
    if j >= |sizes| then None
    else if rest < sizes[j] then Some((j, rest))
    else LocateFrom(sizes, j + 1, rest - sizes[j])
  }

  /** The element and the offset in it that hold position `pos`, if there is one. */
  function Locate(sizes: seq<nat>, pos: nat): (r: Option<(nat, nat)>)
    ensures r.Some? ==> r.value.0 < |sizes| && r.value.1 < sizes[r.value.0]
  {
    LocateFrom(sizes, 0, pos)
  }

  lemma {:induction false} LocateFromIsAt(sizes: seq<nat>, j: nat, rest: nat)
    requires j <= |sizes|
    ensures var r, pos := LocateFrom(sizes, j, rest), Sum(sizes[..j]) + rest;
            && (r.Some? <==> pos < Sum(sizes))
            && (r.Some? ==> At(sizes, pos, r.value.0, r.value.1))
    decreases |sizes| - j
  {
    if j == |sizes| {
      SumPrefixAll(sizes, j);
    } else if rest < sizes[j] {
      SumSplit(sizes, j);
    } else {
      SumPrefixGrows(sizes, j);
      LocateFromIsAt(sizes, j + 1, rest - sizes[j]);
    }
  }

  /** A position is found exactly when it lies inside the whole, and then at its own place. */
  lemma LocateIsAt(sizes: seq<nat>, pos: nat)
    ensures var r := Locate(sizes, pos);
            && (r.Some? <==> pos < Sum(sizes))
            && (r.Some? ==> At(sizes, pos, r.value.0, r.value.1))
  {
    assert sizes[..0] == [];
    LocateFromIsAt(sizes, 0, pos);
  }

  lemma PrefixGrows(sizes: seq<nat>, j: nat, j': nat)
    requires j < j' <= |sizes|
    ensures Sum(sizes[..j]) + sizes[j] <= Sum(sizes[..j'])
  {
    SumSplit(sizes[..j'], j);
    assert sizes[..j'][..j] == sizes[..j];
  }

  lemma AtUnique(sizes: seq<nat>, pos: nat, j: nat, off: nat, j': nat, off': nat)
    requires At(sizes, pos, j, off) && At(sizes, pos, j', off')
    ensures j == j' && off == off'
  {
    if j < j' {
      PrefixGrows(sizes, j, j');
    } else if j' < j {
      PrefixGrows(sizes, j', j);
    }
  }

  lemma AtIsLocate(sizes: seq<nat>, pos: nat, j: nat, off: nat)
    requires At(sizes, pos, j, off)
    ensures Locate(sizes, pos) == Some((j, off))
  {
    SumSplit(sizes, j);
    LocateIsAt(sizes, pos);
    var r := Locate(sizes, pos).value;
    AtUnique(sizes, pos, j, off, r.0, r.1);
  }
}
