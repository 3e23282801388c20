/** The scatter/gather table of the SCSI Manager: how transfers coalesce, and when
    the table still describes exactly the bytes the transfers name. */
module ScsiTable {
  import opened Bytes

  const TABLE_SIZE: nat := 1024

  /** An address range: a table entry, or one transfer. */
  datatype Entry = Entry(ptr: int, len: word32)

  function Merged(a: word32, b: word32): word32 { (a + b) % WORD32 }

  predicate Adjoins(es: seq<Entry>, e: Entry) {
    es != [] && e.ptr == es[|es| - 1].ptr + es[|es| - 1].len
  }

  /** A transfer extends the last entry if it starts where that one ends. */
  function Push(es: seq<Entry>, e: Entry): seq<Entry> {
    if Adjoins(es, e) then es[..|es| - 1] + [Entry(es[|es| - 1].ptr, Merged(es[|es| - 1].len, e.len))] else es + [e]
  }

  lemma PushLength(es: seq<Entry>, e: Entry)
    ensures |Push(es, e)| == if Adjoins(es, e) then |es| else |es| + 1
  {
  }

  /** The table after a list of transfers. */
  function Coalesce(ops: seq<Entry>): seq<Entry> {
    if ops == [] then [] else Push(Coalesce(ops[..|ops| - 1]), ops[|ops| - 1])
  }

  /** Some merge made a length that does not fit into 32 bits. */
  predicate Overflowed(ops: seq<Entry>) {
    ops != [] &&
    var es, e := Coalesce(ops[..|ops| - 1]), ops[|ops| - 1];
    Overflowed(ops[..|ops| - 1]) || (Adjoins(es, e) && es[|es| - 1].len + e.len >= WORD32)
  }

  function Range(e: Entry): (s: seq<int>)
    ensures |s| == e.len
  {
    seq(e.len, i => e.ptr + i)
  }

  /** The addresses a list of ranges stands for, in order. */
  function Flatten(es: seq<Entry>): seq<int> {
    if es == [] then [] else Flatten(es[..|es| - 1]) + Range(es[|es| - 1])
  }

  function Total(es: seq<Entry>): nat {
    if es == [] then 0 else Total(es[..|es| - 1]) + es[|es| - 1].len
  }

  lemma {:induction false} FlattenLength(es: seq<Entry>)
    ensures |Flatten(es)| == Total(es)
    decreases |es|
  {
    if es != [] { FlattenLength(es[..|es| - 1]); }
  }

  lemma Snoc(es: seq<Entry>, e: Entry)
    ensures Flatten(es + [e]) == Flatten(es) + Range(e) && Total(es + [e]) == Total(es) + e.len
  {
    assert (es + [e])[..|es|] == es;
  }

  lemma RangeJoin(p: int, a: word32, b: word32)
    requires a + b < WORD32
    ensures Range(Entry(p, a + b)) == Range(Entry(p, a)) + Range(Entry(p + a, b))
  {
  }

  lemma MergedSmall(a: word32, b: word32)
    ensures Merged(a, b) == a + b - if a + b >= WORD32 then WORD32 else 0
  {
  }

  lemma Associative(a: seq<int>, b: seq<int>, c: seq<int>)
    ensures a + b + c == a + (b + c)
  {
  }

  lemma FlattenPushMerged(init: seq<Entry>, last: Entry, e: Entry)
    requires e.ptr == last.ptr + last.len && last.len + e.len < WORD32
    ensures Flatten(init + [Entry(last.ptr, Merged(last.len, e.len))]) == Flatten(init) + Range(last) + Range(e)
  {
    hide Flatten, Range, Merged;
    MergedSmall(last.len, e.len);
    Snoc(init, Entry(last.ptr, last.len + e.len));
    RangeJoin(last.ptr, last.len, e.len);
    Associative(Flatten(init), Range(last), Range(e));
  }

  lemma FlattenPush(es: seq<Entry>, e: Entry)
    requires Adjoins(es, e) ==> es[|es| - 1].len + e.len < WORD32
    ensures Flatten(Push(es, e)) == Flatten(es) + Range(e)
  {
    hide Range, Merged;
    if Adjoins(es, e) {
      FlattenPushMerged(es[..|es| - 1], es[|es| - 1], e);
    } else {
      Snoc(es, e);
    }
  }

  lemma TotalPush(es: seq<Entry>, e: Entry)
    ensures Total(Push(es, e)) ==
      Total(es) + e.len - if Adjoins(es, e) && es[|es| - 1].len + e.len >= WORD32 then WORD32 else 0
  {
    hide Merged;
    if Adjoins(es, e) {
      var init, last := es[..|es| - 1], es[|es| - 1];
      MergedSmall(last.len, e.len);
      Snoc(init, Entry(last.ptr, Merged(last.len, e.len)));
    } else {
      Snoc(es, e);
    }
  }

  /** The lengths in the table add up to those of the transfers, modulo 2^32, and
      exactly so unless a merge overflowed. */
  lemma {:induction false} TotalCoalesced(ops: seq<Entry>)
    ensures Total(Coalesce(ops)) <= Total(ops) && Total(Coalesce(ops)) % WORD32 == Total(ops) % WORD32
    ensures Total(Coalesce(ops)) == Total(ops) <==> !Overflowed(ops)
    decreases |ops|
  {
    hide Push, Merged;
    if ops != [] {
      var before, e := ops[..|ops| - 1], ops[|ops| - 1];
      TotalCoalesced(before);
      TotalPush(Coalesce(before), e);
      TotalModulo(Total(Coalesce(before)), Total(before), e.len);
    }
  }

  lemma TotalModulo(a: nat, b: nat, c: nat)
    requires a % WORD32 == b % WORD32
    ensures (a + c) % WORD32 == (b + c) % WORD32 && (a + c - WORD32) % WORD32 == (b + c) % WORD32
  {
  }

  /** The table stands for exactly the addresses of the transfers, in order, if and
      only if no merge overflowed. */
  lemma {:induction false} FlattenCoalesced(ops: seq<Entry>)
    ensures Flatten(Coalesce(ops)) == Flatten(ops) <==> !Overflowed(ops)
    decreases |ops|
  {
    FlattenLength(Coalesce(ops));
    FlattenLength(ops);
    TotalCoalesced(ops);
    if ops != [] && !Overflowed(ops) {
      FlattenCoalesced(ops[..|ops| - 1]);
      FlattenPush(Coalesce(ops[..|ops| - 1]), ops[|ops| - 1]);
    }
  }

  lemma {:induction false} LastEntryBound(es: seq<Entry>)
    requires es != []
    ensures es[|es| - 1].len <= Total(es)
  {
  }

  /** A transaction of less than 2^32 bytes in all never overflows. */
  lemma {:induction false} SmallTransfersFit(ops: seq<Entry>)
    requires Total(ops) < WORD32
    ensures !Overflowed(ops)
    decreases |ops|
  {
    hide Push;
    if ops != [] {
      var before := ops[..|ops| - 1];
      SmallTransfersFit(before);
      TotalCoalesced(before);
      if Coalesce(before) != [] { LastEntryBound(Coalesce(before)); }
    }
  }

  /** Two transfers whose merge overflows: the table stands for one byte only. */
  lemma OverflowExample(base: int)
    ensures var ops := [Entry(base, 0xffff_ffff), Entry(base + 0xffff_ffff, 2)];
      Coalesce(ops) == [Entry(base, 1)] && Overflowed(ops) && Flatten(Coalesce(ops)) != Flatten(ops)
  {
    var ops := [Entry(base, 0xffff_ffff), Entry(base + 0xffff_ffff, 2)];
    assert ops[..1] == [Entry(base, 0xffff_ffff)] && ops[..1][..0] == [];
    assert Coalesce(ops[..1]) == Push([], ops[0]) == [ops[0]];
    FlattenCoalesced(ops);
  }

  /** No two neighbouring entries could have been one. */
  lemma {:induction false} NeighboursApart(ops: seq<Entry>, i: nat)
    requires i + 1 < |Coalesce(ops)|
    ensures Coalesce(ops)[i + 1].ptr != Coalesce(ops)[i].ptr + Coalesce(ops)[i].len
    decreases |ops|
  {
    var before, e := ops[..|ops| - 1], ops[|ops| - 1];
    var es := Coalesce(before);
    if i + 1 < |es| {
      NeighboursApart(before, i);
    }
  }

  // ---------------------------------------------------------------- overflow, seen from the transfers

  /** Transfers i to j, each one starting where the one before it ends. */
  ghost predicate Chained(ops: seq<Entry>, i: nat, j: nat) {
    i <= j <= |ops| && forall k :: i < k < j ==> Follows(ops, k)
  }

  predicate Follows(ops: seq<Entry>, k: nat)
    requires 0 < k < |ops|
  {
    ops[k].ptr == ops[k - 1].ptr + ops[k - 1].len
  }

  lemma ChainedIn(ops: seq<Entry>, n: nat, i: nat, j: nat)
    requires j <= n <= |ops|
    ensures Chained(ops[..n], i, j) <==> Chained(ops, i, j)
  {
    if i <= j {
      forall k | i < k < j
        ensures Follows(ops[..n], k) <==> Follows(ops, k)
      {
      }
    }
  }

  /** Transfers i to j are a chain of 2^32 bytes or more. */
  ghost predicate IsLong(ops: seq<Entry>, i: nat, j: nat) { Chained(ops, i, j) && Total(ops[i..j]) >= WORD32 }

  ghost predicate LongChain(ops: seq<Entry>) { exists i: nat, j: nat :: IsLong(ops, i, j) }

  /** Where the chain of the last transfer starts. */
  function Start(ops: seq<Entry>): (s: nat)
    requires ops != []
    ensures s < |ops|
  {
    var n := |ops| - 1;
    if n > 0 && Follows(ops, n) then Start(ops[..n]) else n
  }

  lemma {:induction false} StartChained(ops: seq<Entry>)
    requires ops != []
    ensures Chained(ops, Start(ops), |ops|)
  {
    var n := |ops| - 1;
    if n > 0 && Follows(ops, n) {
      StartChained(ops[..n]);
      ChainedIn(ops, n, Start(ops), n);
    }
  }

  lemma {:induction false} StartFirst(ops: seq<Entry>, i: nat)
    requires ops != [] && i < |ops| && Chained(ops, i, |ops|)
    ensures Start(ops) <= i
  {
    var n := |ops| - 1;
    if i < n {
      assert Follows(ops, n);
      ChainedIn(ops, n, i, n);
      StartFirst(ops[..n], i);
    }
  }

  lemma {:induction false} TotalJoin(a: seq<Entry>, b: seq<Entry>)
    ensures Total(a + b) == Total(a) + Total(b)
  {
    if b == [] {
      assert a + b == a;
    } else {
      assert (a + b)[..|a + b| - 1] == a + b[..|b| - 1];
      TotalJoin(a, b[..|b| - 1]);
    }
  }

  /** A chain ends where its length says. */
  lemma {:induction false} ChainEnd(ops: seq<Entry>, i: nat)
    requires i < |ops| && Chained(ops, i, |ops|)
    ensures ops[|ops| - 1].ptr + ops[|ops| - 1].len == ops[i].ptr + Total(ops[i..])
  {
    var n := |ops| - 1;
    assert ops[i..] == ops[i..n] + [ops[n]];
    Snoc(ops[i..n], ops[n]);
    if i < n {
      assert Follows(ops, n) && ops[..n][i..] == ops[i..n];
      ChainedIn(ops, n, i, n);
      ChainEnd(ops[..n], i);
    }
  }

  lemma TailTotal(init: seq<Entry>, e: Entry, s: nat)
    requires s <= |init|
    ensures Total((init + [e])[s..|init| + 1]) == Total((init + [e])[s..]) == Total(init[s..]) + e.len
  {
    assert (init + [e])[s..|init| + 1] == (init + [e])[s..] == init[s..] + [e];
    Snoc(init[s..], e);
  }

  function Last(es: seq<Entry>): Entry
    requires es != []
  {
    es[|es| - 1]
  }

  lemma PushLast(es: seq<Entry>, e: Entry)
    ensures Push(es, e) != []
    ensures Last(Push(es, e)) == if Adjoins(es, e) then Entry(Last(es).ptr, Merged(Last(es).len, e.len)) else e
  {
  }

  /** Without overflow the last entry is the chain of the last transfer. */
  lemma {:induction false} LastEntry(ops: seq<Entry>)
    requires ops != [] && !Overflowed(ops)
    ensures var es := Coalesce(ops);
      es != [] && Last(es).ptr == ops[Start(ops)].ptr && Last(es).len == Total(ops[Start(ops)..])
  {
    var n := |ops| - 1;
    var init, e := ops[..n], ops[n];
    assert ops == init + [e];
    PushLast(Coalesce(init), e);
    if n == 0 {
      TailTotal(init, e, 0);
    } else {
      LastEntry(init);
      StartChained(init);
      ChainEnd(init, Start(init));
      assert Adjoins(Coalesce(init), e) <==> Follows(ops, n);
      MergedSmall(Last(Coalesce(init)).len, e.len);
      hide Push, Chained;
      TailTotal(init, e, Start(init));
      TailTotal(init, e, n);
    }
  }

  lemma {:induction false} OverflowStays(ops: seq<Entry>, j: nat)
    requires j <= |ops| && Overflowed(ops[..j])
    ensures Overflowed(ops)
    decreases |ops|
  {
    if j == |ops| {
      assert ops[..j] == ops;
    } else {
      assert ops[..|ops| - 1][..j] == ops[..j];
      OverflowStays(ops[..|ops| - 1], j);
    }
  }

  lemma LongChainOverflows(ops: seq<Entry>, i: nat, j: nat)
    requires IsLong(ops, i, j)
    ensures Overflowed(ops)
  {
    hide Overflowed, Coalesce, Start, Follows;
    var q := ops[..j];
    assert q[i..] == ops[i..j];
    if !Overflowed(q) {
      hide Total, Chained;
      ChainedIn(ops, j, i, j);
      NotEmpty(q, i);
      StartFirst(q, i);
      LastEntry(q);
      var s := Start(q);
      assert q[s..] == q[s..i] + q[i..];
      TotalJoin(q[s..i], q[i..]);
      assert false;
    }
    OverflowStays(ops, j);
  }

  lemma NotEmpty(q: seq<Entry>, i: nat)
    requires i <= |q| && Total(q[i..]) > 0
    ensures i < |q|
  {
  }

  lemma LastOverflows(init: seq<Entry>, e: Entry)
    requires !Overflowed(init) && Overflowed(init + [e])
    ensures var es := Coalesce(init);
      init != [] && Adjoins(es, e) && es[|es| - 1].len + e.len >= WORD32
  {
    var ops := init + [e];
    assert ops[..|ops| - 1] == init;
  }

  lemma ChainExtends(init: seq<Entry>, e: Entry, s: nat)
    requires s < |init| && Chained(init, s, |init|) && e.ptr == init[|init| - 1].ptr + init[|init| - 1].len
    ensures Chained(init + [e], s, |init| + 1)
  {
    var ops, n := init + [e], |init|;
    assert ops[..n] == init && Follows(ops, n);
    ChainedIn(ops, n, s, n);
  }

  lemma LastMakesLong(init: seq<Entry>, e: Entry)
    requires init != [] && !Overflowed(init) && Overflowed(init + [e])
    ensures IsLong(init + [e], Start(init), |init| + 1)
  {
    LastOverflows(init, e);
    LastEntry(init);
    hide Overflowed, Coalesce, Start, Chained, Total;
    var s := Start(init);
    StartChained(init);
    ChainEnd(init, s);
    ChainExtends(init, e, s);
    TailTotal(init, e, s);
  }

  lemma {:induction false} OverflowIsLongChain(ops: seq<Entry>)
    requires Overflowed(ops)
    ensures LongChain(ops)
  {
    var n := |ops| - 1;
    var init := ops[..n];
    assert ops == init + [ops[n]];
    if Overflowed(init) {
      OverflowIsLongChain(init);
      var i: nat, j: nat :| IsLong(init, i, j);
      ChainedIn(ops, n, i, j);
      assert ops[i..j] == init[i..j];
      assert IsLong(ops, i, j);
    } else {
      NeedsTwo(ops);
      LastMakesLong(init, ops[n]);
    }
  }

  lemma NeedsTwo(ops: seq<Entry>)
    requires Overflowed(ops)
    ensures ops[..|ops| - 1] != []
  {
  }

  /** A merge overflows if and only if some run of transfers, each one starting where the
      one before it ends, is 2^32 bytes long or longer. */
  lemma OverflowedExactly(ops: seq<Entry>)
    ensures Overflowed(ops) <==> LongChain(ops)
  {
    hide Overflowed, IsLong;
    if Overflowed(ops) {
      OverflowIsLongChain(ops);
    } else if LongChain(ops) {
      var i: nat, j: nat :| IsLong(ops, i, j);
      LongChainOverflows(ops, i, j);
    }
  }
}
