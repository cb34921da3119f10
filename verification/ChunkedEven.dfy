/** chunked_even (more_itertools/more.py): the finite form computes the chunk sizes first, the online
    form emits full chunks from a bounded buffer; both give the one even split of the items. */
module ChunkedEven {

  import opened Lists
  import opened Division

  /** Sizes never grow, and differ by at most one. */
  ghost predicate Balanced<T>(chunks: seq<seq<T>>) {
    forall i, j :: 0 <= i < j < |chunks| ==> |chunks[j]| <= |chunks[i]| <= |chunks[j]| + 1
  }

  /** The items in as few chunks of at most n as possible, evenly filled, the larger chunks first. */
  ghost predicate EvenSplit<T>(chunks: seq<seq<T>>, items: seq<T>, n: nat) {
    && Concat(chunks) == items && Balanced(chunks)
    && (forall i :: 0 <= i < |chunks| ==> |chunks[i]| <= n)
    && (|chunks| - 1) * n < |items| <= |chunks| * n
  }

  // ---- there is only one ----

  lemma OneMore(l: nat, s: nat)
    ensures (l + 1) * s == l * s + s
  {
  }

  lemma {:induction false} ConcatLength<T>(chunks: seq<seq<T>>, s: nat)
    requires forall i :: 0 <= i < |chunks| ==> s <= |chunks[i]| <= s + 1
    ensures |chunks| * s <= |Concat(chunks)| <= |chunks| * (s + 1)
  {
    if chunks != [] {
      ConcatLength(chunks[1..], s);
      OneMore(|chunks[1..]|, s);
      OneMore(|chunks[1..]|, s + 1);
    }
  }

  /** In a balanced list the first chunk is the average, rounded up. */
  lemma FirstSize<T>(chunks: seq<seq<T>>)
    requires chunks != [] && Balanced(chunks) && |chunks[0]| > 0
    ensures |chunks| * (|chunks[0]| - 1) < |Concat(chunks)| <= |chunks| * |chunks[0]|
  {
    var s, rest := |chunks[0]| - 1, chunks[1..];
    assert forall i :: 0 <= i < |rest| ==> rest[i] == chunks[i + 1];
    ConcatLength(rest, s);
    OneMore(|rest|, s);
    OneMore(|rest|, s + 1);
  }

  lemma Scale(l: nat, x: int, y: int)
    ensures x <= y ==> l * x <= l * y
  {
  }

  lemma SameQuotient(l: nat, a: int, b: int, total: int)
    requires l * (a - 1) < total <= l * a && l * (b - 1) < total <= l * b
    ensures a == b
  {
    Scale(l, a, b - 1);
    Scale(l, b, a - 1);
  }

  lemma {:induction false} AllEmpty<T>(chunks: seq<seq<T>>)
    requires Balanced(chunks) && chunks != [] && chunks[0] == []
    ensures Concat(chunks) == [] && forall i :: 0 <= i < |chunks| ==> chunks[i] == []
  {
    if |chunks| > 1 {
      assert chunks[1..][0] == chunks[1];
      AllEmpty(chunks[1..]);
    }
  }

  lemma {:induction false} BalancedIsUnique<T>(a: seq<seq<T>>, b: seq<seq<T>>)
    requires Balanced(a) && Balanced(b) && |a| == |b| && Concat(a) == Concat(b)
    ensures a == b
  {
    if a != [] {
      if a[0] == [] {
        AllEmpty(a);
      } else {
        FirstSize(a);
      }
      if b[0] == [] {
        AllEmpty(b);
      } else {
        FirstSize(b);
      }
      if a[0] != [] && b[0] != [] {
        SameQuotient(|a|, |a[0]|, |b[0]|, |Concat(a)|);
      }
      assert |a[0]| == |b[0]|;
      assert a[0] == Concat(a)[..|a[0]|] && b[0] == Concat(b)[..|b[0]|];
      assert Concat(a[1..]) == Concat(a)[|a[0]|..] && Concat(b[1..]) == Concat(b)[|b[0]|..];
      BalancedIsUnique(a[1..], b[1..]);
      assert a == [a[0]] + a[1..] && b == [b[0]] + b[1..];
    }
  }

  /** The even split is unique. */
  lemma EvenSplitIsUnique<T>(a: seq<seq<T>>, b: seq<seq<T>>, items: seq<T>, n: nat)
    requires EvenSplit(a, items, n) && EvenSplit(b, items, n)
    ensures a == b
  {
    SameQuotient(n, |a|, |b|, |items|);
    BalancedIsUnique(a, b);
  }

  // ---- the finite form ----

  /** The quotient rounded up, as the code computes it. */
  function CeilDiv(m: nat, n: nat): nat
    requires n >= 1
  {
    m / n + if m % n > 0 then 1 else 0
  }

  lemma CeilDivBounds(m: nat, n: nat)
    requires n >= 1
    ensures (CeilDiv(m, n) - 1) * n < m <= CeilDiv(m, n) * n || (m == 0 && CeilDiv(m, n) == 0)
  {
    IsDivMod(m, n);
    DivisionFacts(m, n);
    var q := Quot(m, n);
    assert (q + 1) * n == q * n + n && (q - 1) * n == q * n - n;
  }

  lemma FullSize(total: nat, n: nat, l: nat, s: nat)
    requires total >= 1 && n >= 1 && l >= 1
    requires (l - 1) * n < total <= l * n && (s - 1) * l < total <= s * l
    ensures 1 <= s <= n
    ensures s == 1 ==> total == l
  {
    Scale(l, n, s - 1);
    Scale(l - 1, 1, n);
    Scale(l, s, 0);
  }

  lemma FullCount(total: nat, l: nat, s: nat)
    requires (s - 1) * l < total <= s * l
    ensures 1 <= total - (s - 1) * l <= l
  {
    assert s * l == (s - 1) * l + l;
  }

  /** The sizes the code computes: l chunks, of which full have size s and the others s - 1. */
  lemma Sizes(total: nat, n: nat, l: nat, s: nat, full: int)
    requires total >= 1 && n >= 1 && l == CeilDiv(total, n) && l >= 1 && s == CeilDiv(total, l)
    requires full == total - (s - 1) * l
    ensures (l - 1) * n < total <= l * n
    ensures 1 <= s <= n && 1 <= full <= l && total == full * s + (l - full) * (s - 1)
    ensures s == 1 ==> full == l
  {
    CeilDivBounds(total, n);
    CeilDivBounds(total, l);
    FullSize(total, n, l, s);
    FullCount(total, l, s);
    Spread(total, l, s, full);
  }

  lemma Spread(total: int, l: int, s: int, full: int)
    requires full == total - (s - 1) * l
    ensures total == full * s + (l - full) * (s - 1)
  {
    assert full * s + (l - full) * (s - 1) == full + l * (s - 1);
  }

  /** What has been emitted: count chunks, the first full of them of size s, the others s - 1. */
  ghost predicate Emitted<T>(chunks: seq<seq<T>>, items: seq<T>, i: nat, full: nat, s: nat) {
    && i <= |items| && Concat(chunks) == items[..i]
    && forall k :: 0 <= k < |chunks| ==> |chunks[k]| == if k < full then s else s - 1
  }

  lemma Emit<T>(chunks: seq<seq<T>>, items: seq<T>, i: nat, full: nat, s: nat)
    requires s >= 1 && Emitted(chunks, items, i, full, s)
    requires i + (if |chunks| < full then s else s - 1) <= |items|
    ensures var j := i + if |chunks| < full then s else s - 1;
      Emitted(chunks + [items[i..j]], items, j, full, s)
  {
    var j := i + if |chunks| < full then s else s - 1;
    ConcatAppend(chunks, items[i..j]);
    assert items[..i] + items[i..j] == items[..j];
  }

  method EmitSlices<T>(before: seq<seq<T>>, items: seq<T>, start: nat, stop: nat, step: nat, ghost full: nat,
                       ghost s: nat, ghost count: nat)
    returns (chunks: seq<seq<T>>)
    requires s >= 1 && step >= 1 && Emitted(before, items, start, full, s)
    requires stop == start + count * step && stop <= |items|
    requires (step == s && |before| + count <= full) || (step == s - 1 && |before| >= full)
    ensures Emitted(chunks, items, stop, full, s) && |chunks| == |before| + count
  {
    chunks := before;
    var i := start;
    ghost var k := 0;
    while i < stop
      invariant k <= count && i == start + k * step && i <= stop
      invariant Emitted(chunks, items, i, full, s) && |chunks| == |before| + k
      decreases stop - i
    {
      StepFits(k, count, step);
      Emit(chunks, items, i, full, s);
      chunks := chunks + [items[i..i + step]];
      i := i + step;
      k := k + 1;
    }
    StepFits(k, count, step);
  }

  lemma StepFits(k: nat, count: nat, step: nat)
    requires k <= count && step >= 1
    ensures k < count <==> k * step < count * step
    ensures k < count ==> (k + 1) * step <= count * step
    ensures (k + 1) * step == k * step + step
  {
    Scale(step, k + 1, count);
    Scale(step, count, k);
  }

  lemma Parts(total: nat, first: nat, second: int, count: nat, size: nat)
    requires total == first + second && second == count * size
    ensures first <= total
  {
  }

  /** _chunked_even_finite(items, len(items), n) */
  method Finite<T>(items: seq<T>, n: nat) returns (chunks: seq<seq<T>>)
    requires n >= 1
    ensures EvenSplit(chunks, items, n)
  {
    var total := |items|;
    chunks := [];
    if total < 1 {
      return;
    }
    CeilDivBounds(total, n);
    var numLists := CeilDiv(total, n);
    var fullSize := CeilDiv(total, numLists);
    var partialSize := fullSize - 1;
    var numFull := total - partialSize * numLists;
    Sizes(total, n, numLists, fullSize, numFull);
    var numPartial := numLists - numFull;
    var partialStart := numFull * fullSize;
    Parts(total, partialStart, numPartial * partialSize, numPartial, partialSize);
    chunks := EmitSlices(chunks, items, 0, partialStart, fullSize, numFull, fullSize, numFull);
    if partialSize > 0 {
      chunks := EmitSlices(chunks, items, partialStart, partialStart + numPartial * partialSize,
                           partialSize, numFull, fullSize, numPartial);
    }
    assert items[..total] == items;
  }

  // ---- the online form ----

  /** How much the buffer always keeps back: with at least this many items left, an even split into
      chunks of at most n needs no chunk smaller than n - 1. */
  ghost function Reserve(n: nat): int {
    (n - 1) * (n - 2)
  }

  lemma {:induction false} ConcatShort<T>(chunks: seq<seq<T>>, s: nat, i: nat)
    requires i < |chunks| && |chunks[i]| < s && forall k :: 0 <= k < |chunks| ==> |chunks[k]| <= s
    ensures |Concat(chunks)| < |chunks| * s
  {
    OneMore(|chunks[1..]|, s);
    if i > 0 {
      ConcatShort(chunks[1..], s, i - 1);
    } else {
      ConcatAtMost(chunks[1..], s);
    }
  }

  lemma {:induction false} ConcatAtMost<T>(chunks: seq<seq<T>>, s: nat)
    requires forall k :: 0 <= k < |chunks| ==> |chunks[k]| <= s
    ensures |Concat(chunks)| <= |chunks| * s
  {
    if chunks != [] {
      ConcatAtMost(chunks[1..], s);
      OneMore(|chunks[1..]|, s);
    }
  }

  lemma ReserveIsEnough(l: nat, n: nat, total: nat)
    requires n >= 1 && (l - 1) * n < total && total >= Reserve(n)
    ensures total >= l * (n - 1)
  {
    if l >= n - 1 {
      assert (l - 1) * n == l * (n - 1) + l - n;
    } else {
      Scale(n - 1, l, n - 2);
      assert (n - 1) * l == l * (n - 1);
    }
  }

  /** The chunks of an even split of at least Reserve(n) items have n - 1 or n items. */
  lemma NoSmallChunk<T>(chunks: seq<seq<T>>, items: seq<T>, n: nat, i: nat)
    requires n >= 1 && EvenSplit(chunks, items, n) && |items| >= Reserve(n) && i < |chunks|
    ensures |chunks[i]| >= n - 1
  {
    ReserveIsEnough(|chunks|, n, |items|);
    if |chunks[i]| < n - 1 {
      forall k | 0 <= k < |chunks| ensures |chunks[k]| <= n - 1 {
        assert k < i || k == i || i < k;
      }
      ConcatShort(chunks, n - 1, i);
    }
  }

  /** A full chunk in front of an even split of enough items is an even split of all of them. */
  lemma FullChunkInFront<T>(c: seq<T>, chunks: seq<seq<T>>, items: seq<T>, n: nat)
    requires n >= 1 && |c| == n && EvenSplit(chunks, items, n) && |items| >= Reserve(n)
    ensures EvenSplit([c] + chunks, c + items, n)
  {
    var all := [c] + chunks;
    assert all[1..] == chunks;
    forall i, j | 0 <= i < j < |all| ensures |all[j]| <= |all[i]| <= |all[j]| + 1 {
      NoSmallChunk(chunks, items, n, j - 1);
      assert all[j] == chunks[j - 1];
      assert i > 0 ==> all[i] == chunks[i - 1];
    }
    OneMore(|chunks|, n);
    assert (|chunks| - 1) * n == |chunks| * n - n;
  }

  lemma {:induction false} FullChunksInFront<T>(full: seq<seq<T>>, chunks: seq<seq<T>>, items: seq<T>, n: nat)
    requires n >= 1 && EvenSplit(chunks, items, n) && (full != [] ==> |items| >= Reserve(n))
    requires forall i :: 0 <= i < |full| ==> |full[i]| == n
    ensures EvenSplit(full + chunks, Concat(full) + items, n)
  {
    if full == [] {
      assert full + chunks == chunks && Concat(full) + items == items;
    } else {
      FullChunksInFront(full[1..], chunks, items, n);
      FullChunkInFront(full[0], full[1..] + chunks, Concat(full[1..]) + items, n);
      assert full == [full[0]] + full[1..];
      Associate([full[0]], full[1..], chunks);
      Associate(full[0], Concat(full[1..]), items);
    }
  }

  lemma BufferBound(n: nat, maxbuf: int)
    requires n >= 1 && maxbuf == n + (n - 2) * (n - 1)
    ensures maxbuf >= n && maxbuf - n == Reserve(n)
  {
    if n >= 2 { Scale(n - 1, 0, n - 2); }
  }

  /** One item comes in: keep it, and emit a full chunk when the buffer is full. */
  method Push<T>(chunks: seq<seq<T>>, buffer: seq<T>, x: T, n: nat, maxbuf: int)
    returns (chunks': seq<seq<T>>, buffer': seq<T>)
    requires n >= 1 && maxbuf - n == Reserve(n) && |buffer| < maxbuf && maxbuf >= n
    requires (chunks != [] ==> |buffer| >= Reserve(n)) && forall k :: 0 <= k < |chunks| ==> |chunks[k]| == n
    ensures |buffer'| < maxbuf
    ensures (chunks' != [] ==> |buffer'| >= Reserve(n)) && forall k :: 0 <= k < |chunks'| ==> |chunks'[k]| == n
    ensures Concat(chunks') + buffer' == Concat(chunks) + buffer + [x]
  {
    chunks', buffer' := chunks, buffer + [x];
    if |buffer'| == maxbuf {
      ConcatAppend(chunks', buffer'[..n]);
      assert buffer' == buffer'[..n] + buffer'[n..];
      chunks' := chunks' + [buffer'[..n]];
      buffer' := buffer'[n..];
    }
  }

  /** _chunked_even_online(items, n) yields the same chunks as the finite form: the even split. */
  method Online<T>(items: seq<T>, n: nat) returns (chunks: seq<seq<T>>)
    requires n >= 1
    ensures EvenSplit(chunks, items, n)
  {
    chunks := [];
    var buffer := [];
    var maxbuf := n + (n - 2) * (n - 1);
    BufferBound(n, maxbuf);
    for i := 0 to |items|
      invariant |buffer| < maxbuf && (chunks != [] ==> |buffer| >= Reserve(n))
      invariant Concat(chunks) + buffer == items[..i]
      invariant forall k :: 0 <= k < |chunks| ==> |chunks[k]| == n
    {
      assert items[..i + 1] == items[..i] + [items[i]];
      chunks, buffer := Push(chunks, buffer, items[i], n, maxbuf);
    }
    assert items[..|items|] == items;
    var rest := Finite(buffer, n);
    FullChunksInFront(chunks, rest, buffer, n);
    chunks := chunks + rest;
  }

  /** Both forms give the same list of chunks. */
  method BothForms<T>(items: seq<T>, n: nat) returns (online: seq<seq<T>>, finite: seq<seq<T>>)
    requires n >= 1
    ensures online == finite
  {
    online := Online(items, n);
    finite := Finite(items, n);
    EvenSplitIsUnique(online, finite, items, n);
  }
}
