/** ListUtil: dropping empty elements and cutting a list into chunks, either
    of a given size or into a given number of nearly equal parts. */
module ListUtil {
  import opened PyTypes

  /** `remove_emtpy`: the elements of positive length, in their order. */
  function RemoveEmpty<T>(li: seq<seq<T>>): seq<seq<T>>
  {
    if li == [] then [] else (if |li[0]| > 0 then [li[0]] else []) + RemoveEmpty(li[1..])
  }

  /** Filtering works element by element, so it distributes over `+`. */
  lemma {:induction false} RemoveEmptyAppend<T>(a: seq<seq<T>>, b: seq<seq<T>>)
    ensures RemoveEmpty(a + b) == RemoveEmpty(a) + RemoveEmpty(b)
  {
    if a == [] {
      assert a + b == b;
    } else {
      assert (a + b)[0] == a[0];
      assert (a + b)[1..] == a[1..] + b;
      RemoveEmptyAppend(a[1..], b);
    }
  }

  /** What survives is exactly the non-empty elements; the concatenation of
      the list is unchanged; a list with no empty element is kept as it is;
      filtering twice is filtering once. */
  lemma {:induction false} RemoveEmptyLaws<T>(li: seq<seq<T>>)
    ensures forall x :: x in RemoveEmpty(li) <==> x in li && |x| > 0
    ensures Concat(RemoveEmpty(li)) == Concat(li)
    ensures |RemoveEmpty(li)| <= |li|
    ensures RemoveEmpty(li) == li <==> forall i :: 0 <= i < |li| ==> |li[i]| > 0
    ensures RemoveEmpty(RemoveEmpty(li)) == RemoveEmpty(li)
  {
    if li != [] {
      var rest := RemoveEmpty(li[1..]);
      RemoveEmptyLaws(li[1..]);
      assert li == [li[0]] + li[1..];
      if |li[0]| > 0 {
        var r := [li[0]] + rest;
        assert r[0] == li[0] && r[1..] == rest;
        assert forall i :: 1 <= i < |li| ==> li[i] == li[1..][i - 1];
      } else {
        assert RemoveEmpty(li) == rest;
        assert li[0] in li;
      }
    }
  }

  /** The chunks `chunks` yields for a positive size: slices of `size`
      elements taken from the front, the last one shorter when the length is
      not a multiple of the size. */
  function ChunksOf<T>(li: seq<T>, size: nat): seq<seq<T>>
    requires size >= 1
    decreases |li|
  {
    if li == [] then []
    else
      var j := if size < |li| then size else |li|;
      [li[..j]] + ChunksOf(li[j..], size)
  }

  /** k * s by repeated addition (TimesIsMul).  Positions of chunks are
      counted with it, so that the solver never has to reason about a
      product of two unknowns. */
  function Times(k: nat, s: nat): nat
  {
    if k == 0 then 0 else Times(k - 1, s) + s
  }

  lemma {:induction false} TimesIsMul(k: nat, s: nat)
    ensures Times(k, s) == k * s
  {
    if k > 0 {
      TimesIsMul(k - 1, s);
    }
  }

  lemma {:induction false} TimesMono(a: nat, b: nat, s: nat)
    requires a <= b
    ensures Times(a, s) <= Times(b, s)
    decreases b
  {
    if a < b {
      TimesMono(a, b - 1, s);
    }
  }

  lemma {:induction false} TimesAdd(a: nat, b: nat, s: nat)
    ensures Times(a + b, s) == Times(a, s) + Times(b, s)
    decreases b
  {
    if b > 0 {
      TimesAdd(a, b - 1, s);
    }
  }

  lemma {:induction false} TimesSuccRight(k: nat, s: nat)
    ensures Times(k, s + 1) == Times(k, s) + k
  {
    if k > 0 {
      TimesSuccRight(k - 1, s);
    }
  }

  /** Together the chunks are the list; all but the last have exactly
      `size` elements and the last between 1 and `size`, so a non-empty list
      has one chunk per started block of `size` elements. */
  lemma {:induction false} ChunksOfLaws<T>(li: seq<T>, size: nat)
    requires size >= 1
    ensures Concat(ChunksOf(li, size)) == li
    ensures ChunksOf(li, size) == [] <==> li == []
    ensures forall k :: 0 <= k < |ChunksOf(li, size)| - 1 ==> |ChunksOf(li, size)[k]| == size
    ensures li != [] ==> 1 <= |ChunksOf(li, size)[|ChunksOf(li, size)| - 1]| <= size
    ensures li != [] ==>
      Times(|ChunksOf(li, size)| - 1, size) < |li| <= Times(|ChunksOf(li, size)|, size)
    decreases |li|
  {
    if li != [] {
      var j := if size < |li| then size else |li|;
      var tail := li[j..];
      var r := ChunksOf(li, size);
      ChunksOfLaws(tail, size);
      assert r == [li[..j]] + ChunksOf(tail, size);
      assert li == li[..j] + tail;
      assert forall k :: 1 <= k < |r| ==> r[k] == ChunksOf(tail, size)[k - 1];
      assert Times(|r|, size) == Times(|r| - 1, size) + size;
    }
  }

  /** The k-th chunk is the slice from k * size to (k + 1) * size, cut at
      the end of the list. */
  lemma {:induction false} ChunksOfAt<T>(li: seq<T>, size: nat, k: nat)
    requires size >= 1 && k < |ChunksOf(li, size)|
    ensures Times(k, size) < |li|
    ensures ChunksOf(li, size)[k] ==
      li[Times(k, size) .. if Times(k + 1, size) < |li| then Times(k + 1, size) else |li|]
    decreases k
  {
    var j := if size < |li| then size else |li|;
    var tail := li[j..];
    assert ChunksOf(li, size) == [li[..j]] + ChunksOf(tail, size);
    if k > 0 {
      assert ChunksOf(li, size)[k] == ChunksOf(tail, size)[k - 1];
      ChunksOfAt(tail, size, k - 1);
      assert Times(k + 1, size) == Times(k, size) + size;
    }
  }

  /** A list of c * size elements falls into exactly c chunks. */
  lemma {:induction false} ChunksOfCount<T>(li: seq<T>, size: nat, c: nat)
    requires size >= 1 && |li| == Times(c, size)
    ensures |ChunksOf(li, size)| == c
  {
    ChunksOfLaws(li, size);
    var n := |ChunksOf(li, size)|;
    if n > c {
      TimesMono(c, n - 1, size);
    } else if n < c {
      TimesMono(n, c - 1, size);
    }
  }

  /** ... and each of them is full. */
  lemma ChunksOfExactAt<T>(li: seq<T>, size: nat, c: nat, k: nat)
    requires size >= 1 && |li| == Times(c, size) && k < c
    ensures |ChunksOf(li, size)| == c
    ensures Times(k + 1, size) <= |li|
    ensures ChunksOf(li, size)[k] == li[Times(k, size) .. Times(k + 1, size)]
  {
    ChunksOfCount(li, size, c);
    ChunksOfAt(li, size, k);
    TimesMono(k + 1, c, size);
  }

  /** `chunks(li, chunk_size)`: nothing for an empty list or a size below
      one, otherwise the slices `li[i:i + chunk_size]` for i = 0,
      chunk_size, 2 * chunk_size, ... below the length. */
  method Chunks<T>(li: seq<T>, chunkSize: int) returns (r: seq<seq<T>>)
    ensures |li| < 1 || chunkSize < 1 ==> r == []
    ensures |li| >= 1 && chunkSize >= 1 ==> r == ChunksOf(li, chunkSize)
  {
    r := [];
    if |li| < 1 || chunkSize < 1 {
      return;
    }
    var i := 0;
    while i < |li|
      invariant ChunksOf(li, chunkSize) == r + ChunksOf(li[if i < |li| then i else |li|..], chunkSize)
      decreases |li| - i
    {
      var end := if i + chunkSize < |li| then i + chunkSize else |li|;
      var rest := li[i..];
      assert ChunksOf(rest, chunkSize) == [rest[..end - i]] + ChunksOf(rest[end - i..], chunkSize);
      assert rest[..end - i] == li[i..end] && rest[end - i..] == li[end..];
      r := r + [li[i..end]];
      i := i + chunkSize;
    }
  }

  lemma DivMod(n: nat, d: nat)
    requires d >= 1
    ensures n == d * (n / d) + n % d && 0 <= n % d < d
    ensures n < d ==> n / d == 0 && n % d == n
  {
  }

  /** Where the k-th of ms nearly equal parts of n elements starts: the first
      ms - n % ms parts have n / ms elements, the others one more. */
  function SplitPoint(n: nat, ms: nat, k: nat): nat
    requires ms >= 1
  {
    var small := ms - n % ms;
    Times(k, n / ms) + (if k > small then k - small else 0)
  }

  lemma SplitPointStep(n: nat, ms: nat, k: nat)
    requires ms >= 1 && k < ms
    ensures SplitPoint(n, ms, k + 1) == SplitPoint(n, ms, k) + n / ms + (if k >= ms - n % ms then 1 else 0)
  {
    assert Times(k + 1, n / ms) == Times(k, n / ms) + n / ms;
  }

  lemma SplitPointEnds(n: nat, ms: nat)
    requires ms >= 1
    ensures SplitPoint(n, ms, 0) == 0 && SplitPoint(n, ms, ms) == n
  {
    DivMod(n, ms);
    TimesIsMul(ms, n / ms);
  }

  /** Split points never decrease and never pass n. */
  lemma SplitPointBounds(n: nat, ms: nat, k: nat)
    requires ms >= 1 && k < ms
    ensures SplitPoint(n, ms, k) <= SplitPoint(n, ms, k + 1) <= n
  {
    SplitPointStep(n, ms, k);
    SplitPointEnds(n, ms);
    TimesMono(k + 1, ms, n / ms);
  }

  /** The k-th of the ms nearly equal parts of li. */
  function Part<T>(li: seq<T>, ms: nat, k: nat): seq<T>
    requires ms >= 1 && k < ms
  {
    SplitPointBounds(|li|, ms, k);
    li[SplitPoint(|li|, ms, k) .. SplitPoint(|li|, ms, k + 1)]
  }

  /** li cut into ms consecutive parts whose sizes differ by at most one,
      the shorter ones first. */
  function Parts<T>(li: seq<T>, ms: nat): (r: seq<seq<T>>)
    requires ms >= 1
    ensures |r| == ms
    ensures forall k :: 0 <= k < ms ==> r[k] == Part(li, ms, k)
  {
    seq(ms, k requires 0 <= k < ms => Part(li, ms, k))
  }

  lemma {:induction false} PartsPrefix<T>(li: seq<T>, ms: nat, k: nat)
    requires ms >= 1 && k <= ms
    ensures SplitPoint(|li|, ms, k) <= |li|
    ensures Concat(Parts(li, ms)[..k]) == li[..SplitPoint(|li|, ms, k)]
    decreases k
  {
    if k > 0 {
      var ps := Parts(li, ms);
      PartsPrefix(li, ms, k - 1);
      SplitPointBounds(|li|, ms, k - 1);
      assert ps[..k] == ps[..k - 1] + [ps[k - 1]];
      ConcatAppend(ps[..k - 1], [ps[k - 1]]);
      assert Concat([ps[k - 1]]) == ps[k - 1] + Concat([]);
      var a, b := SplitPoint(|li|, ms, k - 1), SplitPoint(|li|, ms, k);
      assert li[..a] + li[a..b] == li[..b];
    } else {
      SplitPointEnds(|li|, ms);
    }
  }

  /** The size of part k: n / ms for the first ms - n % ms parts, one more
      for the others. */
  lemma PartSize<T>(li: seq<T>, ms: nat, k: nat)
    requires ms >= 1 && k < ms
    ensures |Part(li, ms, k)| == if k < ms - |li| % ms then |li| / ms else |li| / ms + 1
  {
    SplitPointStep(|li|, ms, k);
    SplitPointBounds(|li|, ms, k);
  }

  /** The parts put together give li back; each of the ms parts has n / ms or
      n / ms + 1 elements, the shorter ones first, so that sizes never
      decrease and differ by at most one; when there are at least as many
      elements as parts, no part is empty. */
  lemma {:induction false} PartsLaws<T>(li: seq<T>, ms: nat)
    requires ms >= 1
    ensures Concat(Parts(li, ms)) == li
    ensures forall k :: 0 <= k < ms ==>
      |Parts(li, ms)[k]| == if k < ms - |li| % ms then |li| / ms else |li| / ms + 1
    ensures forall j, k :: 0 <= j <= k < ms ==>
      |Parts(li, ms)[j]| <= |Parts(li, ms)[k]| <= |Parts(li, ms)[j]| + 1
    ensures |li| >= ms ==> forall k :: 0 <= k < ms ==> |Parts(li, ms)[k]| >= 1
  {
    var ps := Parts(li, ms);
    PartsPrefix(li, ms, ms);
    SplitPointEnds(|li|, ms);
    assert ps[..ms] == ps;
    forall k | 0 <= k < ms
      ensures |ps[k]| == if k < ms - |li| % ms then |li| / ms else |li| / ms + 1
    {
      PartSize(li, ms, k);
    }
    if |li| >= ms {
      PartsArith(|li|, ms);
    }
  }

  /** The sizes `chunks_by_split` computes for ms <= n: a chunk size
      q = n // ms of at least one, and a cut after ms - n % ms chunks of q
      elements that leaves n % ms chunks of q + 1. */
  lemma PartsArith(n: nat, ms: nat)
    requires 1 <= ms <= n
    ensures n / ms >= 1
    ensures Times(ms - n % ms, n / ms) + Times(n % ms, n / ms + 1) == n
  {
    var q, m := n / ms, n % ms;
    DivMod(n, ms);
    TimesIsMul(ms, q);
    TimesAdd(ms - m, m, q);
    TimesSuccRight(m, q);
  }

  /** From the first longer part on, part k starts q + 1 elements further
      per part after the cut. */
  lemma PartsPointBack(n: nat, ms: nat, k: nat)
    requires ms >= 1 && ms - n % ms <= k
    ensures SplitPoint(n, ms, k) ==
      Times(ms - n % ms, n / ms) + Times(k - (ms - n % ms), n / ms + 1)
  {
    var q, small := n / ms, ms - n % ms;
    TimesAdd(small, k - small, q);
    TimesSuccRight(k - small, q);
  }

  lemma PartBackPoints(n: nat, ms: nat, k: nat)
    requires 1 <= ms && ms - n % ms <= k < ms
    ensures var q, small := n / ms, ms - n % ms;
      SplitPoint(n, ms, k) == Times(small, q) + Times(k - small, q + 1) &&
      SplitPoint(n, ms, k + 1) == Times(small, q) + Times(k - small + 1, q + 1)
  {
    PartsPointBack(n, ms, k);
    PartsPointBack(n, ms, k + 1);
  }

  /** The two halves `chunks_by_split` builds: the first ms - n % ms parts
      are the chunks of size n / ms of the front of the list, the rest the
      chunks of size n / ms + 1 of what remains. */
  lemma {:induction false} PartsByChunks<T>(li: seq<T>, ms: nat)
    requires 1 <= ms <= |li|
    ensures var q, small := |li| / ms, ms - |li| % ms;
      Times(small, q) <= |li| &&
      Parts(li, ms) == ChunksOf(li[..Times(small, q)], q) + ChunksOf(li[Times(small, q)..], q + 1)
  {
    var n := |li|;
    var q, m := n / ms, n % ms;
    var small := ms - m;
    var a := Times(small, q);
    PartsArith(n, ms);
    ChunksOfCount(li[..a], q, small);
    ChunksOfCount(li[a..], q + 1, m);
    var r := ChunksOf(li[..a], q) + ChunksOf(li[a..], q + 1);
    forall k | 0 <= k < ms
      ensures r[k] == Parts(li, ms)[k]
    {
      if k < small {
        PartFront(li, ms, k);
      } else {
        PartBack(li, ms, k);
      }
    }
  }

  /** The j-th full chunk of li[a..], as a slice of li. */
  lemma ChunkAfter<T>(li: seq<T>, a: nat, size: nat, c: nat, j: nat)
    requires a <= |li| && size >= 1 && |li| - a == Times(c, size) && j < c
    ensures |ChunksOf(li[a..], size)| == c
    ensures a + Times(j + 1, size) <= |li|
    ensures ChunksOf(li[a..], size)[j] == li[a + Times(j, size) .. a + Times(j + 1, size)]
  {
    var back := li[a..];
    ChunksOfExactAt(back, size, c, j);
    assert back[Times(j, size) .. Times(j + 1, size)] == li[a + Times(j, size) .. a + Times(j + 1, size)];
  }

  /** One of the shorter parts is a chunk of the front. */
  lemma PartFront<T>(li: seq<T>, ms: nat, k: nat)
    requires 1 <= ms <= |li| && k < ms - |li| % ms
    ensures var q, small := |li| / ms, ms - |li| % ms;
      Times(small, q) <= |li| && |ChunksOf(li[..Times(small, q)], q)| == small &&
      Part(li, ms, k) == ChunksOf(li[..Times(small, q)], q)[k]
  {
    var q, small := |li| / ms, ms - |li| % ms;
    var a := Times(small, q);
    PartsArith(|li|, ms);
    var front := li[..a];
    ChunksOfExactAt(front, q, small, k);
    assert front[Times(k, q) .. Times(k + 1, q)] == li[Times(k, q) .. Times(k + 1, q)];
  }

  /** One of the longer parts is a chunk of what follows the front. */
  lemma PartBack<T>(li: seq<T>, ms: nat, k: nat)
    requires 1 <= ms <= |li| && ms - |li| % ms <= k < ms
    ensures var q, small := |li| / ms, ms - |li| % ms;
      Times(small, q) <= |li| && |ChunksOf(li[Times(small, q)..], q + 1)| == ms - small &&
      Part(li, ms, k) == ChunksOf(li[Times(small, q)..], q + 1)[k - small]
  {
    var q, m := |li| / ms, |li| % ms;
    var small := ms - m;
    var a, j := Times(small, q), k - small;
    PartsArith(|li|, ms);
    PartBackPoints(|li|, ms, k);
    ChunkAfter(li, a, q + 1, m, j);
    assert Part(li, ms, k) == li[a + Times(j, q + 1) .. a + Times(j + 1, q + 1)];
  }

  /** `chunks_by_split(li, max_split)`: ZeroDivisionError for no split;
      `[li]` when the floor quotient of the length by max_split is 0, which
      for a positive max_split means fewer elements than parts; otherwise the
      chunks of size n // max_split of the front and of size
      n // max_split + 1 of the rest.  For a positive max_split that is
      exactly the max_split nearly equal parts of li; for a negative one the
      chunk sizes are below one and nothing is produced. */
  method ChunksBySplit<T>(li: seq<T>, maxSplit: int) returns (r: Result<seq<seq<T>>>)
    ensures maxSplit == 0 ==> r == Err(ZeroDivisionError)
    ensures maxSplit >= 1 && |li| < maxSplit ==> r == Ok([li])
    ensures maxSplit >= 1 && |li| >= maxSplit ==> r == Ok(Parts(li, maxSplit))
    ensures maxSplit < 0 ==> r == Ok(if li == [] then [li] else [])
  {
    if maxSplit == 0 {
      return Err(ZeroDivisionError);
    }
    if maxSplit >= 1 {
      DivMod(|li|, maxSplit);
      if |li| >= maxSplit {
        PartsArith(|li|, maxSplit);
      }
    }
    var minChunkSize := FloorDiv(|li|, maxSplit);
    var maxChunkSize := minChunkSize + 1;
    if minChunkSize == 0 {
      return Ok([li]);
    }
    var maxChunkSplit := FloorMod(|li|, maxSplit);
    var minChunkSplit := maxSplit - maxChunkSplit;
    var cut := SliceBound(minChunkSize * minChunkSplit, |li|);
    var li2: seq<seq<T>> := [];
    var first := Chunks(li[..cut], minChunkSize);
    li2 := li2 + first;
    var second := Chunks(li[cut..], maxChunkSize);
    li2 := li2 + second;
    assert li2 == first + second;
    if maxSplit < 0 {
      assert minChunkSize < 0 && li != [];
      assert first == [] && second == [];
    } else {
      PartsByChunks(li, maxSplit);
      TimesIsMul(minChunkSplit, minChunkSize);
      assert cut == Times(minChunkSplit, minChunkSize);
      TimesMono(1, minChunkSplit, minChunkSize);
      assert first == ChunksOf(li[..cut], minChunkSize);
      assert second == ChunksOf(li[cut..], maxChunkSize);
    }
    r := Ok(li2);
  }
}
