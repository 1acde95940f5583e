/** Python value semantics the Hangul helpers rely on: exceptions as a Result,
    None as an Option, indexing with negative positions, truncating division
    and string concatenation. */
module PyTypes {

  /** The exceptions the modelled code can raise. */
  datatype PyError = IndexError | ValueError | TypeError | ZeroDivisionError

  /** A computation that either returns a value or raises. */
  datatype Result<T> = Ok(value: T) | Err(error: PyError) {
    predicate IsFailure() { Err? }

    function PropagateFailure<U>(): Result<U>
      requires Err?
    {
      Err(error)
    }

    function Extract(): T
      requires Ok?
    {
      value
    }
  }

  /** A Python value that may be `None`. */
  datatype Option<T> = None | Some(value: T)

  /** `xs[k]` in Python: a negative k counts from the end; IndexError outside. */
  function PyIndex<T>(xs: seq<T>, k: int): (r: Result<T>)
    ensures r.Ok? <==> -|xs| <= k < |xs|
    ensures r.Ok? ==> r.value == xs[if k >= 0 then k else |xs| + k]
    ensures r.Err? ==> r.error == IndexError
  {
    if 0 <= k < |xs| then Ok(xs[k])
    else if -|xs| <= k < 0 then Ok(xs[|xs| + k])
    else Err(IndexError)
  }

  /** `int(a / b)` for a positive b: the float quotient truncated toward zero.
      For the magnitudes that occur here the float quotient is exact enough
      that this equals the truncated rational quotient.  The contract is the
      rounding itself: q is the integer between zero and a / b that is less
      than one step of b away from it. */
  function TruncDiv(a: int, b: int): (q: int)
    requires b > 0
    ensures a >= 0 ==> 0 <= q && q * b <= a < q * b + b
    ensures a < 0 ==> q <= 0 && q * b - b < a <= q * b
  {
    if a >= 0 then a / b else -((-a) / b)
  }

  /** `a // b`: Python's floor division.  Dafny's `/` floors for a positive
      divisor, and a / b == (-a) / (-b) as rationals. */
  function FloorDiv(a: int, b: int): (q: int)
    requires b != 0
    ensures b > 0 ==> q == a / b
    ensures a == 0 ==> q == 0
    ensures b < 0 < a ==> q < 0
  {
    NegativeQuotient(if b > 0 then a else -a, if b > 0 then b else -b);
    if b > 0 then a / b else (-a) / (-b)
  }

  lemma NegativeQuotient(x: int, d: int)
    requires d > 0
    ensures x < 0 ==> x / d < 0
    ensures x == 0 ==> x / d == 0
  {
  }

  /** `a % b`: Python's remainder, `a - b * (a // b)`, which for a positive b
      is the Euclidean one. */
  function FloorMod(a: int, b: int): (m: int)
    requires b != 0
    ensures b > 0 ==> m == a % b
  {
    a - b * FloorDiv(a, b)
  }

  /** Where a slice bound k lands in a sequence of length n: a negative k
      counts from the end, and both ends are clamped. */
  function SliceBound(k: int, n: nat): (r: nat)
    ensures r <= n
    ensures 0 <= k <= n ==> r == k
  {
    if k < 0 then (if n + k < 0 then 0 else n + k) else if k > n then n else k
  }

  /** `''.join(pieces)` for strings, `sum(pieces, [])` for lists. */
  function Concat<T>(pieces: seq<seq<T>>): seq<T>
  {
    if pieces == [] then [] else pieces[0] + Concat(pieces[1..])
  }

  lemma {:induction false} ConcatAppend<T>(a: seq<seq<T>>, b: seq<seq<T>>)
    ensures Concat(a + b) == Concat(a) + Concat(b)
  {
    if a == [] {
      assert a + b == b;
    } else {
      assert (a + b)[1..] == a[1..] + b;
      ConcatAppend(a[1..], b);
    }
  }

  lemma AppendAssoc<T>(a: seq<T>, b: seq<T>, c: seq<T>)
    ensures (a + b) + c == a + (b + c)
  {
  }

  /** The one-character strings of s, in order: what `tuple(s)` gives. */
  function Letters(s: string): (r: seq<string>)
    ensures |r| == |s|
    ensures forall i :: 0 <= i < |s| ==> r[i] == [s[i]]
  {
    seq(|s|, i requires 0 <= i < |s| => [s[i]])
  }

  lemma {:induction false} LettersSnoc(s: string)
    requires s != []
    ensures Letters(s) == Letters(s[..|s| - 1]) + [[s[|s| - 1]]]
  {
  }

  /** Concatenating one-character strings, one per character of s and in
      order, gives s back. */
  lemma {:induction false} ConcatOfLetters(s: string, pieces: seq<string>)
    requires |pieces| == |s|
    requires forall i :: 0 <= i < |s| ==> pieces[i] == [s[i]]
    ensures Concat(pieces) == s
  {
    if s != [] {
      ConcatOfLetters(s[1..], pieces[1..]);
      assert s == [s[0]] + s[1..];
    }
  }

  lemma {:induction false} ConcatLetters(s: string)
    ensures Concat(Letters(s)) == s
  {
    ConcatOfLetters(s, Letters(s));
  }
}
