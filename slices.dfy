/**
 * Cutting a list into consecutive pieces with `Array.prototype.slice`, the
 * way all three batching loops of the pipeline do it: the SQL generator
 * (200 rows per INSERT), the seeder (500 rows per upsert) and the seed
 * splitter (6 chunks of at most ceil(n/6) statements).
 */
module Slices {

  function Min(a: nat, b: nat): nat {
    if a <= b then a else b
  }

  /** `Math.ceil(a / b)` for a natural `a` and a positive `b`. */
  function CeilDiv(a: nat, b: nat): (q: nat)
    requires b > 0
    ensures q * b >= a
    ensures q > 0 ==> (q - 1) * b < a
  {
    var q := (a + b - 1) / b;
    assert q * b + (a + b - 1) % b == a + b - 1;
    q
  }

  /**
   * `xs.slice(lo, hi)` for non-negative bounds: both are clamped to the
   * length, and a range that is empty after clamping gives `[]`.
   */
  function Slice<T>(xs: seq<T>, lo: nat, hi: nat): seq<T> {
    var end := Min(hi, |xs|);
    xs[Min(lo, end)..end]
  }

  /** The pieces laid end to end. */
  function Concat<T>(xss: seq<seq<T>>): seq<T> {
    if |xss| == 0 then [] else Concat(xss[..|xss| - 1]) + xss[|xss| - 1]
  }

  /** `count` consecutive slices of `width` elements: `xs.slice(k * width, (k + 1) * width)` for each k. */
  function Strides<T>(xs: seq<T>, width: nat, count: nat): (r: seq<seq<T>>)
    ensures |r| == count
    ensures forall k :: 0 <= k < count ==> |r[k]| <= width
  {
    seq(count, k requires 0 <= k < count => Slice(xs, k * width, k * width + width))
  }

  /**
   * The stride loop `for (i = 0; i < xs.length; i += size) xs.slice(i, i + size)`:
   * as many slices as the loop runs, ceil(|xs| / size).
   */
  function Batches<T>(xs: seq<T>, size: nat): seq<seq<T>>
    requires size > 0
  {
    Strides(xs, size, CeilDiv(|xs|, size))
  }

  /** Laying the first `count` strides end to end gives the prefix they cover. */
  lemma {:induction false} StridesConcat<T>(xs: seq<T>, width: nat, count: nat)
    ensures Concat(Strides(xs, width, count)) == xs[..Min(count * width, |xs|)]
  {
    if count > 0 {
      var m := count - 1;
      var s := Strides(xs, width, count);
      assert s[..m] == Strides(xs, width, m);
      StridesConcat(xs, width, m);
      var lo := m * width;
      MulSucc(m, width);
      var hi := lo + width;
      assert s[m] == Slice(xs, lo, hi);
      calc {
        Concat(s);
        Concat(s[..m]) + s[m];
        xs[..Min(lo, |xs|)] + xs[Min(lo, Min(hi, |xs|))..Min(hi, |xs|)];
        { assert Min(lo, |xs|) == Min(lo, Min(hi, |xs|)); }
        xs[..Min(hi, |xs|)];
      }
    }
  }

  lemma MulSucc(m: nat, w: nat)
    ensures (m + 1) * w == m * w + w
  {
  }

  lemma {:induction false} MulMonotone(a: nat, b: nat, c: nat)
    requires a <= b
    ensures a * c <= b * c
  {
    if a < b {
      MulMonotone(a, b - 1, c);
      MulSucc(b - 1, c);
    }
  }

  /**
   * The batches partition `xs`: laid end to end they give `xs` back, there
   * are ceil(|xs| / size) of them, none is empty, none is longer than
   * `size`, and every batch but the last has exactly `size` elements.
   */
  lemma BatchesPartition<T>(xs: seq<T>, size: nat)
    requires size > 0
    ensures Concat(Batches(xs, size)) == xs
    ensures |Batches(xs, size)| == CeilDiv(|xs|, size)
    ensures forall k :: 0 <= k < |Batches(xs, size)| ==> 0 < |Batches(xs, size)[k]| <= size
    ensures forall k :: 0 <= k < |Batches(xs, size)| - 1 ==> |Batches(xs, size)[k]| == size
  {
    var q := CeilDiv(|xs|, size);
    StridesConcat(xs, size, q);
    assert Min(q * size, |xs|) == |xs|;
    forall k | 0 <= k < q
      ensures 0 < |Batches(xs, size)[k]|
      ensures k < q - 1 ==> |Batches(xs, size)[k]| == size
    {
      BatchLength(xs, size, q, k);
    }
  }

  lemma BatchLength<T>(xs: seq<T>, size: nat, q: nat, k: nat)
    requires size > 0 && q == CeilDiv(|xs|, size) && k < q
    ensures 0 < |Slice(xs, k * size, k * size + size)|
    ensures k < q - 1 ==> |Slice(xs, k * size, k * size + size)| == size
  {
    var lo := k * size;
    MulMonotone(k, q - 1, size);
    assert lo < |xs|;
    if k < q - 1 {
      MulMonotone(k + 1, q - 1, size);
      MulSucc(k, size);
      assert lo + size < |xs|;
    }
  }

  /** Laying out two lists of pieces one after the other. */
  lemma {:induction false} ConcatAppend<T>(a: seq<seq<T>>, b: seq<seq<T>>)
    ensures Concat(a + b) == Concat(a) + Concat(b)
  {
    if b != [] {
      var n := |b| - 1;
      ConcatAppend(a, b[..n]);
      assert (a + b)[..|a + b| - 1] == a + b[..n];
    } else {
      assert a + b == a;
    }
  }

  /**
   * The stride loop `for (i = 0; i < n; i += size)` is still running after
   * `k` steps exactly when `k` is below ceil(n / size).
   */
  lemma BelowCeil(n: nat, size: nat, k: nat)
    requires size > 0
    ensures k * size < n <==> k < CeilDiv(n, size)
  {
    var q := CeilDiv(n, size);
    if k < q {
      MulMonotone(k, q - 1, size);
    } else {
      MulMonotone(q, k, size);
    }
  }

  /** One more element of `xs`. */
  lemma PrefixSnoc<T>(xs: seq<T>, k: nat)
    requires k < |xs|
    ensures xs[..k + 1] == xs[..k] + [xs[k]]
  {
  }

  /** A non-empty list is its front followed by its last element. */
  lemma InitLast<T>(xs: seq<T>)
    requires |xs| > 0
    ensures xs == xs[..|xs| - 1] + [xs[|xs| - 1]]
  {
  }
}
