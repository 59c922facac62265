/**
 * Choosing the sample images to download: keep the 800-pixel variants, sort
 * the keys, then take every `step`-th key up to the requested count.
 */
module Sampling {
  import opened Wrappers
  import opened Strings
  import opened Collections

  const VariantMarker: string := "-800w.webp"

  predicate IsSampleVariant(key: string) { Contains(key, VariantMarker) }

  /** Python's `a // b` (floor division); `None` is the ZeroDivisionError. */
  function FloorDiv(a: int, b: int): (r: Option<int>)
    ensures r.None? <==> b == 0
    ensures b > 0 ==> r == Some(a / b)
    ensures b < 0 ==> r.Some? && r.value * b + b < a <= r.value * b
  {
    if b == 0 then None
    else if b > 0 then Some(a / b)
    else
      var q := (-a) / (-b);
      FloorBelowZero(a, -b, q);
      Some(q)
  }

  lemma FloorBelowZero(a: int, d: int, q: int)
    requires d > 0 && q == (-a) / d
    ensures q * (-d) - d < a <= q * (-d)
  {
    var m := (-a) % d;
    assert -a == q * d + m && 0 <= m < d;
    assert q * (-d) == -(q * d);
  }

  /** Python's `xs[:k]`: a negative bound counts from the end. */
  function TakePy<T>(xs: seq<T>, k: int): (r: seq<T>)
    ensures k >= 0 ==> |r| == (if k < |xs| then k else |xs|)
    ensures k < 0 ==> |r| == (if |xs| + k > 0 then |xs| + k else 0)
    ensures r <= xs
  {
    if k >= 0 then xs[..if k < |xs| then k else |xs|]
    else xs[..if |xs| + k > 0 then |xs| + k else 0]
  }

  /**
   * `i * step`, spelled out by repeated addition so that the stride proofs
   * stay within linear arithmetic; `OffsetIsProduct` connects the two.
   */
  function Offset(i: nat, step: nat): nat {
    if i == 0 then 0 else Offset(i - 1, step) + step
  }

  lemma {:induction false} OffsetIsProduct(i: nat, step: nat)
    ensures Offset(i, step) == i * step
  {
    if i > 0 {
      OffsetIsProduct(i - 1, step);
      assert (i - 1) * step + step == i * step;
    }
  }

  lemma {:induction false} OffsetMono(i: nat, j: nat, step: nat)
    requires i <= j
    ensures Offset(i, step) <= Offset(j, step)
  {
    if i < j {
      OffsetMono(i, j - 1, step);
    }
  }

  /**
   * Python's `xs[::step]` for a positive step: the elements at the multiples
   * of `step`, and as many of them as fit.
   */
  function Stride<T>(xs: seq<T>, step: nat): (r: seq<T>)
    requires step >= 1
    ensures |r| == 0 <==> xs == []
    ensures |xs| <= Offset(|r|, step)
    ensures |r| == 0 || Offset(|r| - 1, step) < |xs|
    ensures forall i :: 0 <= i < |r| ==> Offset(i, step) < |xs| && r[i] == xs[Offset(i, step)]
    decreases |xs|
  {
    if xs == [] then []
    else if |xs| <= step then [xs[0]]
    else
      var rest := Stride(xs[step..], step);
      var r := [xs[0]] + rest;
      forall i | 0 <= i < |r|
        ensures Offset(i, step) < |xs| && r[i] == xs[Offset(i, step)]
      {
        if i > 0 {
          assert r[i] == rest[i - 1];
        }
      }
      r
  }

  /**
   * The stride of the download script: the floor quotient of the candidate
   * count by the requested count, raised to at least one.
   */
  function StepFor(n: nat, sample: int): (step: nat)
    requires sample != 0
    ensures step >= 1
    ensures sample > 0 ==> Offset(step, sample) <= n || step == 1
    ensures sample > 0 && n >= sample ==> Offset(step, sample) <= n < Offset(step + 1, sample)
    ensures sample < 0 ==> step == 1
  {
    var q := FloorDiv(n, sample).value;
    if sample > 0 then
      StepBounds(n, sample, q);
      if q > 1 then q else 1
    else
      NegativeQuotient(n, sample, q);
      1
  }

  lemma NegativeQuotient(n: nat, sample: int, q: int)
    requires sample < 0 && q * sample + sample < n <= q * sample
    ensures q <= 0
  {
  }

  lemma StepBounds(n: nat, sample: int, q: int)
    requires sample > 0 && q == n / sample
    ensures q >= 0
    ensures Offset(q, sample) <= n < Offset(q + 1, sample)
    ensures n >= sample ==> q >= 1
  {
    assert n == q * sample + n % sample;
    OffsetIsProduct(q, sample);
    OffsetIsProduct(q + 1, sample);
    assert (q + 1) * sample == q * sample + sample;
  }

  /** The sorted 800-pixel keys the sample is drawn from. */
  function Candidates(objects: seq<string>): seq<string> {
    SortStrings(Filter(objects, IsSampleVariant))
  }

  /**
   * The key selection of the download script: a failure when there are no
   * objects at all (the script exits) or when the requested count is zero
   * (the floor division raises).
   */
  function SelectSample(objects: seq<string>, sample: int): (r: Result<seq<string>, string>)
    ensures objects == [] ==> r == Failure("No objects found")
    ensures objects != [] && sample == 0 ==> r == Failure("ZeroDivisionError")
    ensures objects != [] && sample != 0 ==> r.Success?
  {
    if objects == [] then Failure("No objects found")
    else if sample == 0 then Failure("ZeroDivisionError")
    else
      var keys := Candidates(objects);
      Success(TakePy(Stride(keys, StepFor(|keys|, sample)), sample))
  }

  /**
   * Every chosen key is the candidate at a multiple of the stride, and at
   * most `sample` keys are chosen.
   */
  lemma SampleIsStrided(objects: seq<string>, sample: int)
    requires objects != [] && sample > 0
    ensures var keys := Candidates(objects);
      var step := StepFor(|keys|, sample);
      var chosen := SelectSample(objects, sample).value;
      && |chosen| <= sample
      && forall i :: 0 <= i < |chosen| ==> Offset(i, step) < |keys| && chosen[i] == keys[Offset(i, step)]
  {
    var keys := Candidates(objects);
    var step := StepFor(|keys|, sample);
    var strided := Stride(keys, step);
    var chosen := SelectSample(objects, sample).value;
    assert chosen <= strided;
    forall i | 0 <= i < |chosen|
      ensures Offset(i, step) < |keys| && chosen[i] == keys[Offset(i, step)]
    {
      assert chosen[i] == strided[i];
    }
  }

  /** Every chosen key is an 800-pixel variant present among the objects. */
  lemma SampleKeysQualify(objects: seq<string>, sample: int, i: int)
    requires objects != [] && sample != 0
    requires 0 <= i < |SelectSample(objects, sample).value|
    ensures var k := SelectSample(objects, sample).value[i];
      IsSampleVariant(k) && k in objects
  {
    var keys := Candidates(objects);
    var f := Filter(objects, IsSampleVariant);
    var strided := Stride(keys, StepFor(|keys|, sample));
    var k := SelectSample(objects, sample).value[i];
    assert k == strided[i];
    assert k in multiset(keys);
    assert k in f;
  }

  /** When the sample is non-empty its first key is the smallest candidate. */
  lemma SampleStartsWithSmallest(objects: seq<string>, sample: int)
    requires objects != [] && sample != 0 && SelectSample(objects, sample).value != []
    ensures var first := SelectSample(objects, sample).value[0];
      first == Candidates(objects)[0]
      && forall k :: k in Candidates(objects) ==> LexLeq(first, k)
  {
    var keys := Candidates(objects);
    forall k | k in keys
      ensures LexLeq(keys[0], k)
    {
      var j :| 0 <= j < |keys| && keys[j] == k;
      if j > 0 {
        assert Sorted(keys, LexLeq);
      } else {
        LexLeqReflexive(k);
      }
    }
  }

  lemma LexLeqReflexive(a: string)
    ensures LexLeq(a, a)
  {
    LexLeqTotal(a, a);
  }

  /** With at least `sample` candidates, exactly `sample` keys are chosen. */
  lemma SampleHasRequestedSize(objects: seq<string>, sample: int)
    requires objects != [] && 1 <= sample <= |Candidates(objects)|
    ensures |SelectSample(objects, sample).value| == sample
  {
    var keys := Candidates(objects);
    var step := StepFor(|keys|, sample);
    EnoughStrides(|keys|, sample, step, |Stride(keys, step)|);
  }

  lemma EnoughStrides(n: nat, sample: nat, step: nat, len: nat)
    requires 1 <= sample && 1 <= step
    requires Offset(step, sample) <= n <= Offset(len, step)
    ensures len >= sample
  {
    OffsetIsProduct(step, sample);
    OffsetIsProduct(sample, step);
    if len < sample {
      OffsetMono(len, sample - 1, step);
    }
  }

  /** The local filename: the part of the key after its last "/". */
  function LocalFilename(key: string): (name: string)
    ensures '/' !in name && EndsWith(key, name)
    ensures |name| < |key| ==> key[|key| - |name| - 1] == '/'
  {
    LastSegment(key, '/')
  }
}
