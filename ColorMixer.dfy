/** Colour averaging (AverageColorMixer) from the colour-mixer tool. */
module ColorMixer {
  import opened Wrappers
  import opened Colors

  datatype Channel = Red | Green | Blue

  function ChannelOf(c: Color, ch: Channel): Byte {
    match ch
    case Red => c.r
    case Green => c.g
    case Blue => c.b
  }

  /** The sum of one channel over a list of colours. */
  function Sum(cs: seq<Color>, ch: Channel): nat {
    if cs == [] then 0 else Sum(cs[..|cs| - 1], ch) + ChannelOf(cs[|cs| - 1], ch)
  }

  lemma {:induction false} SumBounds(cs: seq<Color>, ch: Channel, lo: int, hi: int)
    requires forall i :: 0 <= i < |cs| ==> lo <= ChannelOf(cs[i], ch) <= hi
    ensures |cs| * lo <= Sum(cs, ch) <= |cs| * hi
    decreases |cs|
  {
    if cs != [] {
      var m := |cs| - 1;
      var init := cs[..m];
      forall i | 0 <= i < |init|
        ensures lo <= ChannelOf(init[i], ch) <= hi
      {
        assert init[i] == cs[i];
      }
      SumBounds(init, ch, lo, hi);
      assert Sum(cs, ch) == Sum(init, ch) + ChannelOf(cs[m], ch);
      MulStep(m, lo);
      MulStep(m, hi);
    }
  }

  lemma MulStep(m: nat, a: int)
    ensures (m + 1) * a == m * a + a
  {
  }

  lemma SumStep(cs: seq<Color>, i: nat)
    requires i < |cs|
    ensures forall ch :: Sum(cs[..i + 1], ch) == Sum(cs[..i], ch) + ChannelOf(cs[i], ch)
  {
    assert cs[..i + 1][..i] == cs[..i];
  }

  lemma MulMonotone(n: nat, a: int, b: int)
    requires a <= b
    ensures n * a <= n * b
  {
    assert n * b - n * a == n * (b - a);
  }

  /** Floor division by a positive count keeps a value bounded by count * lo and count * hi within [lo, hi]. */
  lemma DivBetween(s: int, n: int, lo: int, hi: int)
    requires n > 0 && n * lo <= s <= n * hi
    ensures lo <= s / n <= hi
  {
    var q, m := s / n, s % n;
    assert s == n * q + m && 0 <= m < n;
    if q < lo {
      MulMonotone(n, q, lo - 1);
    }
    if q > hi {
      MulMonotone(n, hi + 1, q);
    }
  }

  /** The channel value of the mixed colour: floor of the mean. */
  function Average(cs: seq<Color>, ch: Channel): Byte
    requires cs != []
  {
    SumBounds(cs, ch, 0, 255);
    DivBetween(Sum(cs, ch), |cs|, 0, 255);
    Sum(cs, ch) / |cs|
  }

  /**
   * AverageColorMixer.Mix: fails on an empty list; otherwise each channel is the
   * sum of that channel over the list divided by its length (C#'s long division,
   * which on non-negative values is floor division), and the result is opaque.
   */
  method Mix(colors: seq<Color>) returns (r: Result<Color, ColorError>)
    ensures colors == [] <==> r == Failure(EmptyList)
    ensures colors != [] ==>
      r == Success(FromRgb(Average(colors, Red), Average(colors, Green), Average(colors, Blue)))
  {
    if |colors| == 0 {
      return Failure(EmptyList);
    }
    var sumR, sumG, sumB := 0, 0, 0;
    for i := 0 to |colors|
      invariant sumR == Sum(colors[..i], Red)
      invariant sumG == Sum(colors[..i], Green)
      invariant sumB == Sum(colors[..i], Blue)
    {
      SumStep(colors, i);
      sumR := sumR + colors[i].r;
      sumG := sumG + colors[i].g;
      sumB := sumB + colors[i].b;
    }
    assert colors[..|colors|] == colors;
    var n := |colors|;
    assert sumR / n == Average(colors, Red) && sumG / n == Average(colors, Green) && sumB / n == Average(colors, Blue);
    r := Success(FromRgb(sumR / n, sumG / n, sumB / n));
  }

  /** Every channel of the mix lies between the smallest and the largest value of that channel. */
  lemma AverageBetween(cs: seq<Color>, ch: Channel, lo: int, hi: int)
    requires cs != []
    requires forall i :: 0 <= i < |cs| ==> lo <= ChannelOf(cs[i], ch) <= hi
    ensures lo <= Average(cs, ch) <= hi
  {
    SumBounds(cs, ch, lo, hi);
    DivBetween(Sum(cs, ch), |cs|, lo, hi);
  }

  /** A single colour mixes to itself (made opaque). */
  lemma AverageOfOne(c: Color, ch: Channel)
    ensures Average([c], ch) == ChannelOf(c, ch)
  {
    assert [c][..0] == [];
    assert Sum([c], ch) == ChannelOf(c, ch);
  }

  lemma {:induction false} SumConcat(u: seq<Color>, v: seq<Color>, ch: Channel)
    ensures Sum(u + v, ch) == Sum(u, ch) + Sum(v, ch)
    decreases |v|
  {
    if v == [] {
      assert u + v == u;
    } else {
      assert (u + v)[..|u + v| - 1] == u + v[..|v| - 1];
      SumConcat(u, v[..|v| - 1], ch);
    }
  }

  lemma SumRemove(b: seq<Color>, j: nat, ch: Channel)
    requires j < |b|
    ensures Sum(b, ch) == Sum(b[..j] + b[j + 1..], ch) + ChannelOf(b[j], ch)
  {
    assert b == (b[..j] + [b[j]]) + b[j + 1..];
    SumConcat(b[..j] + [b[j]], b[j + 1..], ch);
    SumConcat(b[..j], [b[j]], ch);
    SumConcat(b[..j], b[j + 1..], ch);
    assert [b[j]][..0] == [];
  }

  lemma MultisetRemove(b: seq<Color>, j: nat)
    requires j < |b|
    ensures multiset(b[..j] + b[j + 1..]) == multiset(b) - multiset{b[j]}
  {
    assert b == b[..j] + [b[j]] + b[j + 1..];
  }

  lemma {:induction false} SumPermutation(a: seq<Color>, b: seq<Color>, ch: Channel)
    requires multiset(a) == multiset(b)
    ensures Sum(a, ch) == Sum(b, ch)
    decreases |a|
  {
    if a == [] {
      assert |b| == |multiset(b)| == 0;
    } else {
      var x := a[|a| - 1];
      var a' := a[..|a| - 1];
      assert a == a' + [x];
      assert multiset(a) == multiset(a') + multiset{x};
      assert x in multiset(b);
      var j :| 0 <= j < |b| && b[j] == x;
      var rest := b[..j] + b[j + 1..];
      MultisetRemove(b, j);
      assert multiset(a') == multiset(rest);
      SumPermutation(a', rest, ch);
      SumRemove(b, j, ch);
      assert Sum(a, ch) == Sum(a', ch) + ChannelOf(x, ch);
    }
  }

  /** The mix does not depend on the order of the list. */
  lemma AverageOrderIndependent(a: seq<Color>, b: seq<Color>, ch: Channel)
    requires a != [] && multiset(a) == multiset(b)
    ensures b != [] && Average(a, ch) == Average(b, ch)
  {
    assert |a| == |multiset(a)| == |multiset(b)| == |b|;
    SumPermutation(a, b, ch);
  }
}
