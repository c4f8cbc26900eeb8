/** The array work of `infer_image` (utils.py): rescale each input band
    against its own 90th percentile, and threshold the network's raw output
    into a 0/1 mask. Both are done in place, as the source does. */
module Pipeline {

  /** The cut-off the network's raw output is compared with. */
  const Cutoff: real := 0.5

  function Min(x: real, y: real): real
  {
    if x <= y then x else y
  }

  /** What one value of a band becomes when the band's percentile is `p`:
      clipped to `p` and divided by `p` when `p > 0`, left alone otherwise. */
  function Normalized(v: real, p: real): (r: real)
    ensures p > 0.0 ==> r <= 1.0
    ensures p > 0.0 && v >= 0.0 ==> 0.0 <= r
    ensures p > 0.0 && v >= p ==> r == 1.0
    ensures p <= 0.0 ==> r == v
  {
    if p > 0.0 then Min(v, p) / p else v
  }

  /** Scaling a band and its percentile by the same positive factor does not
      change the normalised value. */
  lemma NormalizedScaleInvariant(v: real, p: real, c: real)
    requires p > 0.0 && c > 0.0
    ensures Normalized(c * v, c * p) == Normalized(v, p)
  {
  }

  /** Division by a positive number keeps order. */
  lemma DivMono(a: real, b: real, p: real)
    requires a <= b && p > 0.0
    ensures a / p <= b / p
  {
    assert b / p - a / p == (b - a) * (1.0 / p);
  }

  /** Normalisation keeps the order of the values within a band. */
  lemma NormalizedMonotonic(v: real, w: real, p: real)
    requires v <= w
    ensures Normalized(v, p) <= Normalized(w, p)
  {
    if p > 0.0 {
      DivMono(Min(v, p), Min(w, p), p);
    }
  }

  /** The mask value for one raw output: 1 above the cut-off, 0 at or below. */
  function Binarized(v: real): (r: real)
    ensures r == 0.0 || r == 1.0
    ensures r == 1.0 <==> v > Cutoff
  {
    if v > Cutoff then 1.0 else 0.0
  }

  /** Band `b` of `a`, as the grid of values the percentile is computed on. */
  function Band(a: array3<real>, b: int): seq<seq<real>>
    requires 0 <= b < a.Length0
    reads a
  {
    seq(a.Length1, i requires 0 <= i < a.Length1 reads a =>
      seq(a.Length2, j requires 0 <= j < a.Length2 reads a => a[b, i, j]))
  }

  /** The masked assignment of utils.py:156: every value of the band above
      `p` is lowered to `p`. */
  method ClipBand(a: array3<real>, band: int, p: real)
    requires 0 <= band < a.Length0
    modifies a
    ensures forall b, i, j :: 0 <= b < a.Length0 && 0 <= i < a.Length1 && 0 <= j < a.Length2 ==>
              a[b, i, j] == if b == band then Min(old(a[b, i, j]), p) else old(a[b, i, j])
  {
    for i := 0 to a.Length1
      invariant forall b, i', j :: 0 <= b < a.Length0 && 0 <= i' < a.Length1 && 0 <= j < a.Length2 ==>
                  a[b, i', j] == if b == band && i' < i then Min(old(a[b, i', j]), p) else old(a[b, i', j])
    {
      for j := 0 to a.Length2
        invariant forall b, i', j' :: 0 <= b < a.Length0 && 0 <= i' < a.Length1 && 0 <= j' < a.Length2 ==>
                    a[b, i', j'] == if b == band && (i' < i || (i' == i && j' < j))
                                    then Min(old(a[b, i', j']), p) else old(a[b, i', j'])
      {
        if a[band, i, j] > p {
          a[band, i, j] := p;
        }
      }
    }
  }

  /** The division of utils.py:157: every value of the band is divided by
      `p`. */
  method ScaleBand(a: array3<real>, band: int, p: real)
    requires 0 <= band < a.Length0 && p != 0.0
    modifies a
    ensures forall b, i, j :: 0 <= b < a.Length0 && 0 <= i < a.Length1 && 0 <= j < a.Length2 ==>
              a[b, i, j] == if b == band then old(a[b, i, j]) / p else old(a[b, i, j])
  {
    for i := 0 to a.Length1
      invariant forall b, i', j :: 0 <= b < a.Length0 && 0 <= i' < a.Length1 && 0 <= j < a.Length2 ==>
                  a[b, i', j] == if b == band && i' < i then old(a[b, i', j]) / p else old(a[b, i', j])
    {
      for j := 0 to a.Length2
        invariant forall b, i', j' :: 0 <= b < a.Length0 && 0 <= i' < a.Length1 && 0 <= j' < a.Length2 ==>
                    a[b, i', j'] == if b == band && (i' < i || (i' == i && j' < j))
                                    then old(a[b, i', j']) / p else old(a[b, i', j'])
      {
        a[band, i, j] := a[band, i, j] / p;
      }
    }
  }

  /** The per-band loop of utils.py:152-157. The percentile is taken
      of the band as it stands when its turn comes, which is the band as it
      was on entry: no earlier turn touches it. */
  method NormalizeBands(inputs: array3<real>, percentile: seq<seq<real>> -> real)
    modifies inputs
    ensures forall b, i, j :: 0 <= b < inputs.Length0 && 0 <= i < inputs.Length1 && 0 <= j < inputs.Length2 ==>
              inputs[b, i, j] == Normalized(old(inputs[b, i, j]), percentile(old(Band(inputs, b))))
  {
    for band := 0 to inputs.Length0
      invariant forall b, i, j :: 0 <= b < inputs.Length0 && 0 <= i < inputs.Length1 && 0 <= j < inputs.Length2 ==>
                  inputs[b, i, j] == if b < band
                                     then Normalized(old(inputs[b, i, j]), percentile(old(Band(inputs, b))))
                                     else old(inputs[b, i, j])
    {
      forall i | 0 <= i < inputs.Length1
        ensures Band(inputs, band)[i] == old(Band(inputs, band))[i]
      {
        assert forall j :: 0 <= j < inputs.Length2 ==>
                 Band(inputs, band)[i][j] == old(Band(inputs, band))[i][j];
      }
      assert Band(inputs, band) == old(Band(inputs, band));
      var p := percentile(Band(inputs, band));
      if p > 0.0 {
        ClipBand(inputs, band, p);
        ScaleBand(inputs, band, p);
      }
    }
  }

  /** The two masked assignments of utils.py:161-162: cells above the
      cut-off become 1, then cells at or below it become 0. The second mask is
      taken after the first assignment; as 1 is above the cut-off, the cells
      set to 1 are left alone by it. */
  method Threshold(res: array2<real>)
    modifies res
    ensures forall i, j :: 0 <= i < res.Length0 && 0 <= j < res.Length1 ==>
              res[i, j] == Binarized(old(res[i, j]))
  {
    for i := 0 to res.Length0
      invariant forall i', j :: 0 <= i' < res.Length0 && 0 <= j < res.Length1 ==>
                  res[i', j] == if i' < i && old(res[i', j]) > Cutoff then 1.0 else old(res[i', j])
    {
      for j := 0 to res.Length1
        invariant forall i', j' :: 0 <= i' < res.Length0 && 0 <= j' < res.Length1 ==>
                    res[i', j'] == if (i' < i || (i' == i && j' < j)) && old(res[i', j']) > Cutoff
                                   then 1.0 else old(res[i', j'])
      {
        if res[i, j] > Cutoff {
          res[i, j] := 1.0;
        }
      }
    }
    for i := 0 to res.Length0
      invariant forall i', j :: 0 <= i' < res.Length0 && 0 <= j < res.Length1 ==>
                  res[i', j] == if i' < i then Binarized(old(res[i', j]))
                                else if old(res[i', j]) > Cutoff then 1.0 else old(res[i', j])
    {
      for j := 0 to res.Length1
        invariant forall i', j' :: 0 <= i' < res.Length0 && 0 <= j' < res.Length1 ==>
                    res[i', j'] == if i' < i || (i' == i && j' < j) then Binarized(old(res[i', j']))
                                   else if old(res[i', j']) > Cutoff then 1.0 else old(res[i', j'])
      {
        if res[i, j] <= Cutoff {
          res[i, j] := 0.0;
        }
      }
    }
  }
}
