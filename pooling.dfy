/** `mean_pooling` of lib/ai/ai_model_code.py for one sequence of the batch, over exact
    reals: the token vectors weighted by the attention mask are summed and divided by
    the mask's sum, clamped from below by 1e-9. */
module Pooling {

  /** A token or sentence vector of the encoder's hidden size. */
  type Vector = seq<real>

  /** The lower clamp `min=1e-9` of the divisor. */
  const Epsilon: real := 0.000000001

  /** Every token vector has `dim` entries, and there is one mask entry per token. */
  predicate WellShaped(tokens: seq<Vector>, mask: seq<int>, dim: nat)
  {
    |tokens| == |mask| && forall t :: 0 <= t < |tokens| ==> |tokens[t]| == dim
  }

  /** `mask_expanded.sum(1)` in one feature position (the same in every position). */
  function MaskSum(mask: seq<int>): real
  {
    if mask == [] then 0.0 else mask[0] as real + MaskSum(mask[1..])
  }

  /** `torch.sum(token_embeddings * mask_expanded, 1)` in feature position `d`. */
  function WeightedSum(tokens: seq<Vector>, mask: seq<int>, d: nat): real
    requires |tokens| == |mask| && forall t :: 0 <= t < |tokens| ==> d < |tokens[t]|
  {
    if tokens == [] then 0.0 else tokens[0][d] * mask[0] as real + WeightedSum(tokens[1..], mask[1..], d)
  }

  /** `torch.clamp(mask_expanded.sum(1), min=1e-9)`: never zero, and equal to the mask's
      sum whenever that sum reaches the clamp. */
  function Divisor(mask: seq<int>): (r: real)
    ensures r >= Epsilon && r > 0.0
    ensures MaskSum(mask) >= Epsilon ==> r == MaskSum(mask)
    ensures MaskSum(mask) < Epsilon ==> r == Epsilon
  {
    if MaskSum(mask) < Epsilon then Epsilon else MaskSum(mask)
  }

  /** The pooled vector of one sequence. */
  function MeanPool(tokens: seq<Vector>, mask: seq<int>, dim: nat): (r: Vector)
    requires WellShaped(tokens, mask, dim)
    ensures |r| == dim
  {
    seq(dim, d requires 0 <= d < dim => WeightedSum(tokens, mask, d) / Divisor(mask))
  }

  /** An attention mask: 1 for a real token, 0 for padding. */
  predicate IsAttentionMask(mask: seq<int>)
  {
    forall t :: 0 <= t < |mask| ==> mask[t] == 0 || mask[t] == 1
  }

  /** The token vectors the mask marks as real, in order. */
  function Unmasked(tokens: seq<Vector>, mask: seq<int>): seq<Vector>
    requires |tokens| == |mask|
  {
    if tokens == [] then []
    else (if mask[0] == 1 then [tokens[0]] else []) + Unmasked(tokens[1..], mask[1..])
  }

  /** Sum of the vectors' entries in position `d`. */
  function ColumnSum(vs: seq<Vector>, d: nat): real
    requires forall t :: 0 <= t < |vs| ==> d < |vs[t]|
  {
    if vs == [] then 0.0 else vs[0][d] + ColumnSum(vs[1..], d)
  }

  /** The plain average of a non-empty list of vectors of size `dim`. */
  function Average(vs: seq<Vector>, dim: nat): (r: Vector)
    requires vs != [] && forall t :: 0 <= t < |vs| ==> |vs[t]| == dim
    ensures |r| == dim
  {
    seq(dim, d requires 0 <= d < dim => ColumnSum(vs, d) / |vs| as real)
  }

  lemma {:induction false} UnmaskedSums(tokens: seq<Vector>, mask: seq<int>, dim: nat, d: nat)
    requires WellShaped(tokens, mask, dim) && IsAttentionMask(mask) && d < dim
    ensures forall t :: 0 <= t < |Unmasked(tokens, mask)| ==> d < |Unmasked(tokens, mask)[t]|
    ensures WeightedSum(tokens, mask, d) == ColumnSum(Unmasked(tokens, mask), d)
    ensures MaskSum(mask) == |Unmasked(tokens, mask)| as real
  {
    UnmaskedShape(tokens, mask, dim);
    if tokens != [] {
      UnmaskedSums(tokens[1..], mask[1..], dim, d);
      var rest := Unmasked(tokens[1..], mask[1..]);
      if mask[0] == 1 {
        assert Unmasked(tokens, mask) == [tokens[0]] + rest;
        assert ([tokens[0]] + rest)[1..] == rest;
      } else {
        assert Unmasked(tokens, mask) == rest;
      }
    }
  }

  /** With an attention mask that marks at least one real token, mean pooling is the
      plain average of the real tokens' vectors: padding has no weight. */
  lemma PoolIsAverageOfRealTokens(tokens: seq<Vector>, mask: seq<int>, dim: nat)
    requires WellShaped(tokens, mask, dim) && IsAttentionMask(mask)
    requires exists t :: 0 <= t < |mask| && mask[t] == 1
    ensures Unmasked(tokens, mask) != []
    ensures forall t :: 0 <= t < |Unmasked(tokens, mask)| ==> |Unmasked(tokens, mask)[t]| == dim
    ensures MeanPool(tokens, mask, dim) == Average(Unmasked(tokens, mask), dim)
  {
    var t :| 0 <= t < |mask| && mask[t] == 1;
    UnmaskedNonEmpty(tokens, mask, t);
    var u := Unmasked(tokens, mask);
    UnmaskedShape(tokens, mask, dim);
    forall d | 0 <= d < dim
      ensures MeanPool(tokens, mask, dim)[d] == Average(u, dim)[d]
    {
      UnmaskedSums(tokens, mask, dim, d);
    }
  }

  lemma {:induction false} UnmaskedShape(tokens: seq<Vector>, mask: seq<int>, dim: nat)
    requires WellShaped(tokens, mask, dim)
    ensures forall t :: 0 <= t < |Unmasked(tokens, mask)| ==> |Unmasked(tokens, mask)[t]| == dim
  {
    if tokens != [] {
      UnmaskedShape(tokens[1..], mask[1..], dim);
    }
  }

  lemma {:induction false} UnmaskedNonEmpty(tokens: seq<Vector>, mask: seq<int>, t: nat)
    requires |tokens| == |mask| && t < |mask| && mask[t] == 1
    ensures Unmasked(tokens, mask) != []
  {
    if t > 0 && mask[0] != 1 {
      UnmaskedNonEmpty(tokens[1..], mask[1..], t - 1);
    }
  }

  /** Changing a padded position's vector does not change the pooled vector. */
  lemma {:induction false} PaddingIgnored(tokens: seq<Vector>, other: seq<Vector>, mask: seq<int>, dim: nat)
    requires WellShaped(tokens, mask, dim) && WellShaped(other, mask, dim)
    requires forall t :: 0 <= t < |mask| && mask[t] != 0 ==> tokens[t] == other[t]
    ensures MeanPool(tokens, mask, dim) == MeanPool(other, mask, dim)
  {
    forall d | 0 <= d < dim ensures WeightedSum(tokens, mask, d) == WeightedSum(other, mask, d) {
      WeightedSumIgnoresPadding(tokens, other, mask, d);
    }
  }

  lemma {:induction false} WeightedSumIgnoresPadding(tokens: seq<Vector>, other: seq<Vector>, mask: seq<int>, d: nat)
    requires |tokens| == |mask| == |other|
    requires forall t :: 0 <= t < |tokens| ==> d < |tokens[t]| && d < |other[t]|
    requires forall t :: 0 <= t < |mask| && mask[t] != 0 ==> tokens[t] == other[t]
    ensures WeightedSum(tokens, mask, d) == WeightedSum(other, mask, d)
  {
    if tokens != [] {
      WeightedSumIgnoresPadding(tokens[1..], other[1..], mask[1..], d);
      if mask[0] == 0 {
        assert tokens[0][d] * mask[0] as real == 0.0 == other[0][d] * mask[0] as real;
      }
    }
  }

  /** The mask [1, 1, 0] over vectors [a, b, c] pools to (a + b) / 2. */
  lemma PoolExample(a: Vector, b: Vector, c: Vector, dim: nat)
    requires |a| == dim && |b| == dim && |c| == dim
    ensures MeanPool([a, b, c], [1, 1, 0], dim) == seq(dim, d requires 0 <= d < dim => (a[d] + b[d]) / 2.0)
  {
    var mask := [1, 1, 0];
    assert mask[1..] == [1, 0] && [1, 0][1..] == [0] && [0][1..] == [];
    assert MaskSum([0]) == 0.0;
    assert MaskSum(mask) == 2.0;
    assert Divisor(mask) == 2.0;
    var pooled := MeanPool([a, b, c], mask, dim);
    var expected := seq(dim, d requires 0 <= d < dim => (a[d] + b[d]) / 2.0);
    forall d | 0 <= d < dim ensures pooled[d] == expected[d] {
      assert [a, b, c][1..] == [b, c] && [b, c][1..] == [c] && [c][1..] == [];
      assert WeightedSum([c], [0], d) == 0.0;
      assert WeightedSum([b, c], [1, 0], d) == b[d];
      assert WeightedSum([a, b, c], mask, d) == a[d] + b[d];
    }
    assert pooled == expected;
  }

  /** When every position is padding the clamp keeps the division defined and the pooled
      vector is zero. */
  lemma {:induction false} AllPaddingPoolsToZero(tokens: seq<Vector>, mask: seq<int>, dim: nat)
    requires WellShaped(tokens, mask, dim)
    requires forall t :: 0 <= t < |mask| ==> mask[t] == 0
    ensures MeanPool(tokens, mask, dim) == seq(dim, d => 0.0)
  {
    forall d | 0 <= d < dim ensures WeightedSum(tokens, mask, d) == 0.0 {
      ZeroMaskSum(tokens, mask, d);
    }
  }

  lemma {:induction false} ZeroMaskSum(tokens: seq<Vector>, mask: seq<int>, d: nat)
    requires |tokens| == |mask| && forall t :: 0 <= t < |tokens| ==> d < |tokens[t]|
    requires forall t :: 0 <= t < |mask| ==> mask[t] == 0
    ensures WeightedSum(tokens, mask, d) == 0.0
  {
    if tokens != [] {
      ZeroMaskSum(tokens[1..], mask[1..], d);
    }
  }
}
