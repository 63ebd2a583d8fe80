/** utils.py NTXent.mask_correlated_samples: for a batch of B samples seen
    under two augmentations (rows 0..B-1 and B..2B-1), the mask that keeps
    the negative pairs of the 2B x 2B similarity matrix and drops each
    sample's self-similarity and its positive partner. */
module Contrastive {

  /** Entry (i, j) pairs a view with itself or with its other augmentation. */
  predicate Correlated(i: int, j: int, b: nat) {
    i == j || i - j == b || j - i == b
  }

  method MaskCorrelatedSamples(b: nat) returns (mask: array2<bool>)
    ensures fresh(mask) && mask.Length0 == 2 * b && mask.Length1 == 2 * b
    ensures forall i, j :: 0 <= i < 2 * b && 0 <= j < 2 * b ==> mask[i, j] == !Correlated(i, j, b)
  {
    mask := new bool[2 * b, 2 * b]((i, j) => true);
    // fill_diagonal_(0)
    var d := 0;
    while d < 2 * b
      invariant 0 <= d <= 2 * b
      invariant forall i, j :: 0 <= i < 2 * b && 0 <= j < 2 * b ==> mask[i, j] == !(i == j && i < d)
    {
      mask[d, d] := false;
      d := d + 1;
    }
    var k := 0;
    while k < b
      invariant 0 <= k <= b
      invariant forall i, j :: 0 <= i < 2 * b && 0 <= j < 2 * b ==>
        mask[i, j] == !(i == j || (i < k && j == b + i) || (j < k && i == b + j))
    {
      mask[k, b + k] := false;
      mask[b + k, k] := false;
      k := k + 1;
    }
  }

  /** The number of kept (negative) entries among columns 0 .. m-1 of row i. */
  function KeptInRow(i: nat, b: nat, m: nat): nat
    decreases m
  {
    if m == 0 then 0 else KeptInRow(i, b, m - 1) + (if Correlated(i, m - 1, b) then 0 else 1)
  }

  /** The column of row i's positive partner. */
  function Partner(i: nat, b: nat): nat
    requires i < 2 * b
  {
    if i < b then i + b else i - b
  }

  lemma {:induction false} KeptInRowPrefix(i: nat, b: nat, m: nat)
    requires i < 2 * b && m <= 2 * b
    ensures KeptInRow(i, b, m) == m - (if i < m then 1 else 0) - (if Partner(i, b) < m then 1 else 0)
    decreases m
  {
    if m > 0 {
      KeptInRowPrefix(i, b, m - 1);
      assert Correlated(i, m - 1, b) <==> m - 1 == i || m - 1 == Partner(i, b);
    }
  }

  /** Every row keeps exactly 2B - 2 entries: the negatives of NT-Xent. */
  lemma RowKeepsNegatives(i: nat, b: nat)
    requires i < 2 * b
    ensures KeptInRow(i, b, 2 * b) == 2 * b - 2
  {
    KeptInRowPrefix(i, b, 2 * b);
  }
}
