/**
 * Genotype matrices as both scanners read them: one row per individual, one
 * column per locus, each entry a 0-based genotype code, any negative entry
 * meaning that the genotype is missing.  The counts below are the running
 * totals the scans keep, defined locus by locus in column order.
 */
module Genotypes {

  /** A genotype code is observed when it is non-negative; every negative code means missing. */
  predicate Observed(g: int) {
    g >= 0
  }

  /** A locus takes part in a comparison only when both individuals are observed there. */
  predicate Both(g1: int, g2: int) {
    Observed(g1) && Observed(g2)
  }

  /** Row i of a matrix, as the sequence of its genotype codes. */
  function Row(M: array2<int>, i: nat): (r: seq<int>)
    reads M
    requires i < M.Length0
    ensures |r| == M.Length1
    ensures forall j :: 0 <= j < M.Length1 ==> r[j] == M[i, j]
  {
    seq(M.Length1, j requires 0 <= j < M.Length1 reads M => M[i, j])
  }

  /** All rows of a matrix, each of the matrix's width. */
  function Rows(M: array2<int>): (rows: seq<seq<int>>)
    reads M
    ensures |rows| == M.Length0
    ensures forall i :: 0 <= i < M.Length0 ==> rows[i] == Row(M, i)
  {
    seq(M.Length0, i requires 0 <= i < M.Length0 reads M => Row(M, i))
  }

  /** Number of loci among the first k at which both a and b are observed. */
  function Overlap(a: seq<int>, b: seq<int>, k: nat): (n: nat)
    requires k <= |a| && k <= |b|
    ensures n <= k
  {
    if k == 0 then 0
    else Overlap(a, b, k - 1) + (if Both(a[k - 1], b[k - 1]) then 1 else 0)
  }

  /** Number of loci among the first k at which both are observed and the codes differ. */
  function Mismatch(a: seq<int>, b: seq<int>, k: nat): (m: nat)
    requires k <= |a| && k <= |b|
    ensures m <= Overlap(a, b, k)
  {
    if k == 0 then 0
    else Mismatch(a, b, k - 1) + (if Both(a[k - 1], b[k - 1]) && a[k - 1] != b[k - 1] then 1 else 0)
  }

  /** The set of loci among the first k that a comparison of a with b uses. */
  function ComparedLoci(a: seq<int>, b: seq<int>, k: nat): set<int>
    requires k <= |a| && k <= |b|
  {
    set l | 0 <= l < k && Both(a[l], b[l])
  }

  /** The set of compared loci among the first k at which a and b disagree. */
  function MismatchedLoci(a: seq<int>, b: seq<int>, k: nat): set<int>
    requires k <= |a| && k <= |b|
  {
    set l | 0 <= l < k && Both(a[l], b[l]) && a[l] != b[l]
  }

  /** The running count agrees with counting the compared loci as a set. */
  lemma {:induction false} OverlapCountsComparedLoci(a: seq<int>, b: seq<int>, k: nat)
    requires k <= |a| && k <= |b|
    ensures Overlap(a, b, k) == |ComparedLoci(a, b, k)|
  {
    if k == 0 {
      assert ComparedLoci(a, b, 0) == {};
    } else {
      OverlapCountsComparedLoci(a, b, k - 1);
      if Both(a[k - 1], b[k - 1]) {
        assert ComparedLoci(a, b, k) == ComparedLoci(a, b, k - 1) + {k - 1};
      } else {
        assert ComparedLoci(a, b, k) == ComparedLoci(a, b, k - 1);
      }
    }
  }

  /** The running mismatch count agrees with counting the mismatched loci as a set. */
  lemma {:induction false} MismatchCountsMismatchedLoci(a: seq<int>, b: seq<int>, k: nat)
    requires k <= |a| && k <= |b|
    ensures Mismatch(a, b, k) == |MismatchedLoci(a, b, k)|
  {
    if k == 0 {
      assert MismatchedLoci(a, b, 0) == {};
    } else {
      MismatchCountsMismatchedLoci(a, b, k - 1);
      if Both(a[k - 1], b[k - 1]) && a[k - 1] != b[k - 1] {
        assert MismatchedLoci(a, b, k) == MismatchedLoci(a, b, k - 1) + {k - 1};
      } else {
        assert MismatchedLoci(a, b, k) == MismatchedLoci(a, b, k - 1);
      }
    }
  }

  /** Scanning more loci never lowers the mismatch count: the fact early exit rests on. */
  lemma {:induction false} MismatchMonotone(a: seq<int>, b: seq<int>, k1: nat, k2: nat)
    requires k1 <= k2 <= |a| && k2 <= |b|
    ensures Mismatch(a, b, k1) <= Mismatch(a, b, k2)
  {
    if k1 < k2 {
      MismatchMonotone(a, b, k1, k2 - 1);
    }
  }

  /**
   * Missing data is neutral: two comparisons that agree on every locus either
   * of them uses yield the same counts, whatever the codes at the other loci.
   */
  lemma {:induction false} UnusedLociAreNeutral(a1: seq<int>, b1: seq<int>, a2: seq<int>, b2: seq<int>, k: nat)
    requires k <= |a1| && k <= |b1| && k <= |a2| && k <= |b2|
    requires forall l :: 0 <= l < k && (Both(a1[l], b1[l]) || Both(a2[l], b2[l])) ==> a1[l] == a2[l] && b1[l] == b2[l]
    ensures Overlap(a1, b1, k) == Overlap(a2, b2, k)
    ensures Mismatch(a1, b1, k) == Mismatch(a2, b2, k)
  {
    if k > 0 {
      UnusedLociAreNeutral(a1, b1, a2, b2, k - 1);
    }
  }
}
