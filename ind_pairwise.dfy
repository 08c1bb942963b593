/**
 * The directional scan: every individual of a source matrix S against one
 * individual t (1-based) of a target matrix T, summing per-locus values looked
 * up in a flat table over the loci observed on both sides.
 */
module IndPairwise {
  import opened Genotypes

  /**
   * The flat value table: the block of locus j starts at offset starts[j] and
   * is an nGenos[j] x nGenos[j] grid, row-major, indexed by source genotype
   * then target genotype.
   */
  datatype FlatTable = FlatTable(values: seq<real>, nGenos: seq<int>, starts: seq<int>)

  /** Offset into the flat table of the value for locus j, source genotype sG, target genotype tG. */
  function Offset(tbl: FlatTable, j: nat, sG: int, tG: int): int
    requires j < |tbl.nGenos| && j < |tbl.starts|
  {
    tbl.starts[j] + tbl.nGenos[j] * sG + tG
  }

  /**
   * The table has metadata for the first k loci, and every value the scan of
   * source row s against target row t looks up there lies inside the table.
   */
  predicate Covers(tbl: FlatTable, s: seq<int>, t: seq<int>, k: nat) {
    k <= |s| && k <= |t| && k <= |tbl.nGenos| && k <= |tbl.starts| &&
    forall l :: 0 <= l < k && Both(s[l], t[l]) ==> 0 <= Offset(tbl, l, s[l], t[l]) < |tbl.values|
  }

  /** Sum, in locus order, of the looked-up values over the first k loci observed in both rows. */
  function LookupSum(tbl: FlatTable, s: seq<int>, t: seq<int>, k: nat): real
    requires k <= |s| && Covers(tbl, s, t, |s|)
  {
    if k == 0 then 0.0
    else
      LookupSum(tbl, s, t, k - 1) +
      (if Both(s[k - 1], t[k - 1]) then tbl.values[Offset(tbl, k - 1, s[k - 1], t[k - 1])] else 0.0)
  }

  /**
   * comp_ind_pairwise: one record per source row, in row order, holding the
   * 1-based row index, the value sum and the number of loci observed on both
   * sides.  The three result columns are filled in place, then returned.
   */
  method CompIndPairwise(S: array2<int>, T: array2<int>, t: int, values: seq<real>, nGenos: seq<int>, starts: seq<int>)
    returns (ind: seq<int>, value: seq<real>, numLoc: seq<int>)
    requires 1 <= t <= T.Length0
    requires S.Length1 <= T.Length1
    requires S.Length1 <= |nGenos| && S.Length1 <= |starts|
    requires forall i :: 0 <= i < S.Length0 ==> Covers(FlatTable(values, nGenos, starts), Row(S, i), Row(T, t - 1), S.Length1)
    ensures |ind| == |value| == |numLoc| == S.Length0
    ensures forall i :: 0 <= i < S.Length0 ==> ind[i] == i + 1
    ensures forall i :: 0 <= i < S.Length0 ==>
              value[i] == LookupSum(FlatTable(values, nGenos, starts), Row(S, i), Row(T, t - 1), S.Length1)
    ensures forall i :: 0 <= i < S.Length0 ==>
              numLoc[i] == Overlap(Row(S, i), Row(T, t - 1), S.Length1) <= S.Length1
  {
    var L := S.Length1;
    var nS := S.Length0;
    ghost var tbl := FlatTable(values, nGenos, starts);
    ghost var sources := Rows(S);
    ghost var target := Row(T, t - 1);
    var popi := new int[nS];
    var val := new real[nS];
    var nonmiss := new int[nS];
    for i := 0 to nS
      invariant forall r :: 0 <= r < i ==>
                  popi[r] == r + 1 && val[r] == LookupSum(tbl, sources[r], target, L) &&
                  nonmiss[r] == Overlap(sources[r], target, L)
    {
      ghost var source := sources[i];
      var sum := 0.0;
      var n := 0;
      for j := 0 to L
        invariant sum == LookupSum(tbl, source, target, j)
        invariant n == Overlap(source, target, j)
      {
        var tG := T[t - 1, j];
        var sG := S[i, j];
        assert sG == source[j] && tG == target[j];
        if tG >= 0 && sG >= 0 {
          n := n + 1;
          sum := sum + values[starts[j] + nGenos[j] * sG + tG];
        }
      }
      popi[i] := i + 1;
      val[i] := sum;
      nonmiss[i] := n;
    }
    ind, value, numLoc := popi[..], val[..], nonmiss[..];
  }

  /** A source row sharing no observed locus with the target gets value 0 (the zero-overlap case). */
  lemma {:induction false} NoOverlapSumsToZero(tbl: FlatTable, s: seq<int>, t: seq<int>, k: nat)
    requires k <= |s| && Covers(tbl, s, t, |s|)
    requires Overlap(s, t, k) == 0
    ensures LookupSum(tbl, s, t, k) == 0.0
  {
    if k > 0 {
      NoOverlapSumsToZero(tbl, s, t, k - 1);
    }
  }

  /**
   * Missing data is neutral: two source rows that agree on every locus where
   * either is compared with the target get the same value and the same count.
   */
  lemma {:induction false} UnusedLociDoNotChangeValue(tbl: FlatTable, s1: seq<int>, s2: seq<int>, t: seq<int>, k: nat)
    requires k <= |s1| && Covers(tbl, s1, t, |s1|)
    requires k <= |s2| && Covers(tbl, s2, t, |s2|)
    requires forall l :: 0 <= l < k && (Both(s1[l], t[l]) || Both(s2[l], t[l])) ==> s1[l] == s2[l]
    ensures LookupSum(tbl, s1, t, k) == LookupSum(tbl, s2, t, k)
    ensures Overlap(s1, t, k) == Overlap(s2, t, k)
  {
    if k > 0 {
      UnusedLociDoNotChangeValue(tbl, s1, s2, t, k - 1);
    }
  }

  /**
   * The lookup is directional: with an asymmetric table, swapping the roles
   * of source and target changes the value.
   */
  lemma SwappingRolesChangesValue()
    ensures
      var tbl := FlatTable([0.0, 1.0, 2.0, 3.0], [2], [0]);
      Covers(tbl, [0], [1], 1) && Covers(tbl, [1], [0], 1) &&
      LookupSum(tbl, [0], [1], 1) == 1.0 && LookupSum(tbl, [1], [0], 1) == 2.0
  {
  }

  /**
   * Two source rows (0, 1) and (1, missing) against the target (1, 0), two
   * loci with two genotypes each: the first row sums the values at grid cells
   * [0][1] of locus 0 and [1][0] of locus 1 over 2 loci, the second only cell
   * [1][1] of locus 0 over 1 locus.
   */
  lemma TwoLocusExample(v: seq<real>)
    requires |v| == 8
    ensures
      var tbl := FlatTable(v, [2, 2], [0, 4]);
      Covers(tbl, [0, 1], [1, 0], 2) && Covers(tbl, [1, -1], [1, 0], 2) &&
      LookupSum(tbl, [0, 1], [1, 0], 2) == v[1] + v[6] && Overlap([0, 1], [1, 0], 2) == 2 &&
      LookupSum(tbl, [1, -1], [1, 0], 2) == v[3] && Overlap([1, -1], [1, 0], 2) == 1
  {
    var tbl := FlatTable(v, [2, 2], [0, 4]);
    assert LookupSum(tbl, [0, 1], [1, 0], 1) == v[1];
    assert LookupSum(tbl, [1, -1], [1, 0], 1) == v[3];
  }
}
