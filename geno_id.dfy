/**
 * The all-pairs duplicate scan: for every pair i < j of rows of a genotype
 * matrix, count the loci observed in both rows and the mismatches among them,
 * abandoning the pair as soon as the mismatch count exceeds maxMiss, and
 * report the pairs that were never abandoned.
 */
module GenoId {
  import opened Genotypes

  /** One row of the result table: 1-based indices of the pair, its mismatches and its compared loci. */
  datatype PairRecord = PairRecord(ind1: int, ind2: int, numMismatch: int, numLoc: int)

  /**
   * The scan of rows a and b is not abandoned within the first k loci: the
   * test "mismatches > maxMiss", made after each locus whether or not it was
   * observed, never succeeds.
   */
  predicate Survives(a: seq<int>, b: seq<int>, maxMiss: int, k: nat)
    requires k <= |a| && k <= |b|
  {
    k == 0 || (Survives(a, b, maxMiss, k - 1) && Mismatch(a, b, k) <= maxMiss)
  }

  /** Every row has exactly L loci. */
  predicate Rectangular(rows: seq<seq<int>>, L: nat) {
    forall i :: 0 <= i < |rows| ==> |rows[i]| == L
  }

  /** The record a completed scan of rows i and j yields (0-based i, j; 1-based in the record). */
  function Record(rows: seq<seq<int>>, L: nat, i: nat, j: nat): PairRecord
    requires Rectangular(rows, L) && i < |rows| && j < |rows|
  {
    PairRecord(i + 1, j + 1, Mismatch(rows[i], rows[j], L), Overlap(rows[i], rows[j], L))
  }

  /** Records of the pairs (i, j') with i < j' < j that survive, in order of j'. */
  function PairsWith(rows: seq<seq<int>>, L: nat, maxMiss: int, i: nat, j: nat): seq<PairRecord>
    requires Rectangular(rows, L) && i < j <= |rows|
    decreases j
  {
    if j == i + 1 then []
    else
      PairsWith(rows, L, maxMiss, i, j - 1) +
      (if Survives(rows[i], rows[j - 1], maxMiss, L) then [Record(rows, L, i, j - 1)] else [])
  }

  /** Records of the surviving pairs whose first row is below i, in lexicographic order. */
  function PairsBefore(rows: seq<seq<int>>, L: nat, maxMiss: int, i: nat): seq<PairRecord>
    requires Rectangular(rows, L) && i <= |rows|
  {
    if i == 0 then []
    else PairsBefore(rows, L, maxMiss, i - 1) + PairsWith(rows, L, maxMiss, i - 1, |rows|)
  }

  /** The whole result of the scan, as a sequence of records. */
  function ClosePairs(rows: seq<seq<int>>, L: nat, maxMiss: int): seq<PairRecord>
    requires Rectangular(rows, L)
  {
    PairsBefore(rows, L, maxMiss, |rows|)
  }

  /** Four parallel columns hold exactly the records recs, row by row. */
  predicate Tabulates(ind1: seq<int>, ind2: seq<int>, numMismatch: seq<int>, numLoc: seq<int>, recs: seq<PairRecord>) {
    |ind1| == |ind2| == |numMismatch| == |numLoc| == |recs| &&
    forall k :: 0 <= k < |recs| ==> recs[k] == PairRecord(ind1[k], ind2[k], numMismatch[k], numLoc[k])
  }

  /** Once the scan of a pair is abandoned, scanning further loci cannot bring it back. */
  lemma {:induction false} AbandonedForGood(a: seq<int>, b: seq<int>, maxMiss: int, k: nat, L: nat)
    requires k <= L <= |a| && L <= |b|
    requires !Survives(a, b, maxMiss, k)
    ensures !Survives(a, b, maxMiss, L)
  {
    if L > k {
      AbandonedForGood(a, b, maxMiss, k, L - 1);
    }
  }

  /** The result so far grows by the record of pair (i, j) exactly when that pair survives. */
  lemma NextPair(rows: seq<seq<int>>, L: nat, maxMiss: int, i: nat, j: nat)
    requires Rectangular(rows, L) && i < j < |rows|
    ensures PairsBefore(rows, L, maxMiss, i) + PairsWith(rows, L, maxMiss, i, j + 1) ==
            PairsBefore(rows, L, maxMiss, i) + PairsWith(rows, L, maxMiss, i, j) +
            (if Survives(rows[i], rows[j], maxMiss, L) then [Record(rows, L, i, j)] else [])
  {
  }

  /** Appending one record's fields to the four columns appends the record. */
  lemma TabulatesAppend(ind1: seq<int>, ind2: seq<int>, numMismatch: seq<int>, numLoc: seq<int>,
                        recs: seq<PairRecord>, r: PairRecord)
    requires Tabulates(ind1, ind2, numMismatch, numLoc, recs)
    ensures Tabulates(ind1 + [r.ind1], ind2 + [r.ind2], numMismatch + [r.numMismatch], numLoc + [r.numLoc], recs + [r])
  {
  }

  /**
   * The scan of one pair of rows i < j: counts observed-in-both loci and
   * mismatches locus by locus, and gives up as soon as the mismatches exceed
   * maxMiss.  When it does not give up, the counts are the full counts.
   */
  method ScanPair(S: array2<int>, i: nat, j: nat, maxMiss: int) returns (bailed: bool, mm: int, n: int)
    requires i < S.Length0 && j < S.Length0
    ensures bailed <==> !Survives(Row(S, i), Row(S, j), maxMiss, S.Length1)
    ensures !bailed ==> mm == Mismatch(Row(S, i), Row(S, j), S.Length1) && n == Overlap(Row(S, i), Row(S, j), S.Length1)
  {
    var L := S.Length1;
    ghost var a, b := Row(S, i), Row(S, j);
    mm, n, bailed := 0, 0, false;
    for l := 0 to L
      invariant mm == Mismatch(a, b, l) && n == Overlap(a, b, l)
      invariant Survives(a, b, maxMiss, l)
      invariant !bailed
    {
      var g1, g2 := S[i, l], S[j, l];
      if g1 >= 0 && g2 >= 0 {
        n := n + 1;
        mm := mm + if g1 != g2 then 1 else 0;
      }
      if mm > maxMiss {
        AbandonedForGood(a, b, maxMiss, l + 1, L);
        bailed := true;
        break;
      }
    }
  }

  /**
   * pairwise_geno_id: the four columns ind1, ind2, num_mismatch, num_loc of
   * the surviving pairs, in the order the nested loops visit them.
   */
  method PairwiseGenoId(S: array2<int>, maxMiss: int)
    returns (ind1: seq<int>, ind2: seq<int>, numMismatch: seq<int>, numLoc: seq<int>)
    ensures Rectangular(Rows(S), S.Length1)
    ensures Tabulates(ind1, ind2, numMismatch, numLoc, ClosePairs(Rows(S), S.Length1, maxMiss))
  {
    var L := S.Length1;
    var nS := S.Length0;
    ghost var rows := Rows(S);
    assert Rectangular(rows, L);
    ind1, ind2, numMismatch, numLoc := [], [], [], [];
    for i := 0 to nS
      invariant Tabulates(ind1, ind2, numMismatch, numLoc, PairsBefore(rows, L, maxMiss, i))
    {
      for j := i + 1 to nS
        invariant Tabulates(ind1, ind2, numMismatch, numLoc,
                            PairsBefore(rows, L, maxMiss, i) + PairsWith(rows, L, maxMiss, i, j))
      {
        var bailed, mm, n := ScanPair(S, i, j, maxMiss);
        NextPair(rows, L, maxMiss, i, j);
        if !bailed {
          TabulatesAppend(ind1, ind2, numMismatch, numLoc,
                          PairsBefore(rows, L, maxMiss, i) + PairsWith(rows, L, maxMiss, i, j), Record(rows, L, i, j));
          ind1 := ind1 + [i + 1];
          ind2 := ind2 + [j + 1];
          numMismatch := numMismatch + [mm];
          numLoc := numLoc + [n];
        }
      }
    }
  }

  /**
   * Early exit agrees with a full scan followed by a threshold filter: when
   * maxMiss >= 0 or there is at least one locus, a pair survives the scan
   * exactly when its full mismatch count is at most maxMiss.
   */
  lemma {:induction false} EarlyExitMatchesFullScan(a: seq<int>, b: seq<int>, maxMiss: int, L: nat)
    requires L <= |a| && L <= |b|
    requires maxMiss >= 0 || L > 0
    ensures Survives(a, b, maxMiss, L) <==> Mismatch(a, b, L) <= maxMiss
  {
    if L > 0 {
      if Mismatch(a, b, L) <= maxMiss {
        MismatchMonotone(a, b, L - 1, L);
        if L > 1 {
          EarlyExitMatchesFullScan(a, b, maxMiss, L - 1);
        }
      }
    }
  }

  /**
   * The edge cases as written: with a negative bound and at least one locus
   * every pair is abandoned after the first locus; with no loci no pair is.
   */
  lemma EdgeCases(a: seq<int>, b: seq<int>, maxMiss: int, L: nat)
    requires L <= |a| && L <= |b|
    ensures maxMiss < 0 && L > 0 ==> !Survives(a, b, maxMiss, L)
    ensures L == 0 ==> Survives(a, b, maxMiss, L) && Mismatch(a, b, L) == 0 && Overlap(a, b, L) == 0
  {
    if maxMiss < 0 && L > 0 {
      AbandonedForGood(a, b, maxMiss, 1, L);
    }
  }

  /** The pair of r1 comes before the pair of r2 in the order the nested loops visit pairs. */
  predicate LexLess(r1: PairRecord, r2: PairRecord) {
    r1.ind1 < r2.ind1 || (r1.ind1 == r2.ind1 && r1.ind2 < r2.ind2)
  }

  /** The records are strictly increasing in (ind1, ind2). */
  predicate StrictlyOrdered(recs: seq<PairRecord>) {
    forall k1, k2 :: 0 <= k1 < k2 < |recs| ==> LexLess(recs[k1], recs[k2])
  }

  /** Each record is the completed scan of a pair i < j that was never abandoned. */
  predicate Describes(rows: seq<seq<int>>, L: nat, maxMiss: int, r: PairRecord)
    requires Rectangular(rows, L)
  {
    1 <= r.ind1 < r.ind2 <= |rows| &&
    Survives(rows[r.ind1 - 1], rows[r.ind2 - 1], maxMiss, L) &&
    r == Record(rows, L, r.ind1 - 1, r.ind2 - 1)
  }

  /** Two ordered runs, the first wholly before the second, make one ordered run. */
  lemma {:induction false} OrderedAppend(xs: seq<PairRecord>, ys: seq<PairRecord>)
    requires StrictlyOrdered(xs) && StrictlyOrdered(ys)
    requires forall x, y :: x in xs && y in ys ==> LexLess(x, y)
    ensures StrictlyOrdered(xs + ys)
  {
    forall k1, k2 | 0 <= k1 < k2 < |xs + ys|
      ensures LexLess((xs + ys)[k1], (xs + ys)[k2])
    {
      if k2 < |xs| {
      } else if k1 >= |xs| {
        assert (xs + ys)[k1] == ys[k1 - |xs|] && (xs + ys)[k2] == ys[k2 - |xs|];
      } else {
        assert (xs + ys)[k1] in xs && (xs + ys)[k2] in ys;
      }
    }
  }

  /** Every record of one outer row i is a completed, never abandoned scan of a pair (i, j') with j' < j. */
  lemma {:induction false} PairsWithDescribed(rows: seq<seq<int>>, L: nat, maxMiss: int, i: nat, j: nat)
    requires Rectangular(rows, L) && i < j <= |rows|
    ensures forall r :: r in PairsWith(rows, L, maxMiss, i, j) ==>
              Describes(rows, L, maxMiss, r) && r.ind1 == i + 1 && r.ind2 <= j
    decreases j
  {
    if j > i + 1 {
      PairsWithDescribed(rows, L, maxMiss, i, j - 1);
    }
  }

  /** The records of outer row i carry ind1 = i + 1 and an ind2 of at most j. */
  lemma {:induction false} PairsWithIndices(rows: seq<seq<int>>, L: nat, maxMiss: int, i: nat, j: nat)
    requires Rectangular(rows, L) && i < j <= |rows|
    ensures forall r :: r in PairsWith(rows, L, maxMiss, i, j) ==> r.ind1 == i + 1 && r.ind2 <= j
    decreases j
  {
    if j > i + 1 {
      PairsWithIndices(rows, L, maxMiss, i, j - 1);
    }
  }

  /** The records for outer rows below i carry an ind1 of at most i. */
  lemma {:induction false} PairsBeforeIndices(rows: seq<seq<int>>, L: nat, maxMiss: int, i: nat)
    requires Rectangular(rows, L) && i <= |rows|
    ensures forall r :: r in PairsBefore(rows, L, maxMiss, i) ==> r.ind1 <= i
  {
    if i > 0 {
      PairsBeforeIndices(rows, L, maxMiss, i - 1);
      PairsWithIndices(rows, L, maxMiss, i - 1, |rows|);
    }
  }

  /** The records of one outer row come in increasing order of the second index, at most one per j'. */
  lemma {:induction false} PairsWithOrdered(rows: seq<seq<int>>, L: nat, maxMiss: int, i: nat, j: nat)
    requires Rectangular(rows, L) && i < j <= |rows|
    ensures StrictlyOrdered(PairsWith(rows, L, maxMiss, i, j))
    ensures |PairsWith(rows, L, maxMiss, i, j)| <= j - i - 1
    decreases j
  {
    if j > i + 1 {
      PairsWithOrdered(rows, L, maxMiss, i, j - 1);
      PairsWithIndices(rows, L, maxMiss, i, j - 1);
      var prev := PairsWith(rows, L, maxMiss, i, j - 1);
      var last := if Survives(rows[i], rows[j - 1], maxMiss, L) then [Record(rows, L, i, j - 1)] else [];
      OrderedAppend(prev, last);
    }
  }

  /** Every surviving pair (i, j') with j' < j has its record among those of outer row i. */
  lemma {:induction false} PairsWithComplete(rows: seq<seq<int>>, L: nat, maxMiss: int, i: nat, j: nat)
    requires Rectangular(rows, L) && i < j <= |rows|
    ensures forall j' :: i < j' < j && Survives(rows[i], rows[j'], maxMiss, L) ==>
              Record(rows, L, i, j') in PairsWith(rows, L, maxMiss, i, j)
    decreases j
  {
    if j > i + 1 {
      PairsWithComplete(rows, L, maxMiss, i, j - 1);
    }
  }

  /** Every record for outer rows below i is a completed, never abandoned scan with ind1 <= i. */
  lemma {:induction false} PairsBeforeDescribed(rows: seq<seq<int>>, L: nat, maxMiss: int, i: nat)
    requires Rectangular(rows, L) && i <= |rows|
    ensures forall r :: r in PairsBefore(rows, L, maxMiss, i) ==> Describes(rows, L, maxMiss, r) && r.ind1 <= i
  {
    if i > 0 {
      PairsBeforeDescribed(rows, L, maxMiss, i - 1);
      PairsWithDescribed(rows, L, maxMiss, i - 1, |rows|);
    }
  }

  /** The records for outer rows below i are strictly ordered. */
  lemma {:induction false} PairsBeforeOrdered(rows: seq<seq<int>>, L: nat, maxMiss: int, i: nat)
    requires Rectangular(rows, L) && i <= |rows|
    ensures StrictlyOrdered(PairsBefore(rows, L, maxMiss, i))
  {
    if i > 0 {
      var prev := PairsBefore(rows, L, maxMiss, i - 1);
      var here := PairsWith(rows, L, maxMiss, i - 1, |rows|);
      PairsBeforeOrdered(rows, L, maxMiss, i - 1);
      PairsWithOrdered(rows, L, maxMiss, i - 1, |rows|);
      PairsBeforeIndices(rows, L, maxMiss, i - 1);
      PairsWithIndices(rows, L, maxMiss, i - 1, |rows|);
      OrderedAppend(prev, here);
    }
  }

  /** There are at most i * (2 nS - i - 1) / 2 records for outer rows below i. */
  lemma {:induction false} PairsBeforeCount(rows: seq<seq<int>>, L: nat, maxMiss: int, i: nat)
    requires Rectangular(rows, L) && i <= |rows|
    ensures 2 * |PairsBefore(rows, L, maxMiss, i)| <= i * (2 * |rows| - i - 1)
  {
    if i > 0 {
      PairsBeforeCount(rows, L, maxMiss, i - 1);
      PairsWithOrdered(rows, L, maxMiss, i - 1, |rows|);
      var n := |rows|;
      assert (i - 1) * (2 * n - (i - 1) - 1) + 2 * (n - i) == i * (2 * n - i - 1);
    }
  }

  /** Every surviving pair whose first row is below i has its record among those for outer rows below i. */
  lemma {:induction false} PairsBeforeComplete(rows: seq<seq<int>>, L: nat, maxMiss: int, i: nat)
    requires Rectangular(rows, L) && i <= |rows|
    ensures forall i', j' :: 0 <= i' < i && i' < j' < |rows| && Survives(rows[i'], rows[j'], maxMiss, L) ==>
              Record(rows, L, i', j') in PairsBefore(rows, L, maxMiss, i)
  {
    if i > 0 {
      PairsBeforeComplete(rows, L, maxMiss, i - 1);
      PairsWithComplete(rows, L, maxMiss, i - 1, |rows|);
    }
  }

  /**
   * Every emitted record names a pair 1 <= ind1 < ind2 <= nS with its full
   * counts over all L loci, num_mismatch <= num_loc <= L, and num_mismatch
   * within the bound whenever the bound is non-negative or there are loci.
   */
  lemma ClosePairsWellFormed(rows: seq<seq<int>>, L: nat, maxMiss: int)
    requires Rectangular(rows, L)
    ensures forall r :: r in ClosePairs(rows, L, maxMiss) ==>
              1 <= r.ind1 < r.ind2 <= |rows| &&
              r.numMismatch == Mismatch(rows[r.ind1 - 1], rows[r.ind2 - 1], L) &&
              r.numLoc == Overlap(rows[r.ind1 - 1], rows[r.ind2 - 1], L) &&
              0 <= r.numMismatch <= r.numLoc <= L &&
              (maxMiss >= 0 || L > 0 ==> r.numMismatch <= maxMiss)
  {
    PairsBeforeDescribed(rows, L, maxMiss, |rows|);
    forall r | r in ClosePairs(rows, L, maxMiss)
      ensures maxMiss >= 0 || L > 0 ==> r.numMismatch <= maxMiss
    {
      if maxMiss >= 0 || L > 0 {
        EarlyExitMatchesFullScan(rows[r.ind1 - 1], rows[r.ind2 - 1], maxMiss, L);
      }
    }
  }

  /**
   * The records come in strictly increasing (ind1, ind2) order, so each pair
   * appears at most once and there are at most nS * (nS - 1) / 2 of them.
   */
  lemma ClosePairsOrdered(rows: seq<seq<int>>, L: nat, maxMiss: int)
    requires Rectangular(rows, L)
    ensures StrictlyOrdered(ClosePairs(rows, L, maxMiss))
    ensures 2 * |ClosePairs(rows, L, maxMiss)| <= |rows| * (|rows| - 1)
  {
    PairsBeforeOrdered(rows, L, maxMiss, |rows|);
    PairsBeforeCount(rows, L, maxMiss, |rows|);
  }

  /**
   * Pruning equivalence: when maxMiss >= 0 or there is at least one locus,
   * the pair i < j is reported, with its full counts, exactly when its full
   * mismatch count is at most maxMiss.
   */
  lemma PruningEquivalence(rows: seq<seq<int>>, L: nat, maxMiss: int, i: nat, j: nat)
    requires Rectangular(rows, L) && i < j < |rows|
    requires maxMiss >= 0 || L > 0
    ensures Record(rows, L, i, j) in ClosePairs(rows, L, maxMiss) <==> Mismatch(rows[i], rows[j], L) <= maxMiss
    ensures forall r :: r in ClosePairs(rows, L, maxMiss) && r.ind1 == i + 1 && r.ind2 == j + 1 ==>
              r == Record(rows, L, i, j)
  {
    var recs := ClosePairs(rows, L, maxMiss);
    PairsBeforeDescribed(rows, L, maxMiss, |rows|);
    EarlyExitMatchesFullScan(rows[i], rows[j], maxMiss, L);
    if Survives(rows[i], rows[j], maxMiss, L) {
      PairsBeforeComplete(rows, L, maxMiss, |rows|);
    }
    forall r | r in recs && r.ind1 == i + 1 && r.ind2 == j + 1
      ensures r == Record(rows, L, i, j)
    {
      assert Describes(rows, L, maxMiss, r);
    }
  }

  /** With a negative bound and at least one locus, outer row i reports nothing. */
  lemma {:induction false} NegativeBoundRowEmpty(rows: seq<seq<int>>, L: nat, maxMiss: int, i: nat, j: nat)
    requires Rectangular(rows, L) && i < j <= |rows|
    requires maxMiss < 0 && L > 0
    ensures PairsWith(rows, L, maxMiss, i, j) == []
    decreases j
  {
    if j > i + 1 {
      NegativeBoundRowEmpty(rows, L, maxMiss, i, j - 1);
      EdgeCases(rows[i], rows[j - 1], maxMiss, L);
    }
  }

  /** With a negative bound and at least one locus, the outer rows below i report nothing. */
  lemma {:induction false} NegativeBoundBeforeEmpty(rows: seq<seq<int>>, L: nat, maxMiss: int, i: nat)
    requires Rectangular(rows, L) && i <= |rows|
    requires maxMiss < 0 && L > 0
    ensures PairsBefore(rows, L, maxMiss, i) == []
  {
    if i > 0 {
      NegativeBoundBeforeEmpty(rows, L, maxMiss, i - 1);
      NegativeBoundRowEmpty(rows, L, maxMiss, i - 1, |rows|);
    }
  }

  /**
   * As written, a negative bound with at least one locus reports nothing:
   * the test after the first locus already succeeds, observed or not.
   */
  lemma NegativeBoundReportsNothing(rows: seq<seq<int>>, L: nat, maxMiss: int)
    requires Rectangular(rows, L)
    requires maxMiss < 0 && L > 0
    ensures ClosePairs(rows, L, maxMiss) == []
  {
    NegativeBoundBeforeEmpty(rows, L, maxMiss, |rows|);
  }

  /** With no loci, every pair is reported with no mismatches and no compared loci, whatever the bound. */
  lemma NoLociReportsEveryPair(rows: seq<seq<int>>, maxMiss: int, i: nat, j: nat)
    requires Rectangular(rows, 0) && i < j < |rows|
    ensures PairRecord(i + 1, j + 1, 0, 0) in ClosePairs(rows, 0, maxMiss)
  {
    PairsBeforeComplete(rows, 0, maxMiss, |rows|);
    EdgeCases(rows[i], rows[j], maxMiss, 0);
  }

  /**
   * Rows (0,0,0), (0,0,1), (0,1,1) with bound 1: pairs 1-2 and 2-3 differ at
   * one locus out of three and are reported; pair 1-3 differs at two and is not.
   */
  lemma ThreeRowExample()
    ensures
      var rows := [[0, 0, 0], [0, 0, 1], [0, 1, 1]];
      Rectangular(rows, 3) &&
      ClosePairs(rows, 3, 1) == [PairRecord(1, 2, 1, 3), PairRecord(2, 3, 1, 3)]
  {
    var rows := [[0, 0, 0], [0, 0, 1], [0, 1, 1]];
    assert Rectangular(rows, 3);
    assert Survives(rows[0], rows[1], 1, 3) by {
      assert Mismatch(rows[0], rows[1], 3) == 1;
      EarlyExitMatchesFullScan(rows[0], rows[1], 1, 3);
    }
    assert !Survives(rows[0], rows[2], 1, 3) by {
      assert Mismatch(rows[0], rows[2], 3) == 2;
    }
    assert Survives(rows[1], rows[2], 1, 3) by {
      assert Mismatch(rows[1], rows[2], 3) == 1;
      EarlyExitMatchesFullScan(rows[1], rows[2], 1, 3);
    }
  }
}
