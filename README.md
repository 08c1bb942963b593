# Pairwise genotype comparisons (CKMRsim `pairwise_comps.cpp`) in Dafny

This project models the two scans in `src/pairwise_comps.cpp`. They read integer genotype matrices: each row is an individual, each column is a locus, each entry is a 0-based genotype code, and any negative entry means missing.

- **`comp_ind_pairwise`** is directional. It compares every row of a source matrix `S` with row `t` (1-based) of a target matrix `T`. At each locus observed in both rows it adds the value `values[Starts[j] + nGenos[j]*sG + tG]` and counts the locus. It returns one record per source row: `(i+1, sum, count)`, in row order.
- **`pairwise_geno_id`** looks at every pair `i < j` of rows of `S`. It counts the loci observed in both rows and the mismatches among them. It abandons the pair as soon as the mismatch count exceeds `max_miss`. It reports `(i+1, j+1, mismatches, loci)` for the pairs it never abandoned, in the order its nested loops visit them.

Layout:

- `genotypes.dfy` (module `Genotypes`) holds what both scans share:
  - the missing-data convention (`Observed`, `Both`);
  - rows of an `array2<int>` matrix (`Row`, `Rows`);
  - the running counts, defined locus by locus in column order: `Overlap` counts loci observed in both rows, and `Mismatch` counts those whose codes differ.
- `ind_pairwise.dfy` (module `IndPairwise`) holds:
  - the flat value table (`FlatTable`, `Offset`);
  - the sum the scan accumulates (`LookupSum`, over `real`);
  - the scan itself, `CompIndPairwise`: nested loops that fill three fresh arrays in place and return copies of them as the result columns.
- `geno_id.dfy` (module `GenoId`) holds the pair scan:
  - `Survives(a, b, maxMiss, k)` is the as-written early-exit test. It holds when "mismatches > max_miss", checked after each of the first `k` loci (observed or not), never fires.
  - `ClosePairs` gives the records in loop order.
  - `ScanPair` is the per-pair locus loop with its `break`. It is written as its own method; in the source it is the body of the inner `j` loop.
  - `PairwiseGenoId` holds the two outer loops and appends to four column sequences, as the source's `push_back` calls do.
  - The lemmas relate early exit to a full scan followed by a threshold filter.

Both methods are proved against the specification functions: `CompIndPairwise` against `Overlap` and `LookupSum`, and `PairwiseGenoId` against `ClosePairs`. The properties of those functions are proved as lemmas.

Three behaviours of the code are easy to overlook. The model keeps them as written:

- The code does not check that `t` is in range, that `T` has at least `L` columns, or that the flat-table offset is inside `values`; these reads are undefined behaviour when they fail. The model makes them preconditions of `CompIndPairwise`. It does not model an error result.
- The code accepts a negative `max_miss` and raises no error. With at least one locus, it then reports nothing (`NegativeBoundReportsNothing`).
- With no loci at all, the code reports every pair with counts `(0, 0)`, even when `max_miss` is negative (`NoLociReportsEveryPair`). So the pruning equivalence holds when `max_miss >= 0` or `L > 0`.

## Model

| member | source | states |
|---|---|---|
| `Genotypes.Overlap` | src/pairwise_comps.cpp:40-47 | The number of loci, among the first k, observed in both rows is at most k. |
| `Genotypes.Mismatch` | src/pairwise_comps.cpp:104-107 | The number of mismatching loci among the first k is at most the number of loci observed in both rows. |
| `Genotypes.OverlapCountsComparedLoci` | src/pairwise_comps.cpp:44-45 | The running count `n` equals the size of the set of loci at which both genotypes are non-negative. |
| `Genotypes.MismatchCountsMismatchedLoci` | src/pairwise_comps.cpp:104-106 | The running count `mm` equals the size of the set of loci observed in both rows whose codes differ. |
| `Genotypes.MismatchMonotone` | src/pairwise_comps.cpp:104-107 | Scanning more loci never lowers the mismatch count. |
| `Genotypes.UnusedLociAreNeutral` | src/pairwise_comps.cpp:104-107 | Loci missing in either row do not affect the compared-loci count or the mismatch count, whatever codes they hold. |
| `IndPairwise.CompIndPairwise` | src/pairwise_comps.cpp:27-57 | Returns exactly nS records in source-row order. Record i has ind = i+1. num_loc[i] is the number of loci, among the first L, observed both in source row i and in target row t-1, so it is at most L. value[i] is the locus-order sum of the table values at `Starts[j] + nGenos[j]*S(i,j) + T(t-1,j)` over those loci. |
| `IndPairwise.NoOverlapSumsToZero` | src/pairwise_comps.cpp:39-47 | A source row sharing no observed locus with the target gets value 0. |
| `IndPairwise.UnusedLociDoNotChangeValue` | src/pairwise_comps.cpp:44-47 | Two source rows that agree at every locus where either is compared with the target get the same value and the same count. |
| `IndPairwise.SwappingRolesChangesValue` | src/pairwise_comps.cpp:46 | The lookup is directional: with an asymmetric table, swapping the source and target genotypes changes the value. |
| `IndPairwise.TwoLocusExample` | src/pairwise_comps.cpp:38-52 | Source rows (0,1) and (1,missing) against target (1,0): the first sums cells [0][1] of locus 0 and [1][0] of locus 1 over 2 loci; the second sums cell [1][1] of locus 0 over 1 locus. |
| `GenoId.ScanPair` | src/pairwise_comps.cpp:98-112 | Abandons the pair exactly when the test after some locus fires. When it does not abandon it, it returns the full mismatch and compared-loci counts over all L loci. |
| `GenoId.PairwiseGenoId` | src/pairwise_comps.cpp:85-126 | The four columns have equal length and, row by row, hold exactly the records of the surviving pairs in nested-loop order. |
| `GenoId.AbandonedForGood` | src/pairwise_comps.cpp:108-111 | Once the test after some locus fires, the pair cannot survive the scan of all L loci. |
| `GenoId.EarlyExitMatchesFullScan` | src/pairwise_comps.cpp:101-113 | When max_miss >= 0 or L > 0, the early-exit scan keeps a pair exactly when the full-scan mismatch count is at most max_miss. |
| `GenoId.EdgeCases` | src/pairwise_comps.cpp:101-113 | With max_miss < 0 and L > 0, every pair is abandoned. With L = 0, every pair survives with mismatch and compared-loci counts of 0. |
| `GenoId.ClosePairsWellFormed` | src/pairwise_comps.cpp:104-117 | Every record satisfies 1 <= ind1 < ind2 <= nS. Its num_mismatch and num_loc are the full counts for that pair. num_mismatch <= num_loc <= L, and num_mismatch <= max_miss whenever max_miss >= 0 or L > 0. |
| `GenoId.ClosePairsOrdered` | src/pairwise_comps.cpp:96-97 | Records are strictly increasing in (ind1, ind2), so each pair appears at most once, and there are at most nS*(nS-1)/2 records. |
| `GenoId.PruningEquivalence` | src/pairwise_comps.cpp:98-118 | When max_miss >= 0 or L > 0, pair (i, j) is reported, with its full counts, exactly when its full mismatch count is at most max_miss. Any record for that pair carries those counts. |
| `GenoId.NegativeBoundReportsNothing` | src/pairwise_comps.cpp:101-113 | As written, a negative max_miss with at least one locus reports no pair. |
| `GenoId.NoLociReportsEveryPair` | src/pairwise_comps.cpp:101-117 | As written, with no loci every pair is reported as (i+1, j+1, 0, 0), whatever max_miss is. |
| `GenoId.ThreeRowExample` | src/pairwise_comps.cpp:96-120 | Rows (0,0,0), (0,0,1), (0,1,1) with max_miss = 1 give exactly the records (1,2,1,3) and (2,3,1,3). |

## Left out

- The Rcpp interface is not modelled: the `IntegerMatrix`, `NumericVector` and `IntegerVector` wrappers, `[[Rcpp::export]]`, and `DataFrame::create`. Matrices are `array2<int>`, vectors are sequences, and each result table is returned as parallel column sequences.
- R stores an `IntegerMatrix` column-major. The model indexes `S[i, j]` directly and does not model that layout.
- IndPairwise.CompIndPairwise: the value sum is over `real`, not IEEE-754 `double`. Rounding is not modelled; only the fixed locus summation order is kept.
- The 32-bit `int` range is not modelled. The counts `n` and `mm` are at most `L`, and indices go up to `nS`, so they cannot overflow. The offset arithmetic `Starts[j] + nGenos[j]*sG + tG` is assumed to be computed exactly.
- Out-of-range reads are not modelled; they become preconditions, because the source has undefined behaviour there. This covers `t` outside `1..T.nrow()`, `T` with fewer than `L` columns, `nGenos` or `Starts` shorter than `L`, and a flat offset outside `values`. Genotype codes at or above `nGenos[j]` are not rejected, as in the source. Only the resulting offset must be in range.
- Running time is not modelled, and there is no locus-visit counter showing how much work early exit saves.
