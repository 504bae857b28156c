# k-permutations of the `arrangements` package, modelled in Dafny

The C core of the R package `arrangements` counts, unranks and enumerates
k-permutations: ordered selections of k distinct items out of n, and the
arrangements of length r that a multiset with label frequencies f allows.
This project models that core and proves what it computes.

- `factorials.dfy` (`Factorials`): exact factorials, falling factorials
  P(n, k), binomials and sums, with the identities the other modules use.
- `unranking.dfy` (`Unranking`): the mathematics behind `ith_k_permutation`.
  - The first pass writes the rank as mixed-radix digits (`Digits`), with
    radices P(n−1−i, k−1−i).
  - The backward pass lifts every digit past the earlier entries (`Lift`,
    `Lifted`).
  - `Unrank` is the composition of the two passes. It is proved to be a
    bijection from [0, P(n, k)) onto the k-permutations of {0, …, n−1}, with
    `Rank` as its inverse, and to be strictly monotone into lexicographic
    order.
- `k_permutations_h.dfy` (`KPermutations`): the imperative routines of
  `src/permutations/k_permutations.h`. These are `n_k_permutations_bigz`,
  the native and big-integer unranking routines (each working in place on
  an array), the fresh state of a session, and the explicit-rank path of
  `get_k_permutations`, including its 1-based to 0-based rank shift and its
  choice of the big-integer path.
- `multiset_count.dfy` (`MultisetCount`): `Arrangements(f, j)`, defined by a
  binomial convolution over the last label. It is the quantity the DP of
  `_nperm_f_bigz` builds up. It is tied to known values: 1 at length 0, 0
  beyond Σf, P(m, j) when every frequency is 1, and the multinomial
  coefficient when the whole multiset is used.
- `multiset_words.dfy` (`MultisetWords`): the set `Words(f, j)` of
  length-j words over the labels 0..|f|−1 with label t used at most f[t]
  times. `WordsCount` proves that its size is `Arrangements(f, j)`. The
  proof splits the words by their first label and shows that the
  convolution obeys the same first-letter rule.
- `multiset_dp.dfy` (`MultisetDP`): `_nperm_f_bigz` itself.
  - The factorial table is filled first.
  - The rolling array p[j] = (r!/j!)·Arrangements(f[..i], j) is then
    updated in place, label by label, sweeping j downward.
  - Every ceiling division is proved exact.
  - Array accesses are checked, so every factorial index stays below
    `factlen` = min(r, max f) + 1.
- `batch.dfy` (`KPermutationBatch`): the batch driver `next_k_permutations`
  of `src/k_permutations.c`.
  - A fresh state is filled before the batch starts.
  - The emit/advance/stop loop is specified by the pure function `Emit`.
  - Labels are looked up at `ap[i] − 1`.
  - The row layout puts element i of record j at `j + i·d`, the column
    layout at `j·r + i`; the list layout gives each record its own vector.
  - The successor `next_k_permutation` is a function parameter. The only
    thing assumed of it is that it rearranges the state (`Permutes`).

Bounded C integers are modelled as `nat`. A cast or a limit matters in three
places, and those are explicit:
- the cycle counters, stored as `unsigned int`;
- the `INT_MAX` dispatch test;
- the `UINT_MAX` bound under which the native unranking path is exact.

## Model

| member | source | states |
|---|---|---|
| Factorials.Falling | src/permutations/k_permutations.h:72-82 | P(n, k) is positive exactly when k <= n (so it is 0 for n < k) |
| Factorials.FallingStep | src/permutations/k_permutations.h:79-81 | one more loop round multiplies by n − k: P(n, k+1) = P(n, k)·(n − k) |
| Factorials.FallingFull | src/permutations/k_permutations.h:72-82 | P(n, n) = n! |
| Factorials.FallingSplit | src/k_permutations.c:321-329 | P(n, a+b) = P(n, a)·P(n−a, b), behind the exact divisions r!/j! and ⌈p[j−k]/k!⌉ of the multiset count |
| Factorials.BinomialFalling | src/k_permutations.c:328-330 | P(n, k) = C(n, k)·k!, the identity behind the exact divisions by k! |
| Factorials.FactRatio | src/k_permutations.c:321-323 | r! = P(r, r−j)·j!, so r!/j! divides exactly |
| KPermutations.NKPermutationsBigz | src/permutations/k_permutations.h:72-82 | the result is P(n, k); it is 0 when n < k, 1 when k = 0 and n! when k = n |
| KPermutations.LiftInPlace | src/permutations/k_permutations.h:107-114 | the backward pass leaves ar[0..k) = Lifted(old ar[0..k)) and nothing else changes |
| KPermutations.LiftEntry | src/permutations/k_permutations.h:108-113 | one round of the backward pass sets ar[i] to Lift(raw, i, raw[i]) and changes no other entry |
| KPermutations.DigitPass | src/permutations/k_permutations.h:101-105 | the native first pass leaves ar[0..k) = Digits(n, k, index) and the rest of ar unchanged |
| KPermutations.DigitPassBigz | src/permutations/k_permutations.h:125-129 | the big-integer first pass leaves ar[0..k) = Digits(n, k, index) and the rest unchanged; the rank left in `index` is 0 |
| KPermutations.IthKPermutation | src/permutations/k_permutations.h:98-115 | for a rank below P(n, k) <= UINT_MAX, ar[0..k) becomes Unrank(n, k, index), which is a k-permutation of {0..n−1}; the rest of ar is unchanged |
| KPermutations.IthKPermutationBigz | src/permutations/k_permutations.h:117-142 | the same as the native routine with exact divisors, and the rank left in `index` afterwards is 0 |
| KPermutations.CycleProduct | src/permutations/k_permutations.h:31-33 | the fresh cycle counters n, n−1, …, n−k+1 multiply to P(n, k) |
| KPermutations.FreshSession | src/permutations/k_permutations.h:27-34 | a fresh session has ap = [0..n), cycle[i] = n − i mod 2^32 and status 0 (the first round emits without advancing); when k <= n, ap[0..k) is the rank-0 permutation and the counters are exactly n − i |
| KPermutations.GetKPermutations | src/permutations/k_permutations.h:159-222 | the big-integer path is taken exactly when ranks are strings or P(n, k) > INT_MAX, so the native path only runs with P(n, k) <= INT_MAX < UINT_MAX, where it is exact; record j is Unrank(n, k, ranks[j] − 1), a k-permutation |
| Unranking.DigitsValid | src/permutations/k_permutations.h:101-105 | for an in-range rank every first-pass digit i lies below its radix n − i |
| Unranking.DigitsPrefixStep | src/permutations/k_permutations.h:101-105 | one round of the first pass extends the digits written so far by quotient and remainder, and the remainder stays below the next radix product |
| Unranking.UndigitsDigits | src/permutations/k_permutations.h:101-105 | re-summing the digits with their radix products gives back the rank |
| Unranking.DigitsUndigits | src/permutations/k_permutations.h:101-105 | valid digits are the digits of their own sum |
| Unranking.LiftIsNthFree | src/permutations/k_permutations.h:107-114 | lifting digit x past the earlier entries gives the x-th smallest value not used by the earlier lifted entries |
| Unranking.LiftedIsKPermutation | src/permutations/k_permutations.h:107-114 | the lift turns valid digits into a k-permutation of {0..n−1} |
| Unranking.LoweredLifted | src/permutations/k_permutations.h:107-114 | lowering undoes lifting |
| Unranking.LiftedLowered | src/permutations/k_permutations.h:107-114 | lifting undoes lowering on sequences of distinct values |
| Unranking.UnrankIsKPermutation | src/permutations/k_permutations.h:98-115 | every in-range rank unranks to a k-permutation of {0..n−1} |
| Unranking.UnrankSelectsNthFree | src/permutations/k_permutations.h:98-115 | entry i of the result is the d_i-th smallest value of {0..n−1} not used by entries 0..i−1 |
| Unranking.RankUnrank | src/permutations/k_permutations.h:98-115 | Rank inverts Unrank on [0, P(n, k)) |
| Unranking.UnrankRank | src/permutations/k_permutations.h:98-115 | every k-permutation has a rank below P(n, k) that unranks to it (unranking is onto) |
| Unranking.UnrankOrder | src/permutations/k_permutations.h:98-115 | a smaller rank gives a lexicographically smaller permutation |
| Unranking.UnrankFirst | src/permutations/k_permutations.h:98-115 | rank 0 gives [0, 1, …, k−1] |
| Unranking.UnrankLast | src/permutations/k_permutations.h:98-115 | rank P(n, k) − 1 gives [n−1, n−2, …, n−k] |
| MultisetDP.NPermFBigz | src/k_permutations.c:283-352 | for a non-empty f the result is Arrangements(f, r), which is the number of length-r words over labels 0..\|f\|−1 using label t at most f[t] times; it is 0 for an empty f, and 0 whenever r > Σf |
| MultisetDP.FoldLabels | src/k_permutations.c:319-341 | the label loop on a zeroed p[0..r] returns Arrangements(f, r) for a non-empty f and 0 for an empty one |
| MultisetDP.FactTable | src/k_permutations.c:304-309 | fact[t] = t! for every t below the table length |
| MultisetDP.FirstLabel | src/k_permutations.c:320-324 | after the first label of frequency c, p[t] = r!/t! for t <= min(r, c) and p[t] = 0 above, which is (r!/t!)·Arrangements([c], t) |
| MultisetDP.FoldLabel | src/k_permutations.c:325-333 | the downward sweep turns p[t] = (r!/t!)·Arrangements(g, t) into the same for g + [c], for all t <= r, and p[0] = r! is never changed |
| MultisetDP.Convolve | src/k_permutations.c:328-331 | Σ_k ⌈p[j−k]/k!⌉ over k <= min(c, j) is (r!/j!)·Arrangements(g + [c], j) |
| MultisetDP.CeilDivExact | src/k_permutations.c:329 | mpz_cdiv_q of an exact multiple is the plain quotient |
| MultisetDP.TermExact | src/k_permutations.c:329 | each term ⌈(r!/(j−c)!)·A / c!⌉ divides exactly and equals (r!/j!)·C(j, c)·A |
| MultisetCount.ArrangementsBeyond | src/k_permutations.c:287-292 | no arrangement is longer than the multiset: Arrangements(f, j) = 0 for j > Σf |
| MultisetCount.ArrangementsOfNothing | src/k_permutations.c:319-341 | there is exactly one arrangement of length 0 |
| MultisetCount.ArrangementsSingle | src/k_permutations.c:320-324 | a single label of frequency c has one arrangement of each length up to c and none beyond |
| MultisetCount.ArrangementsAllOnes | src/k_permutations.c:319-341 | with every frequency 1 the count is P(m, j), the k-permutation count |
| MultisetCount.ArrangementsFull | src/k_permutations.c:319-341 | using the whole multiset, the count times ∏ f[t]! is (Σf)!, the multinomial coefficient |
| MultisetCount.LastLabelFull | src/k_permutations.c:334-340 | at full length the last label must take all of its c copies |
| MultisetWords.WordsMember | src/k_permutations.c:283-352 | a word is counted exactly when it has the requested length, uses only labels 0..\|f\|−1 and uses label t at most f[t] times |
| MultisetWords.FitsFirst | src/k_permutations.c:283-352 | a non-empty word fits f exactly when its first label has a copy left and the rest fits f with that copy removed |
| MultisetWords.PrefixedCard | src/k_permutations.c:283-352 | putting a fixed first label in front of each word of a set keeps the set's size |
| MultisetWords.WordsFirst | src/k_permutations.c:283-352 | the words of length J + 1 are exactly the union, over the labels t with a copy left, of t followed by a word of length J of what remains |
| MultisetWords.BranchesCard | src/k_permutations.c:283-352 | the branches for different first labels are disjoint and prefixing loses no word, so the union has the sum of the branch sizes |
| MultisetWords.EarlierShifted | src/k_permutations.c:319-341 | the shifted half of Pascal's split of the convolution for g + [c] counts the arrangements that start with one of g's labels |
| MultisetWords.FirstLetterLast | src/k_permutations.c:319-341 | the arrangements of g + [c] that start with the last label are counted by the convolution with c − 1 copies of it |
| MultisetWords.RemoveFirst | src/k_permutations.c:319-341 | the convolution satisfies the first-letter rule Arrangements(f, J + 1) = Σ over t with f[t] > 0 of Arrangements(f with one t removed, J) |
| MultisetWords.WordsCount | src/k_permutations.c:283-352 | Arrangements(f, j) is the number of words of length j that f allows |
| KPermutationBatch.Expand | src/k_permutations.c:48-53 | the initial multiset state has Σf entries |
| KPermutationBatch.ExpandRange | src/k_permutations.c:48-53 | every entry of the initial multiset state is a label in 1..\|f\| |
| KPermutationBatch.ExpandSorted | src/k_permutations.c:48-53 | the initial multiset state is nondecreasing |
| KPermutationBatch.ExpandCount | src/k_permutations.c:48-53 | label i+1 occurs exactly f[i] times in it, and no other value occurs |
| KPermutationBatch.InitialArrangement | src/k_permutations.c:44-54 | without f, ap becomes 1, 2, …, n; with f, ap[0..Σf) becomes Expand(f) and the rest is unchanged |
| KPermutationBatch.InitialCovered | src/k_permutations.c:44-54 | every value of a fresh state selects a label when there are enough labels |
| KPermutationBatch.Emit | src/k_permutations.c:83-113 | a batch never holds more than d records |
| KPermutationBatch.EmitCount | src/k_permutations.c:83-113 | with d > 0 the batch is short of d records exactly when it ends with status 0; with d = 0 nothing changes |
| KPermutationBatch.EmitFresh | src/k_permutations.c:84-91 | a fresh state is itself the first record, with no successor call |
| KPermutationBatch.EmitChain | src/k_permutations.c:84-91 | each record is the successor's output on the state before it (the first, for a resumed session, on the incoming state) |
| KPermutationBatch.EmitStop | src/k_permutations.c:84-88 | a batch cut short ends on a failed advance of its last state, whose output is the final state; a fresh state always yields its first record |
| KPermutationBatch.EmitPermutes | src/k_permutations.c:85 | when the successor rearranges its argument, every record and the final state are rearrangements of the incoming state |
| KPermutationBatch.Record | src/k_permutations.c:181-204 | a record has r elements, element i being ap[i] itself or labels[ap[i] − 1] |
| KPermutationBatch.CoveredPermutation | src/k_permutations.c:98 | a rearranged state still selects labels only inside the label vector |
| KPermutationBatch.PosDecode | src/k_permutations.c:92-156 | every position j + i·d (row) or j·r + i (column) lies inside the r·d buffer and decodes back to (j, i) |
| KPermutationBatch.PosInjective | src/k_permutations.c:92-156 | no two elements of a batch share a buffer position |
| KPermutationBatch.Advance | src/k_permutations.c:85 | the state becomes the successor's output, and the flag is the successor's report |
| KPermutationBatch.Round | src/k_permutations.c:84-91 | a resumed state is advanced and emitted only if that succeeds; a fresh state is emitted unchanged; labels stay in range |
| KPermutationBatch.WriteRecord | src/k_permutations.c:92-156 | the current state's looked-up elements land at the positions of record j, and the earlier records stay in place |
| KPermutationBatch.NextMatrix | src/k_permutations.c:66-161 | count, the truncation flag and the final state are those of Emit, and every emitted record is laid out in the buffer by the layout's position rule |
| KPermutationBatch.BuildRecord | src/k_permutations.c:181-204 | the fresh vector is Record(labels, ap, r) |
| KPermutationBatch.StoreRecord | src/k_permutations.c:181-205 | slot j receives the current record, and the earlier slots are kept |
| KPermutationBatch.NextList | src/k_permutations.c:162-210 | count, the truncation flag and the final state are those of Emit, and slot t holds the looked-up record t |
| KPermutationBatch.NextKPermutations | src/k_permutations.c:9-219 | a missing state starts fresh from Initial(n, f) and is emitted first; a stored state resumes and is advanced first; the result is the batch of Emit in the requested layout |

## Left out

- The successor `next_k_permutation` is not part of this model (it lives in
  `algorithms/k_permutation.h`). It is a function parameter assumed to
  rearrange its argument, so the order in which records are enumerated is
  not modelled.
- The R interface is not modelled: argument conversion, `PROTECT`, the
  environment variables that hold a session's state, and
  `attach_factor_levels`.
  - The state cases `state == R_NilValue` (allocate and free) and "no `a`
    in the environment" (allocate and store) are both the `None` state.
    Whether the caller keeps the array is up to the caller.
- `resize_row`, `resize_col` and `resize_list` are represented only by the
  record count and the truncation flag, which together say how far the
  caller trims the result.
- The integer, double and string label vectors are one generic label type.
  The "no labels" case emits the state value itself.
- The double-precision twins are not modelled, being floating point:
  `num_k_permutations`, `fallfact`, `_nperm_f` and `nperm_f`.
  `nperm_f_bigz`, `num_k_permutations_bigz` and the decimal string output
  of GMP are wrappers around the modelled functions.
- The sampling branches of `get_k_permutations` are not modelled: they draw
  random ranks (`unif_rand`, `mpz_urandomm`).
- The result matrices of the header's `RESULT_*` macros are not modelled:
  the macro bodies live in `macros.h`, and `macros.h` is not part of this
  model. `GetKPermutations` returns the records as a sequence.
- The rest of the header's `next_k_permutations` is not modelled, except
  its fresh state.
- `src/arrangements.c` and `src/partitions/partitions-utils.h` are
  registration and helper code outside the core.
- IthKPermutation: `fallfact` returns a double. The model takes it as exact
  and requires P(n, k) <= UINT_MAX. That range contains P(n, k) <= INT_MAX,
  where the caller takes the native path.
- IthKPermutation, IthKPermutationBigz, GetKPermutations: these require
  k >= 1. For k = 0 the unsigned `k - 1` of the backward pass wraps around.
- GetKPermutations: ranks are required to lie in 1..P(n, k). The C code
  does not check them.
  - A rank above P(n, k) gives digits outside their radices, and so does
    rank 0 on the native path, where the unsigned `index[j] - 1` wraps to
    `UINT_MAX`.
  - On the big-integer path, rank 0 gives z = −1. `mpz_tdiv_qr` truncates
    toward zero, so each quotient is 0 until the divisor is 1, where it is
    −1. `mpz_get_ui` drops the sign and stores 1. The result is the record
    of rank 2. For example, n = 3 and k = 2 give the digits [0, 1] and the
    record [0, 2].
- FreshSession: models a session in which both `a` and `cycle` are
  missing. A session missing only one of them resets only that one.
- NPermFBigz: the `int` accumulator of Σf and the `int` frequencies are
  unbounded here.
- NPermFBigz: for an empty f the result is 0 even when r = 0, as written:
  `ptemp` starts as an initialised big integer 0 and no label updates it.
  The empty word would be the one arrangement there (`Words([], 0)` has
  one element), so the count of words is claimed only for a non-empty f.
- NextKPermutations: a fresh state with frequencies requires Σf = n, and
  enough labels for every value. Otherwise the C code does one of three
  things:
  - it writes past the end of the n-entry `ap` (Σf > n,
    `src/k_permutations.c:51`);
  - it leaves `ap[Σf..n)` uninitialised (Σf < n);
  - it reads past the label vector.
- The values of `ap` are `unsigned int` in C. They never exceed
  max(n, |f|) here: the values 1..n without frequencies, and the labels
  1..|f| with them (zero frequencies can make |f| larger than n = Σf). So
  wrap-around is not modelled.
