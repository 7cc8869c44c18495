# Prefix and suffix minima by recursive doubling

This project models the core of `1/1.c`, the prefix/suffix-minima scan from
the IN4026 parallel-algorithms assignments, and proves it correct.

The scan works in place on the first `length` cells of an integer buffer.
`length` is a power of two. With direction flag `prefix == 1`, cell `i`
becomes the minimum of the original cells `0..i`. With `prefix == 0`, it
becomes the minimum of the original cells `i..length-1`. The algorithm has
three steps:

- **Reduce:** write the minimum of each pair `source[2k], source[2k+1]`
  into a half-length buffer `Z`.
- **Recurse:** scan `Z` the same way.
- **Fill:** rebuild every cell of `source` from its own old value and `Z`.

A buffer of length 1 is returned unchanged. Any other flag value ends the
program once `length > 1`.

The project has three modules:

- `Minima` (`minima.dfy`) holds:
  - the helper `min`;
  - the specification: the running minima `PrefMin`/`SufMin` and the
    whole-buffer results `PrefixMinima`, `SuffixMinima` and `Scanned`;
  - lemmas about that specification: what the minima mean, monotonicity,
    idempotence, the ends of the buffer, and worked examples.
- `Doubling` (`doubling.dfy`) holds:
  - power-of-two lengths;
  - the reduce step as the function `Pairs`;
  - the fills as `FillPrefix`/`FillSuffix`;
  - the lemmas showing that reduce, recursive scan, then fill yields the
    prefix or suffix minima.
- `ScanEngine` (`scan.dfy`) holds `init` and the two scan variants as
  methods on `array<int>`. Each OpenMP loop is a `forall` statement, and
  each plain loop is a `for` loop with its invariants.

`scan_seq` and `scan_par` differ in how their loops run:

- `scan_seq`'s loops carry OpenMP `parallel for` pragmas. They are Dafny
  `forall` statements, which perform every iteration against the state
  before the loop. The copy loop of `init` carries the same pragma and is a
  `forall` too.
- `scan_par` has the same body with plain loops. They are sequential `for`
  loops in the source's order:
  - the prefix fill runs upward from 1;
  - the suffix fill runs downward from `length - 2`.

Both variants meet the same contract, so the iteration order of the fill
does not change the result. `VariantsAgree` states that the two variants
agree.

On the example buffer `[5,3,8,1,9,2,7,4]`:

- the prefix scan is `[5,3,3,1,1,1,1,1]`;
- the suffix scan is `[1,1,1,1,2,2,4,4]`.

## Model

| member | source | states |
|---|---|---|
| Minima.Min | 1/1.c:222-227 | The result is at most `a` and at most `b`, and it equals one of them. |
| Minima.PrefMinIsMinimum | 1/1.c:111-124 | The prefix minimum at `i` is one of `s[0..i]` and no larger than any of them. |
| Minima.SufMinIsMinimum | 1/1.c:126-139 | The suffix minimum at `i` is one of `s[i..|s|-1]` and no larger than any of them. |
| Minima.PrefMinCharacterized | 1/1.c:111-124 | `m` is the prefix minimum at `i` if and only if `m` occurs in `s[0..i]` and undercuts none of its elements. |
| Minima.SufMinCharacterized | 1/1.c:126-139 | `m` is the suffix minimum at `i` if and only if `m` occurs in `s[i..|s|-1]` and undercuts none of its elements. |
| Minima.ScannedEnds | 1/1.c:82-84 | A scan keeps the length, keeps cell 0 for prefix minima and the last cell for suffix minima, and leaves a one-cell buffer as it is. |
| Minima.ScannedMonotone | 1/1.c:111-139 | Prefix minima never increase left to right, and suffix minima never decrease. |
| Minima.ScannedIdempotent | 1/1.c:111-139 | Scanning a scanned buffer again in the same direction changes nothing. |
| Minima.ScannedConstant | 1/1.c:111-139 | A buffer of equal elements is its own scan in both directions. |
| Minima.PrefixExample | 1/1.c:111-124 | The prefix scan of `[5,3,8,1,9,2,7,4]` is `[5,3,3,1,1,1,1,1]`. |
| Minima.SuffixExample | 1/1.c:126-139 | The suffix scan of `[5,3,8,1,9,2,7,4]` is `[1,1,1,1,2,2,4,4]`. |
| Doubling.Pow2IsPowerOfTwo | 1/1.c:22 | Every `2^k`, the form of the benchmark lengths, satisfies `IsPowerOfTwo`. |
| Doubling.PowerOfTwoExponent | 1/1.c:22 | Every length satisfying `IsPowerOfTwo` is `2^k` for some `k`. |
| Doubling.ZeroLengthNeverReturns | 1/1.c:82-105 | With the base case `1 == length` and the recursive call on `length/2`, a call with length 0 never reaches the base case, at any depth of recursion. |
| Doubling.PowerOfTwoReachesBase | 1/1.c:82-105 | A call with a power-of-two length `2^k` reaches the base case after exactly `k` nested calls. |
| Doubling.IndicesInRange | 1/1.c:98-139 | With a power-of-two length above 1, the following hold. The half length is a power of two. `source[i+1]` for even `i` is inside the buffer. `Z[i/2-1]` for even `i >= 2` and `Z[i/2+1]` for odd `i <= length-3` are inside `Z`. |
| Doubling.PairsPrefMin | 1/1.c:98-124 | The prefix minimum of the pair minima at `k` is the prefix minimum of the buffer at `2k+1`. |
| Doubling.PairsSufMin | 1/1.c:98-139 | The suffix minimum of the pair minima at `k` is the suffix minimum of the buffer at `2k`. |
| Doubling.PrefixFillAt | 1/1.c:118-124 | Given the scanned pair minima `z`, the prefix minimum at `i` is one of three values. It is `s[0]` for `i = 0`, `z[i/2]` for odd `i`, and `min(s[i], z[i/2-1])` otherwise. |
| Doubling.SuffixFillAt | 1/1.c:133-139 | Given the scanned pair minima `z`, the suffix minimum at `i` is one of three values. It is `s[i]` for the last cell, `z[i/2]` for even `i`, and `min(s[i], z[i/2+1])` otherwise. |
| Doubling.FillPrefixScans | 1/1.c:98-124 | Reducing to pair minima, taking their prefix minima and filling yields the prefix minima of the buffer. |
| Doubling.FillSuffixScans | 1/1.c:98-139 | Reducing to pair minima, taking their suffix minima and filling yields the suffix minima of the buffer. |
| ScanEngine.Init | 1/1.c:45-59 | `B[0..n-1]` becomes `A[0..n-1]`. The rest of `B` and all of `A` are unchanged. |
| ScanEngine.ReduceParallel | 1/1.c:98-102 | The parallel reduce leaves a fresh `Z` of `length/2` cells with `Z[k] == min(source[2k], source[2k+1])`. It does not modify `source`. |
| ScanEngine.ReduceInOrder | 1/1.c:166-171 | The sequential reduce leaves the same `Z`. |
| ScanEngine.FillPrefixParallel | 1/1.c:118-124 | The parallel prefix fill leaves `FillPrefix` of the old buffer and `Z`. Cells from `length` on are unchanged. |
| ScanEngine.FillSuffixParallel | 1/1.c:133-139 | The parallel suffix fill leaves `FillSuffix` of the old buffer and `Z`. Cells from `length` on are unchanged. |
| ScanEngine.FillPrefixInOrder | 1/1.c:181-187 | The upward prefix fill leaves the same buffer as the parallel one. |
| ScanEngine.FillSuffixInOrder | 1/1.c:190-196 | The downward suffix fill leaves the same buffer as the parallel one. |
| ScanEngine.AfterScanCells | 1/1.c:78-146 | After a scan with a flag of 1 or 0, the state is as follows. The first `length` cells hold their prefix or suffix minima. Every later cell keeps its value. Cell 0 of a prefix scan and cell `length-1` of a suffix scan keep their values. |
| ScanEngine.ScanSeq | 1/1.c:78-146 | The program ends exactly when `length > 1` and the flag is neither 1 nor 0. The whole buffer afterwards is `AfterScan` of the old buffer. For a flag of 1 or 0, the first `length` cells become their prefix or suffix minima and the rest are unchanged. In every other case, including a length-1 buffer, the buffer is unchanged. |
| ScanEngine.ScanPar | 1/1.c:154-201 | The same contract as ScanSeq, for the sequential loops. |
| ScanEngine.VariantsAgree | 1/1.c:78-201 | Started on buffers whose first `length` cells are equal, `scan_seq` and `scan_par` either both end the program or both return. They leave those first `length` cells equal. Buffers that start equal in every cell end equal in every cell. |

## Left out

- The OpenMP scheduling (chunk size, thread count) is left out. Only the meaning of a parallel loop, all iterations against the same state, is modelled.
- The pthreads machinery is left out: the thread globals, the mutex, the barriers, `par_function` and the thread start and join in `main`. It is concurrency on the shared global buffer, outside the scan itself.
- `main` is left out: the benchmark loop over the lengths in `Ns`, the `gettimeofday` timing and the result table. It is the test harness, not the algorithm.
- `seq_function` is left out as part of the benchmark harness. It is the driver of the sequential variant: it runs `scan_seq(B, n, 1)` and prints the prefix result, refills `B` with `init(n)`, then runs `scan_seq(B, n, 0)` and prints the suffix result. Both calls are modelled by ScanSeq and the refill by Init.
- `read_file` is left out. It fills the seed `A` from a text file, sets the global `length` to the number of values read, and ends the program when the file cannot be opened. Init takes any `A` as its seed, so the loading is not modelled. `print_array` and the debug `printf` calls inside both scans only print.
- The global arrays `A`, `B` of `NMAX` cells become Dafny arrays passed as parameters. `init` copies `n` cells between any two of them.
- The stack array `Z[NMAX]` becomes a freshly allocated array of `length / 2` cells, the only part of it the scan uses.
- Calling `exit(1)` is modelled as the `exited` result. The buffers then hold what they held when the program stopped.
- ScanSeq, ScanPar: `length` is required to be a power of two no larger than the buffer. The source assumes this of its callers. For an odd length above 1 it reads past `length`. For length 0 it never returns (see Findings).

## Findings

| source | as written | input that shows it | evidently intended | confidence | as-written member | corrected member |
|---|---|---|---|---|---|---|
| 1/1.c:82-105 | The only base case is `1 == length`. Every other length recurses on `length/2`. | `length == 0`: `0/2 == 0`, so the scan calls itself with 0 forever until the stack overflows. An empty input file gives `length = 0` in `read_file` (1/1.c:269), and `main` passes it to `seq_function` (1/1.c:315). | The scan is only ever called on a positive power of two, or the base case also catches `length < 1`. | high that it recurses without end; not executed | Doubling.ZeroLengthNeverReturns | Doubling.PowerOfTwoReachesBase (the `IsPowerOfTwo` precondition of ScanSeq and ScanPar, whose recursion is proved to terminate on `decreases length`) |
