# Abelian sandpile grid and its fork/join update, in Dafny

This project models the core of a Java Abelian-sandpile simulator. That core is the class
`ParallelGrid`, which exists as two near-identical copies: one in package
`parallelAbelianSandpile` and one in package `serialAbelianSandpile`.

- **Grid** (module `ParallelGrid`). A lattice padded by a one-cell "sink" frame, with two
  buffers. `parallelGrid` holds the committed state and is called `cells` here.
  `updateGrid` receives the next state and is called `update` here. The fields
  `rows`/`columns` are the padded sizes, as in Java. The module covers the constructors,
  `getRows`, `getColumns`, `get`, `setAll` and `nextTimeStep`.
- **Transition engine** (module `GridUpdate`). `compute()` works on a row range. It is a
  leaf when the range is within the sequential cutoff. Otherwise it bisects the range at
  `(start+end)/2`, computes both halves and ORs their change flags. `update()` runs it over
  the interior and commits through `nextTimeStep` only when something changed. The two
  packages' engines differ only in the cutoff test: cell count in the parallel one, row count in the
  serial one. So the engine takes the test as a `Policy`.
- **Packages** (modules `ParallelSandpile`, `SerialSandpile`). Each package's cutoff
  `(rows*columns)/availableProcessors()`, the exact condition under which its recursion
  terminates, and the serial package's constructors.
- **Conservation** (module `Conservation`). One step keeps the interior total of sand,
  except for the grains pushed into the sink.
- **Scenarios** (module `Scenarios`). Small worked configurations.

The model is functional. A grid is an immutable value, and every mutator returns the new
value. A fork/join split is evaluated sequentially: `bottom` first, as the splitting call
does, then `top` writing into the buffer `bottom` produced. The main theorem is the
contract of `GridUpdate.Compute`: for every policy and cutoff under which the recursion
terminates, `compute()` equals one sequential leaf sweep over the whole range. Java's `/`
and `%` truncate toward zero and are modelled exactly (`JavaSemantics.Div`/`Rem`), so the
transition is faithful for negative heights as well.

Apart from the cutoff test and the two constructors, the serial package's grid code is
the same as the parallel package's. It has the same `getRows`, `getColumns`, `get`,
`setAll`, `nextTimeStep`, leaf formula, split and `update`. The rows below cite the
parallel copy for those members, and they model both copies. The two constructors differ
as follows:
- The serial `(w, h)` constructor zeroes only the committed buffer explicitly and leaves
  the update buffer as Java allocates it, which is all zero. It builds the same grid as
  `Create` (`SerialSandpile.CreateAsWritten`, `SerialSandpile.CreateAsWrittenIsCreate`).
- The serial `int[][]` constructor loops one row and one column too far and throws on
  every input (`SerialSandpile.FromArrayAsWritten`, first finding below).

Three behaviours of the code worth noting:
- the `(w, h)` constructor rejects only `w+2 < 0` or `h+2 < 0`, where Java's array
  allocation throws; it does not reject `w <= 0`;
- an empty or inverted row range is a leaf that writes nothing and reports no change; it
  is not an error;
- the copy constructor is not a deep copy (see "Left out").

## Model

| member | source | states |
|---|---|---|
| JavaSemantics.Div | src/parallelAbelianSandpile/ParallelGrid.java:103-106 | Java's `c / 4`: the quotient rounded toward zero, pinned down by the remainder's bounds for each sign of `c` |
| JavaSemantics.Rem | src/parallelAbelianSandpile/ParallelGrid.java:102 | Java's `c % 4`: `c - 4*(c/4)`, with the sign of `c` and absolute value below 4 |
| ParallelGrid.Create | src/parallelAbelianSandpile/ParallelGrid.java:18-30 | fails with NegativeArraySize exactly when `w+2<0` or `h+2<0`; otherwise both buffers are `(w+2)`×`(h+2)` and all zero, `getRows()==w` and `getColumns()==h` |
| ParallelGrid.FromArray | src/parallelAbelianSandpile/ParallelGrid.java:32-40 | fails exactly when the source is empty or some row is shorter than the first; otherwise the size is taken from the source, interior cell `(i,j)` is `src[i-1][j-1]`, the sink frame is 0 and the update buffer is all zero |
| ParallelGrid.GetRows | src/parallelAbelianSandpile/ParallelGrid.java:52-54 | the interior rows are exactly rows `1..getRows()` |
| ParallelGrid.GetColumns | src/parallelAbelianSandpile/ParallelGrid.java:56-58 | the interior columns are exactly columns `1..getColumns()` |
| ParallelGrid.Get | src/parallelAbelianSandpile/ParallelGrid.java:60-62 | returns the committed cell when the index is inside the padded lattice, IndexOutOfBounds otherwise |
| ParallelGrid.SetAll | src/parallelAbelianSandpile/ParallelGrid.java:64-70 | every interior cell becomes `v`; the sink frame and the update buffer are unchanged |
| ParallelGrid.NextTimeStep | src/parallelAbelianSandpile/ParallelGrid.java:74-80 | the committed interior equals the update buffer's interior; the frame and the update buffer are unchanged |
| ParallelGrid.NextTimeStepIdempotent | src/parallelAbelianSandpile/ParallelGrid.java:74-80 | committing twice equals committing once |
| ParallelGrid.MutatorsKeepBorderZero | src/parallelAbelianSandpile/ParallelGrid.java:64-80 | `setAll` and `nextTimeStep` keep a zero sink frame zero in both buffers |
| GridUpdate.SweepRow | src/parallelAbelianSandpile/ParallelGrid.java:101-110 | the inner loop writes the next height into exactly columns `1..columns-2` of the row and reports whether one of them differs from the read buffer |
| GridUpdate.Leaf | src/parallelAbelianSandpile/ParallelGrid.java:97-113 | a leaf writes `cur[i][j]%4` plus the four neighbours' `/4` terms into exactly the rows in range and the interior columns, leaves every other cell of the write buffer as it was, and returns true iff some written cell differs from the read buffer |
| GridUpdate.ShortRangeIsLeaf | src/parallelAbelianSandpile/ParallelGrid.java:97 | when one-row ranges pass the cutoff test, so do empty and inverted ranges |
| GridUpdate.SplitShrinks | src/parallelAbelianSandpile/ParallelGrid.java:115-118 | in a terminating recursion a range that is split has at least two rows, and its midpoint lies strictly inside it |
| GridUpdate.Compute | src/parallelAbelianSandpile/ParallelGrid.java:96-125 | for every policy and cutoff under which it terminates, the recursive split-and-OR writes the next height into every interior cell of every row in `[start,end)` and nothing else, returns true iff one of those cells changes, and equals one sequential leaf sweep over the range, in buffer and flag |
| GridUpdate.LeafSplit | src/parallelAbelianSandpile/ParallelGrid.java:115-123 | sweeping `[mid,end)` and then `[start,mid)` into the resulting buffer equals one sweep of `[start,end)`; the flag of the whole is the OR of the halves' flags |
| GridUpdate.ForkOrderIrrelevant | src/parallelAbelianSandpile/ParallelGrid.java:120-123 | the halves write disjoint rows, so running `top` or `bottom` first yields the same buffer |
| GridUpdate.OneRowSplitsIntoItself | src/parallelAbelianSandpile/ParallelGrid.java:115-118 | for a one-row range `mid == start`, so the bottom task has its parent's range |
| GridUpdate.Diverges | src/parallelAbelianSandpile/ParallelGrid.java:97-121 | when a one-row range fails the cutoff test, every non-empty range has a recursion tree of unbounded depth |
| GridUpdate.Bounded | src/parallelAbelianSandpile/ParallelGrid.java:97-121 | when one-row ranges pass the cutoff test, the recursion depth is bounded by the number of rows in the range |
| GridUpdate.TerminatesIff | src/parallelAbelianSandpile/ParallelGrid.java:97-124 | the recursion on a range terminates iff the range itself passes the cutoff test or one-row ranges do |
| GridUpdate.StagedSweep | src/parallelAbelianSandpile/ParallelGrid.java:132-133 | the sweep over `[1,rows-1)` puts the next height into every interior cell of the update buffer, keeps its frame, and reports a change iff the committed buffer is not a fixed point |
| GridUpdate.Update | src/parallelAbelianSandpile/ParallelGrid.java:131-138 | the update buffer's interior is the full step. True means the committed interior now equals the step. False means the committed buffer is unchanged. The flag is true iff the grid was not a fixed point. No sink cell of either buffer is written |
| GridUpdate.UpdateKeepsBorderZero | src/serialAbelianSandpile/ParallelGrid.java:78-85 | a zero sink frame stays zero in both buffers across `update` |
| GridUpdate.UpdateIndependentOfPolicy | src/parallelAbelianSandpile/ParallelGrid.java:97-124 | `update` gives the same grid and flag under every terminating policy and cutoff |
| GridUpdate.StableStaysStable | src/parallelAbelianSandpile/ParallelGrid.java:134-137 | after an `update` that returns false, a second `update` also returns false and the committed buffer is still the original |
| GridUpdate.UpdateKeepsNonNegative | src/parallelAbelianSandpile/ParallelGrid.java:102-106 | non-negative heights stay non-negative across `update` |
| Conservation.RowBalance | src/serialAbelianSandpile/ParallelGrid.java:105-109 | along a row, the new heights plus the grains kept back and lost sideways equal the old heights plus the grains received from the rows above and below |
| Conservation.PrefixBalance | src/serialAbelianSandpile/ParallelGrid.java:103-109 | the same balance summed over the first interior rows, given zero sink columns |
| Conservation.StepBalance | src/serialAbelianSandpile/ParallelGrid.java:103-109 | with a zero frame, the interior total of the new heights plus the grains lost to the sink equals the old interior total |
| Conservation.SinkLossNonNegative | src/serialAbelianSandpile/ParallelGrid.java:105-109 | with non-negative heights the grains lost to the sink are non-negative |
| Conservation.StepConservesSand | src/serialAbelianSandpile/ParallelGrid.java:103-109 | any buffer whose interior holds the step has interior total equal to the old total minus the sink loss |
| Conservation.UpdateConservesSand | src/serialAbelianSandpile/ParallelGrid.java:78-85 | after `update`, the interior totals of the update buffer and of the committed buffer each equal the old total minus the grains pushed into the sink |
| Conservation.UpdateNeverAddsSand | src/serialAbelianSandpile/ParallelGrid.java:78-85 | with non-negative heights and a zero frame, `update` never increases the interior total |
| ParallelSandpile.SourcePolicy | src/parallelAbelianSandpile/ParallelGrid.java:86 | the cell-count cutoff is `(rows*columns)/processors` rounded down |
| ParallelSandpile.TerminationCondition | src/parallelAbelianSandpile/ParallelGrid.java:86-121 | `update()` terminates iff there are no columns, the interior has no row, or padded `rows >= availableProcessors()` |
| ParallelSandpile.DivergesOnSmallGrid | src/parallelAbelianSandpile/ParallelGrid.java:115-121 | with a non-empty interior and fewer padded rows than processors, `compute()` recurses without bound |
| ParallelSandpile.CutoffCoversRow | src/parallelAbelianSandpile/ParallelGrid.java:86 | with padded `rows >= processors` the cutoff is at least one row of cells |
| ParallelSandpile.ClampedPolicy | src/parallelAbelianSandpile/ParallelGrid.java:86 | the cutoff raised to at least `columns` terminates on every range. It equals the source's cutoff when there are no columns or padded `rows >= processors` |
| ParallelSandpile.ClampedAgreesWithSource | src/parallelAbelianSandpile/ParallelGrid.java:86-138 | wherever the source's `update()` terminates, the clamped cutoff gives the same updated grid and flag |
| SerialSandpile.SourcePolicy | src/serialAbelianSandpile/ParallelGrid.java:91 | the row-count cutoff is `(rows*columns)/processors` rounded down |
| SerialSandpile.TerminationCondition | src/serialAbelianSandpile/ParallelGrid.java:91-127 | `update()` terminates iff the interior has no row or `rows*columns >= availableProcessors()` |
| SerialSandpile.DivergesOnSmallGrid | src/serialAbelianSandpile/ParallelGrid.java:117-127 | with a non-empty interior and fewer padded cells than processors, `compute()` recurses without bound |
| SerialSandpile.ClampedPolicy | src/serialAbelianSandpile/ParallelGrid.java:91 | the cutoff raised to at least 1 terminates on every range. It equals the source's cutoff when `rows*columns >= processors` |
| SerialSandpile.ClampedAgreesWithSource | src/serialAbelianSandpile/ParallelGrid.java:78-127 | wherever the source's `update()` terminates, the clamped cutoff gives the same updated grid and flag |
| SerialSandpile.VariantsAgree | src/serialAbelianSandpile/ParallelGrid.java:101-116 | where both packages' `update()` terminate, they return the same flag and leave identical buffers |
| SerialSandpile.CreateAsWritten | src/serialAbelianSandpile/ParallelGrid.java:17-28 | fails with NegativeArraySize exactly when `w+2<0` or `h+2<0`; otherwise the grid is `(w+2)`×`(h+2)`, built from two zero-filled allocations with only the committed buffer overwritten by the loop |
| SerialSandpile.CreateAsWrittenIsCreate | src/serialAbelianSandpile/ParallelGrid.java:17-28 | the serial constructor builds exactly the grid the parallel one does, and fails on the same inputs, because Java zero-fills a fresh array |
| SerialSandpile.FromArrayAsWritten | src/serialAbelianSandpile/ParallelGrid.java:30-37 | the serial loader completes only if it can read `src[i][j]` for every `i <= w` and `j <= h` |
| SerialSandpile.FromArrayAlwaysFails | src/serialAbelianSandpile/ParallelGrid.java:30-37 | the serial loader throws IndexOutOfBounds on every input |
| Scenarios.LowHeightsAreStable | src/parallelAbelianSandpile/ParallelGrid.java:102-106 | a zero-framed lattice whose interior heights are all in `0..3` is a fixed point |
| Scenarios.OneCellUpdate | src/parallelAbelianSandpile/ParallelGrid.java:131-138 | on any 1×1 grid with a zero frame holding `v`, under every cutoff for which `update()` returns: the cell becomes `v % 4`, and a change is reported exactly when `v % 4 != v` |
| Scenarios.SingleCellBelowThreshold | src/parallelAbelianSandpile/ParallelGrid.java:131-138 | a 1×1 grid holding 3, under every cutoff for which `update()` returns: `update` returns false and the cell stays 3 |
| Scenarios.SingleCellTopples | src/parallelAbelianSandpile/ParallelGrid.java:131-138 | a 1×1 grid holding 5, under every cutoff for which `update()` returns: `update` returns true and the cell becomes 1 |
| Scenarios.CentreStep | src/parallelAbelianSandpile/ParallelGrid.java:102-106 | in a 3×3 grid with 4 in the centre, the next height is 0 at the centre, 1 at its four orthogonal neighbours and 0 at the corners |
| Scenarios.CentreTopples | src/parallelAbelianSandpile/ParallelGrid.java:131-138 | under every cutoff for which `update()` returns, `update` on that grid returns true and commits exactly those heights |
| Scenarios.CentreSettles | src/parallelAbelianSandpile/ParallelGrid.java:131-138 | under every cutoff for which `update()` returns, a second `update` on the result returns false |

## Left out

- `printParallelGrid` and `gridToImage`: console output and PNG export through java.awt and ImageIO. These are I/O only.
- The copy constructors (parallel lines 42-50, serial lines 39-46) are not modelled. They pass the padded `rows`/`columns` to the `(w, h)` constructor, and their copy loop reads past the source grid. They are not a working deep copy.
- ForkJoinPool scheduling (`fork`, `join`, `invoke`): a split is evaluated sequentially. The halves write disjoint rows, and that is what `ForkOrderIrrelevant` and `LeafSplit` state.
- `Runtime.getRuntime().availableProcessors()` is a parameter `processors >= 1`. Java reads it again in the field initialiser of every task (parallel line 86, serial line 91), and the runtime may change it while the program runs. The model assumes it is the same for every task of one `update()`. `Compute` equaling one leaf sweep would hold with a different cutoff per task, but the exact termination conditions (`TerminationCondition`) rely on the value staying fixed.
- 32-bit overflow is not modelled. This covers heights, the sum of the five terms, `rows*columns`, `(end-start)*columns` and `w+2`; integers are unbounded.
- Null arrays and null rows passed to the `int[][]` constructor are not modelled, because sequences cannot be null.
- GridUpdate.Compute: a non-terminating recursion (which would end in a StackOverflowError) is excluded by the precondition `Terminates`. The non-termination itself is stated by `Diverges`, `TerminatesIff` and the `DivergesOnSmallGrid` lemmas, not as an error result.
- Scenarios.CentreSettles: eventual stabilisation is proved for this configuration only. That every non-negative configuration with a zero frame stabilises, and that every fixed point has all heights below 4, is not proved.

## Findings

| source | as written | input that shows it | evidently intended | confidence | as-written member | corrected member |
|---|---|---|---|---|---|---|
| src/serialAbelianSandpile/ParallelGrid.java:32-34 | the loops run `i < rows`, `j < columns` over the padded sizes and read `src[i-1][j-1]` | `{{1}}`: at `i=1, j=2` it reads `src[0][1]`, out of bounds; every input fails this way | loop to `rows-1` and `columns-1`, as the parallel package does | high, not executed | SerialSandpile.FromArrayAsWritten | ParallelGrid.FromArray |
| src/parallelAbelianSandpile/ParallelGrid.java:86 | `CUTOFF = (rows*columns)/availableProcessors()` has no lower bound, and a one-row range that fails `columns <= CUTOFF` splits into an empty range and itself | a 1×1 grid (`rows = columns = 3`) on 4 processors: `CUTOFF = 2`, and range `[1,2)` splits into `[1,1)` and `[1,2)` forever | clamp the cutoff to at least `columns`, so that one-row ranges are leaves | high, not executed | ParallelSandpile.DivergesOnSmallGrid | ParallelSandpile.ClampedPolicy |
| src/serialAbelianSandpile/ParallelGrid.java:91 | `CUTOFF = (rows*columns)/availableProcessors()` can be 0, and then a one-row range splits into an empty range and itself | a 1×1 grid (9 padded cells) on 16 processors: `CUTOFF = 0`, and range `[1,2)` recurses forever | clamp the cutoff to at least 1 | high, not executed | SerialSandpile.DivergesOnSmallGrid | SerialSandpile.ClampedPolicy |
