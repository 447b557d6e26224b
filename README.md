# LDPC code construction and belief-propagation decoding in Dafny

This project models the `LDPC` class of a small LDPC (low-density parity-check) simulator.
The class builds a regular Gallager parity-check matrix `H` from a block length `n`, a
row degree `d_r` and a column degree `d_c`. It derives the two adjacency tables of the
Tanner graph from `H`: `colInRow[l, k]` is the `l`-th variable of check `k`, and
`rowInCol[m, t]` is the `m`-th check of variable `t`. It tests words for being codewords
and decodes a received word by log-domain belief propagation, in two variants that differ
only in which checks send messages back.

Layout, one module per concern:

- `arith.dfy` (`Arith`): facts about products, quotients and remainders that the verifier
  does not find on its own.
- `params.dfy` (`CodeParams`): the constructor's parameter check. It contains the
  truncated redundancy `n * d_c / d_r` and the pair `dimensionCheck` returns.
- `gallager.dfy` (`Gallager`): the Gallager matrix as a pure function of the parameters
  and the column orders. It also has the counting proofs: every row of `H` has weight
  `d_r`, every column has weight `d_c`, and every column of the base block `H0` has
  weight 1.
- `ldpc.dfy` (`LdpcCode`): the class itself. Its array fields are updated in place by methods
  with `modifies` clauses:
  - building `H0`, stacking the permuted blocks and the row-major scan that fills the
    adjacency tables;
  - the parity test;
  - the four decoder phases (variable-to-check, check-to-variable, posterior,
    decision);
  - the driver with its codeword fast path and its fixed number of passes;
  - the two variants and the entry point that clears the buffers first.

The decoder's two message tables also have a value form, `Messages`, with one sequence
per table. `NextMessages` is one pass on these values: the variable-to-check phase
(`VariablePhase`), then the check-to-variable phase over the checks below a bound
(`CheckPhase`). `Passes` applies it a given number of times. Each decoder method is proved
to leave its arrays holding these values. So the number of passes the decoder runs is part
of its contract.

Things the source leaves to outside code are parameters of the model:

- the random column orders are a sequence of permutations of `0 .. n-1`;
- the log-domain magnitude function is `f: real -> real`;
- the saturation of an LLR is `clamp: real -> real`;
- the channel factor `log((1 - p) / p)` is `llrScale`;
- the number of passes is `iterations`.

Notes on what the source does:

- **No early exit.** The decoder always runs every pass. The convergence test after each
  pass is commented out at `src/ldpc.py:254-258`, and there is none in the ETHECC variant.
  So the verdict is the parity test of the output after the last pass.
- **ETHECC sends from the first `d_r` checks only.** The check-to-variable phase of ETHECC
  loops over `k < d_r` (`src/ldpc.py:147`). The messages out of the other checks keep
  their values: zero after `decodingInitialize`. The Original variant loops over every
  check (`src/ldpc.py:221`).
- **The graph-build guard never fires.** The guard in `Make_Gallager_Parity_Check_Matrix`
  (`src/ldpc.py:52`) tests the bound method `self.dimensionCheck`, which is always truthy.
  So the method always returns true. Only the constructor can reject parameters.
- **`code_rate` is `d_c / d_r`.** The field is computed this way in the source
  (`src/ldpc.py:17`), which is one minus the design rate of the code. The model keeps the
  source's value; nothing reads the field.

## Model

| member | source | states |
|---|---|---|
| `CodeParams.Redundancy` | src/ldpc.py:13 | the redundancy is `n * d_c / d_r` truncated: `r * d_r <= n * d_c < (r + 1) * d_r` |
| `CodeParams.DimensionCheck` | src/ldpc.py:37-40 | when both the rate check and the row-degree check hold, the redundancy is `(n / d_r) * d_c`, so it splits into `d_c` blocks of `n / d_r` rows |
| `CodeParams.CheckParameters` | src/ldpc.py:11-15 | construction is accepted exactly when `d_r > 0`, `d_r` divides `n * d_c` and `d_r` divides `n`; then the redundancy satisfies `r * d_r == n * d_c`; a zero row degree is its own error (the source divides by zero at line 13) |
| `CodeParams.AcceptsDefaultCode` | src/ldpc.py:11-15 | the default code (16, 4, 3) is accepted with 12 checks |
| `CodeParams.RejectsRowDegreeFive` | src/ldpc.py:37-40 | (16, 5, 3) fails the row-degree check and raises the invalid-parameters error |
| `CodeParams.RejectsRateOnly` | src/ldpc.py:37-40 | (6, 4, 2) passes the rate check and is rejected by the row-degree check |
| `CodeParams.RowDegreeDecides` | src/ldpc.py:37-40 | once `d_r > 0` divides `n`, the rate check holds too, so the row-degree check alone decides acceptance |
| `Arith.SlotOfRow` | src/ldpc.py:76-77 | the `c`-th one of row `i` has running counter `i * d_r + c`, whose remainder by `d_r` is `c` and whose quotient by `n` is the block of row `i` |
| `Gallager.Code.Order` | src/ldpc.py:63-66 | the column order of every block is a bijection on `0 .. n-1`; block 0 is H0 unpermuted |
| `Gallager.BaseEntryQuotient` | src/ldpc.py:58-60 | row `i` of H0 covers column `v` exactly when `v / d_r == i` |
| `Gallager.BlockEntry` | src/ldpc.py:63-67 | row `i` of block `b` of H is row `i` of H0 read through block `b`'s column order |
| `Gallager.OneRowInBlock` | src/ldpc.py:63-67 | block `b` has a one in column `j` at row `OneRow(b, j)`, which lies inside block `b` |
| `Gallager.EntryOne` | src/ldpc.py:63-67 | `H[r, j]` is one exactly when `r` is the one row of its block for column `j` |
| `Gallager.PreimageCount` | src/ldpc.py:65-66 | a column permutation maps exactly `hi - lo` columns into any range `[lo, hi)` |
| `Gallager.RowWeight` | src/ldpc.py:56-67 | every row of H has exactly `d_r` ones |
| `Gallager.ColumnOnesBelow` | src/ldpc.py:63-67 | the first `b` blocks hold exactly `b` ones in every column |
| `Gallager.ColumnWeight` | src/ldpc.py:56-67 | every column of H has exactly `d_c` ones |
| `Gallager.BaseRowWeight` | src/ldpc.py:58-60 | every row of H0 has exactly `d_r` ones |
| `Gallager.BaseColumnWeight` | src/ldpc.py:58-60 | every column of H0 has exactly one one |
| `LdpcCode.HardBit` | src/ldpc.py:177-181 | the decided bit is 0 or 1, and it is 1 exactly when the posterior is `>= 0.0` (a zero posterior gives 1) |
| `LdpcCode.PriorOf` | src/ldpc.py:120 | the prior of a received one is `+llrScale` and of a zero `-llrScale` |
| `LdpcCode.SignIsParity` | src/ldpc.py:152-156 | the sign a check sends is -1 exactly when an odd number of the other incoming messages are not positive (zero counts as negative) |
| `LdpcCode.LogSumWithout` | src/ldpc.py:152-154 | the log sum over all slots but `l`, plus slot `l`'s own term, is the log sum over every slot |
| `LdpcCode.Ldpc.constructor` | src/ldpc.py:11-26 | accepted parameters give an object with the given degrees, the checked redundancy, `messageLength == n - redundancy`, and all-zero LLR buffers, message tables and words, all of them newly allocated arrays the object owns |
| `LdpcCode.Ldpc.Create` | src/ldpc.py:11-26 | construction fails exactly when the parameter check fails, with its error; otherwise it yields a fresh valid object with the given block length, degrees and seed, the checked redundancy, `messageLength == n - redundancy`, and all-zero LLR buffers, message tables and words, with every array newly allocated |
| `LdpcCode.Ldpc.ParityMatrixInitialize` | src/ldpc.py:42-46 | H is a fresh all-zero `redundancy x n` matrix and the adjacency tables are fresh all-zero tables of shapes `d_c x n` and `d_r x redundancy`; the decoder buffers are untouched |
| `LdpcCode.Ldpc.MakeBaseBlock` | src/ldpc.py:56-60 | the filled H0 has `n / d_r` rows and holds exactly the base entries: ones in columns `[i * d_r, (i + 1) * d_r)` of row `i`, zeros elsewhere |
| `LdpcCode.Ldpc.StackBlocks` | src/ldpc.py:61-67 | the stacked matrix has `redundancy` rows and equals the Gallager matrix of the column orders entry by entry |
| `LdpcCode.Ldpc.OnesInRow` | src/ldpc.py:56-67 | every row of the built H has `d_r` ones |
| `LdpcCode.Ldpc.OnesInColumn` | src/ldpc.py:56-67 | every column of the built H has `d_c` ones |
| `LdpcCode.Ldpc.RowHits` | src/ldpc.py:77 | block `m` of column `t` has its one in row `i` exactly when `m` is row `i`'s block and `H[i, t]` is one |
| `LdpcCode.Ldpc.ScanRow` | src/ldpc.py:74-77 | scanning row `i` lists its ones in slot order in column `i` of `colInRow`, records `i` in `rowInCol` exactly at the ones of row `i` in row `i`'s block, moves both counters on by `d_r` and changes no other check's slots |
| `LdpcCode.Ldpc.ScanSlot` | src/ldpc.py:76-77 | the counters of the `c`-th one of row `i` give slot `c` and the block of row `i` |
| `LdpcCode.Ldpc.RankedIncreasing` | src/ldpc.py:74-76 | slots ranked by the number of ones before them are in strictly increasing column order |
| `LdpcCode.Ldpc.ScanNextRow` | src/ldpc.py:73-77 | one more row scanned keeps every earlier row's entries and extends the scanned prefix by one row |
| `LdpcCode.Ldpc.GenerateQ` | src/ldpc.py:71-78 | after the scan both adjacency tables agree with H: `colInRow` lists each row's ones in increasing order, and `rowInCol[m, t]` is the one row of block `m` with a one in column `t` |
| `LdpcCode.Ldpc.RegularWeights` | src/ldpc.py:56-67 | the built matrix is regular: row weights `d_r`, column weights `d_c` |
| `LdpcCode.Ldpc.RowInColInBlock` | src/ldpc.py:77 | `rowInCol[m, t]` is a check of block `m` with a one in column `t` |
| `LdpcCode.Ldpc.TablesReady` | src/ldpc.py:74-77 | tables that agree with H hold only in-range indices, and each check lists its variables in strictly increasing order, so never one twice |
| `LdpcCode.Ldpc.MakeGallagerParityCheckMatrix` | src/ldpc.py:48-69 | always returns true; H is the Gallager matrix of the given orders with regular weights, the tables agree with H, every `rowInCol[m, t]` lies in block `m` with `H[rowInCol[m, t], t] == 1`, and the decoder buffers are the same arrays |
| `LdpcCode.Ldpc.IsCodeword` | src/ldpc.py:80-92 | returns true exactly when every check's sum of output bits over its `d_r` variables is even; it changes nothing |
| `LdpcCode.Ldpc.ZeroWordIsCodeword` | src/ldpc.py:86-92 | the all-zero word passes every check |
| `LdpcCode.Ldpc.SlotOfOne` | src/ldpc.py:74-76 | the one at `(k, j)` is listed in slot `OnesBefore(k, j)` of check `k` |
| `LdpcCode.Ldpc.SyndromeSumIsCheckSum` | src/ldpc.py:81-92 | the product of row `k` of H with a word, up to column `j`, equals the check sum over the first `OnesBefore(k, j)` slots of check `k` |
| `LdpcCode.Ldpc.SyndromeRow` | src/ldpc.py:81-92 | row `k` of the syndrome `H * word` equals check `k`'s parity sum over the table |
| `LdpcCode.Ldpc.ParityTestIsSyndrome` | src/ldpc.py:80-92 | the table-based parity test accepts a word exactly when the commented-out matrix syndrome `H * word mod 2` is zero, in both directions |
| `LdpcCode.Ldpc.IncomingMessageSum` | src/ldpc.py:132-136 | the running sum of the check-to-variable messages into `t`, clamped after every step |
| `LdpcCode.Ldpc.RelayAll` | src/ldpc.py:137-140 | the slot loop of variable `t` writes `LRqtl[t, c]` for each of `t`'s checks `c`, with the prior plus the given total less `c`'s own message, and no other cell |
| `LdpcCode.Ldpc.SendFromVariable` | src/ldpc.py:137-140 | variable `t` writes `LRqtl[t, c]` exactly for its checks `c`, each with the prior plus the total with `c`'s own message taken out; every other cell is unchanged |
| `LdpcCode.Ldpc.VariableToCheck` | src/ldpc.py:131-140 | the phase writes `LRqtl` exactly at the edges `(t, rowInCol[m, t])`, with the extrinsic message; every other cell keeps its value; so `LRqtl` ends as `VariablePhase` of the tables before |
| `LdpcCode.Ldpc.VariablePhase` | src/ldpc.py:131-140 | on values: each edge `(t, c)` carries the extrinsic message of `t` to `c` computed from the old check-to-variable table, and every other cell keeps its old value |
| `LdpcCode.Ldpc.PosteriorUnclamped` | src/ldpc.py:167-172 | without saturation the posterior of `t` is its prior plus all its incoming messages |
| `LdpcCode.Ldpc.ExtrinsicMessage` | src/ldpc.py:132-140 | without saturation the message from `t` to `c` is `t`'s posterior minus `c`'s own message to `t` |
| `LdpcCode.Ldpc.CheckMessage` | src/ldpc.py:150-159 | the slot loop computes the check output for slot `l`: the sign and `f` of the log sum over all other slots, clamped |
| `LdpcCode.Ldpc.SendFromCheck` | src/ldpc.py:148-159 | check `k` writes `LRrtl[colInRow[l, k], k]` for each slot `l` with its check output, and no other cell |
| `LdpcCode.Ldpc.SendSlots` | src/ldpc.py:149-159 | the slot loop of one check over distinct, in-range variables writes exactly those cells |
| `LdpcCode.Ldpc.CheckToVariable` | src/ldpc.py:147-159 | the phase over the checks below a bound writes `LRrtl` exactly at those checks' edges with their outputs; every other cell keeps its value; so `LRrtl` ends as `CheckPhase` of the new variable-to-check messages and the old table |
| `LdpcCode.Ldpc.CheckPhase` | src/ldpc.py:147-159 | on values: each edge of a check `c` below the bound carries `c`'s output for the variable's slot, computed from the given variable-to-check table, and every other cell keeps its old value |
| `LdpcCode.Ldpc.PassAnswers` | src/ldpc.py:131-159 | in the messages after a pass, every variable has sent to each of its checks `rowInCol[m, t]` the extrinsic message computed from the check-to-variable messages before the pass, and every check below the bound answers each of its variables from the variable-to-check messages of that same pass |
| `LdpcCode.Ldpc.PassesKeepOffEdges` | src/ldpc.py:127-159 | after any number of passes, every message off the graph's edges, and every message of a check at or above the bound, still has its starting value |
| `LdpcCode.Ldpc.PosteriorOf` | src/ldpc.py:168-172 | `LRpt[t]` becomes the clamped prior plus the clamped running sum of `t`'s incoming messages; other bits keep theirs |
| `LdpcCode.Ldpc.Posterior` | src/ldpc.py:167-172 | every `LRpt[t]` is the posterior sum of `t` |
| `LdpcCode.Ldpc.HardDecision` | src/ldpc.py:177-181 | every output bit is the hard decision of its posterior |
| `LdpcCode.Ldpc.Decide` | src/ldpc.py:167-181 | after the posterior phase and the decision, the posterior and the output word are those of the current messages |
| `LdpcCode.Ldpc.DecodingInitialize` | src/ldpc.py:28-35 | the prior, posterior, both message tables and the output word are all zero, the counters are reset, and the code's matrix, tables and input word are untouched |
| `LdpcCode.Ldpc.Exchange` | src/ldpc.py:131-159 | the two message phases leave both tables equal to `NextMessages` of the tables before them |
| `LdpcCode.Ldpc.Pass` | src/ldpc.py:131-181 | one pass leaves both message tables equal to `NextMessages` of the tables before it (the variable-to-check phase, then the check phase over the checks below the bound), and the posterior and decision of the new messages |
| `LdpcCode.Ldpc.Iterate` | src/ldpc.py:127-182 | the message tables end as `Passes` of the tables before it: exactly `iterations` passes, with no early exit; zero passes change nothing; otherwise the posterior and output word are those of the last pass |
| `LdpcCode.Ldpc.RunPasses` | src/ldpc.py:127-182 | the loop over passes `1 .. iterations`, run when there is at least one pass, leaves the messages of exactly `iterations` passes and the decision of the last one |
| `LdpcCode.Ldpc.LoadInput` | src/ldpc.py:117 | the output word becomes a copy of the input word |
| `LdpcCode.Ldpc.SetPrior` | src/ldpc.py:120-121 | each prior is `PriorOf` the input bit and the posterior is cleared |
| `LdpcCode.Ldpc.DecodeFromPrior` | src/ldpc.py:120-187 | the prior comes from the input; the messages are those of exactly `iterations` passes from the ones before; the verdict is the parity test of the final output; with zero passes the output is the input and the posterior zero, otherwise the posterior and output are the last pass's |
| `LdpcCode.Ldpc.DecodeRejected` | src/ldpc.py:118-187 | for an input that fails the parity test: the prior comes from the input, the messages are those of exactly `iterations` passes from the starting ones, the verdict is the parity test of the output, and nothing changes off the edges of the checks below the bound |
| `LdpcCode.Ldpc.RunDecoder` | src/ldpc.py:116-187 | a codeword input returns true with the output equal to the input and the LLR buffers and message tables unchanged; otherwise the messages are those of exactly `iterations` passes from the starting ones, and nothing changes off the edges of the checks below the bound |
| `LdpcCode.Ldpc.LdpcDecodingOriginal` | src/ldpc.py:190-263 | the decoder whose check phase runs over every check, for exactly `iterations` passes |
| `LdpcCode.Ldpc.LdpcDecodingEthecc` | src/ldpc.py:116-187 | the decoder whose check phase runs over the first `d_r` checks only, for exactly `iterations` passes; the messages of the other checks keep their values |
| `LdpcCode.Ldpc.LdpcDecoding` | src/ldpc.py:94-99 | after clearing the buffers, the chosen variant's outcome holds from all-zero messages: a codeword input leaves every message, the prior and the posterior zero; otherwise the messages are exactly `iterations` passes from zero, and every message off the edges the variant covers stays zero |

## Left out

- The command-line entry point, the logging set-up, the result files and the Monte Carlo
  driver that sets `input_word`: I/O outside the class. The model takes `inputWord` as
  whatever the caller stored in it.
- The seeded generator `np.random.default_rng(seed + i - 1).permutation(n)`: a foreign
  library call. The model takes the column orders as a parameter, assumed to be
  permutations of `0 .. n-1`, and records them in a ghost field. It does not model which
  permutation a given seed yields.
- Floating-point LLR arithmetic: values are `real`. `utils.func_f`, `utils.infinityTest`
  and `math.log((1 - p) / p)` are the parameters `f`, `clamp` and `llrScale`, without
  properties. So there are no claims about convergence, infinities or NaN.
- `CodeParams.Redundancy`: uses exact integer division where the source truncates a float
  quotient. The two differ only once `n * d_c` is too large for a double to hold exactly.
- `Make_Parity_Check_Matrix_Sys` and the fields `H_ORI`, `H_SYS`, `H_NEW` and `G_SYS`: the
  method is unused and relies on `utils.computeBinaryRREF`, which is not part of this model.
- `logging` calls and `time.time()` measurements in the decoders: side effects only.
- `LdpcCode.Ldpc.MakeGallagerParityCheckMatrix`: requires `d_c >= 1`. The source divides by
  zero at line 56 when `d_c == 0`, which the constructor lets through.
- `LdpcCode.Ldpc.LdpcDecodingEthecc`: requires `d_r <= redundancy`. Otherwise `col_in_row[:, k]`
  is out of range for `k >= redundancy`, and the source raises an index error once a pass
  runs. A codeword input, or zero iterations, returns without that error; the model does
  not cover those runs when `d_r > redundancy`.
- `LdpcCode.Ldpc.LdpcDecoding`: requires `d_r <= redundancy` for the ETHECC variant, for the
  same reason.
- `CodeParams.CheckParameters`: takes natural numbers. The source's constructor also
  accepts some negative degrees, such as (16, -4, -3): `int(-48 / -4) == 12`,
  `-48 == 12 * -4` and `16 % -4 == 0`. Such a code has no meaningful matrix.
- `LdpcCode.Ldpc.DecodingInitialize`: the source binds fresh zero arrays, and the decoders bind
  a fresh prior, a fresh posterior and a copy of the input word. The model clears and
  overwrites the existing arrays in place, so it does not capture that arrays handed out
  earlier keep their old contents.
- The default arguments `blockLength = 16, rowDegree = 4, colDegree = 3, seed = 0`
  (`src/ldpc.py:11`) and `useOriginal = True` (`src/ldpc.py:94`): Dafny has no default
  arguments, so every caller passes them. `CodeParams.AcceptsDefaultCode` covers the
  default code.
- The `lastnonzerow` and `Iter` fields: they are only reset, never read, in the class.
