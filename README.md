# qclib index arithmetic, in Dafny

qclib is a small quantum-circuit simulator. A `qcsim` object holds the state
vector of an n-qubit register: 2^n complex amplitudes. Basis-state index bit
q belongs to qubit q, and qubit n-1 is the most significant. Two things change
the state:

- a gate: a 2^k x 2^k operator applied to a list of k target qubits;
- a measurement of a list of qubits, in the standard basis or in a given
  orthonormal basis.

Both work by permuting index bits. The target qubits are moved to the most
significant positions (with `__qbit_realign_list`, `__shuffled_count` and
`__rmat_rrmat`). There a k-qubit operator is `op (x) I` (`__stretched_mat`,
`__aligned_op`), and a measurement outcome is the value of the top k bits.

This project models that index arithmetic exactly and proves what it
achieves:

- the permutation it builds is a bijection whose inverse is the second map;
- target qubit `qbits[t]` lands at bit n-1-t;
- an embedded operator acts as `op` on the targets, in the order listed, and
  as the identity on every other qubit;
- the measurement's mask selects exactly the top k bits, the outcome
  selection follows the cumulative-interval rule (with its default), the
  measured bits spell the outcome most significant first, and the collapse
  keeps exactly the amplitudes whose target bits match the answer.

It also models the operator combinators: `qcombine_seq`, `qcombine_par`,
`qinverse` and `qstretch`, with their error cases.

The modules follow the program:

- `Bits` holds bitwise operations on `nat` (the source uses Python's
  unbounded integers, so nothing wraps).
- `QcErrors` holds the raised errors as an `Error` datatype and the `Result`
  and `Option` wrappers.
- `Algebra` holds complex amplitudes and dense matrices over `real`.
- `Reorder` models the realignment list, the shuffled count and rmat/rrmat.
- `Embed` models `__aligned_op`, `__stretched_mat`, `qstretch`,
  `qcombine_seq`, `qcombine_par` and `qinverse`.
- `Measure` models the steps of `qmeasure` and the whole measurement as a
  function.
- `Simulator` models the `qcsim` class: its state vector, its step counter,
  the default constructor, `qgate` and `qmeasure`.

Representation choices:

- The permutation matrices rmat and rrmat are modelled by their row maps:
  row i of rmat is the unit row of `ForwardMap[i]`. Multiplying a vector or
  a matrix by them is the corresponding index permutation (`Permute`,
  `Conjugated`).
- The random draw `rnd.random()` is the parameter `toss`.
- The collapse divides each kept amplitude by `np.sqrt(prob_val)`. The
  model multiplies it instead by `invSqrt(prob_val)`, where the parameter
  `invSqrt` stands for 1/sqrt.
- The orthonormality test multiplies the basis by its plain transpose
  (not the conjugate transpose), exactly as the original does.
- Qubit lists are required to be valid: distinct entries, each below n. The
  original leaves that check undone.

## Model

| member | source | states |
|---|---|---|
| Reorder.RealignList | qclib/qclib.py:297-302 | the loop builds `Realign(qbits, n)`: its first |qbits| entries are the given list, in order, and the rest are the missing qubits in descending order, from n-1 down |
| Reorder.AbsentMembers | qclib/qclib.py:299-301 | the appended part holds exactly the qubits below n that are not in the list |
| Reorder.AbsentDescending | qclib/qclib.py:299 | the appended qubits are strictly descending (the loop runs `reversed(range(n))`) |
| Reorder.RealignIsOrdering | qclib/qclib.py:297-302 | for a valid list the realigned list is a permutation of 0..n-1 (length n, distinct, each below n, each present) |
| Reorder.OrderingOfTargets | qclib/qclib.py:297-302 | every position at or after the list's length holds a qubit that is not a target |
| Reorder.QubitListBound | qclib/qclib.py:121 | a list of distinct qubits below n has at most n entries, so `self.nqbits - list_len` (here and at line 325) is never negative |
| Reorder.ShuffledCount | qclib/qclib.py:273-282 | the nested loops compute, for each i below 2^n, the number whose bit `bitorder[n-1-b]` is bit b of i |
| Reorder.ShuffleBit | qclib/qclib.py:279-280 | bit `order[n-1-b]` of the shuffled value equals bit b of i |
| Reorder.UnshuffleBit | qclib/qclib.py:291-294 | the inverse map reads bit b back from bit `order[n-1-b]` |
| Reorder.ShuffleBelow | qclib/qclib.py:276-281 | shuffled and unshuffled values stay below 2^n |
| Reorder.UnshuffleShuffle | qclib/qclib.py:291-294 | unshuffling a shuffled index gives the index back |
| Reorder.ShuffleUnshuffle | qclib/qclib.py:291-294 | shuffling an unshuffled index gives the index back |
| Reorder.ShuffleBijective | qclib/qclib.py:273-282 | the shuffled count is a bijection on 0..2^n-1: in range, injective, and the inverse map is a right inverse |
| Reorder.RmatRrmat | qclib/qclib.py:284-295 | rmat's row map is the shuffled count; rrmat's is its inverse (row `rr[i]` of rrmat is unit row i) |
| Reorder.MapsInRange | qclib/qclib.py:291-294 | both row maps stay in 0..2^n-1, so they are permutation matrices |
| Reorder.PermuteRoundTrip | qclib/qclib.py:109-170 | applying rmat then rrmat, or rrmat then rmat, restores any vector |
| Reorder.InverseRestores | qclib/qclib.py:168-170 | after rrmat the amplitude at the shuffled index i is the one that was at i |
| Reorder.TargetToMsb | qclib/qclib.py:304-312 | the permutation sends target `qbits[t]` to bit n-1-t |
| Reorder.OthersBelow | qclib/qclib.py:304-312 | the j-th appended qubit goes to bit n-1-(k+j), below all targets |
| Reorder.GatherBit | qclib/qclib.py:304-312 | the gathered target value has `qbits[t]`'s bit at position k-1-t |
| Reorder.TopBitsOfUnshuffle | qclib/qclib.py:106-126 | after the permutation, the top k bits of the basis index are the target bits of the original index, `qbits[0]` most significant |
| Reorder.LowBitsOfUnshuffle | qclib/qclib.py:325-326 | two permuted indices agree below bit n-k exactly when the original indices agree on every non-target qubit |
| Embed.AlignedOp | qclib/qclib.py:304-313 | `rrmat * op * rmat` is the operator conjugated by the realignment permutation |
| Embed.StretchedMat | qclib/qclib.py:315-327 | a non-square operator gives NotSquare; a square one whose size is not 2^k gives QubitCountMismatch; otherwise the aligned `op (x) I` is returned. All three cases are stated both ways |
| Embed.Stretched | qclib/qclib.py:325-326 | a successful embedding is a 2^n x 2^n matrix |
| Embed.StretchedEntry | qclib/qclib.py:315-327 | entry (r, c) of the embedded operator is op's entry for the target bits of r and c when they agree on every other qubit, and 0 otherwise |
| Embed.StretchedAppliesTo | qclib/qclib.py:315-327 | the embedded operator acts as op on the targets and as the identity elsewhere, for every entry |
| Embed.NatToStringRoundTrip | qclib/qclib.py:330 | the decimal rendering of the qubit count contains only digits and reads back as the count |
| Embed.StretchedName | qclib/qclib.py:330 | the name is the decimal qubit count, "Q-", the operator's name and the bracketed qubit list, in that order |
| Embed.QStretch | qclib/qclib.py:329-330 | returns the composed name and the embedded operator, or the embedding's own error |
| Embed.SeqProductOk | qclib/qclib.py:335-345 | the product succeeds exactly when every operator is square of the first one's size |
| Embed.SeqProductError | qclib/qclib.py:337-344 | the first offending operator decides the error: NotSquare if it is not square, otherwise SizeMismatch |
| Embed.QCombineSeq | qclib/qclib.py:332-346 | an empty list fails (the first operator is read); otherwise the result is the product, last operator leftmost, under the given name, or the first offender's error |
| Embed.KronFold | qclib/qclib.py:348-358 | the fold is present exactly when the list is not empty; its shape is the product of the operators' shapes |
| Embed.KronFoldQubits | qclib/qclib.py:348-358 | combining operators on k_1, k_2, ... qubits gives an operator on k_1 + k_2 + ... qubits |
| Embed.QCombinePar | qclib/qclib.py:348-358 | the `first` flag loop computes the left-to-right Kronecker fold; an empty list gives None |
| Embed.QInverse | qclib/qclib.py:360-365 | the default name is "INV-" plus the operator's name; entry (i, j) is the conjugate of entry (j, i) |
| Embed.QInverseTwice | qclib/qclib.py:360-365 | inverting twice gives the original matrix back |
| Measure.QbitMask | qclib/qclib.py:117-121 | the mask has exactly bits n-k .. n-1 set |
| Measure.MaskedBucket | qclib/qclib.py:126 | `(i & mask) >> (n-k)` is the value of i's top k bits |
| Measure.BucketBelow | qclib/qclib.py:124-126 | every bucket index is below 2^k, so it indexes `prob` |
| Measure.BucketTotals | qclib/qclib.py:124-127 | `prob[b]` is the total weight of the amplitudes in bucket b, and the bucket totals add up to the state's total weight |
| Measure.SumUpdate | qclib/qclib.py:127 | adding w to one entry raises the sum by w |
| Measure.TotalProb | qclib/qclib.py:129-131 | the loop computes the sum of the bucket totals |
| Measure.SelectOutcome | qclib/qclib.py:137-145 | the loop computes `Selection`: the last slot whose half-open interval (cum, cum + p] holds the toss, and the last index otherwise |
| Measure.SelectionInSlot | qclib/qclib.py:141-143 | a toss inside a slot's interval selects that slot |
| Measure.SlotsDisjoint | qclib/qclib.py:141-143 | with non-negative probabilities the slots' intervals do not overlap |
| Measure.CumMonotone | qclib/qclib.py:144 | the running total never decreases |
| Measure.SelectionDefault | qclib/qclib.py:137 | a toss in no slot selects the last outcome |
| Measure.SelectionCovers | qclib/qclib.py:137-145 | a toss in (0, total] lands in the selected slot, and that outcome has positive probability |
| Measure.ZeroTossSelectsLast | qclib/qclib.py:137-144 | a toss of exactly 0 lies in no interval, so the default last outcome is selected whatever its weight |
| Measure.ZeroTossSelectsEmptyOutcome | qclib/qclib.py:137-145 | with outcome weights [1, 0] a zero toss selects the outcome of weight 0 |
| Measure.SomeSlot | qclib/qclib.py:140-144 | a toss in (0, cum_m] lies in one of the first m slots |
| Measure.DecodeBits | qclib/qclib.py:146-151 | the answer has k entries, each 0 or 1; entry t is bit k-1-t of sel; the list read most significant first is sel |
| Bits.MsbBitsFrom | qclib/qclib.py:146-151 | a list of bits is the decoding of its own value, and that value is below 2^k |
| Measure.MatchTest | qclib/qclib.py:153-155 | `(i & mask) == sel << (n-k)` holds exactly when i lies in bucket sel |
| Measure.Collapse | qclib/qclib.py:153-159 | every amplitude in bucket sel is scaled by the factor, and every other one becomes 0 |
| Measure.CheckOrthonormal | qclib/qclib.py:91-104 | the loops accept exactly when `B * B^T` is within maxerr of the identity, entry by entry |
| Measure.Outcome | qclib/qclib.py:117-159 | on a prepared state: a total weight off 1 by more than maxproberr raises TotalProbability exactly, with the state kept; otherwise the answer is k bits and the state is the collapse onto the selected bucket |
| Measure.SelectAndCollapse | qclib/qclib.py:117-159 | the mask, bucket-total, total, selection, decoding and collapse loops in sequence compute `Outcome` |
| Measure.MeasureSpec | qclib/qclib.py:77-175 | the whole measurement. NotSquare and NotOrthonormal are raised exactly when the basis is not square or fails the test, with the state untouched. BasisSize is raised exactly when a valid basis is not 2^k in size, and leaves the state permuted. TotalProbability is raised exactly when the basis passes and the permuted (and basis-changed) state's weight is more than maxproberr from 1, which leaves that state. The measurement succeeds exactly when the basis passes and that weight is within maxproberr of 1. A result is k bits |
| Measure.SumReindex | qclib/qclib.py:109 | reading a sequence of weights through a permutation leaves its sum unchanged |
| Measure.PermuteKeepsWeight | qclib/qclib.py:106-109 | `rmat * sys_state` keeps the total weight of the state |
| Measure.StandardMeasurementSucceeds | qclib/qclib.py:106-134 | a standard-basis measurement succeeds exactly when the state's total weight is within maxproberr of 1, and otherwise raises TotalProbability |
| Measure.GatherMatches | qclib/qclib.py:146-156 | an index's target bits gathered equal sel exactly when they agree, one by one, with the decoded bits |
| Measure.CollapseThroughPermutation | qclib/qclib.py:106-170 | permuting, collapsing onto bucket sel and permuting back keeps (scaled) exactly the amplitudes whose target bits spell sel |
| Measure.StandardMeasurement | qclib/qclib.py:106-175 | a successful standard-basis measurement returns k bits, one per target in the order listed. The new state is 0 wherever the target bits differ from them, and the old amplitude scaled by 1/sqrt(outcome weight) elsewhere |
| Algebra.KronZeroKet | qclib/qclib.py:60-63 | appending a qubit in the zero state to the all-zero state gives the all-zero state of twice the size |
| Algebra.ConjTransposeInvolution | qclib/qclib.py:364 | conjugate transposition undoes itself |
| Simulator.QcSim.constructor | qclib/qclib.py:56-63 | the default initial state is the all-zero basis state of 2^n amplitudes, with a zero step count |
| Simulator.QcSim.QGate | qclib/qclib.py:67-70 | counts the step; on success the new state is the embedded operator times the old state; on error the state is unchanged |
| Simulator.QcSim.QMeasure | qclib/qclib.py:77-175 | counts the step; the new state and the result are those given by `MeasureSpec` |

## Left out

- Floating point: amplitudes are exact reals, so no rounding is modelled. The
  tolerance tests `maxerr` and `maxproberr` (both 0.000001) are kept.
- The square root: the division by `np.sqrt(prob_val)` becomes a
  multiplication by `invSqrt(prob_val)`, and no property of `invSqrt` is
  assumed.
- Randomness: `rnd.random()` is the parameter `toss`, which may be any
  real. `random()` returns values in [0, 1), and 0 itself is possible.
- Measure.SelectionCovers: it requires a toss above 0. The selection
  intervals are open at their lower end, so a toss of 0 lies in none of them.
  The original then keeps its default, the last outcome, even when that
  outcome has weight 0 (`ZeroTossSelectsLast`, `ZeroTossSelectsEmptyOutcome`).
  It then divides by `np.sqrt(0)`. The model computes the same selection and
  leaves what `invSqrt(0.0)` is open.
- Measure.StandardMeasurement: the outcome weight is stated as a bucket total
  of the permuted state. The model does not prove that the renormalised state
  has weight 1, because that needs nonlinear real arithmetic.
- Measure.MeasureSpec: the model does not relate the outcome probabilities of
  a non-standard basis to amplitudes. With a basis, the TotalProbability test
  is stated on the basis-changed state; the model does not prove that the
  basis change keeps the total weight, since the basis is only near
  orthonormal and the proof needs nonlinear real arithmetic.
- Reorder.RmatRrmat: rmat and rrmat are modelled by their row maps rather
  than as dense 0/1 matrices, and matrix products with them as index
  permutations.
- Measure.MeasureSpec: a square basis whose size is not 2^k is reported as
  BasisSize. The original fails there inside numpy with a shape error, after
  `rmat * self.sys_state` has run, so this error leaves the state permuted.
- Embed.QCombineSeq: an empty operator list is reported as
  EmptyOperatorList. The original raises Python's IndexError at
  `op_list[0]`, not a QClibError.
- Simulator.QcSim.constructor: the `initstate` and `prepqbits` options are left
  out, along with their type, shape and normalisation checks.
- Simulator.QcSim.constructor: zero qubits is excluded, because the original
  then indexes an empty list.
- No qubit-list validation is modelled: the original performs none, and the
  model requires the list to be valid.
- `qisunitary`: a floating-point test that nothing in the core calls.
- `qreport`, `qstate`, `qsize`, `qtraceON`, `qzerosON` and the trace
  output: reporting, accessors and display toggles.
- The gate catalogue (`X`, `Y`, `Z`, `H`, `R`, `SWAP`, `C`, `T`,
  `BELL_BASIS` and `HDM_BASIS`) and the `__main__` demonstration: constant
  matrices and example usage.
- tests/fourier.py is not part of this model.
- The `types` and `deepcopy` bookkeeping: Dafny values are immutable.
