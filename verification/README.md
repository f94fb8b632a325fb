# Kitaev Hamiltonian block: index expansion and builders

This project models the Hamiltonian block of the SYK (Kitaev) model, as
`KitaevHamiltonianBlock.py` builds it. It covers the combinatorial part
and leaves out the numerics. A basis state of the sector with `N` modes and
charge `Q` is an ascending tuple of `Q` occupied modes. A Hamiltonian term
is c†_i c†_j c_k c_l with i < j and k < l.

The optimized builder does not try every ket against every term. For each
term it counts reduced tuples in a smaller mode space. It then re-expands
each reduced tuple into a full ket with two primitives:

- insert-and-shift puts a mode in and moves the higher modes up;
- shift-only leaves a slot empty.

The expanded ket is one the term does not annihilate. The naive builder
tries every ket of the sector against every term and skips the zero
results.

The modules follow the structure of the source:

- `Wrappers` — the `Option` type: the zero state, or an attribute not yet
  set.
- `Occupations` — occupation tuples (ascending `seq<nat>`), and removing or
  adding a mode, which is how the fermion operators act once signs are
  ignored.
- `Combinatorics` — the exact binomial coefficient, and the colex ranking
  between state numbers in [0, C(m, q)) and ascending q-tuples over [0, m).
  The ranking is used for `state_number_to_occupations` and
  `get_state_number`.
- `IndexExpansion` — the two primitives, both as functions and as loops.
  Also a step list `Expand` and its inverse `Contract`.
- `CaseDispatch` — the six-way branch on how {i, j} overlaps {k, l}, and the
  step list each branch applies. Its lemmas prove that:
  - the steps land at increasing positions;
  - the expansion is a bijection onto the admissible kets;
  - a branch takes m = 2, 3 or 4 steps, the number of distinct modes
    among i, j, k, l.
- `FermionAction` — the action of one term on a ket, charge conservation,
  and the matrix position a contribution is written to.
- `BlockBuilder` — the term loops of both builders. Each builder is reduced
  to the sequence of (term, ket) pairs it visits. `OptimizedKets` sets the
  loop bound C(N − m, Q − 2), and `ExpandedKets` proves that this many
  reduced tuples list every admissible ket exactly once. The two builders
  visit the same pairs, each once.
- `HamiltonianBlock` — `dim`, and the `diagonalize` flag with its
  accessors.

The source is a line-by-line port of C++ iterator code and does not run as
written:

- `indices.begin()` does not exist on a Python list.
- `shift_starting_at_index` never writes to its list (line 77 says so).
- `Q` is unbound inside `add_hamiltonian_term_contribution`.
- `__init__` returns values.

The model follows the behaviour that the control flow and the comments at
lines 67-75 and 96-101 describe. It reads `Q` as the block's `self.Q`.

## Model

| member | source | states |
|---|---|---|
| Combinatorics.Binomial | KitaevHamiltonianBlock.py:8-9 | C(n, k) is 0 outside 0 <= k <= n and at least 1 inside |
| Combinatorics.BinomialFactorial | KitaevHamiltonianBlock.py:8-9 | the exact binomial agrees with n! / (k! (n-k)!) for every k <= n |
| Combinatorics.BinomialMonotone | KitaevHamiltonianBlock.py:8-9 | C(a, q) <= C(b, q) whenever a <= b |
| Combinatorics.Unrank | KitaevHamiltonianBlock.py:103 | state number r < C(m, q) names an ascending q-tuple over [0, m) whose rank is r |
| Combinatorics.RankBound | KitaevHamiltonianBlock.py:103 | every ascending tuple over [0, m) has a state number below C(m, \|s\|) |
| Combinatorics.UnrankRank | KitaevHamiltonianBlock.py:103 | unranking the state number of an ascending tuple gives the tuple back |
| Combinatorics.UnrankRankWithout | KitaevHamiltonianBlock.py:103 | a tuple whose top mode is below m - 1 has a state number below C(m - 1, q), hence below C(m, q), and unranks back to itself |
| Combinatorics.UnrankRankWith | KitaevHamiltonianBlock.py:103 | a tuple that holds mode m - 1 has a state number in [C(m - 1, q), C(m, q)) and unranks back to itself |
| Combinatorics.RankBijection | KitaevHamiltonianBlock.py:102-103 | the state numbers [0, C(m, q)) and the ascending q-tuples over [0, m) are in bijection, both directions |
| Combinatorics.UnrankStable | KitaevHamiltonianBlock.py:103 | for every m <= m2, a state number valid over m modes is valid over m2 modes and names the same tuple there, so unranking without the mode count is sound |
| IndexExpansion.Shift | KitaevHamiltonianBlock.py:78-84 | shift-only keeps the length, leaves p absent, keeps the modes below p, moves each mode >= p up one, and keeps a tuple ascending |
| IndexExpansion.LiftedFacts | KitaevHamiltonianBlock.py:78-84 | opening slot p element by element leaves p absent, keeps the modes below p, moves the rest up one and keeps order |
| IndexExpansion.LoweredFacts | KitaevHamiltonianBlock.py:78-84 | closing slot p element by element keeps the modes below p and, on a tuple without p, moves the rest down one and keeps order |
| IndexExpansion.InsertAndShift | KitaevHamiltonianBlock.py:61-75 | insert-and-shift adds one element, contains p, keeps the modes below p, moves each mode >= p up one, and keeps a tuple ascending |
| IndexExpansion.InsertHere | KitaevHamiltonianBlock.py:67-71 | inserting p before a first mode >= p and shifting the rest adds exactly p and keeps order |
| IndexExpansion.InsertLater | KitaevHamiltonianBlock.py:65-67 | copying a head below p in front of a correct insert-and-shift of the tail is a correct insert-and-shift of the whole |
| IndexExpansion.InsertAndShiftAppends | KitaevHamiltonianBlock.py:73-75 | when every mode is below p, the walk ends without inserting and p is appended at the end |
| IndexExpansion.InsertAndShiftIsShiftThenAdd | KitaevHamiltonianBlock.py:61-75 | insert-and-shift equals shift-only at p followed by occupying the freed slot p |
| IndexExpansion.RemoveInsertAndShift | KitaevHamiltonianBlock.py:61-84 | removing p after insert-and-shift at p leaves exactly the shift-only result |
| IndexExpansion.UnshiftShift | KitaevHamiltonianBlock.py:78-84 | shift-only at p is undone by closing slot p |
| IndexExpansion.ShiftUnshift | KitaevHamiltonianBlock.py:78-84 | on a tuple without p, closing slot p and reopening it is the identity |
| IndexExpansion.Step | KitaevHamiltonianBlock.py:61-84 | one primitive call: p is present afterwards exactly for insert-and-shift, the length grows by one exactly then, and order is kept |
| IndexExpansion.Unstep | KitaevHamiltonianBlock.py:61-84 | the inverse step keeps the modes below p and lowers the ones above it on a compatible tuple |
| IndexExpansion.UnstepStep | KitaevHamiltonianBlock.py:61-84 | undoing a primitive call returns the tuple it was applied to |
| IndexExpansion.InsertAndShiftUnstep | KitaevHamiltonianBlock.py:61-75 | every ascending tuple holding p is the insert-and-shift image of its contraction |
| IndexExpansion.StepUnstep | KitaevHamiltonianBlock.py:61-84 | every ascending tuple that holds p exactly for an insert step is the image of its contraction |
| IndexExpansion.CompatibleSteps | KitaevHamiltonianBlock.py:94-205 | a ket is compatible with a step list iff each step's mode is present exactly when the step inserts |
| IndexExpansion.ExpandSound | KitaevHamiltonianBlock.py:96-101 | a well-placed step list turns an ascending reduced tuple over [0, m) into an ascending compatible tuple over [0, m + \|ops\|), longer by the insert count |
| IndexExpansion.ContractSound | KitaevHamiltonianBlock.py:96-101 | contracting a compatible ascending full tuple gives an ascending reduced tuple over [0, m), shorter by the insert count |
| IndexExpansion.ContractExpand | KitaevHamiltonianBlock.py:96-101 | contraction undoes expansion for every tuple |
| IndexExpansion.ExpandContract | KitaevHamiltonianBlock.py:96-101 | expansion undoes contraction on every compatible ascending full tuple |
| IndexExpansion.WellPlacedInit | KitaevHamiltonianBlock.py:94-205 | dropping the last step of a well-placed step list leaves a well-placed list |
| IndexExpansion.StepLast | KitaevHamiltonianBlock.py:96-101 | the last step of a well-placed list keeps the tuple ascending, inside the grown mode space and compatible with the whole list |
| IndexExpansion.ExpandInjective | KitaevHamiltonianBlock.py:96-101 | two reduced tuples with the same expansion are equal |
| IndexExpansion.ContractRoundTrip | KitaevHamiltonianBlock.py:96-101 | every compatible ascending full tuple is the expansion of an ascending reduced tuple over [0, m), shorter by the insert count |
| IndexExpansion.WalkExtend | KitaevHamiltonianBlock.py:65-71 | one iteration of the `inserted` loop keeps its invariant: the output so far plus the treatment of the remaining input is the full result |
| IndexExpansion.WalkSplitDone | KitaevHamiltonianBlock.py:65-71 | after a prefix in which p was inserted, the loop output followed by shift-only of the rest is insert-and-shift of the whole |
| IndexExpansion.WalkSplitPending | KitaevHamiltonianBlock.py:65-75 | after a prefix in which p was not inserted, the loop output followed by insert-and-shift of the rest is insert-and-shift of the whole |
| IndexExpansion.ShiftStartingAtIndex | KitaevHamiltonianBlock.py:78-84 | the element-by-element loop computes shift-only: same length, p absent, order kept |
| IndexExpansion.InsertIndexAndShift | KitaevHamiltonianBlock.py:61-75 | the loop with the `inserted` flag and the final append computes insert-and-shift: one longer, p present, order kept |
| CaseDispatch.Dispatch | KitaevHamiltonianBlock.py:94-160 | for i < j and k < l the six branches are exclusive and exhaustive, each with its overlap condition; k < i < j in the i == l branch and i < j < l in the j == k branch |
| CaseDispatch.DistinctOrdering | KitaevHamiltonianBlock.py:167-204 | when all four modes differ, exactly one of the six listed orderings holds |
| CaseDispatch.Plan | KitaevHamiltonianBlock.py:102-205 | every branch applies its steps at strictly increasing modes, 2, 3 or 4 of them by branch, and inserts exactly two modes |
| CaseDispatch.PlanLength | KitaevHamiltonianBlock.py:102-164 | the step count, which fixes the loop bound binomial(N - m, Q - 2), is the number of distinct modes among i, j, k, l |
| CaseDispatch.PlanWellPlaced | KitaevHamiltonianBlock.py:102-205 | each branch's steps fit a reduced space of N - m modes and end inside [0, N) |
| CaseDispatch.PlanCompatible | KitaevHamiltonianBlock.py:107-163 | a ket is compatible with the branch's steps iff it holds k and l and holds i, j only where they equal k or l |
| CaseDispatch.PlanCompatibleAll | KitaevHamiltonianBlock.py:107-163 | for every ket at once, compatibility with the branch steps is admissibility for the term |
| CaseDispatch.ExpandTermSound | KitaevHamiltonianBlock.py:102-205 | each expanded ket is ascending over [0, N), has Q elements, holds k and l and misses i and j except where they equal k or l |
| CaseDispatch.ExpandTermBijection | KitaevHamiltonianBlock.py:96-102 | every admissible ket is the expansion of a reduced tuple over [0, N - m) with Q - 2 elements |
| CaseDispatch.ExpandTermInjective | KitaevHamiltonianBlock.py:96-102 | distinct reduced tuples expand to distinct kets |
| FermionAction.Act | KitaevHamiltonianBlock.py:209-217 | the four operators leave a nonzero state iff k != l, i != j and the ket is admissible; the bra is (ket without k, l) with i, j added, ascending, with the ket's charge |
| FermionAction.ChargeConserved | KitaevHamiltonianBlock.py:47-53 | for a valid term and a ket of the sector, the bra is nonzero iff the ket is admissible, and then it lies in the same sector, so the charge assertion cannot fire |
| FermionAction.Contribution | KitaevHamiltonianBlock.py:39-59 | a contribution exists iff the ket is admissible; its column names the ket and its row names the bra, both below dim; it is diagonal iff the bra is the ket |
| FermionAction.ContributionAsWritten | KitaevHamiltonianBlock.py:44-55 | as written, every contribution lands on the diagonal |
| FermionAction.ContributionAsWrittenMisplaces | KitaevHamiltonianBlock.py:44-59 | for N = 3, Q = 2, ket {0, 1} and c†_0 c†_2 c_0 c_1, the as-written entry is (1, 1) and the intended one is (1, 0) |
| BlockBuilder.Pairs | KitaevHamiltonianBlock.py:32-33 | the two nested loops yield exactly the pairs lo <= a < b < n, each once |
| BlockBuilder.Row | KitaevHamiltonianBlock.py:33 | the inner loop yields exactly the pairs (a, b) with lo <= b < n, each once |
| BlockBuilder.Product | KitaevHamiltonianBlock.py:32-35 | nesting the (k, l) loops inside the (i, j) loops yields every combination, each once |
| BlockBuilder.AllTerms | KitaevHamiltonianBlock.py:32-36 | the four term loops visit exactly the quadruples with 0 <= i < j < N and 0 <= k < l < N, each once |
| BlockBuilder.OptimizedKets | KitaevHamiltonianBlock.py:102-106 | the kets the optimized builder forms for a term are exactly the admissible kets of the sector, each once |
| BlockBuilder.ExpandedKets | KitaevHamiltonianBlock.py:102-106 | expanding the unranked reduced tuples 0 .. C(m, q - 2) - 1 yields exactly the compatible kets of the sector, each once |
| BlockBuilder.ExpandedKetsSound | KitaevHamiltonianBlock.py:102-106 | every expanded ket lies in the sector and is compatible with the steps |
| BlockBuilder.ExpandedKetsCover | KitaevHamiltonianBlock.py:102-106 | every reduced tuple of the right size over [0, m) is expanded at some loop index |
| BlockBuilder.ExpandedKetsDistinct | KitaevHamiltonianBlock.py:102-106 | distinct loop indices give distinct kets |
| BlockBuilder.Tag | KitaevHamiltonianBlock.py:205 | each formed ket is paired with its term, keeping distinctness |
| BlockBuilder.OptimizedVisitsOver | KitaevHamiltonianBlock.py:32-36 | over a list of terms, the optimized builder visits exactly the (term, admissible ket) pairs, each once |
| BlockBuilder.OptimizedVisits | KitaevHamiltonianBlock.py:23-37 | the optimized builder visits exactly the valid terms paired with their admissible sector kets, each once |
| BlockBuilder.NaiveRow | KitaevHamiltonianBlock.py:283-290 | for one freshly built ket, the inner loops visit exactly the terms that do not annihilate it, each once |
| BlockBuilder.NaiveVisitsFrom | KitaevHamiltonianBlock.py:279-290 | the outer loop from state number x on visits the non-vanishing pairs whose ket has state number >= x, each once |
| BlockBuilder.NaiveVisitsStep | KitaevHamiltonianBlock.py:279-280 | one outer iteration adds exactly the pairs of the ket with state number x |
| BlockBuilder.NaiveVisitsEnd | KitaevHamiltonianBlock.py:279 | every ket of the sector has a state number below dim, so the loop ends having seen them all |
| BlockBuilder.NaiveVisits | KitaevHamiltonianBlock.py:269-292 | the naive builder visits exactly the valid terms paired with the sector kets they do not annihilate, each once |
| BlockBuilder.OptimizedKetsAreNonVanishing | KitaevHamiltonianBlock.py:287-290 | for a term, the optimized builder's kets are exactly the kets that the naive loop does not skip as zero |
| BlockBuilder.BuildersAgree | KitaevHamiltonianBlock.py:279-290 | the naive and the optimized builder visit the same (term, ket) pairs, each exactly once |
| BlockBuilder.NaiveRowAsWritten | KitaevHamiltonianBlock.py:280-290 | with one shared ket object, the row only ever visits terms of the list, attached to the starting ket |
| BlockBuilder.NaiveRowAsWrittenStops | KitaevHamiltonianBlock.py:287-290 | once the shared ket is zero, no later term of the row is visited |
| BlockBuilder.AllTermsThreeStart | KitaevHamiltonianBlock.py:283-286 | over three modes, the term loops start with c†_0 c†_1 c_0 c_1, then c†_0 c†_1 c_0 c_2 |
| BlockBuilder.NaiveRowAsWrittenDiesSecond | KitaevHamiltonianBlock.py:280-290 | with one shared ket, if the first term keeps it and the second annihilates it, no other term of the row is visited |
| BlockBuilder.NaiveRowAsWrittenMisses | KitaevHamiltonianBlock.py:280-290 | on the row of the four term loops for three modes and ket {0, 1}: c†_0 c†_1 c_0 c_1 keeps the ket, c†_0 c†_1 c_0 c_2 zeroes the shared ket, and the as-written row then misses c†_0 c†_2 c_0 c_1, which the intended row visits |
| HamiltonianBlock.Dim | KitaevHamiltonianBlock.py:219-220 | dim is 0 when Q > N and at least 1 otherwise |
| HamiltonianBlock.DimCountsSector | KitaevHamiltonianBlock.py:219-220 | dim is the number of basis states: state numbers [0, dim) name every ket of the sector exactly once, and dim = N! / (Q! (N - Q)!) |
| HamiltonianBlock.Fresh | KitaevHamiltonianBlock.py:15 | a new block is not diagonalized and holds nothing |
| HamiltonianBlock.Diagonalize | KitaevHamiltonianBlock.py:228-240 | a no-op when already diagonalized; otherwise it sets the flag and stores the eigenvalues, plus the eigenvectors only when full; the flag invariant is kept |
| HamiltonianBlock.DiagonalizeIdempotent | KitaevHamiltonianBlock.py:229-230 | a second call changes nothing, whatever it requests |
| HamiltonianBlock.Eigenvalues | KitaevHamiltonianBlock.py:245-247 | eigenvalues are returned only after diagonalization, and they are the stored ones; on a block whose flag matches its stored values they are always returned then |
| HamiltonianBlock.DMatrix | KitaevHamiltonianBlock.py:249-256 | the diagonal exists only after diagonalization, has dim entries, and entry a is eigenvalue a |
| HamiltonianBlock.UMatrix | KitaevHamiltonianBlock.py:258-260 | eigenvectors are returned iff the block is diagonalized and U was computed |
| HamiltonianBlock.EigenvectorsFromFirstCall | KitaevHamiltonianBlock.py:232-238 | from a fresh block, U is available after two calls iff the first call was full, and the eigenvalues are the first call's |

## Left out

- Matrix allocation, the complex accumulation `matrix[bra_n, ket_n] += ...`, `J.elem` and the coefficient 4 / (2N)^(3/2) are floating point. Both builders are reduced to the (term, ket) pairs they visit and to the entry positions they write.
- Fermionic signs and `bra.coefficient` are not modelled. `BasisState` (create, annihilate, charge, `get_state_number`) is not part of this model. A ket is an ascending tuple, annihilation removes a mode and creation adds one, and a failed action is the zero state.
- `state_number_to_occupations` and `get_state_number` are not part of this model. Both are replaced by an exact colex unranking and ranking, which are proved to be mutual inverses.
- `LA.eig` and `LA.eigvals` are a foreign eigensolver. Their results are parameters of `Diagonalize`.
- HamiltonianBlock.DMatrix models the indexing `evs[i]`. Line 254 calls the array, `self.evs(i)`, which would fail; the model does not reproduce that failure. Off-diagonal zeros are implicit.
- Combinatorics.Binomial is exact. The source goes through scipy's floating `binom` and truncates with `int`, which can round for large arguments.
- The `print` diagnostics at lines 51-52 are left out. So is the constructor at lines 12-20: it returns values from `__init__`, and it can also adopt a ready-made matrix through its `block` argument.
- `NaiveKitaevHamiltonianBlock.__init__` never sets `diagonalized`. The model treats both blocks as starting fresh.
- The `operator()` accessor in the comment at lines 222-225 is not code.

## Findings

| source | as written | input that shows it | evidently intended | confidence | as-written member | corrected member |
|---|---|---|---|---|---|---|
| KitaevHamiltonianBlock.py:44-55 | `act_with_c_operators` mutates `ket` into the bra. `ket_n` is read afterwards, so every element is written at (bra_n, bra_n) | N = 3, Q = 2, ket {0, 1}, term c†_0 c†_2 c_0 c_1: written at (1, 1) | write at (state number of bra, state number of ket before acting), here (1, 0) | not executed | FermionAction.ContributionAsWritten | FermionAction.Contribution |
| KitaevHamiltonianBlock.py:280-290 | one `ket` object serves every term of the row, and each action mutates it, so later terms act on what earlier ones left, and after the first zero the row is dead | N = 3, ket {0, 1}, the row in loop order: c†_0 c†_1 c_0 c_2 (second) zeroes the shared ket, so c†_0 c†_2 c_0 c_1 (later) is missed | act on a fresh copy of the ket for every term | not executed | BlockBuilder.NaiveRowAsWritten | BlockBuilder.NaiveRow |
