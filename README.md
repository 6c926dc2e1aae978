# ASNets and SSiPP core, modelled in Dafny

This project models the core of a planning system in two parts.

**Action Schema Networks (ASNets, Python).**
- `prob_dom_meta.dfy` (`ProbDomMeta`): the lifted and ground propositions and actions, their identifiers, their orders, binding and the index tables (`DomainMeta`, `ProblemMeta`, `get_problem_meta`).
- `models.dfy` (`Models`): the network's shape and index skeleton. It covers weight block sizes, the layout of the flat input vector, the gather and pool index lists, and the gather list `merge_finals` uses to put the final action scores back into problem order.
- `supervised.dfy` (`Supervised`): the weighted replay buffer, how `internal_extend_replay` collects teacher experience, the teacher's Q-value vectors and the learning-rate schedule check.
- `run_learning.dfy` (`RunLearning`): the command lines the experiment script builds.
- `py_ops.dfy` (`PyOps`): the Python built-ins these files rely on. These are string order, `sorted`, de-duplication, comprehensions, `list.index` and dictionaries keyed by enumeration.

**The SSiPP planner and its mGPT core (C++).**
- `atom_list.dfy` (`AtomLists`), `atom_states.dfy` (`AtomStates`) and `words.dfy` (`Words`): sorted atom lists in growable buffers, and states as bit vectors of 32-bit words.
- `rational.dfy` (`Rationals`, over `cint.dfy`): exact rationals. A pair of C ints is reduced by gcd, and the lcm overflow stops the process.
- `effect_lists.dfy`, `effects.dfy` and `cross_mass.dfy`: the lifted and grounded effects. They cover equality, smart constructors, translation, and the flattening and cross product of probabilistic effects.
- `formulas.dfy`: the state formulas and their smart constructors.
- `actions.dfy`: actions, their application, cost bounds, and the split of a probabilistic action for replanning.
- `problems.dfy`: the atom and fluent tables, disjunction removal and state completion.
- `prob_dist.dfy`: the probability distributions.
- `hash.dfy` (`Hashing`) and `primes.dfy`: the chained state hash, the value hash and the prime sizes of its tables.
- `functions.dfy` (`FunctionTables`): the function table.
- `requirements.dfy` (`PddlRequirements`): the PDDL requirement flags.
- `heuristics.dfy` and `heur_inputs.dfy`: the heuristics and their data for the network.
- `policy.dfy` (`Policies`): the deterministic policy map.
- `ssp_utils.dfy`, `ssp_adaptor.dfy` and `short_sighted_ssps.dfy`: reachability, the adaptor between problem representations, and the short-sighted SSPs.
- `planner_ssipp.dfy`: the parameter parsing of SSiPP and of its short-sighted SSP factory.
- `det_planners.dfy` (`DetPlanners`): the deterministic-planner interface.
- `mdpsim_parser.dfy` (`MdpsimParser`): the parser's bookkeeping for the MDPSim PDDL front end.
- `build.dfy`: the dependency closure of the build script.

`wrappers.dfy` holds `Option`, `Result` and the failure kinds: Python's exceptions, C++ `DIE`/`exit` and thrown exceptions, and undefined behaviour. `ssp_iface.dfy` is the stochastic shortest-path problem as the planners see it, given by its answers. `utils.dfy` holds string splitting and trimming and the bounded random helpers. `cint.dfy` holds C integer semantics (32-bit bounds, truncating division).

**How the model is built.**
- Objects whose methods change their fields are classes with `modifies` clauses. Their loops are `while` loops proved against a specification function.
- Code that only computes is functions and lemmas.
- An operation that fails in the source returns `Err`, naming the failure: `Die` for `exit` and `DIE`, `UndefinedBehaviour` for reading an empty container, `None` for a read past a buffer in the as-written witnesses, and Python's exception names.
- Randomness, the clock, I/O, the planner callbacks and the hash functions are parameters.

## Model

| member | source | states |
|---|---|---|
| Rationals.GcdLoop | ssipp-solver/ext/mgpt/rational.cc:17-26 | the Euclid loop on the absolute values computes `Gcd`, which is non-negative and positive when the second argument is non-zero |
| Rationals.GcdDivides | ssipp-solver/ext/mgpt/rational.cc:17-26 | the gcd is zero exactly when both arguments are, and otherwise divides both |
| Rationals.GcdGreatest | ssipp-solver/ext/mgpt/rational.cc:17-26 | every positive common divisor divides the gcd |
| Rationals.LcmDiesExactlyOnOverflow | ssipp-solver/ext/mgpt/rational.cc:28-39 | the `BUG_0` overflow test stops the process exactly when `n / gcd * m` is not a C `int`, and otherwise `lcm` returns that value |
| Rationals.Multipliers | ssipp-solver/ext/mgpt/rational.cc:41-44 | when the lcm does not overflow the multipliers are `m / gcd` and `n / gcd` |
| Rationals.FromInt | ssipp-solver/ext/mgpt/rational.h:22 | the integer constructor gives the canonical `n / 1` |
| Rationals.Make | ssipp-solver/ext/mgpt/rational.cc:46-61 | the `(n, m)` constructor dies exactly on `m == 0`; otherwise its result is canonical (positive, coprime denominator) and has the value `n / m` |
| Rationals.Less | ssipp-solver/ext/mgpt/rational.cc:130-133 | `<` fails only when the multipliers overflow and otherwise is the exact comparison of the two values |
| Rationals.LessEq | ssipp-solver/ext/mgpt/rational.cc:135-138 | `<=` is the exact comparison unless the multipliers overflow |
| Rationals.Equal | ssipp-solver/ext/mgpt/rational.cc:140-143 | `==` is equality of the exact values unless the multipliers overflow |
| Rationals.NotEqual | ssipp-solver/ext/mgpt/rational.cc:145-148 | `!=` is inequality of the exact values unless the multipliers overflow |
| Rationals.GreaterEq | ssipp-solver/ext/mgpt/rational.cc:150-153 | `>=` is the exact comparison unless the multipliers overflow |
| Rationals.Greater | ssipp-solver/ext/mgpt/rational.cc:155-158 | `>` is the exact comparison unless the multipliers overflow |
| Rationals.CompareDiesOnlyOnOverflow | ssipp-solver/ext/mgpt/rational.cc:28-44 | a comparison fails exactly when the lcm of the two denominators is not a C `int` |
| Rationals.Add | ssipp-solver/ext/mgpt/rational.cc:160-164 | `+` fails only on lcm overflow and otherwise returns the exact sum in canonical form |
| Rationals.Sub | ssipp-solver/ext/mgpt/rational.cc:166-170 | `-` fails only on lcm overflow and otherwise returns the exact difference in canonical form |
| Rationals.Mul | ssipp-solver/ext/mgpt/rational.cc:172-177 | `*` cross-cancels by two gcds and returns the exact product in canonical form |
| Rationals.Div | ssipp-solver/ext/mgpt/rational.cc:179-186 | `/` dies exactly on a zero divisor and otherwise returns the exact quotient in canonical form |
| Rationals.ReadDigits | ssipp-solver/ext/mgpt/rational.cc:65-66 | the digit loop stops at the first stop character and accumulates `10 * acc + (c - '0')` |
| Rationals.ParseLoop | ssipp-solver/ext/mgpt/rational.cc:63-100 | the string constructor as written computes the spec `Parse` |
| Rationals.PrintParseRoundTrip | ssipp-solver/ext/mgpt/rational.cc:63-100 | parsing what `operator<<` prints gives back every non-negative canonical rational |
| Rationals.ParseFraction | ssipp-solver/ext/mgpt/rational.cc:68-79 | `"a/b"` with digit strings and `b` non-zero parses to the exact value `a / b` in lowest terms |
| Rationals.ParseDecimal | ssipp-solver/ext/mgpt/rational.cc:80-94 | `"a.f"` with `k` fraction digits parses to the exact value `a + f / 10^k` |
| Rationals.ParseMinusSign | ssipp-solver/ext/mgpt/rational.cc:65-66 | a leading minus sign is read as the digit value `'-' - '0'`, so `"-1"` parses as `-29` |
| AtomLists.InsertedMembers | ssipp-solver/ext/mgpt/atom_list.h:99-130 | after `insert(a)` the atoms are exactly the old ones plus `a` |
| AtomLists.InsertedSorted | ssipp-solver/ext/mgpt/atom_list.h:99-130 | `insert` keeps a strictly increasing list strictly increasing |
| AtomLists.InsertPresentIsNoop | ssipp-solver/ext/mgpt/atom_list.h:103 | inserting an atom a sorted list already holds changes nothing |
| AtomLists.RemovedSorted | ssipp-solver/ext/mgpt/atom_list.h:132-141 | after `remove(a)` on a sorted list `a` is gone, every other atom remains, and the list stays sorted |
| AtomLists.InsertAllMembers | ssipp-solver/ext/mgpt/atom_list.cc:116-120 | `insert(alist)` gives a sorted list holding the atoms of both lists |
| AtomLists.RemoveAllMembers | ssipp-solver/ext/mgpt/atom_list.cc:123-127 | `remove(alist)` gives a sorted list holding the atoms of the first list that are not in the second |
| AtomLists.AssignedEqualsSource | ssipp-solver/ext/mgpt/atom_list.cc:203-209 | after `operator=` the target is sorted and holds the same atoms as the source, whatever the source's order |
| AtomLists.FilteredMembers | ssipp-solver/ext/mgpt/atom_list.cc:88-96 | `intersect` keeps exactly the atoms found in both lists, in their order, and keeps a sorted list sorted |
| AtomLists.CommonCountZero | ssipp-solver/ext/mgpt/atom_list.cc:99-113 | `empty_intersection` and `intersection_size` agree: the count of common entries is zero exactly when no entry of the argument is in the list |
| AtomLists.ContradictionMeansBothPolarities | ssipp-solver/ext/mgpt/atom_list.h:64-69 | on a sorted list a contradiction is exactly an even atom present together with its negation `a + 1` |
| AtomLists.AtomList.Size | ssipp-solver/ext/mgpt/atom_list.h:47 | `size()` is the number of atoms in use |
| AtomLists.AtomList.FromArray | ssipp-solver/ext/mgpt/atom_list.cc:49-57 | the array constructor holds exactly the first `sz` entries, in a buffer of `sz` slots (for sz 0 the model then grows it like an absent buffer) |
| AtomLists.AtomList.Copy | ssipp-solver/ext/mgpt/atom_list.cc:14-47 | the copy constructor holds the same atoms in the same order, in a buffer as large as the source's atom count |
| AtomLists.AtomList.Find | ssipp-solver/ext/mgpt/atom_list.h:91-97 | `find` is membership |
| AtomLists.AtomList.Equal | ssipp-solver/ext/mgpt/atom_list.cc:78-85 | `equal(array, sz)` holds exactly when the list is the first `sz` entries of the array, in order |
| AtomLists.AtomList.Grow | ssipp-solver/ext/mgpt/atom_list.h:105-120 | the `realloc` of a full buffer gives a fresh buffer of the next capacity (1 for none, otherwise double) with the same atoms |
| AtomLists.AtomList.Insert | ssipp-solver/ext/mgpt/atom_list.h:99-130 | the buffer afterwards holds the spec `Inserted` list and grows only when a new atom meets a full buffer |
| AtomLists.AtomList.Remove | ssipp-solver/ext/mgpt/atom_list.h:132-141 | the buffer afterwards holds the spec `Removed` list, shifting only up to the last atom in use |
| AtomLists.AtomList.HoldsAtom | ssipp-solver/ext/mgpt/atom_list.h:55-61 | `holds(atm, nprec)` is the even/odd reading of membership |
| AtomLists.AtomList.HoldsIn | ssipp-solver/ext/mgpt/atom_list.cc:150-168 | `holds(alist, nprec)` holds iff every atom of this list, read as a condition, holds in `alist` |
| AtomLists.AtomList.Contradiction | ssipp-solver/ext/mgpt/atom_list.h:64-69 | `contradiction()` holds iff some even atom is directly followed by its negation |
| AtomLists.AtomList.Clear | ssipp-solver/ext/mgpt/atom_list.h:70 | `clear()` leaves no atom in use and keeps the buffer |
| AtomLists.AtomList.SameAs | ssipp-solver/ext/mgpt/atom_list.cc:191-200 | `operator==` is equality of the atom sets, by mutual containment |
| AtomLists.AtomList.EmptyIntersection | ssipp-solver/ext/mgpt/atom_list.cc:99-104 | `empty_intersection` holds iff no atom of the argument is in the list |
| AtomLists.AtomList.IntersectionSize | ssipp-solver/ext/mgpt/atom_list.cc:107-113 | `intersection_size` counts the argument's entries found in the list |
| AtomLists.AtomList.Intersect | ssipp-solver/ext/mgpt/atom_list.cc:88-96 | `intersect` leaves the spec `Filtered` list, in place |
| AtomLists.AtomList.IntersectAt | ssipp-solver/ext/mgpt/atom_list.cc:90-95 | one turn of `intersect`: the atom at the index is kept and the index moves on exactly when the argument holds it, else it is removed in place and the index stays; either way the list is the filtered prefix followed by the unexamined rest |
| AtomLists.IntersectStep | ssipp-solver/ext/mgpt/atom_list.cc:90-95 | the atom under the index is the next atom of the original list; keeping it extends the filtered prefix, and removing it by value removes that very entry, since it is the first occurrence of itself |
| AtomLists.AtomList.InsertList | ssipp-solver/ext/mgpt/atom_list.cc:116-120 | `insert(alist)` inserts the argument's atoms one after another |
| AtomLists.AtomList.RemoveList | ssipp-solver/ext/mgpt/atom_list.cc:123-127 | `remove(alist)` removes the argument's atoms one after another |
| AtomLists.AtomList.Assign | ssipp-solver/ext/mgpt/atom_list.cc:203-209 | `operator=` clears and reinserts every source atom; with no self-assignment check, assigning a list to itself empties it |
| AtomLists.RemoveFromFullBufferReadsPastEnd | ssipp-solver/ext/mgpt/atom_list.h:137-138 | the shift loop as written reads `data_[size()]`, one entry past a full buffer, whatever atom is removed |
| AtomLists.RemoveSingleAtomReadsPastEnd | ssipp-solver/ext/mgpt/atom_list.h:137-138 | removing atom 3 from a one-slot list holding it reads past the buffer |
| AtomLists.AtomListList.Find | ssipp-solver/ext/mgpt/atom_list.cc:219-224 | `find(alist)` holds iff some member is set-equal to `alist` |
| AtomLists.AtomListList.Insert | ssipp-solver/ext/mgpt/atom_list.cc:227-245 | `insert(alist)` appends the list, by reference, exactly when no set-equal list is already a member, and otherwise changes nothing |
| AtomLists.AtomListList.HoldsIn | ssipp-solver/ext/mgpt/atom_list.cc:256-263 | `holds(atm_list, nprec)` is the disjunction over the member lists |
| AtomLists.AtomListList.SameAs | ssipp-solver/ext/mgpt/atom_list.cc:278-287 | `operator==` holds iff every member of each has a set-equal member in the other |
| AtomLists.PowerSetsShape | ssipp-solver/ext/mgpt/atom_list.cc:313-329 | `__powerset` over `n` atoms yields `2^n` sets, the full set first and the empty set last |
| AtomLists.PowerSetsComplete | ssipp-solver/ext/mgpt/atom_list.cc:313-329 | every subset of the atoms, added to the chosen atoms, is emitted |
| AtomLists.PowerSetsSound | ssipp-solver/ext/mgpt/atom_list.cc:313-329 | every emitted set lies between the chosen atoms and the chosen atoms plus all the rest |
| AtomLists.AllocatedEmptyBufferNotGrownAsWritten | ssipp-solver/ext/mgpt/atom_list.h:104-110 | as written, the growth keyed on a null buffer leaves no room exactly for an allocated buffer of size 0, as the array constructor makes for sz 0; the corrected growth always makes room |
| AtomStates.WordCount | ssipp-solver/ext/mgpt/atom_states.cc:43-50 | `initialize` gives the least number of 32-bit words that holds every atom |
| AtomStates.AddedHolds | ssipp-solver/ext/mgpt/atom_states.h:200-210 | after `add(a)` exactly `a` and the atoms already present hold |
| AtomStates.ClearedHolds | ssipp-solver/ext/mgpt/atom_states.h:212-222 | after `clear(a)` exactly the atoms present other than `a` hold |
| AtomStates.ZerosHoldNothing | ssipp-solver/ext/mgpt/atom_states.h:49-54 | a fresh state holds no atom |
| AtomStates.AddAllHolds | ssipp-solver/ext/mgpt/atom_states.cc:162-169 | after adding the atoms of a list exactly those and the atoms already present hold |
| AtomStates.SameAtomsSameWords | ssipp-solver/ext/mgpt/atom_states.h:172-178 | two states' words compare equal exactly when the same atoms hold in them |
| AtomStates.AddPresentIsNoop | ssipp-solver/ext/mgpt/atom_states.h:200-210 | adding an atom that holds changes no word |
| AtomStates.ClearAbsentIsNoop | ssipp-solver/ext/mgpt/atom_states.h:212-222 | clearing an atom that does not hold changes no word |
| AtomStates.NextSetIs | ssipp-solver/ext/mgpt/atom_states.h:268-319 | the position the iterator moves to is the first set atom at or after the start, or the end index `size() << 5` |
| AtomStates.AtomsInOrder | ssipp-solver/ext/mgpt/atom_states.h:260-355 | the iterator lists atoms in strictly increasing order, each inside the state |
| AtomStates.AtomsMembers | ssipp-solver/ext/mgpt/atom_states.h:260-355 | the atoms the iterator lists are exactly the atoms that hold |
| AtomStates.AddAtomsRebuilds | ssipp-solver/ext/mgpt/atom_states.cc:162-169 | adding the listed atoms of a state to a fresh state rebuilds it |
| AtomStates.CodeOfMeaning | ssipp-solver/ext/mgpt/atom_states.cc:216-225 | `code()` is defined exactly when every atom is even and below 64 (a shift of the `int` literal `1` by 32 or more is undefined); among atoms below 64 it dies exactly when one is odd; bit `k` below 31 is set exactly for atom `2k`, and atom 62 sign-extends into bits 31 to 63 of the `size_t` |
| AtomStates.CodeOfDefined | ssipp-solver/ext/mgpt/atom_states.cc:216-225 | `code()` is defined exactly when every atom is even and below 64 |
| AtomStates.CodeOfBits | ssipp-solver/ext/mgpt/atom_states.cc:216-225 | a defined code has bit `k` below 31 set exactly for atom `2k`, and bits 31 to 63 set exactly when atom 62 holds |
| AtomStates.CodeOfDies | ssipp-solver/ext/mgpt/atom_states.cc:216-225 | among atoms below 64, `code()` dies exactly when one atom is odd |
| AtomStates.CodeInjective | ssipp-solver/ext/mgpt/atom_states.cc:216-225 | two states whose code is defined (positive atoms below 64) and equal are equal |
| AtomStates.AtoiOfNumeral | ssipp-solver/ext/mgpt/atom_states.cc:182 | `atoi` reads back a printed natural number |
| AtomStates.ShownParsedRoundTrip | ssipp-solver/ext/mgpt/atom_states.cc:172-186 | printing a state without brackets and reading it back with atom indices gives the same state |
| AtomStates.StateListHoldsIsListHolds | ssipp-solver/ext/mgpt/atom_list.cc:130-147 | a condition holds in a state exactly when it holds in the list of the state's atoms |
| AtomStates.State.constructor | ssipp-solver/ext/mgpt/atom_states.h:49-54 | `state_t()` is a fresh buffer of zero words |
| AtomStates.State.Copy | ssipp-solver/ext/mgpt/atom_states.h:55-61 | the copy constructor gives a fresh buffer with the same words |
| AtomStates.State.FromAtomList | ssipp-solver/ext/mgpt/atom_states.cc:162-169 | `state_t(atomList)` is a fresh state with the list's atoms added |
| AtomStates.State.Assign | ssipp-solver/ext/mgpt/atom_states.h:88-96 | after `operator=` the words are the source's, also when the source is this state |
| AtomStates.State.Equals | ssipp-solver/ext/mgpt/atom_states.h:172-178 | `operator==` is equality of the word buffers |
| AtomStates.State.HoldsAtom | ssipp-solver/ext/mgpt/atom_states.h:180-196 | `holds(atom)` tests bit `atom % 32` of word `atom >> 5` |
| AtomStates.State.Add | ssipp-solver/ext/mgpt/atom_states.h:200-210 | `add(atom)` sets the atom's bit only and returns whether it was clear |
| AtomStates.State.Clear | ssipp-solver/ext/mgpt/atom_states.h:212-222 | `clear(atom)` clears the atom's bit only and returns whether it was set |
| AtomStates.State.First | ssipp-solver/ext/mgpt/atom_states.h:268-280 | `first()` moves to the first atom that holds, or to the end index |
| AtomStates.State.Increase | ssipp-solver/ext/mgpt/atom_states.h:281-319 | `increase()` returns the next atom that holds after the current one, or the end index |
| AtomStates.VisitStart | ssipp-solver/ext/mgpt/atom_states.h:346-351 | the iteration starts at the first atom of the list of atoms that hold |
| AtomStates.VisitStep | ssipp-solver/ext/mgpt/atom_states.h:324-328 | each `++` moves from the current atom of the list to the next one |
| AtomStates.VisitEnd | ssipp-solver/ext/mgpt/atom_states.h:352-355 | reaching `predicate_end()` means every atom that holds was visited, in order |
| AtomStates.State.Code | ssipp-solver/ext/mgpt/atom_states.cc:216-225 | the iterator loop of `code()` computes the spec `CodeOf` of the state's atoms, stopping at the first odd atom or the first shift past the width of `int` |
| AtomStates.State.ToString | ssipp-solver/ext/mgpt/atom_states.cc:227-244 | `toString` prints the atoms in increasing order separated by single spaces, between brackets when asked |
| AtomStates.ShownStep | ssipp-solver/ext/mgpt/atom_states.cc:234-239 | printing one more atom, with a space before it unless it is the first, keeps the text equal to the opening text (a bracket or nothing) followed by the numerals of the atoms so far joined by single spaces |
| AtomStates.FromIndexString | ssipp-solver/ext/mgpt/atom_states.cc:172-186 | the index-string constructor succeeds exactly when the spec `Parsed` does, and then holds the parsed words |
| AtomStates.ListHoldsInState | ssipp-solver/ext/mgpt/atom_list.cc:130-147 | `atomList_t::holds(state, nprec)`: every even atom's bit set and every odd atom's positive bit clear (or plain membership with `nprec`) |
| AtomStates.ListListHoldsInState | ssipp-solver/ext/mgpt/atom_list.cc:248-254 | `atomListList_t::holds(state, nprec)` is the disjunction over the member lists |
| Problems.AtomTable.constructor | ssipp-solver/ext/mgpt/problems.h:54-63 | the static tables start empty, with index 0 and atoms not frozen |
| Problems.AtomTable.NumberAtoms | ssipp-solver/ext/mgpt/problems.h:145 | `number_atoms()` is even and at most `MAX_ATOMS + 2` |
| Problems.AtomTable.AtomHashGet | ssipp-solver/ext/mgpt/problems.cc:46-78 | a known atom gives its even index (plus one when negated); a new one dies when atoms are frozen, the index is `USHORT_MAX` or above `MAX_ATOMS`, and otherwise gets the next even index in both maps while the counter advances by two |
| Problems.AtomTable.AtomInvHashGet | ssipp-solver/ext/mgpt/problems.cc:80-86 | `atom_inv_hash_get(a)` finds the atom whose pair holds `a`, and null exactly when no atom has that pair |
| Problems.AtomTable.NoMoreAtoms | ssipp-solver/ext/mgpt/problems.h:154 | `no_more_atoms()` freezes the atom set and changes no table |
| Problems.AtomRoundTrip | ssipp-solver/ext/mgpt/problems.cc:46-86 | both the positive and the negated index of a known atom lead back to that atom |
| Problems.AtomIndicesDistinct | ssipp-solver/ext/mgpt/problems.cc:46-78 | distinct atoms get distinct index pairs |
| Problems.FluentTable.FluentHashGet | ssipp-solver/ext/mgpt/problems.cc:88-102 | a known application gives its index; a new one gets the counter's value in both maps (the inverse map keeps an existing entry) and the `unsigned short` counter advances by one, wrapping to 0; once 2^16 fluents were numbered a new one gets an index whose inverse is another application |
| Problems.FluentInsertKeeps | ssipp-solver/ext/mgpt/problems.cc:88-102 | numbering a new application keeps the table invariant (the counter is the count modulo 2^16, every issued index below 2^16 has an inverse leading back to an application with that index, and the maps are inverse until the counter wraps); after the wrap the index handed out already belongs to another application |
| Problems.FluentTable.FluentInvHashGetAsWritten | ssipp-solver/ext/mgpt/problems.cc:104-110 | the lookup as written finds the application numbered `f & ~1` |
| Problems.FluentInverseAsWrittenLosesOdd | ssipp-solver/ext/mgpt/problems.cc:104-110 | with two fluents numbered 0 and 1, the lookup as written maps 1 to the first one; the corrected lookup maps it to the second |
| Problems.FluentTable.FluentInvHashGet | ssipp-solver/ext/mgpt/problems.cc:104-110 | the corrected lookup finds the application numbered exactly `f`, and null exactly when there is none |
| Problems.FluentRoundTrip | ssipp-solver/ext/mgpt/problems.cc:88-110 | the corrected lookup inverts `fluent_hash_get` for every fluent, while at most 2^16 fluents were numbered |
| Problems.ProblemRegistry.Find | ssipp-solver/ext/mgpt/problems.cc:112-117 | `find(name)` returns the registered problem, and null exactly when none has that name |
| Problems.ProblemRegistry.Allocate | ssipp-solver/ext/mgpt/problems.cc:136-155 | `allocate` returns the registered problem and counts one more use, or registers the new problem with one use; afterwards `find(name)` returns it |
| Problems.SubsetEnumerator.Subsets | ssipp-solver/ext/mgpt/problems.cc:937-955 | `subsets(i, …)` appends the spec `SubsetsFrom` lists to `result` and leaves `tmp_set` as it found it |
| Problems.SubsetsShape | ssipp-solver/ext/mgpt/problems.cc:937-955 | `2^(n-i)` lists, the one with every remaining effect first and `tmp_set` alone last |
| Problems.SubsetsSound | ssipp-solver/ext/mgpt/problems.cc:937-955 | every list produced is `tmp_set` followed by a sub-list of the remaining effects |
| Problems.SubsetsComplete | ssipp-solver/ext/mgpt/problems.cc:937-955 | every sub-list of the remaining effects, after `tmp_set`, is produced |
| Problems.RemoveDisjunctionsFromConditions | ssipp-solver/ext/mgpt/problems.cc:909-935 | the loops compute the spec `RemoveDisjunctions`: each effect, or one copy per disjunct of its condition, inserted by the list's `insert` |
| Problems.RemoveDisjunctionsSound | ssipp-solver/ext/mgpt/problems.cc:909-935 | every effect of the result is a piece of some input effect |
| Problems.RemoveDisjunctionsComplete | ssipp-solver/ext/mgpt/problems.cc:909-935 | every piece of every input effect has an equal member in the result |
| Problems.RemoveDisjunctionsMeaning | ssipp-solver/ext/mgpt/problems.cc:909-935 | the result holds only pieces, each with a single-disjunct condition, and every piece is found in it |
| Problems.CompleteState | ssipp-solver/ext/mgpt/problems.cc:1030-1037 | with `nprec`, every even atom below `number_atoms()` that does not hold gets its negation atom added; without it the state is unchanged |
| Problems.CompletedIsTotal | ssipp-solver/ext/mgpt/problems.cc:1030-1037 | after completion each atom pair below the bound holds exactly one of its two atoms, when the negation did not hold before |
| EffectLists.CondEqReflexive | ssipp-solver/ext/mgpt/actions.cc:716-721 | a conditional effect equals itself under `conditionalEffect_t::operator==` (condition by mutual containment, strips part by lists and cost vector) |
| EffectLists.DetEqReflexive | ssipp-solver/ext/mgpt/actions.cc:810-815 | a deterministic effect equals itself under `deterministicEffect_t::operator==` (strips part and conditional list) |
| EffectLists.StripsEmpty | ssipp-solver/ext/mgpt/actions.h:260-269 | `empty()` answers true exactly when both atom lists are empty and every cost entry is zero |
| EffectLists.SetCost | ssipp-solver/ext/mgpt/actions.h:289-295 | with action costs enabled entry `idx` becomes `c`; without them nothing changes; the atom lists and every other entry are kept |
| EffectLists.IncreaseCostBy | ssipp-solver/ext/mgpt/actions.h:297-303 | with action costs enabled entry `idx` grows by `c`; otherwise nothing changes; lists and other entries are kept |
| EffectLists.IncreaseIsSetOfSum | ssipp-solver/ext/mgpt/actions.h:289-303 | `increase_cost_by(c)` is `set_cost(old entry + c)` |
| EffectLists.CondInsertedMeaning | ssipp-solver/ext/mgpt/actions.h:858-874 | after `insert` the list has a member equal to the effect, the earlier members stay in place, and it grew by one exactly when no equal member was present |
| EffectLists.CondEffectList.constructor | ssipp-solver/ext/mgpt/actions.h:163 | the list starts empty with no buffer |
| EffectLists.CondEffectList.Find | ssipp-solver/ext/mgpt/actions.h:850-856 | `find` answers true exactly when some member equals the effect |
| EffectLists.CondEffectList.Grow | ssipp-solver/ext/mgpt/actions.h:862-870 | a full buffer is reallocated to 1 slot when null and to twice its size otherwise; the members are kept |
| EffectLists.CondEffectList.Insert | ssipp-solver/ext/mgpt/actions.h:858-874 | the new members are `CondInserted(old, effect)`; the buffer grows only when a new member meets a full buffer |
| EffectLists.CondEffectList.Clear | ssipp-solver/ext/mgpt/actions.h:175 | `clear()` empties the list and keeps the buffer |
| EffectLists.FirstEqual | ssipp-solver/ext/mgpt/actions.h:887-889 | the index where the search loop of `insert` stops: the first equal member, or the size when there is none |
| EffectLists.ProbInsertedTotals | ssipp-solver/ext/mgpt/actions.h:884-919 | after `insert` the probability mass grows by the new effect's probability and the expected cost of every entry grows by probability times cost |
| EffectLists.ProbInsertedMass | ssipp-solver/ext/mgpt/actions.h:884-911 | `insert` adds the effect's probability to the total mass, whether it appends or merges |
| EffectLists.ProbInsertedShape | ssipp-solver/ext/mgpt/actions.h:884-911 | `insert` appends when there is no equal member and otherwise changes only the first equal member; every other member is kept |
| EffectLists.ProbEffectList.constructor | ssipp-solver/ext/mgpt/actions.h:193 | the list starts empty with no buffer |
| EffectLists.ProbEffectList.Find | ssipp-solver/ext/mgpt/actions.h:876-882 | `find` answers true exactly when some member equals the effect |
| EffectLists.ProbEffectList.Lookup | ssipp-solver/ext/mgpt/actions.h:886-889 | the search loop of `insert` stops at `FirstEqual` |
| EffectLists.ProbEffectList.Grow | ssipp-solver/ext/mgpt/actions.h:893-901 | a full buffer is reallocated to 1 slot when null and to twice its size otherwise; the members are kept |
| EffectLists.ProbEffectList.Insert | ssipp-solver/ext/mgpt/actions.h:884-911 | the new members are `ProbInserted(old, eff)`; the answer is true exactly when no equal member was present |
| EffectLists.ProbEffectList.Cost | ssipp-solver/ext/mgpt/actions.h:913-919 | `cost(idx)` is the expected cost, the sum of probability times cost entry over the members |
| EffectLists.ProbEffectList.Clear | ssipp-solver/ext/mgpt/actions.h:213 | `clear()` empties the list and keeps the buffer |
| EffectLists.FirstEqualAt | ssipp-solver/ext/mgpt/actions.h:886-889 | an index with no equal member before it and an equal member at it (or the end) is `FirstEqual` |
| EffectLists.CondSumBounds | ssipp-solver/ext/mgpt/actions.h:756-763 | with non-negative probabilities the sum of `run_condition` lies between 0 and the conditions' total mass, reaching the total when every condition holds and 0 when none does |
| EffectLists.AddingProbs.constructor | ssipp-solver/ext/mgpt/actions.h:797 | the tables start empty and without conditional effects |
| EffectLists.AddingProbs.ProbAddAtom | ssipp-solver/ext/mgpt/actions.h:804-817 | the probability is the unconditional probability (an absent atom gets a 0 entry, as `operator[]` inserts it) plus the probabilities of the atom's conditions that hold, when the action has conditional effects |
| Effects.Equals | ssipp-solver/ext/mgpt/effects.cc:242-246 | the loops of the `operator==` of every effect class compute `Equal`: same class and same atom, assignment or condition, conjuncts and outcome effects compared position by position, outcome probabilities not compared |
| Effects.EqualReflexive | ssipp-solver/ext/mgpt/effects.cc:668-679 | every effect equals itself, with the written and with the intended fallback of `ConjunctiveEffect::operator==` |
| Effects.EqualSymmetric | ssipp-solver/ext/mgpt/effects.cc:1234-1246 | with the intended fallback (`false` for a conjunction compared with anything but a conjunction of its size) equality is symmetric |
| Effects.EqualSameClass | ssipp-solver/ext/mgpt/effects.cc:668-679 | with the intended fallback, equal effects are of the same class |
| Effects.ConjunctionEqualityAsWrittenAsymmetric | ssipp-solver/ext/mgpt/effects.cc:668-679 | as written, the empty conjunction equals an add effect but not the other way round; with the intended fallback it does not |
| Effects.ChangesOfConcat | ssipp-solver/ext/mgpt/effects.cc:640-647 | the state change of two lists of conjuncts, one after the other, is the join of their changes |
| Effects.MakeConditional | ssipp-solver/ext/mgpt/effects.cc:727-746 | `ConditionalEffect::make` keeps the effect shaped and deterministic |
| Effects.MakeConditionalMeaning | ssipp-solver/ext/mgpt/effects.cc:727-746 | in every state the condition's tautology or contradiction flags allow, `make` returns an effect with the same state change as the conditional effect |
| Effects.ConjunctiveEffect.constructor | ssipp-solver/ext/mgpt/effects.cc:531-535 | a new conjunction has no conjunct |
| Effects.ConjunctiveEffect.Value | ssipp-solver/ext/mgpt/effects.cc:531-561 | the finished conjunction has the stored conjuncts and is shaped |
| Effects.ConjunctiveEffect.AddConjunct | ssipp-solver/ext/mgpt/effects.cc:544-561 | a conjunction is spliced in member by member and any other effect appended; no stored conjunct is a conjunction |
| Effects.SplicedMeaning | ssipp-solver/ext/mgpt/effects.cc:544-561 | splicing a conjunction's members in has the same state change as appending the conjunction |
| Effects.TranslateAssignment | ssipp-solver/ext/mgpt/effects.cc:450-486 | an assignment translates exactly when it is an `increase` or `decrease` by a constant; then, with action costs, its function's cost moves by `+v` or `-v`, and nothing else changes |
| Effects.IncreaseThenDecreaseCancel | ssipp-solver/ext/mgpt/effects.cc:470-477 | an increase followed by the decrease by the same value leaves the STRIPS effect as it was |
| Effects.InsertAtom | ssipp-solver/ext/mgpt/effects.cc:215-220 | inserting an atom into an atom list gives the old atoms plus that atom |
| Effects.Blank | ssipp-solver/ext/mgpt/actions.cc:590-592 | a fresh STRIPS effect has no atom and a zero cost per function |
| Effects.TranslatedOk | ssipp-solver/ext/mgpt/effects.cc:1217-1222 | `translate(s_effect, c_effect)` stops the program exactly on a probabilistic part or an unsupported assignment |
| Effects.TranslatedAllOk | ssipp-solver/ext/mgpt/effects.cc:650-655 | the conjuncts translate exactly when each of them does |
| Effects.TranslatableDeterministic | ssipp-solver/ext/mgpt/effects.cc:1217-1222 | every effect the translation accepts has no probabilistic part |
| Effects.TranslatedAtoms | ssipp-solver/ext/mgpt/effects.cc:836-855 | the translated add and delete lists hold the old atoms plus those of the unconditional state change; earlier conditional effects stay in front |
| Effects.TranslatedAllAtoms | ssipp-solver/ext/mgpt/effects.cc:650-655 | the same for the conjuncts of a conjunction |
| Effects.SumPConcat | ssipp-solver/ext/mgpt/effects.cc:1052-1088 | the probability mass of two lists of outcomes, one after the other, is the sum of their masses |
| Effects.FlattenedAllPrefixErr | ssipp-solver/ext/mgpt/effects.cc:1069-1081 | once the flattening loop stops the program it stays stopped |
| Effects.FlattenedStored | ssipp-solver/ext/mgpt/effects.cc:1052-1088 | every outcome `add_outcome` stores has a positive probability at or above the threshold and a shaped effect that is not probabilistic |
| Effects.FlattenedPlain | ssipp-solver/ext/mgpt/effects.cc:1055-1060 | a plain effect with a positive probability is stored once if it reaches the threshold, and dropped otherwise |
| Effects.FlattenedMass | ssipp-solver/ext/mgpt/effects.cc:1052-1088 | with no threshold, flattening `p` times an effect stores probability mass `p` times the effect's mass |
| Effects.ProbabilisticEffect.constructor | ssipp-solver/ext/mgpt/effects.cc:908-912 | a new probabilistic effect has no outcome and is not known to sum up to one |
| Effects.ProbabilisticEffect.Value | ssipp-solver/ext/mgpt/effects.cc:908-1088 | the finished effect has the stored outcomes, is shaped, and every probability in it is positive |
| Effects.ProbabilisticEffect.AddOutcome | ssipp-solver/ext/mgpt/effects.cc:1052-1088 | `add_outcome` either dies, when flattening dies, or answers true and appends the flattened outcomes |
| Effects.ProbabilisticEffect.AddOne | ssipp-solver/ext/mgpt/effects.cc:1069-1081 | one turn of the loop over a nested probabilistic effect appends `FlattenedOne` or dies |
| Effects.ProbabilisticEffect.Translate | ssipp-solver/ext/mgpt/effects.cc:1189-1214 | `translate(plist)` inserts each translated outcome and, when the outcomes are not known to sum up to one and fall short, a null outcome of the missing mass; it dies exactly when some outcome does not translate |
| Effects.ProbabilisticEffect.TranslateOutcomes | ssipp-solver/ext/mgpt/effects.cc:1194-1202 | the loop of `translate(plist)` inserts the translated outcomes one by one and sums their probabilities |
| Effects.TranslateStep | ssipp-solver/ext/mgpt/effects.cc:1194-1202 | one turn of that loop: the list then holds the translations of one more outcome, or the whole translation stops |
| Effects.ProbabilisticEffect.AddRow | ssipp-solver/ext/mgpt/effects.cc:937-972 | the inner loop of `cross_product` appends the pairs of one outcome with each outcome of the argument and returns the kept weight and the pair mass |
| Effects.ProbabilisticEffect.AddPair | ssipp-solver/ext/mgpt/effects.cc:938-971 | one pair is appended as the spliced conjunction of both effects when its probability reaches the threshold |
| Effects.ProbabilisticEffect.AddScaled | ssipp-solver/ext/mgpt/effects.cc:984-1012 | a completion loop appends each outcome scaled by the missing mass and adds the scaled mass |
| Effects.ProbabilisticEffect.AddCompletion | ssipp-solver/ext/mgpt/effects.cc:984-1012 | a completion loop runs only when its effect is incomplete |
| Effects.ProbabilisticEffect.AddPairs | ssipp-solver/ext/mgpt/effects.cc:937-972 | the double loop appends all pairs row by row and computes `total_prob_cross_prod`, `total_prob_of_this_peff` and `total_prob_of_arg_peff` |
| Effects.ProbabilisticEffect.CrossProduct | ssipp-solver/ext/mgpt/effects.cc:920-1049 | `cross_product` dies exactly when `CrossOutcomes` does and otherwise returns a fresh effect holding `CrossOutcomes`, known to sum up to one |
| Effects.ProbabilisticEffect.AddCrossBody | ssipp-solver/ext/mgpt/effects.cc:936-1019 | the pair loop and the two completion loops of `cross_product`: the result holds the pairs, then each completion that runs (this side incomplete, then the argument incomplete), and `cross` is their total probability |
| Effects.ProbabilisticEffect.AddEmptyOutcome | ssipp-solver/ext/mgpt/effects.cc:1028-1033 | the last `add_outcome` of `cross_product` appends the flattened outcome of the empty conjunction with the mass no pair covers, and dies exactly when that flattening does |
| Effects.InsertTranslated | ssipp-solver/ext/mgpt/effects.cc:1196-1200 | one outcome is translated into a fresh probabilistic effect and inserted into the list, or the program dies |
| Effects.TranslatedOutcomesOk | ssipp-solver/ext/mgpt/effects.cc:1194-1202 | the outcomes translate exactly when each of them does |
| Effects.TranslatedOutcomesMass | ssipp-solver/ext/mgpt/effects.cc:1194-1202 | the loop adds the outcomes' probability mass to the list's mass |
| Effects.TranslatedListMass | ssipp-solver/ext/mgpt/effects.cc:1189-1214 | after `translate(plist)` the list's mass grew by 1 when the outcomes were incomplete and by their mass otherwise |
| Effects.PairConjunction | ssipp-solver/ext/mgpt/effects.cc:948-952 | the conjunction built for a pair is the splice of both effects and is shaped |
| Effects.CrossOutcomesParts | ssipp-solver/ext/mgpt/effects.cc:920-1049 | `CrossOutcomes` is the pairs, the two completions and, when both effects are incomplete, the null outcome of the remaining mass |
| CrossMass.PairsMass | ssipp-solver/ext/mgpt/effects.cc:937-972 | with no threshold the pairs weigh the product of the two masses |
| CrossMass.RowScaledMass | ssipp-solver/ext/mgpt/effects.cc:938-971 | with no threshold one row of pairs weighs its outcome's probability times the argument's mass |
| CrossMass.CrossArithmetic | ssipp-solver/ext/mgpt/effects.cc:920-1049 | the pairs, the completions and the null outcome weigh the product of the completed masses of the two effects, and the null outcome's mass is never negative |
| CrossMass.CompletionMass | ssipp-solver/ext/mgpt/effects.cc:984-1012 | with no threshold a completion keeps every outcome it scales, with their full mass |
| CrossMass.NullOutcomeMass | ssipp-solver/ext/mgpt/effects.cc:1027-1035 | with no threshold the null outcome is stored with the remaining mass |
| Effects.AssignmentEqualMeaning | ssipp-solver/ext/mgpt/effects.cc:129-134 | two assignment effects are equal exactly when operator, application (function and terms), expression and reward flag are |
| Actions.ClearAllHolds | ssipp-solver/ext/mgpt/actions.cc:603-604 | after clearing a list of atoms an atom holds exactly when it held before and is not on the list |
| Actions.AddChangesMeaning | ssipp-solver/ext/mgpt/actions.cc:601-602 | the or-ed answers of `add` over an add list are true exactly when one of its atoms was clear |
| Actions.ClearChangesMeaning | ssipp-solver/ext/mgpt/actions.cc:603-604 | the or-ed answers of `clear` over a delete list are true exactly when one of its atoms was set |
| Actions.StripsAppliedHolds | ssipp-solver/ext/mgpt/actions.cc:596-607 | after a STRIPS effect an atom holds exactly when it is not deleted and is added or held before: deletes win over adds |
| Actions.StripsChangesMeaning | ssipp-solver/ext/mgpt/actions.cc:596-607 | `affect` reports a change exactly when an add atom was clear, or a delete atom was set or added by the same effect |
| Actions.StripsNoChangeKeeps | ssipp-solver/ext/mgpt/actions.cc:596-607 | an effect that reports no change leaves the successor state as it was |
| Actions.StripsAffect | ssipp-solver/ext/mgpt/actions.cc:596-607 | the successor's words become `StripsApplied` of the old words and the answer is `StripsChanges` |
| Actions.ConditionalAffect | ssipp-solver/ext/mgpt/actions.cc:681-684 | when the precondition holds in the current state the STRIPS part is applied to the successor; otherwise the successor is unchanged and the answer is false |
| Actions.CondListAffect | ssipp-solver/ext/mgpt/actions.cc:382-387 | every member is applied in turn to the successor and the answers are or-ed |
| Actions.CondListNoChangeKeeps | ssipp-solver/ext/mgpt/actions.cc:382-387 | a conditional list that reports no change leaves the successor as it was |
| Actions.CondListFrame | ssipp-solver/ext/mgpt/actions.cc:382-387 | an atom on no member's add or delete list keeps its value |
| Actions.DetNoChangeKeeps | ssipp-solver/ext/mgpt/actions.cc:765-771 | a deterministic effect that reports no change leaves the successor as it was |
| Actions.DetFrame | ssipp-solver/ext/mgpt/actions.cc:765-771 | an atom on no add or delete list of the STRIPS part or of any conditional effect keeps its value |
| Actions.DetEffectAffect | ssipp-solver/ext/mgpt/actions.cc:765-771 | the STRIPS part and then the conditional list are applied; the answer is the or of theirs |
| Actions.DetActionAffect | ssipp-solver/ext/mgpt/actions.cc:961-967 | the action's effect is applied to a copy of the state, the conditions read from the old state, and the copy replaces the state |
| Actions.FindCond | ssipp-solver/ext/mgpt/actions.h:850-856 | `find` answers true exactly when some member equals the conditional effect |
| Actions.AllFound | ssipp-solver/ext/mgpt/actions.cc:403-405 | the first loop of `operator==` answers true exactly when every member of one list is found in the other |
| Actions.CondListEqual | ssipp-solver/ext/mgpt/actions.cc:401-410 | `operator==` answers true exactly when each list contains every member of the other |
| Actions.CondListEqIsReflexiveAndSymmetric | ssipp-solver/ext/mgpt/actions.cc:401-410 | list equality is reflexive and symmetric |
| Actions.CondLowerBound | ssipp-solver/ext/mgpt/actions.cc:433-443 | `cost_lowerbound()` is 0 for an empty list and otherwise the cost of some member that is at most every member's cost |
| Actions.CondUpperBound | ssipp-solver/ext/mgpt/actions.cc:446-456 | `cost_upperbound()` is 0 for an empty list and otherwise the cost of some member that is at least every member's cost |
| Actions.CostLowerBound | ssipp-solver/ext/mgpt/actions.cc:433-443 | the loop from the first member keeping the smaller bound computes `CondLowerBound` |
| Actions.CostUpperBound | ssipp-solver/ext/mgpt/actions.cc:446-456 | the loop from the first member keeping the larger bound computes `CondUpperBound` |
| Actions.BoundsOrdered | ssipp-solver/ext/mgpt/actions.h:589-605 | the lower bound never exceeds the upper bound for conditional lists, deterministic and probabilistic actions; a probabilistic action with action costs and no outcomes dies on both bounds |
| Actions.CondListCostAlone | ssipp-solver/ext/mgpt/actions.cc:425-431 | the list's cost in a state is the cost of the one member whose precondition holds there, and 0 when none holds |
| Actions.DetCostBetweenBounds | ssipp-solver/ext/mgpt/actions.h:392-409 | when at most one conditional effect fires, a deterministic effect's cost in a state lies between its lower and upper bound |
| Actions.MatchesAt | ssipp-solver/ext/mgpt/actions.cc:465-467 | entry `k` of the inner loop's comparisons is whether member `k`'s precondition equals the one tested |
| Actions.ConsistentAtMeaning | ssipp-solver/ext/mgpt/actions.cc:462-476 | member `i` passes the one-way test exactly when every member of the other list with an equal precondition has the same cost, and a member with no such partner costs 0 |
| Actions.PrecEqual | ssipp-solver/ext/mgpt/atom_list.cc:277-287 | precondition comparison answers true exactly when each DNF contains every conjunction of the other |
| Actions.PrecMatches | ssipp-solver/ext/mgpt/actions.cc:465-467 | the comparisons of the inner loop are `Matches` |
| Actions.ConsistentMember | ssipp-solver/ext/mgpt/actions.cc:463-475 | the inner loop for member `i` computes `ConsistentAt`, including the early `false` on a cost mismatch |
| Actions.OneWayRewardConsistent | ssipp-solver/ext/mgpt/actions.cc:459-479 | `one_way_conditionalEffectList_reward_consistent_test` answers true exactly when every member passes |
| Actions.CondListRewardConsistent | ssipp-solver/ext/mgpt/actions.cc:481-486 | `is_reward_consistent_with` is the one-way test in both directions |
| Actions.DnfEqReflexive | ssipp-solver/ext/mgpt/atom_list.cc:277-287 | a precondition equals itself |
| Actions.SelfConsistency | ssipp-solver/ext/mgpt/actions.cc:459-479 | a list is consistent with itself exactly when members with equal preconditions have equal costs |
| Actions.ProbEffectRewardConsistent | ssipp-solver/ext/mgpt/actions.cc:892-900 | two outcomes are consistent exactly when their STRIPS costs agree and their conditional lists are consistent |
| Actions.ProbActionRewardConsistent | ssipp-solver/ext/mgpt/actions.cc:1373-1382 | `is_reward_consistent()` is true for no outcomes and otherwise exactly when every outcome is consistent with the first |
| Actions.ConsistentActionSameCost | ssipp-solver/ext/mgpt/actions.cc:1373-1382 | in a reward-consistent action every outcome has the first outcome's STRIPS cost |
| Actions.Root | ssipp-solver/ext/mgpt/actions.cc:1080-1089 | following `original_action_` links ends at an action with no link; an action without a link is its own root |
| Actions.OriginalAction | ssipp-solver/ext/mgpt/actions.cc:1080-1089 | the loop of `original_action()` returns the root |
| Actions.RootIsAncestor | ssipp-solver/ext/mgpt/actions.cc:1080-1089 | the root is reached by following some number of links, and the root's root is the root |
| Actions.DetEmpty | ssipp-solver/ext/mgpt/actions.cc:744-752 | `empty()` answers true exactly when the STRIPS part and every conditional effect's STRIPS part are empty |
| Actions.TotalProbScaled | ssipp-solver/ext/mgpt/actions.cc:1347-1350 | dividing every probability by `s` divides the total by `s` |
| Actions.KeptAbove | ssipp-solver/ext/mgpt/actions.cc:1259-1297 | every kept outcome has probability above the threshold, and the kept mass is the mass of the outcomes above it |
| Actions.SplitOffLoop | ssipp-solver/ext/mgpt/actions.cc:1259-1298 | the loop detaches every non-empty outcome at or below the threshold as a deterministic action numbered in order, skips the empty ones and keeps the others |
| Actions.SumRemaining | ssipp-solver/ext/mgpt/actions.cc:1343-1345 | the loop sums the probabilities of the kept outcomes |
| Actions.ScaleRemaining | ssipp-solver/ext/mgpt/actions.cc:1347-1350 | the loop divides every kept probability by the sum, on a copy of the outcomes (see Findings for the in-place update of the source) |
| Actions.ReplanningSplit | ssipp-solver/ext/mgpt/actions.cc:1254-1370 | `replanning_split` appends exactly `SplitResult`: the detached deterministic actions, then either a clone, a deterministic remainder or a renormalised probabilistic remainder |
| Actions.SplitOffMeaning | ssipp-solver/ext/mgpt/actions.cc:1259-1293 | the detached actions are the detachable outcomes in order, named `name_0`, `name_1`, ..., with the action's precondition and linked to it |
| Actions.DetachableMeaning | ssipp-solver/ext/mgpt/actions.cc:1261-1270 | an outcome is detached exactly when its probability is at most the threshold and it is not empty |
| Actions.SplitNothingIsClone | ssipp-solver/ext/mgpt/actions.cc:1300-1308 | when no outcome is detached, the result is one clone keeping the action's own link |
| Actions.ScaledSumsToOne | ssipp-solver/ext/mgpt/actions.cc:1343-1350 | probabilities divided by their positive sum sum to 1 |
| Actions.SplitRemainderSumsToOne | ssipp-solver/ext/mgpt/actions.cc:1340-1367 | with a detached outcome and more than one kept, the result ends with an `_R` probabilistic action whose outcomes sum to 1 |
| Actions.SplitExampleParts | ssipp-solver/ext/mgpt/actions.cc:1259-1298 | for outcomes 0.1, 0.45, 0.45 split at 0.2 the first is detached and the others, of mass 0.9, are kept |
| Actions.SplitChangesOriginalAsWritten | ssipp-solver/ext/mgpt/actions.cc:1347-1350 | as written, renormalising through `const_cast` rewrites the original action's outcomes, which then sum to 1.1 in that example |
| Actions.Collect | ssipp-solver/ext/mgpt/actions.cc:615-624 | the collected atoms are sorted and are exactly the atoms on some visited list |
| Actions.AddsAtom | ssipp-solver/ext/mgpt/actions.cc:1123-1127 | `adds_atom` answers true exactly when the atom is on some add list of the action |
| Actions.DeletesAtom | ssipp-solver/ext/mgpt/actions.cc:1117-1121 | `deletes_atom` answers true exactly when the atom is on some delete list of the action |
| Actions.DetListsMeaning | ssipp-solver/ext/mgpt/actions.cc:782-796 | for a deterministic effect the visited lists hold an atom exactly when the STRIPS part or some conditional effect lists it |
| Actions.ProbListsMeaning | ssipp-solver/ext/mgpt/actions.cc:1240-1251 | for a probabilistic action the visited lists hold an atom exactly when some outcome's lists do |
| Formulas.AndExact | mdpsim/formulas.cc:31-38 | `&&` on truthiness is exact: its possible truth values are precisely the conjunctions of the operands' possible values |
| Formulas.OrExact | mdpsim/formulas.cc:40-47 | the disjunction operator on truthiness is exact in the same sense |
| Formulas.NotExact | mdpsim/formulas.cc:49-58 | `!` on truthiness gives precisely the negations of the operand's possible values |
| Formulas.AndCommutativeAssociative | mdpsim/formulas.cc:31-38 | `&&` is commutative, associative and idempotent, with TAUTOLOGY as its unit |
| Formulas.OrCommutativeAssociative | mdpsim/formulas.cc:40-47 | the disjunction operator is commutative, associative and idempotent, with CONTRADICTION as its unit |
| Formulas.NotInvolutionDeMorgan | mdpsim/formulas.cc:31-58 | `!` is an involution and De Morgan's laws hold |
| Formulas.LessIsRankOrder | mdpsim/formulas.cc:61-70 | `operator<` is the strict total order false < unknown < true |
| Formulas.FoldAndMeaning | mdpsim/formulas.cc:1058-1065 | a conjunction is contradictory iff some conjunct is, and a tautology iff every conjunct is |
| Formulas.FoldOrMeaning | mdpsim/formulas.cc:1157-1164 | a disjunction is a tautology iff some disjunct is, and contradictory iff every disjunct is |
| Formulas.ConjunctionTruthiness | mdpsim/formulas.cc:1058-1065 | the loop with its early exit at a contradiction computes the conjunction's truthiness, contradictory exactly when some conjunct is |
| Formulas.DisjunctionTruthiness | mdpsim/formulas.cc:1157-1164 | the loop with its early exit at a tautology computes the disjunction's truthiness, a tautology exactly when some disjunct is |
| Formulas.EqualityMake | mdpsim/formulas.cc:491-499 | `Equality::make` returns TRUE, FALSE or the equality of the two terms |
| Formulas.EqualityMakeSound | mdpsim/formulas.cc:491-499 | a TRUE answer holds and a FALSE answer fails under every assignment of the variables, and two objects always get a definite answer |
| Formulas.ConjunctsTruth | mdpsim/formulas.cc:157-167 | splicing a conjunction's members into another does not change truthiness |
| Formulas.DisjunctsTruth | mdpsim/formulas.cc:203-213 | splicing a disjunction's members into another does not change truthiness |
| Formulas.FormulaAndTruthiness | mdpsim/formulas.cc:145-188 | `f1 && f2` has the conjunction of their truthiness and keeps the parts of `f1` before those of `f2` |
| Formulas.FormulaOrTruthiness | mdpsim/formulas.cc:191-234 | the disjunction of two formulas has the disjunction of their truthiness and keeps the parts of `f1` before those of `f2` |
| Formulas.FormulaAndFlat | mdpsim/formulas.cc:145-188 | conjoining two distinct formulas that are flat or not conjunctions gives a flat conjunction |
| Formulas.NewTruthyWrapper | mdpsim/formulas.cc:255-263 | the constructor throws `std::domain_error` exactly for an unknown truth value, and otherwise wraps a constant |
| Formulas.TruthyWrapperMakeSafe | mdpsim/formulas.cc:247-252 | `make` never reaches the throwing constructor and its result has the requested truthiness, or the wrapped formula's when that is unknown |
| Formulas.NegationMakeTruthiness | mdpsim/formulas.cc:905-913 | `Negation::make` gives the negated truthiness of its operand: a plain negation when that is unknown, otherwise the negation pinned to the opposite constant |
| Formulas.EqualToMakeSound | mdpsim/formulas.cc:710-724 | a TRUE answer of `EqualTo::make` means equal values and a FALSE one different values, whatever the leaves evaluate to; the answer is definite exactly when both operands are constants |
| Formulas.QuantifierMakeTruthiness | mdpsim/formulas.cc:1213-1220 | `Exists::make` and `Forall::make` keep the body's truthiness and build a quantifier only with parameters and a body of unknown value |
| ProbDists.TotalBoundsMass | ssipp-solver/utils/prob_dist.h:41-47 | with non-negative probabilities the normalizing constant is non-negative and at least the mass of any one event |
| ProbDists.NormalizingConstant | ssipp-solver/utils/prob_dist.h:41-47 | `normalizingConstant()` is the sum of the probabilities over the iteration |
| ProbDists.Sample | ssipp-solver/utils/prob_dist.h:49-60 | `sample` returns the first pair at which the running total reaches `draw` times the constant (the total when the constant is negative), and reaches `assert(false)` only when the whole iteration stays below it |
| ProbDists.ProbDistVector.constructor | ssipp-solver/utils/prob_dist.h:152-158 | a new vector distribution is empty |
| ProbDists.ProbDistVector.Insert | ssipp-solver/utils/prob_dist.h:154-157 | `insert` appends the pair, so the total grows by its probability |
| ProbDists.ProbDistVector.Clear | ssipp-solver/utils/prob_dist.h:158 | `clear()` empties the vector |
| ProbDists.ProbDistStlArray.constructor | ssipp-solver/utils/prob_dist.h:222 | a new fixed array of `N` slots has no pair in use |
| ProbDists.ProbDistStlArray.Insert | ssipp-solver/utils/prob_dist.h:245-249 | on a free slot `insert` writes the next slot and appends the pair to the iteration; later slots are untouched |
| ProbDists.ProbDistStlArray.Clear | ssipp-solver/utils/prob_dist.h:251 | `clear()` leaves no pair in use |
| ProbDists.ProbDistAllocArray.constructor | ssipp-solver/utils/prob_dist.h:322-323 | two fresh arrays of `N` slots, none in use |
| ProbDists.ProbDistAllocArray.Outcomes | ssipp-solver/utils/prob_dist.h:384-389 | the iteration visits `(e_[i], p_[i])` for the slots in use, in order |
| ProbDists.ProbDistAllocArray.Copy | ssipp-solver/utils/prob_dist.h:324-335 | the copy uses fresh arrays of the same size and iterates the same pairs |
| ProbDists.ProbDistAllocArray.Assign | ssipp-solver/utils/prob_dist.h:337-349 | after copy assignment, also onto itself, the container iterates what `other` iterated |
| ProbDists.ProbDistAllocArray.CopyPrefix | ssipp-solver/utils/prob_dist.h:340-345 | the `memcpy` and the copy loop write the first `count` slots of `other`, leaving `other` untouched |
| ProbDists.ProbDistAllocArray.Insert | ssipp-solver/utils/prob_dist.h:375-380 | on a free slot `insert` appends the pair to the iteration |
| ProbDists.ProbDistAllocArray.Clear | ssipp-solver/utils/prob_dist.h:382 | `clear()` leaves no pair in use |
| ProbDists.MapTotalWithout | ssipp-solver/utils/prob_dist.h:431-435 | the total of a map is any one event's probability plus the total of the rest, whatever order the iteration takes |
| ProbDists.AccumulateTotal | ssipp-solver/utils/prob_dist.h:433 | `m_[i] += pr` adds `pr` to the total |
| ProbDists.AccumulatedKeys | ssipp-solver/utils/prob_dist.h:433 | after a sequence of inserts the events present are exactly those inserted |
| ProbDists.AccumulatedMass | ssipp-solver/utils/prob_dist.h:433 | after a sequence of inserts each event holds the sum of the probabilities inserted for it |
| ProbDists.AccumulatedTotal | ssipp-solver/utils/prob_dist.h:433 | after a sequence of inserts the total is the sum of every probability inserted |
| ProbDists.MassAbsent | ssipp-solver/utils/prob_dist.h:433 | an event never inserted has no mass |
| ProbDists.Restrict | ssipp-solver/utils/prob_dist.h:431-435 | a map restricted to some of its keys has exactly those keys with their probabilities |
| ProbDists.ProbDistMap.constructor | ssipp-solver/utils/prob_dist.h:431-435 | a new map distribution is empty |
| ProbDists.ProbDistMap.Insert | ssipp-solver/utils/prob_dist.h:433 | `insert(i, pr)` is `m_[i] += pr` (a missing event starts at 0), so the total grows by `pr`; the hash variant at line 484 is the same |
| ProbDists.ProbDistMap.Clear | ssipp-solver/utils/prob_dist.h:435 | `clear()` empties the map |
| ProbDists.ProbDistMap.NormalizingConstant | ssipp-solver/utils/prob_dist.h:41-47 | the loop over the map's events, in any order, computes the sum of their probabilities |
| Hashing.ConcatMember | ssipp-solver/ext/mgpt/hash.h:409-416 | an entry is in the table exactly when it is in one of its buckets |
| Hashing.StateInItsBucket | ssipp-solver/ext/mgpt/hash.h:313-319 | with every entry in the bucket its state hashes to, a state is in the table exactly when it is in its own bucket, so looking in one bucket suffices |
| Hashing.FirstWith | ssipp-solver/ext/mgpt/hash.h:313-319 | the entry found is for the state sought, no earlier entry of the chain is, and nothing is found exactly when the chain holds no entry for it |
| Hashing.FirstWithIsFirst | ssipp-solver/ext/mgpt/hash.h:313-319 | the scan finds the first entry of the chain that is for the state sought |
| Hashing.SeekFromPosition | ssipp-solver/ext/mgpt/hash.h:361-375 | scanning the buckets from bucket i reaches the first entry after those of the earlier buckets |
| Hashing.NextPosition | ssipp-solver/ext/mgpt/hash.h:379-392 | a step moves the iterator from one entry to the next in bucket order and the iterator yields the entry it is at, and nothing past the last one |
| Hashing.IterateNPosition | ssipp-solver/ext/mgpt/hash.h:361-392 | after k steps from begin the iterator is at entry k, or at the end once every entry was visited |
| Hashing.IterationVisitsEach | ssipp-solver/ext/mgpt/hash.h:409-416 | a walk from begin yields every entry once, bucket by bucket, and meets stateHash_t::end exactly after the last entry |
| Hashing.HashEndNeverReached | ssipp-solver/ext/mgpt/hash.h:252-259 | the iterator that hash_t::end builds (bucket index 0, null pointer) is never reached by stepping from begin on a table with buckets, while past the last entry the iterator yields nothing |
| Hashing.LookupAfterPrepend | ssipp-solver/ext/mgpt/hash.h:133-160 | after an entry is put at the head of its bucket, its state reads the entry's value and every other state reads what it read before |
| Hashing.LookupAfterSetData | ssipp-solver/ext/mgpt/hash.cc:14-30 | after the first entry for a state gets a new value, that state reads it and every other state reads what it read before |
| Hashing.GetKeepsLookup | ssipp-solver/ext/mgpt/hash.h:161-165 | a get that inserts the heuristic value for a missing state changes no state's value |
| Hashing.Min | ssipp-solver/ext/mgpt/hash.cc:26 | the minimum is at most both arguments and is one of them |
| Hashing.ChainedTable.HashValue | ssipp-solver/ext/mgpt/hash.h:122-124 | the bucket of a state is its hash modulo the number of buckets, and is a valid bucket |
| Hashing.ChainedTable.constructor | ssipp-solver/ext/mgpt/hash.cc:216-225 | the table gets prime(dimension) buckets, all empty, with zero counters and size, and the prime cache advances as prime promises |
| Hashing.ChainedTable.Find | ssipp-solver/ext/mgpt/hash.h:313-319 | find returns the first entry for the state in its bucket, and finds one exactly when the table holds the state |
| Hashing.ChainedTable.Insert | ssipp-solver/ext/mgpt/hash.h:320-337 | the entry becomes the head of its bucket, the size grows by one, and the table holds the old entries plus the new one |
| Hashing.ChainedTable.Get | ssipp-solver/ext/mgpt/hash.h:338-342 | get returns the first entry for the state; a known state leaves the table unchanged and a new one is inserted at the head of its bucket with the given data |
| Hashing.ChainedTable.SetData | ssipp-solver/ext/mgpt/hash.h:42-44 | a write through an entry pointer changes the data of that entry and nothing else, keeping the table well formed |
| Hashing.ChainedTable.Diameter | ssipp-solver/ext/mgpt/hash.cc:272-278 | the diameter is the length of the longest chain: no chain is longer and some chain has that length |
| Hashing.ChainedTable.InsertAll | ssipp-solver/ext/mgpt/hash.cc:262-266 | re-inserting a chain adds exactly its entries and grows the size by its length |
| Hashing.ChainedTable.InsertBuckets | ssipp-solver/ext/mgpt/hash.cc:261-266 | re-inserting the old buckets one by one adds exactly their entries |
| Hashing.ChainedTable.Rehash | ssipp-solver/ext/mgpt/hash.cc:244-269 | rehash moves to prime(2 * dimension) fresh buckets holding the same entries, every one in the bucket of its state, with the same size |
| Hashing.ChainedTable.Reset | ssipp-solver/ext/mgpt/hash.cc:246-251 | the reallocation gives d empty buckets with zero counters and size |
| Hashing.ChainedTable.Begin | ssipp-solver/ext/mgpt/hash.h:409-412 | begin returns the iterator at the first entry of the first non-empty bucket |
| Hashing.ChainedTable.Seek | ssipp-solver/ext/mgpt/hash.h:361-375 | the bucket scan from bucket i stops at the first non-empty bucket from i on, or at the end |
| Hashing.ChainedTable.End | ssipp-solver/ext/mgpt/hash.h:413-416 | end is the iterator with a null pointer at bucket index dimension |
| Hashing.ChainedTable.Increment | ssipp-solver/ext/mgpt/hash.h:380-392 | operator++ steps along the chain and then to the next non-empty bucket |
| Hashing.ChainedTable.Collect | ssipp-solver/ext/mgpt/hash.h:409-416 | a loop from begin to end collects every entry once, in bucket order |
| Hashing.ChainedTable.CurrentEntry | ssipp-solver/ext/mgpt/hash.h:379 | dereferencing an iterator at entry k yields entry k |
| Hashing.ValueHash.constructor | ssipp-solver/ext/mgpt/hash.cc:79-90 | the value table starts with prime(dimension) empty buckets and a zero update counter, so every state reads its heuristic value |
| Hashing.ValueHash.ValueConst | ssipp-solver/ext/mgpt/hash.h:167-171 | the const value of a state is its stored value, or else the heuristic value, and leaves the table alone |
| Hashing.ValueHash.Value | ssipp-solver/ext/mgpt/hash.h:173-182 | value returns the state's value and changes no state's value, and with hash-all it leaves an entry for the state |
| Hashing.ValueHash.GetEntry | ssipp-solver/ext/mgpt/hash.h:161-165 | get leaves an entry for the state, at the first position for it in its bucket, inserting the heuristic value only when the state was missing, so no state's value changes |
| Hashing.ValueHash.InsertValue | ssipp-solver/ext/mgpt/hash.h:139-160 | insert puts a new entry at the head of the state's bucket; that state now reads the given value and every other state what it read before |
| Hashing.ValueHash.Insert | ssipp-solver/ext/mgpt/hash.h:133-137 | insert without a value stores the heuristic value, which changes no state's value when the state was missing |
| Hashing.ValueHash.UpdateEntry | ssipp-solver/ext/mgpt/hash.cc:14-30 | an entry update stores the minimum of the value and the dead-end value, counts one update, and changes only that state's value |
| Hashing.ValueHash.Update | ssipp-solver/ext/mgpt/hash.h:184-192 | update leaves an entry for the state; it reads the capped value when it was stored or hash-all is set and the raw value otherwise; every other state keeps its value and the counter grows exactly on a capped update |
| Hashing.ValueHash.ReplaceHeuristic | ssipp-solver/ext/mgpt/hash.h:109-113 | the previous heuristic is returned; stored states keep their values and the others now read the new heuristic |
| Hashing.ValueHash.IncrementCounter | ssipp-solver/ext/mgpt/hash.h:119 | the update counter grows by one |
| Hashing.ValueHash.ResetUpdateCounter | ssipp-solver/ext/mgpt/hash.h:118 | the reset is commented out, so the counter keeps its value |
| Primes.CeilSqrt | ssipp-solver/ext/mgpt/hash.cc:51 | the rounded-up square root is the least b with b * b at least x |
| Primes.SmallestDivisorIsPrime | ssipp-solver/ext/mgpt/hash.cc:52-53 | the least divisor from 2 on of a number from 2 on is a prime |
| Primes.PrimeAbove | ssipp-solver/ext/mgpt/hash.cc:50-67 | above every number there is a prime, so the search of prime(n) ends |
| Primes.StopAsWritten | ssipp-solver/ext/mgpt/hash.cc:52-53 | the trial-division loop as written stops at an entry of the cache or past the last |
| Primes.NineAcceptedAsWritten | ssipp-solver/ext/mgpt/hash.cc:51-55 | as written, 9 is accepted against the cached primes 2, 3, 5, 7 though it is not a prime |
| Primes.ElevenRejectedAsWritten | ssipp-solver/ext/mgpt/hash.cc:51-55 | as written, the prime 11 is rejected against the cached entries 2, 3, 5, 7, 9 |
| Primes.PrimeOfEightAsWritten | ssipp-solver/ext/mgpt/hash.cc:34-70 | as written, a fresh cache holds 2, 3, 5, 7 after four rounds and 2, 3, 5, 7, 9 after five, so prime(8) returns 9 |
| Primes.FullBufferHalvedAsWritten | ssipp-solver/ext/mgpt/hash.cc:57-62 | as written, appending to a full buffer first halves it, so the new entry lies outside the buffer |
| Primes.Stop | ssipp-solver/ext/mgpt/hash.cc:52-53 | the corrected loop passes only cached primes up to the square root that do not divide, and stops at one whose square is too large or that divides |
| Primes.TrialDivisionCorrect | ssipp-solver/ext/mgpt/hash.cc:51-55 | against the list of all primes below it, the corrected test accepts a number exactly when it is a prime |
| Primes.AdvancedOk | ssipp-solver/ext/mgpt/hash.cc:50-67 | a corrected round keeps the cache listing exactly the primes below the candidate, raises the candidate and appends at most one entry |
| Primes.LeastFrom | ssipp-solver/ext/mgpt/hash.cc:67-69 | when the last cached prime is the first to reach n, no number from n up to it is a prime |
| Primes.PrimeOutcomeHolds | ssipp-solver/ext/mgpt/hash.cc:34-70 | the rounds of the do-while end with a prime at least n as the last entry, the least such prime when the cache had not yet reached n |
| Primes.PrimeTable.constructor | ssipp-solver/ext/mgpt/hash.cc:41-48 | the first call starts with no prime found, candidate 2 and a buffer of the initial size |
| Primes.PrimeTable.LastCached | ssipp-solver/ext/mgpt/hash.cc:69 | the entry read is the last cached prime |
| Primes.PrimeTable.TrialDivision | ssipp-solver/ext/mgpt/hash.cc:52-53 | the loop returns where the corrected trial division stops |
| Primes.PrimeTable.Grow | ssipp-solver/ext/mgpt/hash.cc:57-61 | a full buffer is reallocated at double size with the cached primes kept |
| Primes.PrimeTable.Append | ssipp-solver/ext/mgpt/hash.cc:57-63 | the candidate is appended, after growing a full buffer, and the candidate advances |
| Primes.PrimeTable.Advance | ssipp-solver/ext/mgpt/hash.cc:51-66 | one round of the loop performs the corrected round on the cache |
| Primes.PrimeTable.RoundBelow | ssipp-solver/ext/mgpt/hash.cc:50-67 | a round taken while the last cached prime is below n keeps the loop invariant and raises the candidate |
| Primes.PrimeTable.RoundsUntil | ssipp-solver/ext/mgpt/hash.cc:67 | the while part runs until the last cached prime reaches n, keeping the invariant |
| Primes.PrimeTable.Prime | ssipp-solver/ext/mgpt/hash.cc:34-70 | prime(n) returns a prime that is at least n, the least one when nothing cached reached n before, and the cache only grows |
| FunctionTables.FunctionTable.LastFunction | ssipp-solver/ext/mgpt/functions.cc:24 | the last function is the one just below the number of names, so the next one added gets the next index |
| FunctionTables.FunctionTable.AddFunction | ssipp-solver/ext/mgpt/functions.cc:9-30 | a known name returns its index and changes nothing; a new name gets the next index, no parameters and a place among the static functions, and the table stays consistent |
| FunctionTables.FunctionTable.FindFunction | ssipp-solver/ext/mgpt/functions.cc:32-40 | a name is found exactly when it is in the table, at the index carrying that name; a missing name gives 0 and false |
| FunctionTables.FunctionTable.PrintFunction | ssipp-solver/ext/mgpt/functions.cc:42-46 | the printed name is in the table and find_function maps it back to the same function |
| FunctionTables.AddThenFind | ssipp-solver/ext/mgpt/functions.cc:9-40 | after add_function a lookup of the name finds the index returned, and other names' lookups do not change |
| PddlRequirements.JoinedLength | ssipp-solver/ext/mgpt/requirements.cc:41-55 | each printed key adds at least its leading space |
| PddlRequirements.TextEmptyIff | ssipp-solver/ext/mgpt/requirements.cc:57-62 | asPDDL returns the empty string exactly when it prints no key, and otherwise the keys between `(:requirements` and `)` |
| PddlRequirements.FilterIn | ssipp-solver/ext/mgpt/requirements.cc:41-49 | a single-flag key is printed exactly when it is listed and its flag is set |
| PddlRequirements.KeysIn | ssipp-solver/ext/mgpt/requirements.cc:36-55 | a key is printed exactly when it is `:adl` with all eight ADL flags set, or a set single flag without them, or the probabilistic or reward key set and not ignored |
| PddlRequirements.AdlFirst | ssipp-solver/ext/mgpt/requirements.cc:36-39 | with all eight ADL flags set `:adl` is the first key |
| PddlRequirements.KeysEmptyIff | ssipp-solver/ext/mgpt/requirements.cc:52-60 | nothing is printed exactly when no single flag is set and the probabilistic and reward flags are unset or ignored |
| PddlRequirements.WithQuantifiedSets | ssipp-solver/ext/mgpt/requirements.cc:14-19 | quantified_preconditions sets the existential and universal flags and nothing else |
| PddlRequirements.WithAdlSets | ssipp-solver/ext/mgpt/requirements.cc:21-31 | adl sets the eight ADL flags, leaves fluents, probabilistic effects and rewards unchanged, and doing it twice is doing it once |
| PddlRequirements.PddlNamesValid | ssipp-solver/ext/mgpt/requirements.cc:33-63 | with PPDDL spelling every printed key is a PPDDL requirement key, and the text is empty exactly when the text as written is |
| PddlRequirements.AsWrittenKeysInvalid | ssipp-solver/ext/mgpt/requirements.cc:43-48 | as written, a set negative, disjunctive, existential, universal or conditional flag is printed with an underscore, which is no PPDDL requirement key |
| PddlRequirements.SinglesTextOrder | ssipp-solver/ext/mgpt/requirements.cc:40-50 | the nine single-flag tests print the set keys in their fixed order |
| PddlRequirements.FrontTextJoined | ssipp-solver/ext/mgpt/requirements.cc:35-50 | the if and else of asPDDL print `(:requirements` and then `:adl` or the set single keys |
| PddlRequirements.Requirements.Current | ssipp-solver/ext/mgpt/requirements.cc:5-12 | the flag value holds the object's fields |
| PddlRequirements.Requirements.constructor | ssipp-solver/ext/mgpt/requirements.cc:5-12 | by default only strips is set |
| PddlRequirements.Requirements.QuantifiedPreconditions | ssipp-solver/ext/mgpt/requirements.cc:14-19 | the method's new flags are quantified_preconditions applied to the old ones |
| PddlRequirements.Requirements.Adl | ssipp-solver/ext/mgpt/requirements.cc:21-31 | the method's new flags are the ADL settings applied to the old ones |
| PddlRequirements.Requirements.AsPddl | ssipp-solver/ext/mgpt/requirements.cc:33-63 | asPDDL returns the requirements text of the current flags, with the probabilistic and reward keys left out when ignored and the empty string when no key is printed |
| PddlRequirements.Requirements.PrintFront | ssipp-solver/ext/mgpt/requirements.cc:35-50 | the first part of asPDDL prints the front text of the current flags |
| PddlRequirements.Requirements.PrintSingles | ssipp-solver/ext/mgpt/requirements.cc:40-50 | the else branch appends the set single keys in order |
| PddlRequirements.Append | ssipp-solver/ext/mgpt/requirements.cc:41 | one test appends the key's text exactly when its flag is set |
| Heuristics.MaxCostMeaning | ssipp-solver/heuristics/h_max.h:14-23 | the h-max aggregate is at least 0 and at least the cost of every listed atom, and is 0 or one of those costs |
| Heuristics.MaxCostOrderFree | ssipp-solver/heuristics/h_max.h:14-23 | the h-max aggregate depends on the atoms and not on their order |
| Heuristics.MaxBelow | ssipp-solver/heuristics/h_max.h:14-23 | the maximum over a list is at most the maximum over any list with the same atoms |
| Heuristics.MaxCostSetOfAtoms | ssipp-solver/heuristics/h_max.h:13-24 | the loop over the atom list returns the h-max aggregate of its atoms |
| Heuristics.SumCostConcat | ssipp-solver/heuristics/h_add.h:14-20 | the h-add aggregate of a concatenation is the sum of the two aggregates, so each atom adds exactly its cost |
| Heuristics.InCostsPermuted | ssipp-solver/heuristics/h_add.h:14-20 | a list with the same atoms as one inside the cost table is inside it too |
| Heuristics.SumCostWithout | ssipp-solver/heuristics/h_add.h:14-20 | taking out one atom takes exactly its cost out of the sum |
| Heuristics.SumCostOrderFree | ssipp-solver/heuristics/h_add.h:14-20 | the h-add aggregate does not depend on the order of the atoms |
| Heuristics.SumCostAtLeastMaxCost | ssipp-solver/heuristics/h_add.h:14-20 | with non-negative atom costs h-add is non-negative and at least h-max |
| Heuristics.SumCostSetOfAtoms | ssipp-solver/heuristics/h_add.h:13-21 | the loop over the atom list returns the h-add aggregate of its atoms |
| Heuristics.ComputeValue | ssipp-solver/heuristics/constant_value.h:30 | the constant heuristic gives its value in every state |
| Heuristics.SmartRefinesConstant | ssipp-solver/heuristics/constant_value.h:44-95 | the smart constant heuristic gives the terminal cost at a goal, the dead-end value where no action applies, and the constant elsewhere; the zero heuristics give 0 in every state and in every non-goal state with applicable actions respectively |
| HeurInputs.DimNames | asnets/asnets/heur_inputs.py:63-77 | each generator names exactly as many columns as it adds per action |
| HeurInputs.IsDeadEnd | asnets/asnets/heur_inputs.py:79-88 | only the relaxed dead-end detector and the heuristic generator report a dead end, exactly when the state value reaches the dead-end value |
| HeurInputs.GetExtraData | asnets/asnets/heur_inputs.py:18-48 | a generator with memory fails the assertion exactly when the initial-state flag is missing, or the state is not initial and the previous state or action is missing, and never fails it otherwise; a generator without memory fails only as its own computation does (the heuristic generator, with ValueError, exactly on an enabled action with no outcome); every result row has `extra_dim` entries, one row per enabled-list action except for the counter past the initial state; the enabled and dead-end generators and the initial counter give their columns exactly, the landmark-cut generator gives each action's any-cut, singleton-cut and last-cut flags, the heuristic generator the one-hot row of each action's direction, and the counter past the initial state succeeds exactly when it finds its inputs and then gives the bumped count column |
| HeurInputs.EnabledColumn | asnets/asnets/heur_inputs.py:104-118 | one single-column row per action, in order, holding 1.0 exactly for the enabled actions and 0.0 exactly for the disabled ones |
| HeurInputs.NoColumns | asnets/asnets/heur_inputs.py:137-141 | the relaxed dead-end detector gives one row per action with no column |
| HeurInputs.CutNamesMeaning | asnets/asnets/heur_inputs.py:218-226 | a name is in the any-cut set exactly when some cut holds it, and in the singleton set exactly when some cut is that name alone |
| HeurInputs.CutFlagsImply | asnets/asnets/heur_inputs.py:220-230 | a singleton-cut or last-cut action is in some cut, and with no cuts the last cut is empty |
| HeurInputs.CollectCuts | asnets/asnets/heur_inputs.py:218-226 | the loop over the cuts collects exactly the singleton-cut names and the any-cut names |
| HeurInputs.ActNames | asnets/asnets/heur_inputs.py:231 | the names are the identifiers of the enabled-list actions, in order |
| HeurInputs.FlagCutRow | asnets/asnets/heur_inputs.py:238-243 | row idx gets the three cut flags of its action and no other row changes |
| HeurInputs.LMCutFlags | asnets/asnets/heur_inputs.py:215-244 | one three-column row per action whose flags say whether it is in any cut, in a singleton cut and in the last cut |
| HeurInputs.MinValue | asnets/asnets/heur_inputs.py:306 | the best outcome is the smallest successor value and is one of them |
| HeurInputs.HeuristicFlags | asnets/asnets/heur_inputs.py:293-314 | with every enabled action having an outcome, one four-column row per action that is the one-hot of its direction; an action with no outcome is the ValueError of min and nothing else fails |
| HeurInputs.HeurRowOneHot | asnets/asnets/heur_inputs.py:301-313 | the column set is the disabled one exactly for disabled actions and otherwise decrease, same or increase exactly as the best outcome is below, equal to or above the state value |
| HeurInputs.MaxValue | asnets/asnets/heur_inputs.py:369 | the largest value of a non-empty dictionary, and ValueError for an empty one |
| HeurInputs.CountsMeaning | asnets/asnets/heur_inputs.py:363-377 | counting from zeros, each action's entry is how often it was taken |
| HeurInputs.ActionCountData | asnets/asnets/heur_inputs.py:363-379 | zeros at the initial state; otherwise exactly `CountResult`: the previous count column with one more at the index of the previous action, failing with ValueError for no columns, KeyError for a missing column name and IndexError past the column |
| HeurInputs.CountResult | asnets/asnets/heur_inputs.py:369-379 | past the initial state the counter succeeds exactly when the largest column index exists, the reshape accepts the flat length, the `action_count` column and the previous action are found and the action's index lies inside the column, and then gives that column with one more at the action's index as single-entry rows; every failure is a ValueError, KeyError or IndexError |
| Policies.HashMapDetPolicy.constructor | ssipp-solver/ssps/policy.h:154 | a new policy is defined for no state |
| Policies.HashMapDetPolicy.Action | ssipp-solver/ssps/policy.h:160-166 | the action of a state without an entry is null, and that of a state with one is the stored action |
| Policies.HashMapDetPolicy.Set | ssipp-solver/ssps/policy.h:179 | after set the state is defined and maps to the given action, and every other state keeps its entry |
| Policies.HashMapDetPolicy.Unset | ssipp-solver/ssps/policy.h:172 | unset answers whether the state was defined; afterwards it is not, and every other state keeps its entry |
| Policies.HashMapDetPolicy.Clear | ssipp-solver/ssps/policy.h:173 | after clear no state is defined and every state's action is null |
| SspUtils.DiscoveredWithin | ssipp-solver/ssps/ssp_utils.cc:27-55 | every state the search discovers from the root lies in any set that holds the root and is closed under steps |
| SspUtils.ExtendDiscovery | ssipp-solver/ssps/ssp_utils.cc:35-47 | the new successors of the expanded state extend the discovery order without repeats, and the reachable set stays the set of discovered states |
| SspUtils.AddSuccessors | ssipp-solver/ssps/ssp_utils.cc:39-46 | every successor of the action ends up reachable, and exactly the ones not reachable before are pushed, once each, behind the old queue |
| SspUtils.ExpandState | ssipp-solver/ssps/ssp_utils.cc:35-47 | after expanding a non-goal state every one of its successors is reachable, the old queue is kept and only new successors are pushed |
| SspUtils.ExpandKeepsInvariant | ssipp-solver/ssps/ssp_utils.cc:32-54 | expanding the front state keeps the search invariant and leaves fewer states of the finite universe unreached, or a shorter queue |
| SspUtils.FewerLeft | ssipp-solver/ssps/ssp_utils.cc:41-43 | adding unreached states leaves fewer of the universe unreached, unless nothing was added |
| SspUtils.GoalKeepsInvariant | ssipp-solver/ssps/ssp_utils.cc:32 | popping a goal state without expanding it keeps the search invariant |
| SspUtils.Visit | ssipp-solver/ssps/ssp_utils.cc:29-54 | one iteration of the search keeps its invariant and makes progress |
| SspUtils.SearchDone | ssipp-solver/ssps/ssp_utils.cc:27-62 | once the queue is empty the reachable set is closed under steps and lies inside every closed set holding the root |
| SspUtils.ReachableStatesFrom | ssipp-solver/ssps/ssp_utils.cc:12-63 | the result holds the root, is closed under the successors of applicable actions of its non-goal states, is the least such set, and each state was queued exactly once |
| SspAdaptor.AdaptMeaning | ssipp-solver/ssps/ssp_adaptor.h:81-123 | the adapted SSP starts at the new initial state; a state is a goal when the functor or the original says so; an action is applicable and listed when both allow it and the original lists it; successors are the original's; a positive functor cost and a non-negative functor terminal cost override the original ones |
| SspAdaptor.SameFunctorsChangeNothing | ssipp-solver/ssps/ssp_adaptor.h:194-211 | with the Same functors the adapted SSP answers every query as the original does, apart from the initial state |
| SspAdaptor.FilterKeepsAll | ssipp-solver/ssps/ssp_adaptor.h:101-107 | filtering the applicable actions with a functor that keeps every action leaves the range as it is |
| SspAdaptor.FromTablesMeaning | ssipp-solver/ssps/ssp_adaptor.h:230-313 | with the table functors the states of the goal set become goals, the actions recorded for a state are denied there, and recorded action and terminal costs replace the original ones while every other pair and state keeps its cost |
| ShortSightedSsps.ShortSightedSsp.constructor | ssipp-solver/ssps/short_sighted_ssps.h:72-75 | a new short-sighted SSP wraps the given SSP, initial state and value table and holds no state |
| ShortSightedSsps.ShortSightedSsp.InsertState | ssipp-solver/ssps/short_sighted_ssps.h:209-214 | insertState answers true exactly when the state was not in the space, and only then adds it as an internal state |
| ShortSightedSsps.ShortSightedSsp.SetAsFringe | ssipp-solver/ssps/short_sighted_ssps.h:216-219 | setAsFringe dies outside the space; inside, only the mark of that state changes, to fringe |
| ShortSightedSsps.ShortSightedSsp.SetAsInternal | ssipp-solver/ssps/short_sighted_ssps.h:221-224 | setAsInternal dies outside the space; inside, only the mark of that state changes, to internal |
| ShortSightedSsps.ShortSightedSsp.CountOutside | ssipp-solver/ssps/short_sighted_ssps.cc:669-680 | no violation is counted for an internal state exactly when every successor of each of its applicable actions is in the space |
| ShortSightedSsps.ShortSightedSsp.SatisfiesSufficientConditions | ssipp-solver/ssps/short_sighted_ssps.cc:638-693 | the check answers true exactly when every original goal in the space is a goal of it, the initial state is not an artificial goal, and every successor of an internal state is in the space; it dies when the initial state is not in the space |
| ShortSightedSsps.StatesOf | ssipp-solver/ssps/short_sighted_ssps.cc:47-48 | the states of the queue entries, one per entry, in order |
| ShortSightedSsps.InsertSuccessors | ssipp-solver/ssps/short_sighted_ssps.cc:92-109 | each successor of the action is inserted into the space, and exactly the new ones are pushed one level deeper behind the old queue |
| ShortSightedSsps.ExpandAtDepth | ssipp-solver/ssps/short_sighted_ssps.cc:88-111 | after expanding a state every one of its successors is in the space, the old queue is kept, and the pushed entries are its new successors one level deeper |
| ShortSightedSsps.FringeKeepsDepthInvariant | ssipp-solver/ssps/short_sighted_ssps.cc:77-80 | marking the front entry as fringe when it is at the maximum depth or an original goal keeps the search invariant once it is popped |
| ShortSightedSsps.ExpandKeepsDepthInvariant | ssipp-solver/ssps/short_sighted_ssps.cc:87-112 | expanding any other front entry keeps the search invariant and leaves fewer states of the finite universe outside the space, or a shorter queue |
| ShortSightedSsps.FringeFront | ssipp-solver/ssps/short_sighted_ssps.cc:77-80 | the loop body for a front entry at the maximum depth or at an original goal marks it as fringe and keeps the search invariant |
| ShortSightedSsps.ExpandFront | ssipp-solver/ssps/short_sighted_ssps.cc:87-112 | the loop body for any other front entry pushes its new successors, keeps the search invariant and makes progress |
| ShortSightedSsps.VisitAtDepth | ssipp-solver/ssps/short_sighted_ssps.cc:64-112 | one iteration of the search loop keeps its invariant and makes progress |
| ShortSightedSsps.SearchAtDepth | ssipp-solver/ssps/short_sighted_ssps.cc:47-113 | the breadth-first search from the state keeps the invariant, processes at least the first entry, and with no size limit empties the queue |
| ShortSightedSsps.MarkQueuedFringe | ssipp-solver/ssps/short_sighted_ssps.cc:139-149 | the entries left on the queue when the search stops are all marked fringe |
| ShortSightedSsps.DepthSearchDone | ssipp-solver/ssps/short_sighted_ssps.cc:20-163 | when the queue is empty every goal in the space is fringe, every internal state is a non-goal whose successors are in the space, the initial state is fringe exactly when the depth is 0 or it is a goal, and internal states lie below the maximum depth |
| ShortSightedSsps.NewMaxDepth | ssipp-solver/ssps/short_sighted_ssps.cc:20-163 | newMaxDepth returns a space holding exactly the pushed states, reached breadth first from the state and no deeper than the maximum depth; original goals are goals of it, internal successors are in it, the initial state is no artificial goal exactly when the depth is positive or it is a goal, and without a size limit every fringe state is at the maximum depth or an original goal |
| PlannerSsipp.ToSizeT | ssipp-solver/planners/ssipp.cc:35 | converting an int to size_t keeps a value in range and wraps a negative one around modulo 2^64 |
| PlannerSsipp.CountConfig | ssipp-solver/planners/ssipp.cc:35-40 | a depth or node count is the size_t of atoi of its text and is rejected exactly when that is 0 |
| PlannerSsipp.DepthRangeConfig | ssipp-solver/planners/ssipp.cc:50-60 | the random depth range needs exactly two comma-separated fields and takes the size_t of atoi of each |
| PlannerSsipp.ProbConfig | ssipp-solver/planners/ssipp.cc:71-76 | the trajectory probability is accepted exactly when it lies in (0, 1] |
| PlannerSsipp.MethodConfig | ssipp-solver/planners/ssipp.cc:32-99 | each accepted configuration comes from its own method name, and an unknown name makes init exit |
| PlannerSsipp.FactoryConfig | ssipp-solver/planners/ssipp.cc:25-30 | init exits unless it is given exactly two flags, and exiting is its only failure |
| PlannerSsipp.CountRoundTrip | ssipp-solver/planners/ssipp.cc:35-40 | a printed positive count is read back as itself |
| PlannerSsipp.DepthRangeRoundTrip | ssipp-solver/planners/ssipp.cc:50-60 | two printed depths joined by a comma are read back as the range |
| PlannerSsipp.FactoryRoundTrip | ssipp-solver/planners/ssipp.cc:25-101 | printing a proper configuration as method name and threshold and reading it back gives it again |
| PlannerSsipp.MinProbNames | ssipp-solver/planners/ssipp.cc:65-67 | the three names of the trajectory-probability method are read alike, and accepted exactly when the probability lies in (0, 1] |
| PlannerSsipp.NegativeDepthAcceptedAsWritten | ssipp-solver/planners/ssipp.cc:35-36 | as written, a depth of -3 becomes the size_t 2^64 - 3 and passes the check that rejects non-positive depths; so does the node count of greedy |
| PlannerSsipp.NegativeAtoi | ssipp-solver/planners/ssipp.cc:35 | atoi reads the text -3 as -3 |
| PlannerSsipp.IntendedCountsArePositive | ssipp-solver/planners/ssipp.cc:36-40 | the intended reading, which rejects non-positive signed counts, agrees with the code on every count it accepts, and those counts are the positive integers written |
| PlannerSsipp.ShortSightedSSPFactory.constructor | ssipp-solver/planners/ssipp.h:44 | a new factory is not initialised |
| PlannerSsipp.ShortSightedSSPFactory.Init | ssipp-solver/planners/ssipp.cc:25-101 | init fails exactly when the flags make it exit; otherwise it consumes both flags, sets initialised and stores the configuration read, leaving the other methods' settings alone |
| PlannerSsipp.AlgSettings | ssipp-solver/planners/ssipp.cc:164-177 | the search algorithm is read after the epsilon, with at least three fields left |
| PlannerSsipp.EpsilonSettings | ssipp-solver/planners/ssipp.cc:149-160 | the local epsilon is the field when it reads as a double and the planner's epsilon otherwise, and it must be positive |
| PlannerSsipp.FieldSettings | ssipp-solver/planners/ssipp.cc:135-147 | the ':'-separated fields are accepted only when the first one is empty |
| PlannerSsipp.Parameters | ssipp-solver/planners/ssipp.cc:132-190 | every accepted parameter string gives a positive local epsilon |
| PlannerSsipp.FlagsFree | ssipp-solver/planners/ssipp.cc:133 | no field of a printed factory configuration holds a colon |
| PlannerSsipp.SplitJoined | ssipp-solver/planners/ssipp.cc:133 | splitting colon-free fields joined by colons gives them back |
| PlannerSsipp.AlgRoundTrip | ssipp-solver/planners/ssipp.cc:164-177 | the algorithm name followed by a printed proper configuration is read back |
| PlannerSsipp.ParametersRoundTrip | ssipp-solver/planners/ssipp.cc:132-190 | printing proper settings with their epsilon and reading them back gives them again |
| PlannerSsipp.DefaultEpsilon | ssipp-solver/planners/ssipp.cc:155-160 | without an epsilon field the planner's own epsilon is used, and the parse dies unless it is positive |
| PlannerSsipp.NonEmptyFirstFieldRejected | ssipp-solver/planners/ssipp.cc:135-145 | a parameter string that does not start with a colon is rejected |
| PlannerSsipp.EpsilonAloneUndefined | ssipp-solver/planners/ssipp.cc:151-165 | an epsilon with nothing after it leaves the algorithm to be read from an empty deque, which is undefined |
| PlannerSsipp.PlannerSSiPP.constructor | ssipp-solver/planners/ssipp.h:131-136 | before parsing, the local epsilon is -1, the optimal planner is LRTDP and the factory is not initialised |
| PlannerSsipp.PlannerSSiPP.ParseParameters | ssipp-solver/planners/ssipp.cc:132-190 | parseParameters fails exactly when, and as, the reading of the string does; otherwise it stores the local epsilon, the algorithm and the factory configuration read |
| DetPlanners.Lowered | ssipp-solver/ext/det_planners/externalDetPlannerInterface.h:35-37 | the loop returns the input with every letter lower-cased |
| DetPlanners.UnparsedAction | ssipp-solver/ext/det_planners/externalDetPlannerInterface.h:34-39 | the stored string is the input lower-cased, so it holds no upper-case letter |
| DetPlanners.LowerStringIsLowerCase | ssipp-solver/ext/det_planners/externalDetPlannerInterface.h:36-37 | a lower-cased string holds no upper-case letter |
| DetPlanners.LowerStringIdempotent | ssipp-solver/ext/det_planners/externalDetPlannerInterface.h:34-39 | lower-casing twice is lower-casing once, and a lower-case string is its own lower-cased form |
| DetPlanners.EqCaseIsLowerEquality | ssipp-solver/ext/det_planners/externalDetPlannerInterface.h:44-51 | eqcasestr holds exactly when both strings lower-case to the same string |
| DetPlanners.EqCaseEquivalence | ssipp-solver/ext/det_planners/externalDetPlannerInterface.h:44-51 | eqcasestr is reflexive, symmetric and transitive |
| DetPlanners.HashCaseStr | ssipp-solver/ext/det_planners/externalDetPlannerInterface.h:55-63 | hash_case_str hashes the lower-cased copy of its input |
| DetPlanners.EqCaseHashAlike | ssipp-solver/ext/det_planners/externalDetPlannerInterface.h:55-63 | strings equal under eqcasestr hash alike under hash_case_str, whatever the underlying string hash |
| DetPlanners.FindAfterInsert | ssipp-solver/ext/det_planners/externalDetPlannerInterface.h:82-83 | in the case-insensitive name map a name finds what was stored under any name equal to it up to case, and every other name finds what it found before |
| DetPlanners.ParsedAction.constructor | ssipp-solver/ext/det_planners/externalDetPlannerInterface.cc:336 | a new parsed action has an empty name and no parameter |
| DetPlanners.ParsedAction.PushBackArgument | ssipp-solver/ext/det_planners/externalDetPlannerInterface.h:23-26 | pushing an argument raises the arity by one, makes it the last parameter and keeps the earlier ones |
| DetPlanners.RunEnd | ssipp-solver/ext/det_planners/externalDetPlannerInterface.cc:338 | the run of non-delimiters that starts the text ends at a delimiter or at the end |
| DetPlanners.RunEndOfRun | ssipp-solver/ext/det_planners/externalDetPlannerInterface.cc:338 | a run of non-delimiters ended by a delimiter or by the end is the run strtok takes |
| DetPlanners.TokensAfterDelimiter | ssipp-solver/ext/det_planners/externalDetPlannerInterface.cc:338 | strtok passes over a leading delimiter |
| DetPlanners.SkipDelimiters | ssipp-solver/ext/det_planners/externalDetPlannerInterface.cc:338-343 | strtok's scan stops at the first non-delimiter, or at the end, and the tokens from there are the tokens from where it started |
| DetPlanners.RunFrom | ssipp-solver/ext/det_planners/externalDetPlannerInterface.cc:338-343 | the token strtok takes from a position ends where the run of non-delimiters ends |
| DetPlanners.NextToken | ssipp-solver/ext/det_planners/externalDetPlannerInterface.cc:338-343 | one strtok call returns the first token of the rest of the text and moves past it, or reports that no token is left |
| DetPlanners.ParseAction | ssipp-solver/ext/det_planners/externalDetPlannerInterface.cc:333-347 | the name and the arguments of the parsed action are exactly the tokens of the line split on space, parentheses, carriage return and newline, in order; a line with no token is the null-pointer case |
| DetPlanners.TokensOfUnwords | ssipp-solver/ext/det_planners/externalDetPlannerInterface.cc:338-343 | tokens written out with single spaces are read back as the same tokens |
| DetPlanners.ParseActionRoundTrip | ssipp-solver/ext/det_planners/externalDetPlannerInterface.cc:333-347 | a plan line written as a parenthesised name and arguments parses back to that name and those arguments |
| DetPlanners.PlanLikelihoodStep | ssipp-solver/ext/det_planners/externalDetPlannerInterface.cc:357-365 | one more plan step multiplies the probability by the step's recorded outcome probability, or dies on an unknown name |
| DetPlanners.PlanLikelihoodFailure | ssipp-solver/ext/det_planners/externalDetPlannerInterface.cc:362-363 | the only failure of planProbability is dying on an unknown action name |
| DetPlanners.PlanLikelihoodErrPersists | ssipp-solver/ext/det_planners/externalDetPlannerInterface.cc:357-365 | a plan with a prefix that dies dies too |
| DetPlanners.PlanProbability | ssipp-solver/ext/det_planners/externalDetPlannerInterface.cc:353-367 | the loop returns the product of the recorded probabilities of the plan's actions, or dies on an unknown name |
| DetPlanners.PlanLikelihoodBounds | ssipp-solver/ext/det_planners/externalDetPlannerInterface.cc:353-367 | with recorded probabilities in [0, 1] the probability of a plan lies in [0, 1] and no step raises it |
| DetPlanners.MaxPIsMaximum | ssipp-solver/ext/det_planners/externalDetPlannerInterface.cc:222-234 | the maximum kept by the loop is at least 0 and every probability, and is 0 or one of them |
| DetPlanners.MostLikelyIff | ssipp-solver/ext/det_planners/externalDetPlannerInterface.cc:219-240 | an outcome is kept exactly when its probability is maximal and non-negative and the mass left for the implicit no-op does not exceed it |
| DetPlanners.KeepIfLikely | ssipp-solver/ext/det_planners/externalDetPlannerInterface.cc:225-233 | one pass of the selection loop keeps the running maximum and the set of outcomes that reach it |
| DetPlanners.MostLikely | ssipp-solver/ext/det_planners/externalDetPlannerInterface.cc:219-240 | the selection loop returns the most-likely set |
| DetPlanners.Emitted | ssipp-solver/ext/det_planners/externalDetPlannerInterface.cc:242-270 | every emitted outcome index is an outcome of the action |
| DetPlanners.EmittedIff | ssipp-solver/ext/det_planners/externalDetPlannerInterface.cc:242-270 | the emitted outcomes are exactly the chosen ones whose printed effect contains an opening parenthesis, in increasing order |
| DetPlanners.EmitOutcomes | ssipp-solver/ext/det_planners/externalDetPlannerInterface.cc:242-270 | the emission loop records each emitted outcome under its name with its probability and schema |
| DetPlanners.OutcomeNamesDiffer | ssipp-solver/ext/det_planners/externalDetPlannerInterface.cc:259 | the names of two different outcomes of one schema differ, even up to case |
| DetPlanners.RegisteredFind | ssipp-solver/ext/det_planners/externalDetPlannerInterface.cc:259-268 | after the emission loop the name of every emitted outcome finds its probability and schema |
| DetPlanners.ExecutionTrace | ssipp-solver/ext/det_planners/externalDetPlannerInterface.cc:419-600 | the trace entries are pushed after those already in the trace, as the likelihood-bounded trace of the plan gives them |
| DetPlanners.TraceEntry | ssipp-solver/ext/det_planners/externalDetPlannerInterface.cc:446-458 | each trace entry carries the probability of the plan up to that step, and it is at least the cutoff |
| DetPlanners.TraceStop | ssipp-solver/ext/det_planners/externalDetPlannerInterface.cc:451-458 | the trace stops before the first step that takes the probability below the cutoff, or at the end of the plan |
| DetPlanners.TraceMeetsCutoff | ssipp-solver/ext/det_planners/externalDetPlannerInterface.cc:419-600 | the trace is no longer than the plan, every entry meets the cutoff and carries the probability of its prefix, a full trace ends with the plan's probability, and a short one stops just before the step that falls below the cutoff |
| MdpsimParser.LookupInnermost | mdpsim/parser.cc:120-129 | a binding in an inner frame shadows every outer one |
| MdpsimParser.LookupAbsent | mdpsim/parser.cc:120-129 | find reports nothing exactly when no frame binds the name |
| MdpsimParser.Bind | mdpsim/parser.cc:107-109 | a std::map insert binds a new name and leaves a bound name and every other binding as they were |
| MdpsimParser.LookupAfterInsert | mdpsim/parser.cc:107-129 | after an insert the name is found, bound to the new variable unless the innermost frame bound it already, and every other name is found as before |
| MdpsimParser.LookupAfterPush | mdpsim/parser.cc:99-105 | a new empty frame hides no binding, and popping it gives the frames back |
| MdpsimParser.Context.constructor | mdpsim/parser.cc:135 | a new context has no frame |
| MdpsimParser.Context.PushFrame | mdpsim/parser.cc:99-101 | push_frame adds an empty innermost frame |
| MdpsimParser.Context.PopFrame | mdpsim/parser.cc:103-105 | pop_frame drops the innermost frame |
| MdpsimParser.Context.Insert | mdpsim/parser.cc:107-109 | insert binds the name in the innermost frame unless it is bound there already |
| MdpsimParser.Context.ShallowFind | mdpsim/parser.cc:111-118 | shallow_find finds a name exactly when the innermost frame binds it, and then finds what find finds |
| MdpsimParser.Context.Find | mdpsim/parser.cc:120-129 | the loop searches the frames from the innermost out and returns the first binding |
| MdpsimParser.Diagnostics.Error | mdpsim/parser.cc:3564-3568 | yyerror records the message and marks the parse as failed |
| MdpsimParser.Diagnostics.Warning | mdpsim/parser.cc:3572-3580 | yywarning records the message only above warning level 0 and fails the parse only above level 1 |
| MdpsimParser.LastMarker | mdpsim/parser.cc:3788-3792 | the scan back from the top of the stack stops at the last marker, past variables only |
| MdpsimParser.Vars | mdpsim/parser.cc:3794-3796 | the parameters are the variables of the entries after the marker, in order |
| MdpsimParser.VarTerms | mdpsim/parser.cc:3998-3999 | each variable of a quantifier is pushed as one entry |
| MdpsimParser.MarkersBeforeLast | mdpsim/parser.cc:3797 | cutting the stack at the last marker removes exactly one marker |
| MdpsimParser.ScopeRoundTrip | mdpsim/parser.cc:3775-3799 | a quantifier opened on a stack and given variables closes back to that stack, with exactly those variables as parameters |
| MdpsimParser.MakeSubtractionValue | mdpsim/parser.cc:4122-4129 | the expression built evaluates to the difference of its operands, or to the negation of the one operand |
| MdpsimParser.OutcomeBelowSum | mdpsim/parser.cc:3820-3823 | with non-negative probabilities every outcome's probability is at most their sum |
| MdpsimParser.Parser.AssumeRequirement | mdpsim/parser.cc:3629-3661 | `require_typing`, `require_fluents`, `require_disjunction` and `require_conditional_effects` (and the same step inlined elsewhere): an undeclared requirement is warned about and assumed; a declared one changes nothing |
| MdpsimParser.Parser.OpenScope | mdpsim/parser.cc:3780-3781 | opening a quantifier pushes a context frame and a marker |
| MdpsimParser.Parser.PrepareForallEffect | mdpsim/parser.cc:3775-3782 | prepare_forall_effect assumes conditional effects and opens a quantifier scope; the "assuming" warning is added only when the requirement was undeclared and the warning level is above 0, no message is added when it was declared, and the parse fails only for an undeclared requirement above warning level 1 |
| MdpsimParser.Parser.PrepareExists | mdpsim/parser.cc:4195-4202 | prepare_exists assumes existential preconditions and opens a quantifier scope; the "assuming" warning is added only when the requirement was undeclared and the warning level is above 0, no message is added when it was declared, and the parse fails only for an undeclared requirement above warning level 1 |
| MdpsimParser.Parser.PrepareForall | mdpsim/parser.cc:4206-4213 | prepare_forall assumes universal preconditions and opens a quantifier scope; the "assuming" warning is added only when the requirement was undeclared and the warning level is above 0, no message is added when it was declared, and the parse fails only for an undeclared requirement above warning level 1 |
| MdpsimParser.Parser.CloseScope | mdpsim/parser.cc:3787-3797 | closing a quantifier pops its frame, returns the variables after the last marker and cuts the stack back to before that marker |
| MdpsimParser.Parser.MakeForallEffect | mdpsim/parser.cc:3786-3799 | make_forall_effect closes the scope and quantifies the effect over its variables |
| MdpsimParser.Parser.MakeExists | mdpsim/parser.cc:4217-4235 | make_exists closes the scope and returns `Exists::make` of the body over its variables (which gives back a body of known truth value), or the body itself when none was bound; the result keeps the body's truthiness |
| MdpsimParser.Parser.MakeForall | mdpsim/parser.cc:4239-4257 | make_forall closes the scope and returns `Forall::make` of the body over its variables (which gives back a body of known truth value), or the body itself when none was bound; the result keeps the body's truthiness |
| MdpsimParser.Parser.AddVariable | mdpsim/parser.cc:3990-4002 | a parameter is bound in the innermost frame and pushed as a quantified variable, or becomes an action parameter outside quantifiers; a repetition in the same frame is an error, a name bound only in an outer frame is the warning "shadowing parameter", recorded above warning level 0 and failing the parse above level 1, and a fresh name raises nothing |
| MdpsimParser.Parser.AddOutcome | mdpsim/parser.cc:3803-3814 | add_outcome appends the outcome either way; the messages are the "assuming `:probabilistic-effects'" warning (only when undeclared and above warning level 0) followed by the interval error exactly when the probability lies outside [0, 1]; the parse still succeeds exactly when it did, the probability lies in [0, 1], and the requirement was declared or the warning level is at most 1 |
| MdpsimParser.Parser.MakeProbEffect | mdpsim/parser.cc:3818-3833 | outcomes adding up to more than 1 are an error and give the empty effect; otherwise the probabilistic effect of the outcomes is built with no message |
| MdpsimParser.Parser.MakePredicate | mdpsim/parser.cc:3719-3729 | a new predicate is declared silently; a repeated one is flagged and warned about as ignored |
| MdpsimParser.Parser.MakeFunction | mdpsim/parser.cc:3733-3749 | a new function is declared silently; a repeated one is flagged, and its warning calls it reserved for `total-time`, `goal-achieved` and (with rewards) `reward`, repeated otherwise |
| MdpsimParser.Parser.MakeAction | mdpsim/parser.cc:3753-3757 | make_action opens an empty frame for the action's parameters and makes the action current |
| MdpsimParser.Parser.AddAction | mdpsim/parser.cc:3761-3771 | add_action closes the action's frame and declares it, warning that a repeated declaration is ignored; no action is current afterwards |
| MdpsimParser.Parser.MakeTerm | mdpsim/parser.cc:3685-3715 | a `?` name is the innermost binding; an unbound one is the error "free variable" and binds a new variable (undefined behaviour with no frame); any other name is its object, an unknown one declared implicitly with a warning; a bound `?` name and a known object leave the frames, the objects, the messages and the success flag as they were; afterwards the name resolves to the term returned |
| MdpsimParser.Parser.PrepareAtom | mdpsim/parser.cc:4011-4026 | an unknown predicate is declared and flagged, with the warning "undeclared predicate ... used" in a problem and "implicit declaration of predicate" in a domain |
| MdpsimParser.Parser.PrepareFluent | mdpsim/parser.cc:4030-4056 | an unknown function is declared with the same warnings; `reward` outside an effect or the metric and `total-time`/`goal-achieved` outside the metric are errors; any other function assumes `:fluents` |
| MdpsimParser.Parser.MakeAtom | mdpsim/parser.cc:4090-4102 | too many or too few terms for the predicate's arity is an error, the right number none; the atom of the predicate over the terms is built either way |
| MdpsimParser.Parser.MakeFluent | mdpsim/parser.cc:4106-4118 | the same arity check for a function, building the fluent either way |
| MdpsimParser.Parser.MakeAddEffect | mdpsim/parser.cc:3837-3840 | an add effect of the atom, whose predicate becomes dynamic |
| MdpsimParser.Parser.MakeDeleteEffect | mdpsim/parser.cc:3844-3847 | a delete effect of the atom, whose predicate becomes dynamic |
| MdpsimParser.Parser.MakeUpdateEffect | mdpsim/parser.cc:3851-3921 | with rewards the reward fluent may only be increased or decreased by a constant, anything else being an error; other fluents assume `:fluents`; the function becomes dynamic and the effect flag is cleared |
| MdpsimParser.Parser.MakeEquality | mdpsim/parser.cc:4148-4168 | assumes `:equality`; two expressions give `EqualTo::make`, two terms `Equality::make` if their types are comparable and FALSE if not, a term against an expression an error and FALSE; the result is undecided only for a non-constant comparison or two distinct comparable terms |
| MdpsimParser.Parser.MakeNegation | mdpsim/parser.cc:4172-4183 | negating an atom assumes `:negative-preconditions`, a numeric comparison `:disjunctive-preconditions`, anything else nothing; the result is `Negation::make`, of negated truthiness |
| MdpsimParser.Parser.MakeImplication | mdpsim/parser.cc:4187-4191 | assumes `:disjunctive-preconditions` and builds `!f1 or f2`, whose truthiness is that of the implication |
| MdpsimParser.Parser.SetGoalReward | mdpsim/parser.cc:4261-4269 | without `:rewards` an error that changes nothing else; with it the goal increases the reward fluent by the amount, and the reward function becomes dynamic |
| MdpsimParser.Parser.SetDefaultMetric | mdpsim/parser.cc:4273-4281 | the default metric is the reward with rewards, `goal-achieved` with probabilistic effects, and otherwise `total-time`, the only one negated |
| MdpsimParser.AcceptedOutcomesDistribution | mdpsim/parser.cc:3803-3833 | outcomes that passed both checks form a distribution, each at most the total |
| Build.CleanStep | ssipp-solver/build.py:295-301 | a `.` component keeps the list, a `..` component drops the last kept one and fails on an empty list, and any other component is appended |
| Build.CleanPath | ssipp-solver/build.py:288-304 | the loop returns what cleaning the split path gives, joined with `/`, or its IndexError |
| Build.CleanPartsFailure | ssipp-solver/build.py:298-299 | the only way cleaning fails is the IndexError of popping the empty list |
| Build.CleanPartsKeep | ssipp-solver/build.py:295-301 | every kept component is neither `.` nor `..` |
| Build.CleanPathIdempotent | ssipp-solver/build.py:288-304 | a cleaned path has no `.` or `..` component, and cleaning it again returns it unchanged |
| Build.CleanPartsSubset | ssipp-solver/build.py:295-301 | every kept component is one of the components of the path |
| Build.LeadingParentFails | ssipp-solver/build.py:298-299 | a path that starts with the component `..` makes cleanPath pop from an empty list |
| Build.ObjNameOfSource | ssipp-solver/build.py:281-285 | a `.cc`, `.c` or `.h` file names the object file of the same stem |
| Build.WordEnd | ssipp-solver/build.py:317 | the run of non-whitespace that starts the text ends within it |
| Build.CollectDependencies | ssipp-solver/build.py:317-324 | the loop over the words after the target returns the set of their cleaned forms, the lone-backslash words left out, or the first IndexError |
| Build.RuleDependenciesErrPersists | ssipp-solver/build.py:320-323 | once a word fails to clean, the whole rule fails with the IndexError |
| Build.RuleDependenciesAre | ssipp-solver/build.py:318-323 | a path is a dependency exactly when some word other than a lone backslash cleans to it |
| Build.GenerateDependency | ssipp-solver/build.py:307-324 | a failed compiler call reports failure; otherwise the dependencies are exactly the cleaned words of the rule after its target, and the only error is the IndexError of cleanPath |
| Build.LinkObjectOfSource | ssipp-solver/build.py:145-159 | a `.cc` or `.c` dependency contributes the object of its stem; a header contributes that object only when a `.cc` or `.c` file of its stem exists, and is header-only otherwise |
| Build.RankedIsNeeded | ssipp-solver/build.py:134-167 | every object the search has found is needed by the main object through the dependency table |
| Build.AddFound | ssipp-solver/build.py:160-163 | putting a new contributed object in front of the stack and of the result keeps the search state |
| Build.ProcessObject | ssipp-solver/build.py:145-167 | processing a popped object pushes every new object its dependencies contribute, or fails with AssertionError when one of its dependencies is missing |
| Build.Pop | ssipp-solver/build.py:140-144 | a popped object was found already, and one with no recorded dependencies keeps the search state |
| Build.Visit | ssipp-solver/build.py:139-167 | one iteration of the search keeps its state and finds a new object or shrinks the stack, or fails on a missing dependency of a needed object |
| Build.Exhausted | ssipp-solver/build.py:139 | with nothing left on the stack the objects found are closed under the dependency table, all needed, none missing a dependency, and every needed object is among them |
| Build.Phase2FindObjectsForLinkage | ssipp-solver/build.py:134-167 | the result lists distinct objects ending with the main object and holds exactly the objects the main object needs, closed under the dependency table; the only failure is the assertion on a missing dependency of a needed object |
| Utils.SplitString | ssipp-solver/utils/utils.cc:76-93 | the loop over `find` returns exactly the pieces of the spec `Split`: a process exit unless the delimiter is one character, no piece for an empty string |
| Utils.PiecesStep | ssipp-solver/utils/utils.cc:86-90 | one round of the `find` loop: the piece before the next delimiter, pushed after the pieces so far, keeps them followed by the pieces of the rest equal to all pieces of the string |
| Utils.PiecesProperties | ssipp-solver/utils/utils.cc:84-92 | there is one piece more than delimiter occurrences, no piece holds the delimiter, and joining the pieces with the delimiter gives the string back |
| Utils.JoinPieces | ssipp-solver/utils/utils.cc:84-92 | splitting a join of delimiter-free pieces gives the same pieces back |
| Utils.TrimString | ssipp-solver/utils/utils.h:231-244 | the two `find_*_not_of` cuts give the spec `Trimmed`: blanks cut on both ends when a non-blank character exists, the string unchanged otherwise |
| Utils.TrimmedEnds | ssipp-solver/utils/utils.h:231-244 | a trimmed string with a non-blank character is non-empty, starts and ends with a non-blank character and is no longer than the original |
| Utils.TrimIdempotent | ssipp-solver/utils/utils.h:231-244 | trimming twice is trimming once |
| Utils.Rand0ToN | ssipp-solver/utils/utils.h:222 | the draw reduced modulo a positive `n` lies in `[0, n)` |
| Utils.RandInIntervalBounds | ssipp-solver/utils/utils.h:223-225 | for `min <= max` the draw lands in `[min, max]`; the computation fails exactly when the interval is all of `size_t`, whose width wraps to 0 |
| Utils.RandInIntervalReaches | ssipp-solver/utils/utils.h:223-225 | every point of the interval is drawn by some draw |
| Words.TestMask | ssipp-solver/ext/mgpt/atom_states.h:180-196 | and-ing a word with the mask of bit j is non-zero exactly when bit j is set |
| Words.SetBit | ssipp-solver/ext/mgpt/atom_states.h:200-210 | or-ing in the mask of bit j sets bit j and leaves every other bit |
| Words.ClearBit | ssipp-solver/ext/mgpt/atom_states.h:212-222 | and-ing with the complement of the mask of bit j clears bit j and leaves every other bit |
| PyOps.StrLessTotal | asnets/asnets/prob_dom_meta.py:64-76 | Python's less-than on strings is total: of two strings one is smaller or they are equal |
| PyOps.StrLessTransitive | asnets/asnets/prob_dom_meta.py:64-76 | Python's less-than on strings is transitive |
| PyOps.SortByKeyCorrect | asnets/asnets/prob_dom_meta.py:865 | list.sort by a string key leaves the keys in order and only permutes the items |
| PyOps.SortByKeysCorrect | asnets/asnets/models.py:719 | sorting by a tuple-of-strings key leaves the keys in order and only permutes the items |
| PyOps.DedupProperties | asnets/asnets/prob_dom_meta.py:797-804 | skipping items already seen keeps the same items, each once |
| PyOps.DedupFromOfDistinct | asnets/asnets/prob_dom_meta.py:797-804 | a list without repetitions is left as it is |
| PyOps.FilterMembers | asnets/asnets/prob_dom_meta.py:580-582 | a comprehension with a condition keeps exactly the items that satisfy it |
| PyOps.FilterStrictlySorted | asnets/asnets/prob_dom_meta.py:580-582 | a comprehension keeps its source's order, so a strictly sorted list stays strictly sorted |
| PyOps.FirstIndexMeaning | asnets/asnets/prob_dom_meta.py:685 | list.index finds the first position holding the item and raises ValueError when there is none |
| PyOps.LastIndexMeaning | asnets/asnets/prob_dom_meta.py:533-536 | a dictionary built over an enumeration maps a key to its last position, and a missing key is a KeyError |
| ProbDomMeta.PropEqIsEquality | asnets/asnets/prob_dom_meta.py:39-62 | for names without spaces, two propositions have the same identifier exactly when predicate and arguments agree |
| ProbDomMeta.PropEqIgnoresStructure | asnets/asnets/prob_dom_meta.py:47-62 | a predicate name holding a space makes two different propositions compare equal |
| ProbDomMeta.PropOrder | asnets/asnets/prob_dom_meta.py:50-84 | less-than on ground propositions by identifier is irreflexive, transitive and total up to equality |
| ProbDomMeta.BindParamsMeaning | asnets/asnets/prob_dom_meta.py:125-136 | binding succeeds exactly when every parameter is a constant or a bound '?' parameter; each argument is then the constant or its binding, and a failure comes from an unbindable parameter, the first one |
| ProbDomMeta.BindPropMeaning | asnets/asnets/prob_dom_meta.py:110-137 | bind keeps the predicate, gives one argument per parameter, and fails with ValueError on a '?' parameter that has no binding |
| ProbDomMeta.BindParamsLocal | asnets/asnets/prob_dom_meta.py:126-135 | only the bindings of the proposition's own '?' parameters matter |
| ProbDomMeta.SchemaOrder | asnets/asnets/prob_dom_meta.py:313-327 | schemas order by name then parameters, a strict order under which schemas differing only in relevant propositions are unordered |
| ProbDomMeta.ActOrder | asnets/asnets/prob_dom_meta.py:213-239 | less-than on ground actions by identifier is irreflexive, transitive and total up to equality |
| ProbDomMeta.ZipMeaning | asnets/asnets/prob_dom_meta.py:351 | dict(zip(names, args)) binds exactly the names that have an argument at their position |
| ProbDomMeta.ZipDistinct | asnets/asnets/prob_dom_meta.py:351 | with distinct names each bound name gets the argument at its own position |
| ProbDomMeta.BindPropsMeaning | asnets/asnets/prob_dom_meta.py:352 | the relevant propositions bind one by one, in order, and fail when one of them fails |
| ProbDomMeta.BindActionMeaning | asnets/asnets/prob_dom_meta.py:337-353 | an argument that is neither a list nor a str is a TypeError; otherwise the ground action has the schema as prototype, the schema name and the arguments joined by single spaces as identifier, and one bound proposition per slot |
| ProbDomMeta.BindNoArguments | asnets/asnets/prob_dom_meta.py:204-211 | with no arguments the identifier is the bare schema name |
| ProbDomMeta.BindActionSubstitutes | asnets/asnets/prob_dom_meta.py:351-352 | with distinct parameter names, a slot's parameter that is the i-th schema parameter takes the i-th argument |
| ProbDomMeta.RelPredNames | asnets/asnets/prob_dom_meta.py:423-438 | one predicate name per slot, that of the slot's proposition, duplicates kept |
| ProbDomMeta.SlotPositionsMeaning | asnets/asnets/prob_dom_meta.py:406-411 | the nested loop visits exactly the matching slots from a given position on, in increasing order |
| ProbDomMeta.RelActSlotsMeaning | asnets/asnets/prob_dom_meta.py:391-421 | rel_act_slots lists exactly the schema and slot pairs whose slot predicate is the given one, in schema and then slot order |
| ProbDomMeta.RelActSlotsMembers | asnets/asnets/prob_dom_meta.py:391-421 | a pair is listed exactly when the schema is the domain's, the slot exists and its predicate is the given one |
| ProbDomMeta.MakeProblemMeta | asnets/asnets/prob_dom_meta.py:511-539 | construction succeeds exactly when every goal is among the propositions, keeping the given orders |
| ProbDomMeta.SchemaToActsMeaning | asnets/asnets/prob_dom_meta.py:569-582 | schema_to_acts holds exactly the problem's actions of that schema and keeps strict identifier order |
| ProbDomMeta.PredToPropsMeaning | asnets/asnets/prob_dom_meta.py:584-598 | pred_to_props holds exactly the problem's propositions of that predicate and keeps strict identifier order |
| ProbDomMeta.SubtensorIndSound | asnets/asnets/prob_dom_meta.py:670-702 | the subtensor index points at the first entry equal to the argument, and a missing one is a ValueError |
| ProbDomMeta.PropSubtensorIndInverts | asnets/asnets/prob_dom_meta.py:670-685 | with propositions in strict order the i-th proposition of a predicate has index i |
| ProbDomMeta.ActSubtensorIndInverts | asnets/asnets/prob_dom_meta.py:687-702 | with actions in strict order the i-th action of a schema has index i |
| ProbDomMeta.NameLookupsMeaning | asnets/asnets/prob_dom_meta.py:704-743 | both name lookups find exactly the known identifiers, give an entry with that identifier, and raise KeyError otherwise |
| ProbDomMeta.ActIndexInverts | asnets/asnets/prob_dom_meta.py:533-536 | with actions in strict order act_unique_id_to_index maps the identifier of the i-th action back to i |
| ProbDomMeta.ActsWithPropAtMeaning | asnets/asnets/prob_dom_meta.py:659-664 | the inner loop keeps, in order, exactly the schema's actions whose proposition in the slot equals the argument, and fails with IndexError on an action lacking the slot |
| ProbDomMeta.SlotsActsMeaning | asnets/asnets/prob_dom_meta.py:656-668 | one triple per slot pair, holding the matching ground actions; well-formed actions never fail |
| ProbDomMeta.ProblemRelActSlotsMeaning | asnets/asnets/prob_dom_meta.py:641-668 | one triple per domain slot of the proposition's predicate, listing exactly the schema's ground actions whose slot proposition is the argument; failure only on an action lacking the slot |
| ProbDomMeta.MakeUnboundActionMeaning | asnets/asnets/prob_dom_meta.py:784-805 | the schema keeps name and parameters and holds each involved proposition exactly once, in order of first appearance |
| ProbDomMeta.MakeBoundProp | asnets/asnets/prob_dom_meta.py:762-781 | the proposition is built from the predicate and terms exactly when no term is a free '?' variable, and is an AssertionError otherwise |
| ProbDomMeta.BuildPropsMeaning | asnets/asnets/prob_dom_meta.py:857-863 | propositions in problem order and the goals among them in problem order, failing exactly when a term is free |
| ProbDomMeta.BuildActsMeaning | asnets/asnets/prob_dom_meta.py:869-880 | the actions pass exactly when each binds, has its propositions among the problem's and has a schema of the domain |
| ProbDomMeta.BuildActsValues | asnets/asnets/prob_dom_meta.py:869-872 | on success the actions are the bound inputs, in problem order |
| ProbDomMeta.GetProblemMetaSucceeds | asnets/asnets/prob_dom_meta.py:837-885 | get_problem_meta returns exactly when every check passes, and a different domain fails the first check |
| ProbDomMeta.GetProblemMetaResult | asnets/asnets/prob_dom_meta.py:857-885 | on success propositions and actions are sorted permutations of the problem's, goals stay in problem order among the propositions, and every action's propositions and schema are known |
| ProbDomMeta.UnknownSchemaFailure | asnets/asnets/prob_dom_meta.py:878-880 | as written an action of an unknown schema raises AttributeError from the message, and an AssertionError once the message names the attribute that exists |
| ProbDomMeta.AllRelPropsMembers | asnets/asnets/prob_dom_meta.py:454-456 | the loops visit a lifted proposition exactly when some schema lists it among its relevant propositions |
| ProbDomMeta.CollectUnboundPropsMeaning | asnets/asnets/prob_dom_meta.py:442-461 | the list of all_unbound_props is the visited propositions without repeats, in order of first visit, and the dictionary maps each predicate to the last entry of that list with that predicate |
| ProbDomMeta.UnboundPropByNameMeaning | asnets/asnets/prob_dom_meta.py:463-473 | unbound_prop_by_name succeeds exactly for a predicate some schema's relevant propositions use, returning the last entry of the list with that predicate, and raises KeyError otherwise |
| Models.WeightsFitForward | asnets/asnets/models.py:93-103 | the input width allocated for each action block, and for each proposition block, equals the width of the convolution input the forward pass assembles: one channel per relevant predicate or per relevant slot pair, plus the extra channels |
| Models.ActBlocks | asnets/asnets/models.py:93-138 | one weight block per schema, in domain order |
| Models.PropBlocks | asnets/asnets/models.py:143-192 | one weight block per predicate, in domain order |
| Models.HiddenBlocksCount | asnets/asnets/models.py:88-194 | each hidden layer adds one weight pair per schema and one per predicate |
| Models.PropNetworkWeights.constructor | asnets/asnets/models.py:27-36 | the weight manager keeps the domain, the hidden sizes, the extra width and the skip flag |
| Models.PropNetworkWeights.ActLayer | asnets/asnets/models.py:92-140 | the loop fills the action dictionary of layer k with one block per schema of the width the layer rule gives, in domain order |
| Models.PropNetworkWeights.PropLayer | asnets/asnets/models.py:143-194 | the loop fills the predicate dictionary of hidden layer k, failing the assertion exactly when some predicate has no relevant slot |
| Models.PropNetworkWeights.MakeWeights | asnets/asnets/models.py:74-240 | len(hidden)+1 action layers and len(hidden) proposition layers, every block of the width its layer rule gives, all_weights in allocation order; the assertion fails exactly when there is a hidden layer and a predicate without relevant slot |
| Models.PropNetworkWeights.AddHiddenLayer | asnets/asnets/models.py:74-240 | one turn of the hidden-layer loop: layer k's action and proposition weights are appended, with their blocks, after those of the layers before it; the assertion fails exactly when a predicate has no relevant slot |
| Models.Variable | asnets/asnets/models.py:157-169 | a variable whose declared shape differs from its initial value's shape is a ValueError, and otherwise is that value |
| Models.RestorePropBlockAsWrittenFails | asnets/asnets/models.py:156-169 | as written, restoring a proposition block succeeds exactly when the layer's action and proposition widths coincide |
| Models.RestorePropBlockMatchesFresh | asnets/asnets/models.py:156-190 | declaring the restored shapes with the proposition width gives the block the fresh branch builds |
| Models.EncodeThenDecode | asnets/asnets/models.py:424-456 | every mask, extra-data and proposition position lies inside the input and decodes back to itself |
| Models.DecodeThenEncode | asnets/asnets/models.py:424-456 | every input position decodes to a valid mask, extra-data or proposition position that encodes back to it |
| Models.DecodeExtra | asnets/asnets/models.py:449-452 | each entry of the extra-data region reshapes to an action row and a data column |
| Models.GoalFlags | asnets/asnets/models.py:460-463 | one goal flag per proposition |
| Models.ObsGoalsMeaning | asnets/asnets/models.py:460-467 | the three assertions pass exactly when the flags count the goals and some but not all propositions are goals; then there are fewer goals than propositions and at least one |
| Models.PositionsOfMembers | asnets/asnets/models.py:350-363 | members of a strictly ordered list are found at positions holding them |
| Models.PredGatherMeaning | asnets/asnets/models.py:358-374 | a predicate gathers, in order, the flat positions of its propositions, and gets the zero placeholder exactly when it has none |
| Models.ExtraGatherMeaning | asnets/asnets/models.py:389-411 | a schema gathers, in order, the positions of its ground actions, and gets the zero placeholder exactly when it has none |
| Models.SplitInputMeaning | asnets/asnets/models.py:345-378 | _split_input has an entry for exactly the predicates, each the one its gather describes |
| Models.SplitExtraMeaning | asnets/asnets/models.py:380-415 | _split_extra has an entry for exactly the schemas, each the one its gather describes; the gather reads the schema's actions in list order, which is the order the sort by `act_to_schema_subtensor_ind` keeps, since that key is each action's own position (ProbDomMeta.ActSubtensorIndInverts) |
| Models.IndexMapMeaning | asnets/asnets/models.py:720-723 | the index dictionary holds exactly the keys, maps each to a position holding it, and for distinct keys to its own position |
| Models.KeysOf | asnets/asnets/models.py:719-724 | one key per item |
| Models.ValuesOf | asnets/asnets/models.py:724 | one tensor per item |
| Models.SortInputsMeaning | asnets/asnets/models.py:715-725 | the items are sorted by key and only permuted, and the dictionary maps exactly the keys, each to the position of its own tensor |
| Models.KeysOrder | asnets/asnets/models.py:719 | comparing the dictionary keys compares the predicate names, or the schemas by name and parameters |
| Models.ActPoolsMeaning | asnets/asnets/models.py:584-593 | the pool of each ground action is the subtensor index of its proposition in the slot |
| Models.ActSpecEntriesMeaning | asnets/asnets/models.py:583-597 | slot j's entry names the sorted input of slot j's predicate with one pool per ground action; KeyError exactly when a predicate has no input |
| Models.ActModuleGatherMeaning | asnets/asnets/models.py:567-597 | an action module gets the dummy input exactly when its schema has no ground actions, and otherwise reads for slot j the tensor of its j-th predicate at each action's j-th proposition; KeyError exactly when a predicate has no input |
| Models.MatchingActsMembers | asnets/asnets/models.py:654-658 | the comprehension collects exactly the ground actions listed under the given schema and slot |
| Models.SubtensorIndsMeaning | asnets/asnets/models.py:659-662 | each action of a schema is mapped to its position within the schema's actions |
| Models.MatchingActsMeaning | asnets/asnets/models.py:653-658 | the actions listed under a schema and slot are exactly the schema's actions holding the proposition in that slot |
| Models.PropPoolMeaning | asnets/asnets/models.py:651-663 | a proposition's pool holds exactly the schema positions of the actions holding it in that slot |
| Models.PropPoolsMeaning | asnets/asnets/models.py:650-663 | one such pool per proposition of the predicate, in order |
| Models.PropSpecEntriesMeaning | asnets/asnets/models.py:647-666 | one entry per relevant slot naming the schema's sorted input; KeyError exactly when a schema has no input |
| Models.PropModuleGatherMeaning | asnets/asnets/models.py:641-666 | a proposition module gets the dummy input exactly when its predicate has no propositions, and otherwise one pool per proposition and slot holding the actions that list it there |
| Models.GatherListMeaning | asnets/asnets/models.py:765-773 | the gather list has one index per ground action, in action order, and fails when one of them fails |
| Models.CumulSizeIsLength | asnets/asnets/models.py:758-763 | each cumulative size is the number of actions of the schemas before it |
| Models.ConcatCount | asnets/asnets/models.py:777-779 | the concatenated scores hold one entry per ground action when every schema appears once |
| Models.FinalOrderMeaning | asnets/asnets/models.py:749 | the schemas are sorted, each once, and are exactly the domain's |
| Models.GatherIndexMeaning | asnets/asnets/models.py:766-773 | each ground action's index is in range and picks its own score from the concatenation |
| Models.MergeFinalsMeaning | asnets/asnets/models.py:747-785 | with known schemas _merge_finals succeeds, each action takes its own entry below num_acts, and no entry is taken twice |
| Models.MergeFinalsNeedsKnownSchemas | asnets/asnets/models.py:766-768 | _merge_finals succeeds only when every action's schema is one of the domain's |
| Supervised.CounterAdd | asnets/asnets/supervised.py:54 | counting an element once more adds one to its count, or makes it a new key with count 1 |
| Supervised.UpdateKeys | asnets/asnets/supervised.py:54 | a counter's keys are its elements in the order they first appeared |
| Supervised.CountsOf | asnets/asnets/supervised.py:88 | one count per key, in key order, each the multiplicity of its key |
| Supervised.ReplayBuffer.constructor | asnets/asnets/supervised.py:43-45 | a new buffer is an empty counter |
| Supervised.ReplayBuffer.Update | asnets/asnets/supervised.py:47-54 | update counts every new element once more and the new elements join the keys in order of first appearance |
| Supervised.ReplayBuffer.LenIsDistinctCount | asnets/asnets/supervised.py:56-62 | len is the number of distinct elements added so far |
| Supervised.ReplayBuffer.FullDataset | asnets/asnets/supervised.py:80-89 | get_full_dataset gives the distinct elements, each once, with its multiplicity at the same position |
| Supervised.FilterEnvelope | asnets/asnets/supervised.py:478-486 | the filtered envelope keeps, in order, exactly the pairs whose state has more than one enabled action |
| Supervised.NumEnabledCounts | asnets/asnets/supervised.py:481 | the number of enabled actions is the number of enabled positions |
| Supervised.StripMeaning | asnets/asnets/supervised.py:635 | strip removes a run of the given characters at each end and nothing else, and what is left neither starts nor ends with one of them |
| Supervised.StripParensCheckHolds | asnets/asnets/supervised.py:636-637 | the assertion after stripping the parentheses cannot fail |
| Supervised.SingleActionQValues | asnets/asnets/supervised.py:629-651 | with no teacher action every value is the dead-end value; otherwise 0 exactly where the identifier matches the stripped teacher action and the dead-end value elsewhere, failing the assertion when nothing matches |
| Supervised.EnabledIndices | asnets/asnets/supervised.py:657-660 | every enabled position is a position of the action list |
| Supervised.EnabledIndicesMeaning | asnets/asnets/supervised.py:657-660 | the recorded positions are exactly the enabled ones, in increasing order |
| Supervised.CollectEnabled | asnets/asnets/supervised.py:655-660 | the loop records exactly the enabled positions, in order |
| Supervised.Scatter | asnets/asnets/supervised.py:664-666 | the teacher's values land at the enabled positions and every other position keeps the dead-end value |
| Supervised.FullQValues | asnets/asnets/supervised.py:655-666 | disabled positions get the dead-end value and the enabled ones the teacher's values in order; a teacher answer of the wrong length fails the assertion |
| Supervised.PlannerTraceEntry | asnets/asnets/supervised.py:622-670 | one Q-value per action of the problem paired with the actions in order, built by the single-action or the full rule; each assertion failure is reported |
| Supervised.FlattenInvertsZip | asnets/asnets/supervised.py:497-509 | flattening the pairs of the trace gives the Q-vector back in action order |
| Supervised.InsertStepCorrect | asnets/asnets/supervised.py:738 | inserting a step into a sorted schedule keeps it sorted and adds exactly that step |
| Supervised.SortStepsCorrect | asnets/asnets/supervised.py:738 | sorted gives an ordered permutation of the steps |
| Supervised.LrStepsMeaning | asnets/asnets/supervised.py:738-745 | the schedule is accepted exactly when the initial rate is positive and every step has a non-negative int epoch and a positive rate; it is then epoch 0 with the initial rate followed by the steps sorted |
| Supervised.BatchSizePerProblemMeaning | asnets/asnets/supervised.py:718 | the per-problem batch is at least 1 and otherwise the floor of the batch size shared among the problems; no problem at all is a ZeroDivisionError |
| Supervised.ExtendFromPath | asnets/asnets/supervised.py:462-488 | the set gains exactly the kept envelope pairs of the path's states the teacher answers for; a state the teacher times out on adds nothing |
| Supervised.CollectNewPairs | asnets/asnets/supervised.py:461-488 | new_pairs is the set of kept envelope pairs of every state of every path, each pair once however often it is met |
| Supervised.SetToSeq | asnets/asnets/supervised.py:493 | iterating over the set gives each element exactly once |
| Supervised.ExtendReplay | asnets/asnets/supervised.py:461-493 | the replay buffer counts every distinct new pair once more and its keys gain exactly the pairs it did not hold |
| RunLearning.ExtractByPrefixMeaning | asnets/asnets/scripts/run_learning.py:27-30 | a result exists exactly when some line starts with the prefix, and it is the rest of the first such line |
| RunLearning.PyStrip | asnets/asnets/scripts/run_learning.py:280 | the stripped field is empty exactly when the field is all whitespace |
| RunLearning.ParseIntOfDigits | asnets/asnets/scripts/run_learning.py:280 | int of the decimal digits of a number gives that number |
| RunLearning.ParseIntOfNegated | asnets/asnets/scripts/run_learning.py:280 | int of a minus sign followed by the digits of a positive number gives its negation |
| RunLearning.ParseIntStr | asnets/asnets/scripts/run_learning.py:280 | int of str of any integer gives the integer back |
| RunLearning.IntStrShape | asnets/asnets/scripts/run_learning.py:280 | the text of an integer is not blank, holds no comma and starts with no whitespace |
| RunLearning.ParseFieldsOfValues | asnets/asnets/scripts/run_learning.py:280 | non-blank fields that each parse give their numbers, in order |
| RunLearning.ParseFieldsOfInts | asnets/asnets/scripts/run_learning.py:280 | the fields written by str parse back to the integers, in order |
| RunLearning.ParseIdxListOfJoin | asnets/asnets/scripts/run_learning.py:279-281 | parse_idx_list of the comma-joined texts of a list of integers gives that list |
| RunLearning.AddPrefix | asnets/asnets/scripts/run_learning.py:231-233 | one path per filename, in order, each the prefix joined onto the filename |
| RunLearning.PathJoinMeaning | asnets/asnets/scripts/run_learning.py:233 | a joined path ends with its second part and starts with the first when the second is relative |
| RunLearning.AddPrefixConcat | asnets/asnets/scripts/run_learning.py:238-240 | prefixing the common and the training files separately and concatenating equals prefixing their concatenation |
| RunLearning.LastExperimentsPartMeaning | asnets/asnets/scripts/run_learning.py:271-273 | the backward scan finds a component exactly when one below the bound starts with experiments., and it finds the last one |
| RunLearning.PrefixDirOfPartsMeaning | asnets/asnets/scripts/run_learning.py:270-276 | the components up to the last non-final experiments. component, joined by slashes, a prefix of the path; ValueError exactly when no non-final component qualifies |
| RunLearning.GetPrefixDirMeaning | asnets/asnets/scripts/run_learning.py:266-276 | get_prefix_dir gives a prefix of the path ending at its last non-final experiments. component, and ValueError exactly when there is none |
| RunLearning.AppendSwitches | asnets/asnets/scripts/run_learning.py:175-186 | the switch flags are appended in the order of their conditions |
| RunLearning.SwitchesMeaning | asnets/asnets/scripts/run_learning.py:175-186 | each switch appears exactly when its condition holds |
| RunLearning.SwitchFlagsMeaning | asnets/asnets/scripts/run_learning.py:175-186 | --dropout appears exactly in training runs, --no-skip exactly without skip connections, --no-use-teacher-envelope exactly in ROLLOUT mode, and each other switch exactly when its setting asks for it |
| RunLearning.SettingFlagsMeaning | asnets/asnets/scripts/run_learning.py:191-221 | nineteen option and value pairs, the regularisation values rendered as 0.0 when falsy and as their own text otherwise |
| RunLearning.StepFlagsMeaning | asnets/asnets/scripts/run_learning.py:222-227 | step j becomes --lr-step, the epoch and the rate at flags 3j to 3j+2 |
| RunLearning.BuildArchFlags | asnets/asnets/scripts/run_learning.py:171-228 | the flags are the switches, the settings and the step flags when the configuration is accepted; an unknown experience mode is a ValueError and a failed assertion an AssertionError |
| RunLearning.AppendLrSteps | asnets/asnets/scripts/run_learning.py:222-227 | every step passes the checks as written exactly when the loop finishes, and then each contributes its three flags in order |
| RunLearning.NegativeRateAcceptedAsWritten | asnets/asnets/scripts/run_learning.py:224 | as written a schedule with a negative rate builds its flags and is rejected only later by the trainer |
| RunLearning.IntendedStepsSuitTrainer | asnets/asnets/scripts/run_learning.py:224-226 | with the intended check on the rate, every accepted schedule is one the trainer accepts |
| RunLearning.BuildProbFlagsTrain | asnets/asnets/scripts/run_learning.py:236-245 | a -p pair per training name, in order, then the prefixed common and training files |
| RunLearning.KeptIndicesMeaning | asnets/asnets/scripts/run_learning.py:253-257 | the kept indices are increasing, are exactly those allowed, and are all of them when nothing restricts them |
| RunLearning.BuildProbFlagsTest | asnets/asnets/scripts/run_learning.py:248-263 | one flag set per kept test run, tagged with its original index, holding -p only for named problems, then the common and the run's own files |

## Left out

- Rationals.Less, Rationals.LessEq, Rationals.Equal, Rationals.NotEqual, Rationals.GreaterEq, Rationals.Greater: only the lcm is C-int arithmetic (`Wrap32` in `Lcm`). The cross products `q.numerator()*m.first` use unbounded integers, so where the source's int products overflow, the model gives the exact answer and the source a wrapped one. Example: `Less(400000000/3, 1/7)`.
- Rationals.Add, Rationals.Sub, Rationals.Mul, Rationals.Div: the scaled numerators and the products of numerators and denominators use unbounded integers, so int overflow in these operators is not modelled.
- Rationals.ParseLoop, Rationals.ReadDigits, Rationals.Parse: the accumulation `10*numerator_ + digit` and `denominator_ *= 10` uses unbounded integers, so a numeral with more digits than an int holds (such as "0.12345678901") is read exactly where the source overflows.
- Rationals.Make, Rationals.Div, Rationals.LcmDiesExactlyOnOverflow, Utils.SplitString, ShortSightedSsps.ShortSightedSsp.SetAsFringe, ShortSightedSsps.ShortSightedSsp.SetAsInternal, ProbDists.Sample, AtomStates.CodeOfDies, Problems.AtomTable.AtomHashGet, Effects.TranslatedOk, Effects.FlattenedStored: the model follows the debug build (`build.py --debug`, which defines `DIE_WITH_ASSERT`), in which a failed `DIE` or C `assert` stops the process; that stop is the `Err(Die)` (or, for `sample`, the `None`) of these members. The default build defines `NDEBUG`, under which `utils/die.h` turns `DIE` into an empty statement and `assert` disappears, so execution goes on past the check: `Rational(n, 0)` keeps a zero denominator, the lcm overflow goes unnoticed, `splitString` searches for the whole delimiter string and resumes one character after each match, `setAsFringe`/`setAsInternal` insert a state outside the space, `sample` returns the first event, `code()` packs an odd atom into the bit of its even neighbour, and the `BUG_2`/`BUG_3` and unsupported-effect checks of `translate` and `flatten` let the effect through. That fall-through behaviour is not modelled. An `exit(...)` is unaffected by `NDEBUG` and stops the process in both builds.
- Floating point: every `double` is a Dafny `real`. This covers the values and costs of the value hash (`hash.dfy`), the heuristic values of `heur_inputs.dfy`, the probabilities of `effects.dfy`, `actions.dfy` and `prob_dist.dfy`, and the thresholds read by `planner_ssipp.dfy`. NaN, infinities and rounding are not modelled.
- PlannerSsipp.PlannerSSiPP.ParseParameters: `readDouble` and `readRational` are parameters. `Rational` is the build's `Rational_Float` (a `double`), so a rational is read as a `real`, and the conversion from text is not modelled.
- DetPlanners: an embedded NUL in a name is not modelled. `strcasecmp` stops at a NUL while the name hash reads the whole string.
- DetPlanners: deterministic actions registered with probability 1 are not modelled. The rounding of `double` probabilities and of their products is not modelled. The XML and `action_t` name search is not modelled. Object lookup is the `Instantiation` parameter, where `None` stands for the `DIE` of a missing object. The `exit(-1)` on a non-reward assignment is `Err(Die)`.
- Effects.Equal: an expression other than a constant is identified by an `id`. Two such expressions are equal exactly when their ids are, which stands for the structural `Expression::operator==` the model does not spell out.
- Models: tensor values, initialisers and layer arithmetic are not modelled; only shapes and indices are. This includes the assertion `NONLINEARITY == 'elu'` and the stored value −1 for an empty pool, which `multi_pool_concat` relies on.
- CrossMass: the total mass of `cross_product` is stated by its parts (`PairsMass`, `CompletionMass`, `NullOutcomeMass`, `CrossArithmetic`), not as one assembled equation over `CrossOutcomes`.
- Supervised.ExtendReplay: `new_pairs` is a set, and the order in which `replay.update` meets its pairs is any order (`SetToSeq`). The resulting key order of the buffer is therefore not stated, only its members and counts. The rollouts of `collect_paths`, the warning printed on a teacher timeout and `gc.collect()` are not modelled; the teacher is a parameter.
- Supervised: a rollout path is the sequence of its states; the actions the source pairs with them are not read by the modelled loops.
- Hashing: table sizes use the corrected `Primes.PrimeTable.Prime`. The source's `hash_t` calls the as-written `prime()`, which returns 9 for 8 (see Findings).
- AtomLists.AtomList.FromArray: the array constructor's buffer of size 0 grows like an absent one in the model. In the source it is not grown (see Findings).
- MdpsimParser.Parser.MakeForallEffect: `QuantifiedEffect::make` is defined in MDPSim's `effects.cc`, which is not part of this model. The model builds the quantified effect directly, so any simplification that constructor makes is not captured.
- MdpsimParser.Parser.MakeProbEffect: `ProbabilisticEffect::make` is in MDPSim's `effects.cc`, which is not part of this model. The model builds the probabilistic effect directly.
- MdpsimParser.MakeSubtraction: `Subtraction::make` is in MDPSim's `expressions.cc`, which is not part of this model. The model builds the subtraction node directly, so any constant folding is not captured.
- MdpsimParser: `make_domain`, `make_problem`, both `make_type`s, `add_names`, `add_term`, `make_eq_name` and the predicate and function branches of `add_variables` maintain MDPSim's `Domain`, `Problem`, `TypeTable`, `TermTable`, `PredicateTable` and `FunctionTable`, which are not part of this model. The modelled helpers keep those tables as sets and maps of names in `Declarations`; term types, the type hierarchy and the parameter lists of predicates and functions are not modelled, and the helpers that read them take the answer as a parameter (`comparable`, `arity`).
- MdpsimParser.Parser.MakeTerm: the type given to an implicitly declared object (the predicate's parameter type or `object`) is not modelled; the new variable and object numbers are parameters.
- MdpsimParser.Parser.MakeUpdateEffect: `UpdateEffect::make` and the update classes are in MDPSim's `effects.cc`, which is not part of this model. The model builds the update effect directly.
- MdpsimParser: the pointer globals `predicate`, `function`, `atom_predicate`, `fluent_function` and `term_parameters`, which only the unmodelled table helpers read, are not modelled.
- RunLearning.ParseInt: only ASCII digits are read; Python's `int()` also accepts the decimal digits of other scripts.
- Problems: the internal-predicate part of `complete_state` is not modelled.
- Randomness: `drand48`/`lrand48` draws are parameters. This covers `randomAction` in the SSP utilities, `ProbabilisticEffect::state_change` and the sampling of distributions.
- AtomStates.Atoi, PlannerSsipp.CountConfig, PlannerSsipp.DepthRangeConfig: `atoi` is modelled over unbounded integers. The C library leaves a value outside the range of `int` undefined (glibc truncates the `long` that `strtol` returns), so what these members state for texts such as "18446744073709551616" is not what the source does; they are faithful only for values that fit an `int`.
- Utils.Rand0ToN requires `n > 0`: `rand0toN_l` divides by `n`.
- Hash functions: `std::hash` and the MD4 digest of atom lists are parameters.
- Hashing: the aliasing between `stateHash_t` entries and the states they point to, and the entries' `prev_` links, are not modelled.
- FunctionTables: `functions.h` is not part of this model. `last_function()` is taken to be the index of the last name added.
- SSiPP: the evaluator and the cutter of the short-sighted search are parameters (the successor function and the cut input).
- I/O, printing, logging and the clock are left out. So are the TensorFlow numerics of ASNets and the C extension calls of the Python code; their results are parameters where the modelled code reads them.

## Findings

| source | as written | input that shows it | evidently intended | confidence | as-written member | corrected member |
|---|---|---|---|---|---|---|
| ssipp-solver/ext/mgpt/atom_list.h:137-138 | `remove` shifts `data_[j] = data_[j+1]` for j up to `size()-1`, reading one entry past the atoms in use | removing atom 3 from a list holding only 3 in a buffer of one entry | shift only while `j + 1 < size()` | not executed | AtomLists.RemoveFromFullBufferReadsPastEnd | AtomLists.AtomList.Remove |
| ssipp-solver/ext/mgpt/atom_list.h:104-110 | a full buffer grows to `(!data_ ? 1 : size_ << 1)`, keyed on a null pointer, so an allocated buffer of size 0 stays at size 0 and the new atom is written past it | `atomList_t(array, 0)` followed by `insert(a)`, with a `malloc(0)` that returns a non-null pointer | grow an empty buffer to one entry | not executed | AtomLists.AllocatedEmptyBufferNotGrownAsWritten | AtomLists.AtomList.Insert |
| ssipp-solver/ext/mgpt/problems.cc:104-110 | `fluent_inv_hash_get` looks up `fluent & ~0x1`, so an odd fluent index finds the entry of the even one below it | a table holding fluents 0 and 1: the inverse of 1 is the application of 0 | look up `fluent` itself | not executed | Problems.FluentInverseAsWrittenLosesOdd | Problems.FluentRoundTrip |
| ssipp-solver/ext/mgpt/hash.cc:51-55 | the trial division stops at the first cached entry not below the rounded-up root and accepts a candidate equal to that bound. It accepts 9, and after that it skips real primes such as 11 whenever the loop stops at an entry above the root | a fresh cache: prime(8) returns 9, and 11 is rejected against 2, 3, 5, 7, 9 | test divisors up to the square root and accept exactly the primes | not executed | Primes.NineAcceptedAsWritten | Primes.TrialDivisionCorrect |
| ssipp-solver/ext/mgpt/hash.cc:57-62 | a full cache is "grown" with `size = size>>1` before `realloc`, halving it, so the new prime is written past the buffer | a cache of 4 full entries when a fifth prime is found | double the size | not executed | Primes.FullBufferHalvedAsWritten | Primes.PrimeTable.Grow |
| ssipp-solver/ext/mgpt/hash.h:252-259 | the iterator constructor has no branch for `pos != 0`, so `end()` is a null pointer at bucket 0, while iteration ends as a null pointer at bucket `dimension_`; a loop to `end()` never stops | any table with at least one bucket | `end()` at bucket `dimension_`, as `stateHash_t` has it | not executed | Hashing.HashEndNeverReached | Hashing.IterationVisitsEach |
| ssipp-solver/ext/mgpt/actions.cc:1347-1350 | the remaining effects, stored as pointers to the original outcomes (line 1296), are renormalised in place through `const_cast`, which changes the probabilities of the original action too | outcomes 0.1, 0.45, 0.45 split at 0.2: the original's probabilities then sum to 1.1 | renormalise a copy for the `_R` action | not executed | Actions.SplitChangesOriginalAsWritten | Actions.SplitRemainderSumsToOne |
| ssipp-solver/ext/mgpt/effects.cc:668-679 | `ConjunctiveEffect::operator==` returns `true` when the other effect is not a conjunction of its size | the empty conjunction equals an add effect, but the add effect does not equal it | return `false` there | not executed | Effects.ConjunctionEqualityAsWrittenAsymmetric | Effects.EqualSymmetric |
| ssipp-solver/ext/mgpt/requirements.cc:43-48 | five requirement keys are printed with `_` (`:negative_preconditions` and four others) where PPDDL spells them with `-` | a domain with `:strips` and `:negative-preconditions` prints `(:requirements :strips :negative_preconditions)` | the PDDL names | not executed | PddlRequirements.AsWrittenKeysInvalid | PddlRequirements.PddlNamesValid |
| ssipp-solver/planners/ssipp.cc:35-36 | `atoi` is stored in a `size_t` field before the `<= 0` check, so a negative depth wraps to a huge positive one and passes | the flags `max_depth` and `-3` (or `greedy` and `-3`) | reject counts that are not positive | not executed | PlannerSsipp.NegativeDepthAcceptedAsWritten | PlannerSsipp.IntendedCountsArePositive |
| asnets/asnets/scripts/run_learning.py:224 | `assert k > 0, r > 0` makes `r > 0` the assertion's message, so the rate is never checked | the step `(5, -0.1)`: the flags are built and the trainer's own check fails later | `assert k > 0 and r > 0` | not executed | RunLearning.NegativeRateAcceptedAsWritten | RunLearning.IntendedStepsSuitTrainer |
| asnets/asnets/prob_dom_meta.py:878-880 | the unknown-schema branch reads `bound_act.protype` | a ground action whose schema is not in the domain: AttributeError instead of the intended error | `bound_act.prototype` | not executed | ProbDomMeta.UnknownSchemaFailure | ProbDomMeta.GetProblemMetaSucceeds |
| asnets/asnets/models.py:156-169 | restoring proposition weights declares the block with the action layer's size | input width 3, action width 4, proposition width 8: ValueError on restore | the proposition layer's size, as a fresh network has | not executed | Models.RestorePropBlockAsWrittenFails | Models.RestorePropBlockMatchesFresh |
