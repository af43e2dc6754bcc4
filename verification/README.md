# Verified computation, verified

Ginger, Zaatar and batched CMT/GKR let a weak verifier check the work of a strong prover. A constraint
compiler turns a program into equations over a prime field and into a worksheet for the prover; the prover
commits to an assignment with ElGamal encryption over multi-limb Montgomery arithmetic and answers the
queries of a linear PCP; the GKR branch replaces commitments by multilinear extensions. This project models
the deterministic core of that system and proves that it does what it is for.

Main results:

- **Exponentiation.** `MontReduce.MontgomeryMul`, `ModExp.ModExpEndToEnd`, `FixedBase.ModExpCached` and
  `MultiExp.GetMultiSw`: limb arrays with deferred carries and in-place ripple loops compute products, residues
  and powers, for every number of limbs; the merged schedule of many exponents replays each base's own windows
  (`Replay.ReplaysBase`, `Replay.ReplaysSpacing`).
- **Compiler.** `CompileProgram.ProgramComplete` and `CompileSound.ProgramSound`: the prover's worksheet, run over
  the rationals and converted to the field, satisfies every constraint of every line, and every assignment
  satisfying them has the outputs of that run. `Interpreter.Machine.ComputeFromPws` is the interpreter with its
  shared temporaries. `Expand.ExpansionMeaning` covers the expansion of nested expressions, and
  `Text.ReadingsAgree` says when compiler and interpreter read the same text the same way.
- **Argument.** `EndToEnd.ProveProgram`: from a source program and its inputs to the verifier's verdict, for all
  public and private coins, encryption randomness, shuffles, thread schedules and repetition counts; the
  verifier accepts exactly when the committed sum is below the group order. `Instance.ComparisonProved` takes a
  program with a comparison through it.
- **PCP.** `PcpSound.PcpExact`: a linear prover is accepted whatever is drawn if and only if its proof is right and
  the program is satisfied; each test rejects what it is for, and every public draw is used once. Then its outputs
  are those the program computes from its inputs (`Soundness.AcceptedOutput`).
- **GKR.** Fast and simple forms of `chi` and `V` agree, in-place folding and the round messages are consistent
  (`FirstLevel.CheckFirstLevel`), and hand-written wiring polynomials equal the sum over the gates they stand for
  (`Wiring.F2Exact`, `Wiring.Reduce`, `MatWiring.MatMult63P3d`); the extrapolation helpers return the value of the
  polynomial through their points (`Extrapolation.Extrap`, `Extrapolation.BaryExact`).
- **QAP interpolation.** Both weight recurrences are right and evaluation with them is Lagrange interpolation
  (`Interpolation.EvaluateColumns`, `Interpolation.InterpolantUnique`).
- **Applications.** The alignment baseline finds longest common subsequences (`Lcs.Baseline`), pancake flipping ends
  (`Fannkuch.FlipSettles`), and the Hamming-distance constraints are sound and complete
  (`Hamming.HammingSound`, `HammingQueries.HonestCircuitTest`).

Conventions: field elements are integers read modulo a prime `p` (`Arith.Cong`, `Arith.IsPrime`); words are integers
`0 <= w < B` with wrap-around written out; rationals are canonical fractions; random draws come from tapes, so
"for all tapes" is "for all coins"; threads are schedules of atomic steps. Each file is one module of the same
name. `dafny verify dfyconfig.toml` checks everything.

Where the code departs from its comments or from what its formulas suggest, the model follows the code. A lemma
says exactly when the expected property holds, and another gives an input on which it fails:

| exact condition | failing input | what goes wrong |
|---|---|---|
| `Expand.TermExact` | `Expand.ZeroPrefixLost` | a product prefix that expands to zero is taken for no factor yet |
| `Aggregate.ExpandedExact` | `Aggregate.ExpandedFails` | the same in a constraint whose first factor vanishes |
| `Text.ReadingsAgree`, `Text.StrayExact` | `Text.DoubleMinusRead`, `Text.StrayMinus` | a sign directly after a minus |
| `CompileProof.ConstantComparison` | `CompileProof.ConstantComparisonFails` | two constant operands share a temporary |
| `Mle.AddModMultSiExact` | `Mle.AddModMultSiFails` | a negative multiplier |
| `FirstLevel.PrintedCheck` | `FirstLevel.PrintedCheckFails` | a comparison value never updated |
| `Wiring.F2Exact` | `Wiring.F2UnequalSizes` | layers of different size |
| `Extrapolation.BaryExact` | `Extrapolation.BaryFails` | weights precomputed at a node |
| `Protocol.HonestRun` | `Instance.CopyProved` | a committed sum beyond the group order |

## Model

| member | source | states |
|---|---|---|
| `MontMul.AddCarry` | code/pepper/lib_gpu/mp_modexp.h:80-87 | the limb takes the sum modulo the word base, and the chosen carry slot is incremented exactly when the sum overflowed |
| `MontMul.AddCarryClear` | code/pepper/lib_gpu/mp_modexp.h:90-98 | the same with the addend taken from a carry slot, which is cleared |
| `MontMul.SubBorrow` | code/pepper/lib_gpu/mp_modexp.h:103-121 | difference modulo the word base with the borrow that makes it exact |
| `MontMul.MulRow` | code/pepper/lib_gpu/mp_modexp_cpu.cpp:46-58 | one row of the schoolbook product adds `a * y * B^j` to sums and deferred carries together, the limbs above stay 0, each carry slot grows by at most 2, and the uninitialised top slot is untouched |
| `MontMul.MulSweep` | code/pepper/lib_gpu/mp_modexp_cpu.cpp:59-79 | one ripple pass keeps the value held in sums and carries and raises the lowest index that may hold a carry |
| `MontMul.RippleMul` | code/pepper/lib_gpu/mp_modexp_cpu.cpp:59-79 | the ripple loop ends with the value in the limbs alone and never increments `c[2S]` |
| `MontMul.Mul` | code/pepper/lib_gpu/mp_modexp_cpu.cpp:34-79 | the `2S` result limbs are words and represent the integer product, for every `S` and base `B > 2S + 1` |
| `MontMul.SubSweep` | code/pepper/lib_gpu/mp_modexp_cpu.cpp:139-164 | one borrow ripple pass keeps the net value and raises the lowest pending borrow |
| `MontMul.TopBorrow` | code/pepper/lib_gpu/mp_modexp_cpu.cpp:139-164 | the top borrow is at most 1 |
| `MontMul.Sub` | code/pepper/lib_gpu/mp_modexp_cpu.cpp:139-164 | result minus `borrow * B^S` is `x - y`, also when the result array is an operand |
| `MontReduce.TopCarry` | code/pepper/lib_gpu/mp_modexp_cpu.cpp:218-289 | while less than `2 B^n` is held, the carry out of the top limb is at most 1 |
| `MontReduce.RippleReduce` | code/pepper/lib_gpu/mp_modexp_cpu.cpp:218-289 | the ripple loop ends, keeps the held value, and leaves at most one carry, at the top, of value 0 or 1 |
| `MontReduce.StepDivides` | code/pepper/lib_gpu/mp_modexp_cpu.cpp:218-289 | adding `m n B^j` with `m = t[j] np mod B` makes the held value a multiple of `B^(j+1)` |
| `MontReduce.Reduce` | code/pepper/lib_gpu/mp_modexp_cpu.cpp:218-289 | the reduction adds `M n` with `M < B^S`, clears the low half and leaves only a top carry |
| `MontReduce.AtLeast` | code/pepper/lib_gpu/mp_modexp_cpu.cpp:218-289 | top-limb-first comparison decides whether one number is at least the other |
| `MontReduce.MontgomeryMul` | code/pepper/lib_gpu/mp_modexp_cpu.cpp:218-289 | for `a b < n B^S` and `n np = -1 mod B` the result limbs are below `n` and, times `B^S`, congruent to `a b` modulo `n`; the result array may be an operand |
| `Limbs.TopLimbDecides` | code/pepper/lib_gpu/mp_modexp_cpu.cpp:218-289 | numbers with equal upper limbs are ordered by the first limb that differs |
| `Limbs.TheLimbs` | code/pepper/lib_gpu/mp_modexp_cpu.cpp:34-79 | words that represent a number are its limbs, so a result fixed as a number is fixed limb by limb |
| `ModExp.SetupConstants` | code/pepper/crypto/cpu_crypto.cpp:48-58 | the low limb of `(R R^{-1} - 1) / p` satisfies the condition of the reduction |
| `ModExp.RadixInverse` | code/pepper/lib_gpu/mp_modexp_cpu.cpp:218-289 | that condition alone makes the radix invertible modulo `n` |
| `Clnw.WindowOfValue` | code/pepper/lib_gpu/mp_modexp_cpu.cpp:396-427 | a window inside a word is the window of the whole exponent at that bit |
| `Clnw.ZeroRun` | code/pepper/lib_gpu/mp_modexp.cpp:85-142 | the zero-run loop stops at the next set bit or the end, and the skipped bits are all 0 |
| `Clnw.Window` | code/pepper/lib_gpu/mp_modexp.cpp:85-142 | the window loop collects the next `d` bits (fewer only at the end) as a number |
| `Clnw.Decompose` | code/pepper/lib_gpu/mp_modexp.cpp:85-142 | the main loop stores at most 512 fragments, zero runs or odd windows, whose shifted sum is the exponent |
| `Clnw.Trim` | code/pepper/lib_gpu/mp_modexp.cpp:85-142 | trimming zero fragments off the top keeps the value and ends at a nonzero one |
| `Clnw.LastLengthFree` | code/pepper/lib_gpu/mp_modexp.cpp:85-142 | the rewritten last length does not change the value |
| `Clnw.GetClnw` | code/pepper/lib_gpu/mp_modexp.cpp:85-142 | for a nonzero exponent of fewer than 768 bits: shifted sum of fragments equals the exponent, each fragment is 0 or odd and below 32, the top one is nonzero, all lengths are positive and sum to the exponent width; below the top fragment windows take 4 bits (5 from 256 bits on) and no two zero runs touch; the largest fragment is reported |
| `ModExp.OddPowers` | code/pepper/lib_gpu/mp_modexp_cpu.cpp:316-343 | rows hold the odd powers `a, a^3, ...` up to the largest fragment |
| `ModExp.WindowLoop` | code/pepper/lib_gpu/mp_modexp_cpu.cpp:316-343 | folding the fragments from the top down raises to the exponent they stand for |
| `ModExp.ModExpWindows` | code/pepper/lib_gpu/mp_modexp_cpu.cpp:316-343 | table and loop together give `a^e` in Montgomery form |
| `ModExp.Montgomerize` | code/pepper/lib_gpu/mp_modexp_cpu.cpp:383-393 | multiplying by `R^2 mod n` enters Montgomery form |
| `ModExp.ModExpMont` | code/pepper/lib_gpu/mp_modexp_cpu.cpp:362-381 | the result is `a^e mod n` for the exponent the window decomposition stands for, no fragments standing for 0 |
| `ModExp.ModExpEndToEnd` | code/pepper/lib_gpu/mp_modexp.cpp:85-142 | decomposing an exponent and running the windowed loop returns `a^e mod n`, and the result array holds exactly the limbs of that residue |
| `FixedBase.SlotAt` | code/pepper/crypto/powm_cache.cpp:56-67 | slot `i (2^w - 1) + j` stands for the exponent `2^(w i) (j + 1)`, a chunk's last slot being the next chunk's base |
| `FixedBase.NextSlot` | code/pepper/crypto/powm_cache.cpp:56-67 | a slot times its chunk's base is the next slot |
| `FixedBase.PowmCache.constructor` | code/pepper/crypto/powm_cache.cpp:40-48 | a new cache holds, for every chunk needed and no more, the power each slot stands for |
| `FixedBase.PowmCache.ComputeCache` | code/pepper/crypto/powm_cache.cpp:56-67 | filling from any already valid chunk on completes the table |
| `FixedBase.PowmCache.ExtendCache` | code/pepper/crypto/powm_cache.cpp:69-97 | the extended table is the one a fresh larger construction makes, old slots unchanged, and it never shrinks |
| `FixedBase.PowmCache.GetItem` | code/pepper/crypto/powm_cache.cpp:99-105 | the item is congruent to `base^(2^(w chunk) (value + 1))` modulo the prime and reduced, except that the very first one is the base itself |
| `FixedBase.CacheSlotServes` | code/pepper/lib_gpu/mp_modexp_cpu.cpp:401-427 | a Montgomerized cache slot is what the windowed product expects |
| `FixedBase.ModExpCached` | code/pepper/lib_gpu/mp_modexp_cpu.cpp:401-427 | the product of one table entry per nonzero window is `b^exp mod n`, for every exponent of `S` words, 0 included |
| `MultiExp.StatesMeaning` | code/pepper/crypto/gpu_crypto.cpp:224-258 | the states pushed for one exponent weigh up to `base^exponent` |
| `MultiExp.ScheduleMeaning` | code/pepper/crypto/gpu_crypto.cpp:224-258 | square `length[i]` times, multiply by `base^fragment`: over a sorted, spaced schedule this computes the product of all state weights |
| `MultiExp.MergedSchedule` | code/pepper/crypto/gpu_crypto.cpp:260-305 | any sorted arrangement of all states computes `prod base_k^(e_k)`, and the lengths sum to the exponent width |
| `MultiExp.SortStates` | code/pepper/crypto/gpu_crypto.cpp:224-258 | the states are permuted into falling location order |
| `MultiExp.GetMultiSw` | code/pepper/crypto/gpu_crypto.cpp:224-258 | the filled arrays are a sorted, spaced arrangement of all states, compute `prod base_k^(e_k)` for every choice of bases, and their lengths sum to the exponent width |
| `MultiExp.GetSws` | code/pepper/crypto/gpu_crypto.cpp:233-236 | every exponent decomposes into windows that stand for it and fill the exponent width |
| `MultiExp.MultiSchedule` | code/pepper/crypto/gpu_crypto.cpp:224-258 | for up to 32 nonzero exponents given by their words, decomposition and merging fit the fixed arrays and the schedule computes `prod base_k^(e_k)` for every choice of bases |
| `Replay.ReplaysBase` | code/pepper/crypto/gpu_crypto.cpp:260-305 | read top down, the merged schedule contains each base's own windows in their order and nothing else of that base |
| `Replay.ReplaysSpacing` | code/pepper/crypto/gpu_crypto.cpp:260-305 | between two entries of a base the schedule squares exactly as often as the base's own window length says |
| `Expand.ExpandPolynomial` | code/compiler/backend/zcc_parser.py:346-396 | popping tokens and updating the dictionary in place computes the recursive expansion, errors included, on every token list |
| `Expand.ParsePrinted` | code/compiler/backend/zcc_parser.py:346-396 | expanding a printed expression gives the expansion of the expression and stops at its closing parenthesis |
| `Expand.AddTermValue` | code/compiler/backend/zcc_parser.py:398-423 | merging a monomial into the dictionary adds its value |
| `Expand.AddTermReduced` | code/compiler/backend/zcc_parser.py:398-423 | merging keeps keys distinct and constants nonzero |
| `Expand.ProductTermValue` | code/compiler/backend/zcc_parser.py:425-448 | the product of two monomials has the product of their values |
| `Expand.FactorsValue` | code/compiler/backend/zcc_parser.py:346-396 | exact value of an expanded product: a prefix that expands to zero restarts it |
| `Expand.TermExact` | code/compiler/backend/zcc_parser.py:346-396 | an expanded product has the value of the product if and only if no proper prefix expands to zero or the factors after the last such prefix evaluate to 0 |
| `Expand.ExpansionMeaning` | code/compiler/backend/zcc_parser.py:346-396 | expansion preserves the value of every expression without vanishing product prefixes, under every assignment |
| `Expand.ExpansionReduced` | code/compiler/backend/zcc_parser.py:398-423 | like terms are merged and no constant is 0 |
| `Expand.ReexpansionStable` | code/compiler/backend/zcc_parser.py:335-396 | expanding the printed form of an expansion gives it back |
| `Expand.ZeroPrefixLost` | code/compiler/backend/zcc_parser.py:346-396 | `( 0 * x )` expands to `x`: the empty product is taken for no product |
| `Text.ExpansionEnds` | code/compiler/backend/zcc_parser.py:346-396 | on any tokens: expansion succeeds exactly when they start with a parenthesis that is closed, and stops right after its closing one |
| `Text.CompilerReads` | code/compiler/backend/zcc_parser.py:346-396 | the compiler's reading of every text with runs of signs, nested or not, first term signed or not: the last sign counts and every minus before it stands for a stray -1 |
| `Text.InterpreterReads` | code/pepper/libv/computation_p.cpp:21-110 | the interpreter's reading of the same texts: every minus turns the sign |
| `Text.ReadingsAgree` | code/compiler/backend/zcc_parser.py:369-382 | the two read the same expression if and only if no sign directly follows a minus, at any depth |
| `Text.SameReading` | code/pepper/libv/computation_p.cpp:21-110 | on such text the compiler expands, and the interpreter evaluates, one expression |
| `Text.PlusMinus` | code/compiler/backend/zcc_parser.py:369-382 | `+ -` reads as `-` on both sides |
| `Text.StrayExact` | code/compiler/backend/zcc_parser.py:369-382 | the expansion has the value that is meant if and only if twice the terms with a turned sign add up to the number of stray minus signs |
| `Text.StrayMinus` | code/compiler/backend/zcc_parser.py:369-382 | with an odd number of minus signs directly followed by a sign the value is wrong under every assignment |
| `Text.OneStray` | code/compiler/backend/zcc_parser.py:369-382 | one such minus, at any position of the sum, is that case |
| `Text.DoubleMinusRead` | code/compiler/backend/zcc_parser.py:369-382 | `( x - - y )` is read as `x - y - 1`, where `x + y` is meant |
| `Text.BlanksIgnored` | code/compiler/backend/zcc_parser.py:374-375 | blank tokens change nothing for the compiler, on any token list |
| `Text.BlanksSkipped` | code/pepper/libv/computation_p.cpp:21-110 | nor for the interpreter |
| `Gates.NBitsSound` | code/compiler/backend/zcc_parser.py:116-159 | satisfied weight constraints make the bits sum to a number below `2^k` |
| `Gates.LessIntSound` | code/compiler/backend/zcc_parser.py:116-159 | every satisfying field assignment has target 1 if `x < y` and 0 otherwise, for `p > 2^N` and `abs(x - y) <= 2^(N-1)` |
| `Gates.LessIntComplete` | code/compiler/backend/zcc_parser.py:116-159 | the prover's selector and difference bits satisfy every constraint of the comparison |
| `FloatGate.NumeratorSound` | code/compiler/backend/zcc_parser.py:161-226 | a satisfied numerator is a negative integer of at most `na` bits |
| `FloatGate.DenominatorSound` | code/compiler/backend/zcc_parser.py:161-226 | a satisfied denominator is `2^(-j)` for some `j <= nb` |
| `FloatGate.LessFloatSound` | code/compiler/backend/zcc_parser.py:161-226 | every satisfying assignment reports the sign of the fixed-point difference, for `p > 2^(na+nb+1)` |
| `FloatGate.LessFloatComplete` | code/compiler/backend/zcc_parser.py:161-226 | numerator bits, one-hot denominator and quotient as the prover fills them satisfy every constraint |
| `MoreGates.NotEqualSound` | code/compiler/backend/zcc_parser.py:228-249 | target is 1 exactly when the operands differ in the field |
| `MoreGates.NotEqualComplete` | code/compiler/backend/zcc_parser.py:228-249 | the field inverse of the difference as witness `M` satisfies both constraints, also through the intermediate `M2` |
| `MoreGates.SplitSound` | code/compiler/backend/zcc_parser.py:251-285 | satisfying bits are boolean and spell the input as an integer, signed or not, for `p > 2^n` |
| `MoreGates.SplitComplete` | code/compiler/backend/zcc_parser.py:251-285 | the prover's bits satisfy the split constraints |
| `Rational.FieldArithmetic` | code/pepper/common/utility.cpp:156-160 | conversion to the field respects sums, differences and products |
| `Rational.FieldDiv` | code/pepper/common/utility.cpp:156-160 | the converted quotient times the divisor is the dividend |
| `LowestTerms.CanonLowest` | code/pepper/common/utility.cpp:156-160 | canonical fractions have no common factor |
| `LowestTerms.LowestUnique` | code/pepper/libv/computation_p.cpp:466-469 | fractions in lowest terms are equal as pairs if and only if their values are |
| `LowestTerms.SubSign` | code/pepper/libv/computation_p.cpp:325-345 | the sign of a difference is the order of its terms, and exchanging them only turns the sign |
| `LowestStore.RunLowest` | code/pepper/libv/computation_p.cpp:423-510 | every value a run stores is in lowest terms |
| `LowestStore.NotEqualOutcome` | code/pepper/libv/computation_p.cpp:466-480 | on such a store `!=` reports whether the values of its operands differ |
| `Worksheet.ComputePoly` | code/pepper/libv/computation_p.cpp:21-110 | the token loop with its running term, sign and sum computes the recursive reading of the tokens, stack limit included |
| `Worksheet.ComputePrinted` | code/pepper/libv/computation_p.cpp:21-110 | the interpreter returns the rational value of every printed expression that fits its stack of temporaries, zero prefixes included |
| `StackDepth.ComputeStops` | code/pepper/libv/computation_p.cpp:21-110 | on any tokens evaluation fails exactly when parentheses nest deeper than the stack of temporaries, and otherwise stops after the closing parenthesis or at the end |
| `StackDepth.PrintedExact` | code/pepper/libv/computation_p.cpp:21-110 | a printed expression is evaluated to its value if and only if it nests no deeper than the stack allows |
| `Worksheet.PolyField` | code/pepper/libv/computation_p.cpp:21-110 | an expression's rational value, converted, is its value in the field |
| `Worksheet.DoubleMinusIsPlus` | code/pepper/libv/computation_p.cpp:21-110 | unlike the compiler, the interpreter reads two minus signs as a plus |
| `Compile.FillNBits` | code/pepper/libv/computation_p.cpp:250-260 | peeling off low bits stores bit `i` times `2^i` |
| `Compile.FillSplit` | code/pepper/libv/computation_p.cpp:177-190 | peeling off low bits stores the two's complement bits, the sign on top |
| `Interpreter.Machine.Voc` | code/pepper/libv/computation_p.cpp:389-417 | a variable is returned as a reference, a constant overwrites the given temporary and nothing else |
| `Interpreter.Machine.LessThanInt` | code/pepper/libv/computation_p.cpp:194-261 | the new store is the specified one, the shared temporary making two constants compare as equal; otherwise the three selectors and the result report the order of the operands as rationals |
| `Interpreter.Machine.LessThanFloat` | code/pepper/libv/computation_p.cpp:263-378 | the new store is the specified one, although the denominator is inverted only after its bits are read; unless both operands are constants the three selectors and the result report their order as rationals |
| `Interpreter.Machine.NotEquals` | code/pepper/libv/computation_p.cpp:451-480 | the new store holds the flag and the witness, which is an inverse modulo the prime only |
| `Interpreter.Machine.Polynomial` | code/pepper/libv/computation_p.cpp:440-446 | parsing and evaluating the printed tokens stores the polynomial's value divided by the target's coefficient |
| `Interpreter.Machine.SplitBits` | code/pepper/libv/computation_p.cpp:148-191 | the new store holds the bits |
| `Interpreter.Machine.ComputeFromPws` | code/pepper/libv/computation_p.cpp:423-510 | running a worksheet leaves the state of the specified run, and its image in the field satisfies every constraint of every line |
| `Interpreter.ConvertToZ` | code/pepper/common/utility.cpp:151-160 | every entry is the field element that, times the denominator, is the numerator |
| `Interpreter.VerifyConversionToZ` | code/pepper/common/utility.cpp:461-478 | accepts exactly the vectors congruent to the conversion |
| `CompileProof.PolyLineComplete` | code/compiler/backend/zcc_parser.py:1051-1083 | the `P` and `/` instructions satisfy a polynomial constraint with coefficient on its target |
| `CompileProof.NotEqualLineComplete` | code/compiler/backend/zcc_parser.py:905-922 | the `!=` instruction satisfies its constraints |
| `CompileProof.LessLineComplete` | code/compiler/backend/zcc_parser.py:935-953 | the `<I` instruction satisfies its constraints |
| `CompileProof.FloatRange` | code/pepper/libv/computation_p.cpp:325-349 | a difference that in lowest terms has at most `na` bits over a power of two up to `2^nb` gives a negative numerator and a denominator in range, whichever operand is larger |
| `FixedPoints.FloatOperands` | code/pepper/libv/computation_p.cpp:325-349 | any two operands with `nb` fractional bits are in range when their difference has at most `na` bits |
| `CompileFloat.FloatTarget` | code/pepper/libv/computation_p.cpp:325-349 | `<F` stores the order of its operands as rationals |
| `CompileFloat.LessFloatLineComplete` | code/compiler/backend/zcc_parser.py:955-981 | the `<F` instruction satisfies its constraints |
| `CompileFloat.SplitLineComplete` | code/compiler/backend/zcc_parser.py:983-993 | the `SIL` instruction satisfies its constraints |
| `CompileProof.ExecFrame` | code/pepper/libv/computation_p.cpp:423-510 | an instruction changes only the variables its line assigns |
| `CompileProof.ConstantComparison` | code/pepper/libv/computation_p.cpp:218-231 | comparing two constants satisfies the constraints if and only if they are equal in the field |
| `CompileProof.ConstantComparisonFails` | code/pepper/libv/computation_p.cpp:218-231 | `0 < 1`: for every width and prime the stored values violate the constraints |
| `CompileProgram.ConstraintsWithin` | code/compiler/backend/zcc_parser.py:287-310 | the constraints of a line mention only variables the line reads or assigns |
| `CompileProgram.LineComplete` | code/compiler/backend/zcc_parser.py:1035-1083 | an in-range line runs and what it stores satisfies its constraints |
| `CompileProgram.ProgramComplete` | code/compiler/backend/zcc_parser.py:1099-1115 | for every single-assignment program with in-range values the final assignment, converted to the field, satisfies every constraint of every line |
| `CompileSound.LineSound` | code/compiler/backend/zcc_parser.py:287-310 | a satisfying assignment with the line's operands has the line's results |
| `CompileSound.ProgramSound` | code/compiler/backend/zcc_parser.py:287-310 | every assignment that meets all constraints and has the run's inputs has all of its results: verifier's constraints and prover's worksheet define the same outputs |
| `Layout.Consecutive` | code/compiler/backend/zcc_parser.py:37-63 | new names read one after another get consecutive indices |
| `Layout.GateBitsConsecutive` | code/compiler/backend/zcc_parser.py:943-953 | variable `N_0 + i` of the worksheet instruction is the variable the constraints call `target$Ni` |
| `Layout.NumberedOnce` | code/compiler/backend/zcc_parser.py:37-63 | whatever names are read, repeated or not, each gets an index, no two share one, and the indices lie within as many as there are names |
| `Layout.Place` | code/compiler/backend/zcc_parser.py:1152-1159 | under a shuffled index every variable is stored and none overwrites another |
| `Aggregate.ExpandedExact` | code/compiler/backend/zcc_parser.py:312-333 | the expansion of a constraint has its value if and only if the first factor does not vanish or the second evaluates to 0 |
| `Aggregate.ExpandedFails` | code/compiler/backend/zcc_parser.py:312-333 | `( 0 ) * ( x )` expands to `x` |
| `Aggregate.ParseMeaning` | code/compiler/backend/zcc_parser.py:451-528 | parsing monomials into rows keeps the value |
| `Aggregate.FilesValue` | code/compiler/backend/zcc_parser.py:763-867 | the two gamma files together hold every row once, under its own constraint's coefficient |
| `GateExpansion.LessIntExpandable` | code/compiler/backend/zcc_parser.py:116-159 | every constraint of the integer comparison expands to its own value and has linear parts |
| `GateExpansion.NotEqualExpandable` | code/compiler/backend/zcc_parser.py:228-249 | every constraint of the inequality gate expands to its own value and has linear parts |
| `GateExpansion.LessFloatExpandable` | code/compiler/backend/zcc_parser.py:161-226 | every constraint of the fixed-point comparison expands to its own value and has linear parts |
| `GateExpansion.SplitExpandable` | code/compiler/backend/zcc_parser.py:251-285 | every constraint of the bit split expands to its own value and has linear parts |
| `Degree.TermsBounded` | code/compiler/backend/zcc_parser.py:346-448 | expansion adds no name and raises no degree |
| `Degree.ConstraintParses` | code/compiler/backend/zcc_parser.py:451-528 | a constraint with a product of two linear parts over variables and a linear rest is accepted |
| `ProgramRows.GateParses` | code/compiler/backend/zcc_parser.py:451-528 | every constraint of a gate over declared names is accepted and keeps its meaning |
| `ProgramRows.ProgramParsed` | code/compiler/backend/zcc_parser.py:763-867 | the gamma files exist for every in-range program whose polynomial lines the compiler accepts |
| `ProgramRows.ProgramSat` | code/compiler/backend/zcc_parser.py:287-310 | the constraints of a program hold if and only if those of each of its lines do |
| `Gamma.ComputeAssignmentVectors` | code/pepper/libv/gcomputation_p.cpp:181-198 | lower triangle multiplied, upper triangle copied: the second vector is the outer square of the first |
| `Gamma.ParseGamma12` | code/pepper/libv/gcomputation_v.cpp:123-163 | reading the file line by line fills the coefficient vectors of all lines, under the shuffle |
| `Gamma.ParseGamma0` | code/pepper/libv/gcomputation_v.cpp:165-205 | the constant is the sum of what the lines are worth on inputs and outputs |
| `Gamma.GammaAnswers` | code/pepper/libv/gcomputation_v.cpp:123-163 | the two vectors applied to a proof add up what the lines are worth |
| `Gamma.KindsSeparate` | code/compiler/backend/zcc_parser.py:763-867 | one file needs no inputs or outputs, the other no variables |
| `Gamma.Aggregation` | code/pepper/libv/gcomputation_v.cpp:123-205 | for every coefficient vector and shuffle, gamma_0 plus the two answers is the weighted sum of the constraints modulo the prime |
| `Gamma.WeightedExact` | code/pepper/libv/gcomputation_v.cpp:123-205 | the weighted sum vanishes for all coefficients if and only if every constraint holds |
| `Vectors.DotProduct` | code/pepper/libv/libv.cpp:734-746 | integer dot product, never reduced |
| `Vectors.DotOuter` | code/pepper/libv/libv.cpp:555-581 | an outer-product query to an outer-square proof returns the product of two answers |
| `Venezia.CreateLinTestQueries` | code/pepper/libv/libv.cpp:199-243 | both queries are drawn in turns, entry `i` from draws `2i` and `2i + 1`; the consistency vector gains `c1 + c3` and `c2 + c3` times them |
| `Parties.CombineFolded` | code/pepper/libv/libv.cpp:199-243 | that is the vector all three queries would have built |
| `Venezia.CreateCorrTestQueries` | code/pepper/libv/libv.cpp:555-581 | the query is `c1 (x) c2 + r` reduced, added to the consistency vector under its coin |
| `Venezia.CreateCktTestQueries` | code/pepper/libv/libv.cpp:640-655 | the query is the masked coefficient vector reduced, added to the consistency vector under its coin |
| `GingerVerifier.Verifier.CreateLinQueries` | code/pepper/libv/gcomputation_v.cpp:260-314 | the queries asked are those of all linearity repetitions, those of the first are kept for self-correction, and the consistency vectors stay in step |
| `GingerVerifier.Verifier.CreateQctQueries` | code/pepper/libv/gcomputation_v.cpp:241-257 | one quadratic-correction query from the kept linearity queries |
| `GingerVerifier.Verifier.CreateGamma12` | code/pepper/libv/gcomputation_v.cpp:123-163 | coefficient `i` is draw `i`, one for each constraint, and both coefficient vectors are filled |
| `GingerVerifier.Verifier.CreateRound` | code/pepper/libv/gcomputation_v.cpp:207-314 | a repetition asks the specified queries although its buffers are reused |
| `GingerVerifier.Verifier.CreatePlainQueries` | code/pepper/libv/gcomputation_v.cpp:316-330 | all repetitions ask the specified transcript, and each circuit constant belongs to its own repetition |
| `GingerProver.Prover.LinRepetition` | code/pepper/libv/gcomputation_p.cpp:387-432 | four of the six queries of a repetition are stored, the other two marked as sums |
| `GingerProver.Prover.DeduceRound` | code/pepper/libv/gcomputation_p.cpp:434-440 | from the same public draws the prover's files spell exactly the verifier's queries |
| `GingerProver.AnswerRound` | code/pepper/libv/prover.cpp:167-210 | every query is answered, the unmaterialised ones by adding the last two answers |
| `GingerProver.AnswerQueries` | code/pepper/libv/prover.cpp:137-219 | over all repetitions the answers are the honest answers to the transcript |
| `Pcp.CktTest` | code/pepper/libv/libv.cpp:686-697 | passes exactly when constant plus the sum of pair differences is 0 modulo the prime |
| `Pcp.RunTests` | code/pepper/libv/gcomputation_v.cpp:351-411 | passes if and only if every linearity, correction and circuit test of every repetition does, for any answers |
| `PcpSound.NonlinearRejected` | code/pepper/libv/libv.cpp:660-670 | for any answers: a repetition whose third linearity answer is not the sum of the first two, for either proof vector, is rejected |
| `PcpSound.WrongProductRejected` | code/pepper/libv/libv.cpp:672-684 | for any answers: a correction answer other than product plus mask is rejected |
| `PcpSound.WrongCircuitRejected` | code/pepper/libv/libv.cpp:686-697 | for any answers: unmasked circuit answers that do not cancel the constant are rejected |
| `PcpSound.UsesEveryDraw` | code/pepper/libv/gcomputation_v.cpp:207-314 | the random query vectors and coefficients of all repetitions, put back in order, are the public draws, none skipped and none used twice |
| `PcpSound.AnyDraws` | code/pepper/libv/gcomputation_v.cpp:123-163 | for every choice of the first two query vectors and of the coefficients there is a tape that draws them |
| `PcpComplete.RoundVerdict` | code/pepper/libv/gcomputation_v.cpp:351-411 | a linear prover with any two proof vectors passes a repetition if and only if the product query is answered right and the circuit value vanishes |
| `PcpComplete.SquareAnswers` | code/pepper/libv/libv.cpp:555-581 | a square answers every product query right |
| `PcpComplete.CorrectionAnswer` | code/pepper/libv/libv.cpp:555-581 | the correction query's answer is the product of two answers plus the mask's answer |
| `PcpComplete.RoundComplete` | code/pepper/libv/gcomputation_v.cpp:351-411 | honest answers pass every test of a repetition whenever the circuit value vanishes, for all coins |
| `PcpComplete.CircuitVanishes` | code/pepper/libv/gcomputation_v.cpp:123-205 | a satisfying assignment makes the circuit value vanish for all coefficients |
| `PcpComplete.PcpCompleteness` | code/pepper/libv/gcomputation_v.cpp:351-411 | for all coins and any number of repetitions honest answers for a satisfying assignment pass every test |
| `PcpSound.WrongSecondRejected` | code/pepper/libv/gcomputation_v.cpp:351-411 | a wrong entry in the second proof vector is found on some tape |
| `PcpSound.ViolationRejected` | code/pepper/libv/gcomputation_v.cpp:351-411 | a violated constraint is found on some tape |
| `PcpSound.PcpExact` | code/pepper/libv/gcomputation_v.cpp:351-411 | a linear prover is accepted on every tape if and only if its second vector holds the products of the first and the program is satisfied |
| `Soundness.AcceptedSatisfies` | code/pepper/libv/gcomputation_v.cpp:351-411 | for a compiled program: accepted on every tape if and only if the proof is right and every line is satisfied |
| `Soundness.AcceptedMeansRun` | code/pepper/libv/gcomputation_v.cpp:351-411 | a linear prover accepted on every tape holds, for every line, the result of the run on the inputs it used |
| `Soundness.AcceptedOutput` | code/pepper/libv/gcomputation_v.cpp:351-411 | any proof vectors and any claimed outputs: if accepted on every tape, the outputs are those the program computes from the inputs |
| `ElGamal.RoundTrip` | code/pepper/crypto/crypto.cpp:305-310 | decrypting an encryption gives `g^m` |
| `ElGamal.HAddEncodes` | code/pepper/crypto/crypto.cpp:312-318 | multiplying cipher texts adds plain texts |
| `ElGamal.SMulEncodes` | code/pepper/crypto/crypto.cpp:320-328 | raising a cipher text multiplies its plain text |
| `ElGamal.DecEncodes` | code/pepper/crypto/crypto.cpp:305-310 | decryption depends on the plain text only |
| `ElGamal.EncVec` | code/pepper/crypto/crypto.cpp:283-303 | cipher `i` sits at positions `2i` and `2i + 1` |
| `ElGamal.Interleave` | code/pepper/common/utility.cpp:169-181 | all first parts, then all second parts |
| `ElGamal.CreateCommitmentQuery` | code/pepper/libv/verifier.cpp:170-196 | after reordering, position `i` and `size + i` are the encryption of entry `i` |
| `ParallelDot.ParallelDotProduct` | code/pepper/crypto/crypto.cpp:412-444 | for every number of threads and every complete schedule of partial products and critical sections, the output encrypts the dot product |
| `Parties.CombineAnswer` | code/pepper/libv/libv.cpp:186-197 | over the integers the consistency answer is the committed sum plus the coin-weighted answers |
| `Commitment.ConsistencyTest` | code/pepper/libv/libv.cpp:704-733 | accepts exactly when the remainder lies in `0 .. order` and `g` to it is the commitment answer |
| `Commitment.ConsistencyExact` | code/pepper/libv/libv.cpp:704-746 | for any number of queries, folded ones included, consistency answer minus coin-weighted answers is `sum r_i F_i` over the integers |
| `Commitment.CommittedRange` | code/pepper/libv/libv.cpp:96-111 | `n prime^2 <= order` keeps the committed sum below the order |
| `Protocol.Commit` | code/pepper/libv/libv.cpp:96-111 | what the verifier decrypts is `g` to the committed sum |
| `Protocol.Decommit` | code/pepper/libv/prover.cpp:137-219 | answers are honest, constants are right, coin `j` is private draw `j`, and the integer consistency equation holds |
| `Protocol.RunAllTests` | code/pepper/libv/verifier.cpp:318-336 | for any prover: acceptance is the conjunction of the consistency test and all PCP tests |
| `Protocol.HonestRun` | code/pepper/libv/verifier.cpp:318-336 | with a satisfying assignment the verifier accepts if and only if the committed sum is below the group order, and always when `(n + n^2) prime^2 <= order`, for all coins, encryption randomness, schedules and repetitions |
| `EndToEnd.VerifyRun` | code/pepper/libv/verifier.cpp:318-336 | the same for the assignment a compiled program delivers, stored under any shuffle |
| `EndToEnd.ProveProgram` | code/pepper/libv/computation_p.cpp:423-510 | the same from the source program and its inputs: compile, run, convert, shuffle, commit, answer, test; the outputs are those of the run; nothing is assumed of gate lines but that their names are declared |
| `Instance.CopyProved` | code/pepper/libv/computation_p.cpp:423-510 | `z = x` is proved and accepted for every input in a large enough group; with input 1 and coins 3 and 4 exactly in groups of order above 7, so in smaller ones the honest prover is rejected |
| `Instance.ComparisonProved` | code/pepper/libv/computation_p.cpp:423-510 | a program with a comparison is proved and accepted for every in-range input, and the accepted output is the outcome of the comparison |
| `Instance.ComparisonSound` | code/pepper/libv/gcomputation_v.cpp:351-411 | the same program: whatever vectors a linear prover holds and whatever output it claims, accepted on every tape the output is the outcome of the comparison |
| `Mle.ChiBoolean` | code/pepper/cmtgkr/cmtgkr_env.cpp:176-186 | `chi_v` is 1 at the boolean point `v` and 0 at every other |
| `Mle.VExtends` | code/pepper/cmtgkr/cmtgkr_env.cpp:347-365 | `V` is the multilinear extension: affine in every variable, and at the boolean point `w` the value of gate `w` |
| `Mle.MulChi` | code/pepper/cmtgkr/cmtgkr_env.cpp:152-186 | bit by bit, the product is `start * chi_v(r)` |
| `Mle.ComputeChiAll` | code/pepper/cmtgkr/cmtgkr_env.cpp:188-221 | the in-place table agrees with `chi` at every index |
| `Mle.EvaluateVi` | code/pepper/cmtgkr/cmtgkr_env.cpp:347-365 | the simple form is the extension `V(r)` |
| `Mle.EvaluateVChis` | code/pepper/cmtgkr/cmtgkr_env.cpp:324-342 | the fast form is the same `V(r)` |
| `Mle.FoldKeepsV` | code/pepper/cmtgkr/cmtgkr_env.cpp:1374-1392 | fixing the lowest variable halves the table and keeps the value of the extension |
| `Mle.UpdateAFast` | code/pepper/cmtgkr/cmtgkr_env.cpp:1374-1392 | the in-place update folds the table, although it overwrites what it still reads from, and touches nothing beyond |
| `Mle.AddModMultSiExact` | code/pepper/cmtgkr/cmtgkr_env.cpp:95-101 | it adds `op1 * op2` if and only if `op2 >= 0` or twice the accumulator is 0 in the field |
| `Mle.AddModMultSiFails` | code/pepper/cmtgkr/cmtgkr_env.cpp:95-101 | adding `1 * -1` to 1 gives 3 in the field of five elements |
| `FirstLevel.RoundConsistent` | code/pepper/cmtgkr/cmtgkr_env.cpp:1395-1470 | each message adds up to the one before it at the coin |
| `FirstLevel.MessageTotal` | code/pepper/cmtgkr/cmtgkr_env.cpp:1419-1434 | every message adds up to the sum of the table it is taken from, the first one to the sum of all gates |
| `FirstLevel.LastMessage` | code/pepper/cmtgkr/cmtgkr_env.cpp:1395-1470 | the last message at the last coin is `V(r)` |
| `FirstLevel.CheckMessages` | code/pepper/cmtgkr/cmtgkr_env.cpp:1439-1462 | the loop ends with the last message at the last coin and reports exactly the rounds whose previous message at its coin is not the first sum |
| `FirstLevel.CheckFirstLevel` | code/pepper/cmtgkr/cmtgkr_env.cpp:1395-1470 | all messages are the sums over the folded tables, the first adds up to the sum of the gates, consecutive ones are consistent, `V(r)` is returned, and "Check failed" is printed for exactly those rounds in which the folded table no longer has the sum of the gates |
| `FirstLevel.PrintedCheck` | code/pepper/cmtgkr/cmtgkr_env.cpp:1441-1462 | for honest messages the comparison of round `j` succeeds if and only if fixing the first `j` variables kept the sum of the table |
| `FirstLevel.PrintedCheckFails` | code/pepper/cmtgkr/cmtgkr_env.cpp:1441-1462 | gates 1, 0, 0, 0 and first coin 1: all rounds are consistent and the comparison fails |
| `Wiring.DiagonalEqual` | code/pepper/cmtgkr/cmtgkr_env.cpp:707-757 | summing `chi_g` products over all labels is multiplying coordinate by coordinate |
| `Wiring.CheckEqual` | code/pepper/cmtgkr/cmtgkr_env.cpp:707-757 | `rop` times the equality polynomial, for any number of points |
| `Wiring.EvaluateBeta` | code/pepper/cmtgkr/cmtgkr_env.cpp:303-322 | the multilinear extension of label equality |
| `Wiring.CheckWiring` | code/pepper/cmtgkr/cmtgkr_env.cpp:693-705 | adds one gate's contribution |
| `Wiring.F2MultD` | code/pepper/cmtgkr/cmtgkr_env.cpp:653-681 | for equal layer sizes the formula is, at every point, the sum of `check_wiring` over all squaring gates |
| `Wiring.F2UnequalSizes` | code/pepper/cmtgkr/cmtgkr_env.cpp:653-681 | with fewer gate bits than input bits there is a point where the formula is 1 and the sum over gates is 0 |
| `Wiring.F2Exact` | code/pepper/cmtgkr/cmtgkr_env.cpp:653-681 | the formula is the extension at all points if and only if the layers have equal size |
| `Wiring.Reduce` | code/pepper/cmtgkr/cmtgkr_env.cpp:818-846 | the formula is the sum of `check_wiring` over all adding gates, and over the single gate of the last layer |
| `MatWiring.AllGates` | code/pepper/cmtgkr/cmtgkr_env.cpp:1060-1121 | the triple sum over all multiplication gates is a product of equality polynomials |
| `MatWiring.MatMult63P3d` | code/pepper/cmtgkr/cmtgkr_env.cpp:1060-1121 | the formula is the sum of `check_wiring` over all `q^3` multiplication gates |
| `Barycentric.OthersStep` | code/pepper/libv/libv.cpp:150-182 | neighbouring products differ by the factor of the recurrence |
| `Barycentric.ComputeSetV` | code/pepper/libv/libv.cpp:150-182 | `v_j` is the inverse of the product of differences, for points `0 .. size - 1` |
| `Barycentric.LagrangeAtNode` | code/pepper/libv/libv.cpp:150-182 | with such weights the interpolant takes the given values at the nodes |
| `RootsOfUnity.GeneratedOrder` | code/pepper/libv/libv.cpp:904-957 | the element derived from a non-residue has order exactly `n`, for a power of two dividing `p - 1` |
| `RootsOfUnity.GenerateRoot` | code/pepper/libv/libv.cpp:904-957 | success means the `n`-th power is 1, and the table holds all powers |
| `RootsOfUnity.OthersTurn` | code/pepper/libv/libv.cpp:125-148 | each product is `w^(n-1)` times the one before |
| `RootsOfUnity.ComputeSetVOmega` | code/pepper/libv/libv.cpp:125-148 | `v_j` is the inverse of the product of differences, for all powers of a root of order `n` |
| `Interpolation.PartialIsLagrange` | code/pepper/libv/libv.cpp:358-476 | the barycentric sum times `l(tau)` is the Lagrange interpolant |
| `Interpolation.FullProduct` | code/pepper/libv/libv.cpp:358-476 | the running product is `l(tau)` |
| `Interpolation.EvaluateColumns` | code/pepper/libv/libv.cpp:358-476 | every entry is its matrix column's interpolant at `tau`, repeated coefficients added up |
| `Interpolation.DStar` | code/pepper/libv/libv.cpp:358-476 | `d_star` is the product over all nodes but the first |
| `Interpolation.InterpolantUnique` | code/pepper/libv/libv.cpp:358-476 | every polynomial with as few coefficients through the same values has the interpolant's value everywhere |
| `Extrapolation.Extrap` | code/pepper/cmtgkr/cmtgkr_env.cpp:486-518 | the result is the value at `r` of every polynomial of small enough degree through the given points, at every `r`, nodes included |
| `Extrapolation.BaryWeights` | code/pepper/cmtgkr/cmtgkr_env.cpp:393-423 | away from the nodes the weights are the Lagrange basis values at `r`; at a node they are all 0 |
| `Extrapolation.BaryWeights3` | code/pepper/cmtgkr/cmtgkr_env.cpp:368-390 | the three weights are the basis values at every `r`, nodes included, for odd primes |
| `Extrapolation.BaryExtrap` | code/pepper/cmtgkr/cmtgkr_env.cpp:426-446 | one weighted sum for each group of values |
| `Extrapolation.CombinationExtrapolates` | code/pepper/cmtgkr/cmtgkr_env.cpp:426-446 | such a sum with basis values is the value at `r` of every polynomial through the points |
| `Extrapolation.BaryExact` | code/pepper/cmtgkr/cmtgkr_env.cpp:393-446 | precomputed weights are right for all values if and only if `r` is not a node |
| `Extrapolation.BaryFails` | code/pepper/cmtgkr/cmtgkr_env.cpp:393-446 | the constant 1, extrapolated to a node, comes out as 0 |
| `Extrapolation.Extrap3` | code/pepper/cmtgkr/cmtgkr_env.cpp:449-481 | the three-point formula is the value at `r` of every polynomial of degree at most 2 through the points |
| `Lcs.NeighboursClose` | code/pepper/apps_sfdl_hw/dna_align_p_exo.cpp:10-40 | the two neighbours of a cell differ by at most one |
| `Lcs.FillTable` | code/pepper/apps_sfdl_hw/dna_align_p_exo.cpp:10-40 | every cell holds the longest-common-subsequence length of its suffixes and the choice that explains it |
| `Lcs.UpperBound` | code/pepper/apps_sfdl_hw/dna_align_p_exo.cpp:10-40 | no common subsequence is longer |
| `Lcs.SpelledIsLongest` | code/pepper/apps_sfdl_hw/dna_align_p_exo.cpp:41-68 | from every cell the traceback spells the preferred common subsequence of the suffixes, of the length stored there |
| `Lcs.KeepsFirst` | code/pepper/apps_sfdl_hw/dna_align_p_exo.cpp:34-40 | the preferred subsequence keeps the first element of the first sequence whenever some longest one starts with it |
| `Lcs.Trace` | code/pepper/apps_sfdl_hw/dna_align_p_exo.cpp:41-68 | the walk compares the whole spelled sequence with the output |
| `Lcs.Baseline` | code/pepper/apps_sfdl_hw/dna_align_p_exo.cpp:10-68 | accepts exactly the outputs that start with the preferred common subsequence, which is a longest one |
| `Fannkuch.FlipPerm` | code/pepper/apps_sfdl_hw/fannkuch_p_exo.cpp:20-31 | a flip keeps a permutation |
| `Fannkuch.FlipSettles` | code/pepper/apps_sfdl_hw/fannkuch_p_exo.cpp:20-31 | every flip raises the weighted count of cards in place |
| `Fannkuch.FlipsFirst` | code/pepper/apps_sfdl_hw/fannkuch_p_exo.cpp:20-31 | the count is the first number of flips after which the top card is 1 |
| `Fannkuch.FlipsBounded` | code/pepper/apps_sfdl_hw/fannkuch_p_exo.cpp:20-31 | so the number of flips is bounded |
| `Fannkuch.ReversePrefix` | code/pepper/apps_sfdl_hw/fannkuch_p_exo.cpp:20-31 | in-place reversal of the prefix |
| `Fannkuch.CountFlips` | code/pepper/apps_sfdl_hw/fannkuch_p_exo.cpp:20-31 | the loop ends and returns the first number of flips after which the top card is 1 |
| `Fannkuch.MaxFlips` | code/pepper/apps_sfdl_hw/fannkuch_p_exo.cpp:10-38 | the maximum over all permutations visited |
| `Hamming.HammingSound` | code/pepper/apps_tailored/hdist_v.cpp:289-399 | every assignment meeting the `2 m^2 + 2 m` constraints has the Hamming distances as outputs |
| `Hamming.Assign` | code/pepper/apps_tailored/hdist_p.cpp:236-256 | the honest loops meet every constraint |
| `HammingQueries.Gamma1` | code/pepper/apps_tailored/hdist_v.cpp:289-399 | the query returns the weighted `A` terms of the constraints |
| `HammingQueries.Gamma2` | code/pepper/apps_tailored/hdist_v.cpp:289-399 | the query returns the weighted `M` terms |
| `HammingQueries.Gamma3` | code/pepper/apps_tailored/hdist_v.cpp:289-399 | the query returns the weighted `S` terms |
| `HammingQueries.Gamma45` | code/pepper/apps_tailored/hdist_v.cpp:289-399 | the queries return the weighted product terms |
| `HammingQueries.Gamma0` | code/pepper/apps_tailored/hdist_v.cpp:442-482 | the constant is the weighted sum of constants, outputs and inputs |
| `HammingQueries.CombinedConstraint` | code/pepper/apps_tailored/hdist_v.cpp:289-482 | the pieces add up to the weighted constraints |
| `HammingQueries.FillProducts` | code/pepper/apps_tailored/hdist_p.cpp:258-271 | the product vectors are the full outer products, reduced |
| `HammingQueries.CircuitTest` | code/pepper/apps_tailored/hdist_v.cpp:289-482 | for any assignment: gamma_0 plus all answers is the weighted sum of the constraints |
| `HammingQueries.HonestCircuitTest` | code/pepper/apps_tailored/hdist_p.cpp:236-271 | honest outputs are the distances and the circuit sum vanishes for all coefficients |

## Left out

- MontReduce.MontgomeryMul: requires `2S + 1 < B`, as the product below it does.
- MontMul.Mul: requires `2S + 1 < B`; with fewer values per word than limbs a carry slot could wrap around. Every configuration of the library has `S <= 64` and `B = 2^32` or `2^64`.
- Clnw.GetClnw: excludes exponent 0, for which the code writes `length[-1]`, and widths of 768 bits and more, where six-bit windows break the code's own bound of 32 on fragments.
- FixedBase.PowmCache.ComputeCache: chunk sizes are unbounded integers; the code's `1 << window` overflows for windows of 31 bits and more.
- MultiExp.SortStates: sorting is an insertion sort; `std::sort` promises no more than the permutation and the order stated. Equal locations may come in either order.
- Expand.ParsePrinted: for text with a sign before every term; `Text.CompilerReads` and `Text.BlanksIgnored` cover unsigned first terms, runs of signs and blanks.
- Worksheet.ComputePrinted: for text with a sign before every term (`Text.InterpreterReads` and `Text.BlanksSkipped` cover the rest), nested at most seven deep, the room in the stack of temporaries; deeper text ends the code with an error, here `None` (`StackDepth.PrintedExact`).
- CompileSound.ProgramSound: relative to a run whose values are in range, because the constraints say nothing about values out of range.
- RootsOfUnity.GenerateRoot: starts from a candidate already drawn; the random search for a non-residue is not modelled.
- Interpolation.EvaluateColumns: `tau` is not a node; one mode of the code exits there, the other divides by zero.
- Lcs.Baseline: the output buffer is at least as long as the subsequence, as the generated program guarantees.
- Fannkuch.MaxFlips: the permutations visited are a parameter; `std::next_permutation` is not modelled.
- Extrapolation.BaryWeights3: excludes the prime 2, for which the code's inverse of 2 does not exist.
- Extrapolation.Extrap: at most as many points as the field has elements; beyond that two nodes coincide.
- MultiExp.MultiSchedule: excludes exponent 0, as the decomposition does.
- Hamming.Assign: inputs are in the field's range, which the application draws them from; out of range, entries equal in the field but not as integers would have no inverse.
- Wiring.F2MultD: more gate bits than input bits read beyond the point and are excluded.
- Limb code: the slow Montgomery form, `mp_add`, the bitwise exponentiation, VLNW windows and the CUDA kernels.
- Worksheet text: tokens are a datatype and the final `E` reads as a closing parenthesis; big-endian split `SI`, short-circuit lines, the duplicate static generator and the deliberate omission of worksheet lines (`proverBugginess`) are not modelled.
- Variable arrays of the prover: the store is a map from names; `Layout.Place` carries it to shuffled positions.
- Zaatar: matrix generation and its query creation beyond interpolation of matrix columns at a point.
- Batches: one instance at a time; sharing of queries between instances is by the same tape.
- File and network transport, the fixed size of query lists read back from disk, key generation, fixed-base tables of the encryption, the gmpmee path and simultaneous encryption of several components.
- Randomness: the generators are tapes; probabilistic soundness of PCP, sum-check and encryption is not decided by the code.
- GKR: floating-point wiring (`FLT_mul`, `FLT_add`), `check_level`, and the per-layer sum-check that uses the extrapolation helpers.
- The other application baselines (sorting, matrix product, bisection, clustering), which would only add easy members.
