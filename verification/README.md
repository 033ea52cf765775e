# Verified model of the garbled-circuit engine

A Dafny 4.11 model of a streaming garbled-circuit engine and of the arithmetic it is used for, with
proofs. `dafny verify dfyconfig.toml` checks everything.

**Circuits with bounded memory** (`programs`, `component_meta`, `template_pool`, `storage`, `layout`,
`direct`, `streaming`, `loads`, `execute`). A circuit body is data: it issues wires, adds gates, calls child
components and returns wires. The first pass counts how often each wire is read; the second pass
hands the counts out as credits, frees a wire's slot on its last read and lets the slot be taken
again. `Direct.Eval` is the same circuit without any freeing, and `Execute.Plain` is its meaning with
no wire ids at all. `Streaming.Context.Run` shows that the machine with recycled slots, credit frames,
top-ups and the template cache computes what `Eval` computes, from any state in which every slot holds
exactly the uses still to come; `RunStreaming` shows it for whole circuits and that no slot is left.

**Garbling** (`gates`, `garbling`, `simulation`, `multigarbling`, `ciphertext_hasher`). Boolean
execution, garbling, evaluation and N-lane garbling are backends of one evaluator. A relation that one
gate keeps is kept by every run, so one lemma per gate gives the simulation theorems for all circuits.
Labels are 128-bit strings under exclusive or; the hash is any function.

**Arithmetic** (`basic`, `bigint_*`, `modular`, `field`, `montgomery`, `montgomery_field`, `inverse`).
The gadgets are methods with the loops of the source. A wire is represented by the bit it carries, and
adding a gate computes the bit of its output. That this is what the engine does with a gadget's gates is
`Execute.PlainRefines`; `adder_circuit` carries it out for the ripple adder called as a component, from
gates to streaming execution and to garbling followed by evaluation. Widths and moduli are parameters: p is any odd number
with 2^(n-1) < p < 2^n.

**Secret sharing** (`polynomial`, `lagrange`, `signed_digits`, `vsss_core`, `vsss_shares`, `wide_garbling`,
`vsss_protocol`). Interpolation by factorials, signed-digit and windowed multiplication in a cyclic
group, verification of commitments, and the evaluator's reconstruction of every finalized instance's
input labels, which are the inputs that the garbling theorem starts from.

Hypotheses that the theorems carry:

- the key of a component determines its body (`KeysAgree`);
- 16-bit read counters do not overflow: `RootFits`, and that the direct run does not end in
  `CreditOverflow`. `Loads.LightCircuits` bounds the counters by the circuit alone, and
  `Garbling.RunsForAllInputs` shows that the input bits do not matter. The adder satisfies both
  hypotheses at every width;
- the multiplicative group is cyclic of prime order, given by a map from integers to its elements;
- no wide label before the right one has a mask that agrees with the right one's on all 128 bits of the
  tag (`NoFalseOpening`). `WideGarbling.LookupExact` shows that the lookup is right exactly then.

Places where code and comments differ, or where a property holds only in part; the model follows the
code:

- A gate whose output is unread still advances the gate index when garbling and evaluating, although the
  comments say it does not (src/circuit/modes/garble_mode.rs:200-205,
  src/circuit/modes/evaluate_mode.rs:128-133). Only the boolean mode skips it. All that matters for
  garbling is that the two sides agree. `Garbling.UnreadGate` is an instance.
- A batch holds 61 ciphertexts; comments speak of 64 (src/ciphertext_hasher.rs:3-7).
- Writing a wire that is not read again is checked only by whether its slot is occupied
  (src/storage.rs:185-198): the write aborts if the slot is free, and lands in another wire if the slot
  was taken again (`Streaming.WriteLands`, and `Execute.RecycledWrite` for an instance). In-place
  negation reads the wire it writes, so it aborts exactly if nothing reads the wire afterwards
  (`Streaming.InPlaceIff`; `Streaming.InPlaceRoot` and `Execute.InPlaceExamples` for whole circuits).
  If something does, the circuit is covered by every theorem about runs.
- Field negation gives p for zero. Subtraction is canonical all the same.
- Exponentiation with exponent zero gives the plain one; `MontgomeryField.PlainOne` says for which
  moduli that is the Montgomery form of one.
- The Montgomery inverse of zero is said to abort (src/gadgets/bn254/fp254impl.rs:678-679); the circuit
  computes something. `Inverse.InverseOf` gives an inverse exactly for elements coprime to p.
- The recoding of scalars is said to use the fewest additions and subtractions
  (src/cut_and_choose/vsss/core.rs:12). It takes four for 27 = 32 - 4 - 1 (`SignedDigits.NotAlwaysFewest`);
  `SignedDigits.FewestIff` says for which bit vectors the claim is true.
- Division by six is right for every modulus that three does not divide, not only for p = 1 modulo 3.
- The key of a chunk of the constant multiplication omits the constant
  (src/gadgets/bigint/mul.rs:281-289), so that the key determines the body is an assumption there.

## Model

| member | source | states |
|---|---|---|
| `Storage.Store.Allocate` | src/storage.rs:119-133 | an entry with credits gets an index that is not in use; without credits nothing is stored and the key is the sentinel |
| `Storage.Store.AddCredits` | src/storage.rs:137-151 | a live entry gains credits and nothing else changes; a missing entry or a 16-bit overflow is an error and changes nothing |
| `Storage.Store.Get` | src/storage.rs:158-179 | the value is returned and one credit is spent; the last credit frees the slot; a missing entry is an error |
| `Storage.Store.Set` | src/storage.rs:185-198 | the value of a live entry is replaced, its credits stay; a missing entry is an error |
| `Gates.AlphasCharacterise` | src/core/gate_type.rs:20-37 | the half-gates parameters of a non-free gate are the only ones with which it is an AND with inverted inputs and output, and `and_variant` inverts the table |
| `Gates.TruthNumbers` | src/core/gate_type.rs:38-57 | what each of the eleven gates does to bits as numbers: product, sum less product, sum modulo two, comparison, and the negations of these |
| `ComponentMeta.Builder.IncrementCredits` | src/circuit/component_meta.rs:78-80 | every position of the wires that holds an internal wire adds one to its counter; no other counter changes |
| `ComponentMeta.Builder.Pass` | src/circuit/component_meta.rs:255-302 | the metadata pass over a body leaves each wire the number of its reads: by gates, and as inputs of children, which are not entered |
| `ComponentMeta.BuildTemplate` | src/circuit/component_meta.rs:118-150 | running the builder over a body and building gives exactly the counts and output kinds of its read-count specification |
| `ComponentMeta.ToInstance` | src/circuit/component_meta.rs:177-219 | an instance stacks the internal counters plus the caller's reads of outputs, first issued on top, and tops inputs up for their reads and for outputs they are passed through to |
| `ComponentMeta.InstanceMeaning` | src/circuit/component_meta.rs:177-219 | so every internal wire gets all its uses, by the body and through the outputs, and the top-ups of an input position add up to the uses of its wire, none of them zero |
| `Programs.FutureOfInputs` | src/circuit/streaming_mode.rs:150-247 | all uses of a wire inside a child are those of the input positions it is passed as, each weighted by the uses of the child's name for it |
| `Programs.FutureBindAll` | src/circuit/streaming_mode.rs:150-247 | what the caller will do with a wire once the child's outputs are bound is what it would do anyway plus the uses of the outputs that stand for the wire |
| `TemplatePool.Pool.Get` | src/circuit/component_template_pool.rs:72-78 | a hit returns the cached value and moves its key to the front; a miss changes nothing |
| `TemplatePool.Pool.Insert` | src/circuit/component_template_pool.rs:81-108 | an old key is replaced and moved to the front and its value returned; a new key is put in front, after dropping the last if the pool is full |
| `TemplatePool.Pool.GetOrInsertWith` | src/circuit/component_template_pool.rs:111-135 | a hit returns the cached value, a miss what is built; the recency list changes accordingly |
| `TemplatePool.Pool.MoveToFront` | src/circuit/component_template_pool.rs:137-172 | the link updates move one entry to the front of the list that links, map and slab describe, and keep every value |
| `TemplatePool.Pool.AttachToFront` | src/circuit/component_template_pool.rs:174-184 | a new entry comes before all others |
| `TemplatePool.Pool.EvictLru` | src/circuit/component_template_pool.rs:186-202 | exactly the last entry goes, from links, map and slab |
| `TemplatePool.RelinkedRepresents` | src/circuit/component_template_pool.rs:137-172 | after the link updates the forward links, backward links, map and slab again describe one duplicate-free list |
| `TemplatePool.RunIsRecency` | src/circuit/component_template_pool.rs:72-135 | after any history of `get`, `insert` and `get_or_insert_with` the pool holds the most recently used distinct keys, as many as fit, each with its latest value; a hit of any of the three is a use, and a miss of `get` is not |
| `TemplatePool.RunValues` | src/circuit/component_template_pool.rs:111-135 | if every value comes from one function of the key, so does every value kept, whatever was evicted in between |
| `Direct.EvalArity` | src/circuit/streaming_mode.rs:150-247 | a direct run returns as many outputs as the arity and never drops a cell |
| `Layout.HoldsRead` | src/storage.rs:158-179 | a read finds the cell's value in the slot that holds it, and the slot is freed exactly if no use is left |
| `Layout.HoldsAllocate` | src/storage.rs:119-133 | a fresh cell can take any vacant slot, a recycled one included |
| `Layout.TopUpsAreFuture` | src/circuit/component_meta.rs:177-219 | the top-ups applied to a wire, over all positions it is passed at, add up to its uses inside the child |
| `Streaming.Context.LookupWire` | src/circuit/streaming_mode.rs:36-41 | constants come from the mode; any other wire costs one credit |
| `Streaming.Context.EvaluateGate` | src/circuit/modes/garble_mode.rs:167-231 | two paid reads, then a write, or for an unreachable output only the mode's skip; every failure is the first one met |
| `Streaming.GateRefines` | src/circuit/modes/garble_mode.rs:167-231 | a gate on the slab gives the value and mode of the direct evaluator, and every slot keeps exactly its uses still to come |
| `Streaming.GateFails` | src/circuit/modes/garble_mode.rs:167-231 | a gate whose output wire is still held when it starts panics on the slab exactly if it faults on the direct evaluator's cells |
| `Streaming.WriteLands` | src/storage.rs:185-198 | for every gate that computes a value: it goes to whichever wire owns the output's slot after the two reads, which is the output exactly if the output is still read; the gate aborts exactly if no wire owns it |
| `Streaming.InPlaceIff` | src/core/gate.rs:136-144 | overwriting a wire in place aborts exactly if the wire is not read again |
| `Streaming.InPlaceRoot` | src/core/gate.rs:136-144 | a circuit that begins by negating input i runs as the rest does on the negated input if the rest reads input i, and aborts otherwise |
| `Streaming.Context.Instantiate` | src/circuit/streaming_mode.rs:189-212 | the child's frame and top-ups are those of its body, whether its template was cached, evicted or just built |
| `Streaming.Context.TopUpInputs` | src/circuit/streaming_mode.rs:212-220 | top-ups raise each input wire's credits by its uses in the child, position by position |
| `Streaming.Context.PassInputs` | src/circuit/streaming_mode.rs:212-232 | after top-ups and unpinning every input slot has exactly its uses left |
| `Streaming.Context.EnterCall` | src/circuit/streaming_mode.rs:183-233 | entering a child tops up and unpins its inputs, pushes its frame, and leaves all values in place |
| `Streaming.Context.StepIssue` | src/circuit/streaming_mode.rs:261-271 | a new wire gets the next credit of its frame, which is the number of its uses |
| `Streaming.Context.RunChild` | src/circuit/streaming_mode.rs:150-247 | a whole child call returns the direct evaluator's outputs and state, with the caller's frame as it left it less the output credits |
| `Streaming.Context.Run` | src/circuit/streaming_mode.rs:134-247 | the execution pass over any well-formed body, from any reachable state, meets no missing, freed or recycled slot, and ends with the direct evaluator's outputs and mode and an empty frame |
| `Streaming.RunStreaming` | src/circuit/mod.rs:280-328 | for every circuit: inputs read back, outputs and mode are those of an evaluator that frees nothing, and no slot is left |
| `Streaming.StartRoot` | src/circuit/streaming_mode.rs:79-118 | the root frame holds the uses of every issued wire and, above them, one more than the uses of each input |
| `Execute.PlainRefines` | src/circuit/modes/execute_mode.rs:56-90 | the direct run of any body with a plain single-assignment meaning computes that meaning, with unread wires as sentinels and names as cells |
| `Execute.RootSucceeds` | src/circuit/mod.rs:280-328 | a circuit with a plain meaning can only fail by overflowing a 16-bit counter |
| `Execute.PlainRuns` | src/circuit/mod.rs:280-328 | a circuit with a plain meaning whose counters do not overflow meets the hypotheses of all theorems about runs |
| `Execute.StreamingExecute` | src/circuit/mod.rs:125-137 | bounded-memory execution gives the outputs of the run that frees nothing, in-place gates included, and the plain meaning of a circuit that has one |
| `Execute.InPlaceExamples` | src/core/gate.rs:136-144 | negating the only input aborts if it is not returned, and gives its negation if it is |
| `Execute.RecycledWrite` | src/storage.rs:185-198 | a write to a dead wire whose slot was taken again overwrites the other wire, where the direct evaluator faults |
| `Loads.PeakFits` | src/storage.rs:137-151 | along any chain of calls a wire is due at most as many reads as the bodies on the chain make; if that fits 16 bits no counter of any run overflows |
| `Loads.LightCircuits` | src/circuit/component_meta.rs:83-219 | a bound on the circuit alone that gives both hypotheses about counters for every backend and input |
| `Loads.CounterWidth` | src/storage.rs:29-30 | counters are 16 bits wide |
| `Garbling.MixNum` | src/core/s.rs:102-104 | mixing labels is addition of 128-bit numbers without the carries |
| `Garbling.MixZero` | src/core/s.rs:102-104 | the zero label is neutral and every label is its own inverse |
| `Garbling.AndGateLabels` | src/circuit/modes/garble_mode/halfgates_garbling.rs:5-41 | when the bit of wire a decides a non-free gate, the active output label is the hash of a's active label under the gate's index; the ciphertext appended is both hashes of a and the label of b for the bit that decides the gate |
| `Garbling.FreeGateLabels` | src/circuit/modes/garble_mode/halfgates_garbling.rs:5-41 | a free gate streams nothing; its active output label is the mix of the active inputs, or the input's for a negation |
| `Garbling.DegarbleInverts` | src/circuit/modes/garble_mode/halfgates_garbling.rs:104-133 | for every gate, labels, delta and bits, degarbling the active labels gives the active label of the gate's output bit; exactly the non-free gates have a ciphertext |
| `Garbling.EvaluateStepMatches` | src/circuit/modes/evaluate_mode.rs:123-160 | the ciphertext the evaluator takes is the one emitted for the same gate, and both advance their gate index |
| `Simulation.RunMatches` | src/circuit/streaming_mode.rs:134-247 | a relation between two backends that one gate keeps is kept by every run of every circuit |
| `Simulation.RunCounts` | src/circuit/modes/garble_mode.rs:127-131 | if every gate advances the index by one, read or not, a run advances it by the number of gates over the whole tree of calls |
| `Garbling.ConstantLabels` | src/circuit/modes/garble_mode.rs:167-198 | reading a constant gives the garbler the zero label drawn for it and the evaluator the active label of its value |
| `Garbling.GarblingSimulates` | src/circuit/modes/garble_mode.rs:167-231 | garbling and evaluation succeed whenever the boolean run does; every live wire holds the active label of the boolean value; the evaluator consumes exactly what was emitted; both end at the number of gates of the whole circuit |
| `Garbling.UnreadGate` | src/circuit/modes/garble_mode.rs:200-205 | a gate whose output nothing reads is counted when garbling and not in the boolean run |
| `Garbling.RunsForAllInputs` | src/circuit/streaming_mode.rs:134-247 | whether a circuit runs, and which wires it returns, does not depend on its input bits |
| `Garbling.GarbleThenEvaluate` | src/circuit/mod.rs:210-277 | the same end to end through two bounded-memory runs, for every circuit that runs |
| `Multigarbling.NewLanes` | src/circuit/modes/multigarble_mode.rs:36-68 | hashers first and secrets second give every lane what a single garbler with its generator gets: its hasher, then the next three labels of its own stream as delta, FALSE and TRUE, and the stream left after them |
| `Multigarbling.NewGarblerDraws` | src/circuit/modes/garble_mode.rs:79-100 | a single garbler draws, after its hasher, delta, FALSE and TRUE in this order |
| `Multigarbling.IssueBatches` | src/circuit/modes/multigarble_mode.rs:76-78 | wires issued across lanes are, lane by lane, those of one generator |
| `Multigarbling.GarbleGateBatch` | src/circuit/modes/garble_mode/halfgates_garbling.rs:43-101 | the batched loops garble every lane as the single-lane function does |
| `Multigarbling.LaneIsGarbling` | src/circuit/modes/multigarble_mode.rs:151-190 | lane i of a multigarbling run is the garbling run with the secrets of lane i: same wires, labels, gate index and ciphertexts |
| `Multigarbling.MultigarbleThenLane` | src/circuit/modes/multigarble_mode.rs:36-190 | from the generators to the outputs, through two bounded-memory runs: lane i has the output labels, gate count and ciphertexts of a single garbling with generator i; the count is the number of gates of the whole circuit |
| `Basic.HalfAdder` | src/gadgets/basic.rs:7-15 | sum and carry of two bits |
| `Basic.FullAdder` | src/gadgets/basic.rs:17-32 | sum and carry of three bits |
| `Basic.HalfSubtracter` | src/gadgets/basic.rs:34-46 | difference and borrow of two bits |
| `Basic.FullSubtracter` | src/gadgets/basic.rs:48-63 | difference and borrow of three bits |
| `Basic.Selector` | src/gadgets/basic.rs:65-71 | the first input if the selector is set, otherwise the second |
| `Basic.Multiplexer` | src/gadgets/basic.rs:74-105 | the table entry that the selector bits number, for every number of selector bits |
| `BigIntAdd.Add` | src/gadgets/bigint/add.rs:9-26 | the exact sum, with one more bit |
| `BigIntAdd.AddConstant` | src/gadgets/bigint/add.rs:39-82 | the exact sum with a nonzero constant |
| `BigIntAdd.Sub` | src/gadgets/bigint/add.rs:95-114 | the difference modulo the width; the last bit tells whether it is negative |
| `BigIntAdd.DoubleWithoutOverflow` | src/gadgets/bigint/add.rs:135-141 | twice the number modulo the width |
| `BigIntAdd.Half` | src/gadgets/bigint/add.rs:143-153 | half the number, rounded down |
| `BigIntAdd.OddPart` | src/gadgets/bigint/add.rs:155-190 | an odd number and a power of two whose product is the input; two zeros for zero |
| `BigIntSelect.Multiplex` | src/gadgets/bigint/cmp.rs:172-194 | the selected bit vector of a table |
| `BigIntSelect.SelfOrZero` | src/gadgets/bigint/cmp.rs:11-22 | the vector if the selector is set, otherwise zeros |
| `BigIntCompare.Equal` | src/gadgets/bigint/cmp.rs:44-58 | true exactly for equal numbers |
| `BigIntCompare.EqualConstant` | src/gadgets/bigint/cmp.rs:61-85 | true exactly if the number is the constant |
| `BigIntCompare.EqualZero` | src/gadgets/bigint/cmp.rs:88-107 | true exactly for zero |
| `BigIntCompare.GreaterThan` | src/gadgets/bigint/cmp.rs:110-129 | true exactly if the first number is greater |
| `BigIntCompare.LessThanConstant` | src/gadgets/bigint/cmp.rs:132-151 | true exactly if the number is less than the constant |
| `BigIntMul.MulNaive` | src/gadgets/bigint/mul.rs:20-55 | the exact product at every width |
| `BigIntMul.MulKaratsuba` | src/gadgets/bigint/mul.rs:58-183 | the exact product at every width, with recursion on halves and on sums one bit wider |
| `BigIntMul.CrossTerm` | src/gadgets/bigint/mul.rs:128-160 | the cross term is exact and fits one bit more than the factors |
| `BigIntMul.Assemble` | src/gadgets/bigint/mul.rs:167-180 | the three slice writes lose no carry: the result is the product |
| `BigIntMul.Mul` | src/gadgets/bigint/mul.rs:185-206 | the exact product for operands of up to 4000 bits |
| `BigIntMul.MulByConstant` | src/gadgets/bigint/mul.rs:209-239 | the exact product with a constant that fits the width |
| `BigIntMul.MulByConstantModuloPowerTwo` | src/gadgets/bigint/mul.rs:242-329 | the product with a constant modulo a power of two, whatever the chunks |
| `BigIntMul.AccumulatedStep` | src/gadgets/bigint/mul.rs:301-324 | one shifted addition keeps the accumulator congruent, and a carry only lands on a bit that was zero |
| `Field.Add` | src/gadgets/bn254/fp254impl.rs:96-113 | exact on all inputs; canonical sum modulo p of canonical inputs |
| `Field.AddConstant` | src/gadgets/bn254/fp254impl.rs:116-139 | the sum reduced once, except that zero passes the input through; canonical for canonical inputs |
| `Field.Neg` | src/gadgets/bn254/fp254impl.rs:153-166 | p - a for every a up to p, so the noncanonical p for zero; 2p - a above |
| `Field.Sub` | src/gadgets/bn254/fp254impl.rs:143-149 | the canonical difference modulo p of canonical inputs, although the negation may not be canonical |
| `Field.Double` | src/gadgets/bn254/fp254impl.rs:170-189 | exact on all inputs; canonical for canonical inputs |
| `Field.Half` | src/gadgets/bn254/fp254impl.rs:193-201 | half of a or of a + p, whichever is even; canonical for canonical inputs |
| `Field.Triple` | src/gadgets/bn254/fp254impl.rs:728-732 | three times the input modulo p |
| `Field.DivideByThree` | src/gadgets/bn254/fp254impl.rs:743-782 | the bit-serial loop gives quotient and remainder of the division by three, the remainder in two wires that are never both set |
| `Field.Div6` | src/gadgets/bn254/fp254impl.rs:735-793 | the canonical a/6 modulo p for every a below p and every p that three does not divide; no correction overflows p |
| `Montgomery.QuotientRemainder` | src/math/montgomery.rs:10 | division truncates toward zero: the remainder is smaller than the divisor and has the sign of the dividend |
| `Montgomery.ExtendedGcd` | src/math/montgomery.rs:4-18 | Bezout coefficients of any two integers under truncating division, and a number with exactly their common divisors |
| `Montgomery.CalculateMontgomeryConstants` | src/math/montgomery.rs:20-37 | canonical mutual inverses; none exactly if the arguments are not coprime or one is zero |
| `Montgomery.FieldParams` | src/gadgets/bn254/fp254impl.rs:76-85 | for every odd modulus of n bits the constants exist |
| `MontgomeryField.Reduce` | src/gadgets/bn254/fp254impl.rs:304-331 | congruent to x divided by 2^n for every x, canonical for every x below p * 2^n, through a subtraction that wraps |
| `MontgomeryField.MulMontgomery` | src/gadgets/bn254/fp254impl.rs:216-226 | the canonical product less one factor 2^n |
| `MontgomeryField.MulByConstantMontgomery` | src/gadgets/bn254/fp254impl.rs:253-271 | the same for a constant, with the two shortcuts |
| `MontgomeryField.ExpByConstantMontgomery` | src/gadgets/bn254/fp254impl.rs:693-725 | the Montgomery form of the power for every positive exponent; the plain one for zero |
| `MontgomeryField.PlainOne` | src/gadgets/bn254/fp254impl.rs:698-700 | the plain one is the Montgomery form of one exactly if p is 2^n - 1 |
| `Inverse.RoundBalanced` | src/gadgets/bn254/fp254impl.rs:422-537 | a round keeps p = us + vr with all four positive, the congruences of r and s, and gcd(u, v) = 1 |
| `Inverse.RoundShrinks` | src/gadgets/bn254/fp254impl.rs:422-537 | every active round counts one and at least halves uv |
| `Inverse.RoundsSuffice` | src/gadgets/bn254/fp254impl.rs:394-412 | after 2n rounds v is one, and the count is below p |
| `Inverse.RoundKeeps` | src/gadgets/bn254/fp254impl.rs:443-526 | no selected number overflows n bits |
| `Inverse.IterationStep` | src/gadgets/bn254/fp254impl.rs:412-537 | the masked sums on wires compute the round |
| `Inverse.DivideByEvenPart` | src/gadgets/bn254/fp254impl.rs:547-608 | n conditional halvings divide by the even part |
| `Inverse.DivideByPow2K` | src/gadgets/bn254/fp254impl.rs:612-660 | 2n conditional halvings divide by 2^k while k counts down in the field |
| `Inverse.InverseOf` | src/gadgets/bn254/fp254impl.rs:335-661 | the canonical inverse modulo p for every field element coprime to p, and for no other |
| `Inverse.InverseMontgomery` | src/gadgets/bn254/fp254impl.rs:680-689 | the Montgomery form of the inverse |
| `AdderCircuit.AdderMeaning` | src/gadgets/bigint/add.rs:13-27 | the adder as a list of wires and gates means addition at every width |
| `AdderCircuit.AdderFits` | src/circuit/streaming_mode.rs:150-247 | called as a component at any width, it overflows no counter of its own frame or of its caller's wires |
| `AdderCircuit.AddCallMeaning` | src/gadgets/bigint/add.rs:8-27 | a circuit that calls the adder as a component means addition |
| `AdderCircuit.StreamingAdd` | src/circuit/mod.rs:125-137 | the bounded-memory execution of a call of the adder adds |
| `AdderCircuit.GarbledAdd` | src/circuit/mod.rs:210-277 | garbling a call of the adder and evaluating it adds, and gives the active labels of the sum |
| `Polynomials.RootsVanish` | src/cut_and_choose/vsss/core.rs:350-353 | modulo a prime, a polynomial with as many distinct roots as coefficients vanishes everywhere |
| `Polynomials.InterpolationUnique` | src/cut_and_choose/vsss/core.rs:350-353 | polynomials with no more coefficients than points agree everywhere if they agree at the points |
| `Polynomials.LagrangeIsUnique` | src/cut_and_choose/vsss/core.rs:350-353 | the Lagrange sum is the value of every such polynomial |
| `Interpolation.PrecalculatedFactorialsAndInverses` | src/cut_and_choose/vsss/core.rs:89-126 | factorials, their inverses and the inverses of 1 .. n-1, from one field inversion |
| `Interpolation.RangeProduct` | src/cut_and_choose/vsss/core.rs:363-374 | the product of the differences to all other points of 0 .. n-1, from two factorials and a sign |
| `Interpolation.GetCoeff` | src/cut_and_choose/vsss/core.rs:365-388 | the factorial product with the missing points multiplied in or divided out |
| `Interpolation.LagrangeInterpolateWholePolynomial` | src/cut_and_choose/vsss/core.rs:354-407 | for every split of 0 .. n-1: the values at the missing points of every polynomial through the known ones |
| `Interpolation.InterpolantExists` | src/cut_and_choose/vsss/core.rs:350-353 | there is such a polynomial |
| `SignedDigits.RecodeKeeps` | src/cut_and_choose/vsss/core.rs:18-30 | each bit of the recoding keeps the value, and every digit it changes was zero |
| `SignedDigits.RecodeCounts` | src/cut_and_choose/vsss/core.rs:18-30 | the nonzero digits written so far are one for every single one and two for every longer run that has ended |
| `SignedDigits.NegPosSumOfPowersOfTwo` | src/cut_and_choose/vsss/core.rs:13-38 | digits -1, 0, 1 with the value of the bits, at most one more than there are bits, without leading zeros; one nonzero digit for a single one, two for a longer run |
| `SignedDigits.MinDigitsBelow` | src/cut_and_choose/vsss/core.rs:12 | no signed digits of a number have fewer nonzero ones than the recursion on its parity allows |
| `SignedDigits.FewestIff` | src/cut_and_choose/vsss/core.rs:12-38 | the recoding has the fewest nonzero digits of all signed digits of the number exactly if no two longer runs of ones are joined by single zeros and single ones only |
| `SignedDigits.NotAlwaysFewest` | src/cut_and_choose/vsss/core.rs:12-38 | for 27 the recoding takes four digits and three are enough |
| `VsssCore.ScalarsGenerated` | src/cut_and_choose/vsss/core.rs:241-263 | the scalar field is an instance of the group the evaluation works in |
| `VsssCore.TableMul` | src/cut_and_choose/vsss/core.rs:221-233 | the signed sum over a table of doublings is the scalar multiple |
| `VsssCore.EvalAtSuffixPoints` | src/cut_and_choose/vsss/core.rs:180-238 | on values or on commitments, with or without tables: the values of the extending polynomial at the next points |
| `VsssShares.Shares` | src/cut_and_choose/vsss/core.rs:251-263 | the shares are the points of the polynomial that extends the given values |
| `VsssShares.AnySharesRecover` | src/cut_and_choose/vsss/core.rs:350-407 | any shares, as many as there were values, determine all the others |
| `VsssShares.WindowedMul` | src/cut_and_choose/vsss/core.rs:65-86 | the window-by-window sum is the multiple of the generator, whatever the table holds beyond the reach of the scalars |
| `VsssShares.Verify` | src/cut_and_choose/vsss/core.rs:307-324 | share commitments are accepted exactly if they commit to the values of the committed polynomial |
| `WideGarbling.RowLabelBit` | src/cut_and_choose/vsss/wide_garbling.rs:23-58 | in the row for some input bits, bit b of label j is that of the label the j-th input bit selects, added to the mask bit at the same place |
| `WideGarbling.RowTagBit` | src/cut_and_choose/vsss/wide_garbling.rs:23-58 | after the labels a row is the mask itself: the tag is 128 zeros |
| `WideGarbling.FullTable` | src/cut_and_choose/vsss/wide_garbling.rs:14-58 | a table for eight wires has 256 rows of 144 bytes |
| `WideGarbling.OpensIff` | src/cut_and_choose/vsss/wide_garbling.rs:84-124 | a row opens with a wide label exactly if the masks of this label and of the row's own agree on all 128 bits of the tag |
| `WideGarbling.LookupExact` | src/cut_and_choose/vsss/wide_garbling.rs:84-124 | looking up the wide label of a row gives that row's number, labels and bits, exactly if no earlier row has a wide label whose mask agrees on the whole tag |
| `WideGarbling.BigEndianNum` | src/cut_and_choose/vsss/protocol.rs:59-61 | the folded index is the number of the bits, the first bit most significant |
| `WideGarbling.IndexBitsInverse` | src/cut_and_choose/vsss/protocol.rs:59-61 | the bits of the folded index are the bits it was folded from |
| `WideGarbling.ChunksAligned` | src/cut_and_choose/vsss/wide_garbling.rs:14-20 | chunks of 256 wide labels and of 8 bits stay aligned, with a short last chunk of both |
| `WideGarbling.ChunkLookup` | src/cut_and_choose/vsss/wide_garbling.rs:14-20 | the table of each chunk gives the chunk's labels and bits, exactly if no earlier wide label of the chunk has a mask that agrees on the whole tag |
| `VsssProtocol.ChunkInterpolates` | src/cut_and_choose/vsss/protocol.rs:240-247 | interpolating one chunk's labels across instances gives the labels the bits select in the missing ones |
| `VsssProtocol.MissingIndices` | src/cut_and_choose/vsss/protocol.rs:233-235 | known and missing instances split all instances |
| `VsssProtocol.EvaluatedWires` | src/cut_and_choose/vsss/protocol.rs:196-269 | for every finalized instance, and no other, exactly the labels and bits the garbler encoded |
| `VsssProtocol.ReconstructedAreActive` | src/circuit/modes/evaluate_mode.rs:35-40 | these are the inputs from which the evaluation of the garbled circuit starts |
| `CiphertextHasher.IndexBytesValue` | src/ciphertext_hasher.rs:58-59 | the eight index bytes are the batch index modulo 2^64, lowest byte first |
| `CiphertextHasher.FlattenByte` | src/ciphertext_hasher.rs:40-47 | byte j of ciphertext i of a batch comes at 16 i + j |
| `CiphertextHasher.BatchFits` | src/ciphertext_hasher.rs:3-8 | a batch is as many ciphertexts as fit, with index and previous hash, into 1024 bytes |
| `CiphertextHasher.FirstBatches` | src/ciphertext_hasher.rs:33-78 | an empty stream hashes to zeros, up to 61 ciphertexts are hashed after 40 zero bytes, and the 62nd after the index one and the hash of the others |
| `CiphertextHasher.ChainedSplit` | src/ciphertext_hasher.rs:53-72 | hashing full batches first and the rest afterwards is the chained hash |
| `CiphertextHasher.AccumulatingHash.Update` | src/ciphertext_hasher.rs:40-51 | one more ciphertext: the buffer holds the hash so far and the current batch |
| `CiphertextHasher.AccumulatingHash.FlushBatch` | src/ciphertext_hasher.rs:53-72 | the hashed bytes are the index, the previous hash and the current batch; bytes left over from earlier batches never enter |
| `CiphertextHasher.AccumulatingHash.Finalize` | src/ciphertext_hasher.rs:74-77 | the chained hash of the whole stream, for every length |
| `CiphertextHasher.HashStream` | src/ciphertext_hasher.rs:33-78 | the same for a stream hashed from the start |
| `CiphertextHasher.AccumulatingHashBatch.Handle` | src/ciphertext_hasher.rs:143-156 | one ciphertext for every lane |
| `CiphertextHasher.AccumulatingHashBatch.Finalize` | src/ciphertext_hasher.rs:158-165 | every lane gets the hash it would get alone |

## Left out

- Streaming.RunStreaming: a wire id is a slot or one of three sentinels, so the limit of 2^64 - 3 slots does not exist; gate counts and progress messages are left out; a circuit's inputs and outputs are sequences of wires, without their encodings.
- Storage.Store.Allocate: any vacant slot may be chosen, where the slab library picks a particular one; the growth warning is left out.
- Storage.Store.Get: a key below the first slot index, which aborts in the source, is reported as not found.
- Streaming.Context.EvaluateGate: writing a constant wire is a fault in every mode, as in garbling; the boolean and evaluation modes ignore such a write.
- Streaming.Context.RunChild: a body calls a child with data, not with a closure, and the same body is used in both passes.
- Execute.StreamingExecute: that no 16-bit counter overflows is a hypothesis, because in the source an overflow aborts or wraps depending on the build.
- Multigarbling.NewLanes: a seeded generator is any stream of labels with a position; that two lanes differ is not claimed.
- Garbling.GarblingSimulates: functional correctness only; nothing is said about secrecy.
- Inverse.IterationStep: candidates that the source computes twice are computed once; the chunks' component keys are left out.
- BigIntMul.MulByConstantModuloPowerTwo: the chunk's component key is left out.
- Field.Div6: the moduli and constants are symbolic; the decimal constants of the two BN254 fields are left out.
- VsssShares.Verify: fewer share commitments than polynomial commitments, where the source underflows, are excluded.
- VsssProtocol.EvaluatedWires: the asserted wide labels are given; extracting them from adaptor signatures is left out. Byte strings are bit strings.
- CiphertextHasher.AccumulatingHash.FlushBatch: the batch index is unbounded and enters the hash modulo 2^64.
- Curve, pairing and Groth16 gadgets, extension fields, square roots and the scalar field's helpers.
- AES, BLAKE3, SHA-256 and the random generators: any function.
- Share checks of single instances, label commitments, soldering and cut-and-choose bookkeeping: equality checks.
- Files, channels, threads, logging and serialisation.
