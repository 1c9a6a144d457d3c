# The ZKIR virtual machine, in Dafny

ZKIR gives one list of instructions two meanings. `preprocess` interprets it on values: it
decodes the inputs, consumes three transcripts and builds a typed memory, a public-input
vector, skip records and outputs. `Relation::circuit` walks the same list and emits
constraints over cells; the witness of those constraints is taken from the final memory of
the interpreter. This project models both, with the field arithmetic and the codecs they
rest on, and proves how they are related over whole runs.

## How the model is laid out

- `Digits`, `Bits`, `Primes`: positional notation, bit folds and prime moduli.
- `Types`, `Instructions`, `Encoding`: types, values, instructions, and values as field elements.
  `Deployment`: the deployed numbers.
- `Operations`, `Preprocess`: the interpreter as functions; `Interpreter`: the same as an
  object whose methods update memory, public inputs, skips, cursors and outputs in place.
- `ChipSelection`: the chips that are selected for a source. `Gadgets`: cells, constraints and
  satisfaction. `Circuit`: synthesis as functions, with and without missing chips;
  `CircuitWalk`: the same as an object that emits constraints in place, and the decoder of
  aligned hash inputs with its cursor and buffer.
- `CircuitRun`: the run that the constraints describe, as a function of what a prover chooses.
- `Readings`, `GadgetSoundness`, `OpSoundness`, `Growth`, `Soundness`: every satisfying
  assignment is such a run. `GadgetCompleteness`, `OpCompleteness`, `Satisfiability`: every such
  run is held by a satisfying assignment. `Determinism`, `Uniqueness`: what the prover
  chooses determines every other cell.
- `Meaning`, `StepMeaning`: what each instruction does, operand by operand and in plain arithmetic,
  and that both runs do it.
- `Typing`, `SynthesisTyping`, `TypePreservation`: the static check and what it guarantees.
  `Chips`: when the selected chips are enough, and so which sources have a circuit.
- `OpAgreement`, `Agreement`, `Completeness`: the interpreter implies the circuit.
  `AlignmentChecks`: the comparisons between the two while the circuit is walked.
  `Exactness`: by how much the circuit accepts more. `Refusals`: what the interpreter runs although
  it has no circuit. `Divergences`: why each hypothesis is needed.
- `Reconstitution`, `AlignedInputs`, `ByteConversions`, `PointEncoding`, `TypeCodec`,
  `OperandCodec`, `Transcripts`: the remaining properties.

The main statement is `Exactness.PreprocessIffTightAssignment`. For a source that has a circuit
and overwrites neither an input nor a read, a witness is left in memory by a successful
`preprocess` exactly when the program's bit counts are in the interpreter's range and some
assignment with that witness satisfies the circuit and is tight. By
`Uniqueness.WitnessHasOneAssignment` that assignment is the only one of the circuit's cells. Tight
means that asserted values are one, comparison operands fit the width before rounding, guards of
reads are bits, a guarded-off read takes the default of its type, and the library accepts the hash
inputs. A source has a circuit when it passes the static check and its chips are selected
(`Chips.SynthesisIffChecked`); `Refusals.CircuitExistsIff` says which programs that `preprocess`
runs have none.

## What is taken as given

- `Params` stands for the libraries: a native field of order `p` in `frBits` bits, of which
  `limbBytes` whole bytes are stored per element (255 and 31 in the code), the Jubjub and
  foreign orders, and the widths of packed limbs. `Deployment` shows that the code's numbers meet
  the assumptions, with three of the four 64-bit limbs of a foreign element in the first cell.
- Hash functions are arbitrary functions of their inputs. `transient_commit(xs, r)` is the hash
  of `[r] ++ xs`, as the circuit recomputes it.
- A gadget means what its library documents: canonical bit and byte decompositions, conversion
  to a bit or byte as a bound, selection, equality, `lower_than(n)` with both operands below
  `2^n`, quotient and remainder of a big integer, a Jubjub scalar or a foreign element as two limbs.
- A foreign element is stored as the two limbs of its predecessor modulo the order.
- A call to a chip that was not selected ends synthesis. An instruction calls the chip of the type
  it brings in, that of its hash function and, unless it only passes values on, those of its
  operands' types.
- Every way in which a step can fail is one outcome, also the Rust panics on a transcript that
  is too short and on a bit count beyond the number of bits.
- Operands are resolved before the instruction's own constraints are emitted, and the constant
  and counter that the decoding of an alignment assigns but never uses are dropped.

The written description of ZKIR version 3 differs from the code in a few places,
where the code is what is modelled here: `ReconstituteField` with `bits = 0` is always rejected by
the interpreter (the document allows it), its circuit does rule out overflow (the document lists
that as unenforced), an `Impact` without inputs still constrains its guard, and selection and
equality do cover Jubjub scalars.

## Model

| member | source | states |
|---|---|---|
| Encoding.DecodeBytes | zkir/src/ir_instructions/encode.rs:151-170 | The loop that unpacks a byte string: an error unless the number of elements is the length divided by 31 rounded up and every element vanishes beyond the bytes it contributes; else the bytes in order |
| Encoding.PackingIsBijective | zkir/src/ir_instructions/encode.rs:41-50 | For every length, unpacking accepts exactly the limb lists whose limbs are below 256 to the bytes they contribute, and it returns the one byte string that packs to them |
| Encoding.DecodeOfEncode | zkir/src/ir_instructions/encode.rs:36-84 | Every valid value decodes back from its encoding at its type |
| Encoding.DecodeIsExactInverse | zkir/src/ir_instructions/encode.rs:177-254 | Decoding succeeds with a value if and only if the input is that value's encoding at the requested type; then `encoded_len` elements were given |
| Encoding.AnyRawDecoderWillDo | zkir/src/ir_instructions/encode.rs:236-251 | Any decoder that reads encodings and yields values of its type gives, with the re-encoding check, the same decoding |
| Encoding.RawDecodingCollides | zkir/src/ir_instructions/encode.rs:455-488 | A foreign element has, within the packed widths, other limbs that the library decodes to it, and that the check rejects, if and only if the integer they stand for plus the order fits those widths |
| Encoding.RawScalarCollides | zkir/src/ir_instructions/encode.rs:440-453 | A Jubjub scalar has another field element that the library decodes to it, and that the check rejects, exactly when its sum with the order fits its width or its sum with the power of two above that width is a field element |
| Deployment.AssumptionsHoldTogether | zkir/src/ir_types.rs:36-45 | With the deployed field orders, 255-bit elements, 31-byte limbs, 252-bit scalars and foreign elements packed in 192 and 64 bits, all assumptions of the theorems hold together |
| Bits.FoldBits | zkir/src/ir_vm.rs:341-344 | The fold from the top bit, doubling in the field, as a loop |
| Bits.SplitBits | zkir/src/ir_vm.rs:470-486 | Folding the high and low bits of any field element in the field gives integer quotient and remainder by the power of two, and they recombine to it |
| Bits.BoundedBitsVal | zkir/src/ir_vm.rs:314-340 | The bit bound passes exactly for widths below `FR_BITS` and integers below the power of two; the truncated bits then have that value |
| Bits.FoldCompareVal | zkir/src/ir_vm.rs:509-522 | The lexicographic comparison from the last bit decides the order of the two integers |
| Interpreter.ReadInputs | zkir/src/ir_vm.rs:235-255 | The input loop: each input decoded at its width, nothing missing and nothing left over |
| Interpreter.CompareTranscript | zkir/src/ir_vm.rs:605-622 | True exactly when the transcript holds the pushed values at the cursor |
| Interpreter.Run.Impact | zkir/src/ir_vm.rs:588-624 | In place: zeros and a skip record when guarded off; else the inputs pushed, matched with the transcript and the cursor advanced |
| Interpreter.Run.Read | zkir/src/ir_vm.rs:423-461 | In place: a transcript read advances its own cursor and binds the decoded value; guarded off it binds the default |
| Interpreter.Run.Output | zkir/src/ir_vm.rs:834-852 | In place: outputs appended in order, at exactly the declared number and types |
| Interpreter.Run.Compute | zkir/src/ir_vm.rs:345-422 | In place: a computing instruction binds its results, whose number must match its outputs |
| Interpreter.Run.ExecuteAll | zkir/src/ir_vm.rs:345-855 | The loop over the instructions carries out the step function over the whole list |
| Interpreter.Run.CheckCommitment | zkir/src/ir_vm.rs:871-890 | The loop that collects raw inputs and encoded outputs and compares their commitment |
| Interpreter.RunPreprocess | zkir/src/ir_vm.rs:229-900 | The imperative interpreter computes exactly the function that the whole-run theorems are about |
| CircuitWalk.Walk.PushInputs | zkir/src/ir_vm.rs:1105-1110 | In place: every input resolved, selected against zero and pushed |
| CircuitWalk.Walk.Impact | zkir/src/ir_vm.rs:1098-1111 | In place: zero and guard bit first, then the guarded pushes; inputs are resolved whatever the guard |
| CircuitWalk.Walk.Read | zkir/src/ir_vm.rs:1228-1252 | In place: a fresh value of the declared type, whatever the guard |
| CircuitWalk.Walk.StepAll | zkir/src/ir_vm.rs:1045-1576 | The loop over the instructions carries out the synthesis function over the whole list, and ends at a call to a missing chip |
| CircuitWalk.Walk.Commit | zkir/src/ir_vm.rs:1577-1609 | In place: randomness, inputs as they stand in memory and outputs are hashed and tied to the second public input |
| CircuitWalk.RunSynthesis | zkir/src/ir_vm.rs:914-1614 | The imperative walk computes exactly the circuit that the whole-run theorems are about |
| CircuitWalk.AlignedDecoder.BytesAtom | zkir/src/ir_vm.rs:186-216 | In place: the short limb is consumed first and its bytes come last, whole chunks are taken last first, the cursor moves past all of them |
| CircuitWalk.AlignedDecoder.Segments | zkir/src/ir_vm.rs:144-167 | The loop over the segments extends the buffer atom by atom; options and compressed atoms are errors |
| Meaning.StepMeans | zkir/src/ir_vm.rs:345-855 | Both runs of every computing instruction do what `Means` says of its named operands and results in plain arithmetic, succeeding exactly when it says so: selection takes `a` on one and `b` on zero, division gives the quotient first, and so on |
| StepMeaning.InterpreterMeans | zkir/src/ir_vm.rs:345-855 | A step of the interpreter on such an instruction changes memory as the instruction means, and nothing else |
| StepMeaning.ConstraintsMean | zkir/src/ir_vm.rs:1045-1576 | So does the run that the constraints describe, with the circuit's own conditions |
| StepMeaning.CellsMean | zkir/src/ir_vm.rs:1045-1576 | In cells that satisfy what the instruction emits, circuit memory changes as the instruction means |
| StepMeaning.MeaningHasCells | zkir/src/ir_vm.rs:1045-1576 | Whatever the instruction means is held by some cells that satisfy what it emits |
| StepMeaning.ImpactOffMeans | zkir/src/ir_vm.rs:588-604 | With guard zero an impact pushes a zero for each input and records their number |
| StepMeaning.ImpactOnMeans | zkir/src/ir_vm.rs:605-624 | With guard one it pushes its inputs in order, exactly when they come next in the public transcript |
| StepMeaning.ConstrainedImpactMeans | zkir/src/ir_vm.rs:1098-1111 | The constraints push the same, and need native inputs whatever the guard |
| StepMeaning.GuardedOffReadMeans | zkir/src/ir_vm.rs:428-431 | A read with guard zero binds the zero of its type: element zero, false, byte zero or as many zero bytes, and touches nothing else |
| StepMeaning.ActiveReadMeans | zkir/src/ir_vm.rs:432-461 | Any other read binds the value of its type whose encoding comes next in its own transcript, and moves past it |
| Meaning.DigestsAre | zkir/src/ir_vm.rs:345-855 | Digests are byte strings of length 32, and 64 for SHA-512 |
| Meaning.UnpackOfPack | zkir/src/ir_vm.rs:345-855 | At every length from 1 to 2^24 `BytesFromNatives` returns what `BytesIntoNatives` packed |
| Soundness.SatisfyingIsRun | zkir/src/ir_vm.rs:1045-1614 | Soundness: every assignment that satisfies the emitted constraints is a run on the witness it holds, with the same memory, public inputs and outputs |
| Satisfiability.RunIsSatisfiable | zkir/src/ir_vm.rs:1045-1614 | Whenever the run succeeds on a witness, an assignment to exactly the circuit's cells holds that witness and satisfies the circuit |
| Satisfiability.SatisfiableIffRun | zkir/src/ir_vm.rs:914-1614 | A circuit can be satisfied with a given witness if and only if the run succeeds on it |
| Uniqueness.ChoicesDetermineRun | zkir/src/ir_vm.rs:1045-1614 | Runs on the same inputs, reads, binding input and randomness are the same run, commitment included |
| Uniqueness.NoFreeWires | zkir/src/ir_vm.rs:1273-1303 | Two satisfying assignments that agree on those choices agree on every cell of the circuit, and so on the whole memory, all public inputs and all outputs, the freely assigned result of `ReconstituteField` included |
| Uniqueness.WitnessHasOneAssignment | zkir/src/ir_vm.rs:1045-1614 | For a witness on which the run succeeds, one and only one assignment to the circuit's cells satisfies it |
| SynthesisTyping.EquippedIffChecked | zkir/src/ir_vm.rs:914-1576 | With every chip at hand, synthesis succeeds exactly on the sources that pass the static check, at the memory types, public-input count and output types that the check computes |
| Chips.CircuitIffCovered | zkir/src/ir_vm.rs:1616-1669 | With the chips selected for it, a source has the circuit it would have with every chip, if every type brought in by a constant or a conversion from Native also appears at an entry point, and otherwise none |
| Chips.SynthesisIffChecked | zkir/src/ir_vm.rs:914-1669 | A source has a circuit exactly when it passes the static check and is covered in that way |
| TypePreservation.PreprocessIsTyped | zkir/src/ir_vm.rs:345-855 | After a successful run every memory entry is a valid value of its statically assigned type, and the counts and output types are the static ones |
| TypePreservation.CircuitIsTyped | zkir/src/ir_vm.rs:1045-1576 | In every satisfying assignment each circuit-memory entry reads as a valid value of its statically assigned type, so do the outputs, and public inputs are field elements |
| TypePreservation.ShapeIgnoresPreimage | zkir/src/ir_vm.rs:229-900 | The number of public inputs, the output types and the memory types are the same for all preimages of one program |
| Typing.LengthsStayInRange | zkir/src/ir_types.rs:66-76 | In a checked source whose declared types are well formed, every byte string in scope has a length between 1 and the maximum |
| OpAgreement.OpAgrees | zkir/src/ir_vm.rs:345-855 | For every computing instruction: where the check accepts the operand types and the interpreter succeeds, the circuit forces the same, well-typed results |
| Agreement.StepAgrees | zkir/src/ir_vm.rs:345-855 | One step of the interpreter on a checked instruction is the same step of the circuit's run and preserves typing |
| Completeness.RunKeeps | zkir/src/ir_vm.rs:345-855 | A binding survives every instruction list that does not write its identifier |
| Completeness.InputsDecoded | zkir/src/ir_vm.rs:235-255 | The decoded inputs are typed values whose encodings, in order, are the raw inputs |
| Completeness.CommitmentAgrees | zkir/src/ir_vm.rs:871-890 | When inputs are not overwritten, the list hashed off-circuit is the list that the circuit re-encodes from the final memory |
| Completeness.PreprocessIsRun | zkir/src/ir_vm.rs:229-900 | A successful `preprocess` is a run of the circuit, with the same memory, public inputs and outputs, on the witness its final memory holds |
| Completeness.PreprocessSatisfiesCircuit | zkir/src/ir_vm.rs:914-1614 | Completeness: an assignment with that witness, which is read off the memory, binding input and commitment that `preprocess` returned, satisfies every constraint, holds the interpreter's memory at every identifier, and its public-input cells hold `pis` |
| Exactness.OpIsExact | zkir/src/ir_vm.rs:345-855 | For every computing instruction on well-typed operands: the interpreter accepts exactly what the circuit accepts and is tight |
| Exactness.TightRunIsPreprocessed | zkir/src/ir_vm.rs:229-900 | Backward direction: every tight run comes from a successful `preprocess` on a preimage built from its witness, with the same final state |
| Exactness.PreprocessIffTightRun | zkir/src/ir_vm.rs:229-900 | A witness is left in memory by some successful `preprocess` if and only if the program's bit counts fit, the circuit's run succeeds on it and it is tight |
| Exactness.TightAssignmentIsPreprocessed | zkir/src/ir_vm.rs:914-1614 | A satisfying assignment with a tight witness comes from a preimage on which `preprocess` succeeds with the same memory and `pis` |
| Exactness.PreprocessIffTightAssignment | zkir/src/ir_vm.rs:914-1614 | A witness is left in memory by some successful `preprocess` if and only if the bit counts fit and some satisfying assignment holds it and is tight |
| AlignmentChecks.StageIsState | zkir/src/ir_vm.rs:1045-1576 | After any number of instructions, circuit memory and the public inputs pushed so far hold what the interpreter held after as many |
| AlignmentChecks.AlignmentChecksPassIff | zkir/src/ir_vm.rs:990-1028 | With the assignment that a successful `preprocess` gives rise to, the comparisons after an instruction pass if and only if what is bound there is still so at the end |
| AlignmentChecks.AlignmentChecksPass | zkir/src/ir_vm.rs:990-1028 | On sources that bind no identifier twice they always pass |
| Refusals.OpRefusedIff | zkir/src/ir_vm.rs:345-855 | For every computing instruction: of the operands the interpreter accepts, the check refuses exactly byte strings to select from, byte strings of different lengths to compare, a high part that is not Native, and unsupported alignments |
| Refusals.HighPartDiverges | zkir/src/ir_vm.rs:777-790 | Off-circuit, low and high parts of any prime field join exactly when the low one fits a limb and the high one a byte; in-circuit the high one must also be Native |
| Refusals.OperandsDivergeIff | zkir/src/ir_vm.rs:345-855 | The operands that work off-circuit only, for every computing instruction, in terms of the operands alone |
| Refusals.CircuitExistsIff | zkir/src/ir_vm.rs:914-1669 | Whenever `preprocess` succeeds, there is no circuit if and only if some step of the run has such operands or is an impact whose inputs do not resolve to native values, or a chip is missing |
| Transcripts.PreimageIsRecoverable | zkir/src/ir_vm.rs:423-461 | Under single assignment, the inputs and both read transcripts are the in-order encodings of the values in the final memory; guarded-off reads contribute nothing |
| Transcripts.MemoryDeterminesPreimage | zkir/src/ir_vm.rs:857-870 | Two successful runs of one program with equal final memories had equal inputs and read transcripts |
| Transcripts.PublicInputsAreConserved | zkir/src/ir_vm.rs:588-624 | Of the record returned: past the binding input and the commitment, `pis` cut by the program's impact sizes has one skip record per impact, is all zero where one is recorded, with the recorded length, and elsewhere concatenates to the public transcript |
| Transcripts.ExtractionIsUnique | zkir/src/ir_vm.rs:892-899 | Successful runs of one single-assignment program that leave the same witness end in the same state, skip records and cursors included, and had the same preimage, up to a commitment that the program ignores |
| Reconstitution.OffCircuitAccepts | zkir/src/ir_vm.rs:487-528 | The lexicographic check accepts if and only if `bits >= 1`, `modulus < 2^bits` and `divisor * 2^bits + modulus < p`; the result is that integer without wrap-around |
| Reconstitution.InCircuitAccepts | zkir/src/ir_vm.rs:1273-1303 | The split constraints can be satisfied if and only if that integer exists, and they force the free result to be it |
| Reconstitution.ThreeFormsAgree | zkir/src/ir_vm.rs:1273-1303 | For 1 to 248 bits the interpreter, integer arithmetic and the constraints accept the same operands with the same result |
| Reconstitution.SplitAndReconstitute | zkir/src/ir_vm.rs:470-528 | `DivModPowerOfTwo` and `ReconstituteField` are mutual inverses |
| AlignedInputs.AtomUndoesPacking | zkir/src/ir_vm.rs:186-216 | Decoding the atom `Bytes{n}` from the reversed packed limbs of any string returns it, consumes exactly the limbs it needs and leaves what follows |
| AlignedInputs.AlignmentUndoesPacking | zkir/src/ir_vm.rs:144-167 | Over a list of byte atoms the decoded buffer is the concatenation in order |
| AlignedInputs.CircuitUndoesPacking | zkir/src/ir_vm.rs:123-142 | The circuit accepts those inputs, and the cells it constrains hold that concatenation |
| ByteConversions.FromLeBytesWithReduction | zkir/src/ir_instructions/from_bytes.rs:342-347 | The remainder, written out, padded in place and read back, is the integer of the bytes modulo the order |
| ByteConversions.ToBytesOfFromBytes | zkir/src/ir_instructions/to_bytes.rs:59-76 | For byte strings of any length, the integer read back from the written element is the original one modulo the order |
| ByteConversions.CanonicalBytesReturn | zkir/src/ir_instructions/to_bytes.rs:44-47 | On integers below the order the round trip is the identity up to zero padding |
| ByteConversions.FromBytesOfToBytes | zkir/src/ir_instructions/from_bytes.rs:72-93 | Writing any prime-field value and reading it back returns it |
| ByteConversions.FromBytesAppend | zkir/src/ir_instructions/from_bytes.rs:340-347 | Reading a concatenation adds the second part weighted by 256 to the length of the first, modulo the order |
| ByteConversions.IntoLowHighIsIntoNatives | zkir/src/ir_vm.rs:768-776 | At 32 bytes the deprecated low/high split is `BytesIntoNatives` |
| ByteConversions.FromLowHighIsFromNatives | zkir/src/ir_vm.rs:777-790 | On native operands the deprecated join is `BytesFromNatives` at 32 bytes, and both accept exactly low below 2^248 and high below 256 |
| PointEncoding.ReverseBytes | zkir/src/ir_instructions/to_bytes.rs:259-260 | The in-place reversal of the coordinate's bytes |
| PointEncoding.Sec1Compress | zkir/src/ir_instructions/to_bytes.rs:248-276 | The compression of an identity flag and coordinates is the SEC1 form, with the identity as zero bytes whatever its coordinates |
| PointEncoding.Sec1Layout | zkir/src/ir_instructions/to_bytes.rs:248-276 | The first byte is 2 exactly for even `y` and 3 exactly for odd `y`, the others are `x` with the most significant byte first, and the identity is all zero |
| PointEncoding.JubjubLayout | zkir/src/ir_instructions/to_bytes.rs:218-241 | The last byte is at least 128 exactly for odd `x`, and without that bit the bytes are `y` |
| PointEncoding.JubjubCompress | zkir/src/ir_instructions/to_bytes.rs:218-241 | The overwritten last byte carries the sign, and the conversion fails exactly when it is not a byte |
| PointEncoding.NoOverflow | zkir/src/ir_instructions/to_bytes.rs:228-229 | Adding the sign bit never overflows the last byte of a coordinate |
| PointEncoding.Sec1Injective | zkir/src/ir_instructions/to_bytes.rs:248-276 | SEC1 compression is injective on curve points over an odd prime field |
| PointEncoding.JubjubInjective | zkir/src/ir_instructions/to_bytes.rs:218-241 | The Jubjub encoding is injective on curve points |
| PointEncoding.AssertBytesEqual | zkir/src/ir_instructions/from_bytes.rs:322-338 | An error when the lengths differ, else equality of the byte strings |
| PointEncoding.DecodedPointIsUnique | zkir/src/ir_instructions/from_bytes.rs:245-270 | For given bytes at most one Weierstrass point satisfies the in-circuit decoding |
| PointEncoding.DecodedJubjubPointIsUnique | zkir/src/ir_instructions/from_bytes.rs:225-243 | For given bytes at most one Jubjub point satisfies the in-circuit decoding |
| PointEncoding.DecodingsAgree | zkir/src/ir_instructions/from_bytes.rs:122-135 | The point kept by the off-circuit re-encoding check is the only one the circuit admits for the same bytes |
| Primes.InverseFailsOnlyAtZero | zkir/src/ir_instructions/inv.rs:40-77 | Over prime orders inversion is an error exactly at zero |
| TypeCodec.TypeTextIsExact | zkir/src/ir_types.rs:149-205 | A string parses to a type if and only if the type is well formed and the string is its canonical print |
| TypeCodec.NamedTexts | zkir/src/ir_types.rs:149-205 | The texts of the named types, by table |
| TypeCodec.NamedTags | zkir/src/ir_types.rs:226-301 | The discriminants of the named types, by table |
| TypeCodec.BytesTypes | zkir/src/ir_types.rs:226-301 | Discriminant 15 with a length is a byte string type for lengths other than 32 up to 2^24, and an error beyond |
| TypeCodec.TypeBytesAreExact | zkir/src/ir_types.rs:226-301 | Reading a type succeeds if and only if the bytes start with its written form, and leaves what follows |
| OperandCodec.WriteImmediate | zkir/src/ir.rs:194-201 | The loop that pops trailing zero bytes before printing |
| OperandCodec.TrimIsShortest | zkir/src/ir.rs:196-199 | No shorter byte string stands for the same integer |
| OperandCodec.ImmediateSurvives | zkir/src/ir.rs:204-247 | Every immediate parses back from its print, and with a sign in front as its additive inverse |
| OperandCodec.OperandTextRoundTrip | zkir/src/ir.rs:190-247 | Printing and parsing returns an operand if and only if it is an immediate or an identifier starting with `%` |
| OperandCodec.ParsedIsPrintable | zkir/src/ir.rs:204-247 | Whatever parses is a field element or an identifier that starts with `%`, and its print parses to the same operand |
| OperandCodec.OperandBytesRoundTrip | zkir/src/ir.rs:250-344 | The binary form returns every operand and leaves what follows |
| OperandCodec.IdentifierTexts | zkir/src/ir.rs:204-247 | A text is read as an identifier exactly when it starts with a percent sign |
| OperandCodec.ImmediateTexts | zkir/src/ir.rs:204-247 | A text behind `0x` is read as an element exactly when its digits are up to 32 little-endian bytes below the order |
| OperandCodec.CaseIgnored | zkir/src/ir.rs:204-247 | The case of hexadecimal digits does not matter |
| OperandCodec.BinaryForms | zkir/src/ir.rs:286-334 | Tag zero is followed by an identifier, tag one by the text of an immediate, with either prefix and an optional sign |
| OperandCodec.SignNegates | zkir/src/ir.rs:286-334 | A sign makes an immediate its additive inverse, as text and in binary |
| OperandCodec.ConstantsRoundTrip | zkir/src/ir.rs:360-388 | Constant encodings survive as lists of immediates |
| Chips.ChipsCoverIff | zkir/src/ir_vm.rs:1616-1669 | After every number of instructions each value in circuit memory has the curve or foreign chip of its type, if and only if every type brought in by a constant or a conversion from Native also appears at an entry point |
| Chips.JubjubSelected | zkir/src/ir_vm.rs:1642-1643 | The Jubjub chip is selected exactly when an input or a scanned instruction declares a Jubjub point or scalar |
| Chips.Secp256k1Selected | zkir/src/ir_vm.rs:1654-1658 | The same of secp256k1 and its three types |
| Chips.P256Selected | zkir/src/ir_vm.rs:1659-1659 | The same of secp256r1 |
| Chips.Curve25519Selected | zkir/src/ir_vm.rs:1661-1665 | The same of Curve25519 |
| Chips.HashesSelected | zkir/src/ir_vm.rs:1644-1650 | Each hash chip is selected exactly when an instruction hashes with it, Poseidon also for a commitment |
| Chips.ConstantsAreNotScanned | zkir/src/ir_vm.rs:1624-1632 | A lone foreign or Jubjub constant passes the static check, but its chip is not selected and it has no circuit |
| Chips.HashChipsAreExact | zkir/src/ir_vm.rs:1641-1652 | A hash chip is asked for if and only if the finished circuit holds a constraint that computes its function |
| Divergences.RebindingDiverges | zkir/src/ir_vm.rs:1238-1245 | With a rebound identifier `preprocess` succeeds and the witness in its final memory fails the circuit |
| Divergences.GuardedOffImpactDiverges | zkir/src/ir_vm.rs:590-597 | With nothing bound, a guarded-off impact runs off-circuit whatever its inputs, and has a circuit exactly when all are immediates |
| Divergences.MissingChipDiverges | zkir/src/ir_vm.rs:1220-1227 | A lone conversion to a Jubjub scalar runs and passes the static check, and has no circuit |
| Divergences.AlignmentCheckFires | zkir/src/ir_vm.rs:990-1012 | With a computed identifier bound again to another value the constraints are satisfied, but a comparison fails |
| Divergences.AssertDiffers | zkir/src/ir_vm.rs:1059-1063 | Of one program that asserts what it reads, `preprocess` succeeds on one alone and the circuit's run on every non-zero element |
| Divergences.ComparisonsAgreeIff | zkir/src/ir_vm.rs:1209-1219 | For every width, the two comparisons agree on all field elements if and only if the width is even, at least 4 and below `FR_BITS` |

## Left out

- Elliptic-curve instructions, hash-to-curve and the coordinate instructions: they rest on group laws and library gadgets; points have types here but are values only in `PointEncoding`.
- The ed25519 compression gadget and `from_bytes`/`to_bytes` of points inside the virtual machine: their bodies are library code; `FromBytes` and `ToBytes` of point types are errors in this model.
- `Reverse` and `ReverseBytes` are one instruction, and `PersistentHash`, `Keccak256` and `Sha512` are one instruction with a hash kind, because their arms are shared.
- Completeness.PreprocessSatisfiesCircuit: for sources that hash aligned inputs, assumes (`AlignedAgrees`) that wherever the library's `parse_field_repr` accepts hash inputs of a supported alignment, it reads them as the circuit does; its code is not part of this model.
- Exactness.PreprocessIffTightRun: for such sources rests on the same assumption about `parse_field_repr`, and counts its acceptance of hash inputs as one of the conditions of a tight run.
- OperandCodec.ImmediateSurvives: reads an element from at most 32 bytes with a value below the order; what `Fr::from_le_bytes` does with longer inputs is not part of this model. `const_hex::decode` strips a `0x` of its own, so text such as `0x0x2a` parses in the code and not here.
- TypeCodec.TypeBytesAreExact: takes the encoding of 32-bit integers as an exact codec, of which four little-endian bytes are shown to be one; its code is not part of this model.
- OperandCodec.OperandBytesRoundTrip: takes the encoding of strings as a codec that round-trips; its code is not part of this model.
- PointEncoding.DecodedJubjubPointIsUnique: does not use that points lie in the prime-order subgroup, which only shrinks the set of candidates.
- Encoding.DecodeIsExactInverse: covers the non-point types; `DecodeRaw` stands for the library's decoders, and `AnyRawDecoderWillDo` shows that the choice does not matter.
- The run-time alignment checks between the two runs (`mem_insert`, `pi_push`) are not part of the walk; `AlignmentChecks` proves when they pass, looking at memory after each instruction, so not at a value that the same instruction overwrites.
- Chips.ChipsCoverIff: leaves out the coordinate instructions and hash-to-curve, which also bring in types and chips.
- PLONK proving, keygen, `optimal_k` and the cost model: library code; a proof is taken to mean that the constraints hold.
- Alignment options and compressed atoms: the circuit rejects them, and so does the static check.
- Error messages, tracing, JSON layout beyond the codecs above, the command line, the wasm wrapper and the precompiled circuits.
