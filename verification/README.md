# ZenoFCIS judges in Dafny

ZenoFCIS accepts software artifacts through small judges: programs that decode, compare, rewrite or
account for what a producer hands them. This project models the judges whose correctness is not
evident from their bodies, and proves what they promise for every input, every run or every
reachable state.

- **Emitted-program validator** (`Digits`, `Patterns`, `RustText`, `RustGrammar`, `Emitted`,
  `Decoder`, `WholeText`, `Meaning`, `Alternatives`, `Emit`, with `Ir`, `Instructions`, `Wide` and
  `Scalar` underneath). A closed Rust subset is decoded line by line into a program of eager, partial
  instructions. Characters are modelled, each pattern as an explicit recognizer. The accepted text,
  executed as Rust, computes the program on every input vector; the emitter's text is always accepted.
  What the text means is read off its own words, apart from how it is decoded, and what an instruction
  means is stated by the property of its value. The fused 128-bit helpers the text calls are verified
  down to their 64-bit halves.
- **Constant-product swap** (`Swap`). Ceiling fee, floor output, and what runs of swaps and burns
  can never do.
- **Exhaustive comparison** (`Odometer`, `Checker`). The in-place odometer refines the plain product
  enumeration; the comparison's verdict is exact and every refusal is explained.
- **Counterexample-guided capture** (`Kinds`, `Policy`, `Profile`, `Lookup`, `Capture`, `Replies`). The example
  policies, the lookup encoding of the reference table, and the stored session as a state machine against an
  arbitrary proposer whose calls may be stopped at any save, decided by the exhaustive comparison with
  the encoded table; and which reply a completed call gives, as an exact condition for each.
- **Comparison up to renaming** (`Renaming`). The one-pass recursion over two dictionaries against
  "there is an injective renaming", for read identities and for variable bindings.
- **WebAssembly export rewriter** (`Leb`, `Exports`, `Wasm`, `WasmFormat`). LEB128 as in section 5.2.2,
  sections as in 5.5.2 and exports as in 5.5.10 of the WebAssembly Core Specification 1.0; the rewriter's
  loop, and the same rewriting stated on the grammar of the format.
- **Source masker and body extractor** (`Masker`, `Bodies`), **resumable acceptance runs** (`Runs`),
  **fixed-window limiter** (`Limiter`), **joint step resolver** (`JointStep`) and **big-endian readers**
  (`BigEndian`).

`dafny verify dfyconfig.toml` checks the whole project.

## Where the code and its description differ

- The validator is meant to accept only text equivalent to the program. Its patterns read `v07` as
  node 7, the unescaped dot in `input.len` admits any ASCII character but a line feed, and no literal or
  bound is checked
  against 128 bits, so some accepted texts do not compile. `Meaning.CompilesIffSpelled` gives the
  exact condition, for every accepted text, and `Emit.AcceptedButNotCompiling` an instance of each;
  every accepted text that compiles is equivalent.
- A completed inventory is described as having no missing row. A pass bound to the same checkout but
  written under another schema is kept by the run loop and still listed as missing
  (`Runs.InventoryIsComplete`, with an instance in `Runs.ForeignPassIsMissing`).
- The swap oracle's separate product check can refuse only outside the declared domain
  (`Swap.ProductCheckExactly`); there it does, as at gross 1, rate 0, reserves -3 and 1
  (`Swap.ProductCheckRefuses`).
- A read whose identity is no decimal numeral differs even from itself (`Renaming.SameAsItself`,
  `Renaming.UnnumberedDiffers`).
- The independent replay of a capture keeps 64-bit integers. A program captured at 128 bits fails it
  exactly when some node's value leaves 64 bits (`Profile.ReferenceProfile`), as
  `Profile.WideOnlyReplays` shows.
- The limiter's profile declares the horizon 0..6 and small W and N; the transition rules are
  modelled over all natural times and all positive limits.

## Model

| member | source | states |
|---|---|---|
| `Patterns.MatchIsFill` | tools/arithmetic_emitted_ast.py:29-58 | full matching of a pattern without ambiguous neighbours accepts exactly the texts obtained by filling its groups, and returns exactly those groups |
| `Digits.PrintOfValue` | tools/arithmetic_emitted_ast.py:30-33 | printing the value of a digit string gives it back exactly when it has no leading zero |
| `Digits.ValueJoins` | tools/arithmetic_emitted_ast.py:30-33 | decimal notation is positional: the value of joined digit strings is the first's times a power of ten plus the second's |
| `Alternatives.InputText` | tools/arithmetic_emitted_ast.py:30-31 | whatever the grammar reads from `input[i]` yields that input |
| `Alternatives.LiteralText` | tools/arithmetic_emitted_ast.py:32-33 | whatever it reads from a literal yields the literal's value |
| `Alternatives.SumText` | tools/arithmetic_emitted_ast.py:34-35 | `checked_add` yields the sum and `checked_sub` the difference of the named variables, or an early return beyond 128 bits |
| `Alternatives.ProductText` | tools/arithmetic_emitted_ast.py:36-37 | `multiply` yields the product or an early return |
| `Alternatives.QuotientText` | tools/arithmetic_emitted_ast.py:38-39 | `divide` with `true` yields the ceiling and with `false` the floor, an early return for a zero divisor or beyond 128 bits |
| `Alternatives.FusedText` | tools/arithmetic_emitted_ast.py:40-41 | `mul_div` likewise of a product of naturals over a positive divisor |
| `Alternatives.SignedFusedText` | tools/arithmetic_emitted_ast.py:42-43 | `signed_mul_div_floor` yields the floor of a product over a positive divisor |
| `Alternatives.ProductsText` | tools/arithmetic_emitted_ast.py:44-45 | `products_ge` yields whether the first three factors make at least the last three, on naturals |
| `Alternatives.ComparisonText` | tools/arithmetic_emitted_ast.py:46-47 | `==` and `<` yield one or zero for what they say of the named variables in order |
| `Alternatives.AndText` | tools/arithmetic_emitted_ast.py:48-49 | the conjunction yields one exactly when both variables are one |
| `Alternatives.NotText` | tools/arithmetic_emitted_ast.py:50-51 | the negation yields one exactly when the variable is zero |
| `Alternatives.SelectText` | tools/arithmetic_emitted_ast.py:52-53 | the conditional yields its first arm exactly when the condition is one, else its second |
| `Alternatives.HelperText` | tools/arithmetic_emitted_ast.py:117-118 | the instructions that need the helper block are exactly those whose text names it |
| `Alternatives.InputGuardText` | tools/arithmetic_emitted_ast.py:82-93 | the text of an input guard, and that running it returns early exactly outside its bounds |
| `Alternatives.OutputGuardText` | tools/arithmetic_emitted_ast.py:108-114 | the text of an output guard, and that running it returns early exactly outside its bounds |
| `Alternatives.LetText` | tools/arithmetic_emitted_ast.py:95-107 | the text of a binding and of its discard |
| `Alternatives.PreambleText` | tools/arithmetic_emitted_ast.py:74-80 | the five lines before the guards, with the profile digit, the array length, the dot and the arity in place |
| `RustGrammar.AlternativesDisjoint` | tools/arithmetic_emitted_ast.py:29-58 | no expression text matches two alternatives, or one of them in two ways, so the order of the cascade never matters |
| `RustGrammar.ExpressionIsItsText` | tools/arithmetic_emitted_ast.py:29-58 | the cascade returns an alternative and its captures exactly when the text is that alternative filled with them |
| `RustGrammar.LinesInjective` | tools/arithmetic_emitted_ast.py:67-116 | a list of lines is the text of at most one function of the closed grammar |
| `Emitted.AcceptedIsPositional` | tools/arithmetic_emitted_ast.py:74-116 | a text that spells a program has the right guard, node, discard and result line at every position |
| `Decoder.ReadPreamble` | tools/arithmetic_emitted_ast.py:74-80 | the header, signature and arity lines are read exactly when they have their form, with the free digit and numerals |
| `Decoder.ReadInputs` | tools/arithmetic_emitted_ast.py:82-93 | the input guards are read exactly when each line is there and has its index, the declared bounds and a Boolean range, with leading zeros and signs allowed |
| `Decoder.ReadNode` | tools/arithmetic_emitted_ast.py:95-107 | one `let` line and its discard are read exactly when both are there and spell the next node with its number, earlier operands and the Boolean annotation |
| `Decoder.ReadNodes` | tools/arithmetic_emitted_ast.py:94-107 | all eager nodes are read up to the first line that starts no `let`; a refusal is at the first `let` that cannot be read |
| `Decoder.ReadOutputs` | tools/arithmetic_emitted_ast.py:108-114 | the output guards are read exactly when each line is there, has the declared bounds and guards an evaluated node; their targets are the roots |
| `Decoder.Finish` | tools/arithmetic_emitted_ast.py:115-121 | the result tuple, closing brace, end of text, helper binding and equality with the original decide acceptance |
| `Decoder.Decode` | tools/arithmetic_emitted_ast.py:70-121 | the cursor loop accepts a list of lines for a program exactly when they are those of a function that denotes it, and then returns the program itself |
| `WholeText.LinesCalm` | tools/arithmetic_emitted_ast.py:64-68 | every line of every function of the grammar is ASCII without a line feed and without the letter pairs that each refused phrase contains |
| `WholeText.AcceptedTextPasses` | tools/arithmetic_emitted_ast.py:62-69 | the text of accepted lines passes every refusal made on the whole text, ends in no helper block, and splits back into its lines |
| `WholeText.DecodeText` | tools/arithmetic_emitted_ast.py:61-121 | a whole source text, helper block included, is accepted for a program exactly when it is the text of accepted lines; the refusals made before splitting refuse nothing else |
| `Meaning.CompilesIffSpelled` | tools/arithmetic_emitted_ast.py:30-53 | an accepted text compiles exactly when no variable is written with a leading zero, `input.len` has its dot, and every bound and literal of the program fits 128 bits |
| `Meaning.RhsIsCompute` | tools/arithmetic_emitted_ast.py:30-53 | running a right-hand side by the words and names of its text is computing the decoded instruction on the decoded operands |
| `Meaning.ComputeIsValue` | tools/arithmetic_emitted_ast.py:30-53 | the Rust expression of every alternative computes its instruction on all operands, refusals included |
| `Meaning.LetsMean` | tools/arithmetic_emitted_ast.py:94-107 | executing the `let` statements yields all node values, or refuses exactly when some node does, taken or not |
| `Meaning.AcceptedTextComputesProgram` | tools/arithmetic_emitted_ast.py:61-121 | if the decoder accepts, the compiled text equals program evaluation on every input vector, of any length, including every refusal |
| `Meaning.AcceptedTextsAgree` | tools/arithmetic_emitted_ast.py:61-121 | any two accepted and compiling texts for one program mean the same on every input |
| `Emit.EmittedDenotes` | crates/zeno-fcis-synthesis/src/finite/emit.rs:86-169 | the emitted function spells its program canonically, node by node, guard by guard |
| `Emit.EmittedTextIsAccepted` | crates/zeno-fcis-synthesis/src/finite/emit.rs:86-169 | printing a well-formed program and decoding it returns that program |
| `WholeText.EmittedTextDecodes` | crates/zeno-fcis-synthesis/src/finite/emit.rs:86-169 | the whole emitted text, with the helper block where an instruction needs it, is accepted for its program |
| `Emit.EmittedTextComputesProgram` | crates/zeno-fcis-synthesis/src/finite/emit.rs:86-169 | the emitted text compiles and computes the program on every input vector |
| `Emit.AcceptableIffWellFormed` | tools/arithmetic_emitted_ast.py:61-121 | a program has some accepted text, with or without the helper block, exactly when its references go backward, its roots are in range and its Boolean domains are 0..1 |
| `Emit.AcceptedButNotCompiling` | tools/arithmetic_emitted_ast.py:79-98 | accepted texts that do not compile: a name with a leading zero, every ASCII character in place of the dot, and a literal one beyond the largest 128-bit integer |
| `Wide.Multiply` | crates/zeno-fcis-synthesis/src/finite/value/wide.rs:57-120 | the two-limb product of any two 128-bit numbers is exact and no intermediate overflows |
| `Wide.MultiplyThree` | crates/zeno-fcis-synthesis/src/finite/value/wide.rs:126-164 | the three-limb product of any three 128-bit numbers is exact |
| `Wide.LessEqual` | crates/zeno-fcis-synthesis/src/finite/value/wide.rs:169-175 | limb comparison is comparison of the numbers |
| `Wide.ProductsGe` | crates/zeno-fcis-synthesis/src/finite/value/wide.rs:181-191 | the limb comparison decides a*b*c >= d*e*f exactly |
| `Wide.MulDivFloor` | crates/zeno-fcis-synthesis/src/finite/value/wide.rs:197-254 | the 128-round bit search returns floor(a*b/den), and refuses exactly for a zero divisor or a quotient beyond 128 bits |
| `Wide.MulDivCeil` | crates/zeno-fcis-synthesis/src/finite/value/wide.rs:260-275 | likewise for the ceiling, including the increment that would overflow |
| `Scalar.DivideRounds` | crates/zeno-fcis-synthesis/src/finite/value/scalar.rs:80-95 | division rounds to the requested side for every sign of both operands, and refuses zero and the one overflow |
| `Scalar.MulDivRounds` | crates/zeno-fcis-synthesis/src/finite/value/scalar.rs:98-108 | the unsigned fused quotient is narrowed to the exact floor or ceiling, refused for negative operands |
| `Scalar.SignedMulDivRounds` | crates/zeno-fcis-synthesis/src/finite/value/scalar.rs:116-177 | the signed fused quotient is the exact floor; an unsigned overflow never hides a quotient that fits |
| `Ir.PrefixValues` | tools/program_search_reference.py:171-199 | evaluating a prefix of the eager nodes gives the prefix of the values |
| `Instructions.InstructionMeans` | tools/program_search_reference.py:171-199 | an instruction yields a number exactly when that number has the property the instruction names, such as being the greatest whose multiple does not exceed the dividend |
| `Swap.PostIsCeiling` | tools/check_arithmetic_pilot.py:281-293 | the output reserve after a swap is exactly ceil(rin*rout/(rin+net)), for all integers with a nonzero divisor |
| `Swap.FeeIsCeiling` | tools/check_arithmetic_pilot.py:276-280 | for all integers the fee is the one number with 10000*fee >= gross*rate > 10000*(fee-1) |
| `Swap.ExactIffRight` | tools/check_arithmetic_pilot.py:281-293 | the recomputation accepts a row exactly when its fee is that ceiling, net and fee make the gross, the output is the floor for a divisor of either sign, and both reserves move by net and output |
| `Swap.BurnedIsFloor` | tools/check_arithmetic_pilot.py:296-299 | a burn row is right exactly when its amount is the floor of lp*reserve over the supply, for a supply of either sign |
| `Swap.SwapIsRightRow` | tools/check_arithmetic_pilot.py:281-293 | a swap in either direction leaves exactly the pool whose row is right |
| `Swap.RunExtends` | tools/check_arithmetic_pilot.py:281-295 | a run is one swap after the other, each on what the ones before it left |
| `Swap.ProductCheckExactly` | tools/check_arithmetic_pilot.py:281-295 | on a row that passed recomputation the product check passes exactly when the new input reserve is positive or divides the old product |
| `Swap.SwapKeeps` | tools/check_arithmetic_pilot.py:281-295 | every swap keeps both reserves positive and the product from falling, in either direction |
| `Swap.RunKeeps` | tools/check_arithmetic_pilot.py:281-295 | over every run of swaps in either direction the product never falls and both reserves stay at least one |
| `Swap.NothingForNothing` | tools/check_arithmetic_pilot.py:281-295 | no run takes from one reserve without having put into the other |
| `Swap.OutAndBack` | tools/check_arithmetic_pilot.py:281-293 | swapping in and the proceeds straight back never returns more than was put in |
| `Swap.SplittingNeverPays` | tools/check_arithmetic_pilot.py:281-293 | splitting one swap into any number of consecutive swaps never pays more in total |
| `Swap.SharesNeverFall` | tools/check_arithmetic_pilot.py:296-299 | over every sequence of burns within the supply a share's part of the reserve never falls, and burning the whole supply pays out the whole reserve |
| `Swap.BurningInPartsNeverPays` | tools/check_arithmetic_pilot.py:296-299 | burning in any number of parts, up to the whole supply, never pays more than burning at once |
| `Odometer.PointAtRank` | tools/capture_reference.py:47-56 | a tuple of the domain stands at its mixed-radix rank in the plain product enumeration |
| `Odometer.RankOfPoint` | tools/capture_reference.py:47-56 | every position of the enumeration holds a tuple of that rank, so ranks are a bijection |
| `Odometer.PointsAscend` | tools/capture_reference.py:47-56 | the enumeration holds exactly the tuples of the domains, and of any two of them the one that is smaller at the first difference comes first |
| `Odometer.AdvancedRank` | tools/check_checker.py:241-271 | each step raises the rank by exactly one, last input fastest, and stops exactly after the last tuple, leaving the first |
| `Odometer.Advance` | crates/zeno-fcis-shell-sqlite/src/v2/equivalence/checker.rs:521-555 | the in-place step changes the tuple to its successor and nothing beyond the inputs |
| `Checker.DomainSize` | crates/zeno-fcis-shell-sqlite/src/v2/equivalence/checker.rs:438-479 | the product loop, which reports an empty domain even after the product has overflowed |
| `Checker.CardinalityIs` | crates/zeno-fcis-shell-sqlite/src/v2/equivalence/checker.rs:438-479 | the size is the exact product, refused at the first empty domain or beyond 128 bits |
| `Checker.Scan` | crates/zeno-fcis-shell-sqlite/src/v2/equivalence/checker.rs:282-366 | on an admitted pair the scan passes exactly when both programs agree everywhere; otherwise it reports the least differing ordinal and its tuple |
| `Checker.TallyCounts` | crates/zeno-fcis-shell-sqlite/src/v2/equivalence/checker.rs:584-597 | each count of the statistics is the number of points it is about, and usage differs exactly where some point tells |
| `Checker.TallyMeans` | crates/zeno-fcis-shell-sqlite/src/v2/equivalence/checker.rs:584-597 | no run over the limit means every run within it, and the maxima are the least bounds |
| `Checker.PrefixIsEverything` | tools/check_checker.py:241-289 | agreeing on all enumerated points is agreeing on every tuple of the domain |
| `Checker.CompareWithUsage` | crates/zeno-fcis-shell-sqlite/src/v2/equivalence/checker.rs:186-237 | a comparison passes exactly for equal interfaces, a nonempty domain within the cap, agreement everywhere and no run over the limit, with exact usage counts and least maxima; every refusal names a true cause, checked in order and with exact over-limit counts, and the coverage refusal never occurs |
| `Kinds.TypeCheck` | tools/program_search_reference.py:132-168 | the kind loop accepts exactly the programs for which some assignment of kinds fits every node by the signature table and every root by its output |
| `Kinds.KindsAre` | tools/program_search_reference.py:132-168 | the check assigns kinds exactly when every node has its kind: its input's, a literal's in the width, or by a row of the signature table from earlier nodes |
| `Kinds.CheckedScoped` | tools/program_search_reference.py:132-168 | a checked program reads only earlier nodes and existing inputs |
| `Kinds.KindsAreSound` | tools/program_search_reference.py:132-199 | on every input of the domain, Boolean nodes evaluate to zero or one and every value fits the width |
| `Kinds.RefusesExactlyAtASum` | tools/program_search_reference.py:171-191 | the nodes of a checked program refuse an input exactly when one sum or difference, taken or not, is the first to leave the width; the output domains are checked after them |
| `Policy.BadIs` | tools/capture_reference.py:117-118 | the failing ordinals are exactly the rows not matched, ascending |
| `Policy.NoneBadIffReplay` | tools/capture_reference.py:102-118 | no failing ordinal, a positive replay, and computing the table on the whole domain are equivalent |
| `Profile.NarrowReplayExactly` | tools/capture_reference.py:158-175 | replay under a narrower integer profile holds exactly when replay under the wider does and no node value, at any tuple, leaves the narrower width |
| `Profile.NodesNarrower` | tools/program_search_reference.py:171-191 | under the narrower profile the nodes have values exactly when they have the same under the wider and all of them fit |
| `Profile.ReferenceProfile` | tools/capture_reference.py:81-84 | the instance for the 64-bit reference and the 128-bit checker |
| `Policy.PrecheckIs` | crates/zeno-fcis-loop-doors/src/capture.rs:228-244 | the precheck passes exactly when every selected example is matched, and otherwise names the first in example order that is not |
| `Policy.DistanceMoves` | tools/capture_reference.py:120-121 | moving one coordinate changes the distance by exactly what it changes that coordinate's absolute difference |
| `Policy.DistanceIsMetric` | tools/capture_reference.py:120-121 | the distance is zero exactly between equal tuples, and symmetric |
| `Policy.Choose` | crates/zeno-fcis-loop-doors/src/capture.rs:268-286 | the choice loop computes the selection by distance and ordinal |
| `Policy.ChosenIs` | tools/capture_reference.py:120-121 | the chosen ordinal is the farthest failure from the anchor with the least ordinal, and the only such one |
| `Policy.ChosenMeans` | tools/capture_reference.py:120-121 | without an anchor the least failing ordinal is chosen; with one, exactly the failing ordinal whose point has the greatest distance from the anchor's, the least of equals |
| `Policy.OutcomeOfPrefix` | tools/capture_reference.py:123-132 | a point shows exactly one outcome of a selection when the nodes before it succeed, and none otherwise |
| `Policy.SelectionsAreDecided` | tools/capture_reference.py:123-132 | where the whole program succeeds each selection has exactly one outcome, and takes that arm |
| `Policy.CoverageRows` | crates/zeno-fcis-loop-doors/src/capture.rs:316-353 | the nested loop builds one row per outcome of each selection, in order |
| `Policy.CoverageIs` | tools/capture_reference.py:122-132 | a row is listed exactly for an outcome of a selection, with its first point and whether an example shows it |
| `Policy.CoverageMeans` | tools/capture_reference.py:122-132 | a row is listed exactly when it names a selection and one of its two outcomes, the least ordinal that shows it or none, and whether an example shows it |
| `Policy.CoverageInOrder` | tools/capture_reference.py:122-132 | the rows come in node order, and for each node outcome zero before one |
| `Lookup.TableBuilder.Add` | crates/zeno-fcis-loop-doors/src/capture.rs:150-170 | adding an instruction reuses its only occurrence or appends it, and refuses exactly a new one at capacity |
| `Lookup.TableBuilder.Branch` | crates/zeno-fcis-loop-doors/src/capture.rs:174-224 | a branch yields a node of the output's kind that computes the block at every tuple of it; it is the shared encoding of the block, at most 5n-4 more nodes for n values, and fails exactly when that encoding exceeds 256 nodes |
| `Lookup.TableProgram` | crates/zeno-fcis-loop-doors/src/capture.rs:101-115 | the encoded table exists exactly when the shared encoding of the table has at most 256 nodes, is that encoding, and is an admitted program that computes the table on the whole domain |
| `Capture.CoverIs` | crates/zeno-fcis-cli/src/loop_capture.rs:997-1012 | added examples stay distinct, in range and within the slots, and every reachable outcome gets one or the slots are full |
| `Capture.CoverAdds` | crates/zeno-fcis-cli/src/loop_capture.rs:997-1012 | nothing is added but first points of uncovered outcomes |
| `Capture.AttemptsAre` | tools/program_search_reference.py:171-191 | the steps of a run are all nodes, or those up to and including the first that refuses |
| `Capture.SelectedIs` | crates/zeno-fcis-cli/src/loop_capture.rs:949-989 | the selected counterexample is exactly the failing ordinal that no failing one beats: the least without an example, else the farthest from the example selected last |
| `Capture.SelectedIsNew` | crates/zeno-fcis-cli/src/loop_capture.rs:949-989 | there is a selected counterexample unless the candidate replays, and it is new whenever the precheck passed |
| `Capture.SavesKeep` | crates/zeno-fcis-cli/src/loop_capture.rs:762-1026 | every state a call saves meets what loading demands and forgets nothing |
| `Capture.NextKeeps` | crates/zeno-fcis-cli/src/loop_capture.rs:762-1026 | whatever is proposed and wherever the call is stopped, the stored session stays sound and its reply true |
| `Capture.CaptureIsExact` | tools/capture_controls.py:139-147 | against any proposer, a program captured on the comparison's verdict computes the table on every tuple of the domain |
| `Capture.RefutationsAreBounded` | tools/capture_controls.py:65-88 | a session records at most one exact refutation per domain point and per example slot |
| `Capture.Caught` | tools/capture_controls.py:139-144 | a candidate that fails a selected example is never captured or exactly refuted, and changes no example |
| `Capture.CaughtByPrecheck` | tools/capture_controls.py:142-144 | on an open session with enough work it is refuted by the precheck, which names a selected failing example |
| `Capture.RefutedIsCaughtEverAfter` | tools/capture_controls.py:139-144 | after a recorded refutation and any further calls, the same candidate is never captured or exactly refuted again |
| `Capture.RespectfulProposerCaptures` | crates/zeno-fcis-cli/src/loop_capture.rs:762-1026 | with slots for every point, a proposer who respects the examples captures within one more call than there are points |
| `Capture.CoverageCompletes` | tools/capture_controls.py:190-197 | after a refutation with coverage every reachable outcome is shown by an example, or the slots are full |
| `Capture.EncodingDecides` | crates/zeno-fcis-cli/src/loop_capture.rs:584-600 | the checker finds a candidate equal everywhere to an encoding of the table exactly when the candidate computes the table |
| `Capture.Compare` | crates/zeno-fcis-cli/src/loop_capture.rs:584-625 | the exhaustive comparison with the encoded table maps a pass to equal, a counterexample to different, and every other refusal to unsettled |
| `Capture.VerdictIsExact` | crates/zeno-fcis-cli/src/loop_capture.rs:584-625 | for a table and candidate within the format limits the comparison always settles: equal exactly when the candidate computes the table |
| `Capture.Open` | crates/zeno-fcis-cli/src/loop_capture.rs:477-568 | opening succeeds exactly when the table is within the tuple limit and its shared encoding fits 256 nodes, and yields a sound session that holds the encoding |
| `Capture.AddCovering` | crates/zeno-fcis-cli/src/loop_capture.rs:997-1012 | the loop over coverage rows appends exactly the first points of uncovered outcomes while slots remain |
| `Capture.Session.Candidate` | crates/zeno-fcis-cli/src/loop_capture.rs:762-1026 | one stored call, decided by the comparison with the encoded table: the session stays sound and forgets nothing, and its exact successor and reply, however many saves complete |
| `Capture.Session.Refute` | crates/zeno-fcis-cli/src/loop_capture.rs:943-1026 | the refutation is stored before any example is selected, then the example and the covering ones |
| `Replies.RepliesAre` | crates/zeno-fcis-cli/src/loop_capture.rs:762-1026 | a completed call gives a reply exactly when the table, the budgets and the stages that finish determine it: each reply by its own condition, with the work bounds written out; it charges one unit of work whenever the session is open, a round exactly when the reply decides the proposal, and changes examples and capture only as the reply says |
| `Replies.StoppedCallLeaves` | crates/zeno-fcis-cli/src/loop_capture.rs:762-1026 | what a call leaves when only none, one, two or all of its saves complete: nothing, one unit of work charged, all it decided but of a refutation only the round, or everything |
| `Replies.OneReply` | crates/zeno-fcis-cli/src/loop_capture.rs:762-1026 | the conditions of two different replies never hold together |
| `Replies.RoundsCountDecisions` | crates/zeno-fcis-cli/src/loop_capture.rs:762-1026 | over every run of completed calls the rounds used are the decided proposals, at most the rounds granted |
| `Replies.CoverageChargeIs` | crates/zeno-fcis-cli/src/loop_capture.rs:996-997 | coverage is charged one visit for each row, each selection and each node before it |
| `Renaming.WalkIffRelated` | tools/check_canonical_bytes.py:145-166 | from any injective pairing the comparison succeeds exactly when an injective extension relates the trees, and finds the least one |
| `Renaming.LeavesAre` | tools/check_canonical_bytes.py:145-166 | the identity nodes are exactly the read places and the bound variables of these shapes, with this context and identity |
| `Renaming.ReadsRelate` | tools/check_canonical_bytes.py:145-166 | two reads are related exactly when their kinds agree and the pairing maps number to number |
| `Renaming.BindingsRelate` | tools/check_checker.py:413-433 | two bindings are related exactly when they have one name and the pairing maps name and number to name and number |
| `Renaming.ReleasedIs` | tools/check_canonical_bytes.py:206-224 | a released binder is `result` on the left and the unnamed return on the right, and exactly what follows is compared |
| `Renaming.FieldsIffRelated` | tools/check_canonical_bytes.py:206-224 | fields compared one after the other with shared dictionaries, each with its own identity pair, agree exactly when one injective pairing relates them all; the least is found |
| `Renaming.OnlyChangedMeans` | tools/check_canonical_bytes.py:206-227 | the attribution of a mutation holds exactly when every released result binder has its form, some injective pairing relates all other fields, and none relates them together with a changed one |
| `Renaming.RelatedIffRenamed` | tools/check_canonical_bytes.py:145-166 | being related by a pairing is being the tree with its identities renamed by it |
| `Renaming.SameIffRenaming` | tools/check_checker.py:413-433 | from empty maps: true exactly when some injective renaming of identities turns the left tree into the right one |
| `Renaming.SameAsItself` | tools/check_canonical_bytes.py:145-166 | a tree equals itself exactly when every identity node has a decimal identity |
| `Renaming.SameIsSymmetric` | tools/check_canonical_bytes.py:145-166 | sameness does not depend on the side |
| `Renaming.SameIsTransitive` | tools/check_canonical_bytes.py:145-166 | sameness carries through a third tree |
| `Renaming.Comparison.Pair` | tools/check_canonical_bytes.py:158-161 | two identities are paired in both dictionaries unless either is paired otherwise; the dictionaries stay inverses |
| `Renaming.Comparison.Compare` | tools/check_canonical_bytes.py:145-166 | the recursion over the shared dictionaries returns the walk's verdict and pairing, and keeps them mutual inverses whatever the outcome |
| `Renaming.Comparison.CompareFields` | tools/check_canonical_bytes.py:206-224 | the loop over fields threads one pair of dictionaries, stops at the first difference, and keeps them mutual inverses |
| `Renaming.CoverageStructure` | tools/check_canonical_bytes.py:206-227 | shared dictionaries for the other fields, the rest of a released binder, and copies for a changed field if there is one give exactly that attribution |
| `Leb.ReadU32Loop` | site/wasm.py:16-28 | the reading loop is the reading function, with every refusal |
| `Leb.ReadIsDenoted` | site/wasm.py:16-28 | reading accepts exactly the encodings of at most five bytes of a 32-bit number, and yields the number they denote |
| `Leb.U32Loop` | site/wasm.py:31-39 | the writing loop is the writing function, refusing exactly numbers beyond 32 bits |
| `Leb.U32IsShortest` | site/wasm.py:31-39 | writing produces an encoding no longer than any other the reader accepts for the number |
| `Leb.ReadOfU32` | site/wasm.py:16-39 | reading inverts writing at any offset and whatever follows |
| `Exports.PrivateExportsLoop` | site/wasm.py:42-67 | the loop over the declared exports is the parse, filter and print, with every refusal |
| `Exports.KeptAreTheSeven` | site/wasm.py:57-66 | an acceptable export list keeps exactly the seven functions, each once |
| `Exports.PrivateExportsIs` | site/wasm.py:42-67 | the rewritten payload holds exactly the seven functions, in order and with their bytes, and is no longer than the original |
| `Exports.PrivateExportsIdempotent` | site/wasm.py:42-67 | rewriting an export payload twice changes nothing more |
| `Wasm.PrivateModuleLoop` | site/wasm.py:70-93 | the loop over sections is the section-wise rewriting, with every refusal |
| `Wasm.SectionLength` | site/wasm.py:82-89 | an accepted payload is short enough for its length to be written |
| `Wasm.PrivateModuleIs` | site/wasm.py:70-93 | the rewriter succeeds exactly when the module splits into sections of which one exports, acceptably; every other section is kept byte for byte in order and the result is not longer |
| `Wasm.RewrittenExports` | site/wasm.py:82-87 | the export section of the result parses to the seven functions with their original entry bytes and order |
| `Wasm.PrivateModuleIdempotent` | site/wasm.py:70-93 | rewriting a rewritten module gives it back unchanged |
| `WasmFormat.ModuleGrammar` | site/wasm.py:70-93 | a module splits into sections exactly when it is the eight header bytes and the bytes of sections, each an identity, an encoded length and that many bytes |
| `WasmFormat.PayloadGrammar` | site/wasm.py:42-67 | a payload parses to exports exactly when it is an encoded count and that many exports, each an encoded length, a name, a kind and an encoded index |
| `WasmFormat.AcceptableIs` | site/wasm.py:52-65 | the exports are accepted exactly when names differ, each is one of the seven functions, the first memory, or one of the two globals, and seven are functions |
| `WasmFormat.RewriterIs` | site/wasm.py:70-93 | the rewriter gives an output exactly for a module with one export section of accepted exports, and the output is its bytes with only that section replaced by the seven functions as they were spelled, counted and measured in the fewest bytes |
| `Masker.Masked` | tools/check_collections_runtime.py:58-97 | the in-place pass computes the masked text, which is the reading that blanks each lexeme to its own end; it leaves a text alone exactly when no lexeme starts in it, and its result has none |
| `Masker.LexemeIs` | tools/check_collections_runtime.py:67-95 | the scanner finds a lexeme from i to e exactly when one extends there: a line comment to the end of its line, a block comment to its first balance, a string through its first unhidden quote, a raw string through its first matching close, or a character literal |
| `Masker.StartsIs` | tools/check_collections_runtime.py:67-95 | the scanner finds code exactly where none of them starts |
| `Masker.MaskIsReading` | tools/check_collections_runtime.py:58-97 | masking gives a text exactly when it keeps every character outside lexemes and turns all but line feeds inside each into spaces, resuming at each lexeme's end |
| `Masker.MaskRefuses` | tools/check_collections_runtime.py:58-97 | masking refuses exactly the texts in which reading comes to a lexeme that never ends |
| `Masker.ScanBlock` | tools/check_collections_runtime.py:72-78 | the depth loop finds the first position at which openers and closers balance, or that there is none |
| `Masker.ScanString` | tools/check_collections_runtime.py:79-85 | the string loop finds the first quote that no backslash hides, or that there is none |
| `Masker.BlockEndIs` | tools/check_collections_runtime.py:71-77 | reading openers and closers in steps of two, the comment ends at the first position where they balance and at no earlier one |
| `Masker.StringEndIs` | tools/check_collections_runtime.py:79-85 | the string ends at the first quote preceded by an even run of backslashes |
| `Masker.MaskKeeps` | tools/check_collections_runtime.py:58-97 | length and every newline are kept, and only spaces are written |
| `Masker.MaskIsClean` | tools/check_collections_runtime.py:58-97 | no quote, comment opener or character literal is left or newly formed across blanked text |
| `Masker.CleanMeans` | tools/check_collections_runtime.py:67-95 | that no lexeme starts anywhere means no double quote, comment opener or character literal anywhere |
| `Masker.FixedIffClean` | tools/check_collections_runtime.py:58-97 | masking leaves a text unchanged exactly when no lexeme starts in it |
| `Masker.MaskIsIdempotent` | tools/check_collections_runtime.py:58-97 | masking twice is masking once |
| `Masker.MaskInParts` | tools/check_collections_runtime.py:58-97 | a part that ends its last line and masks on its own masks the same whatever follows it |
| `Bodies.ScanSignature` | tools/check_collections_runtime.py:105-121 | the cursor loop over a signature computes its end, by parenthesis and bracket counts |
| `Bodies.SignatureEndIs` | tools/check_collections_runtime.py:103-121 | a signature is decided by the first delimiter outside all parentheses and brackets, or the first stray closer, and by nothing before it |
| `Bodies.BodyEndIs` | tools/check_collections_runtime.py:122-126 | a body ends at the first position where its braces balance; it is refused exactly when there is none |
| `Bodies.BodyIsBalanced` | tools/check_collections_runtime.py:122-127 | the yielded text is balanced: every closer closes an opener in it and every opener is closed |
| `Bodies.HeaderIs` | tools/check_collections_runtime.py:100-102 | a header is found exactly where a whole word `fn`, white space and a whole name stand |
| `Bodies.ClassesAre` | tools/check_collections_runtime.py:100-102 | the characters of names and of white space, by their codes |
| `Bodies.HeadersAre` | tools/check_collections_runtime.py:100-102 | the search finds the first header there is and then those after its name |
| `Bodies.YieldsInOrder` | tools/check_collections_runtime.py:100-127 | bodies come in the order of their headers, and none after a refusal |
| `Bodies.YieldsAre` | tools/check_collections_runtime.py:100-127 | every yielded body is a header's; without a refusal every header has yielded its body or has none, and a refusal is at a broken header |
| `Bodies.BodiesAreCode` | tools/check_collections_runtime.py:100-127 | every body of a source text is balanced and free of strings, comments and character literals, so none of them can hide a brace |
| `Bodies.Bodies` | tools/check_collections_runtime.py:100-127 | the generator masks the text and follows each header in turn, from the end of the name before |
| `Runs.NumberIsFree` | tools/atdd.py:1895-1912 | the next attempt number is free in both folders, even when only one of two renames happened |
| `Runs.AttemptOfIs` | tools/atdd.py:1895-1900 | a file name is read as attempt k exactly when it is the scenario's name, `.attempt`, k in decimal and `.json` or `.log` |
| `Runs.NumberIs` | tools/atdd.py:1903-1909 | the next number is the one that follows the highest kept in either folder, or one |
| `Runs.HarmlessPreserves` | tools/atdd.py:1903-1912 | an operation onto a free name keeps every other file and finds the moved one again |
| `Runs.ArchiveIs` | tools/atdd.py:1903-1912 | archiving loses nothing wherever it stops, and clears both latest files when it finishes |
| `Runs.ArchiveKeeps` | tools/atdd.py:1903-1912 | when archiving finishes, the earlier receipt and log both stand under the one next number |
| `Runs.ReceiptComesLast` | tools/atdd.py:1915-1952 | wherever recording stops, the receipt is there exactly when every file operation before it took effect, and then the log is whole |
| `Runs.ScenarioIs` | tools/atdd.py:2026-2033 | a scenario loses nothing wherever it stops, touches no other scenario, adds exactly two files when it completes, and does not run at all on a bound pass |
| `Runs.HistoryPreserves` | tools/atdd.py:1988-2033 | over every sequence of runs, resumes and stops between file operations, no receipt or log once written is overwritten or lost |
| `Runs.ReceiptsAreNeverLost` | tools/atdd.py:1895-1957 | a kept attempt never changes, and a latest receipt is found again unchanged, as latest or under a number that was free |
| `Runs.PassesAreKept` | tools/atdd.py:2027-2031 | a pass bound to the same state is neither rerun nor touched, however the run ends |
| `Runs.InventoryIsComplete` | tools/atdd.py:1960-2033 | after a completed run a selected scenario is missing exactly when its bound pass was of another schema at the start |
| `Runs.InventoryReports` | tools/atdd.py:1960-2033 | every row of a completed run, also of a scenario listed more than once, is the bound pass found at its start or else the last outcome of this run, no later than the first pass |
| `Runs.OutcomesAre` | tools/atdd.py:2026-2033 | this run's outcome of a scenario is that of its first passing place in the list, or else of its last place |
| `Runs.RowIs` | tools/atdd.py:1960-1975 | a row is present with a status exactly when the file `ID.json` among the receipts holds one of this schema with that status, the same commit and the same changes |
| `Runs.Summarize` | tools/atdd.py:1964-1985 | each row is present exactly with the status of a receipt bound to the same commit and changes; exit 0 exactly when every row is a bound pass, 1 exactly when some row failed or is missing, otherwise 2 |
| `Runs.RunDirectory.NextNumber` | tools/atdd.py:1895-1909 | one more than the highest kept number, over both folders |
| `Runs.RunDirectory.ArchiveAttempt` | tools/atdd.py:1903-1912 | the two conditional renames under one number |
| `Runs.RunDirectory.RecordScenario` | tools/atdd.py:1915-1952 | the log is opened anew, written piece by piece, and the receipt put last |
| `Runs.RunDirectory.RunInventory` | tools/atdd.py:1988-2038 | the whole run: nothing lost wherever it stops; when it completes each row is the kept pass or this run's outcome, and exit 0 means all of those are passes |
| `Runs.ShardsPartition` | tools/atdd.py:1863-1867 | shards 1..N together hold every selected scenario exactly once |
| `Runs.ShardSize` | tools/atdd.py:1863-1867 | each shard has the quotient of scenarios, and the first ones, as many as the remainder, one more |
| `Runs.ShardAt` | tools/atdd.py:1863-1867 | shard I of N holds, in order, the names at places I-1, I-1+N, and so on |
| `Limiter.DecisionsFollow` | core-components/README.md:147-167 | in every trace a request is refused with 200, 201 or 202 exactly for the first cause in that order, counted from the trace: not authorized, before the current window opened, or inside it with the quota already accepted since; it is accepted exactly when none applies; a refusal changes nothing |
| `Limiter.DecisionsAreTheOnly` | core-components/README.md:147-167 | no other list of decisions follows these rules |
| `Limiter.StateIs` | core-components/README.md:147-167 | the state is always when the current window opened and how many were accepted since |
| `Limiter.CountsAre` | core-components/README.md:147-167 | the counted acceptances are positions of the trace |
| `Limiter.WithinQuota` | core-components/README.md:147-167 | in every trace the used quota never exceeds the limit |
| `Limiter.StartsApart` | core-components/README.md:147-167 | requests that open windows are at least a window length apart, the first that long after time zero, for any times and decisions |
| `Limiter.TotalBounded` | core-components/README.md:162-167 | in every trace the acceptances are at most N*(start/W+1) |
| `Limiter.IntervalBounded` | core-components/README.md:147-167 | any interval of length W holds at most 2N acceptances, and at most N when W is 1, even where times go back |
| `Limiter.BurstIsReached` | core-components/README.md:147-167 | from W = 2 on the bound of 2N is reached by a trace, for every N |
| `JointStep.Resolve` | crates/zeno-fcis-contract/src/checked_composition/resolve.rs:50-103 | the lazy scan asks the members in order, each once and none after the one that ends the step; the end names that member and its own kind of decision, with what is committed, and is the resolution of all decisions |
| `JointStep.Apply` | crates/zeno-fcis-contract/src/checked_composition/resolve.rs:118-151 | the loop writes exactly the successors of owners below the cut, and nothing on a rollback |
| `JointStep.OutcomeIs` | crates/zeno-fcis-contract/src/checked_composition/resolve.rs:50-103 | a component stays out if it does not join on what it observes, is refused if its input or bound state is missing, decides on its own state as an owner, and as a reader is refused exactly when it would commit another state |
| `JointStep.Perform` | crates/zeno-fcis-contract/src/checked_composition/resolve.rs:50-151 | a joint step as it runs asks exactly the members through the one that ends it; a reject or refusal changes nothing, a committed failure at k applies exactly the owned successors of members 0..k, and otherwise all owners take theirs |
| `JointStep.StepKeepsLaws` | verification/verus/composed_domain_theorem.rs:194-215 | a joint step keeps every owned state within its law |
| `JointStep.StepKeepsCoupling` | verification/verus/composed_domain_theorem.rs:217-253 | a joint step keeps every coupling between owned states, wherever it is cut |
| `JointStep.HistoriesAreSafe` | verification/verus/composed_domain_theorem.rs:255-303 | over every history of admitted requests all owned states are lawful and all couplings hold |
| `JointStep.HistoriesDeliver` | verification/verus/composed_domain_theorem.rs:284-303 | at every point of a history whoever takes part is handed an admitted input and a lawful state |
| `JointStep.HistoriesNeverWriteReaders` | crates/zeno-fcis-contract/src/checked_composition/resolve.rs:118-151 | in no history is a reader's slot ever written |
| `JointStep.IntervalCutters` | crates/zeno-fcis-contract/src/checked_composition/coupling_cuts.rs:30-63 | all flagged positions of an interval, in order, and no others |
| `JointStep.OutsideFailureCutters` | crates/zeno-fcis-contract/src/checked_composition/coupling_cuts.rs:75-97 | before each member, exactly the flagged positions since the previous one |
| `JointStep.CheckpointsSuffice` | verification/verus/composed_domain_theorem.rs:404-490 | one checkpoint before each member with a flagged position before it, and the members' own ends, imply the coupling's duty at every cut |
| `JointStep.PilotMeetsDuties` | verification/verus/composed_domain_theorem.rs:306-364 | the three-component pilot meets every duty |
| `BigEndian.ReadBigEndian` | crates/zeno-fcis-synthesis/src/finite/canonical_v2/mod.rs:25-52 | the base-256 loop with checked arithmetic refuses exactly excessive width or missing bytes, never by overflow, and reads the number |
| `BigEndian.NumberJoins` | crates/zeno-fcis-synthesis/src/finite/canonical_v2/mod.rs:25-52 | reading a concatenation is positional |
| `BigEndian.ReadSigned128` | crates/zeno-fcis-synthesis/src/finite/canonical_v2/mod.rs:62-74 | the signed reader accepts exactly sixteen available bytes, and they are the two's complement of what it returns |
| `BigEndian.SignedIs` | crates/zeno-fcis-synthesis/src/finite/canonical_v2/mod.rs:62-74 | the signed reading is the one 128-bit signed value that equals the unsigned one or is 256 to the sixteenth below it |
| `BigEndian.SignedRoundTrip` | tools/check_canonical_bytes.py:99-112 | every signed 128-bit value, written anywhere in a text, is read back with the next offset |
| `BigEndian.SignedInjective` | crates/zeno-fcis-synthesis/src/finite/canonical_v2/mod.rs:62-74 | distinct sixteen-byte strings have distinct signed readings |

## Left out

- `WholeText.DecodeText`: the helper block is a parameter of which only its refused phrase is known; which of two failed obligations is named first is modelled and not stated.
- `Meaning.AcceptedTextComputesProgram`: the meaning of the Rust subset is the project's own definition; rustc itself is not modelled.
- `Emit.EmittedTextIsAccepted`: the header's profile digit and the helper text are parameters; the Python and JavaScript emitters of the same file are not modelled.
- `Checker.CompareWithUsage`: evaluation is an arbitrary function from tuples to a result and a step count, the step counters do not saturate at 64 bits, and the identity shortcut of `compare_equal` is not modelled.
- `Checker.Scan`: says nothing when called with a size that is not the product, which pair validation excludes.
- `Policy.Choose`: distances are unbounded integers.
- `Lookup.TableProgram`: the limit on fields is not modelled; with it it would only refuse more.
- `Capture.Session.Candidate`: 64-bit saturation of budgets, the lock file, event records, packets and the JSON of the session are not modelled; files, the byte encoding, receipts and their replay, stage deadlines and kills are choices of the surroundings.
- `Replies.RepliesAre`: is about calls whose saves all complete; stopped calls are in `Replies.StoppedCallLeaves`.
- `Renaming.Comparison.Compare`: identities are ASCII decimal in both comparators, while one of them would also accept other Unicode digits; parsing the trees and choosing which fields are compared are not modelled.
- `Renaming.CoverageStructure`: a result binder too short to have a name is a refusal here and an exception there.
- `Bodies.Bodies`: word characters and white space are those of ASCII; other letters beside `fn` or a name are not modelled.
- `Runs.RunDirectory.RunInventory`: a replaced file appears in one step, so its hidden temporary is not modelled; `run.json`, `summary.json`, the preflight and the refusal to resume another checkout are not modelled, and a checkout changed by a scenario is a stop.
- `Runs.ShardsPartition`: is about the sorted list; sorting itself is the library's.
- `JointStep.HistoriesAreSafe`: a component's domain and invariant are one law, and its input domain and assumption one admission; building the tables of a contract is not modelled.
- The declared bounds of the swap pilot (amounts to 3000000000) are not needed and not assumed.
- SQLite shell, authority and law evaluation, process launching, hashing, network and browser checks: no decision of this kind, or not part of this model.
- The admission reference, the approval queue and other finite components: settled by enumeration.
