# BrainCrab compiler core in Dafny

BrainCrab is a small language that compiles to Brainfuck in two stages. The front end lowers the
program to ABF, "abstract Brainfuck". ABF is a tree of instructions over symbolic 16-bit
addresses:

- `New(a, v)` declares a cell holding `v`.
- `Read(a)` declares a cell filled from input.
- `Write(a)` prints a cell.
- `Add(a, k)` adds the signed byte `k`.
- `Free(a)` releases a cell.
- `While(a, body)` loops while the cell is non-zero.

An optimiser partially evaluates ABF, and a back end places symbolic cells on a Brainfuck tape.
The Brainfuck tree (`bf_core`) has its tokenizer, parser, printer and interpreter.

This project models those stages as pure functions over immutable datatypes and proves what each
one promises:

- Tokenising and printing round-trip.
- Parsing succeeds exactly on balanced brackets and merges runs of `<>` and `+-`.
- The interpreter only consumes input and appends output.
- The ABF builder hands out strictly increasing, never reused addresses.
- `optimize_frees` puts each `Free` right after the last mention of its address, most recent first.
- `clear_unused_variables` keeps exactly the instructions on used addresses.
- The optimiser folds constant arithmetic, unrolls a loop exactly when its guard becomes a
  compile-time zero within the iteration limit, and emits the others after materialising what
  they modify.
- The back end's cursor bookkeeping matches the pointer the emitted Brainfuck really ends on,
  both for `New` as the source writes it and with the corrected `New` code.
- With the stale pointer of `to_bf_impl` corrected (see Findings), the absolute-address compiler
  runs exactly like the ABF it came from. The code as written does so on settled programs, where
  every instruction other than `MoveTo` already stands on the pointer's cell.
- Lowering an assignment moves or copies the value, as the source's ownership rules say.

The repository also holds alternative versions of some stages, and each has its own module:

- `src/new_abf.rs`: an output-recording ABF optimiser.
- `src/absolute_bf.rs`: an ABF with absolute addresses and a path-cost heuristic.
- `braincrab_core/src/lib.rs`: an imperative copy of `bf_core`. Its methods are proved equal to
  the `BfCore` functions.
- `examples/allocator_design.rs`: a first-fit allocator.

Modules follow the source files:

| module | source |
|---|---|
| `Wrappers`, `Bytes` | shared `Option`/`Result`, byte wrap-around |
| `BfCore` | `bf_core/src/lib.rs` |
| `BraincrabCore` | `braincrab_core/src/lib.rs` |
| `AbfAst`, `FreePlacement` | `src/abf/abf_ast.rs` |
| `AbfBuilder` | `src/abf/abf_program_builder.rs` |
| `AbfState` | the cell state shared by `src/abf/abf_optimizer.rs` and `src/new_abf.rs` |
| `AbfOptimizer` | `src/abf/abf_optimizer.rs` |
| `AbfCompiler` | `src/abf/abf_compiler.rs` |
| `AbsoluteBf` | `src/absolute_bf.rs` |
| `NewAbf` | `src/new_abf.rs` |
| `Lowering`, `LoweringSemantics` | `src/compiler.rs` |
| `Parsing` | `src/parser.rs` |
| `Values` | `src/value.rs` |
| `ConstantValues` | `src/constant_value.rs` |
| `PoolAllocator` | `src/allocator.rs` |
| `FirstFit` | `examples/allocator_design.rs` |
| `Types`, `CompilerErrors`, `Ast` | `src/types.rs`, `src/compiler_error.rs`, `src/ast.rs` |

`FreePlacement` is shared by the two `optimize_frees` versions. It holds the generic proof that
inserting frees in descending order of position leaves each group right after its instruction.

Conventions:

- A Rust `panic!`, `unwrap` on a missing key or failed `assert!` is an `Err` or `None` result.
- A precondition states only what the source's own construction guarantees, never a check the
  source performs. Examples are a loop frame being open when the code that opened it closes it, a
  value having as many cells as its type, and cells handed out before the current address counter.
- `u8` arithmetic is written out modulo 256 (`Bytes.WrapU8`).
- A Brainfuck cell holds a byte, and the tape is a map with default 0.
- Loops that the source runs unboundedly take a `fuel` argument, and running out of fuel is an
  error.

## Model

| member | source | states |
|---|---|---|
| BfCore.FromChar | bf_core/src/lib.rs:32-44 | exactly the eight command characters decode to a token |
| BfCore.ToChar | bf_core/src/lib.rs:20-31 | every token prints as a command character that decodes back to it |
| BfCore.FromCharInjective | bf_core/src/lib.rs:32-44 | two characters that decode to the same token are the same character |
| BfCore.Tokenize | bf_core/src/lib.rs:47-49 | tokenising keeps the commands in order and drops every other character |
| BfCore.Stringify | bf_core/src/lib.rs:51-53 | printing yields one character per token, the token's own |
| BfCore.TokenizeStringify | bf_core/src/lib.rs:47-53 | printing and then tokenising gives back the tokens |
| BfCore.StringifyTokenize | bf_core/src/lib.rs:47-53 | text made only of commands survives tokenising and printing unchanged |
| BfCore.MoveTokens | bf_core/src/lib.rs:67-71 | a move prints as a run of `<` or `>` whose net count is the offset |
| BfCore.AddTokens | bf_core/src/lib.rs:72-76 | an add prints as at most 128 `+` or `-`, whose net count is the byte modulo 256 |
| BfCore.LoopTokens | bf_core/src/lib.rs:79-83 | a loop prints as its body between brackets |
| BfCore.ToTokensConcat | bf_core/src/lib.rs:168-175 | printing distributes over concatenation of trees |
| BfCore.ToTokensBalanced | bf_core/src/lib.rs:65-85 | every printed tree has balanced brackets |
| BfCore.ParseImplIndex | bf_core/src/lib.rs:105-153 | the parser stops exactly at the bracket that closes the current level, or at the end |
| BfCore.ParseTokensBalanced | bf_core/src/lib.rs:155-163 | parsing succeeds if and only if the brackets are balanced, and otherwise reports unmatched brackets |
| BfCore.ToTokensParse | bf_core/src/lib.rs:155-175 | whatever is printed from trees parses again |
| BfCore.ParseMoveRun | bf_core/src/lib.rs:110-123 | a run of `<>` extends the preceding move by its net offset |
| BfCore.ParseAddRun | bf_core/src/lib.rs:124-137 | a run of `+-` extends the preceding add by its net count, wrapped to a byte |
| BfCore.ParseMoves | bf_core/src/lib.rs:105-163 | a non-empty run of `<>` parses to a single move by its net offset |
| BfCore.ParseAdds | bf_core/src/lib.rs:105-163 | a non-empty run of `+-` parses to a single add of its net count modulo 256 |
| BfCore.ParseLoneDec | bf_core/src/lib.rs:131-137 | a lone `-` parses to an add of 255 |
| BfCore.RunAdd | bf_core/src/lib.rs:216-218 | an add changes only the current cell, by the amount modulo 256 |
| BfCore.RunLoopExitsOnZero | bf_core/src/lib.rs:231-236 | a loop that finishes leaves the current cell at zero |
| BfCore.RunSingleLoop | bf_core/src/lib.rs:231-236 | a program made of one loop ends on a zero cell |
| BfCore.RunProgress | bf_core/src/lib.rs:212-239 | running only consumes a suffix of the input and only appends to the output |
| BfCore.RunConcat | bf_core/src/lib.rs:212-239 | running two programs in sequence is running their concatenation |
| BfCore.RunMoreFuel | bf_core/src/lib.rs:212-239 | a run that finishes gives the same result with more fuel |
| BraincrabCore.TokenizeBf | braincrab_core/src/lib.rs:23-39 | the character loop yields the tokens of the text's command characters |
| BraincrabCore.PushPlain | braincrab_core/src/lib.rs:102-133 | one step of the imperative parser for a non-bracket token agrees with the functional parser |
| BraincrabCore.ParseTokensImpl | braincrab_core/src/lib.rs:99-147 | the recursive parser returns the functional parser's trees and stops at the closing bracket |
| BraincrabCore.ParseBfTokens | braincrab_core/src/lib.rs:149-157 | parsing succeeds if and only if the brackets are balanced |
| BraincrabCore.RunInstructions | braincrab_core/src/lib.rs:182-209 | the imperative interpreter computes the functional one, and only consumes input and appends output |
| AbfAst.ModifiedFlatten | src/abf/abf_ast.rs:49-62 | an address is modified if and only if some nested `Read`, `Add` or loop guard names it |
| AbfAst.MentionedFlatten | src/abf/abf_ast.rs:63-79 | an address is mentioned if and only if some nested instruction names it |
| AbfAst.ModifiedSubsetMentioned | src/abf/abf_ast.rs:105-119 | every modified address is mentioned |
| AbfAst.AnalysesConcat | src/abf/abf_ast.rs:105-119 | both analyses distribute over program concatenation |
| AbfAst.LastMentionsSpec | src/abf/abf_ast.rs:128-153 | the scan records exactly the addresses declared at this level, each at its last mentioning instruction |
| AbfAst.OptimizeFreesSpec | src/abf/abf_ast.rs:121-164 | the result places each recorded free right after its last mention, later frees first |
| AbfAst.OptimizeFreesOrder | src/abf/abf_ast.rs:156-163 | removing the frees from the result gives back the free-less program |
| AbfAst.PrepShape | src/abf/abf_ast.rs:123-142 | dropping frees keeps every other instruction in order, recursing into loop bodies |
| AbfAst.UsageIsFlat | src/abf/abf_ast.rs:167-185 | the recursive usage analysis equals a scan over the flattened program |
| AbfAst.UsedSpec | src/abf/abf_ast.rs:167-185 | an address is used if and only if it is read, written or used as a loop guard after its last re-declaration |
| AbfAst.Keep | src/abf/abf_ast.rs:187-211 | the filter never grows the program and keeps only instructions on used addresses |
| AbfAst.KeepMentioned | src/abf/abf_ast.rs:187-211 | the filtered program mentions only used addresses, at any depth |
| AbfAst.KeepIdempotent | src/abf/abf_ast.rs:187-211 | filtering twice is filtering once |
| AbfAst.KeepAll | src/abf/abf_ast.rs:187-211 | a program that mentions only used addresses is left unchanged |
| AbfAst.KeepMembers | src/abf/abf_ast.rs:187-211 | an instruction survives if and only if its address is used, a loop carrying its filtered body |
| AbfAst.ClearUnusedSpec | src/abf/abf_ast.rs:213-221 | after clearing, every mentioned address is one the analysis found used |
| FreePlacement.EntriesSpec | src/abf/abf_ast.rs:156-157 | the map's entries, listed once each in ascending address order |
| FreePlacement.SortDescLex | src/abf/abf_ast.rs:156-157 | sorting by descending position, with ties keeping address order, is a permutation that is sorted |
| FreePlacement.InsertFreesGrouped | src/abf/abf_ast.rs:160-163 | inserting in descending position order puts every free right after its own instruction |
| FreePlacement.PlaceGrouped | src/abf/abf_ast.rs:156-163 | sorting then inserting yields the grouped placement, with every entry of the map present |
| FreePlacement.GroupedStrip | src/abf/abf_ast.rs:160-163 | the placement only adds frees, so removing them restores the program |
| AbfBuilder.NewAddress | src/abf/abf_program_builder.rs:25-30 | returns the counter, bumps it and appends the `New`; fails only when the counter is exhausted |
| AbfBuilder.ReadNew | src/abf/abf_program_builder.rs:32-37 | returns the counter, bumps it and appends the `Read`; fails only when the counter is exhausted |
| AbfBuilder.WriteCell | src/abf/abf_program_builder.rs:39-41 | appends the `Write` and leaves the counter alone |
| AbfBuilder.AddTo | src/abf/abf_program_builder.rs:43-45 | appends the `Add` and leaves the counter alone |
| AbfBuilder.CreateChild | src/abf/abf_program_builder.rs:47-52 | an empty program that continues the parent's counter |
| AbfBuilder.EndLoop | src/abf/abf_program_builder.rs:63-66 | appends a loop holding the child's program and adopts the child's counter |
| AbfBuilder.WhileLoop | src/abf/abf_program_builder.rs:68-72 | appends a loop holding what the body built in a child, failing only when the body fails |
| AbfBuilder.ZeroCell | src/abf/abf_program_builder.rs:75-79 | appends a loop that decrements the cell |
| AbfBuilder.NewAddressFresh | src/abf/abf_program_builder.rs:25-30 | the new address is above every address declared so far, and declarations stay strictly increasing |
| AbfBuilder.ReadNewFresh | src/abf/abf_program_builder.rs:32-37 | the read address is above every address declared so far, and declarations stay strictly increasing |
| AbfBuilder.WriteAddFresh | src/abf/abf_program_builder.rs:39-45 | writes and adds keep the declarations strictly increasing and below the counter |
| AbfBuilder.EndLoopFresh | src/abf/abf_program_builder.rs:47-66 | a child started at the parent's counter keeps the combined declarations strictly increasing |
| AbfBuilder.WhileLoopFresh | src/abf/abf_program_builder.rs:68-72 | a body that keeps addresses fresh keeps them fresh through the loop |
| AbfBuilder.ZeroFresh | src/abf/abf_program_builder.rs:75-79 | zeroing keeps the declarations strictly increasing |
| AbfState.SetValue | src/abf/abf_optimizer.rs:52-56 | the cell becomes used with the value, and every other cell is unchanged (also `set_value` at src/new_abf.rs:183-187) |
| AbfState.FreeCell | src/abf/abf_optimizer.rs:58-61 | the cell becomes unused and keeps its value, and every other cell is unchanged (also `free` at src/new_abf.rs:189-192) |
| AbfState.MarkRuntime | src/abf/abf_optimizer.rs:177-182 | used cells in the set become runtime, and every other cell is unchanged (also src/new_abf.rs:385-390) |
| AbfOptimizer.Mapped | src/abf/abf_optimizer.rs:84-86 | the mapped address when there is one, an error naming the address otherwise |
| AbfOptimizer.StepNewFree | src/abf/abf_optimizer.rs:91-101 | `New` records a compile-time value and `Free` changes nothing, and neither emits code |
| AbfOptimizer.StepRead | src/abf/abf_optimizer.rs:94-98 | `Read` emits a read into a fresh address, maps the cell to it and marks it runtime |
| AbfOptimizer.StepWrite | src/abf/abf_optimizer.rs:102-115 | writing a known value emits a fresh `New` of it and writes that; writing a runtime cell writes its mapped address; an unused cell is an error |
| AbfOptimizer.StepAdd | src/abf/abf_optimizer.rs:116-128 | an add to a known value is folded into it modulo 256 without emitting; an add to a runtime cell is emitted on its mapped address |
| AbfOptimizer.FoldAdds | src/abf/abf_optimizer.rs:116-128 | any run of adds to a known cell emits nothing and leaves the wrapped sum |
| AbfOptimizer.UnrollSpec | src/abf/abf_optimizer.rs:135-153 | unrolling stops at once on a runtime guard and succeeds at once on a zero guard; a success ends on a zero guard after fewer iterations than the limit |
| AbfOptimizer.UnrollAdopts | src/abf/abf_optimizer.rs:135-153 | conversely, a guard that first becomes a compile-time zero after fewer runs than the limit, with no earlier runtime guard or failure, makes unrolling succeed with the state after those runs |
| AbfOptimizer.MaterialiseSpec | src/abf/abf_optimizer.rs:154-167 | every used modified cell becomes runtime and mapped, and nothing else changes |
| AbfOptimizer.EmitLoopSpec | src/abf/abf_optimizer.rs:154-183 | an emitted loop ends the program, and afterwards every used modified cell is runtime |
| AbfOptimizer.WhileGuard | src/abf/abf_optimizer.rs:129-185 | a loop on an unused cell is an error, a loop on a known zero is skipped, and a finished loop leaves its guard a known zero |
| AbfOptimizer.OptGrows | src/abf/abf_optimizer.rs:88-188 | optimising only appends code, keeps used cells used and keeps emitted addresses fresh |
| AbfOptimizer.OptimizeAbfFresh | src/abf/abf_optimizer.rs:190-194 | the optimised program declares strictly increasing addresses |
| AbfOptimizer.StepKeepsIo | src/abf/abf_optimizer.rs:91-128 | every instruction other than a loop emits exactly its own reads and writes |
| AbfOptimizer.OptKeepsIo | src/abf/abf_optimizer.rs:88-188 | a loop-free program keeps its sequence of reads and writes through optimisation |
| AbfCompiler.BuildProgram | src/abf/abf_compiler.rs:55-63 | a program is returned exactly when no loop is left open |
| AbfCompiler.MoveTo | src/abf/abf_compiler.rs:69-73 | appends the relative move from the cursor to the target and puts the cursor there |
| AbfCompiler.Open | src/abf/abf_compiler.rs:91-98 | moves to the guard and starts an empty body, saving the enclosing code |
| AbfCompiler.Close | src/abf/abf_compiler.rs:91-98 | moves back to the guard and wraps the body as a loop in the enclosing code |
| AbfCompiler.WhileLoop | src/abf/abf_compiler.rs:91-98 | emits the move to the guard, then a loop whose body ends by returning to the guard |
| AbfCompiler.WhileLoopTracks | src/abf/abf_compiler.rs:91-98 | if the body keeps the cursor honest, so does the loop |
| AbfCompiler.SetValue | src/abf/abf_compiler.rs:158-163 | the tape cell becomes used with the value and the cursor moves there, and every other cell is unchanged |
| AbfCompiler.FreeAt | src/abf/abf_compiler.rs:165-168 | the tape cell becomes unused and keeps its value, and every other cell is unchanged |
| AbfCompiler.Lookup | src/abf/abf_compiler.rs:209-214 | a mapped address resolves to a tape cell, and an unmapped one is an error |
| AbfCompiler.FindAddress | src/abf/abf_compiler.rs:122-148 | returns the unused cell of least cost, lowest index first on ties, or the sentinel exactly when every cell is used |
| AbfCompiler.Scan | src/abf/abf_compiler.rs:122-148 | the search loop keeps the best candidate among the cells seen so far |
| AbfCompiler.NewSpec | src/abf/abf_compiler.rs:178-200 | a `New` fails only when the tape is full; otherwise it maps the address to an unused cell holding the value and moves there |
| AbfCompiler.NewCodeAsWritten | src/abf/abf_compiler.rs:187-198 | the code as written equals the corrected code exactly outside loops on a cell of known value, and otherwise lacks its final add of the value |
| AbfCompiler.NewEmits | src/abf/abf_compiler.rs:178-200 | a `New` emits the move to the chosen cell followed by the compiler's `New` code, as written or corrected |
| AbfCompiler.NewInLoopAsWritten | src/abf/abf_compiler.rs:178-200 | as written, a `New` inside a loop emits only the move and the zeroing loop, yet records the cell as holding the value |
| AbfCompiler.NewKnownCell | src/abf/abf_compiler.rs:184-192 | outside loops, a cell of known value is adjusted by the difference modulo 256 |
| AbfCompiler.FreeSpec | src/abf/abf_compiler.rs:209-212 | a `Free` emits nothing and releases exactly the mapped cell, failing if the address is unmapped |
| AbfCompiler.WhileSpec | src/abf/abf_compiler.rs:225-251 | a compiled loop leaves the cursor on its guard, which is a known zero, and the cells it modifies unknown |
| AbfCompiler.ExitForgets | src/abf/abf_compiler.rs:242-250 | leaving a loop marks its modified cells unknown and its guard a known zero |
| AbfCompiler.CompileTracks | src/abf/abf_compiler.rs:170-259 | with either `New` code, the recorded cursor always equals the net movement of the emitted code |
| AbfCompiler.CompileToBfTracks | src/abf/abf_compiler.rs:170-259 | with either `New` code, compilation closes every loop, and the emitted code's net movement equals the final cursor |
| AbfCompiler.CompileToBfCursor | src/abf/abf_compiler.rs:170-259 | with either `New` code, running the emitted Brainfuck moves the pointer by exactly the recorded cursor |
| AbfCompiler.RunShift | src/abf/abf_compiler.rs:69-98 | code whose loops return to their start moves the pointer by its net movement |
| AbfCompiler.ZeroLoopRuns | src/abf/abf_compiler.rs:75-77 | the zeroing loop clears the current cell and touches nothing else |
| AbsoluteBf.Push | src/absolute_bf.rs:110-122 | pushing adds at most one instruction and ends on the pushed instruction's position |
| AbsoluteBf.PushExec | src/absolute_bf.rs:110-122 | coalescing moves and adds never changes what the program does |
| AbsoluteBf.MergeMoves | src/absolute_bf.rs:112-114 | two moves in a row act like the second |
| AbsoluteBf.MergeAdds | src/absolute_bf.rs:115-119 | two adds to one cell act like one add of their wrapped sum |
| AbsoluteBf.AppendExec | src/absolute_bf.rs:124-128 | appending with coalescing acts like plain concatenation |
| AbsoluteBf.CompileTreeAsWritten | src/absolute_bf.rs:49-84 | outside loops, the lowering as written agrees with the corrected one exactly on a `MoveTo` or an instruction on the pointer's cell, and at any depth on settled code |
| AbsoluteBf.CompileAsWritten | src/absolute_bf.rs:49-84 | on settled programs the lowering as written is the corrected lowering |
| AbsoluteBf.ToBfAsWritten | src/absolute_bf.rs:149-156 | on settled programs `to_bf` as written gives the corrected code |
| AbsoluteBf.Compile | src/absolute_bf.rs:49-84 | the corrected lowering ends with the cursor where the program's last instruction leaves it |
| AbsoluteBf.CompileRuns | src/absolute_bf.rs:49-84 | the corrected Brainfuck runs exactly like the absolute program from any in-range pointer, and the code as written does on settled programs |
| AbsoluteBf.ToBfRuns | src/absolute_bf.rs:149-156 | from a fresh machine, the emitted Brainfuck runs exactly like the absolute program |
| AbsoluteBf.ExecEnds | src/absolute_bf.rs:71-82 | a finished run leaves the pointer at the last instruction's cell |
| AbsoluteBf.Visit | src/absolute_bf.rs:14-48 | a visit extends the path by the cell unless the path already ends there |
| AbsoluteBf.PathTree | src/absolute_bf.rs:14-48 | the path through an instruction ends at that instruction's cell |
| AbsoluteBf.CalcPath | src/absolute_bf.rs:129-135 | the path of a program ends where the program leaves the pointer |
| AbsoluteBf.CalcPathSteady | src/absolute_bf.rs:129-135 | the path starts at cell 0 and never repeats a cell twice in a row |
| AbsoluteBf.PathWhile | src/absolute_bf.rs:36-46 | a loop's path visits the guard, walks the body and returns to the guard |
| AbsoluteBf.PathScore | src/absolute_bf.rs:168-173 | the windowed sum computes the path's total distance from cell 0 |
| AbsoluteBf.ScoreIsMoveCost | src/absolute_bf.rs:168-173 | a program's path score equals the total distance moved by its corrected Brainfuck, and by the code as written on settled programs |
| AbsoluteBf.RemapTree | src/absolute_bf.rs:85-98 | a relabelled instruction sits at its cell's new label |
| AbsoluteBf.RemapIdentity | src/absolute_bf.rs:85-98 | relabelling by the identity changes nothing |
| AbsoluteBf.RemapPath | src/absolute_bf.rs:174-182 | each path entry is replaced by its label |
| AbsoluteBf.PathSeqRemap | src/absolute_bf.rs:85-98 | the path of a relabelled program is the relabelled path, for injective labels |
| AbsoluteBf.RemapFront | src/absolute_bf.rs:136-142 | relabelling a program starts with a move to the label of cell 0 |
| AbsoluteBf.RemappedPath | src/absolute_bf.rs:136-142 | the remapped program's path is the relabelled path, after cell 0 when that cell moved |
| AbsoluteBf.RemappedCost | src/absolute_bf.rs:143-147 | the corrected Brainfuck of the remapped program moves exactly the score of the relabelled path, and so does the code as written when the remapped program is settled |
| NewAbf.RelevantAddress | src/new_abf.rs:51-61 | every instruction except a constant write has an address, and it is the instruction's own |
| NewAbf.UsedFlatten | src/new_abf.rs:76-93 | an address is used if and only if some nested instruction's relevant address is it |
| NewAbf.ModifiedFlatten | src/new_abf.rs:62-75 | an address is modified if and only if some nested instruction modifies it |
| NewAbf.ModifiedSubsetUsed | src/new_abf.rs:62-93 | every modified address is used |
| NewAbf.UsedConcat | src/new_abf.rs:117-123 | the used set distributes over concatenation |
| NewAbf.LastUsesSpec | src/new_abf.rs:256-280 | the scan records exactly the declared addresses, each at its last using instruction |
| NewAbf.OptimizeFreesSpec | src/new_abf.rs:246-292 | each recorded free lands right after its last use, later frees first |
| NewAbf.OptimizeFreesOrder | src/new_abf.rs:283-291 | removing the frees from the result gives back the free-less program |
| NewAbf.StepNewRead | src/new_abf.rs:297-303 | `New` records the constant silently; `Read` marks the cell runtime and is emitted |
| NewAbf.StepFree | src/new_abf.rs:304-311 | `Free` releases a used cell and is emitted if and only if the cell is runtime |
| NewAbf.StepWrite | src/new_abf.rs:312-323 | writing a known cell emits a constant write, writing a runtime cell is emitted as is, and an unused cell is an error |
| NewAbf.StepAdd | src/new_abf.rs:327-338 | an add to a known cell folds modulo 256 silently; an add to a runtime cell is emitted |
| NewAbf.UnrollSpec | src/new_abf.rs:342-362 | unrolling stops on a runtime guard, succeeds on a zero guard, and a success is some bounded iteration of the body |
| NewAbf.UnrollAdopts | src/new_abf.rs:342-362 | conversely, a guard that first becomes a compile-time zero within the limit, with no earlier runtime guard or failure, makes unrolling commit to the state and output after those runs |
| NewAbf.MaterialiseOutput | src/new_abf.rs:368-378 | materialising emits one `New` per used known modified cell, in ascending order |
| NewAbf.MaterialiseState | src/new_abf.rs:368-378 | materialised cells become runtime, and no other cell changes |
| NewAbf.EmitLoopOutput | src/new_abf.rs:363-392 | an emitted loop outputs the materialising `New`s followed by the loop over the body's output |
| NewAbf.EmitLoopState | src/new_abf.rs:363-392 | after an emitted loop every used modified cell is runtime and the rest is as the body left it |
| NewAbf.WhileGuard | src/new_abf.rs:339-394 | a loop fails exactly when its guard is unused or its unrolling or emission fails, and a finished loop leaves a known zero guard |
| NewAbf.WhileSkipped | src/new_abf.rs:347-351 | a loop on a known zero emits nothing |
| NewAbf.OptWithin | src/new_abf.rs:294-397 | optimising only appends output, and what it appends uses only the program's addresses |
| NewAbf.OptimizeUsed | src/new_abf.rs:399-404 | the optimised program uses no address the input did not |
| Lowering.BorrowVariable | src/compiler.rs:28-35 | finds the innermost scope defining the name and borrows its value, or nothing if no scope defines it |
| Lowering.DefaultScopes | src/compiler.rs:19-25 | a single empty scope, in which no name resolves |
| Lowering.Register | src/compiler.rs:41-46 | the name resolves to a borrow of the value, every other name resolves as before, and outer scopes are untouched |
| Lowering.StartScope | src/compiler.rs:48-50 | opening a scope adds an empty innermost scope and changes no lookup |
| Lowering.EndScope | src/compiler.rs:52-54 | closing a scope drops the innermost one |
| Lowering.ScopeRoundTrip | src/compiler.rs:48-54 | opening, registering and closing a scope restores the scopes |
| Lowering.RegisterVariable | src/compiler.rs:130-138 | redefining a name in the current scope is an error; otherwise the name resolves to a non-owning borrow of the value |
| Lowering.BorrowImmutable | src/compiler.rs:157-163 | an undefined name is an error; otherwise the result is the non-owning borrow found |
| Lowering.BorrowMutable | src/compiler.rs:165-173 | succeeds exactly on a defined mutable variable, with the immutable borrow; an immutable variable gives its own error |
| Lowering.ReinterpretCast | src/compiler.rs:194-204 | succeeds exactly when the sizes agree, changing only the type |
| Lowering.Scoped | src/compiler.rs:221-229 | runs the body in a fresh scope, keeps its code and restores the caller's scopes |
| Lowering.LoopWhile | src/compiler.rs:231-244 | appends one loop on the guard whose body is built in a child builder |
| Lowering.Allocate | src/compiler.rs:123-128 | allocates fresh consecutive cells, declaring each as zero, failing only when the addresses run out |
| Lowering.Zero | src/compiler.rs:253-257 | zeroing appends one emptying loop per cell of the value and changes nothing else |
| Lowering.MoveAndAddValues | src/compiler.rs:259-279 | fails exactly when the asserts do, on a destination of another size or one sharing the cell it receives from; otherwise appends one transfer loop per source cell |
| Lowering.CopyAndAddValues | src/compiler.rs:281-298 | an owned source is moved; a borrowed one goes through a fresh temporary that is moved back afterwards; it fails exactly when an assert does or no address is left for the temporary |
| Lowering.Assign | src/compiler.rs:474-481 | values of different sizes fail the assert; assigning a value to its own cells emits nothing; otherwise the destination is zeroed and the value added in, failing exactly when the cells clash or the temporary finds no address |
| Lowering.SubAssignSame | src/compiler.rs:380-383 | `x -= x` appends only the emptying loops of `x` |
| Lowering.DivAssignSame | src/compiler.rs:400-404 | `x /= x` appends the emptying loops of `x` and one increment |
| Lowering.ModAssignSame | src/compiler.rs:428-431 | `x %= x` appends only the emptying loops of `x` |
| LoweringSemantics.TransferRun | src/compiler.rs:268-276 | a transfer loop adds the source to every destination and clears the source |
| LoweringSemantics.MoveRuns | src/compiler.rs:259-279 | moving adds each source cell into the matching destination cells and clears the source |
| LoweringSemantics.ZeroRuns | src/compiler.rs:253-257 | zeroing clears exactly the listed cells |
| LoweringSemantics.AssignMoves | src/compiler.rs:474-481 | assigning an owned value leaves its byte in the destination and clears the source |
| LoweringSemantics.AssignCopies | src/compiler.rs:474-481 | assigning a borrowed value copies its byte and leaves the source intact, with the temporary cleared |
| LoweringSemantics.AssignNeedsTemp | src/compiler.rs:281-298 | copying a borrowed value fails exactly when no address is left for the temporary |
| LoweringSemantics.SubModSameEmpties | src/compiler.rs:380-383 | `x -= x` (and `x %= x`, lines 428-431) leaves the cell zero |
| LoweringSemantics.DivSameGivesOne | src/compiler.rs:400-404 | `x /= x` leaves the cell one |
| Parsing.New | src/parser.rs:19-28 | a script is accepted if and only if it is ASCII, and the parser then starts at its first character |
| Parsing.Char | src/parser.rs:62-70 | consumes the next character, or reports the end without moving |
| Parsing.Optional | src/parser.rs:30-41 | a failed parse yields nothing and restores the position; a success is kept |
| Parsing.Repeat | src/parser.rs:43-49 | collects successive results until the parser fails, never moving backwards |
| Parsing.OneOrMore | src/parser.rs:51-60 | fails exactly when the first parse fails, and otherwise collects at least one result |
| Parsing.Filter | src/parser.rs:72-83 | succeeds exactly when the inner parse succeeds with a kept value |
| Parsing.Digit | src/parser.rs:85-88 | accepts exactly an ASCII digit and yields its value |
| Parsing.Literal | src/parser.rs:90-100 | matches exactly when the input continues with the ASCII literal, and then consumes it |
| Parsing.Whitespace | src/parser.rs:102-107 | consumes a maximal non-empty run of whitespace |
| Parsing.ParseNumber | src/parser.rs:109-120 | reads up to three digits and yields their decimal value |
| Parsing.ParseU8AsWritten | src/parser.rs:109-120 | the source's parse overflows exactly when the digits read exceed 255, and otherwise yields their value |
| Parsing.ParseU8 | src/parser.rs:109-120 | succeeds exactly on a number of at most 255 and yields its value |
| Parsing.AsWrittenAgrees | src/parser.rs:109-120 | wherever the source's parse does not overflow, it agrees with the corrected one |
| Values.IsOwned | src/value.rs:29-34 | a variable is owned exactly when it is not borrowed |
| Values.Address | src/value.rs:35-40 | the cell address of an owned or a borrowed variable |
| Values.BorrowOwned | src/value.rs:11-13 | borrowing an owned cell gives a borrow of the same address |
| Values.BorrowOf | src/value.rs:41-43 | a variable's borrow is a borrow of the same address |
| Values.BorrowIdempotent | src/value.rs:41-43 | borrowing a borrow gives it back |
| Values.ConstantOf | src/value.rs:59-61 | a constant value holds its byte and no cell |
| Values.BorrowedAt | src/value.rs:63-65 | a borrowed value refers to exactly its cell |
| Values.OwnedValue | src/value.rs:67-69 | an owned value refers to exactly its cell |
| Values.DropOwned | src/value.rs:16-20 | dropping an owned cell returns its address to the pool |
| Values.DropVariable | src/value.rs:16-20 | dropping returns the address to the pool once if owned, and changes nothing if borrowed |
| Values.DropWithBorrow | src/value.rs:16-43 | dropping a variable and its borrow returns the cell once |
| Values.AllocateThenDrop | src/value.rs:16-20 | allocating a cell and dropping its owner restores the pool |
| ConstantValues.ValueType | src/constant_value.rs:25-30 | a byte constant has type `u8` and a flag has type `bool` |
| ConstantValues.GetU8 | src/constant_value.rs:32-40 | yields the byte of a `u8` constant, and otherwise a type error naming both types |
| ConstantValues.GetBool | src/constant_value.rs:42-50 | yields the flag of a `bool` constant, and otherwise a type error naming both types |
| PoolAllocator.NewAllocator | src/allocator.rs:8-10 | the pool holds every cell, lowest address last |
| PoolAllocator.Allocate | src/allocator.rs:11-16 | takes the last address of the pool, and fails exactly on an empty pool |
| PoolAllocator.Deallocate | src/allocator.rs:18-21 | returns the address to the pool once and changes no other count |
| PoolAllocator.DeallocateAllocate | src/allocator.rs:11-21 | the next allocation after returning an address hands that address back |
| PoolAllocator.FreshAllocations | src/allocator.rs:8-16 | a fresh pool hands out addresses 0, 1, 2, … in order |
| FirstFit.Search | examples/allocator_design.rs:19-39 | finds the first run of free cells large enough, or reports that there is none |
| FirstFit.Allocate | examples/allocator_design.rs:14-39 | marks the first fitting run used and returns its start; with no fit the tape is unchanged |
| FirstFit.AllocateAsWritten | examples/allocator_design.rs:14-39 | the source overflows exactly on a request of size 0, and otherwise behaves as first fit |
| FirstFit.SetRange | examples/allocator_design.rs:32-34 | the range takes the flag, and every cell outside it is unchanged |
| FirstFit.Deallocate | examples/allocator_design.rs:41-46 | exactly the range becomes free |
| FirstFit.SetThenClear | examples/allocator_design.rs:32-46 | allocating a fitting range and then freeing it restores the tape |

## Left out

- Standard input and output are not modelled as streams. The interpreters take the input as a
  byte sequence and return the output bytes. Skipping carriage returns on input is modelled in
  `BfCore.Basic`.
- The fixed 30000-cell tapes and vectors are modelled as unbounded maps, and an out-of-range
  pointer or address is not an error in the model. `BfCore.Machine` has an `int` pointer and
  never fails when it leaves 0..29999, where `bf_core/src/lib.rs:201` and `217-231` panic.
  `AbfState.State` accepts addresses 30000..65535, which the 30000-entry vectors of
  `src/abf/abf_optimizer.rs:40` and `src/new_abf.rs:170` would reject with a panic. The back-end
  search of `AbfCompiler` does stay within its 30000 cells.
- `ABFProgramBuilder::merge_child` is not modelled because no modelled operation calls it. The
  `Display` and `ToTokens` printers of the ABF trees are also not modelled.
- `mutate_map` and `path_optimize` in `src/absolute_bf.rs` are left out. They search at random;
  the model keeps the cost theorems they rely on (`AbsoluteBf.RemappedCost`).
- The `todo!()` stubs are left out: the builder in `src/new_abf.rs` and the program parser.
- The `usize` and `i16` casts are left out, and so is the `u32` sum in `path_score`. Paths are
  short, so these cannot overflow in practice.
- `BFProgram::push_instruction` is called at `src/abf/abf_compiler.rs:66` and
  `src/absolute_bf.rs:53-81`, but the shipped `bf_core` does not define it: the `BFProgram` impl
  of `bf_core/src/lib.rs:93-180` has no such method. The model assumes it is a plain append
  (`Vec::push`), both in `AbfCompiler` and in `AbsoluteBf.CompileTreeAsWritten`. The exact-code
  contracts of `AbfCompiler.MoveTo`, `AbfCompiler.NewEmits`, `AbfCompiler.NewInLoopAsWritten`,
  `AbsoluteBf.CompileTreeAsWritten` and `AbsoluteBf.AsWrittenMisplacesCells` rest on that
  assumption. The only `push_instruction` the source defines is the coalescing one of
  `ABFProgram` at `src/absolute_bf.rs:110`, modelled separately as `AbsoluteBf.Push`.
- `src/compiler.rs` uses its own value record (cell addresses, mutability, ownership) and an array
  type that `src/value.rs` and `src/types.rs` lack. The model uses a record of its own with the
  fields `compiler.rs` reads. `Types.Size` is 1 for every scalar.
- The arithmetic, logic and comparison lowerings of `src/compiler.rs` are left out, apart from the
  same-variable shortcuts of `sub_assign`, `div_assign` and `mod_assign`. So are the `eval_*`
  functions, `new_variable`, `new_owned`, `value_from_const`, `write_value`, `if_then*`, `n_times`,
  `for_each` and `compile_instructions`. They drive the statement syntax tree, and the model stops
  at the builder operations they share.
- Lowering.LoopWhile: modelled only for bodies that emit code and neither fail nor define
  variables.
- LoweringSemantics.AssignMoves: proved for one-cell scalar values only, and `Read`/`Write` are
  not interpreted by the lowering semantics.
- LoweringSemantics.AssignCopies: proved for one-cell scalar values only, and `Read`/`Write` are
  not interpreted by the lowering semantics.
- AbsoluteBf.Compile: describes the corrected lowering. The lowering as written is
  `AbsoluteBf.CompileAsWritten`, which agrees with it only on settled programs.
- AbsoluteBf.CompileRuns: proved for every program only of the corrected lowering. The code as
  written misplaces cells on other programs (see Findings).
- AbsoluteBf.ScoreIsMoveCost: the score equals the move cost of the code as written only on
  settled programs. On other programs the code as written moves a different distance.
- AbsoluteBf.RemappedCost: the same restriction as `AbsoluteBf.ScoreIsMoveCost`, for the remapped
  program.
- Parsing.Repeat: requires the repeated parser to advance on success. The source loops forever
  on a parser that succeeds without consuming.
- Parsing.OneOrMore: requires the repeated parser to advance on success, for the same reason as
  `Parsing.Repeat`.
- Parsing.ParseU8AsWritten: models only the debug-build overflow panic of
  `src/parser.rs:109-120`, as `None`. In a release build `value * 10 + digit` wraps modulo 256
  (so `"256"` gives 0), and that wrap-around is not modelled.
- Parsing.Whitespace: recognises ASCII whitespace only. Rust's `char::is_whitespace` also accepts
  Unicode spaces, which `Parsing.New` rejects anyway.
- The pool allocator shares its pool through `Rc<RefCell<…>>`. The model threads the pool as a
  value instead.
- In `src/abf/abf_optimizer.rs`, lines 170-172 call `start_loop` and `end_loop` with a signature
  the builder does not have. The model follows the evident intent: the body is built in a child
  builder, and `end_loop` wraps it as a loop on the mapped guard (`AbfBuilder.EndLoop`).
- A Rust `assert!(cell.used)` panics where the model returns `UnusedCell`.

## Findings

| source | as written | input that shows it | evidently intended | confidence | as-written member | corrected member |
|---|---|---|---|---|---|---|
| src/abf/abf_compiler.rs:193-198 | inside a loop, or on a cell of runtime value, `New(a, v)` zeroes the cell but never adds `v`, although line 199 records the cell as holding `v` | `New(a, 5)` compiled inside a loop: the cell ends at 0 while the compiler believes it holds 5 | zero the cell, then add `v` | not executed | AbfCompiler.NewAsWrittenLosesValue | AbfCompiler.NewCodeSetsValue |
| src/absolute_bf.rs:56-70 | after the move to an `Add`, `Write` or `Read` cell, `pointer` is not updated, so the next relative move starts from the stale position | `[Add(1, 1), Add(2, 1)]` emits `>+>>+` and touches cells 1 and 3 instead of 1 and 2 | set `pointer` to the instruction's cell after moving there | not executed | AbsoluteBf.AsWrittenMisplacesCells | AbsoluteBf.ToBfRuns |
| src/parser.rs:109-120 | the `u8` accumulator `value * 10 + digit` overflows for three-digit numbers above 255 (a panic in debug builds) | `"256"` | reject numbers above 255 as a parse failure | not executed | Parsing.ParseU8Overflows | Parsing.ParseU8 |
| examples/allocator_design.rs:17 | `size - 1` on a `usize` underflows when `size` is 0 | `allocate(0)` | an empty request is answered by the empty block at cell 0 | not executed | FirstFit.AllocateAsWritten | FirstFit.Allocate |

Where each half is used:

- The ABF back end takes its `New` code as a setting, `AbfCompiler.NewKind`.
  `AbfCompiler.CompileToBf` emits the code as written. `AbfCompiler.CompileToBfWith(ZeroThenAdd, _)`
  emits the corrected code. The cursor theorems hold for both.
- The absolute-address lowering is modelled both ways. `AbsoluteBf.ToBfAsWritten` is the source's
  lowering, and `AbsoluteBf.ToBf` is the corrected one that the run and cost theorems are about.
  The two agree on settled programs.
