# fhk5 optimizer core, modelled in Dafny

This project models three parts of the fhk5 compiler's back half:

- **The fold pass** (`src/opt_fold.rs`). It rewrites one function's
  instruction list into a new list. On the way it folds constant integer
  arithmetic and applies the identities `x+0`, `x*1`, `x/1` and `x*0`. It puts
  the operands of commutative ADD and MUL in canonical order and removes MOVs.
  It shares equal CSE-able instructions through a table. It copies only the
  instructions reachable from the entry through a worklist of control
  targets, which removes dead code.
- **The optimizer driver** (`src/optimize.rs`). This covers the
  optimization-flag parser, the IR size measure `irsize`, one round of passes
  (`optimize`) and the stage loop. The stage loop reruns rounds until the size
  stops changing or 100 rounds have run.
- **Per-language emit state** (`src/lang.rs`). This covers the language
  name and discriminant conversions, and `LangState`. `LangState` keeps one
  slot per present language, packed in ascending order. A language's slot is
  the number of present languages below it.

Files:

- `wrappers.dfy` holds `Option` and `Result`.
- `bytes.dfy` holds the byte type.
- `ir.dfy` holds the instruction, function and IR records.
- `opt_fold.dfy` is module `OptFold`: the i64 arithmetic, the interner, the
  rewrite rules and the pass-state invariant with its lemmas.
- `fold_pass.dfy` is module `FoldPass`: the pass state `Fold` and its methods.
- `optimize.dfy` is module `Optimize`.
- `lang.dfy` is module `Lang`.

Modelling choices:

- **Pure and imperative parts.** The rewrite rules (`fold`, `foldintarith`,
  `kintvalue`, `newkint`) are functions. `newkint` returns the interner it
  grew. The pass state `Fold` (module `FoldPass`) is a class whose fields are the memo table
  `oldNew`, the worklist `next`, the CSE table `cseMap` and the output
  `code`. `visit`, `fixup` and `run` are methods on it with loop invariants.
  Besides the shape of that state, the invariant says the memo table is
  faithful: every visited old id stands for the refold of its instruction
  with the operands mapped to their new ids (`MemoOk`). It also says every
  emitted instruction is the new id of a visited old id. Beside the
  invariant, the methods keep every visited and queued id reachable from the
  entry (`AllReachable`). Together these state dead-code elimination.
- **The interner.** The compiler's constant interner sits beside the pass
  state as the field `intern`. It is a store of distinct i64 values; a
  KINT64 refers to a value by its position in the store.
- **Integer behaviour.** i64 arithmetic wraps in two's complement, as
  release builds do. DIV truncates toward zero. UDIV divides the operands
  read as u64. A KINT's 32-bit payload is read back as a signed i32.
- **Termination of `visit`.** `visit` recurses into operands. Its
  termination rests on a ghost ranking: every operand ranks strictly below
  its user. This says that data dependencies are acyclic, which the
  front end guarantees.
- **Driver passes.** The other passes of a round (the inliner, and the
  SWITCH, LOOP, PHI and GOTO passes) are function parameters. So is the
  FOLD slot of the driver. The driver returns a log of the calls it made.
- **Language hooks.** `begin_emit` and `finish_emit` are function
  parameters. `New` and `Finish` return logs of the languages they called.
- **The language table.** The list of languages is generated by a macro
  that is not part of this model, so it is a parameter: a table of at most
  64 distinct names. Language `l` is the discriminant `l`.

## Model

| member | source | states |
|---|---|---|
| OptFold.WrapI64 | src/opt_fold.rs:107-109 | the i64 result of a wrapping operation: in range, equal to the exact value modulo 2^64, and the exact value itself when that fits |
| OptFold.AsU64 | src/opt_fold.rs:111 | `x as u64`: below 2^64, same low 64 bits, unchanged for non-negative values, zero only for zero |
| OptFold.AsI32 | src/opt_fold.rs:59 | reading a 32-bit payload as i32: an i32 with the same low 32 bits |
| OptFold.TruncDiv | src/opt_fold.rs:110 | Rust's `/`: the quotient rounded toward zero, so the remainder is smaller than the divisor in magnitude and has the dividend's sign |
| OptFold.TruncDivInRange | src/opt_fold.rs:110 | a truncated quotient of i64 values, other than i64::MIN / -1, is again an i64 |
| OptFold.UnsignedRoundTrip | src/opt_fold.rs:111 | a u64 quotient cast back to i64 and read again as u64 is unchanged |
| OptFold.FoldIntArith | src/opt_fold.rs:104-114 | ADD, SUB and MUL give the exact result wrapped to i64; DIV gives the quotient truncated toward zero; UDIV gives the quotient of the operands read as u64; the result is always an i64 |
| OptFold.DivI64 | src/opt_fold.rs:110 | signed division of i64 values is an i64 truncated quotient |
| OptFold.UDivI64 | src/opt_fold.rs:111 | unsigned division: the result read as u64 is the u64 quotient |
| OptFold.UnsignedQuotient | src/opt_fold.rs:111 | a u64 quotient, cast to i64 and read again as u64, is that quotient |
| OptFold.Interner.Intern | src/opt_fold.rs:92 | interning keeps the store valid and only grows it; the reference returned holds the value; a value already present is found, not added again |
| OptFold.InternIdempotent | src/opt_fold.rs:92 | interning the same value twice gives the same reference and the same store |
| OptFold.InternInjective | src/opt_fold.rs:92 | distinct values get distinct references |
| OptFold.KintValue | src/opt_fold.rs:56-63 | the value of an integer constant is an i64, and it fits in i32 when the constant is a KINT |
| OptFold.NewKint | src/opt_fold.rs:88-94 | the new constant is a KINT exactly when the value fits in i32 and a KINT64 otherwise; it has the requested type and no operands; `kintvalue` of it is the value |
| OptFold.FitsI32Exactly | src/opt_fold.rs:89 | `(value as i32) as i64 == value` holds exactly for the values in the i32 range |
| OptFold.FoldIns | src/opt_fold.rs:128-184 | a `Done` instruction is well formed, has its operands emitted, is never a MOV and keeps the control targets; `Again` keeps the opcode and permutes the operands; `New` names one of the operands; the interner only grows |
| OptFold.FoldConstArith | src/opt_fold.rs:137-151 | an integer ADD/SUB/MUL/DIV/UDIV of two integer constants becomes one constant of the same type whose value is `foldintarith` of the operand values |
| OptFold.FoldArith | src/opt_fold.rs:137-151 | the constant rule: for integer arithmetic with a defined result, an integer constant of the same type holding `foldintarith` of the operand values, in a grown interner; otherwise the instruction unchanged with the interner unchanged |
| OptFold.FoldCanonical | src/opt_fold.rs:153-159 | an emitted ADD or MUL has a constant on the left only when both operands are constants, and two non-constant operands in ascending id order |
| OptFold.SwapOk | src/opt_fold.rs:156-158 | swapping the two operands keeps them the same multiset and keeps the instruction foldable |
| OptFold.SwapOnce | src/opt_fold.rs:194-196 | refolding after a swap never asks for another swap, so the `Again` loop ends |
| OptFold.Refolded | src/opt_fold.rs:194-197 | what the refolding loop settles on is never `Again`; a `New` id names an emitted instruction; a `Done` instruction is emittable; the interner only grows |
| OptFold.Refold | src/opt_fold.rs:194-197 | the loop returns exactly `Refolded`: the fold of the instruction, or of its swapped form after an `Again` |
| OptFold.InternStable | src/opt_fold.rs:92 | interning into a store that already holds what an earlier interning added returns the same reference and adds nothing |
| OptFold.FoldStable | src/opt_fold.rs:128-184 | folding against a larger interner that holds what the fold interned gives the same status and interns nothing more |
| OptFold.RefoldStable | src/opt_fold.rs:194-197 | the same for the refolding loop |
| OptFold.FoldPrefix | src/opt_fold.rs:128-184 | folding reads only the instruction's operands, so emitting more code does not change its result |
| OptFold.RefoldPrefix | src/opt_fold.rs:194-197 | the same for the refolding loop |
| OptFold.FoldIdentities | src/opt_fold.rs:161-175 | for a non-constant `x`, `x+0`, `x*1`, `x/1` and `x udiv 1` resolve to `x` with nothing emitted and `x*0` becomes the constant 0 of the instruction's type (a constant `x` is folded by the constant rule first); a MOV resolves to its operand |
| OptFold.ArithIdentities | src/opt_fold.rs:161-168 | the identities agree with `foldintarith` for every i64 `x` |
| OptFold.FoldSound | src/opt_fold.rs:136-175 | folding preserves the integer value of an instruction, whichever status it returns |
| OptFold.FoldSoundConst | src/opt_fold.rs:137-151 | the folded constant has the value of the arithmetic on its constant operands |
| OptFold.FoldSoundIdentity | src/opt_fold.rs:161-182 | an identity's result, or the unchanged instruction, has the value of the original |
| OptFold.GrowInternOk | src/opt_fold.rs:194-198 | growing the interner during a fold keeps the pass state valid |
| OptFold.ResolveOk | src/opt_fold.rs:196-213 | recording an existing new id for an old id keeps the pass state valid |
| OptFold.AppendOk | src/opt_fold.rs:215-224 | appending a folded instruction, and entering it in the CSE table when it is CSE-able, keeps the pass state valid |
| OptFold.AppendShape | src/opt_fold.rs:217-224 | appending a well-formed instruction whose operands are earlier keeps every instruction well formed, MOV-free and reading only earlier ones |
| OptFold.AppendCse | src/opt_fold.rs:211-221 | appending an instruction not already in the CSE table, and entering it when it is CSE-able, keeps the table and the code in agreement |
| OptFold.ValuesGrow | src/opt_fold.rs:229 | recording a new old id adds exactly its new id to the new ids in the memo table |
| OptFold.OperandsFoldable | src/opt_fold.rs:190-195 | an instruction of the function whose operands all have new ids meets what `fold` needs once its operands are mapped to them |
| OptFold.MapInputsExtend | src/opt_fold.rs:190-193 | mapping operands through a memo table that gained an entry for a non-operand gives the same instruction |
| OptFold.MappedStep | src/opt_fold.rs:191-193 | rewriting operand `j` to its new id, while earlier entries are kept, extends the rewritten prefix by one |
| OptFold.MappedAll | src/opt_fold.rs:190-193 | with every operand rewritten, the instruction is the original with each operand mapped to its new id |
| OptFold.StartOk | src/opt_fold.rs:251-256 | the state `run` starts from, with nothing visited and only the entry queued, is valid and its memo table faithful |
| OptFold.MemoGrowIntern | src/opt_fold.rs:194-198 | interning more constants keeps the memo table faithful |
| OptFold.FoldedToGrowCode | src/opt_fold.rs:217-224 | emitting more code keeps what an old instruction refolds to |
| OptFold.MemoGrowCode | src/opt_fold.rs:217-224 | emitting more code keeps the memo table faithful |
| OptFold.LandedKept | src/opt_fold.rs:229 | a memo entry stays faithful when the table gains an entry for another id |
| OptFold.LandedNew | src/opt_fold.rs:229 | a new memo entry whose new id stands for the refold of its old instruction is faithful |
| OptFold.MemoAdd | src/opt_fold.rs:229 | recording a new id that stands for the refold of the old instruction keeps the memo table faithful |
| OptFold.PopOk | src/opt_fold.rs:257 | taking the front of the worklist keeps the pass state valid, and the id taken is an id of the function |
| OptFold.QueueOk | src/opt_fold.rs:205-207 | queuing control targets of the function keeps the pass state valid |
| OptFold.ExtendsTrans | src/opt_fold.rs:187-193 | memo entries kept across two steps are kept across both, and the ranks of the ids added stay under the bound |
| OptFold.QueuedTrans | src/opt_fold.rs:205-207 | when each of two steps queues the targets of the control instructions it emitted, so do both together |
| OptFold.RetargetDistinct | src/opt_fold.rs:233-239 | retargeting control targets leaves no two equal instructions of which one is CSE-able |
| OptFold.QueuedAfterVisit | src/opt_fold.rs:256-259 | after popping the head of the worklist and visiting it, every control target of the new code is still visited or queued |
| OptFold.ReachEntry | src/opt_fold.rs:256 | the entry, which `run` queues first, is reachable |
| OptFold.ReachEdge | src/opt_fold.rs:190-193 | an operand or control target of a reachable instruction is reachable |
| OptFold.ReachPop | src/opt_fold.rs:257 | popping the worklist yields a reachable id and keeps the rest reachable |
| OptFold.ReachRecord | src/opt_fold.rs:205-207 | recording a reachable id and queuing some of its control targets keeps every visited and queued id reachable |
| OptFold.RecordReach | src/opt_fold.rs:196-229 | the end of `visit` (resolve, CSE reuse or append, with control targets queued) keeps visited and queued ids reachable and queues exactly the control targets of what it emitted |
| OptFold.OperandSelf | src/opt_fold.rs:229 | an id depends on itself |
| OptFold.OperandPrepend | src/opt_fold.rs:191-193 | what an operand depends on, its user depends on |
| OptFold.AddedStep | src/opt_fold.rs:191-193 | visiting one more operand adds only ids the instruction depends on |
| OptFold.AddedSelf | src/opt_fold.rs:229 | recording the visited id itself keeps the added ids within what it depends on |
| OptFold.MemoClosed | src/opt_fold.rs:190-193 | the memo table is closed under operands: along any operand path from a visited id, the last id is visited |
| OptFold.OperandsVisited | src/opt_fold.rs:190-193 | everything a visited id depends on has a new id, so a visit adds exactly the not yet visited ids the instruction depends on |
| OptFold.TargetsConcat | src/opt_fold.rs:205-207 | the control targets queued for two runs of emitted code are those of the first followed by those of the second |
| OptFold.TargetsTrans | src/opt_fold.rs:190-193 | the worklist effects of two steps compose |
| OptFold.TargetsOne | src/opt_fold.rs:205-207 | emitting one instruction queues its control targets exactly when it is a control instruction |
| FoldPass.Fold.constructor | src/opt_fold.rs:243-245 | a new pass state is empty |
| FoldPass.Fold.Visit | src/opt_fold.rs:186-190 | after a visit the old id has a new id, and that id stands for the refold of the old instruction with its operands mapped to their new ids: the id it resolved to, or an emitted instruction equal to the fold; ids recorded earlier keep their new ids, and every id added to the memo table is the visited id or one it depends on through operands; the worklist gains exactly the control targets of the newly emitted control instructions, in emission order; the code and interner only grow; a reachable id keeps every visited and queued id reachable from the entry; a second visit changes nothing; the pass state stays valid |
| FoldPass.Fold.VisitFresh | src/opt_fold.rs:190-230 | the first visit of an id has the effect `Visit` states: the new id stands for the refold of the mapped instruction, the memo table gains only the id and what it depends on, and the worklist gains exactly the control targets of the newly emitted instructions |
| FoldPass.Fold.VisitOperands | src/opt_fold.rs:190-193 | operand `q` becomes the new id of the old operand `q`, recorded in the memo table, before folding; the rest of the instruction is unchanged; every id added to the memo table is one the instruction depends on, and the visited id itself is not yet recorded; the worklist gains exactly the control targets of the newly emitted control instructions; visited and queued ids stay reachable |
| FoldPass.Fold.FoldAndRecord | src/opt_fold.rs:194-230 | the result is `Refolded` of the mapped instruction against the code and interner before the call; the interner becomes the one it returns; a `New` id is recorded as it is and changes nothing else; a `Done` instruction is at the recorded id, with its control targets queued when it is a control instruction, so the worklist gains exactly the targets of what was emitted; the memo table gains exactly the entry for the visited id; visited and queued ids stay reachable |
| FoldPass.Fold.Record | src/opt_fold.rs:197-229 | a `New` id is recorded as it is, with the code, worklist and CSE table unchanged; a `Done` instruction queues its control targets when it is a control instruction; a CSE-able instruction already in the CSE table is recorded at that id with the code unchanged; any other instruction is appended at the old length and, when CSE-able, entered in the CSE table |
| FoldPass.Fold.Resolve | src/opt_fold.rs:229 | the old id is recorded at an emitted id that stands for its fold, and nothing else changes |
| FoldPass.Fold.Emit | src/opt_fold.rs:204-226 | the worklist gains exactly the control targets of a control instruction; a CSE-able instruction already in the CSE table is recorded at that id with the code and CSE table unchanged; otherwise the instruction is appended at the old length and, when CSE-able, entered in the CSE table; the recorded id holds the instruction |
| FoldPass.Fold.Queue | src/opt_fold.rs:205-207 | the targets are pushed onto the back of the worklist in order |
| FoldPass.Fold.Append | src/opt_fold.rs:217-224 | the instruction is pushed at the end of the code, its id is the old length, and a CSE-able one is entered in the CSE table at that id |
| FoldPass.Fold.Pop | src/opt_fold.rs:257 | the front of the worklist is removed and returned |
| FoldPass.Fold.Fixup | src/opt_fold.rs:233-239 | every control target in the new code is replaced by its new id, and nothing else changes |
| FoldPass.Fold.Drain | src/opt_fold.rs:256-258 | the worklist ends empty, with the entry and every control target of the new code visited, and only ids reachable from the entry visited |
| FoldPass.Fold.DrainStep | src/opt_fold.rs:257-259 | one pop and visit: the popped id is visited, memo entries are kept, the rest of the worklist stays queued, visited and queued ids stay reachable, and either a new id is visited or the worklist shrinks |
| FoldPass.Fold.VisitNext | src/opt_fold.rs:257-258 | the front of the worklist is popped and visited; visited and queued ids stay reachable; if it was visited before, only the pop happened |
| FoldPass.Fold.Run | src/opt_fold.rs:247-265 | the new entry is the entry's new id; every visited old id stands for its refold in the new code before `fixup` (`folded`), and the new code is `folded` with every control target replaced by its new id; dead code is removed: every visited old id is reachable from the entry through operands and control targets, and every new instruction is the new id of a visited old id; the new code is no longer than the old, holds no MOV, its operands point backward, and no CSE-able instruction occurs twice; the pass keeps the old code |
| FoldPass.Fold.Finish | src/opt_fold.rs:260-264 | after the worklist is drained, `fixup` retargets the controls of the folded code and the new function takes that code and the entry's new id; every new instruction is the new id of a visited old id; the pass keeps the old code |
| Optimize.AllFlagsComplete | src/optimize.rs:29-37 | the complement is taken within the six flags |
| Optimize.FlagsOf | src/optimize.rs:43-51 | a byte adds flags exactly when it is one of the seven flag letters |
| Optimize.ParseOptFlags | src/optimize.rs:39-58 | the parse is the union of every byte's flags, complemented after a leading `-` |
| Optimize.CollectMembers | src/optimize.rs:42-53 | a flag is collected exactly when some byte adds it |
| Optimize.ParsedMembers | src/optimize.rs:39-58 | a flag is in the result exactly when some byte adds it, flipped after a leading `-` |
| Optimize.ParsedDependsOnLetters | src/optimize.rs:42-56 | order, repetition and non-letter bytes do not matter: strings with the same flag letters and the same leading-`-` answer parse alike |
| Optimize.AddedByLetters | src/optimize.rs:42-53 | a flag some byte adds is added by a byte of any string with the same flag letters |
| Optimize.ParsedExamples | src/optimize.rs:42-56 | each letter alone gives its own flag, `a` gives all, `-` alone gives all, `-a` gives none, the empty string gives none |
| Optimize.CollectSingle | src/optimize.rs:42-53 | a one-byte string collects that byte's flags |
| Optimize.IrSize | src/optimize.rs:102-105 | the size is at least 37 per function |
| Optimize.IrSizeConcat | src/optimize.rs:102-105 | the size is additive over lists of functions |
| Optimize.IrSizeUpdate | src/optimize.rs:102-105 | replacing one function changes the size by exactly the change in its instruction count |
| Optimize.GuardedMembers | src/optimize.rs:83-97 | one guarded pass call adds that call when its flag is set, and nothing else |
| Optimize.GuardedAppend | src/optimize.rs:83-97 | guarding after a logged prefix is the same as guarding the suffix |
| Optimize.GuardedBelow | src/optimize.rs:83-97 | adding the next pass keeps a function's turn in slot order |
| Optimize.TurnUpToMembers | src/optimize.rs:83-97 | the first `k` guarded passes of a turn call exactly the enabled per-function passes with slots below `k`, on that function |
| Optimize.TurnUpToOrdered | src/optimize.rs:83-97 | the first `k` guarded passes of a turn run in strictly increasing slot order |
| Optimize.FuncTurnShape | src/optimize.rs:83-97 | one function's turn runs exactly its enabled per-function passes, on that function |
| Optimize.TurnsMembers | src/optimize.rs:82-98 | the turns run every enabled per-function pass on every function, and nothing else |
| Optimize.TurnsOrdered | src/optimize.rs:82-98 | calls come in strict order by function id and then by slot, so no call repeats |
| Optimize.ConcatOrdered | src/optimize.rs:82-98 | the turn of the next function keeps the calls in order |
| Optimize.ScheduleShape | src/optimize.rs:77-99 | the inliner runs exactly when INLINE is set, and then first and only once, before all per-function passes |
| Optimize.TurnsStep | src/optimize.rs:82-98 | one more loop iteration adds one more function's turn to the log |
| Optimize.OptimizeRound | src/optimize.rs:77-99 | the calls made are the round's schedule over the functions present after inlining, and the IR is the result of making them in that order |
| Optimize.RunTurn | src/optimize.rs:83-97 | one loop iteration makes one function's turn of calls |
| Optimize.TurnStep | src/optimize.rs:83-97 | each `if` of a turn adds the next pass of the order FOLD, SWITCH, LOOP, PHI, GOTO, guarded by its flag |
| Optimize.Step | src/optimize.rs:83-97 | one pass call is logged and applied |
| Optimize.RunStage | src/optimize.rs:116-137 | between 1 and 100 rounds run; the result is that many rounds applied; every round before the last changed the size; stopping before 100 means the last round left the size unchanged |
| Lang.FromName | src/lang.rs:37-49 | the result is the first language whose name equals the bytes, and `None` exactly when no language has that name |
| Lang.MatchFrom | src/lang.rs:42-48 | the match arms from one language on find the first later language with that name |
| Lang.Name | src/lang.rs:51-58 | the name of a language is in the table, and in a table of distinct names `from_name(name(l))` is `l` |
| Lang.FromU8 | src/lang.rs:97-101 | a raw value is accepted exactly when it is below the number of languages, and it is then that language |
| Lang.FromU8Discriminant | src/lang.rs:97-101 | every language's discriminant fits in a byte and converts back to that language |
| Lang.Ascending | src/lang.rs:146-147 | the ascending list below `n` has as many entries as there are present bits below `n` |
| Lang.Low | src/lang.rs:177 | the members below `n` are exactly those present and below `n` |
| Lang.Rank | src/lang.rs:177 | the number of present languages below `l` (the source's popcount of the mask below bit `l`) is at most `l`; `RankCounts` shows it is exactly that count |
| Lang.RankCounts | src/lang.rs:177 | the popcount below a bit counts the present languages below it |
| Lang.Members | src/lang.rs:141-147 | iterating the set yields as many languages as it has |
| Lang.AscendingMembers | src/lang.rs:146-147 | set iteration yields exactly the present languages |
| Lang.AscendingSorted | src/lang.rs:146-147 | set iteration is strictly ascending |
| Lang.AscendingRank | src/lang.rs:146-152 | each present language is yielded at the position equal to its rank |
| Lang.RankIsSlot | src/lang.rs:175-179 | a present language's slot index is below the number of slots and is its allocation position |
| Lang.SlotsDistinct | src/lang.rs:175-179 | distinct present languages never share a slot |
| Lang.AndAllFirstError | src/lang.rs:165-172 | folding results with `Result::and` gives `Ok` exactly when all are `Ok`, and otherwise the first error |
| Lang.Finished | src/lang.rs:166-170 | one `finish_emit` result per slot |
| Lang.LangState.Empty | src/lang.rs:129-136 | the default state has no languages and no slots |
| Lang.LangState.Packed | src/lang.rs:153-156 | the state holds the given language set and slot buffer |
| Lang.LangState.New | src/lang.rs:140-157 | an empty set gives the empty state and calls no `begin_emit`; otherwise `begin_emit` runs in ascending order and slot k holds the k-th language's state; the first failing `begin_emit` ends it with that error |
| Lang.LangState.GetMut | src/lang.rs:175-179 | for a present language the index is its rank, in bounds, and the slot holds that language |
| Lang.LangState.Finish | src/lang.rs:159-173 | `finish_emit` runs on every present language once, in ascending order, even after an error; the result is the results folded with `Result::and` |

## Left out

- OptFold.FoldIns: floating-point folding is not modelled. This covers `kfpvalue`, `newkfp`, `foldfparith`, POW and F32/F64 arithmetic. A constant-constant instruction that is not integer arithmetic on KINT/KINT64 operands is left unfolded.
- OptFold.FoldIns: an integer DIV by zero, `i64::MIN / -1` and a UDIV by zero panic in Rust; the model leaves those instructions unfolded. Integer arithmetic on a KFP64 operand (float-to-int conversion) is also left unfolded.
- OptFold.FoldIntArith: models release-build wrapping for ADD, SUB and MUL; the overflow panic of debug builds is not modelled.
- The interner's byte layout, `fxhash` and the hash table are not modelled. The interner is a store of distinct values, and the CSE table is a map from instruction to id.
- The bit encoding of instructions (`decode_VV`, `bc`, `inputs_mut`, `controls`) is not modelled. An instruction is a record.
- The opcode classes (`is_const`, `is_cse`, `is_control`) are defined in a file that is not part of this model. Arithmetic and constants are CSE-able. Other opcodes carry a tag saying whether they are CSE-able, control or neither.
- Instruction and function ids are unbounded naturals, not the source's fixed-width indices.
- The other optimizer passes (`Inline`, `OptSwitch`, `OptLoop`, `OptPhi`, `OptGoto`) are not modelled. Their code is not part of this model, so they are opaque IR-to-IR parameters. The driver's FOLD slot is such a parameter too; `FoldPass.Fold.Run` models it separately.
- Tracing and `dump_ir` in `Stage::run` are not modelled; they are debug output only.
- The `freeze_ir` / `freeze_graph` typestate plumbing and the compile context are not modelled.
- In `src/lang.rs`, the unsafe mechanics are not modelled: raw pointers, the `AnyLang` union, `ManuallyDrop`, `Box::leak` / `from_raw` and `transmute`. The slot buffer is an array of tagged slots. A failing `LangState::new` leaks the states already begun; the model does not track that.
- The `dispatch!` forwarding of `parse`, `lower` and `emit` is not modelled, nor are the per-language accessors the macro generates. These reach per-language modules that are not part of this model.
- The commented-out `LangMap` block in `src/lang.rs` is dead code and is not modelled.
- The language set is a set of discriminants below 64, not a 64-bit mask. The popcount of the masked bits is the number of present languages below the given one.
- Lang.FromU8: the source's failing assertion is modelled as `None`.
