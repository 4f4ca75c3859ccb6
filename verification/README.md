# Verification of the KimiX-native build and generator scripts

A Dafny model of the algorithms inside the repository's Python tooling, with proofs about
whole runs, all inputs and all reachable states. `dafny verify dfyconfig.toml` checks
everything.

| files | what they model |
|---|---|
| `ClassTable`, `ClassTableBuild`, `ClassTableLaws` | the size-class table of the Lua arena: four interleaved ladders interned into one table, and the three-way classification |
| `ArenaModel`, `ArenaRuns`, `ArenaReplay`, `ArenaLaws`, `Arena` | the arena's accounting: acquire, release, trim, compaction plan, metrics, and the replay of a trace, refined to a multiset of live blocks |
| `BuildLock` | the lock-file protocol as interleaved steps of unboundedly many processes, with crashes |
| `CppLiterals`, `LiteralPrinters` | a reader for adjacent C++ string literals and the five printers whose output it must invert |
| `Lexer`, `LexerLoops`, `LexerLaws`, `Brackets`, `Lines` | the C++ tokenizer, bracket matching and line lookup |
| `Visibility` | the cached closure of using-directives |
| `StableSort`, `SymbolExport`, `Framing`, `FramingLaws` | the striped symbol export and the message framing of the clangd client |
| `RangeTables`, `Splice` | run-length tables of code-point predicates and the in-place rewrite of marker blocks |
| `MipLevels` | mip-map levels and level selection |
| `Arith`, `Sums`, `TextSearch`, `Options` | shared arithmetic, sums, first occurrences in a text and the optional value |

## How the model is built

Code that changes state is a class or a method with loops (`ClassTable`, `Arena`,
`FileFindings`, `Visible`, `Client`, the printers, the scanners, the run-length loops); its
contract ties the result or the new state to a function or predicate on values, and the
theorems are about those. The lock is a state machine because its point is interleaving.
The files named `Laws`, and the lemmas named `Exactly`, say what those functions mean without
their recursions: what a class table contains, what an operation does to the arena, which lists
are the tokens of a text, what an index of symbols holds.

Choices that matter:

- Integers are unbounded, as in Python. `>> 2`, `& 15`, `(n + 15) & ~15` are division and
  remainder by powers of two; the power-of-two test `v & (v - 1)` is modelled bit by bit.
- The arena's four parallel per-class lists are one list of four-field records.
- A trace line is blank, not JSON, or a record with natural-number sizes. A trace is well
  formed when it only frees or resizes live blocks; nothing else is assumed of it.
- In the lock model the clock is monotone, process ids are fresh, `os.kill(pid, 0)` answers
  truthfully, and a crash can happen at every step. `Stat` and `Remove` are the two halves of
  lines 63-65, `StatAndRemove` is both in one step. A file that vanishes before `getmtime`
  ends the waiter. The file's creator is recorded for the statements only; no step
  of a process depends on it except that a write goes to the file the process created.
- The printers take the UTF-8 bytes of their text.
- The lexer is given an arbitrary classification of the characters beyond ASCII; `lex` can only
  raise on them.
- The generated blocks and their markers are arbitrary, as long as each block is framed by its
  markers, holds its end marker only at its end, and no marker contains or is contained in the
  other block's markers or text (`CleanTarget`).
- The digits that `int` accepts are limited by a parameter, 4300 in current versions of Python.
- The per-file symbol export and the resolution of a directive's target are arbitrary
  functions; the theorem holds for all of them.

## Results that are not what the source says

Each has a counterexample and an exact condition; both are named.

- `ClassTable` serves every size up to its limit exactly when the limit is at most 0, at least
  512, a multiple of 16, or 13 (`CoversExactly`); other limits below 512 send a size to the
  13-byte class (`UncoveredWitness`), and limits from 1 to 12 name a class that does not exist
  (`TotalExactly`).
- `replay` drops a resize between two different huge sizes (line 322), so `huge_live` is exact
  throughout a replay exactly when the trace has no such record (`HugeExactThroughout`). After one
  the commit can be below the live bytes and the waste clamps (`GrownHugeBlock`,
  `DroppedMoveCost`).
- The header says every class disagreement is reported. One on a resize within a class is not
  (`UnreportedResize`), and those are the only ones (`ReplayReports`).
- The header promises that stale locks are reclaimed. A file whose owner died between creating it
  and writing its PID (`EmptyOrphanReached`) can go only if some process read an earlier PID, or
  decided to remove a file, before that (`OrphanRemovableExactly`, with no assumption on the run;
  `SplitReclaimFreesOrphan` is such a run). With prompt waiters and a one-step reclaim it never
  goes (`EmptyOrphanForever`), and an old file of a dead owner can go exactly when it holds a PID
  (`ReclaimableExactly`).
- The script promises one build at a time. That holds exactly when the clock is read within 30 s
  of the PID read and either the age test and the removal are one step or no owner dies holding
  the lock (`ExclusionExactly`); the failing runs are `SlowWaiterBreaksExclusion`, for every
  longer delay, and `SplitReclaimBreaksExclusion`.
- `_cstr` inverts exactly when no hex-escaped byte precedes a hex digit (`CStrExactly`,
  `CStrFailure`).
- `c_literal` promises literals under the compiler's limit of 16380 but never splits inside a run
  of hex escapes. With a longest run of R its single literals can have chunk + 1 + 4R printed
  characters and no more (`WithinLimitExactly`, text `Overfull`), so the promise holds by default
  exactly for R up to 3844 (`CompilerLimitExactly`).
- The line ends of a file are said to be preserved byte for byte. They are exactly when the file
  does not mix CRLF and LF (`PreservedExactly`, `MixedLineEnds`).

## Exact conditions that the shipped inputs meet

- `_unicode_ranges` has no surrogate guard; it agrees with the other two algorithms exactly for
  predicates that are false on surrogates (`AlgorithmsAgree`), as Python's are.
- The split whitespace table gives the predicate back exactly when no run straddles 0x7F/0x80
  (`SplitExactly`); 0x7F is not white space.
- A block rewrite is idempotent exactly when the new block holds its end marker only at its end
  (`SubIdempotentExactly`); the generated blocks do.
- `generate` is idempotent when the space block is not around the alnum block, and only then if
  no begin marker can start inside an end marker (`GenerateIdempotentExactly`). The shipped files
  keep the blocks apart, and markers of the shipped form are single lines that cannot overlap or
  contain each other (`MarkersDetached`, `MarkersApart`). Around it, the space block makes
  `generate` delete the alnum block and fail the next time, for every target (`NestedBlocks`).
- A written file reads back the same exactly when it uses CRLF or its text has no CRLF left
  (`WriteReadExactly`), and then `--check` accepts it (`CheckAfterWrite`).
- `lex` raises exactly when a token would start with a letter or digit beyond ASCII (`Lex`).

## Model

| member | source | states |
|---|---|---|
| Arith.IsPow2Exact | scripts/lua_mem_model.py:51-60 | the `v & (v - 1)` test accepts exactly the powers of two, and `log2` is then the exponent |
| ClassTableBuild.ClassTable.HighBit | scripts/lua_mem_model.py:55-60 | the halving loop computes the base-2 logarithm |
| ClassTableBuild.ClassTable.constructor | scripts/lua_mem_model.py:66-118 | for every limit the built table is well built (tiny ladder first, generic ladder complete, every shape in its map, slots distinct) and its ids and tiers are exactly the interned requests in order |
| ClassTableBuild.ClassTable.Add | scripts/lua_mem_model.py:78-85 | a request leaves the table unchanged unless it fits and is new, and the id it gets names its slot |
| ClassTableBuild.ClassTable.ExactId | scripts/lua_mem_model.py:120-139 | the three shape tests with the bit test, the halving loop and the maps find exactly what the definition by shape finds |
| ClassTableBuild.ClassTable.Classify | scripts/lua_mem_model.py:141-162 | the lookup with its binary search agrees with the linear definition on every size |
| ClassTables.LadderAscends | scripts/lua_mem_model.py:92-102 | the generic ladder is strictly ascending and ends at the limit |
| ClassTables.LadderGap | scripts/lua_mem_model.py:94-98 | consecutive rungs are at most a quarter plus 15 bytes apart |
| ClassTables.RungExactly | scripts/lua_mem_model.py:47-102 | in every built table a generic slot is the least multiple of 16 that is at least 5/4 of the slot before it (512 before the first), or the limit, exactly where that multiple reaches or passes it |
| ClassTables.PayloadExactly | scripts/lua_mem_model.py:167-171 | a segment holds as many slots as fit in its bytes, and at least one |
| ClassTableLaws.IdsOrdered | scripts/lua_mem_model.py:78-118 | class ids ascend by tier, and within a tier by slot |
| ClassTableLaws.TierExactly | scripts/lua_mem_model.py:87-118 | the tier of a class from its slot: tiny, then the generic ladder by size, then the array shapes, then the node shapes |
| ClassTables.ExactHit | scripts/lua_mem_model.py:120-139 | an exact-shape hit names a slot of exactly the requested size |
| ClassTables.ExactComplete | scripts/lua_mem_model.py:120-139 | every size of one of the three shapes within the limit is found |
| ClassTables.HugeExactly | scripts/lua_mem_model.py:141-162 | -1 is answered exactly for 0 and for sizes above the limit, whatever the limit |
| ClassTables.ClassOfFits | scripts/lua_mem_model.py:141-162 | for limits of at least 512 every other size gets a real class whose slot is large enough, wasting at most 15 bytes up to 512 and a quarter plus 15 above |
| ClassTables.ShapesWasteNothing | scripts/lua_mem_model.py:103-139 | a size of one of the three shapes gets a slot of exactly its size |
| ClassTables.ClassOfSlot | scripts/lua_mem_model.py:78-165 | slot sizes are pairwise distinct and classifying a slot size gives back its class, on all four ladders and for every limit |
| ClassTables.CoversExactly | scripts/lua_mem_model.py:87-162 | exactly which limits give a table that serves every size up to the limit |
| ClassTables.TotalExactly | scripts/lua_mem_model.py:87-162 | exactly which limits never name a class the table does not have |
| ClassTables.UncoveredWitness | scripts/lua_mem_model.py:151-152 | for every other limit some size is sent to a slot that is too small or missing |
| ArenaModel.AcquireClass | scripts/lua_mem_model.py:217-225 | taking a slot keeps the class bookkeeping and adds one used slot |
| ArenaModel.ReleaseClass | scripts/lua_mem_model.py:239-240 | giving a slot back keeps the class bookkeeping |
| ArenaModel.TrimClass | scripts/lua_mem_model.py:244-254 | a trim leaves exactly `ceil(max(used, hw / 2) / nslots)` segments; the guard on free slots never stops it early |
| ArenaModel.TrimDecay | scripts/lua_mem_model.py:242-257 | k trims without traffic give the mark `max(used, hw0 / 2^k)` |
| ArenaModel.TrimReachesMinimum | scripts/lua_mem_model.py:242-257 | once `2^k` exceeds the mark the segments are the least that hold the used slots |
| ArenaModel.PlanOptimal | scripts/lua_mem_model.py:265-279 | the plan keeps `ceil(used / nslots)` segments but at least one if there is one, the live slots still fit, and no larger plan that keeps a target does |
| ArenaRuns.EveryRunCountsLive | scripts/lua_mem_model.py:203-257 | in every state reached by allocations, matched releases and trims, each class counts its live blocks, `used + free = segments * nslots`, and `segments = ceil(high_water / nslots)` |
| ArenaRuns.EveryRunPlanOptimal | scripts/lua_mem_model.py:265-279 | the plan is feasible and maximal in every reachable state, in terms of the live blocks |
| ArenaRuns.EveryRunTrimsToMinimum | scripts/lua_mem_model.py:242-257 | from every reachable state, trims whose power of two exceeds a class's mark leave it the least number of segments that hold its live blocks |
| ArenaRuns.EveryRunReachesMinimum | scripts/lua_mem_model.py:203-257 | after a run of L operations, any number of trims whose power of two exceeds L (or that is at least L) leaves every class at once with the least number of segments |
| ArenaRuns.EveryRunCacheBounded | scripts/lua_mem_model.py:203-257 | in every reachable state each size is cached at most `max(0, huge_cache)` times and only sizes of the huge tier are cached |
| ArenaLaws.ReleaseCaches | scripts/lua_mem_model.py:232-238 | releasing a huge size cached below the limit caches one more block of that size and no other, and at the limit leaves the cache alone; with its effect on the commit |
| ArenaLaws.AcquireReuses | scripts/lua_mem_model.py:208-216 | acquiring a cached huge size takes one cached block and commits nothing, acquiring an uncached one commits its bytes |
| ArenaLaws.AcquireSlotted | scripts/lua_mem_model.py:217-225 | a slotted acquisition is a reuse if a slot is free, else a new segment committed |
| ArenaLaws.ReleaseSlotted | scripts/lua_mem_model.py:239-240 | a slotted release gives no memory back |
| ArenaLaws.TrimCaches | scripts/lua_mem_model.py:242-263 | a trim empties the huge cache from level 1 on and leaves it alone below; the commit drops by the freed bytes and the cached ones |
| ArenaLaws.EveryRunCaches | scripts/lua_mem_model.py:203-257 | in every reachable state the number of cached blocks of each size and the number of huge reuses are those that the history of operations gives |
| ArenaLaws.EveryRunCountsAllocs | scripts/lua_mem_model.py:217-225 | reuses plus new segments are the slotted acquisitions of the run |
| ArenaLaws.PlanIsCommitDrop | scripts/lua_mem_model.py:265-279 | the reported plan is what the commit would drop by if it were carried out |
| ArenaRuns.FreedIsCommitDrop | scripts/lua_mem_model.py:242-263 | what a trim returns is exactly the drop in bytes committed to segments |
| ArenaRuns.CommitCoversLive | scripts/lua_mem_model.py:260-284 | with exact bookkeeping the commit covers the live bytes and the waste is footprint minus size, never clamped |
| ArenaReplay.ReplayRefinesLive | scripts/lua_mem_model.py:287-326 | for every well-formed trace each class counts exactly its live blocks and `logical` is their total size |
| ArenaReplay.ReplayRefinesHuge | scripts/lua_mem_model.py:287-326 | without a resize between different huge sizes, `huge_live` is exactly the huge live blocks and the occupied bytes are the live footprint |
| ArenaReplay.StepHuge | scripts/lua_mem_model.py:313-325 | one record keeps `huge_live` exact if and only if it is not such a resize |
| ArenaReplay.HugeExactThroughout | scripts/lua_mem_model.py:287-326 | `huge_live` is exact at every moment if and only if the trace has no such resize |
| ArenaReplay.ReplayCommits | scripts/lua_mem_model.py:260-326 | without such a resize the commit covers the live bytes and the waste never clamps |
| ArenaReplay.DroppedMoveCost | scripts/lua_mem_model.py:322-325 | what a dropped resize does to both metrics, and exactly when the waste then clamps |
| ArenaReplay.GrownHugeBlock | scripts/lua_mem_model.py:322-325 | growing a lone huge block always leaves the commit below the live bytes |
| ArenaReplay.StepReports | scripts/lua_mem_model.py:204-231 | a class disagreement is recorded once, unless the record resizes within one class |
| ArenaReplay.ReplayReports | scripts/lua_mem_model.py:287-326 | no disagreement is recorded exactly when all of them are on such resizes |
| ArenaLaws.StepNotes | scripts/lua_mem_model.py:204-231 | the one note a record adds names its size, the engine's class and the table's |
| ArenaReplay.RecordsExactly | scripts/lua_mem_model.py:289-298 | blank lines are skipped, records kept in order, and everything from the first line that is not JSON is ignored |
| ArenaLaws.ReplayIsRun | scripts/lua_mem_model.py:287-326 | a replay is the run of the operations of its trace |
| ArenaLaws.ReplayPredicts | scripts/lua_mem_model.py:287-326 | so its cache, its reuses and its new segments are those of that history |
| ArenaLaws.ReplayCountsCalls | scripts/lua_mem_model.py:304 | every record is one call |
| ArenaReplay.UnreportedResize | scripts/lua_mem_model.py:322-325 | for any two sizes of one class and any wrong class, a well-formed trace with an unreported disagreement |
| ArenaReplay.ReplayCacheBounded | scripts/lua_mem_model.py:208-238 | the same after every trace, well formed or not |
| ArenaReplay.SegmentsConserved | scripts/lua_mem_model.py:217-240 | after a replay the predicted segments are exactly the segments held by the classes |
| ArenaObjects.Arena.constructor | scripts/lua_mem_model.py:185-200 | a new arena is empty and valid |
| ArenaObjects.Arena.Acquire | scripts/lua_mem_model.py:203-225 | the in-place update is the accounting function, including the reuse of the first equal cached huge block |
| ArenaObjects.Arena.TakeHuge | scripts/lua_mem_model.py:208-216 | the scan reuses the first cached block of exactly the size, and only that one |
| ArenaObjects.Arena.Release | scripts/lua_mem_model.py:227-240 | the in-place update is the accounting function |
| ArenaObjects.Arena.GiveHuge | scripts/lua_mem_model.py:232-238 | one live entry is dropped and the block cached unless enough of its size are |
| ArenaObjects.Arena.TrimClassAt | scripts/lua_mem_model.py:244-254 | one class is trimmed and the bytes returned are the payload of the segments given back |
| ArenaObjects.Arena.Trim | scripts/lua_mem_model.py:242-257 | every class is trimmed, the huge cache is emptied from level 1 on, and the result is the sum over the classes |
| ArenaObjects.Arena.Commit | scripts/lua_mem_model.py:260-263 | the committed bytes of segments, live huge and cached huge blocks |
| ArenaObjects.Arena.CompactionPlan | scripts/lua_mem_model.py:265-279 | the sum of the per-class plans |
| ArenaObjects.Arena.InternalWaste | scripts/lua_mem_model.py:281-284 | the clamped difference of occupied and live bytes |
| ArenaObjects.Arena.Decide | scripts/lua_mem_model.py:305-325 | which of take, give, move, keep or skip a record asks for |
| ArenaObjects.Arena.Apply | scripts/lua_mem_model.py:299-325 | one record has exactly the effect of the replay step |
| ArenaObjects.Replay | scripts/lua_mem_model.py:287-326 | the arena after a trace is the fold over the records before the first line that is not JSON |
| BuildLock.StepKeeps | scripts/build_locked.py:39-83 | every step of every process keeps the invariant: holders own the file, and a file older than a waiter's read still holds the PID it read |
| BuildLock.TimeoutExactly | scripts/build_locked.py:41-73 | over all runs: a waiter ends by a step of its own no earlier than its start plus its timeout; before that it tries again, and from then on it ends without the lock |
| BuildLock.RetriesExactly | scripts/build_locked.py:42-73 | a process tries again only before its deadline or right after it removed a file |
| BuildLock.EndsExactly | scripts/build_locked.py:39-83 | the ways to end without a crash: a release, a timeout, or a file that vanished before its age was read |
| BuildLock.FileHistory | scripts/build_locked.py:45-49 | over all runs the file holds no PID until its creator writes it, and its time is that of the creation or the write |
| BuildLock.ReleaseFrees | scripts/build_locked.py:76-83 | an undisturbed release removes the file |
| BuildLock.AgedFileIsOrphan | scripts/build_locked.py:63-65 | an age test that passes condemns only the file of a dead process |
| BuildLock.MutualExclusion | scripts/build_locked.py:39-112 | at most one process holds the lock in every interleaving with any crashes, given a clock read within 30 s of the PID read and a one-step reclaim |
| BuildLock.MutualExclusionWithoutOrphans | scripts/build_locked.py:39-112 | the same without the one-step assumption when no owner dies holding the lock |
| BuildLock.RemovalsAreSafe | scripts/build_locked.py:63-83 | the file is only ever removed by its creator or after its creator ended, and a release removes only the releaser's file |
| BuildLock.ExclusionExactly | scripts/build_locked.py:39-112 | for every delay d allowed between the PID read and the clock read: all such runs are exclusive if and only if d is at most 30 s and the reclaim is one step or no owner dies holding the lock |
| BuildLock.OwnedThroughout | scripts/build_locked.py:39-83 | over any run at all, every holder owns the file throughout if and only if no waiter removes the file of a process that still holds |
| BuildLock.ExclusiveUnlessRobbed | scripts/build_locked.py:39-83 | under the same condition, and only then, the lock is exclusive at every moment and after every further attempt |
| BuildLock.OrphanRemovableExactly | scripts/build_locked.py:39-83 | over all runs, with no assumption: a file of a dead owner can still disappear if and only if it holds a PID or some process is at `Removing`, `Reclaiming`, `Timing` or `Judging`, or at `Aging` with the file old enough |
| BuildLock.SplitReclaimFreesOrphan | scripts/build_locked.py:63-65 | a run with no delay whose split reclaim removes a file without a PID |
| BuildLock.EmptyOrphanForever | scripts/build_locked.py:45-63 | given a clock read within 30 s of the PID read and a one-step reclaim, a file without a PID whose owner died stays for the rest of the run and nobody acquires the lock again |
| BuildLock.EmptyOrphanReached | scripts/build_locked.py:45-49 | a run without any delay that ends with such a file |
| BuildLock.EveryPollReclaims | scripts/build_locked.py:50-66 | once a written file of a dead owner is older than the grace period, one round of any waiter's loop gets rid of it, whatever all other processes do in between |
| BuildLock.ReclaimableExactly | scripts/build_locked.py:45-66 | under the same two assumptions an old file of a dead owner can still disappear if and only if its owner lived to write its PID |
| BuildLock.DeadOwnerReclaimed | scripts/build_locked.py:50-66 | a waiter that is not disturbed during that round gets the lock |
| BuildLock.SlowWaiterBreaksExclusion | scripts/build_locked.py:52-65 | for every delay above 30 s a run within that delay, with a one-step reclaim and no crash, in which two processes hold the lock |
| BuildLock.SplitReclaimBreaksExclusion | scripts/build_locked.py:63-65 | a run with no delay at all in which a reclaim split in two steps makes two processes hold the lock |
| CppLiterals.PrintsThen | scripts/gen_python_goldens.py:92-100 | printed fragments concatenate unless a greedy escape would swallow the next one's start |
| CppLiterals.PrintsOctal | scripts/gen_bash_fix_data.py:114-115 | a three-digit octal escape is read back whatever follows it |
| CppLiterals.PrintsHex | scripts/gen_python_goldens.py:90-91 | a hex escape is read back when no hex digit follows it |
| LiteralPrinters.CLit | scripts/gen_python_goldens.py:70-102 | the C++ reader gives the printed bytes back, for all bytes, and the text is the tokens one after the other, split only where a digit follows a hex escape |
| LiteralPrinters.CString | scripts/gen_bash_fix_data.py:94-118 | the C++ reader gives the printed bytes back, piece k is the k-th group of `chunk` bytes, there are as many as needed and at least one, and each has at most 4 * chunk + 2 characters |
| LiteralPrinters.CLiteral | scripts/gen_todo_goldens.py:1194-1235 | the C++ reader gives the printed bytes back; no piece and no single literal is longer than the chunk and the longest hex run allow, and that run is inside one piece |
| LiteralPrinters.WithinLimitExactly | scripts/gen_todo_goldens.py:1194-1235 | for every chunk (at least 1) and R: all texts with a longest hex run of R have every single literal within a limit if and only if chunk + 1 + 4R is; smaller chunks count as 1 |
| LiteralPrinters.OverfullLiteral | scripts/gen_todo_goldens.py:1209-1235 | for every chunk and R an ASCII text with a single literal of exactly that length |
| LiteralPrinters.CompilerLimitExactly | scripts/gen_todo_goldens.py:1194-1202 | with the default chunk every single literal keeps the promised limit if and only if R is at most 3844, whether or not its quotes count |
| LiteralPrinters.EscTokenPrints | scripts/gen_read_goldens.py:179-192 | every byte's token is read back as that byte and has at most four characters |
| LiteralPrinters.TokenShapes | scripts/gen_bash_fix_data.py:106-115 | which bytes are written verbatim, which with a named escape, and the form of the octal and hexadecimal escapes |
| LiteralPrinters.Lit | scripts/gen_read_goldens.py:195-214 | the C++ reader gives the printed bytes back, the bodies glued together are the tokens of the data, none has more than 900 characters and all but the last more than 896 |
| LiteralPrinters.CStr | scripts/gen_job_output_goldens.py:424-446 | the text is `nullptr` or the quoted tokens |
| LiteralPrinters.CStrExactly | scripts/gen_job_output_goldens.py:424-446 | the text round-trips if and only if no hex-escaped byte is followed by a hex digit |
| LiteralPrinters.CStrFailure | scripts/gen_job_output_goldens.py:443-444 | a NUL byte before the digit `a` does not round-trip |
| LexerLoops.ScanString | scripts/detect_unity_build.py:138-146 | the scan that skips escaped characters ends just past the first quote with an even run of backslashes before it |
| LexerLoops.ScanRaw | scripts/detect_unity_build.py:128-137 | a raw literal ends at the first closing delimiter, or right after the quote when no delimiter opens |
| LexerLoops.ScanChar | scripts/detect_unity_build.py:149-162 | the scan stops at the first unescaped quote or newline |
| LexerLoops.PreprocLine | scripts/detect_unity_build.py:185-201 | a preprocessor line ends at the first newline with an even run of backslashes before it |
| LexerLoops.NextToken | scripts/detect_unity_build.py:183-255 | the branch taken and the end found are those of the reference token; it raises exactly on a letter or digit beyond ASCII |
| LexerLoops.Lex | scripts/detect_unity_build.py:165-256 | for every text the loop computes the reference tokens, which cover it, or raises, exactly when one of them would start with a letter or digit beyond ASCII |
| LexerLaws.LawExactly | scripts/detect_unity_build.py:128-255 | kind and end of every token, said on the text alone, for comments, words, prefixed, raw, string and character literals, numbers, directives and `::`; with the place of a `#` the law determines the token |
| LexerLaws.LexExactly | scripts/detect_unity_build.py:165-256 | a token list is the tokens of a text if and only if it covers the text with lawful tokens and has directives exactly at the `#`s that are first on their line |
| Lexer.TokensCover | scripts/detect_unity_build.py:165-256 | tokens are non-empty, in bounds, ordered and disjoint, with only blanks outside, whatever is unterminated |
| Lexer.HashIsPreproc | scripts/detect_unity_build.py:178-204 | a `#` starts a preprocessor line exactly when only blanks with a newline, or the start of the text, precede it |
| Brackets.MatchBrackets | scripts/detect_unity_build.py:308-324 | for every token list two brackets are matched exactly when the depth counted from the opener first returns to zero at the closer and the kinds agree |
| Brackets.PairCharacters | scripts/detect_unity_build.py:308-324 | a matched pair is two punctuation tokens with the characters of one of the three kinds |
| Brackets.DeltaExactly | scripts/detect_unity_build.py:308-324 | which tokens count as brackets |
| Brackets.MatchInvolution | scripts/detect_unity_build.py:308-324 | the match map is an involution pairing an opener with a later closer of its kind |
| Brackets.PairsNest | scripts/detect_unity_build.py:308-324 | any two pairs are nested or disjoint |
| Brackets.ClosesUnique | scripts/detect_unity_build.py:308-324 | an opener and a closer each belong to at most one pair |
| Lines.FileFindings.constructor | scripts/detect_unity_build.py:269-271 | the line starts are 0 and every position after a newline |
| Lines.FileFindings.LineOf | scripts/detect_unity_build.py:279-287 | the line is one plus the number of newlines before the position |
| Visibility.Visible.constructor | scripts/detect_unity_build.py:865-869 | the index groups the directives by scope, in order, and the cache is empty |
| Visibility.Visible.Query | scripts/detect_unity_build.py:871-886 | the answer is exactly the namespaces reachable through directives of the given directories, and the cache only ever holds exact answers |
| Visibility.ClosureUnique | scripts/detect_unity_build.py:872-874 | two exact answers are the same set, so a cached answer is a fresh one |
| Visibility.DirOfExactly | scripts/detect_unity_build.py:791-792 | the directory is what comes before the last slash |
| StableSort.StableSortUnique | scripts/clangd_symbols.py:403-406 | a stable sort is determined by the items of each key in order |
| StableSort.SortIsStable | scripts/clangd_symbols.py:403-406 | the sort used is ordered and stable |
| StableSort.StrLeExactly | scripts/clangd_symbols.py:403-406 | the order on strings: a prefix first, else the first difference |
| SymbolExport.StripesPartition | scripts/clangd_symbols.py:377-378 | striping puts every file in exactly one chunk |
| SymbolExport.IndexOrderFree | scripts/clangd_symbols.py:391-407 | the merged, resolved and sorted index does not depend on the order of the files |
| SymbolExport.ExportChunk | scripts/clangd_symbols.py:332-363 | a worker's partial result is its files' results one after the other |
| SymbolExport.ExportSymbols | scripts/clangd_symbols.py:366-407 | for every number of jobs the index is the one a single worker gives, and it is the index of the paths: distinct listed files ascending, all their namespaces, and their symbols and directives ascending by key and otherwise in file order, each directive resolved in its scope |
| SymbolExport.IndexCounts | scripts/clangd_symbols.py:391-407 | in such an index no symbol and no directive of a listed file is lost, and none is invented |
| Framing.FrameReads | scripts/clangd_symbols.py:115-134 | a framed message is read back exactly, with the rest of the stream untouched, if and only if its body is not empty and its length has no more digits than `int` takes; other header lines are allowed |
| Framing.StreamReads | scripts/clangd_symbols.py:115-134 | a stream of such messages is read back in order with nothing left over |
| FramingLaws.SplitExactly | scripts/clangd_symbols.py:128 | the header lines glued with line ends are the header, and none contains a line end |
| FramingLaws.LastLengthCounts | scripts/clangd_symbols.py:127-130 | a malformed length line raises wherever it is, otherwise the last length line counts |
| FramingLaws.NameAnyCase | scripts/clangd_symbols.py:129 | a length line starts with the name in any mix of cases |
| FramingLaws.ParseExactly | scripts/clangd_symbols.py:130 | the number read is the place value of a numeral with an optional sign, and anything else raises |
| FramingLaws.CutShort | scripts/clangd_symbols.py:121-134 | a stream that ends inside a body gives what there is |
| Framing.Client.Read | scripts/clangd_symbols.py:121-134 | the byte-by-byte reader computes the reference reading and leaves the reference rest |
| RangeTables.RangesOf | scripts/gen_line_hash_tables.py:170-185 | the result is the list of maximal runs of the guarded predicate |
| RangeTables.AlnumRanges | scripts/gen_read_goldens.py:1546-1561 | the same, for the loop of the read tool's table |
| RangeTables.UnicodeRanges | scripts/gen_bash_fix_data.py:1179-1192 | the result is the list of maximal runs of the unguarded predicate |
| RangeTables.RunsUnique | scripts/gen_line_hash_tables.py:170-185 | a predicate has only one sorted list of maximal runs |
| RangeTables.AlgorithmsAgree | scripts/gen_line_hash_tables.py:151-185 | the three algorithms agree exactly for predicates that are false on surrogates |
| RangeTables.GuardedExactly | scripts/gen_line_hash_tables.py:151-168 | the guard excludes exactly the surrogates |
| RangeTables.RunsWellFormed | scripts/gen_line_hash_tables.py:188-197 | the well-formedness check never fires on such a list |
| RangeTables.MaskOf | scripts/gen_line_hash_tables.py:383-390 | it raises exactly on a reversed range, otherwise applies the slice assignments in order, and marks exactly the code points in some range when the ranges are code points |
| RangeTables.MaskIsPredicate | scripts/gen_line_hash_tables.py:383-400 | the mask of a run list is the predicate |
| RangeTables.AsciiBits | scripts/gen_line_hash_tables.py:200-206 | bit cp of the 128-bit map is the predicate at cp |
| RangeTables.SplitExactly | scripts/gen_line_hash_tables.py:242-271 | bitmap plus ranges that start above ASCII give the predicate back if and only if no run straddles 0x7F/0x80 |
| Splice.SubIdempotentExactly | scripts/gen_line_hash_tables.py:292-298 | rewriting a block is idempotent if and only if the new block holds its end marker only at its end |
| Splice.SoleExactly | scripts/gen_line_hash_tables.py:292-298 | the search finds one match exactly when a first begin marker and the first end marker behind it have no further pair behind them |
| Splice.GenerateRewrites | scripts/gen_line_hash_tables.py:301-308 | on every text with one match for each block, the two apart, both blocks are put in place and the text before, between and after them is unchanged, whatever stray markers there are |
| Splice.GenerateIdempotent | scripts/gen_line_hash_tables.py:301-308 | whenever it succeeds and the text's space block is not around its alnum block, generating twice is generating once |
| Splice.GenerateIdempotentExactly | scripts/gen_line_hash_tables.py:301-308 | for markers that cannot overlap it is idempotent if and only if the space block is not around the alnum block: the first space begin marker before the alnum match, no space end marker between, one behind |
| Splice.NestedBlocks | scripts/gen_line_hash_tables.py:301-308 | for every target with one-line markers a nested text on which it succeeds once and then fails |
| Splice.MarkersDetached | scripts/gen_line_hash_tables.py:94-105 | markers of the form in use are single lines and no begin marker can start inside an end marker |
| Splice.MarkersApart | scripts/gen_line_hash_tables.py:94-105 | markers of the form in use with different tags do not contain each other |
| Splice.UpToDateFixed | scripts/gen_line_hash_tables.py:324-344 | the check accepts every text whose one match for each block is the generated one |
| Splice.CheckAfterWrite | scripts/gen_line_hash_tables.py:279-344 | the check accepts a file right after it was written, when the written text reads back |
| Splice.WriteReadExactly | scripts/gen_line_hash_tables.py:279-289 | with the line end chosen by counting in the old file, a written text reads back the same if and only if that is CRLF or the text has no CRLF |
| Splice.ConventionKept | scripts/gen_line_hash_tables.py:279-289 | the line end chosen for the written file is that of the old one |
| Splice.PreservedExactly | scripts/gen_line_hash_tables.py:274-289 | a text written back unchanged reproduces the file if and only if the file does not mix line ends |
| Splice.MixedLineEnds | scripts/gen_line_hash_tables.py:279-289 | a file with both line ends that is not reproduced |
| MipLevels.Levels | scripts/gen_read_image_goldens.py:264-274 | level k is both edges divided by `2^k`, and there are `max(1, floor(log2(min(w, h))))` levels |
| MipLevels.Select | scripts/gen_read_image_goldens.py:323-332 | the first level whose longest edge is within the limit, else the last |

## Left out

- The reports, argument parsing and MB formatting of scripts/lua_mem_model.py: printing only.
- Negative sizes in a trace: the engine writes none.
- Whether and when a waiter is scheduled: a deadline is a step of the model, and what one round of the loop achieves is stated, but no fairness.
- Process-id reuse, `os.kill` on Windows and children that outlive the owner: outside the protocol.
- UTF-8 encoding, which happens before the printers, and its error on lone surrogates.
- Which characters beyond ASCII are letters or digits: arbitrary in the lexer model.
- The brace, declaration and severity heuristics of scripts/detect_unity_build.py: they have no exact specification.
- `resolve_target` and `walk_tree` of scripts/clangd_symbols.py: arbitrary functions in the model; the namespace set stands for its sorted list.
- JSON parsing of a message body.
- The text of the generated blocks: the splice theorems hold for any blocks with the stated markers.
- The golden corpora and lookup tables, publish.py, bootstrap.py, the agent scripts, the debugger and the syntax checkers: data or process plumbing.
