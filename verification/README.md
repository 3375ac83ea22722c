# VOLPAROSSA verification

A Dafny model of the parts of VOLPAROSSA whose correctness is hardest to see by reading them, with proofs of what they
promise. `dafny verify dfyconfig.toml` checks everything.

## What is modelled

**Constrained task graphs** (`workers/volparossa-ml/task_graph_decoder.py`). A character automaton lets a model write one
JSON task graph and nothing else.
`QuestionScanner` holds the question scanner with its escapes, surrogate pairs and UTF-8 byte budget; `GraphRules` the
automaton (`Advance`), its fast form (`Allows`) and its runs.
`Lookahead` proves the local lookahead exact. `JsonSpelling` and `GraphLanguage` prove that the accepted strings are
exactly the spellings of the graphs under contract and that the graph read is the graph written. `GraphLiveness` and
`GraphRuns` prove that every reachable state has a way to the end, that every run is finite, and where the byte bound
makes liveness fail. `TokenTrie` is the pruned walk over the tokenizer trie, `SourceQuotes` the bisected table of
quotable strings, `Attempt` the protocol of one constrained generation, and `GraphGeneration` joins walk, rules and
protocol.

**Retained context** (`workers/volparossa-ml/llama_cpu.py`, `native_session.py`). `RetainedCache` models the native handle
as a token sequence and the model as any deterministic function of it, and proves that reuse, growth and batch sizes
never show in a reply.

**Receive budget** (`crates/volparossa-agent/src/downlink_sharing.rs`). `WaterFilling` proves the allocation loop equal to
a reference level, `FairShares` what that level means, `OwnerPriority` the safety of the controller over whole runs and
between two runs.

**UDP turns** (`crates/volparossa-agent/src/client_udp_turns.rs`). `UdpTurns` proves conservation, alternation and the
four-turn bound under any readiness.

**Conversations** (`workers/volparossa-ml/conversation.py`, `qwen_conversation.py`). `Conversation` proves that one-pass
validation is the pairing of calls with results; `NativeTools` and `ToolProposals` prove the alias round trip and that a
decoded output continues the conversation, `DeepCalls` that some calls do not come back; `JsonValues` holds JSON values
and the depth check, `JsonText` their strings, `JsonSizes` the length of their encoding, and `JsonReader` the strict
reader, which inverts it.

**Supporting cores.** `TensorConversion` and `TensorNames` (bit-exact conversion check and the renaming behind it),
`NoticeClosure` (dependency closure by worklist), `SequenceStore` (durable sequence numbers over crashes). `Unicode` holds
code points, UTF-8 widths and `str.strip`, `Numerals` bounds and decimals, `Tables` named values.

## How the model reads the source

- Text is a sequence of code points as Python holds them, lone surrogates included; `IsSpace` is Python's own set.
- The fields of the question scanner (`text`, `text_bytes`, `escape`, `high_surrogate`) are grouped in one record. The
  automaton copies its state on each step in the source, so it is a value here.
- A raised error is `None`, `Rejected` or `false`; which error code is raised is not modelled.
- What lies outside is a parameter or free choice: the inner syntax parser (any deterministic automaton), the tokenizer
  (a trie of strings), the enforcer's mask, the independent validator, what a floating-point number prints as, native faults,
  cancellation, socket readiness and the machine stopping. Native faults and cancellations are answers of an oracle that
  `RetainedCache` is given (`RetainedCache.World`).
- Time is a natural number of nanoseconds and the clock never runs backwards; the duration of a native decode is any
  non-negative real. Saturating 64-bit sums and the 64-bit range of the sequence are written out.
- The members of a conversation, a tool or an item are written in one fixed order, which the encoded size does not depend
  on (`JsonSizes.OrderIsIdle`); a namespace may be left out, null or given. JSON numbers are kept as the text they print
  as, so a value that Python can hold has distinct keys and numbers written as they print (`JsonReader.IsProper`).
- A disk is a list of files, each synced or not, and the entries the sequence path has had since its directory was last
  synced. A machine stop leaves any one of those entries and any content in a file that was not synced.

## Findings

- The automaton can finish from every reachable state if and only if the question bound is at least two bytes. With one
  byte it gets stuck for every goal, not only for the goal `?`: there is a single one-byte question, so a second task can
  never be completed once begun (`GraphRuns.OneByteGetsStuck`, `GraphRuns.NeverStuckFromTwoBytes`).
- Counting fewer legs as controlled can raise the budget, in exactly one case: a counter the wider run watches goes
  backwards in the last interval, which closes that run only (`OwnerPriority.NarrowerNeverGetsMore`,
  `OwnerPriority.RegressionBreaksComparison`). Earlier regressions never matter.
- Four turns is the exact bound for a family that stays readable (`UdpTurns.ThreeTurnsCanMiss`).
- The tensor renaming alone is not injective: leading zeros in a layer number are lost, up to the 4300 digits Python reads
  by default, and nothing else is (`TensorNames.CollisionIsExact`, `TensorNames.OnlyZerosAreLost`, `TensorNames.LeadingZerosCollide`). The pass over the
  tensor set is a bijection all the same.
- An accepted history may hold a call nested deeper than sixteen containers. Written again as it was shown, such a call is
  decoded to itself and then refused under the output constraint, for its depth alone (`DeepCalls.DeepCallIsRefused`; the
  exact condition for any call is in `ToolProposals.ShownCallReadsBack`).
- Both syncs of the sequence file are needed: without the file sync, or before the directory sync, a machine stop can make
  a number come back (`SequenceStore.UnsyncedFileRepeats`, `SequenceStore.UnsyncedDirectoryRepeats`).

## Model

| member | source | states |
|---|---|---|
| `Lookahead.EndingsAreMarkAndSpaces` | workers/volparossa-ml/task_graph_decoder.py:365-390 | the fixed list of endings is the question mark and every character `strip` removes, no more and no less |
| `Lookahead.ScalarRangeExact` | workers/volparossa-ml/task_graph_decoder.py:343-390 | a range of code points is reported finishable if and only if some scalar in it fits the budget and leaves a text that can finish; the width bands lose nothing |
| `Lookahead.UnicodePrefixExact` | workers/volparossa-ml/task_graph_decoder.py:392-407 | a hexadecimal prefix is admitted if and only if one of its completions, or of a surrogate pair through it, reaches a scalar that fits |
| `Unicode.StripIsUnique` | workers/volparossa-ml/task_graph_decoder.py:338-341 | what stripping leaves is the only part of a text with spaces around it and none at its ends |
| `JsonSpelling.ShortEscapesAreEight` | workers/volparossa-ml/task_graph_decoder.py:409-451 | the one-letter escapes are the eight of the JSON standard, each with its scalar |
| `JsonSpelling.DigitsAreHex` | workers/volparossa-ml/task_graph_decoder.py:392-407 | the value of a hexadecimal digit of either case |
| `JsonSpelling.FourDigits` | workers/volparossa-ml/task_graph_decoder.py:392-407 | four hexadecimal digits are the number they spell |
| `JsonSpelling.SpellingForward` | workers/volparossa-ml/task_graph_decoder.py:354-363 | reading any legal spelling of a text, escapes and surrogate pairs included, does exactly what appending the text does |
| `JsonSpelling.SpellingBackward` | workers/volparossa-ml/task_graph_decoder.py:409-451 | whatever is read between two states without an open escape is a legal spelling of what was appended |
| `JsonSpelling.QuestionIsRead` | workers/volparossa-ml/task_graph_decoder.py:338-341 | every spelling of a valid question is read to the state that may close, holding exactly its text and byte count |
| `JsonSpelling.ReadIsQuestion` | workers/volparossa-ml/task_graph_decoder.py:409-451 | what has been read when a question may close is a spelling of a valid question: no NUL and no surrogates, within the bytes and, stripped, not empty, ending in U+003F, different from the stripped goal and from every earlier question |
| `GraphRules.AllowsIsAdvance` | workers/volparossa-ml/task_graph_decoder.py:492-513 | in every state the fast form admits a character if and only if the authoritative step accepts it |
| `GraphRules.LiteralIsRead` | workers/volparossa-ml/task_graph_decoder.py:453-490 | a run that leaves a literal has read it whole |
| `GraphRules.QuestionCloses` | workers/volparossa-ml/task_graph_decoder.py:409-451 | an accepting run inside a question closes it at a quote where the question was complete |
| `GraphLanguage.ParentsForward` | workers/volparossa-ml/task_graph_decoder.py:453-490 | every list of distinct earlier tasks is read and recorded in order |
| `GraphLanguage.ParentsBackward` | workers/volparossa-ml/task_graph_decoder.py:453-490 | a dependency list that closes is a spelling of distinct earlier tasks and the state holds exactly those |
| `GraphLanguage.TaskForward` | workers/volparossa-ml/task_graph_decoder.py:409-490 | every spelling of a valid task is read to the state that records it |
| `GraphLanguage.TaskBackward` | workers/volparossa-ml/task_graph_decoder.py:409-490 | an accepting run from the start of a task begins with a spelling of a valid task |
| `GraphLanguage.Soundness` | workers/volparossa-ml/task_graph_decoder.py:338-490 | every string that drives the automaton to the end is a spelling of a version-3 graph of one to four tasks: questions complete, within bounds, pairwise distinct and not the goal; dependencies distinct and strictly earlier; under the requirement two tasks and a dependency |
| `GraphLanguage.Completeness` | workers/volparossa-ml/task_graph_decoder.py:325-490 | every spelling of every such graph is accepted character by character and leaves its stripped questions and dependencies recorded |
| `GraphLanguage.TasksAreRecovered` | workers/volparossa-ml/task_graph_decoder.py:325-490 | round trip: at the end of each task the automaton holds that task's question text and dependency list and the stripped questions so far |
| `GraphLanguage.LanguageIsContract` | workers/volparossa-ml/task_graph_decoder.py:325-490 | the accepted strings are exactly the spellings of the graphs under contract |
| `GraphLiveness.ScanKeepsAlive` | workers/volparossa-ml/task_graph_decoder.py:409-451 | no accepted character leads a question into a dead end |
| `GraphLiveness.FreeLetter` | workers/volparossa-ml/task_graph_decoder.py:343-352 | among more candidate questions than forbidden ones, one is free |
| `GraphLiveness.FinishQuestion` | workers/volparossa-ml/task_graph_decoder.py:343-451 | from every live scan, inside an escape and after a high surrogate included, printable ASCII characters complete the question |
| `GraphRuns.RunKeepsAlive` | workers/volparossa-ml/task_graph_decoder.py:453-490 | the liveness invariant holds in every reachable state for bounds of two bytes or more |
| `GraphRuns.AdvanceLowersRank` | workers/volparossa-ml/task_graph_decoder.py:453-490 | every accepted character lowers the rank |
| `GraphRuns.RunIsBounded` | workers/volparossa-ml/task_graph_decoder.py:453-490 | no run is longer than the rank of the state it starts in |
| `GraphRuns.EveryRunEnds` | workers/volparossa-ml/task_graph_decoder.py:322-490 | no run is longer than 52 times the byte bound plus 300 characters, for every bound |
| `GraphRuns.DeadlockFree` | workers/volparossa-ml/task_graph_decoder.py:322-490 | every reachable state has a continuation to a complete graph, for every goal, requirement and bound of two bytes or more |
| `GraphRuns.ExactLookahead` | workers/volparossa-ml/task_graph_decoder.py:492-513 | after an accepted prefix a character is admitted if and only if some graph under contract has it next |
| `GraphRuns.PrefixesAreViable` | workers/volparossa-ml/task_graph_decoder.py:322-490 | the accepted prefixes are exactly the prefixes of spellings of graphs under contract |
| `GraphRuns.OneByteGetsStuck` | workers/volparossa-ml/task_graph_decoder.py:325-352 | with a bound of one byte, for every goal, some reachable state has no continuation |
| `GraphRuns.NeverStuckFromTwoBytes` | workers/volparossa-ml/task_graph_decoder.py:325-490 | liveness holds if and only if the bound is at least two bytes |
| `GraphRuns.PrintableWayOn` | workers/volparossa-ml/task_graph_decoder.py:453-490 | before the end, some printable ASCII character is always admitted |
| `TokenTrie.CollectAllowedTokens` | workers/volparossa-ml/task_graph_decoder.py:516-573 | the pruned walk appends exactly the tokens whose whole string both automata accept, as going through every token separately would |
| `TokenTrie.SelectedIffAdmitted` | workers/volparossa-ml/task_graph_decoder.py:558-573 | a token is selected if and only if one of its strings is admitted character by character by the syntax parser and the graph rules |
| `TokenTrie.SomeTokenIsAllowed` | workers/volparossa-ml/task_graph_decoder.py:558-573 | with a token for each printable ASCII character, the mask is empty before the graph is complete only if the syntax parser, whatever it is, refuses every printable character the rules admit, and they always admit one |
| `SourceQuotes.PrefixInterval` | workers/volparossa-ml/task_graph_decoder.py:166-173 | the interval from a prefix to its lexical upper bound is exactly the strings with that prefix, U+10FFFF included |
| `SourceQuotes.LexemesArePrefixFree` | workers/volparossa-ml/task_graph_decoder.py:110-113 | no lexeme is a prefix of the lexeme of another value |
| `SourceQuotes.BuildTable` | workers/volparossa-ml/task_graph_decoder.py:92-115 | the table is refused exactly when there are no values or more than 65536, one is blank, over 128 bytes or holds NUL or a surrogate, or all are over 8 MiB; otherwise it holds the lexemes of the values, sorted, each beside its value |
| `SourceQuotes.BisectLeft` | workers/volparossa-ml/task_graph_decoder.py:172-173 | the first index of the window whose lexeme is not less than the key |
| `SourceQuotes.AllowedIsNextCharacters` | workers/volparossa-ml/task_graph_decoder.py:148-157 | the allowed characters are exactly those that extend the prefix towards some lexeme, and no lexeme is indexed out of range |
| `SourceQuotes.StepKeepsValid` | workers/volparossa-ml/task_graph_decoder.py:159-178 | a step is accepted exactly on a blank before the string or an allowed character, and keeps the window exact and non-empty |
| `SourceQuotes.ClosingIsExact` | workers/volparossa-ml/task_graph_decoder.py:172-176 | the string closes exactly on a whole lexeme, with the value that lexeme stands for |
| `SourceQuotes.IndexAgreesWithFilter` | workers/volparossa-ml/task_graph_decoder.py:138-183 | after any input the window is exactly the lexemes starting with what was read; the input is accepted just while one exists; closing happens just on a whole lexeme, with its original value |
| `Attempt.Attempt.Invoke` | workers/volparossa-ml/task_graph_decoder.py:768-811 | one call answers as specified and remembers prefix and offer only if nothing raised |
| `Attempt.AnswerIsExact` | workers/volparossa-ml/task_graph_decoder.py:768-811 | after any calls, a call is answered if and only if it continues the last answered prefix by nothing or one offered token within limit and vocabulary, and the mask is sound; then everything in the mask is offered, less the end marker exactly where the suffix is no complete output |
| `Attempt.EveryLogIsSafe` | workers/volparossa-ml/task_graph_decoder.py:768-811 | over any calls, the answered ones start at the prompt, grow by at most one offered token each, hold no special token, stay under the limit, and offer the end marker only over a validated suffix |
| `Attempt.EveryTokenWasOffered` | workers/volparossa-ml/task_graph_decoder.py:774-811 | in a safe log every generated token was offered by an earlier answer about exactly the prefix before it |
| `Attempt.GenerationIsConstrained` | workers/volparossa-ml/task_graph_decoder.py:768-811 | the same over any sequence of calls whatever |
| `GraphGeneration.OfferedStaysViable` | workers/volparossa-ml/task_graph_decoder.py:516-590 | for bounds of two bytes or more, every token the enforcer offers, end marker apart, keeps the text the beginning of a graph under contract |
| `GraphGeneration.EndIsWhole` | workers/volparossa-ml/task_graph_decoder.py:544-590 | the enforcer offers the end marker only over the spelling of a whole graph under contract |
| `GraphGeneration.MaskIsExact` | workers/volparossa-ml/task_graph_decoder.py:516-590 | for bounds of two bytes or more, the enforcer answers if and only if what was generated begins a graph under contract and something may follow; and it allows exactly the listed tokens whose text the syntax takes and with which some graph begins, and the end marker exactly over a whole graph where the syntax may end |
| `GraphGeneration.GenerationKeepsContract` | workers/volparossa-ml/task_graph_decoder.py:516-811 | the parts joined, over any calls and for bounds of two bytes or more: every answered prefix begins a graph under contract, every offered token keeps it so, and the end marker comes only over a whole graph that the independent validator took |
| `RetainedCache.ReplyIsGreedy` | workers/volparossa-ml/llama_cpu.py:400-442 | the reference reply: each token is the model's choice after those before it, and it stops at the first end marker or at the bound |
| `RetainedCache.NativeModel.BeginTurn` | workers/volparossa-ml/llama_cpu.py:342-358 | keeps exactly the retained positions and installs the constraint, or marks the handle failed; fails exactly on a fault outside or an argument out of bounds |
| `RetainedCache.NativeModel.ReserveContext` | workers/volparossa-ml/llama_cpu.py:360-371 | replaces the context by a larger empty one, or fails |
| `RetainedCache.NativeModel.Decode` | workers/volparossa-ml/llama_cpu.py:321-333 | appends the batch if it fits, or fails |
| `RetainedCache.NativeModel.Sample` | workers/volparossa-ml/llama_cpu.py:335-340 | the greedy choice for the decoded tokens, using up the fresh logits |
| `RetainedCache.PrefillQuantum.Completed` | workers/volparossa-ml/llama_cpu.py:379-397 | the next batch is at most double, between 1 and 128, within two seconds at the measured speed unless it is one token, and no smaller than that calls for |
| `RetainedCache.Padded` | workers/volparossa-ml/llama_cpu.py:533-536 | the context size is the least multiple of 256 that holds prompt and reply |
| `RetainedCache.CommonPrefix` | workers/volparossa-ml/llama_cpu.py:551-555 | the longest prefix the kept tokens share with the prompt short of its last token |
| `RetainedCache.SharedPrefixIsLongest` | workers/volparossa-ml/llama_cpu.py:551-555 | no longer prefix is shared |
| `RetainedCache.Generate` | workers/volparossa-ml/llama_cpu.py:400-442 | from any retained prefix it fails if and only if the world outside strikes during it; else the result is the reference reply and the handle holds the prompt and all but the last generated token |
| `RetainedCache.Prefill` | workers/volparossa-ml/llama_cpu.py:408-415 | the batches are 16 tokens and then exactly what the last measurement allows, or the rest of the prompt; whatever they are, the handle holds exactly the prompt afterwards, and it fails if and only if the world outside strikes |
| `RetainedCache.ExecuteFresh` | workers/volparossa-ml/llama_cpu.py:445-515 | a context of its own gives the reference reply; it fails exactly on a fault outside or a prompt out of bounds |
| `RetainedCache.RetainedModel.Begin` | workers/volparossa-ml/llama_cpu.py:524-569 | where the context need not grow, it is kept up to the longest prefix shared with the retained tokens, which may be empty; else it is new or replaced and empty; no tokens authorise reuse until the turn commits; it fails exactly for the named causes, and a request that is not let in changes nothing |
| `RetainedCache.Execute` | workers/volparossa-ml/llama_cpu.py:475-515 | a turn succeeds exactly when the request is let in, the handle is sound and nothing strikes outside; it then returns the reference reply and authorises exactly what the handle holds; a failed turn authorises nothing new |
| `RetainedCache.ValidIsStepwise` | workers/volparossa-ml/native_session.py:99-112 | a session is valid as far as each request is the next: numbered, under a new id, in bounds, with the session and bundle of the first |
| `RetainedCache.RunSession` | workers/volparossa-ml/native_session.py:99-129 | cache transparency: every reply of a session is the reply of a context that never saw another turn; with nothing striking outside the session goes on exactly as long as its requests are valid |
| `WaterFilling.LevelIsUnique` | crates/volparossa-agent/src/downlink_sharing.rs:171-198 | the reference level is the only one that is affordable while the next is not, or the highest cap |
| `WaterFilling.FillRates` | crates/volparossa-agent/src/downlink_sharing.rs:177-193 | the rates go through at most one pass more than paths, each offering what is left in equal shares to the paths not at their cap, and end at the level or the cap, the leftover bytes going one each to the earliest unsaturated paths |
| `WaterFilling.AllocateReceiveBudget` | crates/volparossa-agent/src/downlink_sharing.rs:171-198 | exact rates for up to 128 caps, zero shares beyond, and for each path the largest burst up to 65536 of which all together stay within 262144 |
| `FairShares.RatesUseTheBudget` | crates/volparossa-agent/src/downlink_sharing.rs:171-198 | the rates sum to the total or to the sum of the caps, whichever is smaller |
| `FairShares.RatesAreLevel` | crates/volparossa-agent/src/downlink_sharing.rs:171-198 | two rates differ by more than a byte only where the lower is at its cap |
| `FairShares.RatesAreMaxMinFair` | crates/volparossa-agent/src/downlink_sharing.rs:171-198 | any other division that gives one path more takes from a path with at most a byte more than it |
| `FairShares.RatesGrowWithBudget` | crates/volparossa-agent/src/downlink_sharing.rs:171-198 | a larger total lowers no rate |
| `OwnerPriority.SettingsAreMegabits` | crates/volparossa-agent/src/downlink_sharing.rs:102-109 | capacity and ceiling are the configured megabits per second in bytes |
| `OwnerPriority.RetainControlledRows` | crates/volparossa-agent/src/downlink_sharing.rs:78-90 | drops exactly the relay-exit rows outside the grants; refuses more than 128 grants |
| `OwnerPriority.KeptIsExact` | crates/volparossa-agent/src/downlink_sharing.rs:78-90 | a row is kept, as often as it came, unless it is a relay row outside the grants |
| `OwnerPriority.CounterHasRow` | crates/volparossa-agent/src/downlink_sharing.rs:117-123 | a leg counts only with a relay row |
| `OwnerPriority.LatestRowCounts` | crates/volparossa-agent/src/downlink_sharing.rs:117-123 | and then with the bytes of its last one |
| `OwnerPriority.MeasureReceived` | crates/volparossa-agent/src/downlink_sharing.rs:111-168 | detects exactly the regressions of continuing counters and otherwise sums their growth, saturating |
| `OwnerPriority.MeasureRate` | crates/volparossa-agent/src/downlink_sharing.rs:154-156 | the wide division is the number of times the interval goes into the bytes scaled to a second, saturating |
| `OwnerPriority.ReceiveBudgetController.Observe` | crates/volparossa-agent/src/downlink_sharing.rs:111-168 | one sample: refuses exactly the incomplete snapshots without changing anything, else replaces the history, moves the busy hold and returns the budget |
| `OwnerPriority.HoldCoversActivity` | crates/volparossa-agent/src/downlink_sharing.rs:157-164 | the busy hold reaches at least one second past every sample with owner activity |
| `OwnerPriority.BudgetIsExact` | crates/volparossa-agent/src/downlink_sharing.rs:111-168 | over any run, the budget is open if and only if the previous sample is more than 0 and at most 3 seconds back, nothing regressed, and no sample within the last second was over the owner threshold; otherwise it is zero |
| `OwnerPriority.UsableHasFigures` | crates/volparossa-agent/src/downlink_sharing.rs:128-156 | an interval can be measured if and only if it has figures: the legs read at both ends, none gone backwards, the bytes of the total that they do not account for, and those bytes per second, rounded down |
| `OwnerPriority.ActivityInFigures` | crates/volparossa-agent/src/downlink_sharing.rs:157-160 | a sample shows the owner busy if and only if those bytes are at least 2048 and their rate is at least 16384 and a hundredth of the capacity |
| `OwnerPriority.BudgetInFigures` | crates/volparossa-agent/src/downlink_sharing.rs:111-168 | the budget of every sample of every run is the capacity less that rate, up to the ceiling, or zero if some sample less than a second back showed the owner busy |
| `OwnerPriority.NoFiguresNoBudget` | crates/volparossa-agent/src/downlink_sharing.rs:124-146 | without figures the budget is zero and the owner does not count as busy |
| `OwnerPriority.RelayedTrafficIsFree` | crates/volparossa-agent/src/downlink_sharing.rs:151-168 | where the legs account for all growth of the total, all of the capacity is there up to the ceiling |
| `OwnerPriority.AllocationLeavesOwnerRoom` | crates/volparossa-agent/src/downlink_sharing.rs:111-198 | whatever is allocated, together with the owner's measured rate, stays within the capacity |
| `OwnerPriority.NarrowerActivity` | crates/volparossa-agent/src/downlink_sharing.rs:111-168 | counting fewer legs as controlled leaves a measurable interval measurable, lowers no owner rate and only adds owner activity, regressions or not |
| `OwnerPriority.NarrowerNeverGetsMore` | crates/volparossa-agent/src/downlink_sharing.rs:111-168 | for two runs over the same totals and times, counting fewer legs as controlled yields no larger budget if and only if the wider run saw no counter go backwards in the last interval or the narrower one has nothing to give (closed, a zero ceiling, or no capacity left by the owner) |
| `OwnerPriority.RegressionBreaksComparison` | crates/volparossa-agent/src/downlink_sharing.rs:134-146 | a concrete pair of runs in the failing case |
| `OwnerPriority.FewerGrantsAreNarrower` | crates/volparossa-agent/src/downlink_sharing.rs:78-90 | a snapshot complete under more grants is complete under fewer and gives a narrower sample |
| `OwnerPriority.FewerGrantsNeverGetMore` | crates/volparossa-agent/src/downlink_sharing.rs:78-168 | the comparison of the two runs from raw snapshots and grants, with the same exact condition |
| `UdpTurns.ClientUdpTurns.Next` | crates/volparossa-agent/src/client_udp_turns.rs:27-75 | one turn of the biased selection, its new state, and that a call arms at most one drain |
| `UdpTurns.CallIsExact` | crates/volparossa-agent/src/client_udp_turns.rs:27-95 | the outcome of every call of every run, from the last turn, the family served last and what the call sees: response, either family, failure on a broken poll that is reached, and waiting only where nothing is ready and no response due |
| `UdpTurns.NoTurnNoChange` | crates/volparossa-agent/src/client_udp_turns.rs:27-75 | a call that completes no turn changes nothing but the drain: armed, ended or as it was |
| `UdpTurns.EventConserves` | crates/volparossa-agent/src/client_udp_turns.rs:27-85 | one turn or discard moves responses between due, answered and discarded, and arms 64 at a time |
| `UdpTurns.ResponsesAreConserved` | crates/volparossa-agent/src/client_udp_turns.rs:27-85 | in every run 64 times the armings is the responses, what remains and what was discarded |
| `UdpTurns.SelectorRemembersLastTurn` | crates/volparossa-agent/src/client_udp_turns.rs:81-95 | the two flags are exactly whether the last turn was a response, and which family was served last, IPv4 going first at the start |
| `UdpTurns.NoTwoIngressOverDrain` | crates/volparossa-agent/src/client_udp_turns.rs:27-95 | in every run an ingress turn is followed by a response while a drain is pending |
| `UdpTurns.NoTwoResponsesOverIngress` | crates/volparossa-agent/src/client_udp_turns.rs:27-95 | in every run a response is not followed by a response while a family is readable |
| `UdpTurns.ServedWithinFourTurns` | crates/volparossa-agent/src/client_udp_turns.rs:27-95 | a family readable throughout is served within any four consecutive turns, from any state |
| `UdpTurns.ServedWithinFourCalls` | crates/volparossa-agent/src/client_udp_turns.rs:27-95 | with a family readable every call completes a turn, so the family is served within any four consecutive calls |
| `UdpTurns.ThreeTurnsCanMiss` | crates/volparossa-agent/src/client_udp_turns.rs:27-95 | in some run three turns pass a readable family by |
| `UdpTurns.DrainFinishes` | crates/volparossa-agent/src/client_udp_turns.rs:27-95 | an active drain of r responses is finished within 2r turns however busy the sockets are |
| `Conversation.ValidateTools` | workers/volparossa-ml/conversation.py:105-116 | accepts exactly the lists of well-formed tools with distinct name and namespace |
| `Conversation.ValidateHistory` | workers/volparossa-ml/conversation.py:117-139 | the one-pass check with its two sets accepts exactly the histories whose items are good, stand in order and leave nothing pending |
| `Conversation.OrderIsPairing` | workers/volparossa-ml/conversation.py:117-139 | standing in order is the same as pairing off: each call has exactly one later result, each result one earlier call, ids are unique, and nobody speaks in between |
| `Conversation.Validate` | workers/volparossa-ml/conversation.py:84-141 | a conversation is accepted if and only if its header, tools, items, pairing, ending and encoded size are good |
| `Conversation.AcceptedInFigures` | workers/volparossa-ml/conversation.py:42-141 | the accepted conversations with every bound, character set, role and comparison written out, and pairing |
| `JsonSizes.OrderIsIdle` | workers/volparossa-ml/conversation.py:38-39 | the order of an object's members does not change the length of its encoding |
| `Conversation.ExtendedSize` | workers/volparossa-ml/conversation.py:38-39 | two more items add exactly their own encodings and two commas to the encoded size |
| `JsonValues.DepthWithin` | workers/volparossa-ml/conversation.py:211-222 | the worklist check holds if and only if the recursive nesting of containers is at most 16 |
| `JsonReader.Unique` | workers/volparossa-ml/conversation.py:199-204 | the hook that builds an object refuses exactly a repeated key and otherwise holds every member |
| `JsonReader.LoadsInvertsCanonical` | workers/volparossa-ml/conversation.py:38-39 | round trip: every value Python can hold and encode, at any depth and with any text, is read back from its compact encoding by the strict reader |
| `JsonReader.RepeatedKeyIsRefused` | workers/volparossa-ml/conversation.py:199-204 | an object of such values is read back if and only if no key is repeated |
| `JsonReader.LoadsIsStable` | workers/volparossa-ml/qwen_conversation.py:119-120 | whatever the strict reader accepts, blanks and escapes included, has no repeated key anywhere and numbers as they print, and reads back once more from its encoding unless a number overflowed |
| `NativeTools.AliasIsInjective` | workers/volparossa-ml/qwen_conversation.py:26-36 | no two positions share an alias |
| `NativeTools.BuildAliases` | workers/volparossa-ml/qwen_conversation.py:45 | every offered tool is found under its key with the alias of its position |
| `NativeTools.SpokenIsExact` | workers/volparossa-ml/qwen_conversation.py:47-58 | a message is shown as it was said, a developer's as the system's under its label, and only an assistant's with blank reasoning |
| `NativeTools.Messages` | workers/volparossa-ml/qwen_conversation.py:39-70 | exactly the accepted conversations are shown; no alias is ever missing; each call is shown under the alias of its tool and each result under the alias of the call it answers |
| `ToolProposals.SelectedOnlyAlias` | workers/volparossa-ml/qwen_conversation.py:122-123 | an alias selects its own position and nothing else |
| `ToolProposals.DecodeOutput` | workers/volparossa-ml/conversation.py:225-231 | the decoded output with the depth bound applied to constrained function calls |
| `ToolProposals.AnswerIsExact` | workers/volparossa-ml/qwen_conversation.py:87-110 | an output is an answer if and only if it is whole, ended, under a good request id, without markers or tags, not blank, at most 4096 bytes, and no call: no tools are offered, it cannot be read, or it is not an object with just a string name and arguments |
| `ToolProposals.CutOffIsExact` | workers/volparossa-ml/qwen_conversation.py:88-92 | an output is reported truncated if and only if it is, and else out of tokens if and only if it did not end |
| `ToolProposals.ProposalIsExact` | workers/volparossa-ml/qwen_conversation.py:87-137 | an output is a proposal of a call if and only if it is legible, its body reads as an object that names the alias of an offered tool, the call is that tool under the id of the request with those arguments, and it is well formed and new |
| `ToolProposals.TaggedBodyIsExact` | workers/volparossa-ml/qwen_conversation.py:114-119 | the body is what stands between the first opening tag and a closing tag at the end, after nothing or a good preface |
| `ToolProposals.ProposalIsOneObject` | workers/volparossa-ml/qwen_conversation.py:87-124 | a proposal is one complete object, the whole output or all between the first opening tag and a closing tag at the end, and calls the tool the object names |
| `ToolProposals.EmittedCallResolves` | workers/volparossa-ml/qwen_conversation.py:121-135 | under its alias and with the arguments it is shown with, a good call resolves to itself with a new id, or is refused exactly when that id is used |
| `ToolProposals.TaggedCallDecodes` | workers/volparossa-ml/qwen_conversation.py:87-137 | any good call written in tags decodes, before the depth bound, to itself with a new id if and only if the request id, markers, preface and freshness allow it, for any reader that reads the body as the call |
| `ToolProposals.TaggedCallReadsBack` | workers/volparossa-ml/conversation.py:225-231 | the same after the depth bound, with depth added to the condition |
| `ToolProposals.BareCallReadsBack` | workers/volparossa-ml/qwen_conversation.py:98-135 | the same for a bare object |
| `ToolProposals.ShownCallReadsBack` | workers/volparossa-ml/qwen_conversation.py:39-137 | round trip through the strict reader: a call of an accepted history, written again in tags with the alias and arguments it was shown with, returns the same tool kind, identity and arguments if and only if request id, markers, preface, freshness and depth allow it |
| `ToolProposals.ShownCallReadsBackBare` | workers/volparossa-ml/qwen_conversation.py:98-135 | the same written bare |
| `ToolProposals.ShownResultReadsBack` | workers/volparossa-ml/qwen_conversation.py:67-69 | a result as it is shown reads back as the id of its call, the alias of the tool and the output |
| `ToolProposals.DecodedCallIsProper` | workers/volparossa-ml/qwen_conversation.py:87-135 | the arguments of a decoded call are again a value Python can hold, so the round trip goes on |
| `ToolProposals.ProposalContinues` | workers/volparossa-ml/conversation.py:94-141 | a decoded call and its result extend an accepted conversation to an accepted one if and only if the two items fit, in number and by the old size and their own, and the output is a text within bounds |
| `ToolProposals.AnswerContinues` | workers/volparossa-ml/conversation.py:94-141 | the same for a decoded answer and the next user message |
| `DeepCalls.TooDeepIsRefused` | workers/volparossa-ml/conversation.py:211-231 | under the output constraint a call of the history nested deeper than 16 is refused however it is written in tags, whatever the preface, spelling and reader |
| `DeepCalls.DeepCallIsRefused` | workers/volparossa-ml/conversation.py:211-231 | for every depth from 1 to 600 there is an accepted conversation whose call, written again as shown, is decoded to itself by the strict reader, and then let through up to depth 16 and refused beyond |
| `TensorConversion.Promote` | workers/volparossa-ml/convert_llama_cpu.py:190-196 | fills the buffer with the promotion of the chunk |
| `TensorConversion.PromotionIsExact` | workers/volparossa-ml/convert_llama_cpu.py:190-196 | each 32-bit word is the 16-bit word shifted into the upper half |
| `TensorConversion.DescriptionIsExact` | workers/volparossa-ml/convert_llama_cpu.py:167-183 | the checks before the comparison accept exactly a vector or matrix of BF16 with sides up to 151936 and its bytes in range, against a tensor with the sides swapped, as many elements, and F32 for vectors and norms or else BF16 |
| `TensorConversion.CompareTensor` | workers/volparossa-ml/convert_llama_cpu.py:167-198 | for any element count and chunk boundary, succeeds if and only if the tensor is well described and all of it equals the source bytes or their exact promotion |
| `TensorConversion.VerifyTensorSet` | workers/volparossa-ml/convert_llama_cpu.py:228-244 | for any renaming, succeeds if and only if it is a bijection between source and converted tensors and every pair is faithful |
| `TensorConversion.VerifyConversion` | workers/volparossa-ml/convert_llama_cpu.py:228-244 | the same with the converter's own renaming |
| `TensorNames.LayerNameSplits` | workers/volparossa-ml/convert_llama_cpu.py:137-145 | a converted layer name tells the layer number and the converted part |
| `TensorNames.TableIsDistinct` | workers/volparossa-ml/convert_llama_cpu.py:139-143 | no two parts of a layer are converted to the same part |
| `TensorNames.CollisionIsExact` | workers/volparossa-ml/convert_llama_cpu.py:133-145 | two accepted names are converted to one if and only if they are the same or are read as the same part of the same layer |
| `TensorNames.OnlyZerosAreLost` | workers/volparossa-ml/convert_llama_cpu.py:137-138 | of two names read as the same part of the same layer, the longer is the shorter with zeros put before its number, and nothing else |
| `TensorNames.AcceptedLayers` | workers/volparossa-ml/convert_llama_cpu.py:137-145 | a numbered name is accepted if and only if its number has at most 4300 digits and is below 36, and its part is in the table |
| `TensorNames.LeadingZerosCollide` | workers/volparossa-ml/convert_llama_cpu.py:133-145 | zeros before the number change the name; up to 4300 digits neither whether it is accepted nor what it is converted to, and beyond it is refused |
| `TensorNames.SomeNamesCollide` | workers/volparossa-ml/convert_llama_cpu.py:133-145 | two different accepted names are converted to one |
| `NoticeClosure.Definitions` | packaging/cargo-notice-closure.py:35-43 | refuses exactly repeated or malformed ids and otherwise indexes every definition |
| `NoticeClosure.CheckUniqueIds` | packaging/cargo-notice-closure.py:28-32 | comparing a list with its set accepts exactly the lists of well-formed ids without repetition |
| `NoticeClosure.CheckRoots` | packaging/cargo-notice-closure.py:54-57 | accepts exactly when every root is defined as a package and a node and is local |
| `NoticeClosure.CheckNode` | packaging/cargo-notice-closure.py:58-69 | accepts exactly the nodes whose package is defined and whose two forms of edges are unique, well formed, equal and defined |
| `NoticeClosure.Validate` | packaging/cargo-notice-closure.py:46-71 | the whole pass of checks accepts exactly the valid metadata and ends with the index of its nodes |
| `NoticeClosure.Reach` | packaging/cargo-notice-closure.py:72-78 | the worklist ends and reaches exactly what the workspace members reach, cycles included |
| `NoticeClosure.SelectClosure` | packaging/cargo-notice-closure.py:46-80 | selects the reachable packages and nodes of exactly the valid metadata |
| `NoticeClosure.SelectionIsExact` | packaging/cargo-notice-closure.py:79-80 | a package or node is kept if and only if the workspace reaches it |
| `NoticeClosure.SelectionIsValid` | packaging/cargo-notice-closure.py:46-80 | the selection passes its own validation |
| `NoticeClosure.SelectionKeepsReach` | packaging/cargo-notice-closure.py:46-80 | selecting makes nothing reachable or unreachable |
| `NoticeClosure.SelectionIsIdempotent` | packaging/cargo-notice-closure.py:46-80 | selecting twice is selecting once |
| `SequenceStore.LoadIsInverse` | crates/volparossa-agent/src/advertisement.rs:273-302 | loading accepts exactly the canonical spelling of each positive 64-bit number and inverts it |
| `SequenceStore.SequenceFile.WriteSequence` | crates/volparossa-agent/src/advertisement.rs:334-351 | creating, writing, syncing and renaming the temporary file, cut short at any step, leaves exactly the disk specified for that step |
| `SequenceStore.SequenceFile.Persist` | crates/volparossa-agent/src/advertisement.rs:304-331 | success is reported only after the directory sync; otherwise the disk is that of the step where it stopped |
| `SequenceStore.SequenceFile.Next` | crates/volparossa-agent/src/advertisement.rs:264-271 | the number returned and the disk left behind for every place to stop |
| `SequenceStore.PersistIsSafe` | crates/volparossa-agent/src/advertisement.rs:304-351 | at every step the path names only files that were synced before they were named, and nothing below the number last handed out |
| `SequenceStore.StopIsExact` | crates/volparossa-agent/src/advertisement.rs:264-351 | for every place to stop, the file left behind and what the path may name, written out |
| `SequenceStore.NextIsExact` | crates/volparossa-agent/src/advertisement.rs:264-271 | a call returns n if and only if nothing stops it and the path holds the line of n - 1, or no file for n = 1 |
| `SequenceStore.NumbersIncrease` | crates/volparossa-agent/src/advertisement.rs:264-351 | from any content, over errors at any step, machine stops between any two, lost directory entries and lost or torn unsynced files, the numbers handed out strictly increase, start above what the file stood for and never wrap |
| `SequenceStore.NewStoreCounts` | crates/volparossa-agent/src/advertisement.rs:264-271 | left in peace, a new store hands out 1, 2, 3 and so on up to the last 64-bit number, and then nothing |
| `SequenceStore.UnsafeFileHandsOutNothing` | crates/volparossa-agent/src/advertisement.rs:264-302 | nothing is ever handed out over content that loading refuses |
| `SequenceStore.UnsyncedFileRepeats` | crates/volparossa-agent/src/advertisement.rs:347-348 | without the file sync a machine stop can make a number be handed out again |
| `SequenceStore.UnsyncedDirectoryRepeats` | crates/volparossa-agent/src/advertisement.rs:325-330 | and so it can without the directory sync |

## Left out

- The pinned upstream JSON schema parser, token enforcer and tokenizer: the inner parser is an arbitrary deterministic automaton and the tokenizer a trie of strings.
- The wrappers over that parser that add whitespace rules and unique principles: they rest on upstream state.
- Parser cache and shortcut keys of the graph decoder.
- Tokens whose text depends on the token before them: the trie gives each token one text.
- The refusal of question bounds outside 1 to 512: the results hold for every bound.
- Library loading, manifests, digests and provenance records of the native runtime; field comparisons only.
- Token timing, progress records and cancellation signals: they appear only as outside faults.
- OwnerPriority.FewerGrantsNeverGetMore: compares runs in which every snapshot is accepted under the wider grants; after a refusal the two runs no longer share their samples.
- OwnerPriority.BudgetIsExact: instants are natural numbers and do not overflow.
- The owner probe, control frames and the helper process behind the samples.
- Async sockets and timers: readiness and ticks are inputs of a turn.
- The plain (not native) conversation profile's own message rendering and output format: its call check is the one modelled here.
- Descriptions and schemas in the tool list given to the model: only the aliases are modelled.
- Conversation.Validate: states which conversations are accepted and not which error code a refusal carries; values of the wrong JSON type are excluded by the datatypes.
- Python's recursion limit on very deep values, and how floating-point numbers print: the printing is a parameter, and `JsonReader.LoadsIsStable` assumes that printing and reading it again is stable.
- File modes, links and directory checks around the sequence file: they count as failures of the step that makes them. Temporary names and their removal: nothing reads such a file.
- Advertisement signing, identities and addresses.
- The fixed count of 398 tensors, the shard index, the metadata and tokenizer checks of the converter, and running the converter itself.
- Adapter aggregation, which is floating-point linear algebra in a library.
- Gateways, DNS fallback, content transfer, secrets, provisioning, packaging scripts other than the closure, fuzz targets and the website.
