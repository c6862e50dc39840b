# ChaosEngine-Grok-OS heuristic utilities in Dafny

This project models the small heuristic utilities of ChaosEngine-Grok-OS:

- the pin store (`FileManager`). It pins notes with duplicate merging and title de-duplication. It also completes, archives, recalls and lists pins, and it has the storage nudge and the keyword detectors;
- the standalone `pin` function;
- the chunk splitter (load prediction, cleaning, paragraph and sentence packing);
- the system health score;
- two versions of the truth checker (claim extraction, the contradiction test, score accounting and the verdict or report).

Each one is a pure function over an immutable state record. Where Python mutates an object, the Dafny function takes the state and returns the new state together with an outcome datatype. The outcome stands in for the message string.

The modules are:

| module | file | models |
|---|---|---|
| `Wrappers` | wrappers.dfy | `Option` |
| `Text` | text.dfy | the string functions the sources use: `lower`, `strip`, `split()`, `split(sep)`, `splitlines`, `re.findall(r'\w+')`, the sentence split `(?<=[.!?])\s+`, `in` on strings, decimal rendering |
| `Difflib` | difflib.dfy | `SequenceMatcher(...).ratio()` on lowered strings, as a function parameter |
| `OrderedDict` | ordered_dict.dfy | Python's insertion-ordered `dict` |
| `PinStore` | pin_store.dfy | the store shape shared by both `pin` versions, and the steps they compute alike |
| `FileManager` | file_manager.dfy | PROCESS/FILE_MGR.py |
| `StandalonePin` | standalone_pin.dfy | python/python-process-lib/FILE_MGR.py |
| `ChunkSplitter` | chunk_splitter.dfy | PROCESS/CHUNK_SPLITTER.py |
| `SystemHealth` | sys_health.dfy | PROCESS/SYS_HEALTH.py |
| `TruthCommon`, `TruthV2` | truth_common.dfy, truth_v2.dfy | python/python-process-lib/truth.py |
| `TruthCommon`, `TruthV4` | truth_common.dfy, truth_v4.dfy | PROCESS/TRUTH.py |

Helpers that cannot be written out exactly are parameters of the functions that use them:

- the `SequenceMatcher` ratio;
- the filler-word substitution of `clean_chunk`;
- the power `n ** 0.4` of the version 4 penalties;
- the three identity-drift regular expressions.

Every property is proved for every ratio, every filler substitution and every drift matcher. The power is different: `TruthV4.Penalties`, `TruthV4.Reflect`, `TruthV4.ReflectScoreBounds`, `TruthV4.Check`, `TruthV4.RepeatCallIsFull`, `TruthV4.FirstCallIsQuick` and `TruthV4.FreshLists` are proved only for a power that is positive on every count of at least one (`TruthV4.RootPositive`), as `n ** 0.4` is. Every other property holds for every choice of the power.

Some behaviours of the code are worth knowing:

- **Recall.** `recall` appends an exact title hit twice, so a query for an exact title always answers "Multiple matches". When a folder's exact-title pin belongs to another thread, the `continue` skips that whole folder, so the folder's other matching pins are never found either. Both are listed under Findings. `FileManager.Recall` is the corrected recall that lists each pin once and passes over no folder, and `FileManager.RecallAsWritten` is the recall the code computes.
- **Load prediction.** `predict_load` calls a text heavy when `sentences / (words / 100) > 0.8`, that is when `125 * sentences > words`. Because `sentences` counts the sentence marks plus one, almost every short text is heavy.
- **The sentence threshold.** `heavy_threshold_sentences` is stored but never read.
- **The health usage example.** For the inputs of the usage example at the foot of PROCESS/SYS_HEALTH.py, the code gives 100, not the 88 its comment shows. No metric there is over its threshold.
- **Version 2 antonyms.** The antonym table of the version 2 checker is looked up in one direction only, so "blue" against "red" opposes while "red" against "blue" does not.
- **Version 2 findings.** Version 2 never clears its finding lists. Once a claim has been unverified under low confidence, every later check returns the verify suggestion.
- **Version 4.** Version 4 clears the lists on every call. Every call after the first runs in full mode.
- **Listing a thread.** `list_pins` with a thread id looks in `/thread/<id>` even for the main thread, whose pins live under `/user`.

## Model

| member | source | states |
|---|---|---|
| OrderedDict.Dict.Remove | PROCESS/FILE_MGR.py:80 | `pop` deletes the key and nothing else, and the remaining keys are the old order with that key dropped (see `OrderedDict.WithoutSplit`) |
| OrderedDict.WithoutAppend | PROCESS/FILE_MGR.py:80 | dropping a key from two concatenated key lists drops it from each, and the lists stay in order |
| OrderedDict.WithoutAbsent | PROCESS/FILE_MGR.py:80 | dropping a key that is not there leaves the key order unchanged |
| OrderedDict.WithoutSplit | PROCESS/FILE_MGR.py:80 | removing a key that occurs once closes its gap: the keys before it and after it follow one another in their old order |
| PinStore.InitStore | PROCESS/FILE_MGR.py:8-14 | a new manager has no folders, no global pins and no recent pins |
| PinStore.PathFor | PROCESS/FILE_MGR.py:24 | the folder is `/user` exactly for the main thread, `/thread/<id>` (recoverable id) otherwise, and never the archive |
| PinStore.PathForInjective | PROCESS/FILE_MGR.py:24 | two different threads never write to the same folder |
| PinStore.Touch | PROCESS/FILE_MGR.py:10 | reading a missing path of the defaultdict adds it, empty, at the end of the path order and changes no other folder |
| PinStore.Compact | PROCESS/FILE_MGR.py:48 | the preview is the content when it is at most 500 characters, else its first 500 characters and "..." |
| PinStore.PushRecent | PROCESS/FILE_MGR.py:14 | appending to the bounded deque keeps the newest ten entries, the new one last |
| PinStore.CandidatesCard | PROCESS/FILE_MGR.py:42-46 | the titles `t`, `t_1`, `t_2`, ... are pairwise different, so the de-duplication loop ends |
| PinStore.FreshIndex | PROCESS/FILE_MGR.py:42-46 | the loop stops at the least suffix whose title is free |
| PinStore.FreshTitle | PROCESS/FILE_MGR.py:42-46 | the new title is not in use; it is the requested title when that is free, else the title with a numeric suffix |
| PinStore.FirstSimilar | PROCESS/FILE_MGR.py:27-31 | the position found is the first pin whose lowered title is more than 0.92 alike or whose lowered content is more than 0.85 alike; none is found exactly when no pin is |
| FileManager.Pin | PROCESS/FILE_MGR.py:16-62 | the store stays well formed and the outcome names the thread's folder |
| FileManager.PinStaysInItsPath | PROCESS/FILE_MGR.py:24-27 | only the thread's folder is written; every other folder is unchanged and at most the thread's path is added |
| FileManager.PinMergesFirstDuplicate | PROCESS/FILE_MGR.py:27-39 | the first duplicate is overwritten in place: same titles, larger value kept, content, preview, turn, thread and status replaced, global and recent pins untouched |
| FileManager.PinCreatesFreshEntry | PROCESS/FILE_MGR.py:42-62 | without a duplicate the folder gains exactly one pin under the least free candidate title; global pins gain it only for the main thread; recent pins gain it |
| FileManager.Complete | PROCESS/FILE_MGR.py:64-74 | there is no match exactly when no path holds the title under an agreeing thread |
| FileManager.CompleteMarksFirstHit | PROCESS/FILE_MGR.py:64-73 | a hit sets only the first match's status to "complete" and reports its old status |
| FileManager.MarkCompleteEffect | PROCESS/FILE_MGR.py:71-72 | marking a pin complete changes its status only: the folders, their order and every other pin stay as they were |
| FileManager.CompleteMissKeepsStore | PROCESS/FILE_MGR.py:66-74 | a miss leaves the store unchanged |
| FileManager.Archive | PROCESS/FILE_MGR.py:76-84 | there is no match exactly when no path holds the title, and then nothing changes |
| FileManager.MoveToArchiveOrder | PROCESS/FILE_MGR.py:80-82 | the path order gains `/archive/completed` last only when it was missing; the source folder is popped (other titles keep their order) and the archive folder takes the record last, or in its old place when it already held the title, also when the source is the archive itself |
| FileManager.ArchiveMovesFirstHolder | PROCESS/FILE_MGR.py:76-83 | the first pin with the title moves, record unchanged whatever its status, to `/archive/completed`; the path order and both folders' key orders are as `pop` and assignment leave them, even when the holder is the archive; no other folder changes |
| FileManager.ArchiveIgnoresThread | PROCESS/FILE_MGR.py:175-183 | the thread argument has no effect (also for the identical `archive_completed`) |
| FileManager.SubstringHits | PROCESS/FILE_MGR.py:120-125 | a folder's candidates are its pins whose lowered title contains the lowered query, under an agreeing thread; there are none exactly when no pin matches |
| FileManager.SubstringHitsExact | PROCESS/FILE_MGR.py:120-125 | the substring loop lists every matching pin of the folder and nothing else, each once, in folder order |
| FileManager.Answer | PROCESS/FILE_MGR.py:127-134 | no candidate means no match, more than one means "Multiple matches", exactly one is recalled |
| FileManager.RecallAsWrittenMissIff | PROCESS/FILE_MGR.py:112-128 | as written, recall finds nothing exactly when every stored title that contains the query under an agreeing thread lies in a folder whose exact-title pin belongs to another thread |
| FileManager.RecallBlockedPathAsWritten | PROCESS/FILE_MGR.py:113-117 | as written, a folder whose exact-title pin belongs to another thread hides its other matching pins: recall finds nothing where the corrected recall finds a pin |
| FileManager.RecallMissIff | PROCESS/FILE_MGR.py:112-128 | the corrected recall finds nothing exactly when no stored title contains the query under an agreeing thread |
| FileManager.RecallExactHitIsMultiple | PROCESS/FILE_MGR.py:112-131 | as written, an exact title hit always gives "Multiple matches" |
| FileManager.RecallUniqueMatch | PROCESS/FILE_MGR.py:112-133 | with each pin listed once, a query only one pin matches recalls that pin |
| FileManager.PinLines | PROCESS/FILE_MGR.py:94-96 | the listed pins are the first eight of the folder in order, with turn and status |
| FileManager.OverviewLines | PROCESS/FILE_MGR.py:101-104 | the overview counts each of `/user`, `/root`, `/archive/completed` that holds pins, and is empty exactly when none does |
| FileManager.OverviewOrder | PROCESS/FILE_MGR.py:101-104 | the overview lists `/user`, `/root` and `/archive/completed` in that order, each exactly when it holds pins, with its number of pins |
| FileManager.RecentTitles | PROCESS/FILE_MGR.py:105-106 | the recent line names the titles of the last three recent pins, oldest first |
| FileManager.ListPins | PROCESS/FILE_MGR.py:86-108 | a thread listing is its count and its first eight pins, or the one "no pins" line; without a thread it is exactly the overview lines; either is followed by the recent line exactly when there are recent pins, and by nothing else; the listing is empty exactly when there is no thread, no overview folder holds pins and there are no recent pins |
| FileManager.NudgeBloat | PROCESS/FILE_MGR.py:136-143 | quiet up to 15 items in all, a notice above 15, a heavy warning above 25 |
| FileManager.NudgeBloatMonotone | PROCESS/FILE_MGR.py:138-142 | more items never lower the warning level |
| FileManager.AfterColon | PROCESS/FILE_MGR.py:149 | the text after the first colon |
| FileManager.AutoTitle | PROCESS/FILE_MGR.py:149 | a prefix of the stripped text after the first colon, exactly 40 characters long or the whole of it when shorter; else `auto_<turn>` |
| FileManager.AutoPin | PROCESS/FILE_MGR.py:145-154 | pins exactly when a keyword occurs in the lowered text or the value exceeds 0.45, and then does what `pin` does with the text, under the derived title when a keyword occurs and `high_<turn>` otherwise; without a pin the store is unchanged |
| FileManager.AutoPinFromIntent | PROCESS/FILE_MGR.py:156-163 | pins exactly when one of the seven keywords occurs or the value exceeds 0.5, and then does what `pin` does with the text under the derived title and status "active"; otherwise the store is unchanged |
| FileManager.DetectCompletion | PROCESS/FILE_MGR.py:165-173 | suggests completing "unknown_project" exactly when a completion phrase occurs in the lowered text |
| StandalonePin.Pin | python/python-process-lib/FILE_MGR.py:3-46 | the store stays well formed and the outcome names the thread's folder |
| StandalonePin.PinStaysInItsPath | python/python-process-lib/FILE_MGR.py:10-13 | only the thread's folder (`/user` for main, `/thread/<id>` otherwise) is written |
| StandalonePin.PinMergesFirstDuplicate | python/python-process-lib/FILE_MGR.py:13-24 | the first duplicate is overwritten in place: same titles, larger value, content, preview, turn and thread replaced, global and recent pins untouched |
| StandalonePin.PinCreatesFreshEntry | python/python-process-lib/FILE_MGR.py:27-46 | without a duplicate the folder gains one pin under the least free candidate title; global pins only for main; recent pins only here |
| ChunkSplitter.CountTerminators | PROCESS/CHUNK_SPLITTER.py:19 | the count is zero exactly when the text holds no sentence mark |
| ChunkSplitter.CountTerminatorsAppend | PROCESS/CHUNK_SPLITTER.py:19 | the marks of a text are those of its parts added up, and one character counts once exactly when it is a sentence mark |
| ChunkSplitter.PredictLoad | PROCESS/CHUNK_SPLITTER.py:16-25 | heavy exactly when the words exceed the threshold or there are words and 125 times the sentences exceed them; the expected count is at least 1 and covers the words in chunks of the maximum size |
| ChunkSplitter.ComplexityTest | PROCESS/CHUNK_SPLITTER.py:20-22 | the rational complexity test is the integer test `125 * sentences > words` |
| ChunkSplitter.EmptyTextIsLight | PROCESS/CHUNK_SPLITTER.py:18-25 | a text without words is light with one expected chunk |
| ChunkSplitter.SentenceThresholdUnused | PROCESS/CHUNK_SPLITTER.py:8-22 | the sentence threshold setting never changes the prediction |
| ChunkSplitter.CollapsePunct | PROCESS/CHUNK_SPLITTER.py:29 | no sentence mark is followed by the same mark, the text only shrinks and its first character stays |
| ChunkSplitter.CollapseRun | PROCESS/CHUNK_SPLITTER.py:29 | a run of one repeated sentence mark, not continued by that mark, becomes the mark once |
| ChunkSplitter.CollapseKeep | PROCESS/CHUNK_SPLITTER.py:29 | a character that does not begin a doubled sentence mark is kept; with CollapseRun this fixes the whole result |
| ChunkSplitter.CollapseKeepsNonMarks | PROCESS/CHUNK_SPLITTER.py:29 | collapsing drops only sentence marks: every other character survives, in order |
| ChunkSplitter.CollapseKeepsUndoubled | PROCESS/CHUNK_SPLITTER.py:29 | a text without a doubled sentence mark is unchanged |
| ChunkSplitter.CollapseIdempotent | PROCESS/CHUNK_SPLITTER.py:29 | collapsing twice is collapsing once |
| ChunkSplitter.Squash | PROCESS/CHUNK_SPLITTER.py:31 | no two whitespace characters are adjacent, every whitespace is a space, and the text is empty, starts with whitespace or ends with whitespace exactly when the input does |
| ChunkSplitter.SquashKeepsWords | PROCESS/CHUNK_SPLITTER.py:31 | squashing whitespace keeps the words of the text, in order |
| ChunkSplitter.Clean | PROCESS/CHUNK_SPLITTER.py:27-32 | the cleaned chunk has no leading or trailing whitespace, no double whitespace, only spaces as whitespace, and the words of the filtered, collapsed chunk |
| ChunkSplitter.ParagraphsKeepWords | PROCESS/CHUNK_SPLITTER.py:36 | the paragraphs hold the text's words, in order |
| ChunkSplitter.SplitSentencesKeepsWords | PROCESS/CHUNK_SPLITTER.py:44 | the sentence split holds the paragraph's words, in order |
| ChunkSplitter.PackKeepsWords | PROCESS/CHUNK_SPLITTER.py:45-57 | packing keeps every word of the sentences, in order |
| ChunkSplitter.PackWithinLimit | PROCESS/CHUNK_SPLITTER.py:45-57 | every packed chunk is non-empty and within the word limit, or is a single sentence |
| ChunkSplitter.ChunkParagraph | PROCESS/CHUNK_SPLITTER.py:39-57 | a paragraph within the limit is one chunk, unchanged; the chunks keep the paragraph's words in order |
| ChunkSplitter.DropEmpty | PROCESS/CHUNK_SPLITTER.py:59 | the kept chunks are non-empty, come from the input and keep its words |
| ChunkSplitter.Split | PROCESS/CHUNK_SPLITTER.py:34-59 | no chunk is empty and the chunks' words are those of the cleaned paragraphs, in order |
| ChunkSplitter.SplitChunkShapes | PROCESS/CHUNK_SPLITTER.py:39-59 | every chunk is within the word limit or is a single sentence of a paragraph |
| ChunkSplitter.Process | PROCESS/CHUNK_SPLITTER.py:61-73 | the report counts the raw words and the chunks, carries the load class and expected count of the prediction, and holds the split's chunks, none empty, with the cleaned paragraphs' words |
| SystemHealth.Init | PROCESS/SYS_HEALTH.py:7-8 | a new monitor holds no metrics |
| SystemHealth.Update | PROCESS/SYS_HEALTH.py:19-27 | the metrics become exactly the seven given values |
| SystemHealth.Score | PROCESS/SYS_HEALTH.py:29-38 | the score lies in 0..100, is a multiple of 5, is 100 exactly when no rule fires, and is 100 less the penalties of the rules that fire, clamped at 0 |
| SystemHealth.Raw | PROCESS/SYS_HEALTH.py:31-37 | the six conditional subtractions leave 100 less the sum of the penalties of the rules that fire |
| SystemHealth.DeductionZero | PROCESS/SYS_HEALTH.py:32-37 | nothing is deducted exactly when no rule fires |
| SystemHealth.DeductionFives | PROCESS/SYS_HEALTH.py:32-37 | the deduction is always a multiple of 5 |
| SystemHealth.DeductionOfRules | PROCESS/SYS_HEALTH.py:32-37 | the deduction is the sum of the six penalties of the rules that fire |
| SystemHealth.ScoreMonotone | PROCESS/SYS_HEALTH.py:31-38 | raising metrics never raises the score |
| SystemHealth.RaiseOneMetric | PROCESS/SYS_HEALTH.py:31-38 | raising one metric never raises the score |
| SystemHealth.SingleRulePenalty | PROCESS/SYS_HEALTH.py:31-38 | a rule that fires alone costs exactly its penalty |
| SystemHealth.InitialScore | PROCESS/SYS_HEALTH.py:31-38 | before any update the score is 100 |
| SystemHealth.MoodPenaltyOnce | PROCESS/SYS_HEALTH.py:35 | frustration and ache both high cost 15 once |
| SystemHealth.UsageExampleScore | PROCESS/SYS_HEALTH.py:56-58 | the usage example scores 100 |
| SystemHealth.WorstScore | PROCESS/SYS_HEALTH.py:31-38 | with every rule firing the score is 0 |
| TruthV2.New | python/python-process-lib/truth.py:7-13 | the checker keeps the last five remembered statements, or all of them when there are fewer, and starts with no findings |
| TruthV2.ClaimSpansOrdered | python/python-process-lib/truth.py:46 | the matches are disjoint, left to right, each a capital up to the first sentence mark after it; there is one exactly when a capital precedes a sentence mark |
| TruthV2.ClaimSpansLeftmost | python/python-process-lib/truth.py:46 | each match starts at the first capital after the previous match, and no capital followed by a sentence mark is left after the last |
| TruthV2.FindallUnique | python/python-process-lib/truth.py:46 | two ordered leftmost scans of a line are equal, so the spans are exactly what `re.findall` finds |
| TruthV2.LineClaimsAreMatches | python/python-process-lib/truth.py:46-48 | a line's claims are the texts of the pattern's leftmost matches, in order, tagged with the line number |
| TruthV2.LineClaims | python/python-process-lib/truth.py:46-48 | a line's claims carry its number and are well formed; there is one exactly when a capital precedes a sentence mark |
| TruthV2.ExtractClaims | python/python-process-lib/truth.py:42-49 | every claim is well formed and carries a line number from 1 to the number of lines |
| TruthV2.ExtractClaimsByLine | python/python-process-lib/truth.py:42-49 | the claims of each line number are exactly that line's claims, in order, and the line numbers never decrease |
| TruthV2.ExtractClaimsMembers | python/python-process-lib/truth.py:42-49 | a claim is extracted exactly when its line number names a line whose claims hold it |
| TruthV2.StripOfClaimIsIdentity | python/python-process-lib/truth.py:48 | stripping a match changes nothing |
| TruthV2.NegationFlipOpposes | python/python-process-lib/truth.py:77-80 | a negation on one side only opposes, in both orders, whatever the similarity |
| TruthV2.AntonymsOneWay | python/python-process-lib/truth.py:82-85 | the antonym test is one-directional: "blue" opposes "red" but not the reverse |
| TruthV2.HistHits | python/python-process-lib/truth.py:54-57 | a claim is recorded exactly as many times as there are remembered statements it contradicts, with no cap |
| TruthV2.AllHitsBound | python/python-process-lib/truth.py:53-57 | at most one contradiction per claim and remembered statement |
| TruthV2.AllHitsCount | python/python-process-lib/truth.py:53-57 | the recorded contradictions are exactly as many as the contradicting (claim, remembered statement) pairs |
| TruthV2.ReflectLoop | python/python-process-lib/truth.py:53-60 | contradictions are appended, unverified is all claims or none, and the score drops 18 and 12 per finding |
| TruthV2.Reflect | python/python-process-lib/truth.py:51-61 | the lists gain this call's findings, one contradiction per contradicting (claim, remembered statement) pair, and the score is 100 less their costs, clamped at 0 |
| TruthV2.GradeOf | python/python-process-lib/truth.py:28 | good at 85 or more, doubtful from 75, alarming below |
| TruthV2.Check | python/python-process-lib/truth.py:19-40 | the verify suggestion wins when anything is unverified and confidence is below 0.55; silence exactly when the score is at least 90 and no contradiction was ever recorded; otherwise a report with grade, counts, revise prompt below 75 and debug details |
| TruthV2.Decide | python/python-process-lib/truth.py:22-36 | given the findings and the score, the verify suggestion comes exactly when something is unverified under confidence below 0.55, silence exactly when otherwise the score is at least 90 with no contradiction, and a report with grade, counts, revise prompt and debug details in the remaining case |
| TruthV2.SuggestionSticks | python/python-process-lib/truth.py:22-23 | once a claim is unverified under low confidence, every later check suggests verifying |
| TruthV2.ContradictionSilencesNothing | python/python-process-lib/truth.py:25-26 | once a contradiction is recorded the checker is never silent again |
| TruthV4.New | PROCESS/TRUTH.py:10-18 | the checker keeps the last five remembered statements, or all of them when there are fewer, no findings, count 0 and no summary |
| TruthV4.SentenceClaims | PROCESS/TRUTH.py:124-127 | the kept sentences are stripped, longer than 15 characters and tagged with the line |
| TruthV4.SentenceClaimsAppend | PROCESS/TRUTH.py:124-127 | the claims of two runs of sentences are those of the first followed by those of the second, and one sentence gives one claim exactly when it is longer than 15 characters once stripped, so repeated sentences give repeated claims |
| TruthV4.SentenceClaimsMembers | PROCESS/TRUTH.py:124-127 | a claim is kept exactly when it carries the line number and is a sentence of the line, stripped, longer than 15 characters |
| TruthV4.LineClaims | PROCESS/TRUTH.py:119-127 | a skipped line has no claims; any other line's claims are the sentence claims of its stripped sentences; all are stripped, longer than 15 characters and carry its number |
| TruthV4.LineMembers | PROCESS/TRUTH.py:119-127 | a claim belongs to a line exactly when the line is not skipped and one of its sentences strips to the claim and is longer than 15 characters |
| TruthV4.ExtractClaims | PROCESS/TRUTH.py:116-128 | every claim is stripped, longer than 15 characters, and comes from a numbered line that is not skipped |
| TruthV4.ExtractClaimsByLine | PROCESS/TRUTH.py:116-128 | the claims of each line number are exactly that line's claims, in order, and the line numbers never decrease |
| TruthV4.ExtractClaimsMembers | PROCESS/TRUTH.py:116-128 | a claim is extracted exactly when its line exists, is not skipped, and has a sentence that strips to the claim and is longer than 15 characters |
| TruthV4.ClaimsOfLinesNotSkipped | PROCESS/TRUTH.py:118-121 | no claim comes from a blank line or one starting with `#`, a code fence or `>` |
| TruthV4.SkippedLineHasNoClaims | PROCESS/TRUTH.py:119-121 | a skipped line contributes no claim |
| TruthV4.AntonymClashSymmetric | PROCESS/TRUTH.py:166-171 | the antonym clusters are consulted in both directions |
| TruthV4.DissimilarOnlyAntonyms | PROCESS/TRUTH.py:160-177 | below similarity 0.65 only the antonym clusters can oppose |
| TruthV4.NoDigitsNoNumberFlip | PROCESS/TRUTH.py:174-177 | without digits on a side there is no number flip |
| TruthV4.NumbersFrom | PROCESS/TRUTH.py:174-175 | every number found starts with a digit, and there is none exactly when there is no digit |
| TruthV4.NumberLenMatches | PROCESS/TRUTH.py:174 | at a digit the match is the first alternative whenever four digits stand there, ten characters with a `-dd-dd` tail and four otherwise; else it is the longest decimal `\d+\.?\d*` |
| TruthV4.NumberSpansScan | PROCESS/TRUTH.py:174-175 | the number spans are a left-to-right scan: each starts at the first digit after the previous match and is the match there, and no digit follows the last |
| TruthV4.NumberScanUnique | PROCESS/TRUTH.py:174-175 | such a scan is determined by the text |
| TruthV4.NumbersFromScan | PROCESS/TRUTH.py:174-175 | the numbers are exactly the texts of the scan's spans, in order |
| TruthV4.AnyContradicted | PROCESS/TRUTH.py:144-148 | the inner loop finds a contradiction exactly when some remembered statement is contradicted |
| TruthV4.ContradictedExactly | PROCESS/TRUTH.py:143-148 | a claim is recorded exactly when it contradicts some remembered statement, at most once |
| TruthV4.Trunc | PROCESS/TRUTH.py:154 | `int` truncates toward zero |
| TruthV4.ReflectLoop | PROCESS/TRUTH.py:143-152 | the loop records the contradicted claims, all claims or none as unverified, and subtracts one penalty per finding |
| TruthV4.Reflect | PROCESS/TRUTH.py:130-154 | at most one contradiction per claim, unverified all or none, and the score is `max(0, int(100 - penalties))` |
| TruthV4.ReflectScoreBounds | PROCESS/TRUTH.py:143-154 | with non-negative doubt the score is at most 100, and exactly 100 when nothing is found |
| TruthV4.MoreFindingsLowerScore | PROCESS/TRUTH.py:143-154 | more findings never raise the score |
| TruthV4.GradeOf | PROCESS/TRUTH.py:59 | good at 88 or more, doubtful from 75, alarming below |
| TruthV4.BestHist | PROCESS/TRUTH.py:84 | the best match is a remembered statement, or "" when there is none |
| TruthV4.HistHitCount | PROCESS/TRUTH.py:190-191 | the count equals the history length exactly when every statement matches the pattern |
| TruthV4.DriftFrom | PROCESS/TRUTH.py:181-193 | a pattern is reported exactly when the output matches it and the history is empty or not all of it matches |
| TruthV4.ShowContradictions | PROCESS/TRUTH.py:83-87 | each shown contradiction keeps its line, the first 90 characters of the stripped claim, and the first 70 characters of the stripped best remembered statement when there is one |
| TruthV4.FullReport | PROCESS/TRUTH.py:75-114 | the report holds the score, grade, counts, the first three contradictions as previews, the first two drift issues, tension, the recommendation below 75 and the previous summary on repeat calls |
| TruthV4.Check | PROCESS/TRUTH.py:39-114 | the count rises by one; full mode exactly when escalated, repeated, in debug or triggered in the first 120 characters; the quick read and the last summary otherwise |
| TruthV4.Conclude | PROCESS/TRUTH.py:40-114 | once the reflection is known the count rises by one, the finding lists become exactly this call's, and the quick read or the full report is returned and remembered as the last summary |
| TruthV4.FreshLists | PROCESS/TRUTH.py:41-42 | the lists are cleared at the start of a call, so findings of earlier calls never change a call's result |
| TruthV4.ConcludeFresh | PROCESS/TRUTH.py:41-42 | two checkers that differ only in their finding lists conclude a call alike |
| TruthV4.RepeatCallIsFull | PROCESS/TRUTH.py:44-52 | every call after the first is in full mode and shows the previous summary |
| TruthV4.FirstCallIsQuick | PROCESS/TRUTH.py:44-52 | a fresh checker's first call without escalation, debug or trigger is quick |

## Left out

- `SequenceMatcher.ratio` is a parameter (`Difflib.Ratio`), so its algorithm is not modelled. The properties hold for every ratio function.
- The filler-word regular expression of `clean_chunk` is a parameter (`FillerFilter`). The other regular expressions are written out: punctuation collapse, whitespace squash, the sentence split, the claim pattern, `\w+` and the number pattern.
- The three identity-drift regular expressions of version 4 are a parameter (`DriftMatcher`).
- The complexity `sentences / (words / 100)` of `predict_load` is computed on exact reals rather than floating point. Its comparison with 0.8 is proved to be `125 * sentences > words`; at the boundary, where the two are equal, the float quotient rounds to the same 0.8, so the verdict is the same. Floating-point rounding near the boundary for texts of around 2^50 words or more is not modelled.
- `n ** 0.4` in the version 4 penalties is a parameter (`Root`), and the arithmetic is on exact reals rather than floating point.
- TruthV4.ReflectScoreBounds: assumes the emotional doubt is not negative, as it is for lattice readings in [0, 1]. Outside that range the source's penalties can be negative.
- Message strings, emoji and number formatting are replaced by outcome datatypes. One consequence: the "previous turn" that the merge message of both `pin` versions prints is already the new turn, and this is not represented.
- `get_raw` of PROCESS/SYS_HEALTH.py only formats the metrics, so it is not modelled.
- `fact_check_approve` of version 2 depends on Python's per-process string `hash`, which is not deterministic.
- `Text.Lower` folds ASCII letters only. `\w` and `\d` are ASCII classes. Whitespace is the full character set of `str.isspace`.
- ChunkSplitter.PredictLoad: requires a positive `max_chunk_words`, because the source divides by it and a limit of 0 fails there. A negative limit is left out as well, because the model's limit is a natural number. With one, the source's `max(1, …)` at PROCESS/CHUNK_SPLITTER.py:23 expects one chunk, and the split makes each sentence a chunk of its own.
- FileManager.SubstringHits: its own contract states soundness and when the list is empty. That every matching pin is listed once, in folder order, is the contract of FileManager.SubstringHitsExact.
- FileManager.OverviewLines: its own contract states soundness and that every non-empty folder is counted. The fixed order is the contract of FileManager.OverviewOrder.
- TruthV2.LineClaims: its own contract states soundness and when a line has claims. That the claims are exactly the pattern's matches is the contract of TruthV2.LineClaimsAreMatches, with TruthV2.ClaimSpansLeftmost and TruthV2.FindallUnique.
- TruthV2.ExtractClaims: its own contract states soundness. That every line's claims are extracted, under that line's number and in order, is the contract of TruthV2.ExtractClaimsByLine and TruthV2.ExtractClaimsMembers.
- TruthV4.SentenceClaims: its own contract states soundness. That every long enough sentence is kept, once for each time it occurs and in order, is the contract of TruthV4.SentenceClaimsAppend, with TruthV4.SentenceClaimsMembers for membership.
- TruthV4.ExtractClaims: its own contract states soundness. That the claims of each line number are exactly that line's `LineClaims`, in order, is the contract of TruthV4.ExtractClaimsByLine, and TruthV4.LineClaims with TruthV4.SentenceClaimsAppend fixes those; TruthV4.ExtractClaimsMembers states membership.
- TruthV4.NumbersFrom: its own contract states that the tokens start with digits and when there are none. That they are exactly the pattern's left-to-right matches is the contract of TruthV4.NumbersFromScan, with TruthV4.NumberSpansScan, TruthV4.NumberScanUnique and TruthV4.NumberLenMatches.
- PROCESS/FILE_MGR.py does not parse as Python: a `def` is mis-indented after a `return` at lines 154-156, and a stray `"""` ends line 183. The methods are modelled as the text reads them. `auto_pin`'s bare `return` is the "no pin" outcome.
- The standalone `pin` of python/python-process-lib/FILE_MGR.py takes `self` without a class. It is modelled on the same store shape as the class.
- Concurrency and the emotional lattice itself are out of scope.

## Findings

| source | as written | input that shows it | evidently intended | confidence | as-written member | corrected member |
|---|---|---|---|---|---|---|
| PROCESS/FILE_MGR.py:112-131 | `recall` appends an exact title hit, then the substring loop appends the same pin again, since a title contains itself | one pin titled "plan" under `/user`, `recall("plan")` | recall "plan", the only pin that matches | not executed | FileManager.RecallExactHitIsMultiple | FileManager.RecallUniqueMatch |
| PROCESS/FILE_MGR.py:113-117 | when the exact title's pin belongs to another thread, `continue` skips the rest of the folder, including the substring loop | `/archive/completed` holding "plan" of the main thread and "plan2" of thread "x", `recall("plan", "x")` | recall "plan2", the only pin of thread "x" that matches | not executed | FileManager.RecallBlockedPathAsWritten | FileManager.RecallMissIff |
