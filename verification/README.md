# MinIM: verified model of the message core

This project models four parts of the MinIM chat server in Dafny and proves what they promise.

**The sensitive-word filters** (`Text`, `Words`, `HitMerge`, `Matching`, `TrieShape`, `TrieFilter`,
`AhoCorasick`, `FilterLaws`, `Interchange`, `StarWords`). `DFAFilter` is a heap of trie nodes grown in place and
rescanned from every start position; `ACFilter` is an Aho-Corasick automaton in growing lists with a
breadth-first pass that reuses the tables of earlier loads. Both classes are proved against functions of
the dictionary and the text alone: `DfaOutput` masks exactly the positions covered by some word, `AcOutput`
masks the blocks that arise from the longest match per end position. `FilterLaws` says without these functions
what comes out: an output falls apart at every character that no word covers, which is written as it is, and
a text covered whole becomes one `***`. Texts that differ in case only are treated alike. The source says that the shared
merging step makes the two interchangeable. That is false in general ("b" and "abc" on the text "abc"),
and `InterchangeableExactly` gives the exact condition, which looks at the dictionary only: no word `v`
hides a *gap*, that is an end position `b` inside `v` where the longest word ending there starts behind the
beginning of `v` and no word inside `v` ends between that start and `b`. Dictionaries without nested words
meet it. `DifferenceTestExactly` does the same for "the output differs from the input" as a test for a hit
(used by `ACFilter.contains` and by the sensitive flag of a sent message): it is right on all texts if and
only if none of `*`, `**`, `***` is a word.

**Delivery** (`Outbox`, `Worker`, `WorkerRuns`, `Chat`, `Delivery`, `DeliveryRuns`, `Continuations`,
`DeliverySteps`, `SentRows`, `Repeats`, `RetryBound`, `OneWorker`, `EndToEnd`). One transaction writes a message, its outbox
row and the room's last message. `Delivery` is a state machine in which sends, inline dispatches, any number
of workers, other emitters, cleanup, failures and crashes interleave at the level of single statements and
Redis commands. `DeliveryRuns` states what every run keeps, `DeliverySteps` what single steps do to the fields
and that a dispatch which neither fails nor crashes announces its message and marks its row. Three things one would hope for are not kept, and
for each there is a run that shows it and a theorem that says exactly when it can happen, for every state
that satisfies the protocol invariant:

- a sent row can become a dead letter exactly while a worker holds a last attempt on it (`SentRows`);
- a message can be appended to the log again exactly while its row is pending or one of its dispatches has
  not pushed yet (`Repeats`);
- a pending row can use up its attempts, unless it stands at the last count but one and no attempt that has
  read less is running; a count can pass the limit exactly if the row is pending or enough last attempts are
  still running (`RetryBound`). Along a given run this happens exactly if some step writes a failure at the
  limit. `OneWorker` proves that such steps never occur while no two workers hold the same row.

`EndToEnd` follows a message to the members who reconnect. `WorkerRuns` treats one worker in whole rounds,
where back-off spacing, the exact number of attempts and the total amount of work can be stated.

**The replay log** (`EventLog`). With emitters that do not interleave, `replay` returns exactly the events
owed to a client within the last 1000 numbers. With interleaving emitters it stays sound; it is complete
for every client if and only if the list is in order of numbers, and two swapped pushes lose an event.

**Two small algorithms.** `RateLimit` characterises the sliding window exactly, rejected requests included.
It also shows that the advice given on a rejection is the least number of seconds until the oldest request
has left the window, but that waiting that long is not always enough, because the rejected request itself
counts; `AdviceSufficesExactly` says when it is. `Pages` follows the history cursor while messages arrive
and are recalled between pages.

Conventions: a class whose fields the program updates is a class here, with its methods proved against
functions on values; the functions carry the laws. Real numbers stand for timestamps. An exception raised
by a statement becomes a parameter (`Fault`, `Outcome`) or a step (`Fail`, `Crash`). A branch that the code
guards but can never take is written as `assert false`, which proves that it is dead: the self-link guard of
the breadth-first pass, and the missing oldest entry of the limiter.

Where the code and its documents differ, the model follows the code. `docs/11` checks `retry_count >=
MAX_RETRY` after a retry was written; the code sends a row to the dead letters when `retry_count + 1 >=
MAX_RETRY`, so the fifth failure is the last attempt. The comment on `_replace_hits` and section 4 of
`docs/perf/sensitive-benchmark.md` say that both filters always give the same output.

## Model

| member | source | states |
|---|---|---|
| Text.NormalisedAppend | app/security/sensitive.py:69-77 | what several loads contribute is the union of what each contributes, so splitting, reordering or repeating loads gives the same dictionary |
| Text.NormalisedExact | app/security/sensitive.py:70-73 | a load contributes exactly the normalised words of which something is left |
| Text.NormaliseExact | app/security/sensitive.py:71 | a normalised word is the lower-case form of a middle piece: only white space is cut off at the ends, and none is left there |
| Text.LowerExact | app/security/sensitive.py:81 | lowering turns codes 65 to 90 into the code plus 32, leaves all else alone and leaves no capital |
| Text.LowerSameExactly | app/security/sensitive.py:81 | two texts have the same lower-case form if and only if they have equal length and differ in case only |
| Matching.CaseIgnored | app/security/sensitive.py:96-97 | texts that differ in case only have the same hits and the same masked positions in both filters |
| Words.LongestIsMaximal | app/security/sensitive.py:157-161 | no suffix of the text that is a trie path is longer than the one the automaton remembers |
| Words.LongestStep | app/security/sensitive.py:178-181 | after one more character the longest path suffix depends only on the current node, not on the text before it |
| Words.LongestFail | app/security/sensitive.py:179-180 | when a node cannot read a character, its fail target gives the same longest path suffix |
| Words.SuffixSeenAtNode | app/security/sensitive.py:123-126 | no word ending here is lost by remembering only the node |
| Words.ChildValues | app/security/sensitive.py:157-165 | fail target and longest match of a child follow from its parent's fail target |
| HitMerge.MergeShape | app/security/sensitive.py:46-51 | for hits in any order the merged blocks are in text order with a gap between neighbours |
| HitMerge.MergeInside | app/security/sensitive.py:46-51 | merging never masks a position outside the hits |
| HitMerge.BlockHoldsHit | app/security/sensitive.py:46-51 | every block begins where one of its hits begins and contains that hit whole |
| HitMerge.SortedStartsKeepAll | app/security/sensitive.py:46-51 | hits ordered by start are masked completely, so overlapping and adjacent ones fuse |
| HitMerge.RenderIsMask | app/security/sensitive.py:53-60 | rewriting separated blocks equals the reference rewriting: each maximal masked run becomes one replacement, all else survives in order |
| HitMerge.MaskRun | app/security/sensitive.py:53-60 | a maximal run of masked positions is written as one replacement |
| HitMerge.MaskKeeps | app/security/sensitive.py:53-60 | unmasked characters are written as they are, in order |
| HitMerge.FuseHits | app/security/sensitive.py:46-51 | the merging loop computes the merge function |
| HitMerge.WriteOut | app/security/sensitive.py:53-60 | the output loop yields the reference rewriting of the blocks' positions |
| HitMerge.ReplaceHits | app/security/sensitive.py:36-60 | for hits in any order the result is the reference rewriting of the merged positions |
| Matching.StartHitsExact | app/security/sensitive.py:99-112 | the trie's hits are exactly the longest occurrence for each start position |
| Matching.EndHitsExact | app/security/sensitive.py:176-184 | the automaton's hits are exactly the longest occurrence for each end position |
| Matching.SameCoverage | app/security/sensitive.py:92-117 | hits per start, hits per end and all occurrences cover the same positions, for every dictionary and text |
| Matching.DfaMasksCoverage | app/security/sensitive.py:92-117 | merging the trie's hits masks exactly the covered positions |
| Matching.AcMaskedCovered | app/security/sensitive.py:171-185 | the automaton masks only covered positions |
| Matching.AcKeepsEnds | app/security/sensitive.py:171-185 | the last character of every occurrence is masked by the automaton |
| Matching.LastBlock | app/security/sensitive.py:46-51 | after every end position the automaton's last block was opened by a longest match before which no word ended at or behind its start |
| TrieShape.Grow | app/security/sensitive.py:144-148 | adding a node under a node keeps one node per path and one path per node |
| TrieShape.FrontierStep | app/security/sensitive.py:153-157 | taking a node off the queue and appending its children keeps the breadth-first order: two levels, no node of the first level missing, none twice |
| TrieShape.FrontierEnd | app/security/sensitive.py:153-157 | when the queue is empty every node has been visited |
| TrieFilter.DFAFilter.constructor | app/security/sensitive.py:64-67 | a new filter holds the dictionary of its initial words |
| TrieFilter.DFAFilter.Load | app/security/sensitive.py:69-78 | load adds the normalised non-empty words to the dictionary and keeps a node for exactly its paths |
| TrieFilter.DFAFilter.Walk | app/security/sensitive.py:74-76 | walking a word creates exactly the missing prefixes and ends at its node |
| TrieFilter.DFAFilter.SetDefault | app/security/sensitive.py:76 | the existing child, or a fresh empty one linked under its character |
| TrieFilter.DFAFilter.Contains | app/security/sensitive.py:80-90 | true if and only if some dictionary word occurs in the lowered text |
| TrieFilter.DFAFilter.LongestFrom | app/security/sensitive.py:103-110 | the end of the longest word beginning at a position, or -1 |
| TrieFilter.DFAFilter.Filter | app/security/sensitive.py:92-117 | the output is the reference rewriting of the covered positions |
| AhoCorasick.ACFilter.constructor | app/security/sensitive.py:128-133 | a new automaton is complete for the dictionary of its initial words |
| AhoCorasick.ACFilter.Load | app/security/sensitive.py:135-166 | after any number of loads, old nodes and stale tables included, the automaton is complete for all words loaded so far |
| AhoCorasick.ACFilter.Insert | app/security/sensitive.py:140-150 | adding a word keeps the trie and leaves only admissible stale values |
| AhoCorasick.RightIsStale | app/security/sensitive.py:152-165 | tables of an earlier pass are an admissible starting point for the next |
| AhoCorasick.ACFilter.Advance | app/security/sensitive.py:158-161 | following fail links ends at the longest path suffix after the character, and every link gives up one level of depth |
| AhoCorasick.ACFilter.Link | app/security/sensitive.py:156-165 | a child gets its right fail link and out value, and never links to itself |
| AhoCorasick.ACFilter.Relink | app/security/sensitive.py:152-166 | the breadth-first pass terminates and makes every node right, in any order of a node's children |
| AhoCorasick.ACFilter.FailMeaning | app/security/sensitive.py:123-125 | a fail link leads to the longest proper suffix of the node's path that is a path |
| AhoCorasick.ACFilter.OutMeaning | app/security/sensitive.py:123-126 | an out value is the length of the longest word that is a suffix of the node's path, 0 without one |
| AhoCorasick.ACFilter.Scan | app/security/sensitive.py:175-184 | the hits are the longest match per end, the node is the longest path suffix of the scanned text, and at most one fail link per character is followed in total |
| AhoCorasick.ACFilter.Filter | app/security/sensitive.py:171-185 | the output is the rewriting of the automaton's blocks |
| AhoCorasick.ACFilter.Contains | app/security/sensitive.py:168-169 | true if and only if the output differs from the text |
| FilterLaws.OutputSplits | app/security/sensitive.py:92-117 | a character at which no word sits is written as it is, case included, and what stands before and behind it is filtered as if it stood alone |
| FilterLaws.OutputWhole | app/security/sensitive.py:53-60 | a text all of whose characters belong to words becomes one `***` |
| FilterLaws.AcOutputSplits | app/security/sensitive.py:171-185 | the automaton's output falls apart at uncovered characters in the same way |
| Interchange.ReachingBackIsGap | app/security/sensitive.py:47-49 | a hit that starts before the block it is fused into spells a dictionary word with a gap |
| Interchange.GapShows | app/security/sensitive.py:47-49 | a word with a gap is itself a text on which the two filters differ |
| Interchange.InterchangeableExactly | app/security/sensitive.py:29-42 | the two filters agree on every text if and only if no dictionary word hides a gap |
| Interchange.NoNestingInterchangeable | app/security/sensitive.py:29-42 | dictionaries in which no word lies strictly inside another are interchangeable on every text |
| Interchange.NestedWordsDiffer | app/security/sensitive.py:36-42 | with "b" and "abc" the text "abc" gives `***` from the trie and `a***` from the automaton |
| StarWords.OutputsClean | app/security/sensitive.py:92-117 | if words have stars only inside and at most two together, neither output contains a dictionary word |
| StarWords.StarWordSurvives | app/security/sensitive.py:92-117 | with the word "a*", which ends in a star, the output for "aa*" contains "a*" again |
| StarWords.FiltersIdempotent | app/security/sensitive.py:92-117 | with such words filtering twice is filtering once, for both filters |
| StarWords.StarFreeClean | app/security/sensitive.py:92-117 | both hold in particular for words without any star |
| StarWords.HitShows | app/security/sensitive.py:168-169 | without words of one to three stars a hit always changes the text |
| StarWords.DifferenceTestExactly | app/security/sensitive.py:168-169 | "output differs from input" detects hits on all texts if and only if none of `*`, `**`, `***` is a word |
| Outbox.OutboxTable.Create | app/repositories/outbox_repo.py:13-18 | a new pending row, never tried and created now, under an unused id |
| Outbox.OutboxTable.ListPending | app/repositories/outbox_repo.py:20-33 | due pending rows in ascending id, and a due row is missing only if the batch is full of smaller ids |
| Outbox.BatchExact | app/repositories/outbox_repo.py:20-33 | the same with the numbers: at most 100 rows, pending, never tried or with their time reached |
| Outbox.OutboxTable.SetSent | app/repositories/outbox_repo.py:35-41 | sets sent whatever the old status, a missing id changes nothing |
| Outbox.OutboxTable.SetRetry | app/repositories/outbox_repo.py:43-60 | counts and postpones only a pending row |
| Outbox.OutboxTable.SetDeadLetter | app/repositories/outbox_repo.py:62-71 | sets dead and counts whatever the old status |
| Outbox.OutboxTable.DeleteSentOlderThan | app/repositories/outbox_repo.py:73-85 | removes exactly the sent rows older than the limit and returns their number |
| Worker.OutboxWorker.ProcessOnce | app/tasks/outbox_worker.py:49-87 | one round: every listed record is handled from the values read at the start; the result is the number of records of messages whose dispatch was recorded |
| Worker.Pow2Doubles | app/tasks/outbox_worker.py:75 | back-off is 1 for no failure and doubles with each: 1, 2, 4, 8 |
| Worker.OutboxWorker.CleanupSent | app/tasks/outbox_worker.py:89-96 | cleanup removes exactly the sent rows created more than 604800 seconds ago and returns their number |
| WorkerRuns.RoundIsProcessOnce | app/tasks/outbox_worker.py:52-84 | a round changes each listed row once and no other row |
| WorkerRuns.RoundExactly | app/tasks/outbox_worker.py:54-84 | what a round does to a listed row, in numbers: sent on delivery or unknown topic, dead at the fifth failure, else counted and due 1, 2, 4 or 8 seconds later |
| WorkerRuns.RoundElsewhere | app/tasks/outbox_worker.py:52-84 | rows outside the batch stay as they are |
| WorkerRuns.OtherActsExact | app/repositories/outbox_repo.py:13-85 | beside the rounds a send adds a pending row, an inline dispatch marks its row sent, cleanup removes the sent rows older than 604800 seconds |
| WorkerRuns.HandledFits | app/tasks/outbox_worker.py:60-84 | one attempt keeps count, due time and status consistent with the attempts made |
| WorkerRuns.RetryPromises | app/tasks/outbox_worker.py:60-84 | over every run the attempts determine status and count of a row: at most five, all but the last raised; dead exactly after five without a recorded delivery, sent after a delivery; a pending row is due 1, 2, 4, 8 seconds after its first to fourth failure; five attempts are polled over at least 15 seconds |
| WorkerRuns.FifteenSecondsAttained | app/tasks/outbox_worker.py:66-84 | the bound is attained: a run in which a row dies at its fifth attempt, 15 seconds after its first |
| WorkerRuns.BatchSpends | app/tasks/outbox_worker.py:52-84 | every handled record takes at least one unit from the attempts left over all pending rows |
| WorkerRuns.WorkIsBounded | app/tasks/outbox_worker.py:52-84 | without new sends the records handled plus the attempts left never exceed the attempts left at the start |
| WorkerRuns.WorkEnds | app/tasks/outbox_worker.py:52-84 | after the last send n row ids absorb at most 5 n further attempts |
| EventLog.PushService.Emit | app/services/push_service.py:72-86 | an emit appends the event with the next number and keeps the newest 1000 |
| EventLog.PushService.Replay | app/services/push_service.py:58-70 | exactly the user's events newer than its position and within the last 1000 numbers, oldest first |
| EventLog.SequentialReplay | app/services/push_service.py:58-84 | without interleaving the list has consecutive descending numbers and replay is a filter of the whole history |
| EventLog.ReplayExact | app/services/push_service.py:58-70 | what a user gets is, in ascending numbers, exactly kind, number and data of the pushed events that are addressed to it, newer than its position and among the last 1000 numbers |
| EventLog.OwedExactly | app/services/push_service.py:63-70 | an envelope is owed if and only if some pushed event has its kind, number and data, is newer than the position and addressed to the user |
| EventLog.SinceAscends | app/services/push_service.py:69 | replayed events come in the order of their numbers |
| EventLog.TrimExact | app/services/push_service.py:84 | a trim cuts the list to its newest 1000 events |
| EventLog.ReplayCompleteExactly | app/services/push_service.py:63-69 | replay is complete for every user and position if and only if no event with an audience lies behind a smaller number |
| EventLog.BusStep | app/services/push_service.py:75-84 | interleaved INCR, LPUSH and LTRIM keep numbers unique and the list the newest part of the history |
| EventLog.ReplaySoundInEveryRun | app/services/push_service.py:58-84 | under every interleaving replay returns only pushed events owed to the user, each once |
| EventLog.OrderedPushesComplete | app/services/push_service.py:58-70 | if pushes land in order of numbers replay returns exactly the user's newer events among the newest 1000 of the whole history, oldest first |
| EventLog.SwappedPushesLose | app/services/push_service.py:63-69 | two swapped pushes make replay drop an event |
| Chat.MessageService.Send | app/services/message_service.py:47-78 | message, outbox row and last message are written together or not at all; the stored text is the filtered one, contains no word where stars stand only inside words, and the flag says whether it differs |
| Delivery.StepKeepsInv | app/services/push_service.py:25-46 | every step of every process keeps the protocol invariant, so each message keeps its own row until announced and the missing-message branch is never taken |
| DeliverySteps.SendBegins | app/services/message_service.py:57-78 | a send commits the message with its own pending row and starts the inline dispatch for both |
| DeliverySteps.PollBegins | app/tasks/outbox_worker.py:52-63 | a due row of a message can be taken, and the attempt carries the count read then |
| DeliverySteps.MarkedIsSent | app/services/push_service.py:45-46 | a dispatch at its mark, inline or of a worker, leaves its row sent and no other row changed |
| DeliverySteps.FailureIsWritten | app/tasks/outbox_worker.py:65-84 | a failure makes the row dead after a count of four or more, else a pending row is counted and due 1, 2, 4 or 8 seconds later |
| DeliverySteps.CleanupExact | app/repositories/outbox_repo.py:73-85 | cleanup removes exactly the sent rows created more than 604800 seconds ago |
| DeliverySteps.UndisturbedMarks | app/services/push_service.py:25-46 | an attempt that is over without having failed or crashed has announced its message, and its row is never pending again, whatever else goes on |
| DeliverySteps.InlineDispatchMarks | app/services/message_service.py:80-84 | the same for the inline dispatch of a send |
| DeliverySteps.InlineCanFinish | app/services/message_service.py:80-84 | after every send the inline dispatch can run to its end, with the message announced and its row sent |
| DeliveryRuns.NothingLost | app/services/message_service.py:47-84 | in every reachable state a committed message is announced, or its own row is pending or dead |
| DeliveryRuns.SentMeansAnnounced | app/services/push_service.py:36-46 | a sent row has been announced, only committed messages are announced, and a room's last message is its newest |
| DeliveryRuns.ClientsGetOwedEventsOnce | app/services/push_service.py:58-70 | in every reachable state a client replays only events owed to it, each once |
| DeliveryRuns.RowsMoveForward | app/repositories/outbox_repo.py:35-85 | no step returns a row to pending, lowers its count or deletes a row that is not an expired sent one |
| DeliveryRuns.NeverBackToPending | app/repositories/outbox_repo.py:35-85 | over any stretch of a run a row never returns to pending, loses no retry and keeps its topic, message and creation time; it is only deleted more than seven days after its creation |
| DeliveryRuns.GoneForever | app/repositories/outbox_repo.py:73-85 | a deleted row never comes back |
| DeliveryRuns.StepOnRow | app/repositories/outbox_repo.py:35-71 | each step writes one failure into a row, raising its count by one and setting dead or pending, or leaves the count alone and the status alone or sent |
| SentRows.SentLostExactly | app/repositories/outbox_repo.py:62-71 | a step takes a kept row out of sent if and only if it writes the failure of a last attempt |
| SentRows.SentCanDieExactly | app/repositories/outbox_repo.py:62-71 | some continuation takes a sent row out of sent if and only if a worker still holds a last attempt on it |
| SentRows.SentRowDeadLettered | app/tasks/outbox_worker.py:60-84 | a reachable run in which the last attempt is announced and recorded and the row still becomes a dead letter |
| Repeats.AppendedExactly | app/services/push_service.py:72-86 | a step adds to the number of events for a message, by one, if and only if it is the push of a dispatch of that message |
| Repeats.AppendableExactly | app/services/push_service.py:25-46 | some continuation appends a committed message (again) if and only if its row is pending or one of its dispatches has not pushed yet |
| Repeats.AppendedAnyNumberOfTimes | app/services/push_service.py:25-46 | while its row is pending a message can be appended any number of times by workers that crash between push and mark, with table and running jobs as before |
| Repeats.AppendedTwice | app/services/push_service.py:36-46 | a reachable state in which one message is in the log twice |
| RetryBound.OvershootStepExactly | app/repositories/outbox_repo.py:43-60 | a step leaves a row pending with its attempts used up if and only if it writes the failure of an attempt that has read a smaller count |
| RetryBound.PastMaxStepExactly | app/repositories/outbox_repo.py:43-71 | a step takes a count past the limit if and only if it writes a failure into a row that stands at it |
| RetryBound.RaisedExactly | app/tasks/outbox_worker.py:66-84 | along any run a count ends above a limit if and only if some step of the run wrote a failure at that limit; for rows that end pending, one of an attempt that had read less |
| RetryBound.OvershootPossibleExactly | app/tasks/outbox_worker.py:66-84 | some continuation leaves a row pending with its attempts used up if and only if the row is pending and does not stand at the last count but one, or an attempt that has read less still runs |
| RetryBound.PastMaxPossibleExactly | app/tasks/outbox_worker.py:66-84 | some continuation takes a count past the limit if and only if the row is pending or its count plus the last attempts still running exceed the limit |
| RetryBound.TwoWorkersOvershoot | app/repositories/outbox_repo.py:43-60 | a reachable state in which a pending row has no attempts left |
| EndToEnd.EventsAddressMembers | app/services/push_service.py:34-41 | in every reachable state each message event addresses exactly the members of the message's room |
| EndToEnd.MembersGetMessages | app/services/push_service.py:34-70 | while the kept list is in order, an unseen message event in it reaches a reconnecting user if and only if the user is a member of the room |
| EndToEnd.PendingCanBeAnnounced | app/repositories/outbox_repo.py:10-11 | from every reachable state a message whose row is pending can still be announced |
| OneWorker.ExclusiveNeverRaises | app/tasks/outbox_worker.py:66-84 | while no two workers hold the same row, the steps that break the bound never occur |
| OneWorker.RetryBoundHolds | app/tasks/outbox_worker.py:66-84 | if no two workers hold the same row, no interleaving, failure or crash takes a row past the retry limit |
| RateLimit.SlidingWindow.Record | app/security/rate_limit.py:47-51 | the expiring, pruned set always equals the full request history restricted to the window |
| RateLimit.SlidingWindow.Hit | app/security/rate_limit.py:45-58 | 0 exactly when the window holds at most the limit, otherwise the advice, which lies between 1 and the window |
| RateLimit.SlidingWindow.Enforce | app/security/rate_limit.py:70-96 | admits exactly when the window holds at most the limit and otherwise reports the advice |
| RateLimit.RetryAfterLeast | app/security/rate_limit.py:54-58 | the advice is the least whole number of seconds after which the oldest request has left the window |
| RateLimit.AdmitExactly | app/security/rate_limit.py:45-58 | request k is admitted exactly when it is among the first requests or a window later than the one `limit` places before it; with a limit of zero or less never |
| RateLimit.OldestIsEarliest | app/security/rate_limit.py:54-58 | the advice starts from the earliest request still in the window |
| RateLimit.NeverMoreThanLimit | app/security/rate_limit.py:45-53 | no interval of the window's length holds more than `limit` admitted requests |
| RateLimit.SilenceRecovers | app/security/rate_limit.py:45-53 | a caller silent for a window is admitted |
| RateLimit.AdviceSufficesExactly | app/security/rate_limit.py:54-58 | after waiting as advised, counted from the oldest request in the window, the next request is admitted if and only if one further, named request has left the window too |
| RateLimit.AdviceCanFail | app/security/rate_limit.py:54-58 | a caller that waits as advised is rejected again |
| Pages.PageExact | app/repositories/message_repo.py:52-73 | a page holds the newest normal messages of the room below the cursor in descending order, at most 50 and at most as many as asked for; it is full and carries its last id as cursor exactly when such messages are left |
| Pages.ListingStable | app/repositories/message_repo.py:61-67 | later messages and recalls do not change the listing below the ids already handed out |
| Pages.SendEvolves | app/repositories/message_repo.py:15-37 | a send only adds a message with a larger id |
| Pages.RecallEvolves | app/repositories/message_repo.py:85-92 | a recall sets the kind to 2 and changes nothing else, so every message stays as visible as before |
| Pages.WalkExact | app/repositories/message_repo.py:52-73 | following the cursor yields normal messages of the room that were there at the first fetch, once, strictly descending, all of them exactly when the cursor is null, in at most one page per message |
| Pages.WalkCompletes | app/repositories/message_repo.py:66-73 | from any cursor following the next cursor reaches a page without one |

## Left out

- StarWords.OutputsClean: one direction only; whether a word that begins or ends with a star or holds three stars together can be put together again from kept characters and replacements depends on how it overlaps itself and all other words, and no condition simpler than that statement itself was found.
- Text.NormalisedAppend: `strip()` and `lower()` are modelled on ASCII; Unicode lowering can change a string's length, which would shift hit positions.
- TrieFilter.DFAFilter.SetDefault: the `"__end__"` key is a boolean of the node, since keys of one character cannot collide with it.
- AhoCorasick.ACFilter.LinkChildren: the children of a node are visited in any order, where a Python dictionary has insertion order; it returns the children it appends to the queue.
- Chat.MessageService.Send: message type, reply and extra fields are carried as one number or dropped; audit records are I/O.
- Worker.OutboxWorker.ProcessOnce: the dispatcher is a given outcome per record; an exception inside the exception branch ends the round and is modelled in `Delivery` only.
- Delivery.StepKeepsInv: committed transactions and single Redis commands are atomic steps; workers are not bound to the order and size of a batch, which allows more runs than the code. The continuations in `SentRows`, `Repeats` and `RetryBound` range over these runs.
- EndToEnd.EventsAddressMembers: room members do not change; joining and leaving are left out with the group functions.
- WorkerRuns.RetryPromises: an inline dispatch that marks a row (one already created) in the middle of a round appears in `Delivery`, not here.
- RateLimit.SlidingWindow.Hit: exact times that never go back; clock skew, float rounding, the fail-open switch and the decorator are not modelled, and the window is positive.
- Pages.WalkExact: ids are below the next id to be given out and new messages get ids above all earlier ones, as in one sequence whose transactions commit in order; ids stand for the messages and cursors are numbers instead of strings.
- Socket delivery, heartbeats, authentication, files, friends, groups, marks and read positions are I/O, data declarations or one-step guards.
- The overlap of live pushes and replay while a client reconnects, about which the code claims nothing.
