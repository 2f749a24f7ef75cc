# Verified models of the strus web service

This project models the parts of the strus web service whose correctness is not
visible from a single function, and proves what they promise. To verify it:

    dafny verify dfyconfig.toml

## What is modelled

**Requests, maintenance halt and delegates** (`src/`). A global counter holds the
running requests. A request that needs exclusive access is parked in a list, under
a mutex, and sets a flag that turns new requests away. The request that brings the
counter to zero tests the flag and drains the list. A request may also hand out
batches of delegate requests; their answers arrive later, may fail, and may give
rise to further batches.

- `Delegates` is the protocol of one exchange: the issuing loop with its jump back,
  the counter shared by the receivers of a batch, the answers in any order. `Chain`
  says what a batch is meant to do without any counter.
- `DelegateOutcomes` says what an answer leads to by its status, over whole exchanges.
- `DelegateContext` has the same as objects: receivers, their shared counter, the
  loop as a method, and a whole exchange of receivers and answers.
- `RequestMachine` is the fine grain: the flag test, the increment, the decrement,
  the second flag test, the lock, every turn of the drain and the unlock are steps
  of their own. What `execute`, the delegates and the other servers do is part of
  the label of a step, so a statement about all runs covers everything they may do.
- `RequestResponses` says for every response of a run which step reported it and why.
- `RequestProgress` shows that the steps run out, and not before every request is answered.
- `ExclusiveAccess` is the coarse grain: admission (test and increment) and the end of
  a request (decrement and test) are one step each. It also says which steps of the
  fine grain break exclusion.
- `ServiceClosure` has the counter, the flag and the list as fields, with the methods
  of the service closure and `runRequest` proved against the machine.

**Queries** (`src.old/query.hpp`). `Query` emits term, expression and feature trees as
postfix code and runs the code on a stack machine; `QueryJson` prints the trees as
JSON values (`JsonValues`) and reads them back.

**Configuration references** (`src/configUtils.cpp`). `ConfigScanner` is the scanner for
`{ name }` with a grammar that says what it finds, `ConfigDepartures` where it departs from
that. `ConfigTree` has positions and lookup in a configuration tree, `ConfigPaths` says where a
name with dots leads and what a reference in a text becomes, and `ConfigOrder` what
becomes of a tree that is substituted in place while it is also the tree the references are
looked up in; `ConfigInPlace` is the recursion that does it.

**Transactions of an index** (`src.old/`). `Transactions` has the commands on the map of
named transactions and the handles of the storage, and a simple machine in which a
named transaction is a list of operations and handles do not exist.
`TransactionRuns` proves the first refines the second over every run. `TransactionLaws` says
on the fields of documents what commands and whole transactions leave in the content.
`TransactionRegistry` has the commands as methods on fields, with the loops over token
positions, over the listed transactions and of the sweep. `IdleSweep` bounds the time
an idle transaction lives.

**Logger** (`src/webRequestLogger.cpp`). `LogLine` composes a line in a fixed buffer, cuts
it with dots and squeezes its blanks in place; `ThreadSlots` claims a slot for each
thread, with every access to a flag or an id as a step of its own.

**Forms as JSON** (`src/applicationImpl.cpp`). `FormJson` prints a posted form and groups
repeated keys; `JsonText` reads strings (section 7 of RFC 8259), arrays and objects;
`FormRoundTrip` connects the two.

**Small loops**. `MergeParameters` merges explicit create parameters of an index with the
defaults (`src.old/index.cpp`); `ErrorMessage` lays out a start-up error message
(`src/strusWebService.cpp`). `Sequences`, `CStrings` and `Options` are what several modules share.

## Where the code does not do what it is for

In these places the code is modelled as it is written and as it is evidently meant, and
a lemma says for which inputs the two agree.

- `src/webRequestDelegateContext.cpp:81` resets the counter of a follow-up batch to the
  size of the original batch: `Delegates.IssueAsWritten`; `Delegates.ResetMisfits` is a batch
  where that differs.
- `src/applicationImpl.cpp:328`, `333` and `338` ignore that an exception may bring the
  counter to zero: `RequestMachine.ThrowLosesWakeup` for a step,
  `RequestMachine.WakefulExactly` for runs, `RequestMachine.ExceptionLeavesParkedRequest` a run,
  `RequestMachine.LostForever` what follows.
- `src/applicationImpl.cpp:209` and `212` append from the wrong pointers:
  `FormJson.EncodeAsWritten`.
- `src/configUtils.cpp:94` and `97` skip blanks past the terminating NUL:
  `ConfigDepartures.WrittenExactly`; `ConfigDepartures.PastTheEnd` has two strings.
- `src.old/strusIndexContext.cpp:72` erases the element its iterator stands on:
  `IdleSweep.SweepAsWrittenDefined`; `IdleSweep.UndefinedSweepIsReached` is a run that gets there.
- `src.old/document.cpp:209-220` leaves the implicit transaction of a refused document
  unfinished: `TransactionRuns.MapHoldsTheLive`; `TransactionRuns.LeakHappens` is such a document.
- `src/webRequestLogger.cpp:354` marks a line as cut that would have fitted:
  `LogLine.LineKeepsText`.
- `src/webRequestLogger.cpp:449` keeps seven digits of a slot number:
  `ThreadSlots.LabelsDistinct`. Line 28 overflows for 10^9 slots and line 131 uses a slot that
  was not allocated for none: `ThreadSlots.NofSlotsPow`, `ThreadSlots.Logger.constructor`.
- Flag test and increment are two steps (`src/applicationImpl.cpp:351`, `261`), and so are
  decrement and flag test, so a request can run during a drain: `ExclusiveAccess.SoloStepExactly`
  for a step, `ExclusiveAccess.SoloExactly` for runs, `ExclusiveAccess.FineGrainOverlaps` a run.
- References that refer to references are substituted or not depending on the order of the
  members: `ConfigOrder.InPlaceExactly`, and by names `ConfigOrder.InPlaceByReferences`;
  `ConfigOrder.BackwardChainDiffers` and `ConfigOrder.ForwardChainAgrees` are a tree each.
- A malformed reference can hide a well-formed one behind it: `ConfigDepartures.HiddenExactly`;
  `ConfigDepartures.HiddenReference` is a string.

## Model

| member | source | states |
|---|---|---|
| Delegates.IssueRefinesChain | src/webRequestDelegateContext.cpp:18-98 | for every batch, the counting loop with its jump back does what handling the batches of the chain one after the other does; the "race: bad counter value" branch is never taken |
| Delegates.IssueAsWritten | src/webRequestDelegateContext.cpp:78-83 | with the reset as written this holds if and only if every batch the loop feeds to itself has the size of the original one or fails before that many of its delegates were fed back |
| Delegates.MisfitDiffers | src/webRequestDelegateContext.cpp:59-84 | a batch of another size that does not fail in time is handled differently |
| Delegates.ResetMisfits | src/webRequestDelegateContext.cpp:78-84 | one delegate fed back whose answer gives rise to two more does not fit |
| Delegates.IssueIsSound | src/webRequestDelegateContext.cpp:24-98 | issuing any batch leaves the exchange open with the counter equal to the receivers waiting and no node lost, or closed with exactly one response |
| Delegates.AnswerIsSound | src/webRequestDelegateContext.cpp:138-177 | every answer, in any order and of any kind, keeps this; an answer to a closed exchange changes nothing |
| Delegates.ExchangeIsSound | src/webRequestDelegateContext.cpp:18-177 | the batch invariant holds in every reachable state of an exchange, chained batches included |
| Delegates.CompletedMeansAllPut | src/webRequestDelegateContext.cpp:72-76 | the final answer is reported only after every delegate of every batch was put, once each, and nobody waits any more |
| Delegates.ExchangeTerminates | src/webRequestDelegateContext.cpp:125-136 | no more answers meet an open exchange than the forest of delegates has nodes; the unanswered nodes are what is left of it |
| DelegateOutcomes.AnswerOutcome | src/webRequestDelegateContext.cpp:156-177 | an answer to an open batch that is an error or has a status outside 200 to 299 is rejected and closes the batch; any other is put if the context accepts it, and else refused |
| DelegateOutcomes.RejectedExactly | src/webRequestDelegateContext.cpp:138-177 | an exchange ends in a rejection, and then never with a final answer, if and only if such an answer met it open |
| DelegateOutcomes.ExchangeTells | src/webRequestDelegateContext.cpp:18-177 | over every exchange no event misreports what was done with its delegate, and only delegates that were sent wait |
| DelegateOutcomes.FailedIsNotPut | src/webRequestDelegateContext.cpp:171-175 | a 404 to a batch of one ends the exchange without a put |
| DelegateContext.Exchange.IssueDelegateRequests | src/webRequestDelegateContext.cpp:18-98 | the loop over iterators with its jump back, on the shared counter and the receivers handed out, ends in the state of the protocol function, for both resets |
| DelegateContext.Exchange.Feed | src/webRequestDelegateContext.cpp:57-84 | a delegate without URL is fed back, decrements, and at zero fetches the follow-ups or completes |
| DelegateContext.Receiver.PutAnswer | src/webRequestDelegateContext.cpp:156-177 | a receiver's answer changes counter, collected follow-ups, responses and handed-out receivers as the protocol says, and new receivers share one new counter; an error or a status outside 200 to 299 is rejected; a closed batch is left alone |
| DelegateContext.Receiver.HandleSuccess | src/webRequestDelegateContext.cpp:125-136 | the last answer of a batch completes the response, or issues the follow-ups with a new counter |
| DelegateContext.Receiver.HandleFailure | src/webRequestDelegateContext.cpp:138-154 | a failure finishes the response and clears the counter |
| DelegateContext.Receiver.constructor | src/webRequestDelegateContext.hpp:29-40 | a receiver shares the counter of its batch and remembers its value |
| DelegateContext.Exchange.Deliver | src/webRequestDelegateContext.cpp:125-177 | the answer for any waiting receiver takes all receivers, their counters and the exchange together to the next state of the protocol; every other receiver still shares the open counter or one that is used up |
| DelegateContext.Exchange.Serve | src/webRequestDelegateContext.cpp:18-177 | a batch issued and any sequence of answers leave the objects in the state the protocol reaches, with the batch invariant |
| RequestMachine.StepInvariant | src/applicationImpl.cpp:258-341 | every step keeps all invariants: conservation of the counter, counting once, the mutex, the meaning of the flag, arrival order, one response each, sound exchanges |
| RequestMachine.RunInvariant | src/serviceClosure.hpp:124-141 | over every interleaving the running counter is the number of requests started and not yet terminated, each is incremented and decremented once at most, and each settled request has one response or waits once in the list |
| RequestMachine.NoLostWakeup | src/applicationImpl.cpp:320-323 | in every reachable state of an exception-free run a non-empty list implies that the flag is set and the counter is positive or some thread that saw zero has yet to finish its test or drain |
| RequestMachine.StepWakeful | src/webRequestDelegateContext.cpp:179-185 | every step but an exception keeps this, whichever way a request ends |
| RequestMachine.QuietMeansAnswered | src/serviceClosure.cpp:277-306 | when all requests of an exception-free run are done, the counter is zero, the list empty, the flag clear, every parked request was drained, and every request was answered exactly once |
| RequestMachine.SomebodyCanGoOn | src/serviceClosure.cpp:277-306 | no deadlock: whenever a request is not done, it or the owner of the mutex has an enabled step |
| RequestMachine.ThrowLosesWakeup | src/applicationImpl.cpp:326-340 | an exception keeps the wake-up if and only if it does not take the last count while requests are parked and nobody has seen zero |
| RequestMachine.WakefulExactly | src/applicationImpl.cpp:258-341 | over every run, exceptions included: no wake-up is lost in any of its states if and only if it takes no such exception |
| RequestMachine.ExceptionLeavesParkedRequest | src/applicationImpl.cpp:326-340 | a run of eight steps, the last an exception, that leaves a request parked, the flag set and nobody running |
| RequestMachine.LostForever | src/applicationImpl.cpp:351-355 | from such a state, whatever follows, the parked requests stay parked, none is drained, and the log never has a response for one of them, since everybody else is turned away |
| RequestResponses.ReportExactly | src/applicationImpl.cpp:258-341 | a step adds a response to the log if and only if it is a cause of it: final answers come from executions that succeeded without delegates, errors with the status and code of the execution that failed, 405 from HEAD needing exclusive access, 500 from delegates in a drain, temporal rejects from the flag or the context |
| RequestResponses.ResponseHasCause | src/serviceClosure.cpp:277-306 | over every run, each response was added by a step that was taken and is its cause |
| RequestResponses.AnswerMeansExecuted | src/applicationImpl.cpp:272-279 | no run reports a failed execution as a final answer |
| RequestResponses.ParksExactly | src/applicationImpl.cpp:295-306 | a request is parked if and only if its execution yields 503 with the need for exclusive access and it is not HEAD |
| RequestProgress.StepLess | src/applicationImpl.cpp:258-341 | every step but taking in a new request leaves less to do: phases ahead, parked requests, unanswered delegates; so no run is endless without new requests |
| RequestProgress.EverybodyIsAnswered | src/serviceClosure.cpp:277-306 | every exception-free run can be completed without exceptions and new requests until all requests are done, and then each that ever came in has exactly one response and nobody is parked |
| ExclusiveAccess.CoarseIsFine | src/applicationImpl.cpp:351-355 | every coarse run is a fine run, step by step, and free of exceptions if it takes none |
| ExclusiveAccess.RunExclusive | src/applicationImpl.cpp:320-340 | over every coarse run, exceptions included, while a thread has seen zero or drains, nobody is counted and no other thread drains |
| ExclusiveAccess.DrainIsExclusive | src/serviceClosure.cpp:277-306 | while a drain is in progress the counter is zero, no second drain begins and every new request is turned away |
| ExclusiveAccess.SoloStepExactly | src/serviceClosure.hpp:124-135 | at the fine grain, a step keeps every drain exclusive if and only if it is neither an increment while somebody drains nor a successful second flag test while somebody is counted or drains |
| ExclusiveAccess.SoloExactly | src/applicationImpl.cpp:258-341 | over every fine run, exceptions included: each drain is exclusive in all its states if and only if no such step is taken |
| ExclusiveAccess.FineGrainOverlaps | src/applicationImpl.cpp:258-261 | such a step happens: a run in which a request runs while another drains |
| ServiceClosure.ServiceClosure.StartRunRequest | src/serviceClosure.hpp:128-131 | the increment is the machine's step |
| ServiceClosure.ServiceClosure.DoneRunRequest | src/serviceClosure.hpp:132-135 | the decrement is the machine's step, and its result says whether the request has seen zero |
| ServiceClosure.ServiceClosure.PushWaitingRequest | src/serviceClosure.hpp:136-141 | the flag is set and the request appended, nothing else changes |
| ServiceClosure.ServiceClosure.ProcessWaitingRequests | src/serviceClosure.cpp:277-306 | every parked request is executed once more and answered in list order: with the answer, with 500 if it asks for delegates, or with its own status and code; then list and flag are cleared |
| ServiceClosure.ServiceClosure.SignalTermination | src/webRequestDelegateContext.cpp:179-185 | decrement, flag test and drain take the closure where the machine's steps lead |
| ServiceClosure.ServiceClosure.Respond | src/applicationImpl.cpp:264-318 | each outcome of execute leads to its answer, its error with its own status and code, rejection, parking or delegation |
| ServiceClosure.ServiceClosure.RunRequest | src/applicationImpl.cpp:258-324 | a whole undisturbed request is the steps of that request on the machine, and leaves counter, flag, list and log as its execution says: its own entry unless it parks or waits, and if it was the only one and the flag is set, one entry for each parked request |
| ServiceClosure.AloneKeepsInvariant | src/applicationImpl.cpp:258-324 | and it keeps all invariants |
| ServiceClosure.AloneOutcome | src/applicationImpl.cpp:258-324 | the steps of an undisturbed request have that outcome, whatever execute yields |
| Query.CompilerCorrect | src.old/query.hpp:97-106 | the emitted code of any features, run from the empty stack, never underflows, leaves the stack empty and defines exactly these features in order, each with the meaning of its tree, in any algebra |
| Query.NodeCorrect | src.old/query.hpp:48-52 | the code of a tree pushes exactly its meaning on any stack |
| Query.TermCode | src.old/query.hpp:48-52 | the code of a term pushes it with length one |
| Query.ExpressionCode | src.old/query.hpp:97-106 | the code of an expression ends with its operator, number of terms, range and cardinality, and joins in that way what the codes of its terms leave, in their order |
| Query.FeatureCode | src.old/query.hpp:151-155 | the code of a feature binds its name and weight to what the code of its node leaves |
| Query.CodeDeterminesFeatures | src.old/query.hpp:151-180 | two lists of features have the same code if and only if they agree in names, weights and trees with their operators resolved |
| Query.ResolveInjective | src.old/query.hpp:103-105 | if the operators in use resolve to different handles the code determines the trees themselves |
| Query.QueryBuilder.ProduceNode | src.old/query.hpp:97-106 | the recursive emitter appends the code of the tree |
| Query.QueryBuilder.ProduceFeature | src.old/query.hpp:151-155 | a feature's code is its tree's followed by its definition |
| QueryJson.NodeRoundTrip | src.old/query.hpp:520-560 | a printed node reads back as itself if every term in it has a type or a value and every expression an operator, range, cardinality or terms, and is refused otherwise |
| QueryJson.ExpressionRoundTrip | src.old/query.hpp:562-586 | the same for an expression, whose own emptiness does not matter here |
| QueryJson.FeatureRoundTrip | src.old/query.hpp:470-518 | a printed feature reads back as itself if no node of its tree is empty, and is refused otherwise |
| QueryJson.ReadTermExactly | src.old/query.hpp:588-604 | a term is read from exactly the objects with these strings as `type` and `value`, whatever else they have and in any order |
| QueryJson.ReadExpressionExactly | src.old/query.hpp:562-586 | an expression is read from exactly the objects with this `operator`, `range` and `cardinality`, and its terms one by one |
| QueryJson.ReadNode | src.old/query.hpp:520-560 | a node is an object with one of `term` and `expression` |
| QueryJson.ReadFeatureNode | src.old/query.hpp:470-518 | a feature is any object with `name`, `weight` and a node as `value` |
| ConfigScanner.TokenizeLossless | src/configUtils.cpp:84-111 | the tokens of a string, literals, references and malformed references, put together are the string, and obey the grammar |
| ConfigScanner.TokenizeUnique | src/configUtils.cpp:94-107 | no other sequence of tokens of the grammar has that text |
| ConfigScanner.GrammarOnCharacters | src/configUtils.cpp:94-97 | blanks are the characters up to the space; a name has any others but the closing brace |
| ConfigScanner.Substitute | src/configUtils.cpp:84-111 | as meant, the scanner yields the tokens of the C string evaluated: references replaced by their lookup, all else verbatim, replaced text never scanned again; as written it yields what the scan over the whole buffer does, which may leave it |
| ConfigScanner.ScanAttempt | src/configUtils.cpp:93-97 | the three inner loops find the name and the end of an attempt |
| ConfigScanner.NoBraceNoChange | src/configUtils.cpp:88-89 | without a brace nothing changes |
| ConfigPaths.SplitParts | src/configUtils.cpp:100 | every name is its parts with dots between them, and no part has a dot |
| ConfigPaths.SplitDotted | src/configUtils.cpp:100 | no other parts without dots have that name |
| ConfigPaths.LookupExactly | src/configUtils.cpp:100 | for every list of keys without dots, the name joined from them yields the string they lead to through the first members of these names, and nothing if they lead to no string |
| ConfigPaths.SubstReference | src/configUtils.cpp:84-111 | in every text a reference behind text without braces becomes what its name yields, and the rest is substituted on its own |
| ConfigPaths.RequestFile | config.js.in:55 | the request file of the default configuration gets the log directory and the service name |
| ConfigDepartures.WrittenExactly | src/configUtils.cpp:93-97 | as written the scanner does what it is for, whatever the references yield, if and only if no attempt at a reference is still open where the C string ends |
| ConfigDepartures.WrittenLeaves | src/configUtils.cpp:93-97 | if one is, and no NUL is embedded in the string, the scanner reads past its end |
| ConfigDepartures.PastTheEnd | src/configUtils.cpp:94 | two such strings: one leaves the buffer, the other has a reference behind an embedded NUL that is found |
| ConfigDepartures.HiddenExactly | src/configUtils.cpp:94-107 | in every string, a brace is not taken for the start of a reference if and only if an attempt that started before it has it in its name |
| ConfigDepartures.HiddenReference | src/configUtils.cpp:96 | a string in which a well-formed reference is hidden that way and left as it is |
| ConfigOrder.InPlaceExactly | src/configUtils.cpp:60-129 | substituting leaf after leaf in the tree that is also looked up equals substituting all leaves against the original if and only if each string, in the order of the visit, evaluates to the same with the images of the leaves visited before it as with the original ones |
| ConfigOrder.InPlaceByReferences | src/configUtils.cpp:60-129 | it does if no reference names a leaf visited before that substitution changes; for strings of at most one reference each, only if |
| ConfigOrder.InPlaceIsSimultaneous | src/configUtils.cpp:60-129 | it does if no value a reference looks up holds a brace |
| ConfigOrder.BackwardChainDiffers | src/configUtils.cpp:146 | a tree with a reference to a member before it where the results differ |
| ConfigOrder.ForwardChainAgrees | src/configUtils.cpp:146 | a tree with a chain of references to members behind where they agree |
| ConfigTree.SkeletonKept | src/configUtils.cpp:60-82 | keys, array lengths and leaves that are no strings never change |
| ConfigInPlace.Configuration.SubstituteValue | src/configUtils.cpp:60-82 | the recursion by type substitutes exactly the leaves below the value, in order |
| ConfigInPlace.Configuration.SubstituteKids | src/configUtils.cpp:113-129 | the loops over arrays and objects do so part by part |
| ConfigInPlace.Configuration.SubstituteAll | src/configUtils.cpp:146 | called with value and root the same tree: all leaves in order, the skeleton kept, and the simultaneous result if and only if the order is harmless |
| Transactions.CommitKeeps | src.old/transaction.cpp:204-217 | committing applies the operations of the handle, finishes it, erases its entry only, and the content stays the replay of the commits in order |
| Transactions.DiscardKeeps | src.old/strusIndexContext.cpp:63-75 | rolling back any set of entries keeps content and replay and touches no finished handle |
| Transactions.ImplicitKeeps | src.old/document.cpp:225-229 | an operation without a transaction id is a transaction of its own, committed at once: the content changes by it, no open transaction does, and the invariant is kept |
| TransactionLaws.ReplayMeaning | src.old/transaction.cpp:204-217 | for all operations of a commit and every document: untouched if none is about it, and otherwise as the last one about it says |
| TransactionLaws.InsertAlone | src.old/document.cpp:150-229 | an insert without transaction: its response, and that the content then has the fields of the document, its forward terms in the forward index and its search terms in the search index, with their positions as unsigned numbers, and nothing else changed |
| TransactionLaws.DeleteAlone | src.old/document.cpp:282-400 | a delete without transaction: its response, and that just this document is gone |
| TransactionLaws.NamedResponses | src.old/document.cpp:62-229 | the responses of the commands that name a transaction, and that none but a commit changes the content |
| TransactionLaws.NamedEntries | src.old/strusWebService.cpp:194-229 | what they do to the map: times of last use are set, commit and rollback erase their entry and finish its handle, other entries stay |
| TransactionLaws.CommitMeaning | src.old/transaction.cpp:204-217 | over every run, whatever goes on between begin and commit: a document is as just before if no insert or delete of it was done in the transaction, and otherwise as the last of these says |
| TransactionLaws.InsertedTogether | src.old/transaction.cpp:211 | two documents inserted in one transaction are both there after the commit |
| TransactionRuns.StepSound | src.old/strusWebService.cpp:194-229 | every command keeps the invariant, leaves finished handles alone, and answers and changes the index as the machine without handles does |
| TransactionRuns.RunRefines | src.old/strusWebService.cpp:194-229 | so does every run: content equals the replay of the committed transactions in commit order, each entry of the map has a live handle of its own, and responses and content are those of the simple machine |
| TransactionRuns.FinishedForGood | src.old/transaction.cpp:314-325 | a transaction is committed or rolled back once at most and never used after that |
| TransactionRuns.ClosedForGood | src.old/strusWebService.cpp:429-440 | after any run, closing empties the map and keeps the content, and a transaction is still live if and only if the run left an implicit one behind |
| TransactionRuns.MapHoldsTheLive | src.old/document.cpp:209-220 | the map holds exactly the live transactions if and only if no implicit transaction of an oversized document was left behind |
| TransactionRuns.LeakHappens | src.old/document.cpp:209-220 | one is left behind by a document with a negative position, which counts as very high |
| TransactionRegistry.AddTerms | src.old/document.cpp:183-207 | the position loop adds all terms in order when all are in range, after conversion to unsigned, and otherwise reports a position beyond it that none exceeds |
| TransactionRegistry.Index.InsertCmd | src.old/document.cpp:62-229 | the insert command is the step, with the exits for document id, transaction and position |
| TransactionRegistry.Index.DeleteCmd | src.old/document.cpp:282-400 | the delete command is the step: unknown documents are refused before the transaction is looked up |
| TransactionRegistry.Index.BeginCmd | src.old/strusWebService.cpp:194-213 | beginning an open transaction again only refreshes it |
| TransactionRegistry.Index.CommitCmd | src.old/transaction.cpp:204-217 | commit and erase |
| TransactionRegistry.Index.RollbackCmd | src.old/transaction.cpp:314-325 | roll back and erase |
| TransactionRegistry.Index.AbortRunningTransactions | src.old/strusWebService.cpp:429-440 | the loop over the listed transactions rolls back and erases them all |
| TransactionRegistry.Index.TerminateIdleTransactions | src.old/strusIndexContext.cpp:63-75 | the sweep, going on behind an erased entry, rolls back and erases exactly the overdue ones |
| TransactionRegistry.Index.OnTimer | src.old/strusContext.cpp:227-238 | a tick sweeps if more than ten seconds have passed since the last sweep |
| IdleSweep.IdleBound | src.old/strusContext.cpp:219-238 | with ticks at most `gap` seconds apart, a tick never sweeps a transaction used within the last max_idle seconds, one it sweeps was idle for at most max_idle + 10 + gap (11 for ticks a second apart), and it leaves none idle for more than max_idle + 10 |
| IdleSweep.TickExactly | src.old/strusIndexContext.cpp:63-75 | a tick more than ten seconds after the last sweep rolls back and erases exactly the transactions whose age in 32 bits is over max_idle; all others, and the content, stay |
| IdleSweep.SweepAsWrittenDefined | src.old/strusIndexContext.cpp:65-73 | as written the sweep is defined and does what it is for if and only if nothing is overdue |
| IdleSweep.UndefinedSweepIsReached | src.old/strusContext.cpp:227-238 | a run with a tick every second comes to a sweep that as written is undefined |
| LogLine.SqueezeMeaning | src/webRequestLogger.cpp:359-376 | the squeezed text is the one text with the same words whose blanks are single spaces between words or in front, in front if and only if the original starts with one and has a word |
| LogLine.SqueezeIdempotent | src/webRequestLogger.cpp:359-376 | squeezing again changes nothing |
| LogLine.SqueezeKeepsBytes | src/webRequestLogger.cpp:359-376 | the other bytes keep their order |
| LogLine.SqueezeInPlace | src/webRequestLogger.cpp:359-376 | the loop with two pointers into one buffer, the writing one never passing the reading one, leaves the squeezed text with its NUL |
| LogLine.SkipBlanks | src/webRequestLogger.cpp:365 | the inner loop ends behind the run of blanks |
| LogLine.LogMessageBuf | src/webRequestLogger.cpp:350-377 | prefix and message are composed, cut to the buffer with dots and squeezed; the result is NUL-terminated inside the buffer for every message |
| LogLine.Cut | src/webRequestLogger.cpp:354-358 | the dots overwrite the last four bytes exactly when the text comes within four bytes of the size |
| LogLine.LineKeepsText | src/webRequestLogger.cpp:354-358 | a text stays whole if and only if it is more than four bytes shorter than the buffer, or ends in dots exactly there |
| LogLine.LineMeaning | src/webRequestLogger.cpp:354-358 | the line is the text, or what fits in front of three dots |
| ThreadSlots.RunInvariant | src/webRequestLogger.cpp:423-446 | over every interleaving of flag tests, id reads, test-and-sets and id writes, a slot has one taker, a scan never passes the slot of its thread, and answers stay true |
| ThreadSlots.AnswersAgree | src/webRequestLogger.cpp:423-446 | a thread always gets the same answer, and two threads never get the same slot |
| ThreadSlots.OverflowMeansTooMany | src/webRequestLogger.cpp:440-443 | "OVFL" is returned only when every slot is taken by another thread, so only if more threads log than there are slots |
| ThreadSlots.AloneIsSteps | src/webRequestLogger.cpp:423-446 | a call nobody interrupts is the sequential search: the own slot, else the first free one, else overflow |
| ThreadSlots.Logger.GetThreadId | src/webRequestLogger.cpp:423-446 | the two loops do that search on the slots in the heap and return the label |
| ThreadSlots.Logger.Reset | src/webRequestLogger.cpp:336-342 | reset frees every slot |
| ThreadSlots.Logger.constructor | src/webRequestLogger.cpp:88-134 | for every number of threads: it succeeds if and only if that is positive and below 10^9, and then the slots are free and labelled with their numbers, as wide as the number of slots |
| ThreadSlots.NofSlotsPow | src/webRequestLogger.cpp:24-30 | the loop counts the decimal digits, and its product leaves the range of `int` if and only if there are 10^9 or more |
| ThreadSlots.LabelsDistinct | src/webRequestLogger.cpp:447-450 | labels all have the same width; they tell the slots apart if and only if there are less than ten million |
| ThreadSlots.LabelReads | src/webRequestLogger.cpp:447-450 | a label that is not cut has the decimal digits of its slot number with zeros in front |
| FormJson.JsonValueEncode | src/applicationImpl.cpp:185-218 | the nested pointer loops, appending from the start of a run, escape exactly the seven characters |
| FormJson.EncodeAsWritten | src/applicationImpl.cpp:209-212 | as written the encoder is correct for the empty value and a single NUL only |
| FormJson.EncodeByCharacter | src/applicationImpl.cpp:185-218 | an encoded value is its characters one after the other, each written as JSON has it |
| FormJson.FormToJson | src/applicationImpl.cpp:220-256 | the iterator loops print the groups of equal keys in order |
| FormJson.AppendValues | src/applicationImpl.cpp:231-253 | the look-ahead finds exactly the run of the key, and the iterator ends on its last entry |
| FormJson.KeysOnce | src/applicationImpl.cpp:231-234 | each key is printed once if and only if equal keys are side by side |
| FormJson.UngroupGroups | src/applicationImpl.cpp:220-256 | grouping loses no pair and no order |
| FormRoundTrip.ReadEncoded | src/applicationImpl.cpp:185-218 | an encoded value between quotes reads back as itself if and only if its control characters are among the five escaped ones; any other is refused |
| FormRoundTrip.ReadKey | src/applicationImpl.cpp:227-229 | a key, which is printed as it is, reads back as itself if and only if nothing in it needs escaping |
| FormRoundTrip.FormRoundTrip | src/applicationImpl.cpp:220-256 | for every form with such keys and values the printed text parses, flattening gives back exactly its pairs in order, and each key occurs once if and only if equal keys were side by side |
| MergeParameters.MergeMetadata | src.old/index.cpp:78-113 | the nested loops push each explicit definition once for every default of its name or once if there is none, then the defaults not redefined |
| MergeParameters.Index.MergeCreateParameters | src.old/index.cpp:65-116 | everything but the metadata comes from the defaults of the index, whatever defaults are passed |
| MergeParameters.MergedDistinct | src.old/index.cpp:78-113 | the merged names are distinct if and only if both inputs' names are |
| MergeParameters.MergedNames | src.old/index.cpp:78-113 | the merged names are exactly the union |
| MergeParameters.MergedLookup | src.old/index.cpp:83-93 | explicit definitions win |
| MergeParameters.MergedOrder | src.old/index.cpp:78-113 | with distinct defaults: the explicit definitions in their order, then the defaults nobody has redefined, in theirs |
| MergeParameters.MergedAgain | src.old/index.cpp:78-113 | merging the result again changes nothing if and only if the defaults are distinct |
| ErrorMessage.BeautifyErrorMessage | src/strusWebService.cpp:182-232 | the loop writes the pieces of the message up to its first NUL, one a round |
| ErrorMessage.PiecesCover | src/strusWebService.cpp:189-230 | the pieces follow each other through the whole message, so every round moves on |
| ErrorMessage.PieceIsVerbatim | src/strusWebService.cpp:193-229 | every piece is what it should be and is written as it should be: quoted text up to the first quote of its kind with an even run of backslashes before it, a colon with all blanks behind it, a bracket up to the first closing one with two newlines before it if other brackets open inside, and single bytes |
| ErrorMessage.OnlyLayout | src/strusWebService.cpp:182-232 | without blanks and newlines the output is the input |

## Left out

- The libraries (cppcms, booster, strus storage, query evaluation, request handler): their calls are parameters, labels of steps, or the small interfaces named above (a stack machine, a buffered transaction, a JSON tree).
- Exceptions out of `issueDelegateRequests` and out of the drain: only an exception out of `execute` is a step.
- Weak memory: steps are sequentially consistent, also the reads of a slot's id that no lock protects.
- Failing answers that arrive while the issuing loop still runs: issuing a batch is one step, and so is one callback.
- What a request context makes of an erroneous answer it is handed before the failure is reported (`src/webRequestDelegateContext.cpp:174`): the exchange is closed at that point.
- RequestMachine.NoLostWakeup: holds without exceptions only; `ThrowLosesWakeup` says exactly which exception breaks it and `WakefulExactly` which runs keep it.
- DelegateContext.Exchange.Serve: with the reset as it is meant; with the one as written the receivers of two batches can wait at once.
- The status and code an exception is reported with: one error stands for all of them.
- Who owns and copies the trees and the request contexts: trees are values.
- Weights of features are real numbers without rounding.
- JSON conversions are taken to yield the default when the member is missing or does not convert, for the reads that pass a default.
- The names in a reference are looked up along dots and object members only; the rest of cppcms paths is not part of this model.
- One index; which index a command names is not part of this model, and neither are the read and write locks of the commands, some of whose early exits skip the unlock. A command is one step.
- The result of a transaction's commit, which the commands ignore: a commit succeeds.
- Transactions.Age: time is a number of seconds from the start of the server.
- The number of affected documents, times and log output of the commands.
- JsonText.ParseValue: numbers and the three literals are refused, since no form contains them; so are escaped surrogate pairs.
- ThreadSlots.Logger.constructor: memory always suffices.
- TransactionRegistry.Index.InsertCmd: the exits for illegal JSON, a missing environment, a missing database and a storage client that cannot be created are not part of this model.
- Resetting the logger while threads log: the slot properties hold between resets.
- LogLine.LogMessageBuf: a message has no NUL inside, and the prefix fits into the buffer; the code's buffer has 4096 bytes and its prefix at most ten.
- HTTP headers, files and directories, index rename and swap, signal handling, start-up, the command line client and the error code tables.
