# A verified model of Comit

Comit is a TMSP application: signed actions create and remove accounts and submit forms, and the
results are kept in a Merkle store behind a stack of write-back caches. This project models the
parts of it that carry its guarantees and proves them for all inputs, all runs and all
interleavings.

* **The write-back cache stack** (`WriteLog`, `KV`, `StackModel`, `Stores`). `KV` has the doubly
  linked list and the hex-keyed map into it as heap objects, with the pointer updates of the
  source. `Stores` has the in-memory store, the cache over any store, and the store interface as a
  datatype that dispatches to the three implementations. Each method is tied to a function on
  `StackModel.Stack`, a pure value (a base store, or a compacted log over another stack), and the
  laws of the stack are proved there: a stack of any depth is one flat map for reads and writes,
  a read that fills missed levels changes no level's reads, and a sync writes each key once and does
  what replaying every write ever made would do. Writes of nil, which the cache reads as a
  miss, are covered by exact conditions rather than left out.
* **The action state machine** (`Ledger`, `Actions`, `State`, `Execution`, `Runs`, `Sequences`,
  `Building`, `Limits`, `App`). `Ledger.Step` is one action as a pure, atomic step on a flat ledger
  of stored bytes and filters. `Execution.ExecuteAction` is the imperative execution through a cache,
  proved equal to it. `Runs` and `Sequences` hold what is kept over runs of any length, and
  `Building` says exactly when an action built with `NewAction`, `Prepare` and `Sign` is accepted.
  What is kept over runs is proved for any actions. Where it is not kept by all of them, the exact
  condition is, and `Limits` has an input that fails it:
  - Nothing keeps a submitted form identifier from being the key of an account. The content ID is then
    stored over that account, and the next action that asks for it panics.
    `Runs.RunFitsExactly` says that nothing else makes an account unfit for its address.
  - The key an input carries takes the place of the account's, so an action may name one address and
    run under another. The account it names does not move on, and the same action is accepted again.
    The account at the address it runs under becomes the named one: its sequence may fall back, so
    that older actions are accepted again, and its forms are the other's.
    `Sequences.FollowsExactly` and `Sequences.SequencesExactly` say exactly when the sequence, its
    difference to the number of forms, and the list of forms are what the account's own actions make
    of them, and `Sequences.AcceptedLaterExactly` when an action is accepted again.
* **The search pipeline** (`Search`, `Finding`). Producer, two checkers and collector are a
  transition system with rendezvous sends; an interleaving is any sequence of enabled moves.
* **The Merkle store behind its frames** (`Wire`, `Query`, `Tree`, `Merkle`), **form identifiers**
  (`Form`), **hex keys** (`Hex`) and **the block stream** (`BlockStream`).

Strings and byte slices are sequences of 8-bit vectors; where nil-ness matters a value is `Nil` or
`Data`. A Go panic is the outcome `Panic`. The libraries enter as functions in `Ledger.Env`, of
which `Ledger.Lawful` asks only that codecs round trip, that a chain ID is told from what follows
it, that a signature verifies, that encodings of accounts and content IDs are not empty, that
addresses have 20 bytes, that a varint of a 64-bit int takes less than 100 bytes and that a hash
table finds what was added to it; `Consistency.SampleIsLawful` shows that these laws can be met
together.

## Model

| member | source | states |
|---|---|---|
| `Hex.HexRoundTrip` | util/hex.go:8-15 | decoding the "%X" form of any bytes gives the bytes back, and the form has two digits a byte |
| `Hex.HexInjective` | util/hex.go:8-10 | two byte strings with one hex form are the same, so a hex-keyed map is keyed by raw bytes |
| `Hex.HexDigitsAt` | util/hex.go:8-10 | each byte is written as the upper-case digit of its high half and then that of its low half |
| `Hex.DecodeExactly` | util/hex.go:12-15 | decoding succeeds exactly on even-length strings of hex digits in either case, and gives the empty slice for others |
| `Hex.DecodeIgnoresCase` | util/hex.go:12-15 | digits of either case decode alike |
| `WriteLog.LastWritesSnoc` | types/kv.go:63-71 | one more write removes the key's earlier entry from the compacted history and appends the new one |
| `WriteLog.LastWritesAreLast` | types/kv.go:63-80 | the compacted history mentions the keys of the history, each once, each with its last value |
| `WriteLog.CompactionIsInvisible` | types/cache.go:34-39 | replaying a compacted history over a log gives what replaying the whole history gives |
| `KV.LinkedIsAcyclic` | types/kv.go:5-13 | mirrored prev and next links with nil ends cannot meet a node twice |
| `KV.IndexIgnoresOrder` | types/kv.go:34-56 | moving a node does not change what the map must index |
| `KV.KVList.Push` | types/kv.go:19-32 | appends one fresh node, keeps the links well formed, and appends its entry |
| `KV.KVList.Update` | types/kv.go:34-49 | moves the node to the end from head, middle or tail with its new value; every other node keeps its place and value |
| `KV.KVList.MoveToEnd` | types/kv.go:36-48 | a node at any place ends up behind the others, which keep their order; the last one stays |
| `KV.KVList.Unlink` | types/kv.go:36-43 | taking out a head or middle node leaves the others linked in order |
| `KV.KVList.Relink` | types/kv.go:44-47 | putting a node behind the tail leaves the list linked with it last |
| `KV.KVList.WalkIsNodes` | types/kv.go:11-49 | following next from head meets exactly the list's nodes, once each, and ends |
| `KV.KVMap.Set` | types/kv.go:63-71 | after any history of sets the walk of the list is the history with only each key's last write, in order of those writes, and the map indexes exactly its nodes |
| `KV.KVMap.Get` | types/kv.go:73-80 | returns the value of the last write to the key in the history, nil if there is none |
| `StackModel.GetIsTransparent` | types/cache.go:24-32 | a read returns what the stack reads as, and filling every missed level changes no read at any level |
| `StackModel.GetFills` | types/cache.go:24-32 | a read writes the value it returns, once, into every cache down to the first that holds one, behind the writes that are there, and leaves the levels from there on as they were |
| `StackModel.ReadIsLogged` | types/cache.go:24-39 | after a read the cache holds the key exactly once with the value read, so its next sync writes keys that were only read |
| `StackModel.SetReads` | types/cache.go:20-22 | a write changes only its key, to the value itself or, for a nil, to what lies below |
| `StackModel.SetReadsBackIff` | types/cache.go:20-32 | a write reads back as itself exactly when it is not a nil over a value, nor an empty value on a base that drops it |
| `StackModel.NilWriteComesBack` | types/cache.go:24-39 | a nil written over a value reads as the old value until a sync removes it |
| `StackModel.StackIsFlat` | types/cache.go:20-32 | any run of reads and writes through the top of a stack of any depth returns and leaves what one flat map would, no lower level reading differently; only a base that drops empty values asks that none be written to it |
| `StackModel.SyncKeepsReads` | types/cache.go:34-39 | a sync leaves every key reading as the cache did exactly when every entry lands below as the cache reads it |
| `StackModel.SettledOverBase` | types/cache.go:34-39 | over a base store that is: no cached nil over a stored value, and no cached empty value where the base drops those |
| `StackModel.SyncReplaysHistory` | types/cache.go:34-39 | syncing the compacted log gives the same stack as replaying every write ever made |
| `StackModel.GetStaysClean` | types/cache.go:24-32 | filling keeps the invariant that a cached nil has nil below, at every level |
| `StackModel.CleanSync` | types/cache.go:34-39 | from that invariant a sync keeps every read, at the cache and now below, empties the log and keeps the invariant |
| `StackModel.CommitIsFlat` | state/state.go:125-138 | wrap, any run, sync: the store reads as a flat map after the run; before the sync it reads as it did; empty values are asked to be left out only where the base drops them |
| `StackModel.WritesCommit` | state/state.go:125-138 | the same for runs of writes over any store, clean or not |
| `Stores.MemStore.Set` | types/store.go:20-22 | the hex-keyed map behaves as a map keyed by raw bytes |
| `Stores.MemStore.Get` | types/store.go:24-26 | reads what was last set, nil if nothing was |
| `Stores.Store.Get` | types/store.go:5-8 | every store reads, and fills, as its stack does |
| `Stores.Store.Set` | types/store.go:5-8 | every store writes as its stack does, one write recorded |
| `Stores.Cache.constructor` | types/cache.go:8-18 | a new cache is an empty log over the store |
| `Stores.Cache.Reset` | types/cache.go:16-18 | a fresh log, the store below untouched |
| `Stores.Cache.Set` | types/cache.go:20-22 | rewrites the log only; the store below is untouched |
| `Stores.Cache.Get` | types/cache.go:24-32 | reads through caches of any depth, a nil counting as a miss, and fills each missed level; the history grows by one write of the value read on a miss and by none on a hit |
| `Stores.Cache.Sync` | types/cache.go:34-39 | terminates; writes each key in the log, written or only read, to the store exactly once in last-write order; the store is then as if the full history were replayed; the log is empty |
| `Wire.FrameRoundTrip` | app/merkle.go:38-45 | a length-prefixed slice reads back from the front of any buffer with its size |
| `Wire.SliceExactly` | app/merkle.go:38-45 | a slice is read exactly where the buffer holds its length and then its bytes |
| `Query.KeyQuery` | util/query.go:22-29 | fills a buffer with the type byte and the framed key, no byte over |
| `Query.IndexQuery` | util/query.go:31-42 | cuts the buffer to the type byte and the varint, nil exactly where that does not fit; for a Go int it fits |
| `Tree.InsertIsMapUpdate` | app/merkle.go:53 | setting a key keeps the tree in byte order, binds the key and touches no other |
| `Tree.DeleteIsMapRemove` | app/merkle.go:58 | removing a key keeps the order, frees the key and touches no other |
| `Tree.LessExactly` | app/merkle.go:116-122 | the order of the keys is that of the first byte that differs, a proper prefix first |
| `Tree.KeysRise` | app/merkle.go:116-122 | the keys by index rise in that order |
| `Merkle.FramesParse` | app/client.go:46-76 | every set and remove frame parses back as its request with no bytes left over |
| `Merkle.LeftOversAreRefused` | app/merkle.go:50-57 | a frame with anything behind it is an encoding error |
| `Merkle.BadFramesAreRefused` | app/merkle.go:32-63 | an empty transaction and a key or value cut short are encoding errors, a whole key behind an unknown type is an unknown request |
| `Merkle.QueriesAnswer` | app/merkle.go:93-130 | a key query answers what the store reads, an index query the key at that place, a size query the size |
| `Merkle.OtherQueriesAnswer` | app/merkle.go:93-147 | a key without a value is not found, a proof is what the tree has, and empty queries, bytes left over and unknown types have their codes |
| `Merkle.MerkleApp.AppendTx` | app/merkle.go:32-63 | the tree changes by the parsed request; on each parse error it does not and the code says why |
| `Merkle.MerkleApp.Query` | app/merkle.go:93-147 | answers by query type, with the encoding and not-found errors and the panic where the tree has no proof, and leaves the tree alone |
| `Merkle.Client.GetSync` | app/client.go:32-44 | gives the value the store reads, an error exactly when there is none |
| `Merkle.Client.SetSync` | app/client.go:46-63 | the frame written in place always fits, parses and sets exactly its key |
| `Merkle.Client.RemSync` | app/client.go:65-76 | the frame written in place parses and removes exactly its key |
| `Merkle.Client.Get` | app/client.go:80-86 | the value, or nil where the query errs |
| `Merkle.Client.Set` | app/client.go:88-93 | the key reads as the value, as nil if the value is nil or empty |
| `Merkle.Client.Remove` | app/client.go:95-100 | the key reads as nil, every other key as before |
| `Merkle.ClientReadsLast` | app/client.go:80-100 | after any run a key reads as its last value set if not empty and not removed since, else nil |
| `Form.XOR` | types/form.go:50-61 | the nested in-place loops fold each item into the buffer as far as both reach |
| `Form.XorComposes` | types/form.go:50-61 | items then more items do what their concatenation does |
| `Form.XorUndoes` | types/form.go:50-61 | the same items folded in again restore the buffer |
| `Form.XorIgnoresOrder` | types/form.go:50-61 | any permutation of the items gives the same buffer |
| `Form.MixIsXor` | types/form.go:50-61 | two bytes mix to the bits that are set in one of them |
| `Form.ID` | types/form.go:63-68 | fills a zeroed 16-byte buffer in place; the result is the identifier of the form |
| `Form.IDBytesExactly` | types/form.go:63-68 | the identifier is the 16 bytes that are each the exclusive-or of those of the submission time, the issue and the location at that place, nothing where they are shorter |
| `Form.NewInfo` | types/form.go:24-26 | carries the 16-byte identifier and the form's issue, location and submitter |
| `Form.IDDependsOnParts` | types/form.go:63-68 | forms with the same minute and the same padded 16-byte prefixes of issue and location share an identifier |
| `Form.IDCollidesExactly` | types/form.go:63-68 | with two of the three parts equal, identifiers are equal exactly when the third padded prefixes are |
| `Actions.ActionInput.ValidateBasic` | types/action.go:24-38 | accepts exactly 20-byte addresses, positive sequences and a key present exactly at sequence one |
| `Actions.NewAction` | types/action.go:62-68 | an action with a fresh, empty input |
| `Actions.Action.SignBytes` | types/action.go:70-77 | the signed bytes are those of the chain and the action without its signature, which `Building.SignBytesCover` tells apart; the shared input is as before afterwards |
| `Actions.Action.Prepare` | types/action.go:79-85 | sets sequence and address, and the key only at sequence one |
| `Actions.Action.Sign` | types/action.go:87-89 | sets only the signature, over the bytes of the unsigned action |
| `Actions.Account.AddformID` | types/account.go:21-24 | appends the hex form of the identifier and nothing else |
| `Actions.Account.Copy` | types/account.go:26-28 | the copy is the same object |
| `State.State.GetAccount` | state/state.go:144-156 | null where nothing or an absent account is stored, a panic where it does not decode; no level of the store reads differently |
| `State.State.SetAccount` | state/state.go:158-161 | one non-empty write under the account key, also for a removed account |
| `State.State.FilterAdd` | state/state.go:61-71 | adds to the named filter shared by reference and to no other, or fails and changes nothing |
| `State.State.FilterLookup` | state/state.go:73-80 | finds whatever was added to the named filter, and errs exactly where there is no such filter |
| `State.State.CacheWrap` | state/state.go:125-134 | an empty cache over this state's store, with the same filters object and chain ID |
| `State.State.CacheSync` | state/state.go:136-138 | the store below takes the compacted log |
| `Execution.RunCreateAccount` | state/execution.go:91-96 | stores the account under its own key's address |
| `Execution.RunRemoveAccount` | state/execution.go:98-103 | stores the encoding of no account |
| `Execution.RunSubmitForm` | state/execution.go:105-125 | decode errors change nothing; otherwise the content ID, then the filter, then the account |
| `Execution.ValidateInputAdvanced` | state/execution.go:129-144 | next sequence first, then the signature under the account's key |
| `Execution.RunAndSync` | state/execution.go:62-87 | run on a cache and synced or dropped, equals the pure run; the same-pointer copy written after a failure never reaches the store |
| `Execution.ExecuteAction` | state/execution.go:15-87 | append mode equals the pure atomic step, check mode changes nothing and reports its validation; the action with its shared input and the cleanness of the store are as before |
| `Runs.AccountKeyInjective` | state/state.go:140-142 | different addresses have different keys |
| `Runs.AccountReadsExactly` | state/state.go:144-156 | there is an account exactly where what is stored decodes as one, none exactly where nothing, the empty slice or the encoding of none is stored |
| `Runs.KeysNeverCollide` | state/state.go:140-142 | a 16-byte form identifier is never the key of an account |
| `Runs.RunsUnderAnAddress` | state/execution.go:15-75 | an accepted action has an input of a 20-byte address, takes the sequence that input carries and runs under the address of the key it was verified with |
| `Runs.StepOnAccount` | state/execution.go:62-75 | for any action: a step changes the account at the address it runs under as its type says, one that it stores its form over, and no other |
| `Runs.StepTouchesOnly` | state/execution.go:62-125 | for any action: no key is written but that of the account at the running address and that of the submitted form |
| `Runs.StoredExactly` | state/execution.go:62-125 | a key holds a value after a step exactly when it did before or the step writes it; no step takes one away |
| `Runs.AccountFitsExactly` | state/execution.go:105-125 | an account that fits its address does so after any step exactly when the step does not store, over the account of an address it does not run under, a content ID that is no account of that address |
| `Runs.AccountsFitExactly` | state/execution.go:105-125 | the same for all accounts of a ledger at once |
| `Runs.RunFitsExactly` | state/execution.go:15-125 | over a run of any actions all accounts keep fitting exactly as long as no action of the run does that |
| `Runs.RunKeepsAccounts` | state/execution.go:15-125 | over a run of any actions whose form identifiers are not keys of accounts, every stored account decodes and has a key whose address is the one it is stored under |
| `Runs.RunKeepsForms` | state/execution.go:105-125 | over such a run every form an account lists decodes to a key holding a non-empty value |
| `Runs.ListedFormsExactly` | state/execution.go:105-125 | for any action: listed forms stay stored exactly when an account the form is stored over, if it decodes as one, lists only what is stored |
| `Runs.StepOnFilters` | state/state.go:61-71 | for any action: no filter is made or dropped, and the filter of an issue takes the form submitted for it and nothing else |
| `Runs.RunFiltersExactly` | state/state.go:61-71 | over a run of any actions the filter of an issue holds what it held and then exactly the forms submitted for it, in order |
| `Runs.SubmittedIsFound` | state/state.go:103-111 | once a form is submitted for an issue, the issue's filter finds it in every later ledger |
| `Runs.FormHoldsLastSubmit` | state/execution.go:115 | a form whose identifier is not the key of an account holds the content ID of the last action that submitted it, whatever other actions run |
| `Runs.GenesisFits` | app/app.go:121-130 | genesis accounts on an empty store meet the invariants kept by runs |
| `Sequences.MovesExactly` | state/execution.go:36-125 | for any action and address: the sequence, the difference of sequence and number of forms, or both sequence and forms, move on as a create, remove or submit of that very account would move them, exactly when the action is not a submit running under the address that names an account of another reading, and stores no form over the account that changes it |
| `Sequences.TakesNextExactly` | state/execution.go:43-45 | a submit takes the sequence of the address it runs under on by one exactly when it carries the sequence next to the one there |
| `Sequences.FollowsExactly` | state/execution.go:36-125 | over a run of any actions an account stays on course in each of the three exactly as long as no action departs from it |
| `Sequences.SequencesExactly` | state/execution.go:129-138 | over a run of any actions an account keeps its due sequence, and the actions run under its address carry the sequences one by one from each create with nothing but a create after a remove, exactly as long as no action skips |
| `Sequences.SequenceTracksForms` | state/execution.go:62-125 | as long as the difference is on course it is one after a create and as at the genesis before; as long as the history is, the account lists its genesis forms, or none if created since, and then those submitted under it, in order |
| `Sequences.SequenceCounts` | state/execution.go:62-75 | as long as the history is on course and without a create: the sequence has grown by the number of actions run under the address and the forms are listed behind the earlier ones; a gone account stays gone |
| `Sequences.SequencesAreConsecutive` | state/execution.go:129-138 | as long as none skips, the actions run under an address between creates carry consecutive sequences, none of them behind a remove |
| `Sequences.NothingIsAcceptedTwice` | state/execution.go:129-138 | for any actions: after an action that ran under an address, one accepted there at that sequence or an earlier one is a create, or has a create or a departing action before it |
| `Sequences.RemovedStaysRemoved` | state/execution.go:39-42 | after a remove, as long as no create or departing action runs there, the account is missing and nothing but a create is accepted for it |
| `Sequences.RunsElsewhereExactly` | state/execution.go:43-45 | where the named account fits, an accepted action runs under another address than it names exactly when its input carries a key of another address |
| `Sequences.WellBuiltRunStays` | types/action.go:79-85 | over a run of actions with no key of another address and no form over an account, what is accepted for an address runs under it, and nothing else touches its account |
| `Sequences.WellBuiltRunIsOnCourse` | types/action.go:79-85 | over such a run no account is departed from and no sequence is skipped |
| `Sequences.WellBuiltAreAcceptedOnce` | state/execution.go:129-138 | so for every run of well-built actions: consecutive between creates, and nothing accepted twice without one |
| `Sequences.AcceptedLaterExactly` | state/execution.go:15-144 | an accepted action is accepted again, at any later place of a run of any actions, exactly when it is a create, or the account it names is back at the sequence it had, the signature verifies there and the filter takes the form |
| `Sequences.AcceptedAgainExactly` | state/execution.go:15-144 | any accepted action is accepted again right after exactly when it is a create, or when it runs under another address than it names, its filter takes its form again, and a form stored over the named account leaves one that validates |
| `Sequences.WellBuiltIsNotAcceptedAgain` | state/execution.go:129-138 | a well-built action other than a create never is |
| `Sequences.DifferenceInExactly` | state/execution.go:36-125 | for any action: where all differences are among some that include one, an account has such a one afterwards exactly unless a form is stored over it that makes it an account of another |
| `Sequences.GenesisDifferenceOrOne` | app/app.go:121-130 | from a genesis, over a run of any actions that spare account keys, the difference of every stored account is one or that of a genesis account |
| `Limits.OverwritingCorrupts` | state/execution.go:105-125 | a submit stored over the account of another address, whose content ID is no account, leaves one that panics for every action that asks for it |
| `Limits.SubmitOverAnother` | state/execution.go:115-123 | such a submit built for the next sequence is accepted like any other, whichever the address |
| `Limits.AccountIsOverwritten` | state/state.go:144-156 | a ledger where every account fits, and an accepted submit that corrupts one |
| `Limits.RemoveNamingRepeats` | state/execution.go:43-45 | a remove at sequence one that names an account at sequence zero and is signed with a key of another address is accepted, and again right after |
| `Limits.RemoveIsAcceptedTwice` | state/execution.go:98-103 | a genesis ledger and a remove accepted twice in a row on it |
| `Limits.NamingIsAccepted` | state/execution.go:39-45 | an action at sequence one that names an account at sequence zero is accepted under any key if its run has what it asks for, and runs with that account under the address of its own key |
| `Limits.SubmitNamingRewinds` | state/execution.go:118-123 | such a submit puts the named account at sequence one, with the form, under the address of its own key, whatever is stored there |
| `Limits.RewoundAcceptsAgain` | state/execution.go:129-144 | a built submit at sequence two, such a submit, and the first is accepted again |
| `Limits.OldActionIsAcceptedAgain` | state/execution.go:36-125 | a genesis ledger and a run on it that accepts a well-built action twice with no create in between, the created account being at sequence one with one form before it |
| `Building.SignBytesIgnoreSignature` | types/action.go:70-77 | the signed bytes do not depend on the signature |
| `Building.SignBytesCover` | types/action.go:70-77 | the signed bytes of two actions are the same exactly if the chains are and the actions agree on type, data, address, sequence and key |
| `Building.AcceptedIsSigned` | state/execution.go:129-144 | what is accepted names a 20-byte address, carries a positive sequence and a key exactly at sequence one, and its signature verifies over all of it under the key it runs with |
| `Building.OutcomesExactly` | state/execution.go:15-144 | each way to be refused, and each panic, happens exactly under its own condition on the input, the stored account, the form and the filter |
| `Building.AcceptedExactly` | state/execution.go:15-87 | an action is accepted exactly when it validates and its run has what it asks for; else nothing changes |
| `Building.BuiltIsAcceptedExactly` | types/action.go:62-89 | a prepared and signed remove or submit is accepted exactly when it carries the next sequence, that is positive, and its data decodes for an issue whose filter takes it |
| `Building.BuiltCreateIsAcceptedExactly` | types/action.go:79-89 | a built create is accepted exactly at sequence one, whatever is stored |
| `Building.BuiltCreateLeaves` | state/execution.go:26-36 | it leaves a new account under its key, whose name is the slice the data starts with, empty where it starts with none |
| `Building.BuiltIsWellBuilt` | types/action.go:79-85 | what is built carries the key of its own address, and is well built exactly if its form identifier is not the key of an account |
| `App.SplitKeyJoins` | app/app.go:247-253 | the option key is split at its first slash |
| `App.App.SetOption` | app/app.go:113-133 | each option changes exactly its part of the application |
| `App.App.AppendTx` | app/app.go:135-147 | decodes and takes the pure step; undecodable bytes change nothing |
| `App.App.CheckTx` | app/app.go:149-161 | reports the validation and changes nothing |
| `App.App.BeginBlock` | app/app.go:234-237 | the cache field becomes a fresh, empty wrap of the state with its filters and chain ID; the state stays as it is |
| `App.App.IterQuery` | app/app.go:42-59 | through the size query and an index query each, the producer sends exactly the keys of the tree in order |
| `App.App.BuildAndAppend` | manager/manager.go:350-358 | new action, prepare, sign and append take the step of the built action |
| `Search.MoveKeepsDelivery` | app/app.go:42-84 | every move hands on what it takes: what is collected and still to come stays the same |
| `Search.WantIsExact` | app/app.go:193-206 | the wanted result is the keys at rising indices, exactly those that pass both checks |
| `Search.SecondCheckSeesPassed` | app/app.go:62-73 | in every interleaving the second check is asked only of keys that passed the first |
| `Search.NoDeadlock` | app/app.go:199-206 | until the collector returns or a check panics some move is enabled |
| `Search.SearchIsCorrect` | app/app.go:42-84 | in every interleaving no goroutine sends on or closes a closed channel, and on return the result is the wanted one with each channel closed once and every stage stopped |
| `Search.SearchEnds` | app/app.go:199-206 | every run ends within six moves a key and seven more, and one that cannot go on has returned or a check has panicked |
| `Search.SearchPanicsExactly` | app/app.go:62-106 | in every interleaving a search that cannot go on has panicked in a check exactly if some key gets no answer from the first check, or passes it and gets none from the second; else it has returned |
| `Finding.SizeQueryReads` | app/app.go:43-49 | the size query reads the number of keys, also of an empty tree |
| `Finding.IndexQueryReads` | app/app.go:50-57 | what is built as an index query for a place in the tree reads the key there |
| `Finding.TreeHoldsItsReads` | app/merkle.go:109-114 | every key a client reads a value at is a key of the tree |
| `Finding.SearchFindsExactly` | app/app.go:183-213 | in every interleaving a search that has returned holds a key exactly if the tree does, the filter of its issue finds it and the second check passes it |
| `Finding.IssueSearchPanicsExactly` | state/state.go:103-111 | that is, exactly if the tree has a key and the issue no filter, or a key that the filter finds and the second check panics on |
| `Finding.SubmittedFormIsFound` | app/app.go:183-213 | in every interleaving of every later search for its issue over a tree that holds the ledger's keys, a submitted form is in the result if the second check passes it |
| `App.App.TreeHoldsLedger` | app/app.go:19-28 | the tree behind the client holds every key the ledger stores a value under |
| `App.App.SubmittedFormIsFound` | app/app.go:183-213 | after any run of actions, every search of the application's own tree for an issue finds each form submitted for it in the run that the second check passes |
| `BlockStream.Manager.BlockStream` | manager/manager.go:435-511 | for any events the blocks sent are, for each block seen, what a look at it sends, in order; the latest height is that of the last block seen |
| `BlockStream.Manager.Deliver` | manager/manager.go:486-508 | sends nothing for the latest height; over a gap sends the queried block of each missed height and of the far end; then the block itself |
| `BlockStream.HeldIsLast` | manager/manager.go:468-480 | the block in hand is that of the last new-block event, nil included, and none before the first |
| `BlockStream.SeenExactly` | manager/manager.go:468-484 | the blocks looked at are those in hand after each event that leaves one, in order |
| `BlockStream.SendsExactly` | manager/manager.go:486-508 | a look at the latest height sends nothing; any other sends the event's own block last and before it, over a gap, the queried block of each height up to its own |
| `BlockStream.SentIsSeenOrQueried` | manager/manager.go:486-508 | over a whole run every block sent is a block seen or what is queried for a missed or far-end height of a gap |
| `BlockStream.SeenIsSent` | manager/manager.go:486-508 | over a whole run every block seen at another height than the latest is sent |
| `BlockStream.HeightsSent` | manager/manager.go:486-508 | where queries answer with the height asked for, the heights sent depend only on the heights seen |
| `BlockStream.RisesExactly` | manager/manager.go:486-508 | the heights sent never fall exactly when no event falls below the latest height; the last sent is the latest |
| `BlockStream.EachHeightOnce` | manager/manager.go:491-508 | every height from the start to the latest is sent once, or twice exactly when it closed a gap of two or more, and no other |

## Left out

- HTTP handlers, websockets, IPFS, the RPC proxy, templates, logging and `main`: input and output with no property of their own.
- The vendored libraries (go-wire, go-crypto, go-merkle, dl_cbf, JSON, content IDs) are not part of this model; they enter by the laws in `Ledger.Lawful`, and the tree by its sorted keys.
- Go integers are unbounded here, so overflow of sequences, heights and lengths is not modelled.
- Store interface: a datatype over the three implementations stands for Go's interface; other implementations are not modelled.
- A hash table is its history of successful adds; a lookup may also find what was not added, and deletion and counting are left out because no action uses them.
- `Hex.HexstrToBytes` gives the empty slice for malformed digits, where some versions of Go's decoder keep the digits before the error.
- An index query outside the tree answers nil, as the tree library's behaviour there is not known; the pipeline never asks one. The proof of a key, or that there is none, is a parameter.
- `MerkleApp.CheckTx` parses from the type byte and so disagrees with `AppendTx`; the client never calls it.
- A null content ID in a form's data and a null genesis account are not modelled; a missing public key, chain ID, input or filter is, as `Panic`.
- `App.SetFilters` replaces the filters and is run once after genesis; the filter property is about runs of actions after it.
- The second check of a search is any function that may panic: decoding a form from a tree key and parsing its date are not modelled. The tree is taken as fixed during a search.
- `Manager.RemoveAccount` signs with the current sequence instead of the next; `Building.BuiltIsAcceptedExactly` covers it as the case that is not accepted. The rest of the manager is left out except its block stream.
- `BlockStream.Manager.BlockStream` takes the events up to the `done` signal as a sequence; waiting, subscription errors and receipts are left out.
- `Execution.ExecuteAction` takes the input object not to be one of the objects a store is made of, which the program's types ensure.
- Date parsing: only the 16-byte minute prefix is modelled.
