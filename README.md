# StatusMessage: a NEAR contract with a lazily loaded unique-message set

This project models `StatusMessage` in Dafny and proves properties of the model. `StatusMessage` is a small NEAR smart contract. Each account records its latest status message in it. The contract also keeps a set of every distinct message any account has recorded. It answers three queries:

- an account's latest status;
- the number of distinct messages;
- whether a given message has been seen.

The contract keeps its durable state in three storage regions, each tagged by a `StorageKey`:

- `Records`: a `LookupMap` from account id to that account's latest message.
- `UniqueValues`: a `LazyOption` cell holding the serialised `UniqueValues` container. The container is the header of an `UnorderedSet` plus the placeholder counter `other_business_field`. The header holds the set's storage prefix and its length.
- `UniqueValuesSet`: the set's element index.

The model rests on one split between these regions:

- **Membership is durable at once.** The set's `insert` writes the element index straight to storage.
- **The length and `other_business_field` are durable only on write-back.** They live in the container, which `get()` loads from the cell. They reach storage only when the container is written back with `set()`.

`set_status` loads the container, inserts the message and never writes it back: the write-back on line 57 is commented out. So membership queries keep working, but the stored count never moves from 0.

Modules:

- `Near` (near.dfy): the storage-key tags, `Option`, and `u32`.
- `StatusSpec` (status_spec.dfy): the value-level specification. It defines the durable state `ContractState`, the invariant `Valid` (the cell holds a container and the three regions are distinct) and `Consistent` (the stored length equals the number of durable elements). It also defines every operation as a function; `GetStatus` and `ContainsMessage` there have no table row of their own, because they serve as the specifications of the class methods of the same names, which do. `set_status` has three write-back variants: `AsWritten`, `Line57InPlace` (line 57 uncommented where it stands) and `WriteBackAfterInsert` (the correction).
- `Contract` (status_message.dfy): the contract as a class whose fields are the three regions. Each method is proved against `StatusSpec`. The three unit tests of the source appear as client methods; they show that the class's contracts alone decide each test's outcome, while `Properties.UniqueMessageAnswers` and `UniqueMessageCount` state the same history for all three write-back variants, including `Line57InPlace`, which has no class method.
- `Properties` (properties.dfy): lemmas over whole histories of `set_status` calls.

The model assumes the near-sdk 3.x behaviour of the collections:

- `LazyOption::get` deserialises the stored value on every call.
- `LazyOption::set` serialises the value it is given at that moment.
- `UnorderedSet::insert` writes the element index at once and increments the length only in the in-memory struct.

The comment on src/lib.rs:55-56 calls for writing the container back with `set`; the code never does. The model follows the code: `Contract.StatusMessage.SetStatus` is the contract as written, and the corrected behaviour is `SetStatusFixed`.

## Model

| member | source | states |
|---|---|---|
| StatusSpec.NewContainer | src/lib.rs:28-34 | `UniqueValues::new` gives a container whose set lives in the region it is given, with length 0 and `other_business_field` 0 |
| StatusSpec.New | src/lib.rs:41-49 | after `new` the state is valid and consistent, every account's status is None, the count is 0, no message is contained, and `other_business_field` is 0 |
| StatusSpec.UniqueValuesCount | src/lib.rs:65-67 | the count is read from the stored container; when the state is consistent it equals the number of durable elements |
| StatusSpec.Insert | src/lib.rs:58 | the set's insert answers true iff the message was absent; the durable index gains the message; only the loaded copy's length grows, by one exactly when the message was new |
| StatusSpec.SetStatus | src/lib.rs:51-59 | the signer's status becomes the message and other accounts keep theirs; the answer is true iff the message was not yet contained; afterwards the message is contained and nothing else is added; `other_business_field` is unchanged; without the write-back after the insert the stored container is unchanged; with it the count grows by one exactly for a new message and consistency is preserved |
| Contract.StatusMessage.constructor | src/lib.rs:41-49 | the new object holds the state `New()`: empty records, an empty element index, and a cell holding an empty container |
| Contract.StatusMessage.SetStatus | src/lib.rs:51-59 | the contract as written: the new state and answer are `SetStatus(AsWritten, …)`; the records get the signer's message; the answer is true iff the message was absent; the element index gains the message; the stored container is unchanged |
| Contract.StatusMessage.SetStatusFixed | src/lib.rs:54-58 | `set_status` with the container written back after the insert: its effect is `SetStatus(WriteBackAfterInsert, …)` and it keeps the stored length consistent with the elements |
| Contract.StatusMessage.InsertInto | src/lib.rs:58 | the set's insert on the loaded copy updates the durable element index and returns the copy, as `Insert` specifies |
| Contract.StatusMessage.GetStatus | src/lib.rs:61-63 | returns the account's recorded message, or None exactly when the account has no record |
| Contract.StatusMessage.UniqueValuesCount | src/lib.rs:65-67 | returns the length in the stored container; when consistent, the number of durable elements |
| Contract.StatusMessage.ContainsMessage | src/lib.rs:69-75 | answers membership in the durable element index |
| Contract.SetGetMessage | src/lib.rs:94-104 | test `set_get_message`: after bob_near sets "hello", bob_near's status is "hello" |
| Contract.SetUniqueMessage | src/lib.rs:106-121 | test `set_unique_message` on the contract as written: the answers are true, true, false, false, true, and the count is then 0 |
| Contract.SetUniqueMessageFixed | src/lib.rs:106-121 | the same test with the write-back after the insert: the same answers, and the count is 3 |
| Contract.GetNonexistentMessage | src/lib.rs:123-132 | test `get_nonexistent_message`: a fresh contract has no status for francis.near |
| Properties.RunElements | src/lib.rs:58 | in every variant, after any history the element index is the earlier index plus every message of the history |
| Properties.RunAnswers | src/lib.rs:50-58 | each call answers true iff its message was neither already stored nor in any earlier call of the history, whichever account sent it |
| Properties.RunKeepsCell | src/lib.rs:54-57 | without the write-back after the insert, no history changes the stored container |
| Properties.RunKeepsBusinessField | src/lib.rs:16-19 | no history changes `other_business_field` |
| Properties.RunFixedConsistent | src/lib.rs:54-58 | with the write-back after the insert, every history keeps the stored length equal to the number of durable elements |
| Properties.FixedCountsDistinct | src/lib.rs:55-58 | with the write-back after the insert, the count after any history from `new` is the number of distinct messages in it |
| Properties.AsWrittenCountStuck | src/lib.rs:54-58 | as written, the count after any history from `new` is 0, while `contains_message` holds exactly for the messages of the history |
| Properties.Line57InPlaceIsAsWritten | src/lib.rs:57-58 | uncommenting line 57 where it stands, before the insert, gives exactly the behaviour of the code without it |
| Properties.LastCallWins | src/lib.rs:51-63 | an account's status after a history is the message of its last call in it |
| Properties.NoCallKeepsStatus | src/lib.rs:51-63 | an account that signs no call of a history keeps its status |
| Properties.UniqueMessageAnswers | src/lib.rs:106-121 | the history of `set_unique_message` gives the answers true, true, false, false, true in every variant |
| Properties.UniqueMessageCount | src/lib.rs:106-121 | after that history the count is 3 with the write-back after the insert, and 0 otherwise |

## Left out

- The NEAR runtime context (`env::signer_account_id`, the mocked blockchain of the tests): the signer is an explicit parameter of `set_status`.
- Borsh serialisation and the byte encoding of the storage keys: the three regions are distinct abstract tags.
- The internals of near_sdk's `LookupMap`, `UnorderedSet` and `LazyOption` beyond the split above. As written, the set pushes each new element at the stale stored length, so elements overwrite one another's slots in the set's element vector. The model keeps only the element index (membership), not the vector or iteration order.
- The loaded/unloaded states of the cell: every `get()` re-reads the stored container, so no cache is modelled.
- `ValidAccountId` validation and the JSON `U64` wrapper: account ids are strings and counts are `nat`.
- The `#[init]`, `#[near_bindgen]`, `PanicOnDefault` and `setup_alloc!` macros, including the rejection of a second initialisation.
- The `unwrap()` panics on a missing container (lines 54, 66, 72): no operation can reach them after `new`, which the invariant `Valid` states; every operation that loads the container requires it.
- Gas and storage staking.

## Findings

| source | as written | input that shows it | evidently intended | confidence | as-written member | corrected member |
|---|---|---|---|---|---|---|
| src/lib.rs:54-58 | the loaded container is changed by the insert and never written back, so the stored set length stays 0 | `set_status("hello")` on a new contract, then `unique_values_count()` gives 0 | the count is the number of distinct messages, here 1 | not executed; the comment on lines 55-56 names the hazard | Properties.AsWrittenCountStuck | Properties.FixedCountsDistinct |
| src/lib.rs:57 | the commented-out write-back sits before the insert on line 58, so uncommenting it stores the container as it was loaded | the history of `set_unique_message` with line 57 uncommented, then `unique_values_count()` gives 0 | write back after the insert, so the count is 3 | not executed; assumes `LazyOption::set` serialises its argument at the time of the call | Properties.Line57InPlaceIsAsWritten | Contract.StatusMessage.SetStatusFixed |
