# Relying-party credential store of the Vert.x FIDO2/WebAuthn how-to

The how-to keeps the authenticators its users register in `InMemoryStore`, a
plain list that the WebAuthn engine reaches through two callbacks:

- `fetcher(query)` returns the stored authenticators that a partial record
  matches. A query with a user name matches on the user name, and its
  credential ID is then ignored. A query without a user name but with a
  credential ID matches on the credential ID. A query with neither matches
  nothing.
- `updater(authenticator)` is an upsert keyed by credential ID. Every stored
  entry with that ID has its signature counter overwritten with the incoming
  one, unconditionally. If no entry had that ID, the record is appended.

The model has three modules:

- `Authenticators` (`authenticator.dfy`) holds the record. The fields the store
  never reads nor writes are kept as one `Details` value, so that "every other
  field is kept" can be stated.
- `Store` (`store.dfy`) gives both operations as functions over the stored
  sequence: `Matches` is the lookup filter, `Select` the filtered list,
  `SetCounters` and `Upsert` the update. `WellKeyed` is the primary-key
  invariant: every entry has a credential ID and no two share one. The lemmas
  connect lookups and upserts.
- `InMemoryStores` (`in_memory_store.dfy`) holds the class `InMemoryStore`.
  Its `database` field is a `seq` that `Updater` reassigns in a loop, in the
  way the source's stream updates the list. `Fetcher` is a function that
  `reads` the store, so it cannot change it. `Updater` is proved equal to
  `Store.Upsert` and keeps `WellKeyed`.

Points to note about the code:

- The lookup tries the user name first and the credential ID only when no user
  name is given.
- The upsert has no counter-monotonicity (clone-detection) check of the kind in
  section 6.1.1 of W3C Web Authentication Level 2. A replay with a lower
  counter is accepted and lowers the stored counter. `Store.LowerCounterIsAccepted`
  shows this on the register-0 / authenticate-5 / replay-3 example. No
  monotone variant is modelled.
- Duplicate credential IDs are not rejected. If they exist, the upsert
  overwrites the counter of all of them.

## Model

| member | source | states |
|---|---|---|
| Store.Select | src/main/java/howto/fido2/InMemoryStore.java:27-39 | the lookup keeps exactly the stored entries the filter accepts, with their multiplicities, as an order-preserving subsequence of the store |
| InMemoryStores.InMemoryStore.Fetcher | src/main/java/howto/fido2/InMemoryStore.java:26-41 | read-only lookup that keeps every matching entry as often as it is stored: with a user name, exactly the entries with that user name; else with a credential ID, exactly the entries with that ID; with neither, the empty list, never the whole store; always in stored order |
| Store.SelectIgnoresCredID | src/main/java/howto/fido2/InMemoryStore.java:30-32 | when the query has a user name, its credential ID does not affect the result |
| Store.SelectAppend | src/main/java/howto/fido2/InMemoryStore.java:28-39 | the lookup of a concatenated store is the concatenation of the lookups |
| Store.SelectByCredIDAtMostOne | src/main/java/howto/fido2/InMemoryStore.java:33-35 | when no two entries share a credential ID, a lookup by credential ID finds at most one entry |
| Store.SetCounters | src/main/java/howto/fido2/InMemoryStore.java:45-50 | the counter of every entry with the given credential ID becomes the incoming counter; credential ID, user name and the other fields are kept, and other entries are unchanged; the length is unchanged |
| InMemoryStores.InMemoryStore.Updater | src/main/java/howto/fido2/InMemoryStore.java:43-58 | the new store is the upsert of the old one, and the primary-key invariant is kept |
| Store.UpsertInsertsFresh | src/main/java/howto/fido2/InMemoryStore.java:52-56 | an unknown credential ID is appended at the end: the length grows by one and all earlier entries are unchanged |
| Store.UpsertUpdatesExisting | src/main/java/howto/fido2/InMemoryStore.java:45-53 | a known credential ID: every entry with it gets the incoming counter and keeps its other fields, other entries are untouched, and nothing is appended |
| Store.UpsertPreservesWellKeyed | src/main/java/howto/fido2/InMemoryStore.java:43-58 | the upsert keeps "every entry has a credential ID and no two share one" |
| Store.UpsertIdempotent | src/main/java/howto/fido2/InMemoryStore.java:43-58 | upserting the same record twice gives the same store as upserting it once |
| Store.SelectAfterUpsert | src/main/java/howto/fido2/InMemoryStore.java:26-58 | after upserting a record, a lookup by its credential ID without a user name is non-empty, and every entry found has the record's counter; with unique credential IDs it finds exactly one |
| Store.SelectAfterInsert | src/main/java/howto/fido2/InMemoryStore.java:26-58 | after inserting a record with an unknown credential ID, a lookup by that ID returns exactly that record |
| Store.SelectBothDevices | src/main/java/howto/fido2/InMemoryStore.java:26-58 | after one user registers two authenticators with different new credential IDs, a lookup by the user name finds both |
| Store.LowerCounterIsAccepted | src/main/java/howto/fido2/InMemoryStore.java:49 | the counter is overwritten unconditionally: after counters 0, 5 and then 3 for one credential, the store holds counter 3 |

## Left out

- Asynchrony: both operations return futures that have already succeeded. They are modelled as synchronous calls that cannot fail.
- Java reference aliasing, in both directions: the updater appends the caller's own object and later updates it in place, so the caller's copy changes too; and the lookup returns the stored objects themselves, so a caller that sets the counter of a fetched record changes the store without going through the updater. The model stores and returns records as values, so neither effect is captured.
- Updater: a `null` credential ID is ruled out by a precondition, as it is in `Upsert`. In the source it makes the updater throw a NullPointerException when the store is non-empty. On an empty store the filter never runs, so the record is appended without a credential ID; later lookups by credential ID and upserts never match it. `WellKeyed`'s "every entry has a credential ID" holds only because of that precondition.
- Counter width: the counter is a Java `long`. The store only copies it and never computes with it, so it is modelled as an unbounded `int`.
- Concurrency: the list is an unsynchronised `ArrayList`, and the model is sequential.
- Clone detection, counter monotonicity and deletion: none of them exists in the source, so none is modelled.
- The WebAuthn ceremony, the Vert.x router, session and TLS setup in `MainVerticle.java`, and the browser code in `main.js` are not part of this model. The only link from them to the store is the wiring of `fetcher` and `updater` into the engine, at src/main/java/howto/fido2/MainVerticle.java:41-42.
