/**
 * The StatusMessage contract (src/lib.rs:21-76) as an object whose fields are
 * its three durable regions. Each method is proved against the value-level
 * specification in StatusSpec; the signer that the NEAR runtime supplies is an
 * explicit parameter of `set_status`.
 */
module Contract {
  import opened Near
  import opened StatusSpec

  class StatusMessage {
    /** The `LookupMap` of records and the region it lives in. */
    var recordsPrefix: StorageKey
    var records: map<string, string>
    /** The `LazyOption`'s durable slot and the region it lives in. */
    var cellKey: StorageKey
    var uniqueValues: Option<Container>
    /** The element index of the `UnorderedSet` inside the container. */
    var setElements: set<string>

    /** The durable state these fields hold. */
    function State(): ContractState
      reads this
    {
      ContractState(recordsPrefix, records, cellKey, uniqueValues, setElements)
    }

    ghost predicate Valid()
      reads this
    {
      StatusSpec.Valid(State())
    }

    /** `StatusMessage::new` (src/lib.rs:41-49). */
    constructor ()
      ensures Valid()
      ensures State() == New()
      ensures records == map[] && setElements == {}
    {
      recordsPrefix := Records;
      records := map[];
      cellKey := UniqueValues;
      uniqueValues := Some(NewContainer(UniqueValuesSet));
      setElements := {};
    }

    /** `set_status` as written (src/lib.rs:51-59): the container loaded from the
        cell is changed and never written back. */
    method SetStatus(signer: string, message: string) returns (isNew: bool)
      requires Valid()
      modifies this
      ensures Valid()
      ensures (State(), isNew) == StatusSpec.SetStatus(AsWritten, old(State()), signer, message)
      ensures records == old(records)[signer := message]
      ensures isNew <==> message !in old(setElements)
      ensures setElements == old(setElements) + {message}
      ensures uniqueValues == old(uniqueValues)
    {
      records := records[signer := message];
      var loaded := uniqueValues.value;
      isNew, loaded := InsertInto(loaded, message);
    }

    /** `set_status` with the container written back after the insert, so the
        stored length follows the elements. */
    method SetStatusFixed(signer: string, message: string) returns (isNew: bool)
      requires Valid()
      modifies this
      ensures Valid()
      ensures (State(), isNew) == StatusSpec.SetStatus(WriteBackAfterInsert, old(State()), signer, message)
      ensures records == old(records)[signer := message]
      ensures isNew <==> message !in old(setElements)
      ensures setElements == old(setElements) + {message}
      ensures old(Consistent(State())) ==> Consistent(State())
    {
      records := records[signer := message];
      var loaded := uniqueValues.value;
      isNew, loaded := InsertInto(loaded, message);
      uniqueValues := Some(loaded);
    }

    /** `UnorderedSet::insert` on a loaded copy of the container: writes the
        element index at once and returns the copy with its length bumped. */
    method InsertInto(loaded: Container, message: string) returns (isNew: bool, loaded': Container)
      modifies this`setElements
      ensures (loaded', setElements, isNew) == Insert(loaded, old(setElements), message)
    {
      isNew := message !in setElements;
      loaded' := loaded;
      if isNew {
        setElements := setElements + {message};
        loaded' := loaded.(uniqueValues := loaded.uniqueValues.(len := loaded.uniqueValues.len + 1));
      }
    }

    /** `get_status` (src/lib.rs:61-63). */
    method GetStatus(accountId: string) returns (r: Option<string>)
      ensures r == StatusSpec.GetStatus(State(), accountId)
      ensures r.Some? <==> accountId in records
    {
      if accountId in records {
        r := Some(records[accountId]);
      } else {
        r := None;
      }
    }

    /** `unique_values_count` (src/lib.rs:65-67): reads the container back from the cell. */
    method UniqueValuesCount() returns (n: nat)
      requires Valid()
      ensures n == StatusSpec.UniqueValuesCount(State())
      ensures Consistent(State()) ==> n == |setElements|
    {
      var loaded := uniqueValues.value;
      n := loaded.uniqueValues.len;
    }

    /** `contains_message` (src/lib.rs:69-75). */
    method ContainsMessage(message: string) returns (b: bool)
      requires Valid()
      ensures b == StatusSpec.ContainsMessage(State(), message)
    {
      b := message in setElements;
    }
  }

  /** The test `set_get_message` (src/lib.rs:94-104): bob_near's status is the
      message bob_near set. */
  method SetGetMessage() returns (status: Option<string>)
    ensures status == Some("hello")
  {
    var contract := new StatusMessage();
    var _ := contract.SetStatus("bob_near", "hello");
    status := contract.GetStatus("bob_near");
  }

  /** The test `set_unique_message` (src/lib.rs:106-121) on the contract as
      written: every answer the test expects, yet the stored count stays 0. */
  method SetUniqueMessage() returns (answers: seq<bool>, count: nat)
    ensures answers == [true, true, false, false, true]
    ensures count == 0
  {
    var contract := new StatusMessage();
    var a0 := contract.SetStatus("bob_near", "hello");
    var a1 := contract.SetStatus("bob_near", "hello world");
    var a2 := contract.SetStatus("bob_near", "hello world");
    var a3 := contract.SetStatus("bob_near", "hello");
    var a4 := contract.SetStatus("bob_near", "hi");
    answers := [a0, a1, a2, a3, a4];
    count := contract.UniqueValuesCount();
  }

  /** The same test with the write-back after the insert: the count is the
      number of distinct messages, 3. */
  method SetUniqueMessageFixed() returns (answers: seq<bool>, count: nat)
    ensures answers == [true, true, false, false, true]
    ensures count == 3
  {
    var contract := new StatusMessage();
    var a0 := contract.SetStatusFixed("bob_near", "hello");
    var a1 := contract.SetStatusFixed("bob_near", "hello world");
    var a2 := contract.SetStatusFixed("bob_near", "hello world");
    var a3 := contract.SetStatusFixed("bob_near", "hello");
    var a4 := contract.SetStatusFixed("bob_near", "hi");
    answers := [a0, a1, a2, a3, a4];
    count := contract.UniqueValuesCount();
  }

  /** The test `get_nonexistent_message` (src/lib.rs:123-132). */
  method GetNonexistentMessage() returns (status: Option<string>)
    ensures status == None
  {
    var contract := new StatusMessage();
    status := contract.GetStatus("francis.near");
  }
}
