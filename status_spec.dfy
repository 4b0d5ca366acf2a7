/**
 * Value-level specification of the StatusMessage contract (src/lib.rs).
 *
 * The contract's durable state is split over three regions:
 *  - the `Records` region holds the `LookupMap` from account id to latest message;
 *  - the `UniqueValues` region holds the lazily loaded cell with the serialised
 *    `UniqueValues` container: the header of its `UnorderedSet` (the region its
 *    elements live in and its stored length) and `other_business_field`;
 *  - the `UniqueValuesSet` region holds the set's element index, which the set's
 *    `insert` writes at once.
 * The set's length and `other_business_field` reach durable storage only when
 * the cell is written back; membership is durable as soon as it is inserted.
 */
module StatusSpec {
  import opened Near

  /** The serialised header of a near_sdk `UnorderedSet`. */
  datatype SetHeader = SetHeader(prefix: StorageKey, len: nat)

  /** The `UniqueValues` container (src/lib.rs:16-19) as serialised in the cell. */
  datatype Container = Container(uniqueValues: SetHeader, otherBusinessField: U32)

  /** The durable state of the whole contract. */
  datatype ContractState = ContractState(
    recordsPrefix: StorageKey,
    records: map<string, string>,
    cellKey: StorageKey,
    cell: Option<Container>,
    setElements: set<string>)

  /** The state every operation after `new` can rely on: the cell holds a
      container (so no `unwrap` panics) and the three regions are distinct.
      The regions are separate fields here, so the distinctness conjunct only
      records the key layout that `new` sets up; no proof depends on it. */
  predicate Valid(s: ContractState)
  {
    && s.cell.Some?
    && PairwiseDistinct(s.recordsPrefix, s.cellKey, s.cell.value.uniqueValues.prefix)
  }

  /** The stored length of the set agrees with its durable elements. */
  predicate Consistent(s: ContractState)
    requires Valid(s)
  {
    s.cell.value.uniqueValues.len == |s.setElements|
  }

  /** `UniqueValues::new` (src/lib.rs:29-34). */
  function NewContainer(setPrefix: StorageKey): (c: Container)
    ensures c.uniqueValues.prefix == setPrefix
    ensures c.uniqueValues.len == 0 && c.otherBusinessField == 0
  {
    Container(SetHeader(setPrefix, 0), 0)
  }

  /** `StatusMessage::new` (src/lib.rs:41-49): an empty record map and a cell
      holding an empty container. */
  function New(): (s: ContractState)
    ensures Valid(s) && Consistent(s)
    ensures forall a :: GetStatus(s, a) == None
    ensures UniqueValuesCount(s) == 0
    ensures forall m :: !ContainsMessage(s, m)
    ensures s.cell.value.otherBusinessField == 0
  {
    ContractState(Records, map[], UniqueValues, Some(NewContainer(UniqueValuesSet)), {})
  }

  /** `get_status` (src/lib.rs:61-63). */
  function GetStatus(s: ContractState, accountId: string): Option<string>
  {
    if accountId in s.records then Some(s.records[accountId]) else None
  }

  /** `unique_values_count` (src/lib.rs:65-67): the length read from the
      container stored in the cell. */
  function UniqueValuesCount(s: ContractState): (n: nat)
    requires Valid(s)
    ensures Consistent(s) ==> n == |s.setElements|
  {
    s.cell.value.uniqueValues.len
  }

  /** `contains_message` (src/lib.rs:69-75): a look-up in the set's element index. */
  function ContainsMessage(s: ContractState, message: string): bool
    requires Valid(s)
  {
    message in s.setElements
  }

  /** `UnorderedSet::insert` on a container loaded from the cell: the element
      index is written durably at once, the length only in the loaded copy.
      Yields the updated copy, the updated index and whether the element was new. */
  function Insert(loaded: Container, elements: set<string>, message: string): (r: (Container, set<string>, bool))
    ensures r.2 <==> message !in elements
    ensures r.1 == elements + {message}
    ensures r.0.uniqueValues.prefix == loaded.uniqueValues.prefix
    ensures r.0.otherBusinessField == loaded.otherBusinessField
    ensures r.0.uniqueValues.len == loaded.uniqueValues.len + (if r.2 then 1 else 0)
  {
    if message in elements then (loaded, elements, false)
    else (loaded.(uniqueValues := loaded.uniqueValues.(len := loaded.uniqueValues.len + 1)),
          elements + {message}, true)
  }

  /** Where `set_status` writes the loaded container back to the cell:
      - AsWritten: nowhere (src/lib.rs:57 is commented out);
      - Line57InPlace: line 57 uncommented where it stands, before the insert;
      - WriteBackAfterInsert: after the insert, so the new length is stored. */
  datatype Variant = AsWritten | Line57InPlace | WriteBackAfterInsert

  /** `set_status` (src/lib.rs:51-59) by `signer`: the new state and whether the
      message was new. */
  function SetStatus(v: Variant, s: ContractState, signer: string, message: string): (r: (ContractState, bool))
    requires Valid(s)
    ensures Valid(r.0)
    ensures GetStatus(r.0, signer) == Some(message)
    ensures forall a :: a != signer ==> GetStatus(r.0, a) == GetStatus(s, a)
    ensures r.1 <==> !ContainsMessage(s, message)
    ensures forall m :: ContainsMessage(r.0, m) <==> ContainsMessage(s, m) || m == message
    ensures r.0.cell.value.otherBusinessField == s.cell.value.otherBusinessField
    ensures v != WriteBackAfterInsert ==> r.0.cell == s.cell
    ensures v == WriteBackAfterInsert ==>
              UniqueValuesCount(r.0) == UniqueValuesCount(s) + (if r.1 then 1 else 0)
    ensures v == WriteBackAfterInsert && Consistent(s) ==> Consistent(r.0)
  {
    var records := s.records[signer := message];
    var loaded := s.cell.value;
    var cell := if v == Line57InPlace then Some(loaded) else s.cell;
    var (loaded', elements, isNew) := Insert(loaded, s.setElements, message);
    var cell' := if v == WriteBackAfterInsert then Some(loaded') else cell;
    (s.(records := records, cell := cell', setElements := elements), isNew)
  }
}
