/**
 * Properties of StatusMessage over whole histories of `set_status` calls.
 */
module Properties {
  import opened Near
  import opened StatusSpec

  /** One `set_status` call: who signed it and the message. */
  datatype Call = Call(signer: string, message: string)

  /** The distinct messages of a history. */
  function Messages(calls: seq<Call>): (r: set<string>)
    ensures forall i :: 0 <= i < |calls| ==> calls[i].message in r
  {
    if calls == [] then {} else {calls[0].message} + Messages(calls[1..])
  }

  /** A message is among the distinct messages exactly when some call carries it. */
  lemma {:induction false} MessagesOfCalls(calls: seq<Call>, m: string)
    ensures m in Messages(calls) <==> exists i :: 0 <= i < |calls| && calls[i].message == m
    decreases |calls|
  {
    if calls != [] && m != calls[0].message {
      MessagesOfCalls(calls[1..], m);
      if m in Messages(calls) {
        var i :| 0 <= i < |calls[1..]| && calls[1..][i].message == m;
        assert calls[i + 1].message == m;
      }
    }
  }

  /** Runs the calls one after another from `s`: the final state and the answer of each call. */
  function Run(v: Variant, s: ContractState, calls: seq<Call>): (r: (ContractState, seq<bool>))
    requires Valid(s)
    ensures Valid(r.0) && |r.1| == |calls|
    decreases |calls|
  {
    if calls == [] then (s, [])
    else
      var (s', answer) := SetStatus(v, s, calls[0].signer, calls[0].message);
      var (final, answers) := Run(v, s', calls[1..]);
      (final, [answer] + answers)
  }

  /** Membership is durable in every variant: after a history, the set holds
      exactly the messages it held before and the messages of the history. */
  lemma {:induction false} RunElements(v: Variant, s: ContractState, calls: seq<Call>)
    requires Valid(s)
    ensures Run(v, s, calls).0.setElements == s.setElements + Messages(calls)
    decreases |calls|
  {
    if calls != [] {
      var s' := SetStatus(v, s, calls[0].signer, calls[0].message).0;
      RunElements(v, s', calls[1..]);
    }
  }

  /** A call answers true exactly when its message was in no earlier call,
      whoever signed it. */
  lemma {:induction false} RunAnswers(v: Variant, s: ContractState, calls: seq<Call>, i: nat)
    requires Valid(s) && i < |calls|
    ensures Run(v, s, calls).1[i] <==> calls[i].message !in s.setElements + Messages(calls[..i])
    decreases |calls|
  {
    if i > 0 {
      var s' := SetStatus(v, s, calls[0].signer, calls[0].message).0;
      RunAnswers(v, s', calls[1..], i - 1);
      assert calls[..i] == [calls[0]] + calls[1..][..i - 1];
      assert Messages(calls[..i]) == {calls[0].message} + Messages(calls[1..][..i - 1]);
    } else {
      assert calls[..0] == [];
    }
  }

  /** Only the write-back after the insert changes the stored container;
      the other variants leave the cell exactly as it was. */
  lemma {:induction false} RunKeepsCell(v: Variant, s: ContractState, calls: seq<Call>)
    requires Valid(s) && v != WriteBackAfterInsert
    ensures Run(v, s, calls).0.cell == s.cell
    decreases |calls|
  {
    if calls != [] {
      var s' := SetStatus(v, s, calls[0].signer, calls[0].message).0;
      RunKeepsCell(v, s', calls[1..]);
    }
  }

  /** `other_business_field` is never changed after initialisation. */
  lemma {:induction false} RunKeepsBusinessField(v: Variant, s: ContractState, calls: seq<Call>)
    requires Valid(s)
    ensures Run(v, s, calls).0.cell.value.otherBusinessField == s.cell.value.otherBusinessField
    decreases |calls|
  {
    if calls != [] {
      var s' := SetStatus(v, s, calls[0].signer, calls[0].message).0;
      RunKeepsBusinessField(v, s', calls[1..]);
    }
  }

  /** With the write-back after the insert, the stored length keeps agreeing
      with the elements over any history. */
  lemma {:induction false} RunFixedConsistent(s: ContractState, calls: seq<Call>)
    requires Valid(s) && Consistent(s)
    ensures Consistent(Run(WriteBackAfterInsert, s, calls).0)
    decreases |calls|
  {
    if calls != [] {
      var s' := SetStatus(WriteBackAfterInsert, s, calls[0].signer, calls[0].message).0;
      RunFixedConsistent(s', calls[1..]);
    }
  }

  /** With the write-back after the insert, `unique_values_count` is the
      number of distinct messages ever passed to `set_status`. */
  lemma FixedCountsDistinct(calls: seq<Call>)
    ensures UniqueValuesCount(Run(WriteBackAfterInsert, New(), calls).0) == |Messages(calls)|
  {
    RunFixedConsistent(New(), calls);
    RunElements(WriteBackAfterInsert, New(), calls);
  }

  /** As written, `unique_values_count` stays 0 whatever the history, while
      `contains_message` still sees every message of it. */
  lemma AsWrittenCountStuck(calls: seq<Call>, m: string)
    ensures UniqueValuesCount(Run(AsWritten, New(), calls).0) == 0
    ensures ContainsMessage(Run(AsWritten, New(), calls).0, m) <==> m in Messages(calls)
  {
    RunKeepsCell(AsWritten, New(), calls);
    RunElements(AsWritten, New(), calls);
  }

  /** Uncommenting line 57 where it stands writes back the container before the
      insert: it behaves exactly as the code without it. */
  lemma Line57InPlaceIsAsWritten(s: ContractState, signer: string, message: string)
    requires Valid(s)
    ensures SetStatus(Line57InPlace, s, signer, message) == SetStatus(AsWritten, s, signer, message)
  {
  }

  /** An account's status after a history is the message of its last call. */
  lemma {:induction false} LastCallWins(v: Variant, s: ContractState, calls: seq<Call>, a: string, i: nat)
    requires Valid(s) && i < |calls| && calls[i].signer == a
    requires forall j :: i < j < |calls| ==> calls[j].signer != a
    ensures GetStatus(Run(v, s, calls).0, a) == Some(calls[i].message)
    decreases |calls|
  {
    var s' := SetStatus(v, s, calls[0].signer, calls[0].message).0;
    if i > 0 {
      LastCallWins(v, s', calls[1..], a, i - 1);
    } else {
      NoCallKeepsStatus(v, s', calls[1..], a);
    }
  }

  /** An account that signs no call keeps its status. */
  lemma {:induction false} NoCallKeepsStatus(v: Variant, s: ContractState, calls: seq<Call>, a: string)
    requires Valid(s)
    requires forall j :: 0 <= j < |calls| ==> calls[j].signer != a
    ensures GetStatus(Run(v, s, calls).0, a) == GetStatus(s, a)
    decreases |calls|
  {
    if calls != [] {
      var s' := SetStatus(v, s, calls[0].signer, calls[0].message).0;
      NoCallKeepsStatus(v, s', calls[1..], a);
    }
  }

  /** The history of the test `set_unique_message` (src/lib.rs:106-121). */
  function UniqueMessageCalls(): seq<Call>
  {
    [Call("bob_near", "hello"), Call("bob_near", "hello world"), Call("bob_near", "hello world"),
     Call("bob_near", "hello"), Call("bob_near", "hi")]
  }

  /** Every variant gives the answers the test expects. */
  lemma UniqueMessageAnswers(v: Variant)
    ensures Run(v, New(), UniqueMessageCalls()).1 == [true, true, false, false, true]
  {
    var calls := UniqueMessageCalls();
    var answers := Run(v, New(), calls).1;
    assert answers[0] by { PrefixMessages(); RunAnswers(v, New(), calls, 0); }
    assert answers[1] by { PrefixMessages(); RunAnswers(v, New(), calls, 1); }
    assert !answers[2] by { PrefixMessages(); RunAnswers(v, New(), calls, 2); }
    assert !answers[3] by { PrefixMessages(); RunAnswers(v, New(), calls, 3); }
    assert answers[4] by { PrefixMessages(); RunAnswers(v, New(), calls, 4); }
    assert answers == [true, true, false, false, true];
  }

  /** Only the write-back after the insert brings the count to the 3 distinct
      messages of the test; the other variants leave it at 0. */
  lemma UniqueMessageCount(v: Variant)
    ensures v == WriteBackAfterInsert ==> UniqueValuesCount(Run(v, New(), UniqueMessageCalls()).0) == 3
    ensures v != WriteBackAfterInsert ==> UniqueValuesCount(Run(v, New(), UniqueMessageCalls()).0) == 0
  {
    var calls := UniqueMessageCalls();
    if v == WriteBackAfterInsert {
      PrefixMessages();
      FixedCountsDistinct(calls);
    } else {
      RunKeepsCell(v, New(), calls);
    }
  }

  /** The distinct messages of each prefix of the test's history. */
  lemma PrefixMessages()
    ensures Messages(UniqueMessageCalls()[..0]) == {}
    ensures Messages(UniqueMessageCalls()[..1]) == {"hello"}
    ensures Messages(UniqueMessageCalls()[..2]) == {"hello", "hello world"}
    ensures Messages(UniqueMessageCalls()[..3]) == {"hello", "hello world"}
    ensures Messages(UniqueMessageCalls()[..4]) == {"hello", "hello world"}
    ensures Messages(UniqueMessageCalls()) == {"hello", "hello world", "hi"}
  {
    var calls := UniqueMessageCalls();
    assert calls[..0] == [];
    assert calls[..1] == [calls[0]];
    assert calls[..2] == [calls[0], calls[1]];
    assert calls[..3] == [calls[0], calls[1], calls[2]];
    assert calls[..4] == [calls[0], calls[1], calls[2], calls[3]];
  }
}
