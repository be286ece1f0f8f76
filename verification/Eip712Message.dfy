/** Flattening a payload's messages into fields of their own: ethereum/eip712/message.go. */
module Eip712Message {
  import opened Prelude
  import opened Strings
  import opened Json

  datatype Error = NoMessages | NotAnArray | ClashingField(field: string) | NotAnObject(index: nat)

  const MSGS := "msgs"

  /** msgFieldForIndex */
  function MsgField(i: nat): string {
    "msg" + Decimal(i)
  }

  lemma MsgFieldIsInjective(i: nat, j: nat)
    requires MsgField(i) == MsgField(j)
    ensures i == j
  {
    assert MsgField(i)[3..] == Decimal(i) && MsgField(j)[3..] == Decimal(j);
    DecimalIsInjective(i, j);
  }

  lemma MsgFieldIsNotMsgs(i: nat)
    ensures MsgField(i) != MSGS
  {
    DecimalReads(i);
    assert MsgField(i)[3] == Decimal(i)[0];
    assert MSGS[3] == 's';
  }

  // ---------- Specification ----------

  /** The messages, if there is an array of them; null stands for none. */
  function Messages(fields: map<string, Json>): Result<seq<Json>, Error> {
    if MSGS !in fields then Err(NoMessages)
    else if fields[MSGS].Null? then Ok([])
    else if !fields[MSGS].Array? then Err(NotAnArray)
    else Ok(fields[MSGS].elems)
  }

  /** The payload with the first n messages added under their own fields. */
  function WithMessages(fields: map<string, Json>, msgs: seq<Json>, n: nat): map<string, Json>
    requires n <= |msgs|
  {
    if n == 0 then fields else WithMessages(fields, msgs, n - 1)[MsgField(n - 1) := msgs[n - 1]]
  }

  function Flattened(fields: map<string, Json>, msgs: seq<Json>): map<string, Json> {
    WithMessages(fields, msgs, |msgs|) - {MSGS}
  }

  /** What a payload must look like: an array of object messages, or null, and no field that a message will take. */
  ghost predicate Flattenable(fields: map<string, Json>) {
    && Messages(fields).Ok?
    && forall i | 0 <= i < |Messages(fields).value| :: Acceptable(fields, i)
  }

  predicate Acceptable(fields: map<string, Json>, i: nat)
    requires Messages(fields).Ok? && i < |Messages(fields).value|
  {
    Messages(fields).value[i].Object? && MsgField(i) !in fields
  }

  /** Message i is the first that cannot be flattened, for this reason. */
  ghost predicate FirstOffence(fields: map<string, Json>, i: nat, e: Error)
    requires Messages(fields).Ok?
  {
    && i < |Messages(fields).value| && !Acceptable(fields, i)
    && (forall j | 0 <= j < i :: Acceptable(fields, j))
    && e == if MsgField(i) in fields then ClashingField(MsgField(i)) else NotAnObject(i)
  }

  lemma {:induction false} WithMessagesLookup(fields: map<string, Json>, msgs: seq<Json>, n: nat)
    requires n <= |msgs|
    ensures forall i | 0 <= i < n ::
              MsgField(i) in WithMessages(fields, msgs, n) && WithMessages(fields, msgs, n)[MsgField(i)] == msgs[i]
    ensures forall k | (forall i | 0 <= i < n :: k != MsgField(i)) ::
              && (k in WithMessages(fields, msgs, n) <==> k in fields)
              && (k in fields ==> WithMessages(fields, msgs, n)[k] == fields[k])
  {
    if n > 0 {
      WithMessagesLookup(fields, msgs, n - 1);
      forall i | 0 <= i < n ensures MsgField(i) == MsgField(n - 1) ==> i == n - 1 {
        if MsgField(i) == MsgField(n - 1) { MsgFieldIsInjective(i, n - 1); }
      }
    }
  }

  /** A message's own field is free exactly if the payload did not have it to begin with. */
  lemma FieldIsFree(fields: map<string, Json>, msgs: seq<Json>, n: nat)
    requires n <= |msgs|
    ensures MsgField(n) in WithMessages(fields, msgs, n) <==> MsgField(n) in fields
  {
    WithMessagesLookup(fields, msgs, n);
    forall i | 0 <= i < n ensures MsgField(n) != MsgField(i) {
      if MsgField(n) == MsgField(i) { MsgFieldIsInjective(n, i); }
    }
  }

  // ---------- The implementation ----------

  /** payloadWithNewMessage */
  function WithNewMessage(payload: map<string, Json>, msg: Json, index: nat): Result<map<string, Json>, Error> {
    if MsgField(index) in payload then Err(ClashingField(MsgField(index)))
    else if !msg.Object? then Err(NotAnObject(index))
    else Ok(payload[MsgField(index) := msg])
  }

  /** FlattenPayloadMessages succeeds exactly on flattenable payloads, and returns the count with the result. */
  method FlattenPayloadMessages(payload: map<string, Json>) returns (r: Result<(map<string, Json>, nat), Error>)
    ensures r.Ok? <==> Flattenable(payload)
    ensures r.Ok? ==> r.value == (Flattened(payload, Messages(payload).value), |Messages(payload).value|)
    ensures r.Err? ==> if Messages(payload).Err? then r.error == Messages(payload).error
                       else exists i :: FirstOffence(payload, i, r.error)
  {
    var msgs := Messages(payload);
    if msgs.Err? {
      return Err(msgs.error);
    }
    var flattened := payload;
    for i := 0 to |msgs.value|
      invariant flattened == WithMessages(payload, msgs.value, i)
      invariant forall j | 0 <= j < i :: Acceptable(payload, j)
    {
      FieldIsFree(payload, msgs.value, i);
      var next := WithNewMessage(flattened, msgs.value[i], i);
      if next.Err? {
        assert FirstOffence(payload, i, next.error);
        return Err(next.error);
      }
      flattened := next.value;
    }
    return Ok((flattened - {MSGS}, |msgs.value|));
  }

  /** Two messages and another field, flattened. */
  lemma FlattenExample(a: Json, b: Json, memo: Json)
    requires a.Object? && b.Object?
    ensures var payload: map<string, Json> := map["msgs" := Array([a, b]), "memo" := memo];
            && Flattenable(payload) && Messages(payload) == Ok([a, b])
            && Flattened(payload, [a, b]) == map["msg0" := a, "msg1" := b, "memo" := memo]
  {
    var payload: map<string, Json> := map["msgs" := Array([a, b]), "memo" := memo];
    assert "msgs"[1] == 's' && "memo"[1] == 'e' && |"msg0"| == |"msg1"| == |"msgs"| == 4;
    assert "msg0"[3] == '0' && "msg1"[3] == '1' && "msgs"[3] == 's';
    assert MsgField(0) == "msg0" && MsgField(1) == "msg1";
    assert WithMessages(payload, [a, b], 1) == payload["msg0" := a];
    assert WithMessages(payload, [a, b], 2) == payload["msg0" := a]["msg1" := b];
  }

  // ---------- Flattening is reversible ----------

  /** Takes the first n message fields out and puts them back as an array. */
  function Unflattened(flat: map<string, Json>, n: nat): map<string, Json>
    requires forall i | 0 <= i < n :: MsgField(i) in flat
  {
    (flat - set i | 0 <= i < n :: MsgField(i))[MSGS := Array(seq(n, i requires 0 <= i < n => flat[MsgField(i)]))]
  }

  /**
   Rebuilding the array from the returned count restores the payload with all its other
   fields, exactly if its messages were an array: null messages come back as an empty array.
   */
  lemma FlatteningIsReversible(fields: map<string, Json>)
    requires Flattenable(fields)
    ensures var msgs := Messages(fields).value;
            var flat := Flattened(fields, msgs);
            && (forall i | 0 <= i < |msgs| :: MsgField(i) in flat)
            && (Unflattened(flat, |msgs|) == fields <==> fields[MSGS].Array?)
            && Unflattened(flat, |msgs|) == fields[MSGS := Array(msgs)]
  {
    var msgs := Messages(fields).value;
    var n := |msgs|;
    var flat := Flattened(fields, msgs);
    WithMessagesLookup(fields, msgs, n);
    forall i | 0 <= i < n ensures MsgField(i) in flat && flat[MsgField(i)] == msgs[i] && MsgField(i) !in fields {
      MsgFieldIsNotMsgs(i);
      assert Acceptable(fields, i);
    }
    assert seq(n, i requires 0 <= i < n => flat[MsgField(i)]) == msgs;
    var taken := set i | 0 <= i < n :: MsgField(i);
    var back := Unflattened(flat, n);
    forall k | k != MSGS ensures (k in back <==> k in fields) && (k in fields ==> back[k] == fields[k]) {
      assert k in taken <==> exists i :: 0 <= i < n && MsgField(i) == k;
    }
    assert back == fields[MSGS := Array(msgs)];
  }

  /** With null messages the payload is not restored. */
  lemma NullIsNotRestored()
    ensures var fields: map<string, Json> := map[MSGS := Null];
            && Flattenable(fields) && Flattened(fields, []) == map[]
            && Unflattened(map[], 0) == map[MSGS := Array([])] != fields
  {
    var fields: map<string, Json> := map[MSGS := Null];
    FlatteningIsReversible(fields);
    assert WithMessages(fields, [], 0) == fields && fields - {MSGS} == map[];
    assert fields[MSGS := Array([])] == map[MSGS := Array([])];
    assert (map[MSGS := Array([])])[MSGS] != fields[MSGS];
  }

  /**
   There is one first offence, hence one error.  A clash is an error whatever else is wrong,
   and it is the one reported if all messages before it are fine.
   */
  lemma {:induction false} ClashIsReported(fields: map<string, Json>, i: nat) returns (j: nat, e: Error)
    requires Messages(fields).Ok? && i < |Messages(fields).value| && MsgField(i) in fields
    ensures !Flattenable(fields) && j <= i && FirstOffence(fields, j, e)
    ensures forall k, d | FirstOffence(fields, k, d) :: k == j && d == e
    ensures (forall k | 0 <= k < i :: Acceptable(fields, k)) ==> e == ClashingField(MsgField(i))
  {
    j := 0;
    while Acceptable(fields, j)
      invariant j <= i && forall k | 0 <= k < j :: Acceptable(fields, k)
      decreases i - j
    {
      j := j + 1;
    }
    e := if MsgField(j) in fields then ClashingField(MsgField(j)) else NotAnObject(j);
  }
}
