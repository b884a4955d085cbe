/** Flattening: the messages of a payload, an array under msgs, become fields msg0, msg1, ... of their own. */
module Eip712Flatten {
  import opened Bytes
  import opened Json
  import opened Eip712Types

  datatype FlattenError = NoMessages | NotAnArray | FieldExists | MessageNotObject

  const MSGS := "msgs"

  /** sjson.Delete: without the first field of this name. */
  function Without(fields: seq<Field>, name: string): seq<Field> {
    if fields == [] then [] else if fields[0].name == name then fields[1..] else [fields[0]] + Without(fields[1..], name)
  }

  function MsgFields(msgs: seq<Value>): (r: seq<Field>)
    ensures |r| == |msgs| && forall i :: 0 <= i < |msgs| ==> r[i] == Field(MsgField(i), msgs[i])
  {
    if msgs == [] then [] else MsgFields(msgs[..|msgs| - 1]) + [Field(MsgField(|msgs| - 1), msgs[|msgs| - 1])]
  }

  /** The messages of a payload, when there is an array of objects under msgs and no field has the name that
      one of them will get. */
  predicate CanFlatten(payload: Value) {
    match Get(payload, MSGS)
    case Some(Array(msgs)) => forall i :: 0 <= i < |msgs| ==> msgs[i].Object? && Get(payload, MsgField(i)).None?
    case _ => false
  }

  /** The payload that FlattenPayloadMessages returns. */
  function Flattened(payload: Value): Value
    requires CanFlatten(payload)
  {
    Object(Without(payload.fields, MSGS) + MsgFields(Get(payload, MSGS).value.items))
  }

  /** When a payload can be flattened. */
  lemma CanFlattenMeans(payload: Value)
    ensures CanFlatten(payload) <==>
            exists msgs: seq<Value> :: Get(payload, "msgs") == Some(Array(msgs))
                           && forall i :: 0 <= i < |msgs| ==> msgs[i].Object? && Get(payload, "msg" + Decimal(i)).None?
  {
    hide Decimal, Lookup;
  }

  lemma {:induction false} WithoutParts(fields: seq<Field>, name: string) returns (a: seq<Field>, f: Field, b: seq<Field>)
    requires Lookup(fields, name).Some?
    ensures fields == a + [f] + b && f == Field(name, Lookup(fields, name).value)
    ensures forall x :: x in a ==> x.name != name
    ensures Without(fields, name) == a + b
  {
    if fields[0].name == name {
      a, f, b := [], fields[0], fields[1..];
    } else {
      var head, tail := fields[0], fields[1..];
      assert Without(fields, name) == [head] + Without(tail, name) && Lookup(fields, name) == Lookup(tail, name);
      assert fields == [head] + tail;
      hide Without, Lookup;
      var a';
      a', f, b := WithoutParts(tail, name);
      OneMoreInFront(head, a', f, b, name);
      a := [head] + a';
    }
  }

  lemma OneMoreInFront(head: Field, a: seq<Field>, f: Field, b: seq<Field>, name: string)
    ensures [head] + (a + [f] + b) == ([head] + a) + [f] + b && [head] + (a + b) == ([head] + a) + b
    ensures head.name != name && (forall x :: x in a ==> x.name != name) ==> forall x :: x in [head] + a ==> x.name != name
  {}

  /** What flattening leaves: the fields as they were but for the first one under msgs, then one field for each message. */
  lemma FlattenedLayout(payload: Value) returns (a: seq<Field>, msgs: seq<Value>, b: seq<Field>, added: seq<Field>)
    requires CanFlatten(payload)
    ensures payload.fields == a + [Field("msgs", Array(msgs))] + b && forall x :: x in a ==> x.name != "msgs"
    ensures Flattened(payload) == Object(a + b + added)
    ensures |added| == |msgs| && forall i :: 0 <= i < |msgs| ==> added[i] == Field("msg" + Decimal(i), msgs[i])
  {
    hide Decimal, Without;
    var f;
    a, f, b := WithoutParts(payload.fields, MSGS);
    msgs := f.value.items;
    added := MsgFields(msgs);
  }

  lemma {:induction false} LookupConcat(a: seq<Field>, b: seq<Field>, name: string)
    ensures Lookup(a + b, name) == if Lookup(a, name).Some? then Lookup(a, name) else Lookup(b, name)
  {
    if a == [] {
      assert a + b == b;
    } else {
      LookupConcat(a[1..], b, name);
      assert (a + b)[1..] == a[1..] + b;
    }
  }

  lemma {:induction false} LookupWithout(fields: seq<Field>, name: string, other: string)
    ensures other != name ==> Lookup(Without(fields, name), other) == Lookup(fields, other)
  {
    if fields != [] {
      LookupWithout(fields[1..], name, other);
      LookupConcat([fields[0]], Without(fields[1..], name), other);
    }
  }

  lemma {:induction false} WithoutConcat(a: seq<Field>, b: seq<Field>, name: string)
    requires Lookup(a, name).Some?
    ensures Without(a + b, name) == Without(a, name) + b
  {
    assert (a + b)[1..] == a[1..] + b;
    if a[0].name != name {
      WithoutConcat(a[1..], b, name);
    }
  }

  lemma MsgFieldInjective(i: nat, j: nat)
    requires MsgField(i) == MsgField(j)
    ensures i == j
  {
    assert MsgField(i)[3..] == Decimal(i) && MsgField(j)[3..] == Decimal(j);
    DecimalInjective(i, j);
  }

  lemma MsgFieldIsNotMsgs(i: nat)
    ensures MsgField(i) != MSGS
  {
    DecimalParses(i);
    assert MsgField(i)[3] == Decimal(i)[0];
  }

  /** What is found among the new fields: message i under its name, and nothing else. */
  lemma {:induction false} LookupMsgFields(msgs: seq<Value>, name: string)
    ensures forall i :: 0 <= i < |msgs| && name == MsgField(i) ==> Lookup(MsgFields(msgs), name) == Some(msgs[i])
    ensures Lookup(MsgFields(msgs), name).Some? ==> exists i :: 0 <= i < |msgs| && name == MsgField(i)
  {
    hide MsgField;
    forall i | 0 <= i < |msgs| && name == MsgField(i) ensures Lookup(MsgFields(msgs), name) == Some(msgs[i]) {
      assert MsgFields(msgs)[i].name == name;
      var r := Lookup(MsgFields(msgs), name);
      var j :| 0 <= j < |msgs| && MsgFields(msgs)[j] == Field(name, r.value);
      MsgFieldInjective(i, j);
    }
  }

  lemma MsgFieldsStep(msgs: seq<Value>, i: nat)
    requires i < |msgs|
    ensures MsgFields(msgs[..i + 1]) == MsgFields(msgs[..i]) + [Field(MsgField(i), msgs[i])]
  {}

  /** payloadWithNewMessage */
  method PayloadWithNewMessage(payload: Value, msg: Value, index: nat) returns (err: Option<FlattenError>, r: Value)
    requires payload.Object?
    ensures err == if Get(payload, MsgField(index)).Some? then Some(FieldExists)
                   else if !msg.Object? then Some(MessageNotObject)
                   else None
    ensures err.None? ==> r == Object(payload.fields + [Field(MsgField(index), msg)])
  {
    var field := MsgField(index);
    if Get(payload, field).Some? {
      return Some(FieldExists), Null;
    }
    if !msg.Object? {
      return Some(MessageNotObject), Null;
    }
    return None, Object(payload.fields + [Field(field, msg)]);
  }

  /** getPayloadMessages */
  method GetPayloadMessages(payload: Value) returns (err: Option<FlattenError>, msgs: seq<Value>)
    ensures err == match Get(payload, "msgs")
                   case None => Some(NoMessages)
                   case Some(v) => if v.Array? then None else Some(NotAnArray)
    ensures err.None? ==> Get(payload, "msgs") == Some(Array(msgs))
  {
    var rawMsgs := Get(payload, MSGS);
    if rawMsgs.None? {
      return Some(NoMessages), [];
    }
    if !rawMsgs.value.Array? {
      return Some(NotAnArray), [];
    }
    return None, rawMsgs.value.items;
  }

  /** FlattenPayloadMessages. On an error of a message all messages before it fit. */
  method FlattenPayloadMessages(payload: Value) returns (err: Option<FlattenError>, flattened: Value, n: nat)
    ensures err.None? <==> CanFlatten(payload)
    ensures err.None? ==> n == |Get(payload, "msgs").value.items| && flattened == Flattened(payload)
    ensures err == Some(NoMessages) <==> Get(payload, "msgs").None?
    ensures err == Some(NotAnArray) <==> Get(payload, "msgs").Some? && !Get(payload, "msgs").value.Array?
    ensures err in {Some(FieldExists), Some(MessageNotObject)} ==>
              Get(payload, "msgs").Some? && Get(payload, "msgs").value.Array?
              && var msgs := Get(payload, "msgs").value.items;
              exists i :: 0 <= i < |msgs| && (forall j :: 0 <= j < i ==> msgs[j].Object? && Get(payload, MsgField(j)).None?)
                          && if err == Some(FieldExists) then Get(payload, MsgField(i)).Some?
                             else Get(payload, MsgField(i)).None? && !msgs[i].Object?
  {
    hide MsgField, MsgFields, Get, Without, CanFlatten, Flattened, Lookup;
    NeedsMessages(payload);
    var msgs;
    err, msgs := GetPayloadMessages(payload);
    if err.Some? {
      return err, Null, 0;
    }
    flattened := payload;
    NoneAdded(payload, msgs);
    for i := 0 to |msgs|
      invariant flattened == Object(payload.fields + MsgFields(msgs[..i]))
      invariant forall j :: 0 <= j < i ==> msgs[j].Object? && Get(payload, MsgField(j)).None?
    {
      MsgFieldsStep(msgs, i);
      NewFieldIsFree(payload, msgs[..i]);
      EachMustFit(payload, i);
      err, flattened := PayloadWithNewMessage(flattened, msgs[i], i);
      if err.Some? {
        return err, Null, 0;
      }
      assert flattened.fields == payload.fields + MsgFields(msgs[..i + 1]);
    }
    assert msgs[..|msgs|] == msgs;
    AllFit(payload);
    DeleteFirstMsgs(payload, MsgFields(msgs));
    return None, Object(Without(flattened.fields, MSGS)), |msgs|;
  }

  lemma NeedsMessages(payload: Value)
    ensures CanFlatten(payload) ==> Get(payload, MSGS).Some? && Get(payload, MSGS).value.Array?
    ensures Get(payload, MSGS).Some? ==> payload.Object?
  {}

  lemma NoneAdded(payload: Value, msgs: seq<Value>)
    requires payload.Object?
    ensures MsgFields(msgs[..0]) == [] && payload.fields + MsgFields(msgs[..0]) == payload.fields
  {}

  lemma DeleteFirstMsgs(payload: Value, added: seq<Field>)
    requires Get(payload, MSGS).Some?
    ensures Without(payload.fields + added, MSGS) == Without(payload.fields, MSGS) + added
    ensures CanFlatten(payload) && added == MsgFields(Get(payload, MSGS).value.items) ==>
              Flattened(payload) == Object(Without(payload.fields + added, MSGS))
  {
    WithoutConcat(payload.fields, added, MSGS);
  }

  lemma EachMustFit(payload: Value, i: nat)
    requires Get(payload, MSGS).Some? && Get(payload, MSGS).value.Array? && i < |Get(payload, MSGS).value.items|
    ensures CanFlatten(payload) ==> Get(payload, MSGS).value.items[i].Object? && Get(payload, MsgField(i)).None?
  {
    hide MsgField, Get;
  }

  lemma AllFit(payload: Value)
    requires Get(payload, MSGS).Some? && Get(payload, MSGS).value.Array?
    requires var msgs := Get(payload, MSGS).value.items;
             forall i :: 0 <= i < |msgs| ==> msgs[i].Object? && Get(payload, MsgField(i)).None?
    ensures CanFlatten(payload)
  {
    hide MsgField, Get;
  }

  /** The fields added so far do not have the name of the next one. */
  lemma NewFieldIsFree(payload: Value, msgs: seq<Value>)
    requires payload.Object?
    ensures Get(Object(payload.fields + MsgFields(msgs)), MsgField(|msgs|)) == Get(payload, MsgField(|msgs|))
  {
    var fields := payload.fields;
    var name := MsgField(|msgs|);
    LookupConcat(fields, MsgFields(msgs), name);
    LookupMsgFields(msgs, name);
    if Lookup(MsgFields(msgs), name).Some? {
      var i :| 0 <= i < |msgs| && name == MsgField(i);
      MsgFieldInjective(i, |msgs|);
    }
  }

  /** How many fields have a name. */
  function Occurrences(fields: seq<Field>, name: string): nat {
    if fields == [] then 0 else (if fields[0].name == name then 1 else 0) + Occurrences(fields[1..], name)
  }

  /** One at most means that no two fields share the name. */
  lemma {:induction false} OccurrencesMeans(fields: seq<Field>, name: string)
    ensures Occurrences(fields, name) >= 1 <==> exists i :: 0 <= i < |fields| && fields[i].name == name
    ensures Occurrences(fields, name) >= 2 <==>
            exists i, j :: 0 <= i < j < |fields| && fields[i].name == name && fields[j].name == name
  {
    if fields != [] {
      var tail := fields[1..];
      OccurrencesMeans(tail, name);
      assert forall i :: 0 <= i < |tail| ==> tail[i] == fields[i + 1];
      assert forall i :: 1 <= i < |fields| ==> fields[i] == tail[i - 1];
    }
  }

  lemma {:induction false} WithoutOnce(fields: seq<Field>, name: string)
    requires Lookup(fields, name).Some?
    ensures Lookup(Without(fields, name), name).None? <==> Occurrences(fields, name) == 1
  {
    if fields[0].name == name {
      NoOccurrence(fields[1..], name);
    } else {
      WithoutOnce(fields[1..], name);
      LookupConcat([fields[0]], Without(fields[1..], name), name);
    }
  }

  lemma {:induction false} NoOccurrence(fields: seq<Field>, name: string)
    ensures Lookup(fields, name).None? <==> Occurrences(fields, name) == 0
  {
    if fields != [] {
      NoOccurrence(fields[1..], name);
    }
  }

  /** In the flattened payload message i is found as msg{i}, every other field as before, and msgs is gone
      exactly when the payload had it once. */
  lemma FlattenedFields(payload: Value, name: string)
    requires CanFlatten(payload)
    ensures var msgs, r := Get(payload, MSGS).value.items, Flattened(payload);
            && (forall i :: 0 <= i < |msgs| ==> Get(r, MsgField(i)) == Some(msgs[i]))
            && (name != MSGS && (forall i :: 0 <= i < |msgs| ==> name != MsgField(i)) ==> Get(r, name) == Get(payload, name))
            && (Get(r, MSGS).None? <==> Occurrences(payload.fields, MSGS) == 1)
  {
    var fields, msgs := payload.fields, Get(payload, MSGS).value.items;
    var rest := Without(fields, MSGS);
    hide MsgField, Without;
    forall i | 0 <= i < |msgs| ensures Lookup(rest + MsgFields(msgs), MsgField(i)) == Some(msgs[i]) {
      MsgFieldIsNotMsgs(i);
      LookupWithout(fields, MSGS, MsgField(i));
      LookupConcat(rest, MsgFields(msgs), MsgField(i));
      LookupMsgFields(msgs, MsgField(i));
    }
    LookupWithout(fields, MSGS, name);
    LookupConcat(rest, MsgFields(msgs), name);
    LookupMsgFields(msgs, name);
    WithoutOnce(fields, MSGS);
    LookupConcat(rest, MsgFields(msgs), MSGS);
    forall i | 0 <= i < |msgs| ensures MSGS != MsgField(i) {
      MsgFieldIsNotMsgs(i);
    }
    LookupMsgFields(msgs, MSGS);
  }

  /** The way back: the last n fields under msgs again. */
  function Restored(flattened: Value, n: nat): Value
    requires flattened.Object? && n <= |flattened.fields|
  {
    var k := |flattened.fields| - n;
    Object([Field(MSGS, Array(seq(n, i requires 0 <= i < n => flattened.fields[k + i].value)))] + flattened.fields[..k])
  }

  /** Nothing is lost: from the flattened payload and the number of messages one gets back a payload in
      which every name stands for what it stood for. */
  lemma FlattenThenRestore(payload: Value, name: string)
    requires CanFlatten(payload)
    ensures var n := |Get(payload, MSGS).value.items|;
            Get(Restored(Flattened(payload), n), name) == Get(payload, name)
  {
    var msgs, fields := Get(payload, MSGS).value.items, payload.fields;
    RestoredIs(Without(fields, MSGS), msgs);
    assert Flattened(payload) == Object(Without(fields, MSGS) + MsgFields(msgs));
    hide Restored, Flattened, CanFlatten, Without;
    LookupConcat([Field(MSGS, Array(msgs))], Without(fields, MSGS), name);
    LookupWithout(fields, MSGS, name);
  }

  lemma RestoredIs(rest: seq<Field>, msgs: seq<Value>)
    ensures Restored(Object(rest + MsgFields(msgs)), |msgs|) == Object([Field(MSGS, Array(msgs))] + rest)
  {
    hide MsgField, MsgFields;
    var all, added := rest + MsgFields(msgs), MsgFields(msgs);
    assert |all| - |msgs| == |rest| && all[..|rest|] == rest;
    var values := seq(|msgs|, i requires 0 <= i < |msgs| => all[|rest| + i].value);
    assert forall i :: 0 <= i < |msgs| ==> values[i] == added[i].value;
    assert values == msgs;
  }

  /** Two payloads that flatten to the same, with the same number of messages, agree on every name. */
  lemma FlatteningLosesNothing(p: Value, q: Value, name: string)
    requires CanFlatten(p) && CanFlatten(q)
    requires Flattened(p) == Flattened(q) && |Get(p, MSGS).value.items| == |Get(q, MSGS).value.items|
    ensures Get(p, name) == Get(q, name)
  {
    FlattenThenRestore(p, name);
    FlattenThenRestore(q, name);
  }

  /** createEIP712Types finds every message of a flattened payload: it fails only on a message whose type
      name is missing, or for too many definitions of one name. */
  lemma FlattenedHasMessages(payload: Value, i: nat)
    requires CanFlatten(payload) && i < |Get(payload, MSGS).value.items|
    ensures IsMessage(Flattened(payload), i) <==> MsgRootType(Get(payload, MSGS).value.items[i]).Some?
  {
    FlattenedFields(payload, MSGS);
    hide MsgField, MsgRootType, Without;
  }
}
