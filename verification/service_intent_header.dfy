/**
 * ServiceIntentHeader: the header of a service intent. Its one own int is the
 * flags; its third length-prefixed field is the action. Its fixed part is
 * 48 bytes.
 */
module ServiceIntentHeader {
  import opened Wrappers
  import opened ByteOrder
  import opened Fields
  import opened IntentHeader
  import IntentData

  type ServiceHeader = h: Header | h.Service? witness Service(DefaultCommon, 0, Absent, Absent, Absent)

  /**
   * The default constructor: every member zero, both components and the
   * action null with size 0, so `getSize` counts only the fixed part.
   */
  function New(): (h: ServiceHeader)
    ensures h.common == DefaultCommon && forall i :: 0 <= i < |Extras(h)| ==> Extras(h)[i] == 0
    ensures forall i :: 0 <= i < 3 ==> FieldList(h)[i].body.None?
    ensures WellFormed(h) && GetSize(h) == 4 * 12 && IntentType(h) == TYPE_SERVICE
  {
    var h := Service(DefaultCommon, 0, Absent, Absent, Absent);
    AbsentFields(FieldList(h));
    h
  }

  /** The default header is 48 bytes, all zero but the type code 2 in byte 7, and parses as a service. */
  lemma NewEncoding()
    ensures Encode(New()) == Success(Zeros(4 * 12)[7 := 2])
    ensures ParseIntentType(Encode(New()).value, 0) == Success(TYPE_SERVICE)
  {
    var h := New();
    BlankEncoding(h);
    TypeOfEncoding(h);
  }

  function SetFlags(h: ServiceHeader, flags: Int32): (r: ServiceHeader)
    ensures r.flags == flags && SameShape(r, h) && r.common == h.common
  {
    Service(h.common, flags, h.receiver, h.caller, h.action)
  }

  /** `setReceiverComponent(String)`: the size is the string's length, 0 for null. */
  function SetReceiverComponent(h: ServiceHeader, component: Option<Bytes>): (r: ServiceHeader)
    requires component.Some? ==> |component.value| < TWO_31
    ensures r.receiver.body == component
    ensures r.receiver.size == if component.Some? then |component.value| else 0
    ensures r.common == h.common && Extras(r) == Extras(h)
    ensures r.caller == h.caller && r.action == h.action
  {
    Service(h.common, h.flags, FromString(component), h.caller, h.action)
  }

  /** `setCallerComponent(String)`: the size is the string's length, 0 for null. */
  function SetCallerComponent(h: ServiceHeader, component: Option<Bytes>): (r: ServiceHeader)
    requires component.Some? ==> |component.value| < TWO_31
    ensures r.caller.body == component
    ensures r.caller.size == if component.Some? then |component.value| else 0
    ensures r.common == h.common && Extras(r) == Extras(h)
    ensures r.receiver == h.receiver && r.action == h.action
  {
    Service(h.common, h.flags, h.receiver, FromString(component), h.action)
  }

  /** `setAction(String)`: the size is the string's length, 0 for null. */
  function SetAction(h: ServiceHeader, action: Option<Bytes>): (r: ServiceHeader)
    requires action.Some? ==> |action.value| < TWO_31
    ensures r.action.body == action
    ensures r.action.size == if action.Some? then |action.value| else 0
    ensures r.common == h.common && Extras(r) == Extras(h)
    ensures r.receiver == h.receiver && r.caller == h.caller
  {
    Service(h.common, h.flags, h.receiver, h.caller, FromString(action))
  }

  /**
   * After the three field setters, `getSize()` is 48 plus the lengths set;
   * with 13, 11 and 4 bytes it is 76.
   */
  lemma SizeAfterSetters(h: ServiceHeader, receiver: Bytes, caller: Bytes, action: Bytes)
    requires 4 * 12 + |receiver| + |caller| + |action| < TWO_31
    ensures GetSize(SetAction(SetCallerComponent(SetReceiverComponent(h, Some(receiver)), Some(caller)), Some(action)))
      == 4 * 12 + |receiver| + |caller| + |action|
  {
    GetSizeFormula(SetAction(SetCallerComponent(SetReceiverComponent(h, Some(receiver)), Some(caller)), Some(action)));
  }

  /** `ServiceIntentHeaderTest.testGetSize`: components of 13 and 11 characters and a 4-character action give 76. */
  lemma TestSize(h: ServiceHeader, receiver: Bytes, caller: Bytes, action: Bytes)
    requires |receiver| == 13 && |caller| == 11 && |action| == 4
    ensures GetSize(SetAction(SetCallerComponent(SetReceiverComponent(h, Some(receiver)), Some(caller)), Some(action))) == 76
  {
    SizeAfterSetters(h, receiver, caller, action);
  }

  /**
   * The parsing constructor on a header's encoding followed by a payload's:
   * every getter of the result returns what the original's getter returns
   * (components and action up to null versus empty), the type is the
   * service code, and the attached data encodes as the payload did.
   */
  lemma ParserReadsBack(h: ServiceHeader, d: IntentData.Payload)
    requires WellFormed(h) && h.common.dataSize >= 0 && IntentData.WellFormed(d)
    ensures Encode(h).Success? && IntentData.Encode(d).Success?
    ensures var r := Decode(Encode(h).value + IntentData.Encode(d).value, 0, ServiceKind);
      && r.Success? && r.value.0.Service?
      && var g := r.value.0;
      && g.common.timestamp == h.common.timestamp && g.common.offset == h.common.offset
      && IntentType(g) == TYPE_SERVICE
      && g.common.callerUid == h.common.callerUid && g.common.callerPid == h.common.callerPid
      && g.common.receiverUid == h.common.receiverUid && g.common.receiverPid == h.common.receiverPid
      && g.common.userId == h.common.userId
      && g.flags == h.flags
      && Restored(g.receiver, h.receiver) && Restored(g.caller, h.caller) && Restored(g.action, h.action)
      && g.common.data.Some? && IntentData.Encode(g.common.data.value) == IntentData.Encode(d)
  {
    StreamReadsBack(h, d);
    var g := Decode(Encode(h).value + IntentData.Encode(d).value, 0, ServiceKind).value.0;
    assert Extras(g)[0] == Extras(h)[0];
  }
}
