/**
 * BroadcastIntentHeader: the header of a broadcast intent. Its own ints are
 * the request code and the flags; its third length-prefixed field is the
 * required permission. Its parsing constructor reads the intent data through
 * a view starting at the cursor, so the cursor stays before the data.
 */
module BroadcastIntentHeader {
  import opened Wrappers
  import opened ByteOrder
  import opened Fields
  import opened IntentHeader
  import IntentData

  type BroadcastHeader = h: Header | h.Broadcast? witness Broadcast(DefaultCommon, 0, 0, Absent, Absent, Absent)

  /**
   * The default constructor: every member zero, both components and the
   * permission null with size 0, so `getSize` counts only the fixed part.
   */
  function New(): (h: BroadcastHeader)
    ensures h.common == DefaultCommon && forall i :: 0 <= i < |Extras(h)| ==> Extras(h)[i] == 0
    ensures forall i :: 0 <= i < 3 ==> FieldList(h)[i].body.None?
    ensures WellFormed(h) && GetSize(h) == 4 * 13 && IntentType(h) == TYPE_BROADCAST
  {
    var h := Broadcast(DefaultCommon, 0, 0, Absent, Absent, Absent);
    AbsentFields(FieldList(h));
    h
  }

  /** The default header is 52 bytes, all zero but the type code 1 in byte 7, and parses as a broadcast. */
  lemma NewEncoding()
    ensures Encode(New()) == Success(Zeros(4 * 13)[7 := 1])
    ensures ParseIntentType(Encode(New()).value, 0) == Success(TYPE_BROADCAST)
  {
    var h := New();
    BlankEncoding(h);
    TypeOfEncoding(h);
  }

  function SetRequestCode(h: BroadcastHeader, code: Int32): (r: BroadcastHeader)
    ensures r.requestCode == code && SameShape(r, h)
    ensures r.common == h.common && r.flags == h.flags
  {
    Broadcast(h.common, code, h.flags, h.receiver, h.caller, h.permission)
  }

  function SetFlags(h: BroadcastHeader, flags: Int32): (r: BroadcastHeader)
    ensures r.flags == flags && SameShape(r, h)
    ensures r.common == h.common && r.requestCode == h.requestCode
  {
    Broadcast(h.common, h.requestCode, flags, h.receiver, h.caller, h.permission)
  }

  /** `setReceiverComponent(String)`: the size is the string's length, 0 for null. */
  function SetReceiverComponent(h: BroadcastHeader, component: Option<Bytes>): (r: BroadcastHeader)
    requires component.Some? ==> |component.value| < TWO_31
    ensures r.receiver.body == component
    ensures r.receiver.size == if component.Some? then |component.value| else 0
    ensures r.common == h.common && Extras(r) == Extras(h)
    ensures r.caller == h.caller && r.permission == h.permission
  {
    Broadcast(h.common, h.requestCode, h.flags, FromString(component), h.caller, h.permission)
  }

  /** `setCallerComponent(String)`: the size is the string's length, 0 for null. */
  function SetCallerComponent(h: BroadcastHeader, component: Option<Bytes>): (r: BroadcastHeader)
    requires component.Some? ==> |component.value| < TWO_31
    ensures r.caller.body == component
    ensures r.caller.size == if component.Some? then |component.value| else 0
    ensures r.common == h.common && Extras(r) == Extras(h)
    ensures r.receiver == h.receiver && r.permission == h.permission
  {
    Broadcast(h.common, h.requestCode, h.flags, h.receiver, FromString(component), h.permission)
  }

  /** `setRequiredPermission(String)`: the size is the string's length, 0 for null. */
  function SetRequiredPermission(h: BroadcastHeader, permission: Option<Bytes>): (r: BroadcastHeader)
    requires permission.Some? ==> |permission.value| < TWO_31
    ensures r.permission.body == permission
    ensures r.permission.size == if permission.Some? then |permission.value| else 0
    ensures r.common == h.common && Extras(r) == Extras(h)
    ensures r.receiver == h.receiver && r.caller == h.caller
  {
    Broadcast(h.common, h.requestCode, h.flags, h.receiver, h.caller, FromString(permission))
  }

  /**
   * After the three field setters, `getSize()` is 52 plus the lengths set;
   * with 13, 11 and 27 bytes it is 103.
   */
  lemma SizeAfterSetters(h: BroadcastHeader, receiver: Bytes, caller: Bytes, permission: Bytes)
    requires 4 * 13 + |receiver| + |caller| + |permission| < TWO_31
    ensures GetSize(SetRequiredPermission(SetCallerComponent(SetReceiverComponent(h, Some(receiver)), Some(caller)), Some(permission)))
      == 4 * 13 + |receiver| + |caller| + |permission|
  {
    GetSizeFormula(SetRequiredPermission(SetCallerComponent(SetReceiverComponent(h, Some(receiver)), Some(caller)), Some(permission)));
  }

  /** `BroadcastIntentHeaderTest.testGetSize`: components of 13 and 11 characters and a 27-character permission give 103. */
  lemma TestSize(h: BroadcastHeader, receiver: Bytes, caller: Bytes, permission: Bytes)
    requires |receiver| == 13 && |caller| == 11 && |permission| == 27
    ensures GetSize(SetRequiredPermission(SetCallerComponent(SetReceiverComponent(h, Some(receiver)), Some(caller)), Some(permission))) == 103
  {
    SizeAfterSetters(h, receiver, caller, permission);
  }

  /**
   * The parsing constructor on a header's encoding followed by a payload's:
   * every getter of the result returns what the original's getter returns
   * (components and permission up to null versus empty), the type is the
   * broadcast code, the attached data encodes as the payload did, and the
   * cursor is left at the start of the data.
   */
  lemma ParserReadsBack(h: BroadcastHeader, d: IntentData.Payload)
    requires WellFormed(h) && h.common.dataSize >= 0 && IntentData.WellFormed(d)
    ensures Encode(h).Success? && IntentData.Encode(d).Success?
    ensures var r := Decode(Encode(h).value + IntentData.Encode(d).value, 0, BroadcastKind);
      && r.Success? && r.value.0.Broadcast? && r.value.1 == |Encode(h).value|
      && var g := r.value.0;
      && g.common.timestamp == h.common.timestamp && g.common.offset == h.common.offset
      && IntentType(g) == TYPE_BROADCAST
      && g.common.callerUid == h.common.callerUid && g.common.callerPid == h.common.callerPid
      && g.common.receiverUid == h.common.receiverUid && g.common.receiverPid == h.common.receiverPid
      && g.common.userId == h.common.userId
      && g.requestCode == h.requestCode && g.flags == h.flags
      && Restored(g.receiver, h.receiver) && Restored(g.caller, h.caller) && Restored(g.permission, h.permission)
      && g.common.data.Some? && IntentData.Encode(g.common.data.value) == IntentData.Encode(d)
  {
    StreamReadsBack(h, d);
    WellFormedEncoding(h);
    StreamRoundTrip(h, d);
    var g := Decode(Encode(h).value + IntentData.Encode(d).value, 0, BroadcastKind).value.0;
    assert Extras(g)[0] == Extras(h)[0] && Extras(g)[1] == Extras(h)[1];
  }
}
